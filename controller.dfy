/**
 * The calls a groups controller receives (src/GroupsController.php, plus the
 * alternate-address and verify calls that the journal sends to its
 * controller), each with its arguments.
 */
module Controller {
  import opened Memberships

  datatype Call =
    | Begin
    | Complete
    | InsertBranch(branch: string)
    | DeleteBranch(branch: string)
    | InsertOffice(branch: string, office: string, properties: Properties)
    | DeleteOffice(branch: string, office: string, properties: Properties)
    | InsertMember(branch: string, office: string, address: string)
    | RemoveMember(branch: string, office: string, address: string)
    | InsertGroupAlternateAddress(branch: string, office: string, address: string)
    | RemoveGroupAlternateAddress(branch: string, office: string, address: string)
    | VerifyMember(branch: string, office: string, address: string)
    | VerifyGroupAlternateAddress(branch: string, office: string, address: string)
    | VerifyOffice(branch: string, office: string, properties: Properties)
}
