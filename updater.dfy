/**
 * The second-generation diff engine (src/Internal/Updater.php). It walks the
 * same two normalised trees as Groups, but it is handed the existing tree
 * instead of remembering it, it also diffs each office's alternate
 * addresses, and it sends its journal member and address calls that carry
 * the office's group-id as a fourth argument.
 *
 * As in Groups, the calls are specified by pure functions over the two
 * trees, defined from the end of each list so that the loops of the class
 * can be proved against them one entry at a time.
 */
module Updater {
  import opened Wrappers
  import opened OrderedMaps
  import opened Memberships
  import opened Normalize
  import opened Trace
  import opened Diff

  /** The calls Updater makes on its journal, with the arguments it passes. */
  datatype Request =
    | Begin
    | Complete
    | InsertBranch(branch: string)
    | DeleteBranch(branch: string)
    | InsertOffice(branch: string, office: string, properties: Properties)
    | DeleteOffice(branch: string, office: string, properties: Properties)
    | InsertMember(branch: string, office: string, groupId: Option<Value>, address: string)
    | RemoveMember(branch: string, office: string, groupId: Option<Value>, address: string)
    | InsertGroupAlternateAddress(branch: string, office: string, groupId: Option<Value>, address: string)
    | RemoveGroupAlternateAddress(branch: string, office: string, groupId: Option<Value>, address: string)

  /** $officeData['properties']['group-id'] */
  function GroupId(o: Office): Option<Value> {
    Prop(o.properties, "group-id")
  }

  // ---------------------------------------------------------------------------
  // One list of an office: its members, or its alternate addresses
  // ---------------------------------------------------------------------------

  datatype Kind = Member | Address

  function Insert(k: Kind, b: string, o: string, g: Option<Value>, a: string): Request {
    match k
    case Member => InsertMember(b, o, g, a)
    case Address => InsertGroupAlternateAddress(b, o, g, a)
  }

  function Remove(k: Kind, b: string, o: string, g: Option<Value>, a: string): Request {
    match k
    case Member => RemoveMember(b, o, g, a)
    case Address => RemoveGroupAlternateAddress(b, o, g, a)
  }

  function Inserts(k: Kind, b: string, o: string, g: Option<Value>, xs: seq<string>): seq<Request> {
    seq(|xs|, i requires 0 <= i < |xs| => Insert(k, b, o, g, xs[i]))
  }

  function Removes(k: Kind, b: string, o: string, g: Option<Value>, xs: seq<string>): seq<Request> {
    seq(|xs|, i requires 0 <= i < |xs| => Remove(k, b, o, g, xs[i]))
  }

  /** A call the diff of one list of office o makes, given the desired and existing list. */
  predicate ListRequest(c: Request, k: Kind, b: string, o: string, g: Option<Value>, want: seq<string>, have: seq<string>) {
    match c
    case InsertMember(cb, co, cg, a) => k == Member && cb == b && co == o && cg == g && a in want && a !in have
    case RemoveMember(cb, co, cg, a) => k == Member && cb == b && co == o && cg == g && a in have && a !in want
    case InsertGroupAlternateAddress(cb, co, cg, a) =>
      k == Address && cb == b && co == o && cg == g && a in want && a !in have
    case RemoveGroupAlternateAddress(cb, co, cg, a) =>
      k == Address && cb == b && co == o && cg == g && a in have && a !in want
    case _ => false
  }

  /**
   * updateOfficeMembers (k = Member) and updateOfficeAlternateAddresses
   * (k = Address): the desired entries the office lacks are inserted, then
   * the entries it has that are not desired are removed, each call carrying g.
   */
  function ListRequests(k: Kind, b: string, o: string, g: Option<Value>, want: seq<string>, have: seq<string>): seq<Request> {
    Inserts(k, b, o, g, Missing(want, have)) + Removes(k, b, o, g, Missing(have, want))
  }

  /** The calls of a list diff are exactly the inserts of what is lacking and the removals of what is not desired. */
  lemma ListRequestsIff(k: Kind, b: string, o: string, g: Option<Value>, want: seq<string>, have: seq<string>, c: Request)
    ensures c in ListRequests(k, b, o, g, want, have) <==> ListRequest(c, k, b, o, g, want, have)
  {
    var ins, rem := Missing(want, have), Missing(have, want);
    var r := Inserts(k, b, o, g, ins) + Removes(k, b, o, g, rem);
    if ListRequest(c, k, b, o, g, want, have) {
      if c.InsertMember? || c.InsertGroupAlternateAddress? {
        assert c.address in ins;
        var j :| 0 <= j < |ins| && ins[j] == c.address;
        assert r[j] == c;
      } else {
        assert c.address in rem;
        var j :| 0 <= j < |rem| && rem[j] == c.address;
        assert r[|ins| + j] == c;
      }
    }
    if c in r {
      var j :| 0 <= j < |r| && r[j] == c;
      if j < |ins| {
        assert ins[j] in ins;
      } else {
        assert rem[j - |ins|] in rem;
      }
    }
  }

  // ---------------------------------------------------------------------------
  // One office: present in the desired tree, the existing one, or both
  // ---------------------------------------------------------------------------

  function AddressesOf(o: Option<Office>): seq<string> {
    if o.Some? then GetAlternateAddresses(o.value) else []
  }

  predicate OfficeLevel(c: Request) {
    || c.InsertOffice? || c.DeleteOffice? || c.InsertMember? || c.RemoveMember?
    || c.InsertGroupAlternateAddress? || c.RemoveGroupAlternateAddress?
  }

  /**
   * A call the diff of office n of branch b makes. Lists are diffed only
   * for a desired office, against what exists (nothing, for a new office),
   * under the desired office's group-id; an office that is gone is only deleted.
   */
  predicate OfficeRequest(c: Request, b: string, n: string, want: Option<Office>, have: Option<Office>) {
    match c
    case InsertOffice(cb, co, p) => cb == b && co == n && want.Some? && have.None? && p == want.value.properties
    case DeleteOffice(cb, co, p) => cb == b && co == n && have.Some? && want.None? && p == have.value.properties
    case InsertMember(_, _, _, _) =>
      want.Some? && ListRequest(c, Member, b, n, GroupId(want.value), want.value.members, MembersOf(have))
    case RemoveMember(_, _, _, _) =>
      want.Some? && ListRequest(c, Member, b, n, GroupId(want.value), want.value.members, MembersOf(have))
    case InsertGroupAlternateAddress(_, _, _, _) =>
      want.Some? && ListRequest(c, Address, b, n, GroupId(want.value), GetAlternateAddresses(want.value), AddressesOf(have))
    case RemoveGroupAlternateAddress(_, _, _, _) =>
      want.Some? && ListRequest(c, Address, b, n, GroupId(want.value), GetAlternateAddresses(want.value), AddressesOf(have))
    case _ => false
  }

  /**
   * The office part of updateBranch when the office is in both trees,
   * insertOffice (as intended: see InsertOfficeAsWritten) when it is only
   * desired, deleteOffice when it only exists.
   */
  function OfficeRequests(b: string, n: string, want: Option<Office>, have: Option<Office>): seq<Request> {
    if want.Some? then
      var w := want.value;
      (if have.Some? then [] else [InsertOffice(b, n, w.properties)])
      + ListRequests(Member, b, n, GroupId(w), w.members, MembersOf(have))
      + ListRequests(Address, b, n, GroupId(w), GetAlternateAddresses(w), AddressesOf(have))
    else if have.Some? then [DeleteOffice(b, n, have.value.properties)]
    else []
  }

  /** The calls of an office's diff are exactly those OfficeRequest describes. */
  lemma OfficeRequestsIff(b: string, n: string, want: Option<Office>, have: Option<Office>, c: Request)
    ensures c in OfficeRequests(b, n, want, have) <==> OfficeRequest(c, b, n, want, have)
  {
    if want.Some? {
      var w := want.value;
      ListRequestsIff(Member, b, n, GroupId(w), w.members, MembersOf(have), c);
      ListRequestsIff(Address, b, n, GroupId(w), GetAlternateAddresses(w), AddressesOf(have), c);
    }
  }

  /** Every call of office n's diff names branch b and office n. */
  lemma OfficeRequestAbout(c: Request, b: string, n: string, want: Option<Office>, have: Option<Office>)
    ensures OfficeRequest(c, b, n, want, have) ==> OfficeLevel(c) && c.branch == b && c.office == n
  {
  }

  // ---------------------------------------------------------------------------
  // One branch, and the whole tree
  // ---------------------------------------------------------------------------

  /** The first loop of updateBranch, over the desired offices. */
  function OfficeUpserts(b: string, want: OMap<Office>, have: OMap<Office>): (r: seq<Request>)
    decreases |want|
  {
    if want == [] then []
    else
      var init, last := want[..|want| - 1], want[|want| - 1];
      OfficeUpserts(b, init, have) + OfficeRequests(b, last.0, Some(last.1), Lookup(have, last.0))
  }

  /** The second loop of updateBranch, over the existing offices. */
  function OfficeDrops(b: string, have: OMap<Office>, want: OMap<Office>): (r: seq<Request>)
    decreases |have|
  {
    if have == [] then []
    else
      var init, last := have[..|have| - 1], have[|have| - 1];
      OfficeDrops(b, init, want)
      + (if HasKey(want, last.0) then [] else OfficeRequests(b, last.0, None, Some(last.1)))
  }

  /** updateBranch. */
  function BranchRequests(b: string, want: OMap<Office>, have: OMap<Office>): seq<Request> {
    OfficeUpserts(b, want, have) + OfficeDrops(b, have, want)
  }

  predicate HasBranch(c: Request) {
    !c.Begin? && !c.Complete?
  }

  function OfficeOf(br: Option<Branch>, n: string): Option<Office> {
    if br.Some? then Lookup(br.value.lists, n) else None
  }

  /** A call the diff of branch b makes: a branch that is gone is only deleted. */
  predicate BranchRequest(c: Request, b: string, want: Option<Branch>, have: Option<Branch>) {
    match c
    case InsertBranch(cb) => cb == b && want.Some? && have.None?
    case DeleteBranch(cb) => cb == b && have.Some? && want.None?
    case _ => OfficeLevel(c) && want.Some? && OfficeRequest(c, b, c.office, OfficeOf(want, c.office), OfficeOf(have, c.office))
  }

  /** updateBranch when the branch is in both trees, insertBranch when it is only desired, deleteBranch when it only exists. */
  function BranchLevelRequests(b: string, want: Option<Branch>, have: Option<Branch>): seq<Request> {
    if want.Some? then
      (if have.Some? then [] else [InsertBranch(b)])
      + BranchRequests(b, want.value.lists, if have.Some? then have.value.lists else [])
    else if have.Some? then [DeleteBranch(b)]
    else []
  }

  /** The first loop of update, over the desired branches. */
  function BranchUpserts(want: State, have: State): (r: seq<Request>)
    decreases |want|
  {
    if want == [] then []
    else
      var init, last := want[..|want| - 1], want[|want| - 1];
      BranchUpserts(init, have) + BranchLevelRequests(last.0, Some(last.1), Lookup(have, last.0))
  }

  /** The second loop of update, over the existing branches. */
  function BranchDrops(have: State, want: State): (r: seq<Request>)
    decreases |have|
  {
    if have == [] then []
    else
      var init, last := have[..|have| - 1], have[|have| - 1];
      BranchDrops(init, want)
      + (if HasKey(want, last.0) then [] else BranchLevelRequests(last.0, None, Some(last.1)))
  }

  /** update: begin, the desired branches, the branches no longer desired, complete. */
  function UpdateRequests(want: State, have: State): seq<Request> {
    [Begin] + BranchUpserts(want, have) + BranchDrops(have, want) + [Complete]
  }

  // ---------------------------------------------------------------------------
  // One loop iteration at a time
  // ---------------------------------------------------------------------------

  lemma InsertsMissingStep(k: Kind, b: string, o: string, g: Option<Value>, want: seq<string>, have: seq<string>, i: nat)
    requires i < |want|
    ensures Inserts(k, b, o, g, Missing(want[..i + 1], have)) == Inserts(k, b, o, g, Missing(want[..i], have))
      + (if want[i] in have then [] else [Insert(k, b, o, g, want[i])])
  {
    MissingStep(want, have, i);
  }

  lemma RemovesMissingStep(k: Kind, b: string, o: string, g: Option<Value>, have: seq<string>, want: seq<string>, j: nat)
    requires j < |have|
    ensures Removes(k, b, o, g, Missing(have[..j + 1], want)) == Removes(k, b, o, g, Missing(have[..j], want))
      + (if have[j] in want then [] else [Remove(k, b, o, g, have[j])])
  {
    MissingStep(have, want, j);
  }

  lemma OfficeUpsertsStep(b: string, want: OMap<Office>, have: OMap<Office>, i: nat)
    requires i < |want|
    ensures OfficeUpserts(b, want[..i + 1], have)
      == OfficeUpserts(b, want[..i], have) + OfficeRequests(b, want[i].0, Some(want[i].1), Lookup(have, want[i].0))
  {
    assert want[..i + 1][..i] == want[..i];
  }

  lemma OfficeDropsStep(b: string, have: OMap<Office>, want: OMap<Office>, i: nat)
    requires i < |have|
    ensures OfficeDrops(b, have[..i + 1], want) == OfficeDrops(b, have[..i], want)
      + (if HasKey(want, have[i].0) then [] else OfficeRequests(b, have[i].0, None, Some(have[i].1)))
  {
    assert have[..i + 1][..i] == have[..i];
  }

  lemma BranchUpsertsStep(want: State, have: State, i: nat)
    requires i < |want|
    ensures BranchUpserts(want[..i + 1], have)
      == BranchUpserts(want[..i], have) + BranchLevelRequests(want[i].0, Some(want[i].1), Lookup(have, want[i].0))
  {
    assert want[..i + 1][..i] == want[..i];
  }

  lemma BranchDropsStep(have: State, want: State, i: nat)
    requires i < |have|
    ensures BranchDrops(have[..i + 1], want) == BranchDrops(have[..i], want)
      + (if HasKey(want, have[i].0) then [] else BranchLevelRequests(have[i].0, None, Some(have[i].1)))
  {
    assert have[..i + 1][..i] == have[..i];
  }

  // ---------------------------------------------------------------------------
  // Which calls update makes
  // ---------------------------------------------------------------------------

  /** The first loop of updateBranch makes exactly the calls of the desired offices. */
  lemma {:induction false} OfficeUpsertsIff(b: string, want: OMap<Office>, have: OMap<Office>, c: Request)
    requires KeysUnique(want)
    ensures c in OfficeUpserts(b, want, have) <==>
      OfficeLevel(c) && HasKey(want, c.office) && OfficeRequest(c, b, c.office, Lookup(want, c.office), Lookup(have, c.office))
    decreases |want|
  {
    if want != [] {
      var init, last := want[..|want| - 1], want[|want| - 1];
      assert want == init + [last];
      LookupSnoc(init, last.0, last.1, if OfficeLevel(c) then c.office else "");
      OfficeRequestsIff(b, last.0, Some(last.1), Lookup(have, last.0), c);
      OfficeRequestAbout(c, b, last.0, Some(last.1), Lookup(have, last.0));
      OfficeUpsertsIff(b, init, have, c);
    }
  }

  /** The second loop of updateBranch makes exactly the deletions of the offices no longer desired. */
  lemma {:induction false} OfficeDropsIff(b: string, have: OMap<Office>, want: OMap<Office>, c: Request)
    requires KeysUnique(have)
    ensures c in OfficeDrops(b, have, want) <==>
      OfficeLevel(c) && HasKey(have, c.office) && !HasKey(want, c.office)
      && OfficeRequest(c, b, c.office, None, Lookup(have, c.office))
    decreases |have|
  {
    if have != [] {
      var init, last := have[..|have| - 1], have[|have| - 1];
      assert have == init + [last];
      LookupSnoc(init, last.0, last.1, if OfficeLevel(c) then c.office else "");
      OfficeRequestsIff(b, last.0, None, Some(last.1), c);
      OfficeRequestAbout(c, b, last.0, None, Some(last.1));
      OfficeDropsIff(b, init, want, c);
    }
  }

  /** updateBranch makes, for every office in either tree, exactly the calls of that office's diff. */
  lemma BranchRequestsIff(b: string, want: OMap<Office>, have: OMap<Office>, c: Request)
    requires KeysUnique(want) && KeysUnique(have)
    ensures c in BranchRequests(b, want, have) <==>
      OfficeLevel(c) && OfficeRequest(c, b, c.office, Lookup(want, c.office), Lookup(have, c.office))
  {
    OfficeUpsertsIff(b, want, have, c);
    OfficeDropsIff(b, have, want, c);
  }

  lemma BranchLevelIff(b: string, want: Option<Branch>, have: Option<Branch>, c: Request)
    requires want.Some? ==> KeysUnique(want.value.lists)
    requires have.Some? ==> KeysUnique(have.value.lists)
    ensures c in BranchLevelRequests(b, want, have) <==> BranchRequest(c, b, want, have)
  {
    if want.Some? {
      var hl := if have.Some? then have.value.lists else [];
      var head := if have.Some? then [] else [InsertBranch(b)];
      assert BranchLevelRequests(b, want, have) == head + BranchRequests(b, want.value.lists, hl);
      if OfficeLevel(c) {
        var wo, ho := Lookup(want.value.lists, c.office), Lookup(hl, c.office);
        assert OfficeOf(want, c.office) == wo && OfficeOf(have, c.office) == ho;
        assert BranchRequest(c, b, want, have) == OfficeRequest(c, b, c.office, wo, ho);
        assert c !in head;
        BranchRequestsIff(b, want.value.lists, hl, c);
      } else {
        assert c !in BranchRequests(b, want.value.lists, hl) by {
          BranchRequestsIff(b, want.value.lists, hl, c);
        }
      }
    }
  }

  /** Every call of branch b's diff names branch b. */
  lemma BranchRequestAbout(c: Request, b: string, want: Option<Branch>, have: Option<Branch>)
    ensures BranchRequest(c, b, want, have) ==> HasBranch(c) && c.branch == b
  {
    if OfficeLevel(c) {
      OfficeRequestAbout(c, b, c.office, OfficeOf(want, c.office), OfficeOf(have, c.office));
    }
  }

  /** The first loop of update makes exactly the calls of the desired branches. */
  lemma {:induction false} BranchUpsertsIff(want: State, have: State, c: Request)
    requires WellKeyed(want) && WellKeyed(have)
    ensures c in BranchUpserts(want, have) <==>
      HasBranch(c) && HasKey(want, c.branch) && BranchRequest(c, c.branch, Lookup(want, c.branch), Lookup(have, c.branch))
    decreases |want|
  {
    if want != [] {
      var init, last := want[..|want| - 1], want[|want| - 1];
      assert want == init + [last];
      WellKeyedInit(want);
      WellKeyedLookup(have, last.0);
      LookupSnoc(init, last.0, last.1, if HasBranch(c) then c.branch else "");
      BranchLevelIff(last.0, Some(last.1), Lookup(have, last.0), c);
      BranchRequestAbout(c, last.0, Some(last.1), Lookup(have, last.0));
      BranchUpsertsIff(init, have, c);
    }
  }

  /** The second loop of update makes exactly the deletions of the branches no longer desired. */
  lemma {:induction false} BranchDropsIff(have: State, want: State, c: Request)
    requires WellKeyed(have)
    ensures c in BranchDrops(have, want) <==> c.DeleteBranch? && HasKey(have, c.branch) && !HasKey(want, c.branch)
    decreases |have|
  {
    if have != [] {
      var init, last := have[..|have| - 1], have[|have| - 1];
      assert have == init + [last];
      WellKeyedInit(have);
      var tail := if HasKey(want, last.0) then [] else [DeleteBranch(last.0)];
      assert BranchDrops(have, want) == BranchDrops(init, want) + tail by {
        assert BranchLevelRequests(last.0, None, Some(last.1)) == [DeleteBranch(last.0)];
      }
      LookupSnoc(init, last.0, last.1, if c.DeleteBranch? then c.branch else "");
      BranchDropsIff(init, want, c);
    }
  }

  /**
   * update brackets its work with begin and complete, and between them makes
   * exactly the calls of every branch's diff, for branches in either tree.
   */
  lemma UpdateRequestsIff(want: State, have: State, c: Request)
    requires WellKeyed(want) && WellKeyed(have)
    ensures c in UpdateRequests(want, have) <==>
      c == Begin || c == Complete
      || (HasBranch(c) && BranchRequest(c, c.branch, Lookup(want, c.branch), Lookup(have, c.branch)))
  {
    BranchUpsertsIff(want, have, c);
    BranchDropsIff(have, want, c);
  }

  function OfficeAt(s: State, b: string, o: string): Option<Office> {
    OfficeOf(Lookup(s, b), o)
  }

  /** A call about branch b, office o, as the diff of that office sees it. */
  lemma {:induction false} InUpdate(want: State, have: State, c: Request)
    requires WellKeyed(want) && WellKeyed(have) && OfficeLevel(c)
    ensures c in UpdateRequests(want, have) <==>
      Lookup(want, c.branch).Some?
      && OfficeRequest(c, c.branch, c.office, OfficeAt(want, c.branch, c.office), OfficeAt(have, c.branch, c.office))
  {
    UpdateRequestsIff(want, have, c);
  }

  /**
   * A member is inserted exactly when the desired tree has it and the
   * existing one does not, and removed exactly when the existing office has
   * it and the desired office, still there, does not; either call carries
   * the desired office's group-id.
   */
  lemma MembersSynced(want: State, have: State, b: string, o: string, g: Option<Value>, m: string)
    requires WellKeyed(want) && WellKeyed(have)
    ensures InsertMember(b, o, g, m) in UpdateRequests(want, have) <==>
      OfficeAt(want, b, o).Some? && g == GroupId(OfficeAt(want, b, o).value)
      && m in OfficeAt(want, b, o).value.members && m !in MembersOf(OfficeAt(have, b, o))
    ensures RemoveMember(b, o, g, m) in UpdateRequests(want, have) <==>
      OfficeAt(want, b, o).Some? && g == GroupId(OfficeAt(want, b, o).value)
      && m in MembersOf(OfficeAt(have, b, o)) && m !in OfficeAt(want, b, o).value.members
  {
    InUpdate(want, have, InsertMember(b, o, g, m));
    InUpdate(want, have, RemoveMember(b, o, g, m));
    MemberRequestAt(b, o, g, m, OfficeAt(want, b, o), OfficeAt(have, b, o));
  }

  lemma MemberRequestAt(b: string, o: string, g: Option<Value>, m: string, want: Option<Office>, have: Option<Office>)
    ensures OfficeRequest(InsertMember(b, o, g, m), b, o, want, have) <==>
      want.Some? && g == GroupId(want.value) && m in want.value.members && m !in MembersOf(have)
    ensures OfficeRequest(RemoveMember(b, o, g, m), b, o, want, have) <==>
      want.Some? && g == GroupId(want.value) && m in MembersOf(have) && m !in want.value.members
  {
  }

  lemma AddressRequestAt(b: string, o: string, g: Option<Value>, a: string, want: Option<Office>, have: Option<Office>)
    ensures OfficeRequest(InsertGroupAlternateAddress(b, o, g, a), b, o, want, have) <==>
      want.Some? && g == GroupId(want.value) && a in GetAlternateAddresses(want.value) && a !in AddressesOf(have)
    ensures OfficeRequest(RemoveGroupAlternateAddress(b, o, g, a), b, o, want, have) <==>
      want.Some? && g == GroupId(want.value) && a in AddressesOf(have) && a !in GetAlternateAddresses(want.value)
  {
  }

  /** Alternate addresses are inserted and removed by the same rule as members, read through getAlternateAddresses. */
  lemma AddressesSynced(want: State, have: State, b: string, o: string, g: Option<Value>, a: string)
    requires WellKeyed(want) && WellKeyed(have)
    ensures InsertGroupAlternateAddress(b, o, g, a) in UpdateRequests(want, have) <==>
      OfficeAt(want, b, o).Some? && g == GroupId(OfficeAt(want, b, o).value)
      && a in GetAlternateAddresses(OfficeAt(want, b, o).value) && a !in AddressesOf(OfficeAt(have, b, o))
    ensures RemoveGroupAlternateAddress(b, o, g, a) in UpdateRequests(want, have) <==>
      OfficeAt(want, b, o).Some? && g == GroupId(OfficeAt(want, b, o).value)
      && a in AddressesOf(OfficeAt(have, b, o)) && a !in GetAlternateAddresses(OfficeAt(want, b, o).value)
  {
    InUpdate(want, have, InsertGroupAlternateAddress(b, o, g, a));
    InUpdate(want, have, RemoveGroupAlternateAddress(b, o, g, a));
    AddressRequestAt(b, o, g, a, OfficeAt(want, b, o), OfficeAt(have, b, o));
  }

  /**
   * An office is inserted exactly when it is new; it is deleted exactly when
   * it is gone from a branch that is still desired.
   */
  lemma OfficesSynced(want: State, have: State, b: string, o: string, p: Properties)
    requires WellKeyed(want) && WellKeyed(have)
    ensures InsertOffice(b, o, p) in UpdateRequests(want, have) <==>
      OfficeAt(want, b, o).Some? && OfficeAt(have, b, o).None? && p == OfficeAt(want, b, o).value.properties
    ensures DeleteOffice(b, o, p) in UpdateRequests(want, have) <==>
      HasKey(want, b) && OfficeAt(want, b, o).None? && OfficeAt(have, b, o).Some?
      && p == OfficeAt(have, b, o).value.properties
  {
    InUpdate(want, have, InsertOffice(b, o, p));
    InUpdate(want, have, DeleteOffice(b, o, p));
    OfficeRequestAt(b, o, p, OfficeAt(want, b, o), OfficeAt(have, b, o));
  }

  lemma OfficeRequestAt(b: string, o: string, p: Properties, want: Option<Office>, have: Option<Office>)
    ensures OfficeRequest(InsertOffice(b, o, p), b, o, want, have) <==>
      want.Some? && have.None? && p == want.value.properties
    ensures OfficeRequest(DeleteOffice(b, o, p), b, o, want, have) <==>
      have.Some? && want.None? && p == have.value.properties
  {
  }

  /** A branch is inserted exactly when it is new, and deleted exactly when it is gone. */
  lemma BranchesSynced(want: State, have: State, b: string)
    requires WellKeyed(want) && WellKeyed(have)
    ensures InsertBranch(b) in UpdateRequests(want, have) <==> HasKey(want, b) && !HasKey(have, b)
    ensures DeleteBranch(b) in UpdateRequests(want, have) <==> HasKey(have, b) && !HasKey(want, b)
  {
    UpdateRequestsIff(want, have, InsertBranch(b));
    UpdateRequestsIff(want, have, DeleteBranch(b));
  }

  /** A branch that is gone gets its deleteBranch call and nothing else: its offices are not torn down. */
  lemma GoneBranchOnlyDeleted(want: State, have: State, c: Request)
    requires WellKeyed(want) && WellKeyed(have)
    requires c in UpdateRequests(want, have) && HasBranch(c) && !HasKey(want, c.branch)
    ensures c == DeleteBranch(c.branch)
  {
    UpdateRequestsIff(want, have, c);
  }

  /** An office that is gone gets its deleteOffice call and nothing else: its members are not removed. */
  lemma GoneOfficeOnlyDeleted(want: State, have: State, c: Request)
    requires WellKeyed(want) && WellKeyed(have)
    requires c in UpdateRequests(want, have) && OfficeLevel(c) && OfficeAt(want, c.branch, c.office).None?
    ensures c.DeleteOffice?
  {
    UpdateRequestsIff(want, have, c);
  }

  // ---------------------------------------------------------------------------
  // In which order, and what a sync of an unchanged tree does
  // ---------------------------------------------------------------------------

  /** Every call of the first loop of update is about a desired branch. */
  lemma UpsertsAbout(want: State, have: State, c: Request)
    requires WellKeyed(want) && WellKeyed(have)
    ensures c in BranchUpserts(want, have) ==> HasBranch(c) && HasKey(want, c.branch)
  {
    BranchUpsertsIff(want, have, c);
  }

  /** Every call of the second loop of update is about a branch that is no longer desired. */
  lemma DropsAbout(have: State, want: State, c: Request)
    requires WellKeyed(have)
    ensures c in BranchDrops(have, want) ==> HasBranch(c) && !HasKey(want, c.branch)
  {
    BranchDropsIff(have, want, c);
  }

  /**
   * update sends begin first and complete last; in between come first the
   * calls about desired branches, then those about branches that are gone.
   */
  lemma UpdateOrdered(want: State, have: State)
    requires WellKeyed(want) && WellKeyed(have)
    ensures UpdateRequests(want, have) == [Begin] + BranchUpserts(want, have) + BranchDrops(have, want) + [Complete]
    ensures forall c :: c in BranchUpserts(want, have) ==> HasBranch(c) && HasKey(want, c.branch)
    ensures forall c :: c in BranchDrops(have, want) ==> HasBranch(c) && !HasKey(want, c.branch)
  {
    forall c | c in BranchUpserts(want, have) ensures HasBranch(c) && HasKey(want, c.branch) {
      UpsertsAbout(want, have, c);
    }
    forall c | c in BranchDrops(have, want) ensures HasBranch(c) && !HasKey(want, c.branch) {
      DropsAbout(have, want, c);
    }
  }

  /** Every call about a desired branch comes before every call about a branch that is gone. */
  lemma DesiredBranchesFirst(want: State, have: State, i: nat, j: nat)
    requires WellKeyed(want) && WellKeyed(have)
    requires 0 < i < |UpdateRequests(want, have)| - 1 && 0 < j < |UpdateRequests(want, have)| - 1
    requires HasBranch(UpdateRequests(want, have)[i]) && HasBranch(UpdateRequests(want, have)[j])
    requires HasKey(want, UpdateRequests(want, have)[i].branch) && !HasKey(want, UpdateRequests(want, have)[j].branch)
    ensures i < j
  {
    UpdateOrdered(want, have);
    var desired := (c: Request) => HasBranch(c) && HasKey(want, c.branch);
    BlockOrder(UpdateRequests(want, have), Begin, BranchUpserts(want, have), BranchDrops(have, want), Complete, desired, i, j);
  }

  lemma UnchangedOfficeQuiet(b: string, n: string, o: Office)
    ensures OfficeRequests(b, n, Some(o), Some(o)) == []
  {
    MissingSelf(o.members);
    MissingSelf(GetAlternateAddresses(o));
  }

  lemma {:induction false} UnchangedOfficesQuiet(b: string, offices: OMap<Office>, k: nat)
    requires KeysUnique(offices) && k <= |offices|
    ensures OfficeUpserts(b, offices[..k], offices) == []
    ensures OfficeDrops(b, offices[..k], offices) == []
  {
    if k > 0 {
      var p := offices[..k];
      assert p[..|p| - 1] == offices[..k - 1];
      GetAt(offices, k - 1);
      UnchangedOfficeQuiet(b, offices[k - 1].0, offices[k - 1].1);
      UnchangedOfficesQuiet(b, offices, k - 1);
    }
  }

  lemma {:induction false} UnchangedBranchesQuiet(s: State, k: nat)
    requires WellKeyed(s) && k <= |s|
    ensures BranchUpserts(s[..k], s) == []
    ensures BranchDrops(s[..k], s) == []
  {
    if k > 0 {
      var p := s[..k];
      assert p[..|p| - 1] == s[..k - 1];
      GetAt(s, k - 1);
      var lists := s[k - 1].1.lists;
      UnchangedOfficesQuiet(s[k - 1].0, lists, |lists|);
      assert lists[..|lists|] == lists;
      UnchangedBranchesQuiet(s, k - 1);
    }
  }

  /** update(S, S) sends only begin and complete. */
  lemma UpdateUnchangedQuiet(s: State)
    requires WellKeyed(s)
    ensures UpdateRequests(s, s) == [Begin, Complete]
  {
    UnchangedBranchesQuiet(s, |s|);
    assert s[..|s|] == s;
  }

  // ---------------------------------------------------------------------------
  // insertOffice as written
  // ---------------------------------------------------------------------------

  /**
   * `$data['properties']` when PHP holds the office data as the given value.
   * NULL and booleans index to NULL; a string has no offset 'properties'
   * that isset() accepts; a plain list only has integer keys. Only an array
   * with a 'properties' key, which no group-id is, would give one.
   */
  function PropertiesEntry(data: Option<Value>): Option<Properties> {
    match data
    case None => None
    case Some(Str(_)) => None
    case Some(Flag(_)) => None
    case Some(List(_)) => None
  }

  /**
   * insertOffice passes the group-id where getAlternateAddresses expects the
   * office data: the lookup runs on the group-id itself. Whatever the
   * group-id is (a string, a list, a flag or unset), it yields no addresses.
   */
  function AlternateAddressesOfGroupId(groupId: Option<Value>): (r: seq<string>)
    ensures r == []
  {
    AlternateAddressesIn(PropertiesEntry(groupId))
  }

  /** The calls insertOffice makes as written: no alternate address is ever inserted. */
  function InsertOfficeAsWritten(b: string, n: string, w: Office): (r: seq<Request>)
    ensures forall c {:trigger c in r} :: c in r ==> !c.InsertGroupAlternateAddress?
  {
    var g, none := GroupId(w), AlternateAddressesOfGroupId(GroupId(w));
    var r := [InsertOffice(b, n, w.properties)]
      + ListRequests(Member, b, n, g, w.members, [])
      + ListRequests(Address, b, n, g, none, []);
    assert forall c | c in r :: !c.InsertGroupAlternateAddress? by {
      forall c | c in r ensures !c.InsertGroupAlternateAddress? {
        ListRequestsIff(Member, b, n, g, w.members, [], c);
        ListRequestsIff(Address, b, n, g, none, [], c);
      }
    }
    r
  }

  /** A new office with an alternate address: announced as intended, lost as written. */
  lemma InsertOfficeAsWrittenDropsAddress(b: string, n: string, w: Office, a: string)
    requires a in GetAlternateAddresses(w)
    ensures InsertGroupAlternateAddress(b, n, GroupId(w), a) !in InsertOfficeAsWritten(b, n, w)
    ensures InsertGroupAlternateAddress(b, n, GroupId(w), a) in OfficeRequests(b, n, Some(w), None)
  {
    var c := InsertGroupAlternateAddress(b, n, GroupId(w), a);
    assert c !in InsertOfficeAsWritten(b, n, w) by {
      assert c.InsertGroupAlternateAddress?;
    }
    assert c in OfficeRequests(b, n, Some(w), None) by {
      OfficeRequestsIff(b, n, Some(w), None, c);
    }
  }

  // ---------------------------------------------------------------------------
  // The class
  // ---------------------------------------------------------------------------

  class Updater {
    const ctrl: Recorder<Request>

    constructor(ctrl: Recorder<Request>)
      ensures this.ctrl == ctrl
    {
      this.ctrl := ctrl;
    }

    /** update: send the calls that bring the existing tree to the desired one. */
    method Update(memberships: State, existingState: State)
      modifies ctrl
      ensures ctrl.calls == old(ctrl.calls) + UpdateRequests(memberships, existingState)
    {
      ctrl.Send(Begin);
      UpsertBranches(memberships, existingState);
      DropBranches(existingState, memberships);
      ctrl.Send(Complete);
      Appended4(old(ctrl.calls), [Begin], BranchUpserts(memberships, existingState),
        BranchDrops(existingState, memberships), [Complete]);
    }

    /** The first loop of update: every desired branch, in order. */
    method UpsertBranches(desired: State, existing: State)
      modifies ctrl
      ensures ctrl.calls == old(ctrl.calls) + BranchUpserts(desired, existing)
    {
      var i := 0;
      while i < |desired|
        invariant 0 <= i <= |desired|
        invariant ctrl.calls == old(ctrl.calls) + BranchUpserts(desired[..i], existing)
      {
        UpsertBranchesPass(desired, existing, i, old(ctrl.calls));
        i := i + 1;
      }
      assert desired[..i] == desired;
    }

    /** Pass i of the loop in UpsertBranches: carries its invariant from i to i + 1. */
    method UpsertBranchesPass(desired: State, existing: State, i: nat, ghost before: seq<Request>)
      requires i < |desired|
      requires ctrl.calls == before + BranchUpserts(desired[..i], existing)
      modifies ctrl
      ensures ctrl.calls == before + BranchUpserts(desired[..i + 1], existing)
    {
      var (name, branch) := desired[i];
      UpsertBranch(name, branch, existing);
      Appended(before, BranchUpserts(desired[..i], existing),
        BranchLevelRequests(name, Some(branch), Lookup(existing, name)),
        BranchUpserts(desired[..i + 1], existing)) by {
        BranchUpsertsStep(desired, existing, i);
      }
    }

    /** The second loop of update: every existing branch that is no longer desired. */
    method DropBranches(existing: State, desired: State)
      modifies ctrl
      ensures ctrl.calls == old(ctrl.calls) + BranchDrops(existing, desired)
    {
      var j := 0;
      while j < |existing|
        invariant 0 <= j <= |existing|
        invariant ctrl.calls == old(ctrl.calls) + BranchDrops(existing[..j], desired)
      {
        DropBranchesPass(existing, desired, j, old(ctrl.calls));
        j := j + 1;
      }
      assert existing[..j] == existing;
    }

    /** Pass j of the loop in DropBranches: carries its invariant from j to j + 1. */
    method DropBranchesPass(existing: State, desired: State, j: nat, ghost before: seq<Request>)
      requires j < |existing|
      requires ctrl.calls == before + BranchDrops(existing[..j], desired)
      modifies ctrl
      ensures ctrl.calls == before + BranchDrops(existing[..j + 1], desired)
    {
      var (name, branch) := existing[j];
      ghost var step := if HasKey(desired, name) then [] else BranchLevelRequests(name, None, Some(branch));
      if !HasKey(desired, name) {
        DeleteBranch(name, branch);
      }
      Appended(before, BranchDrops(existing[..j], desired), step,
        BranchDrops(existing[..j + 1], desired)) by {
        BranchDropsStep(existing, desired, j);
      }
    }

    /** One pass of update's first loop: update the branch if it exists, insert it otherwise. */
    method UpsertBranch(name: string, branch: Branch, existing: State)
      modifies ctrl
      ensures ctrl.calls == old(ctrl.calls) + BranchLevelRequests(name, Some(branch), Lookup(existing, name))
    {
      if HasKey(existing, name) {
        ghost var offices := BranchRequests(name, branch.lists, Get(existing, name).lists);
        UpdateBranch(name, branch.lists, Get(existing, name).lists);
        assert BranchLevelRequests(name, Some(branch), Lookup(existing, name)) == offices by {
          assert [] + offices == offices;
        }
      } else {
        ghost var offices := BranchRequests(name, branch.lists, []);
        InsertBranch(name, branch.lists);
        Appended(old(ctrl.calls), [Request.InsertBranch(name)], offices, BranchLevelRequests(name, Some(branch), Lookup(existing, name)));
      }
    }

    /** updateBranch: the desired offices in order, then the existing ones no longer desired. */
    method UpdateBranch(b: string, updateOffices: OMap<Office>, existingOffices: OMap<Office>)
      modifies ctrl
      ensures ctrl.calls == old(ctrl.calls) + BranchRequests(b, updateOffices, existingOffices)
    {
      UpsertOffices(b, updateOffices, existingOffices);
      DropOffices(b, existingOffices, updateOffices);
      Appended(old(ctrl.calls), OfficeUpserts(b, updateOffices, existingOffices),
        OfficeDrops(b, existingOffices, updateOffices), BranchRequests(b, updateOffices, existingOffices));
    }

    /** The first loop of updateBranch: every desired office, in order. */
    method UpsertOffices(b: string, updateOffices: OMap<Office>, existingOffices: OMap<Office>)
      modifies ctrl
      ensures ctrl.calls == old(ctrl.calls) + OfficeUpserts(b, updateOffices, existingOffices)
    {
      var i := 0;
      while i < |updateOffices|
        invariant 0 <= i <= |updateOffices|
        invariant ctrl.calls == old(ctrl.calls) + OfficeUpserts(b, updateOffices[..i], existingOffices)
      {
        UpsertOfficesPass(b, updateOffices, existingOffices, i, old(ctrl.calls));
        i := i + 1;
      }
      assert updateOffices[..i] == updateOffices;
    }

    /** Pass i of the loop in UpsertOffices: carries its invariant from i to i + 1. */
    method UpsertOfficesPass(b: string, updateOffices: OMap<Office>, existingOffices: OMap<Office>, i: nat, ghost before: seq<Request>)
      requires i < |updateOffices|
      requires ctrl.calls == before + OfficeUpserts(b, updateOffices[..i], existingOffices)
      modifies ctrl
      ensures ctrl.calls == before + OfficeUpserts(b, updateOffices[..i + 1], existingOffices)
    {
      var (name, data) := updateOffices[i];
      UpsertOffice(b, name, data, existingOffices);
      Appended(before, OfficeUpserts(b, updateOffices[..i], existingOffices),
        OfficeRequests(b, name, Some(data), Lookup(existingOffices, name)),
        OfficeUpserts(b, updateOffices[..i + 1], existingOffices)) by {
        OfficeUpsertsStep(b, updateOffices, existingOffices, i);
      }
    }

    /** The second loop of updateBranch: every existing office that is no longer desired. */
    method DropOffices(b: string, existingOffices: OMap<Office>, updateOffices: OMap<Office>)
      modifies ctrl
      ensures ctrl.calls == old(ctrl.calls) + OfficeDrops(b, existingOffices, updateOffices)
    {
      var j := 0;
      while j < |existingOffices|
        invariant 0 <= j <= |existingOffices|
        invariant ctrl.calls == old(ctrl.calls) + OfficeDrops(b, existingOffices[..j], updateOffices)
      {
        DropOfficesPass(b, existingOffices, updateOffices, j, old(ctrl.calls));
        j := j + 1;
      }
      assert existingOffices[..j] == existingOffices;
    }

    /** Pass j of the loop in DropOffices: carries its invariant from j to j + 1. */
    method DropOfficesPass(b: string, existingOffices: OMap<Office>, updateOffices: OMap<Office>, j: nat, ghost before: seq<Request>)
      requires j < |existingOffices|
      requires ctrl.calls == before + OfficeDrops(b, existingOffices[..j], updateOffices)
      modifies ctrl
      ensures ctrl.calls == before + OfficeDrops(b, existingOffices[..j + 1], updateOffices)
    {
      var (name, data) := existingOffices[j];
      ghost var step := if HasKey(updateOffices, name) then [] else OfficeRequests(b, name, None, Some(data));
      if !HasKey(updateOffices, name) {
        DeleteOffice(b, name, data);
      }
      Appended(before, OfficeDrops(b, existingOffices[..j], updateOffices), step,
        OfficeDrops(b, existingOffices[..j + 1], updateOffices)) by {
        OfficeDropsStep(b, existingOffices, updateOffices, j);
      }
    }

    /**
     * One pass of updateBranch's first loop: for an existing office, diff its
     * members and then its alternate addresses; otherwise insert it.
     */
    method UpsertOffice(b: string, name: string, data: Office, existingOffices: OMap<Office>)
      modifies ctrl
      ensures ctrl.calls == old(ctrl.calls) + OfficeRequests(b, name, Some(data), Lookup(existingOffices, name))
    {
      if HasKey(existingOffices, name) {
        var existing := Get(existingOffices, name);
        UpdateOfficeMembers(b, name, GroupId(data), data.members, existing.members);
        var newAlternateAddresses := GetAlternateAddresses(data);
        var existingAlternateAddresses := GetAlternateAddresses(existing);
        UpdateOfficeAlternateAddresses(b, name, GroupId(data), newAlternateAddresses, existingAlternateAddresses);
        ghost var members := ListRequests(Member, b, name, GroupId(data), data.members, existing.members);
        ghost var addresses := ListRequests(Address, b, name, GroupId(data), newAlternateAddresses, existingAlternateAddresses);
        assert OfficeRequests(b, name, Some(data), Lookup(existingOffices, name)) == [] + members + addresses;
        Appended(old(ctrl.calls), members, addresses, [] + members + addresses);
      } else {
        InsertOffice(b, name, data);
      }
    }

    /** insertBranch: announce the branch, then insert every office as new. */
    method InsertBranch(b: string, newOffices: OMap<Office>)
      modifies ctrl
      ensures ctrl.calls == old(ctrl.calls) + [Request.InsertBranch(b)] + BranchRequests(b, newOffices, [])
    {
      ctrl.Send(Request.InsertBranch(b));
      UpdateBranch(b, newOffices, []);
    }

    /** deleteBranch: only the branch itself is deleted. */
    method DeleteBranch(b: string, removingOffices: Branch)
      modifies ctrl
      ensures ctrl.calls == old(ctrl.calls) + [Request.DeleteBranch(b)]
    {
      ctrl.Send(Request.DeleteBranch(b));
    }

    /** updateOfficeMembers: insert the desired members the office lacks, then remove the undesired ones. */
    method UpdateOfficeMembers(b: string, o: string, groupId: Option<Value>, updateMembers: seq<string>, existingMembers: seq<string>)
      modifies ctrl
      ensures ctrl.calls == old(ctrl.calls) + ListRequests(Member, b, o, groupId, updateMembers, existingMembers)
    {
      var i := 0;
      while i < |updateMembers|
        invariant 0 <= i <= |updateMembers|
        invariant ctrl.calls == old(ctrl.calls) + Inserts(Member, b, o, groupId, Missing(updateMembers[..i], existingMembers))
      {
        InsertPass(Member, b, o, groupId, updateMembers, existingMembers, i, old(ctrl.calls));
        i := i + 1;
      }
      assert updateMembers[..i] == updateMembers;
      ghost var inserted := Inserts(Member, b, o, groupId, Missing(updateMembers, existingMembers));
      assert Removes(Member, b, o, groupId, Missing(existingMembers[..0], updateMembers)) == [] by {
        assert existingMembers[..0] == [];
      }
      var j := 0;
      while j < |existingMembers|
        invariant 0 <= j <= |existingMembers|
        invariant ctrl.calls == old(ctrl.calls) + inserted + Removes(Member, b, o, groupId, Missing(existingMembers[..j], updateMembers))
      {
        RemovePass(Member, b, o, groupId, existingMembers, updateMembers, j, old(ctrl.calls) + inserted);
        j := j + 1;
      }
      assert existingMembers[..j] == existingMembers;
    }

    /** updateOfficeAlternateAddresses: the same diff over the office's alternate addresses. */
    method UpdateOfficeAlternateAddresses(b: string, o: string, groupId: Option<Value>, newAlternateAddresses: seq<string>, existingAlternateAddresses: seq<string>)
      modifies ctrl
      ensures ctrl.calls == old(ctrl.calls) + ListRequests(Address, b, o, groupId, newAlternateAddresses, existingAlternateAddresses)
    {
      var i := 0;
      while i < |newAlternateAddresses|
        invariant 0 <= i <= |newAlternateAddresses|
        invariant ctrl.calls == old(ctrl.calls) + Inserts(Address, b, o, groupId, Missing(newAlternateAddresses[..i], existingAlternateAddresses))
      {
        InsertPass(Address, b, o, groupId, newAlternateAddresses, existingAlternateAddresses, i, old(ctrl.calls));
        i := i + 1;
      }
      assert newAlternateAddresses[..i] == newAlternateAddresses;
      ghost var inserted := Inserts(Address, b, o, groupId, Missing(newAlternateAddresses, existingAlternateAddresses));
      assert Removes(Address, b, o, groupId, Missing(existingAlternateAddresses[..0], newAlternateAddresses)) == [] by {
        assert existingAlternateAddresses[..0] == [];
      }
      var j := 0;
      while j < |existingAlternateAddresses|
        invariant 0 <= j <= |existingAlternateAddresses|
        invariant ctrl.calls == old(ctrl.calls) + inserted + Removes(Address, b, o, groupId, Missing(existingAlternateAddresses[..j], newAlternateAddresses))
      {
        RemovePass(Address, b, o, groupId, existingAlternateAddresses, newAlternateAddresses, j, old(ctrl.calls) + inserted);
        j := j + 1;
      }
      assert existingAlternateAddresses[..j] == existingAlternateAddresses;
    }

    /** Pass i of an insert loop: send the insert for want[i] when have lacks it. */
    method InsertPass(k: Kind, b: string, o: string, groupId: Option<Value>, want: seq<string>, have: seq<string>, i: nat, ghost before: seq<Request>)
      requires i < |want|
      requires ctrl.calls == before + Inserts(k, b, o, groupId, Missing(want[..i], have))
      modifies ctrl
      ensures ctrl.calls == before + Inserts(k, b, o, groupId, Missing(want[..i + 1], have))
    {
      ghost var step := if want[i] in have then [] else [Insert(k, b, o, groupId, want[i])];
      if want[i] !in have {
        ctrl.Send(Insert(k, b, o, groupId, want[i]));
      }
      Appended(before, Inserts(k, b, o, groupId, Missing(want[..i], have)), step,
        Inserts(k, b, o, groupId, Missing(want[..i + 1], have))) by {
        InsertsMissingStep(k, b, o, groupId, want, have, i);
      }
    }

    /** Pass j of a remove loop: send the remove for have[j] when want lacks it. */
    method RemovePass(k: Kind, b: string, o: string, groupId: Option<Value>, have: seq<string>, want: seq<string>, j: nat, ghost before: seq<Request>)
      requires j < |have|
      requires ctrl.calls == before + Removes(k, b, o, groupId, Missing(have[..j], want))
      modifies ctrl
      ensures ctrl.calls == before + Removes(k, b, o, groupId, Missing(have[..j + 1], want))
    {
      ghost var step := if have[j] in want then [] else [Remove(k, b, o, groupId, have[j])];
      if have[j] !in want {
        ctrl.Send(Remove(k, b, o, groupId, have[j]));
      }
      Appended(before, Removes(k, b, o, groupId, Missing(have[..j], want)), step,
        Removes(k, b, o, groupId, Missing(have[..j + 1], want))) by {
        RemovesMissingStep(k, b, o, groupId, have, want, j);
      }
    }

    /**
     * insertOffice, as intended: announce the office with its properties,
     * insert every member, then every alternate address.
     */
    method InsertOffice(b: string, o: string, data: Office)
      modifies ctrl
      ensures ctrl.calls == old(ctrl.calls) + OfficeRequests(b, o, Some(data), None)
    {
      ctrl.Send(Request.InsertOffice(b, o, data.properties));
      UpdateOfficeMembers(b, o, GroupId(data), data.members, []);
      var newAlternateAddresses := GetAlternateAddresses(data);
      UpdateOfficeAlternateAddresses(b, o, GroupId(data), newAlternateAddresses, []);
      ghost var members := ListRequests(Member, b, o, GroupId(data), data.members, []);
      ghost var addresses := ListRequests(Address, b, o, GroupId(data), newAlternateAddresses, []);
      assert OfficeRequests(b, o, Some(data), None) == [Request.InsertOffice(b, o, data.properties)] + members + addresses;
      Appended3(old(ctrl.calls), [Request.InsertOffice(b, o, data.properties)], members, addresses);
    }

    /** deleteOffice: only the office itself is deleted, with its existing properties. */
    method DeleteOffice(b: string, o: string, data: Office)
      modifies ctrl
      ensures ctrl.calls == old(ctrl.calls) + [Request.DeleteOffice(b, o, data.properties)]
    {
      ctrl.Send(Request.DeleteOffice(b, o, data.properties));
    }
  }
}
