# Google Apps group synchronisation, modelled in Dafny

This project models the core of GoogleAPIExtensions, a PHP library that keeps
Google Apps groups in step with a declared membership tree. The tree runs
branch → office → {members, properties}. The library:

- normalises the declared tree. An office may be written as a bare address, a
  plain list of addresses, or a map with `members` and `properties`. Aliases
  are merged into lists as forward-only offices (`src/Utils.php`; `src/Groups.php`
  holds a verbatim copy of the same static functions, modelled once in `Normalize`).
- derives group addresses, ids and names from a small template language
  (`src/StandardGroupPolicy.php`). `$(name)` inserts a property verbatim and
  `${name}` inserts it through `ucfirst`. Email addresses are normalised by adding
  the domain and lower-casing.
- diffs the desired tree against the existing one and sends a controller the
  branch, office, member and alternate-address calls that close the gap. There
  are two engines:
  - the first generation (`src/Groups.php`), which remembers the last tree;
  - the second generation (`src/Internal/Updater.php`), which is given both trees.
- defers member and office changes into named queues of operations
  (`src/Internal/Journal.php`, `src/Internal/Operation.php`). It runs the queues
  phase by phase, each phase between `begin` and `complete`, then verifies every
  operation and keeps the ones that did not verify.
- reads a DreamHost-style alias file (`src/LegacyGroups.php`) and folds it into
  the tree. Each group joins the first office whose group email or alternate
  address it is, or else becomes an office of the `_legacy` branch.

Modules, one per concern:

- `Wrappers` (Option)
- `Strings`: the PHP string built-ins used, over ASCII
- `OrderedMaps`: PHP's insertion-ordered arrays as sequences of key/value entries
- `Memberships`: the canonical tree
- `Controller`: the controller calls as a datatype
- `Trace`: the controller as an append-only `Recorder` class
- `Diff`: the `in_array` list diff both engines use
- `Policy`, `Normalize`, `Groups`, `Updater`, `Operation`, `Journal`, `Legacy`

The engines and the journal are classes whose methods keep the source's loops.
Each loop is proved against a pure function that specifies the calls it sends,
and lemmas about those functions state what the calls are.
The controller is a `Recorder` that only appends: a method's effect on it is the
list of calls it sends.

The `Groups` and `Updater` classes make the corrected calls of the two rows under
"## Findings": a vanished branch's offices are handed to deleteBranch, and
insertOffice reads the alternate addresses of the office data. The lemmas about
their specifying functions (the `…Iff`, `…Synced` and `…Ordered` lemmas) describe
those corrected calls. The calls as written are stated by the as-written members
named in that table.

## Model

| member | source | states |
|---|---|---|
| Strings.ToLower | src/StandardGroupPolicy.php:93 | strtolower keeps the length, changes exactly A-Z to a-z and leaves no upper-case letter |
| Strings.ToLowerIdempotent | src/StandardGroupPolicy.php:93 | lower-casing twice is lower-casing once |
| Strings.UcFirst | src/StandardGroupPolicy.php:125 | ucfirst upper-cases the first character only and keeps the rest and the length |
| Strings.TrimLeft | src/LegacyGroups.php:11 | ltrim returns a suffix of its input that starts with no strippable character, and every character it drops is strippable |
| Strings.TrimRight | src/LegacyGroups.php:11 | rtrim returns a prefix of its input that ends with no strippable character, and every character it drops is strippable |
| Strings.Trim | src/LegacyGroups.php:11 | trim returns the slice `s[i..j]` such that everything before `i` and from `j` on is strippable and the slice neither starts nor ends with a strippable character: the maximal strip |
| Strings.TrimIdempotent | src/LegacyGroups.php:15 | trimming a trimmed string changes nothing |
| Strings.CollapseSpaces | src/LegacyGroups.php:11 | the space-run replacement leaves no two spaces in a row, is no longer than its input and keeps a non-blank first character |
| Strings.CollapseSpacesKeeps | src/LegacyGroups.php:11 | the replacement keeps every non-space character in order, and leaves a space exactly when the input had one |
| Strings.CollapseSpacesSqueeze | src/LegacyGroups.php:11 | the replacement equals the reference definition that drops exactly the spaces followed by another space |
| Strings.CollapseSpacesFixed | src/LegacyGroups.php:11 | text without two spaces in a row is left alone |
| Strings.SplitJoin | src/LegacyGroups.php:9 | gluing explode's pieces back with the separator gives the input |
| Strings.JoinSplit | src/LegacyGroups.php:15 | explode undoes implode when no piece holds the separator |
| Strings.SplitPiecesFree | src/LegacyGroups.php:15 | no piece of explode holds the separator |
| OrderedMaps.Put | src/LegacyGroups.php:17 | `$m[$k] = $v` overwrites in place when the key exists and appends otherwise; keys stay unique and the key reads back v |
| OrderedMaps.Union | src/Utils.php:33 | array `+`: the left array's entries, then the right's new keys; keys of either side are present and unique |
| OrderedMaps.UnionGet | src/Utils.php:33 | reading a union gives the left value when the left has the key, else the right one |
| OrderedMaps.PutOther | src/LegacyGroups.php:30 | writing one key leaves every other key's lookup unchanged |
| Diff.Missing | src/Groups.php:100-104 | the entries of the first list that the second lacks are exactly those kept, in order |
| Diff.MissingCount | src/Groups.php:100-104 | a missing value is kept as often as it occurs, so repeated members give repeated calls |
| Diff.MissingSelf | src/Groups.php:99-110 | a list diffed against itself has nothing missing |
| Policy.NewPolicy | src/StandardGroupPolicy.php:40-46 | the caller's defaults override the built-in ones; domain, group-name and group-email are always set, to the built-in values unless overridden |
| Policy.GetPropertyValue | src/StandardGroupPolicy.php:104-112 | the caller's property first, then the default; NULL exactly when neither is set |
| Policy.MatchAt | src/StandardGroupPolicy.php:116 | a match is `$`, a `{` or `(`, a run of a-z, a `}` or `)`; only text starting with `$` can match |
| Policy.Matches | src/StandardGroupPolicy.php:116 | every match that preg_match_all returns is well formed |
| Policy.Replacement | src/StandardGroupPolicy.php:118-126 | an unset property is replaced by ""; `$(..)` inserts the value, `${..}` its ucfirst |
| Policy.ReplaceMatch | src/StandardGroupPolicy.php:118-127 | one pass of the loop replaces every occurrence of the match's text by its replacement |
| Policy.ApplyTemplate | src/StandardGroupPolicy.php:114-130 | the loop's result is the str_replace fold over the matches in order |
| Policy.NoDollarUnchanged | src/StandardGroupPolicy.php:114-130 | a template without `$` comes back unchanged |
| Policy.SingleToken | src/StandardGroupPolicy.php:114-130 | a template that is one token becomes that token's replacement |
| Policy.TemplateIsExpansion | src/StandardGroupPolicy.php:114-130 | when every `$` starts a match and no replacement holds a `$`, the fold equals a one-pass left-to-right expansion, so every token is replaced where it stands and nothing else changes |
| Policy.GetProperty | src/StandardGroupPolicy.php:99-102 | NULL exactly when the property has no value, else the value with the template applied |
| Policy.GetGroupEmail | src/StandardGroupPolicy.php:60-66 | the group-email template applied to the branch and office |
| Policy.GetGroupId | src/StandardGroupPolicy.php:52-54 | the group id is the group email |
| Policy.GetGroupName | src/StandardGroupPolicy.php:73-79 | the template is the caller's group-name, else the policy's; it is applied to the caller's properties over branch and office. `GroupNameDefault` and `GroupNameSupplied` give the resulting names |
| Policy.GroupEmailDefault | src/StandardGroupPolicy.php:40-66 | with the built-in template the group email is branch-office@domain |
| Policy.GroupEmailExample | tests/PolicyTest.php:66 | north/president in domain D is north-president@D |
| Policy.GroupNameDefault | src/StandardGroupPolicy.php:73-79 | with the built-in template the name is ucfirst(branch) " " ucfirst(office); the caller's branch/office properties take precedence over the arguments |
| Policy.GroupNameSupplied | src/StandardGroupPolicy.php:73-79 | a caller-supplied group-name without tokens is the name |
| Policy.GroupNameExample | tests/PolicyTest.php:68 | north/president is named "North President" |
| Policy.NormalizeEmail | src/StandardGroupPolicy.php:89-94 | an address without `@` gets "@" and the domain; the result is lower-cased and holds an `@` |
| Policy.NormalizeEmailIdempotent | src/StandardGroupPolicy.php:89-94 | normalising a normalised address changes nothing |
| Normalize.NormalizeMembershipData | src/Utils.php:63-85 | a string becomes a one-member office, a plain list becomes the members, a map with members keeps its members and properties; properties default to empty |
| Normalize.WithDefaults | src/Utils.php:46 | `properties += default`: the office's own properties win, the defaults fill the rest, members unchanged |
| Normalize.NormalizeGroupsData | src/Utils.php:42-50 | every office normalised with the defaults; names and order kept |
| Normalize.NormalizeListsAndAliases | src/Utils.php:23-36 | no lists and no aliases give no offices; lists alone give their normalised offices |
| Normalize.ListShadowsAlias | src/Utils.php:29-34 | an office under both lists and aliases keeps its list entry |
| Normalize.AliasIsForwardOnly | src/Utils.php:29-34 | an alias office that no list shadows keeps its members and has forward-only, TRUE unless it sets its own |
| Normalize.NormalizeState | src/Utils.php:15-21 | every branch normalised; names and order kept |
| Normalize.NormalizeWellKeyed | src/Utils.php:15-21 | normalising a tree with unique keys gives unique keys at every level |
| Normalize.GetNormalized | src/Utils.php:42-50 | looking an office up after normalising finds its normalised entry |
| Normalize.NormalizeIdempotent | src/Utils.php:77-80 | a canonical tree, declared with members and properties, normalises to itself |
| Normalize.GetAlternateAddresses | src/Utils.php:7-13 | no addresses when unset; a string is a one-element list; a list is itself |
| Groups.MemberCallsIff | src/Groups.php:99-110 | updateOffice inserts exactly the desired members the office lacks and removes exactly the members that are not desired |
| Groups.InsertsBeforeRemoves | src/Groups.php:99-110 | every insert of updateOffice comes before every removal |
| Groups.OfficeCallsIff | src/Groups.php:99-120 | an office's calls: member diff when it is in both trees; insertOffice with its properties when new; deleteOffice when gone |
| Groups.NewOfficeShape | src/Groups.php:112-115 | a new office is announced with its properties, then every member is inserted in order |
| Groups.GoneOfficeShape | src/Groups.php:117-120 | a gone office has every member removed, then is deleted with its properties |
| Groups.OfficeUpsertsIff | src/Groups.php:74-81 | the first loop of updateBranch makes exactly the calls of the desired offices |
| Groups.OfficeDropsIff | src/Groups.php:82-86 | the second loop of updateBranch makes exactly the calls of the offices no longer desired |
| Groups.BranchCallsIff | src/Groups.php:73-87 | updateBranch makes, for every office in either tree, exactly that office's calls |
| Groups.BranchLevelIff | src/Groups.php:53-68 | a branch's calls: updateBranch when in both trees, insertBranch then its offices when new, its offices torn down then deleteBranch when gone |
| Groups.BranchUpsertsIff | src/Groups.php:53-62 | the first loop of update makes exactly the calls of the desired branches |
| Groups.BranchDropsIff | src/Groups.php:64-68 | the second loop of update makes exactly the calls of the branches no longer desired |
| Groups.UpdateCallsIff | src/Groups.php:47-71 | update sends begin, complete, and exactly the calls of every branch's diff |
| Groups.InUpdate | src/Groups.php:47-71 | an office-level call is sent exactly when that office's diff makes it |
| Groups.MembersSynced | src/Groups.php:47-110 | a member is inserted exactly when desired and not existing, removed exactly when existing and not desired |
| Groups.OfficesSynced | src/Groups.php:73-120 | an office is inserted (with its desired properties) exactly when new, deleted (with its old properties) exactly when gone |
| Groups.BranchesSynced | src/Groups.php:53-68 | a branch is inserted exactly when new and deleted exactly when gone |
| Groups.UpdateOrdered | src/Groups.php:47-71 | begin first, complete last, the desired branches' calls before those of gone branches |
| Groups.DesiredBranchesFirst | src/Groups.php:53-68 | every call about a desired branch precedes every call about a gone one |
| Groups.UpdateUnchangedQuiet | src/Groups.php:47-71 | syncing a tree against itself sends only begin and complete |
| Groups.DeleteBranchAsWritten | src/Groups.php:64-66 | as written, a gone branch yields a deleteOffice of a phantom office "lists" and the deleteBranch; stated for branches with no office named `members` or `properties`, whose entries the phantom office would otherwise pick up |
| Groups.DeleteBranchAsWrittenKeepsMembers | src/Groups.php:94-97 | as written, a gone branch's members are never removed; the corrected diff removes them |
| Groups.Groups.constructor | src/Groups.php:15-18 | the existing state is the normalised initial state |
| Groups.Groups.Update | src/Groups.php:47-71 | the controller receives exactly the calls of the diff from the remembered tree to the normalised desired one, which is then remembered |
| Groups.Groups.UpsertBranches | src/Groups.php:53-62 | the first loop sends the calls of every desired branch in order |
| Groups.Groups.DropBranches | src/Groups.php:64-68 | the second loop sends the calls of every gone branch in order |
| Groups.Groups.UpsertBranch | src/Groups.php:54-61 | update the branch if it exists, insert it otherwise |
| Groups.Groups.DropBranch | src/Groups.php:65-67 | delete the branch unless it is still desired, passing its offices |
| Groups.Groups.UpdateBranch | src/Groups.php:73-87 | the desired offices' calls in order, then the gone offices' calls |
| Groups.Groups.UpsertOffices | src/Groups.php:74-81 | the first loop of updateBranch, office by office |
| Groups.Groups.DropOffices | src/Groups.php:82-86 | the second loop of updateBranch, office by office |
| Groups.Groups.UpsertOffice | src/Groups.php:75-80 | update the office's members if it exists, insert it otherwise |
| Groups.Groups.DropOffice | src/Groups.php:83-85 | delete the office unless it is still desired |
| Groups.Groups.InsertBranch | src/Groups.php:89-92 | insertBranch, then every office inserted as new |
| Groups.Groups.DeleteBranch | src/Groups.php:94-97 | every office torn down, then deleteBranch |
| Groups.Groups.UpdateOffice | src/Groups.php:99-110 | the inserts of the missing members, then the removals of the undesired ones |
| Groups.Groups.InsertOffice | src/Groups.php:112-115 | insertOffice with the properties, then every member inserted |
| Groups.Groups.DeleteOffice | src/Groups.php:117-120 | every member removed, then deleteOffice with the properties |
| Updater.ListRequestsIff | src/Internal/Updater.php:95-119 | a list diff inserts exactly the desired entries that are lacking and removes exactly the undesired ones, all under the given group-id |
| Updater.OfficeRequestsIff | src/Internal/Updater.php:67-84 | an office's calls: member and alternate-address diffs under the desired group-id when desired (after insertOffice when new); only deleteOffice when gone |
| Updater.OfficeUpsertsIff | src/Internal/Updater.php:68-78 | the first loop of updateBranch makes exactly the calls of the desired offices |
| Updater.OfficeDropsIff | src/Internal/Updater.php:79-83 | the second loop of updateBranch makes exactly the deletions of gone offices |
| Updater.BranchRequestsIff | src/Internal/Updater.php:67-84 | updateBranch makes, for every office in either tree, exactly that office's calls |
| Updater.BranchUpsertsIff | src/Internal/Updater.php:48-57 | the first loop of update makes exactly the calls of the desired branches |
| Updater.BranchDropsIff | src/Internal/Updater.php:59-63 | the second loop of update makes exactly the deletions of gone branches |
| Updater.UpdateRequestsIff | src/Internal/Updater.php:45-65 | update sends begin, complete, and exactly the calls of every branch's diff |
| Updater.InUpdate | src/Internal/Updater.php:45-65 | an office-level call is sent exactly when its branch is desired and that office's diff makes it |
| Updater.MembersSynced | src/Internal/Updater.php:95-106 | a member is inserted exactly when desired and not existing, removed exactly when existing in a still desired office and not desired; both carry the desired group-id |
| Updater.AddressesSynced | src/Internal/Updater.php:108-119 | alternate addresses follow the same rule, read through getAlternateAddresses |
| Updater.OfficesSynced | src/Internal/Updater.php:121-130 | an office is inserted exactly when new, deleted exactly when gone from a branch still desired |
| Updater.BranchesSynced | src/Internal/Updater.php:48-63 | a branch is inserted exactly when new and deleted exactly when gone |
| Updater.GoneBranchOnlyDeleted | src/Internal/Updater.php:91-93 | a gone branch gets its deleteBranch and nothing else |
| Updater.GoneOfficeOnlyDeleted | src/Internal/Updater.php:128-130 | a gone office gets its deleteOffice and nothing else |
| Updater.UpdateOrdered | src/Internal/Updater.php:45-65 | begin first, complete last, the desired branches' calls before those of gone branches |
| Updater.DesiredBranchesFirst | src/Internal/Updater.php:48-63 | every call about a desired branch precedes every call about a gone one |
| Updater.UpdateUnchangedQuiet | src/Internal/Updater.php:45-65 | a tree diffed against itself sends only begin and complete |
| Normalize.AlternateAddressesIn | src/Internal/Updater.php:132-138 | the `alternate-addresses` entry of a properties array read through `isset` and `(array)`: none when the array or the key is unset, a string as a one-element list, a list as itself |
| Updater.AlternateAddressesOfGroupId | src/Internal/Updater.php:124 | getAlternateAddresses given the group-id in the office data's place looks up `properties` in a string, list, flag or NULL, finds nothing, and so returns no addresses |
| Updater.InsertOfficeAsWritten | src/Internal/Updater.php:121-126 | as written, insertOffice never inserts an alternate address |
| Updater.InsertOfficeAsWrittenDropsAddress | src/Internal/Updater.php:124 | as written, a new office's alternate address is lost; the corrected diff inserts it |
| Updater.Updater.constructor | src/Internal/Updater.php:14-16 | the updater keeps its controller |
| Updater.Updater.Update | src/Internal/Updater.php:45-65 | the controller receives exactly the calls of the diff from the existing tree to the desired one |
| Updater.Updater.UpsertBranches | src/Internal/Updater.php:48-57 | the first loop sends the calls of every desired branch in order |
| Updater.Updater.DropBranches | src/Internal/Updater.php:59-63 | the second loop sends the deletions of gone branches in order |
| Updater.Updater.UpsertBranch | src/Internal/Updater.php:49-56 | update the branch if it exists, insert it otherwise |
| Updater.Updater.UpdateBranch | src/Internal/Updater.php:67-84 | the desired offices' calls in order, then the gone offices' deletions |
| Updater.Updater.UpsertOffices | src/Internal/Updater.php:68-78 | the first loop of updateBranch, office by office |
| Updater.Updater.DropOffices | src/Internal/Updater.php:79-83 | the second loop of updateBranch, office by office |
| Updater.Updater.UpsertOffice | src/Internal/Updater.php:69-77 | for an existing office the member diff then the alternate-address diff; otherwise insertOffice |
| Updater.Updater.InsertBranch | src/Internal/Updater.php:86-89 | insertBranch, then every office inserted as new |
| Updater.Updater.DeleteBranch | src/Internal/Updater.php:91-93 | only deleteBranch is sent |
| Updater.Updater.UpdateOfficeMembers | src/Internal/Updater.php:95-106 | inserts of the missing members, then removals of the undesired, with the group-id |
| Updater.Updater.UpdateOfficeAlternateAddresses | src/Internal/Updater.php:108-119 | the same diff over alternate addresses |
| Updater.Updater.InsertOffice | src/Internal/Updater.php:121-126 | insertOffice with the properties, every member, then every alternate address of the office |
| Updater.Updater.DeleteOffice | src/Internal/Updater.php:128-130 | only deleteOffice with the existing properties is sent |
| Operation.CheckCalls | src/Internal/Operation.php:30-35 | verify sends the check call when there is one, and nothing otherwise |
| Operation.Verified | src/Internal/Operation.php:30-35 | an operation without a check is done; one with a check is done exactly when the check answers yes |
| Operation.Run | src/Internal/Operation.php:21-23 | run sends the deferred call |
| Operation.Verify | src/Internal/Operation.php:30-35 | verify returns TRUE without a check and the answer to the check otherwise, sending only the check |
| Journal.Enqueued | src/Internal/Journal.php:17-20 | queue appends to the named queue, creating it, and leaves every other queue alone |
| Journal.RunsAt | src/Internal/Journal.php:25-31 | running a queue sends one call per operation, the k-th operation's for the k-th |
| Journal.ChecksCover | src/Internal/Journal.php:36-47 | every queued operation with a check is checked |
| Journal.UnfinishedIff | src/Internal/Journal.php:36-47 | an operation stays queued exactly when it was queued and did not verify |
| Journal.UnfinishedConcat | src/Internal/Journal.php:39-43 | verification keeps the relative order of what stays |
| Journal.UnfinishedIdempotent | src/Internal/Journal.php:36-47 | verifying again with the same answers keeps the queue |
| Journal.ExecuteRunsInOrder | src/Internal/Journal.php:51-55 | the create, default and last queues run in that order, each between begin and complete |
| Journal.ExecuteVerifiesEachQueue | src/Internal/Journal.php:57-59 | after execute each phase queue holds its unverified operations and every other queue is untouched |
| Journal.ExecuteChecksInOrder | src/Internal/Journal.php:57-59 | the checks go out queue by queue in phase order |
| Journal.EnqueuedMatched | src/Internal/Journal.php:79-128 | queuing a journal-built operation keeps every queue journal-built |
| Journal.VerifiedMatched | src/Internal/Journal.php:36-47 | verification keeps every queue journal-built |
| Journal.ExecuteRunsBeforeChecks | src/Internal/Journal.php:49-60 | for journal-built queues, the run phases send no verify call and the verification phase sends only verify calls |
| Journal.Journal.constructor | src/Internal/Journal.php:62-64 | the journal keeps its controller and starts with no queue |
| Journal.Journal.Queue | src/Internal/Journal.php:17-20 | the queues become the old ones with the operation appended to the named queue |
| Journal.Journal.ExecuteQueue | src/Internal/Journal.php:25-31 | every operation of the queue runs in order; an absent queue runs nothing |
| Journal.Journal.VerifyQueue | src/Internal/Journal.php:36-47 | the queue becomes its unverified operations; the checks of every operation are sent in order |
| Journal.Journal.Execute | src/Internal/Journal.php:49-60 | the run phases then the checks are sent; the queues end as verified phase by phase |
| Journal.Journal.InsertBranch | src/Internal/Journal.php:69-72 | insertBranch goes straight to the controller |
| Journal.Journal.DeleteBranch | src/Internal/Journal.php:74-77 | deleteBranch goes straight to the controller |
| Journal.Journal.InsertMember | src/Internal/Journal.php:79-88 | an insert checked by verifyMember is queued on the default queue |
| Journal.Journal.RemoveMember | src/Internal/Journal.php:90-97 | an unchecked removal is queued on the default queue |
| Journal.Journal.InsertGroupAlternateAddress | src/Internal/Journal.php:99-108 | an insert checked by verifyGroupAlternateAddress is queued on the default queue |
| Journal.Journal.RemoveGroupAlternateAddress | src/Internal/Journal.php:110-117 | an unchecked removal is queued on the default queue |
| Journal.Journal.InsertOffice | src/Internal/Journal.php:119-128 | an insert checked by verifyOffice is queued on the create queue and insertOffice is also sent at once |
| Journal.Journal.DeleteOffice | src/Internal/Journal.php:130-132 | deleteOffice goes straight to the controller |
| Legacy.SplitFirstSpace | src/LegacyGroups.php:13 | the address holds no blank; with a blank, address, blank and rest rebuild the line; without, the rest is empty |
| Legacy.UnlistedIff | src/LegacyGroups.php:15 | array_diff keeps exactly the entries that are not blacklisted |
| Legacy.MemberListClean | src/LegacyGroups.php:15 | every member a line yields is trimmed, free of commas and not blacklisted |
| Legacy.ParseLineClean | src/LegacyGroups.php:11-17 | a line's entry has a non-empty address without blank or leading `#`, not blacklisted, and a non-empty list of clean members |
| Legacy.BlankOrCommentSkipped | src/LegacyGroups.php:12 | a line that cleans to empty or starts with `#` yields nothing |
| Legacy.CollectClean | src/LegacyGroups.php:9-21 | the collected groups have unique addresses and clean entries |
| Legacy.ParseAllClean | src/LegacyGroups.php:9-19 | every line's entry is clean |
| Legacy.ParseLegacyDreamHostGroups | src/LegacyGroups.php:7-23 | the parsed file has unique addresses, and every entry has a clean address and a non-empty list of clean members |
| Legacy.CollectLast | src/LegacyGroups.php:17 | an address takes the members of its last line |
| Legacy.CollectAbsent | src/LegacyGroups.php:16-17 | an address no line yields is absent |
| Legacy.ParseLast | src/LegacyGroups.php:7-23 | in the parsed file an address has the members of its last entry line |
| Legacy.FormatLineClean | src/LegacyGroups.php:11 | a formatted line of plain words survives the line clean-up unchanged |
| Legacy.FormatLineSplit | src/LegacyGroups.php:13 | a formatted line splits back into its address and member text |
| Legacy.MemberListJoin | src/LegacyGroups.php:15 | comma-joined plain members parse back to themselves |
| Legacy.ParseFormatLine | src/LegacyGroups.php:11-17 | one formatted line parses back to its entry |
| Legacy.CollectPresent | src/LegacyGroups.php:9-21 | collecting the entries of a key-unique file in order rebuilds it |
| Legacy.ParseEmpty | src/LegacyGroups.php:7-23 | the empty text parses to no groups |
| Legacy.ParseFormat | src/LegacyGroups.php:7-23 | parsing the formatted groups gives them back (round trip) |
| Legacy.LegacyGroupMatches | src/LegacyGroups.php:61-66 | a group matches when it equals the group email; otherwise only through an alternate address that getAlternateAddresses also reports; a list of alternate addresses is searched in full, a single string never matches |
| Legacy.FirstOfficeFrom | src/LegacyGroups.php:45-46 | the office found matches the legacy group |
| Legacy.FirstMatchFrom | src/LegacyGroups.php:42-56 | the office found is in a branch not marked `#` and matches the legacy group |
| Legacy.FirstMatchIsFirst | src/LegacyGroups.php:42-56 | no searched office before the one found matches; none matches when none is found |
| Legacy.AddedIff | src/LegacyGroups.php:47-52 | a member is appended exactly when it is a normalised legacy member the office did not hold |
| Legacy.NothingAddedTwice | src/LegacyGroups.php:47-52 | applying the same members again appends nothing |
| Legacy.ApplyGroupChanges | src/LegacyGroups.php:41-59 | only the first matching office changes; its members gain the new ones after the old; names and properties stay |
| Legacy.ApplyGroup | src/LegacyGroups.php:41-59 | applying a group keeps every branch name, office count and property; with no match the tree is unchanged; with one, the matched office's old members stay a prefix of its new ones |
| Legacy.SameShapeSameMatch | src/LegacyGroups.php:42-56 | trees of the same shape match a group at the same office |
| Legacy.ApplyGroupIdempotent | src/LegacyGroups.php:41-59 | applying the same legacy group twice changes nothing the second time |
| Legacy.StripAt | src/LegacyGroups.php:29 | the office name holds no `@` |
| Legacy.StripAtAddress | src/LegacyGroups.php:29 | on one line the office name is the address up to its first `@`, or the whole address without one |
| Legacy.AddLegacy | src/LegacyGroups.php:28-35 | an unmatched group is stored in `_legacy` under its office name with its members and group email; every other `_legacy` office and every other branch stays as it was |
| Legacy.AddLegacySameName | src/LegacyGroups.php:29-30 | two unmatched groups with the same office name share one `_legacy` office, which keeps only the later group |
| Legacy.SameLocalPartExample | src/LegacyGroups.php:29 | `a@x.org` and `a@y.org` both become the office `a` |
| Legacy.ApplyLegacyGroup | src/LegacyGroups.php:41-59 | reports a match exactly when some searched office matches, and returns the tree with the first match's members extended |
| Legacy.AppendNew | src/LegacyGroups.php:47-52 | the office's members followed by the normalised legacy members it did not hold |
| Legacy.ApplyLegacyGroups | src/LegacyGroups.php:25-39 | each group in file order joins its first matching office or becomes a `_legacy` office |

## Left out

- Groups.Groups.DropBranch and Updater.Updater.InsertOffice: these follow the corrected source of the two Findings rows, not the source as written. The as-written behaviour is stated only by `Groups.DeleteBranchAsWritten` and `Updater.InsertOfficeAsWritten`.
- I/O and the Google API: the controllers that talk to Google (`src/GoogleAppsGroupsController.php`, `src/BatchWrapper.php`) are not part of this model. A controller is a `Recorder` that logs the calls it receives.
- `src/GroupsManager.php`, which wires the Updater to the Journal and stores the existing state, is not part of this model. Updater's calls are recorded with the group-id argument it passes; the Journal receives the three-argument calls its own methods take.
- Operation: a callable and its parameter array are modelled as one controller call. The controller's answer to a check is a parameter of `Verify`, `VerifyQueue` and `Execute`, fixed for the call.
- Operation.Verify: PHP's truthiness of a check's return value is reduced to a boolean answer.
- Journal.Journal.Execute: `begin` and `complete` of the journal itself are empty in the source and are left out. An unset `$operationQueues` is modelled as an empty map.
- Journal.Journal.InsertOffice: the controller's return value is not modelled.
- PHP loose comparison: `in_array` and `==` are taken as string equality. Numeric strings that PHP compares as numbers (`"1e3" == "1000"`) are not modelled.
- Legacy.LegacyGroupMatches: alternate addresses written as a single string make PHP's `in_array` fail; the model treats that as no match.
- Normalize.GetAlternateAddresses: a boolean alternate-addresses value is treated as no addresses. PHP's `(array)TRUE` would give `[TRUE]`.
- Property values are modelled as strings, booleans or lists of strings. NULL-valued properties are absent from the map, as `isset` reads them.
- Normalize.NormalizeListsAndAliases: the contract states the lists-only and empty cases. Aliases are stated by `ListShadowsAlias` and `AliasIsForwardOnly`.
- Normalize.NormalizeMembershipData: `$data + array('properties' => array())` keeps every key of an office written as a map. The model keeps only `members` and `properties`, the only keys the rest of the library reads.
- Legacy: two unmatched groups with the same part before `@` (`a@x.org`, `a@y.org`) land in the same `_legacy` office, and the later one replaces the earlier, as the source does. `AddLegacySameName` states it. Whether that is intended is not decided here.
- Normalize: a `members` entry that is not a list, and the numeric keys of a plain member list, are not modelled.
- Legacy: `array_diff` keeps the original integer keys, so a parsed member list may have gaps. The model renumbers the list.
- Legacy: `applyLegacyGroups` runs on the normalised tree, where every office has members and properties. Offices still written as bare strings or plain lists are not modelled.
- Legacy: `tests/LegacyGroupsTest.php:66-69` expects `_legacy` offices to carry group-name and alternate-addresses properties. `src/LegacyGroups.php:30-35` sets only group-email, and the model follows the code.
- Legacy.AppendNew: each member is checked against the office's members from before the loop, as in the source. Two legacy members that normalise to the same address are both appended.
- Policy: `availableDefaults` only lists the keys of the defaults, and is not modelled.
- Policy: a template that is NULL (a property with no value) is handled by `GetProperty` returning NULL. PHP's `preg_match_all` on NULL is not modelled further.
- Policy.TemplateIsExpansion: proved under the condition that every `$` starts a match and no replacement brings in a `$`. Outside it, `str_replace` may also rewrite text that a replacement introduced.
- Policy: the test `tests/PolicyTest.php` calls a `normalize` method that `src/StandardGroupPolicy.php` does not have. Only its expected names and addresses are used.
- Strings: ASCII only. PHP's locale-dependent case mapping is not modelled.

## Findings

| source | as written | input that shows it | evidently intended | confidence | as-written member | corrected member |
|---|---|---|---|---|---|---|
| src/Groups.php:64-66 | the second loop of update passes the whole branch record `{lists: offices}` to deleteBranch, which treats it as the office map | an existing branch `b` with office `o` holding member `m`, absent from the desired tree: no removeMember(b, o, m) is sent, and deleteOffice(b, "lists", …) is sent for a phantom office | pass the branch's offices, `$offices['lists']`, so every office is torn down | not executed | Groups.DeleteBranchAsWrittenKeepsMembers | Groups.Groups.DropBranch |
| src/Internal/Updater.php:124 | insertOffice calls getAlternateAddresses with four arguments, the group-id in the office data's place, so it reads the group-id's `properties` entry | a new office with `alternate-addresses: [a]`: no insertGroupAlternateAddress for `a` is sent | pass the office data as updateBranch does at line 71 | not executed | Updater.InsertOfficeAsWrittenDropsAddress | Updater.Updater.InsertOffice |
