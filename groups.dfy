/**
 * The first-generation diff engine (src/Groups.php): compares the desired
 * membership tree with the one it saw last and sends the controller the
 * branch, office and member calls that turn one into the other.
 *
 * The calls `update` makes are specified by pure functions over the two
 * trees (UpdateCalls and the functions below it), each defined from the end
 * of its list so that the loops of the class can be proved against them
 * one entry at a time. The lemmas then say which calls those are.
 */
module Groups {
  import opened Wrappers
  import opened OrderedMaps
  import opened Memberships
  import opened Normalize
  import opened Controller
  import opened Trace
  import opened Diff

  // ---------------------------------------------------------------------------
  // Members of one office
  // ---------------------------------------------------------------------------

  function Inserts(b: string, o: string, addresses: seq<string>): seq<Call> {
    seq(|addresses|, i requires 0 <= i < |addresses| => InsertMember(b, o, addresses[i]))
  }

  function Removes(b: string, o: string, addresses: seq<string>): seq<Call> {
    seq(|addresses|, i requires 0 <= i < |addresses| => RemoveMember(b, o, addresses[i]))
  }

  /** A member call of office o in branch b that a diff of want against have makes. */
  predicate MemberCall(c: Call, b: string, o: string, want: seq<string>, have: seq<string>) {
    match c
    case InsertMember(cb, co, a) => cb == b && co == o && a in want && a !in have
    case RemoveMember(cb, co, a) => cb == b && co == o && a in have && a !in want
    case _ => false
  }

  /**
   * updateOffice: the desired members the office lacks are inserted, then
   * the members it has that are not desired are removed.
   */
  function MemberCalls(b: string, o: string, want: seq<string>, have: seq<string>): seq<Call> {
    Inserts(b, o, Missing(want, have)) + Removes(b, o, Missing(have, want))
  }

  /** The calls of updateOffice are exactly the inserts of what is lacking and the removals of what is not desired. */
  lemma MemberCallsIff(b: string, o: string, want: seq<string>, have: seq<string>, c: Call)
    ensures c in MemberCalls(b, o, want, have) <==> MemberCall(c, b, o, want, have)
  {
    var ins, rem := Missing(want, have), Missing(have, want);
    var r := Inserts(b, o, ins) + Removes(b, o, rem);
    if MemberCall(c, b, o, want, have) {
      if c.InsertMember? {
        assert c.address in ins;
        var k :| 0 <= k < |ins| && ins[k] == c.address;
        assert r[k] == c;
      } else {
        assert c.address in rem;
        var k :| 0 <= k < |rem| && rem[k] == c.address;
        assert r[|ins| + k] == c;
      }
    }
    if c in r {
      var k :| 0 <= k < |r| && r[k] == c;
      if k < |ins| {
        assert ins[k] in ins;
      } else {
        assert rem[k - |ins|] in rem;
      }
    }
  }

  // ---------------------------------------------------------------------------
  // One office: present in the desired tree, the existing one, or both
  // ---------------------------------------------------------------------------

  predicate OfficeLevel(c: Call) {
    c.InsertOffice? || c.DeleteOffice? || c.InsertMember? || c.RemoveMember?
  }

  /** A call the diff of office n of branch b makes, given its desired and existing data. */
  predicate OfficeCall(c: Call, b: string, n: string, want: Option<Office>, have: Option<Office>) {
    match c
    case InsertOffice(cb, co, p) => cb == b && co == n && want.Some? && have.None? && p == want.value.properties
    case DeleteOffice(cb, co, p) => cb == b && co == n && have.Some? && want.None? && p == have.value.properties
    case _ => MemberCall(c, b, n, MembersOf(want), MembersOf(have))
  }

  /**
   * updateOffice when the office is in both trees, insertOffice when it is
   * only desired, deleteOffice when it only exists.
   */
  function OfficeCalls(b: string, n: string, want: Option<Office>, have: Option<Office>): seq<Call> {
    if want.Some? && have.Some? then MemberCalls(b, n, want.value.members, have.value.members)
    else if want.Some? then [InsertOffice(b, n, want.value.properties)] + MemberCalls(b, n, want.value.members, [])
    else if have.Some? then MemberCalls(b, n, [], have.value.members) + [DeleteOffice(b, n, have.value.properties)]
    else []
  }

  /** The calls of an office's diff are exactly those OfficeCall describes. */
  lemma OfficeCallsIff(b: string, n: string, want: Option<Office>, have: Option<Office>, c: Call)
    ensures c in OfficeCalls(b, n, want, have) <==> OfficeCall(c, b, n, want, have)
  {
    MemberCallsIff(b, n, MembersOf(want), MembersOf(have), c);
  }

  /** Every call of office n's diff names branch b and office n. */
  lemma OfficeCallAbout(c: Call, b: string, n: string, want: Option<Office>, have: Option<Office>)
    ensures OfficeCall(c, b, n, want, have) ==> OfficeLevel(c) && c.branch == b && c.office == n
  {
  }

  // ---------------------------------------------------------------------------
  // One branch: the desired offices in order, then the existing ones no longer desired
  // ---------------------------------------------------------------------------

  /** The first loop of updateBranch, over the desired offices. */
  function OfficeUpserts(b: string, want: OMap<Office>, have: OMap<Office>): seq<Call>
    decreases |want|
  {
    if want == [] then []
    else
      var init, last := want[..|want| - 1], want[|want| - 1];
      OfficeUpserts(b, init, have) + OfficeCalls(b, last.0, Some(last.1), Lookup(have, last.0))
  }

  /** The second loop of updateBranch, over the existing offices. */
  function OfficeDrops(b: string, have: OMap<Office>, want: OMap<Office>): seq<Call>
    decreases |have|
  {
    if have == [] then []
    else
      var init, last := have[..|have| - 1], have[|have| - 1];
      OfficeDrops(b, init, want)
      + (if HasKey(want, last.0) then [] else OfficeCalls(b, last.0, None, Some(last.1)))
  }

  /** updateBranch. */
  function BranchCalls(b: string, want: OMap<Office>, have: OMap<Office>): seq<Call> {
    OfficeUpserts(b, want, have) + OfficeDrops(b, have, want)
  }

  // ---------------------------------------------------------------------------
  // The whole tree
  // ---------------------------------------------------------------------------

  predicate HasBranch(c: Call) {
    !c.Begin? && !c.Complete?
  }

  function OfficeOf(br: Option<Branch>, n: string): Option<Office> {
    if br.Some? then Lookup(br.value.lists, n) else None
  }

  /** A call the diff of branch b makes, given its desired and existing data. */
  predicate BranchCall(c: Call, b: string, want: Option<Branch>, have: Option<Branch>) {
    match c
    case InsertBranch(cb) => cb == b && want.Some? && have.None?
    case DeleteBranch(cb) => cb == b && have.Some? && want.None?
    case _ => OfficeLevel(c) && OfficeCall(c, b, c.office, OfficeOf(want, c.office), OfficeOf(have, c.office))
  }

  /**
   * updateBranch when the branch is in both trees, insertBranch when it is
   * only desired, deleteBranch (as intended: see DeleteBranchAsWritten) when
   * it only exists.
   */
  function BranchLevelCalls(b: string, want: Option<Branch>, have: Option<Branch>): seq<Call> {
    if want.Some? && have.Some? then BranchCalls(b, want.value.lists, have.value.lists)
    else if want.Some? then [InsertBranch(b)] + BranchCalls(b, want.value.lists, [])
    else if have.Some? then BranchCalls(b, [], have.value.lists) + [DeleteBranch(b)]
    else []
  }

  /** The first loop of update, over the desired branches. */
  function BranchUpserts(want: State, have: State): seq<Call>
    decreases |want|
  {
    if want == [] then []
    else
      var init, last := want[..|want| - 1], want[|want| - 1];
      BranchUpserts(init, have) + BranchLevelCalls(last.0, Some(last.1), Lookup(have, last.0))
  }

  /** The second loop of update, over the existing branches. */
  function BranchDrops(have: State, want: State): seq<Call>
    decreases |have|
  {
    if have == [] then []
    else
      var init, last := have[..|have| - 1], have[|have| - 1];
      BranchDrops(init, want)
      + (if HasKey(want, last.0) then [] else BranchLevelCalls(last.0, None, Some(last.1)))
  }

  /** update: begin, the desired branches, the branches no longer desired, complete. */
  function UpdateCalls(want: State, have: State): seq<Call> {
    [Begin] + BranchUpserts(want, have) + BranchDrops(have, want) + [Complete]
  }

  // ---------------------------------------------------------------------------
  // One loop iteration at a time
  // ---------------------------------------------------------------------------

  lemma InsertsMissingStep(b: string, o: string, want: seq<string>, have: seq<string>, i: nat)
    requires i < |want|
    ensures Inserts(b, o, Missing(want[..i + 1], have)) == Inserts(b, o, Missing(want[..i], have))
      + (if want[i] in have then [] else [InsertMember(b, o, want[i])])
  {
    MissingStep(want, have, i);
  }

  lemma RemovesMissingStep(b: string, o: string, have: seq<string>, want: seq<string>, j: nat)
    requires j < |have|
    ensures Removes(b, o, Missing(have[..j + 1], want)) == Removes(b, o, Missing(have[..j], want))
      + (if have[j] in want then [] else [RemoveMember(b, o, have[j])])
  {
    MissingStep(have, want, j);
  }

  lemma OfficeUpsertsStep(b: string, want: OMap<Office>, have: OMap<Office>, i: nat)
    requires i < |want|
    ensures OfficeUpserts(b, want[..i + 1], have)
      == OfficeUpserts(b, want[..i], have) + OfficeCalls(b, want[i].0, Some(want[i].1), Lookup(have, want[i].0))
  {
    assert want[..i + 1][..i] == want[..i];
  }

  lemma OfficeDropsStep(b: string, have: OMap<Office>, want: OMap<Office>, i: nat)
    requires i < |have|
    ensures OfficeDrops(b, have[..i + 1], want) == OfficeDrops(b, have[..i], want)
      + (if HasKey(want, have[i].0) then [] else OfficeCalls(b, have[i].0, None, Some(have[i].1)))
  {
    assert have[..i + 1][..i] == have[..i];
  }

  lemma BranchUpsertsStep(want: State, have: State, i: nat)
    requires i < |want|
    ensures BranchUpserts(want[..i + 1], have)
      == BranchUpserts(want[..i], have) + BranchLevelCalls(want[i].0, Some(want[i].1), Lookup(have, want[i].0))
  {
    assert want[..i + 1][..i] == want[..i];
  }

  lemma BranchDropsStep(have: State, want: State, i: nat)
    requires i < |have|
    ensures BranchDrops(have[..i + 1], want) == BranchDrops(have[..i], want)
      + (if HasKey(want, have[i].0) then [] else BranchLevelCalls(have[i].0, None, Some(have[i].1)))
  {
    assert have[..i + 1][..i] == have[..i];
  }

  // ---------------------------------------------------------------------------
  // Which calls update makes
  // ---------------------------------------------------------------------------

  /** The first loop of updateBranch makes exactly the calls of the desired offices. */
  lemma {:induction false} OfficeUpsertsIff(b: string, want: OMap<Office>, have: OMap<Office>, c: Call)
    requires KeysUnique(want)
    ensures c in OfficeUpserts(b, want, have) <==>
      OfficeLevel(c) && HasKey(want, c.office) && OfficeCall(c, b, c.office, Lookup(want, c.office), Lookup(have, c.office))
    decreases |want|
  {
    if want != [] {
      var init, last := want[..|want| - 1], want[|want| - 1];
      assert want == init + [last];
      LookupSnoc(init, last.0, last.1, if OfficeLevel(c) then c.office else "");
      OfficeCallsIff(b, last.0, Some(last.1), Lookup(have, last.0), c);
      OfficeCallAbout(c, b, last.0, Some(last.1), Lookup(have, last.0));
      OfficeUpsertsIff(b, init, have, c);
    }
  }

  /** The second loop of updateBranch makes exactly the calls of the offices no longer desired. */
  lemma {:induction false} OfficeDropsIff(b: string, have: OMap<Office>, want: OMap<Office>, c: Call)
    requires KeysUnique(have)
    ensures c in OfficeDrops(b, have, want) <==>
      OfficeLevel(c) && HasKey(have, c.office) && !HasKey(want, c.office)
      && OfficeCall(c, b, c.office, None, Lookup(have, c.office))
    decreases |have|
  {
    if have != [] {
      var init, last := have[..|have| - 1], have[|have| - 1];
      assert have == init + [last];
      LookupSnoc(init, last.0, last.1, if OfficeLevel(c) then c.office else "");
      OfficeCallsIff(b, last.0, None, Some(last.1), c);
      OfficeCallAbout(c, b, last.0, None, Some(last.1));
      OfficeDropsIff(b, init, want, c);
    }
  }

  /** updateBranch makes, for every office in either tree, exactly the calls that office's diff makes. */
  lemma BranchCallsIff(b: string, want: OMap<Office>, have: OMap<Office>, c: Call)
    requires KeysUnique(want) && KeysUnique(have)
    ensures c in BranchCalls(b, want, have) <==>
      OfficeLevel(c) && OfficeCall(c, b, c.office, Lookup(want, c.office), Lookup(have, c.office))
  {
    OfficeUpsertsIff(b, want, have, c);
    OfficeDropsIff(b, have, want, c);
  }

  lemma BranchLevelIff(b: string, want: Option<Branch>, have: Option<Branch>, c: Call)
    requires want.Some? ==> KeysUnique(want.value.lists)
    requires have.Some? ==> KeysUnique(have.value.lists)
    ensures c in BranchLevelCalls(b, want, have) <==> BranchCall(c, b, want, have)
  {
    if want.Some? && have.Some? {
      BranchCallsIff(b, want.value.lists, have.value.lists, c);
    } else if want.Some? {
      BranchCallsIff(b, want.value.lists, [], c);
    } else if have.Some? {
      BranchCallsIff(b, [], have.value.lists, c);
    }
  }

  /** Every call of branch b's diff names branch b. */
  lemma BranchCallAbout(c: Call, b: string, want: Option<Branch>, have: Option<Branch>)
    ensures BranchCall(c, b, want, have) ==> HasBranch(c) && c.branch == b
  {
    if OfficeLevel(c) {
      OfficeCallAbout(c, b, c.office, OfficeOf(want, c.office), OfficeOf(have, c.office));
    }
  }

  /** The first loop of update makes exactly the calls of the desired branches. */
  lemma {:induction false} BranchUpsertsIff(want: State, have: State, c: Call)
    requires WellKeyed(want) && WellKeyed(have)
    ensures c in BranchUpserts(want, have) <==>
      HasBranch(c) && HasKey(want, c.branch) && BranchCall(c, c.branch, Lookup(want, c.branch), Lookup(have, c.branch))
    decreases |want|
  {
    if want != [] {
      var init, last := want[..|want| - 1], want[|want| - 1];
      assert want == init + [last];
      WellKeyedInit(want);
      WellKeyedLookup(have, last.0);
      LookupSnoc(init, last.0, last.1, if HasBranch(c) then c.branch else "");
      BranchLevelIff(last.0, Some(last.1), Lookup(have, last.0), c);
      BranchCallAbout(c, last.0, Some(last.1), Lookup(have, last.0));
      BranchUpsertsIff(init, have, c);
    }
  }

  /** The second loop of update makes exactly the calls of the branches no longer desired. */
  lemma {:induction false} BranchDropsIff(have: State, want: State, c: Call)
    requires WellKeyed(have)
    ensures c in BranchDrops(have, want) <==>
      HasBranch(c) && HasKey(have, c.branch) && !HasKey(want, c.branch)
      && BranchCall(c, c.branch, None, Lookup(have, c.branch))
    decreases |have|
  {
    if have != [] {
      var init, last := have[..|have| - 1], have[|have| - 1];
      assert have == init + [last];
      WellKeyedInit(have);
      BranchLevelIff(last.0, None, Some(last.1), c);
      BranchCallAbout(c, last.0, None, Some(last.1));
      LookupSnoc(init, last.0, last.1, if HasBranch(c) then c.branch else "");
      BranchDropsIff(init, want, c);
    }
  }

  /**
   * update brackets its work with begin and complete, and between them makes
   * exactly the calls of every branch's diff, for branches in either tree.
   */
  lemma UpdateCallsIff(want: State, have: State, c: Call)
    requires WellKeyed(want) && WellKeyed(have)
    ensures c in UpdateCalls(want, have) <==>
      c == Begin || c == Complete
      || (HasBranch(c) && BranchCall(c, c.branch, Lookup(want, c.branch), Lookup(have, c.branch)))
  {
    BranchUpsertsIff(want, have, c);
    BranchDropsIff(have, want, c);
  }

  function OfficeAt(s: State, b: string, o: string): Option<Office> {
    OfficeOf(Lookup(s, b), o)
  }

  function MembersAt(s: State, b: string, o: string): seq<string> {
    MembersOf(OfficeAt(s, b, o))
  }

  /** A call about branch b, office o, as the diff of that office sees it. */
  lemma InUpdate(want: State, have: State, c: Call)
    requires WellKeyed(want) && WellKeyed(have) && OfficeLevel(c)
    ensures c in UpdateCalls(want, have) <==>
      OfficeCall(c, c.branch, c.office, OfficeAt(want, c.branch, c.office), OfficeAt(have, c.branch, c.office))
  {
    UpdateCallsIff(want, have, c);
  }

  /**
   * The point of the engine: a member is inserted exactly when the desired
   * tree has it and the existing one does not, and removed in the opposite case.
   */
  lemma MembersSynced(want: State, have: State, b: string, o: string, m: string)
    requires WellKeyed(want) && WellKeyed(have)
    ensures InsertMember(b, o, m) in UpdateCalls(want, have) <==>
      m in MembersAt(want, b, o) && m !in MembersAt(have, b, o)
    ensures RemoveMember(b, o, m) in UpdateCalls(want, have) <==>
      m in MembersAt(have, b, o) && m !in MembersAt(want, b, o)
  {
    InUpdate(want, have, InsertMember(b, o, m));
    InUpdate(want, have, RemoveMember(b, o, m));
    MemberCallAt(b, o, m, OfficeAt(want, b, o), OfficeAt(have, b, o));
  }

  lemma MemberCallAt(b: string, o: string, m: string, want: Option<Office>, have: Option<Office>)
    ensures OfficeCall(InsertMember(b, o, m), b, o, want, have) <==> m in MembersOf(want) && m !in MembersOf(have)
    ensures OfficeCall(RemoveMember(b, o, m), b, o, want, have) <==> m in MembersOf(have) && m !in MembersOf(want)
  {
  }

  /** An office is inserted (with its desired properties) exactly when it is new, and deleted exactly when it is gone. */
  lemma OfficesSynced(want: State, have: State, b: string, o: string, p: Properties)
    requires WellKeyed(want) && WellKeyed(have)
    ensures InsertOffice(b, o, p) in UpdateCalls(want, have) <==>
      OfficeAt(want, b, o).Some? && OfficeAt(have, b, o).None? && p == OfficeAt(want, b, o).value.properties
    ensures DeleteOffice(b, o, p) in UpdateCalls(want, have) <==>
      OfficeAt(have, b, o).Some? && OfficeAt(want, b, o).None? && p == OfficeAt(have, b, o).value.properties
  {
    InUpdate(want, have, InsertOffice(b, o, p));
    InUpdate(want, have, DeleteOffice(b, o, p));
    OfficeCallAt(b, o, p, OfficeAt(want, b, o), OfficeAt(have, b, o));
  }

  lemma OfficeCallAt(b: string, o: string, p: Properties, want: Option<Office>, have: Option<Office>)
    ensures OfficeCall(InsertOffice(b, o, p), b, o, want, have) <==> want.Some? && have.None? && p == want.value.properties
    ensures OfficeCall(DeleteOffice(b, o, p), b, o, want, have) <==> have.Some? && want.None? && p == have.value.properties
  {
  }

  /** A branch is inserted exactly when it is new, and deleted exactly when it is gone. */
  lemma BranchesSynced(want: State, have: State, b: string)
    requires WellKeyed(want) && WellKeyed(have)
    ensures InsertBranch(b) in UpdateCalls(want, have) <==> HasKey(want, b) && !HasKey(have, b)
    ensures DeleteBranch(b) in UpdateCalls(want, have) <==> HasKey(have, b) && !HasKey(want, b)
  {
    UpdateCallsIff(want, have, InsertBranch(b));
    UpdateCallsIff(want, have, DeleteBranch(b));
  }

  // ---------------------------------------------------------------------------
  // In which order, and what a sync of an unchanged tree does
  // ---------------------------------------------------------------------------

  /** Every call of the first loop of update is about a desired branch. */
  lemma UpsertsAbout(want: State, have: State, c: Call)
    requires WellKeyed(want) && WellKeyed(have)
    ensures c in BranchUpserts(want, have) ==> HasBranch(c) && HasKey(want, c.branch)
  {
    BranchUpsertsIff(want, have, c);
  }

  /** Every call of the second loop of update is about a branch that is no longer desired. */
  lemma DropsAbout(have: State, want: State, c: Call)
    requires WellKeyed(have)
    ensures c in BranchDrops(have, want) ==> HasBranch(c) && !HasKey(want, c.branch)
  {
    BranchDropsIff(have, want, c);
  }

  /**
   * update sends begin first and complete last; in between come first the
   * calls about desired branches, then those about branches that are gone.
   */
  lemma UpdateOrdered(want: State, have: State)
    requires WellKeyed(want) && WellKeyed(have)
    ensures UpdateCalls(want, have) == [Begin] + BranchUpserts(want, have) + BranchDrops(have, want) + [Complete]
    ensures forall c :: c in BranchUpserts(want, have) ==> HasBranch(c) && HasKey(want, c.branch)
    ensures forall c :: c in BranchDrops(have, want) ==> HasBranch(c) && !HasKey(want, c.branch)
  {
    forall c | c in BranchUpserts(want, have) ensures HasBranch(c) && HasKey(want, c.branch) {
      UpsertsAbout(want, have, c);
    }
    forall c | c in BranchDrops(have, want) ensures HasBranch(c) && !HasKey(want, c.branch) {
      DropsAbout(have, want, c);
    }
  }

  /** Every call about a desired branch comes before every call about a branch that is gone. */
  lemma DesiredBranchesFirst(want: State, have: State, i: nat, j: nat)
    requires WellKeyed(want) && WellKeyed(have)
    requires 0 < i < |UpdateCalls(want, have)| - 1 && 0 < j < |UpdateCalls(want, have)| - 1
    requires HasBranch(UpdateCalls(want, have)[i]) && HasBranch(UpdateCalls(want, have)[j])
    requires HasKey(want, UpdateCalls(want, have)[i].branch) && !HasKey(want, UpdateCalls(want, have)[j].branch)
    ensures i < j
  {
    UpdateOrdered(want, have);
    var desired := (c: Call) => HasBranch(c) && HasKey(want, c.branch);
    BlockOrder(UpdateCalls(want, have), Begin, BranchUpserts(want, have), BranchDrops(have, want), Complete, desired, i, j);
  }

  /** updateOffice inserts before it removes, so an office never passes through empty needlessly. */
  lemma InsertsBeforeRemoves(b: string, o: string, want: seq<string>, have: seq<string>, i: nat, j: nat)
    requires i < |MemberCalls(b, o, want, have)| && j < |MemberCalls(b, o, want, have)|
    requires MemberCalls(b, o, want, have)[i].InsertMember? && MemberCalls(b, o, want, have)[j].RemoveMember?
    ensures i < j
  {
  }

  /** A new office: announced with its properties, then every member inserted in the given order. */
  lemma NewOfficeShape(b: string, n: string, w: Office)
    ensures OfficeCalls(b, n, Some(w), None) == [InsertOffice(b, n, w.properties)] + Inserts(b, n, w.members)
  {
    MissingFromEmpty(w.members);
    assert Missing([], w.members) == [];
  }

  /** An office that is gone: every member removed in order, then the office dropped with its properties. */
  lemma GoneOfficeShape(b: string, n: string, h: Office)
    ensures OfficeCalls(b, n, None, Some(h)) == Removes(b, n, h.members) + [DeleteOffice(b, n, h.properties)]
  {
    MissingFromEmpty(h.members);
    assert Missing([], h.members) == [];
  }

  lemma UnchangedOfficeQuiet(b: string, n: string, o: Office)
    ensures OfficeCalls(b, n, Some(o), Some(o)) == []
  {
    MissingSelf(o.members);
  }

  lemma {:induction false} UnchangedOfficesQuiet(b: string, offices: OMap<Office>, k: nat)
    requires KeysUnique(offices) && k <= |offices|
    ensures OfficeUpserts(b, offices[..k], offices) == []
    ensures OfficeDrops(b, offices[..k], offices) == []
  {
    if k > 0 {
      var p := offices[..k];
      assert p[..|p| - 1] == offices[..k - 1];
      GetAt(offices, k - 1);
      UnchangedOfficeQuiet(b, offices[k - 1].0, offices[k - 1].1);
      UnchangedOfficesQuiet(b, offices, k - 1);
    }
  }

  lemma {:induction false} UnchangedBranchesQuiet(s: State, k: nat)
    requires WellKeyed(s) && k <= |s|
    ensures BranchUpserts(s[..k], s) == []
    ensures BranchDrops(s[..k], s) == []
  {
    if k > 0 {
      var p := s[..k];
      assert p[..|p| - 1] == s[..k - 1];
      GetAt(s, k - 1);
      var lists := s[k - 1].1.lists;
      UnchangedOfficesQuiet(s[k - 1].0, lists, |lists|);
      assert lists[..|lists|] == lists;
      UnchangedBranchesQuiet(s, k - 1);
    }
  }

  /** Syncing a tree against itself changes nothing: only begin and complete are sent. */
  lemma UpdateUnchangedQuiet(s: State)
    requires WellKeyed(s)
    ensures UpdateCalls(s, s) == [Begin, Complete]
  {
    UnchangedBranchesQuiet(s, |s|);
    assert s[..|s|] == s;
  }

  // ---------------------------------------------------------------------------
  // deleteBranch as written
  // ---------------------------------------------------------------------------

  /**
   * The second loop of update hands deleteBranch the whole normalised
   * branch, {lists: offices}, rather than its offices. updateBranch then sees
   * one existing "office" named lists, whose 'members' and 'properties'
   * entries are unset (NULL, shown here as empty) unless the branch has
   * offices with those names: so it deletes a phantom office "lists" and
   * never removes the members of the branch's real offices.
   */
  function DeleteBranchAsWritten(b: string, br: Branch): (r: seq<Call>)
    requires !HasKey(br.lists, "members") && !HasKey(br.lists, "properties")
    ensures r == [DeleteOffice(b, "lists", map[]), DeleteBranch(b)]
  {
    var phantom := Office(MembersOf(Lookup(br.lists, "members")), map[]);
    assert phantom.members == [];
    assert Missing([], []) == [];
    assert [("lists", phantom)][..0] == [];
    assert OfficeDrops(b, [("lists", phantom)], []) == [DeleteOffice(b, "lists", map[])];
    BranchCalls(b, [], [("lists", phantom)]) + [DeleteBranch(b)]
  }

  /** A member of a vanished branch's office: removed as intended, kept as written. */
  lemma DeleteBranchAsWrittenKeepsMembers(b: string, br: Branch, o: string, m: string)
    requires !HasKey(br.lists, "members") && !HasKey(br.lists, "properties")
    requires KeysUnique(br.lists) && HasKey(br.lists, o) && m in Get(br.lists, o).members
    ensures RemoveMember(b, o, m) !in DeleteBranchAsWritten(b, br)
    ensures RemoveMember(b, o, m) in BranchLevelCalls(b, None, Some(br))
  {
    BranchLevelIff(b, None, Some(br), RemoveMember(b, o, m));
  }

  // ---------------------------------------------------------------------------
  // The class
  // ---------------------------------------------------------------------------

  class Groups {
    /** The normalised tree the controller was last brought to. */
    var existingState: State
    const ctrl: Recorder<Call>

    constructor(ctrl: Recorder<Call>, state: RawState)
      ensures this.ctrl == ctrl && existingState == NormalizeState(state)
    {
      this.ctrl := ctrl;
      existingState := NormalizeState(state);
    }

    /** update: normalise the desired tree, send the calls that reach it, and remember it. */
    method Update(memberships: RawState)
      modifies this, ctrl
      ensures ctrl.calls == old(ctrl.calls) + UpdateCalls(NormalizeState(memberships), old(existingState))
      ensures existingState == NormalizeState(memberships)
    {
      ctrl.Send(Begin);
      var desired := NormalizeState(memberships);
      UpsertBranches(desired, existingState);
      DropBranches(existingState, desired);
      ctrl.Send(Complete);
      Appended4(old(ctrl.calls), [Begin], BranchUpserts(desired, existingState),
        BranchDrops(existingState, desired), [Complete]);
      existingState := desired;
    }

    /** The first loop of update: every desired branch, in order. */
    method UpsertBranches(desired: State, existing: State)
      modifies ctrl
      ensures ctrl.calls == old(ctrl.calls) + BranchUpserts(desired, existing)
    {
      var i := 0;
      while i < |desired|
        invariant 0 <= i <= |desired|
        invariant ctrl.calls == old(ctrl.calls) + BranchUpserts(desired[..i], existing)
      {
        UpsertBranchesPass(desired, existing, i, old(ctrl.calls));
        i := i + 1;
      }
      assert desired[..i] == desired;
    }

    /** Pass i of the loop in UpsertBranches: carries its invariant from i to i + 1. */
    method UpsertBranchesPass(desired: State, existing: State, i: nat, ghost before: seq<Call>)
      requires i < |desired|
      requires ctrl.calls == before + BranchUpserts(desired[..i], existing)
      modifies ctrl
      ensures ctrl.calls == before + BranchUpserts(desired[..i + 1], existing)
    {
      var (name, branch) := desired[i];
      UpsertBranch(name, branch, existing);
      Appended(before, BranchUpserts(desired[..i], existing),
        BranchLevelCalls(name, Some(branch), Lookup(existing, name)),
        BranchUpserts(desired[..i + 1], existing)) by {
        BranchUpsertsStep(desired, existing, i);
      }
    }

    /** The second loop of update: every existing branch that is no longer desired. */
    method DropBranches(existing: State, desired: State)
      modifies ctrl
      ensures ctrl.calls == old(ctrl.calls) + BranchDrops(existing, desired)
    {
      var j := 0;
      while j < |existing|
        invariant 0 <= j <= |existing|
        invariant ctrl.calls == old(ctrl.calls) + BranchDrops(existing[..j], desired)
      {
        DropBranchesPass(existing, desired, j, old(ctrl.calls));
        j := j + 1;
      }
      assert existing[..j] == existing;
    }

    /** Pass j of the loop in DropBranches: carries its invariant from j to j + 1. */
    method DropBranchesPass(existing: State, desired: State, j: nat, ghost before: seq<Call>)
      requires j < |existing|
      requires ctrl.calls == before + BranchDrops(existing[..j], desired)
      modifies ctrl
      ensures ctrl.calls == before + BranchDrops(existing[..j + 1], desired)
    {
      var (name, branch) := existing[j];
      ghost var step := if HasKey(desired, name) then [] else BranchLevelCalls(name, None, Some(branch));
      DropBranch(name, branch, desired);
      Appended(before, BranchDrops(existing[..j], desired), step,
        BranchDrops(existing[..j + 1], desired)) by {
        BranchDropsStep(existing, desired, j);
      }
    }

    /** One pass of update's first loop: update the branch if it exists, insert it otherwise. */
    method UpsertBranch(name: string, branch: Branch, existing: State)
      modifies ctrl
      ensures ctrl.calls == old(ctrl.calls) + BranchLevelCalls(name, Some(branch), Lookup(existing, name))
    {
      if HasKey(existing, name) {
        ghost var offices := BranchCalls(name, branch.lists, Get(existing, name).lists);
        UpdateBranch(name, branch.lists, Get(existing, name).lists);
      } else {
        ghost var offices := BranchCalls(name, branch.lists, []);
        InsertBranch(name, branch.lists);
        Appended(old(ctrl.calls), [Call.InsertBranch(name)], offices, BranchLevelCalls(name, Some(branch), Lookup(existing, name)));
      }
    }

    /** One pass of update's second loop: delete the branch unless it is still desired. */
    method DropBranch(name: string, branch: Branch, desired: State)
      modifies ctrl
      ensures ctrl.calls == old(ctrl.calls)
        + (if HasKey(desired, name) then [] else BranchLevelCalls(name, None, Some(branch)))
    {
      if !HasKey(desired, name) {
        DeleteBranch(name, branch.lists);
      }
    }

    /** updateBranch: the desired offices in order, then the existing ones no longer desired. */
    method UpdateBranch(b: string, updateOffices: OMap<Office>, existingOffices: OMap<Office>)
      modifies ctrl
      ensures ctrl.calls == old(ctrl.calls) + BranchCalls(b, updateOffices, existingOffices)
    {
      UpsertOffices(b, updateOffices, existingOffices);
      DropOffices(b, existingOffices, updateOffices);
      Appended(old(ctrl.calls), OfficeUpserts(b, updateOffices, existingOffices),
        OfficeDrops(b, existingOffices, updateOffices), BranchCalls(b, updateOffices, existingOffices));
    }

    /** The first loop of updateBranch: every desired office, in order. */
    method UpsertOffices(b: string, updateOffices: OMap<Office>, existingOffices: OMap<Office>)
      modifies ctrl
      ensures ctrl.calls == old(ctrl.calls) + OfficeUpserts(b, updateOffices, existingOffices)
    {
      var i := 0;
      while i < |updateOffices|
        invariant 0 <= i <= |updateOffices|
        invariant ctrl.calls == old(ctrl.calls) + OfficeUpserts(b, updateOffices[..i], existingOffices)
      {
        UpsertOfficesPass(b, updateOffices, existingOffices, i, old(ctrl.calls));
        i := i + 1;
      }
      assert updateOffices[..i] == updateOffices;
    }

    /** Pass i of the loop in UpsertOffices: carries its invariant from i to i + 1. */
    method UpsertOfficesPass(b: string, updateOffices: OMap<Office>, existingOffices: OMap<Office>, i: nat, ghost before: seq<Call>)
      requires i < |updateOffices|
      requires ctrl.calls == before + OfficeUpserts(b, updateOffices[..i], existingOffices)
      modifies ctrl
      ensures ctrl.calls == before + OfficeUpserts(b, updateOffices[..i + 1], existingOffices)
    {
      var (name, data) := updateOffices[i];
      UpsertOffice(b, name, data, existingOffices);
      Appended(before, OfficeUpserts(b, updateOffices[..i], existingOffices),
        OfficeCalls(b, name, Some(data), Lookup(existingOffices, name)),
        OfficeUpserts(b, updateOffices[..i + 1], existingOffices)) by {
        OfficeUpsertsStep(b, updateOffices, existingOffices, i);
      }
    }

    /** The second loop of updateBranch: every existing office that is no longer desired. */
    method DropOffices(b: string, existingOffices: OMap<Office>, updateOffices: OMap<Office>)
      modifies ctrl
      ensures ctrl.calls == old(ctrl.calls) + OfficeDrops(b, existingOffices, updateOffices)
    {
      var j := 0;
      while j < |existingOffices|
        invariant 0 <= j <= |existingOffices|
        invariant ctrl.calls == old(ctrl.calls) + OfficeDrops(b, existingOffices[..j], updateOffices)
      {
        DropOfficesPass(b, existingOffices, updateOffices, j, old(ctrl.calls));
        j := j + 1;
      }
      assert existingOffices[..j] == existingOffices;
    }

    /** Pass j of updateBranch's second loop, carrying the loop invariant from j to j + 1. */
    method DropOfficesPass(b: string, existingOffices: OMap<Office>, updateOffices: OMap<Office>, j: nat, ghost before: seq<Call>)
      requires j < |existingOffices|
      requires ctrl.calls == before + OfficeDrops(b, existingOffices[..j], updateOffices)
      modifies ctrl
      ensures ctrl.calls == before + OfficeDrops(b, existingOffices[..j + 1], updateOffices)
    {
      var (name, data) := existingOffices[j];
      ghost var step := if HasKey(updateOffices, name) then [] else OfficeCalls(b, name, None, Some(data));
      DropOffice(b, name, data, updateOffices);
      Appended(before, OfficeDrops(b, existingOffices[..j], updateOffices), step,
        OfficeDrops(b, existingOffices[..j + 1], updateOffices)) by {
        OfficeDropsStep(b, existingOffices, updateOffices, j);
      }
    }

    /** One pass of updateBranch's first loop: update the office if it exists, insert it otherwise. */
    method UpsertOffice(b: string, name: string, data: Office, existingOffices: OMap<Office>)
      modifies ctrl
      ensures ctrl.calls == old(ctrl.calls) + OfficeCalls(b, name, Some(data), Lookup(existingOffices, name))
    {
      if HasKey(existingOffices, name) {
        UpdateOffice(b, name, data.members, Get(existingOffices, name).members);
      } else {
        InsertOffice(b, name, data);
      }
    }

    /** One pass of updateBranch's second loop: delete the office unless it is still desired. */
    method DropOffice(b: string, name: string, data: Office, updateOffices: OMap<Office>)
      modifies ctrl
      ensures ctrl.calls == old(ctrl.calls)
        + (if HasKey(updateOffices, name) then [] else OfficeCalls(b, name, None, Some(data)))
    {
      if !HasKey(updateOffices, name) {
        DeleteOffice(b, name, data);
      }
    }

    /** insertBranch: announce the branch, then insert every office as new. */
    method InsertBranch(b: string, newOffices: OMap<Office>)
      modifies ctrl
      ensures ctrl.calls == old(ctrl.calls) + [Call.InsertBranch(b)] + BranchCalls(b, newOffices, [])
    {
      ctrl.Send(Call.InsertBranch(b));
      UpdateBranch(b, newOffices, []);
    }

    /** deleteBranch, given the branch's offices: tear every office down, then drop the branch. */
    method DeleteBranch(b: string, removingOffices: OMap<Office>)
      modifies ctrl
      ensures ctrl.calls == old(ctrl.calls) + BranchCalls(b, [], removingOffices) + [Call.DeleteBranch(b)]
    {
      UpdateBranch(b, [], removingOffices);
      ctrl.Send(Call.DeleteBranch(b));
    }

    /** updateOffice: insert the desired members the office lacks, then remove the undesired ones. */
    method UpdateOffice(b: string, o: string, updateMembers: seq<string>, existingMembers: seq<string>)
      modifies ctrl
      ensures ctrl.calls == old(ctrl.calls) + MemberCalls(b, o, updateMembers, existingMembers)
    {
      var i := 0;
      while i < |updateMembers|
        invariant 0 <= i <= |updateMembers|
        invariant ctrl.calls == old(ctrl.calls) + Inserts(b, o, Missing(updateMembers[..i], existingMembers))
      {
        InsertMemberPass(b, o, updateMembers, existingMembers, i, old(ctrl.calls));
        i := i + 1;
      }
      assert updateMembers[..i] == updateMembers;
      ghost var inserted := Inserts(b, o, Missing(updateMembers, existingMembers));
      assert Removes(b, o, Missing(existingMembers[..0], updateMembers)) == [] by {
        assert existingMembers[..0] == [];
      }
      var j := 0;
      while j < |existingMembers|
        invariant 0 <= j <= |existingMembers|
        invariant ctrl.calls == old(ctrl.calls) + inserted + Removes(b, o, Missing(existingMembers[..j], updateMembers))
      {
        RemoveMemberPass(b, o, existingMembers, updateMembers, j, old(ctrl.calls) + inserted);
        j := j + 1;
      }
      assert existingMembers[..j] == existingMembers;
    }

    /** Pass i of updateOffice's first loop: insert want[i] when have lacks it. */
    method InsertMemberPass(b: string, o: string, want: seq<string>, have: seq<string>, i: nat, ghost before: seq<Call>)
      requires i < |want|
      requires ctrl.calls == before + Inserts(b, o, Missing(want[..i], have))
      modifies ctrl
      ensures ctrl.calls == before + Inserts(b, o, Missing(want[..i + 1], have))
    {
      ghost var step := if want[i] in have then [] else [InsertMember(b, o, want[i])];
      if want[i] !in have {
        ctrl.Send(InsertMember(b, o, want[i]));
      }
      Appended(before, Inserts(b, o, Missing(want[..i], have)), step,
        Inserts(b, o, Missing(want[..i + 1], have))) by {
        InsertsMissingStep(b, o, want, have, i);
      }
    }

    /** Pass j of updateOffice's second loop: remove have[j] when want lacks it. */
    method RemoveMemberPass(b: string, o: string, have: seq<string>, want: seq<string>, j: nat, ghost before: seq<Call>)
      requires j < |have|
      requires ctrl.calls == before + Removes(b, o, Missing(have[..j], want))
      modifies ctrl
      ensures ctrl.calls == before + Removes(b, o, Missing(have[..j + 1], want))
    {
      ghost var step := if have[j] in want then [] else [RemoveMember(b, o, have[j])];
      if have[j] !in want {
        ctrl.Send(RemoveMember(b, o, have[j]));
      }
      Appended(before, Removes(b, o, Missing(have[..j], want)), step,
        Removes(b, o, Missing(have[..j + 1], want))) by {
        RemovesMissingStep(b, o, have, want, j);
      }
    }

    /** insertOffice: announce the office with its properties, then insert every member. */
    method InsertOffice(b: string, o: string, data: Office)
      modifies ctrl
      ensures ctrl.calls == old(ctrl.calls) + OfficeCalls(b, o, Some(data), None)
    {
      ctrl.Send(Call.InsertOffice(b, o, data.properties));
      UpdateOffice(b, o, data.members, []);
    }

    /** deleteOffice: remove every member, then drop the office with its properties. */
    method DeleteOffice(b: string, o: string, data: Office)
      modifies ctrl
      ensures ctrl.calls == old(ctrl.calls) + OfficeCalls(b, o, None, Some(data))
    {
      UpdateOffice(b, o, [], data.members);
      ctrl.Send(Call.DeleteOffice(b, o, data.properties));
    }
  }
}
