/**
 * State normalisation (src/Utils.php; src/Groups.php carries a verbatim copy
 * of the same static functions): every way of writing an office's
 * membership becomes one canonical Office, and aliases are merged into
 * lists as forward-only offices.
 */
module Normalize {
  import opened Wrappers
  import opened OrderedMaps
  import opened Memberships

  /** The three ways a membership may be written in the declared state. */
  datatype RawGroup =
    | Single(address: string)                                      // a bare string
    | Plain(addresses: seq<string>)                                // a list without a 'members' key
    | Detailed(members: seq<string>, properties: Option<Properties>) // a map with a 'members' key

  /** A declared branch: optional 'lists' and optional 'aliases'. */
  datatype RawBranch = RawBranch(lists: Option<OMap<RawGroup>>, aliases: Option<OMap<RawGroup>>)

  type RawState = OMap<RawBranch>

  /** The forward-only default that alias offices receive. */
  const AliasDefaults: Properties := map["forward-only" := Flag(true)]

  /** normalizeMembershipData / normalizeMembershipArrayData. */
  function NormalizeMembershipData(g: RawGroup): (o: Office)
    ensures g.Single? ==> o.members == [g.address] && o.properties == map[]
    ensures g.Plain? ==> o.members == g.addresses && o.properties == map[]
    ensures g.Detailed? ==> o.members == g.members
    ensures g.Detailed? && g.properties.Some? ==> o.properties == g.properties.value
    ensures g.Detailed? && g.properties.None? ==> o.properties == map[]
  {
    match g
    case Single(a) => Office([a], map[])
    case Plain(xs) => Office(xs, map[])
    case Detailed(ms, props) => Office(ms, if props.Some? then props.value else map[])
  }

  /** $data['properties'] += $default: the office's own properties win. */
  function WithDefaults(o: Office, default: Properties): (r: Office)
    ensures r.members == o.members
    ensures r.properties.Keys == o.properties.Keys + default.Keys
    ensures forall k :: k in o.properties ==> r.properties[k] == o.properties[k]
    ensures forall k :: k in default && k !in o.properties ==> r.properties[k] == default[k]
  {
    Office(o.members, default + o.properties)
  }

  /** normalizeGroupsData: every office normalised, names and order kept. */
  function NormalizeGroupsData(groups: OMap<RawGroup>, default: Properties): (r: OMap<Office>)
    ensures Keys(r) == Keys(groups)
    ensures forall i :: 0 <= i < |r| ==>
      r[i].1 == WithDefaults(NormalizeMembershipData(groups[i].1), default)
    ensures KeysUnique(groups) ==> KeysUnique(r)
  {
    seq(|groups|, i requires 0 <= i < |groups| =>
      (groups[i].0, WithDefaults(NormalizeMembershipData(groups[i].1), default)))
  }

  /** normalizeListsAndAliases: lists first, then aliases not already listed. */
  function NormalizeListsAndAliases(b: RawBranch): (r: Branch)
    ensures b.lists.None? && b.aliases.None? ==> r.lists == []
    ensures b.aliases.None? && b.lists.Some? ==> r.lists == NormalizeGroupsData(b.lists.value, map[])
  {
    var lists := if b.lists.Some? then NormalizeGroupsData(b.lists.value, map[]) else [];
    if b.aliases.Some? then Branch(Union(lists, NormalizeGroupsData(b.aliases.value, AliasDefaults)))
    else Branch(lists)
  }

  /** normalize: every branch normalised, names and order kept. */
  function NormalizeState(s: RawState): (r: State)
    ensures Keys(r) == Keys(s)
    ensures forall i :: 0 <= i < |r| ==> r[i].1 == NormalizeListsAndAliases(s[i].1)
  {
    seq(|s|, i requires 0 <= i < |s| => (s[i].0, NormalizeListsAndAliases(s[i].1)))
  }

  /**
   * getAlternateAddresses over whatever `$officeData['properties']` holds:
   * nothing when that is unset or lacks the key, a scalar as a one-element
   * list, a list as itself.
   */
  function AlternateAddressesIn(props: Option<Properties>): (r: seq<string>)
    ensures props.None? ==> r == []
    ensures props.Some? && "alternate-addresses" !in props.value ==> r == []
    ensures props.Some? && "alternate-addresses" in props.value && props.value["alternate-addresses"].Str? ==>
      r == [props.value["alternate-addresses"].s]
    ensures props.Some? && "alternate-addresses" in props.value && props.value["alternate-addresses"].List? ==>
      r == props.value["alternate-addresses"].items
  {
    if props.None? then []
    else
      match Prop(props.value, "alternate-addresses")
      case None => []
      case Some(Str(a)) => [a]
      case Some(List(xs)) => xs
      case Some(Flag(_)) => []
  }

  /** getAlternateAddresses on an office: nothing when unset, a scalar as a one-element list, a list as itself. */
  function GetAlternateAddresses(o: Office): (r: seq<string>)
    ensures "alternate-addresses" !in o.properties ==> r == []
    ensures "alternate-addresses" in o.properties && o.properties["alternate-addresses"].Str? ==>
      r == [o.properties["alternate-addresses"].s]
    ensures "alternate-addresses" in o.properties && o.properties["alternate-addresses"].List? ==>
      r == o.properties["alternate-addresses"].items
  {
    AlternateAddressesIn(Some(o.properties))
  }

  /** Keys in the declared state are unique, as PHP guarantees. */
  predicate RawWellKeyed(s: RawState) {
    && KeysUnique(s)
    && forall i :: 0 <= i < |s| ==>
      (s[i].1.lists.Some? ==> KeysUnique(s[i].1.lists.value))
      && (s[i].1.aliases.Some? ==> KeysUnique(s[i].1.aliases.value))
  }

  lemma NormalizeWellKeyed(s: RawState)
    requires RawWellKeyed(s)
    ensures WellKeyed(NormalizeState(s))
  {
    var r := NormalizeState(s);
    forall i, j | 0 <= i < j < |r| ensures r[i].0 != r[j].0 {
      assert Keys(r)[i] == Keys(s)[i] && Keys(r)[j] == Keys(s)[j];
    }
  }

  /** Looking an office up after normalizeGroupsData finds its normalised entry. */
  lemma GetNormalized(groups: OMap<RawGroup>, default: Properties, office: string)
    requires HasKey(groups, office)
    ensures HasKey(NormalizeGroupsData(groups, default), office)
    ensures Get(NormalizeGroupsData(groups, default), office)
      == WithDefaults(NormalizeMembershipData(Get(groups, office)), default)
  {
    var r := NormalizeGroupsData(groups, default);
    assert Keys(r) == Keys(groups);
    var i, j := IndexOfKey(r, office), IndexOfKey(groups, office);
    assert Keys(r)[j] == office;
    assert Keys(groups)[i] == office;
  }

  /** When an office name is under both 'lists' and 'aliases', the list entry wins. */
  lemma ListShadowsAlias(b: RawBranch, office: string)
    requires b.lists.Some? && HasKey(b.lists.value, office)
    requires b.aliases.Some? && KeysUnique(b.aliases.value)
    ensures HasKey(NormalizeListsAndAliases(b).lists, office)
    ensures Get(NormalizeListsAndAliases(b).lists, office)
      == NormalizeMembershipData(Get(b.lists.value, office))
  {
    var lists := NormalizeGroupsData(b.lists.value, map[]);
    var aliases := NormalizeGroupsData(b.aliases.value, AliasDefaults);
    var o := NormalizeMembershipData(Get(b.lists.value, office));
    assert HasKey(lists, office) && Get(lists, office) == o by {
      GetNormalized(b.lists.value, map[], office);
      assert WithDefaults(o, map[]) == o by {
        assert map[] + o.properties == o.properties;
      }
    }
    assert KeysUnique(aliases);
    UnionGet(lists, aliases, office);
  }

  /** An alias office no list shadows keeps its members and defaults forward-only to true. */
  lemma AliasIsForwardOnly(b: RawBranch, office: string)
    requires b.aliases.Some? && KeysUnique(b.aliases.value) && HasKey(b.aliases.value, office)
    requires b.lists.None? || !HasKey(b.lists.value, office)
    ensures HasKey(NormalizeListsAndAliases(b).lists, office)
    ensures var got := Get(NormalizeListsAndAliases(b).lists, office);
      var raw := NormalizeMembershipData(Get(b.aliases.value, office));
      && got.members == raw.members
      && "forward-only" in got.properties
      && got.properties["forward-only"] ==
         (if "forward-only" in raw.properties then raw.properties["forward-only"] else Flag(true))
  {
    var lists := if b.lists.Some? then NormalizeGroupsData(b.lists.value, map[]) else [];
    var aliases := NormalizeGroupsData(b.aliases.value, AliasDefaults);
    assert !HasKey(lists, office) by {
      if b.lists.Some? { assert Keys(lists) == Keys(b.lists.value); }
    }
    GetNormalized(b.aliases.value, AliasDefaults, office);
    UnionGet(lists, aliases, office);
  }

  /** The declared form of a canonical state: every office written as a map with 'members'. */
  function Declared(s: State): (r: RawState)
    ensures Keys(r) == Keys(s)
  {
    seq(|s|, i requires 0 <= i < |s| =>
      (s[i].0, RawBranch(Some(DeclaredOffices(s[i].1.lists)), None)))
  }

  function DeclaredOffices(offices: OMap<Office>): (r: OMap<RawGroup>)
    ensures Keys(r) == Keys(offices)
  {
    seq(|offices|, i requires 0 <= i < |offices| =>
      (offices[i].0, Detailed(offices[i].1.members, Some(offices[i].1.properties))))
  }

  /** Normalising already-normalised state changes nothing. */
  lemma NormalizeIdempotent(s: State)
    ensures NormalizeState(Declared(s)) == s
  {
    var r := NormalizeState(Declared(s));
    forall i | 0 <= i < |s| ensures r[i] == s[i] {
      var offices := s[i].1.lists;
      var n := NormalizeGroupsData(DeclaredOffices(offices), map[]);
      forall j | 0 <= j < |offices| ensures n[j] == offices[j] {
        assert Keys(n)[j] == offices[j].0;
        assert map[] + offices[j].1.properties == offices[j].1.properties;
      }
      assert n == offices;
    }
  }
}
