/**
 * The canonical membership tree: branch -> office -> {members, properties}.
 * PHP's loosely typed arrays become explicit datatypes; property values are
 * the three shapes the core reads (a string, a boolean such as
 * forward-only, or a list such as alternate-addresses).
 */
module Memberships {
  import opened Wrappers
  import opened OrderedMaps

  datatype Value = Str(s: string) | Flag(b: bool) | List(items: seq<string>)

  type Properties = map<string, Value>

  datatype Office = Office(members: seq<string>, properties: Properties)

  /** A normalised branch always carries its 'lists' entry. */
  datatype Branch = Branch(lists: OMap<Office>)

  type State = OMap<Branch>

  /** $props[$key], where an unset key reads as NULL. */
  function Prop(props: Properties, key: string): Option<Value> {
    if key in props then Some(props[key]) else None
  }

  /** Keys are unique at every level, as they are in any PHP array. */
  predicate WellKeyed(s: State) {
    KeysUnique(s) && forall i :: 0 <= i < |s| ==> KeysUnique(s[i].1.lists)
  }

  /** An office's members, none when the office is absent. */
  function MembersOf(o: Option<Office>): seq<string> {
    if o.Some? then o.value.members else []
  }

  /** Dropping the last branch keeps the tree well keyed. */
  lemma WellKeyedInit(s: State)
    requires WellKeyed(s) && s != []
    ensures WellKeyed(s[..|s| - 1])
    ensures KeysUnique(s[|s| - 1].1.lists)
  {
    var init := s[..|s| - 1];
    assert forall i :: 0 <= i < |init| ==> init[i] == s[i];
  }

  /** The offices of a branch found in a well-keyed tree have unique names. */
  lemma WellKeyedLookup(s: State, b: string)
    requires WellKeyed(s)
    ensures Lookup(s, b).Some? ==> KeysUnique(Lookup(s, b).value.lists)
  {
    if HasKey(s, b) {
      var i := IndexOfKey(s, b);
    }
  }
}
