/**
 * Legacy alias groups (src/LegacyGroups.php): a DreamHost-style alias file,
 * one group per line ("address member,member,..."), is parsed into ordered
 * group -> members entries; each entry then either adds its members to the
 * first office it matches in the membership tree or becomes a new office
 * under the '_legacy' branch.
 */
module Legacy {
  import opened Wrappers
  import opened Strings
  import opened OrderedMaps
  import opened Memberships
  import Normalize

  /** Parsed alias groups: group address -> members, in file order. */
  type LegacyGroups = OMap<seq<string>>

  // ---------------------------------------------------------------------------
  // parseLegacyDreamHostGroups
  // ---------------------------------------------------------------------------

  /** PHP empty() on a string: "" and "0" are empty. */
  predicate EmptyText(s: string) {
    s == "" || s == "0"
  }

  /** A line with every run of blanks reduced to one blank, then trimmed at both ends. */
  function CleanLine(line: string): string {
    Trim(CollapseSpaces(line))
  }

  /** A cleaned line split at its first blank into the address and the member text; without a blank the member text is empty (PHP reads the missing part as NULL). */
  function SplitFirstSpace(g: string): (r: (string, string))
    ensures ' ' !in r.0
    ensures ' ' in g ==> g == r.0 + [' '] + r.1
    ensures ' ' !in g ==> r == (g, "")
  {
    if ' ' in g then
      var i := IndexOf(g, ' ');
      assert g == g[..i] + [' '] + g[i + 1..];
      (g[..i], g[i + 1..])
    else (g, "")
  }

  /** Every entry trimmed. */
  function TrimAll(xs: seq<string>): (r: seq<string>)
    ensures |r| == |xs|
  {
    seq(|xs|, i requires 0 <= i < |xs| => Trim(xs[i]))
  }

  /** The entries that are not on the blacklist, in order (array_diff). */
  function Unlisted(xs: seq<string>, blacklist: seq<string>): seq<string>
    decreases |xs|
  {
    if xs == [] then [] else (if xs[0] in blacklist then [] else [xs[0]]) + Unlisted(xs[1..], blacklist)
  }

  /** array_diff removes exactly the listed entries. */
  lemma {:induction false} UnlistedIff(xs: seq<string>, blacklist: seq<string>, x: string)
    ensures x in Unlisted(xs, blacklist) <==> x in xs && x !in blacklist
    decreases |xs|
  {
    if xs != [] {
      UnlistedIff(xs[1..], blacklist, x);
      assert xs == [xs[0]] + xs[1..];
    }
  }

  /** array_diff with nothing to remove keeps the entries as they are. */
  lemma {:induction false} UnlistedNone(xs: seq<string>, blacklist: seq<string>)
    requires forall k :: 0 <= k < |xs| ==> xs[k] !in blacklist
    ensures Unlisted(xs, blacklist) == xs
    decreases |xs|
  {
    if xs != [] {
      UnlistedNone(xs[1..], blacklist);
      assert xs == [xs[0]] + xs[1..];
    }
  }

  /** The members of one line: the member text split at commas, each entry trimmed, blacklisted entries dropped. */
  function MemberList(rest: string, blacklist: seq<string>): seq<string> {
    Unlisted(TrimAll(Split(rest, ',')), blacklist)
  }

  /** One parsed member: not blacklisted, free of commas, already trimmed. */
  predicate CleanMember(m: string, blacklist: seq<string>) {
    m !in blacklist && ',' !in m && Trim(m) == m
  }

  /** Every member a line yields is clean. */
  lemma MemberListClean(rest: string, blacklist: seq<string>)
    ensures forall k :: 0 <= k < |MemberList(rest, blacklist)| ==> CleanMember(MemberList(rest, blacklist)[k], blacklist)
  {
    var pieces := Split(rest, ',');
    var trimmed := TrimAll(pieces);
    var members := Unlisted(trimmed, blacklist);
    SplitPiecesFree(rest, ',');
    forall k | 0 <= k < |members| ensures CleanMember(members[k], blacklist) {
      UnlistedIff(trimmed, blacklist, members[k]);
      var j :| 0 <= j < |trimmed| && trimmed[j] == members[k];
      TrimIdempotent(pieces[j]);
      TrimKeepsOut(pieces[j], ',');
    }
  }

  /** A cleaned line's entry: none for "", "0" or a '#' comment, a blacklisted address, or no members left. */
  function ParseCleaned(g: string, blacklist: seq<string>): Option<(string, seq<string>)> {
    if EmptyText(g) || g[0] == '#' then None
    else
      var (emailAddress, rest) := SplitFirstSpace(g);
      if emailAddress in blacklist then None
      else
        var members := MemberList(rest, blacklist);
        if members == [] then None else Some((emailAddress, members))
  }

  /** One line of the file: the entry it contributes, if any. */
  function ParseLine(line: string, blacklist: seq<string>): Option<(string, seq<string>)> {
    ParseCleaned(CleanLine(line), blacklist)
  }

  /** The loop of parseLegacyDreamHostGroups over the lines' entries: a later entry for an address overwrites the earlier in place. */
  function Collect(parsed: seq<Option<(string, seq<string>)>>): LegacyGroups
    decreases |parsed|
  {
    if parsed == [] then []
    else
      var acc := Collect(parsed[..|parsed| - 1]);
      match parsed[|parsed| - 1]
      case None => acc
      case Some(entry) => Put(acc, entry.0, entry.1)
  }

  /** Each line's entry, in order. */
  function ParseAll(lines: seq<string>, blacklist: seq<string>): (r: seq<Option<(string, seq<string>)>>)
    ensures |r| == |lines|
  {
    seq(|lines|, i requires 0 <= i < |lines| => ParseLine(lines[i], blacklist))
  }

  /** parseLegacyDreamHostGroups: the entries of every line of the text. */
  function ParseLegacyDreamHostGroups(text: string, blacklist: seq<string>): (r: LegacyGroups)
    ensures KeysUnique(r)
    ensures forall i :: 0 <= i < |r| ==> CleanEntry(r[i].0, r[i].1, blacklist)
  {
    var parsed := ParseAll(Split(text, '\n'), blacklist);
    ParseAllClean(Split(text, '\n'), blacklist);
    CollectClean(parsed, blacklist);
    Collect(parsed)
  }

  /** What a parsed entry always looks like. */
  predicate CleanEntry(address: string, members: seq<string>, blacklist: seq<string>) {
    && address != [] && address[0] != '#' && ' ' !in address && address !in blacklist
    && members != []
    && forall k :: 0 <= k < |members| ==> CleanMember(members[k], blacklist)
  }

  /** A cleaned line's entry has a non-comment address without blanks and clean members. */
  lemma ParseCleanedClean(g: string, blacklist: seq<string>)
    requires g == [] || g[0] != ' '
    ensures ParseCleaned(g, blacklist).Some? ==>
      CleanEntry(ParseCleaned(g, blacklist).value.0, ParseCleaned(g, blacklist).value.1, blacklist)
  {
    if ParseCleaned(g, blacklist).Some? {
      var (emailAddress, rest) := SplitFirstSpace(g);
      assert emailAddress != [] && emailAddress[0] == g[0] by {
        if ' ' in g {
          assert g == emailAddress + [' '] + rest;
        }
      }
      MemberListClean(rest, blacklist);
    }
  }

  /**
   * A line yields an entry only with a non-blank, non-comment address that
   * is not blacklisted, and with at least one member left after the
   * blacklist; every member is trimmed and comma-free.
   */
  lemma ParseLineClean(line: string, blacklist: seq<string>)
    ensures ParseLine(line, blacklist).Some? ==>
      CleanEntry(ParseLine(line, blacklist).value.0, ParseLine(line, blacklist).value.1, blacklist)
  {
    ParseCleanedClean(CleanLine(line), blacklist);
  }

  /** A blank line, or one whose first non-blank character is '#', yields no entry. */
  lemma BlankOrCommentSkipped(line: string, blacklist: seq<string>)
    requires CleanLine(line) == [] || CleanLine(line)[0] == '#'
    ensures ParseLine(line, blacklist).None?
  {
  }

  /** Collected entries are those of the lines, with no address twice. */
  lemma {:induction false} CollectClean(parsed: seq<Option<(string, seq<string>)>>, blacklist: seq<string>)
    requires forall i :: 0 <= i < |parsed| && parsed[i].Some? ==> CleanEntry(parsed[i].value.0, parsed[i].value.1, blacklist)
    ensures KeysUnique(Collect(parsed))
    ensures forall i :: 0 <= i < |Collect(parsed)| ==> CleanEntry(Collect(parsed)[i].0, Collect(parsed)[i].1, blacklist)
    decreases |parsed|
  {
    if parsed != [] {
      var n := |parsed| - 1;
      var acc := Collect(parsed[..n]);
      assert forall i :: 0 <= i < n && parsed[..n][i].Some? ==> CleanEntry(parsed[..n][i].value.0, parsed[..n][i].value.1, blacklist) by {
        forall i | 0 <= i < n ensures parsed[..n][i] == parsed[i] { }
      }
      CollectClean(parsed[..n], blacklist);
      match parsed[n]
      case None =>
      case Some(entry) =>
        var r := Collect(parsed);
        forall i | 0 <= i < |r| ensures CleanEntry(r[i].0, r[i].1, blacklist) {
          if HasKey(acc, entry.0) {
            if i != IndexOfKey(acc, entry.0) {
              assert r[i] == acc[i];
            }
          } else {
            assert r == acc + [entry];
            if i < |acc| {
              assert r[i] == acc[i];
            }
          }
        }
    }
  }

  /** Every entry parsed from a line is clean. */
  lemma ParseAllClean(lines: seq<string>, blacklist: seq<string>)
    ensures var parsed := ParseAll(lines, blacklist);
      forall i :: 0 <= i < |parsed| && parsed[i].Some? ==> CleanEntry(parsed[i].value.0, parsed[i].value.1, blacklist)
  {
    var parsed := ParseAll(lines, blacklist);
    forall i | 0 <= i < |parsed| && parsed[i].Some?
      ensures CleanEntry(parsed[i].value.0, parsed[i].value.1, blacklist)
    {
      ParseLineClean(lines[i], blacklist);
    }
  }

  /** Whether an entry is for this address. */
  predicate EntryFor(entry: Option<(string, seq<string>)>, address: string) {
    entry.Some? && entry.value.0 == address
  }

  /** The last entry for an address decides its members. */
  lemma {:induction false} CollectLast(parsed: seq<Option<(string, seq<string>)>>, i: nat, address: string, members: seq<string>)
    requires i < |parsed| && parsed[i] == Some((address, members))
    requires forall j :: i < j < |parsed| ==> !EntryFor(parsed[j], address)
    ensures Lookup(Collect(parsed), address) == Some(members)
    decreases |parsed|
  {
    var n := |parsed| - 1;
    var init := parsed[..n];
    if i < n {
      assert init[i] == parsed[i];
      assert forall j :: i < j < |init| ==> !EntryFor(init[j], address) by {
        forall j | i < j < |init| ensures init[j] == parsed[j] { }
      }
      CollectLast(init, i, address, members);
      match parsed[n]
      case None =>
      case Some(entry) =>
        PutOther(Collect(init), entry.0, entry.1, address);
    }
  }

  /** An address no entry names is not collected. */
  lemma {:induction false} CollectAbsent(parsed: seq<Option<(string, seq<string>)>>, address: string)
    requires forall j :: 0 <= j < |parsed| ==> !EntryFor(parsed[j], address)
    ensures Lookup(Collect(parsed), address).None?
    decreases |parsed|
  {
    if parsed != [] {
      var n := |parsed| - 1;
      var init := parsed[..n];
      assert forall j :: 0 <= j < |init| ==> !EntryFor(init[j], address) by {
        forall j | 0 <= j < |init| ensures init[j] == parsed[j] { }
      }
      CollectAbsent(init, address);
      match parsed[n]
      case None =>
      case Some(entry) =>
        PutOther(Collect(init), entry.0, entry.1, address);
    }
  }

  /**
   * Of several lines for one address the last wins, and an address no line
   * names does not appear.
   */
  lemma ParseLast(text: string, blacklist: seq<string>, i: nat, address: string, members: seq<string>)
    requires var lines := Split(text, '\n');
      i < |lines| && ParseLine(lines[i], blacklist) == Some((address, members))
      && forall j :: i < j < |lines| ==> !EntryFor(ParseLine(lines[j], blacklist), address)
    ensures Lookup(ParseLegacyDreamHostGroups(text, blacklist), address) == Some(members)
  {
    var lines := Split(text, '\n');
    var parsed := ParseAll(lines, blacklist);
    forall j | i < j < |parsed| ensures !EntryFor(parsed[j], address) {
      assert parsed[j] == ParseLine(lines[j], blacklist);
    }
    CollectLast(parsed, i, address, members);
  }

  /** A line written for an alias file: the address, one space, the members joined by commas. */
  function FormatLine(address: string, members: seq<string>): string {
    if members == [] then address else address + [' '] + Join(members, ',')
  }

  /** Every group as an alias-file line, in order. */
  function FormatLines(legacy: LegacyGroups): (r: seq<string>)
    ensures |r| == |legacy|
  {
    seq(|legacy|, i requires 0 <= i < |legacy| => FormatLine(legacy[i].0, legacy[i].1))
  }

  /** The alias file for some groups, one line each. */
  function Format(legacy: LegacyGroups): string {
    if legacy == [] then [] else Join(FormatLines(legacy), '\n')
  }

  /** Text the parser reads back unchanged: no blanks or separators inside, nothing trim() strips at its ends. */
  predicate Word(s: string) {
    && s != [] && !IsTrimmed(s[0]) && !IsTrimmed(s[|s| - 1])
    && ' ' !in s && ',' !in s && '\n' !in s
  }

  /** An entry that can be written as an alias-file line and read back as itself. */
  predicate Writable(address: string, members: seq<string>, blacklist: seq<string>) {
    && Word(address) && address[0] != '#' && address !in blacklist
    && members != []
    && forall k :: 0 <= k < |members| ==> Word(members[k]) && members[k] !in blacklist
  }

  /** Two blank-free words around one blank hold no two blanks in a row. */
  lemma BlankBetween(a: string, b: string)
    requires ' ' !in a && ' ' !in b
    ensures var s := a + [' '] + b;
      forall i :: 0 <= i < |s| - 1 ==> !(s[i] == ' ' && s[i + 1] == ' ')
  {
    var s := a + [' '] + b;
    forall i | 0 <= i < |s| - 1 ensures !(s[i] == ' ' && s[i + 1] == ' ') {
      if i < |a| {
        assert s[i] == a[i];
      } else {
        assert s[i + 1] == b[i - |a|];
      }
    }
  }

  /** A formatted line is already clean: no double blanks, nothing to trim. */
  lemma FormatLineClean(address: string, members: seq<string>, blacklist: seq<string>)
    requires Writable(address, members, blacklist)
    ensures CleanLine(FormatLine(address, members)) == FormatLine(address, members)
  {
    var joined := Join(members, ',');
    var line := address + [' '] + joined;
    assert line == FormatLine(address, members);
    JoinedWords(members);
    assert line[|line| - 1] == joined[|joined| - 1];
    BlankBetween(address, joined);
    CollapseSpacesFixed(line);
    TrimFixed(line);
  }

  /** Words joined by commas: no blank inside, and the text ends in a character trim() keeps. */
  lemma JoinedWords(members: seq<string>)
    requires members != [] && forall k :: 0 <= k < |members| ==> Word(members[k])
    ensures var j := Join(members, ','); j != [] && ' ' !in j && !IsTrimmed(j[|j| - 1])
  {
    var joined := Join(members, ',');
    JoinFree(members, ',', ' ');
    JoinEnds(members, ',');
    var last := members[|members| - 1];
    assert Word(last);
    assert joined[|joined| - 1] == last[|last| - 1] by {
      assert joined[|joined| - |last|..] == last;
    }
  }

  /** A formatted line splits at its first blank into the address and the joined members. */
  lemma FormatLineSplit(address: string, members: seq<string>, blacklist: seq<string>)
    requires Writable(address, members, blacklist)
    ensures SplitFirstSpace(FormatLine(address, members)) == (address, Join(members, ','))
  {
    var line := FormatLine(address, members);
    var joined := Join(members, ',');
    IndexOfAfter(address, ' ', joined);
    assert line[..|address|] == address && line[|address| + 1..] == joined;
  }

  /** The joined members of a writable entry read back as those members. */
  lemma MemberListJoin(members: seq<string>, blacklist: seq<string>)
    requires members != []
    requires forall k :: 0 <= k < |members| ==> Word(members[k]) && members[k] !in blacklist
    ensures MemberList(Join(members, ','), blacklist) == members
  {
    JoinSplit(members, ',');
    TrimAllFixed(members);
    UnlistedNone(members, blacklist);
  }

  /** Trimming each of several words changes none of them. */
  lemma TrimAllFixed(xs: seq<string>)
    requires forall k :: 0 <= k < |xs| ==> Word(xs[k])
    ensures TrimAll(xs) == xs
  {
    forall k | 0 <= k < |xs| ensures TrimAll(xs)[k] == xs[k] {
      TrimFixed(xs[k]);
    }
  }

  /** Parsing a formatted line gives back its entry. */
  lemma ParseFormatLine(address: string, members: seq<string>, blacklist: seq<string>)
    requires Writable(address, members, blacklist)
    ensures ParseLine(FormatLine(address, members), blacklist) == Some((address, members))
  {
    var line := FormatLine(address, members);
    FormatLineClean(address, members, blacklist);
    assert ParseLine(line, blacklist) == ParseCleaned(line, blacklist);
    assert line[0] == address[0] && |line| > 1;
    FormatLineSplit(address, members, blacklist);
    MemberListJoin(members, blacklist);
  }

  /** Without its last entry a key-unique array stays key-unique and lacks the last key. */
  lemma UniquePrefix<V>(m: OMap<V>)
    requires KeysUnique(m) && m != []
    ensures KeysUnique(m[..|m| - 1]) && !HasKey(m[..|m| - 1], m[|m| - 1].0)
  {
    var n := |m| - 1;
    var init := m[..n];
    forall i | 0 <= i < n ensures Keys(init)[i] != m[n].0 {
      assert init[i] == m[i];
    }
  }

  /** Each group as a line's entry. */
  function Present(legacy: LegacyGroups): (r: seq<Option<(string, seq<string>)>>)
    ensures |r| == |legacy|
    decreases |legacy|
  {
    if legacy == [] then [] else Present(legacy[..|legacy| - 1]) + [Some(legacy[|legacy| - 1])]
  }

  /** Entry i of Present is group i. */
  lemma {:induction false} PresentAt(legacy: LegacyGroups, i: nat)
    requires i < |legacy|
    ensures Present(legacy)[i] == Some(legacy[i])
    decreases |legacy|
  {
    var n := |legacy| - 1;
    if i < n {
      PresentAt(legacy[..n], i);
    }
  }

  /** An entry for an address not yet collected is appended at the end. */
  lemma CollectFresh(parsed: seq<Option<(string, seq<string>)>>, entry: (string, seq<string>))
    requires !HasKey(Collect(parsed), entry.0)
    ensures Collect(parsed + [Some(entry)]) == Collect(parsed) + [entry]
  {
    assert (parsed + [Some(entry)])[..|parsed|] == parsed;
  }

  /** Collecting one entry per group, with distinct addresses, gives back the groups. */
  lemma {:induction false} CollectPresent(legacy: LegacyGroups)
    requires KeysUnique(legacy)
    ensures Collect(Present(legacy)) == legacy
    decreases |legacy|
  {
    if legacy != [] {
      var n := |legacy| - 1;
      var init := legacy[..n];
      UniquePrefix(legacy);
      CollectPresent(init);
      CollectPresentStep(legacy);
    }
  }

  /** The step of CollectPresent: the last group's address is new, so its entry lands at the end. */
  lemma CollectPresentStep(legacy: LegacyGroups)
    requires legacy != []
    requires var init := legacy[..|legacy| - 1];
      Collect(Present(init)) == init && !HasKey(init, legacy[|legacy| - 1].0)
    ensures Collect(Present(legacy)) == legacy
  {
    var n := |legacy| - 1;
    var init, e := legacy[..n], legacy[n];
    PresentSnoc(legacy);
    CollectFresh(Present(init), e);
    FrontLast(legacy);
  }

  /** Present of a non-empty array: the entries of all but the last group, then the last. */
  lemma PresentSnoc(legacy: LegacyGroups)
    requires legacy != []
    ensures var n := |legacy| - 1; Present(legacy) == Present(legacy[..n]) + [Some(legacy[n])]
  {
  }

  /** A non-empty sequence is its front followed by its last element. */
  lemma FrontLast<T>(s: seq<T>)
    requires s != []
    ensures s == s[..|s| - 1] + [s[|s| - 1]]
  {
  }

  /** An empty file holds no groups. */
  lemma ParseEmpty(blacklist: seq<string>)
    ensures ParseLegacyDreamHostGroups([], blacklist) == []
  {
    var lines := Split([], '\n');
    assert lines == [[]];
    assert CleanLine([]) == [] by {
      TrimFixed([]);
    }
    var parsed := ParseAll(lines, blacklist);
    assert parsed[0] == ParseLine([], blacklist) == None;
    assert parsed[..0] == [];
    assert Collect(parsed) == Collect(parsed[..0]);
  }

  /**
   * The parser reads back what Format writes: groups with distinct addresses
   * and writable entries survive a round trip through the alias-file text.
   */
  lemma ParseFormat(legacy: LegacyGroups, blacklist: seq<string>)
    requires KeysUnique(legacy)
    requires forall i :: 0 <= i < |legacy| ==> Writable(legacy[i].0, legacy[i].1, blacklist)
    ensures ParseLegacyDreamHostGroups(Format(legacy), blacklist) == legacy
  {
    if legacy == [] {
      ParseEmpty(blacklist);
    } else {
      SplitFormat(legacy, blacklist);
      ParseFormatLines(legacy, blacklist);
      CollectPresent(legacy);
    }
  }

  /** The alias file of writable groups splits back into their lines. */
  lemma {:induction false} SplitFormat(legacy: LegacyGroups, blacklist: seq<string>)
    requires legacy != []
    requires forall i :: 0 <= i < |legacy| ==> Writable(legacy[i].0, legacy[i].1, blacklist)
    ensures Split(Format(legacy), '\n') == FormatLines(legacy)
  {
    var lines := FormatLines(legacy);
    forall k | 0 <= k < |lines| ensures '\n' !in lines[k] {
      JoinFree(legacy[k].1, ',', '\n');
    }
    JoinSplit(lines, '\n');
  }

  /** Each formatted line of writable groups parses back to its group. */
  lemma {:induction false} ParseFormatLines(legacy: LegacyGroups, blacklist: seq<string>)
    requires forall i :: 0 <= i < |legacy| ==> Writable(legacy[i].0, legacy[i].1, blacklist)
    ensures ParseAll(FormatLines(legacy), blacklist) == Present(legacy)
  {
    var parsed, present := ParseAll(FormatLines(legacy), blacklist), Present(legacy);
    forall i | 0 <= i < |legacy| ensures parsed[i] == present[i] {
      ParseFormatLineAt(legacy, blacklist, i);
    }
  }

  lemma {:induction false} ParseFormatLineAt(legacy: LegacyGroups, blacklist: seq<string>, i: nat)
    requires i < |legacy| && Writable(legacy[i].0, legacy[i].1, blacklist)
    ensures ParseAll(FormatLines(legacy), blacklist)[i] == Present(legacy)[i]
  {
    ParseFormatLine(legacy[i].0, legacy[i].1, blacklist);
    PresentAt(legacy, i);
  }

  // ---------------------------------------------------------------------------
  // legacyGroupMatches
  // ---------------------------------------------------------------------------

  /** A string's truth value in PHP: "" and "0" are false. */
  predicate Truthy(s: string) {
    !EmptyText(s)
  }

  /** PHP's `$value == $string` for the property shapes of the model (strings compared as text). */
  predicate LooseEquals(v: Option<Value>, s: string) {
    match v
    case None => s == ""
    case Some(Str(t)) => t == s
    case Some(Flag(b)) => b == Truthy(s)
    case Some(List(_)) => false
  }

  /**
   * legacyGroupMatches: the legacy address is the office's group email, or
   * one of its alternate addresses when those are a list.
   */
  predicate LegacyGroupMatches(legacyGroup: string, officeData: Office): (r: bool)
    ensures LooseEquals(Prop(officeData.properties, "group-email"), legacyGroup) ==> r
    ensures r ==> LooseEquals(Prop(officeData.properties, "group-email"), legacyGroup)
                  || legacyGroup in Normalize.GetAlternateAddresses(officeData)
    // A list of alternate addresses is searched as the normaliser reads it.
    ensures "alternate-addresses" in officeData.properties && officeData.properties["alternate-addresses"].List? ==>
      (r <==> LooseEquals(Prop(officeData.properties, "group-email"), legacyGroup)
              || legacyGroup in Normalize.GetAlternateAddresses(officeData))
    // in_array on a single string finds nothing: only the group email can match then.
    ensures "alternate-addresses" in officeData.properties && officeData.properties["alternate-addresses"].Str? ==>
      (r <==> LooseEquals(Prop(officeData.properties, "group-email"), legacyGroup))
  {
    || LooseEquals(Prop(officeData.properties, "group-email"), legacyGroup)
    || (match Prop(officeData.properties, "alternate-addresses")
        case Some(List(items)) => legacyGroup in items
        case _ => false)
  }

  /** A branch that applyLegacyGroup searches: its name does not start with '#'. */
  predicate Searched(branch: string) {
    branch == [] || branch[0] != '#'
  }

  // ---------------------------------------------------------------------------
  // applyLegacyGroup
  // ---------------------------------------------------------------------------

  /** The first office at index from or later that the legacy group matches. */
  function FirstOfficeFrom(offices: OMap<Office>, legacyGroup: string, from: nat): (r: Option<nat>)
    ensures r.Some? ==> from <= r.value < |offices| && LegacyGroupMatches(legacyGroup, offices[r.value].1)
    decreases |offices| - from
  {
    if from >= |offices| then None
    else if LegacyGroupMatches(legacyGroup, offices[from].1) then Some(from)
    else FirstOfficeFrom(offices, legacyGroup, from + 1)
  }

  /** The first (branch, office) position, searching branch by branch from index from, that the group matches. */
  function FirstMatchFrom(s: State, legacyGroup: string, from: nat): (r: Option<(nat, nat)>)
    ensures r.Some? ==> var (b, o) := r.value;
      && from <= b < |s| && Searched(s[b].0) && o < |s[b].1.lists|
      && LegacyGroupMatches(legacyGroup, s[b].1.lists[o].1)
    decreases |s| - from
  {
    if from >= |s| then None
    else if Searched(s[from].0) && FirstOfficeFrom(s[from].1.lists, legacyGroup, 0).Some? then
      Some((from, FirstOfficeFrom(s[from].1.lists, legacyGroup, 0).value))
    else FirstMatchFrom(s, legacyGroup, from + 1)
  }

  /** The office applyLegacyGroup changes, if any. */
  function FirstMatch(s: State, legacyGroup: string): Option<(nat, nat)> {
    FirstMatchFrom(s, legacyGroup, 0)
  }

  /** No office from index from on matches before the one FirstOfficeFrom finds; none at all when it finds none. */
  lemma {:induction false} FirstOfficeFromIsFirst(offices: OMap<Office>, legacyGroup: string, from: nat, o: nat)
    requires from <= o < |offices|
    requires FirstOfficeFrom(offices, legacyGroup, from).Some? ==> o < FirstOfficeFrom(offices, legacyGroup, from).value
    ensures !LegacyGroupMatches(legacyGroup, offices[o].1)
    decreases |offices| - from
  {
    if o > from {
      FirstOfficeFromIsFirst(offices, legacyGroup, from + 1, o);
    }
  }

  /**
   * Only the first match counts: no office of a searched branch before the
   * found position (branch by branch, office by office) matches, and when
   * nothing is found no office of any searched branch matches.
   */
  lemma {:induction false} FirstMatchIsFirst(s: State, legacyGroup: string, from: nat, b: nat, o: nat)
    requires from <= b < |s| && Searched(s[b].0) && o < |s[b].1.lists|
    requires FirstMatchFrom(s, legacyGroup, from).Some? ==>
      var (mb, mo) := FirstMatchFrom(s, legacyGroup, from).value;
      b < mb || (b == mb && o < mo)
    ensures !LegacyGroupMatches(legacyGroup, s[b].1.lists[o].1)
    decreases |s| - from
  {
    if b > from {
      FirstMatchIsFirst(s, legacyGroup, from + 1, b, o);
    } else {
      FirstOfficeFromIsFirst(s[b].1.lists, legacyGroup, 0, o);
    }
  }

  /** The form applyLegacyGroup gives a member: lower-cased, then trimmed. */
  function Normalized(member: string): string {
    Trim(ToLower(member))
  }

  /** Every legacy member in its normalised form, in order. */
  function NormalizedAll(members: seq<string>): (r: seq<string>)
    ensures |r| == |members|
  {
    seq(|members|, k requires 0 <= k < |members| => Normalized(members[k]))
  }

  /** The normalised members appended to an office: those its list did not hold before the loop. */
  function Added(existing: seq<string>, normalized: seq<string>): seq<string>
    decreases |normalized|
  {
    if normalized == [] then []
    else
      var m := normalized[|normalized| - 1];
      Added(existing, normalized[..|normalized| - 1]) + (if m in existing then [] else [m])
  }

  /** A member is appended exactly when it is a normalised legacy member the office lacked. */
  lemma {:induction false} AddedIff(existing: seq<string>, normalized: seq<string>, x: string)
    ensures x in Added(existing, normalized) <==> x !in existing && x in normalized
    decreases |normalized|
  {
    if normalized != [] {
      var n := |normalized| - 1;
      AddedIff(existing, normalized[..n], x);
      assert normalized == normalized[..n] + [normalized[n]];
    }
  }

  /** Appending again adds nothing: every normalised legacy member is already there. */
  lemma NothingAddedTwice(existing: seq<string>, normalized: seq<string>)
    ensures Added(existing + Added(existing, normalized), normalized) == []
  {
    var all := existing + Added(existing, normalized);
    var again := Added(all, normalized);
    if again != [] {
      var x := again[0];
      AddedIff(all, normalized, x);
      AddedIff(existing, normalized, x);
    }
  }

  /** The tree with the office at (b, o) given a new member list. */
  function WithMembers(s: State, b: nat, o: nat, members: seq<string>): (r: State)
    requires b < |s| && o < |s[b].1.lists|
    ensures SameShape(s, r)
  {
    var (branch, officesLists) := s[b];
    var (officename, officeData) := officesLists.lists[o];
    s[b := (branch, Branch(officesLists.lists[o := (officename, Office(members, officeData.properties))]))]
  }

  /** applyLegacyGroup's effect on the tree: the first matching office gains the new members. */
  function ApplyGroup(s: State, legacyGroup: string, members: seq<string>): (r: State)
    ensures SameShape(s, r)
    ensures FirstMatch(s, legacyGroup).None? ==> r == s
    ensures FirstMatch(s, legacyGroup).Some? ==>
      var (b, o) := FirstMatch(s, legacyGroup).value;
      s[b].1.lists[o].1.members <= r[b].1.lists[o].1.members
  {
    match FirstMatch(s, legacyGroup)
    case None => s
    case Some((b, o)) =>
      var existing := s[b].1.lists[o].1.members;
      WithMembers(s, b, o, existing + Added(existing, NormalizedAll(members)))
  }

  /**
   * applyLegacyGroup changes one office at most: the first match, whose
   * members gain the new ones after the old; every name, every property and
   * every other office stays as it was.
   */
  lemma ApplyGroupChanges(s: State, legacyGroup: string, members: seq<string>, b: nat, o: nat)
    requires b < |s| && o < |s[b].1.lists|
    ensures var r := ApplyGroup(s, legacyGroup, members);
      && |r| == |s| && r[b].0 == s[b].0 && |r[b].1.lists| == |s[b].1.lists|
      && r[b].1.lists[o].0 == s[b].1.lists[o].0
      && r[b].1.lists[o].1.properties == s[b].1.lists[o].1.properties
      && r[b].1.lists[o].1.members == (if FirstMatch(s, legacyGroup) == Some((b, o))
           then s[b].1.lists[o].1.members + Added(s[b].1.lists[o].1.members, NormalizedAll(members))
           else s[b].1.lists[o].1.members)
  {
  }

  /** Applying the same legacy group twice changes nothing the second time. */
  lemma ApplyGroupIdempotent(s: State, legacyGroup: string, members: seq<string>)
    ensures ApplyGroup(ApplyGroup(s, legacyGroup, members), legacyGroup, members) == ApplyGroup(s, legacyGroup, members)
  {
    var r := ApplyGroup(s, legacyGroup, members);
    SameShapeSameMatch(s, r, legacyGroup, 0);
    match FirstMatch(s, legacyGroup)
    case None =>
    case Some((b, o)) =>
      var existing := s[b].1.lists[o].1.members;
      NothingAddedTwice(existing, NormalizedAll(members));
      assert r[b].1.lists[o].1.members + [] == r[b].1.lists[o].1.members;
      assert WithMembers(r, b, o, r[b].1.lists[o].1.members) == r by {
        assert r[b].1.lists[o := (r[b].1.lists[o].0, r[b].1.lists[o].1)] == r[b].1.lists;
        assert r[b := (r[b].0, Branch(r[b].1.lists))] == r;
      }
  }

  /** Trees with the same branch names, office counts and properties match a legacy group at the same place. */
  predicate SameShape(s: State, t: State) {
    && |s| == |t|
    && forall b :: 0 <= b < |s| ==>
         && s[b].0 == t[b].0 && |s[b].1.lists| == |t[b].1.lists|
         && forall o :: 0 <= o < |s[b].1.lists| ==> s[b].1.lists[o].1.properties == t[b].1.lists[o].1.properties
  }

  /** Offices with the same properties give the same first match. */
  lemma {:induction false} SameShapeSameOffice(offices: OMap<Office>, others: OMap<Office>, legacyGroup: string, from: nat)
    requires |offices| == |others|
    requires forall o :: 0 <= o < |offices| ==> offices[o].1.properties == others[o].1.properties
    ensures FirstOfficeFrom(offices, legacyGroup, from) == FirstOfficeFrom(others, legacyGroup, from)
    decreases |offices| - from
  {
    if from < |offices| {
      SameShapeSameOffice(offices, others, legacyGroup, from + 1);
    }
  }

  /** Trees of the same shape give the same first match. */
  lemma {:induction false} SameShapeSameMatch(s: State, t: State, legacyGroup: string, from: nat)
    requires SameShape(s, t)
    ensures FirstMatchFrom(s, legacyGroup, from) == FirstMatchFrom(t, legacyGroup, from)
    decreases |s| - from
  {
    if from < |s| {
      SameShapeSameOffice(s[from].1.lists, t[from].1.lists, legacyGroup, 0);
      SameShapeSameMatch(s, t, legacyGroup, from + 1);
    }
  }

  // ---------------------------------------------------------------------------
  // applyLegacyGroups
  // ---------------------------------------------------------------------------

  /** The office name of an unmatched group, preg_replace of '@.*' by '': each '@' and the rest of its line go, as the dot stops at a newline. */
  function StripAt(g: string): (r: string)
    ensures '@' !in r
    decreases |g|
  {
    if g == [] then []
    else if g[0] == '@' then StripAt(LineEnd(g))
    else [g[0]] + StripAt(g[1..])
  }

  /** What follows the current line: from the first newline on. */
  function LineEnd(g: string): (r: string)
    ensures |r| <= |g| && r == g[|g| - |r|..]
    ensures g != [] && g[0] != '\n' ==> |r| < |g|
    decreases |g|
  {
    if g == [] || g[0] == '\n' then g else LineEnd(g[1..])
  }

  /** For an address on one line, the office name is the part before the first '@'. */
  lemma {:induction false} StripAtAddress(g: string)
    requires '\n' !in g
    ensures StripAt(g) == if '@' in g then g[..IndexOf(g, '@')] else g
    decreases |g|
  {
    if g != [] {
      if g[0] == '@' {
        assert LineEnd(g) == [] by {
          LineEndNoNewline(g);
        }
      } else {
        StripAtAddress(g[1..]);
        assert g == [g[0]] + g[1..];
        if '@' in g {
          assert '@' in g[1..];
          assert IndexOf(g, '@') == 1 + IndexOf(g[1..], '@');
          assert g[..IndexOf(g, '@')] == [g[0]] + g[1..][..IndexOf(g[1..], '@')];
        }
      }
    }
  }

  /** On a single line nothing follows the line. */
  lemma {:induction false} LineEndNoNewline(g: string)
    requires '\n' !in g
    ensures LineEnd(g) == []
    decreases |g|
  {
    if g != [] {
      LineEndNoNewline(g[1..]);
    }
  }

  const LegacyBranch: string := "_legacy"

  /** The office an unmatched legacy group becomes: its members, and its address as the group email. */
  function LegacyOffice(legacyGroup: string, members: seq<string>): Office {
    Office(members, map["group-email" := Str(legacyGroup)])
  }

  /** The offices of the '_legacy' branch, none when it is unset. */
  function LegacyOffices(s: State): OMap<Office> {
    match Lookup(s, LegacyBranch) case Some(b) => b.lists case None => []
  }

  /** The tree with the legacy office stored in the '_legacy' branch under its office name, created or overwritten in place. */
  function AddLegacy(s: State, legacyGroup: string, members: seq<string>): (r: State)
    ensures Lookup(r, LegacyBranch).Some?
    ensures Lookup(Lookup(r, LegacyBranch).value.lists, StripAt(legacyGroup)) == Some(LegacyOffice(legacyGroup, members))
    ensures forall n :: n != LegacyBranch ==> Lookup(r, n) == Lookup(s, n)
    ensures forall n :: n != StripAt(legacyGroup) ==>
      Lookup(Lookup(r, LegacyBranch).value.lists, n) == Lookup(LegacyOffices(s), n)
  {
    var lists := LegacyOffices(s);
    var branch := Branch(Put(lists, StripAt(legacyGroup), LegacyOffice(legacyGroup, members)));
    PutOthers(s, LegacyBranch, branch);
    PutOthers(lists, StripAt(legacyGroup), LegacyOffice(legacyGroup, members));
    Put(s, LegacyBranch, branch)
  }

  /**
   * Two unmatched groups with the same local part share one '_legacy'
   * office name, so the later one replaces the earlier: the office keeps
   * only the later group's members and address.
   */
  lemma AddLegacySameName(s: State, g1: string, m1: seq<string>, g2: string, m2: seq<string>)
    requires StripAt(g1) == StripAt(g2)
    ensures var r := AddLegacy(AddLegacy(s, g1, m1), g2, m2);
      Lookup(Lookup(r, LegacyBranch).value.lists, StripAt(g1)) == Some(LegacyOffice(g2, m2))
  {
  }

  /** Two such groups: "a@x.org" and "a@y.org" both become the office "a". */
  lemma SameLocalPartExample()
    ensures StripAt("a@x.org") == StripAt("a@y.org") == "a"
  {
    StripAtAddress("a@x.org");
    StripAtAddress("a@y.org");
  }

  /** The loop of applyLegacyGroups over the first entries of the parsed file. */
  function ApplyAll(s: State, legacy: LegacyGroups): State
    decreases |legacy|
  {
    if legacy == [] then s
    else ApplyOne(ApplyAll(s, legacy[..|legacy| - 1]), legacy[|legacy| - 1].0, legacy[|legacy| - 1].1)
  }

  /** One pass of applyLegacyGroups: join the first matching office, or else become a '_legacy' office. */
  function ApplyOne(s: State, legacyGroup: string, members: seq<string>): State {
    if FirstMatch(s, legacyGroup).Some? then ApplyGroup(s, legacyGroup, members)
    else AddLegacy(s, legacyGroup, members)
  }

  /**
   * applyLegacyGroup: search the branches not marked with '#', office by
   * office, and on the first match append the new members and stop.
   */
  method ApplyLegacyGroup(memberships: State, legacyGroup: string, members: seq<string>)
    returns (matched: bool, result: State)
    ensures matched == FirstMatch(memberships, legacyGroup).Some?
    ensures result == ApplyGroup(memberships, legacyGroup, members)
  {
    var b := 0;
    while b < |memberships|
      invariant 0 <= b <= |memberships|
      invariant FirstMatch(memberships, legacyGroup) == FirstMatchFrom(memberships, legacyGroup, b)
    {
      var (branch, officesLists) := memberships[b];
      if Searched(branch) {
        var offices := officesLists.lists;
        var o := 0;
        while o < |offices|
          invariant 0 <= o <= |offices|
          invariant FirstOfficeFrom(offices, legacyGroup, 0) == FirstOfficeFrom(offices, legacyGroup, o)
        {
          var (officename, officeData) := offices[o];
          if LegacyGroupMatches(legacyGroup, officeData) {
            var updated := AppendNew(officeData.members, members);
            return true, WithMembers(memberships, b, o, updated);
          }
          o := o + 1;
        }
      }
      b := b + 1;
    }
    return false, memberships;
  }

  /** The member loop of applyLegacyGroup: append each normalised member the office did not hold before. */
  method AppendNew(existing: seq<string>, members: seq<string>) returns (updated: seq<string>)
    ensures updated == existing + Added(existing, NormalizedAll(members))
  {
    ghost var normalized := NormalizedAll(members);
    updated := existing;
    var k := 0;
    while k < |members|
      invariant 0 <= k <= |members|
      invariant updated == existing + Added(existing, normalized[..k])
    {
      var member := Normalized(members[k]);
      updated := AppendNewPass(existing, normalized, k, member, updated);
      k := k + 1;
    }
    assert normalized[..k] == normalized;
  }

  /** Pass k of the member loop: carries its invariant from k to k + 1. */
  method AppendNewPass(existing: seq<string>, ghost normalized: seq<string>, k: nat, member: string, updated: seq<string>)
    returns (r: seq<string>)
    requires k < |normalized| && member == normalized[k]
    requires updated == existing + Added(existing, normalized[..k])
    ensures r == existing + Added(existing, normalized[..k + 1])
  {
    assert normalized[..k + 1][..k] == normalized[..k];
    r := updated;
    if member !in existing {
      r := r + [member];
    }
  }

  /** applyLegacyGroups: each parsed group either joins its first matching office or becomes a '_legacy' office. */
  method ApplyLegacyGroups(memberships: State, legacy: LegacyGroups) returns (result: State)
    ensures result == ApplyAll(memberships, legacy)
  {
    result := memberships;
    var i := 0;
    while i < |legacy|
      invariant 0 <= i <= |legacy|
      invariant result == ApplyAll(memberships, legacy[..i])
    {
      var (legacyGroup, members) := legacy[i];
      result := ApplyLegacyGroupsPass(result, legacyGroup, members);
      assert ApplyAll(memberships, legacy[..i + 1]) == ApplyOne(ApplyAll(memberships, legacy[..i]), legacyGroup, members) by {
        assert legacy[..i + 1][..i] == legacy[..i];
      }
      i := i + 1;
    }
    assert legacy[..i] == legacy;
  }

  /** One pass of applyLegacyGroups' loop. */
  method ApplyLegacyGroupsPass(memberships: State, legacyGroup: string, members: seq<string>) returns (result: State)
    ensures result == ApplyOne(memberships, legacyGroup, members)
  {
    var matchedExisting;
    matchedExisting, result := ApplyLegacyGroup(memberships, legacyGroup, members);
    if !matchedExisting {
      assert result == memberships;
      result := AddLegacy(result, legacyGroup, members);
    }
  }
}
