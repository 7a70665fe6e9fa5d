/**
 * The byte-string built-ins the core relies on (strtolower, ucfirst, trim,
 * explode, str_replace and the space-collapsing regular expression), over
 * ASCII text.
 */
module Strings {

  predicate IsUpper(c: char) { 'A' <= c <= 'Z' }
  predicate IsLower(c: char) { 'a' <= c <= 'z' }

  /** strtolower on one character: only A-Z change. */
  function LowerChar(c: char): (d: char)
    ensures !IsUpper(d)
    ensures IsUpper(c) ==> d as int == c as int + 32
    ensures !IsUpper(c) ==> d == c
  {
    if IsUpper(c) then (c as int + 32) as char else c
  }

  /** ucfirst's upper-casing of one character: only a-z change. */
  function UpperChar(c: char): (d: char)
    ensures !IsLower(d)
    ensures IsLower(c) ==> d as int == c as int - 32
    ensures !IsLower(c) ==> d == c
  {
    if IsLower(c) then (c as int - 32) as char else c
  }

  predicate NoUpper(s: string) { forall i :: 0 <= i < |s| ==> !IsUpper(s[i]) }

  /** PHP strtolower. */
  function ToLower(s: string): (r: string)
    ensures |r| == |s|
    ensures NoUpper(r)
    ensures forall i :: 0 <= i < |s| ==> r[i] == LowerChar(s[i])
  {
    seq(|s|, i requires 0 <= i < |s| => LowerChar(s[i]))
  }

  lemma ToLowerIdempotent(s: string)
    ensures ToLower(ToLower(s)) == ToLower(s)
  {
  }

  /** Characters that are not A-Z survive strtolower where they stand. */
  lemma ToLowerKeeps(s: string, c: char)
    requires !IsUpper(c) && !IsLower(c)
    ensures c in s <==> c in ToLower(s)
  {
    if c in s {
      var i :| 0 <= i < |s| && s[i] == c;
      assert ToLower(s)[i] == c;
    }
    if c in ToLower(s) {
      var i :| 0 <= i < |s| && ToLower(s)[i] == c;
      assert s[i] == c;
    }
  }

  /** PHP ucfirst. */
  function UcFirst(s: string): (r: string)
    ensures |r| == |s|
    ensures |s| > 0 ==> r[0] == UpperChar(s[0]) && r[1..] == s[1..]
  {
    if |s| > 0 && IsLower(s[0]) then [UpperChar(s[0])] + s[1..] else s
  }

  lemma UcFirstKeeps(s: string, c: char)
    requires !IsLower(c) && !IsUpper(c)
    ensures c in s <==> c in UcFirst(s)
  {
    if |s| > 0 {
      assert s == [s[0]] + s[1..];
      assert UcFirst(s) == [UcFirst(s)[0]] + s[1..];
    }
  }

  /** The characters PHP's trim() strips by default: " \t\n\r\0\x0B". */
  predicate IsTrimmed(c: char) {
    c == ' ' || c == '\t' || c == '\n' || c == '\r' || c == 0 as char || c == 11 as char
  }

  /** ltrim: the longest strippable prefix removed. */
  function TrimLeft(s: string): (r: string)
    ensures |r| <= |s| && r == s[|s| - |r|..]
    ensures r == [] || !IsTrimmed(r[0])
    ensures forall k :: 0 <= k < |s| - |r| ==> IsTrimmed(s[k])
    decreases |s|
  {
    if |s| > 0 && IsTrimmed(s[0]) then TrimLeft(s[1..]) else s
  }

  /** rtrim: the longest strippable suffix removed. */
  function TrimRight(s: string): (r: string)
    ensures |r| <= |s| && r == s[..|r|]
    ensures r == [] || !IsTrimmed(r[|r| - 1])
    ensures forall k :: |r| <= k < |s| ==> IsTrimmed(s[k])
    decreases |s|
  {
    if |s| > 0 && IsTrimmed(s[|s| - 1]) then TrimRight(s[..|s| - 1]) else s
  }

  /** s[i..j] is what is left once a strippable prefix s[..i] and suffix s[j..] are removed. */
  predicate StrippedTo(s: string, i: int, j: int) {
    && 0 <= i <= j <= |s|
    && (forall k :: 0 <= k < i ==> IsTrimmed(s[k]))
    && (forall k :: j <= k < |s| ==> IsTrimmed(s[k]))
  }

  /**
   * PHP trim: the slice of the input left once the strippable prefix and
   * suffix are removed; what is removed is strippable and what is kept
   * starts and ends with a character that is not.
   */
  function Trim(s: string): (r: string)
    ensures exists i, j :: StrippedTo(s, i, j) && r == s[i..j]
    ensures r == [] || (!IsTrimmed(r[0]) && !IsTrimmed(r[|r| - 1]))
  {
    var l := TrimLeft(s);
    var r := TrimRight(l);
    StrippedTwice(s, l, r);
    r
  }

  /** Stripping a prefix of s to get l, then a suffix of l to get r, strips s to r. */
  lemma StrippedTwice(s: string, l: string, r: string)
    requires |l| <= |s| && l == s[|s| - |l|..] && forall k :: 0 <= k < |s| - |l| ==> IsTrimmed(s[k])
    requires |r| <= |l| && r == l[..|r|] && forall k :: |r| <= k < |l| ==> IsTrimmed(l[k])
    ensures StrippedTo(s, |s| - |l|, |s| - |l| + |r|) && r == s[|s| - |l|..|s| - |l| + |r|]
  {
    var i, j := |s| - |l|, |s| - |l| + |r|;
    forall k | j <= k < |s| ensures IsTrimmed(s[k]) {
      assert s[k] == l[k - i];
    }
  }

  /** Strings that trim() leaves alone. */
  lemma {:induction false} TrimFixed(s: string)
    requires s == [] || (!IsTrimmed(s[0]) && !IsTrimmed(s[|s| - 1]))
    ensures Trim(s) == s
  {
  }

  /** trim() only removes characters: one absent from the input is absent from the result. */
  lemma TrimKeepsOut(s: string, c: char)
    requires c !in s
    ensures c !in Trim(s)
  {
    var i, j :| 0 <= i <= j <= |s| && Trim(s) == s[i..j];
    assert forall k :: 0 <= k < j - i ==> s[i..j][k] == s[i + k];
  }

  lemma TrimIdempotent(s: string)
    ensures Trim(Trim(s)) == Trim(s)
  {
    TrimFixed(Trim(s));
  }

  /**
   * PHP explode(sep, s): the pieces between separators, always at least
   * one (explode(",", "") is [""]).
   */
  function Split(s: string, sep: char): (r: seq<string>)
    ensures |r| >= 1
    decreases |s|
  {
    if s == [] then [[]]
    else
      var rest := Split(s[1..], sep);
      if s[0] == sep then [[]] + rest else [[s[0]] + rest[0]] + rest[1..]
  }

  /** implode(sep, parts): the inverse of explode. */
  function Join(parts: seq<string>, sep: char): string
    requires |parts| >= 1
    decreases |parts|
  {
    if |parts| == 1 then parts[0] else parts[0] + [sep] + Join(parts[1..], sep)
  }

  /** No piece of explode() holds the separator. */
  lemma {:induction false} SplitPiecesFree(s: string, sep: char)
    ensures forall k :: 0 <= k < |Split(s, sep)| ==> sep !in Split(s, sep)[k]
    decreases |s|
  {
    if s != [] {
      SplitPiecesFree(s[1..], sep);
    }
  }

  /** Gluing explode's pieces back with the separator gives the input again. */
  lemma {:induction false} SplitJoin(s: string, sep: char)
    ensures Join(Split(s, sep), sep) == s
    decreases |s|
  {
    if s != [] {
      var rest := Split(s[1..], sep);
      SplitJoin(s[1..], sep);
      if s[0] == sep {
        assert Split(s, sep)[1..] == rest;
      } else {
        var r := Split(s, sep);
        assert r[0] == [s[0]] + rest[0];
        if |rest| == 1 {
          assert Join(r, sep) == r[0];
        } else {
          assert r[1..] == rest[1..];
          assert Join(rest, sep) == rest[0] + [sep] + Join(rest[1..], sep);
        }
      }
    }
  }

  /** explode() of a string without the separator is that string alone. */
  lemma {:induction false} SplitNoSep(s: string, sep: char)
    requires sep !in s
    ensures Split(s, sep) == [s]
    decreases |s|
  {
    if s != [] {
      SplitNoSep(s[1..], sep);
      assert s == [s[0]] + s[1..];
    }
  }

  /** explode() at the first separator: the text before it, then the pieces of the rest. */
  lemma {:induction false} SplitAtSep(a: string, sep: char, t: string)
    requires sep !in a
    ensures Split(a + [sep] + t, sep) == [a] + Split(t, sep)
    decreases |a|
  {
    var s := a + [sep] + t;
    if a == [] {
      assert s[1..] == t;
    } else {
      SplitAtSep(a[1..], sep, t);
      assert s[0] == a[0] && s[1..] == a[1..] + [sep] + t;
      assert [a[0]] + a[1..] == a;
    }
  }

  /** explode() undoes implode() when no piece holds the separator. */
  lemma {:induction false} JoinSplit(parts: seq<string>, sep: char)
    requires |parts| >= 1
    requires forall k :: 0 <= k < |parts| ==> sep !in parts[k]
    ensures Split(Join(parts, sep), sep) == parts
    decreases |parts|
  {
    if |parts| == 1 {
      SplitNoSep(parts[0], sep);
    } else {
      JoinSplit(parts[1..], sep);
      SplitAtSep(parts[0], sep, Join(parts[1..], sep));
      assert parts == [parts[0]] + parts[1..];
    }
  }

  /** A character that is neither the separator nor in any piece is not in the implode()d text. */
  lemma {:induction false} JoinFree(parts: seq<string>, sep: char, c: char)
    requires |parts| >= 1 && c != sep
    requires forall k :: 0 <= k < |parts| ==> c !in parts[k]
    ensures c !in Join(parts, sep)
    decreases |parts|
  {
    if |parts| > 1 {
      JoinFree(parts[1..], sep, c);
    }
  }

  /** implode()d text ends with the last piece. */
  lemma {:induction false} JoinEnds(parts: seq<string>, sep: char)
    requires |parts| >= 1
    ensures var j, last := Join(parts, sep), parts[|parts| - 1];
      |last| <= |j| && j[|j| - |last|..] == last
    decreases |parts|
  {
    if |parts| > 1 {
      JoinEnds(parts[1..], sep);
      var rest := Join(parts[1..], sep);
      var last := parts[|parts| - 1];
      assert parts[1..][|parts[1..]| - 1] == last;
      var j := parts[0] + [sep] + rest;
      assert j[|j| - |last|..] == rest[|rest| - |last|..];
    }
  }

  /** PHP str_replace(search, replace, subject): one left-to-right pass. */
  function StrReplace(subject: string, search: string, replace: string): string
    requires search != []
    decreases |subject|
  {
    if subject == [] then []
    else if search <= subject then replace + StrReplace(subject[|search|..], search, replace)
    else [subject[0]] + StrReplace(subject[1..], search, replace)
  }

  /** The characters of s other than spaces, in order. */
  function Unspaced(s: string): string
    decreases |s|
  {
    if s == [] then [] else (if s[0] == ' ' then [] else [s[0]]) + Unspaced(s[1..])
  }

  function DropSpaces(s: string): (r: string)
    ensures |r| <= |s| && r == s[|s| - |r|..]
    ensures r == [] || r[0] != ' '
    decreases |s|
  {
    if |s| > 0 && s[0] == ' ' then DropSpaces(s[1..]) else s
  }

  /** preg_replace('/  * /', ' ', s) without the blank: every run of spaces becomes one space. */
  function CollapseSpaces(s: string): (r: string)
    ensures |r| <= |s|
    ensures s != [] && s[0] != ' ' ==> r != [] && r[0] == s[0]
    ensures forall i :: 0 <= i < |r| - 1 ==> !(r[i] == ' ' && r[i + 1] == ' ')
    decreases |s|
  {
    if s == [] then []
    else if s[0] == ' ' then [' '] + CollapseSpaces(DropSpaces(s[1..]))
    else [s[0]] + CollapseSpaces(s[1..])
  }

  /** Dropping leading spaces keeps every other character. */
  lemma {:induction false} DropSpacesUnspaced(s: string)
    ensures Unspaced(DropSpaces(s)) == Unspaced(s)
    decreases |s|
  {
    if |s| > 0 && s[0] == ' ' {
      DropSpacesUnspaced(s[1..]);
      assert Unspaced(s) == Unspaced(s[1..]);
    }
  }

  /**
   * The replacement keeps every character other than a space, in order,
   * and leaves a space exactly where the input had one.
   */
  lemma {:induction false} CollapseSpacesKeeps(s: string)
    ensures Unspaced(CollapseSpaces(s)) == Unspaced(s)
    ensures ' ' in CollapseSpaces(s) <==> ' ' in s
    decreases |s|
  {
    if s != [] {
      var r := CollapseSpaces(s);
      if s[0] == ' ' {
        var d := DropSpaces(s[1..]);
        CollapseSpacesKeeps(d);
        DropSpacesUnspaced(s[1..]);
        assert r == [' '] + CollapseSpaces(d);
        assert r[0] == ' ' && s[0] == ' ';
        assert Unspaced(r) == Unspaced(CollapseSpaces(d));
        assert Unspaced(s) == Unspaced(s[1..]);
      } else {
        CollapseSpacesKeeps(s[1..]);
        assert r == [s[0]] + CollapseSpaces(s[1..]);
        assert r[1..] == CollapseSpaces(s[1..]);
        assert Unspaced(r) == [s[0]] + Unspaced(CollapseSpaces(s[1..]));
        assert ' ' in r <==> ' ' in r[1..] by {
          assert forall c :: c in r <==> c == s[0] || c in r[1..];
        }
        assert ' ' in s <==> ' ' in s[1..] by {
          assert forall c :: c in s <==> c == s[0] || c in s[1..];
        }
      }
    }
  }

  /** Text without two spaces in a row is left alone by the space-collapsing replacement. */
  lemma {:induction false} CollapseSpacesFixed(s: string)
    requires forall i :: 0 <= i < |s| - 1 ==> !(s[i] == ' ' && s[i + 1] == ' ')
    ensures CollapseSpaces(s) == s
    decreases |s|
  {
    if s != [] {
      var t := s[1..];
      assert forall i :: 0 <= i < |t| - 1 ==> !(t[i] == ' ' && t[i + 1] == ' ') by {
        forall i | 0 <= i < |t| - 1 ensures !(t[i] == ' ' && t[i + 1] == ' ') {
          assert t[i] == s[i + 1] && t[i + 1] == s[i + 2];
        }
      }
      CollapseSpacesFixed(t);
      if s[0] == ' ' && t != [] {
        assert t[0] == s[1];
      }
      assert s == [s[0]] + t;
    }
  }

  /** A reference for the replacement: a space is dropped exactly when a space follows it. */
  function Squeeze(s: string): string
    decreases |s|
  {
    if |s| <= 1 then s
    else if s[0] == ' ' && s[1] == ' ' then Squeeze(s[1..])
    else [s[0]] + Squeeze(s[1..])
  }

  /** A run of spaces at the front squeezes to one space before the rest. */
  lemma {:induction false} SqueezeRun(s: string)
    requires s != [] && s[0] == ' '
    ensures Squeeze(s) == [' '] + Squeeze(DropSpaces(s[1..]))
    decreases |s|
  {
    var t := s[1..];
    if t == [] {
      assert DropSpaces(t) == [];
    } else if t[0] == ' ' {
      SqueezeRun(t);
      assert Squeeze(s) == Squeeze(t);
      assert DropSpaces(t) == DropSpaces(t[1..]);
    } else {
      assert Squeeze(s) == [' '] + Squeeze(t);
      assert DropSpaces(t) == t;
    }
  }

  /** Collapsing runs of spaces is dropping every space that a space follows. */
  lemma {:induction false} CollapseSpacesSqueeze(s: string)
    ensures CollapseSpaces(s) == Squeeze(s)
    decreases |s|
  {
    if s != [] {
      if s[0] == ' ' {
        CollapseSpacesSqueeze(DropSpaces(s[1..]));
        SqueezeRun(s);
      } else {
        CollapseSpacesSqueeze(s[1..]);
      }
    }
  }

  /** The first position of c in s. */
  function IndexOf(s: string, c: char): (i: nat)
    requires c in s
    ensures i < |s| && s[i] == c && c !in s[..i]
  {
    if s[0] == c then 0 else 1 + IndexOf(s[1..], c)
  }

  /** The first occurrence of c in a + [c] + t, when a lacks c, is right after a. */
  lemma {:induction false} IndexOfAfter(a: string, c: char, t: string)
    requires c !in a
    ensures IndexOf(a + [c] + t, c) == |a|
    decreases |a|
  {
    if a != [] {
      IndexOfAfter(a[1..], c, t);
      assert (a + [c] + t)[1..] == a[1..] + [c] + t;
    }
  }
}
