/**
 * StandardGroupPolicy: a small templating engine that derives a group's
 * email address, id and display name from its branch and office, plus email
 * address normalisation. `$(name)` inserts a property verbatim and `${name}`
 * inserts it with its first letter upper-cased; a name is looked up in the
 * caller's properties first and then in the policy's defaults.
 */
module Policy {
  import opened Wrappers
  import opened Strings

  /** Template properties: name => string value. */
  type Props = map<string, string>

  const GroupNameTemplate: string := "${branch} ${office}"
  const GroupEmailTemplate: string := "$(branch)-$(office)@$(domain)"

  /** The policy's state, fixed by its constructor. */
  datatype StandardGroupPolicy = StandardGroupPolicy(defaults: Props)

  /** Every policy built by NewPolicy has these three defaults. */
  predicate Valid(p: StandardGroupPolicy) {
    "domain" in p.defaults && "group-name" in p.defaults && "group-email" in p.defaults
  }

  /**
   * __construct($domain, $defaults): the caller's defaults are the left
   * operand of PHP's array union, so they override the built-in ones.
   */
  function NewPolicy(domain: string, overrides: Props): (p: StandardGroupPolicy)
    ensures Valid(p)
    ensures p.defaults.Keys == overrides.Keys + {"domain", "group-name", "group-email"}
    ensures forall k :: k in overrides ==> p.defaults[k] == overrides[k]
    ensures "domain" !in overrides ==> p.defaults["domain"] == domain
    ensures "group-name" !in overrides ==> p.defaults["group-name"] == GroupNameTemplate
    ensures "group-email" !in overrides ==> p.defaults["group-email"] == GroupEmailTemplate
  {
    StandardGroupPolicy(
      map["domain" := domain, "group-name" := GroupNameTemplate, "group-email" := GroupEmailTemplate]
      + overrides)
  }

  /** getPropertyValue: the caller's property, else the default, else NULL. */
  function GetPropertyValue(p: StandardGroupPolicy, id: string, props: Props): (r: Option<string>)
    ensures id in props ==> r == Some(props[id])
    ensures id !in props && id in p.defaults ==> r == Some(p.defaults[id])
    ensures r.None? <==> id !in props && id !in p.defaults
  {
    if id in props then Some(props[id])
    else if id in p.defaults then Some(p.defaults[id])
    else None
  }

  // ---------------------------------------------------------------------------
  // Tokens: the matches of /\$([{(])([a-z]*)[})]/
  // ---------------------------------------------------------------------------

  /** One match: its opening bracket, the property name and its closing bracket. */
  datatype Token = Token(open: char, name: string, close: char)

  function TokenText(t: Token): string {
    ['$', t.open] + t.name + [t.close]
  }

  predicate AllLower(s: string) { forall i :: 0 <= i < |s| ==> IsLower(s[i]) }

  predicate WellFormed(t: Token) {
    (t.open == '{' || t.open == '(') && (t.close == '}' || t.close == ')') && AllLower(t.name)
  }

  /** Length of the longest run of a-z at the start of s. */
  function LowerRun(s: string): (n: nat)
    ensures n <= |s| && AllLower(s[..n])
    ensures n == |s| || !IsLower(s[n])
  {
    if |s| > 0 && IsLower(s[0]) then 1 + LowerRun(s[1..]) else 0
  }

  /** The match that starts at the first character of s, if any. */
  function MatchAt(s: string): (r: Option<Token>)
    ensures r.Some? ==> WellFormed(r.value) && TokenText(r.value) <= s
    ensures s != [] && s[0] != '$' ==> r.None?
  {
    if |s| >= 2 && s[0] == '$' && (s[1] == '{' || s[1] == '(') then
      var n := LowerRun(s[2..]);
      if 2 + n < |s| && (s[2 + n] == '}' || s[2 + n] == ')') then
        var t := Token(s[1], s[2..2 + n], s[2 + n]);
        assert s[2..][..n] == s[2..2 + n];
        assert TokenText(t) == s[..3 + n];
        Some(t)
      else None
    else None
  }

  /** preg_match_all in PREG_SET_ORDER: the matches, left to right, without overlap. */
  function Matches(s: string): (r: seq<Token>)
    ensures forall i :: 0 <= i < |r| ==> WellFormed(r[i])
    decreases |s|
  {
    if s == [] then []
    else match MatchAt(s)
      case Some(t) => [t] + Matches(s[|TokenText(t)|..])
      case None => Matches(s[1..])
  }

  /** The replacement for one token: unset reads as "", and `${..}` applies ucfirst. */
  function Replacement(p: StandardGroupPolicy, t: Token, props: Props): (r: string)
    ensures GetPropertyValue(p, t.name, props).None? ==> r == ""
    ensures t.open == '(' && GetPropertyValue(p, t.name, props).Some? ==>
      r == GetPropertyValue(p, t.name, props).value
    ensures t.open == '{' && GetPropertyValue(p, t.name, props).Some? ==>
      r == UcFirst(GetPropertyValue(p, t.name, props).value)
  {
    var v := GetPropertyValue(p, t.name, props);
    var s := if v.Some? then v.value else "";
    if t.open == '{' then UcFirst(s) else s
  }

  /** The loop of applyTemplate as a fold: each match's text replaced everywhere in the running result. */
  function Substitute(p: StandardGroupPolicy, toks: seq<Token>, result: string, props: Props): string
    decreases |toks|
  {
    if toks == [] then result
    else Substitute(p, toks[1..], StrReplace(result, TokenText(toks[0]), Replacement(p, toks[0], props)), props)
  }

  /** applyTemplate on a (non-NULL) template. */
  function TemplateResult(p: StandardGroupPolicy, template: string, props: Props): string {
    Substitute(p, Matches(template), template, props)
  }

  /** applyTemplate, as the source writes it: a loop over the matches reassigning $result. */
  method ApplyTemplate(p: StandardGroupPolicy, template: string, props: Props) returns (result: string)
    ensures result == TemplateResult(p, template, props)
  {
    result := template;
    var matches := Matches(template);
    var i := 0;
    while i < |matches|
      invariant 0 <= i <= |matches|
      invariant Substitute(p, matches[i..], result, props) == TemplateResult(p, template, props)
    {
      assert Substitute(p, matches[i..], result, props)
        == Substitute(p, matches[i + 1..], StrReplace(result, TokenText(matches[i]), Replacement(p, matches[i], props)), props) by {
        assert matches[i..][0] == matches[i] && matches[i..][1..] == matches[i + 1..];
      }
      result := ReplaceMatch(p, matches[i], result, props);
      i := i + 1;
    }
  }

  /** One pass of applyTemplate's loop: look the token up, apply ucfirst for `${..}`, replace. */
  method ReplaceMatch(p: StandardGroupPolicy, t: Token, result: string, props: Props) returns (r: string)
    ensures r == StrReplace(result, TokenText(t), Replacement(p, t, props))
  {
    var replacement := GetPropertyValue(p, t.name, props);
    var text := if replacement.Some? then replacement.value else "";
    if t.open == '{' {
      text := UcFirst(text);
    }
    r := StrReplace(result, TokenText(t), text);
  }

  /** getProperty: NULL when neither the caller nor the defaults set it, else the applied template. */
  function GetProperty(p: StandardGroupPolicy, id: string, props: Props): (r: Option<string>)
    ensures r.None? <==> GetPropertyValue(p, id, props).None?
    ensures r.Some? ==> r.value == TemplateResult(p, GetPropertyValue(p, id, props).value, props)
  {
    match GetPropertyValue(p, id, props)
    case None => None
    case Some(t) => Some(TemplateResult(p, t, props))
  }

  /** The properties getGroupEmail and getGroupId template with. */
  function BranchOffice(branch: string, office: string): Props {
    map["branch" := branch, "office" := office]
  }

  /** getGroupEmail: the group-email template applied to the branch and office. */
  function GetGroupEmail(p: StandardGroupPolicy, branch: string, office: string): (r: string)
    requires Valid(p)
    ensures r == TemplateResult(p, p.defaults["group-email"], BranchOffice(branch, office))
  {
    GetProperty(p, "group-email", BranchOffice(branch, office)).value
  }

  /** getGroupId: the standard policy uses the primary group email as the id. */
  function GetGroupId(p: StandardGroupPolicy, branch: string, office: string): (r: string)
    requires Valid(p)
    ensures r == GetGroupEmail(p, branch, office)
  {
    GetGroupEmail(p, branch, office)
  }

  /** getGroupName: the caller's properties, then branch and office, feed the group-name template. */
  function GetGroupName(p: StandardGroupPolicy, branch: string, office: string, props: Props): (r: string)
    requires Valid(p)
    // A name the caller supplies is the template; otherwise the policy's default is.
    ensures "group-name" in props ==> r == TemplateResult(p, props["group-name"], BranchOffice(branch, office) + props)
    ensures "group-name" !in props ==> r == TemplateResult(p, p.defaults["group-name"], BranchOffice(branch, office) + props)
  {
    GetProperty(p, "group-name", BranchOffice(branch, office) + props).value
  }

  /**
   * normalizeEmail: an address without '@' is put in the policy's domain,
   * then the whole address is lower-cased.
   */
  function NormalizeEmail(p: StandardGroupPolicy, email: string): (r: string)
    requires Valid(p)
    ensures '@' in r
    ensures NoUpper(r)
    ensures '@' in email ==> r == ToLower(email)
    ensures '@' !in email ==> r == ToLower(email + "@" + GetProperty(p, "domain", map[]).value)
  {
    var full := if '@' in email then email else email + "@" + GetProperty(p, "domain", map[]).value;
    assert '@' in full by {
      if '@' !in email { assert full[|email|] == '@'; }
    }
    ToLowerKeeps(full, '@');
    ToLower(full)
  }

  /** Normalising a normalised address changes nothing. */
  lemma NormalizeEmailIdempotent(p: StandardGroupPolicy, email: string)
    requires Valid(p)
    ensures NormalizeEmail(p, NormalizeEmail(p, email)) == NormalizeEmail(p, email)
  {
    var once := NormalizeEmail(p, email);
    ToLowerIdempotent(if '@' in email then email else email + "@" + GetProperty(p, "domain", map[]).value);
  }

  // ---------------------------------------------------------------------------
  // What applyTemplate computes
  // ---------------------------------------------------------------------------

  /** A template without any '$' has no match and comes back unchanged. */
  lemma {:induction false} NoDollarNoMatches(s: string)
    requires '$' !in s
    ensures Matches(s) == []
    decreases |s|
  {
    if s != [] {
      NoDollarNoMatches(s[1..]);
    }
  }

  lemma NoDollarUnchanged(p: StandardGroupPolicy, template: string, props: Props)
    requires '$' !in template
    ensures TemplateResult(p, template, props) == template
  {
    NoDollarNoMatches(template);
  }

  /** A template that is one token becomes that token's replacement. */
  lemma SingleToken(p: StandardGroupPolicy, t: Token, props: Props)
    requires WellFormed(t)
    ensures TemplateResult(p, TokenText(t), props) == Replacement(p, t, props)
  {
    var s := TokenText(t);
    MatchAtToken(t, []);
    assert s + [] == s;
    assert s[|s|..] == [];
    assert Matches(s) == [t] + Matches([]);
    var y := Replacement(p, t, props);
    assert StrReplace(s, s, y) == y + StrReplace([], s, y);
    assert [t][1..] == [];
    assert Substitute(p, [t], s, props) == Substitute(p, [], StrReplace(s, s, y), props);
  }

  /** The reference semantics: one left-to-right pass replacing each match where it stands. */
  function Expand(p: StandardGroupPolicy, s: string, props: Props): string
    decreases |s|
  {
    if s == [] then []
    else match MatchAt(s)
      case Some(t) => Replacement(p, t, props) + Expand(p, s[|TokenText(t)|..], props)
      case None => [s[0]] + Expand(p, s[1..], props)
  }

  /** Every '$' of the template starts a match. */
  predicate DollarsOnlyInTokens(s: string)
    decreases |s|
  {
    if s == [] then true
    else match MatchAt(s)
      case Some(t) => DollarsOnlyInTokens(s[|TokenText(t)|..])
      case None => s[0] != '$' && DollarsOnlyInTokens(s[1..])
  }

  /** No replacement made for the template's matches contains a '$'. */
  predicate ReplacementsDollarFree(p: StandardGroupPolicy, s: string, props: Props) {
    forall t :: t in Matches(s) ==> '$' !in Replacement(p, t, props)
  }

  /**
   * The str_replace fold equals the one-pass expansion when every '$' of the
   * template starts a match and no replacement brings in a '$'. Every
   * occurrence of every match is then replaced, and nothing else is.
   */
  lemma TemplateIsExpansion(p: StandardGroupPolicy, s: string, props: Props)
    requires DollarsOnlyInTokens(s)
    requires ReplacementsDollarFree(p, s, props)
    ensures TemplateResult(p, s, props) == Expand(p, s, props)
  {
    var segs := Segments(s);
    SegmentsFlatten(s);
    SegmentsTokens(s);
    SegmentsShape(s);
    forall i | 0 <= i < |segs| && segs[i].Pending? ensures segs[i].tok in Matches(s) {
      PendingListed(segs, i);
    }
    SubstituteSegments(p, Matches(s), segs, props);
    ResolveSegments(p, s, props);
  }

  // ---------------------------------------------------------------------------
  // Proof of TemplateIsExpansion: the template as literal pieces and pending tokens
  // ---------------------------------------------------------------------------

  datatype Seg = Lit(text: string) | Pending(tok: Token)

  function Flatten(segs: seq<Seg>): string
    decreases |segs|
  {
    if segs == [] then []
    else (match segs[0] case Lit(x) => x case Pending(t) => TokenText(t)) + Flatten(segs[1..])
  }

  function Segments(s: string): seq<Seg>
    decreases |s|
  {
    if s == [] then []
    else match MatchAt(s)
      case Some(t) => [Pending(t)] + Segments(s[|TokenText(t)|..])
      case None => [Lit([s[0]])] + Segments(s[1..])
  }

  function PendingTokens(segs: seq<Seg>): seq<Token>
    decreases |segs|
  {
    if segs == [] then []
    else (if segs[0].Pending? then [segs[0].tok] else []) + PendingTokens(segs[1..])
  }

  /** Replace each pending occurrence of t by the literal v. */
  function Fill(segs: seq<Seg>, t: Token, v: string): (r: seq<Seg>)
    ensures |r| == |segs|
    ensures forall i :: 0 <= i < |segs| ==> r[i] == if segs[i] == Pending(t) then Lit(v) else segs[i]
  {
    seq(|segs|, i requires 0 <= i < |segs| => if segs[i] == Pending(t) then Lit(v) else segs[i])
  }

  /** Replace every pending token by its replacement. */
  function Resolve(p: StandardGroupPolicy, segs: seq<Seg>, props: Props): (r: seq<Seg>)
    ensures |r| == |segs|
    ensures forall i :: 0 <= i < |segs| ==>
      r[i] == if segs[i].Pending? then Lit(Replacement(p, segs[i].tok, props)) else segs[i]
  {
    seq(|segs|, i requires 0 <= i < |segs| =>
      if segs[i].Pending? then Lit(Replacement(p, segs[i].tok, props)) else segs[i])
  }

  predicate Clean(segs: seq<Seg>) {
    forall i :: 0 <= i < |segs| ==>
      (segs[i].Lit? ==> '$' !in segs[i].text) && (segs[i].Pending? ==> WellFormed(segs[i].tok))
  }

  lemma MatchAtToken(t: Token, rest: string)
    requires WellFormed(t)
    ensures MatchAt(TokenText(t) + rest) == Some(t)
  {
    var s := TokenText(t) + rest;
    var n := |t.name|;
    assert s[2..][..n] == t.name;
    assert s[2 + n] == t.close;
    LowerRunOf(s[2..], n);
    assert s[2..2 + n] == t.name;
  }

  lemma LowerRunOf(s: string, n: nat)
    requires n < |s| && AllLower(s[..n]) && !IsLower(s[n])
    ensures LowerRun(s) == n
    decreases n
  {
    if n > 0 {
      assert s[1..][..n - 1] == s[1..n];
      LowerRunOf(s[1..], n - 1);
    }
  }

  lemma {:induction false} SegmentsFlatten(s: string)
    ensures Flatten(Segments(s)) == s
    decreases |s|
  {
    if s != [] {
      match MatchAt(s)
      case Some(t) =>
        SegmentsFlatten(s[|TokenText(t)|..]);
        assert s == TokenText(t) + s[|TokenText(t)|..];
      case None =>
        SegmentsFlatten(s[1..]);
        assert s == [s[0]] + s[1..];
    }
  }

  lemma {:induction false} SegmentsTokens(s: string)
    ensures PendingTokens(Segments(s)) == Matches(s)
    decreases |s|
  {
    if s != [] {
      match MatchAt(s)
      case Some(t) =>
        SegmentsTokens(s[|TokenText(t)|..]);
        assert Segments(s)[1..] == Segments(s[|TokenText(t)|..]);
      case None =>
        SegmentsTokens(s[1..]);
        assert Segments(s)[1..] == Segments(s[1..]);
    }
  }

  lemma {:induction false} SegmentsShape(s: string)
    requires DollarsOnlyInTokens(s)
    ensures Clean(Segments(s))
    decreases |s|
  {
    if s != [] {
      match MatchAt(s)
      case Some(t) =>
        SegmentsShape(s[|TokenText(t)|..]);
      case None =>
        SegmentsShape(s[1..]);
    }
  }

  lemma {:induction false} PendingListed(segs: seq<Seg>, i: nat)
    requires i < |segs| && segs[i].Pending?
    ensures segs[i].tok in PendingTokens(segs)
    decreases |segs|
  {
    if i > 0 {
      PendingListed(segs[1..], i - 1);
    }
  }

  lemma {:induction false} ReplaceSkipsLiteral(a: string, b: string, x: string, y: string)
    requires '$' !in a && x != [] && x[0] == '$'
    ensures StrReplace(a + b, x, y) == a + StrReplace(b, x, y)
    decreases |a|
  {
    if a != [] {
      var s := a + b;
      assert s[0] == a[0] != '$';
      assert !(x <= s);
      assert StrReplace(s, x, y) == [s[0]] + StrReplace(s[1..], x, y);
      assert s[1..] == a[1..] + b;
      ReplaceSkipsLiteral(a[1..], b, x, y);
      assert a == [a[0]] + a[1..];
    } else {
      assert a + b == b;
    }
  }

  /** The text of one well-formed token never starts the text of a different one. */
  lemma DistinctTokensNoPrefix(u: Token, t: Token, rest: string)
    requires WellFormed(u) && WellFormed(t) && u != t
    ensures !(TokenText(t) <= TokenText(u) + rest)
  {
    var tu, tt := TokenText(u), TokenText(t);
    var lu, lt := |tu|, |tt|;
    if lt < lu {
      assert tt[lt - 1] == t.close;
      assert (tu + rest)[lt - 1] == u.name[lt - 3];
    } else if lt > lu {
      assert tt[lu - 1] == t.name[lu - 3];
      assert (tu + rest)[lu - 1] == u.close;
    } else {
      TokenTextInjective(t, u);
      assert (tu + rest)[..lt] == tu;
    }
  }

  lemma TokenTextInjective(t: Token, u: Token)
    ensures TokenText(t) == TokenText(u) ==> t == u
  {
    var tt, tu := TokenText(t), TokenText(u);
    if tt == tu {
      var l := |tt|;
      assert t.open == tt[1] == tu[1] == u.open;
      assert t.close == tt[l - 1] == tu[l - 1] == u.close;
      assert t.name == tt[2..l - 1] == tu[2..l - 1] == u.name;
    }
  }

  lemma ReplaceAtToken(u: Token, rest: string, t: Token, y: string)
    requires WellFormed(u) && WellFormed(t)
    ensures StrReplace(TokenText(u) + rest, TokenText(t), y)
      == (if u == t then y else TokenText(u)) + StrReplace(rest, TokenText(t), y)
  {
    var tu := TokenText(u);
    var s := tu + rest;
    if u == t {
      assert s[|tu|..] == rest;
    } else {
      DistinctTokensNoPrefix(u, t, rest);
      assert s[1..] == tu[1..] + rest;
      assert '$' !in tu[1..];
      ReplaceSkipsLiteral(tu[1..], rest, TokenText(t), y);
      assert tu == [tu[0]] + tu[1..];
    }
  }

  lemma {:induction false} ReplaceSegments(segs: seq<Seg>, t: Token, y: string)
    requires Clean(segs) && WellFormed(t)
    ensures StrReplace(Flatten(segs), TokenText(t), y) == Flatten(Fill(segs, t, y))
    decreases |segs|
  {
    if segs != [] {
      ReplaceSegments(segs[1..], t, y);
      assert Fill(segs, t, y)[1..] == Fill(segs[1..], t, y);
      match segs[0]
      case Lit(x) =>
        ReplaceSkipsLiteral(x, Flatten(segs[1..]), TokenText(t), y);
      case Pending(u) =>
        ReplaceAtToken(u, Flatten(segs[1..]), t, y);
    }
  }

  lemma {:induction false} SubstituteSegments(p: StandardGroupPolicy, toks: seq<Token>, segs: seq<Seg>, props: Props)
    requires forall i :: 0 <= i < |toks| ==> WellFormed(toks[i])
    requires forall i :: 0 <= i < |toks| ==> '$' !in Replacement(p, toks[i], props)
    requires Clean(segs)
    requires forall i :: 0 <= i < |segs| && segs[i].Pending? ==> segs[i].tok in toks
    ensures Substitute(p, toks, Flatten(segs), props) == Flatten(Resolve(p, segs, props))
    decreases |toks|
  {
    if toks == [] {
      assert Resolve(p, segs, props) == segs;
    } else {
      var t := toks[0];
      var y := Replacement(p, t, props);
      var filled := Fill(segs, t, y);
      ReplaceSegments(segs, t, y);
      forall i | 0 <= i < |filled| && filled[i].Pending? ensures filled[i].tok in toks[1..] {
        assert segs[i].tok in toks && segs[i].tok != t;
      }
      SubstituteSegments(p, toks[1..], filled, props);
      assert Resolve(p, filled, props) == Resolve(p, segs, props);
    }
  }

  lemma {:induction false} FlattenResolve(p: StandardGroupPolicy, segs: seq<Seg>, props: Props)
    requires segs != []
    ensures Flatten(Resolve(p, segs, props)) ==
      (if segs[0].Pending? then Replacement(p, segs[0].tok, props) else segs[0].text)
      + Flatten(Resolve(p, segs[1..], props))
  {
    assert Resolve(p, segs, props)[1..] == Resolve(p, segs[1..], props);
  }

  lemma {:induction false} ResolveSegments(p: StandardGroupPolicy, s: string, props: Props)
    ensures Flatten(Resolve(p, Segments(s), props)) == Expand(p, s, props)
    decreases |s|
  {
    if s != [] {
      FlattenResolve(p, Segments(s), props);
      match MatchAt(s)
      case Some(t) =>
        assert Segments(s)[1..] == Segments(s[|TokenText(t)|..]);
        ResolveSegments(p, s[|TokenText(t)|..], props);
      case None =>
        assert Segments(s)[1..] == Segments(s[1..]);
        ResolveSegments(p, s[1..], props);
    }
  }

  // ---------------------------------------------------------------------------
  // The built-in templates
  // ---------------------------------------------------------------------------

  /** A token at the front of a template is replaced and the rest follows. */
  lemma ExpandToken(p: StandardGroupPolicy, t: Token, rest: string, props: Props)
    requires WellFormed(t)
    ensures Expand(p, TokenText(t) + rest, props) == Replacement(p, t, props) + Expand(p, rest, props)
  {
    MatchAtToken(t, rest);
    assert (TokenText(t) + rest)[|TokenText(t)|..] == rest;
  }

  /** A token at the front of a template is its first match. */
  lemma MatchesToken(t: Token, rest: string)
    requires WellFormed(t)
    ensures Matches(TokenText(t) + rest) == [t] + Matches(rest)
    ensures DollarsOnlyInTokens(TokenText(t) + rest) == DollarsOnlyInTokens(rest)
  {
    MatchAtToken(t, rest);
    assert (TokenText(t) + rest)[|TokenText(t)|..] == rest;
  }

  /** A plain character at the front of a template is kept and the rest follows. */
  lemma ExpandChar(p: StandardGroupPolicy, c: char, rest: string, props: Props)
    requires c != '$'
    ensures Expand(p, [c] + rest, props) == [c] + Expand(p, rest, props)
  {
    assert ([c] + rest)[1..] == rest;
  }

  /** A plain character at the front of a template starts no match. */
  lemma MatchesChar(c: char, rest: string)
    requires c != '$'
    ensures Matches([c] + rest) == Matches(rest)
    ensures DollarsOnlyInTokens([c] + rest) == DollarsOnlyInTokens(rest)
  {
    assert ([c] + rest)[1..] == rest;
  }

  /** A template written as a list of tokens and plain characters. */
  datatype Piece = Tok(tok: Token) | Chr(ch: char)

  function Render(ps: seq<Piece>): string {
    if ps == [] then []
    else (if ps[0].Tok? then TokenText(ps[0].tok) else [ps[0].ch]) + Render(ps[1..])
  }

  /** Each token replaced, each character kept. */
  function PiecesValue(p: StandardGroupPolicy, ps: seq<Piece>, props: Props): string {
    if ps == [] then []
    else (if ps[0].Tok? then Replacement(p, ps[0].tok, props) else [ps[0].ch]) + PiecesValue(p, ps[1..], props)
  }

  function PiecesTokens(ps: seq<Piece>): seq<Token> {
    if ps == [] then [] else (if ps[0].Tok? then [ps[0].tok] else []) + PiecesTokens(ps[1..])
  }

  /** Well-formed tokens, and no '$' among the plain characters. */
  predicate PiecesOk(ps: seq<Piece>) {
    forall i :: 0 <= i < |ps| ==> if ps[i].Tok? then WellFormed(ps[i].tok) else ps[i].ch != '$'
  }

  lemma {:induction false} RenderFacts(p: StandardGroupPolicy, ps: seq<Piece>, props: Props)
    requires PiecesOk(ps)
    ensures Expand(p, Render(ps), props) == PiecesValue(p, ps, props)
    ensures Matches(Render(ps)) == PiecesTokens(ps)
    ensures DollarsOnlyInTokens(Render(ps))
  {
    if ps != [] {
      var rest := Render(ps[1..]);
      RenderFacts(p, ps[1..], props);
      if ps[0].Tok? {
        ExpandToken(p, ps[0].tok, rest, props);
        MatchesToken(ps[0].tok, rest);
      } else {
        ExpandChar(p, ps[0].ch, rest, props);
        MatchesChar(ps[0].ch, rest);
      }
    }
  }

  /**
   * A template made of tokens and '$'-free characters, whose replacements
   * are '$'-free, becomes its pieces' values in order.
   */
  lemma PiecesTemplate(p: StandardGroupPolicy, ps: seq<Piece>, props: Props)
    requires PiecesOk(ps)
    requires forall t :: t in PiecesTokens(ps) ==> '$' !in Replacement(p, t, props)
    ensures TemplateResult(p, Render(ps), props) == PiecesValue(p, ps, props)
  {
    RenderFacts(p, ps, props);
    TemplateIsExpansion(p, Render(ps), props);
  }

  const NameBranch := Token('{', "branch", '}')
  const NameOffice := Token('{', "office", '}')
  const EmailBranch := Token('(', "branch", ')')
  const EmailOffice := Token('(', "office", ')')
  const EmailDomain := Token('(', "domain", ')')

  const NamePieces := [Tok(NameBranch), Chr(' '), Tok(NameOffice)]

  /** The built-in group-name template, piece by piece. */
  lemma NameTemplatePieces()
    ensures Render(NamePieces) == GroupNameTemplate
    ensures PiecesTokens(NamePieces) == [NameBranch, NameOffice]
    ensures PiecesOk(NamePieces)
  {
    NameRender();
    NameTokens();
  }

  lemma NameRender()
    ensures Render(NamePieces) == GroupNameTemplate
  {
    RenderOfThree(NameBranch, ' ', NameOffice);
    assert TokenText(NameBranch) == "${branch}";
    assert TokenText(NameOffice) == "${office}";
  }

  lemma RenderOfThree(t1: Token, c: char, t2: Token)
    ensures Render([Tok(t1), Chr(c), Tok(t2)]) == TokenText(t1) + [c] + TokenText(t2)
  {
    var ps := [Tok(t1), Chr(c), Tok(t2)];
    assert Render(ps[3..]) == [];
    assert Render(ps[2..]) == TokenText(t2);
    assert Render(ps[1..]) == [c] + TokenText(t2);
  }

  lemma RenderOfFive(t1: Token, c1: char, t2: Token, c2: char, t3: Token)
    ensures Render([Tok(t1), Chr(c1), Tok(t2), Chr(c2), Tok(t3)])
      == TokenText(t1) + [c1] + TokenText(t2) + [c2] + TokenText(t3)
  {
    var ps := [Tok(t1), Chr(c1), Tok(t2), Chr(c2), Tok(t3)];
    assert ps[2..] == [Tok(t2), Chr(c2), Tok(t3)];
    RenderOfThree(t2, c2, t3);
    assert Render(ps[1..]) == [c1] + Render(ps[2..]);
  }

  lemma NameTokens()
    ensures PiecesTokens(NamePieces) == [NameBranch, NameOffice]
  {
    var ps := NamePieces;
    assert PiecesTokens(ps[3..]) == [];
    assert PiecesTokens(ps[2..]) == [NameOffice];
    assert PiecesTokens(ps[1..]) == [NameOffice];
  }

  const EmailPieces := [Tok(EmailBranch), Chr('-'), Tok(EmailOffice), Chr('@'), Tok(EmailDomain)]

  lemma EmailTemplateSplit()
    ensures GroupEmailTemplate == "$(branch)-$(office)" + ['@'] + "$(domain)"
  {
  }

  /** The built-in group-email template, piece by piece. */
  lemma EmailTemplatePieces()
    ensures Render(EmailPieces) == GroupEmailTemplate
    ensures PiecesTokens(EmailPieces) == [EmailBranch, EmailOffice, EmailDomain]
    ensures PiecesOk(EmailPieces)
  {
    EmailRender();
    EmailTokens();
  }

  lemma EmailRender()
    ensures Render(EmailPieces) == GroupEmailTemplate
  {
    RenderOfFive(EmailBranch, '-', EmailOffice, '@', EmailDomain);
    assert TokenText(EmailBranch) + ['-'] + TokenText(EmailOffice) == "$(branch)-$(office)";
    assert TokenText(EmailDomain) == "$(domain)";
    EmailTemplateSplit();
  }

  lemma EmailTokens()
    ensures PiecesTokens(EmailPieces) == [EmailBranch, EmailOffice, EmailDomain]
  {
    var ps := EmailPieces;
    assert PiecesTokens(ps[5..]) == [];
    assert PiecesTokens(ps[4..]) == [EmailDomain];
    assert PiecesTokens(ps[3..]) == [EmailDomain];
    assert PiecesTokens(ps[2..]) == [EmailOffice, EmailDomain];
    assert PiecesTokens(ps[1..]) == [EmailOffice, EmailDomain];
  }

  lemma ValueOfThree(p: StandardGroupPolicy, t1: Token, c: char, t2: Token, props: Props)
    ensures PiecesValue(p, [Tok(t1), Chr(c), Tok(t2)], props)
      == Replacement(p, t1, props) + [c] + Replacement(p, t2, props)
  {
    var ps := [Tok(t1), Chr(c), Tok(t2)];
    assert PiecesValue(p, ps[3..], props) == [];
    assert PiecesValue(p, ps[2..], props) == Replacement(p, t2, props);
    assert PiecesValue(p, ps[1..], props) == [c] + Replacement(p, t2, props);
  }

  lemma ValueOfFive(p: StandardGroupPolicy, t1: Token, c1: char, t2: Token, c2: char, t3: Token, props: Props)
    ensures PiecesValue(p, [Tok(t1), Chr(c1), Tok(t2), Chr(c2), Tok(t3)], props)
      == Replacement(p, t1, props) + [c1] + Replacement(p, t2, props) + [c2] + Replacement(p, t3, props)
  {
    var ps := [Tok(t1), Chr(c1), Tok(t2), Chr(c2), Tok(t3)];
    assert ps[2..] == [Tok(t2), Chr(c2), Tok(t3)];
    ValueOfThree(p, t2, c2, t3, props);
    assert PiecesValue(p, ps[1..], props) == [c1] + PiecesValue(p, ps[2..], props);
  }

  /**
   * With the built-in group-email template, getGroupEmail(b, o) is
   * b-o@domain (for names and a domain without '$').
   */
  lemma GroupEmailDefault(p: StandardGroupPolicy, branch: string, office: string)
    requires Valid(p) && p.defaults["group-email"] == GroupEmailTemplate
    requires '$' !in branch && '$' !in office && '$' !in p.defaults["domain"]
    ensures GetGroupEmail(p, branch, office) == branch + "-" + office + "@" + p.defaults["domain"]
  {
    var props := BranchOffice(branch, office);
    var ps := EmailPieces;
    EmailTemplatePieces();
    ValueOfFive(p, EmailBranch, '-', EmailOffice, '@', EmailDomain, props);
    assert Replacement(p, EmailDomain, props) == p.defaults["domain"];
    PiecesTemplate(p, ps, props);
  }

  /** The example of the policy's tests: north/president in the policy's domain. */
  lemma GroupEmailExample(domain: string)
    requires '$' !in domain
    ensures GetGroupEmail(NewPolicy(domain, map[]), "north", "president") == "north-president@" + domain
  {
    var p := NewPolicy(domain, map[]);
    assert p.defaults["domain"] == domain;
    GroupEmailDefault(p, "north", "president");
    NorthPresidentText(domain);
  }

  lemma NorthPresidentText(domain: string)
    ensures "north" + "-" + "president" + "@" + domain == "north-president@" + domain
  {
    assert "north" + "-" + "president" == "north-president";
  }

  /**
   * With the built-in group-name template, getGroupName is "${branch}
   * ${office}", where the caller's own branch and office properties take
   * precedence over the arguments.
   */
  lemma GroupNameDefault(p: StandardGroupPolicy, branch: string, office: string, props: Props)
    requires Valid(p) && p.defaults["group-name"] == GroupNameTemplate && "group-name" !in props
    requires '$' !in branch && '$' !in office
    requires "branch" in props ==> '$' !in props["branch"]
    requires "office" in props ==> '$' !in props["office"]
    ensures GetGroupName(p, branch, office, props) ==
      UcFirst(if "branch" in props then props["branch"] else branch) + " "
      + UcFirst(if "office" in props then props["office"] else office)
  {
    var all := BranchOffice(branch, office) + props;
    var b := if "branch" in props then props["branch"] else branch;
    var o := if "office" in props then props["office"] else office;
    assert all["branch"] == b && all["office"] == o;
    UcFirstKeeps(b, '$');
    UcFirstKeeps(o, '$');
    NameTemplatePieces();
    ValueOfThree(p, NameBranch, ' ', NameOffice, all);
    PiecesTemplate(p, NamePieces, all);
  }

  /** A caller-supplied group-name without tokens is the name, whatever the defaults say. */
  lemma GroupNameSupplied(p: StandardGroupPolicy, branch: string, office: string, props: Props)
    requires Valid(p) && "group-name" in props && '$' !in props["group-name"]
    ensures GetGroupName(p, branch, office, props) == props["group-name"]
  {
    NoDollarUnchanged(p, props["group-name"], BranchOffice(branch, office) + props);
  }

  /** The example of the policy's tests: "North President", whatever the domain. */
  lemma GroupNameExample(domain: string)
    ensures GetGroupName(NewPolicy(domain, map[]), "north", "president", map[]) == "North President"
  {
    var p := NewPolicy(domain, map[]);
    GroupNameDefault(p, "north", "president", map[]);
    UcFirstNorth();
    UcFirstPresident();
    NorthPresidentName();
  }

  lemma NorthPresidentName() ensures "North" + " " + "President" == "North President" {
  }

  lemma UcFirstNorth() ensures UcFirst("north") == "North" {
    assert "north"[1..] == "orth";
  }

  lemma UcFirstPresident() ensures UcFirst("president") == "President" {
    assert "president"[1..] == "resident";
  }
}
