/**
 Reading one SPF record: which targets are followed and which tokens count as sources
 (src/email_intel/spf_resolver.py, `_extract_includes_and_redirect`, `_is_spf_record`,
 `_normalize_spf_target` and the token loop of `resolve_spf`).
 */
module SpfRecord {
  import opened Sequences
  import opened Text

  datatype Record = Record(terminals: seq<string>, includes: seq<string>, redirect: Option<string>)

  /** Word characters of the pattern `\b`, for ASCII text. */
  predicate IsWordChar(c: char) {
    'a' <= c <= 'z' || 'A' <= c <= 'Z' || '0' <= c <= '9' || c == '_'
  }

  predicate Unspaced(s: string) {
    forall c :: c in s ==> !IsSpace(c)
  }

  function EndOfRun(s: string, i: nat): (e: nat)
    requires i <= |s|
    ensures i <= e <= |s|
    ensures forall k :: i <= k < e ==> !IsSpace(s[k])
    ensures e < |s| ==> IsSpace(s[e])
    decreases |s| - i
  {
    if i < |s| && !IsSpace(s[i]) then EndOfRun(s, i + 1) else i
  }

  /** The pattern `\b<keyword>([^\s]+)` matches at `i`, ignoring case. */
  predicate MatchesAt(keyword: string, s: string, i: nat) {
    && i + |keyword| < |s|
    && Lower(s[i..i + |keyword|]) == keyword
    && (i == 0 || !IsWordChar(s[i - 1]))
    && !IsSpace(s[i + |keyword|])
  }

  /** The groups of all matches from `i` on, as a left-to-right scan finds them. */
  function Groups(keyword: string, s: string, i: nat): (r: seq<string>)
    ensures forall g :: g in r ==> g != [] && Unspaced(g)
    decreases |s| - i
  {
    if i >= |s| then []
    else if MatchesAt(keyword, s, i) then
      var from := i + |keyword|;
      var e := EndOfRun(s, from);
      assert s[from] == s[from..e][0];
      [s[from..e]] + Groups(keyword, s, e)
    else Groups(keyword, s, i + 1)
  }

  function CleanTarget(group: string): string {
    Lower(DropDots(group))
  }

  /** Cleaned targets, empty ones dropped. */
  function CleanTargets(groups: seq<string>): seq<string> {
    if groups == [] then []
    else
      var front, last := groups[..|groups| - 1], CleanTarget(groups[|groups| - 1]);
      if last == [] then CleanTargets(front) else CleanTargets(front) + [last]
  }

  function RedirectOf(groups: seq<string>): Option<string> {
    if groups == [] || CleanTarget(groups[0]) == [] then None else Some(CleanTarget(groups[0]))
  }

  method ExtractIncludesAndRedirect(raw: string) returns (includes: seq<string>, redirect: Option<string>)
    ensures includes == CleanTargets(Groups("include:", raw, 0))
    ensures redirect == RedirectOf(Groups("redirect=", raw, 0))
  {
    var groups := Groups("include:", raw, 0);
    includes := [];
    for k := 0 to |groups|
      invariant includes == CleanTargets(groups[..k])
    {
      var target := CleanTarget(groups[k]);
      assert groups[..k + 1][..k] == groups[..k];
      if target != [] {
        includes := includes + [target];
      }
    }
    assert groups[..|groups|] == groups;
    redirect := None;
    var redirects := Groups("redirect=", raw, 0);
    if redirects != [] {
      var target := CleanTarget(redirects[0]);
      if target != [] {
        redirect := Some(target);
      }
    }
  }

  /** `str.split()`: the maximal runs of non-blank characters. */
  function Tokens(s: string, i: nat): (r: seq<string>)
    ensures forall k :: 0 <= k < |r| ==> r[k] != []
    decreases |s| - i
  {
    if i >= |s| then []
    else if IsSpace(s[i]) then Tokens(s, i + 1)
    else
      var e := EndOfRun(s, i);
      [s[i..e]] + Tokens(s, e)
  }

  /** A token that stays in the list of sources. */
  predicate IsTerminal(token: string) {
    var low := Lower(token);
    && !StartsWith(token, "v=spf1")
    && !StartsWith(low, "include:") && !StartsWith(low, "redirect=") && !StartsWith(low, "exp=")
    && low != "-all" && low != "~all" && low != "?all" && low != "+all"
  }

  function Terminals(tokens: seq<string>): seq<string> {
    if tokens == [] then []
    else
      var front, last := tokens[..|tokens| - 1], tokens[|tokens| - 1];
      if IsTerminal(last) then Terminals(front) + [last] else Terminals(front)
  }

  method CollectTerminals(raw: string) returns (terminal: seq<string>)
    ensures terminal == Terminals(Tokens(raw, 0))
  {
    var tokens := Tokens(raw, 0);
    terminal := [];
    for k := 0 to |tokens|
      invariant terminal == Terminals(tokens[..k])
    {
      assert tokens[..k + 1][..k] == tokens[..k];
      if IsTerminal(tokens[k]) {
        terminal := terminal + [tokens[k]];
      }
    }
    assert tokens[..|tokens|] == tokens;
  }

  function ParseRecord(raw: string): Record {
    Record(Terminals(Tokens(raw, 0)),
           CleanTargets(Groups("include:", raw, 0)),
           RedirectOf(Groups("redirect=", raw, 0)))
  }

  predicate IsSpfRecord(txt: string) {
    StartsWith(Strip(txt), "v=spf1 ")
  }

  /** All targets the resolver follows, in the order it follows them. */
  function Targets(r: Record): seq<string> {
    r.includes + Optional(r.redirect)
  }

  /** What extraction guarantees of a target: something is left, and it does not end in a dot or a blank. */
  predicate IsCleanTarget(t: string) {
    t != [] && t[|t| - 1] != '.' && !IsSpace(t[0]) && !IsSpace(t[|t| - 1])
  }

  lemma CleanTargetIsClean(group: string)
    requires Unspaced(group)
    ensures CleanTarget(group) == [] || IsCleanTarget(CleanTarget(group))
  {
    var d := DropDots(group);
    if d != [] {
      assert d[0] == group[0] && d[|d| - 1] == group[|d| - 1] && group[0] in group && group[|d| - 1] in group;
    }
  }

  lemma {:induction false} CleanTargetsAreClean(groups: seq<string>)
    requires forall g :: g in groups ==> Unspaced(g)
    ensures forall t :: t in CleanTargets(groups) ==> IsCleanTarget(t)
  {
    if groups != [] {
      CleanTargetsAreClean(groups[..|groups| - 1]);
      CleanTargetIsClean(groups[|groups| - 1]);
    }
  }

  /** No record, however malformed, yields an empty or dot-terminated target. */
  lemma ExtractedTargetsAreClean(raw: string)
    ensures forall t :: t in Targets(ParseRecord(raw)) ==> IsCleanTarget(t)
  {
    CleanTargetsAreClean(Groups("include:", raw, 0));
    var redirects := Groups("redirect=", raw, 0);
    if redirects != [] {
      CleanTargetIsClean(redirects[0]);
    }
  }

  /** `_normalize_spf_target`: None stands for the ValueError on an empty target. */
  function NormalizeTarget(punycode: string -> Option<string>, target: string): Option<string> {
    var t := DropDots(Lower(Strip(target)));
    if t == [] then None
    else if punycode(t).Some? then punycode(t) else Some(t)
  }

  lemma LowerKeepsEnd(t: string)
    requires IsCleanTarget(t)
    ensures DropDots(Lower(t)) == Lower(t)
  {
    assert Lower(t)[|t| - 1] == LowerChar(t[|t| - 1]) != '.';
  }

  lemma CleanTargetsNormalize(punycode: string -> Option<string>, t: string)
    requires IsCleanTarget(t)
    ensures NormalizeTarget(punycode, t).Some?
  {
    StripOfStable(t);
    LowerKeepsEnd(t);
  }

  lemma {:induction false} GroupsFind(keyword: string, s: string, i: nat, from: nat)
    requires Unspaced(keyword) && 2 <= i && from <= i && MatchesAt(keyword, s, i)
    requires keyword != [] && LowerChar(s[i - 1]) != keyword[0] && IsSpace(s[i - 2])
    ensures s[i + |keyword|..EndOfRun(s, i + |keyword|)] in Groups(keyword, s, from)
    decreases i - from
  {
    if from < i {
      if MatchesAt(keyword, s, from) {
        var e := EndOfRun(s, from + |keyword|);
        assert Lower(s[from..from + |keyword|])[0] == LowerChar(s[from]);
        assert forall k :: from <= k < from + |keyword| ==> !IsSpace(s[k]) by {
          KeywordIsUnspaced(keyword, s, from);
        }
        assert e <= i - 2;
        GroupsFind(keyword, s, i, e);
      } else {
        GroupsFind(keyword, s, i, from + 1);
      }
    }
  }

  lemma KeywordIsUnspaced(keyword: string, s: string, i: nat)
    requires Unspaced(keyword) && MatchesAt(keyword, s, i)
    ensures forall k :: i <= k < i + |keyword| ==> !IsSpace(s[k])
  {
    forall k | i <= k < i + |keyword| ensures !IsSpace(s[k]) {
      assert Lower(s[i..i + |keyword|])[k - i] == LowerChar(s[k]) == keyword[k - i];
      assert keyword[k - i] in keyword;
    }
  }

  lemma {:induction false} TokensFind(s: string, start: nat, from: nat)
    requires 1 <= start < |s| && from <= start && IsSpace(s[start - 1]) && !IsSpace(s[start])
    ensures s[start..EndOfRun(s, start)] in Tokens(s, from)
    decreases start - from
  {
    if from < start {
      TokensFind(s, start, if IsSpace(s[from]) then from + 1 else EndOfRun(s, from));
    }
  }

  lemma {:induction false} TerminalsKeep(tokens: seq<string>, token: string)
    requires token in tokens && IsTerminal(token)
    ensures token in Terminals(tokens)
  {
    if token != tokens[|tokens| - 1] {
      assert token in tokens[..|tokens| - 1];
      TerminalsKeep(tokens[..|tokens| - 1], token);
    }
  }

  lemma {:induction false} CleanTargetsKeep(groups: seq<string>, group: string)
    requires group in groups && CleanTarget(group) != []
    ensures CleanTarget(group) in CleanTargets(groups)
  {
    if group != groups[|groups| - 1] {
      assert group in groups[..|groups| - 1];
      CleanTargetsKeep(groups[..|groups| - 1], group);
    }
  }

  predicate IsQualifier(c: char) {
    c == '+' || c == '-' || c == '?' || c == '~'
  }

  lemma QualifiedTokenIsTerminal(token: string)
    requires |token| > 4 && IsQualifier(token[0])
    ensures IsTerminal(token)
  {
    var low := Lower(token);
    assert low[0] == token[0];
  }

  predicate QualifiedAt(keyword: string, raw: string, i: nat) {
    2 <= i && MatchesAt(keyword, raw, i) && IsQualifier(raw[i - 1]) && IsSpace(raw[i - 2])
  }

  lemma QualifiedTokenIsKept(keyword: string, raw: string, i: nat)
    requires QualifiedAt(keyword, raw, i) && Unspaced(keyword) && |keyword| >= 4
    ensures raw[i - 1..EndOfRun(raw, i - 1)] in Terminals(Tokens(raw, 0))
  {
    TokensFind(raw, i - 1, 0);
    KeywordIsUnspaced(keyword, raw, i);
    QualifiedTokenIsTerminal(raw[i - 1..EndOfRun(raw, i - 1)]);
    TerminalsKeep(Tokens(raw, 0), raw[i - 1..EndOfRun(raw, i - 1)]);
  }

  lemma QualifiedTargetIsFollowed(keyword: string, raw: string, i: nat)
    requires QualifiedAt(keyword, raw, i) && Unspaced(keyword) && keyword != [] && !IsQualifier(keyword[0])
    requires CleanTarget(raw[i + |keyword|..EndOfRun(raw, i + |keyword|)]) != []
    ensures CleanTarget(raw[i + |keyword|..EndOfRun(raw, i + |keyword|)]) in CleanTargets(Groups(keyword, raw, 0))
  {
    GroupsFind(keyword, raw, i, 0);
    CleanTargetsKeep(Groups(keyword, raw, 0), raw[i + |keyword|..EndOfRun(raw, i + |keyword|)]);
  }

  /** An include written with a qualifier is followed like any other and also stays in the list of sources. */
  lemma QualifiedIncludeIsFollowedAndKept(raw: string, i: nat)
    requires QualifiedAt("include:", raw, i)
    requires CleanTarget(raw[i + 8..EndOfRun(raw, i + 8)]) != []
    ensures CleanTarget(raw[i + 8..EndOfRun(raw, i + 8)]) in Targets(ParseRecord(raw))
    ensures raw[i - 1..EndOfRun(raw, i - 1)] in ParseRecord(raw).terminals
  {
    QualifiedTargetIsFollowed("include:", raw, i);
    QualifiedTokenIsKept("include:", raw, i);
  }
}
