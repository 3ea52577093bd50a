/**
 What reading an SPF record means, said of its text (src/email_intel/spf_resolver.py): which runs of characters are
 sources, which are targets, and which texts are records at all.
 */
module SpfText {
  import opened Sequences
  import opened Selections
  import opened Text
  import opened SpfRecord

  const MODIFIERS: set<string> := {"include:", "redirect=", "exp="}
  const ALL_FORMS: set<string> := {"-all", "~all", "?all", "+all"}

  /** What never names a source: the version, a modifier, one of the four forms of `all`. */
  ghost predicate NamesNoSource(token: string) {
    || "v=spf1" <= token
    || (exists m :: m in MODIFIERS && BeginsWith(token, m))
    || (exists a :: a in ALL_FORMS && EqualUpToCase(token, a))
  }

  lemma FormsAreLower(a: string)
    requires a in ALL_FORMS || a in MODIFIERS
    ensures Lower(a) == a
  {
  }

  lemma IsTerminalIff(token: string)
    ensures IsTerminal(token) <==> !NamesNoSource(token)
  {
    forall m | m in MODIFIERS ensures BeginsWith(token, m) <==> StartsWith(Lower(token), m) {
      FormsAreLower(m);
      BeginsWithIff(token, m);
    }
    forall a | a in ALL_FORMS ensures EqualUpToCase(token, a) <==> Lower(token) == a {
      FormsAreLower(a);
      EqualUpToCaseIff(token, a);
    }
    assert forall m :: m in MODIFIERS <==> m == "include:" || m == "redirect=" || m == "exp=";
    assert forall a :: a in ALL_FORMS <==> a == "-all" || a == "~all" || a == "?all" || a == "+all";
  }

  /** `raw[i..j]` is a maximal run of non-blank characters. */
  predicate IsRun(raw: string, i: nat, j: nat) {
    && i < j <= |raw| && Unspaced(raw[i..j])
    && (i == 0 || IsSpace(raw[i - 1])) && (j == |raw| || IsSpace(raw[j]))
  }

  datatype Span = Span(start: nat, end: nat)

  /** Spans of the text from `i` on, in order and apart. */
  predicate InOrder(spans: seq<Span>, i: nat) {
    && (forall k :: 0 <= k < |spans| ==> i <= spans[k].start < spans[k].end)
    && (forall k, m :: 0 <= k < m < |spans| ==> spans[k].end <= spans[m].start)
  }

  lemma InOrderCons(span: Span, spans: seq<Span>, i: nat)
    requires i <= span.start < span.end && InOrder(spans, span.end)
    ensures InOrder([span] + spans, i)
  {
  }

  // ---------------------------------------------------------------------------
  // Tokens
  // ---------------------------------------------------------------------------

  /** The tokens are the runs at the spans. */
  predicate AreRuns(raw: string, spans: seq<Span>, tokens: seq<string>) {
    && |spans| == |tokens|
    && forall k :: 0 <= k < |spans| ==>
         IsRun(raw, spans[k].start, spans[k].end) && tokens[k] == raw[spans[k].start..spans[k].end]
  }

  /** Position `i` is not inside a run. */
  predicate AtBorder(raw: string, i: nat) {
    i >= |raw| || i == 0 || IsSpace(raw[i]) || IsSpace(raw[i - 1])
  }

  lemma RunIs(raw: string, i: nat, j: nat)
    requires IsRun(raw, i, j)
    ensures j == EndOfRun(raw, i) && !IsSpace(raw[i])
  {
    var e := EndOfRun(raw, i);
    SliceMember(raw, i, j, i);
    if e < j {
      SliceMember(raw, i, j, e);
    }
  }

  lemma EndOfRunIsRun(raw: string, i: nat)
    requires i < |raw| && !IsSpace(raw[i]) && AtBorder(raw, i)
    ensures IsRun(raw, i, EndOfRun(raw, i))
  {
  }

  /** A run is the one at `i`, or begins behind it. */
  lemma RunsApart(raw: string, i: nat, s: nat, e: nat)
    requires i <= s && i < |raw| && IsRun(raw, s, e)
    ensures (s == i && e == EndOfRun(raw, i)) || EndOfRun(raw, i) <= s
  {
    RunIs(raw, s, e);
  }

  /** The tokens are all runs of the text from `i` on, in order. */
  ghost predicate AreTokensFrom(raw: string, i: nat, spans: seq<Span>, tokens: seq<string>) {
    && InOrder(spans, i) && AreRuns(raw, spans, tokens)
    && forall s: nat, e: nat :: i <= s && IsRun(raw, s, e) ==> Span(s, e) in spans
  }

  lemma BlankSkipped(raw: string, i: nat, spans: seq<Span>, tokens: seq<string>)
    requires i < |raw| && IsSpace(raw[i]) && AreTokensFrom(raw, i + 1, spans, tokens)
    ensures AreTokensFrom(raw, i, spans, tokens)
  {
    forall s: nat, e: nat | i <= s && IsRun(raw, s, e) ensures Span(s, e) in spans {
      RunIs(raw, s, e);
    }
  }

  lemma TokenTaken(raw: string, i: nat, e: nat, rest: seq<Span>, tokens: seq<string>)
    requires i < |raw| && IsRun(raw, i, e) && e == EndOfRun(raw, i) && AreTokensFrom(raw, e, rest, tokens)
    ensures AreTokensFrom(raw, i, [Span(i, e)] + rest, [raw[i..e]] + tokens)
  {
    InOrderCons(Span(i, e), rest, i);
    forall s: nat, e': nat | i <= s && IsRun(raw, s, e') ensures Span(s, e') in [Span(i, e)] + rest {
      RunsApart(raw, i, s, e');
    }
  }

  /** The tokens from a border on are exactly the runs from there on, in text order. */
  lemma {:induction false} TokensAreRuns(raw: string, i: nat) returns (spans: seq<Span>)
    requires AtBorder(raw, i)
    ensures AreTokensFrom(raw, i, spans, Tokens(raw, i))
    decreases |raw| - i
  {
    if i >= |raw| {
      spans := [];
    } else if IsSpace(raw[i]) {
      spans := TokensAreRuns(raw, i + 1);
      BlankSkipped(raw, i, spans, Tokens(raw, i + 1));
    } else {
      var e := EndOfRun(raw, i);
      EndOfRunIsRun(raw, i);
      spans := TokensAreRuns(raw, e);
      TokenTaken(raw, i, e, spans, Tokens(raw, e));
      spans := [Span(i, e)] + spans;
    }
  }

  ghost function SourceOf(token: string): Option<string> {
    if NamesNoSource(token) then None else Some(token)
  }

  lemma TerminalsNext(front: seq<string>, last: string)
    ensures if SourceOf(last).Some? then Terminals(front + [last]) == Terminals(front) + [SourceOf(last).value]
            else Terminals(front + [last]) == Terminals(front)
  {
    assert (front + [last])[..|front|] == front;
    IsTerminalIff(last);
  }

  lemma {:induction false} TerminalsAreSources(tokens: seq<string>)
    ensures Selects(SourceOf, tokens, Terminals(tokens))
  {
    if tokens == [] {
      SelectsNothing<string, string>(SourceOf);
    } else {
      var front, last := tokens[..|tokens| - 1], tokens[|tokens| - 1];
      assert tokens == front + [last];
      TerminalsAreSources(front);
      TerminalsNext(front, last);
      SelectsNext(SourceOf, front, last, Terminals(front), Terminals(tokens));
    }
  }

  // ---------------------------------------------------------------------------
  // Targets
  // ---------------------------------------------------------------------------

  /** The keyword, in any letter case, not behind a word character, and the run of characters behind it. */
  predicate IsMatch(keyword: string, raw: string, span: Span) {
    var from := span.start + |keyword|;
    && from < span.end <= |raw| && EqualUpToCase(raw[span.start..from], keyword)
    && (span.start == 0 || !IsWordChar(raw[span.start - 1]))
    && Unspaced(raw[from..span.end]) && (span.end == |raw| || IsSpace(raw[span.end]))
  }

  /** The groups are what follows the keyword in the matches at the spans. */
  predicate AreMatches(keyword: string, raw: string, spans: seq<Span>, groups: seq<string>) {
    && |spans| == |groups|
    && forall k :: 0 <= k < |spans| ==>
         IsMatch(keyword, raw, spans[k]) && groups[k] == raw[spans[k].start + |keyword|..spans[k].end]
  }

  /** Position `p` is where some span starts, or inside one. */
  predicate IsCovered(spans: seq<Span>, p: nat) {
    exists k :: 0 <= k < |spans| && spans[k].start <= p < spans[k].end
  }

  lemma CoveredCons(span: Span, spans: seq<Span>, p: nat)
    requires IsCovered(spans, p) || span.start <= p < span.end
    ensures IsCovered([span] + spans, p)
  {
    var all := [span] + spans;
    assert all[0] == span && forall k :: 0 <= k < |spans| ==> all[k + 1] == spans[k];
  }

  lemma MatchesAtIff(keyword: string, raw: string, i: nat)
    requires Lower(keyword) == keyword
    ensures MatchesAt(keyword, raw, i) ==> IsMatch(keyword, raw, Span(i, EndOfRun(raw, i + |keyword|)))
    ensures (exists e: nat :: IsMatch(keyword, raw, Span(i, e))) ==> MatchesAt(keyword, raw, i)
  {
    if i + |keyword| < |raw| {
      EqualUpToCaseIff(raw[i..i + |keyword|], keyword);
    }
    if e: nat :| IsMatch(keyword, raw, Span(i, e)) {
      var from := i + |keyword|;
      assert raw[from] == raw[from..e][0] && raw[from] in raw[from..e];
    }
  }

  /** Every place from `i` on where the keyword matches is taken by some span. */
  ghost predicate AllTaken(keyword: string, raw: string, spans: seq<Span>, i: nat) {
    forall span: Span :: i <= span.start && IsMatch(keyword, raw, span) ==> IsCovered(spans, span.start)
  }

  lemma MatchTaken(keyword: string, raw: string, rest: seq<Span>, span: Span)
    requires AllTaken(keyword, raw, rest, span.end)
    ensures AllTaken(keyword, raw, [span] + rest, span.start)
  {
    forall other: Span | span.start <= other.start && IsMatch(keyword, raw, other)
      ensures IsCovered([span] + rest, other.start)
    {
      CoveredCons(span, rest, other.start);
    }
  }

  lemma NoMatchSkipped(keyword: string, raw: string, spans: seq<Span>, i: nat)
    requires Lower(keyword) == keyword && !MatchesAt(keyword, raw, i) && AllTaken(keyword, raw, spans, i + 1)
    ensures AllTaken(keyword, raw, spans, i)
  {
    forall span: Span | i <= span.start && IsMatch(keyword, raw, span) ensures IsCovered(spans, span.start) {
      MatchesAtIff(keyword, raw, span.start);
      assert span == Span(span.start, span.end);
    }
  }

  lemma MatchesCons(keyword: string, raw: string, span: Span, spans: seq<Span>, group: string, groups: seq<string>)
    requires IsMatch(keyword, raw, span) && group == raw[span.start + |keyword|..span.end]
    requires AreMatches(keyword, raw, spans, groups)
    ensures AreMatches(keyword, raw, [span] + spans, [group] + groups)
  {
  }

  lemma GroupTaken(keyword: string, raw: string, i: nat, e: nat, rest: seq<Span>, groups: seq<string>)
    requires Lower(keyword) == keyword && MatchesAt(keyword, raw, i) && e == EndOfRun(raw, i + |keyword|)
    requires InOrder(rest, e) && AreMatches(keyword, raw, rest, groups) && AllTaken(keyword, raw, rest, e)
    ensures InOrder([Span(i, e)] + rest, i) && AllTaken(keyword, raw, [Span(i, e)] + rest, i)
    ensures AreMatches(keyword, raw, [Span(i, e)] + rest, [raw[i + |keyword|..e]] + groups)
  {
    MatchesAtIff(keyword, raw, i);
    InOrderCons(Span(i, e), rest, i);
    MatchTaken(keyword, raw, rest, Span(i, e));
    MatchesCons(keyword, raw, Span(i, e), rest, raw[i + |keyword|..e], groups);
  }

  lemma GroupSkipped(keyword: string, raw: string, i: nat, spans: seq<Span>)
    requires Lower(keyword) == keyword && i < |raw| && !MatchesAt(keyword, raw, i)
    requires InOrder(spans, i + 1) && AreMatches(keyword, raw, spans, Groups(keyword, raw, i + 1))
    requires AllTaken(keyword, raw, spans, i + 1)
    ensures InOrder(spans, i) && AreMatches(keyword, raw, spans, Groups(keyword, raw, i))
    ensures AllTaken(keyword, raw, spans, i)
  {
    NoMatchSkipped(keyword, raw, spans, i);
  }

  /**
   The groups from `i` on are those of matches from there on, in order and apart, and every place where the keyword
   matches is taken: a leftmost scan leaves none out.
   */
  lemma {:induction false} GroupsAreMatches(keyword: string, raw: string, i: nat) returns (spans: seq<Span>)
    requires Lower(keyword) == keyword
    ensures InOrder(spans, i) && AreMatches(keyword, raw, spans, Groups(keyword, raw, i))
    ensures AllTaken(keyword, raw, spans, i)
    decreases |raw| - i
  {
    if i >= |raw| {
      spans := [];
    } else if MatchesAt(keyword, raw, i) {
      var e := EndOfRun(raw, i + |keyword|);
      var rest := GroupsAreMatches(keyword, raw, e);
      GroupTaken(keyword, raw, i, e, rest, Groups(keyword, raw, e));
      spans := [Span(i, e)] + rest;
    } else {
      spans := GroupsAreMatches(keyword, raw, i + 1);
      GroupSkipped(keyword, raw, i, spans);
    }
  }

  lemma CleanTargetIsCleaned(group: string)
    ensures IsCleaned(group, CleanTarget(group))
  {
    LowerStemIsCleaned(group);
  }

  ghost function TargetOf(group: string): Option<string> {
    if CleanTarget(group) == [] then None else Some(CleanTarget(group))
  }

  /** A group is a target exactly when something is left of it, and then it is that. */
  lemma TargetOfIs(group: string)
    ensures TargetOf(group).None? <==> AllDots(group)
    ensures TargetOf(group).Some? ==> IsCleaned(group, TargetOf(group).value)
  {
    CleanTargetIsCleaned(group);
    assert group[0..] == group;
    assert DropDots(group) != [] ==> DropDots(group)[|DropDots(group)| - 1] == group[|DropDots(group)| - 1]
                                     && group[|DropDots(group)| - 1] in group;
  }

  lemma CleanTargetsSnoc(front: seq<string>, last: string)
    ensures CleanTargets(front + [last])
         == if TargetOf(last).Some? then CleanTargets(front) + [TargetOf(last).value] else CleanTargets(front)
  {
    assert (front + [last])[..|front|] == front;
  }

  lemma {:induction false} CleanTargetsAreTargets(groups: seq<string>)
    ensures Selects(TargetOf, groups, CleanTargets(groups))
  {
    if groups == [] {
      SelectsNothing<string, string>(TargetOf);
    } else {
      var front, last := groups[..|groups| - 1], groups[|groups| - 1];
      assert groups == front + [last];
      CleanTargetsAreTargets(front);
      CleanTargetsSnoc(front, last);
      SelectsSnoc(TargetOf, front, last, CleanTargets(front));
    }
  }

  // ---------------------------------------------------------------------------
  // The record
  // ---------------------------------------------------------------------------

  /** The groups are those of a leftmost scan for the keyword. */
  ghost predicate AreGroups(keyword: string, raw: string, spans: seq<Span>, groups: seq<string>) {
    InOrder(spans, 0) && AreMatches(keyword, raw, spans, groups) && AllTaken(keyword, raw, spans, 0)
  }

  ghost predicate TerminalsSay(raw: string, terminals: seq<string>) {
    exists spans, tokens :: AreTokensFrom(raw, 0, spans, tokens) && Selects(SourceOf, tokens, terminals)
  }

  ghost predicate IncludesSay(raw: string, includes: seq<string>) {
    exists spans, groups :: AreGroups("include:", raw, spans, groups) && Selects(TargetOf, groups, includes)
  }

  ghost predicate RedirectSays(raw: string, redirect: Option<string>) {
    exists spans, groups :: AreGroups("redirect=", raw, spans, groups)
                            && redirect == if groups == [] then None else TargetOf(groups[0])
  }

  lemma TerminalsAre(raw: string)
    ensures TerminalsSay(raw, Terminals(Tokens(raw, 0)))
  {
    var spans := TokensAreRuns(raw, 0);
    TerminalsAreSources(Tokens(raw, 0));
    assert AreTokensFrom(raw, 0, spans, Tokens(raw, 0));
  }

  lemma IncludesAre(raw: string)
    ensures IncludesSay(raw, CleanTargets(Groups("include:", raw, 0)))
  {
    FormsAreLower("include:");
    var spans := GroupsAreMatches("include:", raw, 0);
    CleanTargetsAreTargets(Groups("include:", raw, 0));
    assert AreGroups("include:", raw, spans, Groups("include:", raw, 0));
  }

  lemma RedirectIs(raw: string)
    ensures RedirectSays(raw, RedirectOf(Groups("redirect=", raw, 0)))
  {
    FormsAreLower("redirect=");
    var spans := GroupsAreMatches("redirect=", raw, 0);
    assert AreGroups("redirect=", raw, spans, Groups("redirect=", raw, 0));
  }

  /**
   The record holds the sources among the runs of the text, and the targets among its matches, in text order; includes
   are followed before the redirect.
   */
  lemma ParseRecordSays(raw: string)
    ensures TerminalsSay(raw, ParseRecord(raw).terminals)
    ensures IncludesSay(raw, ParseRecord(raw).includes)
    ensures RedirectSays(raw, ParseRecord(raw).redirect)
    ensures var r := ParseRecord(raw);
            Targets(r)[..|r.includes|] == r.includes
            && Targets(r)[|r.includes|..] == if r.redirect.Some? then [r.redirect.value] else []
  {
    TerminalsAre(raw);
    IncludesAre(raw);
    RedirectIs(raw);
  }

  // ---------------------------------------------------------------------------
  // Texts and names
  // ---------------------------------------------------------------------------

  /** From position `k` on, behind blanks only, the text has the version, a blank, and more than blanks. */
  predicate SaysSpfAt(txt: string, k: nat) {
    k + 7 <= |txt| && AllBlank(txt[..k]) && txt[k..k + 7] == "v=spf1 " && !AllBlank(txt[k + 7..])
  }

  predicate SaysSpf(txt: string) {
    exists k :: 0 <= k < |txt| && SaysSpfAt(txt, k)
  }

  lemma IsSpfRecordIff(txt: string)
    ensures IsSpfRecord(txt) <==> SaysSpf(txt)
  {
    var k, m := StripShape(txt);
    var stripped := Strip(txt);
    if IsSpfRecord(txt) {
      assert stripped[..7] == "v=spf1 " && stripped[6] == ' ';
      assert txt[k..k + 7] == stripped[..7];
      assert k + 7 < m;
      assert txt[m - 1] in txt[k + 7..];
      assert SaysSpfAt(txt, k);
    }
    if i :| 0 <= i < |txt| && SaysSpfAt(txt, i) {
      SpfIsStripped(txt, k, m, i);
    }
  }

  /** The version stands behind the leading blanks, and what is more than blanks behind it before the final ones. */
  lemma VersionIsInside(txt: string, k: nat, m: nat, i: nat)
    requires k <= |txt| && m <= |txt| && AllBlank(txt[..k]) && AllBlank(txt[m..]) && SaysSpfAt(txt, i)
    ensures k <= i < i + 7 < m
  {
    assert txt[i] == txt[i..i + 7][0] == 'v';
    NotBefore(txt, k, i);
    var c :| c in txt[i + 7..] && !IsSpace(c);
    var j :| i + 7 <= j < |txt| && txt[j] == c;
    NotBehind(txt, m, j);
  }

  lemma SpfIsStripped(txt: string, k: nat, m: nat, i: nat)
    requires k <= m <= |txt| && Strip(txt) == txt[k..m] && AllBlank(txt[..k]) && AllBlank(txt[m..])
    requires k < m ==> !IsSpace(txt[k]) && !IsSpace(txt[m - 1])
    requires SaysSpfAt(txt, i)
    ensures IsSpfRecord(txt)
  {
    VersionIsInside(txt, k, m, i);
    NotBefore(txt, i, k);
    assert txt[k..m][..7] == txt[i..i + 7];
  }

  /** `s` is one of the runs of the text. */
  ghost predicate HasRun(raw: string, s: string) {
    exists i: nat, j: nat :: IsRun(raw, i, j) && s == raw[i..j]
  }

  lemma TokenIffRun(raw: string, spans: seq<Span>, tokens: seq<string>, s: string)
    requires AreTokensFrom(raw, 0, spans, tokens)
    ensures s in tokens <==> HasRun(raw, s)
  {
    if i: nat, j: nat :| IsRun(raw, i, j) && s == raw[i..j] {
      assert Span(i, j) in spans;
      var k :| 0 <= k < |spans| && spans[k] == Span(i, j);
      assert tokens[k] == s;
    }
    if s in tokens {
      var k :| 0 <= k < |tokens| && tokens[k] == s;
      assert IsRun(raw, spans[k].start, spans[k].end);
    }
  }

  lemma SelectedIff(tokens: seq<string>, terminals: seq<string>, s: string)
    requires Selects(SourceOf, tokens, terminals)
    ensures s in terminals <==> s in tokens && !NamesNoSource(s)
  {
    SelectsMember(SourceOf, tokens, terminals, s);
    if s in tokens && !NamesNoSource(s) {
      var k :| 0 <= k < |tokens| && tokens[k] == s;
      assert SourceOf(tokens[k]) == Some(s);
    }
  }

  /** The sources of a record are exactly those runs of its text that name a source. */
  lemma TerminalIff(raw: string, s: string)
    ensures s in ParseRecord(raw).terminals <==> !NamesNoSource(s) && HasRun(raw, s)
  {
    TerminalsAre(raw);
    var spans: seq<Span>, tokens: seq<string> :|
      AreTokensFrom(raw, 0, spans, tokens) && Selects(SourceOf, tokens, Terminals(Tokens(raw, 0)));
    TokenIffRun(raw, spans, tokens, s);
    SelectedIff(tokens, Terminals(Tokens(raw, 0)), s);
  }

  /** `t` is what stands between the outer blanks of the target, in lower case and without final dots. */
  ghost predicate IsStemOf(target: string, t: string) {
    exists k: nat, m: nat :: IsInnerPart(target, k, m) && IsCleaned(target[k..m], t)
  }

  /** Only blanks stand around `s[k..m]`, and it neither begins nor ends with one. */
  predicate IsInnerPart(s: string, k: nat, m: nat) {
    && k <= m <= |s| && AllBlank(s[..k]) && AllBlank(s[m..])
    && (k < m ==> !IsSpace(s[k]) && !IsSpace(s[m - 1]))
  }

  /** A target is named by the punycode of its stem, else by the stem, and by nothing if the stem is empty. */
  lemma NormalizeTargetIs(punycode: string -> Option<string>, target: string)
    ensures exists t :: IsStemOf(target, t)
                        && NormalizeTarget(punycode, target)
                           == if t == [] then None else if punycode(t).Some? then punycode(t) else Some(t)
  {
    var k, m := StripShape(target);
    LowerThenStemIsCleaned(Strip(target));
    assert IsInnerPart(target, k, m);
    assert IsStemOf(target, DropDots(Lower(Strip(target))));
  }
}
