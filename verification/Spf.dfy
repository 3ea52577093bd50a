/**
 The recursive SPF resolver (src/email_intel/spf_resolver.py, `resolve_spf`).

 `ResolveSpf` is the code: a recursion that carries a path-local visited set and a lookup counter
 threaded through siblings, and deduplicates at every level.  It is proved to see exactly the first
 eleven nodes of the unfolding of module SpfUnfold.
 */
module Spf {
  import opened Sequences
  import opened SpfRecord
  import opened SpfUnfold
  import opened SpfReach
  import opened SpfText

  /** What a TXT lookup may do: raise, find nothing, or answer. */
  datatype TxtAnswer = Raised | NoAnswer | Answer(texts: seq<string>)

  /** The libraries the resolver calls, as arbitrary functions; None stands for an exception. */
  datatype World = World(normalizeDomain: string -> Option<string>,
                         toPunycode: string -> Option<string>,
                         resolveTxt: string -> TxtAnswer)

  datatype Resolution = Resolution(sources: seq<string>, lookupCount: nat, exceedsLimit: bool)

  /** The name a target stands for; None when both normalisations raise. */
  function NameOf(w: World, target: string): Option<string> {
    if w.normalizeDomain(target).Some? then w.normalizeDomain(target)
    else NormalizeTarget(w.toPunycode, target)
  }

  /** The strict normalisation comes first; without it a target is named after its stem, if there is one. */
  lemma NameOfIs(w: World, target: string)
    ensures w.normalizeDomain(target).Some? ==> NameOf(w, target) == w.normalizeDomain(target)
    ensures w.normalizeDomain(target).None? ==>
              exists t :: IsStemOf(target, t)
                          && NameOf(w, target)
                             == if t == [] then None else if w.toPunycode(t).Some? then w.toPunycode(t) else Some(t)
  {
    NormalizeTargetIs(w.toPunycode, target);
  }

  function SpfTexts(texts: seq<string>): seq<string> {
    if texts == [] then []
    else if IsSpfRecord(texts[0]) then [texts[0]] + SpfTexts(texts[1..])
    else SpfTexts(texts[1..])
  }

  /** The first SPF text of an answer; an error, an empty answer and no SPF text are all the same. */
  function PickRecord(answer: TxtAnswer): Option<string> {
    if answer.Answer? && SpfTexts(answer.texts) != [] then Some(SpfTexts(answer.texts)[0]) else None
  }

  /** `raw` is the first of the texts that is an SPF record. */
  predicate IsFirstSpf(texts: seq<string>, raw: string) {
    exists i :: 0 <= i < |texts| && texts[i] == raw && SaysSpf(raw) && forall j :: 0 <= j < i ==> !SaysSpf(texts[j])
  }

  lemma {:induction false} SpfTextsIff(texts: seq<string>, raw: string)
    ensures SpfTexts(texts) != [] && SpfTexts(texts)[0] == raw <==> IsFirstSpf(texts, raw)
  {
    if texts != [] {
      IsSpfRecordIff(texts[0]);
      SpfTextsIff(texts[1..], raw);
      if IsSpfRecord(texts[0]) {
        assert IsFirstSpf(texts, raw) <==> texts[0] == raw;
      } else {
        FirstSpfCons(texts, raw);
      }
    }
  }

  lemma FirstSpfCons(texts: seq<string>, raw: string)
    requires texts != [] && !SaysSpf(texts[0])
    ensures IsFirstSpf(texts, raw) <==> IsFirstSpf(texts[1..], raw)
  {
    var rest := texts[1..];
    assert forall j :: 0 <= j < |rest| ==> rest[j] == texts[j + 1];
    if i :| 0 <= i < |texts| && texts[i] == raw && SaysSpf(raw) && forall j :: 0 <= j < i ==> !SaysSpf(texts[j]) {
      assert i > 0 && rest[i - 1] == raw;
    }
    if i :| 0 <= i < |rest| && rest[i] == raw && SaysSpf(raw) && forall j :: 0 <= j < i ==> !SaysSpf(rest[j]) {
      assert texts[i + 1] == raw;
      assert forall j :: 0 <= j < i + 1 ==> !SaysSpf(texts[j]) by {
        assert forall j :: 0 < j < i + 1 ==> texts[j] == rest[j - 1];
      }
    }
  }

  lemma PickRecordIff(answer: TxtAnswer, raw: string)
    ensures PickRecord(answer) == Some(raw) <==> answer.Answer? && IsFirstSpf(answer.texts, raw)
  {
    if answer.Answer? {
      SpfTextsIff(answer.texts, raw);
    }
  }

  /** What the recursion asks of the world: what a target is called, its SPF text, and what that text says. */
  datatype Resolver = Resolver(nameOf: string -> Option<string>, spfText: string -> Option<string>,
                               recordOf: string -> Option<Record>)

  function ResolverOf(w: World): Resolver {
    Resolver(t => NameOf(w, t), n => PickRecord(w.resolveTxt(n)), n => RecordOf(w, n))
  }

  function RecordOf(w: World, name: string): Option<Record> {
    var raw := PickRecord(w.resolveTxt(name));
    if raw.None? then None else Some(ParseRecord(raw.value))
  }

  /** The graph a resolver presents. */
  ghost function GraphOf(r: Resolver): Graph {
    Graph(r.nameOf, r.recordOf)
  }

  /** The record of a name is what its SPF text parses to. */
  ghost predicate ReadsAt(r: Resolver, n: string) {
    r.recordOf(n) == if r.spfText(n).None? then None else Some(ParseRecord(r.spfText(n).value))
  }

  /** Records are parsed texts, and extraction leaves only targets that have a name. */
  ghost predicate IsFaithful(r: Resolver) {
    && (forall n :: ReadsAt(r, n))
    && forall t :: IsCleanTarget(t) ==> r.nameOf(t).Some?
  }

  method Dedup(sources: seq<string>) returns (deduped: seq<string>)
    ensures deduped == FirstOccurrences(sources)
  {
    var seen: set<string> := {};
    deduped := [];
    for k := 0 to |sources|
      invariant forall x :: x in seen <==> x in deduped
      invariant deduped == FirstOccurrences(sources[..k])
    {
      FirstOccurrencesStep(sources, k);
      if sources[k] !in seen {
        seen := seen + {sources[k]};
        deduped := deduped + [sources[k]];
      }
    }
    assert sources[..|sources|] == sources;
  }

  lemma NoTextNoRecord(r: Resolver, name: string)
    requires IsFaithful(r)
    ensures r.recordOf(name).None? <==> r.spfText(name).None?
  {
    assert ReadsAt(r, name);
  }

  method ReadRecord(raw: string) returns (record: Record)
    ensures record == ParseRecord(raw)
  {
    var includes, redirect := ExtractIncludesAndRedirect(raw);
    var terminals := CollectTerminals(raw);
    record := Record(terminals, includes, redirect);
  }

  /**
   `resolve_spf` with its internal arguments.  `p.queried` lists the TXT queries made, in order; `nodes` is how
   many nodes the counter leaves to this call, and `v` is the reference unfolding, taken at any `depth` beyond
   `nodes`.
   */
  method ResolveSpf(r: Resolver, domain: string, visited: set<string>, lookups: nat,
                    ghost nodes: nat, ghost depth: nat, ghost v: seq<Visit>) returns (p: Progress)
    requires IsFaithful(r)
    requires lookups <= SPF_LOOKUP_LIMIT ==> lookups + nodes == SPF_LOOKUP_LIMIT + 1 && depth > nodes
    requires v == Unfold(GraphOf(r), domain, visited, depth)
    ensures r.nameOf(domain).None? ==> p == Progress([], 0, false, [])
    ensures r.nameOf(domain).Some? && lookups > SPF_LOOKUP_LIMIT ==>
              p == Progress([], lookups, r.nameOf(domain).value !in visited, [])
    ensures r.nameOf(domain).Some? && lookups <= SPF_LOOKUP_LIMIT ==>
              Reflects(p, v, nodes) && p.sources == FirstOccurrences(p.sources)
    decreases nodes, 1
  {
    var named := r.nameOf(domain);
    if named.None? {
      return Progress([], 0, false, []);
    }
    var name := named.value;
    if name in visited {
      if lookups <= SPF_LOOKUP_LIMIT {
        RepeatReflects(GraphOf(r), domain, name, visited, depth, lookups, nodes, v);
      }
      return Progress([], lookups, false, []);
    }
    if lookups > SPF_LOOKUP_LIMIT {
      return Progress([], lookups, true, []);
    }
    UnfoldCases(GraphOf(r), domain, name, visited, depth);
    p := Query(r, name, visited + {name}, lookups, nodes, depth - 1, v);
  }

  /** The TXT query of one name and what follows from its answer. */
  method Query(r: Resolver, name: string, path: set<string>, lookups: nat,
               ghost nodes: nat, ghost depth: nat, ghost v: seq<Visit>) returns (p: Progress)
    requires IsFaithful(r) && v == UnfoldName(GraphOf(r), name, path, depth)
    requires lookups <= SPF_LOOKUP_LIMIT && lookups + nodes == SPF_LOOKUP_LIMIT + 1 && depth >= nodes
    ensures Reflects(p, v, nodes)
    ensures p.sources == FirstOccurrences(p.sources)
    decreases nodes, 0, 4
  {
    var raw := r.spfText(name);
    NoTextNoRecord(r, name);
    if raw.None? {
      SummaryOfLeaf(NoRecord(name), lookups, nodes);
      return Progress([], lookups, false, [name]);
    }
    p := ExpandText(r, name, raw.value, path, lookups, nodes, depth, v);
  }

  /** Reading the record, expanding it, and deduplicating the sources of this level. */
  method ExpandText(r: Resolver, name: string, raw: string, path: set<string>, lookups: nat,
                    ghost nodes: nat, ghost depth: nat, ghost v: seq<Visit>) returns (p: Progress)
    requires IsFaithful(r)
    requires lookups <= SPF_LOOKUP_LIMIT && lookups + nodes == SPF_LOOKUP_LIMIT + 1 && depth >= nodes
    requires r.spfText(name) == Some(raw) && r.recordOf(name).Some?
    requires v == UnfoldRecord(GraphOf(r), name, r.recordOf(name).value, path, depth)
    ensures Reflects(p, v, nodes)
    ensures p.sources == FirstOccurrences(p.sources)
    decreases nodes, 0, 3
  {
    assert ReadsAt(r, name);
    var record := ReadRecord(raw);
    ExtractedTargetsAreClean(raw);
    p := ExpandRecord(r, name, record, path, lookups, nodes, depth, v);
    DedupKeepsSummary(p, v, nodes);
    DedupIdempotent(p.sources);
    CountStaysInBudget(p, v, nodes);
    var deduped := Dedup(p.sources);
    p := Progress(deduped, p.count, p.exceeds || p.count > SPF_LOOKUP_LIMIT, p.queried);
  }

  /** The second half of the final flag never decides. */
  lemma CountStaysInBudget(p: Progress, v: seq<Visit>, nodes: nat)
    requires Reflects(p, v, nodes)
    ensures p.count <= SPF_LOOKUP_LIMIT
  {
  }

  /** The part of `resolve_spf` after a record was read: own terminals, includes, redirect. */
  method ExpandRecord(r: Resolver, name: string, record: Record, path: set<string>, lookups: nat,
                      ghost nodes: nat, ghost depth: nat, ghost v: seq<Visit>) returns (p: Progress)
    requires IsFaithful(r) && v == UnfoldRecord(GraphOf(r), name, record, path, depth)
    requires lookups <= SPF_LOOKUP_LIMIT && lookups + nodes == SPF_LOOKUP_LIMIT + 1 && depth >= nodes
    requires forall t :: t in Targets(record) ==> IsCleanTarget(t)
    ensures Reflects(p, v, nodes)
    decreases nodes, 0, 2
  {
    ghost var root := [Expanded(name, record.terminals)];
    SummaryOfRoot(name, record.terminals, lookups, nodes);
    p := FollowIncludes(r, record.includes, path, Progress(record.terminals, lookups, false, [name]), root, nodes,
                        depth);
    ghost var seen := root + UnfoldAll(GraphOf(r), record.includes, path, depth);
    p := FollowRedirect(r, record.redirect, path, p, seen, nodes, depth);
    UnfoldTargets(GraphOf(r), root, record, path, depth);
  }

  /** The include loop, left as soon as the budget is found to be spent. */
  method FollowIncludes(r: Resolver, includes: seq<string>, path: set<string>, p0: Progress,
                        ghost root: seq<Visit>, ghost nodes: nat, ghost depth: nat) returns (p: Progress)
    requires IsFaithful(r) && nodes > 0 && depth >= nodes
    requires forall t :: t in includes ==> r.nameOf(t).Some?
    requires !p0.exceeds && Reflects(p0, root, nodes)
    ensures Reflects(p, root + UnfoldAll(GraphOf(r), includes, path, depth), nodes)
    decreases nodes, 0, 1
  {
    ghost var g := GraphOf(r);
    p := p0;
    ghost var seen := root;
    var k := 0;
    while k < |includes| && !p.exceeds
      invariant k <= |includes|
      invariant seen == root + UnfoldAll(g, includes[..k], path, depth)
      invariant Reflects(p, seen, nodes)
    {
      p := Follow(r, includes[k], path, p, seen, nodes, depth);
      UnfoldNext(g, root, includes, k, path, depth);
      seen := seen + Unfold(g, includes[k], path, depth);
      k := k + 1;
    }
    UnfoldRest(g, root, includes, k, path, depth);
    StopEarly(p, seen, UnfoldAll(g, includes[k..], path, depth), nodes);
  }

  /** The redirect, followed only while the budget is not known to be spent. */
  method FollowRedirect(r: Resolver, redirect: Option<string>, path: set<string>, p0: Progress,
                        ghost seen: seq<Visit>, ghost nodes: nat, ghost depth: nat) returns (p: Progress)
    requires IsFaithful(r) && nodes > 0 && depth >= nodes
    requires redirect.Some? ==> r.nameOf(redirect.value).Some?
    requires Reflects(p0, seen, nodes)
    ensures Reflects(p, seen + UnfoldAll(GraphOf(r), Optional(redirect), path, depth), nodes)
    decreases nodes, 0, 1
  {
    ghost var rest := UnfoldAll(GraphOf(r), Optional(redirect), path, depth);
    if redirect.Some? && !p0.exceeds {
      UnfoldOne(GraphOf(r), redirect, path, depth);
      p := Follow(r, redirect.value, path, p0, seen, nodes, depth);
    } else {
      p := p0;
      StopEarly(p, seen, rest, nodes);
    }
  }

  /** One include or redirect edge: charge it, or report that the budget is spent. */
  method Follow(r: Resolver, target: string, path: set<string>, p: Progress,
                ghost seen: seq<Visit>, ghost nodes: nat, ghost depth: nat) returns (q: Progress)
    requires IsFaithful(r) && nodes > 0 && depth >= nodes
    requires r.nameOf(target).Some? && !p.exceeds && Reflects(p, seen, nodes)
    ensures Reflects(q, seen + Unfold(GraphOf(r), target, path, depth), nodes)
    decreases nodes, 0, 0
  {
    ghost var next := Unfold(GraphOf(r), target, path, depth);
    NodesLeft(p, seen, nodes);
    if p.count >= SPF_LOOKUP_LIMIT {
      SummaryStop(p, seen, next, nodes);
      q := p.(exceeds := true);
    } else {
      ghost var rest := nodes - |seen|;
      var sub := ResolveSpf(r, target, path, p.count + 1, rest, depth, next);
      SummaryAppend(p, sub, seen, next, nodes, rest);
      q := Progress(p.sources + sub.sources, sub.count, sub.exceeds, p.queried + sub.queried);
    }
  }

  /** Whatever the libraries do, extracted targets have a name: the counter is never reset below the root. */
  lemma WorldIsFaithful(w: World)
    ensures IsFaithful(ResolverOf(w))
  {
    var r := ResolverOf(w);
    forall n ensures ReadsAt(r, n) {
    }
    forall t | IsCleanTarget(t) ensures NameOf(w, t).Some? {
      CleanTargetsNormalize(w.toPunycode, t);
    }
  }

  /** A name that is reached has an SPF record, and `s` is a run of characters of its text. */
  ghost predicate IsWrittenAt(w: World, g: Graph, root: string, n: string, s: string) {
    Reachable(g, root, n) && w.resolveTxt(n).Answer?
    && exists raw :: IsFirstSpf(w.resolveTxt(n).texts, raw) && HasRun(raw, s)
  }

  lemma HasTerminalIff(w: World, root: string, n: string, s: string)
    ensures HasTerminal(GraphOf(ResolverOf(w)), root, n, s)
       <==> IsWrittenAt(w, GraphOf(ResolverOf(w)), root, n, s) && !NamesNoSource(s)
  {
    var g, picked := GraphOf(ResolverOf(w)), PickRecord(w.resolveTxt(n));
    if picked.Some? {
      PickRecordIff(w.resolveTxt(n), picked.value);
      TerminalIff(picked.value, s);
    }
    if w.resolveTxt(n).Answer? {
      if raw :| IsFirstSpf(w.resolveTxt(n).texts, raw) && HasRun(raw, s) {
        PickRecordIff(w.resolveTxt(n), raw);
      }
    }
  }

  lemma SourcesAreWritten(w: World, root: string, sources: seq<string>)
    requires SourcesSound(GraphOf(ResolverOf(w)), root, sources)
    ensures forall s :: s in sources ==>
              !NamesNoSource(s) && exists n :: IsWrittenAt(w, GraphOf(ResolverOf(w)), root, n, s)
  {
    forall s | s in sources
      ensures !NamesNoSource(s) && exists n :: IsWrittenAt(w, GraphOf(ResolverOf(w)), root, n, s)
    {
      var n :| HasTerminal(GraphOf(ResolverOf(w)), root, n, s);
      HasTerminalIff(w, root, n, s);
    }
  }

  lemma WrittenAreSources(w: World, root: string, sources: seq<string>)
    requires SourcesComplete(GraphOf(ResolverOf(w)), root, sources)
    ensures forall n, s :: IsWrittenAt(w, GraphOf(ResolverOf(w)), root, n, s) && !NamesNoSource(s) ==> s in sources
  {
    forall n, s | IsWrittenAt(w, GraphOf(ResolverOf(w)), root, n, s) && !NamesNoSource(s) ensures s in sources {
      HasTerminalIff(w, root, n, s);
    }
  }

  /**
   A top-level call of `resolve_spf`.  For every depth from twelve on, the call sees the first eleven
   nodes of the unfolding taken at that depth; hence its counter is the number of edges capped at ten,
   the flag says whether there are more than ten, and nothing depends on the depth. Without the flag the
   unfolding is finite, and the call has seen all of it.
   */
  method Resolve(w: World, domain: string) returns (res: Resolution, queried: seq<string>)
    ensures NameOf(w, domain).None? ==> res == Resolution([], 0, false) && queried == []
    ensures NameOf(w, domain).Some? ==>
              var g, root := GraphOf(ResolverOf(w)), NameOf(w, domain).value;
              && NoDuplicates(res.sources)
              && SourcesSound(g, root, res.sources)
              && (!res.exceedsLimit ==> SourcesComplete(g, root, res.sources))
              && (forall depth :: depth >= SPF_LOOKUP_LIMIT + 2 ==>
                    ExactResult(Unfold(g, domain, {}, depth), res, queried))
              && (!res.exceedsLimit ==> IsWholeTree(g, domain, SPF_LOOKUP_LIMIT + 2))
              && (forall s :: s in res.sources ==> !NamesNoSource(s) && exists n :: IsWrittenAt(w, g, root, n, s))
              && (!res.exceedsLimit ==>
                    forall n, s :: IsWrittenAt(w, g, root, n, s) && !NamesNoSource(s) ==> s in res.sources)
  {
    var r := ResolverOf(w);
    WorldIsFaithful(w);
    ghost var v := Unfold(GraphOf(r), domain, {}, SPF_LOOKUP_LIMIT + 2);
    var p := ResolveSpf(r, domain, {}, 0, SPF_LOOKUP_LIMIT + 1, SPF_LOOKUP_LIMIT + 2, v);
    res, queried := Resolution(p.sources, p.count, p.exceeds), p.queried;
    if NameOf(w, domain).Some? {
      ghost var g, root := GraphOf(r), NameOf(w, domain).value;
      FirstOccurrencesElements(p.sources);
      SummaryIsSound(g, domain, SPF_LOOKUP_LIMIT + 2, p);
      SourcesAreWritten(w, root, p.sources);
      if !p.exceeds {
        SummaryIsComplete(g, domain, SPF_LOOKUP_LIMIT + 2, p);
        SmallTreeIsWhole(g, domain, SPF_LOOKUP_LIMIT + 2);
        WrittenAreSources(w, root, p.sources);
      }
      forall depth: nat | depth >= SPF_LOOKUP_LIMIT + 2
        ensures ExactResult(Unfold(g, domain, {}, depth), res, queried)
      {
        UnfoldStable(g, domain, {}, SPF_LOOKUP_LIMIT + 2, depth);
        SummaryIsExact(Unfold(g, domain, {}, SPF_LOOKUP_LIMIT + 2), Unfold(g, domain, {}, depth), p);
      }
    }
  }

  /** The whole result as a function of the unfolding: edges are nodes other than the root. */
  ghost predicate ExactResult(v: seq<Visit>, res: Resolution, queried: seq<string>) {
    var edges := |v| - 1;
    && v != []
    && res.lookupCount == (if edges <= SPF_LOOKUP_LIMIT then edges else SPF_LOOKUP_LIMIT)
    && (res.exceedsLimit <==> edges > SPF_LOOKUP_LIMIT)
    && res.sources == FirstOccurrences(Sources(Cut(v, SPF_LOOKUP_LIMIT + 1)))
    && queried == Queries(Cut(v, SPF_LOOKUP_LIMIT + 1))
    && |queried| <= res.lookupCount + 1 <= SPF_LOOKUP_LIMIT + 1
  }

  lemma SummaryIsExact(v: seq<Visit>, u: seq<Visit>, p: Progress)
    requires Reflects(p, v, SPF_LOOKUP_LIMIT + 1) && p.sources == FirstOccurrences(p.sources)
    requires Cut(v, SPF_LOOKUP_LIMIT + 2) == Cut(u, SPF_LOOKUP_LIMIT + 2)
    ensures ExactResult(u, Resolution(p.sources, p.count, p.exceeds), p.queried)
  {
    CutShorter(v, u, SPF_LOOKUP_LIMIT + 1, SPF_LOOKUP_LIMIT + 2);
    CutLengths(v, u, SPF_LOOKUP_LIMIT + 1);
    QueriesBound(Cut(v, SPF_LOOKUP_LIMIT + 1));
  }
}
