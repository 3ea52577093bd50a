/**
 The include/redirect graph of SPF records and its unfolding from a root.

 The unfolding is a tree in which a name that already lies on the path from the root is a leaf.  The
 oracle behind the graph is arbitrary, so the unfolding may be infinite; `Unfold` lists in preorder
 its nodes above a given depth.  Nothing here mentions a counter, a visited set shared between
 siblings, or deduplication: this is the reference the resolver is proved against.
 */
module SpfUnfold {
  import opened Sequences
  import opened SpfRecord

  const SPF_LOOKUP_LIMIT: nat := 10

  /** The name a target stands for (None when it has none) and the record in force for a name. */
  datatype Graph = Graph(nameOf: string -> Option<string>, recordOf: string -> Option<Record>)

  datatype Visit = Repeat(name: string) | NoRecord(name: string) | Expanded(name: string, terminals: seq<string>)

  function Unfold(g: Graph, target: string, path: set<string>, depth: nat): (v: seq<Visit>)
    ensures depth > 0 && g.nameOf(target).Some? ==> v != []
    decreases depth, 0
  {
    if depth == 0 || g.nameOf(target).None? then []
    else
      var name := g.nameOf(target).value;
      if name in path then [Repeat(name)]
      else if g.recordOf(name).None? then [NoRecord(name)]
      else UnfoldRecord(g, name, g.recordOf(name).value, path + {name}, depth - 1)
  }

  function UnfoldRecord(g: Graph, name: string, r: Record, path: set<string>, depth: nat): (v: seq<Visit>)
    ensures v != []
    decreases depth, |Targets(r)| + 2
  {
    [Expanded(name, r.terminals)] + UnfoldAll(g, Targets(r), path, depth)
  }

  function UnfoldAll(g: Graph, targets: seq<string>, path: set<string>, depth: nat): seq<Visit>
    decreases depth, |targets| + 1
  {
    if targets == [] then []
    else
      UnfoldAll(g, targets[..|targets| - 1], path, depth) + Unfold(g, targets[|targets| - 1], path, depth)
  }

  /** The unfolding below a name that is not yet on its path; `path` includes the name. */
  function UnfoldName(g: Graph, name: string, path: set<string>, depth: nat): (v: seq<Visit>)
    ensures v != []
  {
    if g.recordOf(name).None? then [NoRecord(name)]
    else UnfoldRecord(g, name, g.recordOf(name).value, path, depth)
  }

  lemma UnfoldCases(g: Graph, target: string, name: string, path: set<string>, depth: nat)
    requires depth > 0 && g.nameOf(target) == Some(name)
    ensures name in path ==> Unfold(g, target, path, depth) == [Repeat(name)]
    ensures name !in path ==> Unfold(g, target, path, depth) == UnfoldName(g, name, path + {name}, depth - 1)
  {
  }

  function SourcesOf(v: Visit): seq<string> {
    if v.Expanded? then v.terminals else []
  }

  function QueriesOf(v: Visit): seq<string> {
    if v.Repeat? then [] else [v.name]
  }

  /** The terminals of a list of visits, in order, repetitions included. */
  function Sources(v: seq<Visit>): seq<string> {
    if v == [] then [] else Sources(v[..|v| - 1]) + SourcesOf(v[|v| - 1])
  }

  /** The TXT queries a list of visits costs: one for each node that is not a repetition. */
  function Queries(v: seq<Visit>): seq<string> {
    if v == [] then [] else Queries(v[..|v| - 1]) + QueriesOf(v[|v| - 1])
  }

  lemma SourcesSnoc(v: seq<Visit>, x: Visit)
    ensures Sources(v + [x]) == Sources(v) + SourcesOf(x)
    ensures Queries(v + [x]) == Queries(v) + QueriesOf(x)
  {
    assert (v + [x])[..|v|] == v;
  }

  lemma {:induction false} SourcesConcat(a: seq<Visit>, b: seq<Visit>)
    ensures Sources(a + b) == Sources(a) + Sources(b)
    ensures Queries(a + b) == Queries(a) + Queries(b)
    decreases |b|
  {
    if b == [] {
      assert a + b == a;
    } else {
      var front, last := b[..|b| - 1], b[|b| - 1];
      SourcesConcat(a, front);
      SourcesSnoc(a + front, last);
      ConcatFrontLast(a, b);
      ConcatAssoc(Sources(a), Sources(front), SourcesOf(last));
      ConcatAssoc(Queries(a), Queries(front), QueriesOf(last));
    }
  }

  lemma {:induction false} QueriesBound(v: seq<Visit>)
    ensures |Queries(v)| <= |v|
  {
    if v != [] {
      QueriesBound(v[..|v| - 1]);
    }
  }

  /** What the resolver has accumulated inside one invocation; `queried` lists its TXT queries so far. */
  datatype Progress = Progress(sources: seq<string>, count: nat, exceeds: bool, queried: seq<string>)

  /**
   What one invocation owes its caller.  `nodes` is how many nodes the budget allows it to see, one more than
   the edges not yet paid for; `v` is the list of nodes the invocation stands for.
   */
  ghost predicate Reflects(p: Progress, v: seq<Visit>, nodes: nat) {
    var seen := Cut(v, nodes);
    && v != []
    && FirstOccurrences(p.sources) == FirstOccurrences(Sources(seen))
    && p.queried == Queries(seen)
    && p.count + nodes == SPF_LOOKUP_LIMIT + |seen|
    && (p.exceeds <==> |v| > nodes)
  }

  /** What a budget shows of two lists in a row, when the first one fits. */
  lemma SeenAppend(v: seq<Visit>, u: seq<Visit>, nodes: nat)
    requires |v| <= nodes
    ensures Cut(v, nodes) == v && |Cut(v + u, nodes)| == |v| + |Cut(u, nodes - |v|)|
    ensures Sources(Cut(v + u, nodes)) == Sources(v) + Sources(Cut(u, nodes - |v|))
    ensures Queries(Cut(v + u, nodes)) == Queries(v) + Queries(Cut(u, nodes - |v|))
  {
    CutAppend(v, u, nodes);
    SourcesConcat(v, Cut(u, nodes - |v|));
  }

  /** How many nodes an invocation leaves to the next one. */
  lemma NodesLeft(p: Progress, v: seq<Visit>, nodes: nat)
    requires !p.exceeds && Reflects(p, v, nodes)
    ensures |v| <= nodes && SPF_LOOKUP_LIMIT - p.count == nodes - |v|
  {
  }

  /** Following one more target: its own summary, for the nodes that are left, is appended. */
  lemma SummaryAppend(p: Progress, sub: Progress, v: seq<Visit>, u: seq<Visit>, nodes: nat, rest: nat)
    requires !p.exceeds && Reflects(p, v, nodes) && nodes == |v| + rest
    requires Reflects(sub, u, rest)
    ensures Reflects(Progress(p.sources + sub.sources, sub.count, sub.exceeds, p.queried + sub.queried), v + u, nodes)
  {
    SeenAppend(v, u, nodes);
    DedupParts(p.sources, Sources(v), sub.sources, Sources(Cut(u, rest)));
  }

  /** Once the budget is spent, any further node only confirms that the limit is exceeded. */
  lemma SummaryStop(p: Progress, v: seq<Visit>, u: seq<Visit>, nodes: nat)
    requires Reflects(p, v, nodes)
    requires p.exceeds || (p.count == SPF_LOOKUP_LIMIT && u != [])
    ensures Reflects(p.(exceeds := true), v + u, nodes)
  {
    CutStop(v, u, nodes);
  }

  lemma CutStop(v: seq<Visit>, u: seq<Visit>, nodes: nat)
    requires |v| >= nodes
    ensures Cut(v + u, nodes) == Cut(v, nodes)
  {
  }

  lemma UnfoldAllSnoc(g: Graph, targets: seq<string>, t: string, path: set<string>, depth: nat)
    ensures UnfoldAll(g, targets + [t], path, depth)
         == UnfoldAll(g, targets, path, depth) + Unfold(g, t, path, depth)
  {
    assert (targets + [t])[..|targets|] == targets;
  }

  lemma {:induction false} UnfoldAllConcat(g: Graph, a: seq<string>, b: seq<string>, path: set<string>, depth: nat)
    ensures UnfoldAll(g, a + b, path, depth) == UnfoldAll(g, a, path, depth) + UnfoldAll(g, b, path, depth)
    decreases |b|
  {
    if b == [] {
      assert a + b == a;
    } else {
      var front, t := b[..|b| - 1], b[|b| - 1];
      UnfoldAllConcat(g, a, front, path, depth);
      UnfoldAllSnoc(g, a + front, t, path, depth);
      ConcatFrontLast(a, b);
      ConcatAssoc(UnfoldAll(g, a, path, depth), UnfoldAll(g, front, path, depth), Unfold(g, t, path, depth));
    }
  }

  /** Unfolding one more of the targets after those already unfolded. */
  lemma UnfoldNext(g: Graph, root: seq<Visit>, targets: seq<string>, k: nat, path: set<string>, depth: nat)
    requires k < |targets|
    ensures root + UnfoldAll(g, targets[..k + 1], path, depth)
         == root + UnfoldAll(g, targets[..k], path, depth) + Unfold(g, targets[k], path, depth)
  {
    assert targets[..k + 1] == targets[..k] + [targets[k]];
    UnfoldAllSnoc(g, targets[..k], targets[k], path, depth);
  }

  lemma UnfoldRest(g: Graph, root: seq<Visit>, targets: seq<string>, k: nat, path: set<string>, depth: nat)
    requires k <= |targets|
    ensures root + UnfoldAll(g, targets, path, depth)
         == root + UnfoldAll(g, targets[..k], path, depth) + UnfoldAll(g, targets[k..], path, depth)
  {
    assert targets == targets[..k] + targets[k..];
    UnfoldAllConcat(g, targets[..k], targets[k..], path, depth);
  }

  lemma UnfoldOne(g: Graph, target: Option<string>, path: set<string>, depth: nat)
    requires target.Some?
    ensures UnfoldAll(g, Optional(target), path, depth) == Unfold(g, target.value, path, depth)
  {
    UnfoldAllSnoc(g, [], target.value, path, depth);
    assert [] + [target.value] == Optional(target);
    assert UnfoldAll(g, [], path, depth) == [];
  }

  lemma UnfoldTargets(g: Graph, root: seq<Visit>, record: Record, path: set<string>, depth: nat)
    ensures root + UnfoldAll(g, Targets(record), path, depth)
         == root + UnfoldAll(g, record.includes, path, depth) + UnfoldAll(g, Optional(record.redirect), path, depth)
  {
    UnfoldAllConcat(g, record.includes, Optional(record.redirect), path, depth);
  }

  lemma LoneVisit(v: Visit)
    ensures Sources([v]) == SourcesOf(v) && Queries([v]) == QueriesOf(v)
  {
    assert [v][..0] == [];
  }

  /** A name that repeats on its path stands for one node. */
  lemma RepeatReflects(g: Graph, target: string, name: string, path: set<string>, depth: nat, start: nat, nodes: nat,
                       v: seq<Visit>)
    requires depth > 0 && g.nameOf(target) == Some(name) && name in path && v == Unfold(g, target, path, depth)
    requires start <= SPF_LOOKUP_LIMIT && start + nodes == SPF_LOOKUP_LIMIT + 1
    ensures Reflects(Progress([], start, false, []), v, nodes)
  {
    UnfoldCases(g, target, name, path, depth);
    SummaryOfLeaf(Repeat(name), start, nodes);
  }

  /** A loop left early: the targets not reached do not change what has been accumulated. */
  lemma StopEarly(p: Progress, seen: seq<Visit>, rest: seq<Visit>, nodes: nat)
    requires Reflects(p, seen, nodes)
    requires p.exceeds || rest == []
    ensures Reflects(p, seen + rest, nodes)
  {
    if rest == [] {
      assert seen + rest == seen;
    } else {
      SummaryStop(p, seen, rest, nodes);
    }
  }

  /** Deduplicating what has been accumulated leaves the summary in force. */
  lemma DedupKeepsSummary(p: Progress, seen: seq<Visit>, nodes: nat)
    requires Reflects(p, seen, nodes)
    ensures Reflects(p.(sources := FirstOccurrences(p.sources)), seen, nodes)
  {
    DedupIdempotent(p.sources);
  }

  lemma SummaryOfLeaf(v: Visit, start: nat, nodes: nat)
    requires start <= SPF_LOOKUP_LIMIT && start + nodes == SPF_LOOKUP_LIMIT + 1 && !v.Expanded?
    ensures Reflects(Progress([], start, false, QueriesOf(v)), [v], nodes)
  {
    LoneVisit(v);
  }

  lemma SummaryOfRoot(name: string, terminals: seq<string>, start: nat, nodes: nat)
    requires start <= SPF_LOOKUP_LIMIT && start + nodes == SPF_LOOKUP_LIMIT + 1
    ensures Reflects(Progress(terminals, start, false, [name]), [Expanded(name, terminals)], nodes)
  {
    LoneVisit(Expanded(name, terminals));
  }
}
