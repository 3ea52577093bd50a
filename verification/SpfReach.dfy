/**
 What the unfolding of an SPF graph means: it only shows reachable names, it shows every reachable
 name when it is finite, and its first nodes do not depend on the depth at which it is taken.
 */
module SpfReach {
  import opened Sequences
  import opened SpfRecord
  import opened SpfUnfold

  ghost predicate Edge(g: Graph, a: string, b: string) {
    g.recordOf(a).Some? && exists t :: t in Targets(g.recordOf(a).value) && g.nameOf(t) == Some(b)
  }

  ghost predicate IsPath(g: Graph, p: seq<string>) {
    p != [] && forall i :: 0 <= i < |p| - 1 ==> Edge(g, p[i], p[i + 1])
  }

  ghost predicate Connects(g: Graph, p: seq<string>, a: string, b: string) {
    IsPath(g, p) && p[0] == a && p[|p| - 1] == b
  }

  /** `b` is reached from `a` by following include and redirect. */
  ghost predicate Reachable(g: Graph, a: string, b: string) {
    exists p :: Connects(g, p, a, b)
  }

  // ---------------------------------------------------------------------------
  // Soundness: every node of the unfolding is reachable and shows its own record
  // ---------------------------------------------------------------------------

  ghost predicate SoundVisit(g: Graph, root: string, v: Visit) {
    && Reachable(g, root, v.name)
    && (v.Expanded? ==> g.recordOf(v.name).Some? && v.terminals == g.recordOf(v.name).value.terminals)
  }

  lemma ReachableStep(g: Graph, a: string, b: string, c: string)
    requires Edge(g, a, b) && Reachable(g, b, c)
    ensures Reachable(g, a, c)
  {
    var p :| Connects(g, p, b, c);
    assert Connects(g, [a] + p, a, c);
  }

  lemma ReachableSelf(g: Graph, a: string)
    ensures Reachable(g, a, a)
  {
    assert Connects(g, [a], a, a);
  }

  lemma {:induction false} UnfoldSound(g: Graph, target: string, path: set<string>, depth: nat, i: nat)
    requires i < |Unfold(g, target, path, depth)|
    ensures g.nameOf(target).Some?
    ensures SoundVisit(g, g.nameOf(target).value, Unfold(g, target, path, depth)[i])
    decreases depth, 0
  {
    var name := g.nameOf(target).value;
    ReachableSelf(g, name);
    if i > 0 {
      UnfoldAllSound(g, name, Targets(g.recordOf(name).value), path + {name}, depth - 1, i - 1);
    }
  }

  lemma {:induction false} UnfoldAllSound(g: Graph, a: string, targets: seq<string>, path: set<string>, depth: nat,
                                         i: nat)
    requires g.recordOf(a).Some? && forall t :: t in targets ==> t in Targets(g.recordOf(a).value)
    requires i < |UnfoldAll(g, targets, path, depth)|
    ensures SoundVisit(g, a, UnfoldAll(g, targets, path, depth)[i])
    decreases depth, |targets| + 1
  {
    var front, t := targets[..|targets| - 1], targets[|targets| - 1];
    var before := UnfoldAll(g, front, path, depth);
    if i < |before| {
      UnfoldAllSound(g, a, front, path, depth, i);
    } else {
      UnfoldSound(g, t, path, depth, i - |before|);
      assert Edge(g, a, g.nameOf(t).value);
      ReachableStep(g, a, g.nameOf(t).value, UnfoldAll(g, targets, path, depth)[i].name);
    }
  }

  lemma {:induction false} SourcesMember(v: seq<Visit>, s: string) returns (i: nat)
    requires s in Sources(v)
    ensures i < |v| && v[i].Expanded? && s in v[i].terminals
  {
    if s in SourcesOf(v[|v| - 1]) {
      i := |v| - 1;
    } else {
      i := SourcesMember(v[..|v| - 1], s);
    }
  }

  lemma {:induction false} SourcesInclude(v: seq<Visit>, i: nat)
    requires i < |v|
    ensures forall s :: s in SourcesOf(v[i]) ==> s in Sources(v)
  {
    if i < |v| - 1 {
      SourcesInclude(v[..|v| - 1], i);
    }
  }

  // ---------------------------------------------------------------------------
  // Completeness: the visited set is local to a path, yet simple paths are enough
  // ---------------------------------------------------------------------------

  /** A path without repetition exists wherever a path exists. */
  lemma SimplePath(g: Graph, p: seq<string>, a: string, b: string) returns (q: seq<string>)
    requires Connects(g, p, a, b)
    ensures Connects(g, q, a, b) && NoDuplicates(q)
    decreases |p|
  {
    if NoDuplicates(p) {
      q := p;
    } else {
      var i, j :| 0 <= i < j < |p| && p[i] == p[j];
      var shorter := p[..i] + p[j..];
      assert Connects(g, shorter, a, b) by {
        forall k | 0 <= k < |shorter| - 1 ensures Edge(g, shorter[k], shorter[k + 1]) {
          assert Edge(g, p[if k < i then k else k - i + j], p[if k < i then k + 1 else k - i + j + 1]);
        }
      }
      q := SimplePath(g, shorter, a, b);
    }
  }

  lemma {:induction false} UnfoldAllContains(g: Graph, targets: seq<string>, k: nat, path: set<string>, depth: nat)
    requires k < |targets|
    ensures |Unfold(g, targets[k], path, depth)| <= |UnfoldAll(g, targets, path, depth)|
    ensures forall v :: v in Unfold(g, targets[k], path, depth) ==> v in UnfoldAll(g, targets, path, depth)
  {
    if k < |targets| - 1 {
      UnfoldAllContains(g, targets[..|targets| - 1], k, path, depth);
    }
  }

  ghost predicate FreshPath(g: Graph, target: string, path: set<string>, p: seq<string>) {
    && IsPath(g, p) && NoDuplicates(p) && g.nameOf(target) == Some(p[0])
    && forall x :: x in p ==> x !in path
  }

  /** The first edge of a fresh path, as a target of the record it starts from. */
  lemma FirstEdge(g: Graph, target: string, path: set<string>, p: seq<string>) returns (k: nat)
    requires FreshPath(g, target, path, p) && |p| > 1
    ensures g.recordOf(p[0]).Some? && k < |Targets(g.recordOf(p[0]).value)|
    ensures FreshPath(g, Targets(g.recordOf(p[0]).value)[k], path + {p[0]}, p[1..])
  {
    assert Edge(g, p[0], p[1]);
    var t :| t in Targets(g.recordOf(p[0]).value) && g.nameOf(t) == Some(p[1]);
    k :| 0 <= k < |Targets(g.recordOf(p[0]).value)| && Targets(g.recordOf(p[0]).value)[k] == t;
    var rest := p[1..];
    forall i | 0 <= i < |rest| - 1 ensures Edge(g, rest[i], rest[i + 1]) {
      assert Edge(g, p[i + 1], p[i + 2]);
    }
    forall x | x in rest ensures x !in path + {p[0]} {
      assert x in p;
    }
  }

  /** The end of every fresh path short enough for the depth is expanded. */
  lemma {:induction false} UnfoldComplete(g: Graph, target: string, path: set<string>, depth: nat, p: seq<string>)
    requires FreshPath(g, target, path, p) && |p| <= depth
    requires g.recordOf(p[|p| - 1]).Some?
    ensures Expanded(p[|p| - 1], g.recordOf(p[|p| - 1]).value.terminals) in Unfold(g, target, path, depth)
    decreases |p|
  {
    assert p[0] in p;
    if |p| > 1 {
      var k := FirstEdge(g, target, path, p);
      var targets := Targets(g.recordOf(p[0]).value);
      UnfoldComplete(g, targets[k], path + {p[0]}, depth - 1, p[1..]);
      UnfoldAllContains(g, targets, k, path + {p[0]}, depth - 1);
    }
  }

  /** A fresh path that outruns the depth leaves at least one node at each level. */
  lemma {:induction false} LongPathManyNodes(g: Graph, target: string, path: set<string>, depth: nat, p: seq<string>)
    requires FreshPath(g, target, path, p) && |p| >= depth
    ensures |Unfold(g, target, path, depth)| >= depth
    decreases depth
  {
    if depth > 0 {
      assert p[0] in p;
      if |p| > 1 {
        var k := FirstEdge(g, target, path, p);
        var targets := Targets(g.recordOf(p[0]).value);
        LongPathManyNodes(g, targets[k], path + {p[0]}, depth - 1, p[1..]);
        UnfoldAllContains(g, targets, k, path + {p[0]}, depth - 1);
      }
    }
  }

  // ---------------------------------------------------------------------------
  // Depth: the first `d` nodes are the same from depth `d` on
  // ---------------------------------------------------------------------------

  /** A cut of a concatenation shows the first part, and of the second what is left. */
  lemma CutOfConcat<T>(a: seq<T>, b: seq<T>, n: nat)
    ensures Cut(a + b, n) == if |a| >= n then Cut(a, n) else a + Cut(b, n - |a|)
  {
  }

  lemma CutShorter<T>(a: seq<T>, b: seq<T>, m: nat, n: nat)
    requires m <= n && Cut(a, n) == Cut(b, n)
    ensures Cut(a, m) == Cut(b, m)
  {
    assert Cut(a, m) == Cut(Cut(a, n), m) && Cut(b, m) == Cut(Cut(b, n), m);
  }

  /** Lists that look the same one element further are equally long, or both longer. */
  lemma CutLengths<T>(a: seq<T>, b: seq<T>, n: nat)
    requires Cut(a, n + 1) == Cut(b, n + 1)
    ensures |a| > n <==> |b| > n
    ensures |a| <= n ==> |a| == |b|
    ensures |Cut(a, n)| == if |a| <= n then |a| else n
  {
    assert |Cut(a, n + 1)| == |Cut(b, n + 1)|;
  }

  lemma CutConcat<T>(a1: seq<T>, b1: seq<T>, a2: seq<T>, b2: seq<T>, n: nat)
    requires Cut(a1, n) == Cut(a2, n) && Cut(b1, n) == Cut(b2, n)
    ensures Cut(a1 + b1, n) == Cut(a2 + b2, n)
  {
    CutOfConcat(a1, b1, n);
    CutOfConcat(a2, b2, n);
    assert |Cut(a1, n)| == |Cut(a2, n)|;
    if |a1| < n {
      CutShorter(b1, b2, n - |a1|, n);
    }
  }

  lemma CutCons<T>(x: T, a: seq<T>, b: seq<T>, n: nat)
    requires Cut(a, n) == Cut(b, n)
    ensures Cut([x] + a, n + 1) == Cut([x] + b, n + 1)
  {
    assert forall k :: 0 <= k < |a| && k < n ==> a[k] == Cut(a, n)[k] == Cut(b, n)[k];
  }

  lemma {:induction false} UnfoldStable(g: Graph, target: string, path: set<string>, d: nat, e: nat)
    requires d <= e
    ensures Cut(Unfold(g, target, path, d), d) == Cut(Unfold(g, target, path, e), d)
    decreases d, 0
  {
    if d > 0 && g.nameOf(target).Some? {
      var name := g.nameOf(target).value;
      if name !in path && g.recordOf(name).Some? {
        var r := g.recordOf(name).value;
        UnfoldAllStable(g, Targets(r), path + {name}, d - 1, e - 1);
        CutCons(Expanded(name, r.terminals), UnfoldAll(g, Targets(r), path + {name}, d - 1),
                UnfoldAll(g, Targets(r), path + {name}, e - 1), d - 1);
      }
    }
  }

  lemma {:induction false} UnfoldAllStable(g: Graph, targets: seq<string>, path: set<string>, d: nat, e: nat)
    requires d <= e
    ensures Cut(UnfoldAll(g, targets, path, d), d) == Cut(UnfoldAll(g, targets, path, e), d)
    decreases d, |targets| + 1
  {
    if targets != [] {
      var front, t := targets[..|targets| - 1], targets[|targets| - 1];
      UnfoldAllStable(g, front, path, d, e);
      UnfoldStable(g, t, path, d, e);
      CutConcat(UnfoldAll(g, front, path, d), Unfold(g, t, path, d),
                UnfoldAll(g, front, path, e), Unfold(g, t, path, e), d);
    }
  }

  /** An unfolding with fewer nodes than its depth is the whole tree: going deeper adds nothing. */
  lemma SmallUnfoldingIsWhole(g: Graph, target: string, path: set<string>, d: nat, e: nat)
    requires d <= e && |Unfold(g, target, path, d)| < d
    ensures Unfold(g, target, path, e) == Unfold(g, target, path, d)
  {
    UnfoldStable(g, target, path, d, e);
  }

  // ---------------------------------------------------------------------------
  // From the summary of a top-level call to what it means
  // ---------------------------------------------------------------------------

  /** Nothing lies deeper than `depth`. */
  ghost predicate IsWholeTree(g: Graph, target: string, depth: nat) {
    forall e: nat :: e >= depth ==> Unfold(g, target, {}, e) == Unfold(g, target, {}, depth)
  }

  lemma SmallTreeIsWhole(g: Graph, target: string, depth: nat)
    requires |Unfold(g, target, {}, depth)| < depth
    ensures IsWholeTree(g, target, depth)
  {
    forall e: nat | e >= depth ensures Unfold(g, target, {}, e) == Unfold(g, target, {}, depth) {
      SmallUnfoldingIsWhole(g, target, {}, depth, e);
    }
  }

  /** Every source is a terminal of a reachable record. */
  ghost predicate SourcesSound(g: Graph, root: string, sources: seq<string>) {
    forall s :: s in sources ==> exists n :: HasTerminal(g, root, n, s)
  }

  ghost predicate HasTerminal(g: Graph, root: string, n: string, s: string) {
    Reachable(g, root, n) && g.recordOf(n).Some? && s in g.recordOf(n).value.terminals
  }

  /** Every terminal of a reachable record is a source. */
  ghost predicate SourcesComplete(g: Graph, root: string, sources: seq<string>) {
    forall n, s :: HasTerminal(g, root, n, s) ==> s in sources
  }

  lemma SummaryIsSound(g: Graph, target: string, depth: nat, p: Progress)
    requires g.nameOf(target).Some? && depth > 0
    requires Reflects(p, Unfold(g, target, {}, depth), SPF_LOOKUP_LIMIT + 1)
    ensures SourcesSound(g, g.nameOf(target).value, p.sources)
  {
    var root, v := g.nameOf(target).value, Unfold(g, target, {}, depth);
    var seen := Cut(v, SPF_LOOKUP_LIMIT + 1);
    forall s | s in p.sources ensures exists n :: HasTerminal(g, root, n, s) {
      FirstOccurrencesMember(p.sources, s);
      FirstOccurrencesMember(Sources(seen), s);
      var i := SourcesMember(seen, s);
      assert seen[i] == v[i];
      UnfoldSound(g, target, {}, depth, i);
      assert HasTerminal(g, root, v[i].name, s);
    }
  }

  lemma SummaryIsComplete(g: Graph, target: string, depth: nat, p: Progress)
    requires g.nameOf(target).Some? && depth >= SPF_LOOKUP_LIMIT + 2
    requires Reflects(p, Unfold(g, target, {}, depth), SPF_LOOKUP_LIMIT + 1) && !p.exceeds
    ensures SourcesComplete(g, g.nameOf(target).value, p.sources)
  {
    var root, v := g.nameOf(target).value, Unfold(g, target, {}, depth);
    forall n, s | HasTerminal(g, root, n, s) ensures s in p.sources {
      var path :| Connects(g, path, root, n);
      var q := SimplePath(g, path, root, n);
      assert FreshPath(g, target, {}, q);
      if |q| > depth {
        LongPathManyNodes(g, target, {}, depth, q);
        assert false;
      } else {
        UnfoldComplete(g, target, {}, depth, q);
        var i :| 0 <= i < |v| && v[i] == Expanded(n, g.recordOf(n).value.terminals);
        SourcesInclude(v, i);
        FirstOccurrencesMember(p.sources, s);
        FirstOccurrencesMember(Sources(v), s);
      }
    }
  }
}
