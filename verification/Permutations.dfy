/** Two lists are the same multiset exactly when the items of one can be paired off with those of the other. */
module Permutations {
  import opened Sequences

  /** `p` pairs every position of the first list with one of the second, and each of those once. */
  ghost predicate IsPairing(p: seq<nat>, n: nat) {
    |p| == n && NoDuplicates(p) && forall i :: 0 <= i < n ==> p[i] < n
  }

  ghost predicate PairsEqual<T>(p: seq<nat>, a: seq<T>, b: seq<T>) {
    |a| == |b| && IsPairing(p, |a|) && forall i :: 0 <= i < |a| ==> a[i] == b[p[i]]
  }

  function Without<T>(s: seq<T>, j: nat): (r: seq<T>)
    requires j < |s|
    ensures |r| == |s| - 1
    ensures forall i :: 0 <= i < |r| ==> r[i] == s[if i < j then i else i + 1]
  {
    s[..j] + s[j + 1..]
  }

  lemma WithoutMultiset<T>(s: seq<T>, j: nat)
    requires j < |s|
    ensures multiset(s) == multiset(Without(s, j)) + multiset{s[j]}
  {
    assert s == s[..j] + [s[j]] + s[j + 1..];
  }

  /** Making room for position `j` in a pairing, and giving it to the last item. */
  function Widened(p: seq<nat>, j: nat): seq<nat> {
    seq(|p|, i requires 0 <= i < |p| => if p[i] < j then p[i] else p[i] + 1) + [j]
  }

  /** Taking position `j`, that of the last item, out of a pairing. */
  function Narrowed(p: seq<nat>, j: nat): seq<nat>
    requires p != []
    requires forall i :: 0 <= i < |p| - 1 ==> p[i] != j
  {
    seq(|p| - 1, i requires 0 <= i < |p| - 1 => if p[i] < j then p[i] else p[i] - 1)
  }

  lemma WidenedPairs<T>(p: seq<nat>, a: seq<T>, b: seq<T>, j: nat)
    requires a != [] && j < |b| && b[j] == a[|a| - 1] && PairsEqual(p, a[..|a| - 1], Without(b, j))
    ensures PairsEqual(Widened(p, j), a, b)
  {
    var front, q := a[..|a| - 1], Widened(p, j);
    forall i | 0 <= i < |a| ensures q[i] < |b| && a[i] == b[q[i]] {
      if i < |front| {
        assert front[i] == Without(b, j)[p[i]];
      }
    }
  }

  lemma NarrowedPairs<T>(p: seq<nat>, a: seq<T>, b: seq<T>, j: nat)
    requires a != [] && PairsEqual(p, a, b) && p[|a| - 1] == j
    ensures PairsEqual(Narrowed(p, j), a[..|a| - 1], Without(b, j))
  {
    var q := Narrowed(p, j);
    forall i | 0 <= i < |a| - 1 ensures q[i] < |b| - 1 && a[i] == Without(b, j)[q[i]] {
      assert a[i] == b[p[i]] && p[i] != p[|a| - 1];
    }
  }

  lemma {:induction false} PairingOf<T>(a: seq<T>, b: seq<T>) returns (p: seq<nat>)
    requires multiset(a) == multiset(b)
    ensures PairsEqual(p, a, b)
    decreases |a|
  {
    assert |multiset(a)| == |multiset(b)|;
    if a == [] {
      p := [];
    } else {
      var front, last := a[..|a| - 1], a[|a| - 1];
      assert a == front + [last];
      assert last in multiset(b);
      var j :| 0 <= j < |b| && b[j] == last;
      WithoutMultiset(b, j);
      assert multiset(a) == multiset(front) + multiset{last};
      assert multiset(front) == multiset(a) - multiset{last};
      assert multiset(Without(b, j)) == multiset(b) - multiset{last};
      p := PairingOf(front, Without(b, j));
      WidenedPairs(p, a, b, j);
      p := Widened(p, j);
    }
  }

  lemma {:induction false} PairedAreEqual<T>(p: seq<nat>, a: seq<T>, b: seq<T>)
    requires PairsEqual(p, a, b)
    ensures multiset(a) == multiset(b)
    decreases |a|
  {
    if a != [] {
      var front, j := a[..|a| - 1], p[|a| - 1];
      assert a == front + [b[j]];
      NarrowedPairs(p, a, b, j);
      PairedAreEqual(Narrowed(p, j), front, Without(b, j));
      WithoutMultiset(b, j);
    } else {
      assert b == [];
    }
  }

  lemma SameMultisetIff<T>(a: seq<T>, b: seq<T>)
    ensures multiset(a) == multiset(b) <==> exists p :: PairsEqual(p, a, b)
  {
    if multiset(a) == multiset(b) {
      var p := PairingOf(a, b);
    }
    if p :| PairsEqual(p, a, b) {
      PairedAreEqual(p, a, b);
    }
  }
}
