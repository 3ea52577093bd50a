/** Sequence vocabulary shared by the models: options, cuts and first-occurrence deduplication. */
module Sequences {

  datatype Option<+T> = None | Some(value: T)

  /** The first `n` elements, or everything when there are fewer. */
  function Cut<T>(s: seq<T>, n: nat): seq<T> {
    if |s| <= n then s else s[..n]
  }

  lemma CutAppend<T>(a: seq<T>, b: seq<T>, n: nat)
    requires |a| <= n
    ensures Cut(a, n) == a && Cut(a + b, n) == a + Cut(b, n - |a|)
  {
  }

  lemma CutKeepsDistinct<T>(s: seq<T>, n: nat)
    requires NoDuplicates(s)
    ensures NoDuplicates(Cut(s, n)) && |Cut(s, n)| <= n
  {
  }

  function Optional<T>(o: Option<T>): seq<T> {
    if o.Some? then [o.value] else []
  }

  /** `stored or []`. */
  function OrEmpty<T>(stored: Option<seq<T>>): seq<T> {
    if stored.None? then [] else stored.value
  }

  /** `latest or None`. */
  function OrNone<T(==)>(latest: seq<T>): Option<seq<T>> {
    if latest == [] then None else Some(latest)
  }

  /** `set(s)`. */
  function Members<T(==)>(s: seq<T>): set<T> {
    set x | x in s
  }

  /** The sets differ exactly when some item is in one list only. */
  lemma MembersDiffer<T>(a: seq<T>, b: seq<T>)
    ensures Members(a) != Members(b) <==> exists x :: (x in a) != (x in b)
  {
    if Members(a) != Members(b) {
      var x :| (x in Members(a)) != (x in Members(b));
      assert (x in a) != (x in b);
    }
    if x :| (x in a) != (x in b) {
      assert (x in Members(a)) != (x in Members(b));
    }
  }

  /** What holds of the empty sequence, and of a sequence with one more element, holds of every sequence. */
  lemma {:induction false} SnocInduction<T(!new)>(p: seq<T> -> bool, s: seq<T>)
    requires p([]) && forall front, x :: p(front) ==> p(front + [x])
    ensures p(s)
  {
    if s != [] {
      SnocInduction(p, s[..|s| - 1]);
      assert s == s[..|s| - 1] + [s[|s| - 1]];
    }
  }

  lemma SliceMember<T>(s: seq<T>, i: nat, j: nat, k: nat)
    requires i <= k < j <= |s|
    ensures s[k] in s[i..j]
  {
    assert s[i..j][k - i] == s[k];
  }

  lemma ConcatAssoc<T>(a: seq<T>, b: seq<T>, c: seq<T>)
    ensures (a + b) + c == a + (b + c)
  {
  }

  /** A nonempty sequence is its front followed by its last element, and concatenation respects that. */
  lemma ConcatFrontLast<T>(a: seq<T>, b: seq<T>)
    requires b != []
    ensures b == b[..|b| - 1] + [b[|b| - 1]]
    ensures a + b == (a + b[..|b| - 1]) + [b[|b| - 1]]
  {
  }

  ghost predicate NoDuplicates<T>(s: seq<T>) {
    forall i, j :: 0 <= i < j < |s| ==> s[i] != s[j]
  }

  /** Keeps the first occurrence of every element, in order. */
  function FirstOccurrences<T(==)>(s: seq<T>): seq<T> {
    if s == [] then []
    else
      var front, last := s[..|s| - 1], s[|s| - 1];
      if last in front then FirstOccurrences(front) else FirstOccurrences(front) + [last]
  }

  lemma FirstOccurrencesSnoc<T>(s: seq<T>, x: T)
    ensures FirstOccurrences(s + [x]) == if x in s then FirstOccurrences(s) else FirstOccurrences(s) + [x]
  {
    assert (s + [x])[..|s|] == s;
  }

  /** One turn of a deduplicating loop. */
  lemma FirstOccurrencesStep<T>(s: seq<T>, k: nat)
    requires k < |s|
    ensures s[k] in FirstOccurrences(s[..k]) ==> FirstOccurrences(s[..k + 1]) == FirstOccurrences(s[..k])
    ensures s[k] !in FirstOccurrences(s[..k]) ==> FirstOccurrences(s[..k + 1]) == FirstOccurrences(s[..k]) + [s[k]]
  {
    assert s[..k + 1] == s[..k] + [s[k]];
    FirstOccurrencesSnoc(s[..k], s[k]);
    FirstOccurrencesMember(s[..k], s[k]);
  }

  /** Deduplication loses no element, invents none, and repeats none. */
  lemma {:induction false} FirstOccurrencesElements<T>(s: seq<T>)
    ensures forall x :: x in FirstOccurrences(s) <==> x in s
    ensures NoDuplicates(FirstOccurrences(s))
  {
    if s != [] {
      FirstOccurrencesElements(s[..|s| - 1]);
      assert s == s[..|s| - 1] + [s[|s| - 1]];
    }
  }

  /** One more element adds one first occurrence at most, at the end. */
  lemma FirstOccurrencesGrow<T>(s: seq<T>, x: T)
    ensures var before, after := FirstOccurrences(s), FirstOccurrences(s + [x]);
            && |before| <= |after| <= |before| + 1 && after[..|before|] == before
            && (|before| < |after| ==> after[|before|] == x && x !in s)
  {
    FirstOccurrencesSnoc(s, x);
  }

  lemma FirstOccurrencesMember<T>(s: seq<T>, x: T)
    ensures x in FirstOccurrences(s) <==> x in s
  {
    FirstOccurrencesElements(s);
  }

  lemma EarlierFirst<T>(front: seq<T>, x: T, kept: seq<T>, i: nat) returns (p: nat)
    requires i < |kept| && kept[i] in front && x !in front
    ensures p < |front| && front[p] == kept[i] && x !in front[..p + 1]
  {
    p :| 0 <= p < |front| && front[p] == kept[i];
    assert forall y :: y in front[..p + 1] ==> y in front;
  }

  /** What is kept comes in the order of first occurrence. */
  lemma {:induction false} FirstOccurrencesInOrder<T>(s: seq<T>, i: nat, j: nat) returns (p: nat)
    requires i < j < |FirstOccurrences(s)|
    ensures p < |s| && s[p] == FirstOccurrences(s)[i] && FirstOccurrences(s)[j] !in s[..p + 1]
  {
    var front, x := s[..|s| - 1], s[|s| - 1];
    var before := FirstOccurrences(front);
    assert s == front + [x];
    FirstOccurrencesGrow(front, x);
    if j < |before| {
      p := FirstOccurrencesInOrder(front, i, j);
    } else {
      assert before[i] in before;
      FirstOccurrencesMember(front, before[i]);
      p := EarlierFirst(front, x, before, i);
    }
    assert s[..p + 1] == front[..p + 1];
  }

  /** Deduplicating the left part first changes nothing. */
  lemma {:induction false} DedupLeft<T>(a: seq<T>, b: seq<T>)
    ensures FirstOccurrences(FirstOccurrences(a) + b) == FirstOccurrences(a + b)
    decreases |b|
  {
    FirstOccurrencesElements(a);
    if b == [] {
      DedupIdempotent(a);
      assert a + b == a && FirstOccurrences(a) + b == FirstOccurrences(a);
    } else {
      var front, last := b[..|b| - 1], b[|b| - 1];
      DedupLeft(a, front);
      assert a + b == (a + front) + [last];
      assert FirstOccurrences(a) + b == (FirstOccurrences(a) + front) + [last];
      FirstOccurrencesSnoc(a + front, last);
      FirstOccurrencesSnoc(FirstOccurrences(a) + front, last);
    }
  }

  lemma {:induction false} DedupIdempotent<T>(a: seq<T>)
    ensures FirstOccurrences(FirstOccurrences(a)) == FirstOccurrences(a)
  {
    if a != [] {
      var front, last := a[..|a| - 1], a[|a| - 1];
      DedupIdempotent(front);
      FirstOccurrencesElements(front);
      FirstOccurrencesSnoc(FirstOccurrences(front), last);
    }
  }

  lemma DedupRightStep<T>(a: seq<T>, front: seq<T>, last: T)
    requires FirstOccurrences(a + FirstOccurrences(front)) == FirstOccurrences(a + front)
    ensures FirstOccurrences(a + FirstOccurrences(front + [last])) == FirstOccurrences((a + front) + [last])
  {
    FirstOccurrencesSnoc(front, last);
    FirstOccurrencesSnoc(a + front, last);
    if last !in front {
      FirstOccurrencesMember(front, last);
      ConcatAssoc(a, FirstOccurrences(front), [last]);
      FirstOccurrencesSnoc(a + FirstOccurrences(front), last);
    }
  }

  /** Deduplicating the right part first changes nothing. */
  lemma {:induction false} DedupRight<T>(a: seq<T>, b: seq<T>)
    ensures FirstOccurrences(a + FirstOccurrences(b)) == FirstOccurrences(a + b)
    decreases |b|
  {
    if b == [] {
      assert FirstOccurrences(b) == b;
    } else {
      var front, last := b[..|b| - 1], b[|b| - 1];
      DedupRight(a, front);
      DedupRightStep(a, front, last);
      ConcatFrontLast(a, b);
    }
  }

  /** Deduplication only depends on the deduplicated parts. */
  lemma DedupParts<T>(a: seq<T>, a': seq<T>, b: seq<T>, b': seq<T>)
    requires FirstOccurrences(a) == FirstOccurrences(a') && FirstOccurrences(b) == FirstOccurrences(b')
    ensures FirstOccurrences(a + b) == FirstOccurrences(a' + b')
  {
    calc {
      FirstOccurrences(a + b);
      { DedupLeft(a, b); }
      FirstOccurrences(FirstOccurrences(a) + b);
      { DedupRight(FirstOccurrences(a), b); }
      FirstOccurrences(FirstOccurrences(a') + FirstOccurrences(b'));
      { DedupRight(FirstOccurrences(a'), b'); }
      FirstOccurrences(FirstOccurrences(a') + b');
      { DedupLeft(a', b'); }
      FirstOccurrences(a' + b');
    }
  }

  /** No two neighbours are equal: what strict alternation means for a stream of two kinds of notice. */
  ghost predicate Alternates<T>(s: seq<T>) {
    forall i :: 0 <= i < |s| - 1 ==> s[i] != s[i + 1]
  }
}
