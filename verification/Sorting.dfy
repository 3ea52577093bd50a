/** `sorted(a - b)` on sets of text, ordered as Python orders text: by the first differing character. */
module Sorting {
  import opened Sequences

  predicate Precedes(a: string, b: string) {
    if b == [] then false
    else if a == [] then true
    else if a[0] != b[0] then a[0] < b[0]
    else Precedes(a[1..], b[1..])
  }

  lemma {:induction false} PrecedesIsTotal(a: string, b: string)
    ensures a != b ==> Precedes(a, b) != Precedes(b, a)
    ensures !Precedes(a, a)
  {
    if a != [] {
      PrecedesIsTotal(a[1..], if b == [] then [] else b[1..]);
      if b != [] && a[0] == b[0] && a[1..] == b[1..] {
        assert a == [a[0]] + a[1..] && b == [b[0]] + b[1..];
      }
    }
  }

  lemma {:induction false} PrecedesIsTransitive(a: string, b: string, c: string)
    requires Precedes(a, b) && Precedes(b, c)
    ensures Precedes(a, c)
  {
    if a != [] && a[0] == b[0] == c[0] {
      PrecedesIsTransitive(a[1..], b[1..], c[1..]);
    }
  }

  ghost predicate Ascending(s: seq<string>) {
    forall i, j :: 0 <= i < j < |s| ==> Precedes(s[i], s[j])
  }

  /** Puts `x` in its place, unless it is there. */
  function Insert(x: string, s: seq<string>): seq<string> {
    if s == [] then [x]
    else if x == s[0] then s
    else if Precedes(x, s[0]) then [x] + s
    else [s[0]] + Insert(x, s[1..])
  }

  lemma AscendingCons(x: string, s: seq<string>)
    requires Ascending(s) && forall y :: y in s ==> Precedes(x, y)
    ensures Ascending([x] + s)
  {
    var t := [x] + s;
    forall i, j | 0 <= i < j < |t| ensures Precedes(t[i], t[j]) {
      assert t[j] == s[j - 1];
      assert i > 0 ==> t[i] == s[i - 1];
    }
  }

  lemma AscendingTail(s: seq<string>)
    requires Ascending(s) && s != []
    ensures Ascending(s[1..]) && forall y :: y in s[1..] ==> Precedes(s[0], y)
  {
    assert forall i :: 0 <= i < |s| - 1 ==> s[1..][i] == s[i + 1];
  }

  lemma {:induction false} InsertKeepsOrder(x: string, s: seq<string>)
    requires Ascending(s)
    ensures Ascending(Insert(x, s)) && forall y :: y in Insert(x, s) <==> y == x || y in s
  {
    if s != [] {
      var first, rest := s[0], s[1..];
      assert s == [first] + rest;
      AscendingTail(s);
      PrecedesIsTotal(x, first);
      if x != first && Precedes(x, first) {
        forall y | y in s ensures Precedes(x, y) {
          if y != first { PrecedesIsTransitive(x, first, y); }
        }
        AscendingCons(x, s);
      } else if x != first {
        InsertKeepsOrder(x, rest);
        AscendingCons(first, Insert(x, rest));
      }
    }
  }

  /** The members of `a` that are not in `b`, in ascending order. */
  function SortedDifference(a: seq<string>, b: seq<string>): seq<string> {
    if a == [] then []
    else if a[0] in b then SortedDifference(a[1..], b)
    else Insert(a[0], SortedDifference(a[1..], b))
  }

  lemma {:induction false} SortedDifferenceIs(a: seq<string>, b: seq<string>)
    ensures Ascending(SortedDifference(a, b))
    ensures Members(SortedDifference(a, b)) == Members(a) - Members(b)
  {
    if a != [] {
      SortedDifferenceIs(a[1..], b);
      assert a == [a[0]] + a[1..];
      assert Members(a) == Members(a[1..]) + {a[0]};
      if a[0] in b {
        assert Members(a) - Members(b) == Members(a[1..]) - Members(b);
      } else {
        var rest := SortedDifference(a[1..], b);
        InsertKeepsOrder(a[0], rest);
        assert Members(Insert(a[0], rest)) == Members(rest) + {a[0]};
      }
    }
  }

  lemma AscendingFirst(s: seq<string>, x: string)
    requires Ascending(s) && x in s
    ensures x == s[0] || Precedes(s[0], x)
  {
    var i :| 0 <= i < |s| && s[i] == x;
  }

  /** An ascending list is determined by its members. */
  lemma {:induction false} AscendingIsUnique(s: seq<string>, t: seq<string>)
    requires Ascending(s) && Ascending(t) && Members(s) == Members(t)
    ensures s == t
  {
    assert t != [] ==> t[0] in Members(t);
    if s != [] {
      assert s[0] in Members(s);
      AscendingFirst(s, t[0]);
      AscendingFirst(t, s[0]);
      PrecedesIsTotal(s[0], t[0]);
      assert s[0] == t[0] && s == [s[0]] + s[1..] && t == [t[0]] + t[1..];
      AscendingTail(s);
      AscendingTail(t);
      PrecedesIsTotal(s[0], s[0]);
      assert Members(s[1..]) == Members(s) - {s[0]};
      assert Members(t[1..]) == Members(t) - {t[0]};
      AscendingIsUnique(s[1..], t[1..]);
    }
  }
}
