/** What a loop with a condition and an append collects: the items it picks, in order, and no others. */
module Selections {
  import opened Sequences

  /** `at` are the positions of the items that `pick` keeps, and `list` is what it makes of them. */
  ghost predicate SelectsAt<S, T>(pick: S -> Option<T>, s: seq<S>, list: seq<T>, at: seq<nat>) {
    && |at| == |list|
    && (forall k, m :: 0 <= k < m < |at| ==> at[k] < at[m])
    && (forall k :: 0 <= k < |at| ==> at[k] < |s| && pick(s[at[k]]) == Some(list[k]))
    && (forall i :: 0 <= i < |s| && pick(s[i]).Some? ==> i in at)
  }

  ghost predicate Selects<S, T>(pick: S -> Option<T>, s: seq<S>, list: seq<T>) {
    exists at :: SelectsAt(pick, s, list, at)
  }

  lemma SelectsNothing<S, T>(pick: S -> Option<T>)
    ensures Selects(pick, [], [])
  {
    assert SelectsAt(pick, [], [], []);
  }

  lemma KeepsAt<S, T>(pick: S -> Option<T>, front: seq<S>, x: S, list: seq<T>, at: seq<nat>)
    requires SelectsAt(pick, front, list, at) && pick(x).None?
    ensures SelectsAt(pick, front + [x], list, at)
  {
    forall i | 0 <= i < |front| + 1 && pick((front + [x])[i]).Some? ensures i in at {
      assert i < |front| && (front + [x])[i] == front[i];
    }
  }

  lemma PicksAt<S, T>(pick: S -> Option<T>, front: seq<S>, x: S, list: seq<T>, at: seq<nat>)
    requires SelectsAt(pick, front, list, at) && pick(x).Some?
    ensures SelectsAt(pick, front + [x], list + [pick(x).value], at + [|front|])
  {
    var at' := at + [|front|];
    forall i | 0 <= i < |front| + 1 && pick((front + [x])[i]).Some? ensures i in at' {
      if i < |front| {
        assert (front + [x])[i] == front[i] && i in at;
      } else {
        assert at'[|at|] == i;
      }
    }
  }

  /** One more item. */
  lemma SelectsSnoc<S, T>(pick: S -> Option<T>, front: seq<S>, x: S, list: seq<T>)
    requires Selects(pick, front, list)
    ensures Selects(pick, front + [x], if pick(x).Some? then list + [pick(x).value] else list)
  {
    var at :| SelectsAt(pick, front, list, at);
    if pick(x).Some? {
      PicksAt(pick, front, x, list, at);
    } else {
      KeepsAt(pick, front, x, list, at);
    }
  }

  lemma SelectsNext<S, T>(pick: S -> Option<T>, front: seq<S>, x: S, list: seq<T>, longer: seq<T>)
    requires Selects(pick, front, list)
    requires if pick(x).Some? then longer == list + [pick(x).value] else longer == list
    ensures Selects(pick, front + [x], longer)
  {
    SelectsSnoc(pick, front, x, list);
  }

  lemma SelectsMember<S, T>(pick: S -> Option<T>, s: seq<S>, list: seq<T>, x: T)
    requires Selects(pick, s, list)
    ensures x in list <==> exists i :: 0 <= i < |s| && pick(s[i]) == Some(x)
  {
    var at :| SelectsAt(pick, s, list, at);
    if x in list {
      var k :| 0 <= k < |list| && list[k] == x;
      assert pick(s[at[k]]) == Some(x);
    }
    if i :| 0 <= i < |s| && pick(s[i]) == Some(x) {
      assert i in at;
    }
  }
}
