/** Telling subscribers: the nested loops over subscribers and changes that end the check tasks. */
module FanOut {
  import opened Sequences

  datatype Job<C> = Job(user: int, change: C)

  /** The jobs for one subscriber: the changes the subscriber wants, in order. */
  function JobsFor<S, C>(sub: S, changes: seq<C>, user: S -> int, wants: (S, C) -> bool): seq<Job<C>> {
    if changes == [] then []
    else
      var c := changes[|changes| - 1];
      JobsFor(sub, changes[..|changes| - 1], user, wants) + if wants(sub, c) then [Job(user(sub), c)] else []
  }

  /** All jobs, subscriber by subscriber. */
  function Jobs<S, C>(subs: seq<S>, changes: seq<C>, user: S -> int, wants: (S, C) -> bool): seq<Job<C>> {
    if subs == [] then []
    else Jobs(subs[..|subs| - 1], changes, user, wants) + JobsFor(subs[|subs| - 1], changes, user, wants)
  }

  /** A job exists exactly for a change and a subscriber who wants it. */
  lemma {:induction false} JobsAreWanted<S, C>(subs: seq<S>, changes: seq<C>, user: S -> int, wants: (S, C) -> bool,
                                               job: Job<C>)
    ensures job in Jobs(subs, changes, user, wants)
            <==> job.change in changes
                 && exists k :: 0 <= k < |subs| && user(subs[k]) == job.user && wants(subs[k], job.change)
  {
    if subs != [] {
      var front, sub := subs[..|subs| - 1], subs[|subs| - 1];
      JobsAreWanted(front, changes, user, wants, job);
      JobsForAreWanted(sub, changes, user, wants, job);
      assert subs == front + [sub];
      assert forall k :: 0 <= k < |front| ==> subs[k] == front[k];
    }
  }

  lemma {:induction false} JobsForAreWanted<S, C>(sub: S, changes: seq<C>, user: S -> int, wants: (S, C) -> bool,
                                                  job: Job<C>)
    ensures job in JobsFor(sub, changes, user, wants)
            <==> job.change in changes && job.user == user(sub) && wants(sub, job.change)
  {
    if changes != [] {
      JobsForAreWanted(sub, changes[..|changes| - 1], user, wants, job);
      assert changes == changes[..|changes| - 1] + [changes[|changes| - 1]];
    }
  }

  // ---------------------------------------------------------------------------
  // Order and number of the jobs
  // ---------------------------------------------------------------------------

  /** A subscriber and a change, by their positions. */
  datatype Pair = Pair(sub: nat, change: nat)

  /** By subscriber, then by change. */
  predicate Before(p: Pair, q: Pair) {
    p.sub < q.sub || (p.sub == q.sub && p.change < q.change)
  }

  /** The jobs are those of the pairs. */
  predicate AreOf<S(==), C(==)>(subs: seq<S>, changes: seq<C>, user: S -> int, jobs: seq<Job<C>>, pairs: seq<Pair>) {
    && |pairs| == |jobs|
    && forall k :: 0 <= k < |pairs| ==>
         && pairs[k].sub < |subs| && pairs[k].change < |changes|
         && jobs[k] == Job(user(subs[pairs[k].sub]), changes[pairs[k].change])
  }

  /** The pairs are all those of a subscriber and a change that the subscriber wants, each once, in order. */
  ghost predicate AreAllWanted<S, C>(subs: seq<S>, changes: seq<C>, wants: (S, C) -> bool, pairs: seq<Pair>) {
    && (forall k, m :: 0 <= k < m < |pairs| ==> Before(pairs[k], pairs[m]))
    && (forall p: Pair :: p in pairs <==>
          p.sub < |subs| && p.change < |changes| && wants(subs[p.sub], changes[p.change]))
  }

  /** The jobs for one subscriber are those of the changes at some positions, which are all that are wanted. */
  ghost predicate AreForAt<S, C>(sub: S, changes: seq<C>, user: S -> int, wants: (S, C) -> bool, jobs: seq<Job<C>>,
                                 at: seq<nat>) {
    && |at| == |jobs|
    && (forall k, m :: 0 <= k < m < |at| ==> at[k] < at[m])
    && (forall k :: 0 <= k < |at| ==> at[k] < |changes| && jobs[k] == Job(user(sub), changes[at[k]]))
    && (forall i: nat :: i in at <==> i < |changes| && wants(sub, changes[i]))
  }

  lemma OneMoreChange<S, C>(sub: S, front: seq<C>, c: C, user: S -> int, wants: (S, C) -> bool, jobs: seq<Job<C>>,
                            at: seq<nat>)
    requires AreForAt(sub, front, user, wants, jobs, at)
    ensures wants(sub, c) ==>
              AreForAt(sub, front + [c], user, wants, jobs + [Job(user(sub), c)], at + [|front|])
    ensures !wants(sub, c) ==> AreForAt(sub, front + [c], user, wants, jobs, at)
  {
    var changes := front + [c];
    forall k | 0 <= k < |at| ensures at[k] < |front| {
      assert at[k] in at;
    }
    forall i: nat ensures i in at + [|front|] <==> i in at || i == |front| {
      if i == |front| {
        assert (at + [|front|])[|at|] == i;
      }
    }
    assert forall i :: 0 <= i < |front| ==> changes[i] == front[i];
  }

  lemma {:induction false} JobsForAt<S, C>(sub: S, changes: seq<C>, user: S -> int, wants: (S, C) -> bool)
      returns (at: seq<nat>)
    ensures AreForAt(sub, changes, user, wants, JobsFor(sub, changes, user, wants), at)
  {
    if changes == [] {
      at := [];
    } else {
      var front, c := changes[..|changes| - 1], changes[|changes| - 1];
      at := JobsForAt(sub, front, user, wants);
      OneMoreChange(sub, front, c, user, wants, JobsFor(sub, front, user, wants), at);
      assert changes == front + [c];
      if wants(sub, c) {
        at := at + [|front|];
      } else {
        assert JobsFor(sub, changes, user, wants) == JobsFor(sub, front, user, wants);
      }
    }
  }

  /** Every subscriber is sent the wanted changes, in the order of the list, and each of them once. */
  lemma {:induction false} JobsAreInOrder<S, C>(subs: seq<S>, changes: seq<C>, user: S -> int, wants: (S, C) -> bool)
      returns (pairs: seq<Pair>)
    ensures AreOf(subs, changes, user, Jobs(subs, changes, user, wants), pairs)
    ensures AreAllWanted(subs, changes, wants, pairs)
  {
    if subs == [] {
      pairs := [];
    } else {
      var front, sub := subs[..|subs| - 1], subs[|subs| - 1];
      var earlier := JobsAreInOrder(front, changes, user, wants);
      var at := JobsForAt(sub, changes, user, wants);
      pairs := earlier + PairsOf(|front|, at);
      assert subs == front + [sub];
      MorePairs(front, sub, changes, user, wants, earlier, at);
    }
  }

  function PairsOf(sub: nat, at: seq<nat>): (pairs: seq<Pair>)
    ensures |pairs| == |at|
  {
    seq(|at|, i requires 0 <= i < |at| => Pair(sub, at[i]))
  }

  lemma MorePairs<S, C>(front: seq<S>, sub: S, changes: seq<C>, user: S -> int, wants: (S, C) -> bool,
                        earlier: seq<Pair>, at: seq<nat>)
    requires AreOf(front, changes, user, Jobs(front, changes, user, wants), earlier)
    requires AreAllWanted(front, changes, wants, earlier)
    requires AreForAt(sub, changes, user, wants, JobsFor(sub, changes, user, wants), at)
    ensures AreOf(front + [sub], changes, user, Jobs(front + [sub], changes, user, wants),
                  earlier + PairsOf(|front|, at))
    ensures AreAllWanted(front + [sub], changes, wants, earlier + PairsOf(|front|, at))
  {
    assert (front + [sub])[..|front|] == front;
    MoreWanted(front, sub, changes, wants, earlier, at);
  }

  lemma MoreWanted<S, C>(front: seq<S>, sub: S, changes: seq<C>, wants: (S, C) -> bool, earlier: seq<Pair>,
                         at: seq<nat>)
    requires AreAllWanted(front, changes, wants, earlier)
    requires forall k, m :: 0 <= k < m < |at| ==> at[k] < at[m]
    requires forall i: nat :: i in at <==> i < |changes| && wants(sub, changes[i])
    ensures AreAllWanted(front + [sub], changes, wants, earlier + PairsOf(|front|, at))
  {
    var subs, later := front + [sub], PairsOf(|front|, at);
    forall k | 0 <= k < |earlier| ensures earlier[k].sub < |front| {
      assert earlier[k] in earlier;
    }
    forall p: Pair
      ensures p in earlier + later <==> p.sub < |subs| && p.change < |changes| && wants(subs[p.sub], changes[p.change])
    {
      InLaterIff(|front|, at, p);
      if p.sub < |front| {
        assert subs[p.sub] == front[p.sub];
      }
    }
  }

  lemma InLaterIff(sub: nat, at: seq<nat>, p: Pair)
    ensures p in PairsOf(sub, at) <==> p.sub == sub && p.change in at
  {
    if p.sub == sub && p.change in at {
      var k :| 0 <= k < |at| && at[k] == p.change;
      assert PairsOf(sub, at)[k] == p;
    }
  }

  /** The inner loop. */
  method EnqueueFor<S, C>(queue: seq<Job<C>>, sub: S, changes: seq<C>, user: S -> int, wants: (S, C) -> bool)
      returns (longer: seq<Job<C>>)
    ensures longer == queue + JobsFor(sub, changes, user, wants)
  {
    longer := queue;
    for i := 0 to |changes|
      invariant longer == queue + JobsFor(sub, changes[..i], user, wants)
    {
      assert changes[..i + 1][..i] == changes[..i];
      if wants(sub, changes[i]) {
        longer := longer + [Job(user(sub), changes[i])];
      }
    }
    assert changes[..|changes|] == changes;
  }

  /** The outer loop. */
  method Enqueue<S, C>(queue: seq<Job<C>>, subs: seq<S>, changes: seq<C>, user: S -> int, wants: (S, C) -> bool)
      returns (longer: seq<Job<C>>)
    ensures longer == queue + Jobs(subs, changes, user, wants)
  {
    longer := queue;
    for k := 0 to |subs|
      invariant longer == queue + Jobs(subs[..k], changes, user, wants)
    {
      assert subs[..k + 1][..k] == subs[..k];
      longer := EnqueueFor(longer, subs[k], changes, user, wants);
      ConcatAssoc(queue, Jobs(subs[..k], changes, user, wants), JobsFor(subs[k], changes, user, wants));
    }
    assert subs[..|subs|] == subs;
  }
}
