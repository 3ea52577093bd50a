/**
 Telling of problems, end to end: which failing lookups enqueue jobs, and which of the jobs tell a subscriber
 (src/tasks/check_domain.py `_should_notify_problem`, src/tasks/notify_problem.py).
 */
module ProblemRuns {
  import opened Sequences
  import opened CheckChain
  import opened WhoisCheck
  import opened WhoisRuns
  import N = ProblemNotices

  // ---------------------------------------------------------------------------
  // Jobs
  // ---------------------------------------------------------------------------

  predicate EnqueuedAt(start: Option<Row>, events: seq<Event>, l: Limits, p: ProblemPolicy, i: nat)
    requires i < |events|
  {
    EnqueuesProblem(RowAfter(start, events[..i], l), events[i], p)
  }

  /** On the inputs alone: a lookup fails, has failed often enough, and the last success is old enough. */
  predicate Overdue(events: seq<Event>, p: ProblemPolicy, i: nat)
    requires i < |events|
  {
    && events[i].LookupFailed? && Trailing(events[..i]) + 1 >= p.threshold
    && LastSuccess(events[..i]).Some? && events[i].now - LastSuccess(events[..i]).value >= p.cooldownDays * DAY
  }

  lemma EnqueuedIffOverdue(start: Option<Row>, events: seq<Event>, l: Limits, p: ProblemPolicy, i: nat)
    requires IsStart(start) && i < |events|
    ensures EnqueuedAt(start, events, l, p, i) <==> Overdue(events, p, i)
  {
    if events[i].LookupFailed? {
      ProblemIsEnqueuedIff(start, events[..i], l, events[i], p);
    }
  }

  /** A failure right after an overdue one is overdue. */
  lemma OverdueStays(events: seq<Event>, p: ProblemPolicy, i: nat)
    requires ClockRuns(events) && i + 1 < |events| && Overdue(events, p, i) && events[i + 1].LookupFailed?
    ensures Overdue(events, p, i + 1)
  {
    assert events[..i + 1][..i] == events[..i];
    assert events[i].now <= events[i + 1].now;
  }

  /** Whenever a lookup fails again right after an overdue failure, it does so after the cooldown. */
  predicate NoEarlyFailure(events: seq<Event>, p: ProblemPolicy) {
    forall i :: 0 <= i < |events| - 1 && Overdue(events, p, i) && events[i + 1].LookupFailed? ==>
      events[i + 1].now - events[i].now >= p.cooldownDays * DAY
  }

  lemma ApartWhenNoEarlyFailure(events: seq<Event>, p: ProblemPolicy, i: nat, j: nat)
    requires ClockRuns(events) && NoEarlyFailure(events, p)
    requires i < j < |events| && Overdue(events, p, i) && Overdue(events, p, j)
    ensures events[j].now - events[i].now >= p.cooldownDays * DAY
  {
    if events[i + 1].Answered? {
      AnswerRenewsSuccess(events, i + 1, j);
      assert events[i].now <= events[i + 1].now;
    } else {
      assert events[i + 1].now <= events[j].now;
    }
  }

  /** Jobs for the same subscriber are a cooldown apart, so that the test of `check_domain` would be enough. */
  predicate JobsKeepCooldown(start: Option<Row>, events: seq<Event>, l: Limits, p: ProblemPolicy) {
    forall i, j :: 0 <= i < j < |events| && EnqueuedAt(start, events, l, p, i) && EnqueuedAt(start, events, l, p, j) ==>
      events[j].now - events[i].now >= p.cooldownDays * DAY
  }

  /**
   The test of `check_domain` compares the cooldown with the age of the last success. Alone it keeps jobs a cooldown
   apart exactly over runs in which no lookup fails again, within the cooldown, right after an overdue failure.
   */
  lemma JobsKeepCooldownIff(start: Option<Row>, events: seq<Event>, l: Limits, p: ProblemPolicy)
    requires IsStart(start) && ClockRuns(events)
    ensures JobsKeepCooldown(start, events, l, p) <==> NoEarlyFailure(events, p)
  {
    forall i | 0 <= i < |events| ensures EnqueuedAt(start, events, l, p, i) <==> Overdue(events, p, i) {
      EnqueuedIffOverdue(start, events, l, p, i);
    }
    if NoEarlyFailure(events, p) {
      forall i, j | 0 <= i < j < |events| && EnqueuedAt(start, events, l, p, i) && EnqueuedAt(start, events, l, p, j)
        ensures events[j].now - events[i].now >= p.cooldownDays * DAY
      {
        ApartWhenNoEarlyFailure(events, p, i, j);
      }
    }
    if JobsKeepCooldown(start, events, l, p) {
      forall i | 0 <= i < |events| - 1 && Overdue(events, p, i) && events[i + 1].LookupFailed?
        ensures events[i + 1].now - events[i].now >= p.cooldownDays * DAY
      {
        OverdueStays(events, p, i);
        assert EnqueuedAt(start, events, l, p, i) && EnqueuedAt(start, events, l, p, i + 1);
      }
    }
  }

  /** With lookups that come when they are due, that means an answer after every overdue failure. */
  lemma JobsNeedRecovery(start: Option<Row>, events: seq<Event>, l: Limits, p: ProblemPolicy, slack: nat)
    requires IsStart(start) && ClockRuns(events)
    requires Punctual(start, events, l, slack) && DAY + slack < p.cooldownDays * DAY
    ensures JobsKeepCooldown(start, events, l, p) <==>
              forall i :: 0 <= i < |events| - 1 && Overdue(events, p, i) ==> events[i + 1].Answered?
  {
    JobsKeepCooldownIff(start, events, l, p);
    forall i | 0 <= i < |events| - 1 && Overdue(events, p, i)
      ensures events[i + 1].now - events[i].now < p.cooldownDays * DAY
    {
      CountersAreExact(start, events[..i], l);
      PunctualIsWithinADay(start, events, l, slack, i);
    }
  }

  // ---------------------------------------------------------------------------
  // Notices
  // ---------------------------------------------------------------------------

  /**
   The jobs for one subscriber over a run. `plans[i]` is what becomes of a job that the check at `i` enqueues: when it
   starts, whether the subscription wants it, and how its send ends. A check that enqueues nothing counts as a job that
   nobody wants, and that does nothing.
   */
  function JobsOf(start: Option<Row>, events: seq<Event>, l: Limits, p: ProblemPolicy, plans: seq<N.Job>)
      : (r: seq<N.Job>)
    requires |plans| == |events|
    ensures |r| == |events|
  {
    seq(|events|, i requires 0 <= i < |events| =>
          if EnqueuedAt(start, events, l, p, i) then plans[i] else plans[i].(wanted := false))
  }

  /** The subscriber is told of the problem after the check at `i`, when each job ends before the next begins. */
  predicate NotifiedAt(start: Option<Row>, events: seq<Event>, l: Limits, p: ProblemPolicy, plans: seq<N.Job>, i: nat)
    requires |plans| == |events| && i < |events|
  {
    N.ToldAt(JobsOf(start, events, l, p, plans), p.cooldownDays * DAY, i)
  }

  /** The promise of `problem_notify_cooldown_days`, over any run: no two notices to a subscriber are closer. */
  lemma NoticesKeepCooldown(start: Option<Row>, events: seq<Event>, l: Limits, p: ProblemPolicy, plans: seq<N.Job>,
                            i: nat, j: nat)
    requires |plans| == |events| && N.InOrder(plans) && i < j < |events|
    requires NotifiedAt(start, events, l, p, plans, i) && NotifiedAt(start, events, l, p, plans, j)
    ensures plans[j].now - plans[i].now >= p.cooldownDays * DAY
  {
    N.NoticesKeepCooldown(JobsOf(start, events, l, p, plans), p.cooldownDays * DAY, i, j);
  }

  /**
   On the inputs of a run: a subscriber who wants it and can be reached is told after a check exactly when the lookup
   is overdue and no notice went out less than a cooldown before.
   */
  lemma NotifiedIff(start: Option<Row>, events: seq<Event>, l: Limits, p: ProblemPolicy, plans: seq<N.Job>, i: nat)
    requires IsStart(start) && |plans| == |events| && N.InOrder(plans) && i < |events|
    requires plans[i].wanted && plans[i].outcome.Delivered?
    ensures NotifiedAt(start, events, l, p, plans, i) <==>
              && Overdue(events, p, i)
              && !exists j :: 0 <= j < i && NotifiedAt(start, events, l, p, plans, j)
                              && plans[i].now - plans[j].now < p.cooldownDays * DAY
  {
    EnqueuedIffOverdue(start, events, l, p, i);
    if Overdue(events, p, i) {
      N.SilentIffRecentlyTold(JobsOf(start, events, l, p, plans), p.cooldownDays * DAY, i);
    }
  }

  lemma {:induction false} OverdueThroughout(events: seq<Event>, p: ProblemPolicy, i: nat, j: nat)
    requires ClockRuns(events) && i <= j < |events| && Overdue(events, p, i)
    requires forall k :: i <= k <= j ==> events[k].LookupFailed?
    ensures Overdue(events, p, j)
    decreases j - i
  {
    if i < j {
      OverdueStays(events, p, i);
      OverdueThroughout(events, p, i + 1, j);
    }
  }

  /** While lookups keep failing, the first job a cooldown after a notice tells again. */
  lemma ToldAgain(start: Option<Row>, events: seq<Event>, l: Limits, p: ProblemPolicy, plans: seq<N.Job>,
                  i: nat, j: nat)
    requires IsStart(start) && ClockRuns(events) && |plans| == |events| && N.InOrder(plans) && i < j < |events|
    requires NotifiedAt(start, events, l, p, plans, i)
    requires forall k :: i < k <= j ==> events[k].LookupFailed?
    requires forall k :: i < k < j ==> plans[k].now - plans[i].now < p.cooldownDays * DAY
    requires plans[j].now - plans[i].now >= p.cooldownDays * DAY && plans[j].wanted && plans[j].outcome.Delivered?
    ensures NotifiedAt(start, events, l, p, plans, j)
  {
    EnqueuedIffOverdue(start, events, l, p, i);
    OverdueThroughout(events, p, i, j);
    NotifiedIff(start, events, l, p, plans, j);
    if k :| 0 <= k < j && NotifiedAt(start, events, l, p, plans, k)
            && plans[j].now - plans[k].now < p.cooldownDays * DAY {
      if i < k {
        NoticesKeepCooldown(start, events, l, p, plans, i, k);
      }
    }
  }

  // ---------------------------------------------------------------------------
  // An outage
  // ---------------------------------------------------------------------------

  /** In an outage a week after the last answer the failures from the fifth on are overdue, by default. */
  lemma OutageIsOverdueIff(answer: Event, from: int, n: nat, i: nat)
    requires answer.Answered? && from - answer.now >= 7 * DAY && i <= n
    ensures Overdue(Outage(answer, from, n), DEFAULT_POLICY, i) <==> i >= 5
  {
    if i > 0 {
      var events := Outage(answer, from, n);
      OutagePrefix(answer, from, n, i);
      OutagePrefix(answer, from, n, i - 1);
      OutageCounts(answer, from, i - 1);
      OutageCounts(answer, from, i);
      assert events[..i + 1][i] == events[i];
    }
  }

  /** Jobs that start with their checks, for a subscriber who wants them all and gets them all. */
  function Eager(events: seq<Event>): (plans: seq<N.Job>)
    ensures |plans| == |events|
  {
    seq(|events|, i requires 0 <= i < |events| => N.Job(events[i].now, true, N.Delivered))
  }

  lemma FifthIsTold(start: Option<Row>, answer: Event, from: int, n: nat, l: Limits)
    requires IsStart(start) && answer.Answered? && from - answer.now >= 7 * DAY && n >= 5
    ensures NotifiedAt(start, Outage(answer, from, n), l, DEFAULT_POLICY, Eager(Outage(answer, from, n)), 5)
  {
    var events, plans := Outage(answer, from, n), Eager(Outage(answer, from, n));
    OutageClockRuns(answer, from, n);
    OutageIsOverdueIff(answer, from, n, 5);
    forall i | 0 <= i < 5 ensures !NotifiedAt(start, events, l, DEFAULT_POLICY, plans, i) {
      OutageIsOverdueIff(answer, from, n, i);
      NotifiedIff(start, events, l, DEFAULT_POLICY, plans, i);
    }
    NotifiedIff(start, events, l, DEFAULT_POLICY, plans, 5);
  }

  /** The sixth failure of such an outage comes half a day after the fifth, and both enqueue jobs. */
  lemma OutageJobsAreClose(start: Option<Row>, answer: Event, from: int, n: nat, l: Limits)
    requires IsStart(start) && answer.Answered? && from - answer.now >= 7 * DAY && n >= 6
    ensures var events := Outage(answer, from, n);
            && events[6].now - events[5].now == DAY / 2
            && EnqueuedAt(start, events, l, DEFAULT_POLICY, 5) && EnqueuedAt(start, events, l, DEFAULT_POLICY, 6)
            && !JobsKeepCooldown(start, events, l, DEFAULT_POLICY)
  {
    var events := Outage(answer, from, n);
    OutagePrefix(answer, from, n, 6);
    assert events[5] == events[..7][5] && events[6] == events[..7][6];
    OutageIsOverdueIff(answer, from, n, 5);
    OutageIsOverdueIff(answer, from, n, 6);
    EnqueuedIffOverdue(start, events, l, DEFAULT_POLICY, 5);
    EnqueuedIffOverdue(start, events, l, DEFAULT_POLICY, 6);
  }

  /**
   With the default settings, the fifth and the sixth failure of such an outage enqueue jobs half a day apart; only the
   former tells the subscriber, and it is the first to do so.
   */
  lemma OutageIsToldOnce(start: Option<Row>, answer: Event, from: int, n: nat, l: Limits)
    requires IsStart(start) && answer.Answered? && from - answer.now >= 7 * DAY && n >= 6
    ensures var events := Outage(answer, from, n);
            && events[6].now - events[5].now == DAY / 2
            && !JobsKeepCooldown(start, events, l, DEFAULT_POLICY)
            && (forall i :: 0 <= i <= 6 ==>
                  (NotifiedAt(start, events, l, DEFAULT_POLICY, Eager(events), i) <==> i == 5))
  {
    var events, plans := Outage(answer, from, n), Eager(Outage(answer, from, n));
    OutageClockRuns(answer, from, n);
    OutageJobsAreClose(start, answer, from, n, l);
    FifthIsTold(start, answer, from, n, l);
    forall i | 0 <= i <= 6
      ensures NotifiedAt(start, events, l, DEFAULT_POLICY, plans, i) <==> i == 5
    {
      OutageIsOverdueIff(answer, from, n, i);
      NotifiedIff(start, events, l, DEFAULT_POLICY, plans, i);
    }
  }
}
