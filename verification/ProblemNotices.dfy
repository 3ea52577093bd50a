/**
 `send_problem_notice` for one subscriber of one domain (src/tasks/notify_problem.py, `mark_problem_notified` of
 src/db/repositories/domains.py): alone, one job after another, and under interleaving.

 A job takes the time, reads the row of the subscription, sends, and marks the row with the time it took, as four steps
 between which other jobs run. Times are seconds.
 */
module ProblemNotices {
  import opened Sequences

  datatype Delivery = Delivered | BotBlocked | SendFailed

  /** The test against `last_problem_notified_at`. */
  predicate Due(last: Option<int>, now: int, cooldown: int) {
    last.None? || now - last.value >= cooldown
  }

  // ---------------------------------------------------------------------------
  // One job
  // ---------------------------------------------------------------------------

  /** A job: the time it takes, whether the subscription exists, is not muted and wants it, and how the send ends. */
  datatype Job = Job(now: int, wanted: bool, outcome: Delivery)

  predicate Tells(last: Option<int>, job: Job, cooldown: int) {
    job.wanted && Due(last, job.now, cooldown) && job.outcome.Delivered?
  }

  /** The row of the subscription. */
  class Subscription {
    var lastNotified: Option<int>

    constructor ()
      ensures lastNotified == None
    {
      lastNotified := None;
    }

    /** `send_problem_notice`: only a delivered notice is marked. */
    method SendProblemNotice(job: Job, cooldown: int) returns (told: bool)
      modifies this
      ensures told == Tells(old(lastNotified), job, cooldown)
      ensures lastNotified == if told then Some(job.now) else old(lastNotified)
    {
      told := false;
      if !job.wanted {
        return;
      }
      if lastNotified.Some? && job.now - lastNotified.value < cooldown {
        return;
      }
      match job.outcome {
        case BotBlocked => return;
        case SendFailed => return;
        case Delivered =>
          lastNotified := Some(job.now);
          told := true;
      }
    }
  }

  // ---------------------------------------------------------------------------
  // One job after another
  // ---------------------------------------------------------------------------

  /** `last_problem_notified_at` after some jobs. */
  function LastTold(jobs: seq<Job>, cooldown: int): Option<int> {
    if jobs == [] then None
    else
      var last, job := LastTold(jobs[..|jobs| - 1], cooldown), jobs[|jobs| - 1];
      if Tells(last, job, cooldown) then Some(job.now) else last
  }

  predicate ToldAt(jobs: seq<Job>, cooldown: int, i: nat)
    requires i < |jobs|
  {
    Tells(LastTold(jobs[..i], cooldown), jobs[i], cooldown)
  }

  predicate InOrder(jobs: seq<Job>) {
    forall i, j :: 0 <= i <= j < |jobs| ==> jobs[i].now <= jobs[j].now
  }

  /** The mark is the time of some notice before, and no earlier than that of any. */
  lemma {:induction false} MarkIsLatest(jobs: seq<Job>, cooldown: int, n: nat)
    requires InOrder(jobs) && n <= |jobs|
    ensures forall i :: 0 <= i < n && ToldAt(jobs, cooldown, i) ==>
              LastTold(jobs[..n], cooldown).Some? && LastTold(jobs[..n], cooldown).value >= jobs[i].now
    ensures LastTold(jobs[..n], cooldown).Some? ==>
              exists i :: 0 <= i < n && ToldAt(jobs, cooldown, i) && LastTold(jobs[..n], cooldown).value == jobs[i].now
  {
    if n > 0 {
      MarkIsLatest(jobs, cooldown, n - 1);
      assert jobs[..n][..n - 1] == jobs[..n - 1];
      if ToldAt(jobs, cooldown, n - 1) {
        assert LastTold(jobs[..n], cooldown) == Some(jobs[n - 1].now);
      }
    }
  }

  /** The promise: where every job ends before the next, any two notices are a cooldown apart, whatever the jobs. */
  lemma NoticesKeepCooldown(jobs: seq<Job>, cooldown: int, i: nat, j: nat)
    requires InOrder(jobs) && i < j < |jobs| && ToldAt(jobs, cooldown, i) && ToldAt(jobs, cooldown, j)
    ensures jobs[j].now - jobs[i].now >= cooldown
  {
    MarkIsLatest(jobs, cooldown, j);
  }

  /** And no more: a job that could tell stays silent exactly when a notice is less than a cooldown old. */
  lemma SilentIffRecentlyTold(jobs: seq<Job>, cooldown: int, j: nat)
    requires InOrder(jobs) && j < |jobs| && jobs[j].wanted && jobs[j].outcome.Delivered?
    ensures !ToldAt(jobs, cooldown, j)
            <==> exists i :: 0 <= i < j && ToldAt(jobs, cooldown, i) && jobs[j].now - jobs[i].now < cooldown
  {
    MarkIsLatest(jobs, cooldown, j);
    if i :| 0 <= i < j && ToldAt(jobs, cooldown, i) && jobs[j].now - jobs[i].now < cooldown {
      assert LastTold(jobs[..j], cooldown).value >= jobs[i].now;
    }
  }

  // ---------------------------------------------------------------------------
  // Interleaved jobs
  // ---------------------------------------------------------------------------

  /** The cooldown, and the time after which the runner cancels a job. */
  datatype Config = Config(cooldown: int, timeout: int)

  /** A worker's phase, with the time its job took at the start. */
  datatype Worker = Idle
                  | Started(at: int)
                  | Ready(at: int)   // has read a row that lets it send
                  | Sent(at: int)    // delivered, not marked yet

  /** A delivered notice: the time its job took, and the moment of delivery. */
  datatype Notice = Notice(at: int, sentAt: int)

  datatype State = State(now: int, workers: map<nat, Worker>, last: Option<int>, notices: seq<Notice>)

  const INIT := State(0, map[], None, [])

  /** What a worker does, and when. */
  datatype Event = Start(w: nat, time: int)
                 | Read(w: nat, time: int, wanted: bool)
                 | Send(w: nat, time: int, outcome: Delivery)
                 | Mark(w: nat, time: int)
                 | Crash(w: nat, time: int)

  function WorkerOf(s: State, w: nat): Worker {
    if w in s.workers then s.workers[w] else Idle
  }

  /** Time does not go back, and does not pass the end of a job that still runs. */
  predicate InTime(c: Config, s: State, time: int) {
    s.now <= time && forall w :: w in s.workers && !s.workers[w].Idle? ==> time <= s.workers[w].at + c.timeout
  }

  predicate Enabled(c: Config, s: State, e: Event) {
    && InTime(c, s, e.time)
    && match e
       case Start(w, _) => WorkerOf(s, w).Idle?
       case Read(w, _, _) => WorkerOf(s, w).Started?
       case Send(w, _, _) => WorkerOf(s, w).Ready?
       case Mark(w, _) => WorkerOf(s, w).Sent?
       // the end of the process, or the cancellation or an error of the job
       case Crash(w, _) => !WorkerOf(s, w).Idle?
  }

  /** The read lets its job send. */
  predicate Passes(c: Config, s: State, e: Event) {
    e.Read? && e.wanted && WorkerOf(s, e.w).Started? && Due(s.last, WorkerOf(s, e.w).at, c.cooldown)
  }

  function Next(c: Config, s: State, e: Event): State
    requires Enabled(c, s, e)
  {
    var t := s.(now := e.time);
    match e
    case Start(w, time) => t.(workers := s.workers[w := Started(time)])
    case Read(w, _, _) => t.(workers := s.workers[w := if Passes(c, s, e) then Ready(WorkerOf(s, w).at) else Idle])
    case Send(w, time, outcome) =>
      var at := WorkerOf(s, w).at;
      if outcome.Delivered? then t.(workers := s.workers[w := Sent(at)], notices := s.notices + [Notice(at, time)])
      else t.(workers := s.workers[w := Idle])
    case Mark(w, _) => t.(workers := s.workers[w := Idle], last := Some(WorkerOf(s, w).at))
    case Crash(w, _) => t.(workers := s.workers[w := Idle])
  }

  function StateAfter(c: Config, events: seq<Event>): Option<State> {
    if events == [] then Some(INIT)
    else
      var before, e := StateAfter(c, events[..|events| - 1]), events[|events| - 1];
      if before.Some? && Enabled(c, before.value, e) then Some(Next(c, before.value, e)) else None
  }

  /** Past a read that lets it send, and not yet done with it. */
  predicate Holds(s: State, w: nat) {
    WorkerOf(s, w).Ready? || WorkerOf(s, w).Sent?
  }

  /** The times of the jobs that delivered a notice and died before they marked it. */
  function Lost(c: Config, events: seq<Event>): set<int> {
    if events == [] then {}
    else
      Lost(c, events[..|events| - 1])
      + var before := StateAfter(c, events[..|events| - 1]);
        if before.Some? then LostBy(before.value, events[|events| - 1]) else {}
  }

  function LostBy(s: State, e: Event): set<int> {
    if e.Crash? && WorkerOf(s, e.w).Sent? then {WorkerOf(s, e.w).at} else {}
  }

  /** A read that lets its job send overlaps with no other such job, and no mark within the cooldown was lost. */
  predicate Orderly(c: Config, s: State, lost: set<int>, e: Event) {
    Passes(c, s, e) ==>
      && (forall v :: v in s.workers ==> !Holds(s, v))
      && (forall a :: a in lost ==> WorkerOf(s, e.w).at - a >= c.cooldown)
  }

  predicate OrderlyRun(c: Config, events: seq<Event>) {
    events == []
    || (OrderlyRun(c, events[..|events| - 1])
        && (StateAfter(c, events[..|events| - 1]).Some?
            ==> Orderly(c, StateAfter(c, events[..|events| - 1]).value, Lost(c, events[..|events| - 1]),
                        events[|events| - 1])))
  }

  // ---------------------------------------------------------------------------
  // What holds in every interleaving
  // ---------------------------------------------------------------------------

  /** Whoever runs started no later than now, and no longer ago than a job may take; so did whoever delivered. */
  ghost predicate Timely(c: Config, s: State) {
    && (forall w :: !WorkerOf(s, w).Idle? ==> WorkerOf(s, w).at <= s.now <= WorkerOf(s, w).at + c.timeout)
    && (forall i :: 0 <= i < |s.notices| ==> s.notices[i].at <= s.notices[i].sentAt <= s.notices[i].at + c.timeout)
    && (forall i :: 0 <= i < |s.notices| ==> s.notices[i].sentAt <= s.now)
  }

  ghost predicate Delivers(s: State, a: int) {
    exists i :: 0 <= i < |s.notices| && s.notices[i].at == a
  }

  /** A mark that is due, or was lost, is that of a delivered notice. */
  ghost predicate MarksAreDelivered(s: State, lost: set<int>) {
    && (forall w :: WorkerOf(s, w).Sent? ==> Delivers(s, WorkerOf(s, w).at))
    && (forall a :: a in lost ==> Delivers(s, a))
  }

  lemma NoticesGrow(c: Config, s: State, e: Event)
    requires Enabled(c, s, e)
    ensures s.notices <= Next(c, s, e).notices
    ensures forall a :: Delivers(s, a) ==> Delivers(Next(c, s, e), a)
  {
    forall a | Delivers(s, a) ensures Delivers(Next(c, s, e), a) {
      var i :| 0 <= i < |s.notices| && s.notices[i].at == a;
      assert Next(c, s, e).notices[i].at == a;
    }
  }

  lemma TimelyStep(c: Config, s: State, e: Event)
    requires Timely(c, s) && Enabled(c, s, e) && c.timeout >= 0
    ensures Timely(c, Next(c, s, e))
  {
    var t := Next(c, s, e);
    forall w | !WorkerOf(t, w).Idle? ensures WorkerOf(t, w).at <= t.now <= WorkerOf(t, w).at + c.timeout {
      assert w != e.w ==> WorkerOf(t, w) == WorkerOf(s, w);
      assert WorkerOf(s, w).Idle? || w in s.workers;
    }
    forall i | 0 <= i < |t.notices|
      ensures t.notices[i].at <= t.notices[i].sentAt <= t.notices[i].at + c.timeout && t.notices[i].sentAt <= t.now
    {
      if i == |s.notices| {
        assert t.notices[i] == Notice(WorkerOf(s, e.w).at, e.time) && e.w in s.workers;
      } else {
        assert t.notices[i] == s.notices[i];
      }
    }
  }

  lemma MarksStep(c: Config, s: State, lost: set<int>, e: Event)
    requires MarksAreDelivered(s, lost) && Enabled(c, s, e)
    ensures MarksAreDelivered(Next(c, s, e), lost + LostBy(s, e))
  {
    var t := Next(c, s, e);
    NoticesGrow(c, s, e);
    forall w | WorkerOf(t, w).Sent? ensures Delivers(t, WorkerOf(t, w).at) {
      if w == e.w {
        assert t.notices[|s.notices|].at == WorkerOf(t, w).at;
      } else {
        assert WorkerOf(t, w) == WorkerOf(s, w);
      }
    }
  }

  lemma {:induction false} EveryInterleaving(c: Config, events: seq<Event>)
    requires c.timeout >= 0 && StateAfter(c, events).Some?
    ensures Timely(c, StateAfter(c, events).value)
    ensures MarksAreDelivered(StateAfter(c, events).value, Lost(c, events))
  {
    if events != [] {
      var front, e := events[..|events| - 1], events[|events| - 1];
      EveryInterleaving(c, front);
      TimelyStep(c, StateAfter(c, front).value, e);
      MarksStep(c, StateAfter(c, front).value, Lost(c, front), e);
    }
  }

  // ---------------------------------------------------------------------------
  // Orderly runs
  // ---------------------------------------------------------------------------

  /** Every notice is a cooldown after the ones before it. */
  ghost predicate Spaced(c: Config, s: State) {
    forall i, j :: 0 <= i < j < |s.notices| ==> s.notices[j].at - s.notices[i].at >= c.cooldown
  }

  /** The mark of a notice is made, due, or lost. */
  ghost predicate Accounted(s: State, lost: set<int>, a: int) {
    || (s.last.Some? && a <= s.last.value)
    || a in lost
    || exists w :: WorkerOf(s, w) == Sent(a)
  }

  ghost predicate AllAccounted(s: State, lost: set<int>) {
    forall i :: 0 <= i < |s.notices| ==> Accounted(s, lost, s.notices[i].at)
  }

  /** One worker at most is past its read; it is a cooldown after all others that delivered, and after the mark. */
  ghost predicate OneSender(c: Config, s: State) {
    && (forall v, w :: Holds(s, v) && Holds(s, w) ==> v == w)
    && (forall w :: Holds(s, w) ==> Due(s.last, WorkerOf(s, w).at, c.cooldown))
    && (forall w, i :: WorkerOf(s, w).Ready? && 0 <= i < |s.notices| ==>
          WorkerOf(s, w).at - s.notices[i].at >= c.cooldown)
  }

  /** Who holds after a step held before it, or has just read. */
  lemma HolderOrigin(c: Config, s: State, e: Event, w: nat)
    requires Enabled(c, s, e) && Holds(Next(c, s, e), w)
    ensures WorkerOf(Next(c, s, e), w).at == WorkerOf(s, w).at
    ensures if w == e.w then Passes(c, s, e) || (e.Send? && WorkerOf(s, w).Ready?)
            else WorkerOf(Next(c, s, e), w) == WorkerOf(s, w)
  {
  }

  lemma NobodyHolds(c: Config, s: State, lost: set<int>, e: Event, w: nat)
    requires Orderly(c, s, lost, e) && Passes(c, s, e)
    ensures !Holds(s, w)
  {
    if w !in s.workers {
      assert WorkerOf(s, w).Idle?;
    }
  }

  lemma OneHolder(c: Config, s: State, lost: set<int>, e: Event, v: nat, w: nat)
    requires OneSender(c, s) && Enabled(c, s, e) && Orderly(c, s, lost, e)
    requires Holds(Next(c, s, e), v) && Holds(Next(c, s, e), w)
    ensures v == w
  {
    HolderOrigin(c, s, e, v);
    HolderOrigin(c, s, e, w);
    if Passes(c, s, e) {
      NobodyHolds(c, s, lost, e, v);
      NobodyHolds(c, s, lost, e, w);
    } else {
      assert Holds(s, v) && Holds(s, w);
    }
  }

  /** A job that passes its read comes a cooldown after every notice. */
  lemma PassedIsApart(c: Config, s: State, lost: set<int>, e: Event, i: nat)
    requires AllAccounted(s, lost) && Orderly(c, s, lost, e) && Passes(c, s, e) && i < |s.notices|
    ensures WorkerOf(s, e.w).at - s.notices[i].at >= c.cooldown
  {
    var a := s.notices[i].at;
    assert Accounted(s, lost, a);
    if w :| WorkerOf(s, w) == Sent(a) {
      NobodyHolds(c, s, lost, e, w);
    }
  }

  lemma ReadyIsApart(c: Config, s: State, lost: set<int>, e: Event, w: nat, i: nat)
    requires OneSender(c, s) && AllAccounted(s, lost) && Enabled(c, s, e) && Orderly(c, s, lost, e)
    requires WorkerOf(Next(c, s, e), w).Ready? && i < |Next(c, s, e).notices|
    ensures WorkerOf(Next(c, s, e), w).at - Next(c, s, e).notices[i].at >= c.cooldown
  {
    HolderOrigin(c, s, e, w);
    if w == e.w {
      PassedIsApart(c, s, lost, e, i);
    } else {
      assert Holds(s, w) && !Holds(s, e.w);
      assert Next(c, s, e).notices[i] == s.notices[i];
    }
  }

  lemma HolderIsDue(c: Config, s: State, e: Event, w: nat)
    requires OneSender(c, s) && Enabled(c, s, e) && Holds(Next(c, s, e), w)
    ensures Due(Next(c, s, e).last, WorkerOf(Next(c, s, e), w).at, c.cooldown)
  {
    HolderOrigin(c, s, e, w);
    if w != e.w {
      assert Holds(s, w) && !Holds(s, e.w);
    }
  }

  lemma SenderStep(c: Config, s: State, lost: set<int>, e: Event)
    requires OneSender(c, s) && AllAccounted(s, lost) && Enabled(c, s, e) && Orderly(c, s, lost, e)
    ensures OneSender(c, Next(c, s, e))
  {
    var t := Next(c, s, e);
    forall v, w | Holds(t, v) && Holds(t, w) ensures v == w {
      OneHolder(c, s, lost, e, v, w);
    }
    forall w | Holds(t, w) ensures Due(t.last, WorkerOf(t, w).at, c.cooldown) {
      HolderIsDue(c, s, e, w);
    }
    forall w, i | WorkerOf(t, w).Ready? && 0 <= i < |t.notices|
      ensures WorkerOf(t, w).at - t.notices[i].at >= c.cooldown
    {
      ReadyIsApart(c, s, lost, e, w, i);
    }
  }

  lemma AccountedStep(c: Config, s: State, lost: set<int>, e: Event, a: int)
    requires OneSender(c, s) && c.cooldown >= 0 && Enabled(c, s, e) && Accounted(s, lost, a)
    ensures Accounted(Next(c, s, e), lost + LostBy(s, e), a)
  {
    var t := Next(c, s, e);
    if w :| WorkerOf(s, w) == Sent(a) {
      if w != e.w {
        assert WorkerOf(t, w) == Sent(a);
      }
    } else if e.Mark? && s.last.Some? {
      assert Holds(s, e.w) && Due(s.last, WorkerOf(s, e.w).at, c.cooldown);
    }
  }

  lemma AllAccountedStep(c: Config, s: State, lost: set<int>, e: Event)
    requires OneSender(c, s) && c.cooldown >= 0 && AllAccounted(s, lost) && Enabled(c, s, e)
    ensures AllAccounted(Next(c, s, e), lost + LostBy(s, e))
  {
    var t := Next(c, s, e);
    forall i | 0 <= i < |t.notices| ensures Accounted(t, lost + LostBy(s, e), t.notices[i].at) {
      if i == |s.notices| {
        assert WorkerOf(t, e.w) == Sent(t.notices[i].at);
      } else {
        assert t.notices[i] == s.notices[i];
        AccountedStep(c, s, lost, e, s.notices[i].at);
      }
    }
  }

  lemma SpacedStep(c: Config, s: State, e: Event)
    requires Spaced(c, s) && OneSender(c, s) && Enabled(c, s, e)
    ensures Spaced(c, Next(c, s, e))
  {
    var t := Next(c, s, e);
    forall i, j | 0 <= i < j < |t.notices| ensures t.notices[j].at - t.notices[i].at >= c.cooldown {
      assert t.notices[i] == s.notices[i];
      if j == |s.notices| {
        assert WorkerOf(s, e.w).Ready? && t.notices[j].at == WorkerOf(s, e.w).at;
      } else {
        assert t.notices[j] == s.notices[j];
      }
    }
  }

  lemma {:induction false} OrderlyInvariant(c: Config, events: seq<Event>)
    requires c.cooldown >= 0 && StateAfter(c, events).Some? && OrderlyRun(c, events)
    ensures Spaced(c, StateAfter(c, events).value) && OneSender(c, StateAfter(c, events).value)
    ensures AllAccounted(StateAfter(c, events).value, Lost(c, events))
  {
    if events != [] {
      var front, e := events[..|events| - 1], events[|events| - 1];
      var s := StateAfter(c, front).value;
      OrderlyInvariant(c, front);
      SenderStep(c, s, Lost(c, front), e);
      AllAccountedStep(c, s, Lost(c, front), e);
      SpacedStep(c, s, e);
    }
  }

  /**
   Over an orderly run, whatever the outcomes of the sends, the jobs of any two notices start a cooldown apart, and the
   notices themselves are delivered a cooldown apart but for the time a job may take.
   */
  lemma OrderlyRunsKeepCooldown(c: Config, events: seq<Event>, i: nat, j: nat)
    requires c.cooldown >= 0 && c.timeout >= 0 && StateAfter(c, events).Some? && OrderlyRun(c, events)
    requires i < j < |StateAfter(c, events).value.notices|
    ensures var notices := StateAfter(c, events).value.notices;
            && notices[j].at - notices[i].at >= c.cooldown
            && notices[j].sentAt - notices[i].sentAt >= c.cooldown - c.timeout
  {
    OrderlyInvariant(c, events);
    EveryInterleaving(c, events);
  }

  // ---------------------------------------------------------------------------
  // Exactly when the cooldown is kept
  // ---------------------------------------------------------------------------

  predicate TooClose(c: Config, a: int, b: int) {
    -c.cooldown < a - b < c.cooldown
  }

  /** The promise. */
  ghost predicate KeepsCooldown(c: Config, s: State) {
    forall i, j :: 0 <= i < j < |s.notices| ==> !TooClose(c, s.notices[i].at, s.notices[j].at)
  }

  /** The step lets a job that may send go on to deliver. */
  predicate GoesOn(s: State, e: Event) {
    match e
    case Send(_, _, outcome) => outcome.Delivered?
    case Crash(w, _) => !WorkerOf(s, w).Ready?
    case _ => true
  }

  predicate DeliveringRun(c: Config, events: seq<Event>) {
    events == []
    || (DeliveringRun(c, events[..|events| - 1])
        && (StateAfter(c, events[..|events| - 1]).Some?
            ==> GoesOn(StateAfter(c, events[..|events| - 1]).value, events[|events| - 1])))
  }

  /** Two notices are too close, or bound to be. */
  ghost predicate CloseIsComing(c: Config, s: State) {
    || !KeepsCooldown(c, s)
    || (exists w, i :: 0 <= i < |s.notices| && ReadyNear(c, s, w, s.notices[i].at))
    || (exists v, w :: v != w && WorkerOf(s, v).Ready? && ReadyNear(c, s, w, WorkerOf(s, v).at))
  }

  predicate ReadyNear(c: Config, s: State, w: nat, a: int) {
    WorkerOf(s, w).Ready? && TooClose(c, WorkerOf(s, w).at, a)
  }

  /** A worker that may send stays so until it delivers. */
  lemma ReadyStays(c: Config, s: State, e: Event, w: nat)
    requires Enabled(c, s, e) && GoesOn(s, e) && WorkerOf(s, w).Ready?
    ensures WorkerOf(Next(c, s, e), w) == WorkerOf(s, w)
            || (w == e.w && Next(c, s, e).notices == s.notices + [Notice(WorkerOf(s, w).at, e.time)])
  {
  }

  lemma CloseStays(c: Config, s: State, e: Event)
    requires !KeepsCooldown(c, s) && Enabled(c, s, e)
    ensures !KeepsCooldown(c, Next(c, s, e))
  {
    var t := Next(c, s, e);
    var i, j :| 0 <= i < j < |s.notices| && TooClose(c, s.notices[i].at, s.notices[j].at);
    assert t.notices[i] == s.notices[i] && t.notices[j] == s.notices[j];
  }

  /** A worker near a notice delivers too close to it. */
  lemma NearNotice(c: Config, s: State, e: Event, w: nat, i: nat)
    requires Enabled(c, s, e) && GoesOn(s, e) && i < |s.notices| && ReadyNear(c, s, w, s.notices[i].at)
    ensures CloseIsComing(c, Next(c, s, e))
  {
    var t := Next(c, s, e);
    ReadyStays(c, s, e, w);
    NoticesGrow(c, s, e);
    assert t.notices[i] == s.notices[i];
    if WorkerOf(t, w) == WorkerOf(s, w) {
      assert ReadyNear(c, t, w, t.notices[i].at);
    } else {
      assert TooClose(c, t.notices[i].at, t.notices[|s.notices|].at);
    }
  }

  /** Of two workers near each other the first to deliver leaves the other near a notice. */
  lemma NearWorker(c: Config, s: State, e: Event, v: nat, w: nat)
    requires Enabled(c, s, e) && GoesOn(s, e)
    requires v != w && WorkerOf(s, v).Ready? && ReadyNear(c, s, w, WorkerOf(s, v).at)
    ensures CloseIsComing(c, Next(c, s, e))
  {
    var t := Next(c, s, e);
    ReadyStays(c, s, e, v);
    ReadyStays(c, s, e, w);
    if WorkerOf(t, v) == WorkerOf(s, v) && WorkerOf(t, w) == WorkerOf(s, w) {
      assert ReadyNear(c, t, w, WorkerOf(t, v).at);
    } else if WorkerOf(t, v) == WorkerOf(s, v) {
      assert ReadyNear(c, t, v, t.notices[|s.notices|].at);
    } else {
      assert ReadyNear(c, t, w, t.notices[|s.notices|].at);
    }
  }

  lemma ComingStep(c: Config, s: State, e: Event)
    requires CloseIsComing(c, s) && Enabled(c, s, e) && GoesOn(s, e)
    ensures CloseIsComing(c, Next(c, s, e))
  {
    if !KeepsCooldown(c, s) {
      CloseStays(c, s, e);
    } else if w, i :| 0 <= i < |s.notices| && ReadyNear(c, s, w, s.notices[i].at) {
      NearNotice(c, s, e, w, i);
    } else {
      var v, w :| v != w && WorkerOf(s, v).Ready? && ReadyNear(c, s, w, WorkerOf(s, v).at);
      NearWorker(c, s, e, v, w);
    }
  }

  /** A job that may send near a delivered one. */
  lemma NearDelivered(c: Config, s: State, w: nat, a: int)
    requires Delivers(s, a) && ReadyNear(c, s, w, a)
    ensures CloseIsComing(c, s)
  {
    var i :| 0 <= i < |s.notices| && s.notices[i].at == a;
    assert ReadyNear(c, s, w, s.notices[i].at);
  }

  /** An overlapping read, or one after a lost mark, makes two notices come too close. */
  lemma DisorderlyStep(c: Config, s: State, lost: set<int>, e: Event)
    requires 0 <= c.timeout < c.cooldown && Timely(c, s) && MarksAreDelivered(s, lost)
    requires Enabled(c, s, e) && !Orderly(c, s, lost, e)
    ensures CloseIsComing(c, Next(c, s, e))
  {
    var t, at := Next(c, s, e), WorkerOf(s, e.w).at;
    assert WorkerOf(t, e.w) == Ready(at);
    assert at <= s.now <= at + c.timeout;
    NoticesGrow(c, s, e);
    if a :| a in lost && at - a < c.cooldown {
      DeliveredInThePast(c, s, a);
      NearDelivered(c, t, e.w, a);
    } else {
      var v :| v in s.workers && Holds(s, v);
      assert v != e.w && WorkerOf(t, v) == WorkerOf(s, v);
      assert TooClose(c, at, WorkerOf(s, v).at);
      if WorkerOf(s, v).Ready? {
        assert ReadyNear(c, t, e.w, WorkerOf(t, v).at);
      } else {
        NearDelivered(c, t, e.w, WorkerOf(s, v).at);
      }
    }
  }

  lemma DeliveredInThePast(c: Config, s: State, a: int)
    requires Timely(c, s) && Delivers(s, a)
    ensures a <= s.now
  {
    var i :| 0 <= i < |s.notices| && s.notices[i].at == a;
    assert s.notices[i].at <= s.notices[i].sentAt <= s.now;
  }

  lemma {:induction false} DisorderlyRuns(c: Config, events: seq<Event>)
    requires 0 <= c.timeout < c.cooldown && StateAfter(c, events).Some?
    requires DeliveringRun(c, events) && !OrderlyRun(c, events)
    ensures CloseIsComing(c, StateAfter(c, events).value)
  {
    var front, e := events[..|events| - 1], events[|events| - 1];
    var s := StateAfter(c, front).value;
    if OrderlyRun(c, front) {
      EveryInterleaving(c, front);
      DisorderlyStep(c, s, Lost(c, front), e);
    } else {
      DisorderlyRuns(c, front);
      ComingStep(c, s, e);
    }
  }

  /**
   The promise, exactly: over a run in which whoever may send delivers, and with a cooldown above the time a job may
   take, no two notices are too close iff no read that lets its job send overlaps with another such job before its mark,
   or comes within the cooldown after a job whose mark was lost to a crash.
   */
  lemma CooldownIsKeptIff(c: Config, events: seq<Event>)
    requires 0 <= c.timeout < c.cooldown && StateAfter(c, events).Some? && DeliveringRun(c, events)
    requires forall w :: !WorkerOf(StateAfter(c, events).value, w).Ready?
    ensures KeepsCooldown(c, StateAfter(c, events).value) <==> OrderlyRun(c, events)
  {
    if OrderlyRun(c, events) {
      OrderlyInvariant(c, events);
    } else {
      DisorderlyRuns(c, events);
    }
  }

  // ---------------------------------------------------------------------------
  // Three runs
  // ---------------------------------------------------------------------------

  lemma Follow(c: Config, events: seq<Event>, s: State, e: Event)
    requires StateAfter(c, events) == Some(s) && Enabled(c, s, e)
    ensures StateAfter(c, events + [e]) == Some(Next(c, s, e))
  {
    assert (events + [e])[..|events|] == events;
  }

  /** A whole job up to its delivery, started and finished within `took`. */
  lemma FollowJob(c: Config, events: seq<Event>, s: State, w: nat, at: int, took: int)
      returns (longer: seq<Event>, t: State)
    requires StateAfter(c, events) == Some(s) && WorkerOf(s, w).Idle? && Due(s.last, at, c.cooldown)
    requires 0 <= took <= c.timeout && InTime(c, s, at) && InTime(c, s, at + took)
    ensures StateAfter(c, longer) == Some(t) && t.now == at + took && t.last == s.last
    ensures t.notices == s.notices + [Notice(at, at + took)]
    ensures t.workers == s.workers[w := Sent(at)]
  {
    var start, read, send := Start(w, at), Read(w, at, true), Send(w, at + took, Delivered);
    var s1 := Next(c, s, start);
    Follow(c, events, s, start);
    var s2 := Next(c, s1, read);
    Follow(c, events + [start], s1, read);
    Follow(c, events + [start] + [read], s2, send);
    longer, t := events + [start] + [read] + [send], Next(c, s2, send);
  }

  /** Two jobs that both read before either marks tell the same subscriber twice at once. */
  lemma OverlapBreaksCooldown(c: Config) returns (events: seq<Event>)
    requires 0 <= c.timeout < c.cooldown
    ensures StateAfter(c, events).Some? && |StateAfter(c, events).value.notices| == 2
    ensures !KeepsCooldown(c, StateAfter(c, events).value)
  {
    var s: State;
    events, s := FollowJob(c, [], INIT, 0, 0, 0);
    events, s := FollowJob(c, events, s, 1, 0, 0);
    assert TooClose(c, s.notices[0].at, s.notices[1].at);
  }

  /** A job that dies between delivery and mark lets the next one tell again, however soon it comes. */
  lemma LostMarkBreaksCooldown(c: Config, later: int) returns (events: seq<Event>)
    requires 0 <= c.timeout && 0 <= later < c.cooldown
    ensures StateAfter(c, events).Some? && |StateAfter(c, events).value.notices| == 2
    ensures !KeepsCooldown(c, StateAfter(c, events).value)
  {
    var s: State;
    events, s := FollowJob(c, [], INIT, 0, 0, 0);
    Follow(c, events, s, Crash(0, 0));
    events, s := events + [Crash(0, 0)], Next(c, s, Crash(0, 0));
    events, s := FollowJob(c, events, s, 0, later, 0);
    assert TooClose(c, s.notices[0].at, s.notices[1].at);
  }

  /** The mark is the time a job took at its start: a slow job and a fast one deliver closer than the cooldown. */
  lemma SlowJobShortensCooldown(c: Config) returns (events: seq<Event>)
    requires 0 <= c.timeout < c.cooldown
    ensures StateAfter(c, events).Some? && |StateAfter(c, events).value.notices| == 2
    ensures var notices := StateAfter(c, events).value.notices;
            && KeepsCooldown(c, StateAfter(c, events).value)
            && notices[1].sentAt - notices[0].sentAt == c.cooldown - c.timeout
  {
    var s: State;
    events, s := FollowJob(c, [], INIT, 0, 0, c.timeout);
    Follow(c, events, s, Mark(0, c.timeout));
    events, s := events + [Mark(0, c.timeout)], Next(c, s, Mark(0, c.timeout));
    events, s := FollowJob(c, events, s, 0, c.cooldown, 0);
  }

  // ---------------------------------------------------------------------------
  // One job after another is an orderly run
  // ---------------------------------------------------------------------------

  /** The notices that jobs deliver one after another. */
  function Told(jobs: seq<Job>, cooldown: int): seq<Notice> {
    if jobs == [] then []
    else
      var front, job := jobs[..|jobs| - 1], jobs[|jobs| - 1];
      Told(front, cooldown) + if Tells(LastTold(front, cooldown), job, cooldown) then [Notice(job.now, job.now)] else []
  }

  /** Nobody runs, and no mark was lost. */
  ghost predicate AtRest(c: Config, events: seq<Event>, s: State) {
    && StateAfter(c, events) == Some(s) && OrderlyRun(c, events) && Lost(c, events) == {}
    && forall w :: WorkerOf(s, w).Idle?
  }

  /** Nobody but the first worker runs, in an orderly run that lost no mark. */
  ghost predicate OnlyFirst(c: Config, events: seq<Event>, s: State) {
    && StateAfter(c, events) == Some(s) && OrderlyRun(c, events) && Lost(c, events) == {}
    && forall w :: w != 0 ==> WorkerOf(s, w).Idle?
  }

  /** The event suits the worker's phase. */
  predicate Suits(worker: Worker, e: Event) {
    match e
    case Start(_, _) => worker.Idle?
    case Read(_, _, _) => worker.Started?
    case Send(_, _, _) => worker.Ready?
    case Mark(_, _) => worker.Sent?
    case Crash(_, _) => false
  }

  lemma FirstIsInTime(c: Config, s: State, time: int)
    requires forall w :: w != 0 ==> WorkerOf(s, w).Idle?
    requires s.now <= time && (WorkerOf(s, 0).Idle? || time <= WorkerOf(s, 0).at + c.timeout)
    ensures InTime(c, s, time)
  {
    forall w | w in s.workers && !s.workers[w].Idle? ensures time <= s.workers[w].at + c.timeout {
      assert WorkerOf(s, w) == s.workers[w];
    }
  }

  lemma FirstIsOrderly(c: Config, s: State, e: Event)
    requires (forall w :: w != 0 ==> WorkerOf(s, w).Idle?) && e.w == 0 && Suits(WorkerOf(s, 0), e)
    ensures Orderly(c, s, {}, e)
  {
    if Passes(c, s, e) {
      forall v | v in s.workers ensures !Holds(s, v) {
        assert v != 0 ==> WorkerOf(s, v).Idle?;
      }
    }
  }

  lemma OrderlyFollow(c: Config, events: seq<Event>, s: State, e: Event)
    requires StateAfter(c, events) == Some(s) && OrderlyRun(c, events) && Lost(c, events) == {}
    requires Enabled(c, s, e) && !e.Crash? && Orderly(c, s, {}, e)
    ensures StateAfter(c, events + [e]) == Some(Next(c, s, e))
    ensures OrderlyRun(c, events + [e]) && Lost(c, events + [e]) == {}
  {
    assert (events + [e])[..|events|] == events;
  }

  /** One step of the first worker. */
  lemma FirstStep(c: Config, events: seq<Event>, s: State, e: Event) returns (longer: seq<Event>, t: State)
    requires OnlyFirst(c, events, s) && e.w == 0 && Suits(WorkerOf(s, 0), e)
    requires s.now <= e.time && (WorkerOf(s, 0).Idle? || e.time <= WorkerOf(s, 0).at + c.timeout)
    ensures Enabled(c, s, e) && t == Next(c, s, e) && OnlyFirst(c, longer, t)
  {
    FirstIsInTime(c, s, e.time);
    FirstIsOrderly(c, s, e);
    OrderlyFollow(c, events, s, e);
    longer, t := events + [e], Next(c, s, e);
    forall w | w != 0 ensures WorkerOf(t, w).Idle? {
      assert WorkerOf(t, w) == WorkerOf(s, w);
    }
  }

  /** What a job that may send does to the state. */
  lemma RunSend(c: Config, events: seq<Event>, s: State, job: Job) returns (longer: seq<Event>, t: State)
    requires OnlyFirst(c, events, s) && WorkerOf(s, 0) == Ready(job.now) && s.now == job.now && c.timeout >= 0
    ensures AtRest(c, longer, t) && t.now == job.now
    ensures t.last == if job.outcome.Delivered? then Some(job.now) else s.last
    ensures t.notices == s.notices + if job.outcome.Delivered? then [Notice(job.now, job.now)] else []
  {
    longer, t := FirstStep(c, events, s, Send(0, job.now, job.outcome));
    if job.outcome.Delivered? {
      longer, t := FirstStep(c, longer, t, Mark(0, job.now));
    }
    assert WorkerOf(t, 0).Idle?;
  }

  lemma RunJob(c: Config, events: seq<Event>, s: State, job: Job) returns (longer: seq<Event>, t: State)
    requires AtRest(c, events, s) && s.now <= job.now && c.timeout >= 0
    ensures AtRest(c, longer, t) && t.now == job.now
    ensures t.last == if Tells(s.last, job, c.cooldown) then Some(job.now) else s.last
    ensures t.notices == s.notices + if Tells(s.last, job, c.cooldown) then [Notice(job.now, job.now)] else []
  {
    longer, t := FirstStep(c, events, s, Start(0, job.now));
    assert WorkerOf(t, 0) == Started(job.now);
    longer, t := FirstStep(c, longer, t, Read(0, job.now, job.wanted));
    if job.wanted && Due(s.last, job.now, c.cooldown) {
      longer, t := RunSend(c, longer, t, job);
    } else {
      assert WorkerOf(t, 0).Idle?;
    }
  }

  /** Jobs one after another are an orderly run of one worker, with the same marks and notices. */
  lemma {:induction false} SequentialRunsAreOrderly(c: Config, jobs: seq<Job>) returns (events: seq<Event>, s: State)
    requires c.timeout >= 0 && InOrder(jobs) && (jobs != [] ==> jobs[0].now >= 0)
    ensures AtRest(c, events, s) && s.now == if jobs == [] then 0 else jobs[|jobs| - 1].now
    ensures s.last == LastTold(jobs, c.cooldown) && s.notices == Told(jobs, c.cooldown)
    decreases |jobs|
  {
    if jobs == [] {
      events, s := [], INIT;
    } else {
      var front, job := jobs[..|jobs| - 1], jobs[|jobs| - 1];
      assert forall i :: 0 <= i < |front| ==> front[i] == jobs[i];
      events, s := SequentialRunsAreOrderly(c, front);
      events, s := RunJob(c, events, s, job);
    }
  }
}
