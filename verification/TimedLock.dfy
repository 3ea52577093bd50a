/**
 The Redis lock around the check tasks, as a state machine over many workers and a clock.

 A task starts, tries `SET key NX EX ttl`, runs its body when it got the key, and leaves through its `finally`,
 which sends the delete; the delete takes effect some time later. The job runner cancels whatever still runs
 `timeout` ticks after its start, and a delete takes effect at most `cleanup` ticks after that moment.
 Three shapes occur: `check_dns` and its siblings delete the key in a `finally` reached only by the
 worker that acquired it, `check_dns_report` deletes it in a `finally` every worker reaches, and
 `check_subdomains` never deletes it.
 */
module TimedLock {
  import opened Sequences

  datatype Release = ByOwner | ByEveryone | ByExpiryOnly

  datatype Config = Config(ttl: nat, timeout: nat, cleanup: nat, release: Release)

  /** A job's phase, with the time it started; a leaving job has sent its delete, which has not arrived. */
  datatype Job = Started(at: nat) | InBody(at: nat) | Rejected(at: nat) | Leaving(at: nat) | Done

  datatype Lease = Lease(owner: nat, expiry: nat)

  datatype State = State(clock: nat, key: Option<Lease>, jobs: map<nat, Job>)

  const INIT := State(0, None, map[])

  /** The key exists for Redis: it was set and has not expired. */
  predicate KeyExists(s: State) {
    s.key.Some? && s.clock < s.key.value.expiry
  }

  predicate Running(s: State, w: nat) {
    w in s.jobs && !s.jobs[w].Done?
  }

  /** The last moment at which a job can be in its phase. */
  function Deadline(c: Config, j: Job): nat
    requires !j.Done?
  {
    j.at + c.timeout + if j.Leaving? then c.cleanup else 0
  }

  predicate Due(c: Config, s: State, w: nat) {
    Running(s, w) && s.clock >= Deadline(c, s.jobs[w])
  }

  datatype Event = Begin(w: nat) | Acquire(w: nat) | Leave(w: nat) | Delete(w: nat) | Tick

  ghost predicate Enabled(c: Config, s: State, e: Event) {
    match e
    case Begin(w) => w !in s.jobs
    // acquisition comes strictly after the start of the job
    case Acquire(w) => w in s.jobs && s.jobs[w].Started? && s.jobs[w].at < s.clock
    // completion, failure and cancellation alike
    case Leave(w) => Running(s, w) && !s.jobs[w].Leaving?
    case Delete(w) => w in s.jobs && s.jobs[w].Leaving?
    // time does not pass a deadline
    case Tick => forall w :: w in s.jobs ==> !Due(c, s, w)
  }

  predicate Deletes(c: Config, j: Job) {
    match c.release
    case ByOwner => j.InBody?
    case ByEveryone => true
    case ByExpiryOnly => false
  }

  function Next(c: Config, s: State, e: Event): State
    requires Enabled(c, s, e)
  {
    match e
    case Begin(w) => s.(jobs := s.jobs[w := Started(s.clock)])
    case Acquire(w) =>
      if KeyExists(s) then s.(jobs := s.jobs[w := Rejected(s.jobs[w].at)])
      else s.(jobs := s.jobs[w := InBody(s.jobs[w].at)], key := Some(Lease(w, s.clock + c.ttl)))
    case Leave(w) => s.(jobs := s.jobs[w := if Deletes(c, s.jobs[w]) then Leaving(s.jobs[w].at) else Done])
    // whatever is stored under the key goes, whoever put it there
    case Delete(w) => s.(jobs := s.jobs[w := Done], key := None)
    case Tick => s.(clock := s.clock + 1)
  }

  /** The state after a run; None when some event was not enabled in its turn. */
  ghost function StateAfter(c: Config, events: seq<Event>): Option<State> {
    if events == [] then Some(INIT)
    else
      var before, e := StateAfter(c, events[..|events| - 1]), events[|events| - 1];
      if before.Some? && Enabled(c, before.value, e) then Some(Next(c, before.value, e)) else None
  }

  ghost predicate Runs(c: Config, events: seq<Event>, s: State) {
    StateAfter(c, events) == Some(s)
  }

  ghost predicate Exclusive(s: State) {
    forall v, w :: v in s.jobs && w in s.jobs && s.jobs[v].InBody? && s.jobs[w].InBody? ==> v == w
  }

  /** The key outlives everything its owner may still do with it. */
  predicate LivesLongEnough(c: Config) {
    match c.release
    case ByOwner => c.timeout + c.cleanup <= c.ttl
    case ByEveryone => false
    case ByExpiryOnly => c.timeout <= c.ttl
  }

  /** In the body, or with a delete under way. */
  predicate UsesKey(s: State, w: nat) {
    w in s.jobs && (s.jobs[w].InBody? || s.jobs[w].Leaving?)
  }

  /** Whoever uses the key owns it, and the key outlives the time the job has left. */
  ghost predicate UserOwnsKey(c: Config, s: State) {
    && (forall w :: Running(s, w) ==> s.clock <= Deadline(c, s.jobs[w]))
    && (forall w :: w in s.jobs && s.jobs[w].Leaving? ==> c.release == ByOwner)
    && (forall w :: UsesKey(s, w) ==>
          s.key.Some? && s.key.value.owner == w && s.key.value.expiry > s.jobs[w].at + c.ttl)
  }

  lemma StepMeetsDeadlines(c: Config, s: State, e: Event, w: nat)
    requires Enabled(c, s, e) && Running(Next(c, s, e), w)
    requires Running(s, w) ==> s.clock <= Deadline(c, s.jobs[w])
    ensures Next(c, s, e).clock <= Deadline(c, Next(c, s, e).jobs[w])
  {
    assert e.Tick? ==> !Due(c, s, w) && Running(s, w);
  }

  lemma StepKeepsOwner(c: Config, s: State, e: Event, w: nat)
    requires LivesLongEnough(c) && UserOwnsKey(c, s) && Enabled(c, s, e) && UsesKey(Next(c, s, e), w)
    ensures var t := Next(c, s, e);
            t.key.Some? && t.key.value.owner == w && t.key.value.expiry > t.jobs[w].at + c.ttl
  {
    if !(e.Acquire? && e.w == w) {
      assert UsesKey(s, w) && Running(s, w);
    }
  }

  lemma StepKeepsOwnership(c: Config, s: State, e: Event)
    requires LivesLongEnough(c) && UserOwnsKey(c, s) && Enabled(c, s, e)
    ensures UserOwnsKey(c, Next(c, s, e))
  {
    var t := Next(c, s, e);
    forall w | Running(t, w) ensures t.clock <= Deadline(c, t.jobs[w]) {
      StepMeetsDeadlines(c, s, e, w);
    }
    forall w | UsesKey(t, w)
      ensures t.key.Some? && t.key.value.owner == w && t.key.value.expiry > t.jobs[w].at + c.ttl
    {
      StepKeepsOwner(c, s, e, w);
    }
  }

  lemma {:induction false} RunKeepsOwnership(c: Config, events: seq<Event>, s: State)
    requires LivesLongEnough(c) && Runs(c, events, s)
    ensures UserOwnsKey(c, s)
  {
    if events != [] {
      var front, e := events[..|events| - 1], events[|events| - 1];
      var t := StateAfter(c, front).value;
      RunKeepsOwnership(c, front, t);
      StepKeepsOwnership(c, t, e);
    }
  }

  ghost predicate Safe(c: Config) {
    forall events, s :: Runs(c, events, s) ==> Exclusive(s)
  }

  /** A delete that takes effect finds the worker's own key, and it had not expired. */
  lemma DeleteRemovesOwnKey(c: Config, events: seq<Event>, s: State, w: nat)
    requires LivesLongEnough(c) && Runs(c, events, s) && Enabled(c, s, Delete(w))
    ensures KeyExists(s) && s.key.value.owner == w
  {
    RunKeepsOwnership(c, events, s);
    assert Running(s, w) && UsesKey(s, w);
  }

  // ---------------------------------------------------------------------------
  // Runs that break exclusion
  // ---------------------------------------------------------------------------

  lemma RunsSnoc(c: Config, events: seq<Event>, t: State, e: Event)
    requires Runs(c, events, t) && Enabled(c, t, e)
    ensures Runs(c, events + [e], Next(c, t, e))
  {
    assert (events + [e])[..|events|] == events;
  }

  lemma {:induction false} RunsTicks(c: Config, events: seq<Event>, s: State, n: nat) returns (longer: seq<Event>)
    requires Runs(c, events, s)
    requires forall w :: Running(s, w) ==> s.clock + n <= Deadline(c, s.jobs[w])
    ensures Runs(c, longer, s.(clock := s.clock + n))
    decreases n
  {
    if n == 0 {
      longer := events;
    } else {
      var t := s.(clock := s.clock + 1);
      RunsSnoc(c, events, s, Tick);
      assert forall w :: Running(t, w) ==> Running(s, w);
      longer := RunsTicks(c, events + [Tick], t, n - 1);
    }
  }

  /** Workers 0 to 2 have started, one tick has passed, and worker 0 is in the body. */
  lemma FirstWorkerInBody(c: Config) returns (events: seq<Event>, s: State)
    requires c.ttl > 0 && c.timeout > 0
    ensures Runs(c, events, s)
    ensures s == State(1, Some(Lease(0, 1 + c.ttl)), map[0 := InBody(0), 1 := Started(0), 2 := Started(0)])
  {
    events, s := [], INIT;
    RunsSnoc(c, [], INIT, Begin(0));
    var s1 := Next(c, INIT, Begin(0));
    RunsSnoc(c, [] + [Begin(0)], s1, Begin(1));
    var s2 := Next(c, s1, Begin(1));
    RunsSnoc(c, [] + [Begin(0)] + [Begin(1)], s2, Begin(2));
    var s3 := Next(c, s2, Begin(2));
    assert s3.jobs == map[0 := Started(0), 1 := Started(0), 2 := Started(0)];
    events := RunsTicks(c, [] + [Begin(0)] + [Begin(1)] + [Begin(2)], s3, 1);
    var s4 := s3.(clock := 1);
    RunsSnoc(c, events, s4, Acquire(0));
    events, s := events + [Acquire(0)], Next(c, s4, Acquire(0));
  }

  /** Three workers: the rejected one deletes the key of the first, and the third walks in. */
  lemma RejectedWorkerOpensTheDoor(c: Config) returns (events: seq<Event>, s: State)
    requires c.release == ByEveryone && c.ttl > 0 && c.timeout > 0
    ensures Runs(c, events, s) && !Exclusive(s)
  {
    events, s := FirstWorkerInBody(c);
    RunsSnoc(c, events, s, Acquire(1));
    events, s := events + [Acquire(1)], Next(c, s, Acquire(1));
    RunsSnoc(c, events, s, Leave(1));
    events, s := events + [Leave(1)], Next(c, s, Leave(1));
    RunsSnoc(c, events, s, Delete(1));
    events, s := events + [Delete(1)], Next(c, s, Delete(1));
    RunsSnoc(c, events, s, Acquire(2));
    events, s := events + [Acquire(2)], Next(c, s, Acquire(2));
    assert s.jobs[0].InBody? && s.jobs[2].InBody?;
  }

  /** Two workers: the first is still allowed to run when its key expires. */
  lemma KeyExpiresUnderItsOwner(c: Config) returns (events: seq<Event>, s: State)
    requires 0 < c.ttl < c.timeout
    ensures Runs(c, events, s) && !Exclusive(s)
  {
    events, s := FirstWorkerInBody(c);
    events := RunsTicks(c, events, s, c.ttl);
    s := s.(clock := s.clock + c.ttl);
    RunsSnoc(c, events, s, Acquire(1));
    events, s := events + [Acquire(1)], Next(c, s, Acquire(1));
    assert s.jobs[0].InBody? && s.jobs[1].InBody?;
  }

  /** Worker 0 alone has started and gets the key a tick later. */
  lemma LoneWorkerInBody(c: Config) returns (events: seq<Event>, s: State)
    requires c.ttl > 0 && c.timeout > 0
    ensures Runs(c, events, s) && s == State(1, Some(Lease(0, 1 + c.ttl)), map[0 := InBody(0)])
  {
    RunsSnoc(c, [], INIT, Begin(0));
    s := Next(c, INIT, Begin(0));
    assert s.jobs == map[0 := Started(0)];
    events := RunsTicks(c, [] + [Begin(0)], s, 1);
    s := s.(clock := 1);
    RunsSnoc(c, events, s, Acquire(0));
    events, s := events + [Acquire(0)], Next(c, s, Acquire(0));
  }

  /** Worker 0 leaves the body at its timeout, and its delete is on the way for as long as its key lives. */
  lemma DeleteUnderWay(c: Config) returns (events: seq<Event>, s: State)
    requires c.release == ByOwner && 0 < c.timeout <= c.ttl < c.timeout + c.cleanup
    ensures Runs(c, events, s) && s == State(c.ttl, Some(Lease(0, 1 + c.ttl)), map[0 := Leaving(0)])
  {
    events, s := LoneWorkerInBody(c);
    events := RunsTicks(c, events, s, c.timeout - 1);
    s := s.(clock := c.timeout);
    RunsSnoc(c, events, s, Leave(0));
    events, s := events + [Leave(0)], Next(c, s, Leave(0));
    assert s.jobs == map[0 := Leaving(0)];
    events := RunsTicks(c, events, s, c.ttl - c.timeout);
    s := s.(clock := c.ttl);
  }

  /** Three workers: a delete that arrives after the key expired hits the key of the second, and the third walks in. */
  lemma LateDeleteHitsAnother(c: Config) returns (events: seq<Event>, s: State)
    requires c.release == ByOwner && 0 < c.timeout <= c.ttl < c.timeout + c.cleanup
    ensures Runs(c, events, s) && !Exclusive(s)
  {
    events, s := DeleteUnderWay(c);
    RunsSnoc(c, events, s, Begin(1));
    events, s := events + [Begin(1)], Next(c, s, Begin(1));
    RunsSnoc(c, events, s, Begin(2));
    events, s := events + [Begin(2)], Next(c, s, Begin(2));
    assert s.jobs == map[0 := Leaving(0), 1 := Started(c.ttl), 2 := Started(c.ttl)];
    events := RunsTicks(c, events, s, 1);
    s := s.(clock := c.ttl + 1);
    RunsSnoc(c, events, s, Acquire(1));
    events, s := events + [Acquire(1)], Next(c, s, Acquire(1));
    RunsSnoc(c, events, s, Delete(0));
    events, s := events + [Delete(0)], Next(c, s, Delete(0));
    RunsSnoc(c, events, s, Acquire(2));
    events, s := events + [Acquire(2)], Next(c, s, Acquire(2));
    assert s.jobs[1].InBody? && s.jobs[2].InBody?;
  }

  /** Exactly when the lock keeps two workers out of the body, over all runs. */
  lemma SafeIff(c: Config)
    requires c.ttl > 0 && c.timeout > 0
    ensures Safe(c) <==> LivesLongEnough(c)
  {
    if c.release == ByEveryone {
      var events, s := RejectedWorkerOpensTheDoor(c);
    } else if c.timeout > c.ttl {
      var events, s := KeyExpiresUnderItsOwner(c);
    } else if !LivesLongEnough(c) {
      var events, s := LateDeleteHitsAnother(c);
    } else {
      forall events, s | Runs(c, events, s) ensures Exclusive(s) {
        RunKeepsOwnership(c, events, s);
        assert forall w :: w in s.jobs && s.jobs[w].InBody? ==> UsesKey(s, w);
      }
    }
  }

  const JOB_TIMEOUT: nat := 60
  const CHECK_TTL: nat := 60
  const REPORT_TTL: nat := 90
  const DEEP_EMAIL_TTL: nat := 90

  /**
   The shapes with the constants in use. A lifetime equal to the timeout leaves no time at all for a delete that is
   still under way when the job is cancelled; a key that nobody deletes is safe; the DNS report is unsafe however fast
   its deletes are.
   */
  lemma LocksInUse(cleanup: nat)
    ensures Safe(Config(CHECK_TTL, JOB_TIMEOUT, cleanup, ByOwner)) <==> cleanup == 0
    ensures Safe(Config(CHECK_TTL, JOB_TIMEOUT, cleanup, ByExpiryOnly))
    ensures Safe(Config(DEEP_EMAIL_TTL, JOB_TIMEOUT, cleanup, ByExpiryOnly))
    ensures !Safe(Config(REPORT_TTL, JOB_TIMEOUT, cleanup, ByEveryone))
  {
    SafeIff(Config(DEEP_EMAIL_TTL, JOB_TIMEOUT, cleanup, ByExpiryOnly));
    SafeIff(Config(CHECK_TTL, JOB_TIMEOUT, cleanup, ByOwner));
    SafeIff(Config(CHECK_TTL, JOB_TIMEOUT, cleanup, ByExpiryOnly));
    SafeIff(Config(REPORT_TTL, JOB_TIMEOUT, cleanup, ByEveryone));
  }
}
