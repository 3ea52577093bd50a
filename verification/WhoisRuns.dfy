/** Whole runs of `check_domain` on one domain, from an arbitrary row. */
module WhoisRuns {
  import opened Sequences
  import opened CheckChain
  import opened WhoisCheck

  function RowAfter(start: Option<Row>, events: seq<Event>, l: Limits): Option<Row> {
    if events == [] then start else NextRow(RowAfter(start, events[..|events| - 1], l), events[|events| - 1], l)
  }

  predicate AnnouncedAt(start: Option<Row>, events: seq<Event>, l: Limits, i: nat, c: Change)
    requires i < |events|
  {
    Announces(RowAfter(start, events[..i], l), events[i], c)
  }

  function Successes(events: seq<Event>): nat {
    if events == [] then 0
    else Successes(events[..|events| - 1]) + if events[|events| - 1].Answered? then 1 else 0
  }

  // ---------------------------------------------------------------------------
  // Drift of the expiry date below the tolerance
  // ---------------------------------------------------------------------------

  predicate NoExpiryNotice(start: Option<Row>, events: seq<Event>, l: Limits) {
    forall i :: 0 <= i < |events| ==> !AnnouncedAt(start, events, l, i, ExpiresAt)
  }

  lemma NoExpiryNoticePrefix(start: Option<Row>, events: seq<Event>, l: Limits)
    requires events != [] && NoExpiryNotice(start, events, l)
    ensures NoExpiryNotice(start, events[..|events| - 1], l)
  {
    var front := events[..|events| - 1];
    forall i | 0 <= i < |front| ensures !AnnouncedAt(start, front, l, i, ExpiresAt) {
      assert !AnnouncedAt(start, events, l, i, ExpiresAt);
      assert front[..i] == events[..i];
    }
  }

  /** While no expiry notice is sent, the stored date moves by at most an hour per successful check. */
  lemma {:induction false} DriftBound(start: Row, events: seq<Event>, l: Limits)
    requires start.expires.Some? && NoExpiryNotice(Some(start), events, l)
    ensures RowAfter(Some(start), events, l).Some? && RowAfter(Some(start), events, l).value.expires.Some?
    ensures var moved := RowAfter(Some(start), events, l).value.expires.value - start.expires.value;
            -(Successes(events) * DATE_TOLERANCE) <= moved <= Successes(events) * DATE_TOLERANCE
  {
    if events != [] {
      NoExpiryNoticePrefix(Some(start), events, l);
      DriftBound(start, events[..|events| - 1], l);
      assert !AnnouncedAt(Some(start), events, l, |events| - 1, ExpiresAt);
    }
  }

  function Drifting(first: Data, n: nat): seq<Event>
    requires first.expires.Some?
  {
    seq(n, i requires 0 <= i < n =>
          Answered(first.(expires := Some(first.expires.value + (i + 1) * DATE_TOLERANCE)), false, 0))
  }

  lemma DriftingPrefix(first: Data, n: nat)
    requires first.expires.Some? && n > 0
    ensures Drifting(first, n)[..n - 1] == Drifting(first, n - 1)
    ensures Drifting(first, n)[n - 1]
         == Answered(first.(expires := Some(first.expires.value + n * DATE_TOLERANCE)), false, 0)
  {
  }

  /** One more silent hour. */
  lemma DriftingStep(first: Data, row: Row, n: nat, l: Limits)
    requires first.expires.Some? && n > 0
    requires row.expires == Some(first.expires.value + (n - 1) * DATE_TOLERANCE)
    ensures var e := Answered(first.(expires := Some(first.expires.value + n * DATE_TOLERANCE)), false, 0);
            && !Announces(Some(row), e, ExpiresAt)
            && NextRow(Some(row), e, l).value.expires == Some(first.expires.value + n * DATE_TOLERANCE)
  {
  }

  lemma NoExpiryNoticeSnoc(start: Option<Row>, front: seq<Event>, e: Event, l: Limits)
    requires NoExpiryNotice(start, front, l) && !Announces(RowAfter(start, front, l), e, ExpiresAt)
    ensures NoExpiryNotice(start, front + [e], l)
  {
    var events := front + [e];
    assert events[..|front|] == front;
    forall i | 0 <= i < |events| ensures !AnnouncedAt(start, events, l, i, ExpiresAt) {
      if i < |front| {
        assert !AnnouncedAt(start, front, l, i, ExpiresAt);
        assert front[..i] == events[..i] && front[i] == events[i];
      }
    }
  }

  /** The bound is attained: n checks move the date by n hours and never mention it. */
  lemma {:induction false} DriftAttained(first: Data, n: nat, l: Limits)
    requires first.expires.Some?
    ensures var start := Store(first, 0, None);
            && NoExpiryNotice(Some(start), Drifting(first, n), l)
            && Successes(Drifting(first, n)) == n
            && RowAfter(Some(start), Drifting(first, n), l).Some?
            && RowAfter(Some(start), Drifting(first, n), l).value.expires
               == Some(first.expires.value + n * DATE_TOLERANCE)
    decreases n
  {
    var start, events := Some(Store(first, 0, None)), Drifting(first, n);
    if n > 0 {
      var front, e := Drifting(first, n - 1), events[n - 1];
      DriftAttained(first, n - 1, l);
      DriftingPrefix(first, n);
      assert events == front + [e];
      DriftingStep(first, RowAfter(start, front, l).value, n, l);
      NoExpiryNoticeSnoc(start, front, e, l);
    }
  }

  // ---------------------------------------------------------------------------
  // Releases
  // ---------------------------------------------------------------------------

  predicate ReleasedAt(start: Option<Row>, events: seq<Event>, l: Limits, i: nat)
    requires i < |events|
  {
    Releases(RowAfter(start, events[..i], l), events[i])
  }

  /** The check stored data that make a row look registered. */
  predicate StoresRegistered(e: Event) {
    e.Answered? && (e.data.expires.Some? || Truthy(e.data.registrar))
  }

  /** The last successful lookup of a run. */
  function LastAnswer(events: seq<Event>): (last: Option<Event>)
    ensures last.Some? ==> last.value.Answered?
  {
    if events == [] then None
    else if events[|events| - 1].Answered? then Some(events[|events| - 1])
    else LastAnswer(events[..|events| - 1])
  }

  predicate RowLooksRegistered(row: Option<Row>) {
    row.Some? && LooksRegistered(row.value)
  }

  /** The row looks registered exactly when the last answer was stored as such, or when it did from the start. */
  lemma {:induction false} RowReflectsLastAnswer(start: Option<Row>, events: seq<Event>, l: Limits)
    ensures RowLooksRegistered(RowAfter(start, events, l)) <==>
              if LastAnswer(events).None? then RowLooksRegistered(start) else StoresRegistered(LastAnswer(events).value)
  {
    if events != [] {
      RowReflectsLastAnswer(start, events[..|events| - 1], l);
    }
  }

  /** After an answer, what is restored from the row is that answer, whatever failed since. */
  lemma {:induction false} RowHoldsLastAnswer(start: Option<Row>, events: seq<Event>, l: Limits)
    requires LastAnswer(events).Some?
    ensures RowAfter(start, events, l).Some?
    ensures var last := LastAnswer(events).value;
            Restore(RowAfter(start, events, l).value) == last.data.(registered := StoresRegistered(last))
  {
    var front, e := events[..|events| - 1], events[|events| - 1];
    match e {
      case Answered(d, onlyWishlist, now) =>
        RestoreOfStore(d, now, CalculateNextCheck(d.expires, now, l, onlyWishlist));
      case LookupFailed(_) =>
        RowHoldsLastAnswer(start, front, l);
    }
  }

  /** A row that restores to an answer announces what differs from it. */
  lemma AnnouncesIff(row: Row, last: Event, e: Event, c: Change)
    requires last.Answered? && Restore(row) == last.data.(registered := StoresRegistered(last)) && e.Answered?
    ensures Announces(Some(row), e, c) <==> StoresRegistered(last) && Differs(last.data, e.data, c)
  {
    assert LooksRegistered(row) == Restore(row).registered;
    RegisteredDoesNotMatter(last.data, e.data, StoresRegistered(last), c);
  }

  /**
   Over any run, a change notice fires exactly when the answer differs from the last one, and that one was stored as a
   registered domain.
   */
  lemma ChangesAreExact(start: Option<Row>, events: seq<Event>, e: Event, l: Limits, c: Change)
    requires LastAnswer(events).Some? && e.Answered?
    ensures Announces(RowAfter(start, events, l), e, c) <==>
              StoresRegistered(LastAnswer(events).value) && Differs(LastAnswer(events).value.data, e.data, c)
  {
    RowHoldsLastAnswer(start, events, l);
    AnnouncesIff(RowAfter(start, events, l).value, LastAnswer(events).value, e, c);
  }

  lemma {:induction false} LastAnswerAt(events: seq<Event>, i: nat) returns (k: nat)
    requires i < |events| && events[i].Answered?
    ensures i <= k < |events| && LastAnswer(events) == Some(events[k])
  {
    if events[|events| - 1].Answered? {
      k := |events| - 1;
    } else {
      k := LastAnswerAt(events[..|events| - 1], i);
    }
  }

  /** Two releases are separated by a check that stored registered data, the first release's own answer included. */
  lemma ReleasesAreSeparated(start: Option<Row>, events: seq<Event>, l: Limits, i: nat, j: nat)
    requires i < j < |events| && ReleasedAt(start, events, l, i) && ReleasedAt(start, events, l, j)
    ensures exists k :: i <= k < j && StoresRegistered(events[k])
  {
    var before := events[..j];
    RowReflectsLastAnswer(start, before, l);
    var k := LastAnswerAt(before, i);
    assert before[k] == events[k];
  }

  /** What the lookup delivers for a free domain: no registration data. */
  predicate FreeMeansEmpty(e: Event) {
    e.Answered? && !e.data.registered ==> e.data.expires.None? && !Truthy(e.data.registrar)
  }

  /** With such answers, the domain was registered again strictly between two releases. */
  lemma RegisteredBetweenReleases(start: Option<Row>, events: seq<Event>, l: Limits, i: nat, j: nat)
    requires forall k :: 0 <= k < |events| ==> FreeMeansEmpty(events[k])
    requires i < j < |events| && ReleasedAt(start, events, l, i) && ReleasedAt(start, events, l, j)
    ensures exists k :: i < k < j && events[k].Answered? && events[k].data.registered
  {
    ReleasesAreSeparated(start, events, l, i, j);
    var k :| i <= k < j && StoresRegistered(events[k]);
    assert FreeMeansEmpty(events[k]);
  }

  /** A placeholder never releases, however many lookups failed before the first answer. */
  lemma PlaceholderNeverReleases(events: seq<Event>, l: Limits, i: nat)
    requires i < |events| && forall k :: 0 <= k < i ==> events[k].LookupFailed?
    ensures !ReleasedAt(None, events, l, i) && !ReleasedAt(Some(PLACEHOLDER), events, l, i)
  {
    RowReflectsLastAnswer(None, events[..i], l);
    RowReflectsLastAnswer(Some(PLACEHOLDER), events[..i], l);
    NoAnswerYet(events[..i]);
  }

  lemma {:induction false} NoAnswerYet(events: seq<Event>)
    requires forall k :: 0 <= k < |events| ==> events[k].LookupFailed?
    ensures LastAnswer(events) == None
  {
    if events != [] {
      NoAnswerYet(events[..|events| - 1]);
    }
  }

  /**
   The promise is to tell of every registered domain that becomes free. Over any run, however many lookups failed since
   the domain was last seen registered, it is kept exactly when that answer had a date or a registrar.
   */
  lemma ReleaseIsToldIff(start: Option<Row>, events: seq<Event>, registered: Event, free: Event, l: Limits)
    requires LastAnswer(events) == Some(registered) && registered.data.registered
    requires free.Answered? && !free.data.registered
    ensures Releases(RowAfter(start, events, l), free)
            <==> registered.data.expires.Some? || Truthy(registered.data.registrar)
  {
    RowReflectsLastAnswer(start, events, l);
  }

  // ---------------------------------------------------------------------------
  // When a problem is due to be told
  // ---------------------------------------------------------------------------

  /** Failures since the last successful lookup of a run that has one. */
  function Trailing(events: seq<Event>): nat {
    if events == [] || events[|events| - 1].Answered? then 0 else Trailing(events[..|events| - 1]) + 1
  }

  function LastSuccess(events: seq<Event>): Option<int> {
    if LastAnswer(events).None? then None else Some(LastAnswer(events).value.now)
  }

  /** Monitoring starts without a row, or with the placeholder that `/add` leaves. */
  predicate IsStart(row: Option<Row>) {
    row == None || row == Some(PLACEHOLDER)
  }

  /** From the first answer on, or from a placeholder, the row counts failures and remembers the last success. */
  lemma {:induction false} CountersAreExact(start: Option<Row>, events: seq<Event>, l: Limits)
    requires IsStart(start)
    ensures RowAfter(start, events, l).Some? <==> start.Some? || LastAnswer(events).Some?
    ensures RowAfter(start, events, l).Some? ==>
      && RowAfter(start, events, l).value.failCount == Trailing(events)
      && RowAfter(start, events, l).value.lastSuccess == LastSuccess(events)
  {
    if events != [] {
      CountersAreExact(start, events[..|events| - 1], l);
    }
  }

  /** A failing lookup enqueues jobs exactly from the threshold on, when the last success is as old as the cooldown. */
  lemma ProblemIsEnqueuedIff(start: Option<Row>, events: seq<Event>, l: Limits, e: Event, p: ProblemPolicy)
    requires IsStart(start) && e.LookupFailed?
    ensures EnqueuesProblem(RowAfter(start, events, l), e, p) <==>
              && Trailing(events) + 1 >= p.threshold
              && LastSuccess(events).Some? && e.now - LastSuccess(events).value >= p.cooldownDays * DAY
  {
    CountersAreExact(start, events, l);
  }

  // ---------------------------------------------------------------------------
  // Clocks and outages
  // ---------------------------------------------------------------------------

  predicate ClockRuns(events: seq<Event>) {
    forall i, j :: 0 <= i <= j < |events| ==> events[i].now <= events[j].now
  }

  /** The last success before `j` is no earlier than any answer before it. */
  lemma AnswerRenewsSuccess(events: seq<Event>, k: nat, j: nat)
    requires ClockRuns(events) && k < j < |events| && events[k].Answered?
    ensures LastSuccess(events[..j]).Some? && LastSuccess(events[..j]).value >= events[k].now
  {
    var m := LastAnswerAt(events[..j], k);
    assert events[..j][m] == events[m];
  }

  /** After a failure the next lookup comes at most `slack` later than the row asks for it. */
  predicate Punctual(start: Option<Row>, events: seq<Event>, l: Limits, slack: nat) {
    forall i :: 0 <= i < |events| - 1 && events[i].LookupFailed? ==>
      var row := RowAfter(start, events[..i + 1], l);
      row.Some? && row.value.nextCheck.Some? ==> events[i + 1].now <= row.value.nextCheck.value + slack
  }

  lemma PunctualIsWithinADay(start: Option<Row>, events: seq<Event>, l: Limits, slack: nat, i: nat)
    requires Punctual(start, events, l, slack) && i + 1 < |events|
    requires events[i].LookupFailed? && RowAfter(start, events[..i], l).Some?
    ensures events[i + 1].now <= events[i].now + DAY + slack
  {
    assert events[..i + 1][..i] == events[..i];
    assert RowAfter(start, events[..i + 1], l) == NextRow(RowAfter(start, events[..i], l), events[i], l);
  }

  /** An answer, and then lookups that fail from `from` on, each at the moment the row asks for it. */
  function Outage(answer: Event, from: int, n: nat): (events: seq<Event>)
    ensures |events| == n + 1 && events[0] == answer
    ensures forall i :: 1 <= i <= n ==> events[i].LookupFailed?
  {
    if n == 0 then [answer]
    else if n == 1 then [answer, LookupFailed(from)]
    else
      var front := Outage(answer, from, n - 1);
      front + [LookupFailed(RetryAfterFailure(n - 1, front[n - 1].now))]
  }

  lemma {:induction false} OutagePrefix(answer: Event, from: int, n: nat, i: nat)
    requires i <= n
    ensures Outage(answer, from, n)[..i + 1] == Outage(answer, from, i)
  {
    if i < n {
      OutagePrefix(answer, from, n - 1, i);
      assert Outage(answer, from, n)[..n] == Outage(answer, from, n - 1);
    }
  }

  lemma {:induction false} OutageCounts(answer: Event, from: int, n: nat)
    requires answer.Answered? && answer.now <= from
    ensures Trailing(Outage(answer, from, n)) == n && LastAnswer(Outage(answer, from, n)) == Some(answer)
    ensures n > 0 ==> Outage(answer, from, n)[n].now >= from
  {
    if n > 0 {
      OutageCounts(answer, from, n - 1);
      assert Outage(answer, from, n)[..n] == Outage(answer, from, n - 1);
    }
  }

  lemma {:induction false} OutageClockRuns(answer: Event, from: int, n: nat)
    requires answer.now <= from
    ensures ClockRuns(Outage(answer, from, n))
    ensures n > 0 ==> Outage(answer, from, n)[n - 1].now <= Outage(answer, from, n)[n].now
  {
    if n > 0 {
      var events := Outage(answer, from, n);
      OutageClockRuns(answer, from, n - 1);
      OutagePrefix(answer, from, n, n - 1);
      assert forall i :: 0 <= i < n ==> events[i] == Outage(answer, from, n - 1)[i];
    }
  }
}
