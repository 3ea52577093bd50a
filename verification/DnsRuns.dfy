/** Whole runs of `check_dns` on one domain: arbitrary results, from no row or from a bootstrap row. */
module DnsRuns {
  import opened Sequences
  import opened DnsCheck
  import F = FlagMachine

  datatype Event = Event(result: Result, whois: seq<string>, now: int)

  predicate IsStart(row: Option<Row>) {
    row == None || row == Some(EMPTY_ROW)
  }

  /** The cached row after a run. */
  function RowAfter(start: Option<Row>, events: seq<Event>): Option<Row> {
    if events == [] then start
    else
      var e := events[|events| - 1];
      Some(NextRow(RowAfter(start, events[..|events| - 1]), e.result, e.whois, e.now))
  }

  /** What the last check of a nonempty run announced. */
  predicate LastAnnounces(start: Option<Row>, events: seq<Event>, c: Change)
    requires events != []
  {
    var e := events[|events| - 1];
    Announces(RowAfter(start, events[..|events| - 1]), e.result, e.whois, c)
  }

  /** The records of the last successful resolve; empty lists when there was none. */
  function LastRecords(events: seq<Event>): Records {
    if events == [] then Records(true, [], [], [])
    else if events[|events| - 1].result.Resolved? then events[|events| - 1].result.records
    else LastRecords(events[..|events| - 1])
  }

  // ---------------------------------------------------------------------------
  // Records
  // ---------------------------------------------------------------------------

  ghost predicate Holds(row: Option<Row>, last: Records) {
    && row.Some? && row.value.lastChecked.Some?
    && OrEmpty(row.value.a) == last.a && OrEmpty(row.value.aaaa) == last.aaaa && OrEmpty(row.value.ns) == last.ns
  }

  lemma CheckStores(prev: Option<Row>, e: Event, last: Records)
    requires (IsStart(prev) && last == Records(true, [], [], [])) || Holds(prev, last)
    ensures Holds(Some(NextRow(prev, e.result, e.whois, e.now)), if e.result.Resolved? then e.result.records else last)
  {
  }

  /** The cached lists are those of the last successful resolve; failures in between do not touch them. */
  lemma {:induction false} CacheHoldsLastRecords(start: Option<Row>, events: seq<Event>)
    requires IsStart(start) && events != []
    ensures Holds(RowAfter(start, events), LastRecords(events))
  {
    var front, e := events[..|events| - 1], events[|events| - 1];
    if front != [] {
      CacheHoldsLastRecords(start, front);
    }
    CheckStores(RowAfter(start, front), e, LastRecords(front));
  }

  /** After the first check, a list notice fires exactly when the list differs, as a multiset, from the last one. */
  lemma ListNoticesAreExact(start: Option<Row>, events: seq<Event>, e: Event)
    requires IsStart(start)
    ensures LastAnnounces(start, events + [e], AChanged) <==>
              events != [] && e.result.Resolved? && multiset(LastRecords(events).a) != multiset(e.result.records.a)
    ensures LastAnnounces(start, events + [e], AaaaChanged) <==>
              events != [] && e.result.Resolved?
              && multiset(LastRecords(events).aaaa) != multiset(e.result.records.aaaa)
    ensures LastAnnounces(start, events + [e], NsChanged) <==>
              events != [] && e.result.Resolved? && multiset(LastRecords(events).ns) != multiset(e.result.records.ns)
  {
    assert (events + [e])[..|events|] == events;
    if events != [] {
      CacheHoldsLastRecords(start, events);
    }
  }

  predicate AllFailed(events: seq<Event>) {
    forall i :: 0 <= i < |events| ==> events[i].result.Failed?
  }

  predicate SomeOutage(events: seq<Event>) {
    exists i :: 0 <= i < |events| && events[i].result.Failed? && !Configurational(events[i].result.kind)
  }

  lemma SomeOutageSnoc(front: seq<Event>, e: Event)
    ensures SomeOutage(front + [e]) <==> SomeOutage(front) || (e.result.Failed? && !Configurational(e.result.kind))
  {
    var events := front + [e];
    assert events[|front|] == e;
    if SomeOutage(front) {
      var i :| 0 <= i < |front| && front[i].result.Failed? && !Configurational(front[i].result.kind);
      assert events[i] == front[i];
    }
  }

  lemma {:induction false} FailuresOnly(start: Option<Row>, events: seq<Event>)
    requires IsStart(start) && AllFailed(events) && events != []
    ensures LastRecords(events) == Records(true, [], [], [])
    ensures RowAfter(start, events).value.reachable == if SomeOutage(events) then Some(false) else None
  {
    var front, e := events[..|events| - 1], events[|events| - 1];
    assert events == front + [e];
    SomeOutageSnoc(front, e);
    if front != [] {
      FailuresOnly(start, front);
    }
  }

  predicate NoRecords(r: Records) {
    r.a == r.aaaa == r.ns == []
  }

  /** After failures only, the diff of a first success is empty for two reasons. */
  lemma FirstDiffIsEmptyIff(start: Option<Row>, events: seq<Event>, e: Event)
    requires IsStart(start) && AllFailed(events)
    requires e.result.Resolved?
    ensures !HasAny(DiffOf(RowAfter(start, events), e.result)) <==>
              || events == []
              || (NoRecords(e.result.records) && !(e.result.records.reachable && SomeOutage(events)))
  {
    if events != [] {
      FailuresOnly(start, events);
      CacheHoldsLastRecords(start, events);
      var r := e.result.records;
      assert forall s: seq<string> :: s != [] ==> s[0] in multiset(s);
    }
  }

  /** After failures only, there is a row when one was there or a check wrote it, and its mismatch flag is down. */
  lemma {:induction false} FlagDownAfterFailures(start: Option<Row>, events: seq<Event>)
    requires IsStart(start) && AllFailed(events)
    ensures RowAfter(start, events).Some? <==> start.Some? || events != []
    ensures RowAfter(start, events).Some? ==> !RowAfter(start, events).value.mismatch
  {
    if events != [] {
      FlagDownAfterFailures(start, events[..|events| - 1]);
    }
  }

  lemma SilentIff(notices: seq<Change>, row: Option<Row>, result: Result, whois: seq<string>)
    requires forall c :: c in notices <==> Announces(row, result, whois, c)
    ensures notices == []
            <==> !HasAny(DiffOf(row, result)) && !Announces(row, result, whois, MismatchDetected)
                 && !Announces(row, result, whois, MismatchResolved)
  {
    assert (AChanged in notices <==> DiffOf(row, result).a) && (AaaaChanged in notices <==> DiffOf(row, result).aaaa);
    assert NsChanged in notices <==> DiffOf(row, result).ns;
    assert BecameUnreachable in notices <==> DiffOf(row, result).unreachable;
    assert BecameReachable in notices <==> DiffOf(row, result).reachable;
    assert MismatchDetected in notices <==> Announces(row, result, whois, MismatchDetected);
    assert MismatchResolved in notices <==> Announces(row, result, whois, MismatchResolved);
    if notices != [] {
      assert notices[0] in notices;
    }
  }

  /** The mismatch notices, by the row and what the check found. */
  lemma MismatchNotices(row: Option<Row>, e: Event, up: bool)
    requires row.Some? ==> row.value.mismatch == up
    ensures Announces(row, e.result, e.whois, MismatchDetected) <==> row.Some? && !up && MismatchNow(e.result, e.whois)
    ensures Announces(row, e.result, e.whois, MismatchResolved) <==> row.Some? && up && !MismatchNow(e.result, e.whois)
  {
  }

  /** A mismatch can only be announced as detected, and only over a row. */
  lemma FirstMismatchNotice(start: Option<Row>, events: seq<Event>, e: Event)
    requires IsStart(start) && AllFailed(events) && e.result.Resolved?
    ensures Announces(RowAfter(start, events), e.result, e.whois, MismatchDetected)
            <==> (start.Some? || events != []) && MismatchNow(e.result, e.whois)
    ensures !Announces(RowAfter(start, events), e.result, e.whois, MismatchResolved)
  {
    var row := RowAfter(start, events);
    FlagDownAfterFailures(start, events);
    MismatchNotices(row, e, false);
  }

  lemma FirstSuccessAnnouncesNothingIff(start: Option<Row>, events: seq<Event>, e: Event, notices: seq<Change>)
    requires IsStart(start) && AllFailed(events) && e.result.Resolved?
    requires forall c :: c in notices <==> Announces(RowAfter(start, events), e.result, e.whois, c)
    ensures notices == [] <==>
              || (events == [] && (start == None || !MismatchNow(e.result, e.whois)))
              || (events != [] && NoRecords(e.result.records) && !(e.result.records.reachable && SomeOutage(events)))
  {
    SilentIff(notices, RowAfter(start, events), e.result, e.whois);
    FirstDiffIsEmptyIff(start, events, e);
    FirstMismatchNotice(start, events, e);
  }

  /**
   The first successful resolve is documented to be silent. It is exactly in these cases: nothing came before it, and
   there was no row either, or the name servers agree; or it found no records, and ends no outage.
   */
  lemma FirstSuccessIsSilentIff(start: Option<Row>, events: seq<Event>, e: Event)
    requires IsStart(start) && AllFailed(events) && e.result.Resolved?
    ensures Notices(RowAfter(start, events), e.result, e.whois) == [] <==>
              || (events == [] && (start == None || !MismatchNow(e.result, e.whois)))
              || (events != [] && NoRecords(e.result.records) && !(e.result.records.reachable && SomeOutage(events)))
  {
    var notices := Notices(RowAfter(start, events), e.result, e.whois);
    forall c ensures c in notices <==> Announces(RowAfter(start, events), e.result, e.whois, c) {
      NoticesAreAnnounced(RowAfter(start, events), e.result, e.whois, c);
    }
    FirstSuccessAnnouncesNothingIff(start, events, e, notices);
  }

  /** The bootstrap row is enough for the very first check to announce a mismatch as a transition. */
  lemma FirstCheckAnnouncesMismatch(result: Result, whois: seq<string>, c: Change)
    requires MismatchNow(result, whois)
    ensures c in Notices(Some(EMPTY_ROW), result, whois) <==> c == MismatchDetected
    ensures c !in Notices(None, result, whois)
  {
    NoticesAreAnnounced(Some(EMPTY_ROW), result, whois, c);
    NoticesAreAnnounced(None, result, whois, c);
  }

  // ---------------------------------------------------------------------------
  // Reachability
  // ---------------------------------------------------------------------------

  function ReachableFlag(row: Option<Row>): Option<bool> {
    if row.None? then None else row.value.reachable
  }

  function ReachStep(row: Option<Row>, e: Event): F.Step {
    F.Step(ReachableFlag(row), NextRow(row, e.result, e.whois, e.now).reachable,
           if Announces(row, e.result, e.whois, BecameUnreachable) then Some(false)
           else if Announces(row, e.result, e.whois, BecameReachable) then Some(true) else None)
  }

  function ReachSteps(start: Option<Row>, events: seq<Event>): seq<F.Step> {
    seq(|events|, i requires 0 <= i < |events| => ReachStep(RowAfter(start, events[..i]), events[i]))
  }

  /** What the DNS client delivers: resolved records always say reachable. */
  predicate ClientResult(result: Result) {
    result.Resolved? ==> result.records.reachable
  }

  lemma ReachStepIsHonest(row: Option<Row>, e: Event)
    requires ClientResult(e.result) && (Checked(row) || IsStart(row))
    ensures F.Honest(ReachStep(row, e))
  {
    if row.Some? && row.value.reachable.Some? {
      assert row.value.reachable == Some(true) || row.value.reachable == Some(false) by {
        if row.value.reachable.value { } else { }
      }
    }
  }

  lemma RowAfterNext(start: Option<Row>, events: seq<Event>, i: nat)
    requires i < |events|
    ensures RowAfter(start, events[..i + 1])
         == Some(NextRow(RowAfter(start, events[..i]), events[i].result, events[i].whois, events[i].now))
  {
    assert events[..i + 1][..i] == events[..i];
  }

  /** Over any run, became_unreachable (false) and became_reachable (true) strictly alternate. */
  lemma ReachabilityAlternates(start: Option<Row>, events: seq<Event>)
    requires IsStart(start) && forall i :: 0 <= i < |events| ==> ClientResult(events[i].result)
    ensures Alternates(F.Trace(ReachSteps(start, events)))
  {
    var steps := ReachSteps(start, events);
    forall i | 0 <= i < |steps| ensures F.Honest(steps[i]) {
      if i > 0 { CacheHoldsLastRecords(start, events[..i]); } else { assert events[..0] == []; }
      ReachStepIsHonest(RowAfter(start, events[..i]), events[i]);
    }
    forall i | 0 <= i < |steps| - 1 ensures steps[i].after == steps[i + 1].before {
      RowAfterNext(start, events, i);
    }
    F.HonestRunsAlternate(steps);
  }

  // ---------------------------------------------------------------------------
  // Name-server mismatch
  // ---------------------------------------------------------------------------

  /** A failed resolve while the flag is up: announced as resolved, but the flag is not written. */
  predicate Phantom(row: Option<Row>, result: Result) {
    row.Some? && row.value.mismatch && result.Failed?
  }

  /**
   The stored flag is what the notices say, in every check but two kinds: a failure while the flag is up announces a
   fall that is not stored, and a first check without a row stores a rise that is not announced.
   */
  lemma FlagFollowsNoticesIff(row: Option<Row>, result: Result, whois: seq<string>, now: int)
    ensures NextRow(row, result, whois, now).mismatch
              == (if Announces(row, result, whois, MismatchDetected) then true
                  else if Announces(row, result, whois, MismatchResolved) then false
                  else row.Some? && row.value.mismatch)
            <==> !Phantom(row, result) && !(row == None && MismatchNow(result, whois))
  {
  }

  function MismatchFlag(row: Option<Row>): Option<bool> {
    if row.None? then None else Some(row.value.mismatch)
  }

  function MismatchStep(row: Option<Row>, e: Event): F.Step {
    F.Step(MismatchFlag(row), Some(NextRow(row, e.result, e.whois, e.now).mismatch),
           if Announces(row, e.result, e.whois, MismatchDetected) then Some(true)
           else if Announces(row, e.result, e.whois, MismatchResolved) then Some(false) else None)
  }

  /** Detected is true, resolved is false. */
  function MismatchSteps(start: Option<Row>, events: seq<Event>): seq<F.Step> {
    seq(|events|, i requires 0 <= i < |events| => MismatchStep(RowAfter(start, events[..i]), events[i]))
  }

  predicate AnnouncesMismatch(row: Option<Row>, e: Event) {
    Announces(row, e.result, e.whois, MismatchDetected) || Announces(row, e.result, e.whois, MismatchResolved)
  }

  lemma MismatchStepKind(row: Option<Row>, e: Event)
    ensures if Phantom(row, e.result) then F.Phantom(MismatchStep(row, e)) else F.Honest(MismatchStep(row, e))
    ensures MismatchStep(row, e).notice != None <==> AnnouncesMismatch(row, e)
  {
    FlagFollowsNoticesIff(row, e.result, e.whois, e.now);
  }

  predicate PhantomAt(start: Option<Row>, events: seq<Event>, i: nat) {
    i < |events| && Phantom(RowAfter(start, events[..i]), events[i].result)
  }

  predicate MismatchNoticeAt(start: Option<Row>, events: seq<Event>, j: nat) {
    j < |events| && AnnouncesMismatch(RowAfter(start, events[..j]), events[j])
  }

  lemma MismatchStepAt(start: Option<Row>, events: seq<Event>, i: nat)
    requires i < |events|
    ensures var s := MismatchSteps(start, events)[i];
            && (F.Phantom(s) <==> PhantomAt(start, events, i))
            && (F.Phantom(s) || F.Honest(s))
            && (s.notice != None <==> MismatchNoticeAt(start, events, i))
  {
    MismatchStepKind(RowAfter(start, events[..i]), events[i]);
  }

  lemma MismatchStepsChain(start: Option<Row>, events: seq<Event>)
    ensures F.Chained(MismatchSteps(start, events))
  {
    forall i: nat | i < |events| - 1
      ensures MismatchSteps(start, events)[i].after == MismatchSteps(start, events)[i + 1].before
    {
      RowAfterNext(start, events, i);
    }
  }

  /** No mismatch notice comes after a phantom. */
  ghost predicate QuietAfterPhantoms(start: Option<Row>, events: seq<Event>) {
    forall i, j :: i < j && PhantomAt(start, events, i) ==> !MismatchNoticeAt(start, events, j)
  }

  lemma PhantomsBreakAlternation(start: Option<Row>, events: seq<Event>)
    ensures Alternates(F.Trace(MismatchSteps(start, events))) <==> QuietAfterPhantoms(start, events)
  {
    var steps := MismatchSteps(start, events);
    MismatchStepsChain(start, events);
    forall i: nat | i < |events|
      ensures F.Phantom(steps[i]) <==> PhantomAt(start, events, i)
      ensures F.Phantom(steps[i]) || F.Honest(steps[i])
      ensures steps[i].notice != None <==> MismatchNoticeAt(start, events, i)
    {
      MismatchStepAt(start, events, i);
    }
    F.AlternatesIff(steps);
  }

  /** What the last successful resolve said about the name servers. */
  predicate LastMismatch(events: seq<Event>) {
    if events == [] then false
    else
      var e := events[|events| - 1];
      if e.result.Resolved? then MismatchNow(e.result, e.whois) else LastMismatch(events[..|events| - 1])
  }

  lemma {:induction false} FlagIsLastMismatch(start: Option<Row>, events: seq<Event>)
    requires IsStart(start)
    ensures MismatchFlag(RowAfter(start, events)) == Some(true) <==> LastMismatch(events)
  {
    if events != [] {
      FlagIsLastMismatch(start, events[..|events| - 1]);
    }
  }

  lemma PhantomIs(start: Option<Row>, events: seq<Event>, i: nat)
    requires IsStart(start)
    ensures PhantomAt(start, events, i)
            <==> i < |events| && events[i].result.Failed? && LastMismatch(events[..i])
  {
    if i < |events| {
      FlagIsLastMismatch(start, events[..i]);
    }
  }

  lemma {:induction false} FlagStaysUp(events: seq<Event>, i: nat, j: nat)
    requires i < j <= |events| && events[i].result.Failed? && LastMismatch(events[..i])
    requires forall m :: i < m < j ==> MismatchNow(events[m].result, events[m].whois)
    ensures LastMismatch(events[..j])
  {
    assert events[..j][..j - 1] == events[..j - 1];
    if i < j - 1 {
      FlagStaysUp(events, i, j - 1);
    }
  }

  /** While the flag is up, a check keeps quiet exactly when it resolves and finds the mismatch again. */
  lemma QuietWhileUp(start: Option<Row>, events: seq<Event>, j: nat)
    requires IsStart(start) && j < |events| && LastMismatch(events[..j])
    ensures MismatchNoticeAt(start, events, j) <==> !MismatchNow(events[j].result, events[j].whois)
  {
    FlagIsLastMismatch(start, events[..j]);
    MismatchNotices(RowAfter(start, events[..j]), events[j], true);
  }

  lemma {:induction false} QuietMeansMismatch(start: Option<Row>, events: seq<Event>, i: nat, j: nat)
    requires IsStart(start) && QuietAfterPhantoms(start, events) && PhantomAt(start, events, i)
    requires i < j < |events|
    ensures MismatchNow(events[j].result, events[j].whois)
    decreases j
  {
    forall m | i < m < j ensures MismatchNow(events[m].result, events[m].whois) {
      QuietMeansMismatch(start, events, i, m);
    }
    PhantomIs(start, events, i);
    FlagStaysUp(events, i, j);
    QuietWhileUp(start, events, j);
  }

  /** Once a resolve failed while the name servers disagreed, every later resolve works and finds them disagreeing. */
  ghost predicate NeverRecovers(events: seq<Event>) {
    forall i, j :: 0 <= i < j < |events| && events[i].result.Failed? && LastMismatch(events[..i]) ==>
      MismatchNow(events[j].result, events[j].whois)
  }

  /** Over any run, detected and resolved alternate exactly when no recovery follows a failure during a mismatch. */
  lemma MismatchAlternatesIff(start: Option<Row>, events: seq<Event>)
    requires IsStart(start)
    ensures Alternates(F.Trace(MismatchSteps(start, events))) <==> NeverRecovers(events)
  {
    PhantomsBreakAlternation(start, events);
    if QuietAfterPhantoms(start, events) {
      forall i, j | 0 <= i < j < |events| && events[i].result.Failed? && LastMismatch(events[..i])
        ensures MismatchNow(events[j].result, events[j].whois)
      {
        PhantomIs(start, events, i);
        QuietMeansMismatch(start, events, i, j);
      }
    }
    if NeverRecovers(events) {
      forall i: nat, j: nat | i < j && PhantomAt(start, events, i) ensures !MismatchNoticeAt(start, events, j) {
        PhantomIs(start, events, i);
        if j < |events| {
          FlagStaysUp(events, i, j);
          QuietWhileUp(start, events, j);
        }
      }
    }
  }

  /**
   A mismatch is documented to be watched every half hour. While the stored flag is up it is exactly when the last
   resolve worked: a failed one puts the next check off like that of any other domain.
   */
  lemma MismatchIsWatchedIff(start: Option<Row>, events: seq<Event>)
    requires events != [] && MismatchFlag(RowAfter(start, events)) == Some(true)
    ensures var e := events[|events| - 1];
            RowAfter(start, events).value.nextCheck == e.now + NS_MISMATCH_INTERVAL <==> e.result.Resolved?
  {
  }

  /** Runs in which every resolve succeeds: detected and resolved strictly alternate. */
  lemma SuccessfulRunsAlternate(start: Option<Row>, events: seq<Event>)
    requires forall i :: 0 <= i < |events| ==> events[i].result.Resolved?
    ensures Alternates(F.Trace(MismatchSteps(start, events)))
  {
    PhantomsBreakAlternation(start, events);
  }

  /** The divergence in full: once the flag is up, every failed resolve announces it as resolved, and it stays up. */
  lemma {:induction false} PhantomsRepeat(start: Option<Row>, events: seq<Event>, failures: seq<Event>)
    requires MismatchFlag(RowAfter(start, events)) == Some(true)
    requires forall i :: 0 <= i < |failures| ==> failures[i].result.Failed?
    ensures MismatchFlag(RowAfter(start, events + failures)) == Some(true)
    ensures forall i :: |events| <= i < |events| + |failures| ==>
              Announces(RowAfter(start, (events + failures)[..i]), (events + failures)[i].result,
                        (events + failures)[i].whois, MismatchResolved)
    decreases |failures|
  {
    var all := events + failures;
    if failures == [] {
      assert all == events;
    } else {
      var front, e := failures[..|failures| - 1], failures[|failures| - 1];
      PhantomsRepeat(start, events, front);
      assert all[..|all| - 1] == events + front && all[|all| - 1] == e;
      forall i | |events| <= i < |all|
        ensures Announces(RowAfter(start, all[..i]), all[i].result, all[i].whois, MismatchResolved)
      {
        assert all[..i] == (events + front)[..i];
        if i < |all| - 1 {
          assert all[i] == (events + front)[i];
        } else {
          assert all[..i] == events + front;
        }
      }
    }
  }
}
