/**
 `check_email_intel`: fetch, diff against the restored row, store, announce
 (src/tasks/check_email_intel.py, src/email_intel/diff.py, src/email_intel/types.py).
 */
module EmailCheck {
  import opened Sequences
  import opened FanOut

  datatype Mx = Mx(host: string, priority: int)
  datatype SpfMode = Fail | SoftFail | Neutral | Pass | NoMode | PermError | TempError
  datatype Spf = Spf(raw: string, mode: SpfMode, isMultiple: bool)
  datatype Policy = NoPolicy | Quarantine | Reject
  datatype Dmarc = Dmarc(policy: Policy, subpolicy: Option<Policy>, pct: Option<int>)

  datatype ErrorKind = NxDomain | DnsUnreachable | Timeout | DnsError | ParserError | InternalError

  /** `dkim` is the optional list of selectors found; the parser always delivers one, possibly empty. */
  datatype Intel = Intel(reachable: bool, mx: seq<Mx>, spf: Option<Spf>, dmarc: Option<Dmarc>,
                         dkim: Option<seq<string>>)

  datatype Result = Fetched(intel: Intel) | Failed(kind: ErrorKind)

  /** A row of `email_intel_cache`. */
  datatype Row = Row(reachable: Option<bool>, mx: Option<seq<Mx>>, spfRecord: Option<string>, spfMode: Option<SpfMode>,
                     dmarcPolicy: Option<Policy>, dmarcSubpolicy: Option<Policy>, dmarcPct: Option<int>,
                     dkim: Option<seq<string>>, failCount: nat)

  const PLACEHOLDER := Row(None, None, None, None, None, None, None, None, 0)

  datatype Change = MxChanged | SpfChanged | DmarcChanged | DkimChanged | BecameUnreachable | BecameReachable

  datatype Subscriber = Subscriber(user: int, muted: bool, trackEmail: bool, notifyChange: bool)

  const DAY := 86400

  /** `calculate_next_email_check`; times are seconds. */
  function CalculateNextCheck(hasDmarc: bool, hasSpf: bool, failCount: nat, now: int): (next: int)
    ensures next == now + DAY || next == now + 7 * DAY
    ensures next == now + 7 * DAY <==> hasDmarc && hasSpf && failCount < 10
  {
    if failCount >= 10 then now + DAY
    else if !hasDmarc || !hasSpf then now + DAY
    else now + 7 * DAY
  }

  /** The fields of a successful check. */
  function Store(i: Intel): Row {
    Row(Some(true), Some(i.mx),
        if i.spf.Some? then Some(i.spf.value.raw) else None, if i.spf.Some? then Some(i.spf.value.mode) else None,
        if i.dmarc.Some? then Some(i.dmarc.value.policy) else None,
        if i.dmarc.Some? then i.dmarc.value.subpolicy else None, if i.dmarc.Some? then i.dmarc.value.pct else None,
        i.dkim, 0)
  }

  /** `_cache_to_result`: columns that are empty or missing come back as absent. */
  function Restore(row: Option<Row>): Option<Intel> {
    if row.None? || row.value.reachable != Some(true) then None
    else
      var r := row.value;
      Some(Intel(true, OrEmpty(r.mx),
                 if r.spfRecord.Some? && r.spfRecord.value != [] && r.spfMode.Some?
                 then Some(Spf(r.spfRecord.value, r.spfMode.value, false)) else None,
                 if r.dmarcPolicy.Some? then Some(Dmarc(r.dmarcPolicy.value, r.dmarcSubpolicy, r.dmarcPct)) else None,
                 if OrEmpty(r.dkim) != [] then Some(OrEmpty(r.dkim)) else None))
  }

  /** A failure only counts; in particular it leaves `is_reachable` alone, and without a row it writes none. */
  function NextRow(prev: Option<Row>, result: Result): Option<Row> {
    match result
    case Fetched(i) => Some(Store(i))
    case Failed(_) => if prev.None? then None else Some(prev.value.(failCount := prev.value.failCount + 1))
  }

  predicate SpfDiffers(a: Option<Spf>, b: Option<Spf>) {
    if a.Some? && b.Some? then a.value.mode != b.value.mode || a.value.raw != b.value.raw else a.Some? != b.Some?
  }

  predicate DkimDiffers(a: Option<seq<string>>, b: Option<seq<string>>) {
    if a.Some? && b.Some? then Members(a.value) != Members(b.value) else a.Some? != b.Some?
  }

  /** What a check announces, given what was restored from the row before it. */
  predicate Announces(cached: Option<Intel>, result: Result, c: Change) {
    && cached.Some?
    && match c
       case MxChanged => result.Fetched? && Members(cached.value.mx) != Members(result.intel.mx)
       case SpfChanged => result.Fetched? && SpfDiffers(cached.value.spf, result.intel.spf)
       case DmarcChanged => result.Fetched? && cached.value.dmarc != result.intel.dmarc
       case DkimChanged => result.Fetched? && DkimDiffers(cached.value.dkim, result.intel.dkim)
       case BecameUnreachable => result.Failed? && result.kind != NxDomain && cached.value.reachable
       case BecameReachable => result.Fetched? && !cached.value.reachable && result.intel.reachable
  }

  /** Storing fetched intel, restoring it and diffing it against itself reports nothing, except in two cases. */
  lemma StoreRestoreIsQuietIff(i: Intel)
    ensures (forall c :: !Announces(Restore(Some(Store(i))), Fetched(i), c))
            <==> i.dkim != Some([]) && !(i.spf.Some? && i.spf.value.raw == [])
    ensures Announces(Restore(Some(Store(i))), Fetched(i), DkimChanged) <==> i.dkim == Some([])
    ensures Announces(Restore(Some(Store(i))), Fetched(i), SpfChanged) <==> i.spf.Some? && i.spf.value.raw == []
    ensures !Announces(Restore(Some(Store(i))), Fetched(i), MxChanged)
    ensures !Announces(Restore(Some(Store(i))), Fetched(i), DmarcChanged)
  {
    var cached := Restore(Some(Store(i)));
    assert i.dkim.Some? && i.dkim.value != [] ==> cached.value.dkim == i.dkim;
    assert i.dkim == Some([]) ==> Announces(cached, Fetched(i), DkimChanged);
    assert i.spf.Some? && i.spf.value.raw == [] ==> Announces(cached, Fetched(i), SpfChanged);
    assert !Announces(cached, Fetched(i), BecameUnreachable) && !Announces(cached, Fetched(i), BecameReachable);
  }

  lemma EmptySelectorsDiffer(a: Option<seq<string>>)
    requires a.Some? ==> a.value != []
    ensures DkimDiffers(a, Some([]))
  {
    if a.Some? {
      assert a.value[0] in Members(a.value);
      assert Members<string>([]) == {};
    }
  }

  // ---------------------------------------------------------------------------
  // Whole runs
  // ---------------------------------------------------------------------------

  predicate IsStart(row: Option<Row>) {
    row == None || row == Some(PLACEHOLDER)
  }

  function RowAfter(start: Option<Row>, results: seq<Result>): Option<Row> {
    if results == [] then start else NextRow(RowAfter(start, results[..|results| - 1]), results[|results| - 1])
  }

  predicate AnnouncedAt(start: Option<Row>, results: seq<Result>, i: nat, c: Change)
    requires i < |results|
  {
    Announces(Restore(RowAfter(start, results[..i])), results[i], c)
  }

  predicate IsLastFetch(results: seq<Result>, i: nat) {
    i < |results| && results[i].Fetched? && forall j :: i < j < |results| ==> results[j].Failed?
  }

  /** Whatever failed since, the row restores to what the last fetch stored. */
  lemma {:induction false} CacheHoldsLastIntel(start: Option<Row>, results: seq<Result>, i: nat)
    requires IsLastFetch(results, i)
    ensures RowAfter(start, results).Some?
    ensures Restore(RowAfter(start, results)) == Restore(Some(Store(results[i].intel)))
  {
    if i < |results| - 1 {
      var front := results[..|results| - 1];
      assert forall j :: 0 <= j < |front| ==> front[j] == results[j];
      CacheHoldsLastIntel(start, front, i);
    }
  }

  /** A record whose text is not empty, which is what the columns keep. */
  predicate HasSpf(i: Intel) {
    i.spf.Some? && i.spf.value.raw != []
  }

  /** Some selector, which is what the column keeps. */
  predicate HasSelectors(i: Intel) {
    i.dkim.Some? && i.dkim.value != []
  }

  /**
   Over any run, a record is announced as changed exactly when it differs from what was last fetched, whatever failed
   since; only an empty SPF text and an empty list of selectors count as absent on the older side.
   */
  lemma RecordNoticesAreExact(start: Option<Row>, results: seq<Result>, i: nat, latest: Intel)
    requires IsLastFetch(results, i)
    ensures var cached, before := Restore(RowAfter(start, results)), results[i].intel;
            && (Announces(cached, Fetched(latest), MxChanged) <==> Members(before.mx) != Members(latest.mx))
            && (Announces(cached, Fetched(latest), DmarcChanged) <==> before.dmarc != latest.dmarc)
            && (Announces(cached, Fetched(latest), SpfChanged) <==>
                  if HasSpf(before) && latest.spf.Some?
                  then before.spf.value.raw != latest.spf.value.raw || before.spf.value.mode != latest.spf.value.mode
                  else HasSpf(before) != latest.spf.Some?)
            && (Announces(cached, Fetched(latest), DkimChanged) <==>
                  if HasSelectors(before) && latest.dkim.Some?
                  then exists s :: (s in before.dkim.value) != (s in latest.dkim.value)
                  else HasSelectors(before) != latest.dkim.Some?)
  {
    CacheHoldsLastIntel(start, results, i);
    if HasSelectors(results[i].intel) && latest.dkim.Some? {
      MembersDiffer(results[i].intel.dkim.value, latest.dkim.value);
    }
  }

  predicate FetchedBefore(results: seq<Result>, i: nat) {
    exists k :: 0 <= k < i && k < |results| && results[k].Fetched?
  }

  lemma {:induction false} RestoredAfterFetch(start: Option<Row>, results: seq<Result>)
    requires IsStart(start)
    ensures Restore(RowAfter(start, results)).Some? <==> FetchedBefore(results, |results|)
    ensures Restore(RowAfter(start, results)).Some? ==> Restore(RowAfter(start, results)).value.reachable
  {
    if results != [] {
      var front := results[..|results| - 1];
      RestoredAfterFetch(start, front);
      assert results == front + [results[|results| - 1]];
      assert forall k :: 0 <= k < |front| ==> front[k] == results[k];
      if FetchedBefore(front, |front|) {
        var k :| 0 <= k < |front| && front[k].Fetched?;
        assert results[k].Fetched?;
      }
    }
  }

  /**
   Reachability notices over any run.  The flag is documented to change with the transitions, so that
   retries stay silent; but a failure never lowers it.  Hence became_reachable is never announced, and
   became_unreachable is announced by every failing check after the first success, nxdomain aside.
   */
  lemma ReachabilityNotices(start: Option<Row>, results: seq<Result>, i: nat)
    requires IsStart(start) && i < |results|
    ensures !AnnouncedAt(start, results, i, BecameReachable)
    ensures AnnouncedAt(start, results, i, BecameUnreachable)
            <==> results[i].Failed? && results[i].kind != NxDomain && FetchedBefore(results, i)
  {
    RestoredAfterFetch(start, results[..i]);
    assert forall k :: 0 <= k < i ==> results[..i][k] == results[k];
    if FetchedBefore(results, i) {
      var k :| 0 <= k < i && results[k].Fetched?;
      assert results[..i][k].Fetched?;
    }
  }

  /** A domain without known selectors is announced as changed by every check that follows a successful one. */
  lemma EmptySelectorsAlwaysReported(start: Option<Row>, results: seq<Result>, i: nat)
    requires IsStart(start) && i < |results|
    requires results[i].Fetched? && results[i].intel.dkim == Some([])
    ensures AnnouncedAt(start, results, i, DkimChanged) <==> FetchedBefore(results, i)
  {
    RestoredAfterFetch(start, results[..i]);
    assert forall k :: 0 <= k < i ==> results[..i][k] == results[k];
    if FetchedBefore(results, i) {
      var k :| 0 <= k < i && results[k].Fetched?;
      assert results[..i][k].Fetched?;
      var cached := Restore(RowAfter(start, results[..i])).value;
      EmptySelectorsDiffer(cached.dkim);
    }
  }

  // ---------------------------------------------------------------------------
  // One check
  // ---------------------------------------------------------------------------

  datatype Diff = Diff(mx: bool, spf: bool, dmarc: bool, dkim: bool, unreachable: bool, reachable: bool)

  predicate FlagOf(d: Diff, c: Change) {
    match c
    case MxChanged => d.mx
    case SpfChanged => d.spf
    case DmarcChanged => d.dmarc
    case DkimChanged => d.dkim
    case BecameUnreachable => d.unreachable
    case BecameReachable => d.reachable
  }

  /** `compute_email_diff`. */
  method ComputeDiff(cached: Option<Intel>, result: Result) returns (diff: Diff)
    ensures forall c :: FlagOf(diff, c) == Announces(cached, result, c)
  {
    diff := Diff(false, false, false, false, false, false);
    if cached.None? {
      return;
    }
    var before := cached.value;
    if result.Failed? {
      if result.kind != NxDomain && before.reachable {
        diff := diff.(unreachable := true);
      }
      return;
    }
    var latest := result.intel;
    diff := diff.(reachable := !before.reachable && latest.reachable);
    diff := diff.(mx := Members(before.mx) != Members(latest.mx));
    diff := diff.(spf := SpfDiffers(before.spf, latest.spf));
    diff := diff.(dmarc := before.dmarc != latest.dmarc);
    diff := diff.(dkim := DkimDiffers(before.dkim, latest.dkim));
  }

  /** Position of a change in the order of the notices. */
  function Rank(c: Change): nat {
    match c
    case MxChanged => 0 case SpfChanged => 1 case DmarcChanged => 2 case DkimChanged => 3
    case BecameUnreachable => 4 case BecameReachable => 5
  }

  /** The list holds exactly the announced changes, in their fixed order, none twice. */
  ghost predicate IsNoticeList(list: seq<Change>, cached: Option<Intel>, result: Result) {
    && (forall c :: c in list <==> Announces(cached, result, c))
    && forall i, j :: 0 <= i < j < |list| ==> Rank(list[i]) < Rank(list[j])
  }

  /** The first half of the list `change_types`. */
  method CollectRecordChanges(diff: Diff) returns (changes: seq<Change>)
    ensures forall c :: c in changes <==> FlagOf(diff, c) && Rank(c) < 4
    ensures forall i, j :: 0 <= i < j < |changes| ==> Rank(changes[i]) < Rank(changes[j])
  {
    changes := [];
    if diff.mx { changes := changes + [MxChanged]; }
    if diff.spf { changes := changes + [SpfChanged]; }
    if diff.dmarc { changes := changes + [DmarcChanged]; }
    if diff.dkim { changes := changes + [DkimChanged]; }
  }

  /** The list `change_types` of `_enqueue_change_notices`. */
  method CollectChanges(diff: Diff) returns (changes: seq<Change>)
    ensures forall c :: c in changes <==> FlagOf(diff, c)
    ensures forall i, j :: 0 <= i < j < |changes| ==> Rank(changes[i]) < Rank(changes[j])
  {
    changes := CollectRecordChanges(diff);
    assert forall i :: 0 <= i < |changes| ==> changes[i] in changes;
    if diff.unreachable { changes := changes + [BecameUnreachable]; }
    if diff.reachable { changes := changes + [BecameReachable]; }
  }

  predicate Wants(sub: Subscriber, c: Change) {
    !sub.muted && sub.trackEmail && sub.notifyChange
  }

  function EmailJobs(subs: seq<Subscriber>, changes: seq<Change>): seq<Job<Change>> {
    Jobs(subs, changes, (sub: Subscriber) => sub.user, Wants)
  }

  /** A job exists exactly for an announced change and a subscriber who is told about e-mail. */
  lemma ToldIff(cached: Option<Intel>, result: Result, subs: seq<Subscriber>, changes: seq<Change>, job: Job<Change>)
    requires IsNoticeList(changes, cached, result)
    ensures job in EmailJobs(subs, changes)
            <==> Announces(cached, result, job.change)
                 && exists k :: 0 <= k < |subs| && subs[k].user == job.user
                                && !subs[k].muted && subs[k].trackEmail && subs[k].notifyChange
  {
    JobsAreWanted(subs, changes, (sub: Subscriber) => sub.user, Wants, job);
    if k :| 0 <= k < |subs| && subs[k].user == job.user && !subs[k].muted && subs[k].trackEmail
            && subs[k].notifyChange {
      assert Wants(subs[k], job.change);
    }
  }

  /** When the domain is due again; a failure without a row schedules nothing. */
  function NextDue(prev: Option<Row>, due: int, result: Result, now: int): int {
    match result
    case Fetched(i) => CalculateNextCheck(i.dmarc.Some?, i.spf.Some?, 0, now)
    case Failed(_) => if prev.None? then due else CalculateNextCheck(false, false, prev.value.failCount + 1, now)
  }

  /** A failing domain is looked at daily, and a healthy one weekly as soon as it publishes both policies. */
  lemma WeeklyIff(prev: Option<Row>, due: int, result: Result, now: int)
    requires prev.Some?
    ensures NextDue(prev, due, result, now) == now + 7 * DAY
            <==> result.Fetched? && result.intel.dmarc.Some? && result.intel.spf.Some?
  {
  }

  /** What the columns of a stored row hold, mechanism by mechanism. */
  lemma StoredIs(i: Intel)
    ensures var row := Store(i);
            && row.reachable == Some(true) && row.failCount == 0 && row.mx == Some(i.mx) && row.dkim == i.dkim
            && (forall text, mode, multiple :: i.spf == Some(Spf(text, mode, multiple)) ==>
                  row.spfRecord == Some(text) && row.spfMode == Some(mode))
            && (forall policy, subpolicy, pct :: i.dmarc == Some(Dmarc(policy, subpolicy, pct)) ==>
                  row.dmarcPolicy == Some(policy) && row.dmarcSubpolicy == subpolicy && row.dmarcPct == pct)
            && (i.spf.None? ==> row.spfRecord.None? && row.spfMode.None?)
            && (i.dmarc.None? ==> row.dmarcPolicy.None? && row.dmarcSubpolicy.None? && row.dmarcPct.None?)
  {
  }

  /** The cache row of one domain, with the time of its next check, and the job queue. */
  class Monitor {
    var row: Option<Row>
    var due: int
    var queue: seq<Job<Change>>

    /** The part of `check_email_intel` after the fetch. */
    method Check(result: Result, subs: seq<Subscriber>, now: int) returns (changes: seq<Change>)
      modifies this
      ensures row == NextRow(old(row), result)
      ensures result.Failed? && old(row).Some? ==>
        row == Some(old(row).value.(failCount := old(row).value.failCount + 1))
      ensures result.Failed? && old(row).None? ==> row == None
      ensures due == NextDue(old(row), old(due), result, now)
      ensures IsNoticeList(changes, Restore(old(row)), result)
      ensures queue == old(queue) + EmailJobs(subs, changes)
    {
      var cached := Restore(row);
      match result {
        case Fetched(i) =>
          due := CalculateNextCheck(i.dmarc.Some?, i.spf.Some?, 0, now);
          row := Some(Store(i));
        case Failed(_) =>
          if row.Some? {
            var failCount := row.value.failCount + 1;
            due := CalculateNextCheck(false, false, failCount, now);
            row := Some(row.value.(failCount := failCount));
          }
      }
      var diff := ComputeDiff(cached, result);
      changes := CollectChanges(diff);
      queue := FanOut.Enqueue(queue, subs, changes, (sub: Subscriber) => sub.user, Wants);
    }
  }
}
