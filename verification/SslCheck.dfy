/**
 `check_ssl`: fetch, diff against the cached certificate, write the row, announce the changes
 (src/tasks/check_ssl.py, src/ssl/diff.py, src/ssl/scheduler.py).
 */
module SslCheck {
  import opened Sequences
  import opened FanOut
  import F = FlagMachine

  datatype ErrorKind = ConnectionRefused | ConnectionTimeout | TlsHandshakeFailed | NoHttps | InvalidCertificate
                     | InternalError

  /** The fields that are stored and restored but never compared. */
  datatype Details = Details(notBefore: Option<int>, subjectCn: Option<string>, serial: Option<string>,
                             fingerprint: Option<string>, algorithm: Option<string>)

  datatype Certificate = Certificate(reachable: bool, hasCertificate: bool, notAfter: Option<int>,
                                     issuerCn: Option<string>, issuerO: Option<string>,
                                     altNames: seq<string>, details: Details)

  datatype Result = Fetched(cert: Certificate) | Failed(kind: ErrorKind)

  /** A row of `ssl_cache`. The scheduler's placeholder has neither flag set. */
  datatype Row = Row(reachable: Option<bool>, hasCertificate: Option<bool>, notAfter: Option<int>,
                     issuerCn: Option<string>, issuerO: Option<string>,
                     altNames: Option<seq<string>>, details: Details, failCount: nat, nextCheck: int)

  const NO_DETAILS := Details(None, None, None, None, None)
  const PLACEHOLDER := Row(None, None, None, None, None, None, NO_DETAILS, 0, 0)

  datatype Change = IssuerChanged | NotAfterChanged | BecameUnreachable | BecameReachable

  datatype Subscriber = Subscriber(user: int, muted: bool, trackSsl: bool, notifyIssuer: bool, notifyExpiry: bool)

  const HOUR := 3600
  const DAY := 24 * HOUR

  /** `calculate_next_ssl_check`; times are seconds. */
  function CalculateNextCheck(notAfter: Option<int>, failCount: nat, now: int): (next: int)
    ensures next - now in {HOUR, 4 * HOUR, 6 * HOUR, DAY}
    ensures next - now == DAY <==> failCount >= 10 || (notAfter.Some? && notAfter.value - now > 30 * DAY)
    ensures next - now == 6 * HOUR <==> failCount < 10 && notAfter.Some? && 7 * DAY < notAfter.value - now <= 30 * DAY
    ensures next - now == HOUR <==> failCount < 10 && notAfter.Some? && DAY < notAfter.value - now <= 7 * DAY
  {
    if failCount >= 10 then now + 24 * HOUR
    else if notAfter.None? then now + 4 * HOUR
    else if notAfter.value - now > 30 * DAY then now + DAY
    else if notAfter.value - now > 7 * DAY then now + 6 * HOUR
    else if notAfter.value - now > DAY then now + HOUR
    else now + 4 * HOUR
  }

  /**
   The closer the end, the more often a certificate is checked, with one exception: in its last day, and after it, it
   is checked less often than in the week before.
   */
  lemma UrgencyGrowsIff(notAfter: int, earlier: int, later: int)
    requires earlier < later
    ensures CalculateNextCheck(Some(notAfter), 0, later) - later
              <= CalculateNextCheck(Some(notAfter), 0, earlier) - earlier
            <==> !(DAY < notAfter - earlier <= 7 * DAY && notAfter - later <= DAY)
  {
  }

  /** `_cache_to_certificate`. */
  function Restore(row: Option<Row>): Option<Certificate> {
    if row.None? || row.value.hasCertificate != Some(true) then None
    else
      var r := row.value;
      Some(Certificate(r.reachable == Some(true), true, r.notAfter, r.issuerCn, r.issuerO,
                       OrEmpty(r.altNames), r.details))
  }

  /** The row a check leaves behind. A failure touches no certificate data, and without a row it writes none. */
  function NextRow(prev: Option<Row>, result: Result, now: int): Option<Row> {
    match result
    case Fetched(c) =>
      Some(Row(Some(true), Some(true), c.notAfter, c.issuerCn, c.issuerO,
               if c.altNames == [] then None else Some(c.altNames), c.details, 0,
               CalculateNextCheck(c.notAfter, 0, now)))
    case Failed(kind) =>
      if prev.None? then None
      else
        var r := prev.value;
        Some(r.(failCount := r.failCount + 1,
                nextCheck := CalculateNextCheck(r.notAfter, r.failCount + 1, now),
                reachable := if kind == NoHttps then r.reachable else Some(false)))
  }

  /** Which changes a check announces, given the certificate restored from the row before it. */
  predicate Announces(cached: Option<Certificate>, result: Result, c: Change) {
    && cached.Some?
    && match c
       case IssuerChanged =>
         && result.Fetched? && result.cert.hasCertificate
         && (cached.value.issuerCn != result.cert.issuerCn || cached.value.issuerO != result.cert.issuerO)
       case NotAfterChanged =>
         // not repeated when the issuer changed as well
         && result.Fetched? && result.cert.hasCertificate && cached.value.notAfter != result.cert.notAfter
         && cached.value.issuerCn == result.cert.issuerCn && cached.value.issuerO == result.cert.issuerO
       case BecameUnreachable =>
         cached.value.reachable && (if result.Failed? then result.kind != NoHttps else !result.cert.hasCertificate)
       case BecameReachable =>
         !cached.value.reachable && result.Fetched? && result.cert.hasCertificate && result.cert.reachable
  }

  datatype Diff = Diff(notAfter: bool, issuer: bool, unreachable: bool, reachable: bool)

  /** The flags behind a notice; a rotation is not repeated when the issuer changed as well. */
  predicate FlagOf(d: Diff, c: Change) {
    match c
    case IssuerChanged => d.issuer
    case NotAfterChanged => d.notAfter && !d.issuer
    case BecameUnreachable => d.unreachable
    case BecameReachable => d.reachable
  }

  /** `compute_ssl_diff`, with its early returns. */
  method ComputeDiff(cached: Option<Certificate>, result: Result) returns (diff: Diff)
    requires cached.Some? ==> cached.value.hasCertificate
    ensures forall c :: FlagOf(diff, c) == Announces(cached, result, c)
  {
    diff := Diff(false, false, false, false);
    if cached.None? || !cached.value.hasCertificate {
      return;
    }
    var before := cached.value;
    if result.Failed? {
      if result.kind != NoHttps && before.reachable {
        diff := diff.(unreachable := true);
      }
      return;
    }
    if !result.cert.hasCertificate {
      if before.reachable {
        diff := diff.(unreachable := true);
      }
      return;
    }
    if !before.reachable && result.cert.reachable {
      diff := diff.(reachable := true);
    }
    if before.notAfter != result.cert.notAfter {
      diff := diff.(notAfter := true);
    }
    if before.issuerCn != result.cert.issuerCn || before.issuerO != result.cert.issuerO {
      diff := diff.(issuer := true);
    }
  }

  /** The subscriber's toggle for a change. */
  predicate Wants(sub: Subscriber, c: Change) {
    && !sub.muted && sub.trackSsl
    && match c
       case IssuerChanged => sub.notifyIssuer
       case NotAfterChanged => sub.notifyIssuer
       case BecameUnreachable => sub.notifyExpiry
       case BecameReachable => sub.notifyExpiry
  }

  function SslJobs(subs: seq<Subscriber>, changes: seq<Change>): seq<Job<Change>> {
    Jobs(subs, changes, (sub: Subscriber) => sub.user, Wants)
  }

  /** The list built by `_enqueue_change_notices`: exactly the announced changes, in this order, none twice. */
  ghost predicate IsNoticeList(list: seq<Change>, cached: Option<Certificate>, result: Result) {
    && (forall c :: c in list <==> Announces(cached, result, c))
    && forall i, j :: 0 <= i < j < |list| ==> Rank(list[i]) < Rank(list[j])
  }

  function Rank(c: Change): nat {
    match c case IssuerChanged => 0 case NotAfterChanged => 1 case BecameUnreachable => 2 case BecameReachable => 3
  }

  method CollectChanges(diff: Diff) returns (changes: seq<Change>)
    ensures forall c :: c in changes <==> FlagOf(diff, c)
    ensures forall i, j :: 0 <= i < j < |changes| ==> Rank(changes[i]) < Rank(changes[j])
  {
    changes := [];
    if diff.issuer { changes := changes + [IssuerChanged]; }
    if diff.notAfter && !diff.issuer { changes := changes + [NotAfterChanged]; }
    if diff.unreachable { changes := changes + [BecameUnreachable]; }
    if diff.reachable { changes := changes + [BecameReachable]; }
  }

  /** The cache row of one domain and the job queue. */
  class Monitor {
    var row: Option<Row>
    var queue: seq<Job<Change>>

    /** The part of `check_ssl` after the fetch. */
    method Check(result: Result, subs: seq<Subscriber>, now: int) returns (changes: seq<Change>)
      modifies this
      ensures row == NextRow(old(row), result, now)
      ensures IsNoticeList(changes, Restore(old(row)), result)
      ensures queue == old(queue) + SslJobs(subs, changes)
    {
      var cached := Restore(row);
      // the diff is taken before the failure branch lowers is_reachable
      var diff := ComputeDiff(cached, result);
      Persist(result, now);
      changes := CollectChanges(diff);
      Enqueue(subs, changes);
    }

    /** The row as either branch writes it. */
    method Persist(result: Result, now: int)
      modifies this`row
      ensures row == NextRow(old(row), result, now)
      // a success stores the certificate, so that restoring gives it back
      ensures result.Fetched? ==> Restore(row) == Some(result.cert.(reachable := true, hasCertificate := true))
      ensures result.Fetched? ==>
        && row.value.notAfter == result.cert.notAfter && row.value.issuerCn == result.cert.issuerCn
        && row.value.issuerO == result.cert.issuerO && OrEmpty(row.value.altNames) == result.cert.altNames
        && row.value.hasCertificate == row.value.reachable == Some(true) && row.value.failCount == 0
      // a failure keeps it, counts, lowers the flag unless there is no HTTPS, and never creates a row
      ensures result.Failed? ==> (row == None <==> old(row) == None)
      ensures result.Failed? && old(row).Some? ==>
        && row.value.hasCertificate == old(row).value.hasCertificate && row.value.notAfter == old(row).value.notAfter
        && row.value.issuerCn == old(row).value.issuerCn && row.value.issuerO == old(row).value.issuerO
        && row.value.altNames == old(row).value.altNames && row.value.details == old(row).value.details
        && row.value.failCount == old(row).value.failCount + 1
        && row.value.reachable == if result.kind == NoHttps then old(row).value.reachable else Some(false)
    {
      match result {
        case Fetched(c) =>
          var names := if c.altNames == [] then None else Some(c.altNames);
          row := Some(Row(Some(true), Some(true), c.notAfter, c.issuerCn, c.issuerO, names, c.details, 0,
                          CalculateNextCheck(c.notAfter, 0, now)));
        case Failed(kind) =>
          if row.Some? {
            var r := row.value;
            var failCount := r.failCount + 1;
            r := r.(failCount := failCount, nextCheck := CalculateNextCheck(r.notAfter, failCount, now));
            if kind != NoHttps {
              r := r.(reachable := Some(false));
            }
            row := Some(r);
          }
      }
    }

    /** The nested loops over subscribers and changes. */
    method Enqueue(subs: seq<Subscriber>, changes: seq<Change>)
      modifies this`queue
      ensures queue == old(queue) + SslJobs(subs, changes)
    {
      queue := FanOut.Enqueue(queue, subs, changes, (sub: Subscriber) => sub.user, Wants);
    }
  }

  /**
   A job exists exactly for an announced change and an unmuted subscriber who tracks SSL and has the toggle on: that for
   issuers for changes of the certificate, that for expiry for reachability.
   */
  lemma ToldIff(cached: Option<Certificate>, result: Result, subs: seq<Subscriber>, changes: seq<Change>,
                job: Job<Change>)
    requires IsNoticeList(changes, cached, result)
    ensures job in SslJobs(subs, changes)
            <==> Announces(cached, result, job.change)
                 && exists k :: 0 <= k < |subs| && subs[k].user == job.user && !subs[k].muted && subs[k].trackSsl
                                && (job.change.IssuerChanged? || job.change.NotAfterChanged? ==> subs[k].notifyIssuer)
                                && (job.change.BecameUnreachable? || job.change.BecameReachable? ==>
                                      subs[k].notifyExpiry)
  {
    JobsAreWanted(subs, changes, (sub: Subscriber) => sub.user, Wants, job);
    if k :| 0 <= k < |subs| && subs[k].user == job.user && !subs[k].muted && subs[k].trackSsl
            && (job.change.IssuerChanged? || job.change.NotAfterChanged? ==> subs[k].notifyIssuer)
            && (job.change.BecameUnreachable? || job.change.BecameReachable? ==> subs[k].notifyExpiry) {
      assert Wants(subs[k], job.change);
    }
  }

  // ---------------------------------------------------------------------------
  // Whole runs
  // ---------------------------------------------------------------------------

  datatype Event = Event(result: Result, now: int)

  /** Monitoring starts without a row or with the scheduler's placeholder. */
  predicate IsStart(row: Option<Row>) {
    row == None || row == Some(PLACEHOLDER)
  }

  function RowAfter(start: Option<Row>, events: seq<Event>): Option<Row> {
    if events == [] then start
    else NextRow(RowAfter(start, events[..|events| - 1]), events[|events| - 1].result, events[|events| - 1].now)
  }

  /** The stored reachability, once a certificate was stored. */
  function Flag(row: Option<Row>): Option<bool> {
    if Restore(row).None? then None else Some(Restore(row).value.reachable)
  }

  function StepOf(row: Option<Row>, e: Event): F.Step {
    F.Step(Flag(row), Flag(NextRow(row, e.result, e.now)),
           if Announces(Restore(row), e.result, BecameUnreachable) then Some(false)
           else if Announces(Restore(row), e.result, BecameReachable) then Some(true) else None)
  }

  function Steps(start: Option<Row>, events: seq<Event>): seq<F.Step> {
    seq(|events|, i requires 0 <= i < |events| => StepOf(RowAfter(start, events[..i]), events[i]))
  }

  /** Exactly when notice and stored flag agree; the client only builds reachable certificates. */
  lemma StepIsHonestIff(row: Option<Row>, e: Event)
    ensures F.Honest(StepOf(row, e)) <==>
              || Restore(row).None? || e.result.Failed?
              || (e.result.cert.hasCertificate && (e.result.cert.reachable || Restore(row).value.reachable))
    ensures Flag(row) == None ==> Flag(NextRow(row, e.result, e.now)) != Some(false)
  {
    if Flag(row).Some? {
      if Flag(row).value { } else { }
    }
  }

  /** What the TLS client delivers (src/ssl/client.py). */
  predicate ClientResult(result: Result) {
    result.Fetched? ==> result.cert.reachable && result.cert.hasCertificate
  }

  /** Over any run of fetches, became_unreachable (false) and became_reachable (true) alternate, the former first. */
  lemma ReachabilityAlternates(start: Option<Row>, events: seq<Event>)
    requires IsStart(start)
    requires forall i :: 0 <= i < |events| ==> ClientResult(events[i].result)
    ensures Alternates(F.Trace(Steps(start, events)))
    ensures F.Trace(Steps(start, events)) != [] ==> F.Trace(Steps(start, events))[0] == false
  {
    var steps := Steps(start, events);
    forall i | 0 <= i < |steps|
      ensures F.Honest(steps[i]) && (steps[i].before == None ==> steps[i].after != Some(false))
    {
      StepIsHonestIff(RowAfter(start, events[..i]), events[i]);
    }
    forall i | 0 <= i < |steps| - 1 ensures steps[i].after == steps[i + 1].before {
      assert events[..i + 1][..i] == events[..i];
    }
    if events != [] { assert events[..0] == []; }
    F.HonestRunsAlternate(steps);
    F.FirstNoticeIsFalse(steps);
  }

  predicate AnyFetched(events: seq<Event>) {
    exists i :: 0 <= i < |events| && events[i].result.Fetched?
  }

  predicate IsLastFetch(events: seq<Event>, i: int) {
    0 <= i < |events| && events[i].result.Fetched? && forall j :: i < j < |events| ==> events[j].result.Failed?
  }

  /** The cache holds a certificate exactly when one was ever fetched, and then the last one. */
  lemma {:induction false} CacheHoldsLastCertificate(start: Option<Row>, events: seq<Event>)
    requires IsStart(start)
    ensures Restore(RowAfter(start, events)).Some? <==> AnyFetched(events)
    ensures forall i :: IsLastFetch(events, i) ==>
              Restore(RowAfter(start, events)) == Some(events[i].result.cert.(
                reachable := Flag(RowAfter(start, events)) == Some(true), hasCertificate := true))
  {
    if events != [] {
      var front, e := events[..|events| - 1], events[|events| - 1];
      CacheHoldsLastCertificate(start, front);
      assert events == front + [e];
      assert forall i :: 0 <= i < |front| ==> front[i] == events[i];
      assert forall i :: IsLastFetch(events, i) && i < |front| ==> e.result.Failed? && IsLastFetch(front, i);
    }
  }

  /**
   Over any run, a new issuer is announced exactly when it differs from that of the last fetched certificate, whatever
   failed since; a new end date likewise, unless the issuer is new as well.
   */
  lemma CertificateNoticesAreExact(start: Option<Row>, events: seq<Event>, i: nat, e: Event)
    requires IsStart(start) && IsLastFetch(events, i) && e.result.Fetched?
    ensures var before, after := events[i].result.cert, e.result.cert;
            var newIssuer := before.issuerCn != after.issuerCn || before.issuerO != after.issuerO;
            && (Announces(Restore(RowAfter(start, events)), e.result, IssuerChanged)
                <==> after.hasCertificate && newIssuer)
            && (Announces(Restore(RowAfter(start, events)), e.result, NotAfterChanged)
                <==> after.hasCertificate && !newIssuer && before.notAfter != after.notAfter)
  {
    CacheHoldsLastCertificate(start, events);
  }

  /** Nothing is announced before a first certificate was stored, whatever the results. */
  lemma SilentBeforeFirstCertificate(start: Option<Row>, events: seq<Event>, e: Event, c: Change)
    requires IsStart(start)
    requires !AnyFetched(events)
    ensures !Announces(Restore(RowAfter(start, events)), e.result, c)
  {
    CacheHoldsLastCertificate(start, events);
  }

  /** A domain without HTTPS is a valid state: no flag moves and nothing is announced. */
  lemma NoHttpsIsNeutral(row: Option<Row>, now: int, c: Change)
    ensures !Announces(Restore(row), Failed(NoHttps), c)
    ensures Restore(NextRow(row, Failed(NoHttps), now)) == Restore(row)
  {
  }

  /** Storing a certificate, restoring it and diffing it against itself: silent exactly when it is a certificate. */
  lemma StoreRestoreIsQuiet(prev: Option<Row>, cert: Certificate, now: int)
    ensures (forall c :: !Announces(Restore(NextRow(prev, Fetched(cert), now)), Fetched(cert), c))
            <==> cert.hasCertificate
    ensures Restore(NextRow(prev, Fetched(cert), now)) == Some(cert.(reachable := true, hasCertificate := true))
  {
    if !cert.hasCertificate {
      assert Announces(Restore(NextRow(prev, Fetched(cert), now)), Fetched(cert), BecameUnreachable);
    }
  }
}
