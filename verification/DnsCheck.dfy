/**
 `check_dns`: resolve, diff against the cached row, write the row, announce the changes
 (src/tasks/check_dns.py, src/dns_monitor/diff.py, src/dns_monitor/scheduler.py).
 */
module DnsCheck {
  import opened Sequences
  import opened Text
  import opened FanOut
  import opened Permutations

  datatype ErrorKind = InvalidDomain | NxDomain | NoRecords | Timeout | ServFail | ResolverUnreachable | Disabled
                     | InternalError

  datatype Records = Records(reachable: bool, a: seq<string>, aaaa: seq<string>, ns: seq<string>)

  datatype Result = Resolved(records: Records) | Failed(kind: ErrorKind)

  /** A row of `dns_cache`; times are seconds. A scheduler's bootstrap row has `lastChecked == None`. */
  datatype Row = Row(a: Option<seq<string>>, aaaa: Option<seq<string>>, ns: Option<seq<string>>,
                     reachable: Option<bool>, mismatch: bool, failCount: nat,
                     lastChecked: Option<int>, lastSuccess: Option<int>, lastChanged: Option<int>, nextCheck: int)

  datatype Change = AChanged | AaaaChanged | NsChanged | BecameUnreachable | BecameReachable
                  | MismatchDetected | MismatchResolved

  datatype Subscriber = Subscriber(user: int, muted: bool, trackDns: bool)

  const HOUR := 3600
  const FRESH_INTERVAL := HOUR
  const STABLE_INTERVAL := 24 * HOUR
  const CDN_LIKELY_INTERVAL := 6 * HOUR
  const NS_MISMATCH_INTERVAL := 1800
  const BACKOFF_INTERVAL := 24 * HOUR
  const RECENT_CHANGE_WINDOW := 24 * HOUR
  const MAX_FAIL_COUNT := 10

  /** A configuration problem rather than an outage. */
  predicate Configurational(kind: ErrorKind) {
    kind == InvalidDomain || kind == Disabled
  }

  function NormalizedServer(ns: string): string {
    DropDots(Lower(ns))
  }

  function NormalizedServers(ns: seq<string>): seq<string> {
    seq(|ns|, i requires 0 <= i < |ns| => NormalizedServer(ns[i]))
  }

  /** The DNS and WHOIS name servers differ, when both are known; the code compares sorted lists. */
  predicate DetectMismatch(dns: seq<string>, whois: seq<string>) {
    dns != [] && whois != [] && multiset(NormalizedServers(dns)) != multiset(NormalizedServers(whois))
  }

  /** One host, written twice: equal up to case, final dots aside. */
  predicate SameHostUpTo(a: string, b: string, n: nat) {
    n <= |a| && n <= |b| && EqualUpToCase(a[..n], b[..n]) && AllDots(a[n..]) && AllDots(b[n..])
  }

  ghost predicate SameHost(a: string, b: string) {
    exists n :: SameHostUpTo(a, b, n)
  }

  /** `p` pairs off the hosts of the two lists. */
  ghost predicate PairsHosts(p: seq<nat>, dns: seq<string>, whois: seq<string>) {
    |dns| == |whois| && IsPairing(p, |dns|) && forall i :: 0 <= i < |dns| ==> SameHost(dns[i], whois[p[i]])
  }

  lemma SameHostUpToIff(a: string, b: string, n: nat)
    ensures SameHostUpTo(a, b, n) <==> SameStem(Lower(a), Lower(b), n)
  {
    if n <= |a| && n <= |b| {
      assert Lower(a)[..n] == Lower(a[..n]) && Lower(b)[..n] == Lower(b[..n]);
      assert Lower(a)[n..] == Lower(a[n..]) && Lower(b)[n..] == Lower(b[n..]);
      EqualUpToCaseIff(a[..n], b[..n]);
      LowerKeepsDots(a[n..]);
      LowerKeepsDots(b[n..]);
    }
  }

  lemma SameHostIff(a: string, b: string)
    ensures SameHost(a, b) <==> NormalizedServer(a) == NormalizedServer(b)
  {
    SameStemIff(Lower(a), Lower(b));
    forall n: nat ensures SameHostUpTo(a, b, n) <==> SameStem(Lower(a), Lower(b), n) {
      SameHostUpToIff(a, b, n);
    }
  }

  lemma PairsHostsIff(p: seq<nat>, dns: seq<string>, whois: seq<string>)
    ensures PairsHosts(p, dns, whois) <==> PairsEqual(p, NormalizedServers(dns), NormalizedServers(whois))
  {
    if |dns| == |whois| && IsPairing(p, |dns|) {
      forall i | 0 <= i < |dns|
        ensures SameHost(dns[i], whois[p[i]]) <==> NormalizedServers(dns)[i] == NormalizedServers(whois)[p[i]]
      {
        SameHostIff(dns[i], whois[p[i]]);
      }
    }
  }

  /** There is a mismatch exactly when both lists are known and their hosts cannot be paired off. */
  lemma DetectMismatchIff(dns: seq<string>, whois: seq<string>)
    ensures DetectMismatch(dns, whois) <==> dns != [] && whois != [] && !exists p :: PairsHosts(p, dns, whois)
  {
    SameMultisetIff(NormalizedServers(dns), NormalizedServers(whois));
    forall p ensures PairsHosts(p, dns, whois) <==> PairsEqual(p, NormalizedServers(dns), NormalizedServers(whois)) {
      PairsHostsIff(p, dns, whois);
    }
  }

  predicate MismatchNow(result: Result, whois: seq<string>) {
    result.Resolved? && whois != [] && DetectMismatch(result.records.ns, whois)
  }

  // ---------------------------------------------------------------------------
  // Which changes a check announces, change by change
  // ---------------------------------------------------------------------------

  /** There is a row, and it is not a bootstrap row. */
  predicate Checked(prev: Option<Row>) {
    prev.Some? && prev.value.lastChecked.Some?
  }

  predicate SameList(stored: Option<seq<string>>, latest: seq<string>) {
    multiset(OrEmpty(stored)) == multiset(latest)
  }

  predicate Announces(prev: Option<Row>, result: Result, whois: seq<string>, c: Change) {
    match c
    case AChanged => Checked(prev) && result.Resolved? && !SameList(prev.value.a, result.records.a)
    case AaaaChanged => Checked(prev) && result.Resolved? && !SameList(prev.value.aaaa, result.records.aaaa)
    case NsChanged => Checked(prev) && result.Resolved? && !SameList(prev.value.ns, result.records.ns)
    case BecameUnreachable =>
      Checked(prev) && result.Failed? && !Configurational(result.kind) && prev.value.reachable == Some(true)
    case BecameReachable =>
      Checked(prev) && result.Resolved? && result.records.reachable && prev.value.reachable == Some(false)
    case MismatchDetected => prev.Some? && MismatchNow(result, whois) && !prev.value.mismatch
    case MismatchResolved => prev.Some? && !MismatchNow(result, whois) && prev.value.mismatch
  }

  function Flag(c: Change, on: bool): seq<Change> {
    if on then [c] else []
  }

  /** Flags of the mutable diff that is computed first. */
  datatype Diff = Diff(a: bool, aaaa: bool, ns: bool, unreachable: bool, reachable: bool)

  function DiffOf(prev: Option<Row>, result: Result): Diff {
    Diff(Announces(prev, result, [], AChanged), Announces(prev, result, [], AaaaChanged),
         Announces(prev, result, [], NsChanged), Announces(prev, result, [], BecameUnreachable),
         Announces(prev, result, [], BecameReachable))
  }

  /** The records or the reachability changed: what restarts the adaptive interval. */
  predicate HasAny(d: Diff) {
    d.a || d.aaaa || d.ns || d.unreachable || d.reachable
  }

  /** Position of a change in the order of the notices. */
  function Rank(c: Change): nat {
    match c
    case AChanged => 0 case AaaaChanged => 1 case NsChanged => 2 case BecameUnreachable => 3
    case BecameReachable => 4 case MismatchDetected => 5 case MismatchResolved => 6
  }

  function Kind(rank: nat): Change {
    match rank
    case 0 => AChanged case 1 => AaaaChanged case 2 => NsChanged case 3 => BecameUnreachable
    case 4 => BecameReachable case 5 => MismatchDetected case _ => MismatchResolved
  }

  /** The flag that puts a change into the list. */
  predicate FlagOf(prev: Option<Row>, diff: Diff, mismatchNow: bool, c: Change) {
    match c
    case AChanged => diff.a
    case AaaaChanged => diff.aaaa
    case NsChanged => diff.ns
    case BecameUnreachable => diff.unreachable
    case BecameReachable => diff.reachable
    case MismatchDetected => prev.Some? && mismatchNow && !prev.value.mismatch
    case MismatchResolved => prev.Some? && !mismatchNow && prev.value.mismatch
  }

  /** The flagged changes among the first `n`, in order. */
  function ChangeList(prev: Option<Row>, diff: Diff, mismatchNow: bool, n: nat): seq<Change> {
    if n == 0 then []
    else ChangeList(prev, diff, mismatchNow, n - 1) + Flag(Kind(n - 1), FlagOf(prev, diff, mismatchNow, Kind(n - 1)))
  }

  function Notices(prev: Option<Row>, result: Result, whois: seq<string>): seq<Change> {
    ChangeList(prev, DiffOf(prev, result), MismatchNow(result, whois), 7)
  }

  lemma {:induction false} ChangeListFollowsFlags(prev: Option<Row>, diff: Diff, now: bool, n: nat)
    requires n <= 7
    ensures forall c :: c in ChangeList(prev, diff, now, n) <==> Rank(c) < n && FlagOf(prev, diff, now, c)
    ensures NoDuplicates(ChangeList(prev, diff, now, n))
  {
    if n > 0 {
      ChangeListFollowsFlags(prev, diff, now, n - 1);
      assert forall c :: Rank(c) == n - 1 <==> c == Kind(n - 1);
    }
  }

  /** The flags of a check are what it announces. */
  lemma FlagsAreAnnounced(prev: Option<Row>, result: Result, whois: seq<string>, c: Change)
    ensures FlagOf(prev, DiffOf(prev, result), MismatchNow(result, whois), c) == Announces(prev, result, whois, c)
  {
  }

  /** A list that goes far enough for a change holds it exactly when it is flagged. */
  lemma ListedIffFlagged(prev: Option<Row>, diff: Diff, now: bool, n: nat, c: Change)
    requires Rank(c) < n <= 7
    ensures c in ChangeList(prev, diff, now, n) <==> FlagOf(prev, diff, now, c)
    ensures NoDuplicates(ChangeList(prev, diff, now, n))
  {
    ChangeListFollowsFlags(prev, diff, now, n);
  }

  /** A change is in the list of a check exactly when the check announces it, and none is listed twice. */
  lemma NoticesAreAnnounced(prev: Option<Row>, result: Result, whois: seq<string>, c: Change)
    ensures c in Notices(prev, result, whois) <==> Announces(prev, result, whois, c)
    ensures NoDuplicates(Notices(prev, result, whois))
  {
    FlagsAreAnnounced(prev, result, whois, c);
    ListedIffFlagged(prev, DiffOf(prev, result), MismatchNow(result, whois), 7, c);
  }

  /**
   On what a check sees: the flag goes up, and over a row with the flag down that is announced, exactly when both lists
   are known and their hosts cannot be paired off; over a row with the flag up, its fall is announced exactly when the
   resolve failed, a list is unknown, or the hosts can be paired off.
   */
  lemma MismatchIsAnnouncedIff(row: Row, result: Result, whois: seq<string>, now: int)
    ensures var differ := result.Resolved? && result.records.ns != [] && whois != []
                          && !exists p :: PairsHosts(p, result.records.ns, whois);
            && (MismatchDetected in Notices(Some(row), result, whois) <==> !row.mismatch && differ)
            && (MismatchResolved in Notices(Some(row), result, whois) <==> row.mismatch && !differ)
            && (result.Resolved? ==> (NextRow(Some(row), result, whois, now).mismatch <==> differ))
  {
    if result.Resolved? {
      DetectMismatchIff(result.records.ns, whois);
    }
    NoticesAreAnnounced(Some(row), result, whois, MismatchDetected);
    NoticesAreAnnounced(Some(row), result, whois, MismatchResolved);
  }

  function CalculateNextCheck(lastSuccess: Option<int>, lastChanged: Option<int>, failCount: nat,
                              mismatch: bool, now: int): (next: int)
    ensures now < next <= now + BACKOFF_INTERVAL
  {
    if failCount >= MAX_FAIL_COUNT then now + BACKOFF_INTERVAL
    else if mismatch then now + NS_MISMATCH_INTERVAL
    else if lastSuccess.None? then now + FRESH_INTERVAL
    else if lastChanged.Some? && now - lastChanged.value < RECENT_CHANGE_WINDOW then now + CDN_LIKELY_INTERVAL
    else now + STABLE_INTERVAL
  }

  const EMPTY_ROW := Row(None, None, None, None, false, 0, None, None, None, 0)

  /** The row a check writes. A failed resolve leaves the lists, the mismatch flag and the times of success alone. */
  function WrittenRow(prev: Option<Row>, result: Result, anyChange: bool, mismatch: bool, now: int): Row {
    var base := if prev.Some? then prev.value else EMPTY_ROW;
    var lastChanged := if anyChange then Some(now) else base.lastChanged;
    match result
    case Resolved(r) =>
      Row(OrNone(r.a), OrNone(r.aaaa), OrNone(r.ns), Some(true), mismatch, 0, Some(now), Some(now), lastChanged,
          CalculateNextCheck(Some(now), lastChanged, 0, mismatch, now))
    case Failed(kind) =>
      base.(reachable := if Configurational(kind) then base.reachable else Some(false),
            failCount := base.failCount + 1, lastChecked := Some(now),
            nextCheck := CalculateNextCheck(base.lastSuccess, lastChanged, base.failCount + 1, mismatch, now))
  }

  function NextRow(prev: Option<Row>, result: Result, whois: seq<string>, now: int): Row {
    WrittenRow(prev, result, HasAny(DiffOf(prev, result)), MismatchNow(result, whois), now)
  }

  /**
   Reachability is told against the row of an earlier check: a fall when the resolve failed, and not merely because the
   domain is invalid or the monitor disabled, which lowers no flag either; a rise when records came.
   */
  lemma ReachabilityIsAnnouncedIff(row: Row, result: Result, whois: seq<string>, now: int)
    requires row.lastChecked.Some?
    ensures var fails := result.Failed? && result.kind != InvalidDomain && result.kind != Disabled;
            && (BecameUnreachable in Notices(Some(row), result, whois) <==> row.reachable == Some(true) && fails)
            && (fails ==> NextRow(Some(row), result, whois, now).reachable == Some(false))
            && (result.Failed? && !fails ==> NextRow(Some(row), result, whois, now).reachable == row.reachable)
    ensures BecameReachable in Notices(Some(row), result, whois)
            <==> row.reachable == Some(false) && result.Resolved? && result.records.reachable
    ensures result.Resolved? ==> NextRow(Some(row), result, whois, now).reachable == Some(true)
  {
    NoticesAreAnnounced(Some(row), result, whois, BecameUnreachable);
    NoticesAreAnnounced(Some(row), result, whois, BecameReachable);
  }

  /** Records or reachability changed at this check, or less than a day before it. */
  ghost predicate ChangedLately(prev: Option<Row>, result: Result, whois: seq<string>, now: int) {
    || (exists c :: c in Notices(prev, result, whois) && c != MismatchDetected && c != MismatchResolved)
    || (prev.Some? && prev.value.lastChanged.Some? && now - prev.value.lastChanged.value < 24 * HOUR)
  }

  /** Without a row there are no failures to count. */
  function FailsBefore(prev: Option<Row>): nat {
    if prev.Some? then prev.value.failCount else 0
  }

  lemma RestartsIff(prev: Option<Row>, result: Result, whois: seq<string>)
    ensures HasAny(DiffOf(prev, result))
            <==> exists c :: c in Notices(prev, result, whois) && c != MismatchDetected && c != MismatchResolved
  {
    forall c ensures c in Notices(prev, result, whois) <==> Announces(prev, result, whois, c) {
      NoticesAreAnnounced(prev, result, whois, c);
    }
    if HasAny(DiffOf(prev, result)) {
      var d := DiffOf(prev, result);
      var c := if d.a then AChanged else if d.aaaa then AaaaChanged else if d.ns then NsChanged
               else if d.unreachable then BecameUnreachable else BecameReachable;
      assert c in Notices(prev, result, whois);
    }
  }

  /**
   When the next check is due: after a resolve in half an hour while the name servers differ, else in six hours if
   something changed lately, else in a day; after a failure in a day from the tenth in a row on, in an hour while the
   domain was never resolved, else in six hours or a day likewise.
   */
  lemma DueIs(prev: Option<Row>, result: Result, whois: seq<string>, now: int)
    ensures var lately := if ChangedLately(prev, result, whois, now) then 6 * HOUR else 24 * HOUR;
            NextRow(prev, result, whois, now).nextCheck - now
            == match result
               case Resolved(r) =>
                 if r.ns != [] && whois != [] && !exists p :: PairsHosts(p, r.ns, whois) then HOUR / 2 else lately
               case Failed(_) =>
                 if FailsBefore(prev) >= 9 then 24 * HOUR
                 else if prev.None? || prev.value.lastSuccess.None? then HOUR
                 else lately
  {
    RestartsIff(prev, result, whois);
    if result.Resolved? {
      DetectMismatchIff(result.records.ns, whois);
    }
  }

  /** The subscriber is told about DNS at all. */
  predicate Wants(sub: Subscriber, c: Change) {
    !sub.muted && sub.trackDns
  }

  function DnsJobs(subs: seq<Subscriber>, changes: seq<Change>): seq<Job<Change>> {
    Jobs(subs, changes, (sub: Subscriber) => sub.user, Wants)
  }

  /** A job exists exactly for a listed change and a subscriber who is told about DNS. */
  lemma JobsAreForTrackers(subs: seq<Subscriber>, changes: seq<Change>, job: Job<Change>)
    ensures job in DnsJobs(subs, changes)
            <==> job.change in changes
                 && exists k :: 0 <= k < |subs| && subs[k].user == job.user && !subs[k].muted && subs[k].trackDns
  {
    JobsAreWanted(subs, changes, (sub: Subscriber) => sub.user, Wants, job);
    if k :| 0 <= k < |subs| && subs[k].user == job.user && !subs[k].muted && subs[k].trackDns {
      assert Wants(subs[k], job.change);
    }
  }

  /** `compute_dns_diff`: flags set one by one, with the early returns of the code. */
  method ComputeDiff(prev: Option<Row>, result: Result) returns (diff: Diff)
    ensures diff == DiffOf(prev, result)
  {
    diff := Diff(false, false, false, false, false);
    if prev.None? || prev.value.lastChecked.None? {
      return;
    }
    if result.Failed? {
      if !Configurational(result.kind) && prev.value.reachable == Some(true) {
        diff := diff.(unreachable := true);
      }
      return;
    }
    if prev.value.reachable == Some(false) && result.records.reachable {
      diff := diff.(reachable := true);
    }
    if multiset(OrEmpty(prev.value.a)) != multiset(result.records.a) {
      diff := diff.(a := true);
    }
    if multiset(OrEmpty(prev.value.aaaa)) != multiset(result.records.aaaa) {
      diff := diff.(aaaa := true);
    }
    if multiset(OrEmpty(prev.value.ns)) != multiset(result.records.ns) {
      diff := diff.(ns := true);
    }
  }

  /** One conditional append of a change type. */
  method AppendIf(on: bool, c: Change, changes: seq<Change>, ghost prev: Option<Row>, ghost diff: Diff, ghost now: bool)
    returns (more: seq<Change>)
    requires changes == ChangeList(prev, diff, now, Rank(c)) && on == FlagOf(prev, diff, now, c)
    ensures more == ChangeList(prev, diff, now, Rank(c) + 1)
  {
    more := changes;
    if on {
      more := more + [c];
    }
  }

  /** The transition of the mismatch flag; there is none before a row exists. */
  method MismatchChanges(prev: Option<Row>, mismatchNow: bool) returns (changes: seq<Change>)
    ensures changes == Flag(MismatchDetected, prev.Some? && mismatchNow && !prev.value.mismatch)
                       + Flag(MismatchResolved, prev.Some? && !mismatchNow && prev.value.mismatch)
  {
    var mismatchBefore := prev.Some? && prev.value.mismatch;
    changes := [];
    if prev.Some? {
      if mismatchNow && !mismatchBefore {
        changes := [MismatchDetected];
      } else if mismatchBefore && !mismatchNow {
        changes := [MismatchResolved];
      }
    }
  }

  /** The change types, appended one by one: first the record lists, */
  method CollectRecordChanges(prev: Option<Row>, diff: Diff, ghost mismatchNow: bool) returns (changes: seq<Change>)
    ensures changes == ChangeList(prev, diff, mismatchNow, Rank(NsChanged) + 1)
  {
    changes := AppendIf(diff.a, AChanged, [], prev, diff, mismatchNow);
    changes := AppendIf(diff.aaaa, AaaaChanged, changes, prev, diff, mismatchNow);
    changes := AppendIf(diff.ns, NsChanged, changes, prev, diff, mismatchNow);
  }

  /** then reachability. */
  method CollectDiffChanges(prev: Option<Row>, diff: Diff, ghost mismatchNow: bool) returns (changes: seq<Change>)
    ensures changes == ChangeList(prev, diff, mismatchNow, Rank(BecameReachable) + 1)
  {
    changes := CollectRecordChanges(prev, diff, mismatchNow);
    changes := AppendIf(diff.unreachable, BecameUnreachable, changes, prev, diff, mismatchNow);
    changes := AppendIf(diff.reachable, BecameReachable, changes, prev, diff, mismatchNow);
  }

  /** All change types, with the mismatch transition last. */
  method CollectChanges(prev: Option<Row>, diff: Diff, mismatchNow: bool) returns (changes: seq<Change>)
    ensures changes == ChangeList(prev, diff, mismatchNow, 7)
  {
    changes := CollectDiffChanges(prev, diff, mismatchNow);
    var mismatchChanges := MismatchChanges(prev, mismatchNow);
    MismatchComesLast(prev, diff, mismatchNow);
    changes := changes + mismatchChanges;
  }

  lemma MismatchComesLast(prev: Option<Row>, diff: Diff, now: bool)
    ensures ChangeList(prev, diff, now, 7)
         == ChangeList(prev, diff, now, 5) + (Flag(MismatchDetected, FlagOf(prev, diff, now, MismatchDetected))
                                              + Flag(MismatchResolved, FlagOf(prev, diff, now, MismatchResolved)))
  {
    ConcatAssoc(ChangeList(prev, diff, now, 5), Flag(MismatchDetected, FlagOf(prev, diff, now, MismatchDetected)),
                Flag(MismatchResolved, FlagOf(prev, diff, now, MismatchResolved)));
    assert ChangeList(prev, diff, now, 6)
        == ChangeList(prev, diff, now, 5) + Flag(MismatchDetected, FlagOf(prev, diff, now, MismatchDetected));
  }

  /** The cache row of one domain and the job queue, as a check changes them. */
  class Monitor {
    var row: Option<Row>
    var queue: seq<Job<Change>>

    constructor (bootstrap: bool)
      ensures row == (if bootstrap then Some(EMPTY_ROW) else None) && queue == []
    {
      row := if bootstrap then Some(EMPTY_ROW) else None;
      queue := [];
    }

    /** `_check_dns_locked`. */
    method Check(result: Result, whois: seq<string>, subs: seq<Subscriber>, now: int)
      modifies this
      ensures row == Some(NextRow(old(row), result, whois, now))
      ensures queue == old(queue) + DnsJobs(subs, Notices(old(row), result, whois))
    {
      var before := row;
      var diff := ComputeDiff(before, result);
      var mismatchNow := false;
      if result.Resolved? && whois != [] {
        mismatchNow := DetectMismatch(result.records.ns, whois);
      }
      var changes := CollectChanges(before, diff, mismatchNow);
      Persist(result, diff, mismatchNow, now);
      Enqueue(subs, changes);
    }

    /** The adaptive interval and the upsert of the given fields. */
    method Persist(result: Result, diff: Diff, mismatchNow: bool, now: int)
      modifies this`row
      ensures row == Some(WrittenRow(old(row), result, HasAny(diff), mismatchNow, now))
      // a success stores what was resolved, so that restoring gives it back, and forgets all failures
      ensures result.Resolved? ==>
        && OrEmpty(row.value.a) == result.records.a && OrEmpty(row.value.aaaa) == result.records.aaaa
        && OrEmpty(row.value.ns) == result.records.ns
        && row.value.reachable == Some(true) && row.value.mismatch == mismatchNow && row.value.failCount == 0
        && row.value.lastSuccess == row.value.lastChecked == Some(now)
        && row.value.lastChanged == (if diff.a || diff.aaaa || diff.ns || diff.unreachable || diff.reachable
                                     then Some(now) else if old(row).Some? then old(row).value.lastChanged else None)
      // a failure keeps everything a later diff is taken against, but for the reachability an outage lowers
      ensures result.Failed? && old(row).Some? ==>
        && row.value.a == old(row).value.a && row.value.aaaa == old(row).value.aaaa && row.value.ns == old(row).value.ns
        && row.value.mismatch == old(row).value.mismatch && row.value.lastSuccess == old(row).value.lastSuccess
        && row.value.lastChanged == old(row).value.lastChanged && row.value.failCount == old(row).value.failCount + 1
        && row.value.reachable == if Configurational(result.kind) then old(row).value.reachable else Some(false)
      ensures now < row.value.nextCheck <= now + BACKOFF_INTERVAL
    {
      var base := if row.Some? then row.value else EMPTY_ROW;
      var lastChanged := base.lastChanged;
      if diff.a || diff.aaaa || diff.ns || diff.unreachable || diff.reachable {
        lastChanged := Some(now);
      }
      match result {
        case Resolved(r) =>
          var next := CalculateNextCheck(Some(now), lastChanged, 0, mismatchNow, now);
          row := Some(Row(OrNone(r.a), OrNone(r.aaaa), OrNone(r.ns), Some(true), mismatchNow, 0,
                          Some(now), Some(now), lastChanged, next));
        case Failed(kind) =>
          var next := CalculateNextCheck(base.lastSuccess, lastChanged, base.failCount + 1, mismatchNow, now);
          var fields := base.(failCount := base.failCount + 1, lastChecked := Some(now), nextCheck := next);
          if !Configurational(kind) {
            fields := fields.(reachable := Some(false));
          }
          row := Some(fields);
      }
    }

    /** The nested loops over subscribers and change types. */
    method Enqueue(subs: seq<Subscriber>, changes: seq<Change>)
      modifies this`queue
      ensures queue == old(queue) + DnsJobs(subs, changes)
    {
      queue := FanOut.Enqueue(queue, subs, changes, (sub: Subscriber) => sub.user, Wants);
    }
  }
}
