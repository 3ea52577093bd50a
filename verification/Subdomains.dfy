/**
 `check_subdomains`: enumerate, diff against the cached list, cache, announce
 (src/tasks/check_subdomains.py, src/subdomains/diff.py, src/subdomains/scheduler.py,
 src/db/repositories/subdomain_enum_cache.py). Times are seconds.
 */
module Subdomains {
  import opened Sequences
  import opened Sorting

  datatype Result = Enumerated(names: seq<string>) | Failed

  /** One check; `interval` is the shortest interval of the subscribers, in days. */
  datatype Event = Event(result: Result, interval: int, now: int)

  /** A row of `subdomain_enum_cache`; `names` is absent until a first success. */
  datatype Row = Row(names: Option<seq<string>>, reachable: Option<bool>, failCount: nat, due: int)

  /** The two sorted lists of a notice. */
  datatype Delta = Delta(added: seq<string>, removed: seq<string>)

  const NO_DELTA := Delta([], [])

  const HOUR := 3600
  const DAY := 24 * HOUR

  /** `calculate_next_subdomain_check`. */
  function CalculateNextCheck(hasNames: bool, failCount: nat, interval: int, now: int): (next: int)
    ensures now + HOUR <= next
    ensures next < now + DAY <==> 0 < failCount < 3
    ensures failCount == 0 && !hasNames ==> next == now + 30 * DAY
    ensures failCount == 0 && hasNames ==> next == now + DAY || (next == now + interval * DAY && interval > 1)
    ensures failCount == 0 && hasNames && interval > 1 ==> next > now + DAY
  {
    if failCount >= 3 then now + DAY
    else if failCount > 0 then now + HOUR
    else if !hasNames then now + 30 * DAY
    else now + (if interval > 1 then interval else 1) * DAY
  }

  /** `compute_subdomain_diff`. */
  function DiffOf(cached: Option<seq<string>>, latest: seq<string>): Delta {
    if cached.None? then NO_DELTA
    else Delta(SortedDifference(latest, cached.value), SortedDifference(cached.value, latest))
  }

  function CachedNames(row: Option<Row>): Option<seq<string>> {
    if row.None? then None else row.value.names
  }

  /** A failure is an upsert too: it creates the row, but never touches the names. */
  function NextRow(prev: Option<Row>, e: Event): Row {
    var failCount := if prev.Some? then prev.value.failCount else 0;
    match e.result
    case Enumerated(names) => Row(Some(names), Some(true), 0, CalculateNextCheck(names != [], 0, e.interval, e.now))
    case Failed =>
      Row(CachedNames(prev), Some(false), failCount + 1, CalculateNextCheck(false, failCount + 1, 7, e.now))
  }

  /** The cache row of one domain, and the notices enqueued so far. */
  class Monitor {
    var row: Option<Row>
    var notices: seq<Delta>

    method Check(e: Event)
      modifies this
      ensures row == Some(NextRow(old(row), e))
      ensures notices == old(notices) + Optional(NoticeOf(old(row), e.result))
      // a success stores the names and forgets failures; a failure keeps the names and counts
      ensures e.result.Enumerated? ==> CachedNames(row) == Some(e.result.names) && row.value.failCount == 0
      ensures e.result.Failed? ==> CachedNames(row) == CachedNames(old(row)) && notices == old(notices)
      ensures e.result.Failed? ==> row.value.failCount == 1 + if old(row).Some? then old(row).value.failCount else 0
      ensures e.result.Failed? ==> row.value.due == e.now + if row.value.failCount < 3 then HOUR else DAY
      ensures e.result.Enumerated? ==>
        row.value.due - e.now == if e.result.names == [] then 30 * DAY
                                       else if e.interval < 1 then DAY else e.interval * DAY
    {
      var before := row;
      match e.result {
        case Failed =>
          var failCount := if before.Some? then before.value.failCount else 0;
          var next := CalculateNextCheck(false, failCount + 1, 7, e.now);
          row := Some(Row(CachedNames(before), Some(false), failCount + 1, next));
        case Enumerated(names) =>
          var cached := CachedNames(before);
          var next := CalculateNextCheck(names != [], 0, e.interval, e.now);
          row := Some(Row(Some(names), Some(true), 0, next));
          var delta := DiffOf(cached, names);
          if delta.added != [] || delta.removed != [] {
            notices := notices + [delta];
          }
      }
    }
  }

  function NoticeOf(prev: Option<Row>, result: Result): Option<Delta> {
    if result.Failed? || DiffOf(CachedNames(prev), result.names) == NO_DELTA then None
    else Some(DiffOf(CachedNames(prev), result.names))
  }

  // ---------------------------------------------------------------------------
  // Whole runs
  // ---------------------------------------------------------------------------

  function RowAfter(start: Option<Row>, events: seq<Event>): Option<Row> {
    if events == [] then start else Some(NextRow(RowAfter(start, events[..|events| - 1]), events[|events| - 1]))
  }

  function Notices(start: Option<Row>, events: seq<Event>): seq<Delta> {
    if events == [] then []
    else
      var front := events[..|events| - 1];
      Notices(start, front) + Optional(NoticeOf(RowAfter(start, front), events[|events| - 1].result))
  }

  /** A consumer's view: start from a set, take out what was removed, put in what was added. */
  function Replay(from: set<string>, notices: seq<Delta>): set<string> {
    if notices == [] then from
    else
      var d := notices[|notices| - 1];
      (Replay(from, notices[..|notices| - 1]) - Members(d.removed)) + Members(d.added)
  }

  predicate HasNames(row: Option<Row>) {
    CachedNames(row).Some?
  }

  /** The names of the first successful enumeration, or those already cached at the start. */
  function FirstNames(start: Option<Row>, events: seq<Event>): Option<seq<string>> {
    if HasNames(start) then CachedNames(start)
    else if events == [] then None
    else
      var front, last := FirstNames(start, events[..|events| - 1]), events[|events| - 1].result;
      if front.Some? then front
      else if last.Enumerated? then Some(last.names)
      else None
  }

  /** What a consumer holds after one more check. */
  lemma ReplayStep(from: set<string>, notices: seq<Delta>, row: Option<Row>, e: Event)
    requires HasNames(row) && Replay(from, notices) == Members(CachedNames(row).value)
    ensures Replay(from, notices + Optional(NoticeOf(row, e.result)))
         == Members(CachedNames(Some(NextRow(row, e))).value)
  {
    if NoticeOf(row, e.result).Some? {
      ReplaySnoc(from, notices, NoticeOf(row, e.result).value);
    } else {
      assert notices + [] == notices;
    }
    if e.result.Enumerated? {
      DeltaTakesOneSetToTheOther(CachedNames(row).value, e.result.names);
    }
  }

  /** Replaying all notices over the first list gives exactly the cached set, after any run. */
  lemma {:induction false} ReplayReconstructsCache(start: Option<Row>, events: seq<Event>)
    ensures HasNames(RowAfter(start, events)) <==> FirstNames(start, events).Some?
    ensures FirstNames(start, events).Some? ==>
              Replay(Members(FirstNames(start, events).value), Notices(start, events))
              == Members(CachedNames(RowAfter(start, events)).value)
    ensures FirstNames(start, events).None? ==> Notices(start, events) == []
  {
    if events != [] {
      var front, last := events[..|events| - 1], events[|events| - 1];
      ReplayReconstructsCache(start, front);
      if FirstNames(start, front).Some? {
        ReplayStep(Members(FirstNames(start, front).value), Notices(start, front), RowAfter(start, front), last);
      } else {
        NothingToReplay(RowAfter(start, front), last.result);
      }
    }
  }

  lemma NothingToReplay(row: Option<Row>, result: Result)
    requires !HasNames(row)
    ensures NoticeOf(row, result) == None && [] + Optional(NoticeOf(row, result)) == []
  {
  }

  lemma ReplaySnoc(from: set<string>, notices: seq<Delta>, d: Delta)
    ensures Replay(from, notices + [d]) == (Replay(from, notices) - Members(d.removed)) + Members(d.added)
  {
    assert (notices + [d])[..|notices|] == notices;
  }

  lemma DeltaTakesOneSetToTheOther(cached: seq<string>, latest: seq<string>)
    ensures var d := DiffOf(Some(cached), latest);
            (Members(cached) - Members(d.removed)) + Members(d.added) == Members(latest)
  {
    SortedDifferenceIs(latest, cached);
    SortedDifferenceIs(cached, latest);
  }

  /**
   Each notice is minimal and sorted: removed names were cached, added ones were not; and a success is silent only if
   the sets agree.
   */
  lemma NoticesAreExact(row: Option<Row>, result: Result)
    requires HasNames(row)
    ensures NoticeOf(row, result).Some? ==>
              var d := NoticeOf(row, result).value;
              && Members(d.removed) <= Members(CachedNames(row).value)
              && Members(d.added) !! Members(CachedNames(row).value)
              && Ascending(d.removed) && Ascending(d.added)
    ensures NoticeOf(row, result) == None
            <==> result.Failed? || Members(result.names) == Members(CachedNames(row).value)
  {
    if result.Enumerated? {
      var cached, latest := CachedNames(row).value, result.names;
      SortedDifferenceIs(latest, cached);
      SortedDifferenceIs(cached, latest);
      NoMembers(SortedDifference(latest, cached));
      NoMembers(SortedDifference(cached, latest));
      DeltaTakesOneSetToTheOther(cached, latest);
    }
  }

  lemma NoMembers(s: seq<string>)
    ensures Members(s) == {} <==> s == []
  {
    if s != [] {
      assert s[0] in Members(s);
    }
  }

  /** Order and repetitions of an enumeration do not matter, down to the last character of the notice. */
  lemma OrderDoesNotMatter(cached: seq<string>, cached': seq<string>, latest: seq<string>, latest': seq<string>)
    requires Members(cached) == Members(cached') && Members(latest) == Members(latest')
    ensures DiffOf(Some(cached), latest) == DiffOf(Some(cached'), latest')
  {
    SortedDifferenceIs(latest, cached);
    SortedDifferenceIs(latest', cached');
    AscendingIsUnique(SortedDifference(latest, cached), SortedDifference(latest', cached'));
    SortedDifferenceIs(cached, latest);
    SortedDifferenceIs(cached', latest');
    AscendingIsUnique(SortedDifference(cached, latest), SortedDifference(cached', latest'));
  }
}
