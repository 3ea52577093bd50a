/**
 How old are WHOIS data that are shown without a mark? The facade trusts `fetched_at`, which a failed check renews
 (src/services/whois_facade.py `_is_fresh`, src/db/repositories/whois_cache.py `update_fail`).
 */
module Freshness {
  import opened Sequences
  import opened CheckChain
  import opened WhoisCheck
  import opened WhoisRuns
  import V = FreeVerdict

  /** The cache answers a command at `now`, and what it shows without a mark is older than the window. */
  predicate PassesOffOldData(start: Option<Row>, events: seq<Event>, l: Limits, window: nat, now: int) {
    && V.CacheAnswers(RowAfter(start, events, l), false, window, now)
    && LastAnswer(events).Some? && now - LastAnswer(events).value.now > window
  }

  /** After a check, the cache answers while the check, not the answer, is recent. */
  lemma CacheAnswersIff(start: Option<Row>, events: seq<Event>, l: Limits, window: nat, now: int)
    requires LastAnswer(events).Some?
    ensures V.CacheAnswers(RowAfter(start, events, l), false, window, now)
            <==> StoresRegistered(LastAnswer(events).value) && now - events[|events| - 1].now <= window
  {
    RowHoldsLastAnswer(start, events, l);
    RowReflectsLastAnswer(start, events, l);
    if LastAnswer(events[..|events| - 1]).Some? {
      RowHoldsLastAnswer(start, events[..|events| - 1], l);
    }
  }

  /**
   What is shown without a mark comes from a lookup within `whois_cache_fresh_hours`, at whatever moment somebody asks,
   exactly when no failed check came after the last answer, or that answer is not shown at all.
   */
  lemma UnmarkedIsFreshIff(start: Option<Row>, events: seq<Event>, l: Limits, window: nat)
    requires LastAnswer(events).Some? && ClockRuns(events)
    ensures (forall now :: now >= events[|events| - 1].now ==> !PassesOffOldData(start, events, l, window, now))
            <==> !StoresRegistered(LastAnswer(events).value)
                 || events[|events| - 1].now == LastAnswer(events).value.now
  {
    var last, answer := events[|events| - 1], LastAnswer(events).value;
    AnswerIsNoLater(events);
    forall now ensures V.CacheAnswers(RowAfter(start, events, l), false, window, now)
                       <==> StoresRegistered(answer) && now - last.now <= window
    {
      CacheAnswersIff(start, events, l, window, now);
    }
    if StoresRegistered(answer) && last.now > answer.now {
      assert PassesOffOldData(start, events, l, window, last.now + window);
    }
  }

  lemma {:induction false} AnswerIsNoLater(events: seq<Event>)
    requires LastAnswer(events).Some? && ClockRuns(events)
    ensures LastAnswer(events).value.now <= events[|events| - 1].now
  {
    var front := events[..|events| - 1];
    if events[|events| - 1].LookupFailed? {
      assert ClockRuns(front) by {
        assert forall i :: 0 <= i < |front| ==> front[i] == events[i];
      }
      AnswerIsNoLater(front);
      assert front[|front| - 1] == events[|events| - 2];
    }
  }

  /** An outage keeps old data looking fresh: at every failed check, however long ago the last answer was. */
  lemma OutagePassesOffOldData(start: Option<Row>, answer: Event, from: int, n: nat, l: Limits, window: nat)
    requires answer.Answered? && StoresRegistered(answer) && from - answer.now > window && n > 0
    ensures PassesOffOldData(start, Outage(answer, from, n), l, window, Outage(answer, from, n)[n].now)
  {
    OutageCounts(answer, from, n);
    CacheAnswersIff(start, Outage(answer, from, n), l, window, Outage(answer, from, n)[n].now);
  }
}
