/**
 `send_expiry_reminder` under interleaving (src/tasks/send_reminders.py, src/db/repositories/notifications.py).

 A worker reads the journal, sends, and records, as three steps between which other workers run.  The
 journal has a unique constraint and is written with "on conflict do nothing".
 */
module Reminders {
  import opened Sequences

  /** What the journal is keyed by, the notification type aside. */
  datatype Key = Key(user: int, domain: string, daysBefore: int, expiresAt: int)

  datatype Worker = Idle
                  | Ready(key: Key, readAt: nat)   // was_sent answered no
                  | Sent(key: Key)                 // delivered, or refused because the bot is blocked

  /** A delivered message, with the moments of its worker's read and of its delivery. */
  datatype Message = Message(key: Key, readAt: nat, sentAt: nat)

  /** `journal` maps a key to the moment its row was inserted; `rows` lists all rows ever inserted. */
  datatype State = State(now: nat, workers: map<nat, Worker>, rows: seq<Key>, recordedAt: map<Key, nat>,
                         messages: seq<Message>)

  const INIT := State(0, map[], [], map[], [])

  datatype Delivery = Delivered | BotBlocked | SendFailed

  datatype Event = Read(w: nat, key: Key) | Send(w: nat, outcome: Delivery) | Record(w: nat) | Crash(w: nat)

  function WorkerOf(s: State, w: nat): Worker {
    if w in s.workers then s.workers[w] else Idle
  }

  predicate Enabled(s: State, e: Event) {
    match e
    case Read(w, _) => WorkerOf(s, w).Idle?
    case Send(w, _) => WorkerOf(s, w).Ready?
    case Record(w) => WorkerOf(s, w).Sent?
    case Crash(w) => !WorkerOf(s, w).Idle?
  }

  function Next(s: State, e: Event): State
    requires Enabled(s, e)
  {
    var t := s.(now := s.now + 1);
    match e
    case Read(w, k) => t.(workers := s.workers[w := if k in s.recordedAt then Idle else Ready(k, s.now)])
    case Send(w, outcome) =>
      var worker := WorkerOf(s, w);
      (match outcome
       case Delivered =>
         t.(workers := s.workers[w := Sent(worker.key)],
            messages := s.messages + [Message(worker.key, worker.readAt, s.now)])
       case BotBlocked => t.(workers := s.workers[w := Sent(worker.key)])
       case SendFailed => t.(workers := s.workers[w := Idle]))
    case Record(w) =>
      var k := WorkerOf(s, w).key;
      t.(workers := s.workers[w := Idle],
         rows := if k in s.recordedAt then s.rows else s.rows + [k],
         recordedAt := if k in s.recordedAt then s.recordedAt else s.recordedAt[k := s.now])
    case Crash(w) => t.(workers := s.workers[w := Idle])
  }

  function StateAfter(events: seq<Event>): Option<State> {
    if events == [] then Some(INIT)
    else
      var before, e := StateAfter(events[..|events| - 1]), events[|events| - 1];
      if before.Some? && Enabled(before.value, e) then Some(Next(before.value, e)) else None
  }

  // ---------------------------------------------------------------------------
  // Every interleaving
  // ---------------------------------------------------------------------------

  ghost predicate JournalConsistent(s: State) {
    && NoDuplicates(s.rows)
    && (forall k :: k in s.rows <==> k in s.recordedAt)
    && (forall k :: k in s.recordedAt ==> s.recordedAt[k] < s.now)
  }

  /** No worker holds, and no message carries, a read that came after the row. */
  ghost predicate ReadsPrecedeRow(s: State) {
    && (forall w :: w in s.workers && s.workers[w].Ready? ==>
          s.workers[w].readAt < s.now
          && (s.workers[w].key in s.recordedAt ==> s.workers[w].readAt < s.recordedAt[s.workers[w].key]))
    && (forall i :: 0 <= i < |s.messages| ==>
          && s.messages[i].readAt < s.messages[i].sentAt < s.now
          && (s.messages[i].key in s.recordedAt ==> s.messages[i].readAt < s.recordedAt[s.messages[i].key]))
  }

  lemma ReaderStep(s: State, e: Event, w: nat)
    requires JournalConsistent(s) && ReadsPrecedeRow(s) && Enabled(s, e) && WorkerOf(Next(s, e), w).Ready?
    ensures var t := Next(s, e);
            && WorkerOf(t, w).readAt < t.now
            && (WorkerOf(t, w).key in t.recordedAt ==> WorkerOf(t, w).readAt < t.recordedAt[WorkerOf(t, w).key])
  {
    if w != e.w {
      assert w in s.workers && s.workers[w].Ready?;
    }
  }

  lemma MessageStep(s: State, e: Event, i: nat)
    requires JournalConsistent(s) && ReadsPrecedeRow(s) && Enabled(s, e) && i < |Next(s, e).messages|
    ensures var t := Next(s, e);
            && t.messages[i].readAt < t.messages[i].sentAt < t.now
            && (t.messages[i].key in t.recordedAt ==> t.messages[i].readAt < t.recordedAt[t.messages[i].key])
  {
    if i < |s.messages| {
      assert Next(s, e).messages[i] == s.messages[i];
    }
  }

  lemma StepKeepsInvariants(s: State, e: Event)
    requires JournalConsistent(s) && ReadsPrecedeRow(s) && Enabled(s, e)
    ensures JournalConsistent(Next(s, e)) && ReadsPrecedeRow(Next(s, e))
  {
    var t := Next(s, e);
    forall w | w in t.workers && t.workers[w].Ready?
      ensures t.workers[w].readAt < t.now
              && (t.workers[w].key in t.recordedAt ==> t.workers[w].readAt < t.recordedAt[t.workers[w].key])
    {
      ReaderStep(s, e, w);
    }
    forall i | 0 <= i < |t.messages|
      ensures t.messages[i].readAt < t.messages[i].sentAt < t.now
              && (t.messages[i].key in t.recordedAt ==> t.messages[i].readAt < t.recordedAt[t.messages[i].key])
    {
      MessageStep(s, e, i);
    }
  }

  /** In every interleaving: one row per key at most, and every message's worker read before the key's row existed. */
  lemma {:induction false} EveryInterleaving(events: seq<Event>)
    requires StateAfter(events).Some?
    ensures JournalConsistent(StateAfter(events).value) && ReadsPrecedeRow(StateAfter(events).value)
  {
    if events != [] {
      EveryInterleaving(events[..|events| - 1]);
      StepKeepsInvariants(StateAfter(events[..|events| - 1]).value, events[|events| - 1]);
    }
  }

  // ---------------------------------------------------------------------------
  // How often a key is sent
  // ---------------------------------------------------------------------------

  function Sends(messages: seq<Message>, k: Key): nat {
    if messages == [] then 0
    else Sends(messages[..|messages| - 1], k) + if messages[|messages| - 1].key == k then 1 else 0
  }

  lemma SendsSnoc(messages: seq<Message>, m: Message, k: Key)
    ensures Sends(messages + [m], k) == Sends(messages, k) + if m.key == k then 1 else 0
  {
    assert (messages + [m])[..|messages|] == messages;
  }

  /** The workers that are past a negative read of `k` and have not finished. */
  predicate Holds(s: State, w: nat, k: Key) {
    !WorkerOf(s, w).Idle? && WorkerOf(s, w).key == k
  }

  /** A worker died between sending `k` and recording it. */
  predicate Lost(events: seq<Event>, k: Key) {
    events != []
    && (Lost(events[..|events| - 1], k)
        || (StateAfter(events[..|events| - 1]).Some?
            && LosesRow(StateAfter(events[..|events| - 1]).value, events[|events| - 1], k)))
  }

  predicate LosesRow(s: State, e: Event, k: Key) {
    e.Crash? && WorkerOf(s, e.w).Sent? && WorkerOf(s, e.w).key == k
  }

  /** A read that answers no comes when nobody is past such a read, and no row was lost. */
  predicate Orderly(s: State, lost: bool, e: Event, k: Key) {
    e.Read? && e.key == k && k !in s.recordedAt ==> !lost && forall v :: v in s.workers ==> !Holds(s, v, k)
  }

  predicate OrderlyRun(events: seq<Event>, k: Key) {
    events == []
    || (OrderlyRun(events[..|events| - 1], k)
        && (StateAfter(events[..|events| - 1]).Some?
            ==> Orderly(StateAfter(events[..|events| - 1]).value, Lost(events[..|events| - 1], k),
                        events[|events| - 1], k)))
  }

  /** At most one worker holds the key, and a message already sent is in the journal, about to be, or lost to it. */
  ghost predicate AtMostOnce(s: State, lost: bool, k: Key) {
    && Sends(s.messages, k) <= 1
    && (forall v, w :: Holds(s, v, k) && Holds(s, w, k) ==> v == w)
    && (Sends(s.messages, k) == 1 ==> forall w :: Holds(s, w, k) ==> WorkerOf(s, w).Sent?)
    && (Sends(s.messages, k) == 1 && k !in s.recordedAt && !lost ==> exists w :: Holds(s, w, k))
    && (k in s.recordedAt ==> forall w :: Holds(s, w, k) ==> WorkerOf(s, w).Sent?)
  }

  /** A worker holds the key after a step because it held it before, or because it has just read. */
  lemma HolderOrigin(s: State, e: Event, k: Key, v: nat)
    requires Enabled(s, e) && Holds(Next(s, e), v, k)
    ensures if e.Read? && v == e.w then e.key == k && k !in s.recordedAt else Holds(s, v, k)
    ensures v != e.w ==> WorkerOf(Next(s, e), v) == WorkerOf(s, v)
  {
  }

  lemma NoHolderAtRead(s: State, lost: bool, e: Event, k: Key, v: nat)
    requires Orderly(s, lost, e, k) && e.Read? && e.key == k && k !in s.recordedAt
    ensures !Holds(s, v, k)
  {
    if v !in s.workers { } else { }
  }

  lemma OneHolder(s: State, lost: bool, e: Event, k: Key, v: nat, w: nat)
    requires AtMostOnce(s, lost, k) && Enabled(s, e) && Orderly(s, lost, e, k)
    requires Holds(Next(s, e), v, k) && Holds(Next(s, e), w, k)
    ensures v == w
  {
    HolderOrigin(s, e, k, v);
    HolderOrigin(s, e, k, w);
    if e.Read? && e.key == k && k !in s.recordedAt {
      NoHolderAtRead(s, lost, e, k, v);
      NoHolderAtRead(s, lost, e, k, w);
    }
  }

  lemma SendsAfter(s: State, e: Event, k: Key)
    requires Enabled(s, e)
    ensures Sends(Next(s, e).messages, k)
         == Sends(s.messages, k) + if e.Send? && e.outcome.Delivered? && WorkerOf(s, e.w).key == k then 1 else 0
  {
    if e.Send? && e.outcome.Delivered? {
      SendsSnoc(s.messages, Message(WorkerOf(s, e.w).key, WorkerOf(s, e.w).readAt, s.now), k);
    }
  }

  /** Once the key was sent or recorded, whoever holds it has sent it. */
  lemma HolderHasSent(s: State, lost: bool, e: Event, k: Key, w: nat)
    requires AtMostOnce(s, lost, k) && Enabled(s, e) && Orderly(s, lost, e, k)
    requires Holds(Next(s, e), w, k) && (Sends(Next(s, e).messages, k) == 1 || k in Next(s, e).recordedAt)
    ensures WorkerOf(Next(s, e), w).Sent?
  {
    HolderOrigin(s, e, k, w);
    SendsAfter(s, e, k);
    if w != e.w {
      assert Holds(s, e.w, k) ==> e.w == w;
    }
  }

  /** A second message would need a holder that had not sent. */
  lemma OrderlySends(s: State, lost: bool, e: Event, k: Key)
    requires AtMostOnce(s, lost, k) && Enabled(s, e)
    ensures Sends(Next(s, e).messages, k) <= 1
  {
    SendsAfter(s, e, k);
    assert Holds(s, e.w, k) && Sends(s.messages, k) == 1 ==> WorkerOf(s, e.w).Sent?;
  }

  lemma OthersHoldOn(s: State, e: Event, k: Key, w: nat)
    requires Enabled(s, e) && Holds(s, w, k) && w != e.w
    ensures Holds(Next(s, e), w, k)
  {
  }

  /** Whoever has sent lets go of the key only by recording it or by losing the row. */
  lemma SenderLetsGo(s: State, e: Event, k: Key)
    requires Enabled(s, e) && WorkerOf(s, e.w).Sent? && WorkerOf(s, e.w).key == k
    ensures k in Next(s, e).recordedAt || LosesRow(s, e, k)
  {
  }

  /** A message that is not in the journal is held by somebody or lost. */
  lemma OrderlyHolder(s: State, lost: bool, e: Event, k: Key)
    requires AtMostOnce(s, lost, k) && Enabled(s, e)
    requires Sends(Next(s, e).messages, k) == 1 && k !in Next(s, e).recordedAt && !(lost || LosesRow(s, e, k))
    ensures exists w :: Holds(Next(s, e), w, k)
  {
    SendsAfter(s, e, k);
    if Sends(s.messages, k) == 1 {
      var w :| Holds(s, w, k);
      if WorkerOf(s, e.w).Sent? && WorkerOf(s, e.w).key == k {
        SenderLetsGo(s, e, k);
      }
      OthersHoldOn(s, e, k, w);
    } else {
      assert Holds(Next(s, e), e.w, k);
    }
  }

  lemma OrderlyStep(s: State, lost: bool, e: Event, k: Key)
    requires AtMostOnce(s, lost, k) && Enabled(s, e) && Orderly(s, lost, e, k)
    ensures AtMostOnce(Next(s, e), lost || LosesRow(s, e, k), k)
  {
    var t := Next(s, e);
    OrderlySends(s, lost, e, k);
    forall v, w | Holds(t, v, k) && Holds(t, w, k) ensures v == w {
      OneHolder(s, lost, e, k, v, w);
    }
    forall w | Holds(t, w, k) && (Sends(t.messages, k) == 1 || k in t.recordedAt) ensures WorkerOf(t, w).Sent? {
      HolderHasSent(s, lost, e, k, w);
    }
    if Sends(t.messages, k) == 1 && k !in t.recordedAt && !(lost || LosesRow(s, e, k)) {
      OrderlyHolder(s, lost, e, k);
    }
  }

  /**
   Where every negative read of a key comes when no other worker is between such a read and its record, and no row was
   lost to a crash, the key is sent at most once, whatever the outcomes of the sends.
   */
  lemma {:induction false} OrderlyRunsSendOnce(events: seq<Event>, k: Key)
    requires StateAfter(events).Some? && OrderlyRun(events, k)
    ensures AtMostOnce(StateAfter(events).value, Lost(events, k), k)
  {
    if events != [] {
      var front := events[..|events| - 1];
      OrderlyRunsSendOnce(front, k);
      OrderlyStep(StateAfter(front).value, Lost(front, k), events[|events| - 1], k);
    }
  }

  // ---------------------------------------------------------------------------
  // Exactly when a key is sent once
  // ---------------------------------------------------------------------------

  /** The step lets a worker past a negative read of `k` go on to deliver: no failed send, no crash before the send. */
  predicate Delivers(s: State, e: Event, k: Key) {
    match e
    case Send(w, outcome) => WorkerOf(s, w).Ready? && WorkerOf(s, w).key == k ==> outcome.Delivered?
    case Crash(w) => !(WorkerOf(s, w).Ready? && WorkerOf(s, w).key == k)
    case _ => true
  }

  predicate DeliveringRun(events: seq<Event>, k: Key) {
    events == []
    || (DeliveringRun(events[..|events| - 1], k)
        && (StateAfter(events[..|events| - 1]).Some?
            ==> Delivers(StateAfter(events[..|events| - 1]).value, events[|events| - 1], k)))
  }

  predicate IsReady(s: State, w: nat, k: Key) {
    WorkerOf(s, w).Ready? && WorkerOf(s, w).key == k
  }

  /** Whatever was marked as sent, or lost, was delivered. */
  ghost predicate SentWasDelivered(s: State, lost: bool, k: Key) {
    (lost || exists w :: WorkerOf(s, w).Sent? && WorkerOf(s, w).key == k) ==> Sends(s.messages, k) >= 1
  }

  lemma DeliveringStep(s: State, lost: bool, e: Event, k: Key)
    requires SentWasDelivered(s, lost, k) && Enabled(s, e) && Delivers(s, e, k)
    ensures SentWasDelivered(Next(s, e), lost || LosesRow(s, e, k), k)
  {
    var t := Next(s, e);
    SendsAfter(s, e, k);
    if w :| WorkerOf(t, w).Sent? && WorkerOf(t, w).key == k {
      assert w != e.w ==> WorkerOf(s, w).Sent?;
    }
  }

  /** The second message is sent, or bound to be. */
  ghost predicate TwiceIsComing(s: State, k: Key) {
    || Sends(s.messages, k) >= 2
    || (Sends(s.messages, k) >= 1 && exists w :: IsReady(s, w, k))
    || (exists v, w :: v != w && IsReady(s, v, k) && IsReady(s, w, k))
  }

  /** A worker that is ready stays so until it sends. */
  lemma ReadyStays(s: State, e: Event, k: Key, w: nat)
    requires Enabled(s, e) && Delivers(s, e, k) && IsReady(s, w, k)
    ensures IsReady(Next(s, e), w, k)
            || (e == Send(w, Delivered) && Sends(Next(s, e).messages, k) == Sends(s.messages, k) + 1)
  {
    SendsAfter(s, e, k);
  }

  lemma ComingStep(s: State, e: Event, k: Key)
    requires TwiceIsComing(s, k) && Enabled(s, e) && Delivers(s, e, k)
    ensures TwiceIsComing(Next(s, e), k)
  {
    SendsAfter(s, e, k);
    if Sends(s.messages, k) >= 2 {
    } else if Sends(s.messages, k) >= 1 && exists w :: IsReady(s, w, k) {
      var w :| IsReady(s, w, k);
      ReadyStays(s, e, k, w);
    } else {
      var v, w :| v != w && IsReady(s, v, k) && IsReady(s, w, k);
      ReadyStays(s, e, k, v);
      ReadyStays(s, e, k, w);
    }
  }

  /** The first disorderly read makes a second message come. */
  lemma DisorderlyStep(s: State, lost: bool, e: Event, k: Key)
    requires SentWasDelivered(s, lost, k) && Enabled(s, e) && !Orderly(s, lost, e, k)
    ensures TwiceIsComing(Next(s, e), k)
  {
    SendsAfter(s, e, k);
    assert IsReady(Next(s, e), e.w, k);
    if !lost {
      var v :| v in s.workers && Holds(s, v, k);
      assert v != e.w && WorkerOf(Next(s, e), v) == WorkerOf(s, v);
      assert WorkerOf(s, v).Sent? || IsReady(Next(s, e), v, k);
    }
  }

  lemma {:induction false} DeliveringRunInvariant(events: seq<Event>, k: Key)
    requires StateAfter(events).Some? && DeliveringRun(events, k)
    ensures SentWasDelivered(StateAfter(events).value, Lost(events, k), k)
    ensures !OrderlyRun(events, k) ==> TwiceIsComing(StateAfter(events).value, k)
  {
    if events != [] {
      var front, e := events[..|events| - 1], events[|events| - 1];
      var s := StateAfter(front).value;
      DeliveringRunInvariant(front, k);
      DeliveringStep(s, Lost(front, k), e, k);
      if !OrderlyRun(front, k) {
        ComingStep(s, e, k);
      } else if !Orderly(s, Lost(front, k), e, k) {
        DisorderlyStep(s, Lost(front, k), e, k);
      }
    }
  }

  /**
   The promise, exactly: over a run in which whoever is past a negative read of a key delivers it, the key is sent at
   most once iff no such read overlaps with another worker's, or follows a row lost to a crash.
   */
  lemma SentOnceIff(events: seq<Event>, k: Key)
    requires StateAfter(events).Some? && DeliveringRun(events, k)
    requires forall w :: !IsReady(StateAfter(events).value, w, k)
    ensures Sends(StateAfter(events).value.messages, k) <= 1 <==> OrderlyRun(events, k)
  {
    DeliveringRunInvariant(events, k);
    if OrderlyRun(events, k) {
      OrderlyRunsSendOnce(events, k);
    }
  }

  // ---------------------------------------------------------------------------
  // When a key is settled for good
  // ---------------------------------------------------------------------------

  /** The state after further events; None when some event was not enabled in its turn. */
  function Continue(s: State, events: seq<Event>): Option<State> {
    if events == [] then Some(s)
    else
      var before, e := Continue(s, events[..|events| - 1]), events[|events| - 1];
      if before.Some? && Enabled(before.value, e) then Some(Next(before.value, e)) else None
  }

  /** The row is in the journal, and nobody is past a negative read. */
  ghost predicate Settled(s: State, k: Key) {
    k in s.recordedAt && forall w :: !IsReady(s, w, k)
  }

  ghost predicate NeverSentAgain(s: State, k: Key) {
    forall events, t :: Continue(s, events) == Some(t) ==> Sends(t.messages, k) == Sends(s.messages, k)
  }

  lemma {:induction false} SettledStays(s: State, k: Key, events: seq<Event>)
    requires Settled(s, k) && Continue(s, events).Some?
    ensures Settled(Continue(s, events).value, k)
    ensures Sends(Continue(s, events).value.messages, k) == Sends(s.messages, k)
  {
    if events != [] {
      var front, e := events[..|events| - 1], events[|events| - 1];
      SettledStays(s, k, front);
      SettledStep(Continue(s, front).value, k, e);
    }
  }

  lemma SettledStep(s: State, k: Key, e: Event)
    requires Settled(s, k) && Enabled(s, e)
    ensures Settled(Next(s, e), k) && Sends(Next(s, e).messages, k) == Sends(s.messages, k)
  {
    SendsAfter(s, e, k);
    assert !IsReady(s, e.w, k);
    forall w ensures !IsReady(Next(s, e), w, k) {
      assert !IsReady(s, w, k);
    }
  }

  lemma ContinueSnoc(s: State, events: seq<Event>, t: State, e: Event)
    requires Continue(s, events) == Some(t) && Enabled(t, e)
    ensures Continue(s, events + [e]) == Some(Next(t, e))
  {
    assert (events + [e])[..|events|] == events;
  }

  lemma {:induction false} AnIdleWorker(workers: map<nat, Worker>, above: nat) returns (w: nat)
    ensures w >= above && w !in workers
    decreases |workers.Keys|
  {
    w := above;
    if above in workers {
      var fewer := workers - {above};
      assert fewer.Keys == workers.Keys - {above};
      w := AnIdleWorker(fewer, above + 1);
    }
  }

  /**
   The journal protects a key from some moment on, whatever the interleaving and the crashes, exactly when its row is in
   and no worker is past a negative read.
   */
  lemma NeverSentAgainIff(s: State, k: Key)
    ensures NeverSentAgain(s, k) <==> Settled(s, k)
  {
    if Settled(s, k) {
      forall events, t | Continue(s, events) == Some(t) ensures Sends(t.messages, k) == Sends(s.messages, k) {
        SettledStays(s, k, events);
      }
    } else if w :| IsReady(s, w, k) {
      SendFollows(s, [], s, w, k);
    } else {
      var w := AnIdleWorker(s.workers, 0);
      ContinueSnoc(s, [], s, Read(w, k));
      SendFollows(s, [] + [Read(w, k)], Next(s, Read(w, k)), w, k);
    }
  }

  /** A worker that can be brought past a negative read can send. */
  lemma SendFollows(s: State, events: seq<Event>, t: State, w: nat, k: Key)
    requires Continue(s, events) == Some(t) && IsReady(t, w, k) && t.messages == s.messages
    ensures !NeverSentAgain(s, k)
  {
    var e := Send(w, Delivered);
    ContinueSnoc(s, events, t, e);
    SendsAfter(t, e, k);
    assert Continue(s, events + [e]) == Some(Next(t, e));
  }

  // ---------------------------------------------------------------------------
  // Two runs that break the documented claim
  // ---------------------------------------------------------------------------

  lemma Follow(events: seq<Event>, s: State, e: Event)
    requires StateAfter(events) == Some(s) && Enabled(s, e)
    ensures StateAfter(events + [e]) == Some(Next(s, e))
  {
    assert (events + [e])[..|events|] == events;
  }

  lemma FollowRead(events: seq<Event>, s: State, w: nat, k: Key) returns (longer: seq<Event>, t: State)
    requires StateAfter(events) == Some(s) && WorkerOf(s, w).Idle? && k !in s.recordedAt
    ensures StateAfter(longer) == Some(t) && t.messages == s.messages && t.recordedAt == s.recordedAt
    ensures WorkerOf(t, w).Ready? && WorkerOf(t, w).key == k
    ensures forall v :: v != w ==> WorkerOf(t, v) == WorkerOf(s, v)
  {
    Follow(events, s, Read(w, k));
    longer, t := events + [Read(w, k)], Next(s, Read(w, k));
  }

  lemma FollowSend(events: seq<Event>, s: State, w: nat, k: Key) returns (longer: seq<Event>, t: State)
    requires StateAfter(events) == Some(s) && WorkerOf(s, w).Ready? && WorkerOf(s, w).key == k
    ensures StateAfter(longer) == Some(t) && t.recordedAt == s.recordedAt
    ensures Sends(t.messages, k) == Sends(s.messages, k) + 1
    ensures WorkerOf(t, w).Sent? && forall v :: v != w ==> WorkerOf(t, v) == WorkerOf(s, v)
  {
    Follow(events, s, Send(w, Delivered));
    SendsAfter(s, Send(w, Delivered), k);
    longer, t := events + [Send(w, Delivered)], Next(s, Send(w, Delivered));
  }

  /** Two workers that both read before either recorded send the same reminder twice, for any key. */
  lemma OverlappingReadsSendTwice(k: Key) returns (events: seq<Event>)
    ensures StateAfter(events).Some? && Sends(StateAfter(events).value.messages, k) == 2
  {
    var s: State;
    events, s := FollowRead([], INIT, 0, k);
    events, s := FollowRead(events, s, 1, k);
    events, s := FollowSend(events, s, 0, k);
    events, s := FollowSend(events, s, 1, k);
  }

  /** One worker that dies between sending and recording makes the next run send again. */
  lemma CrashBeforeRecordSendsTwice(k: Key) returns (events: seq<Event>)
    ensures StateAfter(events).Some? && Sends(StateAfter(events).value.messages, k) == 2
  {
    var s: State;
    events, s := FollowRead([], INIT, 0, k);
    events, s := FollowSend(events, s, 0, k);
    Follow(events, s, Crash(0));
    events, s := events + [Crash(0)], Next(s, Crash(0));
    events, s := FollowRead(events, s, 0, k);
    events, s := FollowSend(events, s, 0, k);
  }
}
