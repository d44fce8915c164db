/**
 The cutover of a subscriber from stored to realtime events. The ingester appends an event to
 the store and then fans it out to the registered channels; the subscriber registers its
 channel, scans the store once, and then forwards its channel, dropping what is older than the
 last scanned event. Every append, fan-out, registration, scanned item and received item is
 one step, and the two sides interleave freely.

 The store is one source's events in key order, which puts negative timestamps behind all
 others; an event with the timestamp of a stored one takes its place.
 */
module Cutover {

  import opened Bytes
  import opened Sequences

  /** An event of the source; `number` is its place in the stream. */
  datatype Event = Event(time: I64, number: nat)

  ghost predicate IsStream(events: seq<Event>) {
    forall i :: 0 <= i < |events| ==> events[i].number == i
  }

  /** The number the key of an event ends in. */
  function KeyTime(e: Event): nat {
    Unsigned(e.time)
  }

  // ----- the store

  function Put(store: seq<Event>, e: Event): seq<Event> {
    if store == [] || KeyTime(e) < KeyTime(store[0]) then [e] + store
    else if KeyTime(e) == KeyTime(store[0]) then [e] + store[1..]
    else [store[0]] + Put(store[1..], e)
  }

  function Stored(events: seq<Event>, n: nat): seq<Event>
    requires n <= |events|
  {
    if n == 0 then [] else Put(Stored(events, n - 1), events[n - 1])
  }

  /** The range a subscriber scans: from its start time to the largest timestamp. */
  predicate InScan(e: Event, start: I64) {
    Unsigned(start) <= KeyTime(e) <= Unsigned(I64_MAX)
  }

  lemma InScanIff(e: Event, start: I64)
    ensures InScan(e, start) <==> 0 <= start <= e.time
  {
  }

  function ScanFrom(store: seq<Event>, start: I64): seq<Event> {
    if store == [] then []
    else (if InScan(store[0], start) then [store[0]] else []) + ScanFrom(store[1..], start)
  }

  /** The scan of a snapshot taken after n appends. */
  function Scan(events: seq<Event>, start: I64, n: nat): seq<Event>
    requires n <= |events|
  {
    ScanFrom(Stored(events, n), start)
  }

  ghost predicate InKeyOrder(s: seq<Event>) {
    forall i, j :: 0 <= i < j < |s| ==> KeyTime(s[i]) < KeyTime(s[j])
  }

  ghost predicate InTimeOrder(s: seq<Event>) {
    forall i, j :: 0 <= i < j < |s| ==> s[i].time < s[j].time
  }

  lemma SameKey(a: Event, b: Event)
    ensures KeyTime(a) == KeyTime(b) <==> a.time == b.time
  {
  }

  lemma {:induction false} PutMembers(store: seq<Event>, e: Event, x: Event)
    requires InKeyOrder(store)
    ensures x in Put(store, e) <==> x == e || (x in store && KeyTime(x) != KeyTime(e))
  {
    if store != [] && KeyTime(e) >= KeyTime(store[0]) {
      assert store == [store[0]] + store[1..];
      if KeyTime(e) > KeyTime(store[0]) {
        PutMembers(store[1..], e, x);
      }
    } else if store != [] {
      assert forall i :: 0 <= i < |store| ==> KeyTime(store[0]) <= KeyTime(store[i]);
    }
  }

  lemma {:induction false} PutKeepsOrder(store: seq<Event>, e: Event)
    requires InKeyOrder(store)
    ensures InKeyOrder(Put(store, e))
  {
    if store != [] && KeyTime(e) > KeyTime(store[0]) {
      var rest := Put(store[1..], e);
      PutKeepsOrder(store[1..], e);
      forall i | 0 <= i < |rest|
        ensures KeyTime(store[0]) < KeyTime(rest[i])
      {
        PutMembers(store[1..], e, rest[i]);
      }
    }
  }

  /** The event was appended among the first n, and none after it with its timestamp. */
  ghost predicate LatestOfItsTime(events: seq<Event>, n: nat, x: Event)
    requires n <= |events|
  {
    exists i {:trigger events[i]} :: 0 <= i < n && events[i] == x && NoneAt(events, i + 1, n, x.time)
  }

  ghost predicate NoneAt(events: seq<Event>, from: nat, n: nat, time: int)
    requires n <= |events|
  {
    forall j :: from <= j < n ==> events[j].time != time
  }

  lemma LatestOneMore(events: seq<Event>, n: nat, x: Event)
    requires n < |events|
    ensures LatestOfItsTime(events, n + 1, x) <==>
              x == events[n] || (LatestOfItsTime(events, n, x) && x.time != events[n].time)
  {
    if x == events[n] {
      assert NoneAt(events, n + 1, n + 1, x.time);
    } else if LatestOfItsTime(events, n, x) && x.time != events[n].time {
      var i :| 0 <= i < n && events[i] == x && NoneAt(events, i + 1, n, x.time);
      assert NoneAt(events, i + 1, n + 1, x.time);
    }
    if LatestOfItsTime(events, n + 1, x) && x != events[n] {
      var i :| 0 <= i < n + 1 && events[i] == x && NoneAt(events, i + 1, n + 1, x.time);
      assert NoneAt(events, i + 1, n, x.time);
    }
  }

  /** A stored event is the latest of the stream with its timestamp. */
  lemma {:induction false} StoredMembers(events: seq<Event>, n: nat, x: Event)
    requires n <= |events|
    ensures InKeyOrder(Stored(events, n))
    ensures x in Stored(events, n) <==> LatestOfItsTime(events, n, x)
  {
    if n > 0 {
      StoredMembers(events, n - 1, x);
      PutKeepsOrder(Stored(events, n - 1), events[n - 1]);
      PutMembers(Stored(events, n - 1), events[n - 1], x);
      SameKey(x, events[n - 1]);
      LatestOneMore(events, n - 1, x);
    }
  }

  lemma {:induction false} ScanFromMembers(store: seq<Event>, start: I64, x: Event)
    requires InKeyOrder(store)
    ensures InTimeOrder(ScanFrom(store, start))
    ensures x in ScanFrom(store, start) <==> x in store && 0 <= start <= x.time
  {
    if store != [] {
      var rest := ScanFrom(store[1..], start);
      ScanFromMembers(store[1..], start, x);
      InScanIff(store[0], start);
      if InScan(store[0], start) {
        forall i | 0 <= i < |rest|
          ensures store[0].time < rest[i].time
        {
          ScanFromMembers(store[1..], start, rest[i]);
        }
      }
    }
  }

  lemma ScanMembers(events: seq<Event>, start: I64, n: nat, x: Event)
    requires n <= |events|
    ensures InTimeOrder(Scan(events, start, n))
    ensures x in Scan(events, start, n) <==> 0 <= start <= x.time && LatestOfItsTime(events, n, x)
  {
    StoredMembers(events, n, x);
    ScanFromMembers(Stored(events, n), start, x);
  }

  lemma ScanInOrder(events: seq<Event>, start: I64, n: nat)
    requires n <= |events|
    ensures InTimeOrder(Scan(events, start, n))
  {
    ScanMembers(events, start, n, Event(0, 0));
  }

  lemma ScanEndsAtOrAfterEpoch(events: seq<Event>, start: I64, n: nat)
    requires n <= |events|
    ensures LastTime(Scan(events, start, n)) >= 0
  {
    var scan := Scan(events, start, n);
    if scan != [] {
      ScanMembers(events, start, n, scan[|scan| - 1]);
    }
  }

  // ----- the protocol

  datatype Subscriber = Connecting | Registered | Scanning(rest: seq<Event>) | Realtime

  /** The last three numbers record history: events fanned out before registration, events
      appended before the snapshot, items received from the channel. */
  datatype State = State(appended: nat, fanOutDue: bool, store: seq<Event>, channel: seq<Event>,
                         subscriber: Subscriber, lastTs: int, delivered: seq<Event>,
                         before: nat, snapshot: nat, received: nat)

  datatype Move = Ingest | Subscribe

  function Start(): State {
    State(0, false, [], [], Connecting, 0, [], 0, 0, 0)
  }

  predicate InStream(events: seq<Event>, s: State) {
    s.appended <= |events| && (s.fanOutDue ==> s.appended > 0)
  }

  function FannedOut(s: State): nat
    requires s.fanOutDue ==> s.appended > 0
  {
    if s.fanOutDue then s.appended - 1 else s.appended
  }

  function IngestStep(events: seq<Event>, s: State): (r: State)
    requires InStream(events, s)
    ensures InStream(events, r)
  {
    if s.fanOutDue then
      s.(fanOutDue := false,
         channel := if s.subscriber.Connecting? then s.channel else s.channel + [events[s.appended - 1]])
    else if s.appended < |events| then
      s.(fanOutDue := true, appended := s.appended + 1, store := Put(s.store, events[s.appended]))
    else
      s
  }

  function SubscribeStep(start: I64, s: State): State
    requires s.fanOutDue ==> s.appended > 0
  {
    match s.subscriber
    case Connecting => s.(subscriber := Registered, before := FannedOut(s))
    case Registered => s.(subscriber := Scanning(ScanFrom(s.store, start)), snapshot := s.appended)
    case Scanning(rest) =>
      if rest == [] then s.(subscriber := Realtime)
      else s.(subscriber := Scanning(rest[1..]), delivered := s.delivered + [rest[0]], lastTs := rest[0].time)
    case Realtime =>
      if s.channel == [] then s
      else
        var popped := s.(channel := s.channel[1..], received := s.received + 1);
        if s.lastTs > s.channel[0].time then popped
        else popped.(delivered := s.delivered + [s.channel[0]])
  }

  function Step(events: seq<Event>, start: I64, s: State, move: Move): (r: State)
    requires InStream(events, s)
    ensures InStream(events, r)
  {
    match move
    case Ingest => IngestStep(events, s)
    case Subscribe => SubscribeStep(start, s)
  }

  function Run(events: seq<Event>, start: I64, s: State, moves: seq<Move>): (r: State)
    requires InStream(events, s)
    ensures InStream(events, r)
    decreases |moves|
  {
    if moves == [] then s else Run(events, start, Step(events, start, s, moves[0]), moves[1..])
  }

  // ----- what was delivered, in closed form

  function LastTime(s: seq<Event>): int {
    if s == [] then 0 else s[|s| - 1].time
  }

  function NotOlder(s: seq<Event>, time: int): seq<Event> {
    if s == [] then []
    else NotOlder(s[..|s| - 1], time) + (if time > s[|s| - 1].time then [] else [s[|s| - 1]])
  }

  ghost predicate Valid(events: seq<Event>, start: I64, s: State) {
    && InStream(events, s)
    && s.store == Stored(events, s.appended)
    && s.snapshot <= s.appended
    && match s.subscriber
       case Connecting => s.channel == [] && s.delivered == [] && s.lastTs == 0 && s.received == 0
       case Registered => Queued(events, s) && s.delivered == [] && s.lastTs == 0 && s.received == 0
       case Scanning(rest) =>
         && Queued(events, s) && s.before <= s.snapshot && s.received == 0
         && s.delivered + rest == Scan(events, start, s.snapshot)
         && s.lastTs == LastTime(s.delivered)
       case Realtime =>
         && Queued(events, s) && s.before <= s.snapshot
         && s.lastTs == LastTime(Scan(events, start, s.snapshot))
         && s.delivered == Scan(events, start, s.snapshot)
                           + NotOlder(events[s.before..s.before + s.received], s.lastTs)
  }

  ghost predicate Queued(events: seq<Event>, s: State)
    requires InStream(events, s)
  {
    s.before + s.received <= FannedOut(s) && s.channel == events[s.before + s.received..FannedOut(s)]
  }

  lemma IngestKeeps(events: seq<Event>, start: I64, s: State)
    requires Valid(events, start, s)
    ensures Valid(events, start, IngestStep(events, s))
  {
    var r := IngestStep(events, s);
    if s.fanOutDue && !s.subscriber.Connecting? {
      var from := s.before + s.received;
      assert events[from..FannedOut(s)] + [events[s.appended - 1]] == events[from..s.appended];
    }
  }

  lemma SubscribeKeeps(events: seq<Event>, start: I64, s: State)
    requires Valid(events, start, s)
    ensures Valid(events, start, SubscribeStep(start, s))
  {
    match s.subscriber
    case Connecting =>
    case Registered =>
      assert [] + ScanFrom(s.store, start) == ScanFrom(s.store, start);
    case Scanning(_) => ScanKeeps(events, start, s);
    case Realtime => RealtimeKeeps(events, start, s);
  }

  lemma ScanKeeps(events: seq<Event>, start: I64, s: State)
    requires Valid(events, start, s) && s.subscriber.Scanning?
    ensures Valid(events, start, SubscribeStep(start, s))
  {
    var rest := s.subscriber.rest;
    if rest == [] {
      assert s.delivered + rest == s.delivered;
      assert events[s.before..s.before] == [];
      assert s.delivered + [] == s.delivered;
    } else {
      assert s.delivered + [rest[0]] + rest[1..] == s.delivered + rest;
    }
  }

  lemma RealtimeKeeps(events: seq<Event>, start: I64, s: State)
    requires Valid(events, start, s) && s.subscriber.Realtime?
    ensures Valid(events, start, SubscribeStep(start, s))
  {
    if s.channel != [] {
      ReceiveKeeps(events, s);
      var next := events[s.before + s.received];
      var passed := NotOlder(events[s.before..s.before + s.received], s.lastTs);
      Reassociate(Scan(events, start, s.snapshot), passed, if s.lastTs > next.time then [] else [next]);
    }
  }

  lemma ReceiveKeeps(events: seq<Event>, s: State)
    requires InStream(events, s) && Queued(events, s) && s.channel != []
    ensures var next := s.before + s.received;
            && next < |events| && s.channel[0] == events[next]
            && s.channel[1..] == events[next + 1..FannedOut(s)]
            && NotOlder(events[s.before..next + 1], s.lastTs)
               == NotOlder(events[s.before..next], s.lastTs)
                  + (if s.lastTs > events[next].time then [] else [events[next]])
  {
    var next := s.before + s.received;
    assert events[s.before..next + 1][..s.received] == events[s.before..next];
  }

  lemma {:induction false} RunKeeps(events: seq<Event>, start: I64, s: State, moves: seq<Move>)
    requires Valid(events, start, s)
    ensures Valid(events, start, Run(events, start, s, moves))
    decreases |moves|
  {
    if moves != [] {
      match moves[0] {
        case Ingest => IngestKeeps(events, start, s);
        case Subscribe => SubscribeKeeps(events, start, s);
      }
      RunKeeps(events, start, Step(events, start, s, moves[0]), moves[1..]);
    }
  }

  lemma {:induction false} NotOlderMembers(s: seq<Event>, time: int, x: Event)
    ensures x in NotOlder(s, time) <==> x in s && x.time >= time
  {
    if s != [] {
      NotOlderMembers(s[..|s| - 1], time, x);
      assert s == s[..|s| - 1] + [s[|s| - 1]];
    }
  }

  // ----- runs of one's choosing

  lemma {:induction false} RunConcat(events: seq<Event>, start: I64, s: State, a: seq<Move>, b: seq<Move>)
    requires InStream(events, s)
    ensures Run(events, start, s, a + b) == Run(events, start, Run(events, start, s, a), b)
    decreases |a|
  {
    if a == [] {
      assert a + b == b;
    } else {
      assert (a + b)[1..] == a[1..] + b;
      RunConcat(events, start, Step(events, start, s, a[0]), a[1..], b);
    }
  }

  lemma RunOne(events: seq<Event>, start: I64, moves: seq<Move>, move: Move)
    ensures Run(events, start, Start(), moves + [move]) == Step(events, start, Run(events, start, Start(), moves), move)
  {
    RunConcat(events, start, Start(), moves, [move]);
    assert [move][1..] == [];
  }

  /** The states that some interleaving reaches. */
  ghost predicate Reached(events: seq<Event>, start: I64, s: State) {
    exists moves :: Run(events, start, Start(), moves) == s
  }

  lemma ReachStep(events: seq<Event>, start: I64, s: State, move: Move)
    requires Reached(events, start, s)
    ensures InStream(events, s) && Reached(events, start, Step(events, start, s, move))
  {
    var moves :| Run(events, start, Start(), moves) == s;
    RunOne(events, start, moves, move);
    assert Run(events, start, Start(), moves + [move]) == Step(events, start, s, move);
  }

  lemma ReachedIsValid(events: seq<Event>, start: I64, s: State)
    requires Reached(events, start, s)
    ensures Valid(events, start, s)
  {
    var moves :| Run(events, start, Start(), moves) == s;
    RunKeeps(events, start, Start(), moves);
  }

  lemma MovesTo(events: seq<Event>, start: I64, s: State) returns (moves: seq<Move>)
    requires Reached(events, start, s)
    ensures Run(events, start, Start(), moves) == s
  {
    moves :| Run(events, start, Start(), moves) == s;
  }

  /** The subscriber's next step. */
  lemma SubscribeOne(events: seq<Event>, start: I64, s: State) returns (r: State)
    requires Reached(events, start, s)
    ensures InStream(events, s) && r == SubscribeStep(start, s) && Reached(events, start, r)
  {
    ReachStep(events, start, s, Subscribe);
    r := SubscribeStep(start, s);
  }

  /** One event appended and fanned out. */
  lemma IngestOne(events: seq<Event>, start: I64, s: State) returns (r: State)
    requires Reached(events, start, s) && !s.fanOutDue && s.appended < |events|
    ensures Reached(events, start, r)
    ensures var e := events[s.appended];
            r == s.(appended := s.appended + 1, store := Put(s.store, e),
                    channel := if s.subscriber.Connecting? then s.channel else s.channel + [e])
  {
    ReachStep(events, start, s, Ingest);
    var t := IngestStep(events, s);
    ReachStep(events, start, t, Ingest);
    r := IngestStep(events, t);
  }

  lemma {:induction false} IngestMany(events: seq<Event>, start: I64, n: nat) returns (r: State)
    requires n <= |events|
    ensures Reached(events, start, r) && r == Start().(appended := n, store := Stored(events, n))
  {
    if n == 0 {
      r := Start();
      assert Run(events, start, Start(), []) == r;
    } else {
      r := IngestMany(events, start, n - 1);
      r := IngestOne(events, start, r);
    }
  }

  lemma {:induction false} ScanAll(events: seq<Event>, start: I64, s: State) returns (r: State)
    requires Reached(events, start, s) && s.subscriber.Scanning?
    ensures Reached(events, start, r)
    ensures r == s.(subscriber := Realtime, delivered := s.delivered + s.subscriber.rest, lastTs := r.lastTs)
    decreases |s.subscriber.rest|
  {
    var rest := s.subscriber.rest;
    r := SubscribeOne(events, start, s);
    if rest == [] {
      assert s.delivered + [] == s.delivered;
    } else {
      r := ScanAll(events, start, r);
      assert s.delivered + [rest[0]] + rest[1..] == s.delivered + rest;
    }
  }

  /** n events come first; then the subscriber registers and scans. */
  lemma SubscribeAfter(events: seq<Event>, start: I64, n: nat) returns (r: State)
    requires n <= |events|
    ensures Reached(events, start, r) && Quiescent(r) && r.appended == n
    ensures r.delivered == Scan(events, start, n) && r.lastTs == LastTime(r.delivered)
  {
    r := IngestMany(events, start, n);
    r := SubscribeOne(events, start, r);
    r := SubscribeOne(events, start, r);
    r := ScanAll(events, start, r);
    ReachedIsValid(events, start, r);
  }

  lemma ReceiveOne(events: seq<Event>, start: I64, s: State) returns (r: State)
    requires Reached(events, start, s) && Quiescent(s) && s.appended < |events|
    ensures Reached(events, start, r) && Quiescent(r) && r.appended == s.appended + 1 && r.lastTs == s.lastTs
    ensures var e := events[s.appended];
            r.delivered == if s.lastTs > e.time then s.delivered else s.delivered + [e]
  {
    r := IngestOne(events, start, s);
    r := SubscribeOne(events, start, r);
  }

  // ----- nothing is lost

  /** Everything appended has been fanned out, and everything fanned out received. */
  predicate Quiescent(s: State) {
    s.subscriber.Realtime? && s.channel == [] && !s.fanOutDue
  }

  ghost predicate AllDelivered(events: seq<Event>, start: I64, s: State)
    requires InStream(events, s)
  {
    forall i {:trigger events[i]} :: 0 <= i < s.appended && events[i].time >= start ==> events[i] in s.delivered
  }

  ghost predicate IncreasingFrom(events: seq<Event>, start: I64) {
    forall i, j :: 0 <= i < j < |events| && events[i].time >= start && events[j].time >= start ==>
                     events[i].time < events[j].time
  }

  ghost predicate NoneFrom(events: seq<Event>, start: I64) {
    forall i :: 0 <= i < |events| ==> events[i].time < start
  }

  /** A negative start time encodes above every time that is not negative, so its scan is empty. */
  ghost predicate NothingToLose(events: seq<Event>, start: I64) {
    if start >= 0 then IncreasingFrom(events, start) else NoneFrom(events, start)
  }

  lemma NothingToLoseSuffices(events: seq<Event>, start: I64, moves: seq<Move>)
    requires IsStream(events) && NothingToLose(events, start)
    ensures var s := Run(events, start, Start(), moves);
            Quiescent(s) ==> AllDelivered(events, start, s)
  {
    RunKeeps(events, start, Start(), moves);
    var s := Run(events, start, Start(), moves);
    if Quiescent(s) {
      forall i {:trigger events[i]} | 0 <= i < s.appended && events[i].time >= start
        ensures events[i] in s.delivered
      {
        EachDelivered(events, start, s, i);
      }
    }
  }

  lemma EachDelivered(events: seq<Event>, start: I64, s: State, i: nat)
    requires IsStream(events) && 0 <= start && IncreasingFrom(events, start)
    requires Valid(events, start, s) && Quiescent(s) && i < s.appended && events[i].time >= start
    ensures events[i] in s.delivered
  {
    var live := events[s.before..s.before + s.received];
    assert s.before + s.received == s.appended;
    if i < s.snapshot {
      assert LatestOfItsTime(events, s.snapshot, events[i]) by {
        assert NoneAt(events, i + 1, s.snapshot, events[i].time);
      }
      ScanMembers(events, start, s.snapshot, events[i]);
    } else {
      ScanIsEarlier(events, start, s.snapshot, i);
      assert live[i - s.before] == events[i];
      NotOlderMembers(live, s.lastTs, events[i]);
    }
  }

  lemma ScanIsEarlier(events: seq<Event>, start: I64, n: nat, i: nat)
    requires 0 <= start && IncreasingFrom(events, start) && n <= i < |events| && events[i].time >= start
    ensures LastTime(Scan(events, start, n)) <= events[i].time
  {
    var scan := Scan(events, start, n);
    if scan != [] {
      ScanMembers(events, start, n, scan[|scan| - 1]);
    }
  }

  /** No interleaving loses an event from `start` on exactly when the start time is not negative
      and the timestamps from it on strictly increase, or no event is from it on at all. */
  lemma NothingLostIff(events: seq<Event>, start: I64)
    requires IsStream(events)
    ensures (forall moves ::
               var s := Run(events, start, Start(), moves); Quiescent(s) ==> AllDelivered(events, start, s))
       <==> NothingToLose(events, start)
  {
    if NothingToLose(events, start) {
      forall moves
        ensures var s := Run(events, start, Start(), moves); Quiescent(s) ==> AllDelivered(events, start, s)
      {
        NothingToLoseSuffices(events, start, moves);
      }
    } else {
      var s := Loss(events, start);
      var moves := MovesTo(events, start, s);
      assert !AllDelivered(events, start, Run(events, start, Start(), moves));
    }
  }

  lemma Loss(events: seq<Event>, start: I64) returns (s: State)
    requires IsStream(events) && !NothingToLose(events, start)
    ensures Reached(events, start, s) && InStream(events, s) && Quiescent(s) && !AllDelivered(events, start, s)
  {
    if start < 0 {
      var i :| 0 <= i < |events| && events[i].time >= start;
      s := SubscribeAfter(events, start, i + 1);
      ScanMembers(events, start, i + 1, events[i]);
    } else {
      var k, i :| 0 <= k < i < |events| && events[k].time >= start && events[i].time >= start
                  && events[k].time >= events[i].time;
      if events[k].time == events[i].time {
        s := Overwritten(events, start, k, i);
      } else {
        s := Dropped(events, start, k, i);
      }
    }
  }

  /** The event k is replaced in the store by i before the scan. */
  lemma Overwritten(events: seq<Event>, start: I64, k: nat, i: nat) returns (s: State)
    requires IsStream(events) && k < i < |events| && events[k].time == events[i].time
    ensures Reached(events, start, s) && Quiescent(s) && k < s.appended == i + 1 && events[k] !in s.delivered
  {
    s := SubscribeAfter(events, start, i + 1);
    ScanMembers(events, start, i + 1, events[k]);
  }

  /** The event i arrives after a scan that ended with a later one. */
  lemma Dropped(events: seq<Event>, start: I64, k: nat, i: nat) returns (s: State)
    requires IsStream(events) && k < i < |events| && events[k].time > events[i].time >= start >= 0
    ensures Reached(events, start, s) && Quiescent(s) && i < s.appended == i + 1 && events[i] !in s.delivered
  {
    s := SubscribeAfter(events, start, i);
    ScanEndsLater(events, start, k, i);
    s := ReceiveOne(events, start, s);
  }

  lemma ScanEndsLater(events: seq<Event>, start: I64, k: nat, i: nat)
    requires IsStream(events) && k < i < |events| && events[k].time > events[i].time >= start >= 0
    ensures var scan := Scan(events, start, i);
            events[i] !in scan && LastTime(scan) > events[i].time
  {
    var latest := LatestWithTime(events, k, i);
    ScanMembers(events, start, i, events[latest]);
    ScanMembers(events, start, i, events[i]);
  }

  lemma {:induction false} LatestWithTime(events: seq<Event>, k: nat, n: nat) returns (latest: nat)
    requires k < n <= |events|
    ensures k <= latest < n && events[latest].time == events[k].time && NoneAt(events, latest + 1, n, events[k].time)
  {
    if events[n - 1].time == events[k].time {
      latest := n - 1;
    } else {
      latest := LatestWithTime(events, k, n - 1);
    }
  }

  // ----- order

  ghost predicate NonDecreasing(s: seq<Event>) {
    forall i, j :: 0 <= i < j < |s| ==> s[i].time <= s[j].time
  }

  /** Timestamps that are not older than `time` do not decrease. */
  ghost predicate NonDecreasingFrom(s: seq<Event>, time: int) {
    forall i, j :: 0 <= i < j < |s| && s[i].time >= time && s[j].time >= time ==> s[i].time <= s[j].time
  }

  ghost predicate AtMostFrom(s: seq<Event>, time: int, bound: int) {
    forall i :: 0 <= i < |s| && s[i].time >= time ==> s[i].time <= bound
  }

  lemma AppendOrderIff(s: seq<Event>, time: int, e: Event)
    requires e.time >= time
    ensures NonDecreasingFrom(s + [e], time) <==> NonDecreasingFrom(s, time) && AtMostFrom(s, time, e.time)
  {
    var r := s + [e];
    assert forall i :: 0 <= i < |s| ==> r[i] == s[i];
    assert r[|s|] == e;
  }

  lemma KeptOrder(s: seq<Event>, time: int)
    ensures NonDecreasing(NotOlder(s, time)) <==> NonDecreasingFrom(NotOlder(s, time), time)
  {
    PassedIsLater(s, time);
  }

  lemma KeptAtMost(s: seq<Event>, time: int, bound: int)
    ensures AtMostFrom(NotOlder(s, time), time, bound) <==> AtMostFrom(s, time, bound)
  {
    var kept := NotOlder(s, time);
    forall i | 0 <= i < |kept|
      ensures kept[i] in s
    {
      NotOlderMembers(s, time, kept[i]);
    }
    forall i | 0 <= i < |s| && s[i].time >= time
      ensures s[i] in kept
    {
      NotOlderMembers(s, time, s[i]);
    }
  }

  lemma OneMoreInOrder(front: seq<Event>, last: Event, time: int)
    requires NonDecreasingFrom(NotOlder(front, time), time) <==> NonDecreasingFrom(front, time)
    ensures NonDecreasingFrom(NotOlder(front + [last], time), time) <==> NonDecreasingFrom(front + [last], time)
  {
    var kept := NotOlder(front, time);
    NotOlderStep(front, last, time);
    if last.time >= time {
      AppendOrderIff(kept, time, last);
      AppendOrderIff(front, time, last);
      KeptAtMost(front, time, last.time);
    } else {
      DropLastOrder(front, last, time);
    }
  }

  lemma NotOlderStep(front: seq<Event>, last: Event, time: int)
    ensures NotOlder(front + [last], time) == NotOlder(front, time) + if time > last.time then [] else [last]
    ensures time > last.time ==> NotOlder(front + [last], time) == NotOlder(front, time)
  {
    assert (front + [last])[..|front|] == front;
  }

  lemma DropLastOrder(s: seq<Event>, e: Event, time: int)
    requires e.time < time
    ensures NonDecreasingFrom(s + [e], time) <==> NonDecreasingFrom(s, time)
  {
    var r := s + [e];
    assert forall i :: 0 <= i < |s| ==> r[i] == s[i];
  }

  lemma {:induction false} KeptOrderFromIff(s: seq<Event>, time: int)
    ensures NonDecreasingFrom(NotOlder(s, time), time) <==> NonDecreasingFrom(s, time)
  {
    if s != [] {
      var front := s[..|s| - 1];
      KeptOrderFromIff(front, time);
      OneMoreInOrder(front, s[|s| - 1], time);
      assert front + [s[|s| - 1]] == s;
    }
  }

  lemma NotOlderOrderIff(s: seq<Event>, time: int)
    ensures NonDecreasing(NotOlder(s, time)) <==> NonDecreasingFrom(s, time)
  {
    KeptOrder(s, time);
    KeptOrderFromIff(s, time);
  }

  /** While it scans, the subscriber has delivered a prefix of the scan. */
  lemma ScannedInOrder(events: seq<Event>, start: I64, s: State)
    requires Valid(events, start, s) && s.subscriber.Scanning?
    ensures InTimeOrder(s.delivered)
  {
    var scan := Scan(events, start, s.snapshot);
    ScanInOrder(events, start, s.snapshot);
    assert s.delivered == scan[..|s.delivered|];
  }

  lemma PassedIsLater(s: seq<Event>, time: int)
    ensures forall i :: 0 <= i < |NotOlder(s, time)| ==> NotOlder(s, time)[i].time >= time
  {
    forall i | 0 <= i < |NotOlder(s, time)|
      ensures NotOlder(s, time)[i].time >= time
    {
      NotOlderMembers(s, time, NotOlder(s, time)[i]);
    }
  }

  lemma JoinInOrder(scan: seq<Event>, passed: seq<Event>)
    requires InTimeOrder(scan) && NonDecreasing(passed)
    requires forall i :: 0 <= i < |passed| ==> passed[i].time >= LastTime(scan)
    ensures NonDecreasing(scan + passed)
  {
  }

  lemma OrderedDelivery(events: seq<Event>, start: I64, s: State)
    requires NonDecreasingFrom(events, 0) && Valid(events, start, s)
    ensures NonDecreasing(s.delivered)
  {
    if s.subscriber.Scanning? {
      ScannedInOrder(events, start, s);
    } else if s.subscriber.Realtime? {
      var (scan, live) := (Scan(events, start, s.snapshot), events[s.before..s.before + s.received]);
      ScanInOrder(events, start, s.snapshot);
      ScanEndsAtOrAfterEpoch(events, start, s.snapshot);
      PartInOrder(events, s.before, s.before + s.received, s.lastTs);
      NotOlderOrderIff(live, s.lastTs);
      PassedIsLater(live, s.lastTs);
      JoinInOrder(scan, NotOlder(live, s.lastTs));
    }
  }

  lemma PartInOrder(events: seq<Event>, from: nat, to: nat, time: int)
    requires NonDecreasingFrom(events, 0) && from <= to <= |events| && time >= 0
    ensures NonDecreasingFrom(events[from..to], time)
  {
  }

  /** Delivery is in timestamp order in every interleaving exactly when the events of the stream
      that are not before the epoch are. */
  lemma OrderedDeliveryIff(events: seq<Event>, start: I64)
    requires IsStream(events)
    ensures (forall moves :: NonDecreasing(Run(events, start, Start(), moves).delivered))
       <==> NonDecreasingFrom(events, 0)
  {
    if NonDecreasingFrom(events, 0) {
      forall moves
        ensures NonDecreasing(Run(events, start, Start(), moves).delivered)
      {
        RunKeeps(events, start, Start(), moves);
        OrderedDelivery(events, start, Run(events, start, Start(), moves));
      }
    } else {
      var s := AllRealtime(events, start);
      var moves := MovesTo(events, start, s);
      NotOlderOrderIff(events, 0);
      assert !NonDecreasing(Run(events, start, Start(), moves).delivered);
    }
  }

  /** Whatever is delivered was appended before. Events before the epoch are never delivered: they
      sort behind every scan, and the last timestamp starts at the epoch. */
  lemma DeliveredFromEpoch(events: seq<Event>, start: I64, moves: seq<Move>, e: Event)
    requires e in Run(events, start, Start(), moves).delivered
    ensures e.time >= 0 && e in events[..Run(events, start, Start(), moves).appended]
  {
    RunKeeps(events, start, Start(), moves);
    DeliveredIsAppended(events, start, Run(events, start, Start(), moves), e);
  }

  lemma DeliveredIsAppended(events: seq<Event>, start: I64, s: State, e: Event)
    requires Valid(events, start, s) && e in s.delivered
    ensures e.time >= 0 && e in events[..s.appended]
  {
    var scan := Scan(events, start, s.snapshot);
    ScanMembers(events, start, s.snapshot, e);
    ScanEndsAtOrAfterEpoch(events, start, s.snapshot);
    if e in scan {
      ShortPrefix(events, 0, s.snapshot, s.appended, e);
    } else {
      NotOlderMembers(events[s.before..s.before + s.received], s.lastTs, e);
      ShortPrefix(events, s.before, s.before + s.received, s.appended, e);
    }
  }

  lemma ShortPrefix<T>(s: seq<T>, from: nat, to: nat, n: nat, x: T)
    requires from <= to <= n <= |s|
    ensures x in s[from..to] ==> x in s[..n]
  {
  }

  /** The subscriber is in place before the first event. */
  lemma AllRealtime(events: seq<Event>, start: I64) returns (s: State)
    ensures Reached(events, start, s) && s.delivered == NotOlder(events, 0)
  {
    s := SubscribeAfter(events, start, 0);
    s := ReceiveMany(events, start, s, |events|);
    assert events[..|events|] == events;
  }

  lemma {:induction false} ReceiveMany(events: seq<Event>, start: I64, s: State, n: nat) returns (r: State)
    requires n <= |events| && Reached(events, start, s) && Quiescent(s)
    requires s.appended == 0 && s.lastTs == 0 && s.delivered == []
    ensures Reached(events, start, r) && Quiescent(r)
    ensures r.appended == n && r.lastTs == 0 && r.delivered == NotOlder(events[..n], 0)
  {
    if n == 0 {
      r := s;
    } else {
      r := ReceiveMany(events, start, s, n - 1);
      r := ReceiveOne(events, start, r);
      assert events[..n][..n - 1] == events[..n - 1];
    }
  }

  // ----- repetition

  ghost predicate Distinct(s: seq<Event>) {
    forall i, j :: 0 <= i < j < |s| ==> s[i] != s[j]
  }

  lemma PartOfStreamIsDistinct(events: seq<Event>, from: nat, to: nat)
    requires IsStream(events) && from <= to <= |events|
    ensures Distinct(events[from..to])
  {
    var part := events[from..to];
    assert forall i :: 0 <= i < |part| ==> part[i] == events[from + i];
  }

  lemma {:induction false} NotOlderDistinct(s: seq<Event>, time: int)
    requires Distinct(s)
    ensures Distinct(NotOlder(s, time))
  {
    if s != [] {
      var front := s[..|s| - 1];
      NotOlderDistinct(front, time);
      NotOlderMembers(front, time, s[|s| - 1]);
    }
  }

  lemma RepeatIsLast(scan: seq<Event>, passed: seq<Event>, a: nat, b: nat)
    requires InTimeOrder(scan) && Distinct(passed)
    requires forall i :: 0 <= i < |passed| ==> passed[i].time >= LastTime(scan)
    requires a < b < |scan + passed| && (scan + passed)[a] == (scan + passed)[b]
    ensures a + 1 == |scan| <= b
  {
  }

  /** In every interleaving of every stream, only the last scanned event can come twice, and
      none comes three times. */
  lemma OnlyLastScannedRepeats(events: seq<Event>, start: I64, moves: seq<Move>, a: nat, b: nat)
    requires IsStream(events)
    requires var d := Run(events, start, Start(), moves).delivered; a < b < |d| && d[a] == d[b]
    ensures var s := Run(events, start, Start(), moves);
            && s.subscriber.Realtime? && s.snapshot <= |events|
            && a + 1 == |Scan(events, start, s.snapshot)| <= b
  {
    RunKeeps(events, start, Start(), moves);
    var s := Run(events, start, Start(), moves);
    if s.subscriber.Scanning? {
      ScannedInOrder(events, start, s);
    } else {
      var scan, passed := DeliveredParts(events, start, s);
      RepeatIsLast(scan, passed, a, b);
    }
  }

  lemma DeliveredParts(events: seq<Event>, start: I64, s: State) returns (scan: seq<Event>, passed: seq<Event>)
    requires IsStream(events) && Valid(events, start, s) && s.subscriber.Realtime?
    ensures scan == Scan(events, start, s.snapshot) && s.delivered == scan + passed
    ensures InTimeOrder(scan) && Distinct(passed)
    ensures forall i :: 0 <= i < |passed| ==> passed[i].time >= LastTime(scan)
  {
    var live := events[s.before..s.before + s.received];
    scan, passed := Scan(events, start, s.snapshot), NotOlder(live, s.lastTs);
    ScanInOrder(events, start, s.snapshot);
    PassedIsDistinct(events, s.before, s.before + s.received, s.lastTs);
  }

  lemma PassedIsDistinct(events: seq<Event>, from: nat, to: nat, time: int)
    requires IsStream(events) && from <= to <= |events|
    ensures var passed := NotOlder(events[from..to], time);
            Distinct(passed) && forall i :: 0 <= i < |passed| ==> passed[i].time >= time
  {
    PartOfStreamIsDistinct(events, from, to);
    NotOlderDistinct(events[from..to], time);
    PassedIsLater(events[from..to], time);
  }

  /** No event lies in the range a subscriber scans. */
  ghost predicate NothingToScan(events: seq<Event>, start: I64) {
    forall i :: 0 <= i < |events| ==> !(0 <= start <= events[i].time)
  }

  /** No interleaving delivers an event twice exactly when no event lies in the range scanned. */
  lemma DistinctDeliveryIff(events: seq<Event>, start: I64)
    requires IsStream(events)
    ensures (forall moves :: Distinct(Run(events, start, Start(), moves).delivered)) <==> NothingToScan(events, start)
  {
    if NothingToScan(events, start) {
      forall moves
        ensures Distinct(Run(events, start, Start(), moves).delivered)
      {
        UnscannedIsDistinct(events, start, moves);
      }
    } else {
      var i := FirstToScan(events, start, |events|);
      var s := Repeated(events, start, i);
      var moves := MovesTo(events, start, s);
      assert s.delivered[0] == s.delivered[1];
      assert !Distinct(Run(events, start, Start(), moves).delivered);
    }
  }

  lemma UnscannedIsDistinct(events: seq<Event>, start: I64, moves: seq<Move>)
    requires IsStream(events) && NothingToScan(events, start)
    ensures Distinct(Run(events, start, Start(), moves).delivered)
  {
    var s := Run(events, start, Start(), moves);
    forall a, b | 0 <= a < b < |s.delivered|
      ensures s.delivered[a] != s.delivered[b]
    {
      if s.delivered[a] == s.delivered[b] {
        OnlyLastScannedRepeats(events, start, moves, a, b);
        ScanMembers(events, start, s.snapshot, Scan(events, start, s.snapshot)[0]);
        assert false;
      }
    }
  }

  lemma {:induction false} FirstToScan(events: seq<Event>, start: I64, n: nat) returns (i: nat)
    requires n <= |events| && !NothingToScan(events[..n], start)
    ensures i < n && 0 <= start <= events[i].time && forall j :: 0 <= j < i ==> events[j].time < start
  {
    if NothingToScan(events[..n - 1], start) {
      i := n - 1;
      assert forall j :: 0 <= j < i ==> events[..i][j] == events[j];
    } else {
      i := FirstToScan(events, start, n - 1);
    }
  }

  lemma FirstScannedAlone(events: seq<Event>, start: I64, i: nat)
    requires i < |events| && 0 <= start <= events[i].time && forall j :: 0 <= j < i ==> events[j].time < start
    ensures Scan(events, start, i + 1) == [events[i]]
  {
    var scan := Scan(events, start, i + 1);
    assert NoneAt(events, i + 1, i + 1, events[i].time);
    ScanMembers(events, start, i + 1, events[i]);
    forall k | 0 <= k < |scan|
      ensures scan[k] == events[i]
    {
      ScanMembers(events, start, i + 1, scan[k]);
    }
    var (first, last) := (scan[0], scan[|scan| - 1]);
    assert first == last;
  }

  /** The first event to scan arrives between registration and scan, and comes by both ways. */
  lemma Repeated(events: seq<Event>, start: I64, i: nat) returns (s: State)
    requires i < |events| && 0 <= start <= events[i].time && forall j :: 0 <= j < i ==> events[j].time < start
    ensures Reached(events, start, s) && s.delivered == [events[i], events[i]]
  {
    s := IngestMany(events, start, i);
    s := SubscribeOne(events, start, s);
    s := IngestOne(events, start, s);
    s := SubscribeOne(events, start, s);
    FirstScannedAlone(events, start, i);
    s := ScanAll(events, start, s);
    ReachedIsValid(events, start, s);
    s := SubscribeOne(events, start, s);
  }
}
