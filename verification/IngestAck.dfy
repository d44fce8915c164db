/**
 The two tasks of one ingest stream: the receive loop, which appends and counts events and
 acknowledges every 1024th, and the interval task, which acknowledges the last stored
 timestamp. They share an atomic counter and an atomic timestamp, and each access to those,
 each append and each sent acknowledgement is one step of its own.
 */
module IngestAck {

  const ACK_ROTATION_CNT: nat := 1024
  const NO_TIMESTAMP: int := 0
  const U16: nat := 0x1_0000

  /** Where the receive loop is, between two atomic steps. */
  datatype Receiver = Idle | Appended | Counted | Stored | Rotating | Rotated

  /** Where the interval task is. `event` numbers the event the loaded timestamp came from. */
  datatype Ticker = Waiting | Loaded(time: int, event: nat) | Sent

  /** An acknowledgement sent: for the end of the channel, or for an event's timestamp. */
  datatype Ack = ChannelDone | UpTo(time: int, event: nat)

  /** `ackCnt` and `ackTime` are the shared atomics. The other numbers record history: events
      appended, events counted, the event `ackTime` came from, the count at the last reset. */
  datatype State = State(receiver: Receiver, ticker: Ticker, ackCnt: nat, ackTime: int,
                         appended: nat, counted: nat, timeOf: nat, resetAt: nat, acks: seq<Ack>)

  /** Who moves next. Close is a "channel done" message reaching an idle receive loop. */
  datatype Move = Receive | Tick | Close

  function Start(): State {
    State(Idle, Waiting, 0, NO_TIMESTAMP, 0, 0, 0, 0, [])
  }

  predicate InStream(stream: seq<int>, s: State) {
    s.appended <= |stream| && (s.receiver.Idle? || 0 < s.appended)
  }

  function ReceiveStep(stream: seq<int>, s: State): (r: State)
    requires InStream(stream, s)
    ensures InStream(stream, r)
  {
    match s.receiver
    case Idle => if s.appended < |stream| then s.(receiver := Appended, appended := s.appended + 1) else s
    case Appended => s.(receiver := Counted, counted := s.counted + 1, ackCnt := (s.ackCnt + 1) % U16)
    case Counted => s.(receiver := Stored, ackTime := stream[s.appended - 1], timeOf := s.appended)
    case Stored => s.(receiver := if ACK_ROTATION_CNT <= s.ackCnt then Rotating else Idle)
    case Rotating => s.(receiver := Rotated, acks := s.acks + [UpTo(stream[s.appended - 1], s.appended)])
    case Rotated => s.(receiver := Idle, ackCnt := 0, resetAt := s.counted)
  }

  function TickStep(s: State): State {
    match s.ticker
    case Waiting => if s.ackTime != NO_TIMESTAMP then s.(ticker := Loaded(s.ackTime, s.timeOf)) else s
    case Loaded(time, event) => s.(ticker := Sent, acks := s.acks + [UpTo(time, event)])
    case Sent => s.(ticker := Waiting, ackCnt := 0, resetAt := s.counted)
  }

  function Step(stream: seq<int>, s: State, move: Move): (r: State)
    requires InStream(stream, s)
    ensures InStream(stream, r)
  {
    match move
    case Receive => ReceiveStep(stream, s)
    case Tick => TickStep(s)
    case Close => if s.receiver.Idle? then s.(acks := s.acks + [ChannelDone]) else s
  }

  function Run(stream: seq<int>, s: State, moves: seq<Move>): (r: State)
    requires InStream(stream, s)
    ensures InStream(stream, r)
    decreases |moves|
  {
    if moves == [] then s else Run(stream, Step(stream, s, moves[0]), moves[1..])
  }

  /** The newest event acknowledged so far, counting from 1; 0 when there is none. */
  function Newest(acks: seq<Ack>): nat {
    if acks == [] then 0
    else
      var before := Newest(acks[..|acks| - 1]);
      var last := acks[|acks| - 1];
      if last.UpTo? && last.event > before then last.event else before
  }

  lemma NewestAfter(acks: seq<Ack>, ack: Ack)
    ensures Newest(acks + [ack]) == if ack.UpTo? && ack.event > Newest(acks) then ack.event else Newest(acks)
  {
    assert (acks + [ack])[..|acks|] == acks;
  }

  // ----- what every step keeps

  /** Timestamps held or sent are those of events appended. */
  ghost predicate Traced(stream: seq<int>, s: State) {
    && InStream(stream, s)
    && s.counted == s.appended - (if s.receiver.Appended? then 1 else 0)
    && s.timeOf == s.counted - (if s.receiver.Counted? then 1 else 0)
    && s.ackTime == (if s.timeOf == 0 then NO_TIMESTAMP else stream[s.timeOf - 1])
    && (s.ticker.Loaded? ==> 0 < s.ticker.event <= s.timeOf && s.ticker.time == stream[s.ticker.event - 1])
    && forall k :: 0 <= k < |s.acks| ==> OfAppended(stream, s, s.acks[k])
  }

  predicate OfAppended(stream: seq<int>, s: State, ack: Ack)
    requires InStream(stream, s)
  {
    ack.UpTo? ==> 0 < ack.event <= s.appended && ack.time == stream[ack.event - 1]
  }

  /** The counter counts from the last reset, and a reset is never far past the newest
      acknowledgement: at most one event when the interval task loads its timestamp, at most
      one more rotation when it resets. */
  ghost predicate Bounded(s: State) {
    && s.counted == s.resetAt + s.ackCnt
    && s.ackCnt <= ACK_ROTATION_CNT
    && (s.receiver.Idle? || s.receiver.Appended? ==> s.ackCnt < ACK_ROTATION_CNT)
    && (s.receiver.Rotated? ==> s.counted <= Newest(s.acks))
    && (s.ticker.Loaded? ==> s.resetAt <= 1 + s.ticker.event || s.resetAt <= 1 + Newest(s.acks))
    && (s.ticker.Sent? ==> s.resetAt <= 1 + Newest(s.acks))
    && s.resetAt <= Newest(s.acks) + ACK_ROTATION_CNT + 1
  }

  lemma StepKeepsTraced(stream: seq<int>, s: State, move: Move)
    requires Traced(stream, s)
    ensures Traced(stream, Step(stream, s, move))
  {
    var r := Step(stream, s, move);
    forall k | 0 <= k < |r.acks|
      ensures OfAppended(stream, r, r.acks[k])
    {
      assert k < |s.acks| ==> r.acks[k] == s.acks[k] && OfAppended(stream, s, s.acks[k]);
    }
  }

  lemma ReceiveKeepsBounded(stream: seq<int>, s: State)
    requires Traced(stream, s) && Bounded(s)
    ensures Bounded(ReceiveStep(stream, s))
  {
    if s.receiver.Rotating? {
      NewestAfter(s.acks, UpTo(stream[s.appended - 1], s.appended));
    }
  }

  lemma TickKeepsBounded(stream: seq<int>, s: State)
    requires Traced(stream, s) && Bounded(s)
    ensures Bounded(TickStep(s))
  {
    if s.ticker.Loaded? {
      NewestAfter(s.acks, UpTo(s.ticker.time, s.ticker.event));
    }
  }

  lemma StepKeeps(stream: seq<int>, s: State, move: Move)
    requires Traced(stream, s) && Bounded(s)
    ensures Traced(stream, Step(stream, s, move)) && Bounded(Step(stream, s, move))
  {
    StepKeepsTraced(stream, s, move);
    match move
    case Receive => ReceiveKeepsBounded(stream, s);
    case Tick => TickKeepsBounded(stream, s);
    case Close => NewestAfter(s.acks, ChannelDone);
  }

  lemma {:induction false} RunKeeps(stream: seq<int>, s: State, moves: seq<Move>)
    requires Traced(stream, s) && Bounded(s)
    ensures Traced(stream, Run(stream, s, moves)) && Bounded(Run(stream, s, moves))
    decreases |moves|
  {
    if moves != [] {
      StepKeeps(stream, s, moves[0]);
      RunKeeps(stream, Step(stream, s, moves[0]), moves[1..]);
    }
  }

  // ----- acknowledgements never run ahead of storage

  /** Every acknowledgement but the channel-done one is the timestamp of an appended event. */
  lemma AcksAreOfAppendedEvents(stream: seq<int>, moves: seq<Move>)
    ensures var s := Run(stream, Start(), moves);
            forall ack :: ack in s.acks && ack.UpTo? ==> ack.time in stream[..s.appended]
  {
    RunKeeps(stream, Start(), moves);
    var s := Run(stream, Start(), moves);
    forall ack | ack in s.acks && ack.UpTo?
      ensures ack.time in stream[..s.appended]
    {
      assert OfAppended(stream, s, ack);
      assert stream[..s.appended][ack.event - 1] == ack.time;
    }
  }

  ghost predicate StrictlyIncreasing(stream: seq<int>) {
    forall i, j :: 0 <= i < j < |stream| ==> stream[i] < stream[j]
  }

  /** What a cumulative acknowledgement promises: every event of the stream up to its
      timestamp has been appended. */
  ghost predicate Cumulative(stream: seq<int>, s: State) {
    forall k, i :: 0 <= k < |s.acks| && s.acks[k].UpTo? && 0 <= i < |stream| && stream[i] <= s.acks[k].time ==>
                     i < s.appended
  }

  lemma IncreasingStreamIsCumulative(stream: seq<int>, moves: seq<Move>)
    requires StrictlyIncreasing(stream)
    ensures Cumulative(stream, Run(stream, Start(), moves))
  {
    RunKeeps(stream, Start(), moves);
    var s := Run(stream, Start(), moves);
    forall k, i | 0 <= k < |s.acks| && s.acks[k].UpTo? && 0 <= i < |stream| && stream[i] <= s.acks[k].time
      ensures i < s.appended
    {
      assert OfAppended(stream, s, s.acks[k]);
    }
  }

  /** An event other than one of time 0 lies among the first n. */
  predicate SomeTimed(stream: seq<int>, n: int)
    requires n <= |stream|
  {
    exists j :: 0 <= j < n && stream[j] != 0
  }

  /** Where the counter can be reset: behind whole rotations, or anywhere once the interval
      task has a timestamp to send. */
  predicate Resettable(stream: seq<int>, n: int)
    requires n <= |stream|
  {
    n % 1024 == 0 || SomeTimed(stream, n)
  }

  /** The events some interleaving acknowledges. The time 0 stands for "none", so the interval
      task never sends it: such an event needs a full rotation behind a reset. */
  predicate Acknowledgeable(stream: seq<int>, k: nat)
    requires k < |stream|
  {
    stream[k] != 0 || (k + 1 >= 1024 && Resettable(stream, k + 1 - 1024))
  }

  /** No acknowledgeable event is followed by one that is not later. */
  ghost predicate LaterAfterAcknowledgeable(stream: seq<int>) {
    forall k, i :: 0 <= k < i < |stream| && Acknowledgeable(stream, k) ==> stream[k] < stream[i]
  }

  /** Resets and acknowledgements stay where Resettable and Acknowledgeable say. */
  ghost predicate Placed(stream: seq<int>, s: State)
    requires InStream(stream, s)
  {
    && s.counted <= s.appended && s.resetAt <= s.counted && Resettable(stream, s.resetAt)
    && (!s.ticker.Waiting? ==> SomeTimed(stream, s.counted))
    && (s.ticker.Loaded? ==> s.ticker.time != NO_TIMESTAMP)
    && (s.receiver.Rotating? ==> Acknowledgeable(stream, s.appended - 1))
    && (s.receiver.Rotated? ==> Resettable(stream, s.counted))
    && forall k :: 0 <= k < |s.acks| ==> AckPlaced(stream, s.acks[k])
  }

  predicate AckPlaced(stream: seq<int>, ack: Ack) {
    ack.UpTo? ==> 0 < ack.event <= |stream| && Acknowledgeable(stream, ack.event - 1)
  }

  lemma MoreTimed(stream: seq<int>, m: int, n: int)
    requires m <= n <= |stream| && SomeTimed(stream, m)
    ensures SomeTimed(stream, n)
  {
  }

  /** A full rotation behind a reset ends where the counter can be reset again. */
  lemma RotationResets(stream: seq<int>, n: nat)
    requires n <= |stream| && n >= ACK_ROTATION_CNT && Resettable(stream, n - ACK_ROTATION_CNT)
    ensures Resettable(stream, n)
  {
    if SomeTimed(stream, n - ACK_ROTATION_CNT) {
      MoreTimed(stream, n - ACK_ROTATION_CNT, n);
    }
  }

  lemma ReceiveKeepsPlaced(stream: seq<int>, s: State)
    requires Traced(stream, s) && Bounded(s) && Placed(stream, s)
    ensures Placed(stream, ReceiveStep(stream, s))
  {
    var r := ReceiveStep(stream, s);
    if !s.ticker.Waiting? {
      MoreTimed(stream, s.counted, r.counted);
    }
    if s.receiver.Rotating? {
      if stream[s.appended - 1] != NO_TIMESTAMP {
        assert SomeTimed(stream, s.counted);
      } else {
        RotationResets(stream, s.counted);
      }
    }
  }

  lemma TickKeepsPlaced(stream: seq<int>, s: State)
    requires Traced(stream, s) && Bounded(s) && Placed(stream, s)
    ensures Placed(stream, TickStep(s))
  {
    if s.ticker.Waiting? && s.ackTime != NO_TIMESTAMP {
      assert stream[s.timeOf - 1] != NO_TIMESTAMP;
    }
  }

  lemma StepKeepsPlaced(stream: seq<int>, s: State, move: Move)
    requires Traced(stream, s) && Bounded(s) && Placed(stream, s)
    ensures Placed(stream, Step(stream, s, move))
  {
    match move
    case Receive => ReceiveKeepsPlaced(stream, s);
    case Tick => TickKeepsPlaced(stream, s);
    case Close =>
  }

  lemma {:induction false} RunKeepsPlaced(stream: seq<int>, s: State, moves: seq<Move>)
    requires Traced(stream, s) && Bounded(s) && Placed(stream, s)
    ensures Placed(stream, Run(stream, s, moves))
    decreases |moves|
  {
    if moves != [] {
      StepKeeps(stream, s, moves[0]);
      StepKeepsPlaced(stream, s, moves[0]);
      RunKeepsPlaced(stream, Step(stream, s, moves[0]), moves[1..]);
    }
  }

  /** An event is acknowledged in some interleaving exactly when it is acknowledgeable. */
  lemma AcknowledgeableIff(stream: seq<int>, k: nat)
    requires k < |stream|
    ensures Acknowledgeable(stream, k) <==>
              exists moves :: UpTo(stream[k], k + 1) in Run(stream, Start(), moves).acks
  {
    if Acknowledgeable(stream, k) {
      var r := AckRightAfter(stream, k);
      var moves := MovesTo(stream, r);
      assert UpTo(stream[k], k + 1) in Run(stream, Start(), moves).acks;
    }
    if moves :| UpTo(stream[k], k + 1) in Run(stream, Start(), moves).acks {
      RunKeepsPlaced(stream, Start(), moves);
      assert AckPlaced(stream, UpTo(stream[k], k + 1));
    }
  }

  /** Acknowledgements are cumulative in every interleaving exactly when no acknowledgeable
      event is followed by one that is not later. */
  lemma CumulativeIff(stream: seq<int>)
    ensures (forall moves :: Cumulative(stream, Run(stream, Start(), moves))) <==> LaterAfterAcknowledgeable(stream)
  {
    if LaterAfterAcknowledgeable(stream) {
      forall moves
        ensures Cumulative(stream, Run(stream, Start(), moves))
      {
        LaterIsCumulative(stream, moves);
      }
    } else {
      var k, i :| 0 <= k < i < |stream| && Acknowledgeable(stream, k) && stream[k] >= stream[i];
      var r := AckRightAfter(stream, k);
      var moves := MovesTo(stream, r);
      assert !Cumulative(stream, Run(stream, Start(), moves));
    }
  }

  lemma LaterIsCumulative(stream: seq<int>, moves: seq<Move>)
    requires LaterAfterAcknowledgeable(stream)
    ensures Cumulative(stream, Run(stream, Start(), moves))
  {
    RunIsPlaced(stream, moves);
    PlacedIsCumulative(stream, Run(stream, Start(), moves));
  }

  lemma RunIsPlaced(stream: seq<int>, moves: seq<Move>)
    ensures Traced(stream, Run(stream, Start(), moves)) && Placed(stream, Run(stream, Start(), moves))
  {
    StartKeeps(stream);
    RunKeeps(stream, Start(), moves);
    RunKeepsPlaced(stream, Start(), moves);
  }

  lemma StartKeeps(stream: seq<int>)
    ensures Traced(stream, Start()) && Bounded(Start()) && Placed(stream, Start())
  {
    assert Resettable(stream, 0);
  }

  lemma PlacedIsCumulative(stream: seq<int>, s: State)
    requires LaterAfterAcknowledgeable(stream) && Traced(stream, s) && Placed(stream, s)
    ensures Cumulative(stream, s)
  {
    forall k, i | 0 <= k < |s.acks| && s.acks[k].UpTo? && 0 <= i < |stream| && stream[i] <= s.acks[k].time
      ensures i < s.appended
    {
      assert OfAppended(stream, s, s.acks[k]) && AckPlaced(stream, s.acks[k]);
      NothingLaterUpTo(stream, s.acks[k].event - 1, i);
    }
  }

  lemma NothingLaterUpTo(stream: seq<int>, k: nat, i: nat)
    requires LaterAfterAcknowledgeable(stream) && k < |stream| && Acknowledgeable(stream, k)
    requires i < |stream| && stream[i] <= stream[k]
    ensures i <= k
  {
  }

  /** Without events of time 0 that means: exactly when the timestamps strictly increase. */
  lemma CumulativeIffIncreasing(stream: seq<int>)
    requires 0 !in stream
    ensures (forall moves :: Cumulative(stream, Run(stream, Start(), moves))) <==> StrictlyIncreasing(stream)
  {
    CumulativeIff(stream);
    assert forall k :: 0 <= k < |stream| ==> Acknowledgeable(stream, k);
  }

  // ----- runs of one's choosing

  lemma {:induction false} RunConcat(stream: seq<int>, s: State, a: seq<Move>, b: seq<Move>)
    requires InStream(stream, s)
    ensures Run(stream, s, a + b) == Run(stream, Run(stream, s, a), b)
    decreases |a|
  {
    if a == [] {
      assert a + b == b;
    } else {
      assert (a + b)[1..] == a[1..] + b;
      RunConcat(stream, Step(stream, s, a[0]), a[1..], b);
    }
  }

  lemma RunOne(stream: seq<int>, s: State, moves: seq<Move>, move: Move)
    requires InStream(stream, s)
    ensures Run(stream, s, moves + [move]) == Step(stream, Run(stream, s, moves), move)
  {
    RunConcat(stream, s, moves, [move]);
    assert [move][1..] == [];
  }

  /** The states that some interleaving reaches. */
  ghost predicate Reached(stream: seq<int>, s: State) {
    exists moves :: Run(stream, Start(), moves) == s
  }

  lemma ReachedKeeps(stream: seq<int>, s: State)
    requires Reached(stream, s)
    ensures Traced(stream, s) && Bounded(s)
  {
    var moves :| Run(stream, Start(), moves) == s;
    RunKeeps(stream, Start(), moves);
  }

  lemma MovesTo(stream: seq<int>, s: State) returns (moves: seq<Move>)
    requires Reached(stream, s)
    ensures Run(stream, Start(), moves) == s
  {
    moves :| Run(stream, Start(), moves) == s;
  }

  lemma ReachStart(stream: seq<int>)
    ensures Reached(stream, Start())
  {
    assert Run(stream, Start(), []) == Start();
  }

  lemma ReachStep(stream: seq<int>, s: State, move: Move)
    requires Reached(stream, s)
    ensures InStream(stream, s) && Reached(stream, Step(stream, s, move))
  {
    var moves :| Run(stream, Start(), moves) == s;
    RunOne(stream, Start(), moves, move);
    assert Run(stream, Start(), moves + [move]) == Step(stream, s, move);
  }

  lemma ReachTick(stream: seq<int>, s: State)
    requires Reached(stream, s)
    ensures Reached(stream, TickStep(s))
  {
    ReachStep(stream, s, Tick);
  }

  lemma ReachTwo(stream: seq<int>, s: State)
    requires Reached(stream, s)
    ensures InStream(stream, s) && Reached(stream, ReceiveStep(stream, ReceiveStep(stream, s)))
  {
    ReachStep(stream, s, Receive);
    ReachStep(stream, ReceiveStep(stream, s), Receive);
  }

  /** A reached state between two events: nothing under way in the receive loop. */
  ghost predicate Between(stream: seq<int>, s: State) {
    Reached(stream, s) && s.receiver.Idle?
  }

  /** Appends and counts one event, without storing its timestamp yet. */
  function Counting(s: State): State {
    s.(receiver := Counted, appended := s.appended + 1, counted := s.counted + 1, ackCnt := s.ackCnt + 1)
  }

  lemma CountEvent(stream: seq<int>, s: State)
    requires Between(stream, s) && s.appended < |stream|
    ensures Reached(stream, Counting(s)) && s.ackCnt < ACK_ROTATION_CNT
  {
    ReachedKeeps(stream, s);
    ReachTwo(stream, s);
  }

  /** Stores the timestamp of a counted event and finds no rotation due. */
  lemma StoreEvent(stream: seq<int>, s: State)
    requires Reached(stream, s) && s.receiver.Counted? && s.ackCnt < ACK_ROTATION_CNT
    ensures 0 < s.appended <= |stream|
    ensures Between(stream, s.(receiver := Idle, ackTime := stream[s.appended - 1], timeOf := s.appended))
  {
    ReachedKeeps(stream, s);
    ReachTwo(stream, s);
  }

  /** Stores the timestamp of a counted event, acknowledges it and resets the counter. */
  lemma RotateEvent(stream: seq<int>, s: State)
    requires Reached(stream, s) && s.receiver.Counted? && s.ackCnt == ACK_ROTATION_CNT
    ensures 0 < s.appended <= |stream|
    ensures var time := stream[s.appended - 1];
            Between(stream, s.(receiver := Idle, ackTime := time, timeOf := s.appended, ackCnt := 0,
                               resetAt := s.counted, acks := s.acks + [UpTo(time, s.appended)]))
  {
    ReachedKeeps(stream, s);
    ReachTwo(stream, s);
    ReachTwo(stream, s.(receiver := Rotating, ackTime := stream[s.appended - 1], timeOf := s.appended));
  }

  /** One event handled from start to end, with no move of the interval task in between. */
  lemma HandleEvent(stream: seq<int>, s: State) returns (r: State)
    requires Between(stream, s) && s.appended < |stream|
    ensures Between(stream, r) && r.appended == s.appended + 1 && r.ticker == s.ticker
    ensures if s.ackCnt + 1 < ACK_ROTATION_CNT then r.ackCnt == s.ackCnt + 1 && r.acks == s.acks
            else r.ackCnt == 0 && r.acks == s.acks + [UpTo(stream[s.appended], r.appended)]
  {
    var time := stream[s.appended];
    var t := Counting(s);
    CountEvent(stream, s);
    if t.ackCnt < ACK_ROTATION_CNT {
      StoreEvent(stream, t);
      r := t.(receiver := Idle, ackTime := time, timeOf := t.appended);
    } else {
      RotateEvent(stream, t);
      r := t.(receiver := Idle, ackTime := time, timeOf := t.appended, ackCnt := 0,
              resetAt := t.counted, acks := t.acks + [UpTo(time, t.appended)]);
    }
  }

  /** n events handled one after the other. */
  lemma {:induction false} HandleEvents(stream: seq<int>, s: State, n: nat) returns (r: State)
    requires Between(stream, s) && s.appended + n <= |stream|
    ensures Between(stream, r) && r.appended == s.appended + n && r.ticker == s.ticker
    ensures s.ackCnt + n < ACK_ROTATION_CNT ==> r.ackCnt == s.ackCnt + n && r.acks == s.acks
  {
    r := s;
    if n > 0 {
      r := HandleEvents(stream, s, n - 1);
      r := HandleEvent(stream, r);
    }
  }

  /** A full rotation from a reset counter acknowledges its last event. */
  lemma Rotation(stream: seq<int>, s: State) returns (r: State)
    requires Between(stream, s) && s.ackCnt == 0 && s.appended + ACK_ROTATION_CNT <= |stream|
    ensures Between(stream, r) && r.ackCnt == 0 && r.ticker == s.ticker && r.appended == s.appended + ACK_ROTATION_CNT
    ensures r.acks == s.acks + [UpTo(stream[r.appended - 1], r.appended)]
  {
    var t := HandleEvents(stream, s, ACK_ROTATION_CNT - 1);
    r := HandleEvent(stream, t);
  }

  /** Whole rotations with the interval task at rest. */
  lemma {:induction false} Rotations(stream: seq<int>, n: nat) returns (r: State)
    requires n * ACK_ROTATION_CNT <= |stream|
    ensures Between(stream, r) && r.ticker.Waiting? && r.appended == n * ACK_ROTATION_CNT && r.ackCnt == 0
  {
    if n == 0 {
      ReachStart(stream);
      r := Start();
    } else {
      r := Rotations(stream, n - 1);
      r := Rotation(stream, r);
    }
  }

  /** The events before n, with the interval task at rest: the counter counts from the last
      multiple of the rotation count. */
  lemma Undisturbed(stream: seq<int>, n: nat) returns (r: State)
    requires n <= |stream|
    ensures Between(stream, r) && r.ticker.Waiting? && r.appended == n && r.ackCnt == n % ACK_ROTATION_CNT
  {
    r := Rotations(stream, n / ACK_ROTATION_CNT);
    r := HandleEvents(stream, r, n % ACK_ROTATION_CNT);
  }

  /** The interval task loads the time of event j. */
  lemma TimeLoaded(stream: seq<int>, j: nat) returns (r: State)
    requires j < |stream| && stream[j] != NO_TIMESTAMP
    ensures Between(stream, r) && r.ticker == Loaded(stream[j], j + 1)
    ensures r.appended == j + 1 && r.ackCnt == (j + 1) % ACK_ROTATION_CNT
  {
    var s := Undisturbed(stream, j + 1);
    ReachedKeeps(stream, s);
    ReachTick(stream, s);
    r := TickStep(s);
  }

  /** The interval task sends a loaded time, and has not reset the counter yet. */
  lemma SendLoaded(stream: seq<int>, s: State) returns (r: State)
    requires Reached(stream, s) && s.ticker.Loaded?
    ensures Reached(stream, r) && r == s.(ticker := Sent, acks := s.acks + [UpTo(s.ticker.time, s.ticker.event)])
  {
    ReachTick(stream, s);
    r := TickStep(s);
  }

  lemma ResetCounter(stream: seq<int>, s: State) returns (r: State)
    requires Reached(stream, s) && s.ticker.Sent?
    ensures Reached(stream, r) && r == s.(ticker := Waiting, ackCnt := 0, resetAt := s.counted)
  {
    ReachTick(stream, s);
    r := TickStep(s);
  }

  /** The interval task acknowledges event j and resets the counter behind n events. */
  lemma AckThenReset(stream: seq<int>, j: nat, n: nat) returns (r: State)
    requires j < n <= |stream| && stream[j] != NO_TIMESTAMP
    ensures Between(stream, r) && r.appended == n && r.ackCnt == 0
  {
    var s := TimeLoaded(stream, j);
    s := SendLoaded(stream, s);
    s := HandleEvents(stream, s, n - (j + 1));
    r := ResetCounter(stream, s);
  }

  /** A state in which the counter was reset right behind the first n events. */
  lemma ResetAfter(stream: seq<int>, n: nat) returns (r: State)
    requires n <= |stream| && Resettable(stream, n)
    ensures Between(stream, r) && r.appended == n && r.ackCnt == 0
  {
    if n % ACK_ROTATION_CNT == 0 {
      r := Undisturbed(stream, n);
    } else {
      var j :| 0 <= j < n && stream[j] != NO_TIMESTAMP;
      r := AckThenReset(stream, j, n);
    }
  }

  lemma RotationAck(stream: seq<int>, n: nat) returns (r: State)
    requires ACK_ROTATION_CNT <= n <= |stream| && Resettable(stream, n - ACK_ROTATION_CNT)
    ensures Reached(stream, r) && r.appended == n && r.acks != [] && r.acks[|r.acks| - 1] == UpTo(stream[n - 1], n)
  {
    var s := ResetAfter(stream, n - ACK_ROTATION_CNT);
    r := Rotation(stream, s);
  }

  /** A state in which event k is acknowledged before event k + 1 arrives. */
  lemma AckRightAfter(stream: seq<int>, k: nat) returns (r: State)
    requires k < |stream| && Acknowledgeable(stream, k)
    ensures Reached(stream, r) && r.appended == k + 1
    ensures r.acks != [] && r.acks[|r.acks| - 1] == UpTo(stream[k], k + 1)
  {
    if stream[k] != NO_TIMESTAMP {
      r := TimeLoaded(stream, k);
      r := SendLoaded(stream, r);
    } else {
      r := RotationAck(stream, k + 1);
    }
  }

  // ----- the end of the channel

  /** How many "channel done" acknowledgements were sent. */
  function DoneAcks(acks: seq<Ack>): nat {
    |acks| - |UpToAcks(acks)|
  }

  function UpToAcks(acks: seq<Ack>): (r: seq<Ack>)
    ensures |r| <= |acks|
  {
    if acks == [] then [] else (if acks[0].UpTo? then [acks[0]] else []) + UpToAcks(acks[1..])
  }

  lemma {:induction false} UpToAcksAfter(acks: seq<Ack>, ack: Ack)
    ensures UpToAcks(acks + [ack]) == UpToAcks(acks) + if ack.UpTo? then [ack] else []
  {
    if acks != [] {
      assert (acks + [ack])[1..] == acks[1..] + [ack];
      UpToAcksAfter(acks[1..], ack);
    }
  }

  /** How many of the moves are a "channel done" message that finds the receive loop idle. */
  function ClosesMet(stream: seq<int>, s: State, moves: seq<Move>): nat
    requires InStream(stream, s)
    decreases |moves|
  {
    if moves == [] then 0
    else (if moves[0].Close? && s.receiver.Idle? then 1 else 0)
         + ClosesMet(stream, Step(stream, s, moves[0]), moves[1..])
  }

  lemma StepAnswers(stream: seq<int>, s: State, move: Move)
    requires InStream(stream, s)
    ensures DoneAcks(Step(stream, s, move).acks)
         == DoneAcks(s.acks) + if move.Close? && s.receiver.Idle? then 1 else 0
  {
    UpToAcksAfter(s.acks, ChannelDone);
    if s.appended > 0 {
      UpToAcksAfter(s.acks, UpTo(stream[s.appended - 1], s.appended));
    }
    if s.ticker.Loaded? {
      UpToAcksAfter(s.acks, UpTo(s.ticker.time, s.ticker.event));
    }
  }

  /** A "channel done" message is acknowledged exactly as often as one reaches the idle loop. */
  lemma {:induction false} ClosesAreAnswered(stream: seq<int>, s: State, moves: seq<Move>)
    requires InStream(stream, s)
    ensures DoneAcks(Run(stream, s, moves).acks) == DoneAcks(s.acks) + ClosesMet(stream, s, moves)
    decreases |moves|
  {
    if moves != [] {
      StepAnswers(stream, s, moves[0]);
      ClosesAreAnswered(stream, Step(stream, s, moves[0]), moves[1..]);
    }
  }

  /** After any run, a "channel done" message that finds the loop idle is acknowledged next and
      changes nothing else; the loop is idle again after every event, so it is met at last. */
  lemma CloseIsAnswered(stream: seq<int>, moves: seq<Move>)
    ensures var (s, r) := (Run(stream, Start(), moves), Run(stream, Start(), moves + [Close]));
            r == if s.receiver.Idle? then s.(acks := s.acks + [ChannelDone]) else s
    ensures exists more :: |more| <= 5 && Run(stream, Start(), moves + more).receiver.Idle?
  {
    RunOne(stream, Start(), moves, Close);
    var more := FinishEvent(stream, Run(stream, Start(), moves));
    RunConcat(stream, Start(), moves, more);
  }

  function StepsLeft(receiver: Receiver): (n: nat)
    ensures n <= 5
  {
    match receiver
    case Idle => 0
    case Rotated => 1
    case Rotating => 2
    case Stored => 3
    case Counted => 4
    case Appended => 5
  }

  /** The moves that bring the receive loop back to idle. */
  lemma FinishEvent(stream: seq<int>, s: State) returns (more: seq<Move>)
    requires InStream(stream, s)
    ensures |more| <= StepsLeft(s.receiver) && Run(stream, s, more).receiver.Idle?
    decreases StepsLeft(s.receiver)
  {
    if s.receiver.Idle? {
      more := [];
    } else {
      var rest := FinishEvent(stream, ReceiveStep(stream, s));
      more := [Receive] + rest;
    }
  }

  // ----- in which order acknowledgements are sent

  /** The events of successive acknowledgements never decrease. */
  ghost predicate AcksInOrder(s: State) {
    forall i, j :: 0 <= i < j < |s.acks| && s.acks[i].UpTo? && s.acks[j].UpTo? ==> s.acks[i].event <= s.acks[j].event
  }

  /** Every event before the last one of the last whole rotation has time 0. */
  ghost predicate QuietRotations(stream: seq<int>) {
    forall k :: 0 <= k < |stream| / 1024 * 1024 - 1 ==> stream[k] == 0
  }

  ghost predicate AcksUpTo(acks: seq<Ack>, n: nat) {
    forall k :: 0 <= k < |acks| && acks[k].UpTo? ==> acks[k].event <= n
  }

  /** No acknowledgement is of a later event than the last one stored, or, while the interval
      task holds a loaded time, than the event of that time. */
  ghost predicate InTurn(stream: seq<int>, s: State)
    requires InStream(stream, s)
  {
    && AcksInOrder(s) && AcksUpTo(s.acks, s.timeOf)
    && (s.ticker.Loaded? ==> AcksUpTo(s.acks, s.ticker.event))
    && (s.receiver.Rotating? ==>
          s.appended >= ACK_ROTATION_CNT && Resettable(stream, s.appended - ACK_ROTATION_CNT))
  }

  lemma AppendInOrder(s: State, r: State, ack: Ack)
    requires AcksInOrder(s) && r.acks == s.acks + [ack] && (ack.UpTo? ==> AcksUpTo(s.acks, ack.event))
    ensures AcksInOrder(r)
  {
  }

  lemma MultipleAtMost(n: nat, bound: nat)
    requires n % ACK_ROTATION_CNT == 0 && n <= bound
    ensures n <= bound / ACK_ROTATION_CNT * ACK_ROTATION_CNT
  {
    assert n / ACK_ROTATION_CNT <= bound / ACK_ROTATION_CNT;
  }

  /** With quiet rotations, a rotation behind a reset is a whole one. */
  lemma RotationIsWhole(stream: seq<int>, n: nat)
    requires QuietRotations(stream) && ACK_ROTATION_CNT <= n <= |stream| && Resettable(stream, n - ACK_ROTATION_CNT)
    ensures n <= |stream| / ACK_ROTATION_CNT * ACK_ROTATION_CNT
  {
    assert !SomeTimed(stream, n - ACK_ROTATION_CNT);
    MultipleAtMost(n, |stream|);
  }

  lemma ReceiveKeepsInTurn(stream: seq<int>, s: State)
    requires QuietRotations(stream) && Traced(stream, s) && Bounded(s) && Placed(stream, s) && InTurn(stream, s)
    ensures InTurn(stream, ReceiveStep(stream, s))
  {
    var r := ReceiveStep(stream, s);
    if s.receiver.Rotating? {
      AppendInOrder(s, r, UpTo(stream[s.appended - 1], s.appended));
      if s.ticker.Loaded? {
        RotationIsWhole(stream, s.appended);
        assert stream[s.ticker.event - 1] != NO_TIMESTAMP;
      }
    }
  }

  lemma TickKeepsInTurn(stream: seq<int>, s: State)
    requires Traced(stream, s) && InTurn(stream, s)
    ensures InTurn(stream, TickStep(s))
  {
    if s.ticker.Loaded? {
      AppendInOrder(s, TickStep(s), UpTo(s.ticker.time, s.ticker.event));
    }
  }

  lemma CloseKeepsInTurn(stream: seq<int>, s: State)
    requires InStream(stream, s) && InTurn(stream, s)
    ensures InTurn(stream, Step(stream, s, Close))
  {
    if s.receiver.Idle? {
      AppendInOrder(s, Step(stream, s, Close), ChannelDone);
    }
  }

  lemma StepKeepsInTurn(stream: seq<int>, s: State, move: Move)
    requires QuietRotations(stream) && Traced(stream, s) && Bounded(s) && Placed(stream, s) && InTurn(stream, s)
    ensures InTurn(stream, Step(stream, s, move))
  {
    match move
    case Receive => ReceiveKeepsInTurn(stream, s);
    case Tick => TickKeepsInTurn(stream, s);
    case Close => CloseKeepsInTurn(stream, s);
  }

  lemma {:induction false} RunKeepsInTurn(stream: seq<int>, s: State, moves: seq<Move>)
    requires QuietRotations(stream) && Traced(stream, s) && Bounded(s) && Placed(stream, s) && InTurn(stream, s)
    ensures InTurn(stream, Run(stream, s, moves))
    decreases |moves|
  {
    if moves != [] {
      StepKeeps(stream, s, moves[0]);
      StepKeepsPlaced(stream, s, moves[0]);
      StepKeepsInTurn(stream, s, moves[0]);
      RunKeepsInTurn(stream, Step(stream, s, moves[0]), moves[1..]);
    }
  }

  lemma QuietRotationsAckInOrder(stream: seq<int>, moves: seq<Move>)
    requires QuietRotations(stream)
    ensures AcksInOrder(Run(stream, Start(), moves))
  {
    StartKeeps(stream);
    StartInTurn(stream);
    RunKeepsInTurn(stream, Start(), moves);
  }

  lemma StartInTurn(stream: seq<int>)
    ensures InTurn(stream, Start())
  {
  }

  /** The interval task loads the time of an event and sends it behind a later rotation. */
  lemma SentBehindRotation(stream: seq<int>, k: nat) returns (r: State)
    requires k < |stream| / ACK_ROTATION_CNT * ACK_ROTATION_CNT - 1 && stream[k] != NO_TIMESTAMP
    ensures Reached(stream, r) && !AcksInOrder(r)
  {
    var s := TimeLoaded(stream, k);
    var n := RotationBehind(stream, k);
    var full := HandleEvents(stream, s, n - 1 - (k + 1));
    var t := HandleEvent(stream, full);
    r := SendLoaded(stream, t);
    var last := |r.acks| - 1;
    assert r.acks[last - 1].event > r.acks[last].event;
  }

  /** Where the rotation under way behind event k ends. */
  lemma RotationBehind(stream: seq<int>, k: nat) returns (n: nat)
    requires k < |stream| / ACK_ROTATION_CNT * ACK_ROTATION_CNT - 1
    ensures k + 1 < n <= |stream| && (k + 1) % ACK_ROTATION_CNT + (n - (k + 1)) == ACK_ROTATION_CNT
  {
    var c := (k + 1) % ACK_ROTATION_CNT;
    n := k + 1 + (ACK_ROTATION_CNT - c);
    var (p, q) := ((k + 1) / ACK_ROTATION_CNT, |stream| / ACK_ROTATION_CNT);
    assert k + 1 == p * ACK_ROTATION_CNT + c;
    assert p < q;
    assert n == (p + 1) * ACK_ROTATION_CNT <= q * ACK_ROTATION_CNT;
  }

  /** Acknowledgements are sent in stream order in every interleaving exactly when every event
      before the last one of the last whole rotation has time 0; for streams without such
      events, exactly when there is no whole rotation. */
  lemma AcksInOrderIff(stream: seq<int>)
    ensures (forall moves :: AcksInOrder(Run(stream, Start(), moves))) <==> QuietRotations(stream)
  {
    if QuietRotations(stream) {
      forall moves
        ensures AcksInOrder(Run(stream, Start(), moves))
      {
        QuietRotationsAckInOrder(stream, moves);
      }
    } else {
      var k :| 0 <= k < |stream| / ACK_ROTATION_CNT * ACK_ROTATION_CNT - 1 && stream[k] != NO_TIMESTAMP;
      var r := SentBehindRotation(stream, k);
      var moves := MovesTo(stream, r);
      assert !AcksInOrder(Run(stream, Start(), moves));
    }
  }

  // ----- how many counted events can be unacknowledged

  function Unacknowledged(s: State): int {
    s.counted - Newest(s.acks)
  }

  /** In every interleaving, and the 16-bit counter never wraps. */
  lemma UnacknowledgedWindow(stream: seq<int>, moves: seq<Move>)
    ensures var s := Run(stream, Start(), moves);
            Unacknowledged(s) <= 2049 && s.ackCnt <= 1024
  {
    RunKeeps(stream, Start(), moves);
  }

  /** The interval task sends an acknowledgement it loaded before a rotation and resets the
      counter just before its end: the receive loop misses its own acknowledgement. */
  lemma MissedRotation(stream: seq<int>, s: State) returns (r: State)
    requires Between(stream, s) && s.ticker.Loaded? && s.ackCnt < ACK_ROTATION_CNT
    requires s.appended + (ACK_ROTATION_CNT - s.ackCnt) <= |stream|
    ensures Between(stream, r) && r.ackCnt == 0 && r.ticker.Waiting?
    ensures r.appended == s.appended + (ACK_ROTATION_CNT - s.ackCnt)
    ensures r.acks == s.acks + [UpTo(s.ticker.time, s.ticker.event)]
  {
    var t := HandleEvents(stream, s, ACK_ROTATION_CNT - 1 - s.ackCnt);
    CountEvent(stream, t);
    var u := SendLoaded(stream, Counting(t));
    u := ResetCounter(stream, u);
    StoreEvent(stream, u);
    r := u.(receiver := Idle, ackTime := stream[u.appended - 1], timeOf := u.appended);
  }

  /** Counts n more events without acknowledging any. */
  lemma CountOn(stream: seq<int>, s: State, n: nat) returns (r: State)
    requires Between(stream, s) && 0 < n && s.ackCnt + n <= ACK_ROTATION_CNT && s.appended + n <= |stream|
    ensures Reached(stream, r) && r.counted == s.appended + n && r.acks == s.acks
  {
    var t := HandleEvents(stream, s, n - 1);
    CountEvent(stream, t);
    ReachedKeeps(stream, t);
    r := Counting(t);
  }

  lemma {:induction false} NewestUpTo(acks: seq<Ack>, n: nat)
    requires AcksUpTo(acks, n)
    ensures Newest(acks) <= n
  {
    if acks != [] {
      NewestUpTo(acks[..|acks| - 1], n);
    }
  }

  /** The interval task acknowledges event 1 while event 2 is counted but not stored, and
      loads the timestamp of event 1 again. */
  lemma StaleLoad(stream: seq<int>) returns (r: State)
    requires |stream| >= 2 && stream[0] != NO_TIMESTAMP
    ensures Between(stream, r) && r.ackCnt == 0 && r.ticker == Loaded(stream[0], 1)
    ensures r.appended == 2 && AcksUpTo(r.acks, 1)
  {
    var s := TimeLoaded(stream, 0);
    ReachedKeeps(stream, s);
    CountEvent(stream, s);
    var t := SendLoaded(stream, Counting(s));
    t := ResetCounter(stream, t);
    ReachTick(stream, t);
    var u := TickStep(t);
    StoreEvent(stream, u);
    r := u.(receiver := Idle, ackTime := stream[1], timeOf := 2);
  }

  /** The bound is reached, so no smaller one holds for every stream. */
  lemma WindowIsReached(stream: seq<int>)
    requires |stream| >= 2050 && stream[0] != 0
    ensures exists moves :: Unacknowledged(Run(stream, Start(), moves)) == 2049
  {
    var s := StaleLoad(stream);
    var t := MissedRotation(stream, s);
    var r := CountOn(stream, t, ACK_ROTATION_CNT);
    assert AcksUpTo(r.acks, 1);
    NewestUpTo(r.acks, 1);
    NewestAfter(s.acks, UpTo(stream[0], 1));
    var moves := MovesTo(stream, r);
    assert Unacknowledged(Run(stream, Start(), moves)) == 2049;
  }

  /** The rotation count bounds what is unacknowledged once no event the interval task can
      send comes that long before the end. */
  ghost predicate QuietStart(stream: seq<int>) {
    forall j :: 0 <= j < |stream| - 1025 ==> stream[j] == 0
  }

  /** Resets follow acknowledgements of the last event counted, until the interval task has
      acknowledged an event close to the end of the stream. */
  ghost predicate Close1024(stream: seq<int>, s: State) {
    && (s.resetAt <= Newest(s.acks) || |stream| <= Newest(s.acks) + ACK_ROTATION_CNT)
    && (s.ticker.Sent? ==> |stream| <= Newest(s.acks) + ACK_ROTATION_CNT)
  }

  lemma StepKeepsClose(stream: seq<int>, s: State, move: Move)
    requires QuietStart(stream) && Traced(stream, s) && Bounded(s) && Placed(stream, s) && Close1024(stream, s)
    ensures Close1024(stream, Step(stream, s, move))
  {
    if move.Receive? && s.receiver.Rotating? {
      NewestAfter(s.acks, UpTo(stream[s.appended - 1], s.appended));
    } else if move.Tick? && s.ticker.Loaded? {
      NewestAfter(s.acks, UpTo(s.ticker.time, s.ticker.event));
      assert stream[s.ticker.event - 1] != NO_TIMESTAMP;
    } else if move.Close? {
      NewestAfter(s.acks, ChannelDone);
    }
  }

  lemma CloseIsBounded(stream: seq<int>, s: State)
    requires Traced(stream, s) && Bounded(s) && Close1024(stream, s)
    ensures Unacknowledged(s) <= ACK_ROTATION_CNT
  {
  }

  lemma {:induction false} RunKeepsClose(stream: seq<int>, s: State, moves: seq<Move>)
    requires QuietStart(stream) && Traced(stream, s) && Bounded(s) && Placed(stream, s) && Close1024(stream, s)
    ensures Unacknowledged(Run(stream, s, moves)) <= ACK_ROTATION_CNT
    decreases |moves|
  {
    if moves == [] {
      CloseIsBounded(stream, s);
    } else {
      StepKeeps(stream, s, moves[0]);
      StepKeepsPlaced(stream, s, moves[0]);
      StepKeepsClose(stream, s, moves[0]);
      RunKeepsClose(stream, Step(stream, s, moves[0]), moves[1..]);
    }
  }

  lemma QuietStartBoundsWindow(stream: seq<int>, moves: seq<Move>)
    requires QuietStart(stream)
    ensures Unacknowledged(Run(stream, Start(), moves)) <= ACK_ROTATION_CNT
  {
    StartKeeps(stream);
    StartClose(stream);
    RunKeepsClose(stream, Start(), moves);
  }

  lemma StartClose(stream: seq<int>)
    ensures Close1024(stream, Start())
  {
  }

  /** A rotation is missed after the time of event j was loaded, and the next one runs on. */
  lemma WindowExceeded(stream: seq<int>, j: nat) returns (r: State)
    requires j < |stream| - (ACK_ROTATION_CNT + 1) && stream[j] != NO_TIMESTAMP
    ensures Reached(stream, r) && Unacknowledged(r) == ACK_ROTATION_CNT + 1
  {
    var s := TimeLoaded(stream, j);
    ReachedKeeps(stream, s);
    assert AcksUpTo(s.acks, j + 1) by {
      assert forall k :: 0 <= k < |s.acks| ==> OfAppended(stream, s, s.acks[k]);
    }
    var t := MissedRotation(stream, s);
    r := CountOn(stream, t, j + 2 + ACK_ROTATION_CNT - t.appended);
    assert AcksUpTo(r.acks, j + 1);
    NewestUpTo(r.acks, j + 1);
    NewestAfter(s.acks, UpTo(stream[j], j + 1));
  }

  /** The plain rotation count bounds what is counted but unacknowledged in every interleaving
      exactly for streams with a quiet start; without events of time 0, exactly for those of at
      most one event more than the rotation count. */
  lemma RotationBoundIff(stream: seq<int>)
    ensures (forall moves :: Unacknowledged(Run(stream, Start(), moves)) <= 1024) <==> QuietStart(stream)
  {
    if QuietStart(stream) {
      forall moves
        ensures Unacknowledged(Run(stream, Start(), moves)) <= ACK_ROTATION_CNT
      {
        QuietStartBoundsWindow(stream, moves);
      }
    } else {
      var j :| 0 <= j < |stream| - (ACK_ROTATION_CNT + 1) && stream[j] != NO_TIMESTAMP;
      var r := WindowExceeded(stream, j);
      var moves := MovesTo(stream, r);
      assert Unacknowledged(Run(stream, Start(), moves)) > ACK_ROTATION_CNT;
    }
  }
}
