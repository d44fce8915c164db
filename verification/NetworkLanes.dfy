/**
 The lanes of one network request, forward or backward: each store is opened at the cursor, which
 is only a key, and read up to its first record that does not deserialize.
 */
module NetworkLanes {
  import opened Wrappers
  import opened Sequences
  import opened Bytes
  import opened StorageKeys
  import opened EventStore
  import opened Paging
  import opened NetworkMerge
  import opened NetworkPaging

  // ----- the lane of one store

  /** The raw records one store offers, in reading order: the scan starts at the cursor itself. */
  function Scan<T>(store: seq<Entry<T>>, b: Bounds, isForward: bool, cursor: Option<Key>): seq<Entry<T>> {
    if isForward then
      Slice(store, LowerIndex(store, if cursor.Some? then cursor.value else b.lower), UpperIndex(store, b.upper))
    else
      Reverse(Slice(store, LowerIndex(store, b.lower),
                    UpperIndex(store, if cursor.Some? then cursor.value else b.upper)))
  }

  /** The filtered scan, less a first record that is the cursor itself. */
  function StoreLane<T>(store: seq<Entry<T>>, b: Bounds, check: T -> bool, isForward: bool,
                        cursor: Option<Key>): seq<Entry<T>>
  {
    var lane := Lane(Scan(store, b, isForward, cursor), check);
    if cursor.Some? && lane != [] && lane[0].key == cursor.value then lane[1..] else lane
  }

  /** The scan and the peek that skips the cursor leave exactly that lane in the iterator. */
  method OpenLane<T>(store: seq<Entry<T>>, b: Bounds, check: T -> bool, isForward: bool, cursor: Option<Key>)
    returns (iter: FilteredIter<T>)
    requires Sorted(store)
    ensures fresh(iter) && fresh(iter.inner) && iter.inner.Valid()
    ensures Yields(iter) == StoreLane(store, b, check, isForward, cursor)
  {
    iter := OpenScan(store, b, check, isForward, cursor);
    if cursor.Some? {
      var peekable := OpenScan(store, b, check, isForward, cursor);
      var peeked := peekable.Next();
      if peeked.Some? && peeked.value.key == cursor.value {
        var _ := iter.Next();
      }
    }
  }

  method OpenScan<T>(store: seq<Entry<T>>, b: Bounds, check: T -> bool, isForward: bool, cursor: Option<Key>)
    returns (iter: FilteredIter<T>)
    requires Sorted(store)
    ensures fresh(iter) && fresh(iter.inner) && iter.inner.Valid()
    ensures Yields(iter) == Lane(Scan(store, b, isForward, cursor), check)
  {
    var inner;
    if isForward {
      var from := if cursor.Some? then cursor.value else b.lower;
      inner := new BoundaryIter(store, from, b.upper, Forward);
      ForwardScan(store, from, b.upper);
    } else {
      var from := if cursor.Some? then cursor.value else b.upper;
      inner := new BoundaryIter(store, from, b.lower, Reversed);
      BackwardScan(store, b.lower, from);
    }
    iter := new FilteredIter(inner, check);
  }

  // ----- unreadable records in a run

  predicate UnreadableIn<T>(s: seq<Entry<T>>, n: nat)
    requires n <= |s|
  {
    exists i :: 0 <= i < n && s[i].value.None?
  }

  lemma UnreadableBehind<T>(s: seq<Entry<T>>, j: nat)
    requires 0 < j <= |s| && s[0].value.Some?
    ensures UnreadableIn(s, j) <==> UnreadableIn(s[1..], j - 1)
  {
    if i :| 0 <= i < j && s[i].value.None? {
      assert s[1..][i - 1].value.None?;
    }
  }

  lemma LaneOfReadable<T>(s: seq<Entry<T>>, check: T -> bool)
    requires s != [] && s[0].value.Some?
    ensures Lane(s, check) == (if Hit(check, s[0]) then [s[0]] else []) + Lane(s[1..], check)
  {
    assert DecodablePrefix(s)[1..] == DecodablePrefix(s[1..]);
  }

  /** Every accepted record has an unreadable one in front of it. */
  ghost predicate NothingReached<T>(s: seq<Entry<T>>, check: T -> bool) {
    forall j :: 0 <= j < |s| && Hit(check, s[j]) ==> UnreadableIn(s, j)
  }

  lemma {:induction false} LaneEmptyIff<T>(s: seq<Entry<T>>, check: T -> bool)
    ensures Lane(s, check) == [] <==> NothingReached(s, check)
  {
    if s != [] {
      LaneEmptyIff(s[1..], check);
      if s[0].value.None? {
        assert forall j :: 0 < j < |s| ==> UnreadableIn(s, j);
      } else {
        LaneOfReadable(s, check);
        NothingReachedStep(s, check);
      }
    }
  }

  lemma NothingReachedStep<T>(s: seq<Entry<T>>, check: T -> bool)
    requires s != [] && s[0].value.Some?
    ensures NothingReached(s, check) <==> !Hit(check, s[0]) && NothingReached(s[1..], check)
  {
    var rest := s[1..];
    forall j {:trigger s[j]} | 0 < j < |s|
      ensures s[j] == rest[j - 1] && (UnreadableIn(s, j) <==> UnreadableIn(rest, j - 1))
    {
      UnreadableBehind(s, j);
    }
    if NothingReached(s, check) {
      forall j | 0 <= j < |rest| && Hit(check, rest[j])
        ensures UnreadableIn(rest, j)
      {
        assert s[j + 1] == rest[j];
      }
    }
  }

  /** No accepted record has an unreadable one in front of it. */
  ghost predicate Reached<T>(run: seq<Entry<T>>, check: T -> bool) {
    forall j :: 0 <= j < |run| && Hit(check, run[j]) ==> !UnreadableIn(run, j)
  }

  lemma ReachedStep<T>(run: seq<Entry<T>>, check: T -> bool)
    requires run != [] && run[0].value.Some?
    ensures Reached(run, check) <==> Reached(run[1..], check)
  {
    var rest := run[1..];
    forall j {:trigger run[j]} | 0 < j < |run|
      ensures run[j] == rest[j - 1] && (UnreadableIn(run, j) <==> UnreadableIn(rest, j - 1))
    {
      UnreadableBehind(run, j);
    }
    if Reached(run, check) {
      forall j | 0 <= j < |rest| && Hit(check, rest[j])
        ensures !UnreadableIn(rest, j)
      {
        assert run[j + 1] == rest[j];
      }
    }
  }

  /** The filtering iterator yields every accepted record exactly when each is reached. */
  lemma {:induction false} ReachedIff<T>(run: seq<Entry<T>>, check: T -> bool)
    ensures Lane(run, check) == Hits(run, check) <==> Reached(run, check)
  {
    if run != [] {
      ReachedIff(run[1..], check);
      if run[0].value.Some? {
        LaneOfReadable(run, check);
        ReachedStep(run, check);
        SamePrefix(if Hit(check, run[0]) then [run[0]] else [], Lane(run[1..], check), Hits(run[1..], check));
      } else {
        assert Hits(run, check) == [] + Hits(run[1..], check) == Hits(run[1..], check);
        HitsEmptyIff(run, check);
        assert forall j :: 0 < j < |run| ==> UnreadableIn(run, j);
      }
    }
  }

  lemma {:induction false} HitsEmptyIff<T>(s: seq<Entry<T>>, check: T -> bool)
    ensures Hits(s, check) == [] <==> forall j :: 0 <= j < |s| ==> !Hit(check, s[j])
  {
    if s != [] {
      HitsEmptyIff(s[1..], check);
      assert forall j {:trigger s[j]} :: 0 < j < |s| ==> s[j] == s[1..][j - 1];
    }
  }

  lemma {:induction false} PrefixMember<T>(s: seq<Entry<T>>, e: Entry<T>)
    requires e in DecodablePrefix(s)
    ensures e in s
  {
    if e != s[0] {
      PrefixMember(s[1..], e);
    }
  }

  lemma LaneMember<T>(s: seq<Entry<T>>, check: T -> bool, e: Entry<T>)
    requires e in Lane(s, check)
    ensures e in s && Hit(check, e)
  {
    HitsMembers(DecodablePrefix(s), check, e);
    PrefixMember(s, e);
  }

  ghost predicate AllDecode<T>(s: seq<Entry<T>>) {
    forall i :: 0 <= i < |s| ==> s[i].value.Some?
  }

  lemma {:induction false} DecodablePrefixSplit<T>(a: seq<Entry<T>>, c: seq<Entry<T>>)
    ensures DecodablePrefix(a + c) == if AllDecode(a) then a + DecodablePrefix(c) else DecodablePrefix(a)
    ensures AllDecode(a) ==> DecodablePrefix(a) == a
  {
    if a == [] {
      assert a + c == c;
    } else {
      AllDecodeTail(a);
      DecodablePrefixSplit(a[1..], c);
      assert (a + c)[1..] == a[1..] + c;
      assert [a[0]] + a[1..] == a;
      Reassociate([a[0]], a[1..], DecodablePrefix(c));
    }
  }

  lemma AllDecodeTail<T>(s: seq<Entry<T>>)
    requires s != []
    ensures AllDecode(s) <==> s[0].value.Some? && AllDecode(s[1..])
  {
    assert forall i {:trigger s[i]} :: 0 < i < |s| ==> s[i] == s[1..][i - 1];
  }

  // ----- cutting a run at a time

  lemma {:induction false} LaneAllAfter<T>(s: seq<Entry<T>>, check: T -> bool, isForward: bool, t: int)
    requires AllAfter(s, isForward, t)
    ensures AllAfter(Lane(s, check), isForward, t)
  {
    forall i | 0 <= i < |Lane(s, check)|
      ensures Earlier(isForward, t, Time(Lane(s, check)[i]))
    {
      LaneMember(s, check, Lane(s, check)[i]);
    }
  }

  lemma {:induction false} LaneKeepsOrder<T>(s: seq<Entry<T>>, check: T -> bool, isForward: bool)
    requires LaneOrdered(s, isForward)
    ensures LaneOrdered(Lane(s, check), isForward)
  {
    if s != [] && s[0].value.Some? {
      TailAfterHead(s, isForward);
      LaneKeepsOrder(s[1..], check, isForward);
      LaneAllAfter(s[1..], check, isForward, Time(s[0]));
      LaneOfReadable(s, check);
      if Hit(check, s[0]) {
        ConsOrdered(s[0], Lane(s[1..], check), isForward);
      }
    }
  }

  ghost predicate NoneAfter<T>(s: seq<Entry<T>>, isForward: bool, t: int) {
    forall i :: 0 <= i < |s| ==> !Earlier(isForward, t, Time(s[i]))
  }

  ghost predicate NoneBefore<T>(s: seq<Entry<T>>, isForward: bool, t: int) {
    forall i :: 0 <= i < |s| ==> !Earlier(isForward, Time(s[i]), t)
  }

  lemma LaneNoneAfter<T>(s: seq<Entry<T>>, check: T -> bool, isForward: bool, t: int)
    requires NoneAfter(s, isForward, t)
    ensures NoneAfter(Lane(s, check), isForward, t)
  {
    forall i | 0 <= i < |Lane(s, check)|
      ensures !Earlier(isForward, t, Time(Lane(s, check)[i]))
    {
      LaneMember(s, check, Lane(s, check)[i]);
    }
  }

  lemma LaneNoneBefore<T>(s: seq<Entry<T>>, check: T -> bool, isForward: bool, t: int)
    requires NoneBefore(s, isForward, t)
    ensures NoneBefore(Lane(s, check), isForward, t)
  {
    forall i | 0 <= i < |Lane(s, check)|
      ensures !Earlier(isForward, Time(Lane(s, check)[i]), t)
    {
      LaneMember(s, check, Lane(s, check)[i]);
    }
  }

  lemma {:induction false} NothingAfter<T>(s: seq<Entry<T>>, isForward: bool, t: int)
    requires NoneAfter(s, isForward, t)
    ensures AfterTime(s, isForward, t) == []
  {
    if s != [] {
      assert NoneAfter(s[1..], isForward, t);
      NothingAfter(s[1..], isForward, t);
    }
  }

  lemma {:induction false} EverythingAfter<T>(s: seq<Entry<T>>, isForward: bool, t: int)
    requires AllAfter(s, isForward, t)
    ensures AfterTime(s, isForward, t) == s
  {
    if s != [] {
      assert AllAfter(s[1..], isForward, t);
      EverythingAfter(s[1..], isForward, t);
    }
  }

  /** After time t of an ordered run that starts at t: the run less a first record of time t. */
  lemma AfterStart<T>(s: seq<Entry<T>>, isForward: bool, t: int)
    requires LaneOrdered(s, isForward) && NoneBefore(s, isForward, t)
    ensures AfterTime(s, isForward, t) == if s != [] && Time(s[0]) == t then s[1..] else s
  {
    if s != [] {
      TailAfterHead(s, isForward);
      assert [s[0]] + s[1..] == s;
      if Time(s[0]) == t {
        EverythingAfter(s[1..], isForward, t);
      } else {
        StartsAfter(s, isForward, t);
        EverythingAfter(s, isForward, t);
      }
    }
  }

  lemma StartsAfter<T>(s: seq<Entry<T>>, isForward: bool, t: int)
    requires s != [] && LaneOrdered(s, isForward) && NoneBefore(s, isForward, t) && Time(s[0]) != t
    ensures AllAfter(s, isForward, t)
  {
    assert forall i :: 0 < i < |s| ==> Earlier(isForward, Time(s[0]), Time(s[i]));
  }

  /** An ordered run, cut where the records before a time end. */
  ghost predicate CutAt<T>(run: seq<Entry<T>>, isForward: bool, t: int, early: seq<Entry<T>>, late: seq<Entry<T>>) {
    && run == early + late && LaneOrdered(late, isForward)
    && (forall i :: 0 <= i < |early| ==> Earlier(isForward, Time(early[i]), t))
    && NoneBefore(late, isForward, t)
  }

  /** The later part of the run's lane is the lane of the later part, unless an unreadable record
      in the earlier part hides what the later part still shows. */
  lemma LaneCutIff<T>(run: seq<Entry<T>>, isForward: bool, check: T -> bool, t: int,
                      early: seq<Entry<T>>, late: seq<Entry<T>>)
    requires CutAt(run, isForward, t, early, late)
    ensures AfterTime(Lane(run, check), isForward, t) == AfterTime(Lane(late, check), isForward, t)
       <==> AllDecode(early) || AfterTime(Lane(late, check), isForward, t) == []
  {
    DecodablePrefixSplit(early, late);
    assert NoneAfter(early, isForward, t);
    LaneNoneAfter(early, check, isForward, t);
    NothingAfter(Lane(early, check), isForward, t);
    if AllDecode(early) {
      HitsConcat(early, DecodablePrefix(late), check);
      AfterTimeConcat(Hits(early, check), Lane(late, check), isForward, t);
    }
  }

  // ----- where a cursor cuts the scan of a store

  /** Every record between two positions has a key of this prefix, of a time not before the epoch. */
  ghost predicate Timed<T>(store: seq<Entry<T>>, prefix: Key, from: nat, to: nat)
    requires from <= to <= |store|
  {
    forall i :: from <= i < to ==> IsTimed(store[i], prefix)
  }

  predicate IsTimed<T>(e: Entry<T>, prefix: Key) {
    |e.key| > TIMESTAMP_SIZE && e.key == prefix + ToBeBytes(TimestampOf(e.key)) && TimestampOf(e.key) >= 0
  }

  /** A sorted store whose records inside the bounds share everything but the time. */
  ghost predicate SourcedStore<T>(store: seq<Entry<T>>, b: Bounds, prefix: Key) {
    && Sorted(store)
    && (LowerIndex(store, b.lower) <= UpperIndex(store, b.upper) ==>
          Timed(store, prefix, LowerIndex(store, b.lower), UpperIndex(store, b.upper)))
  }

  ghost predicate Sourced<T>(stores: seq<seq<Entry<T>>>, b: Bounds, prefix: Key) {
    forall k :: 0 <= k < |stores| ==> SourcedStore(stores[k], b, prefix)
  }

  /** The cursor lies inside the range read. */
  predicate InsideRange(b: Bounds, isForward: bool, cursor: Key) {
    if isForward then AtMost(b.lower, cursor) else AtMost(cursor, b.upper)
  }

  /** Comparing a record's key with a key of the same prefix compares their times. */
  lemma TimedKey<T>(e: Entry<T>, prefix: Key, t: I64)
    requires IsTimed(e, prefix) && t >= 0
    ensures Less(e.key, prefix + ToBeBytes(t)) <==> Time(e) < t
    ensures AtMost(e.key, prefix + ToBeBytes(t)) <==> Time(e) <= t
    ensures e.key == prefix + ToBeBytes(t) <==> Time(e) == t
  {
    SuffixOrder(prefix, TimestampOf(e.key), t);
    Trichotomy(prefix + ToBeBytes(t), prefix + ToBeBytes(t));
  }

  lemma TimedRun<T>(store: seq<Entry<T>>, prefix: Key, from: nat, to: nat)
    requires Sorted(store) && from <= to <= |store| && Timed(store, prefix, from, to)
    ensures LaneOrdered(store[from..to], true)
  {
    forall i, j | from <= i < j < to
      ensures Time(store[i]) < Time(store[j])
    {
      TimedKey(store[i], prefix, TimestampOf(store[j].key));
    }
  }

  lemma PositionMonotone<T>(store: seq<Entry<T>>, a: Key, c: Key)
    requires Sorted(store) && AtMost(a, c)
    ensures LowerIndex(store, a) <= LowerIndex(store, c) && UpperIndex(store, a) <= UpperIndex(store, c)
  {
    if a != c {
      IndexMonotone(store, a, c);
    }
  }

  lemma RunCut<T>(store: seq<Entry<T>>, a: nat, m: nat, u: nat)
    requires a <= m <= u <= |store| && LaneOrdered(store[a..u], true)
    ensures store[a..u] == store[a..m] + store[m..u]
    ensures LaneOrdered(store[a..m], true) && LaneOrdered(store[m..u], true)
  {
    var run := store[a..u];
    assert store[m..u] == run[m - a..] && store[a..m] == run[..m - a];
  }

  lemma CursorSplits<T>(store: seq<Entry<T>>, prefix: Key, cursor: Key, t: I64, a: nat, u: nat)
    requires Sorted(store) && a <= u <= |store| && Timed(store, prefix, a, u) && t >= 0
    requires cursor == prefix + ToBeBytes(t)
    ensures forall i :: a <= i < u ==> (i < LowerIndex(store, cursor) <==> Time(store[i]) < t)
    ensures forall i :: a <= i < u ==> (i < UpperIndex(store, cursor) <==> Time(store[i]) <= t)
  {
    IndexSplits(store, cursor);
    forall i | a <= i < u
      ensures i < LowerIndex(store, cursor) <==> Time(store[i]) < t
      ensures i < UpperIndex(store, cursor) <==> Time(store[i]) <= t
    {
      TimedKey(store[i], prefix, t);
    }
  }

  /** The run between two positions, cut at a third. */
  lemma CutUpwards<T>(store: seq<Entry<T>>, t: int, a: nat, m: nat, u: nat)
    requires a <= m <= u <= |store| && LaneOrdered(store[a..u], true)
    requires forall i :: a <= i < u ==> (i < m <==> Time(store[i]) < t)
    ensures CutAt(store[a..u], true, t, store[a..m], store[m..u])
  {
    RunCut(store, a, m, u);
  }

  lemma CutDownwards<T>(store: seq<Entry<T>>, t: int, a: nat, m: nat, u: nat)
    requires a <= m <= u <= |store| && LaneOrdered(store[a..u], true)
    requires forall i :: a <= i < u ==> (i < m <==> Time(store[i]) <= t)
    ensures CutAt(Reverse(store[a..u]), false, t, Reverse(store[m..u]), Reverse(store[a..m]))
  {
    RunCut(store, a, m, u);
    ReverseConcat(store[a..m], store[m..u]);
    TurnedCut(store[a..m], Reverse(store[a..m]), store[m..u], Reverse(store[m..u]), t);
  }

  /** A forward scan from a cursor is what remains of the whole one. */
  lemma ForwardCut<T>(store: seq<Entry<T>>, b: Bounds, prefix: Key, cursor: Key, t: I64) returns (early: seq<Entry<T>>)
    requires SourcedStore(store, b, prefix) && t >= 0 && cursor == prefix + ToBeBytes(t) && AtMost(b.lower, cursor)
    ensures CutAt(Scan(store, b, true, None), true, t, early, Scan(store, b, true, Some(cursor)))
  {
    var (a, u, c) := (LowerIndex(store, b.lower), UpperIndex(store, b.upper), LowerIndex(store, cursor));
    PositionMonotone(store, b.lower, cursor);
    early := [];
    if a <= u {
      var m := if c < u then c else u;
      TimedRun(store, prefix, a, u);
      CursorSplits(store, prefix, cursor, t, a, u);
      CutUpwards(store, t, a, m, u);
      SlicesBetween(store, a, m, u, c);
      early := store[a..m];
    }
  }

  lemma SlicesBetween<T>(s: seq<T>, a: nat, m: nat, u: nat, c: nat)
    requires a <= u <= |s| && c <= |s| && a <= c && m == if c < u then c else u
    ensures Slice(s, a, u) == s[a..u] && Slice(s, c, u) == s[m..u]
  {
  }

  /** The same downwards. */
  lemma BackwardCut<T>(store: seq<Entry<T>>, b: Bounds, prefix: Key, cursor: Key, t: I64) returns (early: seq<Entry<T>>)
    requires SourcedStore(store, b, prefix) && t >= 0 && cursor == prefix + ToBeBytes(t) && AtMost(cursor, b.upper)
    ensures CutAt(Scan(store, b, false, None), false, t, early, Scan(store, b, false, Some(cursor)))
  {
    var (a, u, c) := (LowerIndex(store, b.lower), UpperIndex(store, b.upper), UpperIndex(store, cursor));
    PositionMonotone(store, cursor, b.upper);
    early := [];
    if a <= u {
      var m := if c > a then c else a;
      TimedRun(store, prefix, a, u);
      CursorSplits(store, prefix, cursor, t, a, u);
      CutDownwards(store, t, a, m, u);
      SlicesBelow(store, a, m, u, c);
      early := Reverse(store[m..u]);
    }
  }

  lemma SlicesBelow<T>(s: seq<T>, a: nat, m: nat, u: nat, c: nat)
    requires a <= u <= |s| && c <= u && m == if c > a then c else a
    ensures Slice(s, a, u) == s[a..u] && Slice(s, a, c) == s[a..m]
  {
  }

  lemma TurnedCut<T>(low: seq<Entry<T>>, lowDown: seq<Entry<T>>, high: seq<Entry<T>>, highDown: seq<Entry<T>>, t: int)
    requires IsReverse(low, lowDown) && IsReverse(high, highDown) && LaneOrdered(low, true)
    requires forall i :: 0 <= i < |low| ==> Time(low[i]) <= t
    requires forall i :: 0 <= i < |high| ==> Time(high[i]) > t
    ensures CutAt(highDown + lowDown, false, t, highDown, lowDown)
  {
  }

  lemma ScanCut<T>(store: seq<Entry<T>>, b: Bounds, prefix: Key, isForward: bool, cursor: Key, t: I64)
    returns (early: seq<Entry<T>>)
    requires SourcedStore(store, b, prefix) && t >= 0 && cursor == prefix + ToBeBytes(t)
    requires InsideRange(b, isForward, cursor)
    ensures CutAt(Scan(store, b, isForward, None), isForward, t, early, Scan(store, b, isForward, Some(cursor)))
  {
    if isForward {
      early := ForwardCut(store, b, prefix, cursor, t);
    } else {
      early := BackwardCut(store, b, prefix, cursor, t);
    }
  }

  // ----- following up in one store

  lemma ScanTimed<T>(store: seq<Entry<T>>, b: Bounds, prefix: Key, isForward: bool, e: Entry<T>)
    requires SourcedStore(store, b, prefix) && e in Scan(store, b, isForward, None)
    ensures IsTimed(e, prefix)
  {
    var (a, u) := (LowerIndex(store, b.lower), UpperIndex(store, b.upper));
    ShownMembers(isForward, Slice(store, a, u), e);
    var i :| 0 <= i < |Slice(store, a, u)| && Slice(store, a, u)[i] == e;
    assert IsTimed(store[a + i], prefix);
  }

  lemma ShownMembers<T>(isForward: bool, s: seq<T>, e: T)
    ensures e in Shown(isForward, s) <==> e in s
  {
    var r := Shown(isForward, s);
    if e in s {
      var i :| 0 <= i < |s| && s[i] == e;
      assert r[if isForward then i else |s| - 1 - i] == e;
    }
  }

  /** A record before the time in reading order does not deserialize. */
  ghost predicate UnreadableBefore<T>(run: seq<Entry<T>>, isForward: bool, t: int) {
    exists i :: 0 <= i < |run| && Earlier(isForward, Time(run[i]), t) && run[i].value.None?
  }

  lemma EarlyUnreadable<T>(run: seq<Entry<T>>, isForward: bool, t: int, early: seq<Entry<T>>, late: seq<Entry<T>>)
    requires CutAt(run, isForward, t, early, late)
    ensures UnreadableBefore(run, isForward, t) <==> !AllDecode(early)
  {
    assert forall i :: 0 <= i < |early| ==> run[i] == early[i];
    assert forall i :: |early| <= i < |run| ==> run[i] == late[i - |early|];
    if !AllDecode(early) {
      var i :| 0 <= i < |early| && early[i].value.None?;
      assert Earlier(isForward, Time(run[i]), t);
    }
  }

  /** Every accepted record behind the cursor has an unreadable one between the cursor and it. */
  ghost predicate NothingShows<T>(scan: seq<Entry<T>>, check: T -> bool, cursor: Key) {
    forall j :: 0 <= j < |scan| && scan[j].key != cursor && Hit(check, scan[j]) ==> UnreadableIn(scan, j)
  }

  /** A lane without a first record that is the cursor. */
  function LessCursor<T>(lane: seq<Entry<T>>, cursor: Key): seq<Entry<T>> {
    if lane != [] && lane[0].key == cursor then lane[1..] else lane
  }

  lemma FollowEmptyIff<T>(scan: seq<Entry<T>>, check: T -> bool, cursor: Key)
    requires forall i :: 0 < i < |scan| ==> scan[i].key != cursor
    ensures LessCursor(Lane(scan, check), cursor) == [] <==> NothingShows(scan, check, cursor)
  {
    LessCursorIs(scan, check, cursor);
    if scan != [] && scan[0].key == cursor {
      if scan[0].value.None? {
        assert forall j :: 0 < j < |scan| ==> UnreadableIn(scan, j);
      } else {
        LaneEmptyIff(scan[1..], check);
        NothingShowsBehind(scan, check, cursor);
      }
    } else {
      LaneEmptyIff(scan, check);
      assert forall i :: 0 <= i < |scan| ==> scan[i].key != cursor;
    }
  }

  /** The follow-up lane: what is read behind the cursor's own record, or nothing when that record
      does not deserialize. */
  lemma LessCursorIs<T>(scan: seq<Entry<T>>, check: T -> bool, cursor: Key)
    requires forall i :: 0 < i < |scan| ==> scan[i].key != cursor
    ensures LessCursor(Lane(scan, check), cursor)
         == if scan == [] || scan[0].key != cursor then Lane(scan, check)
            else if scan[0].value.None? then [] else Lane(scan[1..], check)
  {
    if scan != [] && scan[0].key == cursor && scan[0].value.Some? {
      LaneOfReadable(scan, check);
      if Lane(scan[1..], check) != [] {
        LaneMember(scan[1..], check, Lane(scan[1..], check)[0]);
      }
    } else if Lane(scan, check) != [] {
      LaneMember(scan, check, Lane(scan, check)[0]);
    }
  }

  lemma NothingShowsBehind<T>(scan: seq<Entry<T>>, check: T -> bool, cursor: Key)
    requires scan != [] && scan[0].key == cursor && scan[0].value.Some?
    requires forall i :: 0 < i < |scan| ==> scan[i].key != cursor
    ensures NothingShows(scan, check, cursor) <==> NothingReached(scan[1..], check)
  {
    var rest := scan[1..];
    forall j {:trigger scan[j]} | 0 < j < |scan|
      ensures scan[j] == rest[j - 1] && (UnreadableIn(scan, j) <==> UnreadableIn(rest, j - 1))
    {
      UnreadableBehind(scan, j);
    }
    if NothingShows(scan, check, cursor) {
      forall j | 0 <= j < |rest| && Hit(check, rest[j])
        ensures UnreadableIn(rest, j)
      {
        assert scan[j + 1] == rest[j];
      }
    }
  }

  /** Behind a cut only the first record can have the cursor's key. */
  lemma CursorOnlyFirst<T>(late: seq<Entry<T>>, isForward: bool, prefix: Key, cursor: Key, t: I64)
    requires t >= 0 && cursor == prefix + ToBeBytes(t) && LaneOrdered(late, isForward) && NoneBefore(late, isForward, t)
    requires forall i :: 0 <= i < |late| ==> IsTimed(late[i], prefix)
    ensures forall i :: 0 <= i < |late| ==> (late[i].key == cursor <==> Time(late[i]) == t)
    ensures forall i :: 0 < i < |late| ==> late[i].key != cursor
  {
    forall i | 0 <= i < |late|
      ensures late[i].key == cursor <==> Time(late[i]) == t
    {
      TimedKey(late[i], prefix, t);
    }
    forall i | 0 < i < |late|
      ensures Time(late[i]) != t
    {
      assert Earlier(isForward, Time(late[0]), Time(late[i]));
    }
  }

  /** The scan of a store re-opened at a cursor, and the part of the whole scan before it. */
  ghost predicate Reopens<T>(store: seq<Entry<T>>, b: Bounds, isForward: bool, cursor: Key, t: int,
                             early: seq<Entry<T>>)
  {
    var late := Scan(store, b, isForward, Some(cursor));
    && CutAt(Scan(store, b, isForward, None), isForward, t, early, late)
    && (forall i :: 0 <= i < |late| ==> (late[i].key == cursor <==> Time(late[i]) == t))
    && (forall i :: 0 < i < |late| ==> late[i].key != cursor)
  }

  lemma StoreReopens<T>(store: seq<Entry<T>>, b: Bounds, prefix: Key, isForward: bool, cursor: Key, t: I64)
    returns (early: seq<Entry<T>>)
    requires SourcedStore(store, b, prefix) && t >= 0 && cursor == prefix + ToBeBytes(t)
    requires InsideRange(b, isForward, cursor)
    ensures Reopens(store, b, isForward, cursor, t, early)
  {
    early := ScanCut(store, b, prefix, isForward, cursor, t);
    var late := Scan(store, b, isForward, Some(cursor));
    forall i | 0 <= i < |late|
      ensures IsTimed(late[i], prefix)
    {
      assert (early + late)[|early| + i] == late[i];
      ScanTimed(store, b, prefix, isForward, late[i]);
    }
    CursorOnlyFirst(late, isForward, prefix, cursor, t);
  }

  /** The follow-up lane is what the lane of the later part of the scan has after the cursor's time. */
  lemma FollowIsAfter<T>(store: seq<Entry<T>>, b: Bounds, check: T -> bool, isForward: bool, cursor: Key, t: int,
                         early: seq<Entry<T>>)
    requires Reopens(store, b, isForward, cursor, t, early)
    ensures StoreLane(store, b, check, isForward, Some(cursor))
         == AfterTime(Lane(Scan(store, b, isForward, Some(cursor)), check), isForward, t)
  {
    var late := Scan(store, b, isForward, Some(cursor));
    LaneKeepsOrder(late, check, isForward);
    LaneNoneBefore(late, check, isForward, t);
    AfterStart(Lane(late, check), isForward, t);
    if Lane(late, check) != [] {
      LaneMember(late, check, Lane(late, check)[0]);
    }
  }

  /** The follow-up lane of one store is its first lane after the cursor's time exactly when no
      record before the cursor fails to deserialize, or nothing shows behind the cursor. */
  lemma StoreLaneAfterCursorIff<T>(store: seq<Entry<T>>, b: Bounds, check: T -> bool, prefix: Key, isForward: bool,
                                   cursor: Key, t: I64)
    requires SourcedStore(store, b, prefix) && t >= 0 && cursor == prefix + ToBeBytes(t)
    requires InsideRange(b, isForward, cursor)
    ensures StoreLane(store, b, check, isForward, Some(cursor))
         == AfterTime(StoreLane(store, b, check, isForward, None), isForward, t)
       <==> NothingResurfacesIn(store, b, check, isForward, cursor, t)
  {
    var early := StoreReopens(store, b, prefix, isForward, cursor, t);
    var (run, late) := (Scan(store, b, isForward, None), Scan(store, b, isForward, Some(cursor)));
    FollowIsAfter(store, b, check, isForward, cursor, t, early);
    LaneCutIff(run, isForward, check, t, early, late);
    EarlyUnreadable(run, isForward, t, early, late);
    FollowEmptyIff(late, check, cursor);
  }

  /** The store shows no record behind the cursor that its first lane did not reach. */
  ghost predicate NothingResurfacesIn<T>(store: seq<Entry<T>>, b: Bounds, check: T -> bool, isForward: bool,
                                         cursor: Key, t: int)
  {
    || !UnreadableBefore(Scan(store, b, isForward, None), isForward, t)
    || NothingShows(Scan(store, b, isForward, Some(cursor)), check, cursor)
  }

  /** Where every accepted record is reached, nothing resurfaces. */
  lemma ReachedFollows<T>(store: seq<Entry<T>>, b: Bounds, check: T -> bool, prefix: Key, isForward: bool, cursor: Key,
                          t: I64)
    requires SourcedStore(store, b, prefix) && t >= 0 && cursor == prefix + ToBeBytes(t)
    requires InsideRange(b, isForward, cursor) && Reached(Scan(store, b, isForward, None), check)
    ensures NothingResurfacesIn(store, b, check, isForward, cursor, t)
  {
    var early := StoreReopens(store, b, prefix, isForward, cursor, t);
    var (run, late) := (Scan(store, b, isForward, None), Scan(store, b, isForward, Some(cursor)));
    EarlyUnreadable(run, isForward, t, early, late);
    if !AllDecode(early) {
      NoneHitBehind(run, check, early, late);
    }
  }

  lemma NoneHitBehind<T>(run: seq<Entry<T>>, check: T -> bool, early: seq<Entry<T>>, late: seq<Entry<T>>)
    requires run == early + late && Reached(run, check) && !AllDecode(early)
    ensures forall j :: 0 <= j < |late| ==> !Hit(check, late[j])
  {
    var i :| 0 <= i < |early| && early[i].value.None?;
    assert run[i] == early[i];
    forall j | 0 <= j < |late|
      ensures !Hit(check, late[j])
    {
      assert run[|early| + j] == late[j];
      assert UnreadableIn(run, |early| + j);
    }
  }

  // ----- the follow-up page over all stores

  function StoreLanes<T>(stores: seq<seq<Entry<T>>>, b: Bounds, check: T -> bool, isForward: bool, cursor: Option<Key>)
    : (r: seq<seq<Entry<T>>>)
    ensures |r| == |stores|
    ensures forall k {:trigger r[k]} :: 0 <= k < |stores| ==> r[k] == StoreLane(stores[k], b, check, isForward, cursor)
  {
    if stores == [] then []
    else [StoreLane(stores[0], b, check, isForward, cursor)] + StoreLanes(stores[1..], b, check, isForward, cursor)
  }

  lemma StoreLaneOrdered<T>(store: seq<Entry<T>>, b: Bounds, check: T -> bool, prefix: Key, isForward: bool)
    requires SourcedStore(store, b, prefix)
    ensures LaneOrdered(StoreLane(store, b, check, isForward, None), isForward)
  {
    ScanOrdered(store, b, prefix, isForward);
    LaneKeepsOrder(Scan(store, b, isForward, None), check, isForward);
  }

  lemma ScanOrdered<T>(store: seq<Entry<T>>, b: Bounds, prefix: Key, isForward: bool)
    requires SourcedStore(store, b, prefix)
    ensures LaneOrdered(Scan(store, b, isForward, None), isForward)
  {
    var (a, u) := (LowerIndex(store, b.lower), UpperIndex(store, b.upper));
    if a <= u {
      TimedRun(store, prefix, a, u);
      TurnedOrder(store[a..u], Reverse(store[a..u]));
    }
  }

  lemma TurnedOrder<T>(run: seq<Entry<T>>, down: seq<Entry<T>>)
    requires IsReverse(run, down) && LaneOrdered(run, true)
    ensures LaneOrdered(down, false)
  {
  }

  lemma FirstLanesOrdered<T>(stores: seq<seq<Entry<T>>>, b: Bounds, check: T -> bool, prefix: Key, isForward: bool)
    requires Sourced(stores, b, prefix)
    ensures LanesOrdered(StoreLanes(stores, b, check, isForward, None), isForward)
  {
    forall k | 0 <= k < |stores|
      ensures LaneOrdered(StoreLane(stores[k], b, check, isForward, None), isForward)
    {
      assert SourcedStore(stores[k], b, prefix);
      StoreLaneOrdered(stores[k], b, check, prefix, isForward);
    }
  }

  ghost predicate NothingResurfaces<T>(stores: seq<seq<Entry<T>>>, b: Bounds, check: T -> bool, isForward: bool,
                                       cursor: Key, t: int)
  {
    forall k :: 0 <= k < |stores| ==> NothingResurfacesIn(stores[k], b, check, isForward, cursor, t)
  }

  /** Lanes can be read off their merge. */
  lemma MergesAgreeIff<T>(a: seq<seq<Entry<T>>>, b: seq<seq<Entry<T>>>, isForward: bool)
    requires |a| == |b|
    ensures Merge(a, isForward) == Merge(b, isForward) <==> a == b
  {
    if Merge(a, isForward) == Merge(b, isForward) {
      forall k | 0 <= k < |a|
        ensures a[k] == b[k]
      {
        MergeProjects(a, isForward, k);
        MergeProjects(b, isForward, k);
      }
    }
  }

  lemma LanesFollowIff<T>(stores: seq<seq<Entry<T>>>, b: Bounds, check: T -> bool, prefix: Key, isForward: bool,
                          cursor: Key, t: I64)
    requires Sourced(stores, b, prefix) && t >= 0 && cursor == prefix + ToBeBytes(t)
    requires InsideRange(b, isForward, cursor)
    ensures StoreLanes(stores, b, check, isForward, Some(cursor))
         == AfterTimes(StoreLanes(stores, b, check, isForward, None), isForward, t)
       <==> NothingResurfaces(stores, b, check, isForward, cursor, t)
  {
    var (follow, cut) := (StoreLanes(stores, b, check, isForward, Some(cursor)),
                          AfterTimes(StoreLanes(stores, b, check, isForward, None), isForward, t));
    if follow == cut {
      forall k | 0 <= k < |stores|
        ensures NothingResurfacesIn(stores[k], b, check, isForward, cursor, t)
      {
        LaneFollowsIff(stores, b, check, prefix, isForward, cursor, t, k);
      }
    }
    if NothingResurfaces(stores, b, check, isForward, cursor, t) {
      forall k | 0 <= k < |stores|
        ensures follow[k] == cut[k]
      {
        LaneFollowsIff(stores, b, check, prefix, isForward, cursor, t, k);
      }
    }
  }

  lemma LaneFollowsIff<T>(stores: seq<seq<Entry<T>>>, b: Bounds, check: T -> bool, prefix: Key, isForward: bool,
                          cursor: Key, t: I64, k: nat)
    requires Sourced(stores, b, prefix) && t >= 0 && cursor == prefix + ToBeBytes(t)
    requires InsideRange(b, isForward, cursor)
    requires k < |stores|
    ensures StoreLanes(stores, b, check, isForward, Some(cursor))[k]
         == AfterTimes(StoreLanes(stores, b, check, isForward, None), isForward, t)[k]
       <==> NothingResurfacesIn(stores[k], b, check, isForward, cursor, t)
  {
    assert SourcedStore(stores[k], b, prefix);
    StoreLaneAfterCursorIff(stores[k], b, check, prefix, isForward, cursor, t);
  }

  /** What a query demands of the stores it reads. */
  ghost predicate Serves<T>(stores: seq<seq<Entry<T>>>, q: Query<T>) {
    WellFormedQuery(Plain, q) && forall k :: 0 <= k < |stores| ==> WellFormed(Plain, stores[k])
  }

  lemma ServedStoresAreSourced<T>(stores: seq<seq<Entry<T>>>, q: Query<T>)
    requires Serves(stores, q)
    ensures Sourced(stores, BoundsOf(q), KeyPrefix(q.start, q.mid))
  {
    forall k | 0 <= k < |stores|
      ensures SourcedStore(stores[k], BoundsOf(q), KeyPrefix(q.start, q.mid))
    {
      StoreTimed(stores[k], q);
    }
  }

  lemma StoreTimed<T>(store: seq<Entry<T>>, q: Query<T>)
    requires WellFormed(Plain, store) && WellFormedQuery(Plain, q)
    ensures SourcedStore(store, BoundsOf(q), KeyPrefix(q.start, q.mid))
  {
    var (a, u) := (LowerIndex(store, BoundsOf(q).lower), UpperIndex(store, BoundsOf(q).upper));
    forall i | a <= i < u
      ensures IsTimed(store[i], KeyPrefix(q.start, q.mid))
    {
      RangePositions(Plain, store, q.start, q.mid, LowerClosedBound(q.from), UpperOpenBound(q.until), i);
      TimestampRoundTrip(q.start, q.mid, TimestampOf(store[i].key));
    }
  }

  /** The page behind a cursor is read from the part of the first page's merge behind the
      cursor's time exactly when nothing resurfaces in any store. */
  lemma FollowUpMergeIff<T>(stores: seq<seq<Entry<T>>>, q: Query<T>, isForward: bool, t: I64)
    requires Serves(stores, q) && t >= 0 && InsideRange(BoundsOf(q), isForward, StorageKey(q.start, q.mid, t))
    ensures Merge(StoreLanes(stores, BoundsOf(q), q.check, isForward, Some(StorageKey(q.start, q.mid, t))), isForward)
         == MergedAfter(Merge(StoreLanes(stores, BoundsOf(q), q.check, isForward, None), isForward), isForward, t)
       <==> NothingResurfaces(stores, BoundsOf(q), q.check, isForward, StorageKey(q.start, q.mid, t), t)
  {
    ServedStoresAreSourced(stores, q);
    FollowUpMerge(stores, BoundsOf(q), q.check, KeyPrefix(q.start, q.mid), isForward, StorageKey(q.start, q.mid, t), t);
  }

  lemma FollowUpMerge<T>(stores: seq<seq<Entry<T>>>, b: Bounds, check: T -> bool, prefix: Key, isForward: bool,
                         cursor: Key, t: I64)
    requires Sourced(stores, b, prefix) && t >= 0 && cursor == prefix + ToBeBytes(t)
    requires InsideRange(b, isForward, cursor)
    ensures Merge(StoreLanes(stores, b, check, isForward, Some(cursor)), isForward)
         == MergedAfter(Merge(StoreLanes(stores, b, check, isForward, None), isForward), isForward, t)
       <==> NothingResurfaces(stores, b, check, isForward, cursor, t)
  {
    var (first, follow) := (StoreLanes(stores, b, check, isForward, None),
                            StoreLanes(stores, b, check, isForward, Some(cursor)));
    FirstLanesOrdered(stores, b, check, prefix, isForward);
    MergeOfLaterRecords(first, isForward, t);
    MergesAgreeIff(follow, AfterTimes(first, isForward, t), isForward);
    LanesFollowIff(stores, b, check, prefix, isForward, cursor, t);
  }

  // ----- a record that resurfaces

  /** A concrete store: behind an unreadable record the first page ends, and a page after a
      later cursor shows the record behind it. */
  lemma ResurfacingExample<T>(q: Query<T>, a: T, c: T)
    requires WellFormedQuery(Plain, q) && q.from == None && q.until == None && q.check(a) && q.check(c)
    ensures var store := [Entry(StorageKey(q.start, q.mid, 1), Some(a)), Entry(StorageKey(q.start, q.mid, 2), None),
                          Entry(StorageKey(q.start, q.mid, 4), Some(c))];
            var b := BoundsOf(q);
            && WellFormed(Plain, store)
            && StoreLane(store, b, q.check, true, None) == [store[0]]
            && StoreLane(store, b, q.check, true, Some(StorageKey(q.start, q.mid, 3))) == [store[2]]
  {
    var store := [Entry(StorageKey(q.start, q.mid, 1), Some(a)), Entry(StorageKey(q.start, q.mid, 2), None),
                  Entry(StorageKey(q.start, q.mid, 4), Some(c))];
    ExampleStore(q, store);
    ExampleLanes(store, q.check);
    ExampleScans(store, BoundsOf(q), StorageKey(q.start, q.mid, 3));
    SuffixOrder(KeyPrefix(q.start, q.mid), 3, 4);
    Trichotomy(StorageKey(q.start, q.mid, 3), StorageKey(q.start, q.mid, 4));
  }

  lemma ExampleScans<T>(store: seq<Entry<T>>, b: Bounds, cursor: Key)
    requires |store| == 3 && LowerIndex(store, b.lower) == 0 && UpperIndex(store, b.upper) == 3
    requires LowerIndex(store, cursor) == 2
    ensures Scan(store, b, true, None) == store && Scan(store, b, true, Some(cursor)) == [store[2]]
  {
  }

  lemma ExampleLanes<T>(store: seq<Entry<T>>, check: T -> bool)
    requires |store| == 3 && Hit(check, store[0]) && store[1].value.None? && Hit(check, store[2])
    ensures Lane(store, check) == [store[0]] && Lane([store[2]], check) == [store[2]]
  {
    LaneOfReadable(store, check);
    assert store[1..][0] == store[1];
    LaneOfReadable([store[2]], check);
    assert [store[2]][1..] == [];
  }

  lemma ExampleStore<T>(q: Query<T>, store: seq<Entry<T>>)
    requires WellFormedQuery(Plain, q) && q.from == None && q.until == None && |store| == 3
    requires store[0].key == StorageKey(q.start, q.mid, 1) && store[1].key == StorageKey(q.start, q.mid, 2)
    requires store[2].key == StorageKey(q.start, q.mid, 4)
    ensures WellFormed(Plain, store)
    ensures LowerIndex(store, BoundsOf(q).lower) == 0 && UpperIndex(store, BoundsOf(q).upper) == 3
    ensures LowerIndex(store, StorageKey(q.start, q.mid, 3)) == 2
  {
    var prefix := KeyPrefix(q.start, q.mid);
    assert EventParts(Plain, q.start, q.mid, 1) && EventParts(Plain, q.start, q.mid, 2);
    assert EventParts(Plain, q.start, q.mid, 4);
    ExampleSorted(store, prefix);
    ExampleIndex(store, prefix, 0, 0);
    ExampleIndex(store, prefix, 3, 2);
    ExampleIndex(store, prefix, I64_MAX, 3);
  }

  lemma ExampleSorted<T>(store: seq<Entry<T>>, prefix: Key)
    requires |store| == 3
    requires store[0].key == prefix + ToBeBytes(1) && store[1].key == prefix + ToBeBytes(2)
    requires store[2].key == prefix + ToBeBytes(4)
    ensures Sorted(store)
  {
    SuffixOrder(prefix, 1, 2);
    SuffixOrder(prefix, 1, 4);
    SuffixOrder(prefix, 2, 4);
  }

  lemma ExampleIndex<T>(store: seq<Entry<T>>, prefix: Key, t: I64, n: nat)
    requires Sorted(store) && |store| == 3 && t >= 0
    requires store[0].key == prefix + ToBeBytes(1) && store[1].key == prefix + ToBeBytes(2)
    requires store[2].key == prefix + ToBeBytes(4)
    requires n == (if t < 1 then 0 else if t < 2 then 1 else if t < 4 then 2 else 3) && t !in {1, 2, 4}
    ensures LowerIndex(store, prefix + ToBeBytes(t)) == UpperIndex(store, prefix + ToBeBytes(t)) == n
  {
    var key := prefix + ToBeBytes(t);
    IndexSplits(store, key);
    SuffixOrder(prefix, 1, t);
    SuffixOrder(prefix, 2, t);
    SuffixOrder(prefix, 4, t);
  }
}
