/**
 A client that pages over several stores: each request opens every store anew at the key of the
 last record read, forward or backward. What the pages hold together depends on ties across
 stores and on records that do not deserialize.
 */
module NetworkClient {
  import opened Wrappers
  import opened Sequences
  import opened Bytes
  import opened StorageKeys
  import opened EventStore
  import opened Paging
  import opened NetworkMerge
  import opened NetworkPaging
  import opened NetworkLanes

  // ----- a cursor moves on

  ghost predicate AllSorted<T>(stores: seq<seq<Entry<T>>>) {
    forall k :: 0 <= k < |stores| ==> Sorted(stores[k])
  }

  /** A request with this cursor is not refused as invalid. */
  predicate Accepts(b: Bounds, isForward: bool, cursor: Key) {
    if isForward then AtMost(b.lower, cursor) else AtMost(cursor, b.closedUpper)
  }

  ghost predicate Accepted(b: Bounds, isForward: bool, cursor: Option<Key>) {
    cursor.Some? ==> Accepts(b, isForward, cursor.value)
  }

  predicate KeyEarlier(isForward: bool, a: Key, b: Key) {
    if isForward then Less(a, b) else Less(b, a)
  }

  /** The next cursor lies behind the one before, or inside the range when there is none. */
  predicate MovesOn(b: Bounds, isForward: bool, cursor: Option<Key>, next: Key) {
    if cursor.Some? then KeyEarlier(isForward, cursor.value, next) else InsideRange(b, isForward, next)
  }

  /** The raw records of one store behind the cursor, oldest first. */
  function Raw<T>(store: seq<Entry<T>>, b: Bounds, isForward: bool, cursor: Option<Key>): seq<Entry<T>> {
    if isForward then RawForward(store, b, cursor) else RawBackward(store, b, cursor)
  }

  /** Raw records behind the cursor, in all stores. */
  function Left<T>(stores: seq<seq<Entry<T>>>, b: Bounds, isForward: bool, cursor: Option<Key>): nat {
    if stores == [] then 0 else |Raw(stores[0], b, isForward, cursor)| + Left(stores[1..], b, isForward, cursor)
  }

  /** What a scan offers behind the cursor's own record. */
  lemma ScanRest<T>(store: seq<Entry<T>>, b: Bounds, isForward: bool, cursor: Key)
    requires Sorted(store)
    ensures var scan := Scan(store, b, isForward, Some(cursor));
            Shown(isForward, Raw(store, b, isForward, Some(cursor)))
            == if scan != [] && scan[0].key == cursor then scan[1..] else scan
  {
    if isForward {
      SkipCursorForward(store, b.upper, cursor);
      ForwardScan(store, cursor, b.upper);
    } else {
      SkipCursorBackward(store, b.lower, cursor);
      BackwardScan(store, b.lower, cursor);
    }
  }

  lemma RawPastCursor<T>(store: seq<Entry<T>>, b: Bounds, isForward: bool, cursor: Key, e: Entry<T>)
    requires Sorted(store) && e in Raw(store, b, isForward, Some(cursor))
    ensures KeyEarlier(isForward, cursor, e.key) && e.key != cursor
  {
    var i :| 0 <= i < |Raw(store, b, isForward, Some(cursor))| && Raw(store, b, isForward, Some(cursor))[i] == e;
    var n := i + if isForward then UpperIndex(store, cursor) else LowerIndex(store, b.lower);
    assert store[n] == e;
    IndexSplits(store, cursor);
    TotalOrder(e.key, cursor, e.key);
    Trichotomy(e.key, cursor);
  }

  /** Each record of a lane is a raw record behind the cursor. */
  lemma StoreLaneMember<T>(store: seq<Entry<T>>, b: Bounds, check: T -> bool, isForward: bool, cursor: Option<Key>,
                           e: Entry<T>)
    requires Sorted(store) && e in StoreLane(store, b, check, isForward, cursor)
    ensures e in Raw(store, b, isForward, cursor) && Hit(check, e)
  {
    var scan := Scan(store, b, isForward, cursor);
    if cursor.None? {
      LaneMember(scan, check, e);
      ShownMembers(isForward, Raw(store, b, isForward, None), e);
    } else {
      ScanRest(store, b, isForward, cursor.value);
      CursorOnce(store, b, isForward, cursor.value);
      LessCursorIs(scan, check, cursor.value);
      LaneMember(if scan != [] && scan[0].key == cursor.value then scan[1..] else scan, check, e);
      ShownMembers(isForward, Raw(store, b, isForward, cursor), e);
    }
  }

  lemma CursorOnce<T>(store: seq<Entry<T>>, b: Bounds, isForward: bool, cursor: Key)
    requires Sorted(store)
    ensures var scan := Scan(store, b, isForward, Some(cursor));
            forall i :: 0 < i < |scan| ==> scan[i].key != cursor
  {
    var scan := Scan(store, b, isForward, Some(cursor));
    var raw := Raw(store, b, isForward, Some(cursor));
    ScanRest(store, b, isForward, cursor);
    forall i | 0 < i < |scan|
      ensures scan[i].key != cursor
    {
      assert scan[i] in Shown(isForward, raw);
      ShownMembers(isForward, raw, scan[i]);
      RawPastCursor(store, b, isForward, cursor, scan[i]);
    }
  }

  /** Moving the cursor to a record behind it leaves fewer raw records in that store. */
  lemma CursorShrinks<T>(store: seq<Entry<T>>, b: Bounds, isForward: bool, cursor: Option<Key>, e: Entry<T>)
    requires Sorted(store) && Accepted(b, isForward, cursor) && e in Raw(store, b, isForward, cursor)
    ensures MovesOn(b, isForward, cursor, e.key) && (isForward ==> AtMost(b.lower, e.key))
    ensures |Raw(store, b, isForward, Some(e.key))| < |Raw(store, b, isForward, cursor)|
  {
    var i :| 0 <= i < |Raw(store, b, isForward, cursor)| && Raw(store, b, isForward, cursor)[i] == e;
    if isForward {
      CursorContinuesForward(store, b, cursor, i);
    } else {
      CursorContinuesBackward(store, b, cursor, i);
    }
    if cursor.Some? {
      RawPastCursor(store, b, isForward, cursor.value, e);
    }
  }

  lemma CursorMonotone<T>(store: seq<Entry<T>>, b: Bounds, isForward: bool, cursor: Option<Key>, next: Key)
    requires Sorted(store) && MovesOn(b, isForward, cursor, next)
    ensures |Raw(store, b, isForward, Some(next))| <= |Raw(store, b, isForward, cursor)|
  {
    IndexOfAbsent(store, next);
    if cursor.Some? {
      if isForward {
        IndexMonotone(store, cursor.value, next);
      } else {
        IndexMonotone(store, next, cursor.value);
      }
    } else if isForward {
      PositionMonotone(store, b.lower, next);
    } else {
      PositionMonotone(store, next, b.upper);
    }
  }

  lemma {:induction false} LeftShrinks<T>(stores: seq<seq<Entry<T>>>, b: Bounds, isForward: bool, cursor: Option<Key>,
                                          next: Key, lane: nat)
    requires AllSorted(stores) && MovesOn(b, isForward, cursor, next)
    ensures Left(stores, b, isForward, Some(next)) <= Left(stores, b, isForward, cursor)
    ensures lane < |stores|
            && |Raw(stores[lane], b, isForward, Some(next))| < |Raw(stores[lane], b, isForward, cursor)| ==>
              Left(stores, b, isForward, Some(next)) < Left(stores, b, isForward, cursor)
  {
    if stores != [] {
      CursorMonotone(stores[0], b, isForward, cursor, next);
      LeftShrinks(stores[1..], b, isForward, cursor, next, if lane > 0 then lane - 1 else |stores|);
    }
  }

  // ----- the pages a client of the stores receives

  /** Whether the answer reports more in reading direction. */
  predicate ReportsMore<T>(page: NetworkPage<T>, isForward: bool) {
    if isForward then page.hasNext else page.hasPrevious
  }

  /** The edge whose key is the next cursor: the last shown, or the first when reading backward. */
  function CursorEdge<T>(page: NetworkPage<T>, isForward: bool): Tagged<T>
    requires page.edges != []
  {
    if isForward then page.edges[|page.edges| - 1] else page.edges[0]
  }

  lemma CursorEdgeIsLastRead<T>(lanes: seq<seq<Entry<T>>>, size: nat, isForward: bool)
    requires ReportsMore(PageOfMerge(lanes, size, isForward), isForward)
    ensures var page := PageOfMerge(lanes, size, isForward);
            && |Merge(lanes, isForward)| > AtLeastOne(size) && page.edges != []
            && CursorEdge(page, isForward) == Merge(lanes, isForward)[AtLeastOne(size) - 1]
  {
  }

  /** The pages of a client that asks for the first page, then for the page behind the cursor edge,
      while the answer reports more and the cursor is accepted. Each store is opened anew. */
  ghost function ClientPages<T>(stores: seq<seq<Entry<T>>>, b: Bounds, check: T -> bool, size: nat, isForward: bool,
                                cursor: Option<Key>): seq<seq<Tagged<T>>>
    requires AllSorted(stores) && Accepted(b, isForward, cursor)
    decreases Left(stores, b, isForward, cursor)
  {
    var page := PageOfMerge(StoreLanes(stores, b, check, isForward, cursor), size, isForward);
    if ReportsMore(page, isForward) then
      ClientProgress(stores, b, check, size, isForward, cursor);
      var next := CursorEdge(page, isForward).entry.key;
      if Accepts(b, isForward, next) then
        WithPage(isForward, page.edges, ClientPages(stores, b, check, size, isForward, Some(next)))
      else [page.edges]
    else [page.edges]
  }

  /** Each edge is a raw record behind the cursor, of the store it is tagged with. */
  lemma EdgeFromStore<T>(stores: seq<seq<Entry<T>>>, b: Bounds, check: T -> bool, isForward: bool, cursor: Option<Key>,
                         i: nat)
    requires AllSorted(stores) && i < |Merge(StoreLanes(stores, b, check, isForward, cursor), isForward)|
    ensures var edge := Merge(StoreLanes(stores, b, check, isForward, cursor), isForward)[i];
            && edge.lane < |stores| && edge.entry in Raw(stores[edge.lane], b, isForward, cursor)
            && Hit(check, edge.entry)
  {
    var lanes := StoreLanes(stores, b, check, isForward, cursor);
    var edge := Merge(lanes, isForward)[i];
    ProjectMember(Merge(lanes, isForward), i);
    MergeProjects(lanes, isForward, edge.lane);
    StoreLaneMember(stores[edge.lane], b, check, isForward, cursor, edge.entry);
  }

  /** Whenever more is reported the cursor moves on, and fewer raw records remain behind it. */
  lemma ClientProgress<T>(stores: seq<seq<Entry<T>>>, b: Bounds, check: T -> bool, size: nat, isForward: bool,
                          cursor: Option<Key>)
    requires AllSorted(stores) && Accepted(b, isForward, cursor)
    requires ReportsMore(PageOfMerge(StoreLanes(stores, b, check, isForward, cursor), size, isForward), isForward)
    ensures var page := PageOfMerge(StoreLanes(stores, b, check, isForward, cursor), size, isForward);
            && page.edges != []
            && var edge := CursorEdge(page, isForward);
            && edge.lane < |stores| && edge.entry in Raw(stores[edge.lane], b, isForward, cursor)
            && MovesOn(b, isForward, cursor, edge.entry.key) && (isForward ==> Accepts(b, isForward, edge.entry.key))
            && Left(stores, b, isForward, Some(edge.entry.key)) < Left(stores, b, isForward, cursor)
  {
    var lanes := StoreLanes(stores, b, check, isForward, cursor);
    var n := AtLeastOne(size);
    CursorEdgeIsLastRead(lanes, size, isForward);
    EdgeFromStore(stores, b, check, isForward, cursor, n - 1);
    var edge := Merge(lanes, isForward)[n - 1];
    CursorShrinks(stores[edge.lane], b, isForward, cursor, edge.entry);
    LeftShrinks(stores, b, isForward, cursor, edge.entry.key, edge.lane);
  }

  // ----- cursors as times

  /** A time before all records in reading direction. */
  function Outset(isForward: bool): int {
    if isForward then -1 else I64_MAX + 1
  }

  /** The cursor of a client, as a time: none yet, or that of the last record read. */
  ghost predicate CursorAt(b: Bounds, prefix: Key, isForward: bool, cursor: Option<Key>, t: int) {
    if cursor.None? then t == Outset(isForward)
    else
      && 0 <= t <= I64_MAX && cursor.value == prefix + ToBeBytes(t)
      && InsideRange(b, isForward, cursor.value) && Accepts(b, isForward, cursor.value)
  }

  /** The open end of the range is not above the closed one, unless there is nothing in it. */
  ghost predicate Fits<T>(stores: seq<seq<Entry<T>>>, b: Bounds) {
    forall k :: 0 <= k < |stores| ==> AtMost(b.upper, b.closedUpper) || InBounds(stores[k], b) == []
  }

  lemma SourcedIsSorted<T>(stores: seq<seq<Entry<T>>>, b: Bounds, prefix: Key)
    requires Sourced(stores, b, prefix)
    ensures AllSorted(stores)
  {
    forall k | 0 <= k < |stores|
      ensures Sorted(stores[k])
    {
      assert SourcedStore(stores[k], b, prefix);
    }
  }

  lemma RawInBounds<T>(store: seq<Entry<T>>, b: Bounds, isForward: bool, cursor: Option<Key>, e: Entry<T>)
    requires Sorted(store) && e in Raw(store, b, isForward, cursor)
    requires cursor.Some? ==> InsideRange(b, isForward, cursor.value)
    ensures e in InBounds(store, b)
  {
    if cursor.Some? {
      IndexOfAbsent(store, cursor.value);
      if isForward {
        PositionMonotone(store, b.lower, cursor.value);
        WithinSlice(store, UpperIndex(store, cursor.value), UpperIndex(store, b.upper), LowerIndex(store, b.lower),
                    UpperIndex(store, b.upper), e);
      } else {
        PositionMonotone(store, cursor.value, b.upper);
        WithinSlice(store, LowerIndex(store, b.lower), LowerIndex(store, cursor.value), LowerIndex(store, b.lower),
                    UpperIndex(store, b.upper), e);
      }
    }
  }

  lemma WithinSlice<T>(s: seq<T>, from: nat, to: nat, a: nat, u: nat, e: T)
    requires a <= from <= |s| && to <= u <= |s| && e in Slice(s, from, to)
    ensures e in Slice(s, a, u)
  {
    var i :| 0 <= i < |Slice(s, from, to)| && Slice(s, from, to)[i] == e;
    assert Slice(s, a, u)[from - a + i] == e;
  }

  lemma BoundsOfEntry<T>(store: seq<Entry<T>>, b: Bounds, e: Entry<T>)
    requires Sorted(store) && e in InBounds(store, b)
    ensures AtMost(b.lower, e.key) && AtMost(e.key, b.upper)
  {
    var i :| 0 <= i < |InBounds(store, b)| && InBounds(store, b)[i] == e;
    var n := LowerIndex(store, b.lower) + i;
    assert store[n] == e;
    IndexSplits(store, b.lower);
    IndexSplits(store, b.upper);
    TotalOrder(b.lower, e.key, e.key);
  }

  lemma EntryIsTimed<T>(store: seq<Entry<T>>, b: Bounds, prefix: Key, e: Entry<T>)
    requires SourcedStore(store, b, prefix) && e in InBounds(store, b)
    ensures IsTimed(e, prefix) && 0 <= Time(e) <= I64_MAX && e.key == prefix + ToBeBytes(Time(e))
  {
    var i :| 0 <= i < |InBounds(store, b)| && InBounds(store, b)[i] == e;
    assert IsTimed(store[LowerIndex(store, b.lower) + i], prefix);
  }

  /** The next cursor, as a time. */
  lemma EventCursor<T>(store: seq<Entry<T>>, b: Bounds, prefix: Key, isForward: bool, cursor: Option<Key>, t: int,
                       e: Entry<T>)
    requires SourcedStore(store, b, prefix) && CursorAt(b, prefix, isForward, cursor, t)
    requires e in Raw(store, b, isForward, cursor) && (AtMost(b.upper, b.closedUpper) || InBounds(store, b) == [])
    ensures Earlier(isForward, t, Time(e)) && CursorAt(b, prefix, isForward, Some(e.key), Time(e))
  {
    RawInBounds(store, b, isForward, cursor, e);
    BoundsOfEntry(store, b, e);
    EntryIsTimed(store, b, prefix, e);
    TotalOrder(e.key, b.upper, b.closedUpper);
    if cursor.Some? {
      RawPastCursor(store, b, isForward, cursor.value, e);
      SuffixOrder(prefix, t, Time(e));
      SuffixOrder(prefix, Time(e), t);
    }
  }

  // ----- every store is read up to its last match

  /** In no store an accepted record of the range has an unreadable one in front of it. */
  ghost predicate AllReached<T>(stores: seq<seq<Entry<T>>>, b: Bounds, check: T -> bool, isForward: bool) {
    forall k :: 0 <= k < |stores| ==> Reached(Scan(stores[k], b, isForward, None), check)
  }

  lemma {:induction false} AfterLater<T>(lane: seq<Entry<T>>, isForward: bool, t: int, u: int)
    requires !Earlier(isForward, u, t)
    ensures AfterTime(AfterTime(lane, isForward, t), isForward, u) == AfterTime(lane, isForward, u)
  {
    if lane != [] {
      AfterLater(lane[1..], isForward, t, u);
      AfterTimeOne(lane[0], isForward, u);
      AfterTimeConcat(if Earlier(isForward, t, Time(lane[0])) then [lane[0]] else [],
                      AfterTime(lane[1..], isForward, t), isForward, u);
    }
  }

  lemma AfterLaterTimes<T>(lanes: seq<seq<Entry<T>>>, isForward: bool, t: int, u: int)
    requires !Earlier(isForward, u, t)
    ensures AfterTimes(AfterTimes(lanes, isForward, t), isForward, u) == AfterTimes(lanes, isForward, u)
  {
    var (twice, once) := (AfterTimes(AfterTimes(lanes, isForward, t), isForward, u), AfterTimes(lanes, isForward, u));
    forall k | 0 <= k < |lanes|
      ensures twice[k] == once[k]
    {
      AfterLater(lanes[k], isForward, t, u);
    }
  }

  lemma AllAfterOutset<T>(store: seq<Entry<T>>, b: Bounds, check: T -> bool, prefix: Key, isForward: bool)
    requires SourcedStore(store, b, prefix)
    ensures AllAfter(StoreLane(store, b, check, isForward, None), isForward, Outset(isForward))
  {
    var lane := StoreLane(store, b, check, isForward, None);
    forall i | 0 <= i < |lane|
      ensures Earlier(isForward, Outset(isForward), Time(lane[i]))
    {
      LaneMember(Scan(store, b, isForward, None), check, lane[i]);
      ScanTimed(store, b, prefix, isForward, lane[i]);
    }
  }

  lemma OutsetLanes<T>(stores: seq<seq<Entry<T>>>, b: Bounds, check: T -> bool, prefix: Key, isForward: bool)
    requires Sourced(stores, b, prefix)
    ensures StoreLanes(stores, b, check, isForward, None)
         == AfterTimes(StoreLanes(stores, b, check, isForward, None), isForward, Outset(isForward))
  {
    var first := StoreLanes(stores, b, check, isForward, None);
    var cut := AfterTimes(first, isForward, Outset(isForward));
    forall k | 0 <= k < |stores|
      ensures first[k] == cut[k]
    {
      assert SourcedStore(stores[k], b, prefix);
      AllAfterOutset(stores[k], b, check, prefix, isForward);
      EverythingAfter(first[k], isForward, Outset(isForward));
    }
  }

  /** Where every match is reached, opening at a cursor is cutting at its time. */
  lemma ClientLanes<T>(stores: seq<seq<Entry<T>>>, b: Bounds, check: T -> bool, prefix: Key, isForward: bool,
                       cursor: Option<Key>, t: int)
    requires Sourced(stores, b, prefix) && AllReached(stores, b, check, isForward)
    requires CursorAt(b, prefix, isForward, cursor, t)
    ensures StoreLanes(stores, b, check, isForward, cursor)
         == AfterTimes(StoreLanes(stores, b, check, isForward, None), isForward, t)
    ensures LanesOrdered(StoreLanes(stores, b, check, isForward, cursor), isForward)
  {
    FirstLanesOrdered(stores, b, check, prefix, isForward);
    AfterTimesOrdered(StoreLanes(stores, b, check, isForward, None), isForward, t);
    if cursor.Some? {
      forall k | 0 <= k < |stores|
        ensures NothingResurfacesIn(stores[k], b, check, isForward, cursor.value, t)
      {
        assert SourcedStore(stores[k], b, prefix);
        ReachedFollows(stores[k], b, check, prefix, isForward, cursor.value, t);
      }
      LanesFollowIff(stores, b, check, prefix, isForward, cursor.value, t);
    } else {
      OutsetLanes(stores, b, check, prefix, isForward);
    }
  }

  lemma ReopenedLanes<T>(stores: seq<seq<Entry<T>>>, b: Bounds, check: T -> bool, prefix: Key, isForward: bool,
                         cursor: Option<Key>, t: int, next: Key, u: int)
    requires Sourced(stores, b, prefix) && AllReached(stores, b, check, isForward)
    requires CursorAt(b, prefix, isForward, cursor, t)
    requires Earlier(isForward, t, u) && CursorAt(b, prefix, isForward, Some(next), u)
    ensures StoreLanes(stores, b, check, isForward, Some(next))
         == AfterTimes(StoreLanes(stores, b, check, isForward, cursor), isForward, u)
  {
    ClientLanes(stores, b, check, prefix, isForward, cursor, t);
    ClientLanes(stores, b, check, prefix, isForward, Some(next), u);
    AfterLaterTimes(StoreLanes(stores, b, check, isForward, None), isForward, t, u);
  }

  /** One page that reports more, and the record its cursor is taken from. */
  lemma ClientPagesStep<T>(stores: seq<seq<Entry<T>>>, b: Bounds, check: T -> bool, size: nat, isForward: bool,
                           cursor: Option<Key>) returns (edge: Tagged<T>)
    requires AllSorted(stores) && Accepted(b, isForward, cursor)
    requires |Merge(StoreLanes(stores, b, check, isForward, cursor), isForward)| > AtLeastOne(size)
    ensures edge == Merge(StoreLanes(stores, b, check, isForward, cursor), isForward)[AtLeastOne(size) - 1]
    ensures edge.lane < |stores| && edge.entry in Raw(stores[edge.lane], b, isForward, cursor)
    ensures Left(stores, b, isForward, Some(edge.entry.key)) < Left(stores, b, isForward, cursor)
    ensures Accepts(b, isForward, edge.entry.key) ==>
              ClientPages(stores, b, check, size, isForward, cursor)
              == WithPage(isForward,
                          PageOfMerge(StoreLanes(stores, b, check, isForward, cursor), size, isForward).edges,
                          ClientPages(stores, b, check, size, isForward, Some(edge.entry.key)))
  {
    var lanes := StoreLanes(stores, b, check, isForward, cursor);
    edge := Merge(lanes, isForward)[AtLeastOne(size) - 1];
    CursorEdgeIsLastRead(lanes, size, isForward);
    ClientProgress(stores, b, check, size, isForward, cursor);
    ClientPagesUnfold(stores, b, check, size, isForward, cursor, edge);
  }

  lemma ClientPagesUnfold<T>(stores: seq<seq<Entry<T>>>, b: Bounds, check: T -> bool, size: nat, isForward: bool,
                             cursor: Option<Key>, edge: Tagged<T>)
    requires AllSorted(stores) && Accepted(b, isForward, cursor)
    requires var page := PageOfMerge(StoreLanes(stores, b, check, isForward, cursor), size, isForward);
             ReportsMore(page, isForward) && page.edges != [] && edge == CursorEdge(page, isForward)
    ensures Accepts(b, isForward, edge.entry.key) ==>
              ClientPages(stores, b, check, size, isForward, cursor)
              == WithPage(isForward,
                          PageOfMerge(StoreLanes(stores, b, check, isForward, cursor), size, isForward).edges,
                          ClientPages(stores, b, check, size, isForward, Some(edge.entry.key)))
  {
  }

  lemma NextCursor<T>(stores: seq<seq<Entry<T>>>, b: Bounds, prefix: Key, isForward: bool, cursor: Option<Key>, t: int,
                      edge: Tagged<T>)
    requires Sourced(stores, b, prefix) && Fits(stores, b) && CursorAt(b, prefix, isForward, cursor, t)
    requires edge.lane < |stores| && edge.entry in Raw(stores[edge.lane], b, isForward, cursor)
    ensures Earlier(isForward, t, Time(edge.entry))
    ensures CursorAt(b, prefix, isForward, Some(edge.entry.key), Time(edge.entry))
  {
    assert SourcedStore(stores[edge.lane], b, prefix);
    EventCursor(stores[edge.lane], b, prefix, isForward, cursor, t, edge.entry);
  }

  lemma ClientPagesEnd<T>(stores: seq<seq<Entry<T>>>, b: Bounds, check: T -> bool, size: nat, isForward: bool,
                          cursor: Option<Key>)
    requires AllSorted(stores) && Accepted(b, isForward, cursor)
    requires |Merge(StoreLanes(stores, b, check, isForward, cursor), isForward)| <= AtLeastOne(size)
    ensures ClientPages(stores, b, check, size, isForward, cursor)
         == [Shown(isForward, Merge(StoreLanes(stores, b, check, isForward, cursor), isForward))]
  {
  }

  lemma NetworkPagesUnfold<T>(lanes: seq<seq<Entry<T>>>, size: nat, isForward: bool)
    requires LanesOrdered(lanes, isForward)
    ensures var (m, n) := (Merge(lanes, isForward), AtLeastOne(size));
            var page := PageOfMerge(lanes, size, isForward).edges;
            if |m| > n then
              var next := AfterTimes(lanes, isForward, Time(m[n - 1].entry));
              && LanesOrdered(next, isForward)
              && NetworkPages(lanes, size, isForward) == WithPage(isForward, page, NetworkPages(next, size, isForward))
            else NetworkPages(lanes, size, isForward) == [page]
  {
    if |Merge(lanes, isForward)| > AtLeastOne(size) {
      NextLanes(lanes, size, isForward);
    }
  }

  /** Where every match is reached, the pages of a client of the stores are those of the lanes cut
      at successive times. */
  lemma {:induction false} ClientPagesAreNetworkPages<T>(stores: seq<seq<Entry<T>>>, b: Bounds, check: T -> bool,
                                                         prefix: Key,
                                                         size: nat, isForward: bool, cursor: Option<Key>, t: int)
    requires Sourced(stores, b, prefix) && AllReached(stores, b, check, isForward) && Fits(stores, b)
    requires CursorAt(b, prefix, isForward, cursor, t)
    ensures AllSorted(stores) && LanesOrdered(StoreLanes(stores, b, check, isForward, cursor), isForward)
    ensures ClientPages(stores, b, check, size, isForward, cursor)
         == NetworkPages(StoreLanes(stores, b, check, isForward, cursor), size, isForward)
    decreases Left(stores, b, isForward, cursor)
  {
    SourcedIsSorted(stores, b, prefix);
    ClientLanes(stores, b, check, prefix, isForward, cursor, t);
    if |Merge(StoreLanes(stores, b, check, isForward, cursor), isForward)| > AtLeastOne(size) {
      var edge := ClientPagesStep(stores, b, check, size, isForward, cursor);
      NextCursor(stores, b, prefix, isForward, cursor, t, edge);
      var (next, u) := (edge.entry.key, Time(edge.entry));
      ReopenedLanes(stores, b, check, prefix, isForward, cursor, t, next, u);
      ClientPagesAreNetworkPages(stores, b, check, prefix, size, isForward, Some(next), u);
      PagesContinue(StoreLanes(stores, b, check, isForward, cursor), size, isForward,
                    StoreLanes(stores, b, check, isForward, Some(next)),
                    ClientPages(stores, b, check, size, isForward, cursor),
                    ClientPages(stores, b, check, size, isForward, Some(next)));
    } else {
      ClientPagesEnd(stores, b, check, size, isForward, cursor);
      NetworkPagesUnfold(StoreLanes(stores, b, check, isForward, cursor), size, isForward);
    }
  }

  /** Pages that continue with those of the cut lanes are those of the lanes. */
  lemma PagesContinue<T>(lanes: seq<seq<Entry<T>>>, size: nat, isForward: bool, next: seq<seq<Entry<T>>>,
                         pages: seq<seq<Tagged<T>>>, rest: seq<seq<Tagged<T>>>)
    requires LanesOrdered(lanes, isForward) && |Merge(lanes, isForward)| > AtLeastOne(size)
    requires next == AfterTimes(lanes, isForward, Time(Merge(lanes, isForward)[AtLeastOne(size) - 1].entry))
    requires pages == WithPage(isForward, PageOfMerge(lanes, size, isForward).edges, rest)
    requires LanesOrdered(next, isForward) && rest == NetworkPages(next, size, isForward)
    ensures pages == NetworkPages(lanes, size, isForward)
  {
    NetworkPagesUnfold(lanes, size, isForward);
  }

  // ----- against the answers of the stores

  /** The answers each store holds, in key order. */
  function AllAnswers<T>(stores: seq<seq<Entry<T>>>, q: Query<T>): (r: seq<seq<Entry<T>>>)
    ensures |r| == |stores|
    ensures forall k {:trigger r[k]} :: 0 <= k < |stores| ==> r[k] == Answers(stores[k], q)
  {
    if stores == [] then [] else [Answers(stores[0], q)] + AllAnswers(stores[1..], q)
  }

  function InReadingOrder<T>(lanes: seq<seq<Entry<T>>>, isForward: bool): (r: seq<seq<Entry<T>>>)
    ensures |r| == |lanes|
    ensures forall k {:trigger r[k]} :: 0 <= k < |lanes| ==> r[k] == Shown(isForward, lanes[k])
  {
    if isForward then lanes else ReverseLanes(lanes)
  }

  /** What the stores hold for the query, merged as a client reads it and shown in ascending order
      of time. */
  ghost function MergedAnswers<T>(stores: seq<seq<Entry<T>>>, q: Query<T>, isForward: bool): seq<Tagged<T>> {
    Shown(isForward, Merge(InReadingOrder(AllAnswers(stores, q), isForward), isForward))
  }

  /** All pages of a client together hold every answer of every store, in that order. */
  ghost predicate PagesHoldAll<T>(stores: seq<seq<Entry<T>>>, q: Query<T>, size: nat, isForward: bool)
    requires AllSorted(stores)
  {
    Flatten(ClientPages(stores, BoundsOf(q), q.check, size, isForward, None)) == MergedAnswers(stores, q, isForward)
  }

  lemma FirstLaneIsAnswersIff<T>(store: seq<Entry<T>>, q: Query<T>, isForward: bool)
    requires WellFormed(Plain, store) && WellFormedQuery(Plain, q) && WindowIsExact(q.from, q.until)
    ensures StoreLane(store, BoundsOf(q), q.check, isForward, None) == Shown(isForward, Answers(store, q))
       <==> Reached(Scan(store, BoundsOf(q), isForward, None), q.check)
  {
    HitsInBoundsAreAnswers(Plain, store, q);
    HitsReverse(InBounds(store, BoundsOf(q)), q.check);
    ReachedIff(Scan(store, BoundsOf(q), isForward, None), q.check);
  }

  lemma FirstLanesAreAnswersIff<T>(stores: seq<seq<Entry<T>>>, q: Query<T>, isForward: bool)
    requires Serves(stores, q) && WindowIsExact(q.from, q.until)
    ensures StoreLanes(stores, BoundsOf(q), q.check, isForward, None)
         == InReadingOrder(AllAnswers(stores, q), isForward)
       <==> AllReached(stores, BoundsOf(q), q.check, isForward)
  {
    var (first, answers) := (StoreLanes(stores, BoundsOf(q), q.check, isForward, None),
                             InReadingOrder(AllAnswers(stores, q), isForward));
    forall k | 0 <= k < |stores|
      ensures first[k] == answers[k] <==> Reached(Scan(stores[k], BoundsOf(q), isForward, None), q.check)
    {
      FirstLaneIsAnswersIff(stores[k], q, isForward);
    }
    if first == answers {
      assert forall k :: 0 <= k < |stores| ==> first[k] == answers[k];
    }
  }

  lemma ServedStoresFit<T>(stores: seq<seq<Entry<T>>>, q: Query<T>)
    requires Serves(stores, q) && WindowIsExact(q.from, q.until)
    ensures Fits(stores, BoundsOf(q)) && AllSorted(stores)
  {
    forall k | 0 <= k < |stores|
      ensures AtMost(BoundsOf(q).upper, BoundsOf(q).closedUpper) || InBounds(stores[k], BoundsOf(q)) == []
    {
      BoundsOrdered(Plain, stores[k], q);
    }
  }

  /** Where every match is reached, a client of several stores receives the merge of what each
      holds for it exactly when no page break falls between records of equal time. */
  lemma MultiStorePagingIff<T>(stores: seq<seq<Entry<T>>>, q: Query<T>, size: nat, isForward: bool)
    requires Serves(stores, q) && WindowIsExact(q.from, q.until) && AllReached(stores, BoundsOf(q), q.check, isForward)
    ensures AllSorted(stores)
    ensures PagesHoldAll(stores, q, size, isForward)
       <==> BreaksBetweenTimes(Merge(InReadingOrder(AllAnswers(stores, q), isForward), isForward), AtLeastOne(size))
  {
    ServedStoresAreSourced(stores, q);
    ServedStoresFit(stores, q);
    FirstLanesAreAnswersIff(stores, q, isForward);
    ClientPagesAreNetworkPages(stores, BoundsOf(q), q.check, KeyPrefix(q.start, q.mid), size, isForward, None,
                               Outset(isForward));
    NetworkPagesCompleteIff(InReadingOrder(AllAnswers(stores, q), isForward), size, isForward);
  }

  lemma TiedInReadingOrder<T>(lanes: seq<seq<Entry<T>>>, isForward: bool)
    ensures CrossLaneTie(InReadingOrder(lanes, isForward)) <==> CrossLaneTie(lanes)
  {
    if !isForward {
      var r := ReverseLanes(lanes);
      forall k | 0 <= k < |lanes|
        ensures ReverseLanes(r)[k] == lanes[k]
      {
        ReverseReverse(lanes[k]);
      }
      assert ReverseLanes(r) == lanes;
      if CrossLaneTie(r) {
        TieReversed(lanes);
      }
      if CrossLaneTie(lanes) {
        TieReversed(r);
      }
    }
  }

  /** Any client receives everything, whatever its page size, exactly when no accepted record of
      the range has an unreadable one of its store in front of it and no two stores hold answers
      of the same time. */
  lemma MultiStorePagingAlwaysIff<T>(stores: seq<seq<Entry<T>>>, q: Query<T>, isForward: bool)
    requires Serves(stores, q) && WindowIsExact(q.from, q.until)
    ensures AllSorted(stores)
    ensures (forall size: nat :: PagesHoldAll(stores, q, size, isForward))
       <==> AllReached(stores, BoundsOf(q), q.check, isForward) && !CrossLaneTie(AllAnswers(stores, q))
  {
    ServedStoresFit(stores, q);
    if !AllReached(stores, BoundsOf(q), q.check, isForward) {
      var size := UnreachedPage(stores, q, isForward);
    } else if CrossLaneTie(AllAnswers(stores, q)) {
      var size := TiedPage(stores, q, isForward);
    } else {
      forall size: nat
        ensures PagesHoldAll(stores, q, size, isForward)
      {
        UntiedPages(stores, q, size, isForward);
      }
    }
  }

  lemma TiedPage<T>(stores: seq<seq<Entry<T>>>, q: Query<T>, isForward: bool) returns (size: nat)
    requires Serves(stores, q) && WindowIsExact(q.from, q.until) && AllReached(stores, BoundsOf(q), q.check, isForward)
    requires AllSorted(stores) && CrossLaneTie(AllAnswers(stores, q))
    ensures !PagesHoldAll(stores, q, size, isForward)
  {
    AnswersBreakCleanlyIff(stores, q, isForward);
    size :| !BreaksBetweenTimes(Merge(InReadingOrder(AllAnswers(stores, q), isForward), isForward), AtLeastOne(size));
    MultiStorePagingIff(stores, q, size, isForward);
  }

  lemma UntiedPages<T>(stores: seq<seq<Entry<T>>>, q: Query<T>, size: nat, isForward: bool)
    requires Serves(stores, q) && WindowIsExact(q.from, q.until) && AllReached(stores, BoundsOf(q), q.check, isForward)
    requires AllSorted(stores) && !CrossLaneTie(AllAnswers(stores, q))
    ensures PagesHoldAll(stores, q, size, isForward)
  {
    AnswersBreakCleanlyIff(stores, q, isForward);
    MultiStorePagingIff(stores, q, size, isForward);
  }

  lemma AnswersBreakCleanlyIff<T>(stores: seq<seq<Entry<T>>>, q: Query<T>, isForward: bool)
    requires Serves(stores, q) && WindowIsExact(q.from, q.until) && AllReached(stores, BoundsOf(q), q.check, isForward)
    ensures (forall size: nat ::
               BreaksBetweenTimes(Merge(InReadingOrder(AllAnswers(stores, q), isForward), isForward), AtLeastOne(size)))
       <==> !CrossLaneTie(AllAnswers(stores, q))
  {
    var lanes := InReadingOrder(AllAnswers(stores, q), isForward);
    ServedStoresAreSourced(stores, q);
    FirstLanesOrdered(stores, BoundsOf(q), q.check, KeyPrefix(q.start, q.mid), isForward);
    FirstLanesAreAnswersIff(stores, q, isForward);
    AllSizesBreakCleanlyIff(lanes, isForward);
    TiedInReadingOrder(AllAnswers(stores, q), isForward);
  }

  /** A match behind an unreadable record is missing from a page large enough for all. */
  lemma UnreachedPage<T>(stores: seq<seq<Entry<T>>>, q: Query<T>, isForward: bool) returns (size: nat)
    requires Serves(stores, q) && WindowIsExact(q.from, q.until) && !AllReached(stores, BoundsOf(q), q.check, isForward)
    requires AllSorted(stores)
    ensures !PagesHoldAll(stores, q, size, isForward)
  {
    var (first, answers) := (StoreLanes(stores, BoundsOf(q), q.check, isForward, None),
                             InReadingOrder(AllAnswers(stores, q), isForward));
    size := Total(first) + 1;
    ClientPagesEnd(stores, BoundsOf(q), q.check, size, isForward, None);
    LastPage(Shown(isForward, Merge(first, isForward)));
    FirstLanesAreAnswersIff(stores, q, isForward);
    MergesAgreeIff(first, answers, isForward);
    ShownTwice(isForward, Merge(first, isForward));
    ShownTwice(isForward, Merge(answers, isForward));
  }

  // ----- whatever the stores hold, nothing foreign and nothing twice

  /** In reading order by time, and by lane among equal times, no two the same. */
  ghost predicate StrictlyOrdered<T>(s: seq<Tagged<T>>, isForward: bool) {
    forall i, j :: 0 <= i < j < |s| ==> StrictlyBefore(isForward, s[i], s[j])
  }

  predicate StrictlyBefore<T>(isForward: bool, a: Tagged<T>, b: Tagged<T>) {
    Earlier(isForward, Time(a.entry), Time(b.entry)) || (Time(a.entry) == Time(b.entry) && a.lane < b.lane)
  }

  lemma MergeStrictlyOrdered<T>(lanes: seq<seq<Entry<T>>>, isForward: bool)
    requires LanesOrdered(lanes, isForward)
    ensures StrictlyOrdered(Merge(lanes, isForward), isForward)
  {
    var m := Merge(lanes, isForward);
    MergeOrdered(lanes, isForward);
    forall i, j | 0 <= i < j < |m|
      ensures StrictlyBefore(isForward, m[i], m[j])
    {
      assert InOrder(isForward, m[i], m[j]);
      if m[i].lane == m[j].lane {
        SameLaneLater(lanes, isForward, i, j);
      }
    }
  }

  /** The lanes of a store re-opened at any cursor of a client are in order, behind its time. */
  lemma CursorLane<T>(store: seq<Entry<T>>, b: Bounds, check: T -> bool, prefix: Key, isForward: bool,
                      cursor: Option<Key>, t: int)
    requires SourcedStore(store, b, prefix) && CursorAt(b, prefix, isForward, cursor, t)
    ensures LaneOrdered(StoreLane(store, b, check, isForward, cursor), isForward)
  {
    if cursor.None? {
      StoreLaneOrdered(store, b, check, prefix, isForward);
    } else {
      var early := StoreReopens(store, b, prefix, isForward, cursor.value, t);
      FollowIsAfter(store, b, check, isForward, cursor.value, t, early);
      LaneKeepsOrder(Scan(store, b, isForward, cursor), check, isForward);
      AfterTimeOrdered(Lane(Scan(store, b, isForward, cursor), check), isForward, t);
    }
  }

  lemma CursorLanes<T>(stores: seq<seq<Entry<T>>>, b: Bounds, check: T -> bool, prefix: Key, isForward: bool,
                       cursor: Option<Key>, t: int)
    requires Sourced(stores, b, prefix) && CursorAt(b, prefix, isForward, cursor, t)
    ensures LanesOrdered(StoreLanes(stores, b, check, isForward, cursor), isForward)
  {
    forall k | 0 <= k < |stores|
      ensures LaneOrdered(StoreLanes(stores, b, check, isForward, cursor)[k], isForward)
    {
      assert SourcedStore(stores[k], b, prefix);
      CursorLane(stores[k], b, check, prefix, isForward, cursor, t);
    }
  }

  /** A match of the range in the store it is tagged with, behind a time. */
  ghost predicate IsMatchAfter<T>(stores: seq<seq<Entry<T>>>, b: Bounds, check: T -> bool, isForward: bool, t: int,
                                  x: Tagged<T>)
  {
    && x.lane < |stores| && x.entry in InBounds(stores[x.lane], b) && Hit(check, x.entry)
    && Earlier(isForward, t, Time(x.entry))
  }

  /** A sequence of such matches in strict order. */
  ghost predicate ReadsMatches<T>(stores: seq<seq<Entry<T>>>, b: Bounds, check: T -> bool, isForward: bool, t: int,
                                  r: seq<Tagged<T>>)
  {
    StrictlyOrdered(r, isForward) && forall i :: 0 <= i < |r| ==> IsMatchAfter(stores, b, check, isForward, t, r[i])
  }

  lemma MergeReadsMatches<T>(stores: seq<seq<Entry<T>>>, b: Bounds, check: T -> bool, prefix: Key, isForward: bool,
                             cursor: Option<Key>, t: int)
    requires Sourced(stores, b, prefix) && Fits(stores, b) && CursorAt(b, prefix, isForward, cursor, t)
    requires AllSorted(stores)
    ensures ReadsMatches(stores, b, check, isForward, t,
                         Merge(StoreLanes(stores, b, check, isForward, cursor), isForward))
  {
    var m := Merge(StoreLanes(stores, b, check, isForward, cursor), isForward);
    CursorLanes(stores, b, check, prefix, isForward, cursor, t);
    MergeStrictlyOrdered(StoreLanes(stores, b, check, isForward, cursor), isForward);
    forall i | 0 <= i < |m|
      ensures IsMatchAfter(stores, b, check, isForward, t, m[i])
    {
      EdgeFromStore(stores, b, check, isForward, cursor, i);
      NextCursor(stores, b, prefix, isForward, cursor, t, m[i]);
      RawInBounds(stores[m[i].lane], b, isForward, cursor, m[i].entry);
    }
  }

  /** The records read on one page, followed by those read behind its last one. */
  lemma JoinReads<T>(stores: seq<seq<Entry<T>>>, b: Bounds, check: T -> bool, isForward: bool, t: int,
                     m: seq<Tagged<T>>, n: nat, rest: seq<Tagged<T>>)
    requires ReadsMatches(stores, b, check, isForward, t, m) && 0 < n <= |m|
    requires ReadsMatches(stores, b, check, isForward, Time(m[n - 1].entry), rest)
    ensures ReadsMatches(stores, b, check, isForward, t, m[..n] + rest)
  {
    var (u, r) := (Time(m[n - 1].entry), m[..n] + rest);
    assert IsMatchAfter(stores, b, check, isForward, t, m[n - 1]);
    forall i | 0 <= i < n
      ensures !Earlier(isForward, u, Time(m[i].entry))
    {
      assert i < n - 1 ==> StrictlyBefore(isForward, m[i], m[n - 1]);
    }
    forall i | n <= i < |r|
      ensures IsMatchAfter(stores, b, check, isForward, u, r[i])
    {
      assert r[i] == rest[i - n];
    }
    JoinOrdered(m[..n], rest, isForward, u);
  }

  lemma JoinOrdered<T>(a: seq<Tagged<T>>, c: seq<Tagged<T>>, isForward: bool, u: int)
    requires StrictlyOrdered(a, isForward) && StrictlyOrdered(c, isForward)
    requires forall i :: 0 <= i < |a| ==> !Earlier(isForward, u, Time(a[i].entry))
    requires forall i :: 0 <= i < |c| ==> Earlier(isForward, u, Time(c[i].entry))
    ensures StrictlyOrdered(a + c, isForward)
  {
  }

  /** The first page, and what its client reads behind it. */
  lemma ReadOneMore<T>(stores: seq<seq<Entry<T>>>, b: Bounds, check: T -> bool, isForward: bool, t: int,
                       lanes: seq<seq<Entry<T>>>, size: nat, pages: seq<seq<Tagged<T>>>,
                       others: seq<seq<Tagged<T>>>, rest: seq<Tagged<T>>) returns (r: seq<Tagged<T>>)
    requires |Merge(lanes, isForward)| > AtLeastOne(size)
    requires ReadsMatches(stores, b, check, isForward, t, Merge(lanes, isForward))
    requires pages == WithPage(isForward, PageOfMerge(lanes, size, isForward).edges, others)
    requires Flatten(others) == Shown(isForward, rest)
    requires ReadsMatches(stores, b, check, isForward, Time(Merge(lanes, isForward)[AtLeastOne(size) - 1].entry), rest)
    ensures ReadsMatches(stores, b, check, isForward, t, r) && Flatten(pages) == Shown(isForward, r)
  {
    var (m, n) := (Merge(lanes, isForward), AtLeastOne(size));
    r := m[..n] + rest;
    JoinReads(stores, b, check, isForward, t, m, n, rest);
    FlattenWithPage(isForward, m[..n], others, rest);
  }

  lemma {:induction false} ClientReads<T>(stores: seq<seq<Entry<T>>>, b: Bounds, check: T -> bool, prefix: Key,
                                          size: nat,
                                          isForward: bool, cursor: Option<Key>, t: int) returns (r: seq<Tagged<T>>)
    requires Sourced(stores, b, prefix) && Fits(stores, b) && CursorAt(b, prefix, isForward, cursor, t)
    requires AllSorted(stores)
    ensures ReadsMatches(stores, b, check, isForward, t, r)
    ensures Flatten(ClientPages(stores, b, check, size, isForward, cursor)) == Shown(isForward, r)
    decreases Left(stores, b, isForward, cursor)
  {
    MergeReadsMatches(stores, b, check, prefix, isForward, cursor, t);
    if |Merge(StoreLanes(stores, b, check, isForward, cursor), isForward)| > AtLeastOne(size) {
      var edge := ClientPagesStep(stores, b, check, size, isForward, cursor);
      NextCursor(stores, b, prefix, isForward, cursor, t, edge);
      var rest := ClientReads(stores, b, check, prefix, size, isForward, Some(edge.entry.key), Time(edge.entry));
      r := ReadOneMore(stores, b, check, isForward, t, StoreLanes(stores, b, check, isForward, cursor), size,
                       ClientPages(stores, b, check, size, isForward, cursor),
                       ClientPages(stores, b, check, size, isForward, Some(edge.entry.key)), rest);
    } else {
      r := Merge(StoreLanes(stores, b, check, isForward, cursor), isForward);
      ClientPagesEnd(stores, b, check, size, isForward, cursor);
      LastPage(Shown(isForward, r));
    }
  }

  /** Whatever the stores hold, readable or not, and whatever the page size, a client receives
      answers only, and each at most once: in reading order they strictly ascend by time and lane. */
  lemma ClientReceivesAnswersOnce<T>(stores: seq<seq<Entry<T>>>, q: Query<T>, size: nat, isForward: bool)
    requires Serves(stores, q) && WindowIsExact(q.from, q.until)
    ensures AllSorted(stores)
    ensures var received := Flatten(ClientPages(stores, BoundsOf(q), q.check, size, isForward, None));
            && StrictlyOrdered(Shown(isForward, received), isForward)
            && forall x :: x in received ==> x.lane < |stores| && x.entry in Answers(stores[x.lane], q)
  {
    var b := BoundsOf(q);
    ServedStoresAreSourced(stores, q);
    ServedStoresFit(stores, q);
    var r := ClientReads(stores, b, q.check, KeyPrefix(q.start, q.mid), size, isForward, None, Outset(isForward));
    ShownTwice(isForward, r);
    forall x | x in Shown(isForward, r)
      ensures x.lane < |stores| && x.entry in Answers(stores[x.lane], q)
    {
      ShownMembers(isForward, r, x);
      assert IsMatchAfter(stores, b, q.check, isForward, Outset(isForward), x);
      HitsInBoundsAreAnswers(Plain, stores[x.lane], q);
      HitsMembers(InBounds(stores[x.lane], b), q.check, x.entry);
    }
  }
}
