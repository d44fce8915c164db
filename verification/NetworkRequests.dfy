/**
 One request over several stores: every store is opened at the cursor, in the direction the
 arguments ask for, and the lanes are merged into one page.
 */
module NetworkRequests {
  import opened Wrappers
  import opened Sequences
  import opened Bytes
  import opened StorageKeys
  import opened EventStore
  import opened Paging
  import opened PagingRequests
  import opened NetworkMerge
  import opened NetworkPaging
  import opened NetworkLanes
  import opened NetworkClient

  /** How a request reads the stores: the key it starts at, its direction, and its page size. */
  datatype Reading = Reading(cursor: Option<Key>, isForward: bool, size: nat)

  /** The refusals and the reading a request comes to. */
  function ReadingOf(b: Bounds, after: Option<Key>, before: Option<Key>, first: Option<nat>, last: Option<nat>)
    : Result<Reading>
  {
    if before.Some? then
      if after.Some? then Err("cannot use both `after` and `before`")
      else if first.Some? then Err("'before' and 'first' cannot be specified simultaneously")
      else if Less(b.closedUpper, before.value) then Err("invalid cursor")
      else Ok(Reading(before, false, PageSize(last)))
    else if after.Some? then
      if last.Some? then Err("'after' and 'last' cannot be specified simultaneously")
      else if Less(after.value, b.lower) then Err("invalid cursor")
      else Ok(Reading(after, true, PageSize(first)))
    else if last.Some? then
      if first.Some? then Err("first and last cannot be used together")
      else Ok(Reading(None, false, PageSize(last)))
    else
      Ok(Reading(None, true, PageSize(first)))
  }

  /** What a request over the stores answers. */
  ghost function NetworkAnswer<T>(stores: seq<seq<Entry<T>>>, b: Bounds, check: T -> bool, after: Option<Key>,
                                  before: Option<Key>, first: Option<nat>, last: Option<nat>): Result<NetworkPage<T>>
  {
    match ReadingOf(b, after, before, first, last)
    case Err(message) => Err(message)
    case Ok(r) => Ok(PageOfMerge(StoreLanes(stores, b, check, r.isForward, r.cursor), r.size, r.isForward))
  }

  /** Opens one store for a request: its lane without the cursor's own record, and the page size. */
  method GetFilteredIter<T>(store: seq<Entry<T>>, q: Query<T>, after: Option<Key>, before: Option<Key>,
                            first: Option<nat>, last: Option<nat>)
    returns (lane: Result<(FilteredIter<T>, nat)>)
    requires Sorted(store)
    ensures var reading := ReadingOf(BoundsOf(q), after, before, first, last);
            match lane
            case Err(message) => reading == Err(message)
            case Ok((iter, size)) =>
              && reading.Ok? && size == reading.value.size
              && fresh(iter) && fresh(iter.inner) && iter.inner.Valid()
              && Yields(iter)
                 == StoreLane(store, BoundsOf(q), q.check, reading.value.isForward, reading.value.cursor)
  {
    var lower, upper := BuildKeys(q);
    lower.LowerClosedBoundEndKey(q.from);
    if before.Some? {
      if after.Some? {
        return Err("cannot use both `after` and `before`");
      }
      if first.Some? {
        return Err("'before' and 'first' cannot be specified simultaneously");
      }
      upper.UpperClosedBoundEndKey(q.until);
      var fromKey := upper.Build();
      if Less(fromKey, before.value) {
        return Err("invalid cursor");
      }
      var iter := OpenLane(store, BoundsOf(q), q.check, false, before);
      return Ok((iter, PageSize(last)));
    }
    if after.Some? {
      if last.Some? {
        return Err("'after' and 'last' cannot be specified simultaneously");
      }
      var fromKey := lower.Build();
      if Less(after.value, fromKey) {
        return Err("invalid cursor");
      }
      var iter := OpenLane(store, BoundsOf(q), q.check, true, after);
      return Ok((iter, PageSize(first)));
    }
    if last.Some? && first.Some? {
      return Err("first and last cannot be used together");
    }
    var iter := OpenLane(store, BoundsOf(q), q.check, last.None?, None);
    lane := Ok((iter, if last.Some? then PageSize(last) else PageSize(first)));
  }

  lemma RawMember<T>(store: seq<Entry<T>>, b: Bounds, isForward: bool, cursor: Option<Key>, e: Entry<T>)
    requires e in Raw(store, b, isForward, cursor)
    ensures e in store
  {
  }

  /** The keys an ingester builds are long enough for a timestamp. */
  lemma ServedLanesAreLong<T>(stores: seq<seq<Entry<T>>>, q: Query<T>, isForward: bool, cursor: Option<Key>)
    requires Serves(stores, q)
    ensures AllLongKeys(StoreLanes(stores, BoundsOf(q), q.check, isForward, cursor))
  {
    var lanes := StoreLanes(stores, BoundsOf(q), q.check, isForward, cursor);
    forall k | 0 <= k < |lanes|
      ensures LongKeys(lanes[k])
    {
      forall e: Entry<T> | e in lanes[k]
        ensures |e.key| > TIMESTAMP_SIZE
      {
        StoreLaneMember(stores[k], BoundsOf(q), q.check, isForward, cursor, e);
        RawMember(stores[k], BoundsOf(q), isForward, cursor, e);
        EventKeyIsLong(stores[k], e);
      }
    }
  }

  lemma EventKeyIsLong<T>(store: seq<Entry<T>>, e: Entry<T>)
    requires WellFormed(Plain, store) && e in store
    ensures |e.key| > TIMESTAMP_SIZE
  {
    var i :| 0 <= i < |store| && store[i] == e;
    var s, m, t :| EventParts(Plain, s, m, t) && e.key == StorageKey(s, m, t);
    TimestampRoundTrip(s, m, t);
  }

  /** Each iterator yields the lane of its store. */
  ghost predicate YieldLanes<T>(iters: seq<FilteredIter<T>>, lanes: seq<seq<Entry<T>>>)
    requires |iters| <= |lanes|
    reads set iter | iter in iters :: iter.inner
  {
    && Distinct(iters)
    && forall k :: 0 <= k < |iters| ==> iters[k].inner.Valid() && Yields(iters[k]) == lanes[k]
  }

  /** The lanes a request reads; none when it is refused. */
  function LanesFor<T>(stores: seq<seq<Entry<T>>>, b: Bounds, check: T -> bool, reading: Result<Reading>)
    : (r: seq<seq<Entry<T>>>)
    ensures |r| == |stores|
    ensures reading.Ok? ==> r == StoreLanes(stores, b, check, reading.value.isForward, reading.value.cursor)
  {
    if reading.Ok? then StoreLanes(stores, b, check, reading.value.isForward, reading.value.cursor) else stores
  }

  lemma OneMore<T>(iters: seq<FilteredIter<T>>, iter: FilteredIter<T>, lanes: seq<seq<Entry<T>>>)
    requires |iters| < |lanes| && YieldLanes(iters, lanes)
    requires iter.inner.Valid() && Yields(iter) == lanes[|iters|]
    requires forall k :: 0 <= k < |iters| ==> iters[k].inner != iter.inner
    ensures YieldLanes(iters + [iter], lanes)
  {
  }

  /** The iterators of the first stores, opened for this reading. */
  ghost predicate Opened<T>(iters: seq<FilteredIter<T>>, size: nat, reading: Result<Reading>,
                            lanes: seq<seq<Entry<T>>>)
    reads set iter | iter in iters :: iter.inner
  {
    && |iters| <= |lanes| && YieldLanes(iters, lanes)
    && (iters != [] ==> reading.Ok? && size == reading.value.size)
  }

  /** Opens the next store. */
  method OpenNext<T>(iters: seq<FilteredIter<T>>, stores: seq<seq<Entry<T>>>, q: Query<T>, after: Option<Key>,
                     before: Option<Key>, first: Option<nat>, last: Option<nat>, ghost size: nat,
                     ghost reading: Result<Reading>, ghost lanes: seq<seq<Entry<T>>>)
    returns (more: Result<(seq<FilteredIter<T>>, nat)>)
    requires |iters| < |stores| && AllSorted(stores) && Opened(iters, size, reading, lanes)
    requires reading == ReadingOf(BoundsOf(q), after, before, first, last)
    requires lanes == LanesFor(stores, BoundsOf(q), q.check, reading)
    ensures more.Err? ==> reading == Err(more.message)
    ensures more.Ok? ==>
              && |more.value.0| == |iters| + 1 && Opened(more.value.0, more.value.1, reading, lanes)
              && forall iter :: iter in more.value.0 ==> iter in iters || fresh(iter.inner)
  {
    var lane := GetFilteredIter(stores[|iters|], q, after, before, first, last);
    if lane.Err? {
      return Err(lane.message);
    }
    OneMore(iters, lane.value.0, lanes);
    more := Ok((iters + [lane.value.0], lane.value.1));
  }

  method OpenAll<T>(stores: seq<seq<Entry<T>>>, q: Query<T>, after: Option<Key>, before: Option<Key>,
                    first: Option<nat>, last: Option<nat>, ghost reading: Result<Reading>,
                    ghost lanes: seq<seq<Entry<T>>>)
    returns (all: Result<(seq<FilteredIter<T>>, nat)>)
    requires stores != [] && AllSorted(stores)
    requires reading == ReadingOf(BoundsOf(q), after, before, first, last)
    requires lanes == LanesFor(stores, BoundsOf(q), q.check, reading)
    ensures all.Err? ==> reading == Err(all.message)
    ensures all.Ok? ==>
              && |all.value.0| == |stores| && Opened(all.value.0, all.value.1, reading, lanes)
              && forall iter :: iter in all.value.0 ==> fresh(iter.inner)
  {
    var iters: seq<FilteredIter<T>>, size := [], 0;
    while |iters| < |stores|
      invariant |iters| <= |stores| && Opened(iters, size, reading, lanes)
      invariant forall iter :: iter in iters ==> fresh(iter.inner)
    {
      var more := OpenNext(iters, stores, q, after, before, first, last, size, reading, lanes);
      if more.Err? {
        return Err(more.message);
      }
      iters, size := more.value.0, more.value.1;
    }
    all := Ok((iters, size));
  }

  /** The resolver: all stores are opened, then merged. */
  method NetworkRawEvents<T>(stores: seq<seq<Entry<T>>>, q: Query<T>, after: Option<Key>, before: Option<Key>,
                             first: Option<nat>, last: Option<nat>)
    returns (result: Result<NetworkPage<T>>)
    requires stores != [] && AllSorted(stores)
    ensures result.Ok? || Serves(stores, q) ==>
              result == NetworkAnswer(stores, BoundsOf(q), q.check, after, before, first, last)
    ensures var reading := ReadingOf(BoundsOf(q), after, before, first, last);
            reading.Err? ==> result == Err(reading.message)
  {
    ghost var reading := ReadingOf(BoundsOf(q), after, before, first, last);
    ghost var all := LanesFor(stores, BoundsOf(q), q.check, reading);
    var lanes := OpenAll(stores, q, after, before, first, last, reading, all);
    if lanes.Err? {
      return Err(lanes.message);
    }
    var isForward := !(before.Some? || last.Some?);
    assert isForward == reading.value.isForward;
    if Serves(stores, q) {
      ServedLanesAreLong(stores, q, isForward, reading.value.cursor);
    }
    result := NetworkConnection(lanes.value.0, lanes.value.1, isForward, all);
  }

  /** An accepted request is answered with the page of the size asked for, 100 at most and 100 when
      none is given, of the lanes at its cursor. */
  lemma NetworkAnswerIs<T>(stores: seq<seq<Entry<T>>>, b: Bounds, check: T -> bool, after: Option<Key>,
                           before: Option<Key>, first: Option<nat>, last: Option<nat>, n: nat)
    requires NetworkAnswer(stores, b, check, after, before, first, last).Ok?
    requires var wanted := if before.Some? || last.Some? then last else first;
             n <= 100 && (wanted.Some? ==> n <= wanted.value) && (n == 100 || wanted == Some(n))
    ensures var isForward := before.None? && last.None?;
            NetworkAnswer(stores, b, check, after, before, first, last)
            == Ok(PageOfMerge(StoreLanes(stores, b, check, isForward, if isForward then after else before), n,
                              isForward))
  {
  }

  /** So it holds `n` records, or all there are: the first of the merge in reading direction, which
      is backward exactly when `before` or `last` is given. More is reported exactly when records
      are left, on the side reading goes to. */
  lemma NetworkAnswerHolds<T>(stores: seq<seq<Entry<T>>>, b: Bounds, check: T -> bool, after: Option<Key>,
                              before: Option<Key>, first: Option<nat>, last: Option<nat>, n: nat)
    requires NetworkAnswer(stores, b, check, after, before, first, last).Ok?
    requires var wanted := if before.Some? || last.Some? then last else first;
             1 <= n <= 100 && (wanted.Some? ==> n <= wanted.value) && (n == 100 || wanted == Some(n))
    ensures var isForward := before.None? && last.None?;
            var lanes := StoreLanes(stores, b, check, isForward, if isForward then after else before);
            HoldsFirst(NetworkAnswer(stores, b, check, after, before, first, last).value, lanes, isForward, n)
  {
    var isForward := before.None? && last.None?;
    var lanes := StoreLanes(stores, b, check, isForward, if isForward then after else before);
    NetworkAnswerIs(stores, b, check, after, before, first, last, n);
    PageHoldsFirst(lanes, isForward, n);
  }

  /** The page holds the first `n` records of the merge, or all, and reports what is left. */
  ghost predicate HoldsFirst<T>(page: NetworkPage<T>, lanes: seq<seq<Entry<T>>>, isForward: bool, n: nat) {
    var (total, m) := (Total(lanes), Merge(lanes, isForward));
    && |page.edges| == (if n <= total then n else total) <= |m|
    && (forall i :: 0 <= i < |page.edges| ==> page.edges[i] == m[if isForward then i else |page.edges| - 1 - i])
    && page.hasNext == (isForward && n < total)
    && page.hasPrevious == (!isForward && n < total)
  }

  lemma PageHoldsFirst<T>(lanes: seq<seq<Entry<T>>>, isForward: bool, n: nat)
    requires n >= 1
    ensures HoldsFirst(PageOfMerge(lanes, n, isForward), lanes, isForward, n)
  {
    PageHolds(lanes, n, isForward);
  }

  /** The pages of a client with a page size the service serves are answers to its requests. */
  lemma ClientAsks<T>(stores: seq<seq<Entry<T>>>, b: Bounds, check: T -> bool, size: nat, isForward: bool,
                      cursor: Option<Key>)
    requires Accepted(b, isForward, cursor) && size <= 100
    ensures Ok(PageOfMerge(StoreLanes(stores, b, check, isForward, cursor), size, isForward))
         == if isForward then NetworkAnswer(stores, b, check, cursor, None, Some(size), None)
            else NetworkAnswer(stores, b, check, None, cursor, None, Some(size))
  {
    if cursor.Some? {
      TotalOrder(b.lower, cursor.value, cursor.value);
      TotalOrder(cursor.value, b.closedUpper, b.closedUpper);
    }
  }

  /** A request for zero records is answered with one, if there is any. */
  lemma OneRecordAtLeast<T>(stores: seq<seq<Entry<T>>>, b: Bounds, check: T -> bool, cursor: Option<Key>)
    ensures NetworkAnswer(stores, b, check, cursor, None, Some(0), None)
         == NetworkAnswer(stores, b, check, cursor, None, Some(1), None)
    ensures NetworkAnswer(stores, b, check, None, cursor, None, Some(0))
         == NetworkAnswer(stores, b, check, None, cursor, None, Some(1))
  {
  }

  /** Requests over several stores are refused with the same messages as over one. */
  lemma RefusedAlike<T>(stores: seq<seq<Entry<T>>>, store: seq<Entry<T>>, b: Bounds, check: T -> bool,
                        after: Option<Key>, before: Option<Key>, first: Option<nat>, last: Option<nat>)
    ensures var (many, one) := (NetworkAnswer(stores, b, check, after, before, first, last),
                                Connection(store, b, check, after, before, first, last));
            && many.Err? == one.Err? && (many.Err? ==> many.message == one.message)
            && (many.Err? <==>
                || ((before.Some? || last.Some?) && (after.Some? || first.Some?))
                || (before.Some? && !AtMost(before.value, b.closedUpper))
                || (after.Some? && !AtMost(b.lower, after.value)))
  {
    RefusedIff(store, b, check, after, before, first, last);
  }
}
