/**
 Cursor paging over one store: `collect_records` and `get_connection`, and what a client
 that follows the cursors in either direction receives.
 */
module Paging {
  import opened Wrappers
  import opened Sequences
  import opened Bytes
  import opened StorageKeys
  import opened EventStore

  const MAXIMUM_PAGE_SIZE: nat := 100

  /** The search key of a request, its time range, and its event filter; a filter that
      fails on an event counts as one that rejects it. */
  datatype Query<!T> = Query(start: Key, mid: Option<Key>, from: Option<int>, until: Option<int>, check: T -> bool)

  /** The keys a request scans between, and the key its `before` cursor is checked against. */
  datatype Bounds = Bounds(lower: Key, upper: Key, closedUpper: Key)

  function BoundsOf<T>(q: Query<T>): Bounds {
    Bounds(StorageKey(q.start, q.mid, LowerClosedBound(q.from)),
           StorageKey(q.start, q.mid, UpperOpenBound(q.until)),
           StorageKey(q.start, q.mid, UpperClosedBound(q.until)))
  }

  datatype Page<+T> = Page(records: seq<Entry<T>>, more: bool)

  datatype ConnArgs<+T> = ConnArgs(records: seq<Entry<T>>, hasPrevious: bool, hasNext: bool)

  // ----- one page

  /** The records read from `raw` by a loop that already holds `held` of the `size` wanted.
      The size test follows every record that deserializes, also a rejected one. */
  function Collect<T>(raw: seq<Entry<T>>, held: nat, size: nat, check: T -> bool): Page<T> {
    if raw == [] then Page([], false)
    else if raw[0].value.None? then Collect(raw[1..], held, size, check)
    else if Hit(check, raw[0]) then
      if held + 1 == size then Page([raw[0]], |raw| > 1)
      else
        var page := Collect(raw[1..], held + 1, size, check);
        Page([raw[0]] + page.records, page.more)
    else if held == size then Page([], |raw| > 1)
    else Collect(raw[1..], held, size, check)
  }

  method CollectRecords<T>(iter: BoundaryIter<T>, size: nat, check: T -> bool)
    returns (records: seq<Entry<T>>, hasMore: bool)
    requires iter.Valid()
    modifies iter
    ensures Page(records, hasMore) == Collect(old(iter.Remaining()), 0, size, check)
  {
    records, hasMore := [], false;
    ghost var raw := iter.Remaining();
    ghost var whole := Collect(raw, 0, size, check);
    var item := iter.Next();
    while item.Some?
      invariant iter.Valid()
      invariant item.Some? ==> raw != [] && raw[0] == item.value && iter.Remaining() == raw[1..]
      invariant item.None? ==> raw == []
      invariant !hasMore
      invariant var rest := Collect(raw, |records|, size, check);
                whole == Page(records + rest.records, rest.more)
      decreases |raw|
    {
      var entry := item.value;
      if entry.value.None? {
        raw := iter.Remaining();
        item := iter.Next();
        continue;
      }
      ghost var before := records;
      if check(entry.value.value) {
        records := records + [entry];
      }
      if |records| == size {
        var lookahead := iter.Next();
        hasMore := lookahead.Some?;
        break;
      }
      assert before + Collect(raw, |before|, size, check).records
          == records + Collect(raw[1..], |records|, size, check).records;
      raw := iter.Remaining();
      item := iter.Next();
    }
  }

  /** How many raw records such a loop reads before it holds the `size` wanted. */
  function CutOff<T>(raw: seq<Entry<T>>, held: nat, size: nat, check: T -> bool): (cut: nat)
    ensures cut <= |raw|
  {
    if raw == [] || held >= size then 0
    else 1 + CutOff(raw[1..], if Hit(check, raw[0]) then held + 1 else held, size, check)
  }

  lemma {:induction false} CutOffTakesFirstHits<T>(raw: seq<Entry<T>>, held: nat, size: nat, check: T -> bool)
    requires held <= size
    ensures Hits(raw[..CutOff(raw, held, size, check)], check) == Take(Hits(raw, check), size - held)
  {
    if raw != [] && held < size {
      var held' := if Hit(check, raw[0]) then held + 1 else held;
      CutOffTakesFirstHits(raw[1..], held', size, check);
      CutOffOneMore(raw, size - held, CutOff(raw[1..], held', size, check), check);
    }
  }

  lemma CutOffOneMore<T>(raw: seq<Entry<T>>, n: nat, cut: nat, check: T -> bool)
    requires raw != [] && n > 0 && cut <= |raw[1..]|
    requires Hits(raw[1..][..cut], check) == Take(Hits(raw[1..], check), if Hit(check, raw[0]) then n - 1 else n)
    ensures Hits(raw[..1 + cut], check) == Take(Hits(raw, check), n)
  {
    HitsOneMore(raw, cut, check);
    TakeOneMore(if Hit(check, raw[0]) then [raw[0]] else [], Hits(raw[1..], check), n);
  }

  lemma HitsOneMore<T>(raw: seq<Entry<T>>, cut: nat, check: T -> bool)
    requires cut < |raw|
    ensures Hits(raw[..cut + 1], check) == (if Hit(check, raw[0]) then [raw[0]] else []) + Hits(raw[1..][..cut], check)
  {
    assert raw[..cut + 1][1..] == raw[1..][..cut];
  }

  lemma TakeOneMore<T>(head: seq<T>, rest: seq<T>, n: nat)
    requires |head| <= n
    ensures Take(head + rest, n) == head + Take(rest, n - |head|)
  {
  }

  /** The page holds the first matches; when it reports more, it stopped right after a match
      with raw records left over, and otherwise it holds every match. */
  ghost predicate IsFirstPage<T>(raw: seq<Entry<T>>, held: nat, size: nat, check: T -> bool, page: Page<T>)
    requires held < size
  {
    var cut := CutOff(raw, held, size, check);
    && page.records == Take(Hits(raw, check), size - held) == Hits(raw[..cut], check)
    && (page.more ==>
          0 < cut < |raw| && |page.records| == size - held && page.records[|page.records| - 1] == raw[cut - 1])
    && (!page.more ==> page.records == Hits(raw, check))
  }

  lemma {:induction false} CollectTakesFirstHits<T>(raw: seq<Entry<T>>, held: nat, size: nat, check: T -> bool)
    requires held < size
    ensures IsFirstPage(raw, held, size, check, Collect(raw, held, size, check))
  {
    CutOffTakesFirstHits(raw, held, size, check);
    if raw != [] {
      if !Hit(check, raw[0]) {
        CollectTakesFirstHits(raw[1..], held, size, check);
        SkipOne(raw, held, size, check, Collect(raw[1..], held, size, check));
      } else if held + 1 < size {
        CollectTakesFirstHits(raw[1..], held + 1, size, check);
        TakeOne(raw, held, size, check, Collect(raw[1..], held + 1, size, check));
      } else {
        LastOne(raw, held, size, check);
      }
    }
  }

  lemma SkipOne<T>(raw: seq<Entry<T>>, held: nat, size: nat, check: T -> bool, page: Page<T>)
    requires held < size && raw != [] && !Hit(check, raw[0]) && IsFirstPage(raw[1..], held, size, check, page)
    ensures IsFirstPage(raw, held, size, check, page)
  {
    CutOffTakesFirstHits(raw, held, size, check);
    assert [] + Hits(raw[1..], check) == Hits(raw[1..], check);
  }

  lemma TakeOne<T>(raw: seq<Entry<T>>, held: nat, size: nat, check: T -> bool, page: Page<T>)
    requires held + 1 < size && raw != [] && Hit(check, raw[0]) && IsFirstPage(raw[1..], held + 1, size, check, page)
    ensures IsFirstPage(raw, held, size, check, Page([raw[0]] + page.records, page.more))
  {
    CutOffTakesFirstHits(raw, held, size, check);
    var rest := Hits(raw[1..], check);
    assert Take([raw[0]] + rest, size - held) == [raw[0]] + Take(rest, size - held - 1);
  }

  lemma LastOne<T>(raw: seq<Entry<T>>, held: nat, size: nat, check: T -> bool)
    requires held + 1 == size && raw != [] && Hit(check, raw[0])
    ensures IsFirstPage(raw, held, size, check, Page([raw[0]], |raw| > 1))
  {
    CutOffTakesFirstHits(raw, held, size, check);
    assert CutOff(raw, held, size, check) == 1 + CutOff(raw[1..], size, size, check) == 1;
    assert Take([raw[0]] + Hits(raw[1..], check), 1) == [raw[0]];
    assert |raw| == 1 ==> Hits(raw[1..], check) == [];
  }

  /** The first record that deserializes is one the filter accepts. */
  predicate FirstDecodableMatches<T>(raw: seq<Entry<T>>, check: T -> bool) {
    raw != [] && if raw[0].value.None? then FirstDecodableMatches(raw[1..], check) else Hit(check, raw[0])
  }

  /** Once more records are held than wanted, the size test never succeeds again. */
  lemma {:induction false} CollectOvershoots<T>(raw: seq<Entry<T>>, held: nat, size: nat, check: T -> bool)
    requires held > size
    ensures Collect(raw, held, size, check) == Page(Hits(raw, check), false)
  {
    if raw != [] {
      CollectOvershoots(raw[1..], if Hit(check, raw[0]) then held + 1 else held, size, check);
    }
  }

  /** A page keeps to its size unless the size is zero and the first record that
      deserializes matches: then it holds every match. */
  lemma {:induction false} PageKeepsToItsSize<T>(raw: seq<Entry<T>>, size: nat, check: T -> bool)
    ensures |Collect(raw, 0, size, check).records| <= size <==> size >= 1 || !FirstDecodableMatches(raw, check)
    ensures size == 0 && FirstDecodableMatches(raw, check) ==>
              Collect(raw, 0, size, check) == Page(Hits(raw, check), false)
    ensures size == 0 && !FirstDecodableMatches(raw, check) ==> Collect(raw, 0, size, check).records == []
  {
    if size >= 1 {
      CollectTakesFirstHits(raw, 0, size, check);
    } else if raw != [] {
      if raw[0].value.None? {
        PageKeepsToItsSize(raw[1..], size, check);
      } else if Hit(check, raw[0]) {
        CollectOvershoots(raw[1..], 1, 0, check);
      }
    }
  }

  // ----- one request

  function PageSize(wanted: Option<nat>): (r: nat)
    ensures r <= MAXIMUM_PAGE_SIZE
  {
    var n := if wanted.Some? then wanted.value else MAXIMUM_PAGE_SIZE;
    if n < MAXIMUM_PAGE_SIZE then n else MAXIMUM_PAGE_SIZE
  }

  /** The entries of the requested range, oldest first. */
  function InBounds<T>(store: seq<Entry<T>>, b: Bounds): seq<Entry<T>> {
    Slice(store, LowerIndex(store, b.lower), UpperIndex(store, b.upper))
  }

  /** The raw records a forward request reads: those after the cursor, or all. */
  function RawForward<T>(store: seq<Entry<T>>, b: Bounds, after: Option<Key>): seq<Entry<T>> {
    if after.Some? then Slice(store, UpperIndex(store, after.value), UpperIndex(store, b.upper))
    else InBounds(store, b)
  }

  /** The raw records a backward request reads, oldest first: those before the cursor, or all. */
  function RawBackward<T>(store: seq<Entry<T>>, b: Bounds, before: Option<Key>): seq<Entry<T>> {
    if before.Some? then Slice(store, LowerIndex(store, b.lower), LowerIndex(store, before.value))
    else InBounds(store, b)
  }

  function ForwardPage<T>(raw: seq<Entry<T>>, size: nat, check: T -> bool): ConnArgs<T> {
    var page := Collect(raw, 0, size, check);
    ConnArgs(page.records, false, page.more)
  }

  function BackwardPage<T>(raw: seq<Entry<T>>, size: nat, check: T -> bool): ConnArgs<T> {
    var page := Collect(Reverse(raw), 0, size, check);
    ConnArgs(Reverse(page.records), page.more, false)
  }

  /** What a request answers, by set of entries rather than by cursor movement. */
  function Connection<T>(store: seq<Entry<T>>, b: Bounds, check: T -> bool, after: Option<Key>, before: Option<Key>,
                         first: Option<nat>, last: Option<nat>): Result<ConnArgs<T>>
  {
    if before.Some? then
      if after.Some? then Err("cannot use both `after` and `before`")
      else if first.Some? then Err("'before' and 'first' cannot be specified simultaneously")
      else if Less(b.closedUpper, before.value) then Err("invalid cursor")
      else Ok(BackwardPage(RawBackward(store, b, before), PageSize(last), check))
    else if after.Some? then
      if last.Some? then Err("'after' and 'last' cannot be specified simultaneously")
      else if Less(after.value, b.lower) then Err("invalid cursor")
      else Ok(ForwardPage(RawForward(store, b, after), PageSize(first), check))
    else if last.Some? then
      if first.Some? then Err("first and last cannot be used together")
      else Ok(BackwardPage(RawBackward(store, b, None), PageSize(last), check))
    else
      Ok(ForwardPage(RawForward(store, b, None), PageSize(first), check))
  }

  method BuildKeys<T>(q: Query<T>) returns (lower: StorageKeyBuilder, upper: StorageKeyBuilder)
    ensures fresh(lower) && fresh(upper) && lower != upper
    ensures lower.preKey == upper.preKey == KeyPrefix(q.start, q.mid)
  {
    lower := new StorageKeyBuilder();
    lower.StartKey(q.start);
    lower.MidKey(q.mid);
    assert [] + q.start + [0] == q.start + [0];
    upper := lower.Clone();
  }

  /** A page before a cursor, checked against the closed end of the range. */
  method PageBefore<T>(store: seq<Entry<T>>, q: Query<T>, before: Key, last: Option<nat>)
    returns (result: Result<ConnArgs<T>>)
    requires Sorted(store)
    ensures result == if Less(BoundsOf(q).closedUpper, before) then Err("invalid cursor")
                      else Ok(BackwardPage(RawBackward(store, BoundsOf(q), Some(before)), PageSize(last), q.check))
  {
    var lower, upper := BuildKeys(q);
    upper.UpperClosedBoundEndKey(q.until);
    lower.LowerClosedBoundEndKey(q.from);
    var fromKey := upper.Build();
    var toKey := lower.Build();
    if Less(fromKey, before) {
      return Err("invalid cursor");
    }
    var iter := new BoundaryIter(store, before, toKey, Reversed);
    SkipCursorBackward(store, toKey, before);
    var peeked := iter.Peek();
    if peeked.Some? && peeked.value.key == before {
      var _ := iter.Next();
    }
    assert iter.Remaining() == Reverse(RawBackward(store, BoundsOf(q), Some(before)));
    var records, hasPrevious := CollectRecords(iter, PageSize(last), q.check);
    result := Ok(ConnArgs(Reverse(records), hasPrevious, false));
  }

  /** A page after a cursor. */
  method PageAfter<T>(store: seq<Entry<T>>, q: Query<T>, after: Key, first: Option<nat>)
    returns (result: Result<ConnArgs<T>>)
    requires Sorted(store)
    ensures result == if Less(after, BoundsOf(q).lower) then Err("invalid cursor")
                      else Ok(ForwardPage(RawForward(store, BoundsOf(q), Some(after)), PageSize(first), q.check))
  {
    var lower, upper := BuildKeys(q);
    lower.LowerClosedBoundEndKey(q.from);
    upper.UpperOpenBoundEndKey(q.until);
    var fromKey := lower.Build();
    var toKey := upper.Build();
    if Less(after, fromKey) {
      return Err("invalid cursor");
    }
    var iter := new BoundaryIter(store, after, toKey, Forward);
    SkipCursorForward(store, toKey, after);
    var peeked := iter.Peek();
    if peeked.Some? && peeked.value.key == after {
      var _ := iter.Next();
    }
    assert iter.Remaining() == RawForward(store, BoundsOf(q), Some(after));
    var records, hasNext := CollectRecords(iter, PageSize(first), q.check);
    result := Ok(ConnArgs(records, false, hasNext));
  }

  /** The last page of the range. */
  method LastPageOf<T>(store: seq<Entry<T>>, q: Query<T>, last: Option<nat>) returns (conn: ConnArgs<T>)
    requires Sorted(store)
    ensures conn == BackwardPage(RawBackward(store, BoundsOf(q), None), PageSize(last), q.check)
  {
    var lower, upper := BuildKeys(q);
    upper.UpperOpenBoundEndKey(q.until);
    lower.LowerClosedBoundEndKey(q.from);
    var fromKey := upper.Build();
    var toKey := lower.Build();
    var iter := new BoundaryIter(store, fromKey, toKey, Reversed);
    BackwardScan(store, toKey, fromKey);
    var records, hasPrevious := CollectRecords(iter, PageSize(last), q.check);
    conn := ConnArgs(Reverse(records), hasPrevious, false);
  }

  /** The first page of the range. */
  method FirstPageOf<T>(store: seq<Entry<T>>, q: Query<T>, first: Option<nat>) returns (conn: ConnArgs<T>)
    requires Sorted(store)
    ensures conn == ForwardPage(RawForward(store, BoundsOf(q), None), PageSize(first), q.check)
  {
    var lower, upper := BuildKeys(q);
    lower.LowerClosedBoundEndKey(q.from);
    upper.UpperOpenBoundEndKey(q.until);
    var fromKey := lower.Build();
    var toKey := upper.Build();
    var iter := new BoundaryIter(store, fromKey, toKey, Forward);
    ForwardScan(store, fromKey, toKey);
    var records, hasNext := CollectRecords(iter, PageSize(first), q.check);
    conn := ConnArgs(records, false, hasNext);
  }

  method GetConnection<T>(store: seq<Entry<T>>, q: Query<T>, after: Option<Key>, before: Option<Key>,
                          first: Option<nat>, last: Option<nat>)
    returns (result: Result<ConnArgs<T>>)
    requires Sorted(store)
    ensures result == Connection(store, BoundsOf(q), q.check, after, before, first, last)
  {
    if before.Some? {
      if after.Some? {
        return Err("cannot use both `after` and `before`");
      }
      if first.Some? {
        return Err("'before' and 'first' cannot be specified simultaneously");
      }
      result := PageBefore(store, q, before.value, last);
    } else if after.Some? {
      if last.Some? {
        return Err("'after' and 'last' cannot be specified simultaneously");
      }
      result := PageAfter(store, q, after.value, first);
    } else if last.Some? {
      if first.Some? {
        return Err("first and last cannot be used together");
      }
      var conn := LastPageOf(store, q, last);
      result := Ok(conn);
    } else {
      var conn := FirstPageOf(store, q, first);
      result := Ok(conn);
    }
  }

  // ----- cursor movement

  /** A scan from a cursor, without the cursor's own entry, is what lies after it. */
  lemma SkipCursorForward<T>(store: seq<Entry<T>>, to: Key, cursor: Key)
    requires Sorted(store)
    ensures var run := Within(Seek(store, cursor, Forward), to, Forward);
            Slice(store, UpperIndex(store, cursor), UpperIndex(store, to))
            == if run != [] && run[0].key == cursor then run[1..] else run
  {
    ForwardScan(store, cursor, to);
    IndexOfAbsent(store, cursor);
  }

  lemma ReverseSlice<T>(s: seq<T>, lower: nat, i: nat)
    requires lower <= |s| && i < |s|
    ensures Reverse(Slice(s, lower, i + 1)) == (if lower <= i then [s[i]] else []) + Reverse(Slice(s, lower, i))
  {
    if lower <= i {
      assert Slice(s, lower, i + 1) == Slice(s, lower, i) + [s[i]];
      ReverseConcat(Slice(s, lower, i), [s[i]]);
      assert Reverse([s[i]]) == [s[i]];
    }
  }

  /** Nothing below a key's position has that key. */
  lemma BelowPosition<T>(store: seq<Entry<T>>, cursor: Key, n: nat)
    requires Sorted(store) && n < LowerIndex(store, cursor)
    ensures store[n].key != cursor
  {
    IndexSplits(store, cursor);
    Trichotomy(cursor, cursor);
  }

  lemma SkipCursorBackward<T>(store: seq<Entry<T>>, to: Key, cursor: Key)
    requires Sorted(store)
    ensures var run := Within(Seek(store, cursor, Reversed), to, Reversed);
            Reverse(Slice(store, LowerIndex(store, to), LowerIndex(store, cursor)))
            == if run != [] && run[0].key == cursor then run[1..] else run
  {
    BackwardScan(store, to, cursor);
    IndexOfAbsent(store, cursor);
    var (lower, i) := (LowerIndex(store, to), LowerIndex(store, cursor));
    if i < |store| && store[i].key == cursor {
      ReverseSlice(store, lower, i);
    }
    if lower < i {
      ReverseSlice(store, lower, i - 1);
      BelowPosition(store, cursor, i - 1);
    }
  }

  // ----- following the cursors

  /** Asking after the record at position i continues exactly behind it. */
  lemma CursorContinuesForward<T>(store: seq<Entry<T>>, b: Bounds, after: Option<Key>, i: nat)
    requires Sorted(store)
    requires after.Some? ==> AtMost(b.lower, after.value)
    requires i < |RawForward(store, b, after)|
    ensures var raw := RawForward(store, b, after);
            AtMost(b.lower, raw[i].key) && RawForward(store, b, Some(raw[i].key)) == raw[i + 1..]
  {
    var base := if after.Some? then UpperIndex(store, after.value) else LowerIndex(store, b.lower);
    var key := store[base + i].key;
    IndexOfEntry(store, base + i);
    IndexSplits(store, if after.Some? then after.value else b.lower);
    TotalOrder(b.lower, key, key);
    if after.Some? {
      TotalOrder(key, after.value, key);
      TotalOrder(b.lower, after.value, key);
    }
    TotalOrder(key, b.lower, key);
  }

  /** Asking before the record at position i continues exactly in front of it. */
  lemma CursorContinuesBackward<T>(store: seq<Entry<T>>, b: Bounds, before: Option<Key>, i: nat)
    requires Sorted(store)
    requires i < |RawBackward(store, b, before)|
    ensures var raw := RawBackward(store, b, before);
            && RawBackward(store, b, Some(raw[i].key)) == raw[..i]
            && AtMost(raw[i].key, if before.Some? then before.value else b.upper)
  {
    var (base, end) := (LowerIndex(store, b.lower),
                        if before.Some? then LowerIndex(store, before.value) else UpperIndex(store, b.upper));
    IndexOfEntry(store, base + i);
    IndexSplits(store, if before.Some? then before.value else b.upper);
    FrontOfSlice(store, base, end, i);
  }

  lemma FrontOfSlice<T>(s: seq<T>, from: nat, to: nat, i: nat)
    requires from <= |s| && to <= |s| && i < |Slice(s, from, to)|
    ensures from + i < to && Slice(s, from, to)[i] == s[from + i] && Slice(s, from, from + i) == Slice(s, from, to)[..i]
  {
  }

  /** A page of positive size, and the matches behind it when it reports more. */
  lemma PageStep<T>(raw: seq<Entry<T>>, n: nat, check: T -> bool)
    requires n >= 1
    ensures var (page, cut) := (Collect(raw, 0, n, check), CutOff(raw, 0, n, check));
            if page.more then
              && 0 < cut < |raw| && |page.records| == n && page.records[n - 1] == raw[cut - 1]
              && Hits(raw, check) == page.records + Hits(raw[cut..], check)
            else |page.records| <= n && page.records == Hits(raw, check)
  {
    CollectTakesFirstHits(raw, 0, n, check);
    var cut := CutOff(raw, 0, n, check);
    assert raw == raw[..cut] + raw[cut..];
    HitsConcat(raw[..cut], raw[cut..], check);
  }

  lemma ReverseOfFront<T>(raw: seq<T>, down: seq<T>, front: seq<T>, turned: seq<T>, cut: nat)
    requires IsReverse(raw, down) && IsReverse(front, turned) && cut <= |raw| && front == raw[..|raw| - cut]
    ensures down[cut..] == turned
  {
  }

  /** The matches of the records read downwards, turned back. */
  lemma HitsTurned<T>(raw: seq<Entry<T>>, check: T -> bool)
    ensures Reverse(Hits(Reverse(raw), check)) == Hits(raw, check)
  {
    HitsReverse(raw, check);
    ReverseReverse(Hits(raw, check));
  }

  /** The same page read downwards. */
  lemma PageStepDown<T>(raw: seq<Entry<T>>, n: nat, check: T -> bool)
    requires n >= 1
    ensures var (page, cut) := (Collect(Reverse(raw), 0, n, check), CutOff(Reverse(raw), 0, n, check));
            if page.more then
              && 0 < cut < |raw| && |page.records| == n && Reverse(page.records)[0] == raw[|raw| - cut]
              && Hits(raw, check) == Hits(raw[..|raw| - cut], check) + Reverse(page.records)
            else |page.records| <= n && Reverse(page.records) == Hits(raw, check)
  {
    var down := Reverse(raw);
    PageStep(down, n, check);
    HitsTurned(raw, check);
    var (page, cut) := (Collect(down, 0, n, check), CutOff(down, 0, n, check));
    if page.more {
      RestTurned(raw, down, cut, check);
      ReverseConcat(page.records, Hits(down[cut..], check));
    }
  }

  lemma RestTurned<T>(raw: seq<Entry<T>>, down: seq<Entry<T>>, cut: nat, check: T -> bool)
    requires IsReverse(raw, down) && cut <= |raw|
    ensures Reverse(Hits(down[cut..], check)) == Hits(raw[..|raw| - cut], check)
  {
    var rest := raw[..|raw| - cut];
    ReverseOfFront(raw, down, rest, Reverse(rest), cut);
    HitsTurned(rest, check);
  }

  lemma ForwardAnswer<T>(store: seq<Entry<T>>, b: Bounds, check: T -> bool, size: nat, after: Option<Key>)
    requires after.Some? ==> AtMost(b.lower, after.value)
    ensures Connection(store, b, check, after, None, Some(size), None)
         == Ok(ForwardPage(RawForward(store, b, after), PageSize(Some(size)), check))
  {
    if after.Some? {
      TotalOrder(b.lower, after.value, after.value);
    }
  }

  lemma BackwardAnswer<T>(store: seq<Entry<T>>, b: Bounds, check: T -> bool, size: nat, before: Option<Key>)
    requires before.Some? ==> AtMost(before.value, b.closedUpper)
    ensures Connection(store, b, check, None, before, None, Some(size))
         == Ok(BackwardPage(RawBackward(store, b, before), PageSize(Some(size)), check))
  {
    if before.Some? {
      TotalOrder(before.value, b.closedUpper, b.closedUpper);
    }
  }

  /** One forward request of positive size: its matches, and where its last cursor leads. */
  lemma ForwardStep<T>(store: seq<Entry<T>>, b: Bounds, check: T -> bool, size: nat, after: Option<Key>)
    requires Sorted(store) && size >= 1
    requires after.Some? ==> AtMost(b.lower, after.value)
    ensures Connection(store, b, check, after, None, Some(size), None).Ok?
    ensures var conn := Connection(store, b, check, after, None, Some(size), None).value;
            var raw := RawForward(store, b, after);
            if conn.hasNext then
              && |conn.records| == PageSize(Some(size)) && conn.records != []
              && var next := conn.records[|conn.records| - 1].key;
              && AtMost(b.lower, next)
              && |RawForward(store, b, Some(next))| < |raw|
              && Hits(raw, check) == conn.records + Hits(RawForward(store, b, Some(next)), check)
            else
              |conn.records| <= PageSize(Some(size)) && conn.records == Hits(raw, check)
  {
    var raw := RawForward(store, b, after);
    var n := PageSize(Some(size));
    ForwardAnswer(store, b, check, size, after);
    PageStep(raw, n, check);
    var (page, cut) := (Collect(raw, 0, n, check), CutOff(raw, 0, n, check));
    if page.more {
      CursorContinuesForward(store, b, after, cut - 1);
      assert raw[cut - 1 + 1..] == raw[cut..];
    }
  }

  /** One backward request of positive size: its matches, and where its first cursor leads. */
  lemma BackwardStep<T>(store: seq<Entry<T>>, b: Bounds, check: T -> bool, size: nat, before: Option<Key>)
    requires Sorted(store) && size >= 1
    requires before.Some? ==> AtMost(before.value, b.closedUpper)
    ensures Connection(store, b, check, None, before, None, Some(size)).Ok?
    ensures var conn := Connection(store, b, check, None, before, None, Some(size)).value;
            var raw := RawBackward(store, b, before);
            if conn.hasPrevious then
              && |conn.records| == PageSize(Some(size)) && conn.records != []
              && var next := conn.records[0].key;
              && AtMost(next, if before.Some? then before.value else b.upper)
              && |RawBackward(store, b, Some(next))| < |raw|
              && Hits(raw, check) == Hits(RawBackward(store, b, Some(next)), check) + conn.records
            else
              |conn.records| <= PageSize(Some(size)) && conn.records == Hits(raw, check)
  {
    var raw := RawBackward(store, b, before);
    var n := PageSize(Some(size));
    BackwardAnswer(store, b, check, size, before);
    PageStepDown(raw, n, check);
    if Collect(Reverse(raw), 0, n, check).more {
      CursorContinuesBackward(store, b, before, |raw| - CutOff(Reverse(raw), 0, n, check));
    }
  }

  /** The pages a client receives that starts at `after` and follows the last cursor of
      each page while the answer reports a next page. */
  ghost function ForwardPages<T>(store: seq<Entry<T>>, b: Bounds, check: T -> bool, size: nat,
                                 after: Option<Key>): seq<seq<Entry<T>>>
    requires Sorted(store) && size >= 1
    requires after.Some? ==> AtMost(b.lower, after.value)
    decreases |RawForward(store, b, after)|
  {
    ForwardStep(store, b, check, size, after);
    var conn := Connection(store, b, check, after, None, Some(size), None).value;
    [conn.records] +
    if conn.hasNext then ForwardPages(store, b, check, size, Some(conn.records[|conn.records| - 1].key)) else []
  }

  /** The pages of a client that starts at `before`, follows the first cursor of each page
      while the answer reports a previous page, and puts each new page in front. */
  ghost function BackwardPages<T>(store: seq<Entry<T>>, b: Bounds, check: T -> bool, size: nat,
                                  before: Option<Key>): seq<seq<Entry<T>>>
    requires Sorted(store) && size >= 1
    requires before.Some? ==> AtMost(before.value, b.closedUpper)
    decreases |RawBackward(store, b, before)|
  {
    BackwardStep(store, b, check, size, before);
    var conn := Connection(store, b, check, None, before, None, Some(size)).value;
    (if conn.hasPrevious && AtMost(conn.records[0].key, b.closedUpper) then
       BackwardPages(store, b, check, size, Some(conn.records[0].key))
     else [])
    + [conn.records]
  }

  /** Pages of which every one but the last is full, and what they hold together. */
  ghost predicate CoverForward<T>(pages: seq<seq<T>>, hits: seq<T>, n: nat) {
    && Flatten(pages) == hits && pages != []
    && (forall i :: 0 <= i < |pages| - 1 ==> |pages[i]| == n)
    && |pages[|pages| - 1]| <= n
  }

  ghost predicate CoverBackward<T>(pages: seq<seq<T>>, hits: seq<T>, n: nat) {
    && Flatten(pages) == hits && pages != []
    && (forall i :: 0 < i < |pages| ==> |pages[i]| == n)
    && |pages[0]| <= n
  }

  lemma OnePage<T>(page: seq<T>, n: nat)
    requires |page| <= n
    ensures CoverForward([page], page, n) && CoverBackward([page], page, n)
  {
    assert [page][1..] == [] && page + [] == page;
  }

  lemma PageInFront<T>(page: seq<T>, pages: seq<seq<T>>, hits: seq<T>, n: nat)
    requires |page| == n && CoverForward(pages, hits, n)
    ensures CoverForward([page] + pages, page + hits, n)
  {
    var all := [page] + pages;
    assert all[1..] == pages;
    assert forall i {:trigger all[i]} :: 0 < i < |all| ==> all[i] == pages[i - 1];
  }

  lemma PageBehind<T>(page: seq<T>, pages: seq<seq<T>>, hits: seq<T>, n: nat)
    requires |page| == n && CoverBackward(pages, hits, n)
    ensures CoverBackward(pages + [page], hits + page, n)
  {
    FlattenConcat(pages, [page]);
    OnePage(page, n);
  }

  /** Every page but the last is full, and together they are the matches among the raw records. */
  lemma {:induction false} ForwardPagesCoverRaw<T>(store: seq<Entry<T>>, b: Bounds, check: T -> bool, size: nat,
                                                   after: Option<Key>)
    requires Sorted(store) && size >= 1
    requires after.Some? ==> AtMost(b.lower, after.value)
    ensures CoverForward(ForwardPages(store, b, check, size, after), Hits(RawForward(store, b, after), check),
                         PageSize(Some(size)))
    decreases |RawForward(store, b, after)|
  {
    ForwardStep(store, b, check, size, after);
    var conn := Connection(store, b, check, after, None, Some(size), None).value;
    if conn.hasNext {
      var next := conn.records[|conn.records| - 1].key;
      ForwardPagesCoverRaw(store, b, check, size, Some(next));
      PageInFront(conn.records, ForwardPages(store, b, check, size, Some(next)),
                  Hits(RawForward(store, b, Some(next)), check), PageSize(Some(size)));
    } else {
      OnePage(conn.records, PageSize(Some(size)));
    }
  }

  lemma {:induction false} BackwardPagesCoverRaw<T>(store: seq<Entry<T>>, b: Bounds, check: T -> bool, size: nat,
                                                    before: Option<Key>)
    requires Sorted(store) && size >= 1
    requires before.Some? ==> AtMost(before.value, b.closedUpper)
    requires AtMost(b.upper, b.closedUpper) || RawBackward(store, b, before) == []
    ensures CoverBackward(BackwardPages(store, b, check, size, before), Hits(RawBackward(store, b, before), check),
                          PageSize(Some(size)))
    decreases |RawBackward(store, b, before)|
  {
    BackwardStep(store, b, check, size, before);
    var conn := Connection(store, b, check, None, before, None, Some(size)).value;
    if conn.hasPrevious {
      var next := conn.records[0].key;
      TotalOrder(next, if before.Some? then before.value else b.upper, b.closedUpper);
      BackwardPagesCoverRaw(store, b, check, size, Some(next));
      PageBehind(conn.records, BackwardPages(store, b, check, size, Some(next)),
                 Hits(RawBackward(store, b, Some(next)), check), PageSize(Some(size)));
    } else {
      OnePage(conn.records, PageSize(Some(size)));
    }
  }

  // ----- paging against the events of a source

  /** A key of this source and kind in the time window. */
  predicate IsRequested<T>(q: Query<T>, key: Key) {
    && |key| >= TIMESTAMP_SIZE
    && key == StorageKey(q.start, q.mid, TimestampOf(key))
    && InWindow(q.from, q.until, TimestampOf(key))
  }

  /** What the caller asked for: an accepted event of this source and kind in the time window. */
  predicate IsAnswer<T>(q: Query<T>, e: Entry<T>) {
    IsRequested(q, e.key) && Hit(q.check, e)
  }

  /** The answers a store holds, in key order. */
  function Answers<T>(store: seq<Entry<T>>, q: Query<T>): seq<Entry<T>> {
    if store == [] then [] else (if IsAnswer(q, store[0]) then [store[0]] else []) + Answers(store[1..], q)
  }

  ghost predicate WellFormedQuery<T>(layout: Layout, q: Query<T>) {
    NulFree(q.start) && MidFits(layout, q.mid)
  }

  /** Which entries of a store lie in the requested range, by position. */
  lemma QueryPositions<T>(layout: Layout, store: seq<Entry<T>>, q: Query<T>, i: nat)
    requires WellFormed(layout, store) && WellFormedQuery(layout, q) && WindowIsExact(q.from, q.until)
    requires i < |store|
    ensures LowerIndex(store, BoundsOf(q).lower) <= i < UpperIndex(store, BoundsOf(q).upper)
       <==> IsRequested(q, store[i].key)
  {
    var key := store[i].key;
    WindowExactness(q.from, q.until);
    RangePositions(layout, store, q.start, q.mid, LowerClosedBound(q.from), UpperOpenBound(q.until), i);
    var t := TimestampOf(key);
    assert Scanned(q.from, q.until, t) <==> InWindow(q.from, q.until, t);
  }

  lemma {:induction false} AnswersConcat<T>(a: seq<Entry<T>>, b: seq<Entry<T>>, q: Query<T>)
    ensures Answers(a + b, q) == Answers(a, q) + Answers(b, q)
  {
    if a == [] {
      assert a + b == b;
    } else {
      assert (a + b)[1..] == a[1..] + b;
      AnswersConcat(a[1..], b, q);
      var head := if IsAnswer(q, a[0]) then [a[0]] else [];
      assert Answers(a + b, q) == head + (Answers(a[1..], q) + Answers(b, q));
    }
  }

  lemma {:induction false} AnswersInside<T>(run: seq<Entry<T>>, q: Query<T>)
    requires forall i :: 0 <= i < |run| ==> IsRequested(q, run[i].key)
    ensures Answers(run, q) == Hits(run, q.check)
  {
    if run != [] {
      AnswersInside(run[1..], q);
    }
  }

  lemma {:induction false} AnswersOutside<T>(run: seq<Entry<T>>, q: Query<T>)
    requires forall i :: 0 <= i < |run| ==> !IsRequested(q, run[i].key)
    ensures Answers(run, q) == []
  {
    if run != [] {
      AnswersOutside(run[1..], q);
    }
  }

  /** The matches in the scanned range are the answers in the whole store. */
  lemma HitsInBoundsAreAnswers<T>(layout: Layout, store: seq<Entry<T>>, q: Query<T>)
    requires WellFormed(layout, store) && WellFormedQuery(layout, q) && WindowIsExact(q.from, q.until)
    ensures Hits(InBounds(store, BoundsOf(q)), q.check) == Answers(store, q)
  {
    var (a, b) := (LowerIndex(store, BoundsOf(q).lower), UpperIndex(store, BoundsOf(q).upper));
    forall i | 0 <= i < |store|
      ensures a <= i < b <==> IsRequested(q, store[i].key)
    {
      QueryPositions(layout, store, q, i);
    }
    SplitAnswers(store, q, if a <= b then a else b, b);
  }

  lemma SplitAnswers<T>(store: seq<Entry<T>>, q: Query<T>, a: nat, b: nat)
    requires a <= b <= |store|
    requires forall i :: 0 <= i < |store| ==> (a <= i < b <==> IsRequested(q, store[i].key))
    ensures Answers(store, q) == Hits(store[a..b], q.check)
  {
    var (front, run, back) := (store[..a], store[a..b], store[b..]);
    CutTwice(store, a, b);
    AnswersConcat(front, run + back, q);
    AnswersConcat(run, back, q);
    AnswersOutside(front, q);
    AnswersInside(run, q);
    AnswersOutside(back, q);
    assert [] + (Hits(run, q.check) + []) == Hits(run, q.check);
  }

  lemma CutTwice<T>(s: seq<T>, a: nat, b: nat)
    requires a <= b <= |s|
    ensures s == s[..a] + (s[a..b] + s[b..])
  {
  }

  /** Forward paging from the first page delivers every answer exactly once, in key order. */
  lemma ForwardPagingIsExact<T>(layout: Layout, store: seq<Entry<T>>, q: Query<T>, size: nat)
    requires WellFormed(layout, store) && WellFormedQuery(layout, q) && WindowIsExact(q.from, q.until)
    requires size >= 1
    ensures Flatten(ForwardPages(store, BoundsOf(q), q.check, size, None)) == Answers(store, q)
  {
    ForwardPagesCoverRaw(store, BoundsOf(q), q.check, size, None);
    HitsInBoundsAreAnswers(layout, store, q);
  }

  /** Over all stores, forward paging is exact exactly for the windows listed in WindowIsExact. */
  lemma ForwardPagingIsExactIff<T(!new)>(layout: Layout, q: Query<T>, size: nat, accepted: T)
    requires WellFormedQuery(layout, q) && size >= 1 && q.check(accepted)
    ensures (forall store: seq<Entry<T>> :: WellFormed(layout, store) ==>
               Flatten(ForwardPages(store, BoundsOf(q), q.check, size, None)) == Answers(store, q))
       <==> WindowIsExact(q.from, q.until)
  {
    if WindowIsExact(q.from, q.until) {
      forall store: seq<Entry<T>> | WellFormed(layout, store)
        ensures Flatten(ForwardPages(store, BoundsOf(q), q.check, size, None)) == Answers(store, q)
      {
        ForwardPagingIsExact(layout, store, q, size);
      }
    } else {
      WindowExactness(q.from, q.until);
      var t :| 0 <= t <= I64_MAX && Scanned(q.from, q.until, t) != InWindow(q.from, q.until, t);
      var store := [Entry(StorageKey(q.start, q.mid, t), Some(accepted))];
      SingleEventStore(layout, q, t, store);
      ForwardPagesCoverRaw(store, BoundsOf(q), q.check, size, None);
    }
  }

  /** A store of one accepted event is scanned by its bounds and answers by its window. */
  lemma SingleEventStore<T>(layout: Layout, q: Query<T>, t: I64, store: seq<Entry<T>>)
    requires WellFormedQuery(layout, q) && t >= 0
    requires |store| == 1 && store[0].key == StorageKey(q.start, q.mid, t) && Hit(q.check, store[0])
    ensures WellFormed(layout, store)
    ensures Hits(InBounds(store, BoundsOf(q)), q.check) == if Scanned(q.from, q.until, t) then store else []
    ensures Answers(store, q) == if InWindow(q.from, q.until, t) then store else []
  {
    OwnKey(layout, q, t);
    SingleEntryScan(store, BoundsOf(q), q.check);
    SingleAnswer(store, q);
  }

  lemma OwnKey<T>(layout: Layout, q: Query<T>, t: I64)
    requires WellFormedQuery(layout, q) && t >= 0
    ensures var key := StorageKey(q.start, q.mid, t);
            && IsEventKey(layout, key)
            && (IsRequested(q, key) <==> InWindow(q.from, q.until, t))
            && (InRange(key, BoundsOf(q).lower, BoundsOf(q).upper) <==> Scanned(q.from, q.until, t))
  {
    assert EventParts(layout, q.start, q.mid, t);
    TimestampRoundTrip(q.start, q.mid, t);
    RangeIsExact(layout, q.start, q.mid, LowerClosedBound(q.from), UpperOpenBound(q.until), q.start, q.mid, t);
  }

  lemma SingleEntryScan<T>(store: seq<Entry<T>>, b: Bounds, check: T -> bool)
    requires |store| == 1 && Hit(check, store[0])
    ensures Hits(InBounds(store, b), check) == if InRange(store[0].key, b.lower, b.upper) then store else []
  {
    TotalOrder(b.lower, store[0].key, b.lower);
    TotalOrder(store[0].key, b.upper, b.upper);
    assert store[0..1] == store == [store[0]];
    assert store[1..] == [];
  }

  lemma SingleAnswer<T>(store: seq<Entry<T>>, q: Query<T>)
    requires |store| == 1
    ensures Answers(store, q) == if IsAnswer(q, store[0]) then store else []
  {
    assert store == [store[0]];
  }

  /** The open end is not above the closed one, or the window is empty. */
  lemma BoundsOrdered<T>(layout: Layout, store: seq<Entry<T>>, q: Query<T>)
    requires WellFormed(layout, store) && WellFormedQuery(layout, q) && WindowIsExact(q.from, q.until)
    ensures AtMost(BoundsOf(q).upper, BoundsOf(q).closedUpper) || InBounds(store, BoundsOf(q)) == []
  {
    if q.until != Some(0) {
      OpenBelowClosed(KeyPrefix(q.start, q.mid), q.until);
    } else {
      NothingBeforeEpoch(layout, store, q);
    }
  }

  lemma OpenBelowClosed(prefix: Key, until: Option<int>)
    requires until != Some(0)
    ensures AtMost(prefix + ToBeBytes(UpperOpenBound(until)), prefix + ToBeBytes(UpperClosedBound(until)))
  {
    var (hi, closed) := (UpperOpenBound(until), UpperClosedBound(until));
    assert Unsigned(hi) <= Unsigned(closed);
    SuffixOrder(prefix, hi, closed);
  }

  lemma NothingBeforeEpoch<T>(layout: Layout, store: seq<Entry<T>>, q: Query<T>)
    requires WellFormed(layout, store) && WellFormedQuery(layout, q) && WindowIsExact(q.from, q.until)
    requires q.until == Some(0)
    ensures InBounds(store, BoundsOf(q)) == []
  {
    var n := LowerIndex(store, BoundsOf(q).lower);
    if n < UpperIndex(store, BoundsOf(q).upper) {
      QueryPositions(layout, store, q, n);
      EventTimeNonnegative(layout, store[n].key);
    }
  }

  lemma EventTimeNonnegative(layout: Layout, key: Key)
    requires IsEventKey(layout, key)
    ensures |key| >= TIMESTAMP_SIZE && TimestampOf(key) >= 0
  {
    var s, m, t :| EventParts(layout, s, m, t) && key == StorageKey(s, m, t);
    TimestampRoundTrip(s, m, t);
  }

  /** Backward paging from the last page, new pages put in front, delivers the same list. */
  lemma BackwardPagingIsExact<T>(layout: Layout, store: seq<Entry<T>>, q: Query<T>, size: nat)
    requires WellFormed(layout, store) && WellFormedQuery(layout, q) && WindowIsExact(q.from, q.until)
    requires size >= 1
    ensures Flatten(BackwardPages(store, BoundsOf(q), q.check, size, None)) == Answers(store, q)
         == Flatten(ForwardPages(store, BoundsOf(q), q.check, size, None))
  {
    BoundsOrdered(layout, store, q);
    BackwardPagesCoverRaw(store, BoundsOf(q), q.check, size, None);
    HitsInBoundsAreAnswers(layout, store, q);
    ForwardPagingIsExact(layout, store, q, size);
  }

  lemma BeforeCursorInWindow<T>(layout: Layout, store: seq<Entry<T>>, q: Query<T>, b: Bounds, before: Key, i: nat)
    requires WellFormed(layout, store) && WellFormedQuery(layout, q) && WindowIsExact(q.from, q.until)
    requires b == BoundsOf(q) && AtMost(before, b.closedUpper) && i < |RawBackward(store, b, Some(before))|
    ensures var e := RawBackward(store, b, Some(before))[i];
            e in store && IsRequested(q, e.key) && Less(e.key, before)
  {
    var e := RawBackwardEntry(store, b, before, i);
    TotalOrder(e.key, before, b.closedUpper);
    BelowClosedEnd(layout, q, e.key);
  }

  lemma RawBackwardEntry<T>(store: seq<Entry<T>>, b: Bounds, before: Key, i: nat) returns (e: Entry<T>)
    requires Sorted(store) && i < |RawBackward(store, b, Some(before))|
    ensures e == RawBackward(store, b, Some(before))[i] && e in store && AtMost(b.lower, e.key) && Less(e.key, before)
  {
    var n := LowerIndex(store, b.lower) + i;
    e := store[n];
    IndexSplits(store, b.lower);
    IndexSplits(store, before);
    TotalOrder(b.lower, e.key, e.key);
  }

  lemma BelowClosedEnd<T>(layout: Layout, q: Query<T>, key: Key)
    requires WellFormedQuery(layout, q) && WindowIsExact(q.from, q.until) && IsEventKey(layout, key)
    requires AtMost(BoundsOf(q).lower, key) && Less(key, BoundsOf(q).closedUpper)
    ensures IsRequested(q, key)
  {
    EventInRange(layout, q.start, q.mid, LowerClosedBound(q.from), UpperClosedBound(q.until), key);
    SuffixOrder(KeyPrefix(q.start, q.mid), TimestampOf(key), UpperClosedBound(q.until));
  }

  /** A page before any accepted cursor holds answers only, although the cursor is
      checked against the closed end of the range. */
  lemma BeforePageStaysInWindow<T>(layout: Layout, store: seq<Entry<T>>, q: Query<T>, before: Key, last: Option<nat>,
                                   i: nat)
    requires WellFormed(layout, store) && WellFormedQuery(layout, q) && WindowIsExact(q.from, q.until)
    requires var answer := Connection(store, BoundsOf(q), q.check, None, Some(before), None, last);
             answer.Ok? && i < |answer.value.records|
    ensures var e := Connection(store, BoundsOf(q), q.check, None, Some(before), None, last).value.records[i];
            e in store && IsAnswer(q, e) && Less(e.key, before)
  {
    var b := BoundsOf(q);
    TotalOrder(before, b.closedUpper, before);
    var j := PageRecordComesFrom(RawBackward(store, b, Some(before)), PageSize(last), q.check, i);
    BeforeCursorInWindow(layout, store, q, b, before, j);
  }

  lemma PageRecordComesFrom<T>(raw: seq<Entry<T>>, size: nat, check: T -> bool, i: nat) returns (j: nat)
    requires i < |BackwardPage(raw, size, check).records|
    ensures j < |raw| && raw[j] == BackwardPage(raw, size, check).records[i] && Hit(check, raw[j])
  {
    var down := Reverse(raw);
    var page := Collect(down, 0, size, check);
    if size >= 1 {
      CollectTakesFirstHits(down, 0, size, check);
    } else {
      PageKeepsToItsSize(down, size, check);
    }
    var e := Reverse(page.records)[i];
    assert e == Hits(down, check)[|page.records| - 1 - i];
    j := HitComesFrom(raw, check, e);
  }

  lemma HitComesFrom<T>(raw: seq<Entry<T>>, check: T -> bool, e: Entry<T>) returns (j: nat)
    requires e in Hits(Reverse(raw), check)
    ensures j < |raw| && raw[j] == e && Hit(check, e)
  {
    HitsMembers(Reverse(raw), check, e);
    var k :| 0 <= k < |raw| && Reverse(raw)[k] == e;
    j := |raw| - 1 - k;
  }
}
