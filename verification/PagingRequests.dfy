/**
 What one paging request answers, with its numbers written out: how many records, which
 ones, whether more are reported, and which requests are refused.
 */
module PagingRequests {
  import opened Wrappers
  import opened Sequences
  import opened Bytes
  import opened StorageKeys
  import opened EventStore
  import opened Paging

  // ----- when more is reported

  /** More is reported exactly when the wanted matches stand in front of the last raw record,
      whatever that record is. */
  lemma {:induction false} MoreIff<T>(raw: seq<Entry<T>>, held: nat, size: nat, check: T -> bool)
    requires held < size
    ensures Collect(raw, held, size, check).more <==>
            raw != [] && size - held <= |Hits(raw[..|raw| - 1], check)|
  {
    if |raw| > 1 {
      var (front, rest) := (raw[..|raw| - 1], raw[1..]);
      assert front[1..] == rest[..|rest| - 1];
      if !Hit(check, raw[0]) {
        MoreIff(rest, held, size, check);
      } else if held + 1 < size {
        MoreIff(rest, held + 1, size, check);
      }
    }
  }

  lemma FrontTurned<T>(raw: seq<Entry<T>>, check: T -> bool)
    requires raw != []
    ensures |Hits(Reverse(raw)[..|raw| - 1], check)| == |Hits(raw[1..], check)|
  {
    assert Reverse(raw)[..|raw| - 1] == Reverse(raw[1..]);
    HitsTurned(raw[1..], check);
  }

  // ----- the records of a page

  /** A forward page, from a cursor or from the start of the range, of `n` wanted records: the
      first matches, `n` of them or all there are. */
  lemma ForwardPageHolds<T>(store: seq<Entry<T>>, b: Bounds, check: T -> bool, after: Option<Key>, first: Option<nat>,
                            n: nat)
    requires Connection(store, b, check, after, None, first, None).Ok?
    requires 1 <= n <= 100 && (first.Some? ==> n <= first.value) && (n == 100 || first == Some(n))
    ensures var conn := Connection(store, b, check, after, None, first, None).value;
            var raw := RawForward(store, b, after);
            var hits := Hits(raw, check);
            && |conn.records| == (if n <= |hits| then n else |hits|)
            && conn.records == hits[..|conn.records|]
            && (conn.hasNext <==> raw != [] && n <= |Hits(raw[..|raw| - 1], check)|)
            && !conn.hasPrevious
  {
    ForwardPageIs(store, b, check, after, first, n);
    FirstPageHolds(RawForward(store, b, after), n, check);
  }

  lemma ForwardPageIs<T>(store: seq<Entry<T>>, b: Bounds, check: T -> bool, after: Option<Key>, first: Option<nat>,
                         n: nat)
    requires Connection(store, b, check, after, None, first, None).Ok?
    requires n <= 100 && (first.Some? ==> n <= first.value) && (n == 100 || first == Some(n))
    ensures Connection(store, b, check, after, None, first, None)
         == Ok(ForwardPage(RawForward(store, b, after), n, check))
  {
  }

  lemma FirstPageHolds<T>(raw: seq<Entry<T>>, n: nat, check: T -> bool)
    requires n >= 1
    ensures var (page, hits) := (ForwardPage(raw, n, check), Hits(raw, check));
            && |page.records| == (if n <= |hits| then n else |hits|)
            && page.records == hits[..|page.records|]
            && (page.hasNext <==> raw != [] && n <= |Hits(raw[..|raw| - 1], check)|)
  {
    FirstHits(raw, n, check);
    MoreIff(raw, 0, n, check);
  }

  lemma FirstHits<T>(raw: seq<Entry<T>>, n: nat, check: T -> bool)
    requires n >= 1
    ensures Collect(raw, 0, n, check).records == Take(Hits(raw, check), n)
  {
    CollectTakesFirstHits(raw, 0, n, check);
  }

  /** A backward page, before a cursor or from the end of the range: the last matches, oldest first. */
  lemma BackwardPageHolds<T>(store: seq<Entry<T>>, b: Bounds, check: T -> bool, before: Option<Key>, last: Option<nat>,
                             n: nat)
    requires before.Some? || last.Some?
    requires Connection(store, b, check, None, before, None, last).Ok?
    requires 1 <= n <= 100 && (last.Some? ==> n <= last.value) && (n == 100 || last == Some(n))
    ensures var conn := Connection(store, b, check, None, before, None, last).value;
            var raw := RawBackward(store, b, before);
            var hits := Hits(raw, check);
            && |conn.records| == (if n <= |hits| then n else |hits|)
            && conn.records == hits[|hits| - |conn.records|..]
            && (conn.hasPrevious <==> raw != [] && n <= |Hits(raw[1..], check)|)
            && !conn.hasNext
  {
    BackwardPageIs(store, b, check, before, last, n);
    LastPageHolds(RawBackward(store, b, before), n, check);
  }

  lemma BackwardPageIs<T>(store: seq<Entry<T>>, b: Bounds, check: T -> bool, before: Option<Key>, last: Option<nat>,
                          n: nat)
    requires before.Some? || last.Some?
    requires Connection(store, b, check, None, before, None, last).Ok?
    requires n <= 100 && (last.Some? ==> n <= last.value) && (n == 100 || last == Some(n))
    ensures Connection(store, b, check, None, before, None, last)
         == Ok(BackwardPage(RawBackward(store, b, before), n, check))
  {
  }

  lemma LastPageHolds<T>(raw: seq<Entry<T>>, n: nat, check: T -> bool)
    requires n >= 1
    ensures var (page, hits) := (BackwardPage(raw, n, check), Hits(raw, check));
            && |page.records| == (if n <= |hits| then n else |hits|)
            && page.records == hits[|hits| - |page.records|..]
            && (page.hasPrevious <==> raw != [] && n <= |Hits(raw[1..], check)|)
  {
    var down := Reverse(raw);
    FirstHits(down, n, check);
    HitsTurned(raw, check);
    var page := Collect(down, 0, n, check).records;
    LastTurned(Hits(down, check), Hits(raw, check), page, Reverse(page));
    MoreDownIff(raw, n, check);
  }

  lemma MoreDownIff<T>(raw: seq<Entry<T>>, n: nat, check: T -> bool)
    requires n >= 1
    ensures Collect(Reverse(raw), 0, n, check).more <==> raw != [] && n <= |Hits(raw[1..], check)|
  {
    MoreIff(Reverse(raw), 0, n, check);
    if raw != [] {
      FrontTurned(raw, check);
    }
  }

  lemma LastTurned<T>(down: seq<T>, up: seq<T>, page: seq<T>, turned: seq<T>)
    requires IsReverse(down, up) && page <= down && IsReverse(page, turned)
    ensures |turned| <= |up| && turned == up[|up| - |turned|..]
  {
  }

  /** The first record that deserializes is a match. */
  ghost predicate OpensWithMatch<T>(raw: seq<Entry<T>>, check: T -> bool) {
    exists i :: 0 <= i < |raw| && Hit(check, raw[i]) && forall j :: 0 <= j < i ==> raw[j].value.None?
  }

  lemma {:induction false} OpensWithMatchIff<T>(raw: seq<Entry<T>>, check: T -> bool)
    ensures FirstDecodableMatches(raw, check) <==> OpensWithMatch(raw, check)
  {
    if raw != [] && raw[0].value.None? {
      OpensWithMatchIff(raw[1..], check);
      if OpensWithMatch(raw, check) {
        var i :| 0 <= i < |raw| && Hit(check, raw[i]) && forall j :: 0 <= j < i ==> raw[j].value.None?;
        assert raw[1..][i - 1] == raw[i];
      }
      if OpensWithMatch(raw[1..], check) {
        var i :| 0 <= i < |raw[1..]| && Hit(check, raw[1..][i]) && forall j :: 0 <= j < i ==> raw[1..][j].value.None?;
        assert raw[i + 1] == raw[1..][i];
        assert forall j :: 0 < j < i + 1 ==> raw[j] == raw[1..][j - 1];
      }
    }
  }

  /** A request for zero records is answered with none, or with every match when the first
      readable record, in reading direction, is one. */
  lemma NoRecordsAskedFor<T>(store: seq<Entry<T>>, b: Bounds, check: T -> bool, cursor: Option<Key>)
    ensures var answer := Connection(store, b, check, cursor, None, Some(0), None);
            var raw := RawForward(store, b, cursor);
            answer.Ok? ==> answer.value.records == if OpensWithMatch(raw, check) then Hits(raw, check) else []
    ensures var answer := Connection(store, b, check, None, cursor, None, Some(0));
            var raw := RawBackward(store, b, cursor);
            answer.Ok? ==> answer.value.records == if OpensWithMatch(Reverse(raw), check) then Hits(raw, check) else []
  {
    var (up, down) := (RawForward(store, b, cursor), Reverse(RawBackward(store, b, cursor)));
    PageKeepsToItsSize(up, 0, check);
    PageKeepsToItsSize(down, 0, check);
    OpensWithMatchIff(up, check);
    OpensWithMatchIff(down, check);
    HitsTurned(RawBackward(store, b, cursor), check);
  }

  // ----- refused requests

  /** A request is refused exactly when it asks for both directions at once, or its cursor lies
      outside the range on the side it reads away from. */
  lemma RefusedIff<T>(store: seq<Entry<T>>, b: Bounds, check: T -> bool, after: Option<Key>, before: Option<Key>,
                      first: Option<nat>, last: Option<nat>)
    ensures Connection(store, b, check, after, before, first, last).Err? <==>
            || ((before.Some? || last.Some?) && (after.Some? || first.Some?))
            || (before.Some? && !AtMost(before.value, b.closedUpper))
            || (after.Some? && !AtMost(b.lower, after.value))
  {
    if before.Some? {
      TotalOrder(before.value, b.closedUpper, b.closedUpper);
    }
    if after.Some? {
      TotalOrder(b.lower, after.value, after.value);
    }
  }

  /** In times: a `before` cursor is refused exactly behind an end of the range that is not before
      the epoch, and an `after` cursor in front of its start; a start before the epoch refuses every
      such cursor, one that does not fit in 64 bits all but the largest. */
  lemma CursorRefusedIff<T>(store: seq<Entry<T>>, q: Query<T>, t: I64, size: Option<nat>)
    requires t >= 0
    ensures var cursor := Some(StorageKey(q.start, q.mid, t));
            Connection(store, BoundsOf(q), q.check, None, cursor, None, size).Err? <==>
            q.until.Some? && 0 <= q.until.value < t
    ensures var cursor := Some(StorageKey(q.start, q.mid, t));
            Connection(store, BoundsOf(q), q.check, cursor, None, size, None).Err? <==>
            && q.from.Some?
            && if I64_MIN <= q.from.value <= I64_MAX then q.from.value < 0 || t < q.from.value else t < I64_MAX
  {
    var (prefix, key, b) := (KeyPrefix(q.start, q.mid), StorageKey(q.start, q.mid, t), BoundsOf(q));
    RefusedIff(store, b, q.check, None, Some(key), None, size);
    RefusedIff(store, b, q.check, Some(key), None, size, None);
    SuffixOrder(prefix, t, UpperClosedBound(q.until));
    SuffixOrder(prefix, LowerClosedBound(q.from), t);
  }

  // ----- pages at a cursor

  /** The raw records behind an accepted cursor. */
  lemma RawForwardIff<T>(store: seq<Entry<T>>, b: Bounds, after: Key, e: Entry<T>)
    requires Sorted(store) && AtMost(b.lower, after)
    ensures e in RawForward(store, b, Some(after))
       <==> e in store && Less(after, e.key) && InRange(e.key, b.lower, b.upper)
  {
    IndexSplits(store, after);
    IndexSplits(store, b.upper);
    TotalOrder(after, e.key, e.key);
    TotalOrder(e.key, after, e.key);
    TotalOrder(b.lower, after, e.key);
    SliceMember(store, UpperIndex(store, after), UpperIndex(store, b.upper), e);
  }

  /** The raw records in front of a cursor. */
  lemma RawBackwardIff<T>(store: seq<Entry<T>>, b: Bounds, before: Key, e: Entry<T>)
    requires Sorted(store)
    ensures e in RawBackward(store, b, Some(before)) <==> e in store && AtMost(b.lower, e.key) && Less(e.key, before)
  {
    IndexSplits(store, b.lower);
    IndexSplits(store, before);
    TotalOrder(b.lower, e.key, e.key);
    SliceMember(store, LowerIndex(store, b.lower), LowerIndex(store, before), e);
  }

  lemma SliceMember<T>(s: seq<T>, a: nat, b: nat, e: T)
    requires a <= |s| && b <= |s|
    ensures e in Slice(s, a, b) <==> exists i :: a <= i < b && s[i] == e
  {
    if i :| a <= i < b && s[i] == e {
      assert Slice(s, a, b)[i - a] == e;
    }
  }

  lemma {:induction false} HitsSorted<T>(s: seq<Entry<T>>, check: T -> bool)
    requires Sorted(s)
    ensures Sorted(Hits(s, check))
  {
    if s != [] {
      HitsSorted(s[1..], check);
      forall i | 0 <= i < |Hits(s[1..], check)|
        ensures Less(s[0].key, Hits(s[1..], check)[i].key)
      {
        HitsMembers(s[1..], check, Hits(s[1..], check)[i]);
      }
    }
  }

  /** What an accepted `after` cursor selects, of which a page is the first part: exactly the
      answers behind it, in key order. */
  lemma AfterCursorIsExact<T>(layout: Layout, store: seq<Entry<T>>, q: Query<T>, after: Key, e: Entry<T>)
    requires WellFormed(layout, store) && WellFormedQuery(layout, q) && WindowIsExact(q.from, q.until)
    requires AtMost(BoundsOf(q).lower, after)
    ensures var hits := Hits(RawForward(store, BoundsOf(q), Some(after)), q.check);
            Sorted(hits) && (e in hits <==> e in store && IsAnswer(q, e) && Less(after, e.key))
  {
    var b := BoundsOf(q);
    SortedSlice(store, UpperIndex(store, after), UpperIndex(store, b.upper));
    HitsSorted(RawForward(store, b, Some(after)), q.check);
    HitsMembers(RawForward(store, b, Some(after)), q.check, e);
    RawForwardIff(store, b, after, e);
    if e in store {
      RequestedIff(layout, store, q, e);
    }
  }

  lemma RequestedIff<T>(layout: Layout, store: seq<Entry<T>>, q: Query<T>, e: Entry<T>)
    requires WellFormed(layout, store) && WellFormedQuery(layout, q) && WindowIsExact(q.from, q.until) && e in store
    ensures InRange(e.key, BoundsOf(q).lower, BoundsOf(q).upper) <==> IsRequested(q, e.key)
  {
    var i :| 0 <= i < |store| && store[i] == e;
    QueryPositions(layout, store, q, i);
    IndexSplits(store, BoundsOf(q).lower);
    IndexSplits(store, BoundsOf(q).upper);
    TotalOrder(BoundsOf(q).lower, e.key, e.key);
  }

  /** What an accepted `before` cursor selects, of which a page is the last part: exactly the
      answers in front of it, although it is checked against the closed end of the range. */
  lemma BeforeCursorIsExact<T>(layout: Layout, store: seq<Entry<T>>, q: Query<T>, before: Key, e: Entry<T>)
    requires WellFormed(layout, store) && WellFormedQuery(layout, q) && WindowIsExact(q.from, q.until)
    requires AtMost(before, BoundsOf(q).closedUpper)
    ensures var hits := Hits(RawBackward(store, BoundsOf(q), Some(before)), q.check);
            Sorted(hits) && (e in hits <==> e in store && IsAnswer(q, e) && Less(e.key, before))
  {
    var b := BoundsOf(q);
    SortedSlice(store, LowerIndex(store, b.lower), LowerIndex(store, before));
    HitsSorted(RawBackward(store, b, Some(before)), q.check);
    HitsMembers(RawBackward(store, b, Some(before)), q.check, e);
    RawBackwardIff(store, b, before, e);
    if e in store {
      RequestedIff(layout, store, q, e);
      if AtMost(b.lower, e.key) && Less(e.key, before) {
        TotalOrder(e.key, before, b.closedUpper);
        BelowClosedEnd(layout, q, e.key);
      }
    }
  }

  lemma ForwardRecordIsHit<T>(raw: seq<Entry<T>>, size: nat, check: T -> bool, e: Entry<T>)
    requires e in Collect(raw, 0, size, check).records
    ensures e in Hits(raw, check)
  {
    if size >= 1 {
      CollectTakesFirstHits(raw, 0, size, check);
    } else {
      PageKeepsToItsSize(raw, size, check);
    }
  }

  /** So every record of a page behind an accepted cursor, of any size, is an answer behind it. */
  lemma AfterPageStaysInWindow<T>(layout: Layout, store: seq<Entry<T>>, q: Query<T>, after: Key, first: Option<nat>,
                                  e: Entry<T>)
    requires WellFormed(layout, store) && WellFormedQuery(layout, q) && WindowIsExact(q.from, q.until)
    requires var answer := Connection(store, BoundsOf(q), q.check, Some(after), None, first, None);
             answer.Ok? && e in answer.value.records
    ensures e in store && IsAnswer(q, e) && Less(after, e.key)
  {
    RefusedIff(store, BoundsOf(q), q.check, Some(after), None, first, None);
    ForwardRecordIsHit(RawForward(store, BoundsOf(q), Some(after)), PageSize(first), q.check, e);
    AfterCursorIsExact(layout, store, q, after, e);
  }
}
