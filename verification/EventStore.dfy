/**
 A column family as a key-ordered snapshot, and the iterators that read it. A value that
 does not deserialize is an entry without a value.
 */
module EventStore {
  import opened Wrappers
  import opened Sequences
  import opened Bytes
  import opened StorageKeys

  datatype Entry<+T> = Entry(key: Key, value: Option<T>)

  datatype Direction = Forward | Reversed

  /** Strictly ascending keys, the order RocksDB keeps. */
  ghost predicate Sorted<T>(entries: seq<Entry<T>>) {
    forall i, j :: 0 <= i < j < |entries| ==> Less(entries[i].key, entries[j].key)
  }

  /** Strictly ascending or descending keys. */
  ghost predicate SortedIn<T>(entries: seq<Entry<T>>, direction: Direction) {
    if direction.Forward? then Sorted(entries)
    else forall i, j :: 0 <= i < j < |entries| ==> Less(entries[j].key, entries[i].key)
  }

  /** Every key of the store was built by the ingester for this layout. */
  ghost predicate WellFormed<T>(layout: Layout, entries: seq<Entry<T>>) {
    Sorted(entries) && forall i :: 0 <= i < |entries| ==> IsEventKey(layout, entries[i].key)
  }

  // ----- positions in a snapshot

  /** The position of the first entry whose key is not below `key`. */
  function LowerIndex<T>(entries: seq<Entry<T>>, key: Key): (n: nat)
    ensures n <= |entries|
  {
    if entries == [] || !Less(entries[0].key, key) then 0 else 1 + LowerIndex(entries[1..], key)
  }

  /** The position of the first entry whose key is above `key`. */
  function UpperIndex<T>(entries: seq<Entry<T>>, key: Key): (n: nat)
    ensures n <= |entries|
  {
    if entries == [] || Less(key, entries[0].key) then 0 else 1 + UpperIndex(entries[1..], key)
  }

  function Slice<T>(s: seq<T>, from: nat, to: nat): seq<T>
    requires from <= |s| && to <= |s|
  {
    if from <= to then s[from..to] else []
  }

  /** The two positions split a sorted snapshot by comparison with the key. */
  lemma {:induction false} IndexSplits<T>(entries: seq<Entry<T>>, key: Key)
    requires Sorted(entries)
    ensures forall i :: 0 <= i < |entries| ==> (i < LowerIndex(entries, key) <==> Less(entries[i].key, key))
    ensures forall i :: 0 <= i < |entries| ==> (i < UpperIndex(entries, key) <==> AtMost(entries[i].key, key))
  {
    if entries != [] {
      IndexSplits(entries[1..], key);
      forall i | 0 <= i < |entries|
        ensures i < LowerIndex(entries, key) <==> Less(entries[i].key, key)
        ensures i < UpperIndex(entries, key) <==> AtMost(entries[i].key, key)
      {
        TotalOrder(entries[i].key, key, key);
        if i > 0 {
          assert entries[i] == entries[1..][i - 1];
          TotalOrder(entries[0].key, entries[i].key, key);
          TotalOrder(key, entries[0].key, entries[i].key);
        }
      }
    }
  }

  /** At a key of the snapshot the two positions enclose exactly that entry. */
  lemma IndexOfEntry<T>(entries: seq<Entry<T>>, i: nat)
    requires Sorted(entries) && i < |entries|
    ensures LowerIndex(entries, entries[i].key) == i && UpperIndex(entries, entries[i].key) == i + 1
  {
    IndexSplits(entries, entries[i].key);
    Trichotomy(entries[i].key, entries[i].key);
    forall j | 0 <= j < |entries|
      ensures Less(entries[j].key, entries[i].key) <==> j < i
      ensures AtMost(entries[j].key, entries[i].key) <==> j <= i
    {
      Trichotomy(entries[i].key, entries[j].key);
    }
    var (lower, upper) := (LowerIndex(entries, entries[i].key), UpperIndex(entries, entries[i].key));
    assert lower < |entries| ==> !Less(entries[lower].key, entries[i].key);
    assert upper < |entries| ==> !AtMost(entries[upper].key, entries[i].key);
    assert i > 0 ==> Less(entries[i - 1].key, entries[i].key);
  }

  /** A key that is not in the snapshot has one position only. */
  lemma IndexOfAbsent<T>(entries: seq<Entry<T>>, key: Key)
    requires Sorted(entries)
    ensures var lower := LowerIndex(entries, key);
            if lower < |entries| && entries[lower].key == key then UpperIndex(entries, key) == lower + 1
            else UpperIndex(entries, key) == lower
  {
    var (lower, upper) := (LowerIndex(entries, key), UpperIndex(entries, key));
    if lower < |entries| && entries[lower].key == key {
      IndexOfEntry(entries, lower);
    } else {
      IndexSplits(entries, key);
      assert lower < |entries| ==> !Less(entries[lower].key, key) && !AtMost(entries[lower].key, key);
      assert lower > 0 ==> AtMost(entries[lower - 1].key, key);
      assert upper > 0 ==> AtMost(entries[upper - 1].key, key);
    }
  }

  /** Positions respect the order of keys. */
  lemma IndexMonotone<T>(entries: seq<Entry<T>>, a: Key, b: Key)
    requires Sorted(entries) && Less(a, b)
    ensures LowerIndex(entries, a) <= UpperIndex(entries, a) <= LowerIndex(entries, b) <= UpperIndex(entries, b)
  {
    IndexOfAbsent(entries, a);
    IndexOfAbsent(entries, b);
    IndexSplits(entries, a);
    IndexSplits(entries, b);
    var n := UpperIndex(entries, a);
    if n > 0 {
      TotalOrder(entries[n - 1].key, a, b);
    }
  }

  /** An event key lies in a built byte range exactly when it is of the source and kind
      asked for, with its time between the bounds. */
  lemma EventInRange(layout: Layout, start: Key, mid: Option<Key>, lo: I64, hi: I64, key: Key)
    requires NulFree(start) && MidFits(layout, mid) && IsEventKey(layout, key)
    ensures |key| >= TIMESTAMP_SIZE && TimestampOf(key) >= 0
    ensures InRange(key, StorageKey(start, mid, lo), StorageKey(start, mid, hi))
       <==> key == StorageKey(start, mid, TimestampOf(key)) && Unsigned(lo) <= TimestampOf(key) <= Unsigned(hi)
  {
    var s, m, t :| EventParts(layout, s, m, t) && key == StorageKey(s, m, t);
    TimestampRoundTrip(s, m, t);
    RangeIsExact(layout, start, mid, lo, hi, s, m, t);
    if key == StorageKey(start, mid, t) {
      StorageKeyInjective(layout, s, m, t, start, mid, t);
    }
  }

  /** The positions between two built bounds are those of such events. */
  lemma RangePositions<T>(layout: Layout, store: seq<Entry<T>>, start: Key, mid: Option<Key>, lo: I64, hi: I64, i: nat)
    requires WellFormed(layout, store) && NulFree(start) && MidFits(layout, mid) && i < |store|
    ensures |store[i].key| >= TIMESTAMP_SIZE && TimestampOf(store[i].key) >= 0
    ensures LowerIndex(store, StorageKey(start, mid, lo)) <= i < UpperIndex(store, StorageKey(start, mid, hi))
       <==> store[i].key == StorageKey(start, mid, TimestampOf(store[i].key))
            && Unsigned(lo) <= TimestampOf(store[i].key) <= Unsigned(hi)
  {
    var (key, lower) := (store[i].key, StorageKey(start, mid, lo));
    IndexSplits(store, lower);
    IndexSplits(store, StorageKey(start, mid, hi));
    TotalOrder(lower, key, key);
    EventInRange(layout, start, mid, lo, hi, key);
  }

  // ----- the records of a source and kind between two bounds

  /** The key of an event of that source and middle part between the bounds. */
  predicate IsScanned(start: Key, mid: Option<Key>, from: Option<int>, until: Option<int>, key: Key) {
    && |key| >= TIMESTAMP_SIZE
    && key == StorageKey(start, mid, TimestampOf(key))
    && Scanned(from, until, TimestampOf(key))
  }

  /** The records of that source and middle part between the bounds, oldest first. */
  function ScannedEntries<T>(store: seq<Entry<T>>, start: Key, mid: Option<Key>, from: Option<int>, until: Option<int>)
    : seq<Entry<T>>
  {
    if store == [] then []
    else (if IsScanned(start, mid, from, until, store[0].key) then [store[0]] else [])
         + ScannedEntries(store[1..], start, mid, from, until)
  }

  lemma {:induction false} ScannedMembers<T>(store: seq<Entry<T>>, start: Key, mid: Option<Key>, from: Option<int>,
                                             until: Option<int>, e: Entry<T>)
    ensures e in ScannedEntries(store, start, mid, from, until)
       <==> e in store && IsScanned(start, mid, from, until, e.key)
  {
    if store != [] {
      ScannedMembers(store[1..], start, mid, from, until, e);
    }
  }

  lemma {:induction false} ScannedSlice<T>(store: seq<Entry<T>>, start: Key, mid: Option<Key>, from: Option<int>,
                                           until: Option<int>, a: nat, b: nat)
    requires a <= |store| && b <= |store|
    requires forall i :: 0 <= i < |store| ==> (IsScanned(start, mid, from, until, store[i].key) <==> a <= i < b)
    ensures ScannedEntries(store, start, mid, from, until) == Slice(store, a, b)
  {
    if store != [] {
      var (a', b') := (if a > 0 then a - 1 else 0, if b > 0 then b - 1 else 0);
      assert forall i {:trigger store[i]} :: 0 < i < |store| ==> store[i] == store[1..][i - 1];
      ScannedSlice(store[1..], start, mid, from, until, a', b');
      SliceOfTail(store, a, b, a', b');
    }
  }

  lemma SliceOfTail<T>(s: seq<T>, a: nat, b: nat, a': nat, b': nat)
    requires s != [] && a <= |s| && b <= |s|
    requires a' == (if a > 0 then a - 1 else 0) && b' == if b > 0 then b - 1 else 0
    ensures Slice(s, a, b) == (if a == 0 < b then [s[0]] else []) + Slice(s[1..], a', b')
  {
  }

  /** Those records lie side by side in the store, between the positions of the two bounds. */
  lemma ScannedRun<T>(layout: Layout, store: seq<Entry<T>>, start: Key, mid: Option<Key>, from: Option<int>,
                      until: Option<int>)
    requires WellFormed(layout, store) && NulFree(start) && MidFits(layout, mid)
    ensures ScannedEntries(store, start, mid, from, until)
         == Slice(store, LowerIndex(store, StorageKey(start, mid, LowerClosedBound(from))),
                         UpperIndex(store, StorageKey(start, mid, UpperOpenBound(until))))
  {
    var (lo, hi) := (LowerClosedBound(from), UpperOpenBound(until));
    var a := LowerIndex(store, StorageKey(start, mid, lo));
    var b := UpperIndex(store, StorageKey(start, mid, hi));
    forall n | 0 <= n < |store|
      ensures IsScanned(start, mid, from, until, store[n].key) <==> a <= n < b
    {
      RangePositions(layout, store, start, mid, lo, hi, n);
    }
    ScannedSlice(store, start, mid, from, until, a, b);
  }

  lemma SortedSlice<T>(store: seq<Entry<T>>, a: nat, b: nat)
    requires Sorted(store) && a <= |store| && b <= |store|
    ensures Sorted(Slice(store, a, b))
  {
  }

  // ----- library cursor and boundary

  /** The library cursor: from the first key not before `from` upwards, or from the
      last key not after it downwards. */
  function Seek<T>(entries: seq<Entry<T>>, from: Key, direction: Direction): seq<Entry<T>> {
    match direction
    case Forward => entries[LowerIndex(entries, from)..]
    case Reversed => Reverse(entries[..UpperIndex(entries, from)])
  }

  predicate Beyond(boundary: Key, direction: Direction, key: Key) {
    match direction
    case Forward => Less(boundary, key)
    case Reversed => Less(key, boundary)
  }

  /** The entries before the first one past the boundary. */
  function Within<T>(entries: seq<Entry<T>>, boundary: Key, direction: Direction): seq<Entry<T>> {
    if entries == [] || Beyond(boundary, direction, entries[0].key) then []
    else [entries[0]] + Within(entries[1..], boundary, direction)
  }

  /** Reading upwards from `from` and stopping past `to` yields the entries in that range. */
  lemma ForwardScan<T>(entries: seq<Entry<T>>, from: Key, to: Key)
    requires Sorted(entries)
    ensures Within(Seek(entries, from, Forward), to, Forward)
         == Slice(entries, LowerIndex(entries, from), UpperIndex(entries, to))
  {
    WithinSuffix(entries, LowerIndex(entries, from), to);
  }

  lemma {:induction false} WithinSuffix<T>(entries: seq<Entry<T>>, i: nat, to: Key)
    requires Sorted(entries) && i <= |entries|
    ensures Within(entries[i..], to, Forward) == Slice(entries, i, UpperIndex(entries, to))
    decreases |entries| - i
  {
    IndexSplits(entries, to);
    if i < |entries| {
      TotalOrder(entries[i].key, to, to);
      WithinSuffix(entries, i + 1, to);
      assert entries[i..][1..] == entries[i + 1..];
      if i < UpperIndex(entries, to) {
        assert Slice(entries, i, UpperIndex(entries, to))
            == [entries[i]] + Slice(entries, i + 1, UpperIndex(entries, to));
      }
    }
  }

  /** Reading downwards yields the same entries in the opposite order. */
  lemma BackwardScan<T>(entries: seq<Entry<T>>, lower: Key, upper: Key)
    requires Sorted(entries)
    ensures Within(Seek(entries, upper, Reversed), lower, Reversed)
         == Reverse(Slice(entries, LowerIndex(entries, lower), UpperIndex(entries, upper)))
  {
    WithinPrefix(entries, UpperIndex(entries, upper), lower);
  }

  lemma {:induction false} WithinPrefix<T>(entries: seq<Entry<T>>, i: nat, lower: Key)
    requires Sorted(entries) && i <= |entries|
    ensures Within(Reverse(entries[..i]), lower, Reversed) == Reverse(Slice(entries, LowerIndex(entries, lower), i))
  {
    if i > 0 {
      var n := LowerIndex(entries, lower);
      BeyondBelow(entries, lower, i - 1);
      DownStep(entries, 0, i);
      assert entries[0..i] == entries[..i] && entries[0..i - 1] == entries[..i - 1];
      WithinStep(entries[i - 1], Reverse(entries[..i - 1]), lower);
      if n < i {
        WithinPrefix(entries, i - 1, lower);
        DownStep(entries, n, i);
      }
    }
  }

  lemma BeyondBelow<T>(entries: seq<Entry<T>>, lower: Key, k: nat)
    requires Sorted(entries) && k < |entries|
    ensures Beyond(lower, Reversed, entries[k].key) <==> k < LowerIndex(entries, lower)
  {
    IndexSplits(entries, lower);
  }

  lemma WithinStep<T>(first: Entry<T>, rest: seq<Entry<T>>, boundary: Key)
    ensures Within([first] + rest, boundary, Reversed)
         == if Beyond(boundary, Reversed, first.key) then [] else [first] + Within(rest, boundary, Reversed)
  {
    assert ([first] + rest)[1..] == rest;
  }

  lemma DownStep<T>(s: seq<T>, n: nat, i: nat)
    requires n < i <= |s|
    ensures Reverse(s[n..i]) == [s[i - 1]] + Reverse(s[n..i - 1])
    ensures Reverse(s[n..i])[0] == s[i - 1] && Reverse(s[n..i])[1..] == Reverse(s[n..i - 1])
  {
    assert s[n..i] == s[n..i - 1] + [s[i - 1]];
    ReverseConcat(s[n..i - 1], [s[i - 1]]);
    assert Reverse([s[i - 1]]) == [s[i - 1]];
  }

  lemma SeekSorted<T>(entries: seq<Entry<T>>, from: Key, direction: Direction)
    requires Sorted(entries)
    ensures SortedIn(Seek(entries, from, direction), direction)
  {
  }

  /** An iterator that stops at the first key past its boundary. */
  class BoundaryIter<T> {
    var inner: seq<Entry<T>>
    const boundary: Key
    const cond: Direction

    ghost predicate Valid()
      reads this
    {
      SortedIn(inner, cond)
    }

    /** What the iterator will still yield. */
    ghost function Remaining(): seq<Entry<T>>
      reads this
    {
      Within(inner, boundary, cond)
    }

    constructor (entries: seq<Entry<T>>, from: Key, to: Key, direction: Direction)
      requires Sorted(entries)
      ensures Valid()
      ensures Remaining() == Within(Seek(entries, from, direction), to, direction)
    {
      inner := Seek(entries, from, direction);
      boundary := to;
      cond := direction;
      SeekSorted(entries, from, direction);
    }

    method Next() returns (item: Option<Entry<T>>)
      requires Valid()
      modifies this
      ensures Valid()
      ensures old(Remaining()) == [] ==> item == None && Remaining() == []
      ensures old(Remaining()) != [] ==>
                item == Some(old(Remaining())[0]) && Remaining() == old(Remaining())[1..]
    {
      if inner == [] {
        item := None;
      } else {
        var entry := inner[0];
        if Beyond(boundary, cond, entry.key) {
          if |inner| > 1 {
            TotalOrder(boundary, entry.key, inner[1].key);
            TotalOrder(inner[1].key, entry.key, boundary);
          }
          item := None;
        } else {
          item := Some(entry);
        }
        inner := inner[1..];
      }
    }

    /** Looks at the next item without consuming it. */
    method Peek() returns (item: Option<Entry<T>>)
      requires Valid()
      ensures item == if Remaining() == [] then None else Some(Remaining()[0])
    {
      if inner == [] || Beyond(boundary, cond, inner[0].key) {
        item := None;
      } else {
        item := Some(inner[0]);
      }
    }
  }

  // ----- what the iterators read

  /** The entries up to the first one that does not deserialize. */
  function DecodablePrefix<T>(entries: seq<Entry<T>>): (r: seq<Entry<T>>)
    ensures |r| <= |entries|
  {
    if entries == [] || entries[0].value.None? then [] else [entries[0]] + DecodablePrefix(entries[1..])
  }

  /** The entry deserializes and the filter accepts it. */
  predicate Hit<T>(check: T -> bool, e: Entry<T>) {
    e.value.Some? && check(e.value.value)
  }

  /** The accepted entries, in order. */
  function Hits<T>(entries: seq<Entry<T>>, check: T -> bool): (r: seq<Entry<T>>)
    ensures |r| <= |entries|
  {
    if entries == [] then []
    else (if Hit(check, entries[0]) then [entries[0]] else []) + Hits(entries[1..], check)
  }

  lemma {:induction false} HitsConcat<T>(a: seq<Entry<T>>, b: seq<Entry<T>>, check: T -> bool)
    ensures Hits(a + b, check) == Hits(a, check) + Hits(b, check)
  {
    if a == [] {
      assert a + b == b;
    } else {
      assert (a + b)[1..] == a[1..] + b;
      HitsConcat(a[1..], b, check);
      var head := if Hit(check, a[0]) then [a[0]] else [];
      assert Hits(a + b, check) == head + (Hits(a[1..], check) + Hits(b, check));
    }
  }

  lemma {:induction false} HitsReverse<T>(s: seq<Entry<T>>, check: T -> bool)
    ensures Hits(Reverse(s), check) == Reverse(Hits(s, check))
  {
    if s != [] {
      HitsReverse(s[1..], check);
      HitsConcat(Reverse(s[1..]), [s[0]], check);
      var head := if Hit(check, s[0]) then [s[0]] else [];
      assert Hits([s[0]], check) == head;
      ReverseConcat(head, Hits(s[1..], check));
    }
  }

  lemma {:induction false} HitsMembers<T>(s: seq<Entry<T>>, check: T -> bool, e: Entry<T>)
    ensures e in Hits(s, check) <==> e in s && Hit(check, e)
  {
    if s != [] {
      HitsMembers(s[1..], check, e);
    }
  }

  /** What a filtering iterator yields: the matches before the first undecodable entry. */
  function Lane<T>(entries: seq<Entry<T>>, check: T -> bool): seq<Entry<T>> {
    Hits(DecodablePrefix(entries), check)
  }

  /** The statistics iterator: it answers nothing for an undecodable entry, and goes on behind
      it when polled again. */
  class StatisticsIter<T> {
    const inner: BoundaryIter<T>

    constructor (inner: BoundaryIter<T>)
      ensures this.inner == inner
    {
      this.inner := inner;
    }

    method Next() returns (item: Option<Entry<T>>)
      requires inner.Valid()
      modifies inner
      ensures inner.Valid()
      ensures var lane := DecodablePrefix(old(inner.Remaining()));
              if lane == [] then item == None
              else item == Some(lane[0]) && DecodablePrefix(inner.Remaining()) == lane[1..]
      ensures var raw := old(inner.Remaining());
              if raw == [] then item == None && inner.Remaining() == []
              else item == (if raw[0].value.Some? then Some(raw[0]) else None) && inner.Remaining() == raw[1..]
    {
      item := inner.Next();
      if item.Some? && item.value.value.None? {
        item := None;
      }
    }
  }

  /** The filtering iterator: it skips what the filter rejects and ends at the first
      undecodable entry. */
  class FilteredIter<T> {
    const inner: BoundaryIter<T>
    const filter: T -> bool

    constructor (inner: BoundaryIter<T>, filter: T -> bool)
      ensures this.inner == inner && this.filter == filter
    {
      this.inner := inner;
      this.filter := filter;
    }

    method Next() returns (item: Option<Entry<T>>)
      requires inner.Valid()
      modifies inner
      ensures inner.Valid()
      ensures var lane := Lane(old(inner.Remaining()), filter);
              if lane == [] then item == None
              else item == Some(lane[0]) && Lane(inner.Remaining(), filter) == lane[1..]
    {
      var elem := inner.Next();
      while elem.Some? && elem.value.value.Some?
        invariant inner.Valid()
        invariant Lane(old(inner.Remaining()), filter) ==
                  if elem.Some? then Lane([elem.value] + inner.Remaining(), filter) else []
        invariant elem.None? ==> inner.Remaining() == []
        decreases |inner.Remaining()|, elem.Some?
      {
        if filter(elem.value.value.value) {
          return elem;
        }
        elem := inner.Next();
      }
      item := None;
    }
  }
}
