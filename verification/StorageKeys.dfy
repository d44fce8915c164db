/**
 The composite keys of the event stores, the key builder, and what a byte range
 between two built bounds selects.
 */
module StorageKeys {
  import opened Wrappers
  import opened Bytes

  // ----- bounds of a time range, in nanoseconds since the epoch

  /** A timestamp that does not fit in 64 bits of nanoseconds is read as the largest one. */
  function TimestampNanos(time: int): I64 {
    if I64_MIN <= time <= I64_MAX then time else I64_MAX
  }

  function LowerClosedBound(time: Option<int>): I64 {
    if time.Some? then TimestampNanos(time.value) else 0
  }

  function UpperClosedBound(time: Option<int>): I64 {
    if time.Some? then TimestampNanos(time.value) else I64_MAX
  }

  /** One nanosecond before `time`; an end at or before the epoch counts as no end. */
  function UpperOpenBound(time: Option<int>): I64 {
    if time.Some? && TimestampNanos(time.value) - 1 >= 0 then TimestampNanos(time.value) - 1 else I64_MAX
  }

  // ----- keys

  function KeyPrefix(start: Key, mid: Option<Key>): Key {
    start + [0] + if mid.Some? then mid.value + [0] else []
  }

  function StorageKey(start: Key, mid: Option<Key>, timestamp: I64): Key {
    KeyPrefix(start, mid) + ToBeBytes(timestamp)
  }

  /** The trailing eight bytes of a key, read as a timestamp. */
  function TimestampOf(key: Key): I64
    requires |key| >= TIMESTAMP_SIZE
  {
    FromBeBytes(key[|key| - TIMESTAMP_SIZE..])
  }

  /** What a comparison of the trailing eight bytes compares: their unsigned value. It is the
      timestamp when that is not negative. */
  function Rank(key: Key): nat {
    if |key| >= TIMESTAMP_SIZE then Unsigned(TimestampOf(key)) else 0
  }

  lemma RankOrder(a: Key, b: Key)
    requires |a| >= TIMESTAMP_SIZE && |b| >= TIMESTAMP_SIZE
    ensures Less(a[|a| - TIMESTAMP_SIZE..], b[|b| - TIMESTAMP_SIZE..]) <==> Rank(a) < Rank(b)
    ensures Rank(a) == Rank(b) <==> TimestampOf(a) == TimestampOf(b)
  {
    BytesOfBeBytes(a[|a| - TIMESTAMP_SIZE..]);
    BytesOfBeBytes(b[|b| - TIMESTAMP_SIZE..]);
    BeBytesOrder(TimestampOf(a), TimestampOf(b));
  }

  function GetTimestampFromKey(key: Key): (r: Result<I64>)
    ensures r.Ok? <==> |key| > TIMESTAMP_SIZE
  {
    if |key| > TIMESTAMP_SIZE then Ok(TimestampOf(key)) else Err("invalid database key length")
  }

  /** Index of the first zero byte, or the length when there is none. */
  function FirstNul(key: Key): (r: nat)
    ensures r <= |key|
    ensures r < |key| ==> key[r] == 0
    ensures forall i :: 0 <= i < r ==> key[i] != 0
  {
    if key == [] || key[0] == 0 then 0 else 1 + FirstNul(key[1..])
  }

  /** The source and timestamp read back from a key; the slice of the last eight
      bytes needs a key that long, which the caller's keys have. */
  function ParseKey(key: Key): (r: Result<(Key, I64)>)
    requires |key| >= TIMESTAMP_SIZE
    ensures r.Ok? <==> exists i :: 0 <= i < |key| && key[i] == 0
  {
    var pos := FirstNul(key);
    if pos < |key| then Ok((key[..pos], TimestampOf(key))) else Err("Invalid key")
  }

  /** The consuming builder: each step extends the key under construction. */
  class StorageKeyBuilder {
    var preKey: Key

    constructor ()
      ensures preKey == []
    {
      preKey := [];
    }

    method StartKey(key: Key)
      modifies this
      ensures preKey == old(preKey) + key + [0]
    {
      preKey := preKey + key;
      preKey := preKey + [0];
    }

    method MidKey(key: Option<Key>)
      modifies this
      ensures preKey == old(preKey) + if key.Some? then key.value + [0] else []
    {
      if key.Some? {
        preKey := preKey + key.value;
        preKey := preKey + [0];
      }
    }

    method EndKey(key: I64)
      modifies this
      ensures preKey == old(preKey) + ToBeBytes(key)
    {
      preKey := preKey + ToBeBytes(key);
    }

    method LowerClosedBoundEndKey(time: Option<int>)
      modifies this
      ensures preKey == old(preKey) + ToBeBytes(LowerClosedBound(time))
    {
      var endKey := 0;
      if time.Some? {
        endKey := TimestampNanos(time.value);
      }
      preKey := preKey + ToBeBytes(endKey);
    }

    method UpperClosedBoundEndKey(time: Option<int>)
      modifies this
      ensures preKey == old(preKey) + ToBeBytes(UpperClosedBound(time))
    {
      var endKey := I64_MAX;
      if time.Some? {
        endKey := TimestampNanos(time.value);
      }
      preKey := preKey + ToBeBytes(endKey);
    }

    method UpperOpenBoundEndKey(time: Option<int>)
      modifies this
      ensures preKey == old(preKey) + ToBeBytes(UpperOpenBound(time))
    {
      if time.Some? {
        var ns := TimestampNanos(time.value);
        if ns > I64_MIN {  // checked_sub(1)
          ns := ns - 1;
          if ns >= 0 {
            preKey := preKey + ToBeBytes(ns);
            return;
          }
        }
      }
      preKey := preKey + ToBeBytes(I64_MAX);
    }

    method Clone() returns (copy: StorageKeyBuilder)
      ensures fresh(copy) && copy.preKey == preKey
    {
      copy := new StorageKeyBuilder();
      copy.preKey := preKey;
    }

    method Build() returns (key: Key)
      ensures key == preKey
    {
      key := preKey;
    }
  }

  /** The ingester's key of an event: its source, the middle part of its kind, its time. */
  method BuildEventKey(source: Key, mid: Option<Key>, timestamp: I64) returns (key: Key)
    ensures key == StorageKey(source, mid, timestamp)
  {
    var builder := new StorageKeyBuilder();
    builder.StartKey(source);
    builder.MidKey(mid);
    assert [] + source + [0] == source + [0];
    builder.EndKey(timestamp);
    key := builder.Build();
  }

  // ----- well-formed stores

  /** How the keys of one store are laid out between the source and the timestamp:
      nothing, a NUL-terminated kind, or a field of fixed width that may hold zeros. */
  datatype Layout = Plain | KindMid | FixedMid(width: nat)

  predicate NulFree(key: Key) {
    forall i :: 0 <= i < |key| ==> key[i] != 0
  }

  predicate MidFits(layout: Layout, mid: Option<Key>) {
    match layout
    case Plain => mid.None?
    case KindMid => mid.Some? && NulFree(mid.value)
    case FixedMid(width) => mid.Some? && |mid.value| == width
  }

  /** The parts an ingested event's key is built from. */
  predicate EventParts(layout: Layout, start: Key, mid: Option<Key>, timestamp: I64) {
    NulFree(start) && MidFits(layout, mid) && timestamp >= 0
  }

  ghost predicate IsEventKey(layout: Layout, key: Key) {
    exists start, mid, timestamp ::
      EventParts(layout, start, mid, timestamp) && key == StorageKey(start, mid, timestamp)
  }

  lemma SplitAtNul(a: Key, b: Key, rest: Key)
    requires NulFree(a) && NulFree(b)
    requires a + [0] <= b + [0] + rest
    ensures a == b
  {
    var k := b + [0] + rest;
    assert k[|a|] == (a + [0])[|a|] == 0;
    assert k[|b|] == 0;
    assert forall i {:trigger k[i]} :: 0 <= i < |a| ==> k[i] == (a + [0])[i] == a[i] != 0;
    assert forall i {:trigger k[i]} :: 0 <= i < |b| ==> k[i] == b[i] != 0;
    assert |a| == |b|;
    assert a == k[..|a|] && b == k[..|b|];
  }

  /** A key determines its source and its middle part. */
  lemma PrefixInjective(layout: Layout, s: Key, m: Option<Key>, s': Key, m': Option<Key>, rest: Key)
    requires NulFree(s) && NulFree(s') && MidFits(layout, m) && MidFits(layout, m')
    requires KeyPrefix(s, m) <= KeyPrefix(s', m') + rest
    ensures s == s' && m == m'
  {
    var k := KeyPrefix(s', m') + rest;
    if m.None? {
      assert KeyPrefix(s, m) == s + [0];
      assert k == s' + [0] + rest;
      SplitAtNul(s, s', rest);
    } else {
      assert KeyPrefix(s, m) == s + [0] + (m.value + [0]);
      assert k == s' + [0] + (m'.value + [0] + rest);
      assert s + [0] <= KeyPrefix(s, m) <= k;
      SplitAtNul(s, s', m'.value + [0] + rest);
      assert KeyPrefix(s, m)[|s| + 1..] == m.value + [0];
      assert k[|s| + 1..] == m'.value + [0] + rest;
      assert m.value + [0] <= m'.value + [0] + rest;
      if layout.KindMid? {
        SplitAtNul(m.value, m'.value, rest);
      } else {
        var w := layout.width;
        assert m.value == (m.value + [0])[..w] == (m'.value + [0] + rest)[..w] == m'.value;
      }
    }
  }

  /** Two events share a key only when they agree in source, middle part and timestamp. */
  lemma StorageKeyInjective(layout: Layout, s: Key, m: Option<Key>, t: I64, s': Key, m': Option<Key>, t': I64)
    requires EventParts(layout, s, m, t) && EventParts(layout, s', m', t')
    requires StorageKey(s, m, t) == StorageKey(s', m', t')
    ensures s == s' && m == m' && t == t'
  {
    assert KeyPrefix(s, m) <= StorageKey(s, m, t);
    PrefixInjective(layout, s, m, s', m', ToBeBytes(t'));
    TimestampRoundTrip(s, m, t);
    TimestampRoundTrip(s', m', t');
  }

  lemma TimestampRoundTrip(start: Key, mid: Option<Key>, timestamp: I64)
    ensures |StorageKey(start, mid, timestamp)| > TIMESTAMP_SIZE
    ensures TimestampOf(StorageKey(start, mid, timestamp)) == timestamp
  {
    var key := StorageKey(start, mid, timestamp);
    assert key[|key| - TIMESTAMP_SIZE..] == ToBeBytes(timestamp);
    BeBytesRoundTrip(timestamp);
  }

  /** Parsing a built key gives back the source and timestamp it was built from. */
  lemma ParseKeyRoundTrip(start: Key, mid: Option<Key>, timestamp: I64)
    requires NulFree(start)
    ensures |StorageKey(start, mid, timestamp)| >= TIMESTAMP_SIZE
    ensures ParseKey(StorageKey(start, mid, timestamp)) == Ok((start, timestamp))
    ensures GetTimestampFromKey(StorageKey(start, mid, timestamp)) == Ok(timestamp)
  {
    var key := StorageKey(start, mid, timestamp);
    TimestampRoundTrip(start, mid, timestamp);
    assert key[|start|] == 0;
    assert forall i :: 0 <= i < |start| ==> key[i] == start[i] != 0;
    assert FirstNul(key) == |start|;
    assert key[..|start|] == start;
  }

  // ----- what a byte range selects

  predicate InRange(key: Key, from: Key, to: Key) {
    AtMost(from, key) && AtMost(key, to)
  }

  /** A range between two built bounds holds exactly the events of that source and
      middle part whose timestamp lies between the bounds. */
  lemma RangeIsExact(layout: Layout, start: Key, mid: Option<Key>, lo: I64, hi: I64,
                     s: Key, m: Option<Key>, t: I64)
    requires NulFree(start) && MidFits(layout, mid)
    requires EventParts(layout, s, m, t)
    ensures InRange(StorageKey(s, m, t), StorageKey(start, mid, lo), StorageKey(start, mid, hi))
       <==> s == start && m == mid && Unsigned(lo) <= t <= Unsigned(hi)
  {
    var key := StorageKey(s, m, t);
    var prefix := KeyPrefix(start, mid);
    if InRange(key, StorageKey(start, mid, lo), StorageKey(start, mid, hi)) {
      Squeeze(prefix, ToBeBytes(lo), ToBeBytes(hi), key);
      PrefixInjective(layout, start, mid, s, m, ToBeBytes(t));
    }
    if s == start && m == mid {
      SuffixOrder(prefix, lo, t);
      SuffixOrder(prefix, t, hi);
    }
  }

  lemma SuffixOrder(prefix: Key, a: I64, b: I64)
    ensures AtMost(prefix + ToBeBytes(a), prefix + ToBeBytes(b)) <==> Unsigned(a) <= Unsigned(b)
    ensures Less(prefix + ToBeBytes(a), prefix + ToBeBytes(b)) <==> Unsigned(a) < Unsigned(b)
  {
    LessSamePrefix(prefix, ToBeBytes(a), ToBeBytes(b));
    BeBytesOrder(a, b);
    if prefix + ToBeBytes(a) == prefix + ToBeBytes(b) {
      assert (prefix + ToBeBytes(a))[|prefix|..] == ToBeBytes(a);
      assert (prefix + ToBeBytes(b))[|prefix|..] == ToBeBytes(b);
      BeBytesRoundTrip(a);
      BeBytesRoundTrip(b);
    }
  }

  // ----- which time ranges a query answers exactly

  /** What a caller asks for: start <= timestamp < end. */
  predicate InWindow(start: Option<int>, end: Option<int>, timestamp: int) {
    (start.Some? ==> start.value <= timestamp) && (end.Some? ==> timestamp < end.value)
  }

  /** What the built bounds select among events of nonnegative time. */
  predicate Scanned(start: Option<int>, end: Option<int>, timestamp: int) {
    Unsigned(LowerClosedBound(start)) <= timestamp <= Unsigned(UpperOpenBound(end))
  }

  /** Both ends absent or representable, the start not before the epoch, the end after it. */
  predicate PlainWindow(start: Option<int>, end: Option<int>) {
    (start.Some? ==> 0 <= start.value <= I64_MAX) && (end.Some? ==> 1 <= end.value <= I64_MAX)
  }

  /** The windows that are answered exactly: the plain ones, and a few whose answer is empty. */
  predicate WindowIsExact(start: Option<int>, end: Option<int>) {
    || PlainWindow(start, end)
    || (start.Some? && end.Some? &&
        ((start.value > I64_MAX && !(I64_MIN <= end.value <= 0))
         || (start.value == I64_MAX && end.value < I64_MIN)
         || (I64_MIN <= start.value < 0 && end.value <= 0)
         || (start.value < I64_MIN && end.value < I64_MIN)))
  }

  /** The built bounds select what was asked for exactly when the window is one of those. */
  lemma WindowExactness(start: Option<int>, end: Option<int>)
    ensures (forall t :: 0 <= t <= I64_MAX ==> (Scanned(start, end, t) <==> InWindow(start, end, t)))
       <==> WindowIsExact(start, end)
  {
    var atEpoch, atMax := 0, I64_MAX;
    assert Scanned(start, end, atEpoch) || !Scanned(start, end, atEpoch);
    assert Scanned(start, end, atMax) || !Scanned(start, end, atMax);
    if start.Some? && 0 <= start.value <= I64_MAX {
      assert Scanned(start, end, start.value) || !Scanned(start, end, start.value);
    }
  }
}
