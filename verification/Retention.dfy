/**
 One pass of the retention task: for every source listed in the source store, a half-open key
 range is deleted from each standard store, and expired records are deleted one by one from
 the log store, whose keys hold a kind as well.
 */
module Retention {
  import opened Wrappers
  import opened Bytes
  import opened StorageKeys

  /** The first timestamp a pass may delete: 61 seconds after the epoch. */
  const DEFAULT_FROM: I64 := 61_000_000_000

  /** The keys a range deletion for this source removes. */
  predicate InSpan(source: Key, cutoff: I64, key: Key) {
    AtMost(StorageKey(source, None, DEFAULT_FROM), key) && Less(key, StorageKey(source, None, cutoff))
  }

  predicate ExpiredLog(source: Key, cutoff: I64, key: Key)
    requires |key| >= TIMESTAMP_SIZE
  {
    AtMost(source, key) && cutoff > TimestampOf(key)
  }

  function DeleteRange<V>(store: map<Key, V>, source: Key, cutoff: I64): map<Key, V> {
    map k | k in store && !InSpan(source, cutoff, k) :: store[k]
  }

  /** What a pass leaves of a standard store. */
  function Retained<V>(store: map<Key, V>, sources: seq<Key>, cutoff: I64): map<Key, V> {
    map k | k in store && !(exists s :: s in sources && InSpan(s, cutoff, k)) :: store[k]
  }

  predicate LogKeys<V>(log: map<Key, V>) {
    forall k :: k in log ==> |k| >= TIMESTAMP_SIZE
  }

  /** What a pass leaves of the log store. */
  function RetainedLog<V>(log: map<Key, V>, sources: seq<Key>, cutoff: I64): map<Key, V>
    requires LogKeys(log)
  {
    map k | k in log && !(exists s :: s in sources && ExpiredLog(s, cutoff, k)) :: log[k]
  }

  lemma OneSource<V>(log: map<Key, V>, source: Key, cutoff: I64)
    requires LogKeys(log)
    ensures RetainedLog(log, [source], cutoff) == map k | k in log && !ExpiredLog(source, cutoff, k) :: log[k]
  {
    assert source in [source];
  }

  lemma RetainedOneMore<V>(store: map<Key, V>, sources: seq<Key>, source: Key, cutoff: I64)
    ensures DeleteRange(Retained(store, sources, cutoff), source, cutoff) == Retained(store, sources + [source], cutoff)
  {
    assert forall s :: s in sources + [source] <==> s in sources || s == source;
  }

  lemma RetainedLogOneMore<V>(log: map<Key, V>, sources: seq<Key>, source: Key, cutoff: I64)
    requires LogKeys(log)
    ensures var before := RetainedLog(log, sources, cutoff);
            RetainedLog(before, [source], cutoff) == RetainedLog(log, sources + [source], cutoff)
  {
    assert forall s :: s in sources + [source] <==> s in sources || s == source;
    assert forall s :: s in [source] <==> s == source;
  }

  class Database<V> {
    /** The stores keyed by source and timestamp only. */
    var standard: seq<map<Key, V>>
    var log: map<Key, V>

    constructor (standard: seq<map<Key, V>>, log: map<Key, V>)
      ensures this.standard == standard && this.log == log
    {
      this.standard, this.log := standard, log;
    }

    method DeleteSpan(source: Key, cutoff: I64)
      modifies this`standard
      ensures |standard| == |old(standard)|
      ensures forall i :: 0 <= i < |standard| ==> standard[i] == DeleteRange(old(standard)[i], source, cutoff)
    {
      for i := 0 to |standard|
        invariant |standard| == |old(standard)|
        invariant forall j :: 0 <= j < i ==> standard[j] == DeleteRange(old(standard)[j], source, cutoff)
        invariant forall j :: i <= j < |standard| ==> standard[j] == old(standard)[j]
      {
        standard := standard[i := DeleteRange(standard[i], source, cutoff)];
      }
    }

    /** The prefix iterator has no prefix extractor to stop it: from the source's first key it
        runs over a snapshot to the end of the store. */
    method DeleteExpiredLogs(source: Key, cutoff: I64)
      requires LogKeys(log)
      modifies this`log
      ensures log == RetainedLog(old(log), [source], cutoff)
    {
      var rest := set k | k in log && AtMost(source, k);
      ghost var (before, all) := (log, rest);
      while rest != {}
        invariant rest <= all
        invariant log == map k | k in before && !(k in all - rest && cutoff > TimestampOf(k)) :: before[k]
      {
        var key :| key in rest;
        rest := rest - {key};
        if cutoff > TimestampOf(key) {
          log := log - {key};
        }
      }
      assert all - rest == all;
      OneSource(before, source, cutoff);
    }

    method Retain(sources: seq<Key>, cutoff: I64)
      requires LogKeys(log)
      modifies this
      ensures |standard| == |old(standard)|
      ensures forall i :: 0 <= i < |standard| ==> standard[i] == Retained(old(standard)[i], sources, cutoff)
      ensures log == RetainedLog(old(log), sources, cutoff)
    {
      for n := 0 to |sources|
        invariant |standard| == |old(standard)|
        invariant forall i :: 0 <= i < |standard| ==> standard[i] == Retained(old(standard)[i], sources[..n], cutoff)
        invariant log == RetainedLog(old(log), sources[..n], cutoff)
      {
        DeleteSpan(sources[n], cutoff);
        DeleteExpiredLogs(sources[n], cutoff);
        assert sources[..n + 1] == sources[..n] + [sources[n]];
        RetainedLogOneMore(old(log), sources[..n], sources[n], cutoff);
        forall i | 0 <= i < |standard|
          ensures standard[i] == Retained(old(standard)[i], sources[..n + 1], cutoff)
        {
          RetainedOneMore(old(standard)[i], sources[..n], sources[n], cutoff);
        }
      }
      assert sources[..|sources|] == sources;
    }
  }

  // ----- what a pass deletes

  /** A range deletion removes exactly the source's own events from 61 seconds on that lie
      before the cutoff, read as an unsigned number. */
  lemma SpanIsExact(source: Key, cutoff: I64, s: Key, t: I64)
    requires NulFree(source) && EventParts(Plain, s, None, t)
    ensures InSpan(source, cutoff, StorageKey(s, None, t)) <==> s == source && 61_000_000_000 <= t < Unsigned(cutoff)
  {
    var key := StorageKey(s, None, t);
    var prefix := KeyPrefix(source, None);
    if InSpan(source, cutoff, key) {
      Squeeze(prefix, ToBeBytes(DEFAULT_FROM), ToBeBytes(cutoff), key);
      PrefixInjective(Plain, source, None, s, None, ToBeBytes(t));
    }
    if s == source {
      SuffixOrder(prefix, DEFAULT_FROM, t);
      SuffixOrder(prefix, t, cutoff);
    }
  }

  /** A standard store loses exactly the listed sources' events in [61 s, cutoff). */
  lemma StandardStoreLosesExactly<V>(store: map<Key, V>, sources: seq<Key>, cutoff: I64, s: Key, t: I64)
    requires (forall source :: source in sources ==> NulFree(source)) && cutoff >= 0
    requires EventParts(Plain, s, None, t) && StorageKey(s, None, t) in store
    ensures StorageKey(s, None, t) in Retained(store, sources, cutoff)
       <==> !(s in sources && 61_000_000_000 <= t < cutoff)
    ensures StorageKey(s, None, t) in Retained(store, sources, cutoff) ==>
              Retained(store, sources, cutoff)[StorageKey(s, None, t)] == store[StorageKey(s, None, t)]
    ensures Retained(store, sources, cutoff).Keys <= store.Keys
  {
    SpanOfSome(sources, cutoff, s, t);
  }

  lemma SpanOfSome(sources: seq<Key>, cutoff: I64, s: Key, t: I64)
    requires forall source :: source in sources ==> NulFree(source)
    requires EventParts(Plain, s, None, t)
    ensures (exists source :: source in sources && InSpan(source, cutoff, StorageKey(s, None, t)))
       <==> s in sources && 61_000_000_000 <= t < Unsigned(cutoff)
  {
    forall source | source in sources
      ensures InSpan(source, cutoff, StorageKey(s, None, t)) <==> s == source && 61_000_000_000 <= t < Unsigned(cutoff)
    {
      SpanIsExact(source, cutoff, s, t);
    }
  }

  /** A pass keeps an unexpired event exactly when the cutoff is not negative, or the event is
      out of its reach: a negative cutoff encodes above every time after the epoch. */
  lemma UnexpiredIsKeptIff<V>(store: map<Key, V>, sources: seq<Key>, cutoff: I64, s: Key, t: I64)
    requires forall source :: source in sources ==> NulFree(source)
    requires EventParts(Plain, s, None, t) && StorageKey(s, None, t) in store && t >= cutoff
    ensures StorageKey(s, None, t) in Retained(store, sources, cutoff)
       <==> cutoff >= 0 || s !in sources || t < 61_000_000_000
  {
    SpanOfSome(sources, cutoff, s, t);
  }

  lemma SourceBeforeItsKeys(source: Key, rest: Key)
    ensures AtMost(source, source + rest)
  {
    LessSamePrefix(source, [], rest);
    assert source + [] == source;
  }

  lemma KeyRetainedIff<V>(log: map<Key, V>, sources: seq<Key>, cutoff: I64, key: Key)
    requires LogKeys(log) && key in log
    ensures key in RetainedLog(log, sources, cutoff)
       <==> TimestampOf(key) >= cutoff || !(exists l :: l in sources && AtMost(l, key))
  {
    if l :| l in sources && AtMost(l, key) {
      assert ExpiredLog(l, cutoff, key) <==> cutoff > TimestampOf(key);
    }
  }

  lemma LogKeyParts(s: Key, kind: Key, t: I64)
    ensures StorageKey(s, Some(kind), t) == s + ([0] + (kind + [0] + ToBeBytes(t)))
    ensures |StorageKey(s, Some(kind), t)| >= TIMESTAMP_SIZE && TimestampOf(StorageKey(s, Some(kind), t)) == t
  {
    TimestampRoundTrip(s, Some(kind), t);
  }

  /** No expired log record of a listed source survives, and no unexpired record is removed. */
  lemma LogStoreLosesExpired<V>(log: map<Key, V>, sources: seq<Key>, cutoff: I64, s: Key, kind: Key, t: I64)
    requires LogKeys(log) && StorageKey(s, Some(kind), t) in log
    ensures t >= cutoff ==> StorageKey(s, Some(kind), t) in RetainedLog(log, sources, cutoff)
    ensures t < cutoff && s in sources ==> StorageKey(s, Some(kind), t) !in RetainedLog(log, sources, cutoff)
  {
    KeyRetainedIff(log, sources, cutoff, StorageKey(s, Some(kind), t));
    LogKeyParts(s, kind, t);
    SourceBeforeItsKeys(s, [0] + (kind + [0] + ToBeBytes(t)));
  }

  /** A NUL-free name is not above a key exactly when it is not above the key's source. */
  lemma {:induction false} NameAgainstKey(name: Key, s: Key, rest: Key)
    requires NulFree(name)
    ensures AtMost(name, s + ([0] + rest)) <==> AtMost(name, s)
  {
    var key := s + ([0] + rest);
    if name != [] && s != [] {
      assert key[0] == s[0] && key[1..] == s[1..] + ([0] + rest);
      assert name == [name[0]] + name[1..] && s == [s[0]] + s[1..] && key == [key[0]] + key[1..];
      NameAgainstKey(name[1..], s[1..], rest);
    } else if name != [] {
      assert key[0] == 0 < name[0];
    }
  }

  /** The prefix iterator runs on to the end of the store: a log record survives a pass exactly
      when it is not expired or its source comes before every listed one, listed or not itself. */
  lemma LogRecordSurvivesIff<V>(log: map<Key, V>, sources: seq<Key>, cutoff: I64, s: Key, kind: Key, t: I64)
    requires forall l :: l in sources ==> NulFree(l)
    requires LogKeys(log) && StorageKey(s, Some(kind), t) in log
    ensures StorageKey(s, Some(kind), t) in RetainedLog(log, sources, cutoff)
       <==> t >= cutoff || forall l :: l in sources ==> Less(s, l)
    ensures StorageKey(s, Some(kind), t) in RetainedLog(log, sources, cutoff) ==>
              RetainedLog(log, sources, cutoff)[StorageKey(s, Some(kind), t)] == log[StorageKey(s, Some(kind), t)]
    ensures RetainedLog(log, sources, cutoff).Keys <= log.Keys
  {
    KeyRetainedIff(log, sources, cutoff, StorageKey(s, Some(kind), t));
    LogKeyParts(s, kind, t);
    SurvivesNames(sources, s, kind + [0] + ToBeBytes(t));
  }

  /** Every listed name is above the key exactly when the key's source is below all of them. */
  lemma SurvivesNames(sources: seq<Key>, s: Key, rest: Key)
    requires forall l :: l in sources ==> NulFree(l)
    ensures (exists l :: l in sources && AtMost(l, s + ([0] + rest))) <==> !(forall l :: l in sources ==> Less(s, l))
  {
    forall l | l in sources
      ensures AtMost(l, s + ([0] + rest)) <==> !Less(s, l)
    {
      NameAgainstKey(l, s, rest);
      TotalOrder(l, s, s);
    }
  }
}
