/**
 What the exported statistics file holds, in terms of the lanes and of the store they were
 opened on.
 */
module StatisticsFile {
  import opened Wrappers
  import opened Sequences
  import opened Bytes
  import opened StorageKeys
  import opened EventStore
  import opened StatisticsExport

  // ----- which records deserialize

  lemma {:induction false} DecodedConcat<T>(a: seq<Entry<T>>, b: seq<Entry<T>>)
    ensures Decoded(a + b) == Decoded(a) + Decoded(b)
  {
    if a == [] {
      assert a + b == b;
    } else {
      assert (a + b)[1..] == a[1..] + b;
      DecodedConcat(a[1..], b);
      Reassociate(if a[0].value.Some? then [a[0]] else [], Decoded(a[1..]), Decoded(b));
    }
  }

  /** Wherever a record stands in a lane, it is kept exactly if it has a value. */
  lemma DecodedIsReadable<T>(front: seq<Entry<T>>, e: Entry<T>, back: seq<Entry<T>>)
    ensures Decoded(front + [e] + back)
         == Decoded(front) + (if e.value.Some? then [e] else []) + Decoded(back)
  {
    DecodedConcat(front + [e], back);
    DecodedConcat(front, [e]);
    DecodedOne(e);
  }

  lemma DecodedOne<T>(e: Entry<T>)
    ensures Decoded([e]) == if e.value.Some? then [e] else []
  {
  }

  lemma {:induction false} DecodedCount<T>(lane: seq<Entry<T>>, e: Entry<T>)
    ensures multiset(Decoded(lane))[e] == if e.value.Some? then multiset(lane)[e] else 0
  {
    if lane != [] {
      HeadAndTail(lane);
      DecodedCount(lane[1..], e);
    }
  }

  lemma {:induction false} HitsCount<T>(s: seq<Entry<T>>, check: T -> bool, e: Entry<T>)
    ensures multiset(Hits(s, check))[e] == if Hit(check, e) then multiset(s)[e] else 0
  {
    if s != [] {
      HeadAndTail(s);
      HitsCount(s[1..], check, e);
    }
  }

  lemma {:induction false} AllDecodedCount<T>(lanes: seq<seq<Entry<T>>>, e: Entry<T>)
    ensures multiset(Flatten(DecodedAll(lanes)))[e] == if e.value.Some? then multiset(Flatten(lanes))[e] else 0
  {
    if lanes != [] {
      FlattenDecoded(lanes);
      AllDecodedCount(lanes[1..], e);
      DecodedCount(lanes[0], e);
      MultisetConcat(Decoded(lanes[0]), Flatten(DecodedAll(lanes[1..])));
      MultisetConcat(lanes[0], Flatten(lanes[1..]));
    }
  }

  // ----- what the file holds of its lanes

  ghost predicate HasReadable<T>(lane: seq<Entry<T>>) {
    exists i :: 0 <= i < |lane| && lane[i].value.Some?
  }

  ghost predicate AllReadable<T>(lanes: seq<seq<Entry<T>>>) {
    forall k :: 0 <= k < |lanes| ==> HasReadable(lanes[k])
  }

  lemma {:induction false} ReadableIff<T>(lane: seq<Entry<T>>)
    ensures Decoded(lane) != [] <==> HasReadable(lane)
  {
    if lane != [] {
      ReadableIff(lane[1..]);
      if HasReadable(lane[1..]) {
        var i :| 0 <= i < |lane[1..]| && lane[1..][i].value.Some?;
        assert lane[i + 1].value.Some?;
      }
      if i :| 0 <= i < |lane| && lane[i].value.Some? && i > 0 {
        assert lane[1..][i - 1].value.Some?;
      }
    }
  }

  /** The export fails exactly when no lane has a readable record. */
  lemma {:induction false} ExportFailsIff<T>(lanes: seq<seq<Entry<T>>>)
    ensures FirstRecords(lanes) == [] <==> forall k :: 0 <= k < |lanes| ==> !HasReadable(lanes[k])
  {
    if lanes != [] {
      ExportFailsIff(lanes[1..]);
      ReadableIff(lanes[0]);
      assert forall k {:trigger lanes[k]} :: 0 < k < |lanes| ==> lanes[k] == lanes[1..][k - 1];
      if forall k :: 0 <= k < |lanes| ==> !HasReadable(lanes[k]) {
        assert forall k :: 0 <= k < |lanes[1..]| ==> lanes[1..][k] == lanes[k + 1];
      }
    }
  }

  lemma ReadableNotStranded<T>(lanes: seq<seq<Entry<T>>>)
    requires AllReadable(lanes)
    ensures NoneStranded(lanes)
  {
    forall k | 0 <= k < |lanes|
      ensures Decoded(lanes[k]) != []
    {
      ReadableIff(lanes[k]);
    }
    AllFirstRecords(lanes);
  }

  /** When every lane has a readable record the file holds exactly the accepted records of the
      lanes, each as often as it occurs; it never holds anything else. */
  lemma FileHolds<T>(lanes: seq<seq<Entry<T>>>, check: T -> bool, e: Entry<T>)
    ensures var (file, all) := (multiset(Hits(RankMerge(FirstSlots(lanes)), check)), multiset(Flatten(lanes)));
            && file[e] <= (if e.value.Some? && check(e.value.value) then all[e] else 0)
            && (AllReadable(lanes) ==>
                  file[e] == if e.value.Some? && check(e.value.value) then all[e] else 0)
  {
    HitsCount(RankMerge(FirstSlots(lanes)), check, e);
    AllDecodedCount(lanes, e);
    VisitedAtMostOnce(lanes, e);
    ExportCompleteIff(lanes);
    if AllReadable(lanes) {
      ReadableNotStranded(lanes);
    }
  }

  lemma VisitedAtMostOnce<T>(lanes: seq<seq<Entry<T>>>, e: Entry<T>)
    ensures multiset(RankMerge(FirstSlots(lanes)))[e] <= multiset(Flatten(DecodedAll(lanes)))[e]
  {
    ExportVisits(lanes);
    DecodedSplit(lanes, |FirstRecords(lanes)|);
  }

  // ----- what the file holds of the store

  /** A core's scan holds exactly the records of that source and core between the bounds. */
  lemma CoreScanIsScanned<T>(store: seq<Entry<T>>, source: Key, core: Key, from: Option<int>, until: Option<int>)
    requires WellFormed(FixedMid(4), store) && NulFree(source) && |core| == 4
    ensures CoreScan(store, source, core, from, until) == ScannedEntries(store, source, Some(core), from, until)
  {
    ForwardScan(store, StorageKey(source, Some(core), LowerClosedBound(from)),
                StorageKey(source, Some(core), UpperOpenBound(until)));
    ScannedRun(FixedMid(4), store, source, Some(core), from, until);
  }

  /** The record is one of those of the source's cores between the bounds. */
  ghost predicate InScans<T>(store: seq<Entry<T>>, source: Key, cores: seq<Key>, from: Option<int>, until: Option<int>,
                             e: Entry<T>)
  {
    e in store && exists core :: core in cores && IsScanned(source, Some(core), from, until, e.key)
  }

  lemma {:induction false} ScansMember<T>(store: seq<Entry<T>>, source: Key, cores: seq<Key>, from: Option<int>,
                                          until: Option<int>, e: Entry<T>)
    requires WellFormed(FixedMid(4), store) && NulFree(source) && forall k :: 0 <= k < |cores| ==> |cores[k]| == 4
    ensures e in Flatten(CoreScans(store, source, cores, from, until))
       <==> InScans(store, source, cores, from, until, e)
  {
    if cores != [] {
      var (scan, rest) := (CoreScan(store, source, cores[0], from, until), cores[1..]);
      ScansMember(store, source, rest, from, until, e);
      CoreScanIsScanned(store, source, cores[0], from, until);
      ScannedMembers(store, source, Some(cores[0]), from, until, e);
      LaneInFlatten(scan, CoreScans(store, source, rest, from, until), e);
      assert forall core :: core in cores <==> core == cores[0] || core in rest;
    }
  }

  lemma LaneInFlatten<T>(lane: seq<T>, rest: seq<seq<T>>, e: T)
    ensures e in Flatten((if lane != [] then [lane] else []) + rest) <==> e in lane || e in Flatten(rest)
  {
    if lane != [] {
      assert ([lane] + rest)[1..] == rest;
    } else {
      assert [] + rest == rest;
    }
  }

  /** Every core with a record between the bounds has a readable one. */
  ghost predicate CoresReadable<T>(store: seq<Entry<T>>, source: Key, cores: seq<Key>, from: Option<int>,
                                   until: Option<int>)
  {
    forall core, x :: core in cores && x in store && IsScanned(source, Some(core), from, until, x.key) ==>
      exists y :: y in store && IsScanned(source, Some(core), from, until, y.key) && y.value.Some?
  }

  lemma {:induction false} ScansReadable<T>(store: seq<Entry<T>>, source: Key, cores: seq<Key>, from: Option<int>,
                                            until: Option<int>)
    requires WellFormed(FixedMid(4), store) && NulFree(source) && forall k :: 0 <= k < |cores| ==> |cores[k]| == 4
    requires CoresReadable(store, source, cores, from, until)
    ensures AllReadable(CoreScans(store, source, cores, from, until))
  {
    if cores != [] {
      OtherCoresReadable(store, source, cores, from, until);
      ScansReadable(store, source, cores[1..], from, until);
      ScanReadable(store, source, cores, from, until);
      ReadableInFront(CoreScan(store, source, cores[0], from, until),
                      CoreScans(store, source, cores[1..], from, until));
    }
  }

  lemma OtherCoresReadable<T>(store: seq<Entry<T>>, source: Key, cores: seq<Key>, from: Option<int>,
                              until: Option<int>)
    requires cores != [] && CoresReadable(store, source, cores, from, until)
    ensures CoresReadable(store, source, cores[1..], from, until)
  {
  }

  lemma ReadableInFront<T>(lane: seq<Entry<T>>, rest: seq<seq<Entry<T>>>)
    requires (lane != [] ==> HasReadable(lane)) && AllReadable(rest)
    ensures AllReadable((if lane != [] then [lane] else []) + rest)
  {
  }

  lemma ScanReadable<T>(store: seq<Entry<T>>, source: Key, cores: seq<Key>, from: Option<int>, until: Option<int>)
    requires WellFormed(FixedMid(4), store) && NulFree(source) && cores != [] && |cores[0]| == 4
    requires CoresReadable(store, source, cores, from, until)
    ensures var scan := CoreScan(store, source, cores[0], from, until);
            scan != [] ==> HasReadable(scan)
  {
    var (core, scan) := (cores[0], CoreScan(store, source, cores[0], from, until));
    CoreScanIsScanned(store, source, core, from, until);
    if scan != [] {
      ScannedMembers(store, source, Some(core), from, until, scan[0]);
      assert core in cores && scan[0] in store;
      var y :| y in store && IsScanned(source, Some(core), from, until, y.key) && y.value.Some?;
      ScannedMembers(store, source, Some(core), from, until, y);
    }
  }

  lemma {:induction false} DistinctCount<T>(s: seq<Entry<T>>, e: Entry<T>)
    requires DistinctEntries(s)
    ensures multiset(s)[e] == if e in s then 1 else 0
  {
    if s != [] {
      HeadAndTail(s);
      DistinctParts([s[0]], s[1..]);
      DistinctCount(s[1..], e);
      assert s[0] in [s[0]];
    }
  }

  /** An export writes nothing but accepted records of the source's cores in the range, and none
      twice; when every core that has records there has a readable one it writes all of them. */
  lemma StoreFileHolds<T>(store: seq<Entry<T>>, source: Key, cores: seq<Key>, from: Option<int>, until: Option<int>,
                          check: T -> bool, e: Entry<T>)
    requires WellFormed(FixedMid(4), store) && NulFree(source) && forall k :: 0 <= k < |cores| ==> |cores[k]| == 4
    requires forall i, j :: 0 <= i < j < |cores| ==> cores[i] != cores[j]
    ensures var file := multiset(Hits(RankMerge(FirstSlots(CoreScans(store, source, cores, from, until))), check));
            var wanted := InScans(store, source, cores, from, until, e) && e.value.Some? && check(e.value.value);
            && file[e] <= (if wanted then 1 else 0)
            && (CoresReadable(store, source, cores, from, until) ==> file[e] == if wanted then 1 else 0)
  {
    var lanes := CoreScans(store, source, cores, from, until);
    FileHolds(lanes, check, e);
    ScansMember(store, source, cores, from, until, e);
    if e.value.Some? {
      CoreScansDistinct(store, source, cores, from, until);
      AllDecodedCount(lanes, e);
      DistinctCount(Flatten(DecodedAll(lanes)), e);
    }
    if CoresReadable(store, source, cores, from, until) {
      ScansReadable(store, source, cores, from, until);
    }
  }
}
