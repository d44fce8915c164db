/**
 `export_statistic_file`: the ascending merge of the per-core statistics into one file.
 Records that do not deserialize are skipped. Records are compared by the last eight bytes of
 their keys, so the order is that of `Rank`, which is time order after the epoch.
 */
module StatisticsExport {
  import opened Wrappers
  import opened Sequences
  import opened Bytes
  import opened StorageKeys
  import opened EventStore

  /** The records of a lane that deserialize. */
  function Decoded<T>(lane: seq<Entry<T>>): seq<Entry<T>> {
    if lane == [] then [] else (if lane[0].value.Some? then [lane[0]] else []) + Decoded(lane[1..])
  }

  function DecodedAll<T>(lanes: seq<seq<Entry<T>>>): (r: seq<seq<Entry<T>>>)
    ensures |r| == |lanes|
    ensures forall k {:trigger r[k]} :: 0 <= k < |lanes| ==> r[k] == Decoded(lanes[k])
  {
    if lanes == [] then [] else [Decoded(lanes[0])] + DecodedAll(lanes[1..])
  }

  // ----- the first record of every lane

  /** Skips undecodable records and returns the first other one, if any. */
  method NextDecodable<T>(lane: seq<Entry<T>>) returns (item: Option<Entry<T>>, rest: seq<Entry<T>>)
    ensures if Decoded(lane) == [] then item == None && rest == []
            else item == Some(Decoded(lane)[0]) && Decoded(rest) == Decoded(lane)[1..]
    ensures |rest| <= |lane| && (item.Some? ==> |rest| < |lane|)
  {
    rest := lane;
    while rest != []
      invariant |rest| <= |lane| && Decoded(rest) == Decoded(lane)
    {
      var entry := rest[0];
      rest := rest[1..];
      if entry.value.Some? {
        return Some(entry), rest;
      }
    }
    item := None;
  }

  /** The first decodable record of each lane that has one. */
  function FirstRecords<T>(lanes: seq<seq<Entry<T>>>): (r: seq<Entry<T>>)
    ensures |r| <= |lanes|
  {
    if lanes == [] then []
    else FirstRecord(lanes[0]) + FirstRecords(lanes[1..])
  }

  /** The decodable records behind the first one, lane by lane. */
  function Later<T>(lanes: seq<seq<Entry<T>>>): (r: seq<seq<Entry<T>>>)
    ensures |r| == |lanes|
    ensures forall k {:trigger r[k]} :: 0 <= k < |lanes| ==>
              r[k] == if Decoded(lanes[k]) == [] then [] else Decoded(lanes[k])[1..]
  {
    if lanes == [] then []
    else [if Decoded(lanes[0]) == [] then [] else Decoded(lanes[0])[1..]] + Later(lanes[1..])
  }

  function FirstRecord<T>(lane: seq<Entry<T>>): seq<Entry<T>> {
    if Decoded(lane) == [] then [] else [Decoded(lane)[0]]
  }

  lemma {:induction false} FirstRecordsConcat<T>(a: seq<seq<Entry<T>>>, b: seq<seq<Entry<T>>>)
    ensures FirstRecords(a + b) == FirstRecords(a) + FirstRecords(b)
  {
    if a == [] {
      assert a + b == b;
    } else {
      assert (a + b)[1..] == a[1..] + b;
      FirstRecordsConcat(a[1..], b);
      Reassociate(FirstRecord(a[0]), FirstRecords(a[1..]), FirstRecords(b));
    }
  }

  lemma FirstRecordsOneMore<T>(lanes: seq<seq<Entry<T>>>, k: nat)
    requires k < |lanes|
    ensures FirstRecords(lanes[..k + 1]) == FirstRecords(lanes[..k]) + FirstRecord(lanes[k])
  {
    assert lanes[..k + 1] == lanes[..k] + [lanes[k]];
    FirstRecordsConcat(lanes[..k], [lanes[k]]);
    assert FirstRecords([lanes[k]]) == FirstRecord(lanes[k]) + [];
  }

  /** The first k lanes have been opened. */
  ghost predicate Opened<T>(lanes: seq<seq<Entry<T>>>, k: nat, next: seq<Entry<T>>, iters: seq<seq<Entry<T>>>) {
    && |iters| == k <= |lanes|
    && next == FirstRecords(lanes[..k])
    && forall j {:trigger iters[j]} :: 0 <= j < k ==>
         Decoded(iters[j]) == if Decoded(lanes[j]) == [] then [] else Decoded(lanes[j])[1..]
  }

  lemma OpenedOneMore<T>(lanes: seq<seq<Entry<T>>>, k: nat, next: seq<Entry<T>>, iters: seq<seq<Entry<T>>>,
                         rest: seq<Entry<T>>)
    requires Opened(lanes, k, next, iters) && k < |lanes|
    requires Decoded(rest) == if Decoded(lanes[k]) == [] then [] else Decoded(lanes[k])[1..]
    ensures Opened(lanes, k + 1, next + FirstRecord(lanes[k]), iters + [rest])
  {
    FirstRecordsOneMore(lanes, k);
    var more := iters + [rest];
    forall j {:trigger more[j]} | 0 <= j < k + 1
      ensures Decoded(more[j]) == if Decoded(lanes[j]) == [] then [] else Decoded(lanes[j])[1..]
    {
      assert more[j] == if j < k then iters[j] else rest;
    }
  }

  lemma AllOpened<T>(lanes: seq<seq<Entry<T>>>, next: seq<Entry<T>>, iters: seq<seq<Entry<T>>>)
    requires Opened(lanes, |lanes|, next, iters)
    ensures next == FirstRecords(lanes) && DecodedAll(iters) == Later(lanes)
  {
    assert lanes[..|lanes|] == lanes;
    SameElements(DecodedAll(iters), Later(lanes));
  }

  method FirstValues<T>(lanes: seq<seq<Entry<T>>>) returns (next: seq<Entry<T>>, iters: seq<seq<Entry<T>>>)
    ensures next == FirstRecords(lanes)
    ensures |iters| == |lanes| && DecodedAll(iters) == Later(lanes)
  {
    next, iters := [], [];
    for k := 0 to |lanes|
      invariant Opened(lanes, k, next, iters)
    {
      var item, rest := NextDecodable(lanes[k]);
      OpenedOneMore(lanes, k, next, iters, rest);
      assert next + [] == next;
      iters := iters + [rest];
      if item.Some? {
        next := next + [item.value];
      }
    }
    AllOpened(lanes, next, iters);
  }

  // ----- choosing the earliest

  predicate SuffixLess<T>(a: Entry<T>, b: Entry<T>)
    requires |a.key| >= TIMESTAMP_SIZE && |b.key| >= TIMESTAMP_SIZE
  {
    Less(a.key[|a.key| - TIMESTAMP_SIZE..], b.key[|b.key| - TIMESTAMP_SIZE..])
  }

  function RankOf<T>(e: Entry<T>): nat {
    Rank(e.key)
  }

  lemma SuffixLessIsRankLess<T>(a: Entry<T>, b: Entry<T>)
    requires |a.key| >= TIMESTAMP_SIZE && |b.key| >= TIMESTAMP_SIZE
    ensures SuffixLess(a, b) <==> RankOf(a) < RankOf(b)
  {
    RankOrder(a.key, b.key);
  }

  /** The first position with the smallest rank among the first n. */
  ghost predicate IsFirstMin<T>(next: seq<Entry<T>>, k: nat, n: nat) {
    && k < n <= |next|
    && (forall i :: 0 <= i < n ==> RankOf(next[k]) <= RankOf(next[i]))
    && forall i :: 0 <= i < k ==> RankOf(next[k]) < RankOf(next[i])
  }

  /** The position the fold holds before it looks at position n. */
  ghost predicate FoldedTo<T>(next: seq<Entry<T>>, k: nat, n: nat) {
    if n == 0 then k == 0 else IsFirstMin(next, k, n)
  }

  lemma FoldOneMore<T>(next: seq<Entry<T>>, k: nat, n: nat)
    requires FoldedTo(next, k, n) && n < |next|
    ensures IsFirstMin(next, if RankOf(next[n]) < RankOf(next[k]) then n else k, n + 1)
  {
  }

  /** The first position with the smallest key suffix. */
  method MinIndex<T>(next: seq<Entry<T>>) returns (minIndex: nat)
    requires next != [] && forall i :: 0 <= i < |next| ==> |next[i].key| >= TIMESTAMP_SIZE
    ensures IsFirstMin(next, minIndex, |next|)
  {
    minIndex := 0;
    for index := 0 to |next|
      invariant minIndex < |next| && FoldedTo(next, minIndex, index)
    {
      FoldOneMore(next, minIndex, index);
      SuffixLessIsRankLess(next[index], next[minIndex]);
      if SuffixLess(next[index], next[minIndex]) {
        minIndex := index;
      }
    }
  }

  // ----- the merge as a function of the lanes

  /** Lane k holds the smallest head, and the first such. */
  ghost predicate IsEarliest<T>(lanes: seq<seq<Entry<T>>>, k: nat) {
    && k < |lanes| && lanes[k] != []
    && (forall j :: 0 <= j < |lanes| && lanes[j] != [] ==> RankOf(lanes[k][0]) <= RankOf(lanes[j][0]))
    && (forall j :: 0 <= j < k && lanes[j] != [] ==> RankOf(lanes[k][0]) < RankOf(lanes[j][0]))
  }

  lemma {:induction false} EarliestExists<T>(lanes: seq<seq<Entry<T>>>) returns (k: nat)
    requires Total(lanes) > 0
    ensures IsEarliest(lanes, k)
  {
    var rest := lanes[1..];
    if Total(rest) == 0 {
      TotalZero(rest);
      assert forall j {:trigger lanes[j]} :: 0 < j < |lanes| ==> lanes[j] == rest[j - 1];
      k := 0;
    } else {
      k := EarliestExists(rest);
      assert forall j {:trigger lanes[j]} :: 0 < j < |lanes| ==> lanes[j] == rest[j - 1];
      k := if lanes[0] != [] && RankOf(lanes[0][0]) <= RankOf(rest[k][0]) then 0 else k + 1;
    }
  }

  ghost function Earliest<T>(lanes: seq<seq<Entry<T>>>): (k: nat)
    requires Total(lanes) > 0
    ensures IsEarliest(lanes, k)
  {
    assert exists k :: IsEarliest(lanes, k) by {
      var k := EarliestExists(lanes);
    }
    var k :| IsEarliest(lanes, k);
    k
  }

  function Behind<T>(lanes: seq<seq<T>>, k: nat): seq<seq<T>>
    requires k < |lanes| && lanes[k] != []
  {
    lanes[k := lanes[k][1..]]
  }

  /** All records of all lanes, repeatedly taking the earliest head. */
  ghost function RankMerge<T>(lanes: seq<seq<Entry<T>>>): seq<Entry<T>>
    decreases Total(lanes)
  {
    if Total(lanes) == 0 then []
    else
      var k := Earliest(lanes);
      TotalDrop(lanes, k);
      [lanes[k][0]] + RankMerge(Behind(lanes, k))
  }

  lemma RankMergeStep<T>(lanes: seq<seq<Entry<T>>>, k: nat)
    requires IsEarliest(lanes, k)
    ensures Total(Behind(lanes, k)) == Total(lanes) - 1
    ensures RankMerge(lanes) == [lanes[k][0]] + RankMerge(Behind(lanes, k))
  {
    TotalDrop(lanes, k);
    var e := Earliest(lanes);
    assert e == k;
  }

  // ----- merging while exhausted lanes are removed

  function RemoveAt<T>(s: seq<T>, k: nat): seq<T>
    requires k < |s|
  {
    s[..k] + s[k + 1..]
  }

  lemma TotalRemove<T>(lanes: seq<seq<T>>, k: nat)
    requires k < |lanes| && lanes[k] == []
    ensures Total(RemoveAt(lanes, k)) == Total(lanes)
  {
    UpdateAround(lanes, k, []);
    TotalConcat(lanes[..k] + [lanes[k]], lanes[k + 1..]);
    TotalConcat(lanes[..k], [lanes[k]]);
    TotalConcat(lanes[..k], lanes[k + 1..]);
    assert [lanes[k]][1..] == [];
  }

  /** An empty lane contributes nothing, so removing it leaves the merged records unchanged. */
  lemma {:induction false} MergeWithoutEmptyLane<T>(lanes: seq<seq<Entry<T>>>, k: nat)
    requires k < |lanes| && lanes[k] == []
    ensures RankMerge(lanes) == RankMerge(RemoveAt(lanes, k))
    decreases Total(lanes)
  {
    TotalRemove(lanes, k);
    if Total(lanes) > 0 {
      var h := Earliest(lanes);
      var h' := if h < k then h else h - 1;
      EarliestAfterRemove(lanes, k, h, h');
      RankMergeStep(lanes, h);
      RankMergeStep(RemoveAt(lanes, k), h');
      RemoveAfterUpdate(lanes, k, h, h', lanes[h][1..]);
      MergeWithoutEmptyLane(Behind(lanes, h), k);
    }
  }

  lemma RemoveAfterUpdate<T>(s: seq<T>, k: nat, h: nat, h': nat, x: T)
    requires k < |s| && h < |s| && h != k && h' == if h < k then h else h - 1
    ensures RemoveAt(s[h := x], k) == RemoveAt(s, k)[h' := x]
  {
  }

  lemma EarliestAfterRemove<T>(lanes: seq<seq<Entry<T>>>, k: nat, h: nat, h': nat)
    requires k < |lanes| && lanes[k] == [] && IsEarliest(lanes, h) && h' == if h < k then h else h - 1
    ensures IsEarliest(RemoveAt(lanes, k), h') && RemoveAt(lanes, k)[h'] == lanes[h]
  {
    var fewer := RemoveAt(lanes, k);
    assert forall j :: 0 <= j < |fewer| ==> fewer[j] == lanes[if j < k then j else j + 1];
  }

  // ----- the export loop

  /** What the two vectors stand for when the loop begins: each pending value followed by what
      the iterator at the same index still yields. */
  function FirstSlots<T>(lanes: seq<seq<Entry<T>>>): seq<seq<Entry<T>>> {
    Zip(FirstRecords(lanes), Later(lanes))
  }

  /** The vectors, and the records left to visit. */
  ghost predicate Pending<T>(next: seq<Entry<T>>, iters: seq<seq<Entry<T>>>, slots: seq<seq<Entry<T>>>) {
    && |slots| == |next| <= |iters|
    && forall k {:trigger slots[k]} :: 0 <= k < |next| ==> slots[k] == [next[k]] + Decoded(iters[k])
  }

  /** Every key is long enough to end in a timestamp. */
  ghost predicate AllKeyed<T>(next: seq<Entry<T>>, iters: seq<seq<Entry<T>>>) {
    && (forall k :: 0 <= k < |next| ==> |next[k].key| >= TIMESTAMP_SIZE)
    && forall k :: 0 <= k < |iters| ==> Keyed(Decoded(iters[k]))
  }

  ghost predicate Keyed<T>(lane: seq<Entry<T>>) {
    forall j :: 0 <= j < |lane| ==> |lane[j].key| >= TIMESTAMP_SIZE
  }

  /** Replaces the value at an index by the iterator's next one, or removes both entries. */
  method AdvanceAt<T>(next: seq<Entry<T>>, iters: seq<seq<Entry<T>>>, k: nat, ghost slots: seq<seq<Entry<T>>>)
    returns (next': seq<Entry<T>>, iters': seq<seq<Entry<T>>>, ghost slots': seq<seq<Entry<T>>>)
    requires Pending(next, iters, slots) && k < |next|
    ensures if Decoded(iters[k]) == [] then next' == RemoveAt(next, k) && iters' == RemoveAt(iters, k)
            else
              && next' == next[k := Decoded(iters[k])[0]] && |iters'| == |iters|
              && Decoded(iters'[k]) == Decoded(iters[k])[1..]
    ensures Pending(next', iters', slots') && (AllKeyed(next, iters) ==> AllKeyed(next', iters'))
    ensures slots' == Behind(slots, k) || (Behind(slots, k)[k] == [] && slots' == RemoveAt(Behind(slots, k), k))
  {
    var item, rest := NextDecodable(iters[k]);
    assert slots[k][1..] == Decoded(iters[k]);
    if item.Some? {
      next' := next[k := item.value];
      iters' := iters[k := rest];
      slots' := Behind(slots, k);
    } else {
      iters' := RemoveAt(iters, k);
      next' := RemoveAt(next, k);
      slots' := RemoveAt(Behind(slots, k), k);
    }
  }

  lemma MinIndexIsEarliest<T>(next: seq<Entry<T>>, slots: seq<seq<Entry<T>>>, k: nat)
    requires |slots| == |next| && k < |next|
    requires forall i {:trigger slots[i]} :: 0 <= i < |next| ==> slots[i] != [] && slots[i][0] == next[i]
    requires IsFirstMin(next, k, |next|)
    ensures IsEarliest(slots, k)
  {
  }

  /** One visited record, and the merge of what is left. */
  lemma VisitOne<T>(slots: seq<seq<Entry<T>>>, k: nat, slots': seq<seq<Entry<T>>>)
    requires IsEarliest(slots, k)
    requires slots' == Behind(slots, k) || (Behind(slots, k)[k] == [] && slots' == RemoveAt(Behind(slots, k), k))
    ensures RankMerge(slots) == [slots[k][0]] + RankMerge(slots')
    ensures Total(slots') == Total(slots) - 1
  {
    RankMergeStep(slots, k);
    if slots' != Behind(slots, k) {
      MergeWithoutEmptyLane(Behind(slots, k), k);
      TotalRemove(Behind(slots, k), k);
    }
  }

  /** An Err stands for the index panic on an empty vector of first values. */
  method ExportStatisticFile<T>(lanes: seq<seq<Entry<T>>>, check: T -> bool) returns (written: Result<seq<Entry<T>>>)
    requires forall k :: 0 <= k < |lanes| ==> Keyed(lanes[k])
    ensures written.Err? <==> FirstRecords(lanes) == []
    ensures written.Ok? ==> written.value == Hits(RankMerge(FirstSlots(lanes)), check)
  {
    var next, iters := FirstValues(lanes);
    if next == [] {
      return Err("index out of bounds");
    }
    ghost var (slots, visited) := (FirstSlots(lanes), []);
    ghost var whole := RankMerge(slots);
    PendingAtStart(lanes, next, iters);
    var file: seq<Entry<T>> := [];
    while true
      invariant next != [] && Pending(next, iters, slots) && AllKeyed(next, iters)
      invariant Writing(whole, visited, slots, file, check)
      decreases Total(slots)
    {
      var minIndex := MinIndex(next);
      MinIndexIsEarliest(next, slots, minIndex);
      var entry := next[minIndex];
      assert slots[minIndex][0] == entry;
      if entry.value.Some? && check(entry.value.value) {
        file := file + [entry];
      }
      ghost var before := slots;
      next, iters, slots := AdvanceAt(next, iters, minIndex, slots);
      VisitOne(before, minIndex, slots);
      WriteOne(whole, visited, before, slots, entry, check);
      visited := visited + [entry];
      if next == [] {
        break;
      }
    }
    WroteAll(whole, visited, slots, file, check);
    written := Ok(file);
  }

  /** The file holds what was kept of the records visited, and the rest is still to come. */
  ghost predicate Writing<T>(whole: seq<Entry<T>>, visited: seq<Entry<T>>, slots: seq<seq<Entry<T>>>,
                             file: seq<Entry<T>>, check: T -> bool)
  {
    file == Hits(visited, check) && visited + RankMerge(slots) == whole
  }

  lemma WriteOne<T>(whole: seq<Entry<T>>, visited: seq<Entry<T>>, slots: seq<seq<Entry<T>>>, slots': seq<seq<Entry<T>>>,
                    entry: Entry<T>, check: T -> bool)
    requires Writing(whole, visited, slots, Hits(visited, check), check)
    requires RankMerge(slots) == [entry] + RankMerge(slots')
    ensures Writing(whole, visited + [entry], slots', Hits(visited, check) + if Hit(check, entry) then [entry] else [],
                    check)
  {
    HitsConcat(visited, [entry], check);
    assert [entry][1..] == [];
    Reassociate(visited, [entry], RankMerge(slots'));
  }

  lemma WroteAll<T>(whole: seq<Entry<T>>, visited: seq<Entry<T>>, slots: seq<seq<Entry<T>>>, file: seq<Entry<T>>,
                    check: T -> bool)
    requires Writing(whole, visited, slots, file, check) && slots == []
    ensures visited == whole && file == Hits(whole, check)
  {
    assert visited + [] == visited;
  }

  lemma {:induction false} DecodedMember<T>(lane: seq<Entry<T>>, j: nat)
    requires j < |Decoded(lane)|
    ensures Decoded(lane)[j] in lane
  {
    if lane[0].value.None? {
      DecodedMember(lane[1..], j);
    } else if j > 0 {
      DecodedMember(lane[1..], j - 1);
    }
  }

  lemma {:induction false} FirstRecordFrom<T>(lanes: seq<seq<Entry<T>>>, i: nat) returns (k: nat)
    requires i < |FirstRecords(lanes)|
    ensures k < |lanes| && Decoded(lanes[k]) != [] && FirstRecords(lanes)[i] == Decoded(lanes[k])[0]
  {
    if Decoded(lanes[0]) != [] && i == 0 {
      k := 0;
    } else {
      FirstsBehind(lanes);
      var before := FirstRecordFrom(lanes[1..], i - |FirstRecord(lanes[0])|);
      k := before + 1;
      assert lanes[k] == lanes[1..][before];
    }
  }

  lemma FirstsBehind<T>(lanes: seq<seq<Entry<T>>>)
    requires lanes != []
    ensures FirstRecords(lanes) == FirstRecord(lanes[0]) + FirstRecords(lanes[1..])
  {
  }

  lemma FirstKeyed<T>(lanes: seq<seq<Entry<T>>>, i: nat)
    requires i < |FirstRecords(lanes)| && forall k :: 0 <= k < |lanes| ==> Keyed(lanes[k])
    ensures |FirstRecords(lanes)[i].key| >= TIMESTAMP_SIZE
  {
    var k := FirstRecordFrom(lanes, i);
    DecodedMember(lanes[k], 0);
  }

  lemma {:induction false} DecodedKeyed<T>(lane: seq<Entry<T>>)
    requires Keyed(lane)
    ensures Keyed(Decoded(lane))
  {
    if lane != [] {
      DecodedKeyed(lane[1..]);
    }
  }

  lemma PendingAtStart<T>(lanes: seq<seq<Entry<T>>>, next: seq<Entry<T>>, iters: seq<seq<Entry<T>>>)
    requires forall k :: 0 <= k < |lanes| ==> Keyed(lanes[k])
    requires next == FirstRecords(lanes) && |iters| == |lanes| && DecodedAll(iters) == Later(lanes)
    ensures Pending(next, iters, FirstSlots(lanes)) && AllKeyed(next, iters)
  {
    forall i | 0 <= i < |next|
      ensures |next[i].key| >= TIMESTAMP_SIZE
    {
      FirstKeyed(lanes, i);
    }
    forall k | 0 <= k < |iters|
      ensures Decoded(iters[k]) == Later(lanes)[k] && Keyed(Decoded(iters[k]))
    {
      assert DecodedAll(iters)[k] == Later(lanes)[k];
      DecodedKeyed(lanes[k]);
    }
  }

  // ----- what the file holds

  /** When every lane has a record that deserializes, the vectors are aligned and the visited
      records are the stable ascending merge of all lanes. */
  lemma AlignedExportMergesAll<T>(lanes: seq<seq<Entry<T>>>)
    requires forall k :: 0 <= k < |lanes| ==> Decoded(lanes[k]) != []
    ensures FirstSlots(lanes) == DecodedAll(lanes)
  {
    AllFirstRecords(lanes);
    var (slots, all) := (FirstSlots(lanes), DecodedAll(lanes));
    forall k | 0 <= k < |lanes|
      ensures slots[k] == all[k]
    {
      HeadAndTail(Decoded(lanes[k]));
    }
    SameElements(slots, all);
  }

  lemma HeadAndTail<T>(s: seq<T>)
    requires s != []
    ensures [s[0]] + s[1..] == s
  {
  }

  lemma SameElements<T>(a: seq<T>, b: seq<T>)
    requires |a| == |b| && forall k :: 0 <= k < |a| ==> a[k] == b[k]
    ensures a == b
  {
  }

  lemma {:induction false} AllFirstRecords<T>(lanes: seq<seq<Entry<T>>>)
    requires forall k :: 0 <= k < |lanes| ==> Decoded(lanes[k]) != []
    ensures |FirstRecords(lanes)| == |lanes|
    ensures forall k :: 0 <= k < |lanes| ==> FirstRecords(lanes)[k] == Decoded(lanes[k])[0]
  {
    if lanes != [] {
      AllFirstRecords(lanes[1..]);
    }
  }

  lemma FlattenCons<T>(lane: seq<T>, lanes: seq<seq<T>>)
    ensures multiset(Flatten([lane] + lanes)) == multiset(lane) + multiset(Flatten(lanes))
  {
    assert ([lane] + lanes)[1..] == lanes;
  }

  lemma FlattenAround<T>(front: seq<seq<T>>, lane: seq<T>, back: seq<seq<T>>)
    ensures multiset(Flatten(front + [lane] + back))
         == multiset(Flatten(front)) + multiset(lane) + multiset(Flatten(back))
  {
    Reassociate(front, [lane], back);
    FlattenConcat(front, [lane] + back);
    FlattenCons(lane, back);
  }

  lemma FlattenDrop<T>(lanes: seq<seq<T>>, k: nat)
    requires k < |lanes| && lanes[k] != []
    ensures multiset(Flatten(lanes)) == multiset{lanes[k][0]} + multiset(Flatten(lanes[k := lanes[k][1..]]))
  {
    UpdateAround(lanes, k, lanes[k]);
    UpdateAround(lanes, k, lanes[k][1..]);
    FlattenAround(lanes[..k], lanes[k], lanes[k + 1..]);
    FlattenAround(lanes[..k], lanes[k][1..], lanes[k + 1..]);
    HeadAndTail(lanes[k]);
  }

  lemma {:induction false} FlattenEmpty<T>(lanes: seq<seq<T>>)
    requires Total(lanes) == 0
    ensures Flatten(lanes) == []
  {
    if lanes != [] {
      FlattenEmpty(lanes[1..]);
    }
  }

  /** A merge is a permutation of its lanes. */
  lemma {:induction false} MergePermutes<T>(lanes: seq<seq<Entry<T>>>)
    ensures multiset(RankMerge(lanes)) == multiset(Flatten(lanes))
    decreases Total(lanes)
  {
    if Total(lanes) == 0 {
      FlattenEmpty(lanes);
    } else {
      var k := Earliest(lanes);
      RankMergeStep(lanes, k);
      FlattenDrop(lanes, k);
      MergePermutes(Behind(lanes, k));
    }
  }

  lemma {:induction false} SlotsHold<T>(next: seq<Entry<T>>, later: seq<seq<Entry<T>>>)
    requires |next| <= |later|
    ensures multiset(Flatten(Zip(next, later))) == multiset(next) + multiset(Flatten(later[..|next|]))
  {
    if next == [] {
      assert later[..0] == [];
    } else {
      var n := |next| - 1;
      SlotsHold(next[1..], later[1..]);
      assert later[..n + 1] == [later[0]] + later[1..][..n];
      FlattenCons(later[0], later[1..][..n]);
      FlattenCons([next[0]] + later[0], Zip(next[1..], later[1..]));
      HeadAndTail(next);
    }
  }

  lemma {:induction false} DecodedHold<T>(lanes: seq<seq<Entry<T>>>)
    ensures multiset(Flatten(DecodedAll(lanes))) == multiset(FirstRecords(lanes)) + multiset(Flatten(Later(lanes)))
  {
    if lanes != [] {
      var (first, rest) := (Decoded(lanes[0]), lanes[1..]);
      DecodedHold(rest);
      FlattenCons(first, DecodedAll(rest));
      FlattenCons(if first == [] then [] else first[1..], Later(rest));
      if first != [] {
        HeadAndTail(first);
      }
    }
  }

  lemma {:induction false} FlattenNothing<T>(ss: seq<seq<T>>)
    ensures Flatten(ss) == [] <==> forall k :: 0 <= k < |ss| ==> ss[k] == []
  {
    if ss != [] {
      FlattenNothing(ss[1..]);
      if Flatten(ss) == [] {
        forall k | 0 <= k < |ss|
          ensures ss[k] == []
        {
          assert k > 0 ==> ss[k] == ss[1..][k - 1];
        }
      }
    }
  }

  /** Every decodable record is visited exactly once exactly when the lanes that no pending
      value is left for, those past the number of lanes with a decodable record, hold at most
      one decodable record each. */
  lemma ExportCompleteIff<T>(lanes: seq<seq<Entry<T>>>)
    ensures multiset(RankMerge(FirstSlots(lanes))) == multiset(Flatten(DecodedAll(lanes))) <==> NoneStranded(lanes)
  {
    var (next, later) := (FirstRecords(lanes), Later(lanes));
    var n := |next|;
    ExportVisits(lanes);
    DecodedSplit(lanes, n);
    SurplusIff(multiset(next) + multiset(Flatten(later[..n])), Flatten(later[n..]));
    NothingLaterIff(lanes, n);
  }

  ghost predicate NoneStranded<T>(lanes: seq<seq<Entry<T>>>) {
    forall k :: |FirstRecords(lanes)| <= k < |lanes| ==> |Decoded(lanes[k])| <= 1
  }

  /** What is visited: the pending values and what the iterators at their indices yield. */
  lemma ExportVisits<T>(lanes: seq<seq<Entry<T>>>)
    ensures var (next, later) := (FirstRecords(lanes), Later(lanes));
            multiset(RankMerge(FirstSlots(lanes))) == multiset(next) + multiset(Flatten(later[..|next|]))
  {
    MergePermutes(FirstSlots(lanes));
    SlotsHold(FirstRecords(lanes), Later(lanes));
  }

  lemma DecodedSplit<T>(lanes: seq<seq<Entry<T>>>, n: nat)
    requires n <= |lanes|
    ensures var later := Later(lanes);
            multiset(Flatten(DecodedAll(lanes)))
            == multiset(FirstRecords(lanes)) + multiset(Flatten(later[..n])) + multiset(Flatten(later[n..]))
  {
    DecodedHold(lanes);
    FlattenSplit(Later(lanes), n);
  }

  lemma FlattenSplit<T>(ss: seq<seq<T>>, n: nat)
    requires n <= |ss|
    ensures multiset(Flatten(ss)) == multiset(Flatten(ss[..n])) + multiset(Flatten(ss[n..]))
  {
    var (front, back) := (ss[..n], ss[n..]);
    assert front + back == ss;
    FlattenConcat(front, back);
    MultisetConcat(Flatten(front), Flatten(back));
  }

  lemma MultisetConcat<T>(a: seq<T>, b: seq<T>)
    ensures multiset(a + b) == multiset(a) + multiset(b)
  {
  }

  lemma SurplusIff<T>(held: multiset<T>, lost: seq<T>)
    ensures held == held + multiset(lost) <==> lost == []
  {
    if lost != [] {
      assert lost[0] in multiset(lost);
      assert held[lost[0]] < (held + multiset(lost))[lost[0]];
    }
  }

  lemma NothingLaterIff<T>(lanes: seq<seq<Entry<T>>>, n: nat)
    requires n <= |lanes|
    ensures Flatten(Later(lanes)[n..]) == [] <==> forall k :: n <= k < |lanes| ==> |Decoded(lanes[k])| <= 1
  {
    var later := Later(lanes);
    FlattenNothing(later[n..]);
    forall k {:trigger lanes[k]} | n <= k < |lanes|
      ensures later[n..][k - n] == [] <==> |Decoded(lanes[k])| <= 1
    {
      assert later[n..][k - n] == later[k];
    }
    if forall k :: n <= k < |lanes| ==> |Decoded(lanes[k])| <= 1 {
      forall i | 0 <= i < |later[n..]|
        ensures later[n..][i] == []
      {
        assert |Decoded(lanes[n + i])| <= 1;
      }
    }
  }

  // ----- in which order the file holds it

  ghost predicate InOrder<T>(s: seq<Entry<T>>) {
    forall i, j :: 0 <= i < j < |s| ==> RankOf(s[i]) <= RankOf(s[j])
  }

  ghost predicate AllInOrder<T>(lanes: seq<seq<Entry<T>>>) {
    forall k :: 0 <= k < |lanes| ==> InOrder(lanes[k])
  }

  lemma {:induction false} FlattenMember<T>(ss: seq<seq<T>>, x: T) returns (k: nat)
    requires x in Flatten(ss)
    ensures k < |ss| && x in ss[k]
  {
    if x in ss[0] {
      k := 0;
    } else {
      k := FlattenMember(ss[1..], x);
      k := k + 1;
    }
  }

  lemma {:induction false} MemberOfFlatten<T>(ss: seq<seq<T>>, k: nat, x: T)
    requires k < |ss| && x in ss[k]
    ensures x in Flatten(ss)
  {
    if k > 0 {
      MemberOfFlatten(ss[1..], k - 1, x);
    }
  }

  /** The head comes first in order exactly when nothing behind it is smaller. */
  lemma ConsInOrder<T>(head: Entry<T>, tail: seq<Entry<T>>)
    ensures InOrder([head] + tail) <==> InOrder(tail) && forall x :: x in tail ==> RankOf(head) <= RankOf(x)
  {
    var s := [head] + tail;
    if InOrder(s) {
      forall i, j | 0 <= i < j < |tail|
        ensures RankOf(tail[i]) <= RankOf(tail[j])
      {
        assert RankOf(s[i + 1]) <= RankOf(s[j + 1]);
      }
      forall x | x in tail
        ensures RankOf(head) <= RankOf(x)
      {
        var i :| 0 <= i < |tail| && tail[i] == x;
        assert RankOf(s[0]) <= RankOf(s[i + 1]);
      }
    }
  }

  lemma BehindInOrder<T>(lanes: seq<seq<Entry<T>>>, k: nat)
    requires AllInOrder(lanes) && k < |lanes| && lanes[k] != []
    ensures AllInOrder(Behind(lanes, k))
  {
    HeadAndTail(lanes[k]);
    ConsInOrder(lanes[k][0], lanes[k][1..]);
  }

  /** The earliest head is not above anything in lanes that are in order. */
  lemma EarliestIsLeast<T>(lanes: seq<seq<Entry<T>>>, k: nat, x: Entry<T>)
    requires AllInOrder(lanes) && IsEarliest(lanes, k) && x in RankMerge(Behind(lanes, k))
    ensures RankOf(lanes[k][0]) <= RankOf(x)
  {
    var fewer := Behind(lanes, k);
    MergePermutes(fewer);
    assert x in multiset(Flatten(fewer));
    var j := FlattenMember(fewer, x);
    assert x in lanes[j];
    assert InOrder(lanes[j]);
  }

  lemma {:induction false} OrderedLanesMergeInOrder<T>(lanes: seq<seq<Entry<T>>>)
    requires AllInOrder(lanes)
    ensures InOrder(RankMerge(lanes))
    decreases Total(lanes)
  {
    if Total(lanes) > 0 {
      var k := Earliest(lanes);
      RankMergeStep(lanes, k);
      BehindInOrder(lanes, k);
      OrderedLanesMergeInOrder(Behind(lanes, k));
      forall x | x in RankMerge(Behind(lanes, k))
        ensures RankOf(lanes[k][0]) <= RankOf(x)
      {
        EarliestIsLeast(lanes, k, x);
      }
      ConsInOrder(lanes[k][0], RankMerge(Behind(lanes, k)));
    }
  }

  lemma {:induction false} MergeInOrderOrdersLanes<T>(lanes: seq<seq<Entry<T>>>)
    requires InOrder(RankMerge(lanes))
    ensures AllInOrder(lanes)
    decreases Total(lanes)
  {
    if Total(lanes) == 0 {
      TotalZero(lanes);
    } else {
      var k := Earliest(lanes);
      var (head, fewer) := (lanes[k][0], Behind(lanes, k));
      RankMergeStep(lanes, k);
      ConsInOrder(head, RankMerge(fewer));
      MergeInOrderOrdersLanes(fewer);
      forall x | x in fewer[k]
        ensures RankOf(head) <= RankOf(x)
      {
        MemberOfFlatten(fewer, k, x);
        MergePermutes(fewer);
        assert x in multiset(RankMerge(fewer));
      }
      ConsInOrder(head, fewer[k]);
      HeadAndTail(lanes[k]);
      forall j | 0 <= j < |lanes|
        ensures InOrder(lanes[j])
      {
        assert j != k ==> lanes[j] == fewer[j];
      }
    }
  }

  /** Each pending value is not above what the iterator at its index yields next. */
  ghost predicate SlotsInOrder<T>(lanes: seq<seq<Entry<T>>>) {
    var (next, later) := (FirstRecords(lanes), Later(lanes));
    forall k {:trigger next[k]} :: 0 <= k < |next| && later[k] != [] ==> RankOf(next[k]) <= RankOf(later[k][0])
  }

  lemma SlotInOrderIff<T>(head: Entry<T>, tail: seq<Entry<T>>)
    requires InOrder(tail)
    ensures InOrder([head] + tail) <==> tail == [] || RankOf(head) <= RankOf(tail[0])
  {
    ConsInOrder(head, tail);
    if tail != [] {
      HeadAndTail(tail);
      ConsInOrder(tail[0], tail[1..]);
    }
  }

  lemma LaterInOrder<T>(lanes: seq<seq<Entry<T>>>)
    requires AllInOrder(DecodedAll(lanes))
    ensures AllInOrder(Later(lanes))
  {
    forall k | 0 <= k < |lanes|
      ensures InOrder(Later(lanes)[k])
    {
      var lane := DecodedAll(lanes)[k];
      assert InOrder(lane);
      if lane != [] {
        HeadAndTail(lane);
        ConsInOrder(lane[0], lane[1..]);
      }
    }
  }

  lemma FirstSlotsInOrderIff<T>(lanes: seq<seq<Entry<T>>>)
    requires AllInOrder(DecodedAll(lanes))
    ensures AllInOrder(FirstSlots(lanes)) <==> SlotsInOrder(lanes)
  {
    var (next, later) := (FirstRecords(lanes), Later(lanes));
    LaterInOrder(lanes);
    forall k {:trigger next[k]} | 0 <= k < |next|
      ensures InOrder(FirstSlots(lanes)[k]) <==> later[k] == [] || RankOf(next[k]) <= RankOf(later[k][0])
    {
      assert FirstSlots(lanes)[k] == [next[k]] + later[k];
      SlotInOrderIff(next[k], later[k]);
    }
    if SlotsInOrder(lanes) {
      forall k | 0 <= k < |FirstSlots(lanes)|
        ensures InOrder(FirstSlots(lanes)[k])
      {
        assert next[k] == next[k];
      }
    } else {
      var k :| 0 <= k < |next| && later[k] != [] && RankOf(next[k]) > RankOf(later[k][0]);
      assert !InOrder(FirstSlots(lanes)[k]);
    }
  }

  /** For cores in time order the file is in time order exactly when every pending value is
      not above the next value of the iterator it is filed with. */
  lemma ExportInOrderIff<T>(lanes: seq<seq<Entry<T>>>)
    requires AllInOrder(DecodedAll(lanes))
    ensures InOrder(RankMerge(FirstSlots(lanes))) <==> SlotsInOrder(lanes)
  {
    FirstSlotsInOrderIff(lanes);
    if SlotsInOrder(lanes) {
      OrderedLanesMergeInOrder(FirstSlots(lanes));
    }
    if InOrder(RankMerge(FirstSlots(lanes))) {
      MergeInOrderOrdersLanes(FirstSlots(lanes));
    }
  }

  // ----- the scans of a store are in order

  /** The iterator of one core of a source, read upwards within the time range. */
  function CoreScan<T>(store: seq<Entry<T>>, source: Key, core: Key, from: Option<int>,
                       until: Option<int>): seq<Entry<T>>
  {
    Within(Seek(store, StorageKey(source, Some(core), LowerClosedBound(from)), Forward),
           StorageKey(source, Some(core), UpperOpenBound(until)), Forward)
  }

  /** The iterators an export opens: those of the cores with any record in the range. */
  function CoreScans<T>(store: seq<Entry<T>>, source: Key, cores: seq<Key>, from: Option<int>, until: Option<int>)
    : seq<seq<Entry<T>>>
  {
    if cores == [] then []
    else
      var scan := CoreScan(store, source, cores[0], from, until);
      (if scan != [] then [scan] else []) + CoreScans(store, source, cores[1..], from, until)
  }

  /** An entry between two built bounds has their prefix. */
  lemma ScannedKey<T>(store: seq<Entry<T>>, source: Key, core: Key, lo: I64, hi: I64, n: nat)
    requires WellFormed(FixedMid(4), store) && NulFree(source) && |core| == 4
    requires LowerIndex(store, StorageKey(source, Some(core), lo)) <= n
    requires n < UpperIndex(store, StorageKey(source, Some(core), hi))
    ensures |store[n].key| >= TIMESTAMP_SIZE
    ensures store[n].key == KeyPrefix(source, Some(core)) + ToBeBytes(TimestampOf(store[n].key))
  {
    RangePositions(FixedMid(4), store, source, Some(core), lo, hi, n);
  }

  lemma SliceInOrder<T>(store: seq<Entry<T>>, prefix: Key, a: nat, b: nat)
    requires Sorted(store) && a <= b <= |store|
    requires forall n :: a <= n < b ==>
               |store[n].key| >= TIMESTAMP_SIZE && store[n].key == prefix + ToBeBytes(TimestampOf(store[n].key))
    ensures InOrder(store[a..b]) && Keyed(store[a..b])
  {
    var run := store[a..b];
    forall i, j | 0 <= i < j < |run|
      ensures RankOf(run[i]) <= RankOf(run[j])
    {
      SuffixOrder(prefix, TimestampOf(store[a + i].key), TimestampOf(store[a + j].key));
    }
  }

  lemma CoreScanInOrder<T>(store: seq<Entry<T>>, source: Key, core: Key, from: Option<int>, until: Option<int>)
    requires WellFormed(FixedMid(4), store) && NulFree(source) && |core| == 4
    ensures InOrder(CoreScan(store, source, core, from, until)) && Keyed(CoreScan(store, source, core, from, until))
  {
    var (lo, hi) := (LowerClosedBound(from), UpperOpenBound(until));
    var (lower, upper) := (StorageKey(source, Some(core), lo), StorageKey(source, Some(core), hi));
    var (a, b) := (LowerIndex(store, lower), UpperIndex(store, upper));
    ForwardScan(store, lower, upper);
    forall n | a <= n < b
      ensures |store[n].key| >= TIMESTAMP_SIZE
      ensures store[n].key == KeyPrefix(source, Some(core)) + ToBeBytes(TimestampOf(store[n].key))
    {
      ScannedKey(store, source, core, lo, hi, n);
    }
    if a <= b {
      SliceInOrder(store, KeyPrefix(source, Some(core)), a, b);
    }
  }

  lemma {:induction false} DecodedInOrder<T>(lane: seq<Entry<T>>)
    requires InOrder(lane)
    ensures InOrder(Decoded(lane))
  {
    if lane != [] {
      HeadAndTail(lane);
      ConsInOrder(lane[0], lane[1..]);
      DecodedInOrder(lane[1..]);
      if lane[0].value.Some? {
        DecodedBehind(lane[0], lane[1..]);
        ConsInOrder(lane[0], Decoded(lane[1..]));
      }
    }
  }

  lemma DecodedBehind<T>(head: Entry<T>, tail: seq<Entry<T>>)
    requires forall x :: x in tail ==> RankOf(head) <= RankOf(x)
    ensures forall x :: x in Decoded(tail) ==> RankOf(head) <= RankOf(x)
  {
    forall j | 0 <= j < |Decoded(tail)|
      ensures RankOf(head) <= RankOf(Decoded(tail)[j])
    {
      DecodedMember(tail, j);
    }
  }

  /** The iterators an export opens on a store are in time order, and their keys end in
      timestamps: what the theorems about the file ask of the lanes. */
  lemma {:induction false} CoreScansInOrder<T>(store: seq<Entry<T>>, source: Key, cores: seq<Key>,
                                               from: Option<int>, until: Option<int>)
    requires WellFormed(FixedMid(4), store) && NulFree(source) && forall k :: 0 <= k < |cores| ==> |cores[k]| == 4
    ensures var lanes := CoreScans(store, source, cores, from, until);
            AllInOrder(DecodedAll(lanes)) && forall k :: 0 <= k < |lanes| ==> Keyed(lanes[k])
  {
    if cores != [] {
      var (scan, rest) := (CoreScan(store, source, cores[0], from, until),
                           CoreScans(store, source, cores[1..], from, until));
      CoreScanInOrder(store, source, cores[0], from, until);
      CoreScansInOrder(store, source, cores[1..], from, until);
      if scan != [] {
        DecodedInOrder(scan);
        assert ([scan] + rest)[1..] == rest;
      } else {
        assert [] + rest == rest;
      }
    }
  }

  // ----- when the file is the merge of all cores

  /** The records of one rank, in order. */
  function AtRank<T>(s: seq<Entry<T>>, r: nat): seq<Entry<T>> {
    if s == [] then [] else (if RankOf(s[0]) == r then [s[0]] else []) + AtRank(s[1..], r)
  }

  lemma {:induction false} AtRankConcat<T>(a: seq<Entry<T>>, b: seq<Entry<T>>, r: nat)
    ensures AtRank(a + b, r) == AtRank(a, r) + AtRank(b, r)
  {
    if a == [] {
      assert a + b == b;
    } else {
      assert (a + b)[1..] == a[1..] + b;
      AtRankConcat(a[1..], b, r);
      Reassociate(if RankOf(a[0]) == r then [a[0]] else [], AtRank(a[1..], r), AtRank(b, r));
    }
  }

  lemma {:induction false} NothingAtRank<T>(s: seq<Entry<T>>, r: nat)
    requires forall x :: x in s ==> RankOf(x) != r
    ensures AtRank(s, r) == []
  {
    if s != [] {
      NothingAtRank(s[1..], r);
    }
  }

  lemma AtRankAround<T>(front: seq<seq<Entry<T>>>, lane: seq<Entry<T>>, back: seq<seq<Entry<T>>>, r: nat)
    ensures AtRank(Flatten(front + [lane] + back), r)
         == AtRank(Flatten(front), r) + (AtRank(lane, r) + AtRank(Flatten(back), r))
  {
    Reassociate(front, [lane], back);
    FlattenConcat(front, [lane] + back);
    assert ([lane] + back)[1..] == back;
    AtRankConcat(Flatten(front), lane + Flatten(back), r);
    AtRankConcat(lane, Flatten(back), r);
  }

  /** Lanes in front of the earliest head hold nothing of its rank. */
  lemma FrontHasNone<T>(lanes: seq<seq<Entry<T>>>, k: nat)
    requires AllInOrder(lanes) && IsEarliest(lanes, k)
    ensures AtRank(Flatten(lanes[..k]), RankOf(lanes[k][0])) == []
  {
    var front := lanes[..k];
    forall x | x in Flatten(front)
      ensures RankOf(x) != RankOf(lanes[k][0])
    {
      var j := FlattenMember(front, x);
      assert front[j] == lanes[j];
      assert InOrder(lanes[j]);
      var i :| 0 <= i < |lanes[j]| && lanes[j][i] == x;
      assert RankOf(lanes[j][0]) <= RankOf(x);
    }
    NothingAtRank(Flatten(front), RankOf(lanes[k][0]));
  }

  lemma AtRankOfHead<T>(lane: seq<Entry<T>>, r: nat)
    requires lane != []
    ensures AtRank(lane, r) == (if RankOf(lane[0]) == r then [lane[0]] else []) + AtRank(lane[1..], r)
  {
  }

  /** Taking the earliest head takes the first record of its rank, lane by lane. */
  lemma TakeEarliestAtRank<T>(lanes: seq<seq<Entry<T>>>, k: nat, r: nat)
    requires AllInOrder(lanes) && IsEarliest(lanes, k)
    ensures AtRank(Flatten(lanes), r)
         == (if RankOf(lanes[k][0]) == r then [lanes[k][0]] else []) + AtRank(Flatten(Behind(lanes, k)), r)
  {
    var (front, lane, back) := (lanes[..k], lanes[k], lanes[k + 1..]);
    UpdateAround(lanes, k, lane[1..]);
    AtRankAround(front, lane, back, r);
    AtRankAround(front, lane[1..], back, r);
    AtRankOfHead(lane, r);
    if RankOf(lane[0]) == r {
      FrontHasNone(lanes, k);
    }
    HeadForward(AtRank(Flatten(front), r), if RankOf(lane[0]) == r then [lane[0]] else [], AtRank(lane[1..], r),
                AtRank(Flatten(back), r));
  }

  lemma HeadForward<T>(front: seq<T>, head: seq<T>, lane: seq<T>, back: seq<T>)
    requires front == [] || head == []
    ensures front + (head + lane + back) == head + (front + (lane + back))
  {
  }

  /** Merging lanes in order keeps, among records of one rank, the order of the lanes. */
  lemma {:induction false} MergeKeepsRanks<T>(lanes: seq<seq<Entry<T>>>, r: nat)
    requires AllInOrder(lanes)
    ensures AtRank(RankMerge(lanes), r) == AtRank(Flatten(lanes), r)
    decreases Total(lanes)
  {
    if Total(lanes) == 0 {
      FlattenEmpty(lanes);
    } else {
      var k := Earliest(lanes);
      RankMergeStep(lanes, k);
      BehindInOrder(lanes, k);
      MergeKeepsRanks(Behind(lanes, k), r);
      TakeEarliestAtRank(lanes, k, r);
      AtRankConcat([lanes[k][0]], RankMerge(Behind(lanes, k)), r);
      AtRankOfHead([lanes[k][0]], r);
    }
  }

  ghost predicate SameAtRanks<T>(a: seq<Entry<T>>, b: seq<Entry<T>>) {
    forall r: nat :: AtRank(a, r) == AtRank(b, r)
  }

  lemma {:induction false} AtRankMember<T>(s: seq<Entry<T>>, r: nat)
    ensures AtRank(s, r) != [] <==> exists x :: x in s && RankOf(x) == r
  {
    if s != [] {
      AtRankMember(s[1..], r);
      HeadAndTail(s);
    }
  }

  lemma FirstRankNotAbove<T>(a: seq<Entry<T>>, b: seq<Entry<T>>)
    requires InOrder(b) && SameAtRanks(a, b) && a != []
    ensures b != [] && RankOf(b[0]) <= RankOf(a[0])
  {
    var r := RankOf(a[0]);
    AtRankOfHead(a, r);
    assert AtRank(b, r) == AtRank(a, r);
    AtRankMember(b, r);
    var x :| x in b && RankOf(x) == r;
    var i :| 0 <= i < |b| && b[i] == x;
  }

  /** Order, and the order within each rank, determine a sequence. */
  lemma {:induction false} RanksDetermine<T>(a: seq<Entry<T>>, b: seq<Entry<T>>)
    requires InOrder(a) && InOrder(b) && SameAtRanks(a, b)
    ensures a == b
    decreases |a|
  {
    if a == [] {
      if b != [] {
        FirstRankNotAbove(b, a);
      }
    } else {
      FirstRankNotAbove(a, b);
      FirstRankNotAbove(b, a);
      var r := RankOf(a[0]);
      AtRankOfHead(a, r);
      AtRankOfHead(b, r);
      assert AtRank(a, r)[0] == AtRank(b, r)[0];
      forall q: nat
        ensures AtRank(a[1..], q) == AtRank(b[1..], q)
      {
        TailAtRank(a, b, q);
      }
      HeadAndTail(a);
      HeadAndTail(b);
      ConsInOrder(a[0], a[1..]);
      ConsInOrder(b[0], b[1..]);
      RanksDetermine(a[1..], b[1..]);
    }
  }

  lemma TailAtRank<T>(a: seq<Entry<T>>, b: seq<Entry<T>>, q: nat)
    requires a != [] && b != [] && a[0] == b[0] && AtRank(a, q) == AtRank(b, q)
    ensures AtRank(a[1..], q) == AtRank(b[1..], q)
  {
    AtRankOfHead(a, q);
    AtRankOfHead(b, q);
    var n := if RankOf(a[0]) == q then 1 else 0;
    assert AtRank(a[1..], q) == AtRank(a, q)[n..];
    assert AtRank(b[1..], q) == AtRank(b, q)[n..];
  }

  /** The visited records are the stable merge exactly when every slot is in order and the slots
      hold the records of each time that the cores hold, in the same order. */
  lemma MergesAllBySlots<T>(lanes: seq<seq<Entry<T>>>)
    requires AllInOrder(DecodedAll(lanes))
    ensures RankMerge(FirstSlots(lanes)) == RankMerge(DecodedAll(lanes))
       <==> SlotsInOrder(lanes) && SameAtRanks(Flatten(FirstSlots(lanes)), Flatten(DecodedAll(lanes)))
  {
    var (slots, all) := (FirstSlots(lanes), DecodedAll(lanes));
    FirstSlotsInOrderIff(lanes);
    OrderedLanesMergeInOrder(all);
    if RankMerge(slots) == RankMerge(all) {
      MergeInOrderOrdersLanes(slots);
    }
    if AllInOrder(slots) {
      OrderedLanesMergeInOrder(slots);
      forall r: nat
        ensures AtRank(RankMerge(slots), r) == AtRank(Flatten(slots), r)
        ensures AtRank(RankMerge(all), r) == AtRank(Flatten(all), r)
      {
        MergeKeepsRanks(slots, r);
        MergeKeepsRanks(all, r);
      }
      if SameAtRanks(Flatten(slots), Flatten(all)) {
        RanksDetermine(RankMerge(slots), RankMerge(all));
      }
    }
  }

  // ----- which first values overtake records of their time

  function Empties<T>(d: nat): (r: seq<seq<T>>)
    ensures |r| == d
  {
    if d == 0 then [] else [[]] + Empties(d - 1)
  }

  /** What the slots hold when d lanes without records come before these. */
  function Shifted<T>(lanes: seq<seq<Entry<T>>>, d: nat): seq<Entry<T>> {
    Flatten(Zip(FirstRecords(lanes), Empties(d) + Later(lanes)))
  }

  lemma {:induction false} FlattenPadded<T>(heads: seq<T>, d: nat, tails: seq<seq<T>>)
    requires |heads| <= d + |tails|
    ensures Flatten(Zip(heads, Empties(d) + tails))
         == Take(heads, d) + if |heads| >= d then Flatten(Zip(heads[d..], tails)) else []
  {
    if d == 0 {
      assert Empties<T>(0) + tails == tails && heads[0..] == heads;
    } else if heads != [] {
      PaddedStep(heads, d, tails);
      FlattenPadded(heads[1..], d - 1, tails);
      TakeStep(heads, d);
      Reassociate([heads[0]], Take(heads[1..], d - 1), if |heads| >= d then Flatten(Zip(heads[d..], tails)) else []);
    }
  }

  lemma TakeStep<T>(heads: seq<T>, d: nat)
    requires heads != [] && d > 0
    ensures Take(heads, d) == [heads[0]] + Take(heads[1..], d - 1)
    ensures |heads| >= d ==> heads[1..][d - 1..] == heads[d..]
  {
  }

  lemma PaddedStep<T>(heads: seq<T>, d: nat, tails: seq<seq<T>>)
    requires heads != [] && d > 0 && |heads| <= d + |tails|
    ensures Flatten(Zip(heads, Empties(d) + tails)) == [heads[0]] + Flatten(Zip(heads[1..], Empties(d - 1) + tails))
  {
    var padded := Empties(d) + tails;
    assert padded[1..] == Empties(d - 1) + tails && padded[0] == [];
    FlattenHead([heads[0]], Zip(heads[1..], padded[1..]));
  }

  lemma FlattenHead<T>(first: seq<T>, rest: seq<seq<T>>)
    ensures Flatten([first + []] + rest) == first + Flatten(rest)
    ensures Flatten([first] + rest) == first + Flatten(rest)
  {
    assert ([first] + rest)[1..] == rest;
    assert first + [] == first;
  }

  /** A lane without records in front only shifts the others. */
  lemma ShiftedPastEmpty<T>(lanes: seq<seq<Entry<T>>>, d: nat)
    requires lanes != [] && Decoded(lanes[0]) == []
    ensures Shifted(lanes, d) == Shifted(lanes[1..], d + 1)
  {
    assert [] + FirstRecords(lanes[1..]) == FirstRecords(lanes[1..]);
    EmptiesMore<Entry<T>>(d);
    assert Empties(d) + ([[]] + Later(lanes[1..])) == Empties(d) + [[]] + Later(lanes[1..]);
  }

  lemma {:induction false} EmptiesMore<T>(d: nat)
    ensures Empties<T>(d) + [[]] == Empties<T>(d + 1)
  {
    if d > 0 {
      EmptiesMore<T>(d - 1);
      assert Empties<T>(d) + [[]] == [[]] + (Empties<T>(d - 1) + [[]]);
    }
  }

  /** A lane with records in front: its later records come behind the first values of the d lanes
      after it that have some, or not at all. */
  lemma ShiftedPastLane<T>(lanes: seq<seq<Entry<T>>>, d: nat)
    requires lanes != [] && Decoded(lanes[0]) != []
    ensures var (lane, firsts) := (Decoded(lanes[0]), FirstRecords(lanes[1..]));
            if d <= |firsts| then
              var back := Flatten(Zip(firsts[d..], Later(lanes[1..])));
              && Shifted(lanes, d) == [lane[0]] + (firsts[..d] + (lane[1..] + back))
              && Shifted(lanes[1..], d) == firsts[..d] + back
            else Shifted(lanes, d) == [lane[0]] + firsts && Shifted(lanes[1..], d) == firsts
  {
    var (lane, firsts, later) := (Decoded(lanes[0]), FirstRecords(lanes[1..]), Later(lanes[1..]));
    var heads := [lane[0]] + firsts;
    FlattenPadded(heads, d, [lane[1..]] + later);
    FlattenPadded(firsts, d, later);
    if d <= |firsts| {
      var rest := heads[d..];
      assert rest[1..] == firsts[d..] && ([lane[1..]] + later)[1..] == later;
      assert Zip(rest, [lane[1..]] + later) == [[rest[0]] + lane[1..]] + Zip(firsts[d..], later);
      FlattenHead([rest[0]] + lane[1..], Zip(firsts[d..], later));
      PrefixMoved(lane[0], firsts, d, lane[1..], Flatten(Zip(firsts[d..], later)));
    } else if d == |heads| {
      assert Zip<Entry<T>>(heads[d..], [lane[1..]] + later) == [];
    }
  }

  lemma PrefixMoved<T>(head: T, firsts: seq<T>, d: nat, lane: seq<T>, back: seq<T>)
    requires d <= |firsts|
    ensures var heads := [head] + firsts;
            heads[..d] + ([heads[d]] + lane + back) == [head] + (firsts[..d] + (lane + back))
  {
  }

  /** How many of the first n lanes hold a readable record. */
  function Holding<T>(lanes: seq<seq<Entry<T>>>, n: nat): nat
    requires n <= |lanes|
  {
    if n == 0 then 0 else Holding(lanes, n - 1) + |FirstRecord(lanes[n - 1])|
  }

  lemma {:induction false} HoldingBehind<T>(lanes: seq<seq<Entry<T>>>, rest: seq<seq<Entry<T>>>, n: nat)
    requires lanes != [] && rest == lanes[1..] && n <= |rest|
    ensures Holding(lanes, n + 1) == |FirstRecord(lanes[0])| + Holding(rest, n)
  {
    if n > 0 {
      HoldingBehind(lanes, rest, n - 1);
    } else {
      assert Holding(lanes, 1) == Holding(lanes, 0) + |FirstRecord(lanes[0])|;
    }
  }

  /** The first values filed at or before lane j that come from lanes behind it, when the values
      are filed d places further on. */
  function Ahead<T>(lanes: seq<seq<Entry<T>>>, d: nat, j: nat): seq<Entry<T>>
    requires j < |lanes|
  {
    Between(FirstRecords(lanes), Holding(lanes, j + 1), j + d + 1)
  }

  function Between<T>(s: seq<T>, from: nat, to: nat): seq<T> {
    if from <= |Take(s, to)| then Take(s, to)[from..] else []
  }

  /** One of the two has no record of that rank. */
  predicate ApartAt<T>(a: seq<Entry<T>>, b: seq<Entry<T>>, r: nat) {
    AtRank(a, r) == [] || AtRank(b, r) == []
  }

  ghost predicate NoneOvertakesAt<T>(lanes: seq<seq<Entry<T>>>, d: nat, r: nat) {
    forall j: nat :: j < |lanes| ==> ApartAt(Ahead(lanes, d, j), Later(lanes)[j], r)
  }

  /** No first value comes out in front of a record of its time from an earlier lane. */
  ghost predicate NoneOvertakes<T>(lanes: seq<seq<Entry<T>>>) {
    forall r: nat :: NoneOvertakesAt(lanes, 0, r)
  }

  lemma LaterBehind<T>(lanes: seq<seq<Entry<T>>>, rest: seq<seq<Entry<T>>>, j: nat)
    requires lanes != [] && rest == lanes[1..] && j < |rest|
    ensures Later(lanes)[j + 1] == Later(rest)[j]
  {
  }

  lemma BetweenBehind<T>(s: seq<T>, from: nat, to: nat, first: seq<T>, rest: seq<T>, from': nat, to': nat)
    requires s == first + rest && from == |first| + from' && to == |first| + to'
    ensures Between(s, from, to) == Between(rest, from', to')
  {
  }

  lemma AheadFrom<T>(lanes: seq<seq<Entry<T>>>, d: nat, j: nat, first: seq<Entry<T>>, rest: seq<Entry<T>>, from: nat,
                     to: nat)
    requires j < |lanes| && FirstRecords(lanes) == first + rest
    requires Holding(lanes, j + 1) == |first| + from && j + d + 1 == |first| + to
    ensures Ahead(lanes, d, j) == Between(rest, from, to)
  {
    BetweenBehind(FirstRecords(lanes), Holding(lanes, j + 1), j + d + 1, first, rest, from, to);
  }

  lemma AheadBehind<T>(lanes: seq<seq<Entry<T>>>, rest: seq<seq<Entry<T>>>, d: nat, e: nat, j: nat)
    requires lanes != [] && rest == lanes[1..] && j < |rest| && |FirstRecord(lanes[0])| + e == d + 1
    ensures Ahead(lanes, d, j + 1) == Ahead(rest, e, j)
  {
    FirstsBehind(lanes);
    HoldingBehind(lanes, rest, j + 1);
    AheadFrom(lanes, d, j + 1, FirstRecord(lanes[0]), FirstRecords(rest), Holding(rest, j + 1), j + e + 1);
  }

  lemma AheadOfFirst<T>(lanes: seq<seq<Entry<T>>>, d: nat)
    requires lanes != [] && Decoded(lanes[0]) != []
    ensures Ahead(lanes, d, 0) == Take(FirstRecords(lanes[1..]), d)
  {
    var firsts := FirstRecords(lanes[1..]);
    FirstsBehind(lanes);
    HoldingBehind(lanes, lanes[1..], 0);
    AheadFrom(lanes, d, 0, FirstRecord(lanes[0]), firsts, 0, d);
    assert Between(firsts, 0, d) == Take(firsts, d);
  }

  /** Overtaking, lane by lane. */
  lemma NoneOvertakesStep<T>(lanes: seq<seq<Entry<T>>>, rest: seq<seq<Entry<T>>>, d: nat, e: nat, r: nat)
    requires lanes != [] && rest == lanes[1..] && |FirstRecord(lanes[0])| + e == d + 1
    ensures NoneOvertakesAt(lanes, d, r)
       <==> ApartAt(Ahead(lanes, d, 0), Later(lanes)[0], r) && NoneOvertakesAt(rest, e, r)
  {
    forall j: nat | j < |rest|
      ensures ApartAt(Ahead(lanes, d, j + 1), Later(lanes)[j + 1], r) <==> ApartAt(Ahead(rest, e, j), Later(rest)[j], r)
    {
      AheadBehind(lanes, rest, d, e, j);
      LaterBehind(lanes, rest, j);
    }
    if ApartAt(Ahead(lanes, d, 0), Later(lanes)[0], r) && NoneOvertakesAt(rest, e, r) {
      forall j: nat | j < |lanes|
        ensures ApartAt(Ahead(lanes, d, j), Later(lanes)[j], r)
      {
        if j > 0 {
          assert ApartAt(Ahead(rest, e, j - 1), Later(rest)[j - 1], r);
        }
      }
    }
  }

  lemma NoneOvertakesPastEmpty<T>(lanes: seq<seq<Entry<T>>>, d: nat, r: nat)
    requires lanes != [] && Decoded(lanes[0]) == []
    ensures NoneOvertakesAt(lanes, d, r) <==> NoneOvertakesAt(lanes[1..], d + 1, r)
  {
    NoneOvertakesStep(lanes, lanes[1..], d, d + 1, r);
    assert Later(lanes)[0] == [];
  }

  lemma NoneOvertakesPastLane<T>(lanes: seq<seq<Entry<T>>>, d: nat, r: nat)
    requires lanes != [] && Decoded(lanes[0]) != []
    ensures NoneOvertakesAt(lanes, d, r)
       <==> && ApartAt(Take(FirstRecords(lanes[1..]), d), Decoded(lanes[0])[1..], r)
            && NoneOvertakesAt(lanes[1..], d, r)
  {
    NoneOvertakesStep(lanes, lanes[1..], d, d, r);
    AheadOfFirst(lanes, d);
  }

  ghost predicate DistinctEntries<T>(s: seq<Entry<T>>) {
    forall i, j :: 0 <= i < j < |s| ==> s[i] != s[j]
  }

  lemma DistinctParts<T>(a: seq<Entry<T>>, b: seq<Entry<T>>)
    requires DistinctEntries(a + b)
    ensures DistinctEntries(b) && forall x :: x in a ==> x !in b
  {
    var s := a + b;
    forall i, j | 0 <= i < j < |b|
      ensures b[i] != b[j]
    {
      assert s[|a| + i] == b[i] && s[|a| + j] == b[j];
    }
    forall x | x in a
      ensures x !in b
    {
      var i :| 0 <= i < |a| && a[i] == x;
      forall j | 0 <= j < |b|
        ensures b[j] != x
      {
        assert s[i] == x && s[|a| + j] == b[j];
      }
    }
  }

  /** Records moved behind others leave the sequence as it is only when there are none to pass. */
  lemma MovedIff<T>(passed: seq<T>, moved: seq<T>, back: seq<T>, rest: seq<T>)
    requires passed == [] || moved == [] || passed[0] != moved[0]
    ensures passed + (moved + back) == moved + rest <==> (passed == [] || moved == []) && passed + back == rest
  {
    if moved == [] {
      assert moved + back == back && moved + rest == rest;
    } else if passed == [] {
      assert passed + (moved + back) == moved + back && passed + back == back;
      assert (moved + back)[|moved|..] == back && (moved + rest)[|moved|..] == rest;
    } else {
      assert (passed + (moved + back))[0] == passed[0] && (moved + rest)[0] == moved[0];
    }
  }

  lemma CancelFront<T>(front: seq<T>, a: seq<T>, b: seq<T>)
    ensures front + a == front + b <==> a == b
  {
    assert (front + a)[|front|..] == a && (front + b)[|front|..] == b;
  }

  ghost predicate NoneStrandedBehind<T>(lanes: seq<seq<Entry<T>>>, d: nat) {
    forall j :: 0 <= j < |lanes| && |FirstRecords(lanes)| <= j + d ==> |Decoded(lanes[j])| <= 1
  }

  /** The slots hold the records of a time in the order of the lanes exactly when no first value
      of that time overtakes. */
  ghost predicate KeepsRank<T>(lanes: seq<seq<Entry<T>>>, d: nat, r: nat) {
    AtRank(Shifted(lanes, d), r) == AtRank(Flatten(DecodedAll(lanes)), r)
  }

  lemma KeepsRankPastEmpty<T>(lanes: seq<seq<Entry<T>>>, d: nat, r: nat)
    requires lanes != [] && Decoded(lanes[0]) == []
    ensures KeepsRank(lanes, d, r) <==> KeepsRank(lanes[1..], d + 1, r)
    ensures Flatten(DecodedAll(lanes)) == Flatten(DecodedAll(lanes[1..]))
  {
    ShiftedPastEmpty(lanes, d);
    assert DecodedAll(lanes)[1..] == DecodedAll(lanes[1..]);
    assert [] + Flatten(DecodedAll(lanes[1..])) == Flatten(DecodedAll(lanes[1..]));
  }

  lemma {:induction false} AtRankIn<T>(s: seq<Entry<T>>, r: nat, x: Entry<T>)
    ensures x in AtRank(s, r) ==> x in s
  {
    if s != [] {
      AtRankIn(s[1..], r, x);
    }
  }

  /** Later records of a lane moved behind the first values in front. */
  lemma MovedAtRank<T>(first: seq<Entry<T>>, l: seq<Entry<T>>, front: seq<Entry<T>>, back: seq<Entry<T>>,
                       rest: seq<Entry<T>>, r: nat)
    requires forall x :: x in l ==> x !in front
    ensures AtRank(first + (front + (l + back)), r) == AtRank(first + (l + rest), r)
       <==> ApartAt(front, l, r) && AtRank(front + back, r) == AtRank(rest, r)
  {
    var (passed, moved) := (AtRank(front, r), AtRank(l, r));
    AtRankConcat(first, front + (l + back), r);
    AtRankConcat(front, l + back, r);
    AtRankConcat(l, back, r);
    AtRankConcat(first, l + rest, r);
    AtRankConcat(l, rest, r);
    AtRankConcat(front, back, r);
    if passed != [] && moved != [] {
      AtRankIn(front, r, passed[0]);
      AtRankIn(l, r, moved[0]);
    }
    MovedIff(passed, moved, AtRank(back, r), AtRank(rest, r));
    CancelFront(AtRank(first, r), passed + (moved + AtRank(back, r)), moved + AtRank(rest, r));
  }

  /** First values are records of their lanes. */
  lemma FirstsAreDecoded<T>(lanes: seq<seq<Entry<T>>>, x: Entry<T>)
    requires x in FirstRecords(lanes)
    ensures x in Flatten(DecodedAll(lanes))
  {
    var i :| 0 <= i < |FirstRecords(lanes)| && FirstRecords(lanes)[i] == x;
    var k := FirstRecordFrom(lanes, i);
    MemberOfFlatten(DecodedAll(lanes), k, x);
  }

  lemma FlattenDecoded<T>(lanes: seq<seq<Entry<T>>>)
    requires lanes != []
    ensures Flatten(DecodedAll(lanes)) == Decoded(lanes[0]) + Flatten(DecodedAll(lanes[1..]))
  {
    assert DecodedAll(lanes)[1..] == DecodedAll(lanes[1..]);
  }

  lemma FirstsDiffer<T>(lanes: seq<seq<Entry<T>>>)
    requires lanes != [] && DistinctEntries(Flatten(DecodedAll(lanes)))
    ensures DistinctEntries(Flatten(DecodedAll(lanes[1..])))
    ensures forall x :: x in Decoded(lanes[0]) ==> x !in FirstRecords(lanes[1..])
  {
    FlattenDecoded(lanes);
    DistinctParts(Decoded(lanes[0]), Flatten(DecodedAll(lanes[1..])));
    forall x | x in Decoded(lanes[0])
      ensures x !in FirstRecords(lanes[1..])
    {
      if x in FirstRecords(lanes[1..]) {
        FirstsAreDecoded(lanes[1..], x);
      }
    }
  }

  lemma KeepsRankPastLane<T>(lanes: seq<seq<Entry<T>>>, d: nat, r: nat)
    requires lanes != [] && Decoded(lanes[0]) != []
    requires DistinctEntries(Flatten(DecodedAll(lanes))) && NoneStrandedBehind(lanes, d)
    ensures KeepsRank(lanes, d, r)
       <==> ApartAt(Take(FirstRecords(lanes[1..]), d), Decoded(lanes[0])[1..], r) && KeepsRank(lanes[1..], d, r)
  {
    var front, back := LaneInFront(lanes, d);
    FlattenDecoded(lanes);
    FirstsDiffer(lanes);
    TakeMembers(FirstRecords(lanes[1..]), d);
    LaneMoved(Decoded(lanes[0]), front, back, Flatten(DecodedAll(lanes[1..])), r);
  }

  /** Where the slots hold the records of the first lane, when none of them is stranded. */
  lemma LaneInFront<T>(lanes: seq<seq<Entry<T>>>, d: nat) returns (front: seq<Entry<T>>, back: seq<Entry<T>>)
    requires lanes != [] && Decoded(lanes[0]) != [] && NoneStrandedBehind(lanes, d)
    ensures front == Take(FirstRecords(lanes[1..]), d)
    ensures Shifted(lanes, d) == [Decoded(lanes[0])[0]] + (front + (Decoded(lanes[0])[1..] + back))
    ensures Shifted(lanes[1..], d) == front + back
  {
    var (lane, firsts) := (Decoded(lanes[0]), FirstRecords(lanes[1..]));
    ShiftedPastLane(lanes, d);
    if d <= |firsts| {
      front, back := firsts[..d], Flatten(Zip(firsts[d..], Later(lanes[1..])));
    } else {
      front, back := firsts, [];
      OnlyFirstValue(lanes, d);
      NothingMoved(lane, firsts);
    }
    assert front == Take(firsts, d);
  }

  lemma OnlyFirstValue<T>(lanes: seq<seq<Entry<T>>>, d: nat)
    requires lanes != [] && Decoded(lanes[0]) != [] && NoneStrandedBehind(lanes, d)
    requires d > |FirstRecords(lanes[1..])|
    ensures |Decoded(lanes[0])| == 1
  {
    FirstsBehind(lanes);
  }

  lemma TakeMembers<T>(s: seq<T>, n: nat)
    ensures forall x :: x in Take(s, n) ==> x in s
  {
  }

  lemma LaneMoved<T>(lane: seq<Entry<T>>, front: seq<Entry<T>>, back: seq<Entry<T>>, rest: seq<Entry<T>>, r: nat)
    requires lane != [] && forall x :: x in lane ==> x !in front
    ensures AtRank([lane[0]] + (front + (lane[1..] + back)), r) == AtRank(lane + rest, r)
       <==> ApartAt(front, lane[1..], r) && AtRank(front + back, r) == AtRank(rest, r)
  {
    LaneApart(lane, rest);
    assert forall x :: x in lane[1..] ==> x in lane;
    MovedAtRank([lane[0]], lane[1..], front, back, rest, r);
  }

  lemma LaneApart<T>(lane: seq<T>, rest: seq<T>)
    requires lane != []
    ensures lane + rest == [lane[0]] + (lane[1..] + rest)
  {
  }

  lemma NothingMoved<T>(lane: seq<T>, firsts: seq<T>)
    requires |lane| == 1
    ensures [lane[0]] + firsts == [lane[0]] + (firsts + (lane[1..] + [])) && firsts == firsts + []
  {
  }

  lemma {:induction false} KeepsRankIff<T>(lanes: seq<seq<Entry<T>>>, d: nat, r: nat)
    requires DistinctEntries(Flatten(DecodedAll(lanes))) && NoneStrandedBehind(lanes, d)
    ensures KeepsRank(lanes, d, r) <==> NoneOvertakesAt(lanes, d, r)
    decreases |lanes|
  {
    if lanes == [] {
      assert Shifted(lanes, d) == [];
    } else {
      var rest := lanes[1..];
      StrandedBehind(lanes, d);
      if Decoded(lanes[0]) == [] {
        KeepsRankPastEmpty(lanes, d, r);
        NoneOvertakesPastEmpty(lanes, d, r);
        KeepsRankIff(rest, d + 1, r);
      } else {
        KeepsRankPastLane(lanes, d, r);
        NoneOvertakesPastLane(lanes, d, r);
        FirstsDiffer(lanes);
        KeepsRankIff(rest, d, r);
      }
    }
  }

  lemma StrandedBehind<T>(lanes: seq<seq<Entry<T>>>, d: nat)
    requires lanes != [] && NoneStrandedBehind(lanes, d)
    ensures NoneStrandedBehind(lanes[1..], if Decoded(lanes[0]) == [] then d + 1 else d)
  {
    assert FirstRecords(lanes) == FirstRecord(lanes[0]) + FirstRecords(lanes[1..]);
    assert forall j {:trigger lanes[1..][j]} :: 0 <= j < |lanes[1..]| ==> lanes[1..][j] == lanes[j + 1];
  }

  /** For cores in time order, of distinct records, the visited records are the merge of all
      decodable records, ties in core order, exactly when no core is stranded, every slot begins
      in order, and no first value overtakes a record of its time. */
  lemma ExportMergesAllIff<T>(lanes: seq<seq<Entry<T>>>)
    requires AllInOrder(DecodedAll(lanes)) && DistinctEntries(Flatten(DecodedAll(lanes)))
    ensures RankMerge(FirstSlots(lanes)) == RankMerge(DecodedAll(lanes))
       <==> NoneStranded(lanes) && SlotsInOrder(lanes) && NoneOvertakes(lanes)
  {
    MergesAllBySlots(lanes);
    ExportCompleteIff(lanes);
    MergePermutes(DecodedAll(lanes));
    if NoneStranded(lanes) {
      SlotsKeepRanksIff(lanes);
    }
  }

  lemma SlotsKeepRanksIff<T>(lanes: seq<seq<Entry<T>>>)
    requires DistinctEntries(Flatten(DecodedAll(lanes))) && NoneStranded(lanes)
    ensures SameAtRanks(Flatten(FirstSlots(lanes)), Flatten(DecodedAll(lanes))) <==> NoneOvertakes(lanes)
  {
    assert Empties<Entry<T>>(0) + Later(lanes) == Later(lanes);
    forall r: nat
      ensures AtRank(Flatten(FirstSlots(lanes)), r) == AtRank(Flatten(DecodedAll(lanes)), r)
         <==> NoneOvertakesAt(lanes, 0, r)
    {
      KeepsRankIff(lanes, 0, r);
    }
  }

  // ----- the scans of a store hold distinct records

  lemma {:induction false} DecodedDistinct<T>(lane: seq<Entry<T>>)
    requires DistinctEntries(lane)
    ensures DistinctEntries(Decoded(lane))
  {
    if lane != [] {
      HeadAndTail(lane);
      DistinctParts([lane[0]], lane[1..]);
      DecodedDistinct(lane[1..]);
      forall j | 0 <= j < |Decoded(lane[1..])|
        ensures Decoded(lane[1..])[j] != lane[0]
      {
        DecodedMember(lane[1..], j);
        assert lane[0] in [lane[0]];
      }
    }
  }

  lemma SliceDistinct<T>(store: seq<Entry<T>>, a: nat, b: nat)
    requires Sorted(store) && a <= |store| && b <= |store|
    ensures DistinctEntries(Slice(store, a, b))
  {
    var run := Slice(store, a, b);
    forall i, j | 0 <= i < j < |run|
      ensures run[i] != run[j]
    {
      assert Less(store[a + i].key, store[a + j].key);
      Trichotomy(run[i].key, run[j].key);
    }
  }

  lemma CoreScanHolds<T>(store: seq<Entry<T>>, source: Key, core: Key, from: Option<int>, until: Option<int>)
    requires WellFormed(FixedMid(4), store) && NulFree(source) && |core| == 4
    ensures DistinctEntries(CoreScan(store, source, core, from, until))
    ensures forall x :: x in CoreScan(store, source, core, from, until) ==> KeyPrefix(source, Some(core)) <= x.key
  {
    var (lo, hi) := (LowerClosedBound(from), UpperOpenBound(until));
    var (lower, upper) := (StorageKey(source, Some(core), lo), StorageKey(source, Some(core), hi));
    var (a, b) := (LowerIndex(store, lower), UpperIndex(store, upper));
    ForwardScan(store, lower, upper);
    SliceDistinct(store, a, b);
    forall n | a <= n < b
      ensures KeyPrefix(source, Some(core)) <= store[n].key
    {
      ScannedKey(store, source, core, lo, hi, n);
    }
  }

  lemma SameCore(source: Key, core: Key, other: Key, key: Key)
    requires |core| == |other| && KeyPrefix(source, Some(core)) <= key && KeyPrefix(source, Some(other)) <= key
    ensures core == other
  {
    CoreIn(source, core, key);
    CoreIn(source, other, key);
  }

  lemma CoreIn(source: Key, core: Key, key: Key)
    requires KeyPrefix(source, Some(core)) <= key
    ensures |source| + 1 + |core| <= |key| && key[|source| + 1..|source| + 1 + |core|] == core
  {
    assert KeyPrefix(source, Some(core)) == source + [0] + core + [0];
  }

  lemma {:induction false} ScannedCore<T>(store: seq<Entry<T>>, source: Key, cores: seq<Key>,
                                          from: Option<int>, until: Option<int>, x: Entry<T>) returns (core: Key)
    requires WellFormed(FixedMid(4), store) && NulFree(source) && forall k :: 0 <= k < |cores| ==> |cores[k]| == 4
    requires x in Flatten(DecodedAll(CoreScans(store, source, cores, from, until)))
    ensures core in cores && KeyPrefix(source, Some(core)) <= x.key
  {
    var (scan, rest) := (CoreScan(store, source, cores[0], from, until),
                         CoreScans(store, source, cores[1..], from, until));
    FlattenScans(scan, rest);
    if x in Decoded(scan) {
      core := cores[0];
      CoreScanHolds(store, source, core, from, until);
      DecodedIn(scan, x);
    } else {
      core := ScannedCore(store, source, cores[1..], from, until, x);
    }
  }

  lemma DecodedIn<T>(lane: seq<Entry<T>>, x: Entry<T>)
    requires x in Decoded(lane)
    ensures x in lane
  {
    var j :| 0 <= j < |Decoded(lane)| && Decoded(lane)[j] == x;
    DecodedMember(lane, j);
  }

  lemma FlattenScans<T>(scan: seq<Entry<T>>, rest: seq<seq<Entry<T>>>)
    ensures Flatten(DecodedAll((if scan != [] then [scan] else []) + rest)) == Decoded(scan) + Flatten(DecodedAll(rest))
  {
    if scan != [] {
      FlattenDecoded([scan] + rest);
      assert ([scan] + rest)[1..] == rest;
    } else {
      assert [] + rest == rest;
      assert [] + Flatten(DecodedAll(rest)) == Flatten(DecodedAll(rest));
    }
  }

  /** The records an export reads from a store are distinct when the cores are. */
  lemma {:induction false} CoreScansDistinct<T>(store: seq<Entry<T>>, source: Key, cores: seq<Key>,
                                                from: Option<int>, until: Option<int>)
    requires WellFormed(FixedMid(4), store) && NulFree(source) && forall k :: 0 <= k < |cores| ==> |cores[k]| == 4
    requires forall i, j :: 0 <= i < j < |cores| ==> cores[i] != cores[j]
    ensures DistinctEntries(Flatten(DecodedAll(CoreScans(store, source, cores, from, until))))
  {
    if cores != [] {
      var (scan, others) := (CoreScan(store, source, cores[0], from, until),
                             CoreScans(store, source, cores[1..], from, until));
      CoreScansDistinct(store, source, cores[1..], from, until);
      FlattenScans(scan, others);
      CoreScanHolds(store, source, cores[0], from, until);
      DecodedDistinct(scan);
      forall x | x in Decoded(scan)
        ensures x !in Flatten(DecodedAll(others))
      {
        DecodedIn(scan, x);
        if x in Flatten(DecodedAll(others)) {
          var core := ScannedCore(store, source, cores[1..], from, until, x);
          SameCore(source, cores[0], core, x.key);
        }
      }
      JoinDistinct(Decoded(scan), Flatten(DecodedAll(others)));
    }
  }

  lemma JoinDistinct<T>(a: seq<Entry<T>>, b: seq<Entry<T>>)
    requires DistinctEntries(a) && DistinctEntries(b) && forall x :: x in a ==> x !in b
    ensures DistinctEntries(a + b)
  {
    var s := a + b;
    forall i, j | 0 <= i < j < |s|
      ensures s[i] != s[j]
    {
      assert i < |a| ==> s[i] in a;
      assert j >= |a| ==> s[j] in b;
    }
  }

  ghost predicate DistinctRanks<T>(s: seq<Entry<T>>) {
    forall i, j :: 0 <= i < j < |s| ==> RankOf(s[i]) != RankOf(s[j])
  }

  lemma {:induction false} AtMostOneAtRank<T>(s: seq<Entry<T>>, r: nat)
    requires DistinctRanks(s)
    ensures |AtRank(s, r)| <= 1
  {
    if s != [] {
      assert DistinctRanks(s[1..]) by {
        assert forall i :: 0 <= i < |s[1..]| ==> s[1..][i] == s[i + 1];
      }
      AtMostOneAtRank(s[1..], r);
      if RankOf(s[0]) == r {
        forall x | x in s[1..]
          ensures RankOf(x) != r
        {
          var i :| 0 <= i < |s[1..]| && s[1..][i] == x;
          assert s[i + 1] == x;
        }
        NothingAtRank(s[1..], r);
      }
    }
  }

  /** Without ties, the same records are the same at every rank. */
  lemma PermutationAtRank<T>(a: seq<Entry<T>>, b: seq<Entry<T>>, r: nat)
    requires multiset(a) == multiset(b) && DistinctRanks(b)
    ensures AtRank(a, r) == AtRank(b, r)
  {
    AtMostOneAtRank(b, r);
    AtRankPermutes(a, b, r);
    ShortPermutation(AtRank(a, r), AtRank(b, r));
  }

  lemma {:induction false} AtRankPermutes<T>(a: seq<Entry<T>>, b: seq<Entry<T>>, r: nat)
    requires multiset(a) == multiset(b)
    ensures multiset(AtRank(a, r)) == multiset(AtRank(b, r))
  {
    if a == [] {
      assert |b| == |multiset(b)| == 0;
    } else {
      assert a[0] in multiset(b);
      var i :| 0 <= i < |b| && b[i] == a[0];
      var (front, back) := (b[..i], b[i + 1..]);
      UpdateAround(b, i, b[i]);
      HeadAndTail(a);
      CancelOne(a[0], multiset(a[1..]), multiset(front + back));
      AtRankPermutes(a[1..], front + back, r);
      AtRankConcat(front, back, r);
      AtRankConcat(front + [b[i]], back, r);
      AtRankConcat(front, [b[i]], r);
      AtRankConcat([a[0]], a[1..], r);
    }
  }

  lemma CancelOne<T>(x: T, a: multiset<T>, b: multiset<T>)
    requires multiset{x} + a == multiset{x} + b
    ensures a == b
  {
    assert a == multiset{x} + a - multiset{x};
    assert b == multiset{x} + b - multiset{x};
  }

  lemma ShortPermutation<T>(a: seq<T>, b: seq<T>)
    requires multiset(a) == multiset(b) && |b| <= 1
    ensures a == b
  {
    assert |a| == |multiset(a)| == |b|;
    if |b| == 1 {
      assert a[0] in multiset(b);
    }
  }

  /** With distinct times over all cores: exactly when no core is stranded and every slot is
      in order. */
  lemma ExportMergesAllDistinctIff<T>(lanes: seq<seq<Entry<T>>>)
    requires AllInOrder(DecodedAll(lanes)) && DistinctRanks(Flatten(DecodedAll(lanes)))
    ensures RankMerge(FirstSlots(lanes)) == RankMerge(DecodedAll(lanes)) <==> NoneStranded(lanes) && SlotsInOrder(lanes)
  {
    var (slots, all) := (FirstSlots(lanes), DecodedAll(lanes));
    MergesAllBySlots(lanes);
    ExportCompleteIff(lanes);
    MergePermutes(slots);
    MergePermutes(all);
    if NoneStranded(lanes) {
      forall r: nat
        ensures AtRank(Flatten(slots), r) == AtRank(Flatten(all), r)
      {
        PermutationAtRank(Flatten(slots), Flatten(all), r);
      }
    }
  }

  // ----- two concrete failures

  lemma MergeOfNothing<T>(lanes: seq<seq<Entry<T>>>)
    requires forall k :: 0 <= k < |lanes| ==> lanes[k] == []
    ensures RankMerge(lanes) == []
  {
    TotalZero(lanes);
  }

  /** Behind a lane with only an undecodable record, the second record of the next lane is
      never visited. */
  lemma ExportLosesRecordExample<T>(bad: Entry<T>, a: Entry<T>, b: Entry<T>)
    requires bad.value.None? && a.value.Some? && b.value.Some? && a != b
    ensures var lanes := [[bad], [a, b]];
            RankMerge(FirstSlots(lanes)) == [a] && b in Flatten(DecodedAll(lanes)) && !NoneStranded(lanes)
  {
    var lanes := [[bad], [a, b]];
    DecodedPair(a, b);
    DecodedNothing(bad);
    assert lanes[1..] == [[a, b]];
    assert FirstRecords(lanes[1..]) == [a] + FirstRecords(lanes[1..][1..]);
    assert FirstRecords(lanes) == [] + [a] == [a];
    var slots := FirstSlots(lanes);
    assert Later(lanes)[0] == [];
    assert slots == [[a]];
    RankMergeStep(slots, 0);
    MergeOfNothing(Behind(slots, 0));
    MemberOfFlatten(DecodedAll(lanes), 1, b);
  }

  lemma DecodedPair<T>(a: Entry<T>, b: Entry<T>)
    requires a.value.Some? && b.value.Some?
    ensures Decoded([a, b]) == [a, b] && Decoded([a]) == [a]
  {
    assert [a, b][1..] == [b] && [b][1..] == [] && [a][1..] == [];
    assert Decoded([b]) == [b] + Decoded([b][1..]) == [b];
    assert Decoded([a]) == [a] + Decoded([a][1..]) == [a];
  }

  lemma DecodedNothing<T>(bad: Entry<T>)
    requires bad.value.None?
    ensures Decoded([bad]) == []
  {
    assert [bad][1..] == [];
  }

  /** Behind such a lane, a complete file can be out of order: the value of the third lane is
      filed with the iterator of the second. */
  lemma ExportOutOfOrderExample<T>(bad: Entry<T>, a: Entry<T>, b: Entry<T>, c: Entry<T>)
    requires bad.value.None? && a.value.Some? && b.value.Some? && c.value.Some?
    requires RankOf(a) < RankOf(b) < RankOf(c)
    ensures var lanes := [[bad], [a, b], [c]];
            NoneStranded(lanes) && RankMerge(FirstSlots(lanes)) == [a, c, b] && !SlotsInOrder(lanes)
  {
    var lanes := [[bad], [a, b], [c]];
    OutOfOrderVectors(bad, a, b, c);
    var (next, later) := (FirstRecords(lanes), Later(lanes));
    var slots := FirstSlots(lanes);
    assert slots[0] == [next[0]] + later[0] == [a];
    assert slots[1] == [next[1]] + later[1] == [c, b];
    assert slots == [[a], [c, b]];
    OutOfOrderMerge(a, b, c);
  }

  lemma OutOfOrderVectors<T>(bad: Entry<T>, a: Entry<T>, b: Entry<T>, c: Entry<T>)
    requires bad.value.None? && a.value.Some? && b.value.Some? && c.value.Some? && RankOf(b) < RankOf(c)
    ensures var lanes := [[bad], [a, b], [c]];
            && FirstRecords(lanes) == [a, c] && Later(lanes) == [[], [b], []]
            && NoneStranded(lanes) && !SlotsInOrder(lanes)
  {
    var (lanes, two) := ([[bad], [a, b], [c]], [[a, b], [c]]);
    DecodedPair(a, b);
    DecodedPair(c, c);
    DecodedNothing(bad);
    TwoVectors(a, b, c);
    VectorsCons([bad], two);
    assert [[bad]] + two == lanes && [] + [a, c] == [a, c] && [[]] + [[b], []] == [[], [b], []];
    var (next, later) := (FirstRecords(lanes), Later(lanes));
    assert next[1] == c && later[1][0] == b;
  }

  lemma TwoVectors<T>(a: Entry<T>, b: Entry<T>, c: Entry<T>)
    requires a.value.Some? && b.value.Some? && c.value.Some?
    ensures FirstRecords([[a, b], [c]]) == [a, c] && Later([[a, b], [c]]) == [[b], []]
  {
    DecodedPair(a, b);
    DecodedPair(c, c);
    VectorsCons([c], []);
    VectorsCons([a, b], [[c]]);
    assert [[c]] + [] == [[c]] && [[a, b]] + [[c]] == [[a, b], [c]];
  }

  /** The two vectors with one more lane in front. */
  lemma VectorsCons<T>(lane: seq<Entry<T>>, lanes: seq<seq<Entry<T>>>)
    ensures FirstRecords([lane] + lanes) == FirstRecord(lane) + FirstRecords(lanes)
    ensures Later([lane] + lanes) == [if Decoded(lane) == [] then [] else Decoded(lane)[1..]] + Later(lanes)
  {
    assert ([lane] + lanes)[1..] == lanes;
  }

  lemma OutOfOrderMerge<T>(a: Entry<T>, b: Entry<T>, c: Entry<T>)
    requires RankOf(a) < RankOf(b) < RankOf(c)
    ensures RankMerge([[a], [c, b]]) == [a, c, b]
  {
    var (one, two, three) := ([[a], [c, b]], [[], [c, b]], [[], [b]]);
    RankMergeStep(one, 0);
    assert Behind(one, 0) == two;
    RankMergeStep(two, 1);
    assert Behind(two, 1) == three;
    RankMergeStep(three, 1);
    MergeOfNothing(Behind(three, 1));
  }
}
