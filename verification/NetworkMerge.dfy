/**
 `network_connection`: the merge of several filtered stores by time, in both directions.
 The sixteen stores of the program are generalised to any number of lanes.
 */
module NetworkMerge {
  import opened Wrappers
  import opened Sequences
  import opened Bytes
  import opened StorageKeys
  import opened EventStore

  /** The calendar limits used as sentinels, in nanoseconds; both lie outside 64 bits. */
  const MAX_UTC: int := 8_210_298_412_799_999_999_999
  const MIN_UTC: int := -8_334_632_851_200_000_000_000

  function MinMaxTime(isForward: bool): int {
    if isForward then MAX_UTC else MIN_UTC
  }

  /** A record together with the lane it came from. */
  datatype Tagged<+T> = Tagged(lane: nat, entry: Entry<T>)

  ghost predicate LongKeys<T>(lane: seq<Entry<T>>) {
    forall i :: 0 <= i < |lane| ==> |lane[i].key| > TIMESTAMP_SIZE
  }

  ghost predicate AllLongKeys<T>(lanes: seq<seq<Entry<T>>>) {
    forall k :: 0 <= k < |lanes| ==> LongKeys(lanes[k])
  }

  function Time<T>(e: Entry<T>): int {
    if |e.key| > TIMESTAMP_SIZE then TimestampOf(e.key) else 0
  }

  /** Whether time a comes strictly before time b in reading direction. */
  predicate Earlier(isForward: bool, a: int, b: int) {
    if isForward then a < b else b < a
  }

  // ----- the merge as a function of the lanes

  /** Lane k holds the head that comes first; among equal times the lowest lane wins. */
  ghost predicate IsFirstHead<T>(lanes: seq<seq<Entry<T>>>, isForward: bool, k: nat) {
    && k < |lanes| && lanes[k] != []
    && (forall j :: 0 <= j < |lanes| && lanes[j] != [] ==> !Earlier(isForward, Time(lanes[j][0]), Time(lanes[k][0])))
    && (forall j :: 0 <= j < k && lanes[j] != [] ==> Earlier(isForward, Time(lanes[k][0]), Time(lanes[j][0])))
  }

  lemma {:induction false} FirstHeadExists<T>(lanes: seq<seq<Entry<T>>>, isForward: bool) returns (k: nat)
    requires Total(lanes) > 0
    ensures IsFirstHead(lanes, isForward, k)
    decreases |lanes|
  {
    var front := lanes[..|lanes| - 1];
    var last := lanes[|lanes| - 1];
    assert lanes == front + [last];
    TotalZero(lanes);
    TotalZero(front);
    if Total(front) == 0 {
      k := |lanes| - 1;
      assert forall j :: 0 <= j < |front| ==> lanes[j] == front[j];
    } else {
      k := FirstHeadExists(front, isForward);
      assert forall j :: 0 <= j < |front| ==> lanes[j] == front[j];
      if last != [] && Earlier(isForward, Time(last[0]), Time(lanes[k][0])) {
        k := |lanes| - 1;
      }
    }
  }

  lemma FirstHeadUnique<T>(lanes: seq<seq<Entry<T>>>, isForward: bool, a: nat, b: nat)
    requires IsFirstHead(lanes, isForward, a) && IsFirstHead(lanes, isForward, b)
    ensures a == b
  {
  }

  ghost function FirstHead<T>(lanes: seq<seq<Entry<T>>>, isForward: bool): (k: nat)
    requires Total(lanes) > 0
    ensures IsFirstHead(lanes, isForward, k)
  {
    assert exists k :: IsFirstHead(lanes, isForward, k) by {
      var k := FirstHeadExists(lanes, isForward);
    }
    var k :| IsFirstHead(lanes, isForward, k);
    k
  }

  /** All records of all lanes, repeatedly taking the first head. */
  ghost function Merge<T>(lanes: seq<seq<Entry<T>>>, isForward: bool): (r: seq<Tagged<T>>)
    ensures |r| == Total(lanes)
    decreases Total(lanes)
  {
    if Total(lanes) == 0 then []
    else
      var k := FirstHead(lanes, isForward);
      TotalDrop(lanes, k);
      [Tagged(k, lanes[k][0])] + Merge(lanes[k := lanes[k][1..]], isForward)
  }

  // ----- the merge is the stable merge

  /** The records that carry one lane's tag, in order. */
  function Project<T>(s: seq<Tagged<T>>, lane: nat): seq<Entry<T>> {
    if s == [] then []
    else (if s[0].lane == lane then [s[0].entry] else []) + Project(s[1..], lane)
  }

  /** Every lane comes out whole and in its own order: nothing lost, doubled or swapped. */
  lemma {:induction false} MergeProjects<T>(lanes: seq<seq<Entry<T>>>, isForward: bool, lane: nat)
    ensures Project(Merge(lanes, isForward), lane) == LaneAt(lanes, lane)
    decreases Total(lanes)
  {
    TotalZero(lanes);
    if Total(lanes) > 0 {
      var k := FirstHead(lanes, isForward);
      TotalDrop(lanes, k);
      MergeProjects(lanes[k := lanes[k][1..]], isForward, lane);
    }
  }

  /** In reading direction by time, and by lane among equal times. */
  ghost predicate InOrder<T>(isForward: bool, a: Tagged<T>, b: Tagged<T>) {
    Earlier(isForward, Time(a.entry), Time(b.entry)) || (Time(a.entry) == Time(b.entry) && a.lane <= b.lane)
  }

  ghost predicate OrderedMerge<T>(s: seq<Tagged<T>>, isForward: bool) {
    forall i, j :: 0 <= i < j < |s| ==> InOrder(isForward, s[i], s[j])
  }

  ghost predicate LaneOrdered<T>(lane: seq<Entry<T>>, isForward: bool) {
    forall i, j :: 0 <= i < j < |lane| ==> Earlier(isForward, Time(lane[i]), Time(lane[j]))
  }

  ghost predicate LanesOrdered<T>(lanes: seq<seq<Entry<T>>>, isForward: bool) {
    forall k :: 0 <= k < |lanes| ==> LaneOrdered(lanes[k], isForward)
  }

  /** Each merged record is a record of the lane it is tagged with. */
  lemma {:induction false} ProjectMember<T>(s: seq<Tagged<T>>, i: nat)
    requires i < |s|
    ensures s[i].entry in Project(s, s[i].lane)
  {
    if i > 0 {
      ProjectMember(s[1..], i - 1);
      assert s[i] == s[1..][i - 1];
    }
  }

  lemma {:induction false} MergeOrdered<T>(lanes: seq<seq<Entry<T>>>, isForward: bool)
    requires LanesOrdered(lanes, isForward)
    ensures OrderedMerge(Merge(lanes, isForward), isForward)
    decreases Total(lanes)
  {
    if Total(lanes) > 0 {
      var k := FirstHead(lanes, isForward);
      TotalDrop(lanes, k);
      var rest := lanes[k := lanes[k][1..]];
      MergeOrdered(rest, isForward);
      var tail := Merge(rest, isForward);
      var head := Tagged(k, lanes[k][0]);
      forall j | 0 <= j < |tail|
        ensures InOrder(isForward, head, tail[j])
      {
        ProjectMember(tail, j);
        MergeProjects(rest, isForward, tail[j].lane);
        HeadFirst(lanes, isForward, k, tail[j]);
      }
    }
  }

  /** The first head precedes everything that remains in any lane. */
  lemma HeadFirst<T>(lanes: seq<seq<Entry<T>>>, isForward: bool, k: nat, x: Tagged<T>)
    requires LanesOrdered(lanes, isForward) && IsFirstHead(lanes, isForward, k)
    requires x.lane < |lanes| && x.entry in lanes[k := lanes[k][1..]][x.lane]
    ensures InOrder(isForward, Tagged(k, lanes[k][0]), x)
  {
    var lane := lanes[x.lane];
    assert LaneOrdered(lane, isForward);
    var i :| 0 <= i < |lane| && lane[i] == x.entry && (x.lane == k ==> i > 0);
    if i > 0 {
      assert Earlier(isForward, Time(lane[0]), Time(lane[i]));
    }
  }

  function LaneAt<T>(lanes: seq<seq<Entry<T>>>, lane: nat): seq<Entry<T>> {
    if lane < |lanes| then lanes[lane] else []
  }

  /** The sequence is an interleaving of the lanes. */
  ghost predicate Interleaves<T>(s: seq<Tagged<T>>, lanes: seq<seq<Entry<T>>>) {
    forall lane: nat :: Project(s, lane) == LaneAt(lanes, lane)
  }

  /** The order and the projections determine the sequence: there is one stable merge. */
  lemma {:induction false} StableMergeUnique<T>(lanes: seq<seq<Entry<T>>>, isForward: bool, s: seq<Tagged<T>>)
    requires OrderedMerge(s, isForward) && Interleaves(s, lanes)
    ensures s == Merge(lanes, isForward)
    decreases |s|
  {
    if s == [] {
      assert forall k: nat :: k < |lanes| ==> lanes[k] == Project(s, k);
      TotalZero(lanes);
    } else {
      FirstIsHead(lanes, isForward, s);
      var k := FirstHead(lanes, isForward);
      TotalDrop(lanes, k);
      RestInterleaves(lanes, s);
      assert OrderedMerge(s[1..], isForward);
      StableMergeUnique(lanes[k := lanes[k][1..]], isForward, s[1..]);
    }
  }

  lemma FirstIsHead<T>(lanes: seq<seq<Entry<T>>>, isForward: bool, s: seq<Tagged<T>>)
    requires s != [] && OrderedMerge(s, isForward) && Interleaves(s, lanes)
    ensures Total(lanes) > 0 && s[0].lane == FirstHead(lanes, isForward) && s[0].lane < |lanes|
    ensures lanes[s[0].lane] != [] && s[0].entry == lanes[s[0].lane][0]
  {
    var k := s[0].lane;
    assert LaneAt(lanes, k) == Project(s, k) == [s[0].entry] + Project(s[1..], k);
    TotalZero(lanes);
    forall j: nat | j < |lanes| && lanes[j] != []
      ensures InOrder(isForward, s[0], Tagged(j, lanes[j][0]))
    {
      assert Project(s, j) == LaneAt(lanes, j);
      FirstBeforeHead(s, isForward, j);
    }
    FirstHeadIs(lanes, isForward, s[0]);
  }

  /** The first of an ordered sequence comes before the head of every projection. */
  lemma FirstBeforeHead<T>(s: seq<Tagged<T>>, isForward: bool, lane: nat)
    requires s != [] && OrderedMerge(s, isForward) && Project(s, lane) != []
    ensures InOrder(isForward, s[0], Tagged(lane, Project(s, lane)[0]))
  {
    var i := ProjectHead(s, lane);
    if i > 0 {
      assert InOrder(isForward, s[0], s[i]);
    }
  }

  lemma FirstHeadIs<T>(lanes: seq<seq<Entry<T>>>, isForward: bool, x: Tagged<T>)
    requires Total(lanes) > 0 && x.lane < |lanes| && lanes[x.lane] != [] && lanes[x.lane][0] == x.entry
    requires forall j: nat :: j < |lanes| && lanes[j] != [] ==> InOrder(isForward, x, Tagged(j, lanes[j][0]))
    ensures FirstHead(lanes, isForward) == x.lane
  {
    forall j | 0 <= j < |lanes| && lanes[j] != []
      ensures !Earlier(isForward, Time(lanes[j][0]), Time(x.entry))
      ensures j < x.lane ==> Earlier(isForward, Time(x.entry), Time(lanes[j][0]))
    {
      assert InOrder(isForward, x, Tagged(j, lanes[j][0]));
    }
    assert IsFirstHead(lanes, isForward, x.lane);
    FirstHeadUnique(lanes, isForward, x.lane, FirstHead(lanes, isForward));
  }

  lemma RestInterleaves<T>(lanes: seq<seq<Entry<T>>>, s: seq<Tagged<T>>)
    requires s != [] && Interleaves(s, lanes) && s[0].lane < |lanes| && lanes[s[0].lane] != []
    ensures Interleaves(s[1..], lanes[s[0].lane := lanes[s[0].lane][1..]])
  {
    var k := s[0].lane;
    var rest := lanes[k := lanes[k][1..]];
    forall lane: nat
      ensures Project(s[1..], lane) == LaneAt(rest, lane)
    {
      assert Project(s, lane) == LaneAt(lanes, lane);
      if lane == k {
        assert Project(s, k) == [s[0].entry] + Project(s[1..], k);
      } else {
        assert Project(s, lane) == [] + Project(s[1..], lane);
      }
    }
  }

  /** The head of a projection occurs in the sequence under its tag. */
  lemma {:induction false} ProjectHead<T>(s: seq<Tagged<T>>, lane: nat) returns (i: nat)
    requires Project(s, lane) != []
    ensures i < |s| && s[i] == Tagged(lane, Project(s, lane)[0])
  {
    if s[0].lane == lane {
      i := 0;
    } else {
      i := ProjectHead(s[1..], lane);
      i := i + 1;
    }
  }

  // ----- forward and backward

  function ReverseLanes<T>(lanes: seq<seq<Entry<T>>>): (r: seq<seq<Entry<T>>>)
    ensures |r| == |lanes|
    ensures forall k {:trigger r[k]} :: 0 <= k < |lanes| ==> r[k] == Reverse(lanes[k])
  {
    if lanes == [] then [] else [Reverse(lanes[0])] + ReverseLanes(lanes[1..])
  }

  lemma {:induction false} ProjectConcat<T>(a: seq<Tagged<T>>, b: seq<Tagged<T>>, lane: nat)
    ensures Project(a + b, lane) == Project(a, lane) + Project(b, lane)
  {
    if a == [] {
      assert a + b == b;
    } else {
      assert (a + b)[1..] == a[1..] + b;
      ProjectConcat(a[1..], b, lane);
      var head := if a[0].lane == lane then [a[0].entry] else [];
      assert Project(a + b, lane) == head + (Project(a[1..], lane) + Project(b, lane));
    }
  }

  lemma {:induction false} ProjectReverse<T>(s: seq<Tagged<T>>, lane: nat)
    ensures Project(Reverse(s), lane) == Reverse(Project(s, lane))
  {
    if s != [] {
      ProjectReverse(s[1..], lane);
      ProjectConcat(Reverse(s[1..]), [s[0]], lane);
      var head := if s[0].lane == lane then [s[0].entry] else [];
      assert Project([s[0]], lane) == head;
      ReverseConcat(head, Project(s[1..], lane));
    }
  }

  /** Two lanes hold records of the same time. */
  ghost predicate CrossLaneTie<T>(lanes: seq<seq<Entry<T>>>) {
    exists a, b :: 0 <= a < b < |lanes| && SharedTime(lanes[a], lanes[b])
  }

  ghost predicate SharedTime<T>(a: seq<Entry<T>>, b: seq<Entry<T>>) {
    exists i, j :: 0 <= i < |a| && 0 <= j < |b| && Time(a[i]) == Time(b[j])
  }

  lemma ReverseLanesOrdered<T>(lanes: seq<seq<Entry<T>>>)
    requires LanesOrdered(lanes, true)
    ensures LanesOrdered(ReverseLanes(lanes), false)
  {
    forall k | 0 <= k < |lanes|
      ensures LaneOrdered(Reverse(lanes[k]), false)
    {
      assert LaneOrdered(lanes[k], true);
    }
  }

  lemma TieFromMerge<T>(lanes: seq<seq<Entry<T>>>, isForward: bool, i: nat, j: nat)
    requires var s := Merge(lanes, isForward);
             i < |s| && j < |s| && s[i].lane < s[j].lane && Time(s[i].entry) == Time(s[j].entry)
    ensures CrossLaneTie(lanes)
  {
    var s := Merge(lanes, isForward);
    ProjectMember(s, i);
    ProjectMember(s, j);
    MergeProjects(lanes, isForward, s[i].lane);
    MergeProjects(lanes, isForward, s[j].lane);
    var x :| 0 <= x < |lanes[s[i].lane]| && lanes[s[i].lane][x] == s[i].entry;
    var y :| 0 <= y < |lanes[s[j].lane]| && lanes[s[j].lane][y] == s[j].entry;
    assert SharedTime(lanes[s[i].lane], lanes[s[j].lane]);
  }

  /** A tie across lanes survives the reversal of every lane. */
  lemma TieReversed<T>(lanes: seq<seq<Entry<T>>>)
    requires CrossLaneTie(ReverseLanes(lanes))
    ensures CrossLaneTie(lanes)
  {
    var r := ReverseLanes(lanes);
    var a, b :| 0 <= a < b < |r| && SharedTime(r[a], r[b]);
    SharedTimeReversed(lanes[a], r[a], lanes[b], r[b]);
  }

  lemma SharedTimeReversed<T>(a: seq<Entry<T>>, down: seq<Entry<T>>, b: seq<Entry<T>>, downB: seq<Entry<T>>)
    requires IsReverse(a, down) && IsReverse(b, downB) && SharedTime(down, downB)
    ensures SharedTime(a, b)
  {
    var i, j :| 0 <= i < |down| && 0 <= j < |downB| && Time(down[i]) == Time(downB[j]);
    assert Time(a[|a| - 1 - i]) == Time(b[|b| - 1 - j]);
  }

  /** Where a record of a lane stands in a sequence with that projection. */
  lemma {:induction false} FindTagged<T>(s: seq<Tagged<T>>, lane: nat, e: Entry<T>) returns (i: nat)
    requires e in Project(s, lane)
    ensures i < |s| && s[i] == Tagged(lane, e)
  {
    if s[0] == Tagged(lane, e) {
      i := 0;
    } else {
      i := FindTagged(s[1..], lane, e);
      i := i + 1;
    }
  }

  /** The reversal of the backward merge interleaves the lanes, latest lane first among ties. */
  lemma ReversedBackward<T>(lanes: seq<seq<Entry<T>>>)
    requires LanesOrdered(lanes, true)
    ensures var down := Merge(ReverseLanes(lanes), false);
            OrderedMerge(down, false) && Interleaves(Reverse(down), lanes)
  {
    var down := Merge(ReverseLanes(lanes), false);
    ReverseLanesOrdered(lanes);
    MergeOrdered(ReverseLanes(lanes), false);
    forall lane: nat
      ensures Project(Reverse(down), lane) == LaneAt(lanes, lane)
    {
      ProjectReverse(down, lane);
      MergeProjects(ReverseLanes(lanes), false, lane);
      ReverseReverse(LaneAt(lanes, lane));
    }
  }

  lemma NoTieOrders<T>(lanes: seq<seq<Entry<T>>>)
    requires LanesOrdered(lanes, true) && !CrossLaneTie(lanes)
    ensures OrderedMerge(Reverse(Merge(ReverseLanes(lanes), false)), true)
  {
    var down := Merge(ReverseLanes(lanes), false);
    ReversedBackward(lanes);
    forall x, y | 0 <= x < |down| && 0 <= y < |down| && down[x].lane < down[y].lane
      ensures Time(down[x].entry) != Time(down[y].entry)
    {
      if Time(down[x].entry) == Time(down[y].entry) {
        TieFromMerge(ReverseLanes(lanes), false, x, y);
        TieReversed(lanes);
      }
    }
    UntiedTurned(down, Reverse(down));
  }

  /** Without ties across lanes, turning a merge round turns its order round. */
  lemma UntiedTurned<T>(down: seq<Tagged<T>>, up: seq<Tagged<T>>)
    requires IsReverse(down, up) && OrderedMerge(down, false)
    requires forall x, y :: 0 <= x < |down| && 0 <= y < |down| && down[x].lane < down[y].lane ==>
               Time(down[x].entry) != Time(down[y].entry)
    ensures OrderedMerge(up, true)
  {
    forall i, j | 0 <= i < j < |up|
      ensures InOrder(true, up[i], up[j])
    {
      assert InOrder(false, down[|up| - 1 - j], down[|up| - 1 - i]);
    }
  }

  /** Two tied records of different lanes cannot be in lane order both ways round. */
  lemma TieOrdersOneWay<T>(down: seq<Tagged<T>>, up: seq<Tagged<T>>, x: nat, y: nat)
    requires up == Reverse(down) && x < |up| && y < |up|
    requires up[x].lane < up[y].lane && Time(up[x].entry) == Time(up[y].entry)
    requires OrderedMerge(down, false)
    ensures !OrderedMerge(up, true)
  {
    var (x', y') := (|up| - 1 - x, |up| - 1 - y);
    assert down[x'] == up[x] && down[y'] == up[y];
    assert y < x && !InOrder(true, up[y], up[x]);
  }

  /** Reading backward and reversing gives the forward sequence exactly when no two lanes
      share a time: a tie comes out in the opposite lane order. */
  lemma BackwardIsReversedForwardIff<T>(lanes: seq<seq<Entry<T>>>)
    requires LanesOrdered(lanes, true)
    ensures Reverse(Merge(ReverseLanes(lanes), false)) == Merge(lanes, true) <==> !CrossLaneTie(lanes)
  {
    var down := Merge(ReverseLanes(lanes), false);
    var up := Reverse(down);
    ReversedBackward(lanes);
    if !CrossLaneTie(lanes) {
      NoTieOrders(lanes);
      StableMergeUnique(lanes, true, up);
    } else {
      MergeOrdered(lanes, true);
      var x, y := TiedPlaces(lanes, up);
      TieOrdersOneWay(down, up, x, y);
    }
  }

  /** Where two records of equal time from different lanes stand in an interleaving. */
  lemma TiedPlaces<T>(lanes: seq<seq<Entry<T>>>, s: seq<Tagged<T>>) returns (x: nat, y: nat)
    requires CrossLaneTie(lanes) && Interleaves(s, lanes)
    ensures x < |s| && y < |s| && s[x].lane < s[y].lane && Time(s[x].entry) == Time(s[y].entry)
  {
    var a, b :| 0 <= a < b < |lanes| && SharedTime(lanes[a], lanes[b]);
    x, y := PlacesOf(lanes[a], lanes[b], s, a, b);
  }

  lemma PlacesOf<T>(laneA: seq<Entry<T>>, laneB: seq<Entry<T>>, s: seq<Tagged<T>>, a: nat, b: nat)
    returns (x: nat, y: nat)
    requires SharedTime(laneA, laneB) && Project(s, a) == laneA && Project(s, b) == laneB
    ensures x < |s| && y < |s| && s[x].lane == a && s[y].lane == b && Time(s[x].entry) == Time(s[y].entry)
  {
    var i, j :| 0 <= i < |laneA| && 0 <= j < |laneB| && Time(laneA[i]) == Time(laneB[j]);
    x := FindTagged(s, a, laneA[i]);
    y := FindTagged(s, b, laneB[j]);
  }

  // ----- one page

  datatype NetworkPage<+T> = NetworkPage(edges: seq<Tagged<T>>, hasPrevious: bool, hasNext: bool)

  /** A page of `size` records; a size of zero still yields one. */
  function AtLeastOne(size: nat): (n: nat)
    ensures n >= 1
  {
    if size == 0 then 1 else size
  }

  /** The first records of the merge in reading direction, shown in ascending time. */
  ghost function PageOfMerge<T>(lanes: seq<seq<Entry<T>>>, size: nat, isForward: bool): NetworkPage<T> {
    var merged := Merge(lanes, isForward);
    var edges := Take(merged, AtLeastOne(size));
    var more := |merged| > AtLeastOne(size);
    if isForward then NetworkPage(edges, false, more) else NetworkPage(Reverse(edges), more, false)
  }

  /** A page of positive size holds that many records, or all there are; one of size zero holds one
      if there is any. More is reported exactly when records are left, and on one side only. The
      records are the first of the merge, which a backward page shows last to first. */
  lemma PageHolds<T>(lanes: seq<seq<Entry<T>>>, size: nat, isForward: bool)
    ensures var (page, total) := (PageOfMerge(lanes, size, isForward), Total(lanes));
            && (size >= 1 ==> |page.edges| == if size < total then size else total)
            && (size == 0 ==> |page.edges| == if total > 0 then 1 else 0)
            && page.hasNext == (isForward && |page.edges| < total)
            && page.hasPrevious == (!isForward && |page.edges| < total)
    ensures var (page, m) := (PageOfMerge(lanes, size, isForward), Merge(lanes, isForward));
            |m| == Total(lanes) && forall i :: 0 <= i < |page.edges| ==>
              page.edges[i] == m[if isForward then i else |page.edges| - 1 - i]
  {
  }

  /** What a lane's iterator will still yield. */
  ghost function Yields<T>(iter: FilteredIter<T>): seq<Entry<T>>
    reads iter.inner
  {
    Lane(iter.inner.Remaining(), iter.filter)
  }

  /** The sequence left in a lane whose next record has been read into `data`. */
  ghost predicate Holds<T>(data: Option<Entry<T>>, iter: FilteredIter<T>, lane: seq<Entry<T>>)
    reads iter.inner
  {
    && iter.inner.Valid()
    && lane == if data.Some? then [data.value] + Yields(iter) else []
  }

  ghost predicate Distinct<T>(iters: seq<FilteredIter<T>>) {
    forall i, j :: 0 <= i < j < |iters| ==> iters[i].inner != iters[j].inner
  }

  /** The time of each lane's next record, or the sentinel; fails on a malformed key. */
  method HeadTimes<T>(data: seq<Option<Entry<T>>>, isForward: bool) returns (times: Result<seq<int>>)
    ensures times.Err? ==> exists k :: 0 <= k < |data| && data[k].Some? && |data[k].value.key| <= TIMESTAMP_SIZE
    ensures times.Ok? ==> |times.value| == |data|
    ensures times.Ok? ==> forall k :: 0 <= k < |data| ==>
              times.value[k] == if data[k].Some? then Time(data[k].value) else MinMaxTime(isForward)
    ensures times.Ok? ==> forall k :: 0 <= k < |data| && data[k].Some? ==> |data[k].value.key| > TIMESTAMP_SIZE
  {
    var ts := [];
    var k := 0;
    while k < |data|
      invariant 0 <= k <= |data| && |ts| == k
      invariant forall j :: 0 <= j < k ==> ts[j] == if data[j].Some? then Time(data[j].value) else MinMaxTime(isForward)
      invariant forall j :: 0 <= j < k && data[j].Some? ==> |data[j].value.key| > TIMESTAMP_SIZE
    {
      if data[k].Some? {
        var t := GetTimestampFromKey(data[k].value.key);
        if t.Err? {
          return Err(t.message);
        }
        ts := ts + [t.value];
      } else {
        ts := ts + [MinMaxTime(isForward)];
      }
      k := k + 1;
    }
    times := Ok(ts);
  }

  /** The earliest time in reading direction, and the first lane that has it. */
  method Select(times: seq<int>, isForward: bool) returns (arm: nat)
    requires forall k :: 0 <= k < |times| ==> MIN_UTC <= times[k] <= MAX_UTC
    ensures arm <= |times| && (arm == |times| ==> times == [])
    ensures arm < |times| ==> forall k :: 0 <= k < |times| ==> !Earlier(isForward, times[k], times[arm])
    ensures forall k :: 0 <= k < arm < |times| ==> Earlier(isForward, times[arm], times[k])
  {
    var selected := MinMaxTime(isForward);
    var i := 0;
    while i < |times|
      invariant 0 <= i <= |times|
      invariant !Earlier(isForward, MinMaxTime(isForward), selected)
      invariant forall k :: 0 <= k < i ==> !Earlier(isForward, times[k], selected)
      invariant selected == MinMaxTime(isForward) || exists k :: 0 <= k < i && times[k] == selected
    {
      if Earlier(isForward, times[i], selected) {
        selected := times[i];
      }
      i := i + 1;
    }
    arm := 0;
    while arm < |times| && times[arm] != selected
      invariant 0 <= arm <= |times|
      invariant forall k :: 0 <= k < arm ==> times[k] != selected
    {
      arm := arm + 1;
    }
    if times != [] && selected == MinMaxTime(isForward) {
      assert !Earlier(isForward, times[0], selected);
      assert times[0] == selected;
    }
  }

  /** Each lane is what its iterator holds. */
  ghost predicate HoldAll<T>(data: seq<Option<Entry<T>>>, iters: seq<FilteredIter<T>>, lanes: seq<seq<Entry<T>>>)
    reads set iter | iter in iters :: iter.inner
  {
    && |data| == |iters| == |lanes|
    && forall k :: 0 <= k < |iters| ==> Holds(data[k], iters[k], lanes[k])
  }

  lemma SelectedIsFirstHead<T>(data: seq<Option<Entry<T>>>, lanes: seq<seq<Entry<T>>>, times: seq<int>, isForward: bool,
                               arm: nat)
    requires |data| == |lanes| == |times|
    requires forall k :: 0 <= k < |data| ==>
              if data[k].Some? then lanes[k] != [] && lanes[k][0] == data[k].value else lanes[k] == []
    requires forall k :: 0 <= k < |data| ==>
              times[k] == if data[k].Some? then Time(data[k].value) else MinMaxTime(isForward)
    requires arm <= |times| && (arm == |times| ==> times == [])
    requires arm < |times| ==> forall k :: 0 <= k < |times| ==> !Earlier(isForward, times[k], times[arm])
    requires forall k :: 0 <= k < arm < |times| ==> Earlier(isForward, times[arm], times[k])
    ensures Total(lanes) > 0 <==> arm < |data| && data[arm].Some?
    ensures Total(lanes) > 0 ==> arm == FirstHead(lanes, isForward)
    ensures Total(lanes) > 0 <==> exists k :: 0 <= k < |data| && data[k].Some?
  {
    TotalZero(lanes);
    if k :| 0 <= k < |data| && data[k].Some? {
      assert !Earlier(isForward, times[k], times[arm]);
      assert data[arm].Some?;
      assert IsFirstHead(lanes, isForward, arm);
      FirstHeadUnique(lanes, isForward, arm, FirstHead(lanes, isForward));
    }
  }

  /** Reads the first record of every lane. */
  method FirstData<T>(iters: seq<FilteredIter<T>>, ghost lanes: seq<seq<Entry<T>>>)
    returns (data: seq<Option<Entry<T>>>)
    requires Distinct(iters) && |lanes| == |iters|
    requires forall k :: 0 <= k < |iters| ==> iters[k].inner.Valid() && Yields(iters[k]) == lanes[k]
    modifies set iter | iter in iters :: iter.inner
    ensures HoldAll(data, iters, lanes)
  {
    data := [];
    while |data| < |iters|
      invariant |data| <= |iters|
      invariant forall k :: 0 <= k < |data| ==> Holds(data[k], iters[k], lanes[k])
      invariant forall k :: |data| <= k < |iters| ==> iters[k].inner.Valid() && Yields(iters[k]) == lanes[k]
    {
      var item := iters[|data|].Next();
      data := data + [item];
    }
  }

  /** Replaces one lane's record by the lane's following one. */
  method Advance<T>(data: seq<Option<Entry<T>>>, iters: seq<FilteredIter<T>>, arm: nat, ghost lanes: seq<seq<Entry<T>>>)
    returns (data': seq<Option<Entry<T>>>)
    requires Distinct(iters) && HoldAll(data, iters, lanes) && arm < |data| && data[arm].Some?
    modifies iters[arm].inner
    ensures HoldAll(data', iters, lanes[arm := lanes[arm][1..]])
  {
    var item := iters[arm].Next();
    data' := data[arm := item];
    assert forall k :: 0 <= k < |iters| && k != arm ==> iters[k].inner != iters[arm].inner;
  }

  lemma MergeStep<T>(lanes: seq<seq<Entry<T>>>, isForward: bool, arm: nat)
    requires Total(lanes) > 0 && arm == FirstHead(lanes, isForward)
    ensures Merge(lanes, isForward) == [Tagged(arm, lanes[arm][0])] + Merge(lanes[arm := lanes[arm][1..]], isForward)
    ensures Total(lanes[arm := lanes[arm][1..]]) == Total(lanes) - 1
    ensures AllLongKeys(lanes) ==> AllLongKeys(lanes[arm := lanes[arm][1..]])
  {
    TotalDrop(lanes, arm);
    if AllLongKeys(lanes) {
      assert LongKeys(lanes[arm]);
    }
  }

  lemma AnyLeft<T>(data: seq<Option<Entry<T>>>, lanes: seq<seq<Entry<T>>>)
    requires |data| == |lanes|
    requires forall k :: 0 <= k < |data| ==> (data[k].Some? <==> lanes[k] != [])
    ensures (exists k :: 0 <= k < |data| && data[k].Some?) <==> Total(lanes) > 0
  {
    TotalZero(lanes);
  }

  /** The lane to read next, or None when every lane is exhausted; fails on a malformed key. */
  method ChooseArm<T>(data: seq<Option<Entry<T>>>, isForward: bool, ghost iters: seq<FilteredIter<T>>,
                      ghost lanes: seq<seq<Entry<T>>>)
    returns (arm: Result<Option<nat>>)
    requires HoldAll(data, iters, lanes)
    ensures arm.Err? ==> !AllLongKeys(lanes)
    ensures arm == Ok(None) ==> Total(lanes) == 0
    ensures arm.Ok? && arm.value.Some? ==>
              && Total(lanes) > 0 && arm.value.value == FirstHead(lanes, isForward)
              && data[arm.value.value] == Some(lanes[arm.value.value][0])
  {
    var times := HeadTimes(data, isForward);
    if times.Err? {
      assert !AllLongKeys(lanes) by {
        var k :| 0 <= k < |data| && data[k].Some? && |data[k].value.key| <= TIMESTAMP_SIZE;
        assert Holds(data[k], iters[k], lanes[k]);
        assert lanes[k][0] == data[k].value;
        assert !LongKeys(lanes[k]);
      }
      return Err(times.message);
    }
    var k := Select(times.value, isForward);
    SelectedIsFirstHead(data, lanes, times.value, isForward, k);
    arm := if k < |data| && data[k].Some? then Ok(Some(k)) else Ok(None);
  }

  /** The loop state: what each lane holds, and what is left to merge. */
  ghost predicate Ready<T>(data: seq<Option<Entry<T>>>, iters: seq<FilteredIter<T>>, isForward: bool,
                           lanes: seq<seq<Entry<T>>>, left: seq<Tagged<T>>)
    reads set iter | iter in iters :: iter.inner
  {
    HoldAll(data, iters, lanes) && left == Merge(lanes, isForward)
  }

  /** One round of the loop: the first head, if any lane has one, is taken from its lane. */
  method TakeFirst<T>(data: seq<Option<Entry<T>>>, iters: seq<FilteredIter<T>>, isForward: bool,
                      ghost lanes: seq<seq<Entry<T>>>, ghost left: seq<Tagged<T>>)
    returns (taken: Result<Option<Tagged<T>>>, data': seq<Option<Entry<T>>>, anyLeft: bool,
             ghost lanes': seq<seq<Entry<T>>>, ghost left': seq<Tagged<T>>)
    requires Distinct(iters) && Ready(data, iters, isForward, lanes, left)
    modifies set iter | iter in iters :: iter.inner
    ensures taken.Err? ==> !AllLongKeys(lanes)
    ensures taken.Ok? ==>
              && Ready(data', iters, isForward, lanes', left')
              && (AllLongKeys(lanes) ==> AllLongKeys(lanes'))
              && (anyLeft <==> left' != [])
              && if left == [] then taken.value == None && left' == []
                 else taken.value == Some(left[0]) && left' == left[1..]
  {
    data', lanes', left', anyLeft := data, lanes, left, false;
    var arm := ChooseArm(data, isForward, iters, lanes);
    if arm.Err? {
      taken := Err(arm.message);
      return;
    }
    taken := Ok(None);
    if arm.value.Some? {
      var k := arm.value.value;
      MergeStep(lanes, isForward, k);
      taken := Ok(Some(Tagged(k, data[k].value)));
      data' := Advance(data, iters, k, lanes);
      lanes' := lanes[k := lanes[k][1..]];
      left' := Merge(lanes', isForward);
      assert left[1..] == left';
    }
    anyLeft := exists k :: 0 <= k < |data'| && data'[k].Some?;
    AnyLeft(data', lanes');
  }

  lemma ShiftOne<T>(done: seq<T>, left: seq<T>)
    requires left != []
    ensures (done + [left[0]]) + left[1..] == done + left
  {
  }

  lemma PrefixIsTake<T>(edges: seq<T>, rest: seq<T>, whole: seq<T>, n: nat)
    requires edges + rest == whole && |edges| <= n && (|edges| == n || rest == [])
    ensures edges == Take(whole, n) && (rest != [] <==> |whole| > n)
  {
    assert edges == whole[..|edges|];
  }

  /** The loop: records are taken until the page is full or every lane is exhausted. */
  method CollectEdges<T>(iters: seq<FilteredIter<T>>, first: seq<Option<Entry<T>>>, size: nat, isForward: bool,
                         ghost lanes: seq<seq<Entry<T>>>)
    returns (result: Result<seq<Tagged<T>>>, hasNextValue: bool)
    requires Distinct(iters) && HoldAll(first, iters, lanes)
    modifies set iter | iter in iters :: iter.inner
    ensures result.Err? ==> !AllLongKeys(lanes)
    ensures result.Ok? ==>
              && result.value == Take(Merge(lanes, isForward), AtLeastOne(size))
              && (hasNextValue <==> |Merge(lanes, isForward)| > AtLeastOne(size))
  {
    var data := first;
    var edges: seq<Tagged<T>> := [];
    ghost var (cur, left) := (lanes, Merge(lanes, isForward));
    hasNextValue := false;
    while true
      invariant Ready(data, iters, isForward, cur, left)
      invariant edges + left == Merge(lanes, isForward)
      invariant |edges| < AtLeastOne(size)
      invariant AllLongKeys(lanes) ==> AllLongKeys(cur)
      decreases |left|
    {
      var taken;
      ghost var before := left;
      taken, data, hasNextValue, cur, left := TakeFirst(data, iters, isForward, cur, left);
      if taken.Err? {
        return Err(taken.message), false;
      }
      if taken.value.Some? {
        ShiftOne(edges, before);
        edges := edges + [taken.value.value];
      }
      if |edges| >= size || !hasNextValue {
        break;
      }
    }
    PrefixIsTake(edges, left, Merge(lanes, isForward), AtLeastOne(size));
    result := Ok(edges);
  }

  method NetworkConnection<T>(iters: seq<FilteredIter<T>>, size: nat, isForward: bool, ghost lanes: seq<seq<Entry<T>>>)
    returns (result: Result<NetworkPage<T>>)
    requires Distinct(iters) && |lanes| == |iters|
    requires forall k :: 0 <= k < |iters| ==> iters[k].inner.Valid() && Yields(iters[k]) == lanes[k]
    modifies set iter | iter in iters :: iter.inner
    ensures AllLongKeys(lanes) ==> result == Ok(PageOfMerge(lanes, size, isForward))
    ensures result.Ok? ==> result == Ok(PageOfMerge(lanes, size, isForward))
  {
    var data := FirstData(iters, lanes);
    var edges, hasNextValue := CollectEdges(iters, data, size, isForward, lanes);
    if edges.Err? {
      return Err(edges.message);
    }
    if isForward {
      result := Ok(NetworkPage(edges.value, false, hasNextValue));
    } else {
      result := Ok(NetworkPage(Reverse(edges.value), hasNextValue, false));
    }
  }
}
