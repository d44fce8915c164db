/**
 Paging over lanes that are cut at successive times, in either reading direction. A follow-up
 page starts behind the time of the last record read, so what the pages hold together depends
 on ties across lanes.
 */
module NetworkPaging {
  import opened Sequences
  import opened EventStore
  import opened NetworkMerge

  // ----- restricting lanes to what lies after a time

  /** The records that come after a time in reading direction. */
  function AfterTime<T>(lane: seq<Entry<T>>, isForward: bool, t: int): seq<Entry<T>> {
    if lane == [] then []
    else (if Earlier(isForward, t, Time(lane[0])) then [lane[0]] else []) + AfterTime(lane[1..], isForward, t)
  }

  function AfterTimes<T>(lanes: seq<seq<Entry<T>>>, isForward: bool, t: int): (r: seq<seq<Entry<T>>>)
    ensures |r| == |lanes|
    ensures forall k {:trigger r[k]} :: 0 <= k < |lanes| ==> r[k] == AfterTime(lanes[k], isForward, t)
  {
    if lanes == [] then [] else [AfterTime(lanes[0], isForward, t)] + AfterTimes(lanes[1..], isForward, t)
  }

  function MergedAfter<T>(s: seq<Tagged<T>>, isForward: bool, t: int): seq<Tagged<T>> {
    if s == [] then []
    else (if Earlier(isForward, t, Time(s[0].entry)) then [s[0]] else []) + MergedAfter(s[1..], isForward, t)
  }

  lemma {:induction false} ProjectAfter<T>(s: seq<Tagged<T>>, isForward: bool, t: int, lane: nat)
    ensures Project(MergedAfter(s, isForward, t), lane) == AfterTime(Project(s, lane), isForward, t)
  {
    if s != [] {
      ProjectAfter(s[1..], isForward, t, lane);
      var head := if s[0].lane == lane then [s[0].entry] else [];
      AfterTimeConcat(head, Project(s[1..], lane), isForward, t);
      AfterTimeOne(s[0].entry, isForward, t);
      ProjectConcat(if Earlier(isForward, t, Time(s[0].entry)) then [s[0]] else [], MergedAfter(s[1..], isForward, t),
                    lane);
    }
  }

  lemma AfterTimeOne<T>(e: Entry<T>, isForward: bool, t: int)
    ensures AfterTime([e], isForward, t) == if Earlier(isForward, t, Time(e)) then [e] else []
  {
    assert [e][1..] == [];
  }

  lemma {:induction false} AfterTimeConcat<T>(a: seq<Entry<T>>, b: seq<Entry<T>>, isForward: bool, t: int)
    ensures AfterTime(a + b, isForward, t) == AfterTime(a, isForward, t) + AfterTime(b, isForward, t)
  {
    if a == [] {
      assert a + b == b;
    } else {
      assert (a + b)[1..] == a[1..] + b;
      AfterTimeConcat(a[1..], b, isForward, t);
      var head := if Earlier(isForward, t, Time(a[0])) then [a[0]] else [];
      Reassociate(head, AfterTime(a[1..], isForward, t), AfterTime(b, isForward, t));
    }
  }

  /** Position i splits the sequence into what comes up to the time and what comes after it. */
  ghost predicate CutsAt<T>(s: seq<Tagged<T>>, isForward: bool, t: int, i: nat) {
    && i <= |s| && MergedAfter(s, isForward, t) == s[i..]
    && (forall j :: 0 <= j < i ==> !Earlier(isForward, t, Time(s[j].entry)))
    && forall j :: i <= j < |s| ==> Earlier(isForward, t, Time(s[j].entry))
  }

  /** In a merge ordered by time, what lies after a time is a suffix. */
  lemma {:induction false} MergedAfterIsSuffix<T>(s: seq<Tagged<T>>, isForward: bool, t: int) returns (i: nat)
    requires OrderedMerge(s, isForward)
    ensures CutsAt(s, isForward, t, i)
  {
    if s == [] {
      i := 0;
    } else {
      OrderedTail(s, isForward);
      i := MergedAfterIsSuffix(s[1..], isForward, t);
      if Earlier(isForward, t, Time(s[0].entry)) {
        CutInFront(s, isForward, t, i);
        i := 0;
      } else {
        CutBehind(s, isForward, t, i);
        i := i + 1;
      }
    }
  }

  lemma OrderedTail<T>(s: seq<Tagged<T>>, isForward: bool)
    requires s != [] && OrderedMerge(s, isForward)
    ensures OrderedMerge(s[1..], isForward)
    ensures forall j {:trigger s[1..][j]} :: 0 <= j < |s[1..]| ==> InOrder(isForward, s[0], s[1..][j])
  {
  }

  lemma CutInFront<T>(s: seq<Tagged<T>>, isForward: bool, t: int, n: nat)
    requires s != [] && Earlier(isForward, t, Time(s[0].entry)) && CutsAt(s[1..], isForward, t, n)
    requires forall j {:trigger s[1..][j]} :: 0 <= j < |s[1..]| ==> InOrder(isForward, s[0], s[1..][j])
    ensures CutsAt(s, isForward, t, 0)
  {
    var rest := s[1..];
    assert rest != [] ==> InOrder(isForward, s[0], rest[0]);
    assert [s[0]] + rest == s;
    assert forall j {:trigger s[j]} :: 0 < j < |s| ==> s[j] == rest[j - 1];
  }

  lemma CutBehind<T>(s: seq<Tagged<T>>, isForward: bool, t: int, n: nat)
    requires s != [] && !Earlier(isForward, t, Time(s[0].entry)) && CutsAt(s[1..], isForward, t, n)
    ensures CutsAt(s, isForward, t, n + 1)
  {
    var rest := s[1..];
    assert s[n + 1..] == rest[n..];
    assert forall j {:trigger s[j]} :: 0 < j < |s| ==> s[j] == rest[j - 1];
  }

  lemma OrderedSuffix<T>(s: seq<Tagged<T>>, isForward: bool, i: nat)
    requires OrderedMerge(s, isForward) && i <= |s|
    ensures OrderedMerge(s[i..], isForward)
  {
  }

  /** Cutting every lane at a time and merging is merging and then cutting. */
  lemma MergeOfLaterRecords<T>(lanes: seq<seq<Entry<T>>>, isForward: bool, t: int)
    requires LanesOrdered(lanes, isForward)
    ensures Merge(AfterTimes(lanes, isForward, t), isForward) == MergedAfter(Merge(lanes, isForward), isForward, t)
  {
    var merged := Merge(lanes, isForward);
    MergeOrdered(lanes, isForward);
    var i := MergedAfterIsSuffix(merged, isForward, t);
    var cut := MergedAfter(merged, isForward, t);
    OrderedSuffix(merged, isForward, i);
    forall lane: nat
      ensures Project(cut, lane) == LaneAt(AfterTimes(lanes, isForward, t), lane)
    {
      ProjectAfter(merged, isForward, t, lane);
      MergeProjects(lanes, isForward, lane);
    }
    StableMergeUnique(AfterTimes(lanes, isForward, t), isForward, cut);
  }

  /** Every record is after the time. */
  ghost predicate AllAfter<T>(lane: seq<Entry<T>>, isForward: bool, t: int) {
    forall i :: 0 <= i < |lane| ==> Earlier(isForward, t, Time(lane[i]))
  }

  lemma ConsOrdered<T>(head: Entry<T>, tail: seq<Entry<T>>, isForward: bool)
    requires LaneOrdered(tail, isForward) && AllAfter(tail, isForward, Time(head))
    ensures LaneOrdered([head] + tail, isForward)
  {
  }

  lemma TailAfterHead<T>(lane: seq<Entry<T>>, isForward: bool)
    requires lane != [] && LaneOrdered(lane, isForward)
    ensures LaneOrdered(lane[1..], isForward) && AllAfter(lane[1..], isForward, Time(lane[0]))
  {
  }

  lemma {:induction false} AfterTimeKeeps<T>(lane: seq<Entry<T>>, isForward: bool, t: int, u: int)
    requires AllAfter(lane, isForward, u)
    ensures AllAfter(AfterTime(lane, isForward, t), isForward, u)
  {
    if lane != [] {
      assert AllAfter(lane[1..], isForward, u);
      AfterTimeKeeps(lane[1..], isForward, t, u);
    }
  }

  lemma {:induction false} AfterTimeOrdered<T>(lane: seq<Entry<T>>, isForward: bool, t: int)
    requires LaneOrdered(lane, isForward)
    ensures LaneOrdered(AfterTime(lane, isForward, t), isForward)
  {
    if lane != [] {
      TailAfterHead(lane, isForward);
      AfterTimeOrdered(lane[1..], isForward, t);
      AfterTimeKeeps(lane[1..], isForward, t, Time(lane[0]));
      if Earlier(isForward, t, Time(lane[0])) {
        ConsOrdered(lane[0], AfterTime(lane[1..], isForward, t), isForward);
      }
    }
  }

  lemma AfterTimesOrdered<T>(lanes: seq<seq<Entry<T>>>, isForward: bool, t: int)
    requires LanesOrdered(lanes, isForward)
    ensures LanesOrdered(AfterTimes(lanes, isForward, t), isForward)
  {
    forall k | 0 <= k < |lanes|
      ensures LaneOrdered(AfterTimes(lanes, isForward, t)[k], isForward)
    {
      AfterTimeOrdered(lanes[k], isForward, t);
    }
  }

  // ----- following the cursor over all pages

  /** The order in which records read one after the other are shown. */
  function Shown<T>(isForward: bool, s: seq<T>): seq<T> {
    if isForward then s else Reverse(s)
  }

  lemma ShownConcat<T>(isForward: bool, a: seq<T>, b: seq<T>)
    ensures Shown(isForward, a + b)
         == if isForward then Shown(isForward, a) + Shown(isForward, b) else Shown(isForward, b) + Shown(isForward, a)
  {
    ReverseConcat(a, b);
  }

  lemma ShownTwice<T>(isForward: bool, s: seq<T>)
    ensures Shown(isForward, Shown(isForward, s)) == s
  {
    ReverseReverse(s);
  }

  /** A new page goes behind the ones before when reading forward, and in front otherwise. */
  function WithPage<T>(isForward: bool, page: seq<T>, others: seq<seq<T>>): seq<seq<T>> {
    if isForward then [page] + others else others + [page]
  }

  lemma FlattenWithPage<T>(isForward: bool, read: seq<T>, others: seq<seq<T>>, rest: seq<T>)
    requires Flatten(others) == Shown(isForward, rest)
    ensures Flatten(WithPage(isForward, Shown(isForward, read), others)) == Shown(isForward, read + rest)
  {
    var page := Shown(isForward, read);
    ShownConcat(isForward, read, rest);
    assert [page][1..] == [] && page + [] == page;
    FlattenConcat([page], others);
    FlattenConcat(others, [page]);
  }

  /** The pages of a client that asks for `size` records, then for those behind the last one
      read, while the answer reports more. All lanes belong to one source, so a key further on
      is a time further on. */
  ghost function NetworkPages<T>(lanes: seq<seq<Entry<T>>>, size: nat, isForward: bool): seq<seq<Tagged<T>>>
    requires LanesOrdered(lanes, isForward)
    decreases Total(lanes)
  {
    var (m, n) := (Merge(lanes, isForward), AtLeastOne(size));
    var page := PageOfMerge(lanes, size, isForward).edges;
    if |m| > n then
      NextLanes(lanes, size, isForward);
      WithPage(isForward, page, NetworkPages(AfterTimes(lanes, isForward, Time(m[n - 1].entry)), size, isForward))
    else [page]
  }

  lemma NextLanes<T>(lanes: seq<seq<Entry<T>>>, size: nat, isForward: bool)
    requires LanesOrdered(lanes, isForward) && |Merge(lanes, isForward)| > AtLeastOne(size)
    ensures var (m, n) := (Merge(lanes, isForward), AtLeastOne(size));
            var next := AfterTimes(lanes, isForward, Time(m[n - 1].entry));
            && Merge(next, isForward) == MergedAfter(m, isForward, Time(m[n - 1].entry))
            && Total(next) <= |m| - n < Total(lanes)
            && LanesOrdered(next, isForward)
  {
    var (m, n) := (Merge(lanes, isForward), AtLeastOne(size));
    MergeOfLaterRecords(lanes, isForward, Time(m[n - 1].entry));
    MergeOrdered(lanes, isForward);
    CursorSkips(m, n, isForward);
    AfterTimesOrdered(lanes, isForward, Time(m[n - 1].entry));
  }

  /** No two records of equal time stand on both sides of a page break. */
  ghost predicate BreaksBetweenTimes<T>(merged: seq<Tagged<T>>, n: nat)
    requires n >= 1
  {
    |merged| <= n || (Time(merged[n - 1].entry) != Time(merged[n].entry) && BreaksBetweenTimes(merged[n..], n))
  }

  /** The records such a client reads from a merged sequence. */
  ghost function FollowCursor<T>(merged: seq<Tagged<T>>, n: nat, isForward: bool): seq<Tagged<T>>
    requires n >= 1 && OrderedMerge(merged, isForward)
    decreases |merged|
  {
    if |merged| <= n then merged
    else
      CursorSkips(merged, n, isForward);
      merged[..n] + FollowCursor(MergedAfter(merged, isForward, Time(merged[n - 1].entry)), n, isForward)
  }

  /** What follows the cursor at a page break: everything behind the break, less the
      records that share the cursor's time. */
  lemma CursorSkips<T>(merged: seq<Tagged<T>>, n: nat, isForward: bool)
    requires n >= 1 && OrderedMerge(merged, isForward) && |merged| > n
    ensures var rest := MergedAfter(merged, isForward, Time(merged[n - 1].entry));
            && OrderedMerge(rest, isForward)
            && |rest| <= |merged| - n
            && if Time(merged[n - 1].entry) != Time(merged[n].entry) then rest == merged[n..] else |rest| < |merged| - n
  {
    var i := MergedAfterIsSuffix(merged, isForward, Time(merged[n - 1].entry));
    CutBehindBreak(merged, n, isForward, i);
    OrderedSuffix(merged, isForward, i);
  }

  lemma CutBehindBreak<T>(merged: seq<Tagged<T>>, n: nat, isForward: bool, i: nat)
    requires n >= 1 && OrderedMerge(merged, isForward) && |merged| > n
    requires CutsAt(merged, isForward, Time(merged[n - 1].entry), i)
    ensures i >= n && (i == n <==> Time(merged[n - 1].entry) != Time(merged[n].entry))
  {
    assert i <= n - 1 ==> Earlier(isForward, Time(merged[n - 1].entry), Time(merged[n - 1].entry));
    assert InOrder(isForward, merged[n - 1], merged[n]);
  }

  lemma {:induction false} FollowCursorCompleteIff<T>(merged: seq<Tagged<T>>, n: nat, isForward: bool)
    requires n >= 1 && OrderedMerge(merged, isForward)
    ensures |FollowCursor(merged, n, isForward)| <= |merged|
    ensures FollowCursor(merged, n, isForward) == merged <==> BreaksBetweenTimes(merged, n)
    decreases |merged|
  {
    if |merged| > n {
      CursorSkips(merged, n, isForward);
      var rest := MergedAfter(merged, isForward, Time(merged[n - 1].entry));
      FollowCursorCompleteIff(rest, n, isForward);
      var read := FollowCursor(rest, n, isForward);
      assert FollowCursor(merged, n, isForward) == merged[..n] + read;
      if Time(merged[n - 1].entry) != Time(merged[n].entry) {
        SamePrefix(merged[..n], read, merged[n..]);
        assert merged == merged[..n] + merged[n..];
      } else {
        assert |merged[..n] + read| < |merged|;
      }
    }
  }

  lemma SamePrefix<T>(p: seq<T>, a: seq<T>, b: seq<T>)
    ensures p + a == p + b <==> a == b
  {
    if p + a == p + b {
      assert a == (p + a)[|p|..] == (p + b)[|p|..] == b;
    }
  }

  lemma {:induction false} NetworkPagesFollowCursor<T>(lanes: seq<seq<Entry<T>>>, size: nat, isForward: bool)
    requires LanesOrdered(lanes, isForward)
    ensures OrderedMerge(Merge(lanes, isForward), isForward)
    ensures Flatten(NetworkPages(lanes, size, isForward))
         == Shown(isForward, FollowCursor(Merge(lanes, isForward), AtLeastOne(size), isForward))
    decreases Total(lanes)
  {
    MergeOrdered(lanes, isForward);
    var (m, n) := (Merge(lanes, isForward), AtLeastOne(size));
    if |m| > n {
      var next := AfterTimes(lanes, isForward, Time(m[n - 1].entry));
      NextLanes(lanes, size, isForward);
      NetworkPagesFollowCursor(next, size, isForward);
      CursorSkips(m, n, isForward);
      FlattenWithPage(isForward, m[..n], NetworkPages(next, size, isForward),
                      FollowCursor(Merge(next, isForward), n, isForward));
    } else {
      LastPage(Shown(isForward, m));
    }
  }

  lemma LastPage<T>(page: seq<T>)
    ensures Flatten([page]) == page
  {
    assert [page][1..] == [];
  }

  /** The pages hold the whole merge exactly when no page break splits a tie. */
  lemma NetworkPagesCompleteIff<T>(lanes: seq<seq<Entry<T>>>, size: nat, isForward: bool)
    requires LanesOrdered(lanes, isForward)
    ensures Flatten(NetworkPages(lanes, size, isForward)) == Shown(isForward, Merge(lanes, isForward))
       <==> BreaksBetweenTimes(Merge(lanes, isForward), AtLeastOne(size))
  {
    var (m, n) := (Merge(lanes, isForward), AtLeastOne(size));
    NetworkPagesFollowCursor(lanes, size, isForward);
    FollowCursorCompleteIff(m, n, isForward);
    ShownTwice(isForward, m);
    ShownTwice(isForward, FollowCursor(m, n, isForward));
  }

  // ----- breaks that never split a tie

  /** Neighbours of different time, all along. */
  ghost predicate NoneTied<T>(merged: seq<Tagged<T>>) {
    forall i :: 0 < i < |merged| ==> Time(merged[i - 1].entry) != Time(merged[i].entry)
  }

  lemma {:induction false} NoneTiedBreaksCleanly<T>(merged: seq<Tagged<T>>, n: nat)
    requires n >= 1 && NoneTied(merged)
    ensures BreaksBetweenTimes(merged, n)
    decreases |merged|
  {
    if |merged| > n {
      NoneTiedBehind(merged, n);
      NoneTiedBreaksCleanly(merged[n..], n);
    }
  }

  lemma NoneTiedBehind<T>(merged: seq<Tagged<T>>, n: nat)
    requires NoneTied(merged) && n <= |merged|
    ensures NoneTied(merged[n..])
  {
    var rest := merged[n..];
    forall i | 0 < i < |rest|
      ensures Time(rest[i - 1].entry) != Time(rest[i].entry)
    {
      assert rest[i - 1] == merged[n + i - 1] && rest[i] == merged[n + i];
    }
  }

  /** No page size breaks a tie exactly when no two lanes hold records of the same time. */
  lemma AllSizesBreakCleanlyIff<T>(lanes: seq<seq<Entry<T>>>, isForward: bool)
    requires LanesOrdered(lanes, isForward)
    ensures (forall size: nat :: BreaksBetweenTimes(Merge(lanes, isForward), AtLeastOne(size)))
       <==> !CrossLaneTie(lanes)
  {
    var m := Merge(lanes, isForward);
    if CrossLaneTie(lanes) {
      var i := TiedNeighbours(lanes, isForward);
      assert !BreaksBetweenTimes(m, AtLeastOne(i));
    } else {
      UntiedLanesMerge(lanes, isForward);
      forall size: nat
        ensures BreaksBetweenTimes(m, AtLeastOne(size))
      {
        NoneTiedBreaksCleanly(m, AtLeastOne(size));
      }
    }
  }

  lemma UntiedLanesMerge<T>(lanes: seq<seq<Entry<T>>>, isForward: bool)
    requires LanesOrdered(lanes, isForward) && !CrossLaneTie(lanes)
    ensures NoneTied(Merge(lanes, isForward))
  {
    var m := Merge(lanes, isForward);
    MergeOrdered(lanes, isForward);
    forall i | 0 < i < |m|
      ensures Time(m[i - 1].entry) != Time(m[i].entry)
    {
      assert InOrder(isForward, m[i - 1], m[i]);
      if Time(m[i - 1].entry) == Time(m[i].entry) {
        if m[i - 1].lane == m[i].lane {
          SameLaneLater(lanes, isForward, i - 1, i);
        } else {
          TieFromMerge(lanes, isForward, i - 1, i);
        }
      }
    }
  }

  /** A tie across lanes puts two records of equal time side by side. */
  lemma TiedNeighbours<T>(lanes: seq<seq<Entry<T>>>, isForward: bool) returns (i: nat)
    requires LanesOrdered(lanes, isForward) && CrossLaneTie(lanes)
    ensures 0 < i < |Merge(lanes, isForward)|
    ensures Time(Merge(lanes, isForward)[i - 1].entry) == Time(Merge(lanes, isForward)[i].entry)
  {
    var m := Merge(lanes, isForward);
    MergeOrdered(lanes, isForward);
    forall lane: nat
      ensures Project(m, lane) == LaneAt(lanes, lane)
    {
      MergeProjects(lanes, isForward, lane);
    }
    var x, y := TiedPlaces(lanes, m);
    assert y < x ==> InOrder(isForward, m[y], m[x]);
    BetweenTied(m, isForward, x, y);
    i := x + 1;
  }

  /** Between two records of equal time all are of that time. */
  lemma BetweenTied<T>(m: seq<Tagged<T>>, isForward: bool, i: nat, j: nat)
    requires OrderedMerge(m, isForward) && i < j < |m| && Time(m[i].entry) == Time(m[j].entry)
    ensures Time(m[i].entry) == Time(m[i + 1].entry)
  {
    assert InOrder(isForward, m[i], m[i + 1]);
    assert i + 1 < j ==> InOrder(isForward, m[i + 1], m[j]);
  }

  /** Two merged records of one lane come from two different places of the lane. */
  lemma SameLaneLater<T>(lanes: seq<seq<Entry<T>>>, isForward: bool, i: nat, j: nat)
    requires LanesOrdered(lanes, isForward) && i < j < |Merge(lanes, isForward)|
    requires Merge(lanes, isForward)[i].lane == Merge(lanes, isForward)[j].lane
    ensures Earlier(isForward, Time(Merge(lanes, isForward)[i].entry), Time(Merge(lanes, isForward)[j].entry))
  {
    var m := Merge(lanes, isForward);
    var k := m[i].lane;
    MergeProjects(lanes, isForward, k);
    ProjectMember(m, i);
    var x, y := TwoPlaces(m, i, j);
    assert LaneOrdered(lanes[k], isForward);
  }

  lemma TwoPlaces<T>(m: seq<Tagged<T>>, i: nat, j: nat) returns (x: nat, y: nat)
    requires i < j < |m| && m[i].lane == m[j].lane
    ensures x < y < |Project(m, m[i].lane)|
    ensures Project(m, m[i].lane)[x] == m[i].entry && Project(m, m[i].lane)[y] == m[j].entry
  {
    var (k, front, back) := (m[i].lane, m[..j], m[j..]);
    assert m == front + back;
    ProjectConcat(front, back, k);
    ProjectMember(front, i);
    x :| 0 <= x < |Project(front, k)| && Project(front, k)[x] == m[i].entry;
    y := |Project(front, k)|;
    assert back[0] == m[j];
    assert Project(back, k) == [m[j].entry] + Project(back[1..], k);
  }
}
