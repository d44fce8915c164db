/**
 What a statistics query shows for a source in terms of its store: from which record each entry
 takes its period, and what the latest-only answer is.
 */
module StatisticsAnswers {
  import opened Wrappers
  import opened Sequences
  import opened Bytes
  import opened StorageKeys
  import opened EventStore
  import opened Statistics

  // ----- periods of lanes

  /** The period a lane holds for a time. */
  function LanePeriod(lane: Lane, ts: nat): Option<nat> {
    if lane == [] then None
    else if lane[0].timestamp == ts then Some(lane[0].period) else LanePeriod(lane[1..], ts)
  }

  /** The period the last lane that has the time holds for it. */
  function LastPeriod(lanes: seq<Lane>, ts: nat): Option<nat> {
    if lanes == [] then None
    else
      var later := LastPeriod(lanes[1..], ts);
      if later.Some? then later else LanePeriod(lanes[0], ts)
  }

  lemma {:induction false} NoPeriodIff(lane: Lane, ts: nat)
    ensures LanePeriod(lane, ts).Some? <==> ts in LaneTimes(lane)
  {
    if lane != [] {
      NoPeriodIff(lane[1..], ts);
    }
  }

  lemma {:induction false} NoLastPeriodIff(lanes: seq<Lane>, ts: nat)
    ensures LastPeriod(lanes, ts).Some? <==> ts in Times(lanes)
  {
    if lanes != [] {
      NoLastPeriodIff(lanes[1..], ts);
      NoPeriodIff(lanes[0], ts);
    }
  }

  lemma LastPeriodCons(lane: Lane, rest: seq<Lane>, ts: nat)
    ensures LastPeriod((if lane == [] then [] else [lane]) + rest, ts)
         == if LastPeriod(rest, ts).Some? then LastPeriod(rest, ts) else LanePeriod(lane, ts)
  {
    if lane == [] {
      assert [] + rest == rest;
    } else {
      assert ([lane] + rest)[1..] == rest;
    }
  }

  lemma {:induction false} DropAtKeepsPeriod(lanes: seq<Lane>, latest: nat, ts: nat)
    requires NonEmpty(lanes) && ts != latest
    ensures LastPeriod(DropAt(lanes, latest), ts) == LastPeriod(lanes, ts)
  {
    if lanes != [] {
      DropAtKeepsPeriod(lanes[1..], latest, ts);
      var kept := if lanes[0][0].timestamp == latest then lanes[0][1..] else lanes[0];
      LastPeriodCons(kept, DropAt(lanes[1..], latest), ts);
    }
  }

  /** The last of the latest heads gives the period of the last lane. */
  lemma {:induction false} HeadPeriod(lanes: seq<Lane>, k: nat)
    requires NonEmpty(lanes) && Ordered(lanes) && k < |lanes|
    requires forall i :: k < i < |lanes| ==> lanes[i][0].timestamp < lanes[k][0].timestamp
    ensures LastPeriod(lanes, lanes[k][0].timestamp) == Some(lanes[k][0].period)
  {
    var ts := lanes[k][0].timestamp;
    if k > 0 {
      assert forall i {:trigger lanes[i]} :: 0 < i < |lanes| ==> lanes[i] == lanes[1..][i - 1];
      HeadPeriod(lanes[1..], k - 1);
    } else {
      assert forall i {:trigger lanes[1..][i]} :: 0 <= i < |lanes| - 1 ==> lanes[1..][i] == lanes[i + 1];
      NothingAt(lanes[1..], ts);
      NoLastPeriodIff(lanes[1..], ts);
    }
  }

  lemma {:induction false} NothingAt(lanes: seq<Lane>, ts: nat)
    requires NonEmpty(lanes) && Ordered(lanes) && forall i :: 0 <= i < |lanes| ==> lanes[i][0].timestamp < ts
    ensures ts !in Times(lanes)
  {
    if lanes != [] {
      DescendingTimes(lanes[0]);
      NothingAt(lanes[1..], ts);
      assert LaneTimes(lanes[0]) == {lanes[0][0].timestamp} + LaneTimes(lanes[0][1..]);
    }
  }

  ghost predicate ShowsLastPeriod(info: Info, lanes: seq<Lane>) {
    LastPeriod(lanes, info.timestamp) == Some(info.period)
  }

  /** The entry totals what the lanes hold for its time, and shows the period of the last of them. */
  ghost predicate Reports(info: Info, lanes: seq<Lane>, kinds: set<RawEventKind>) {
    TotalsAll(info, lanes, kinds) && ShowsLastPeriod(info, lanes)
  }

  lemma LatestReports(lanes: seq<Lane>, kinds: set<RawEventKind>)
    requires NonEmpty(lanes) && Ordered(lanes) && lanes != []
    ensures Reports(InfoAt(lanes, kinds), lanes, kinds)
  {
    LatestTotalsAll(lanes, kinds);
    HeadPeriod(lanes, LatestIndex(Heads(lanes)));
  }

  /** An entry of a later step reports the lanes before that step as well. */
  lemma LaterReports(info: Info, lanes: seq<Lane>, kinds: set<RawEventKind>)
    requires NonEmpty(lanes) && Ordered(lanes) && lanes != []
    requires Reports(info, DropAt(lanes, InfoAt(lanes, kinds).timestamp), kinds)
    ensures Reports(info, lanes, kinds)
  {
    LatestFacts(lanes, kinds);
    LaterTotalsAll(info, lanes, kinds);
    DropAtKeepsPeriod(lanes, InfoAt(lanes, kinds).timestamp, info.timestamp);
  }

  ghost predicate EntryReports(lanes: seq<Lane>, kinds: set<RawEventKind>, i: nat)
    requires NonEmpty(lanes)
  {
    i < |Full(lanes, kinds)| && Reports(Full(lanes, kinds)[i], lanes, kinds)
  }

  lemma FirstEntryReports(lanes: seq<Lane>, kinds: set<RawEventKind>)
    requires NonEmpty(lanes) && Ordered(lanes) && lanes != []
    ensures EntryReports(lanes, kinds, 0)
  {
    FullUnfolds(lanes, kinds);
    LatestReports(lanes, kinds);
  }

  lemma LaterEntryReports(lanes: seq<Lane>, kinds: set<RawEventKind>, i: nat)
    requires NonEmpty(lanes) && Ordered(lanes) && lanes != [] && 0 < i < |Full(lanes, kinds)|
    requires EntryReports(DropAt(lanes, InfoAt(lanes, kinds).timestamp), kinds, i - 1)
    ensures EntryReports(lanes, kinds, i)
  {
    FullEntry(lanes, kinds, i);
    LaterReports(Full(lanes, kinds)[i], lanes, kinds);
  }

  /** Each entry shows the period of the last lane that holds its time. */
  lemma {:induction false} FullPeriods(lanes: seq<Lane>, kinds: set<RawEventKind>, i: nat)
    requires NonEmpty(lanes) && Ordered(lanes) && i < |Full(lanes, kinds)|
    ensures EntryReports(lanes, kinds, i)
    decreases i
  {
    FullEntry(lanes, kinds, i);
    if i == 0 {
      FirstEntryReports(lanes, kinds);
    } else {
      DropAtOrdered(lanes, InfoAt(lanes, kinds).timestamp);
      FullPeriods(DropAt(lanes, InfoAt(lanes, kinds).timestamp), kinds, i - 1);
      LaterEntryReports(lanes, kinds, i);
    }
  }

  // ----- periods of a store

  lemma {:induction false} ReadablePeriod(entries: seq<Entry<CoreStatistics>>, k: nat)
    requires LatestFirst(entries) && ReadAt(entries, k)
    ensures LanePeriod(Readable(PollsOf(entries)), Rank(entries[k].key)) == Some(entries[k].value.value.period)
  {
    ReadableStep(entries);
    if k > 0 {
      ReadablePeriod(entries[1..], k - 1);
    }
  }

  /** The core shows a record of that time and period. */
  ghost predicate ShowsPeriod(store: seq<Entry<CoreStatistics>>, source: Key, core: Key, from: Option<int>,
                              until: Option<int>, ts: nat, period: nat)
  {
    exists e ::
      Shows(store, source, core, from, until, e) && Rank(e.key) == ts && e.value.value.period == period
  }

  lemma CorePeriod(store: seq<Entry<CoreStatistics>>, source: Key, core: Key, from: Option<int>, until: Option<int>,
                   ts: nat)
    requires WellFormed(FixedMid(4), store) && NulFree(source) && |core| == 4
    ensures var lane := Readable(CorePolls(store, source, core, from, until));
            match LanePeriod(lane, ts)
            case Some(period) => ShowsPeriod(store, source, core, from, until, ts, period)
            case None => !ShowsAt(store, source, core, from, until, ts)
  {
    var entries := EntriesRead(store, source, core, from, until);
    CoreShows(store, source, core, from, until, ts);
    NoPeriodIff(Readable(PollsOf(entries)), ts);
    if ShowsAt(store, source, core, from, until, ts) {
      var e :| Shows(store, source, core, from, until, e) && Rank(e.key) == ts;
      var k :| 0 <= k < |entries| && entries[k] == e;
      ShowsIff(store, source, core, from, until, entries, k);
      ReadablePeriod(entries, k);
    }
  }

  /** The last core of a source that shows the time shows it with that period. */
  ghost predicate LastShows(store: seq<Entry<CoreStatistics>>, source: Key, cores: seq<Key>, from: Option<int>,
                            until: Option<int>, k: nat, ts: nat, period: nat)
  {
    && k < |cores| && ShowsPeriod(store, source, cores[k], from, until, ts, period)
    && forall j :: k < j < |cores| ==> !ShowsAt(store, source, cores[j], from, until, ts)
  }

  lemma FirstPollsPeriod(polls: seq<Polls>, ts: nat)
    requires polls != []
    ensures var later := LastPeriod(FreshLanes(ReadableAll(polls[1..])), ts);
            LastPeriod(FreshLanes(ReadableAll(polls)), ts)
            == if later.Some? then later else LanePeriod(Readable(polls[0]), ts)
  {
    assert ReadableAll(polls)[1..] == ReadableAll(polls[1..]);
    LastPeriodCons(Readable(polls[0]), FreshLanes(ReadableAll(polls[1..])), ts);
  }

  lemma NoneShows(store: seq<Entry<CoreStatistics>>, source: Key, cores: seq<Key>, from: Option<int>,
                  until: Option<int>, ts: nat)
    requires WellFormed(FixedMid(4), store) && NulFree(source) && forall k :: 0 <= k < |cores| ==> |cores[k]| == 4
    requires LastPeriod(FreshLanes(ReadableAll(SourcePolls(store, source, cores, from, until))), ts) == None
    ensures forall j :: 0 <= j < |cores| ==> !ShowsAt(store, source, cores[j], from, until, ts)
  {
    SourceLanes(store, source, cores, from, until, ts);
    NoLastPeriodIff(FreshLanes(ReadableAll(SourcePolls(store, source, cores, from, until))), ts);
    assert forall j :: 0 <= j < |cores| ==> cores[j] in cores;
  }

  lemma {:induction false} SourcePeriod(store: seq<Entry<CoreStatistics>>, source: Key, cores: seq<Key>,
                                        from: Option<int>, until: Option<int>, ts: nat, period: nat) returns (k: nat)
    requires WellFormed(FixedMid(4), store) && NulFree(source) && forall k :: 0 <= k < |cores| ==> |cores[k]| == 4
    requires LastPeriod(FreshLanes(ReadableAll(SourcePolls(store, source, cores, from, until))), ts) == Some(period)
    ensures LastShows(store, source, cores, from, until, k, ts, period)
  {
    var (core, rest) := (cores[0], cores[1..]);
    assert cores == [core] + rest;
    var polls := SourcePolls(store, source, cores, from, until);
    assert polls[1..] == SourcePolls(store, source, rest, from, until);
    FirstPollsPeriod(polls, ts);
    if LastPeriod(FreshLanes(ReadableAll(SourcePolls(store, source, rest, from, until))), ts).Some? {
      k := SourcePeriod(store, source, rest, from, until, ts, period);
      LastShowsBehind(store, source, core, rest, from, until, k, ts, period);
      k := k + 1;
    } else {
      k := 0;
      FirstShows(store, source, core, rest, from, until, ts, period);
    }
  }

  lemma FirstShows(store: seq<Entry<CoreStatistics>>, source: Key, core: Key, rest: seq<Key>, from: Option<int>,
                   until: Option<int>, ts: nat, period: nat)
    requires WellFormed(FixedMid(4), store) && NulFree(source) && |core| == 4
    requires forall k :: 0 <= k < |rest| ==> |rest[k]| == 4
    requires LanePeriod(Readable(CorePolls(store, source, core, from, until)), ts) == Some(period)
    requires LastPeriod(FreshLanes(ReadableAll(SourcePolls(store, source, rest, from, until))), ts) == None
    ensures LastShows(store, source, [core] + rest, from, until, 0, ts, period)
  {
    NoneShows(store, source, rest, from, until, ts);
    CorePeriod(store, source, core, from, until, ts);
  }

  lemma LastShowsBehind(store: seq<Entry<CoreStatistics>>, source: Key, core: Key, rest: seq<Key>, from: Option<int>,
                        until: Option<int>, k: nat, ts: nat, period: nat)
    requires LastShows(store, source, rest, from, until, k, ts, period)
    ensures LastShows(store, source, [core] + rest, from, until, k + 1, ts, period)
  {
    var cores := [core] + rest;
    assert forall j {:trigger cores[j]} :: 0 < j < |cores| ==> cores[j] == rest[j - 1];
  }

  /** Each entry for a source shows the period stored in the record of its time of the last core
      that shows one. */
  lemma StorePeriods(store: seq<Entry<CoreStatistics>>, source: Key, cores: seq<Key>, from: Option<int>,
                     until: Option<int>, kinds: set<RawEventKind>, i: nat)
    requires WellFormed(FixedMid(4), store) && NulFree(source) && forall k :: 0 <= k < |cores| ==> |cores[k]| == 4
    requires i < |SourceStatistics(SourcePolls(store, source, cores, from, until), kinds)|
    ensures var info := SourceStatistics(SourcePolls(store, source, cores, from, until), kinds)[i];
            exists k: nat :: LastShows(store, source, cores, from, until, k, info.timestamp, info.period)
  {
    var lanes := FreshLanes(ReadableAll(SourcePolls(store, source, cores, from, until)));
    var info := Full(lanes, kinds)[i];
    SourceLanes(store, source, cores, from, until, info.timestamp);
    FullPeriods(lanes, kinds, i);
    var k := SourcePeriod(store, source, cores, from, until, info.timestamp, info.period);
  }

  // ----- the latest entry alone

  /** Nothing is shown by any core of the source. */
  ghost predicate ShowsNothing(store: seq<Entry<CoreStatistics>>, source: Key, cores: seq<Key>, from: Option<int>,
                               until: Option<int>)
  {
    forall core, ts: nat :: core in cores ==> !ShowsAt(store, source, core, from, until, ts)
  }

  /** The time is shown by a core of the source, and none shows a later one. */
  ghost predicate IsLatestShown(store: seq<Entry<CoreStatistics>>, source: Key, cores: seq<Key>, from: Option<int>,
                                until: Option<int>, latest: nat)
  {
    && (exists core :: core in cores && ShowsAt(store, source, core, from, until, latest))
    && (forall core, ts: nat :: core in cores && ShowsAt(store, source, core, from, until, ts) ==> ts <= latest)
  }

  lemma LatestOfOwn(cores: seq<Polls>, kinds: set<RawEventKind>)
    ensures LatestAnswer(FreshPolls(cores), kinds) == Take(SourceStatistics(cores, kinds), 1)
  {
    var lanes := FreshLanes(ReadableAll(cores));
    FreshPollsAreFreshLanes(cores);
    AllFresh(lanes);
    LatestIsFirstOfFull(lanes, kinds);
  }

  lemma FirstInfoLatest(infos: seq<Info>, ts: nat)
    requires DescendingInfos(infos) && ts in InfoTimes(infos)
    ensures infos != [] && infos[0].timestamp in InfoTimes(infos) && ts <= infos[0].timestamp
  {
  }

  /** The latest-only answer of a source, from its own cores: nothing when no core shows anything,
      else one entry of the latest time shown, with the period of the last core that shows it and,
      for each kind, the sum over all cores modulo 2^64. */
  lemma LatestOfSource(store: seq<Entry<CoreStatistics>>, source: Key, cores: seq<Key>, from: Option<int>,
                       until: Option<int>, kinds: set<RawEventKind>, kind: RawEventKind)
    requires WellFormed(FixedMid(4), store) && NulFree(source) && forall k :: 0 <= k < |cores| ==> |cores[k]| == 4
    ensures var answer := LatestAnswer(FreshPolls(SourcePolls(store, source, cores, from, until)), kinds);
            if ShowsNothing(store, source, cores, from, until) then answer == []
            else
              && |answer| == 1
              && var info := answer[0];
              && IsLatestShown(store, source, cores, from, until, info.timestamp)
              && (exists k: nat :: LastShows(store, source, cores, from, until, k, info.timestamp, info.period))
              && var records := SourceRecords(store, source, cores, from, until, info.timestamp);
              && (kind in info.totals <==> kind in kinds && Mentions(records, kind))
              && (kind in info.totals ==>
                    info.totals[kind] == Totals(CountOf(records, kind) % 0x1_0000_0000_0000_0000,
                                                SizeOf(records, kind) % 0x1_0000_0000_0000_0000))
  {
    LatestOfOwn(SourcePolls(store, source, cores, from, until), kinds);
    FirstIsLatest(store, source, cores, from, until, kinds);
    if SourceStatistics(SourcePolls(store, source, cores, from, until), kinds) != [] {
      StorePeriods(store, source, cores, from, until, kinds, 0);
      StoreStatisticsConserved(store, source, cores, from, until, kinds, 0, kind);
    }
  }

  lemma FirstIsLatest(store: seq<Entry<CoreStatistics>>, source: Key, cores: seq<Key>, from: Option<int>,
                      until: Option<int>, kinds: set<RawEventKind>)
    requires WellFormed(FixedMid(4), store) && NulFree(source) && forall k :: 0 <= k < |cores| ==> |cores[k]| == 4
    ensures var infos := SourceStatistics(SourcePolls(store, source, cores, from, until), kinds);
            && (ShowsNothing(store, source, cores, from, until) <==> infos == [])
            && (infos != [] ==> IsLatestShown(store, source, cores, from, until, infos[0].timestamp))
  {
    var infos := SourceStatistics(SourcePolls(store, source, cores, from, until), kinds);
    forall core, ts: nat | core in cores && ShowsAt(store, source, core, from, until, ts)
      ensures infos != [] && ts <= infos[0].timestamp
    {
      StoreTimes(store, source, cores, from, until, kinds, ts);
      FirstInfoLatest(infos, ts);
    }
    if infos != [] {
      StoreTimes(store, source, cores, from, until, kinds, infos[0].timestamp);
    }
  }
}
