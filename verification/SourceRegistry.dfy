/**
 The registry of sources: a map in memory of the sources connected now, and a persistent store
 of every source ever reported with its last active time. One task applies the connection
 messages and, once a day, refreshes the times of the connected sources. Inserts into the
 persistent store are taken as successful.
 */
module SourceRegistry {
  import opened Wrappers

  datatype ConnState = Connected | Disconnected

  /** `reproduce` marks a source whose data is replayed, which is never listed as connected. */
  datatype Event =
    | Tick(clock: map<string, int>)
    | Message(source: string, time: int, state: ConnState, reproduce: bool)

  datatype State = State(sources: map<string, int>, store: map<string, int>)

  /** What one event does; a tick reads the clock once for each source that is connected. */
  ghost predicate Next(s: State, event: Event, r: State) {
    match event
    case Tick(clock) =>
      && s.sources.Keys <= clock.Keys
      && r.sources == (map source | source in s.sources :: clock[source])
      && r.store == s.store + r.sources
    case Message(source, time, state, reproduce) =>
      && r.store == s.store[source := time]
      && r.sources == if reproduce then s.sources
                      else if state.Connected? then s.sources[source := time]
                      else s.sources - {source}
  }

  /** The times of these names set anew. */
  function Refreshed(times: map<string, int>, clock: map<string, int>, names: set<string>): map<string, int>
    requires names <= clock.Keys
  {
    times + map name | name in names :: clock[name]
  }

  lemma RefreshOneMore(times: map<string, int>, clock: map<string, int>, names: set<string>, name: string)
    requires names <= clock.Keys && name in clock
    ensures Refreshed(times, clock, names + {name}) == Refreshed(times, clock, names)[name := clock[name]]
  {
  }

  class Registry {
    var sources: map<string, int>
    var store: map<string, int>
    /** Sources with an open packet connection. */
    var packetSources: set<string>

    constructor (store: map<string, int>)
      ensures Value() == State(map[], store) && packetSources == {}
    {
      sources, this.store, packetSources := map[], store, {};
    }

    ghost function Value(): State
      reads this
    {
      State(sources, store)
    }

    method RefreshTimes(clock: map<string, int>)
      requires sources.Keys <= clock.Keys
      modifies this
      ensures Next(old(Value()), Tick(clock), Value())
      ensures packetSources == old(packetSources)
    {
      var keys := sources.Keys;
      ghost var done: set<string> := {};
      while keys != {}
        invariant done <= old(sources).Keys && keys == old(sources).Keys - done
        invariant sources == Refreshed(old(sources), clock, done) && store == Refreshed(old(store), clock, done)
        invariant packetSources == old(packetSources)
      {
        var key :| key in keys;
        var timestamp := clock[key];
        RefreshOneMore(old(sources), clock, done, key);
        RefreshOneMore(old(store), clock, done, key);
        store := store[key := timestamp];
        sources := sources[key := timestamp];
        keys := keys - {key};
        done := done + {key};
      }
      assert done == old(sources).Keys;
    }

    method Receive(source: string, time: int, state: ConnState, reproduce: bool)
      modifies this
      ensures Next(old(Value()), Message(source, time, state, reproduce), Value())
      ensures packetSources
           == if state.Disconnected? && !reproduce then old(packetSources) - {source} else old(packetSources)
    {
      match state
      case Connected =>
        store := store[source := time];
        if !reproduce {
          sources := sources[source := time];
        }
      case Disconnected =>
        store := store[source := time];
        if !reproduce {
          sources := sources - {source};
          packetSources := packetSources - {source};
        }
    }
  }

  // ----- whole runs

  ghost predicate IsRun(states: seq<State>, events: seq<Event>) {
    && |states| == |events| + 1
    && forall i :: 0 <= i < |events| ==> Next(states[i], events[i], states[i + 1])
  }

  /** The state in the latest message about this source that is not a reproduction. */
  function Latest(events: seq<Event>, source: string): Option<ConnState> {
    if events == [] then None
    else
      var last := events[|events| - 1];
      if last.Message? && last.source == source && !last.reproduce then Some(last.state)
      else Latest(events[..|events| - 1], source)
  }

  function Reported(events: seq<Event>): set<string> {
    set e | e in events && e.Message? :: e.source
  }

  /** From an empty map in memory: a source is connected exactly when its latest message says
      so; the store holds the names it started with and every name reported, and no other. */
  lemma {:induction false} RegistryFollowsMessages(states: seq<State>, events: seq<Event>, source: string)
    requires IsRun(states, events) && states[0].sources == map[]
    ensures var end := states[|events|];
            && (source in end.sources <==> Latest(events, source) == Some(Connected))
            && (source in end.store <==> source in states[0].store || source in Reported(events))
            && (source in end.sources ==> source in end.store)
  {
    if events != [] {
      var n := |events| - 1;
      RegistryFollowsMessages(states[..n + 1], events[..n], source);
      assert Next(states[n], events[n], states[n + 1]);
      assert events == events[..n] + [events[n]];
      ReportedOneMore(events[..n], events[n], source);
    }
  }

  lemma ReportedOneMore(events: seq<Event>, event: Event, source: string)
    ensures source in Reported(events + [event]) <==>
              source in Reported(events) || (event.Message? && event.source == source)
  {
    if event.Message? {
      assert event in events + [event];
    }
    assert forall e :: e in events + [event] <==> e in events || e == event;
  }

  /** A tick changes neither set of names. */
  lemma TickKeepsNames(states: seq<State>, events: seq<Event>, i: nat)
    requires IsRun(states, events) && states[0].sources == map[] && i < |events| && events[i].Tick?
    ensures states[i + 1].sources.Keys == states[i].sources.Keys && states[i + 1].store.Keys == states[i].store.Keys
  {
    forall source
      ensures source in states[i].sources ==> source in states[i].store
    {
      RegistryFollowsMessages(states[..i + 1], events[..i], source);
    }
    assert Next(states[i], events[i], states[i + 1]);
  }

  /** The time of the last event that set one for the source: a message about it, or a tick while
      it was connected. Reproductions set a time in the store, but none in the map. */
  function LastTime(events: seq<Event>, source: string, stored: bool): Option<int> {
    if events == [] then None
    else
      var (before, last) := (events[..|events| - 1], events[|events| - 1]);
      match last
      case Message(name, time, _, reproduce) =>
        if name == source && (stored || !reproduce) then Some(time) else LastTime(before, source, stored)
      case Tick(clock) =>
        if Latest(before, source) == Some(Connected) && source in clock then Some(clock[source])
        else LastTime(before, source, stored)
  }

  /** Over whole runs each time stored for a source, and each time held for a connected one, is
      that of the last event that set it; a name no event reached keeps the time it began with. */
  lemma {:induction false} TimesFollowEvents(states: seq<State>, events: seq<Event>, source: string)
    requires IsRun(states, events) && states[0].sources == map[]
    ensures var (start, end) := (states[0].store, states[|events|]);
            && (match LastTime(events, source, true)
                case Some(time) => source in end.store && end.store[source] == time
                case None =>
                  if source in start then source in end.store && end.store[source] == start[source]
                  else source !in end.store)
            && (source in end.sources ==> LastTime(events, source, false) == Some(end.sources[source]))
  {
    if events != [] {
      var n := |events| - 1;
      TimesFollowEvents(states[..n + 1], events[..n], source);
      RegistryFollowsMessages(states[..n + 1], events[..n], source);
      assert Next(states[n], events[n], states[n + 1]);
    }
  }
}
