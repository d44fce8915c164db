/**
 When the pages of a client of several stores hold everything, whatever the stores hold: the exact
 condition for one page size, in terms of the merged answers and the unreadable records between
 them.
 */
module NetworkComplete {
  import opened Wrappers
  import opened Sequences
  import opened Bytes
  import opened StorageKeys
  import opened EventStore
  import opened Paging
  import opened NetworkMerge
  import opened NetworkPaging
  import opened NetworkLanes
  import opened NetworkClient

  // ----- which matches a store opened at a cursor shows

  /** A record that does not deserialize comes earlier. */
  ghost predicate Blocked<T>(s: seq<Entry<T>>, isForward: bool, e: Entry<T>) {
    exists u :: u in s && u.value.None? && Earlier(isForward, Time(u), Time(e))
  }

  /** The filtering iterator over an ordered run yields the matches that nothing unreadable precedes. */
  lemma {:induction false} LaneOfOrdered<T>(s: seq<Entry<T>>, check: T -> bool, isForward: bool, e: Entry<T>)
    requires LaneOrdered(s, isForward)
    ensures e in Lane(s, check) <==> e in s && Hit(check, e) && !Blocked(s, isForward, e)
  {
    if s != [] {
      TailAfterHead(s, isForward);
      LaneOfOrdered(s[1..], check, isForward, e);
      MemberOfTail(s, e);
      if s[0].value.Some? {
        LaneOfReadable(s, check);
        BlockedBehind(s, isForward, e);
      } else if e in s[1..] {
        assert Blocked(s, isForward, e);
      }
    }
  }

  lemma MemberOfTail<T>(s: seq<T>, e: T)
    requires s != []
    ensures e in s <==> e == s[0] || e in s[1..]
  {
  }

  lemma BlockedBehind<T>(s: seq<Entry<T>>, isForward: bool, e: Entry<T>)
    requires s != [] && s[0].value.Some? && AllAfter(s[1..], isForward, Time(s[0]))
    ensures Blocked(s, isForward, e) <==> Blocked(s[1..], isForward, e)
    ensures !Blocked(s, isForward, s[0])
  {
    if u :| u in s && u.value.None? && Earlier(isForward, Time(u), Time(e)) {
      MemberOfTail(s, u);
    }
    if u :| u in s && u.value.None? && Earlier(isForward, Time(u), Time(s[0])) {
      MemberOfTail(s, u);
      assert false;
    }
  }

  lemma {:induction false} AfterTimeMember<T>(lane: seq<Entry<T>>, isForward: bool, t: int, e: Entry<T>)
    ensures e in AfterTime(lane, isForward, t) <==> e in lane && Earlier(isForward, t, Time(e))
  {
    if lane != [] {
      AfterTimeMember(lane[1..], isForward, t, e);
    }
  }

  /** A record of the range that does not deserialize stands in front of the record, at the time
      given or behind it. */
  ghost predicate Hidden<T>(store: seq<Entry<T>>, b: Bounds, isForward: bool, t: int, e: Entry<T>) {
    exists u :: u in InBounds(store, b) && u.value.None?
                && !Earlier(isForward, Time(u), t) && Earlier(isForward, Time(u), Time(e))
  }

  lemma FirstLaneShows<T>(store: seq<Entry<T>>, b: Bounds, check: T -> bool, prefix: Key, isForward: bool, e: Entry<T>)
    requires SourcedStore(store, b, prefix)
    ensures e in StoreLane(store, b, check, isForward, None)
       <==> e in InBounds(store, b) && Hit(check, e) && Earlier(isForward, Outset(isForward), Time(e))
            && !Hidden(store, b, isForward, Outset(isForward), e)
  {
    var run := Scan(store, b, isForward, None);
    ScanOrdered(store, b, prefix, isForward);
    LaneOfOrdered(run, check, isForward, e);
    forall u
      ensures u in run <==> u in InBounds(store, b)
      ensures u in InBounds(store, b) ==> 0 <= Time(u) <= I64_MAX
    {
      ShownMembers(isForward, InBounds(store, b), u);
      if u in InBounds(store, b) {
        EntryIsTimed(store, b, prefix, u);
      }
    }
  }

  lemma LaterLaneShows<T>(store: seq<Entry<T>>, b: Bounds, check: T -> bool, isForward: bool, cursor: Key, t: int,
                          early: seq<Entry<T>>, e: Entry<T>)
    requires Reopens(store, b, isForward, cursor, t, early)
    ensures e in StoreLane(store, b, check, isForward, Some(cursor))
       <==> e in InBounds(store, b) && Hit(check, e) && Earlier(isForward, t, Time(e))
            && !Hidden(store, b, isForward, t, e)
  {
    var late := Scan(store, b, isForward, Some(cursor));
    FollowIsAfter(store, b, check, isForward, cursor, t, early);
    AfterTimeMember(Lane(late, check), isForward, t, e);
    LaneOfOrdered(late, check, isForward, e);
    forall u
      ensures u in late <==> u in InBounds(store, b) && !Earlier(isForward, Time(u), t)
    {
      ShownMembers(isForward, InBounds(store, b), u);
      assert u in early + late <==> u in early || u in late;
    }
  }

  /** A store opened at a cursor shows the matches behind the cursor that no unreadable record
      hides. */
  lemma StoreLaneShows<T>(store: seq<Entry<T>>, b: Bounds, check: T -> bool, prefix: Key, isForward: bool,
                          cursor: Option<Key>, t: int, e: Entry<T>)
    requires SourcedStore(store, b, prefix) && CursorAt(b, prefix, isForward, cursor, t)
    ensures e in StoreLane(store, b, check, isForward, cursor)
       <==> e in InBounds(store, b) && Hit(check, e) && Earlier(isForward, t, Time(e))
            && !Hidden(store, b, isForward, t, e)
  {
    if cursor.None? {
      FirstLaneShows(store, b, check, prefix, isForward, e);
    } else {
      var early := StoreReopens(store, b, prefix, isForward, cursor.value, t);
      LaterLaneShows(store, b, check, isForward, cursor.value, t, early, e);
    }
  }

  // ----- which matches a page reads

  /** A record that a page behind the time still shows. */
  ghost predicate Seen<T>(stores: seq<seq<Entry<T>>>, b: Bounds, isForward: bool, t: int, x: Tagged<T>) {
    x.lane < |stores| && !Hidden(stores[x.lane], b, isForward, t, x.entry)
  }

  /** All matches of the stores behind the time, in strict order. */
  ghost predicate AllMatches<T(!new)>(stores: seq<seq<Entry<T>>>, b: Bounds, check: T -> bool, isForward: bool, t: int,
                                      all: seq<Tagged<T>>)
  {
    && StrictlyOrdered(all, isForward)
    && forall x: Tagged<T> :: x in all <==> IsMatchAfter(stores, b, check, isForward, t, x)
  }

  lemma MergeMember<T>(lanes: seq<seq<Entry<T>>>, isForward: bool, x: Tagged<T>)
    ensures x in Merge(lanes, isForward) <==> x.lane < |lanes| && x.entry in lanes[x.lane]
  {
    var m := Merge(lanes, isForward);
    MergeProjects(lanes, isForward, x.lane);
    if x in m {
      var i :| 0 <= i < |m| && m[i] == x;
      ProjectMember(m, i);
    }
    if x.lane < |lanes| && x.entry in lanes[x.lane] {
      var i := FindTagged(m, x.lane, x.entry);
    }
  }

  /** The first sequence holds the elements of the second that are seen, in the same order. */
  ghost predicate Picks<T(!new)>(stores: seq<seq<Entry<T>>>, b: Bounds, isForward: bool, t: int, some: seq<Tagged<T>>,
                                 all: seq<Tagged<T>>)
  {
    && StrictlyOrdered(some, isForward) && StrictlyOrdered(all, isForward)
    && forall x: Tagged<T> :: x in some <==> x in all && Seen(stores, b, isForward, t, x)
  }

  lemma MergePicks<T(!new)>(stores: seq<seq<Entry<T>>>, b: Bounds, check: T -> bool, prefix: Key, isForward: bool,
                            cursor: Option<Key>, t: int, all: seq<Tagged<T>>)
    requires Sourced(stores, b, prefix) && CursorAt(b, prefix, isForward, cursor, t)
    requires AllMatches(stores, b, check, isForward, t, all)
    ensures Picks(stores, b, isForward, t, Merge(StoreLanes(stores, b, check, isForward, cursor), isForward), all)
  {
    var lanes := StoreLanes(stores, b, check, isForward, cursor);
    CursorLanes(stores, b, check, prefix, isForward, cursor, t);
    MergeStrictlyOrdered(lanes, isForward);
    forall x: Tagged<T>
      ensures x in Merge(lanes, isForward) <==> x in all && Seen(stores, b, isForward, t, x)
    {
      MergeMember(lanes, isForward, x);
      if x.lane < |stores| {
        assert SourcedStore(stores[x.lane], b, prefix);
        StoreLaneShows(stores[x.lane], b, check, prefix, isForward, cursor, t, x.entry);
      }
      assert x in all <==> IsMatchAfter(stores, b, check, isForward, t, x);
    }
  }

  // ----- sequences in strict order

  ghost predicate Within<T>(some: seq<Tagged<T>>, all: seq<Tagged<T>>, isForward: bool) {
    && StrictlyOrdered(some, isForward) && StrictlyOrdered(all, isForward)
    && forall i :: 0 <= i < |some| ==> some[i] in all
  }

  lemma NoneTwice<T>(s: seq<Tagged<T>>, isForward: bool)
    requires StrictlyOrdered(s, isForward)
    ensures forall i, j :: 0 <= i < j < |s| ==> s[i] != s[j]
  {
    forall i, j | 0 <= i < j < |s|
      ensures s[i] != s[j]
    {
      assert StrictlyBefore(isForward, s[i], s[j]);
    }
  }

  /** An element beyond a common prefix of the one lies beyond it in the other. */
  lemma BeyondPrefix<T>(a: seq<Tagged<T>>, b: seq<Tagged<T>>, isForward: bool, n: nat, i: nat) returns (p: nat)
    requires StrictlyOrdered(a, isForward) && n <= |a| && n <= |b| && a[..n] == b[..n]
    requires n <= i < |a| && a[i] in b
    ensures n <= p < |b| && b[p] == a[i]
  {
    NoneTwice(a, isForward);
    p :| 0 <= p < |b| && b[p] == a[i];
    assert forall j :: 0 <= j < n ==> b[j] == b[..n][j] == a[j];
  }

  /** If the first elements of a sequence all occur in one within it, they come first there too. */
  lemma {:induction false} PrefixWithin<T>(some: seq<Tagged<T>>, all: seq<Tagged<T>>, isForward: bool, k: nat)
    requires Within(some, all, isForward) && k <= |all| && forall j :: 0 <= j < k ==> all[j] in some
    ensures k <= |some| && some[..k] == all[..k]
  {
    if k > 0 {
      PrefixWithin(some, all, isForward, k - 1);
      NextWithin(some, all, isForward, k - 1);
    }
  }

  lemma NextWithin<T>(some: seq<Tagged<T>>, all: seq<Tagged<T>>, isForward: bool, k: nat)
    requires Within(some, all, isForward) && k < |all| && all[k] in some
    requires k <= |some| && some[..k] == all[..k]
    ensures k < |some| && some[k] == all[k] && some[..k + 1] == all[..k + 1]
  {
    var p := BeyondPrefix(all, some, isForward, k, k);
    var r := BeyondPrefix(some, all, isForward, k, k);
    assert k < p ==> StrictlyBefore(isForward, some[k], all[k]);
    assert k < r ==> StrictlyBefore(isForward, all[k], some[k]);
  }

  lemma SameWithin<T>(some: seq<Tagged<T>>, all: seq<Tagged<T>>, isForward: bool)
    requires Within(some, all, isForward) && forall j :: 0 <= j < |all| ==> all[j] in some
    ensures some == all
  {
    PrefixWithin(some, all, isForward, |all|);
    assert all[..|all|] == all;
    NoMore(some, all, isForward);
  }

  lemma NoMore<T>(some: seq<Tagged<T>>, all: seq<Tagged<T>>, isForward: bool)
    requires Within(some, all, isForward) && all <= some
    ensures some == all
  {
    if |all| < |some| {
      var p := BeyondPrefix(some, all, isForward, |all|, |all|);
    }
  }

  // ----- page by page

  /** The next page of `n` answers, read behind this time, holds them whole and leads on: all its
      answers are seen from there, the answer behind the page has another time than its last one,
      and one of the answers behind it is seen as well, so that more is reported. */
  ghost predicate CleanPage<T>(stores: seq<seq<Entry<T>>>, b: Bounds, isForward: bool, t: int, all: seq<Tagged<T>>,
                               n: nat)
    requires n >= 1
  {
    && (forall j :: 0 <= j < n && j < |all| ==> Seen(stores, b, isForward, t, all[j]))
    && (n < |all| ==>
          && Time(all[n - 1].entry) != Time(all[n].entry)
          && exists j :: n <= j < |all| && Seen(stores, b, isForward, t, all[j]))
  }

  /** Every page of `n` answers is clean, each read behind the last answer of the one before. */
  ghost predicate CleanPages<T>(stores: seq<seq<Entry<T>>>, b: Bounds, isForward: bool, t: int, all: seq<Tagged<T>>,
                                n: nat)
    requires n >= 1
    decreases |all|
  {
    && CleanPage(stores, b, isForward, t, all, n)
    && (n < |all| ==> CleanPages(stores, b, isForward, Time(all[n - 1].entry), all[n..], n))
  }

  lemma PicksWithin<T(!new)>(stores: seq<seq<Entry<T>>>, b: Bounds, isForward: bool, t: int, some: seq<Tagged<T>>,
                             all: seq<Tagged<T>>)
    requires Picks(stores, b, isForward, t, some, all)
    ensures Within(some, all, isForward)
    ensures forall j :: 0 <= j < |all| ==> (all[j] in some <==> Seen(stores, b, isForward, t, all[j]))
  {
  }

  /** A clean page is read whole, and reports more exactly when answers are left. */
  lemma CleanPageRead<T(!new)>(stores: seq<seq<Entry<T>>>, b: Bounds, isForward: bool, t: int, some: seq<Tagged<T>>,
                               all: seq<Tagged<T>>, n: nat)
    requires Picks(stores, b, isForward, t, some, all) && n >= 1 && CleanPage(stores, b, isForward, t, all, n)
    ensures |all| <= n ==> some == all
    ensures n < |all| ==> n < |some| && some[..n] == all[..n]
  {
    PicksWithin(stores, b, isForward, t, some, all);
    if |all| <= n {
      SameWithin(some, all, isForward);
    } else {
      PrefixWithin(some, all, isForward, n);
      var j :| n <= j < |all| && Seen(stores, b, isForward, t, all[j]);
      var p := BeyondPrefix(all, some, isForward, n, j);
    }
  }

  /** Conversely, a page that holds the first answers left, with more seen behind it, is clean
      when no tie is split. */
  lemma ReadPageClean<T(!new)>(stores: seq<seq<Entry<T>>>, b: Bounds, isForward: bool, t: int, some: seq<Tagged<T>>,
                               all: seq<Tagged<T>>, n: nat)
    requires Picks(stores, b, isForward, t, some, all) && 1 <= n < |some| && n < |all| && some[..n] == all[..n]
    requires Time(all[n - 1].entry) != Time(all[n].entry)
    ensures CleanPage(stores, b, isForward, t, all, n)
  {
    PicksWithin(stores, b, isForward, t, some, all);
    forall j | 0 <= j < n
      ensures all[j] in some
    {
      assert some[..n][j] == all[..n][j];
    }
    var r := BeyondPrefix(some, all, isForward, n, n);
  }

  /** The last page holds all that is left exactly when it is clean. */
  lemma LastPageIff<T(!new)>(stores: seq<seq<Entry<T>>>, b: Bounds, isForward: bool, t: int, some: seq<Tagged<T>>,
                             all: seq<Tagged<T>>, n: nat)
    requires Picks(stores, b, isForward, t, some, all) && n >= 1 && |some| <= n
    ensures some == all <==> CleanPages(stores, b, isForward, t, all, n)
  {
    PicksWithin(stores, b, isForward, t, some, all);
    if CleanPage(stores, b, isForward, t, all, n) {
      CleanPageRead(stores, b, isForward, t, some, all, n);
    }
  }

  // ----- all pages of a client

  /** Behind a page break that splits no tie, the matches left are those behind the cursor's time. */
  lemma MatchesBehind<T(!new)>(stores: seq<seq<Entry<T>>>, b: Bounds, check: T -> bool, isForward: bool, t: int,
                               all: seq<Tagged<T>>, n: nat)
    requires AllMatches(stores, b, check, isForward, t, all) && 1 <= n < |all|
    requires Time(all[n - 1].entry) != Time(all[n].entry)
    ensures AllMatches(stores, b, check, isForward, Time(all[n - 1].entry), all[n..])
  {
    var (u, rest) := (Time(all[n - 1].entry), all[n..]);
    forall i, j | 0 <= i < j < |rest|
      ensures StrictlyBefore(isForward, rest[i], rest[j])
    {
      assert rest[i] == all[n + i] && rest[j] == all[n + j];
    }
    assert StrictlyBefore(isForward, all[n - 1], all[n]);
    assert IsMatchAfter(stores, b, check, isForward, t, all[n - 1]);
    forall x: Tagged<T>
      ensures x in rest <==> IsMatchAfter(stores, b, check, isForward, u, x)
    {
      MatchBehind(stores, b, check, isForward, t, all, n, x);
    }
  }

  lemma MatchBehind<T(!new)>(stores: seq<seq<Entry<T>>>, b: Bounds, check: T -> bool, isForward: bool, t: int,
                             all: seq<Tagged<T>>, n: nat, x: Tagged<T>)
    requires AllMatches(stores, b, check, isForward, t, all) && 1 <= n < |all|
    requires Earlier(isForward, Time(all[n - 1].entry), Time(all[n].entry))
    requires Earlier(isForward, t, Time(all[n - 1].entry))
    ensures x in all[n..] <==> IsMatchAfter(stores, b, check, isForward, Time(all[n - 1].entry), x)
  {
    if x in all[n..] {
      var i :| n <= i < |all| && all[i] == x;
      assert n < i ==> StrictlyBefore(isForward, all[n], all[i]);
      assert IsMatchAfter(stores, b, check, isForward, t, x);
    }
    forall i | 0 <= i < n
      ensures !Earlier(isForward, Time(all[n - 1].entry), Time(all[i].entry))
    {
      assert i < n - 1 ==> StrictlyBefore(isForward, all[i], all[n - 1]);
    }
    if IsMatchAfter(stores, b, check, isForward, Time(all[n - 1].entry), x) {
      assert IsMatchAfter(stores, b, check, isForward, t, x);
      var i :| 0 <= i < |all| && all[i] == x;
      assert all[n..][i - n] == x;
    }
  }

  /** What a page and the pages behind it read is all that is left exactly when the page is clean
      and the pages behind it read what is left behind it. */
  lemma PageAndRestIff<T(!new)>(stores: seq<seq<Entry<T>>>, b: Bounds, check: T -> bool, isForward: bool, t: int,
                                some: seq<Tagged<T>>, all: seq<Tagged<T>>, n: nat, rest: seq<Tagged<T>>)
    requires Picks(stores, b, isForward, t, some, all) && 1 <= n < |some|
    requires ReadsMatches(stores, b, check, isForward, Time(some[n - 1].entry), rest)
    ensures some[..n] + rest == all
       <==> n < |all| && some[..n] == all[..n] && Time(all[n - 1].entry) != Time(all[n].entry) && rest == all[n..]
  {
    if some[..n] + rest == all {
      PicksWithin(stores, b, isForward, t, some, all);
      RestBehind(some, all, rest, isForward, n);
      assert IsMatchAfter(stores, b, check, isForward, Time(some[n - 1].entry), rest[0]);
    }
    if n < |all| && some[..n] == all[..n] && rest == all[n..] {
      assert all == all[..n] + all[n..];
    }
  }

  lemma RestBehind<T>(some: seq<Tagged<T>>, all: seq<Tagged<T>>, rest: seq<Tagged<T>>, isForward: bool, n: nat)
    requires Within(some, all, isForward) && 1 <= n < |some| && some[..n] + rest == all
    ensures n < |all| && some[..n] == all[..n] && rest == all[n..] && rest[0] == all[n] && some[n - 1] == all[n - 1]
  {
    assert some[..n] == all[..n] && rest == all[n..];
    MoreLeft(some, all, isForward, n);
    assert some[..n][n - 1] == all[..n][n - 1];
  }

  lemma MoreLeft<T>(some: seq<Tagged<T>>, all: seq<Tagged<T>>, isForward: bool, n: nat)
    requires Within(some, all, isForward) && n < |some| && n <= |all| && some[..n] == all[..n]
    ensures n < |all|
  {
    var p := BeyondPrefix(some, all, isForward, n, n);
  }

  /** A page with another behind it is clean exactly when it holds the first answers left and its
      break splits no tie. */
  lemma FullPageIff<T(!new)>(stores: seq<seq<Entry<T>>>, b: Bounds, isForward: bool, t: int, some: seq<Tagged<T>>,
                             all: seq<Tagged<T>>, n: nat)
    requires Picks(stores, b, isForward, t, some, all) && 1 <= n < |some|
    ensures CleanPage(stores, b, isForward, t, all, n)
       <==> n < |all| && some[..n] == all[..n] && Time(all[n - 1].entry) != Time(all[n].entry)
  {
    if CleanPage(stores, b, isForward, t, all, n) {
      CleanPageRead(stores, b, isForward, t, some, all, n);
    }
    if n < |all| && some[..n] == all[..n] && Time(all[n - 1].entry) != Time(all[n].entry) {
      ReadPageClean(stores, b, isForward, t, some, all, n);
    }
  }

  /** The pages hold all that is left exactly when all of them are clean. */
  ghost predicate HoldTheRest<T>(stores: seq<seq<Entry<T>>>, b: Bounds, isForward: bool, t: int, all: seq<Tagged<T>>,
                                 n: nat, pages: seq<seq<Tagged<T>>>)
    requires n >= 1
  {
    Flatten(pages) == Shown(isForward, all) <==> CleanPages(stores, b, isForward, t, all, n)
  }

  /** So do the pages of a client behind a cursor. */
  lemma {:induction false} ClientCompleteIff<T(!new)>(stores: seq<seq<Entry<T>>>, b: Bounds, check: T -> bool,
                                                      prefix: Key, size: nat, isForward: bool, cursor: Option<Key>,
                                                      t: int, all: seq<Tagged<T>>)
    requires Sourced(stores, b, prefix) && Fits(stores, b) && CursorAt(b, prefix, isForward, cursor, t)
    requires AllSorted(stores) && AllMatches(stores, b, check, isForward, t, all)
    ensures HoldTheRest(stores, b, isForward, t, all, AtLeastOne(size),
                        ClientPages(stores, b, check, size, isForward, cursor))
    decreases Left(stores, b, isForward, cursor)
  {
    if |Merge(StoreLanes(stores, b, check, isForward, cursor), isForward)| > AtLeastOne(size) {
      var edge := ClientTurn(stores, b, check, prefix, size, isForward, cursor, t);
      if CleanPage(stores, b, isForward, t, all, AtLeastOne(size)) {
        MergePicks(stores, b, check, prefix, isForward, cursor, t, all);
        NextMatches(stores, b, check, isForward, t, Merge(StoreLanes(stores, b, check, isForward, cursor), isForward),
                    all, AtLeastOne(size), edge);
        ClientCompleteIff(stores, b, check, prefix, size, isForward, Some(edge.entry.key), Time(edge.entry),
                          all[AtLeastOne(size)..]);
      }
      ClientTurnIff(stores, b, check, prefix, size, isForward, cursor, t, all, edge);
    } else {
      ClientLastIff(stores, b, check, prefix, size, isForward, cursor, t, all);
    }
  }

  lemma ClientLastIff<T(!new)>(stores: seq<seq<Entry<T>>>, b: Bounds, check: T -> bool, prefix: Key, size: nat,
                               isForward: bool, cursor: Option<Key>, t: int, all: seq<Tagged<T>>)
    requires Sourced(stores, b, prefix) && Fits(stores, b) && CursorAt(b, prefix, isForward, cursor, t)
    requires AllSorted(stores) && AllMatches(stores, b, check, isForward, t, all)
    requires |Merge(StoreLanes(stores, b, check, isForward, cursor), isForward)| <= AtLeastOne(size)
    ensures HoldTheRest(stores, b, isForward, t, all, AtLeastOne(size),
                        ClientPages(stores, b, check, size, isForward, cursor))
  {
    MergePicks(stores, b, check, prefix, isForward, cursor, t, all);
    ClientPagesEnd(stores, b, check, size, isForward, cursor);
    OnePageIff(stores, b, isForward, t, StoreLanes(stores, b, check, isForward, cursor), all, size,
               ClientPages(stores, b, check, size, isForward, cursor));
  }

  /** The record whose key is the next cursor. */
  lemma ClientTurn<T>(stores: seq<seq<Entry<T>>>, b: Bounds, check: T -> bool, prefix: Key, size: nat,
                      isForward: bool, cursor: Option<Key>, t: int) returns (edge: Tagged<T>)
    requires Sourced(stores, b, prefix) && Fits(stores, b) && CursorAt(b, prefix, isForward, cursor, t)
    requires AllSorted(stores)
    requires |Merge(StoreLanes(stores, b, check, isForward, cursor), isForward)| > AtLeastOne(size)
    ensures edge == Merge(StoreLanes(stores, b, check, isForward, cursor), isForward)[AtLeastOne(size) - 1]
    ensures CursorAt(b, prefix, isForward, Some(edge.entry.key), Time(edge.entry))
    ensures Left(stores, b, isForward, Some(edge.entry.key)) < Left(stores, b, isForward, cursor)
    ensures ClientPages(stores, b, check, size, isForward, cursor)
         == WithPage(isForward, PageOfMerge(StoreLanes(stores, b, check, isForward, cursor), size, isForward).edges,
                     ClientPages(stores, b, check, size, isForward, Some(edge.entry.key)))
  {
    edge := ClientPagesStep(stores, b, check, size, isForward, cursor);
    NextCursor(stores, b, prefix, isForward, cursor, t, edge);
  }

  lemma ClientTurnIff<T(!new)>(stores: seq<seq<Entry<T>>>, b: Bounds, check: T -> bool, prefix: Key, size: nat,
                               isForward: bool, cursor: Option<Key>, t: int, all: seq<Tagged<T>>, edge: Tagged<T>)
    requires Sourced(stores, b, prefix) && Fits(stores, b) && CursorAt(b, prefix, isForward, cursor, t)
    requires AllSorted(stores) && AllMatches(stores, b, check, isForward, t, all)
    requires |Merge(StoreLanes(stores, b, check, isForward, cursor), isForward)| > AtLeastOne(size)
    requires edge == Merge(StoreLanes(stores, b, check, isForward, cursor), isForward)[AtLeastOne(size) - 1]
    requires CursorAt(b, prefix, isForward, Some(edge.entry.key), Time(edge.entry))
    requires CleanPage(stores, b, isForward, t, all, AtLeastOne(size)) ==>
              && AtLeastOne(size) < |all| && Time(all[AtLeastOne(size) - 1].entry) == Time(edge.entry)
              && HoldTheRest(stores, b, isForward, Time(edge.entry), all[AtLeastOne(size)..], AtLeastOne(size),
                             ClientPages(stores, b, check, size, isForward, Some(edge.entry.key)))
    ensures HoldTheRest(stores, b, isForward, t, all, AtLeastOne(size),
                        ClientPages(stores, b, check, size, isForward, cursor))
  {
    var again := ClientTurn(stores, b, check, prefix, size, isForward, cursor, t);
    MergePicks(stores, b, check, prefix, isForward, cursor, t, all);
    var rest := ClientReads(stores, b, check, prefix, size, isForward, Some(edge.entry.key), Time(edge.entry));
    MorePagesIff(stores, b, check, isForward, t, StoreLanes(stores, b, check, isForward, cursor), all, size, rest,
                 ClientPages(stores, b, check, size, isForward, cursor),
                 ClientPages(stores, b, check, size, isForward, Some(edge.entry.key)));
  }

  /** One page that reports no more. */
  lemma OnePageIff<T(!new)>(stores: seq<seq<Entry<T>>>, b: Bounds, isForward: bool, t: int,
                            lanes: seq<seq<Entry<T>>>, all: seq<Tagged<T>>, size: nat, pages: seq<seq<Tagged<T>>>)
    requires Picks(stores, b, isForward, t, Merge(lanes, isForward), all)
    requires |Merge(lanes, isForward)| <= AtLeastOne(size) && pages == [Shown(isForward, Merge(lanes, isForward))]
    ensures HoldTheRest(stores, b, isForward, t, all, AtLeastOne(size), pages)
  {
    LastPage(Shown(isForward, Merge(lanes, isForward)));
    ShownSame(isForward, Merge(lanes, isForward), all);
    LastPageIff(stores, b, isForward, t, Merge(lanes, isForward), all, AtLeastOne(size));
  }

  lemma NextMatches<T(!new)>(stores: seq<seq<Entry<T>>>, b: Bounds, check: T -> bool, isForward: bool, t: int,
                             some: seq<Tagged<T>>, all: seq<Tagged<T>>, n: nat, edge: Tagged<T>)
    requires Picks(stores, b, isForward, t, some, all) && AllMatches(stores, b, check, isForward, t, all)
    requires 1 <= n < |some| && edge == some[n - 1] && CleanPage(stores, b, isForward, t, all, n)
    ensures n < |all| && Time(all[n - 1].entry) == Time(edge.entry)
    ensures AllMatches(stores, b, check, isForward, Time(edge.entry), all[n..])
  {
    FullPageIff(stores, b, isForward, t, some, all, n);
    assert some[..n][n - 1] == all[..n][n - 1];
    MatchesBehind(stores, b, check, isForward, t, all, n);
  }

  /** One page that reports more, given what the pages behind it hold. */
  lemma MorePagesIff<T(!new)>(stores: seq<seq<Entry<T>>>, b: Bounds, check: T -> bool, isForward: bool, t: int,
                              lanes: seq<seq<Entry<T>>>, all: seq<Tagged<T>>, size: nat, rest: seq<Tagged<T>>,
                              pages: seq<seq<Tagged<T>>>, others: seq<seq<Tagged<T>>>)
    requires Picks(stores, b, isForward, t, Merge(lanes, isForward), all)
    requires AtLeastOne(size) < |Merge(lanes, isForward)|
    requires ReadsMatches(stores, b, check, isForward, Time(Merge(lanes, isForward)[AtLeastOne(size) - 1].entry), rest)
    requires pages == WithPage(isForward, PageOfMerge(lanes, size, isForward).edges, others)
    requires Flatten(others) == Shown(isForward, rest)
    requires CleanPage(stores, b, isForward, t, all, AtLeastOne(size)) ==>
              && AtLeastOne(size) < |all|
              && Time(all[AtLeastOne(size) - 1].entry) == Time(Merge(lanes, isForward)[AtLeastOne(size) - 1].entry)
              && HoldTheRest(stores, b, isForward, Time(all[AtLeastOne(size) - 1].entry), all[AtLeastOne(size)..],
                             AtLeastOne(size), others)
    ensures HoldTheRest(stores, b, isForward, t, all, AtLeastOne(size), pages)
  {
    var (some, n) := (Merge(lanes, isForward), AtLeastOne(size));
    FlattenWithPage(isForward, some[..n], others, rest);
    ShownSame(isForward, some[..n] + rest, all);
    PageAndRestIff(stores, b, check, isForward, t, some, all, n, rest);
    FullPageIff(stores, b, isForward, t, some, all, n);
    if n < |all| {
      ShownSame(isForward, rest, all[n..]);
    }
  }

  lemma ShownSame<T>(isForward: bool, a: seq<T>, b: seq<T>)
    ensures Shown(isForward, a) == Shown(isForward, b) <==> a == b
  {
    ShownTwice(isForward, a);
    ShownTwice(isForward, b);
  }

  // ----- against the answers of the stores

  lemma {:induction false} HitsKeepOrder<T>(s: seq<Entry<T>>, check: T -> bool, isForward: bool)
    requires LaneOrdered(s, isForward)
    ensures LaneOrdered(Hits(s, check), isForward)
  {
    if s != [] {
      TailAfterHead(s, isForward);
      HitsKeepOrder(s[1..], check, isForward);
      forall i | 0 <= i < |Hits(s[1..], check)|
        ensures Earlier(isForward, Time(s[0]), Time(Hits(s[1..], check)[i]))
      {
        HitsMembers(s[1..], check, Hits(s[1..], check)[i]);
      }
      ConsOrdered(s[0], Hits(s[1..], check), isForward);
    }
  }

  /** The answers of one store in reading order. */
  lemma AnswersOrdered<T>(store: seq<Entry<T>>, q: Query<T>, isForward: bool)
    requires WellFormed(Plain, store) && WellFormedQuery(Plain, q) && WindowIsExact(q.from, q.until)
    ensures LaneOrdered(Shown(isForward, Answers(store, q)), isForward)
  {
    StoreTimed(store, q);
    HitsInBoundsAreAnswers(Plain, store, q);
    ScanOrdered(store, BoundsOf(q), KeyPrefix(q.start, q.mid), true);
    HitsKeepOrder(InBounds(store, BoundsOf(q)), q.check, true);
    TurnedOrder(Answers(store, q), Reverse(Answers(store, q)));
  }

  lemma AnswersAreMatches<T(!new)>(stores: seq<seq<Entry<T>>>, q: Query<T>, isForward: bool)
    requires Serves(stores, q) && WindowIsExact(q.from, q.until)
    ensures AllMatches(stores, BoundsOf(q), q.check, isForward, Outset(isForward),
                       Merge(InReadingOrder(AllAnswers(stores, q), isForward), isForward))
  {
    var lanes := InReadingOrder(AllAnswers(stores, q), isForward);
    forall k | 0 <= k < |lanes|
      ensures LaneOrdered(lanes[k], isForward)
    {
      AnswersOrdered(stores[k], q, isForward);
    }
    MergeStrictlyOrdered(lanes, isForward);
    forall x: Tagged<T>
      ensures x in Merge(lanes, isForward)
         <==> IsMatchAfter(stores, BoundsOf(q), q.check, isForward, Outset(isForward), x)
    {
      MergeMember(lanes, isForward, x);
      if x.lane < |stores| {
        AnswerIsMatch(stores[x.lane], q, isForward, x.entry);
      }
    }
  }

  lemma AnswerIsMatch<T>(store: seq<Entry<T>>, q: Query<T>, isForward: bool, e: Entry<T>)
    requires WellFormed(Plain, store) && WellFormedQuery(Plain, q) && WindowIsExact(q.from, q.until)
    ensures e in Shown(isForward, Answers(store, q))
       <==> e in InBounds(store, BoundsOf(q)) && Hit(q.check, e) && Earlier(isForward, Outset(isForward), Time(e))
  {
    StoreTimed(store, q);
    HitsInBoundsAreAnswers(Plain, store, q);
    HitsMembers(InBounds(store, BoundsOf(q)), q.check, e);
    ShownMembers(isForward, Answers(store, q), e);
    if e in InBounds(store, BoundsOf(q)) {
      EntryIsTimed(store, BoundsOf(q), KeyPrefix(q.start, q.mid), e);
    }
  }

  /** For any stores, readable or not, any page size and either direction: the pages of a client
      hold every answer of every store exactly when every page of `n` answers is clean. A page size
      of zero reads pages of one. */
  lemma MultiStorePagingExactlyIff<T(!new)>(stores: seq<seq<Entry<T>>>, q: Query<T>, size: nat, isForward: bool, n: nat)
    requires Serves(stores, q) && WindowIsExact(q.from, q.until)
    requires n >= 1 && (size == n || (size == 0 && n == 1))
    ensures AllSorted(stores)
    ensures PagesHoldAll(stores, q, size, isForward)
       <==> CleanPages(stores, BoundsOf(q), isForward, Outset(isForward),
                       Merge(InReadingOrder(AllAnswers(stores, q), isForward), isForward), n)
  {
    ServedStoresAreSourced(stores, q);
    ServedStoresFit(stores, q);
    AnswersAreMatches(stores, q, isForward);
    ClientCompleteIff(stores, BoundsOf(q), q.check, KeyPrefix(q.start, q.mid), size, isForward, None, Outset(isForward),
                      Merge(InReadingOrder(AllAnswers(stores, q), isForward), isForward));
  }
}
