/**
 `gen_statistics`: the descending merge of per-core statistics with totals per event kind,
 over two vectors that shrink together.
 */
module Statistics {
  import opened Wrappers
  import opened Sequences
  import opened Bytes
  import opened StorageKeys
  import opened EventStore

  const U64: nat := 0x1_0000_0000_0000_0000

  /** The kinds a statistics query may ask for; any other kind is `Other`. */
  datatype RawEventKind =
    | Conn | Dns | Rdp | Http | Smtp | Ntlm | Kerberos | Ssh | DceRpc | Ftp | Mqtt | Ldap | Tls | Smb | Nfs
    | StatisticsKind
    | Other(code: nat)

  datatype Record = Record(kind: RawEventKind, count: nat, size: nat)

  /** The value of a statistics record. */
  datatype CoreStatistics = CoreStatistics(period: nat, stats: seq<Record>)

  /** One statistics record: the timestamp its key ends in, read as an unsigned number, which is
      how the loop compares it, and its value. */
  datatype Sample = Sample(timestamp: nat, period: nat, stats: seq<Record>)

  datatype Totals = Totals(count: nat, size: nat)

  /** The totals of one timestamp and the period they are divided by. */
  datatype Info = Info(timestamp: nat, period: nat, totals: map<RawEventKind, Totals>)

  type Lane = seq<Sample>

  /** What successive polls of an iterator answer: a record, or nothing for a record that does
      not deserialize, which the poll consumes. After the last, polls answer nothing for ever. */
  type Polls = seq<Option<Sample>>

  predicate Yields(polls: Polls) {
    polls != [] && polls[0].Some?
  }

  /** What the iterator yields before it first answers nothing. */
  function Readable(polls: Polls): Lane {
    if Yields(polls) then [polls[0].value] + Readable(polls[1..]) else []
  }

  function ReadableAll(iters: seq<Polls>): (r: seq<Lane>)
    ensures |r| == |iters|
    ensures forall k {:trigger r[k]} :: 0 <= k < |iters| ==> r[k] == Readable(iters[k])
  {
    if iters == [] then [] else [Readable(iters[0])] + ReadableAll(iters[1..])
  }

  // ----- adding up

  function Plus64(a: nat, b: nat): nat {
    (a + b) % U64
  }

  function AddRecord(acc: map<RawEventKind, Totals>, r: Record, kinds: set<RawEventKind>): map<RawEventKind, Totals> {
    if r.kind !in kinds then acc
    else if r.kind in acc then
      acc[r.kind := Totals(Plus64(acc[r.kind].count, r.count), Plus64(acc[r.kind].size, r.size))]
    else acc[r.kind := Totals(r.count % U64, r.size % U64)]
  }

  function AddRecords(acc: map<RawEventKind, Totals>, records: seq<Record>,
                      kinds: set<RawEventKind>): map<RawEventKind, Totals>
    decreases records
  {
    if records == [] then acc else AddRecords(AddRecord(acc, records[0], kinds), records[1..], kinds)
  }

  /** The records of all heads at one timestamp, added up lane by lane. */
  function AddHeads(acc: map<RawEventKind, Totals>, heads: seq<Sample>, ts: nat,
                    kinds: set<RawEventKind>): map<RawEventKind, Totals>
    decreases heads
  {
    if heads == [] then acc
    else AddHeads(if heads[0].timestamp == ts then AddRecords(acc, heads[0].stats, kinds) else acc, heads[1..], ts,
                  kinds)
  }

  // ----- the merge as a function of the lanes

  predicate NonEmpty(lanes: seq<Lane>) {
    forall k :: 0 <= k < |lanes| ==> lanes[k] != []
  }

  function Heads(lanes: seq<Lane>): (r: seq<Sample>)
    requires NonEmpty(lanes)
    ensures |r| == |lanes|
    ensures forall k :: 0 <= k < |lanes| ==> r[k] == lanes[k][0]
  {
    if lanes == [] then [] else [lanes[0][0]] + Heads(lanes[1..])
  }

  /** The position of the latest sample; the last one among equals. */
  function LatestIndex(heads: seq<Sample>): (k: nat)
    requires heads != []
    ensures k < |heads|
    ensures forall i :: 0 <= i < |heads| ==> heads[i].timestamp <= heads[k].timestamp
    ensures forall i :: k < i < |heads| ==> heads[i].timestamp < heads[k].timestamp
  {
    if |heads| == 1 then 0
    else
      var k := LatestIndex(heads[1..]);
      if heads[1..][k].timestamp >= heads[0].timestamp then k + 1 else 0
  }

  /** Each lane without its head if that head has the timestamp; exhausted lanes are removed. */
  function DropAt(lanes: seq<Lane>, ts: nat): (r: seq<Lane>)
    requires NonEmpty(lanes)
    ensures NonEmpty(r)
  {
    if lanes == [] then []
    else
      var lane := if lanes[0][0].timestamp == ts then lanes[0][1..] else lanes[0];
      (if lane == [] then [] else [lane]) + DropAt(lanes[1..], ts)
  }

  lemma {:induction false} DropAtShrinks(lanes: seq<Lane>, ts: nat)
    requires NonEmpty(lanes)
    ensures Total(DropAt(lanes, ts)) <= Total(lanes)
    ensures (exists k :: 0 <= k < |lanes| && lanes[k][0].timestamp == ts) ==> Total(DropAt(lanes, ts)) < Total(lanes)
  {
    if lanes != [] {
      DropAtShrinks(lanes[1..], ts);
      var lane := if lanes[0][0].timestamp == ts then lanes[0][1..] else lanes[0];
      assert DropAt(lanes, ts)[if lane == [] then 0 else 1..] == DropAt(lanes[1..], ts);
      assert Total(DropAt(lanes, ts)) == |lane| + Total(DropAt(lanes[1..], ts));
      if k :| 0 <= k < |lanes| && lanes[k][0].timestamp == ts {
        assert k > 0 ==> lanes[1..][k - 1][0].timestamp == ts;
      }
    }
  }

  /** The latest time among the values at hand, and its entry. */
  function LatestTime(heads: seq<Sample>): nat
    requires heads != []
  {
    heads[LatestIndex(heads)].timestamp
  }

  function InfoOf(heads: seq<Sample>, kinds: set<RawEventKind>): Info
    requires heads != []
  {
    var latest := heads[LatestIndex(heads)];
    Info(latest.timestamp, latest.period, AddHeads(map[], heads, latest.timestamp, kinds))
  }

  function InfoAt(lanes: seq<Lane>, kinds: set<RawEventKind>): Info
    requires NonEmpty(lanes) && lanes != []
  {
    InfoOf(Heads(lanes), kinds)
  }

  /** One entry per timestamp, latest first. */
  function Full(lanes: seq<Lane>, kinds: set<RawEventKind>): seq<Info>
    requires NonEmpty(lanes)
    decreases Total(lanes)
  {
    if lanes == [] then []
    else
      var ts := InfoAt(lanes, kinds).timestamp;
      DropAtShrinks(lanes, ts);
      [InfoAt(lanes, kinds)] + Full(DropAt(lanes, ts), kinds)
  }

  // ----- the two vectors

  /** The positions below n whose sample has the timestamp, ascending. */
  function Candidates(next: seq<Sample>, ts: nat, n: nat): seq<nat>
    requires n <= |next|
  {
    if n == 0 then []
    else Candidates(next, ts, n - 1) + if next[n - 1].timestamp == ts then [n - 1] else []
  }

  lemma {:induction false} LastCandidate(next: seq<Sample>, ts: nat, n: nat)
    requires n <= |next|
    ensures var c := Candidates(next, ts, n);
            if c == [] then forall i :: 0 <= i < n ==> next[i].timestamp != ts
            else
              && var k := c[|c| - 1];
              && k < n && next[k].timestamp == ts && c[..|c| - 1] == Candidates(next, ts, k)
              && forall i :: k < i < n ==> next[i].timestamp != ts
  {
    if n > 0 {
      var before := Candidates(next, ts, n - 1);
      if next[n - 1].timestamp == ts {
        assert Candidates(next, ts, n) == before + [n - 1];
        assert (before + [n - 1])[..|before|] == before;
      } else {
        assert Candidates(next, ts, n) == before + [] == before;
        LastCandidate(next, ts, n - 1);
      }
    }
  }

  /** The values after one advance at the given time: where it matches, the iterator at the same
      index supplies the next value, or the entry goes. */
  function AdvanceNext(next: seq<Sample>, iters: seq<Polls>, ts: nat): seq<Sample>
    requires |next| <= |iters|
  {
    if next == [] then []
    else (if next[0].timestamp != ts then [next[0]] else if Yields(iters[0]) then [iters[0][0].value] else [])
         + AdvanceNext(next[1..], iters[1..], ts)
  }

  /** The iterators after that advance; those past the last value are not touched. */
  function AdvanceIters(next: seq<Sample>, iters: seq<Polls>, ts: nat): seq<Polls>
    requires |next| <= |iters|
  {
    if next == [] then iters
    else (if next[0].timestamp != ts then [iters[0]] else if Yields(iters[0]) then [iters[0][1..]] else [])
         + AdvanceIters(next[1..], iters[1..], ts)
  }

  lemma {:induction false} AdvanceShrinks(next: seq<Sample>, iters: seq<Polls>, ts: nat)
    requires |next| <= |iters|
    ensures |AdvanceNext(next, iters, ts)| <= |AdvanceIters(next, iters, ts)|
    ensures |AdvanceNext(next, iters, ts)| + Total(AdvanceIters(next, iters, ts))
         <= |next| + Total(iters) - if Candidates(next, ts, |next|) == [] then 0 else 1
  {
    if next != [] {
      AdvanceShrinks(next[1..], iters[1..], ts);
      TotalConcat(if next[0].timestamp != ts then [iters[0]] else if Yields(iters[0]) then [iters[0][1..]] else [],
                  AdvanceIters(next[1..], iters[1..], ts));
      CandidatesOfTail(next, ts);
    }
  }

  lemma CandidatesOfTail(next: seq<Sample>, ts: nat)
    requires next != []
    ensures Candidates(next, ts, |next|) == []
       <==> next[0].timestamp != ts && Candidates(next[1..], ts, |next| - 1) == []
  {
    LastCandidate(next, ts, |next|);
    LastCandidate(next[1..], ts, |next| - 1);
    assert forall i {:trigger next[i]} :: 0 < i < |next| ==> next[i] == next[1..][i - 1];
    var c := Candidates(next[1..], ts, |next| - 1);
    if c != [] {
      assert next[c[|c| - 1] + 1].timestamp == ts;
    }
  }

  /** On aligned vectors an advance drops the heads of that time. */
  lemma {:induction false} AlignedAdvance(next: seq<Sample>, iters: seq<Polls>, ts: nat)
    requires |next| == |iters|
    ensures |AdvanceNext(next, iters, ts)| == |AdvanceIters(next, iters, ts)|
    ensures Zip(AdvanceNext(next, iters, ts), ReadableAll(AdvanceIters(next, iters, ts)))
         == DropAt(Zip(next, ReadableAll(iters)), ts)
  {
    if next != [] {
      AlignedAdvance(next[1..], iters[1..], ts);
      var (moreNext, moreIters) := (AdvanceNext(next[1..], iters[1..], ts), AdvanceIters(next[1..], iters[1..], ts));
      assert ReadableAll(iters)[1..] == ReadableAll(iters[1..]);
      if next[0].timestamp != ts {
        ZipCons(next[0], iters[0], moreNext, moreIters);
      } else if Yields(iters[0]) {
        ZipCons(iters[0][0].value, iters[0][1..], moreNext, moreIters);
      } else {
        assert [] + moreNext == moreNext && [] + moreIters == moreIters;
      }
    }
  }

  lemma ZipCons(value: Sample, iter: Polls, next: seq<Sample>, iters: seq<Polls>)
    requires |next| == |iters|
    ensures Zip([value] + next, ReadableAll([iter] + iters))
         == [[value] + Readable(iter)] + Zip(next, ReadableAll(iters))
  {
    assert ([iter] + iters)[1..] == iters;
    assert ([value] + next)[1..] == next;
    assert ReadableAll([iter] + iters)[1..] == ReadableAll(iters);
  }

  /** What becomes of each position, also on vectors that are not aligned: a value of another time
      stays with its iterator; one of that time gives way to the next value of the iterator at its
      index, or both go. */
  lemma AdvanceAt(next: seq<Sample>, iters: seq<Polls>, ts: nat, k: nat)
    requires k < |next| <= |iters|
    ensures var (frontNext, backNext) := (AdvanceNext(next[..k], iters[..k], ts),
                                          AdvanceNext(next[k + 1..], iters[k + 1..], ts));
            var (frontIters, backIters) := (AdvanceIters(next[..k], iters[..k], ts),
                                            AdvanceIters(next[k + 1..], iters[k + 1..], ts));
            var (values, polls) := (AdvanceNext(next, iters, ts), AdvanceIters(next, iters, ts));
            if next[k].timestamp != ts then
              values == frontNext + [next[k]] + backNext && polls == frontIters + [iters[k]] + backIters
            else if iters[k] != [] && iters[k][0].Some? then
              values == frontNext + [iters[k][0].value] + backNext && polls == frontIters + [iters[k][1..]] + backIters
            else
              values == frontNext + backNext && polls == frontIters + backIters
  {
    AdvanceSplit(next, iters, ts, k);
    AdvanceFirst(next[k..], iters[k..], AdvanceNext(next[..k], iters[..k], ts), AdvanceIters(next[..k], iters[..k], ts),
                 ts);
    assert next[k..][1..] == next[k + 1..] && iters[k..][1..] == iters[k + 1..];
  }

  lemma AdvanceSplit(next: seq<Sample>, iters: seq<Polls>, ts: nat, k: nat)
    requires k <= |next| <= |iters|
    ensures AdvanceNext(next, iters, ts)
         == AdvanceNext(next[..k], iters[..k], ts) + AdvanceNext(next[k..], iters[k..], ts)
    ensures AdvanceIters(next, iters, ts)
         == AdvanceIters(next[..k], iters[..k], ts) + AdvanceIters(next[k..], iters[k..], ts)
  {
    AdvanceConcat(next[..k], iters[..k], next[k..], iters[k..], ts);
    assert next == next[..k] + next[k..] && iters == iters[..k] + iters[k..];
  }

  lemma AdvanceFirst(next: seq<Sample>, iters: seq<Polls>, front: seq<Sample>, frontIters: seq<Polls>, ts: nat)
    requires 0 < |next| <= |iters|
    ensures var (moreNext, moreIters) := (AdvanceNext(next[1..], iters[1..], ts),
                                          AdvanceIters(next[1..], iters[1..], ts));
            var (values, polls) := (front + AdvanceNext(next, iters, ts), frontIters + AdvanceIters(next, iters, ts));
            if next[0].timestamp != ts then
              values == front + [next[0]] + moreNext && polls == frontIters + [iters[0]] + moreIters
            else if Yields(iters[0]) then
              values == front + [iters[0][0].value] + moreNext && polls == frontIters + [iters[0][1..]] + moreIters
            else
              values == front + moreNext && polls == frontIters + moreIters
  {
    var (moreNext, moreIters) := (AdvanceNext(next[1..], iters[1..], ts), AdvanceIters(next[1..], iters[1..], ts));
    if next[0].timestamp != ts {
      Reassociate(front, [next[0]], moreNext);
      Reassociate(frontIters, [iters[0]], moreIters);
    } else if Yields(iters[0]) {
      Reassociate(front, [iters[0][0].value], moreNext);
      Reassociate(frontIters, [iters[0][1..]], moreIters);
    } else {
      assert [] + moreNext == moreNext && [] + moreIters == moreIters;
    }
  }

  /** The iterators past the last value stay as they are, behind the others. */
  lemma AdvanceKeepsTail(next: seq<Sample>, iters: seq<Polls>, ts: nat)
    requires |next| <= |iters|
    ensures AdvanceIters(next, iters, ts) == AdvanceIters(next, iters[..|next|], ts) + iters[|next|..]
    ensures AdvanceNext(next, iters, ts) == AdvanceNext(next, iters[..|next|], ts)
  {
    AdvanceSplit(next, iters, ts, |next|);
    assert next[..|next|] == next && next[|next|..] == [];
  }

  lemma {:induction false} AdvanceConcat(a: seq<Sample>, aIters: seq<Polls>, b: seq<Sample>, bIters: seq<Polls>,
                                         ts: nat)
    requires |a| == |aIters| && |b| <= |bIters|
    ensures AdvanceNext(a + b, aIters + bIters, ts) == AdvanceNext(a, aIters, ts) + AdvanceNext(b, bIters, ts)
    ensures AdvanceIters(a + b, aIters + bIters, ts) == AdvanceIters(a, aIters, ts) + AdvanceIters(b, bIters, ts)
  {
    if a == [] {
      assert a + b == b && aIters + bIters == bIters;
    } else {
      AdvanceConcat(a[1..], aIters[1..], b, bIters, ts);
      var (frontNext, backNext) := (AdvanceNext(a[1..], aIters[1..], ts), AdvanceNext(b, bIters, ts));
      var (frontIters, backIters) := (AdvanceIters(a[1..], aIters[1..], ts), AdvanceIters(b, bIters, ts));
      assert (a + b)[1..] == a[1..] + b && (aIters + bIters)[1..] == aIters[1..] + bIters;
      AdvanceCons(a + b, aIters + bIters, frontNext + backNext, frontIters + backIters, ts);
      AdvanceCons(a, aIters, frontNext, frontIters, ts);
      var (next, iters) := AdvancePiece(a[0], aIters[0], ts);
      Reassociate(next, frontNext, backNext);
      Reassociate(iters, frontIters, backIters);
    }
  }

  /** What becomes of one position. */
  function AdvancePiece(sample: Sample, iter: Polls, ts: nat): (seq<Sample>, seq<Polls>) {
    if sample.timestamp != ts then ([sample], [iter])
    else if Yields(iter) then ([iter[0].value], [iter[1..]]) else ([], [])
  }

  lemma AdvanceCons(next: seq<Sample>, iters: seq<Polls>, moreNext: seq<Sample>, moreIters: seq<Polls>, ts: nat)
    requires 0 < |next| <= |iters|
    requires moreNext == AdvanceNext(next[1..], iters[1..], ts) && moreIters == AdvanceIters(next[1..], iters[1..], ts)
    ensures AdvanceNext(next, iters, ts) == AdvancePiece(next[0], iters[0], ts).0 + moreNext
    ensures AdvanceIters(next, iters, ts) == AdvancePiece(next[0], iters[0], ts).1 + moreIters
  {
  }

  /** Positions with another time are not touched. */
  lemma {:induction false} AdvanceSkips(next: seq<Sample>, iters: seq<Polls>, ts: nat, k: nat, n: nat)
    requires |next| <= |iters| && k <= n <= |next|
    requires forall i :: k <= i < n ==> next[i].timestamp != ts
    ensures next[..k] + AdvanceNext(next[k..], iters[k..], ts) == next[..n] + AdvanceNext(next[n..], iters[n..], ts)
    ensures iters[..k] + AdvanceIters(next[k..], iters[k..], ts) == iters[..n] + AdvanceIters(next[n..], iters[n..], ts)
    decreases n - k
  {
    if k < n {
      AdvanceSkips(next, iters, ts, k + 1, n);
      assert next[k..][1..] == next[k + 1..] && iters[k..][1..] == iters[k + 1..];
      assert next[..k + 1] == next[..k] + [next[k]] && iters[..k + 1] == iters[..k] + [iters[k]];
      Reassociate(next[..k], [next[k]], AdvanceNext(next[k + 1..], iters[k + 1..], ts));
      Reassociate(iters[..k], [iters[k]], AdvanceIters(next[k + 1..], iters[k + 1..], ts));
    }
  }

  /** The chosen positions from n on are done; everything below is untouched. */
  ghost predicate Advanced(next: seq<Sample>, iters: seq<Polls>, next0: seq<Sample>, iters0: seq<Polls>, ts: nat,
                           n: nat)
    requires |next0| <= |iters0|
  {
    && n <= |next0|
    && next == next0[..n] + AdvanceNext(next0[n..], iters0[n..], ts)
    && iters == iters0[..n] + AdvanceIters(next0[n..], iters0[n..], ts)
  }

  /** Replaces one position by the iterator's next value, or removes it from both vectors. */
  method ReplaceAt(next: seq<Sample>, iters: seq<Polls>, idx: nat) returns (next': seq<Sample>, iters': seq<Polls>)
    requires idx < |next| <= |iters|
    ensures if Yields(iters[idx]) then
              next' == next[idx := iters[idx][0].value] && iters' == iters[idx := iters[idx][1..]]
            else next' == next[..idx] + next[idx + 1..] && iters' == iters[..idx] + iters[idx + 1..]
  {
    if Yields(iters[idx]) {
      next' := next[idx := iters[idx][0].value];
      iters' := iters[idx := iters[idx][1..]];
    } else {
      iters' := iters[..idx] + iters[idx + 1..];
      next' := next[..idx] + next[idx + 1..];
    }
  }

  /** Replacing or removing the element behind a common prefix. */
  lemma ReplaceBehind<T>(front: seq<T>, x: T, back: seq<T>, s: seq<T>, y: T)
    requires s == front + [x] + back
    ensures s[|front| := y] == front + ([y] + back)
    ensures s[..|front|] + s[|front| + 1..] == front + ([] + back)
    ensures s[|front|] == x
  {
  }

  lemma AdvancedStep(next: seq<Sample>, iters: seq<Polls>, next0: seq<Sample>, iters0: seq<Polls>, ts: nat, n: nat,
                     idx: nat, next': seq<Sample>, iters': seq<Polls>)
    requires |next0| <= |iters0| && Advanced(next, iters, next0, iters0, ts, n) && idx < n
    requires next0[idx].timestamp == ts && forall i :: idx < i < n ==> next0[i].timestamp != ts
    requires idx < |next| <= |iters|
    requires if Yields(iters[idx]) then
              next' == next[idx := iters[idx][0].value] && iters' == iters[idx := iters[idx][1..]]
             else next' == next[..idx] + next[idx + 1..] && iters' == iters[..idx] + iters[idx + 1..]
    ensures Advanced(next', iters', next0, iters0, ts, idx)
  {
    AdvanceSkips(next0, iters0, ts, idx + 1, n);
    var (moreNext, moreIters) := (AdvanceNext(next0[idx + 1..], iters0[idx + 1..], ts),
                                  AdvanceIters(next0[idx + 1..], iters0[idx + 1..], ts));
    assert next0[..idx + 1] == next0[..idx] + [next0[idx]] && iters0[..idx + 1] == iters0[..idx] + [iters0[idx]];
    var (value, rest) := (if Yields(iters0[idx]) then iters0[idx][0].value else next0[idx],
                          if Yields(iters0[idx]) then iters0[idx][1..] else []);
    ReplaceBehind(next0[..idx], next0[idx], moreNext, next, value);
    ReplaceBehind(iters0[..idx], iters0[idx], moreIters, iters, rest);
    assert next0[idx..][1..] == next0[idx + 1..] && iters0[idx..][1..] == iters0[idx + 1..];
  }

  /** Advances the chosen iterators, from the highest index down, removing exhausted ones
      from both vectors. */
  method AdvanceChosen(next0: seq<Sample>, iters0: seq<Polls>, chosen: seq<nat>, ghost ts: nat)
    returns (next: seq<Sample>, iters: seq<Polls>)
    requires |next0| <= |iters0| && chosen == Candidates(next0, ts, |next0|)
    ensures next == AdvanceNext(next0, iters0, ts) && iters == AdvanceIters(next0, iters0, ts)
  {
    next, iters := next0, iters0;
    var j := |chosen|;
    ghost var n: nat := |next0|;
    AdvancedStart(next0, iters0, chosen, ts);
    while j > 0
      invariant 0 <= j <= |chosen|
      invariant Advanced(next, iters, next0, iters0, ts, n) && chosen[..j] == Candidates(next0, ts, n)
    {
      var idx := chosen[j - 1];
      ChosenInRange(next, iters, next0, iters0, chosen, ts, j, n);
      ghost var (before, rest) := (next, iters);
      next, iters := ReplaceAt(next, iters, idx);
      AdvancedStep(before, rest, next0, iters0, ts, n, idx, next, iters);
      n := idx;
      j := j - 1;
    }
    LastCandidate(next0, ts, n);
    AdvanceSkips(next0, iters0, ts, 0, n);
    assert next0[0..] == next0 && iters0[0..] == iters0;
  }

  lemma AdvancedStart(next: seq<Sample>, iters: seq<Polls>, chosen: seq<nat>, ts: nat)
    requires |next| <= |iters| && chosen == Candidates(next, ts, |next|)
    ensures Advanced(next, iters, next, iters, ts, |next|) && chosen[..|chosen|] == Candidates(next, ts, |next|)
  {
    assert next[|next|..] == [] && next[..|next|] == next;
    assert iters[..|next|] + iters[|next|..] == iters;
  }

  lemma ChosenInRange(next: seq<Sample>, iters: seq<Polls>, next0: seq<Sample>, iters0: seq<Polls>, chosen: seq<nat>,
                      ts: nat, j: nat, n: nat)
    requires |next0| <= |iters0| && Advanced(next, iters, next0, iters0, ts, n)
    requires 0 < j <= |chosen| && chosen[..j] == Candidates(next0, ts, n)
    ensures var idx := chosen[j - 1];
            && idx < n && idx < |next| <= |iters| && next0[idx].timestamp == ts
            && (forall i :: idx < i < n ==> next0[i].timestamp != ts)
            && chosen[..j - 1] == Candidates(next0, ts, idx)
  {
    LastCandidate(next0, ts, n);
    AdvanceShrinks(next0[n..], iters0[n..], ts);
    assert chosen[..j][j - 1] == chosen[j - 1] && chosen[..j][..j - 1] == chosen[..j - 1];
  }

  // ----- the query loop

  /** The cores that have at least one record. */
  function FreshLanes(cores: seq<Lane>): (r: seq<Lane>)
    ensures NonEmpty(r)
  {
    if cores == [] then [] else (if cores[0] != [] then [cores[0]] else []) + FreshLanes(cores[1..])
  }

  /** Every iterator after one poll. */
  function PolledOnce(iters: seq<Polls>): (r: seq<Polls>)
    ensures |r| == |iters|
    ensures forall k {:trigger r[k]} :: 0 <= k < |iters| ==> r[k] == if iters[k] == [] then [] else iters[k][1..]
  {
    if iters == [] then [] else [if iters[0] == [] then [] else iters[0][1..]] + PolledOnce(iters[1..])
  }

  lemma {:induction false} FreshConcat(a: seq<Lane>, b: seq<Lane>)
    ensures FreshLanes(a + b) == FreshLanes(a) + FreshLanes(b)
  {
    if a == [] {
      assert a + b == b;
    } else {
      assert (a + b)[1..] == a[1..] + b;
      FreshConcat(a[1..], b);
      Reassociate(if a[0] != [] then [a[0]] else [], FreshLanes(a[1..]), FreshLanes(b));
    }
  }

  lemma {:induction false} AllFresh(lanes: seq<Lane>)
    requires NonEmpty(lanes)
    ensures FreshLanes(lanes) == lanes
  {
    if lanes != [] {
      AllFresh(lanes[1..]);
    }
  }

  lemma {:induction false} FreshSize(lanes: seq<Lane>)
    ensures |FreshLanes(lanes)| <= |lanes|
  {
    if lanes != [] {
      FreshSize(lanes[1..]);
    }
  }

  /** Takes the first value of every iterator that has one; the others stay in the vector. */
  method FirstValues(iters0: seq<Polls>) returns (next: seq<Sample>, iters: seq<Polls>)
    ensures next == Heads(FreshLanes(ReadableAll(iters0))) && iters == PolledOnce(iters0)
    ensures |next| <= |iters|
  {
    next, iters := [], [];
    for k := 0 to |iters0|
      invariant next == Heads(FreshLanes(ReadableAll(iters0[..k]))) && iters == PolledOnce(iters0[..k])
    {
      var iter := iters0[k];
      FirstOneMore(iters0, k);
      iters := iters + [if iter == [] then [] else iter[1..]];
      if Yields(iter) {
        next := next + [iter[0].value];
      }
    }
    assert iters0[..|iters0|] == iters0;
    FreshSize(ReadableAll(iters0));
  }

  lemma {:induction false} HeadsConcat(a: seq<Lane>, b: seq<Lane>)
    requires NonEmpty(a) && NonEmpty(b)
    ensures NonEmpty(a + b) && Heads(a + b) == Heads(a) + Heads(b)
  {
    var (all, parts) := (Heads(a + b), Heads(a) + Heads(b));
    forall k | 0 <= k < |all|
      ensures all[k] == parts[k]
    {
      assert all[k] == (a + b)[k][0];
    }
  }

  lemma ReadableConcat(a: seq<Polls>, b: seq<Polls>)
    ensures ReadableAll(a + b) == ReadableAll(a) + ReadableAll(b)
  {
    var (all, parts) := (ReadableAll(a + b), ReadableAll(a) + ReadableAll(b));
    forall k | 0 <= k < |all|
      ensures all[k] == parts[k]
    {
      assert all[k] == Readable((a + b)[k]);
    }
  }

  lemma FirstOneMore(iters: seq<Polls>, k: nat)
    requires k < |iters|
    ensures var (lanes, more) := (FreshLanes(ReadableAll(iters[..k])), FreshLanes(ReadableAll(iters[..k + 1])));
            Heads(more) == Heads(lanes) + if Yields(iters[k]) then [iters[k][0].value] else []
    ensures PolledOnce(iters[..k + 1]) == PolledOnce(iters[..k]) + [if iters[k] == [] then [] else iters[k][1..]]
  {
    assert iters[..k + 1] == iters[..k] + [iters[k]];
    ReadableConcat(iters[..k], [iters[k]]);
    var one := ReadableAll([iters[k]]);
    assert one == [Readable(iters[k])] && one[1..] == [];
    FreshConcat(ReadableAll(iters[..k]), one);
    assert FreshLanes(one) == if Yields(iters[k]) then one else [];
    HeadsConcat(FreshLanes(ReadableAll(iters[..k])), FreshLanes(one));
    assert Heads(FreshLanes(one)) == if Yields(iters[k]) then [iters[k][0].value] else [];
  }

  /** When every iterator yields, the two vectors are aligned and stand for all its records. */
  lemma AlignedFirst(iters0: seq<Polls>)
    requires NonEmpty(ReadableAll(iters0))
    ensures var next := Heads(FreshLanes(ReadableAll(iters0)));
            |next| == |iters0| && Zip(next, ReadableAll(PolledOnce(iters0))) == ReadableAll(iters0)
  {
    AllFresh(ReadableAll(iters0));
    var (lanes, next) := (ReadableAll(iters0), Heads(FreshLanes(ReadableAll(iters0))));
    var zipped := Zip(next, ReadableAll(PolledOnce(iters0)));
    forall k | 0 <= k < |lanes|
      ensures zipped[k] == lanes[k]
    {
      assert lanes[k] == Readable(iters0[k]) && lanes[k] != [];
      assert PolledOnce(iters0)[k] == iters0[k][1..];
      assert zipped[k] == [next[k]] + Readable(iters0[k][1..]);
    }
  }

  /** Adds up the statistics of the given time and notes which positions they came from. */
  method CollectTotals(next: seq<Sample>, ts: nat, kinds: set<RawEventKind>)
    returns (totals: map<RawEventKind, Totals>, chosen: seq<nat>)
    ensures totals == AddHeads(map[], next, ts, kinds)
    ensures chosen == Candidates(next, ts, |next|)
  {
    totals, chosen := map[], [];
    for idx := 0 to |next|
      invariant AddHeads(totals, next[idx..], ts, kinds) == AddHeads(map[], next, ts, kinds)
      invariant chosen == Candidates(next, ts, idx)
    {
      var value := next[idx];
      assert next[idx..][1..] == next[idx + 1..];
      if value.timestamp == ts {
        ghost var before := totals;
        for i := 0 to |value.stats|
          invariant AddRecords(totals, value.stats[i..], kinds) == AddRecords(before, value.stats, kinds)
        {
          var r := value.stats[i];
          assert value.stats[i..][1..] == value.stats[i + 1..];
          if r.kind in kinds {
            if r.kind in totals {
              totals := totals[r.kind := Totals(Plus64(totals[r.kind].count, r.count),
                                                Plus64(totals[r.kind].size, r.size))];
            } else {
              totals := totals[r.kind := Totals(r.count % U64, r.size % U64)];
            }
          }
        }
        chosen := chosen + [idx];
      }
    }
  }

  /** The latest sample, scanning as `max_by_key` does: a later equal one replaces it. */
  method FindLatest(next: seq<Sample>) returns (k: nat)
    requires next != []
    ensures k == LatestIndex(next)
  {
    k := 0;
    for i := 1 to |next|
      invariant k < i
      invariant forall j :: 0 <= j < i ==> next[j].timestamp <= next[k].timestamp
      invariant forall j :: k < j < i ==> next[j].timestamp < next[k].timestamp
    {
      if next[i].timestamp >= next[k].timestamp {
        k := i;
      }
    }
  }

  lemma {:induction false} CandidateOf(next: seq<Sample>, ts: nat, n: nat, k: nat)
    requires k < n <= |next| && next[k].timestamp == ts
    ensures Candidates(next, ts, n) != []
  {
    if k < n - 1 {
      CandidateOf(next, ts, n - 1, k);
    }
  }

  /** The answer without a time range: the latest time the iterators yield first. */
  function LatestAnswer(iters: seq<Polls>, kinds: set<RawEventKind>): seq<Info> {
    var lanes := FreshLanes(ReadableAll(iters));
    if lanes == [] then [] else [InfoAt(lanes, kinds)]
  }

  /** The iterators such a call leaves in the vector. The value at an index came from the
      iterator at that index only as long as no iterator before it was exhausted. */
  function LeftOver(iters: seq<Polls>): seq<Polls> {
    var lanes := FreshLanes(ReadableAll(iters));
    FreshSize(ReadableAll(iters));
    if lanes == [] then PolledOnce(iters)
    else AdvanceIters(Heads(lanes), PolledOnce(iters), LatestTime(Heads(lanes)))
  }

  /** One round: the entry of the latest time, and the advance past it. */
  method OneRound(next: seq<Sample>, iters: seq<Polls>, kinds: set<RawEventKind>)
    returns (info: Info, next': seq<Sample>, iters': seq<Polls>)
    requires next != [] && |next| <= |iters|
    ensures info == InfoOf(next, kinds)
    ensures next' == AdvanceNext(next, iters, info.timestamp) && iters' == AdvanceIters(next, iters, info.timestamp)
    ensures |next'| <= |iters'| && |next'| + Total(iters') < |next| + Total(iters)
  {
    var k := FindLatest(next);
    var ts := next[k].timestamp;
    var totals, chosen := CollectTotals(next, ts, kinds);
    CandidateOf(next, ts, |next|, k);
    info := Info(ts, next[k].period, totals);
    AdvanceShrinks(next, iters, ts);
    next', iters' := AdvanceChosen(next, iters, chosen, ts);
  }

  /** On aligned vectors, what was shown and what the vectors stand for is the full answer. */
  ghost predicate Showing(next: seq<Sample>, iters: seq<Polls>, infos: seq<Info>, iters0: seq<Polls>,
                          kinds: set<RawEventKind>)
  {
    && NonEmpty(ReadableAll(iters0)) && |next| == |iters|
    && infos + Full(Zip(next, ReadableAll(iters)), kinds) == Full(ReadableAll(iters0), kinds)
  }

  method GenStatistics(iters0: seq<Polls>, latestFlag: bool, kinds: set<RawEventKind>)
    returns (infos: seq<Info>, iters: seq<Polls>)
    ensures !latestFlag && NonEmpty(ReadableAll(iters0)) ==> infos == Full(ReadableAll(iters0), kinds) && iters == []
    ensures latestFlag ==> infos == LatestAnswer(iters0, kinds) && iters == LeftOver(iters0)
  {
    ghost var aligned := NonEmpty(ReadableAll(iters0));
    var next;
    next, iters := FirstValues(iters0);
    infos := [];
    ghost var first := next;
    if aligned {
      AlignedStart(iters0, kinds);
    }
    while next != []
      invariant |next| <= |iters|
      invariant aligned ==> Showing(next, iters, infos, iters0, kinds)
      invariant latestFlag ==> infos == [] && next == first && iters == PolledOnce(iters0)
      decreases |next| + Total(iters)
    {
      ghost var (before, rest) := (next, iters);
      var info;
      info, next, iters := OneRound(next, iters, kinds);
      if aligned {
        FullStep(before, rest, kinds, info, infos, iters0);
      }
      infos := infos + [info];
      if latestFlag {
        LatestFromFirst(iters0, first, kinds, info);
        return;
      }
    }
    if aligned {
      ShownAll(iters, infos, iters0, kinds);
    }
  }

  lemma AlignedStart(iters0: seq<Polls>, kinds: set<RawEventKind>)
    requires NonEmpty(ReadableAll(iters0))
    ensures Showing(Heads(FreshLanes(ReadableAll(iters0))), PolledOnce(iters0), [], iters0, kinds)
  {
    AlignedFirst(iters0);
    assert [] + Full(ReadableAll(iters0), kinds) == Full(ReadableAll(iters0), kinds);
  }

  lemma ShownAll(iters: seq<Polls>, infos: seq<Info>, iters0: seq<Polls>, kinds: set<RawEventKind>)
    requires Showing([], iters, infos, iters0, kinds)
    ensures infos == Full(ReadableAll(iters0), kinds) && iters == []
  {
    assert infos + [] == infos;
  }

  /** The one entry of a latest-only call, and what it leaves. */
  lemma LatestFromFirst(iters0: seq<Polls>, first: seq<Sample>, kinds: set<RawEventKind>, info: Info)
    requires first == Heads(FreshLanes(ReadableAll(iters0))) && first != [] && |first| <= |iters0|
    requires info == InfoOf(first, kinds)
    ensures LatestAnswer(iters0, kinds) == [info]
    ensures LeftOver(iters0) == AdvanceIters(first, PolledOnce(iters0), info.timestamp)
  {
  }

  lemma ZipHeads(next: seq<Sample>, iters: seq<Lane>)
    requires |next| == |iters|
    ensures Heads(Zip(next, iters)) == next
  {
    var lanes := Zip(next, iters);
    forall k | 0 <= k < |next|
      ensures Heads(lanes)[k] == next[k]
    {
      assert lanes[k] == [next[k]] + iters[k];
    }
  }

  /** One round on aligned vectors is one entry of the full answer. */
  lemma FullStep(next: seq<Sample>, iters: seq<Polls>, kinds: set<RawEventKind>, info: Info, shown: seq<Info>,
                 iters0: seq<Polls>)
    requires next != [] && info == InfoOf(next, kinds) && Showing(next, iters, shown, iters0, kinds)
    ensures Showing(AdvanceNext(next, iters, info.timestamp), AdvanceIters(next, iters, info.timestamp), shown + [info],
                    iters0, kinds)
  {
    var lanes := Zip(next, ReadableAll(iters));
    ZipHeads(next, ReadableAll(iters));
    AlignedAdvance(next, iters, info.timestamp);
    Reassociate(shown, [info], Full(DropAt(lanes, info.timestamp), kinds));
  }

  // ----- what the result says about the lanes

  /** Strictly descending times, as a reverse scan of distinct keys yields them. */
  predicate Descending(lane: Lane) {
    |lane| > 1 ==> lane[1].timestamp < lane[0].timestamp && Descending(lane[1..])
  }

  predicate Ordered(lanes: seq<Lane>) {
    forall k :: 0 <= k < |lanes| ==> Descending(lanes[k])
  }

  function LaneTimes(lane: Lane): set<nat> {
    if lane == [] then {} else {lane[0].timestamp} + LaneTimes(lane[1..])
  }

  /** The timestamps the lanes hold. */
  function Times(lanes: seq<Lane>): set<nat> {
    if lanes == [] then {} else LaneTimes(lanes[0]) + Times(lanes[1..])
  }

  /** Every record one lane, or all lanes, hold for a time. */
  function LaneRecords(lane: Lane, ts: nat): seq<Record> {
    if lane == [] then [] else (if lane[0].timestamp == ts then lane[0].stats else []) + LaneRecords(lane[1..], ts)
  }

  function AllRecords(lanes: seq<Lane>, ts: nat): seq<Record> {
    if lanes == [] then [] else LaneRecords(lanes[0], ts) + AllRecords(lanes[1..], ts)
  }

  function CountOf(records: seq<Record>, kind: RawEventKind): nat {
    if records == [] then 0 else (if records[0].kind == kind then records[0].count else 0) + CountOf(records[1..], kind)
  }

  function SizeOf(records: seq<Record>, kind: RawEventKind): nat {
    if records == [] then 0 else (if records[0].kind == kind then records[0].size else 0) + SizeOf(records[1..], kind)
  }

  predicate Mentions(records: seq<Record>, kind: RawEventKind) {
    records != [] && (records[0].kind == kind || Mentions(records[1..], kind))
  }

  lemma {:induction false} DescendingTimes(lane: Lane)
    requires Descending(lane) && lane != []
    ensures forall t :: t in LaneTimes(lane[1..]) ==> t < lane[0].timestamp
    decreases lane
  {
    if |lane| > 1 {
      DescendingTimes(lane[1..]);
    }
  }

  lemma {:induction false} NoRecordsAt(lane: Lane, ts: nat)
    requires ts !in LaneTimes(lane)
    ensures LaneRecords(lane, ts) == []
  {
    if lane != [] {
      NoRecordsAt(lane[1..], ts);
    }
  }

  lemma {:induction false} DropAtOrdered(lanes: seq<Lane>, latest: nat)
    requires NonEmpty(lanes) && Ordered(lanes)
    ensures Ordered(DropAt(lanes, latest))
  {
    if lanes != [] {
      DropAtOrdered(lanes[1..], latest);
    }
  }

  /** A step removes the latest time and no other. */
  lemma {:induction false} DropAtTimes(lanes: seq<Lane>, latest: nat)
    requires NonEmpty(lanes) && Ordered(lanes) && forall k :: 0 <= k < |lanes| ==> lanes[k][0].timestamp <= latest
    ensures Times(DropAt(lanes, latest)) == Times(lanes) - {latest}
    ensures forall t :: t in Times(lanes) ==> t <= latest
  {
    if lanes != [] {
      var (first, rest) := (lanes[0], lanes[1..]);
      DropAtTimes(rest, latest);
      DescendingTimes(first);
      var kept := if first[0].timestamp == latest then first[1..] else first;
      assert LaneTimes(kept) == LaneTimes(first) - {latest};
      if kept == [] {
        assert DropAt(lanes, latest) == DropAt(rest, latest);
      } else {
        assert DropAt(lanes, latest)[1..] == DropAt(rest, latest);
      }
    }
  }

  lemma RecordsBehindHead(lane: Lane, latest: nat, ts: nat)
    requires lane != [] && ts != latest
    ensures LaneRecords(if lane[0].timestamp == latest then lane[1..] else lane, ts) == LaneRecords(lane, ts)
  {
    assert [] + LaneRecords(lane[1..], ts) == LaneRecords(lane[1..], ts);
  }

  lemma AllRecordsCons(lane: Lane, rest: seq<Lane>, ts: nat)
    ensures AllRecords((if lane == [] then [] else [lane]) + rest, ts) == LaneRecords(lane, ts) + AllRecords(rest, ts)
  {
    if lane == [] {
      assert [] + rest == rest;
      assert [] + AllRecords(rest, ts) == AllRecords(rest, ts);
    } else {
      assert ([lane] + rest)[1..] == rest;
    }
  }

  lemma {:induction false} DropAtKeepsRecords(lanes: seq<Lane>, latest: nat, ts: nat)
    requires NonEmpty(lanes) && ts != latest
    ensures AllRecords(DropAt(lanes, latest), ts) == AllRecords(lanes, ts)
  {
    if lanes != [] {
      DropAtKeepsRecords(lanes[1..], latest, ts);
      RecordsBehindHead(lanes[0], latest, ts);
      var kept := if lanes[0][0].timestamp == latest then lanes[0][1..] else lanes[0];
      AllRecordsCons(kept, DropAt(lanes[1..], latest), ts);
    }
  }

  /** At the latest time the heads hold all there is. */
  lemma {:induction false} HeadsHoldLatest(lanes: seq<Lane>, latest: nat, acc: map<RawEventKind, Totals>,
                                           kinds: set<RawEventKind>)
    requires NonEmpty(lanes) && Ordered(lanes) && forall k :: 0 <= k < |lanes| ==> lanes[k][0].timestamp <= latest
    ensures AddHeads(acc, Heads(lanes), latest, kinds) == AddRecords(acc, AllRecords(lanes, latest), kinds)
    decreases lanes
  {
    if lanes != [] {
      var (first, rest) := (lanes[0], lanes[1..]);
      DescendingTimes(first);
      NoRecordsAt(first[1..], latest);
      assert Heads(lanes)[1..] == Heads(rest);
      var here := if first[0].timestamp == latest then first[0].stats else [];
      assert LaneRecords(first, latest) == here;
      AddRecordsConcat(acc, here, AllRecords(rest, latest), kinds);
      HeadsHoldLatest(rest, latest, AddRecords(acc, here, kinds), kinds);
    }
  }

  lemma {:induction false} AddRecordsConcat(acc: map<RawEventKind, Totals>, a: seq<Record>, b: seq<Record>,
                                            kinds: set<RawEventKind>)
    ensures AddRecords(acc, a + b, kinds) == AddRecords(AddRecords(acc, a, kinds), b, kinds)
    decreases a
  {
    if a == [] {
      assert a + b == b;
    } else {
      assert (a + b)[1..] == a[1..] + b;
      AddRecordsConcat(AddRecord(acc, a[0], kinds), a[1..], b, kinds);
    }
  }

  function Prior(acc: map<RawEventKind, Totals>, kind: RawEventKind): Totals {
    if kind in acc then acc[kind] else Totals(0, 0)
  }

  predicate Within64(acc: map<RawEventKind, Totals>, kind: RawEventKind) {
    kind in acc ==> acc[kind].count < U64 && acc[kind].size < U64
  }

  lemma AddRecordSums(acc: map<RawEventKind, Totals>, r: Record, kinds: set<RawEventKind>, kind: RawEventKind)
    requires Within64(acc, kind)
    ensures var acc' := AddRecord(acc, r, kinds);
            && Within64(acc', kind)
            && (kind in acc' <==> kind in acc || (kind in kinds && r.kind == kind))
            && Prior(acc', kind) == if r.kind == kind && kind in kinds
                                    then Totals(Plus64(Prior(acc, kind).count, r.count),
                                                Plus64(Prior(acc, kind).size, r.size))
                                    else Prior(acc, kind)
  {
  }

  /** Accumulating leaves, for each allowed kind, the sum in 64-bit arithmetic. */
  ghost predicate SumsOnto(acc: map<RawEventKind, Totals>, records: seq<Record>, kinds: set<RawEventKind>,
                           kind: RawEventKind, r: map<RawEventKind, Totals>)
  {
    && (kind in r <==> kind in acc || (kind in kinds && Mentions(records, kind)))
    && (kind in kinds ==>
          Prior(r, kind) == Totals(Plus64(Prior(acc, kind).count, CountOf(records, kind)),
                                   Plus64(Prior(acc, kind).size, SizeOf(records, kind))))
  }

  lemma {:induction false} AddRecordsSums(acc: map<RawEventKind, Totals>, records: seq<Record>,
                                          kinds: set<RawEventKind>, kind: RawEventKind)
    requires Within64(acc, kind)
    ensures SumsOnto(acc, records, kinds, kind, AddRecords(acc, records, kinds))
    decreases records
  {
    if records == [] {
      PlusNothing(Prior(acc, kind).count);
      PlusNothing(Prior(acc, kind).size);
    } else {
      var before := AddRecord(acc, records[0], kinds);
      AddRecordSums(acc, records[0], kinds, kind);
      AddRecordsSums(before, records[1..], kinds, kind);
      SumsOneMore(acc, records, kinds, kind, AddRecords(before, records[1..], kinds));
    }
  }

  lemma SumsOneMore(acc: map<RawEventKind, Totals>, records: seq<Record>, kinds: set<RawEventKind>,
                    kind: RawEventKind, r: map<RawEventKind, Totals>)
    requires records != [] && Within64(acc, kind)
    requires SumsOnto(AddRecord(acc, records[0], kinds), records[1..], kinds, kind, r)
    ensures SumsOnto(acc, records, kinds, kind, r)
  {
    var (first, rest) := (records[0], records[1..]);
    AddRecordSums(acc, first, kinds, kind);
    if kind in kinds {
      SumOneMore(Prior(acc, kind).count, if first.kind == kind then first.count else 0, CountOf(rest, kind));
      SumOneMore(Prior(acc, kind).size, if first.kind == kind then first.size else 0, SizeOf(rest, kind));
      PriorWithin(acc, kind);
    }
  }

  lemma PriorWithin(acc: map<RawEventKind, Totals>, kind: RawEventKind)
    requires Within64(acc, kind)
    ensures Plus64(Prior(acc, kind).count, 0) == Prior(acc, kind).count
    ensures Plus64(Prior(acc, kind).size, 0) == Prior(acc, kind).size
  {
    PlusNothing(Prior(acc, kind).count);
    PlusNothing(Prior(acc, kind).size);
  }

  lemma SumOneMore(prior: nat, first: nat, rest: nat)
    ensures Plus64(Plus64(prior, first), rest) == Plus64(prior, first + rest)
  {
    Plus64Associates(prior, first, rest);
  }

  lemma PlusNothing(a: nat)
    requires a < U64
    ensures Plus64(a, 0) == a
  {
  }

  lemma Plus64Associates(a: nat, b: nat, c: nat)
    ensures Plus64(Plus64(a, b), c) == Plus64(a, b + c)
  {
  }

  function InfoTimes(infos: seq<Info>): set<nat> {
    if infos == [] then {} else {infos[0].timestamp} + InfoTimes(infos[1..])
  }

  predicate DescendingInfos(infos: seq<Info>) {
    infos != [] ==> (forall t :: t in InfoTimes(infos[1..]) ==> t < infos[0].timestamp) && DescendingInfos(infos[1..])
  }

  /** The emitted times strictly descend and are exactly the times of the lanes. */
  lemma {:induction false} FullTimes(lanes: seq<Lane>, kinds: set<RawEventKind>)
    requires NonEmpty(lanes) && Ordered(lanes)
    ensures InfoTimes(Full(lanes, kinds)) == Times(lanes)
    ensures DescendingInfos(Full(lanes, kinds))
    decreases Total(lanes)
  {
    if lanes != [] {
      var latest := InfoAt(lanes, kinds).timestamp;
      LatestFacts(lanes, kinds);
      FullTimes(DropAt(lanes, latest), kinds);
      ConsInfos(InfoAt(lanes, kinds), Full(DropAt(lanes, latest), kinds), Times(lanes));
    }
  }

  lemma ConsInfos(head: Info, tail: seq<Info>, times: set<nat>)
    requires head.timestamp in times && InfoTimes(tail) == times - {head.timestamp} && DescendingInfos(tail)
    requires forall t :: t in times ==> t <= head.timestamp
    ensures InfoTimes([head] + tail) == times && DescendingInfos([head] + tail)
  {
    var infos := [head] + tail;
    assert infos[1..] == tail;
  }

  /** The entry for a step, and what the step leaves. */
  lemma LatestFacts(lanes: seq<Lane>, kinds: set<RawEventKind>)
    requires NonEmpty(lanes) && Ordered(lanes) && lanes != []
    ensures var info := InfoAt(lanes, kinds);
            && info.timestamp in Times(lanes)
            && (forall k :: 0 <= k < |lanes| ==> lanes[k][0].timestamp <= info.timestamp)
            && info.totals == AddRecords(map[], AllRecords(lanes, info.timestamp), kinds)
            && Ordered(DropAt(lanes, info.timestamp))
            && Times(DropAt(lanes, info.timestamp)) == Times(lanes) - {info.timestamp}
            && (forall t :: t in Times(lanes) ==> t <= info.timestamp)
            && Total(DropAt(lanes, info.timestamp)) < Total(lanes)
  {
    var heads := Heads(lanes);
    var k := LatestIndex(heads);
    var latest := heads[k].timestamp;
    assert forall j :: 0 <= j < |lanes| ==> heads[j] == lanes[j][0];
    LatestOccurs(lanes, k);
    HeadsHoldLatest(lanes, latest, map[], kinds);
    DropAtOrdered(lanes, latest);
    DropAtTimes(lanes, latest);
    DropAtShrinks(lanes, latest);
  }

  /** The entry totals everything the lanes hold for its time. */
  ghost predicate TotalsAll(info: Info, lanes: seq<Lane>, kinds: set<RawEventKind>) {
    info.timestamp in Times(lanes) && info.totals == AddRecords(map[], AllRecords(lanes, info.timestamp), kinds)
  }

  lemma LatestTotalsAll(lanes: seq<Lane>, kinds: set<RawEventKind>)
    requires NonEmpty(lanes) && Ordered(lanes) && lanes != []
    ensures TotalsAll(InfoAt(lanes, kinds), lanes, kinds)
  {
    LatestFacts(lanes, kinds);
  }

  /** An entry of a later step totals the lanes before that step as well. */
  lemma LaterTotalsAll(info: Info, lanes: seq<Lane>, kinds: set<RawEventKind>)
    requires NonEmpty(lanes) && Ordered(lanes) && lanes != []
    requires TotalsAll(info, DropAt(lanes, InfoAt(lanes, kinds).timestamp), kinds)
    ensures TotalsAll(info, lanes, kinds)
  {
    var latest := InfoAt(lanes, kinds).timestamp;
    LatestFacts(lanes, kinds);
    DropAtKeepsRecords(lanes, latest, info.timestamp);
  }

  lemma {:induction false} FullTotals(lanes: seq<Lane>, kinds: set<RawEventKind>, i: nat)
    requires NonEmpty(lanes) && Ordered(lanes) && i < |Full(lanes, kinds)|
    ensures TotalsAll(Full(lanes, kinds)[i], lanes, kinds)
    decreases i
  {
    FullEntry(lanes, kinds, i);
    if i == 0 {
      LatestTotalsAll(lanes, kinds);
    } else {
      var latest := InfoAt(lanes, kinds).timestamp;
      DropAtOrdered(lanes, latest);
      FullTotals(DropAt(lanes, latest), kinds, i - 1);
      LaterTotalsAll(Full(lanes, kinds)[i], lanes, kinds);
    }
  }

  lemma FullUnfolds(lanes: seq<Lane>, kinds: set<RawEventKind>)
    requires NonEmpty(lanes) && lanes != []
    ensures Full(lanes, kinds) == [InfoAt(lanes, kinds)] + Full(DropAt(lanes, InfoAt(lanes, kinds).timestamp), kinds)
  {
  }

  lemma ConsAt<T>(s: seq<T>, head: T, tail: seq<T>, i: nat)
    requires s == [head] + tail && i < |s|
    ensures i <= |tail| && s[i] == if i == 0 then head else tail[i - 1]
  {
  }

  lemma FullEntry(lanes: seq<Lane>, kinds: set<RawEventKind>, i: nat)
    requires NonEmpty(lanes) && i < |Full(lanes, kinds)|
    ensures lanes != []
    ensures var rest := Full(DropAt(lanes, InfoAt(lanes, kinds).timestamp), kinds);
            && i <= |rest|
            && Full(lanes, kinds)[i] == if i == 0 then InfoAt(lanes, kinds) else rest[i - 1]
  {
    FullUnfolds(lanes, kinds);
    ConsAt(Full(lanes, kinds), InfoAt(lanes, kinds), Full(DropAt(lanes, InfoAt(lanes, kinds).timestamp), kinds), i);
  }

  lemma {:induction false} LatestOccurs(lanes: seq<Lane>, k: nat)
    requires NonEmpty(lanes) && k < |lanes|
    ensures lanes[k][0].timestamp in Times(lanes)
  {
    if k > 0 {
      LatestOccurs(lanes[1..], k - 1);
    }
  }

  /** Counts are conserved: each total is the sum over all lanes of all matching records, in
      64-bit arithmetic, and so the plain sum whenever that fits. */
  lemma StatisticsConserved(lanes: seq<Lane>, kinds: set<RawEventKind>, i: nat, kind: RawEventKind)
    requires NonEmpty(lanes) && Ordered(lanes) && i < |Full(lanes, kinds)|
    ensures var info := Full(lanes, kinds)[i];
            var records := AllRecords(lanes, info.timestamp);
            && (kind in info.totals <==> kind in kinds && Mentions(records, kind))
            && (kind in info.totals ==>
                  info.totals[kind] == Totals(CountOf(records, kind) % 0x1_0000_0000_0000_0000,
                                              SizeOf(records, kind) % 0x1_0000_0000_0000_0000))
  {
    FullTotals(lanes, kinds, i);
    Plus64FromZero(CountOf(AllRecords(lanes, Full(lanes, kinds)[i].timestamp), kind));
    Plus64FromZero(SizeOf(AllRecords(lanes, Full(lanes, kinds)[i].timestamp), kind));
    AddRecordsSums(map[], AllRecords(lanes, Full(lanes, kinds)[i].timestamp), kinds, kind);
  }

  lemma Plus64FromZero(n: nat)
    ensures Plus64(0, n) == n % U64
  {
  }

  // ----- several sources in one query

  /** What one source's own cores answer. */
  function SourceStatistics(cores: seq<Polls>, kinds: set<RawEventKind>): seq<Info> {
    Full(FreshLanes(ReadableAll(cores)), kinds)
  }

  /** The iterators that have something to yield. */
  function FreshPolls(cores: seq<Polls>): seq<Polls> {
    if cores == [] then [] else (if Yields(cores[0]) then [cores[0]] else []) + FreshPolls(cores[1..])
  }

  lemma {:induction false} FreshPollsAreFreshLanes(cores: seq<Polls>)
    ensures ReadableAll(FreshPolls(cores)) == FreshLanes(ReadableAll(cores))
  {
    if cores != [] {
      FreshPollsAreFreshLanes(cores[1..]);
      ReadableConcat(if Yields(cores[0]) then [cores[0]] else [], FreshPolls(cores[1..]));
      assert ReadableAll(cores)[1..] == ReadableAll(cores[1..]);
    }
  }

  /** Opens the iterators of one source behind those the vector still holds. */
  method PushFresh(held: seq<Polls>, cores: seq<Polls>) returns (statsIters: seq<Polls>)
    ensures statsIters == held + FreshPolls(cores)
  {
    statsIters := held;
    assert cores[0..] == cores;
    for core := 0 to |cores|
      invariant statsIters + FreshPolls(cores[core..]) == held + FreshPolls(cores)
    {
      var rest := FreshPolls(cores[core + 1..]);
      assert cores[core..][1..] == cores[core + 1..];
      if Yields(cores[core]) {
        assert (statsIters + [cores[core]]) + rest == statsIters + ([cores[core]] + rest);
        statsIters := statsIters + [cores[core]];
      } else {
        assert FreshPolls(cores[core..]) == [] + rest == rest;
      }
    }
    assert cores[|cores|..] == [];
    assert statsIters + [] == statsIters;
  }

  lemma LatestIsFirstOfFull(lanes: seq<Lane>, kinds: set<RawEventKind>)
    requires NonEmpty(lanes)
    ensures Take(Full(lanes, kinds), 1) == if lanes == [] then [] else [InfoAt(lanes, kinds)]
  {
    if lanes != [] {
      FullEntry(lanes, kinds, 0);
    }
  }

  /** The iterators the vector holds when a source's turn comes in a query without a time range. */
  function HeldBefore(sources: seq<seq<Polls>>, i: nat): seq<Polls>
    requires i <= |sources|
  {
    if i == 0 then [] else LeftOver(HeldBefore(sources, i - 1) + FreshPolls(sources[i - 1]))
  }

  /** What a source is answered in such a query. */
  function AnswerInTurn(sources: seq<seq<Polls>>, i: nat, kinds: set<RawEventKind>): seq<Info>
    requires i < |sources|
  {
    LatestAnswer(HeldBefore(sources, i) + FreshPolls(sources[i]), kinds)
  }

  ghost predicate AnsweredInTurn(totalStats: seq<seq<Info>>, sources: seq<seq<Polls>>, kinds: set<RawEventKind>) {
    && |totalStats| <= |sources|
    && forall i :: 0 <= i < |totalStats| ==> totalStats[i] == AnswerInTurn(sources, i, kinds)
  }

  lemma AnsweredInTurnOneMore(totalStats: seq<seq<Info>>, stats: seq<Info>, sources: seq<seq<Polls>>,
                              kinds: set<RawEventKind>)
    requires AnsweredInTurn(totalStats, sources, kinds) && |totalStats| < |sources|
    requires stats == AnswerInTurn(sources, |totalStats|, kinds)
    ensures AnsweredInTurn(totalStats + [stats], sources, kinds)
  {
  }

  /** The first sources are answered, each from its own cores alone. */
  ghost predicate Answered(totalStats: seq<seq<Info>>, sources: seq<seq<Polls>>, kinds: set<RawEventKind>) {
    && |totalStats| <= |sources|
    && forall i :: 0 <= i < |totalStats| ==> totalStats[i] == SourceStatistics(sources[i], kinds)
  }

  lemma AnsweredOneMore(totalStats: seq<seq<Info>>, stats: seq<Info>, sources: seq<seq<Polls>>,
                        kinds: set<RawEventKind>)
    requires Answered(totalStats, sources, kinds) && |totalStats| < |sources|
    requires stats == SourceStatistics(sources[|totalStats|], kinds)
    ensures Answered(totalStats + [stats], sources, kinds)
  {
  }

  /** Opens the iterators of one source and generates its statistics. */
  method AnswerSource(held: seq<Polls>, cores: seq<Polls>, latestFlag: bool, kinds: set<RawEventKind>)
    returns (stats: seq<Info>, left: seq<Polls>)
    ensures !latestFlag && held == [] ==> stats == SourceStatistics(cores, kinds) && left == []
    ensures latestFlag ==>
              stats == LatestAnswer(held + FreshPolls(cores), kinds) && left == LeftOver(held + FreshPolls(cores))
  {
    var statsIters := PushFresh(held, cores);
    FreshPollsAreFreshLanes(cores);
    assert [] + FreshPolls(cores) == FreshPolls(cores);
    stats, left := GenStatistics(statsIters, latestFlag, kinds);
  }

  /** Between two sources: the answers so far, and what the vector of iterators holds. */
  ghost predicate InTurn(statsIters: seq<Polls>, totalStats: seq<seq<Info>>, sources: seq<seq<Polls>>,
                         latestFlag: bool, kinds: set<RawEventKind>)
  {
    && |totalStats| <= |sources|
    && if latestFlag then statsIters == HeldBefore(sources, |totalStats|) && AnsweredInTurn(totalStats, sources, kinds)
       else statsIters == [] && Answered(totalStats, sources, kinds)
  }

  lemma NextTurn(held: seq<Polls>, totalStats: seq<seq<Info>>, sources: seq<seq<Polls>>, latestFlag: bool,
                 kinds: set<RawEventKind>, stats: seq<Info>, left: seq<Polls>)
    requires InTurn(held, totalStats, sources, latestFlag, kinds) && |totalStats| < |sources|
    requires var cores := sources[|totalStats|];
             if latestFlag then
               stats == LatestAnswer(held + FreshPolls(cores), kinds) && left == LeftOver(held + FreshPolls(cores))
             else stats == SourceStatistics(cores, kinds) && left == []
    ensures InTurn(left, totalStats + [stats], sources, latestFlag, kinds)
  {
    if latestFlag {
      AnsweredInTurnOneMore(totalStats, stats, sources, kinds);
    } else {
      AnsweredOneMore(totalStats, stats, sources, kinds);
    }
  }

  /** One query over several sources, sharing the vector of iterators between them. With a
      time range every source is answered from its own cores alone. */
  method StatisticsQuery(sources: seq<seq<Polls>>, latestFlag: bool, kinds: set<RawEventKind>)
    returns (totalStats: seq<seq<Info>>)
    ensures |totalStats| == |sources|
    ensures !latestFlag ==> Answered(totalStats, sources, kinds)
    ensures latestFlag ==> AnsweredInTurn(totalStats, sources, kinds)
  {
    totalStats := [];
    var statsIters: seq<Polls> := [];
    for i := 0 to |sources|
      invariant |totalStats| == i && InTurn(statsIters, totalStats, sources, latestFlag, kinds)
    {
      var stats, left := AnswerSource(statsIters, sources[i], latestFlag, kinds);
      NextTurn(statsIters, totalStats, sources, latestFlag, kinds, stats, left);
      statsIters := left;
      totalStats := totalStats + [stats];
    }
  }

  // ----- what the iterators left over do to a later source

  /** The records of all heads at one time. */
  function HeadRecords(heads: seq<Sample>, ts: nat): seq<Record> {
    if heads == [] then [] else (if heads[0].timestamp == ts then heads[0].stats else []) + HeadRecords(heads[1..], ts)
  }

  lemma {:induction false} HeadRecordsAddUp(acc: map<RawEventKind, Totals>, heads: seq<Sample>, ts: nat,
                                            kinds: set<RawEventKind>)
    ensures AddHeads(acc, heads, ts, kinds) == AddRecords(acc, HeadRecords(heads, ts), kinds)
    decreases heads
  {
    if heads != [] {
      var here := if heads[0].timestamp == ts then heads[0].stats else [];
      HeadRecordsAddUp(AddRecords(acc, here, kinds), heads[1..], ts, kinds);
      AddRecordsConcat(acc, here, HeadRecords(heads[1..], ts), kinds);
    }
  }

  lemma {:induction false} HeadRecordsConcat(a: seq<Sample>, b: seq<Sample>, ts: nat)
    ensures HeadRecords(a + b, ts) == HeadRecords(a, ts) + HeadRecords(b, ts)
  {
    if a == [] {
      assert a + b == b;
    } else {
      assert (a + b)[1..] == a[1..] + b;
      HeadRecordsConcat(a[1..], b, ts);
      Reassociate(if a[0].timestamp == ts then a[0].stats else [], HeadRecords(a[1..], ts), HeadRecords(b, ts));
    }
  }

  lemma {:induction false} SumsConcat(a: seq<Record>, b: seq<Record>, kind: RawEventKind)
    ensures CountOf(a + b, kind) == CountOf(a, kind) + CountOf(b, kind)
    ensures SizeOf(a + b, kind) == SizeOf(a, kind) + SizeOf(b, kind)
    ensures Mentions(a + b, kind) <==> Mentions(a, kind) || Mentions(b, kind)
  {
    if a == [] {
      assert a + b == b;
    } else {
      assert (a + b)[1..] == a[1..] + b;
      SumsConcat(a[1..], b, kind);
    }
  }

  /** The extra records mention no kind that is not there, and their sums vanish modulo 2^64. */
  ghost predicate AddsNothing(extra: seq<Record>, records: seq<Record>, kinds: set<RawEventKind>) {
    forall kind :: kind in kinds ==> KindAddsNothing(extra, records, kind)
  }

  predicate KindAddsNothing(extra: seq<Record>, records: seq<Record>, kind: RawEventKind) {
    && (Mentions(extra, kind) ==> Mentions(records, kind))
    && CountOf(extra, kind) % U64 == 0 && SizeOf(extra, kind) % U64 == 0
  }

  lemma PlusVanishes(a: nat, b: nat)
    ensures (a + b) % U64 == b % U64 <==> a % U64 == 0
  {
    assert (a + b) % U64 == (a % U64 + b % U64) % U64;
  }

  lemma {:induction false} SumsNeedMention(records: seq<Record>, kind: RawEventKind)
    ensures !Mentions(records, kind) ==> CountOf(records, kind) == 0 && SizeOf(records, kind) == 0
  {
    if records != [] {
      SumsNeedMention(records[1..], kind);
    }
  }

  /** The total of one kind in a fresh table. */
  lemma TotalOfKind(records: seq<Record>, kinds: set<RawEventKind>, kind: RawEventKind)
    ensures var r := AddRecords(map[], records, kinds);
            && (kind in r <==> kind in kinds && Mentions(records, kind))
            && (kind in r ==> r[kind] == Totals(CountOf(records, kind) % U64, SizeOf(records, kind) % U64))
  {
    AddRecordsSums(map[], records, kinds, kind);
    Plus64FromZero(CountOf(records, kind));
    Plus64FromZero(SizeOf(records, kind));
  }

  predicate SameTotal(a: map<RawEventKind, Totals>, b: map<RawEventKind, Totals>, kind: RawEventKind) {
    (kind in a <==> kind in b) && (kind in a && kind in b ==> a[kind] == b[kind])
  }

  lemma KindUnchangedIff(extra: seq<Record>, records: seq<Record>, kinds: set<RawEventKind>, kind: RawEventKind)
    requires kind in kinds
    ensures var (r, s) := (AddRecords(map[], extra + records, kinds), AddRecords(map[], records, kinds));
            SameTotal(r, s, kind) <==> KindAddsNothing(extra, records, kind)
  {
    TotalOfKind(extra + records, kinds, kind);
    TotalOfKind(records, kinds, kind);
    SumsConcat(extra, records, kind);
    SumsNeedMention(extra, kind);
    PlusVanishes(CountOf(extra, kind), CountOf(records, kind));
    PlusVanishes(SizeOf(extra, kind), SizeOf(records, kind));
  }

  lemma TotalsUnchangedIff(extra: seq<Record>, records: seq<Record>, kinds: set<RawEventKind>)
    ensures AddRecords(map[], extra + records, kinds) == AddRecords(map[], records, kinds)
       <==> AddsNothing(extra, records, kinds)
  {
    var (r, s) := (AddRecords(map[], extra + records, kinds), AddRecords(map[], records, kinds));
    forall kind | kind in kinds
      ensures SameTotal(r, s, kind) <==> KindAddsNothing(extra, records, kind)
    {
      KindUnchangedIff(extra, records, kinds, kind);
    }
    if AddsNothing(extra, records, kinds) {
      forall kind
        ensures kind in r <==> kind in s
        ensures kind in r && kind in s ==> r[kind] == s[kind]
      {
        TotalOfKind(extra + records, kinds, kind);
        TotalOfKind(records, kinds, kind);
        assert kind in kinds ==> KindAddsNothing(extra, records, kind);
        assert kind in kinds ==> SameTotal(r, s, kind);
      }
      assert r.Keys == s.Keys;
    }
  }

  /** None of the carried heads is later than the own latest record, and those of its time add
      nothing to it. Without own records there must be no carried head. */
  ghost predicate Harmless(carried: seq<Lane>, own: seq<Lane>, kinds: set<RawEventKind>)
    requires NonEmpty(carried) && NonEmpty(own)
  {
    if own == [] then carried == []
    else
      var ts := InfoAt(own, kinds).timestamp;
      && (forall k :: 0 <= k < |carried| ==> Heads(carried)[k].timestamp <= ts)
      && AddsNothing(HeadRecords(Heads(carried), ts), HeadRecords(Heads(own), ts), kinds)
  }

  /** The latest head among both, when no carried one is later, is the own latest one. */
  lemma LatestAmongBoth(carried: seq<Sample>, own: seq<Sample>)
    requires own != []
    ensures var ts := own[LatestIndex(own)].timestamp;
            if forall k :: 0 <= k < |carried| ==> carried[k].timestamp <= ts then
              LatestIndex(carried + own) == |carried| + LatestIndex(own)
            else (carried + own)[LatestIndex(carried + own)].timestamp > ts
  {
    var (all, j) := (carried + own, LatestIndex(own));
    var i := LatestIndex(all);
    assert all[|carried| + j] == own[j];
    if forall k :: 0 <= k < |carried| ==> carried[k].timestamp <= own[j].timestamp {
      assert forall k :: 0 <= k < |all| ==> all[k] == if k < |carried| then carried[k] else own[k - |carried|];
    } else {
      var k :| 0 <= k < |carried| && carried[k].timestamp > own[j].timestamp;
      assert all[k] == carried[k];
    }
  }

  /** The latest entry, with its totals as one sum of records. */
  lemma InfoFromHeads(lanes: seq<Lane>, kinds: set<RawEventKind>)
    requires NonEmpty(lanes) && lanes != []
    ensures var heads := Heads(lanes);
            var latest := heads[LatestIndex(heads)];
            InfoAt(lanes, kinds)
            == Info(latest.timestamp, latest.period, AddRecords(map[], HeadRecords(heads, latest.timestamp), kinds))
  {
    var heads := Heads(lanes);
    HeadRecordsAddUp(map[], heads, heads[LatestIndex(heads)].timestamp, kinds);
  }

  /** Carried lanes leave the whole latest entry of a source as it is exactly when they are harmless. */
  lemma CarriedLanesHarmlessIff(carried: seq<Lane>, own: seq<Lane>, kinds: set<RawEventKind>)
    requires NonEmpty(carried) && NonEmpty(own) && own != []
    ensures NonEmpty(carried + own)
    ensures InfoAt(carried + own, kinds) == InfoAt(own, kinds) <==> Harmless(carried, own, kinds)
  {
    var (c, o) := (Heads(carried), Heads(own));
    HeadsConcat(carried, own);
    InfoFromHeads(carried + own, kinds);
    InfoFromHeads(own, kinds);
    LatestAmongBoth(c, o);
    var latest := o[LatestIndex(o)];
    HeadRecordsConcat(c, o, latest.timestamp);
    TotalsUnchangedIff(HeadRecords(c, latest.timestamp), HeadRecords(o, latest.timestamp), kinds);
  }

  /** Without a time range a source is answered from its own cores exactly when the iterators
      left over from the sources before it are harmless to it. */
  lemma SourceAnsweredAloneIff(sources: seq<seq<Polls>>, kinds: set<RawEventKind>, i: nat)
    requires i < |sources|
    ensures AnswerInTurn(sources, i, kinds) == Take(SourceStatistics(sources[i], kinds), 1)
       <==> Harmless(FreshLanes(ReadableAll(HeldBefore(sources, i))), FreshLanes(ReadableAll(sources[i])), kinds)
  {
    var (held, ready) := (HeldBefore(sources, i), FreshPolls(sources[i]));
    var (carried, own) := (FreshLanes(ReadableAll(held)), FreshLanes(ReadableAll(sources[i])));
    LatestIsFirstOfFull(own, kinds);
    ReadableConcat(held, ready);
    FreshPollsAreFreshLanes(sources[i]);
    FreshConcat(ReadableAll(held), own);
    AllFresh(own);
    if own == [] {
      assert carried + own == carried;
    } else {
      CarriedLanesHarmlessIff(carried, own, kinds);
    }
  }

  predicate OnlyAt(lane: Lane, ts: nat) {
    |lane| == 1 && lane[0].timestamp == ts
  }

  /** Every iterator yields a single record, of that time. */
  ghost predicate AllOnlyAt(iters: seq<Polls>, ts: nat) {
    forall k :: 0 <= k < |iters| ==> OnlyAt(Readable(iters[k]), ts)
  }

  lemma LeftOverOfFresh(iters: seq<Polls>)
    requires NonEmpty(ReadableAll(iters)) && iters != []
    ensures var first := Heads(ReadableAll(iters));
            LeftOver(iters) == AdvanceIters(first, PolledOnce(iters), LatestTime(first))
  {
    AllFresh(ReadableAll(iters));
  }

  /** A latest-only call on fresh iterators leaves none behind exactly when every core yields
      a single record, all of one time. */
  lemma LatestLeavesNothingIff(iters: seq<Polls>)
    requires NonEmpty(ReadableAll(iters)) && iters != []
    ensures LeftOver(iters) == [] <==> AllOnlyAt(iters, LatestTime(Heads(ReadableAll(iters))))
  {
    LeftOverOfFresh(iters);
    AdvanceNothingIff(iters, LatestTime(Heads(ReadableAll(iters))));
  }

  lemma {:induction false} AdvanceNothingIff(iters: seq<Polls>, ts: nat)
    requires NonEmpty(ReadableAll(iters))
    ensures AdvanceIters(Heads(ReadableAll(iters)), PolledOnce(iters), ts) == [] <==> AllOnlyAt(iters, ts)
  {
    if iters != [] {
      assert ReadableAll(iters)[0] != [];
      assert NonEmpty(ReadableAll(iters[1..])) by {
        assert forall k :: 0 <= k < |iters[1..]| ==> ReadableAll(iters[1..])[k] == ReadableAll(iters)[k + 1];
      }
      AdvanceNothingIff(iters[1..], ts);
      AllOrFirst(iters, ts);
      assert Yields(PolledOnce(iters)[0]) <==> |Readable(iters[0])| > 1;
    }
  }

  lemma AllOrFirst(iters: seq<Polls>, ts: nat)
    requires iters != []
    ensures AllOnlyAt(iters, ts) <==> OnlyAt(Readable(iters[0]), ts) && AllOnlyAt(iters[1..], ts)
  {
    assert forall k {:trigger iters[k]} :: 0 < k < |iters| ==> iters[k] == iters[1..][k - 1];
  }

  // ----- the iterators of a store

  /** What polling an iterator over these entries answers. */
  function PollsOf(entries: seq<Entry<CoreStatistics>>): (r: Polls)
    ensures |r| == |entries|
    ensures forall k {:trigger r[k]} :: 0 <= k < |entries| ==> r[k] == PollOf(entries[k])
  {
    if entries == [] then [] else [PollOf(entries[0])] + PollsOf(entries[1..])
  }

  function PollOf(e: Entry<CoreStatistics>): Option<Sample> {
    if e.value.None? then None else Some(Sample(Rank(e.key), e.value.value.period, e.value.value.stats))
  }

  /** Polling the iterator object answers the head of those polls and leaves the rest. */
  method Poll(iter: StatisticsIter<CoreStatistics>) returns (item: Option<Sample>)
    requires iter.inner.Valid()
    modifies iter.inner
    ensures iter.inner.Valid()
    ensures var polls := PollsOf(old(iter.inner.Remaining()));
            if polls == [] then item == None && PollsOf(iter.inner.Remaining()) == []
            else item == polls[0] && PollsOf(iter.inner.Remaining()) == polls[1..]
  {
    var entry := iter.Next();
    item := if entry.Some? then PollOf(entry.value) else None;
  }

  /** The iterator of one core of a source, read downwards within the time range. */
  function CorePolls(store: seq<Entry<CoreStatistics>>, source: Key, core: Key, from: Option<int>,
                     until: Option<int>): Polls
  {
    PollsOf(Within(Seek(store, StorageKey(source, Some(core), UpperOpenBound(until)), Reversed),
                   StorageKey(source, Some(core), LowerClosedBound(from)), Reversed))
  }

  lemma ScannedSorted(store: seq<Entry<CoreStatistics>>, source: Key, core: Key, from: Option<int>, until: Option<int>)
    requires WellFormed(FixedMid(4), store) && NulFree(source) && |core| == 4
    ensures Sorted(ScannedEntries(store, source, Some(core), from, until))
  {
    ScannedRun(FixedMid(4), store, source, Some(core), from, until);
    SortedSlice(store, LowerIndex(store, StorageKey(source, Some(core), LowerClosedBound(from))),
                UpperIndex(store, StorageKey(source, Some(core), UpperOpenBound(until))));
  }

  /** A core's iterator polls exactly the records of that source and core in its range, latest
      first, and what it yields strictly descends. */
  lemma CorePollsAreScanned(store: seq<Entry<CoreStatistics>>, source: Key, core: Key, from: Option<int>,
                            until: Option<int>)
    requires WellFormed(FixedMid(4), store) && NulFree(source) && |core| == 4
    ensures CorePolls(store, source, core, from, until)
         == PollsOf(Reverse(ScannedEntries(store, source, Some(core), from, until)))
    ensures Descending(Readable(CorePolls(store, source, core, from, until)))
  {
    BackwardScan(store, StorageKey(source, Some(core), LowerClosedBound(from)),
                 StorageKey(source, Some(core), UpperOpenBound(until)));
    ScannedRun(FixedMid(4), store, source, Some(core), from, until);
    ScannedLatestFirst(store, source, core, from, until);
    LatestFirstDescends(Reverse(ScannedEntries(store, source, Some(core), from, until)));
  }

  ghost predicate LatestFirst(entries: seq<Entry<CoreStatistics>>) {
    forall i, j :: 0 <= i < j < |entries| ==> Rank(entries[j].key) < Rank(entries[i].key)
  }

  lemma ScannedLatestFirst(store: seq<Entry<CoreStatistics>>, source: Key, core: Key, from: Option<int>,
                           until: Option<int>)
    requires WellFormed(FixedMid(4), store) && NulFree(source) && |core| == 4
    ensures LatestFirst(Reverse(ScannedEntries(store, source, Some(core), from, until)))
  {
    var entries := ScannedEntries(store, source, Some(core), from, until);
    ScannedSorted(store, source, core, from, until);
    forall i | 0 <= i < |entries|
      ensures HasPrefix(KeyPrefix(source, Some(core)), entries[i].key)
    {
      ScannedMembers(store, source, Some(core), from, until, entries[i]);
    }
    SortedTurned(entries, Reverse(entries), KeyPrefix(source, Some(core)));
  }

  predicate HasPrefix(prefix: Key, key: Key) {
    |key| >= TIMESTAMP_SIZE && key == prefix + ToBeBytes(TimestampOf(key))
  }

  lemma SortedTurned(entries: seq<Entry<CoreStatistics>>, down: seq<Entry<CoreStatistics>>, prefix: Key)
    requires IsReverse(entries, down) && Sorted(entries)
    requires forall i :: 0 <= i < |entries| ==> HasPrefix(prefix, entries[i].key)
    ensures LatestFirst(down)
  {
    forall i, j | 0 <= i < j < |entries|
      ensures Rank(entries[i].key) < Rank(entries[j].key)
    {
      SuffixOrder(prefix, TimestampOf(entries[i].key), TimestampOf(entries[j].key));
    }
  }

  lemma {:induction false} LatestFirstDescends(entries: seq<Entry<CoreStatistics>>)
    requires LatestFirst(entries)
    ensures Descending(Readable(PollsOf(entries)))
  {
    if |entries| > 1 {
      LatestFirstDescends(entries[1..]);
      assert PollsOf(entries)[1..] == PollsOf(entries[1..]);
    }
  }

  // ----- what a query says about the store

  /** The record at a position is read when it and all before it deserialize. */
  ghost predicate ReadAt(entries: seq<Entry<CoreStatistics>>, k: nat) {
    k < |entries| && forall j :: 0 <= j <= k ==> entries[j].value.Some?
  }

  ghost predicate ReadAtRank(entries: seq<Entry<CoreStatistics>>, k: nat, ts: nat) {
    ReadAt(entries, k) && Rank(entries[k].key) == ts
  }

  lemma ReadableStep(entries: seq<Entry<CoreStatistics>>)
    requires entries != []
    ensures Readable(PollsOf(entries))
         == if entries[0].value.Some? then [PollOf(entries[0]).value] + Readable(PollsOf(entries[1..])) else []
  {
    assert PollsOf(entries)[1..] == PollsOf(entries[1..]);
  }

  lemma {:induction false} ReadableTimes(entries: seq<Entry<CoreStatistics>>, ts: nat)
    ensures ts in LaneTimes(Readable(PollsOf(entries))) <==> exists k: nat :: ReadAtRank(entries, k, ts)
  {
    if entries != [] {
      ReadableStep(entries);
      ReadableTimes(entries[1..], ts);
      ReadBehindHead(entries, ts);
    }
  }

  lemma ReadBehindHead(entries: seq<Entry<CoreStatistics>>, ts: nat)
    requires entries != []
    ensures (exists k: nat :: ReadAtRank(entries, k, ts))
       <==> entries[0].value.Some? && (Rank(entries[0].key) == ts || exists k: nat :: ReadAtRank(entries[1..], k, ts))
  {
    if k: nat :| ReadAtRank(entries, k, ts) && k > 0 {
      assert ReadAtRank(entries[1..], k - 1, ts);
    }
    if entries[0].value.Some? {
      if Rank(entries[0].key) == ts {
        assert ReadAtRank(entries, 0, ts);
      } else if k: nat :| ReadAtRank(entries[1..], k, ts) {
        assert ReadAtRank(entries, k + 1, ts);
      }
    }
  }

  lemma {:induction false} ReadableRecords(entries: seq<Entry<CoreStatistics>>, k: nat)
    requires LatestFirst(entries) && ReadAt(entries, k)
    ensures LaneRecords(Readable(PollsOf(entries)), Rank(entries[k].key)) == entries[k].value.value.stats
  {
    ReadableStep(entries);
    if k > 0 {
      ReadableRecords(entries[1..], k - 1);
    } else {
      ReadableTimes(entries[1..], Rank(entries[0].key));
      NoRecordsAt(Readable(PollsOf(entries[1..])), Rank(entries[0].key));
    }
  }

  /** A record of the core in the range that its iterator reaches: it and all later ones of the
      core in the range deserialize. */
  ghost predicate Shows(store: seq<Entry<CoreStatistics>>, source: Key, core: Key, from: Option<int>,
                        until: Option<int>, e: Entry<CoreStatistics>)
  {
    && e in store && IsScanned(source, Some(core), from, until, e.key)
    && forall x :: x in store && IsScanned(source, Some(core), from, until, x.key) && Rank(x.key) >= Rank(e.key) ==>
              x.value.Some?
  }

  /** The core shows a record of that time. */
  ghost predicate ShowsAt(store: seq<Entry<CoreStatistics>>, source: Key, core: Key, from: Option<int>,
                          until: Option<int>, ts: nat)
  {
    exists e :: Shows(store, source, core, from, until, e) && Rank(e.key) == ts
  }

  /** The statistics a core shows for a time, if any. */
  ghost function CoreRecords(store: seq<Entry<CoreStatistics>>, source: Key, core: Key, from: Option<int>,
                             until: Option<int>, ts: nat): seq<Record>
  {
    if ShowsAt(store, source, core, from, until, ts) then
      var e :| Shows(store, source, core, from, until, e) && Rank(e.key) == ts;
      e.value.value.stats
    else []
  }

  /** Reading on to a record from the latest one is what Shows says about the store. */
  lemma ShowsIff(store: seq<Entry<CoreStatistics>>, source: Key, core: Key, from: Option<int>, until: Option<int>,
                 entries: seq<Entry<CoreStatistics>>, k: nat)
    requires LatestFirst(entries) && k < |entries|
    requires forall x :: x in entries <==> x in store && IsScanned(source, Some(core), from, until, x.key)
    ensures Shows(store, source, core, from, until, entries[k]) <==> ReadAt(entries, k)
  {
    if ReadAt(entries, k) {
      forall x | x in store && IsScanned(source, Some(core), from, until, x.key) && Rank(x.key) >= Rank(entries[k].key)
        ensures x.value.Some?
      {
        var j :| 0 <= j < |entries| && entries[j] == x;
      }
    }
    if Shows(store, source, core, from, until, entries[k]) {
      forall j | 0 <= j <= k
        ensures entries[j].value.Some?
      {
        assert entries[j] in entries && Rank(entries[j].key) >= Rank(entries[k].key);
      }
    }
  }

  /** What a core's iterator yields, in terms of the store. */
  lemma CoreShows(store: seq<Entry<CoreStatistics>>, source: Key, core: Key, from: Option<int>, until: Option<int>,
                  ts: nat)
    requires WellFormed(FixedMid(4), store) && NulFree(source) && |core| == 4
    ensures var lane := Readable(CorePolls(store, source, core, from, until));
            && (ts in LaneTimes(lane) <==> ShowsAt(store, source, core, from, until, ts))
            && LaneRecords(lane, ts) == CoreRecords(store, source, core, from, until, ts)
  {
    var entries := EntriesRead(store, source, core, from, until);
    EntriesShow(store, source, core, from, until, entries, ts);
  }

  /** The entries a core's iterator polls, latest first: the records of the core in the range. */
  lemma EntriesRead(store: seq<Entry<CoreStatistics>>, source: Key, core: Key, from: Option<int>, until: Option<int>)
    returns (entries: seq<Entry<CoreStatistics>>)
    requires WellFormed(FixedMid(4), store) && NulFree(source) && |core| == 4
    ensures CorePolls(store, source, core, from, until) == PollsOf(entries) && LatestFirst(entries)
    ensures forall x :: x in entries <==> x in store && IsScanned(source, Some(core), from, until, x.key)
  {
    CorePollsAreScanned(store, source, core, from, until);
    ScannedLatestFirst(store, source, core, from, until);
    var scanned := ScannedEntries(store, source, Some(core), from, until);
    entries := Reverse(scanned);
    forall x
      ensures x in entries <==> x in store && IsScanned(source, Some(core), from, until, x.key)
    {
      ScannedMembers(store, source, Some(core), from, until, x);
      ReverseMembers(scanned, entries, x);
    }
  }

  lemma ReverseMembers<T>(s: seq<T>, r: seq<T>, x: T)
    requires IsReverse(s, r)
    ensures x in r <==> x in s
  {
    if x in s {
      var i :| 0 <= i < |s| && s[i] == x;
      assert r[|s| - 1 - i] == x;
    }
  }

  lemma EntriesShow(store: seq<Entry<CoreStatistics>>, source: Key, core: Key, from: Option<int>, until: Option<int>,
                    entries: seq<Entry<CoreStatistics>>, ts: nat)
    requires LatestFirst(entries)
    requires forall x :: x in entries <==> x in store && IsScanned(source, Some(core), from, until, x.key)
    ensures var lane := Readable(PollsOf(entries));
            && (ts in LaneTimes(lane) <==> ShowsAt(store, source, core, from, until, ts))
            && LaneRecords(lane, ts) == CoreRecords(store, source, core, from, until, ts)
  {
    ReadableTimes(entries, ts);
    ReadIsShown(store, source, core, from, until, entries, ts);
    if ShowsAt(store, source, core, from, until, ts) {
      var e :| Shows(store, source, core, from, until, e) && Rank(e.key) == ts
               && CoreRecords(store, source, core, from, until, ts) == e.value.value.stats;
      ShownRecords(store, source, core, from, until, entries, e);
    } else {
      NoRecordsAt(Readable(PollsOf(entries)), ts);
    }
  }

  lemma ReadIsShown(store: seq<Entry<CoreStatistics>>, source: Key, core: Key, from: Option<int>, until: Option<int>,
                    entries: seq<Entry<CoreStatistics>>, ts: nat)
    requires LatestFirst(entries)
    requires forall x :: x in entries <==> x in store && IsScanned(source, Some(core), from, until, x.key)
    ensures (exists k: nat :: ReadAtRank(entries, k, ts)) <==> ShowsAt(store, source, core, from, until, ts)
  {
    if k: nat :| ReadAtRank(entries, k, ts) {
      ShowsIff(store, source, core, from, until, entries, k);
    }
    if e :| Shows(store, source, core, from, until, e) && Rank(e.key) == ts {
      var k :| 0 <= k < |entries| && entries[k] == e;
      ShowsIff(store, source, core, from, until, entries, k);
      assert ReadAtRank(entries, k, ts);
    }
  }

  lemma ShownRecords(store: seq<Entry<CoreStatistics>>, source: Key, core: Key, from: Option<int>, until: Option<int>,
                     entries: seq<Entry<CoreStatistics>>, e: Entry<CoreStatistics>)
    requires LatestFirst(entries) && Shows(store, source, core, from, until, e)
    requires forall x :: x in entries <==> x in store && IsScanned(source, Some(core), from, until, x.key)
    ensures LaneRecords(Readable(PollsOf(entries)), Rank(e.key)) == e.value.value.stats
  {
    var k :| 0 <= k < |entries| && entries[k] == e;
    ShowsIff(store, source, core, from, until, entries, k);
    ReadableRecords(entries, k);
  }

  /** The iterators a query opens for one source. */
  function SourcePolls(store: seq<Entry<CoreStatistics>>, source: Key, cores: seq<Key>, from: Option<int>,
                       until: Option<int>)
    : seq<Polls>
  {
    if cores == [] then []
    else [CorePolls(store, source, cores[0], from, until)] + SourcePolls(store, source, cores[1..], from, until)
  }

  /** Everything the cores of a source show for a time. */
  ghost function SourceRecords(store: seq<Entry<CoreStatistics>>, source: Key, cores: seq<Key>,
                               from: Option<int>, until: Option<int>, ts: nat): seq<Record>
  {
    if cores == [] then []
    else
      CoreRecords(store, source, cores[0], from, until, ts) + SourceRecords(store, source, cores[1..], from, until, ts)
  }

  lemma {:induction false} SourceLanes(store: seq<Entry<CoreStatistics>>, source: Key, cores: seq<Key>,
                                       from: Option<int>, until: Option<int>, ts: nat)
    requires WellFormed(FixedMid(4), store) && NulFree(source) && forall k :: 0 <= k < |cores| ==> |cores[k]| == 4
    ensures var lanes := FreshLanes(ReadableAll(SourcePolls(store, source, cores, from, until)));
            && Ordered(lanes)
            && (ts in Times(lanes) <==> exists core :: core in cores && ShowsAt(store, source, core, from, until, ts))
            && AllRecords(lanes, ts) == SourceRecords(store, source, cores, from, until, ts)
  {
    if cores != [] {
      var polls := SourcePolls(store, source, cores, from, until);
      SourceLanes(store, source, cores[1..], from, until, ts);
      CorePollsAreScanned(store, source, cores[0], from, until);
      CoreShows(store, source, cores[0], from, until, ts);
      assert polls[1..] == SourcePolls(store, source, cores[1..], from, until);
      FreshLaneInFront(polls, ts);
      assert forall core :: core in cores <==> core == cores[0] || core in cores[1..];
    }
  }

  lemma FreshLaneInFront(polls: seq<Polls>, ts: nat)
    requires polls != []
    ensures var (lanes, first, rest) := (FreshLanes(ReadableAll(polls)), Readable(polls[0]),
                                         FreshLanes(ReadableAll(polls[1..])));
            && (Descending(first) && Ordered(rest) ==> Ordered(lanes))
            && Times(lanes) == LaneTimes(first) + Times(rest)
            && AllRecords(lanes, ts) == LaneRecords(first, ts) + AllRecords(rest, ts)
  {
    var (first, rest) := (Readable(polls[0]), FreshLanes(ReadableAll(polls[1..])));
    assert ReadableAll(polls)[1..] == ReadableAll(polls[1..]);
    AllRecordsCons(first, rest, ts);
    var lanes := (if first == [] then [] else [first]) + rest;
    if first == [] {
      assert lanes == rest;
    } else {
      assert lanes[1..] == rest;
    }
  }

  /** With a time range the times shown for a source are those its cores show, latest first. */
  lemma StoreTimes(store: seq<Entry<CoreStatistics>>, source: Key, cores: seq<Key>, from: Option<int>,
                   until: Option<int>, kinds: set<RawEventKind>, ts: nat)
    requires WellFormed(FixedMid(4), store) && NulFree(source) && forall k :: 0 <= k < |cores| ==> |cores[k]| == 4
    ensures var infos := SourceStatistics(SourcePolls(store, source, cores, from, until), kinds);
            && DescendingInfos(infos)
            && (ts in InfoTimes(infos) <==>
                  exists core :: core in cores && ShowsAt(store, source, core, from, until, ts))
  {
    SourceLanes(store, source, cores, from, until, ts);
    FullTimes(FreshLanes(ReadableAll(SourcePolls(store, source, cores, from, until))), kinds);
  }

  /** With a time range each total shown for a source is the sum over all cores of what the store
      holds for that time and kind, in 64-bit arithmetic. */
  lemma StoreStatisticsConserved(store: seq<Entry<CoreStatistics>>, source: Key, cores: seq<Key>,
                                 from: Option<int>, until: Option<int>, kinds: set<RawEventKind>,
                                 i: nat, kind: RawEventKind)
    requires WellFormed(FixedMid(4), store) && NulFree(source) && forall k :: 0 <= k < |cores| ==> |cores[k]| == 4
    requires i < |SourceStatistics(SourcePolls(store, source, cores, from, until), kinds)|
    ensures var info := SourceStatistics(SourcePolls(store, source, cores, from, until), kinds)[i];
            var records := SourceRecords(store, source, cores, from, until, info.timestamp);
            && (kind in info.totals <==> kind in kinds && Mentions(records, kind))
            && (kind in info.totals ==>
                  info.totals[kind] == Totals(CountOf(records, kind) % 0x1_0000_0000_0000_0000,
                                              SizeOf(records, kind) % 0x1_0000_0000_0000_0000))
  {
    var info := SourceStatistics(SourcePolls(store, source, cores, from, until), kinds)[i];
    SourceLanes(store, source, cores, from, until, info.timestamp);
    StatisticsConserved(FreshLanes(ReadableAll(SourcePolls(store, source, cores, from, until))), kinds, i, kind);
  }

  /** A concrete query without a time range: the second record shown is the first source's third. */
  lemma CarriedLaneExample()
    ensures var first: Polls := [Some(Sample(30, 60, [])), Some(Sample(20, 60, [])), Some(Sample(10, 60, []))];
            var second: Polls := [Some(Sample(5, 60, []))];
            && AnswerInTurn([[first], [second]], 0, {}) == [Info(30, 60, map[])]
            && AnswerInTurn([[first], [second]], 1, {}) == [Info(10, 60, map[])]
  {
    var first: Polls := [Some(Sample(30, 60, [])), Some(Sample(20, 60, [])), Some(Sample(10, 60, []))];
    var second: Polls := [Some(Sample(5, 60, []))];
    var (sources, carried) := ([[first], [second]], first[2..]);
    OneFreshPolls(first);
    OneFreshPolls(second);
    assert [] + [first] == [first] && [carried] + [second] == [carried, second];
    OneIterator(first);
    OneLeftOver(first);
    assert first[1..][1..] == carried;
    assert HeldBefore(sources, 1) == LeftOver(HeldBefore(sources, 0) + [first]) == [carried];
    TwoIterators(carried, second);
  }

  lemma OneFreshPolls(polls: Polls)
    requires Yields(polls)
    ensures FreshPolls([polls]) == [polls]
  {
    assert [polls][1..] == [];
  }

  /** A single iterator with a second record is left behind its second record. */
  lemma OneLeftOver(polls: Polls)
    requires Yields(polls) && Yields(polls[1..]) && polls[0].value.stats == []
    ensures LeftOver([polls]) == [polls[1..][1..]]
  {
    OneIterator(polls);
    var (sample, polled) := (polls[0].value, PolledOnce([polls]));
    assert [polls][1..] == [] && polled == [polls[1..]] && polled[1..] == [] && [sample][1..] == [];
    assert AdvanceIters([sample], polled, sample.timestamp)
         == [polled[0][1..]] + AdvanceIters([], [], sample.timestamp);
  }

  lemma OneIterator(polls: Polls)
    requires Yields(polls) && polls[0].value.stats == []
    ensures var sample := polls[0].value;
            && Heads(FreshLanes(ReadableAll([polls]))) == [sample]
            && LatestAnswer([polls], {}) == [Info(sample.timestamp, sample.period, map[])]
  {
    var sample := polls[0].value;
    assert [polls][1..] == [];
    var lanes := ReadableAll([polls]);
    assert lanes == [Readable(polls)] && lanes[1..] == [];
    assert FreshLanes(lanes) == lanes;
    assert Heads(lanes) == [sample];
    assert AddHeads(map[], [sample], sample.timestamp, {}) == AddHeads(map[], [sample][1..], sample.timestamp, {});
  }

  lemma TwoIterators(a: Polls, b: Polls)
    requires Yields(a) && Yields(b) && a[0].value.timestamp > b[0].value.timestamp && a[0].value.stats == []
    ensures var sample := a[0].value;
            LatestAnswer([a, b], {}) == [Info(sample.timestamp, sample.period, map[])]
  {
    var (sample, other) := (a[0].value, b[0].value);
    assert [a, b][1..] == [b] && [b][1..] == [];
    var lanes := ReadableAll([a, b]);
    assert lanes == [Readable(a), Readable(b)] && lanes[1..] == [Readable(b)] && [Readable(b)][1..] == [];
    assert FreshLanes(lanes) == [Readable(a)] + FreshLanes(lanes[1..]) == lanes;
    var heads := Heads(lanes);
    assert heads == [sample, other] && heads[1..] == [other] && [other][1..] == [];
    assert LatestIndex(heads) == 0;
    assert AddHeads(map[], heads, sample.timestamp, {}) == AddHeads(map[], [other], sample.timestamp, {});
    assert AddHeads(map[], [other], sample.timestamp, {}) == AddHeads(map[], [other][1..], sample.timestamp, {});
  }
}
