/** Small sequence vocabulary: prefixes, reversal and flattening. */
module Sequences {

  /** The first `n` elements, or all of them when there are fewer. */
  function Take<T>(s: seq<T>, n: nat): (r: seq<T>)
    ensures r <= s
    ensures |r| == if n < |s| then n else |s|
  {
    if n < |s| then s[..n] else s
  }

  function Reverse<T>(s: seq<T>): (r: seq<T>)
    ensures |r| == |s|
    ensures forall i {:trigger r[i]} :: 0 <= i < |s| ==> r[i] == s[|s| - 1 - i]
  {
    if s == [] then [] else Reverse(s[1..]) + [s[0]]
  }

  ghost predicate IsReverse<T>(s: seq<T>, r: seq<T>) {
    |r| == |s| && forall i {:trigger r[i]} :: 0 <= i < |s| ==> r[i] == s[|s| - 1 - i]
  }

  lemma ReverseConcat<T>(a: seq<T>, b: seq<T>)
    ensures Reverse(a + b) == Reverse(b) + Reverse(a)
  {
  }

  lemma ReverseReverse<T>(s: seq<T>)
    ensures Reverse(Reverse(s)) == s
  {
  }

  function Flatten<T>(ss: seq<seq<T>>): seq<T>
  {
    if ss == [] then [] else ss[0] + Flatten(ss[1..])
  }

  lemma {:induction false} FlattenConcat<T>(a: seq<seq<T>>, b: seq<seq<T>>)
    ensures Flatten(a + b) == Flatten(a) + Flatten(b)
  {
    if a == [] {
      assert a + b == b;
    } else {
      assert (a + b)[1..] == a[1..] + b;
      FlattenConcat(a[1..], b);
    }
  }

  lemma Reassociate<T>(a: seq<T>, b: seq<T>, c: seq<T>)
    ensures a + b + c == a + (b + c)
  {
  }

  lemma UpdateAround<T>(s: seq<T>, idx: nat, x: T)
    requires idx < |s|
    ensures s[idx := x] == s[..idx] + [x] + s[idx + 1..]
    ensures s == s[..idx] + [s[idx]] + s[idx + 1..]
  {
  }

  /** Each head in front of the tail at its index. */
  function Zip<T>(heads: seq<T>, tails: seq<seq<T>>): (r: seq<seq<T>>)
    requires |heads| <= |tails|
    ensures |r| == |heads|
    ensures forall k {:trigger r[k]} :: 0 <= k < |heads| ==> r[k] == [heads[k]] + tails[k] && r[k] != []
  {
    if heads == [] then [] else [[heads[0]] + tails[0]] + Zip(heads[1..], tails[1..])
  }

  /** How many elements the sequences hold in all. */
  function Total<T>(ss: seq<seq<T>>): nat {
    if ss == [] then 0 else |ss[0]| + Total(ss[1..])
  }

  lemma {:induction false} TotalDrop<T>(ss: seq<seq<T>>, k: nat)
    requires k < |ss| && ss[k] != []
    ensures Total(ss[k := ss[k][1..]]) == Total(ss) - 1
  {
    if k > 0 {
      TotalDrop(ss[1..], k - 1);
      assert ss[k := ss[k][1..]][1..] == ss[1..][k - 1 := ss[1..][k - 1][1..]];
    }
  }

  lemma {:induction false} TotalZero<T>(ss: seq<seq<T>>)
    ensures Total(ss) == 0 <==> forall k :: 0 <= k < |ss| ==> ss[k] == []
  {
    if ss != [] {
      TotalZero(ss[1..]);
      if Total(ss) == 0 {
        forall k | 0 <= k < |ss|
          ensures ss[k] == []
        {
          assert k > 0 ==> ss[k] == ss[1..][k - 1];
        }
      }
    }
  }

  lemma {:induction false} TotalConcat<T>(a: seq<seq<T>>, b: seq<seq<T>>)
    ensures Total(a + b) == Total(a) + Total(b)
  {
    if a == [] {
      assert a + b == b;
    } else {
      assert (a + b)[1..] == a[1..] + b;
      TotalConcat(a[1..], b);
    }
  }
}
