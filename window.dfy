/**
  The rolling history: a capacity-bounded, first-in first-out window of
  readings, and the latest-first view of its newest entries that the
  history table shows.
 */
module Window {
  import opened Readings

  /** How many readings the history keeps. */
  const Capacity: nat := 50

  /** How many readings the history table shows. */
  const TableRows: nat := 10

  /** The last `n` elements of `s`, or all of `s` when it is shorter
      (the DataFrame's `tail(n)`). */
  function Tail<T>(s: seq<T>, n: nat): (t: seq<T>)
    ensures |t| == if |s| <= n then |s| else n
    ensures forall i :: 0 <= i < |t| ==> t[i] == s[|s| - |t| + i]
  {
    if |s| <= n then s else s[|s| - n..]
  }

  /** The history after one request has appended reading `r`: `r` goes
      last, and only the newest `Capacity` readings are kept. */
  function Appended(history: seq<Reading>, r: Reading): (w: seq<Reading>)
    ensures 0 < |w| <= Capacity && |w| <= |history| + 1
    ensures w[|w| - 1] == r
  {
    Tail(history + [r], Capacity)
  }

  /** Appending is first-in first-out: what stays of the old history is an
      unchanged, contiguous run of its newest entries; nothing is evicted
      while there is room, and exactly the oldest entry is evicted from a
      full window. */
  lemma AppendedEvictsOldest(history: seq<Reading>, r: Reading)
    ensures var w := Appended(history, r);
      && w[..|w| - 1] == history[|history| - (|w| - 1)..]
      && (|history| < Capacity ==> w == history + [r])
      && (|history| == Capacity ==> w == history[1..] + [r])
  {
    var extended := history + [r];
    var w := Appended(history, r);
    assert w == extended[|extended| - |w|..];
    assert w[..|w| - 1] == history[|history| - (|w| - 1)..];
  }

  /** The history after appending each of `rs` in turn. */
  function AppendAll(history: seq<Reading>, rs: seq<Reading>): (w: seq<Reading>)
    ensures rs != [] ==> 0 < |w| <= Capacity && w[|w| - 1] == rs[|rs| - 1]
    decreases |rs|
  {
    if rs == [] then history else AppendAll(Appended(history, rs[0]), rs[1..])
  }

  /** However many requests have been served, the history holds exactly the
      newest `Capacity` of all readings ever appended, in arrival order. */
  lemma {:induction false} AppendAllKeepsNewest(history: seq<Reading>, rs: seq<Reading>)
    requires |history| <= Capacity
    ensures AppendAll(history, rs) == Tail(history + rs, Capacity)
    decreases |rs|
  {
    if rs == [] {
      assert history + rs == history;
    } else {
      assert rs == [rs[0]] + rs[1..];
      assert (history + [rs[0]]) + rs[1..] == history + rs;
      var next := Appended(history, rs[0]);
      assert next == Tail(history + [rs[0]], Capacity);
      assert AppendAll(history, rs) == AppendAll(next, rs[1..]);
      AppendAllKeepsNewest(next, rs[1..]);
      TailOfTail(history + [rs[0]], rs[1..], Capacity);
    }
  }

  /** Dropping all but the last `n` elements before appending more and then
      keeping the last `n` loses nothing. */
  lemma {:induction false} TailOfTail<T>(s: seq<T>, u: seq<T>, n: nat)
    ensures Tail(Tail(s, n) + u, n) == Tail(s + u, n)
  {
    var t := Tail(s, n);
    var a := Tail(t + u, n);
    var b := Tail(s + u, n);
    assert |a| == |b|;
    forall i | 0 <= i < |a|
      ensures a[i] == b[i]
    {
      // position i of either tail, counted in the sequence it was cut from
      var k := |t + u| - |a| + i;
      var j := |s + u| - |b| + i;
      assert a[i] == (t + u)[k] && b[i] == (s + u)[j];
      assert k == j - (|s| - |t|);
      if j < |s| {
        assert (t + u)[k] == t[k] == s[j];
      } else {
        assert (t + u)[k] == u[j - |s|];
      }
    }
  }

  /** Once at least `Capacity` readings have arrived since any state of
      the window (the empty one at start-up included), the history is
      exactly the newest `Capacity` of them, in arrival order. */
  lemma {:induction false} NewestFiftyAfterWarmUp(history: seq<Reading>, rs: seq<Reading>)
    requires |history| <= Capacity && |rs| >= Capacity
    ensures AppendAll(history, rs) == rs[|rs| - Capacity..]
  {
    AppendAllKeepsNewest(history, rs);
    TailWithinSuffix(history, rs, Capacity);
  }

  /** The last `n` elements of `s + u` all come from `u` when `u` has at
      least `n` of them. */
  lemma {:induction false} TailWithinSuffix<T>(s: seq<T>, u: seq<T>, n: nat)
    requires |u| >= n
    ensures Tail(s + u, n) == u[|u| - n..]
  {
    var all := s + u;
    var t := Tail(all, n);
    assert |t| == n;
    forall i | 0 <= i < n
      ensures t[i] == u[|u| - n + i]
    {
      assert t[i] == all[|all| - n + i];
    }
  }

  /** `s` in reverse order. */
  function Reverse<T>(s: seq<T>): (r: seq<T>)
    ensures |r| == |s|
    ensures forall i :: 0 <= i < |s| ==> r[i] == s[|s| - 1 - i]
  {
    if s == [] then [] else Reverse(s[1..]) + [s[0]]
  }

  /** The newest `k` entries of the history (fewer when it is shorter),
      newest first: entry `i` is the one that arrived `i` requests before
      the newest. */
  function LatestFirst(history: seq<Reading>, k: nat): (t: seq<Reading>)
    ensures |t| == if |history| <= k then |history| else k
    ensures forall i :: 0 <= i < |t| ==> t[i] == history[|history| - 1 - i]
  {
    Reverse(Tail(history, k))
  }
}
