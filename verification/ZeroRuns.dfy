/** The search for the longest run of zeros in module/cdp_proc_print_sockaddr.c, for lists of
    any length. */
module ZeroRuns {
  /** The number of zeros from index i on. */
  function RunAt(h: seq<nat>, i: nat): (n: nat)
    requires i <= |h|
    ensures i + n <= |h|
    decreases |h| - i
  {
    if i == |h| || h[i] != 0 then 0 else 1 + RunAt(h, i + 1)
  }

  /** The start and length of the best run among those starting before i; -1 if there is none. */
  function Best(h: seq<nat>, i: nat): (r: (int, nat))
    requires i <= |h|
    ensures r.1 == 0 ==> r.0 == -1
    ensures r.1 > 0 ==> 0 <= r.0 < i && r.1 == RunAt(h, r.0)
  {
    if i == 0 then (-1, 0)
    else
      var b := Best(h, i - 1);
      var n := RunAt(h, i - 1);
      if n > b.1 then (i - 1, n) else b
  }

  function Longest(h: seq<nat>): (int, nat) {
    Best(h, |h|)
  }

  predicate ZeroRun(h: seq<nat>, i: nat, n: nat) {
    i + n <= |h| && forall k | i <= k < i + n :: h[k] == 0
  }

  lemma {:induction false} RunAtIsMaximal(h: seq<nat>, i: nat, n: nat)
    requires i <= |h|
    ensures ZeroRun(h, i, RunAt(h, i))
    ensures ZeroRun(h, i, n) ==> n <= RunAt(h, i)
    decreases |h| - i
  {
    if i < |h| && h[i] == 0 {
      RunAtIsMaximal(h, i + 1, if n > 0 then n - 1 else 0);
    }
  }

  lemma {:induction false} BestIsLeftmostLongest(h: seq<nat>, i: nat, j: nat)
    requires i <= |h| && j < i
    ensures RunAt(h, j) <= Best(h, i).1
    ensures Best(h, i).1 > 0 && RunAt(h, j) == Best(h, i).1 ==> Best(h, i).0 <= j
  {
    if j < i - 1 {
      BestIsLeftmostLongest(h, i - 1, j);
    } else if Best(h, i - 1).1 > 0 {
      assert Best(h, i - 1).0 <= j;
    }
  }

  /** The search finds the longest run of zeros, and the leftmost one of that length. */
  lemma LongestIsLeftmostLongest(h: seq<nat>, j: nat, n: nat)
    requires ZeroRun(h, j, n) && n > 0
    ensures var (start, length) := Longest(h);
            && start >= 0 && ZeroRun(h, start, length)
            && n <= length && (n == length ==> start <= j)
  {
    RunAtIsMaximal(h, j, n);
    BestIsLeftmostLongest(h, |h|, j);
    RunAtIsMaximal(h, Longest(h).0, 0);
  }

  lemma NothingFoundIffNoZero(h: seq<nat>)
    ensures Longest(h) == (-1, 0) <==> 0 !in h
  {
    if j :| 0 <= j < |h| && h[j] == 0 {
      LongestIsLeftmostLongest(h, j, 1);
    }
  }

  lemma NoLaterImprovement(h: seq<nat>, i: nat)
    requires i <= |h| && i + Best(h, i).1 >= |h|
    ensures Best(h, i) == Longest(h)
    decreases |h| - i
  {
    if i < |h| {
      NoLaterImprovement(h, i + 1);
    }
  }

  /** The loop stops as soon as no longer run can start any more. */
  method FindLongest(h: seq<nat>) returns (longestIndex: int, longest: nat)
    ensures (longestIndex, longest) == Longest(h)
  {
    longestIndex := -1;
    longest := 0;
    var i := 0;
    while i + longest < |h|
      invariant i <= |h| && (longestIndex, longest) == Best(h, i)
      decreases |h| - i
    {
      var count := 0;
      while count + i < |h| && h[i + count] == 0
        invariant count + i <= |h| && RunAt(h, i) == count + RunAt(h, i + count)
      {
        count := count + 1;
      }
      if count > longest {
        longest := count;
        longestIndex := i;
      }
      i := i + 1;
    }
    NoLaterImprovement(h, i);
  }
}
