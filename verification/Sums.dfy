/** Sums of sizes, the offset of the k-th of several consecutive blocks, and the blocks themselves
    put together. */
module Sums {
  function Sum(s: seq<nat>, k: nat): nat
    requires k <= |s|
  {
    if k == 0 then 0 else Sum(s, k - 1) + s[k - 1]
  }

  lemma {:induction false} SumMonotone(s: seq<nat>, i: nat, j: nat)
    requires i <= j <= |s|
    ensures Sum(s, i) <= Sum(s, j)
    ensures i < j ==> Sum(s, i) + s[i] <= Sum(s, j)
    decreases j
  {
    if i + 1 < j {
      SumMonotone(s, i, j - 1);
    }
  }

  /** Sums keep an account that is right term by term. */
  lemma {:induction false} SumBalance(s: seq<nat>, slack: seq<nat>, t: seq<nat>, extra: seq<nat>, k: nat)
    requires k <= |s| == |slack| == |t| == |extra|
    requires forall i :: 0 <= i < k ==> s[i] + slack[i] == t[i] + 4 * extra[i]
    ensures Sum(s, k) + Sum(slack, k) == Sum(t, k) + 4 * Sum(extra, k)
  {
    if k > 0 {
      SumBalance(s, slack, t, extra, k - 1);
    }
  }

  lemma {:induction false} SumConstant(s: seq<nat>, c: nat, k: nat)
    requires k <= |s| && forall i :: 0 <= i < |s| ==> s[i] == c
    ensures Sum(s, k) == k * c
  {
    if k > 0 {
      SumConstant(s, c, k - 1);
    }
  }

  lemma {:induction false} SumAligned(s: seq<nat>, k: nat)
    requires k <= |s|
    requires forall i :: 0 <= i < k ==> s[i] % 4 == 0
    ensures Sum(s, k) % 4 == 0
  {
    if k > 0 {
      SumAligned(s, k - 1);
    }
  }

  lemma {:induction false} SumPrepend(a: nat, s: seq<nat>, k: nat)
    requires k <= |s|
    ensures Sum([a] + s, k + 1) == a + Sum(s, k)
  {
    if k > 0 {
      SumPrepend(a, s, k - 1);
    }
  }

  /** Sums only look at the terms they add. */
  lemma {:induction false} SumSame(s: seq<nat>, t: seq<nat>, k: nat)
    requires k <= |s| && k <= |t|
    requires forall i :: 0 <= i < k ==> s[i] == t[i]
    ensures Sum(s, k) == Sum(t, k)
  {
    if k > 0 {
      SumSame(s, t, k - 1);
    }
  }

  /** The sum of two interleaved sequences. */
  lemma {:induction false} SumInterleaved(s: seq<nat>, t: seq<nat>, u: seq<nat>, k: nat)
    requires k <= |s| == |t| && |u| == 2 * |s|
    requires forall i :: 0 <= i < |s| ==> u[2 * i] == s[i] && u[2 * i + 1] == t[i]
    ensures Sum(u, 2 * k) == Sum(s, k) + Sum(t, k)
  {
    if k > 0 {
      SumInterleaved(s, t, u, k - 1);
      assert Sum(u, 2 * k) == Sum(u, 2 * k - 1) + u[2 * (k - 1) + 1];
    }
  }

  function Concat<T>(parts: seq<seq<T>>): seq<T>
  {
    if parts == [] then [] else Concat(parts[..|parts| - 1]) + parts[|parts| - 1]
  }

  lemma ConcatOne<T>(parts: seq<seq<T>>, p: seq<T>)
    ensures Concat(parts + [p]) == Concat(parts) + p
  {
    assert (parts + [p])[..|parts|] == parts;
  }

  lemma Associates<T>(a: seq<T>, b: seq<T>, c: seq<T>)
    ensures a + (b + c) == (a + b) + c
  {
  }
}
