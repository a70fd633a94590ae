/** Placing `n` nodes on hosts that already carry load: what any placement must
    reach, and what a good one does. */
module Placement {

  function Sum(s: seq<nat>): nat {
    if s == [] then 0 else s[0] + Sum(s[1..])
  }

  function Max(s: seq<nat>): (m: nat)
    requires s != []
    ensures m in s && forall i | 0 <= i < |s| :: s[i] <= m
  {
    if |s| == 1 then s[0]
    else
      var m := Max(s[1..]);
      assert forall i | 1 <= i < |s| :: s[i] == s[1..][i - 1];
      if s[0] <= m then m else s[0]
  }

  function CeilDiv(a: nat, b: nat): nat
    requires b > 0
  {
    (a + b - 1) / b
  }

  /** `loads` after placing `alloc[i]` nodes on host `i`. */
  function After(loads: seq<nat>, alloc: seq<nat>): (r: seq<nat>)
    requires |loads| == |alloc|
    ensures |r| == |loads|
  {
    seq(|loads|, i requires 0 <= i < |loads| => loads[i] + alloc[i])
  }

  predicate IsPlacement(loads: seq<nat>, alloc: seq<nat>, n: nat) {
    |alloc| == |loads| && Sum(alloc) == n
  }

  /** The highest load that cannot be avoided. */
  function Best(loads: seq<nat>, n: nat): nat
    requires loads != []
  {
    var c := CeilDiv(Sum(loads) + n, |loads|);
    if Max(loads) >= c then Max(loads) else c
  }

  ghost predicate Optimal(loads: seq<nat>, alloc: seq<nat>, n: nat) {
    loads != [] && IsPlacement(loads, alloc, n) && Max(After(loads, alloc)) == Best(loads, n)
  }

  // ---- sums ----------------------------------------------------------------

  lemma {:induction false} SumAfter(loads: seq<nat>, alloc: seq<nat>)
    requires |loads| == |alloc|
    ensures Sum(After(loads, alloc)) == Sum(loads) + Sum(alloc)
  {
    if loads != [] {
      SumAfter(loads[1..], alloc[1..]);
      assert After(loads, alloc)[1..] == After(loads[1..], alloc[1..]);
    }
  }

  lemma {:induction false} SumAtMost(s: seq<nat>, m: nat)
    requires forall i | 0 <= i < |s| :: s[i] <= m
    ensures Sum(s) <= |s| * m
  {
    if s != [] {
      SumAtMost(s[1..], m);
      assert |s| * m == m + (|s| - 1) * m;
    }
  }

  lemma {:induction false} SumAtLeast(s: seq<nat>, m: nat)
    requires forall i | 0 <= i < |s| :: s[i] >= m
    ensures Sum(s) >= |s| * m
    ensures (exists i :: 0 <= i < |s| && s[i] > m) ==> Sum(s) > |s| * m
  {
    if s != [] {
      SumAtLeast(s[1..], m);
      assert |s| * m == m + (|s| - 1) * m;
      if i :| 0 <= i < |s| && s[i] > m {
        assert i > 0 ==> s[1..][i - 1] > m;
      }
    }
  }

  lemma {:induction false} SumSnoc(s: seq<nat>, v: nat)
    ensures Sum(s + [v]) == Sum(s) + v
  {
    if s == [] {
      assert s + [v] == [v] && [v][1..] == [];
    } else {
      assert (s + [v])[1..] == s[1..] + [v];
      SumSnoc(s[1..], v);
    }
  }

  lemma PrefixNext(s: seq<nat>, i: nat)
    requires i < |s|
    ensures Sum(s[..i + 1]) == Sum(s[..i]) + s[i]
  {
    assert s[..i + 1] == s[..i] + [s[i]];
    SumSnoc(s[..i], s[i]);
  }

  lemma {:induction false} PrefixGrows(s: seq<nat>, i: nat, j: nat)
    requires i <= j <= |s|
    ensures Sum(s[..i]) <= Sum(s[..j])
    ensures j == |s| ==> Sum(s[..j]) == Sum(s)
    decreases j
  {
    if j == |s| {
      assert s[..j] == s;
    }
    if i < j {
      PrefixGrows(s, i, j - 1);
      PrefixNext(s, j - 1);
    }
  }

  lemma {:induction false} SumUpdate(s: seq<nat>, i: nat, v: nat)
    requires i < |s|
    ensures Sum(s[i := v]) == Sum(s) - s[i] + v
  {
    if i == 0 {
      assert s[0 := v][1..] == s[1..];
    } else {
      SumUpdate(s[1..], i - 1, v);
      assert s[i := v][1..] == s[1..][i - 1 := v];
    }
  }

  // ---- ceiling -------------------------------------------------------------

  lemma CeilAtMost(a: nat, b: nat, m: nat)
    requires b > 0 && a <= b * m
    ensures CeilDiv(a, b) <= m
  {
    var c := CeilDiv(a, b);
    assert b * c <= a + b - 1 && b * (m + 1) == b * m + b;
    MulCancel(b, c, m + 1);
  }

  lemma CeilAtLeast(a: nat, b: nat, m: nat)
    requires b > 0 && a > b * m
    ensures CeilDiv(a, b) >= m + 1
  {
    var c := CeilDiv(a, b);
    assert a + b - 1 < b * c + b && b * (c + 1) == b * c + b && b * (m + 1) == b * m + b;
    MulCancel(b, m + 1, c + 1);
  }

  lemma MulCancel(b: nat, x: nat, y: nat)
    requires b * x < b * y
    ensures x < y
  {
    assert x >= y ==> b * (x - y) >= 0 && b * x == b * y + b * (x - y);
  }

  // ---- no placement is better ----------------------------------------------

  /** No placement keeps every host below `Best`. */
  lemma LowerBound(loads: seq<nat>, alloc: seq<nat>, n: nat)
    requires loads != [] && IsPlacement(loads, alloc, n)
    ensures Max(After(loads, alloc)) >= Best(loads, n)
  {
    var after := After(loads, alloc);
    var m := Max(after);
    SumAfter(loads, alloc);
    SumAtMost(after, m);
    CeilAtMost(Sum(loads) + n, |loads|, m);
    var i :| 0 <= i < |loads| && loads[i] == Max(loads);
    assert after[i] >= loads[i];
  }

  /** An optimal placement is at least as good as any other. */
  lemma OptimalIsBest(loads: seq<nat>, alloc: seq<nat>, other: seq<nat>, n: nat)
    requires Optimal(loads, alloc, n) && IsPlacement(loads, other, n)
    ensures Max(After(loads, alloc)) <= Max(After(loads, other))
  {
    LowerBound(loads, other, n);
  }

  /** Staying at the initial maximum is optimal. */
  lemma WithinMaxIsOptimal(loads: seq<nat>, alloc: seq<nat>, n: nat)
    requires loads != [] && IsPlacement(loads, alloc, n)
    requires forall i | 0 <= i < |loads| :: loads[i] + alloc[i] <= Max(loads)
    ensures Optimal(loads, alloc, n)
  {
    LowerBound(loads, alloc, n);
  }

  /** So is a placement in which no loaded host is more than one above another
      host. */
  lemma BalancedIsOptimal(loads: seq<nat>, alloc: seq<nat>, n: nat)
    requires loads != [] && IsPlacement(loads, alloc, n)
    requires forall i, j | 0 <= i < |loads| && 0 <= j < |loads| && alloc[i] > 0 ::
               loads[i] + alloc[i] <= loads[j] + alloc[j] + 1
    ensures Optimal(loads, alloc, n)
  {
    var after := After(loads, alloc);
    LowerBound(loads, alloc, n);
    if Max(after) > Max(loads) {
      var i :| 0 <= i < |after| && after[i] == Max(after);
      assert alloc[i] > 0;
      SumAfter(loads, alloc);
      PeakIsCeil(after, Max(after));
    }
  }

  /** When nobody is more than one below the peak the peak is the average, rounded
      up. */
  lemma PeakIsCeil(s: seq<nat>, m: nat)
    requires s != [] && m > 0 && Max(s) == m && forall j | 0 <= j < |s| :: s[j] >= m - 1
    ensures CeilDiv(Sum(s), |s|) >= m
  {
    SumAbove(s, m - 1);
    CeilAtLeast(Sum(s), |s|, m - 1);
  }

  lemma SumAbove(s: seq<nat>, m: nat)
    requires forall j | 0 <= j < |s| :: s[j] >= m
    requires s != [] && Max(s) > m
    ensures Sum(s) > |s| * m
  {
    var i :| 0 <= i < |s| && s[i] == Max(s);
    SumAtLeast(s, m);
  }
}
