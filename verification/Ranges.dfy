/** Integer ranges and lists of them: what the methods of `HexRanges`
    (runtime/singularity.py) compute, on plain values. */
module Ranges {
  import opened Lists

  datatype Range = Range(lo: int, hi: int)

  /** Python compares the two-element lists `[lo, hi]` lexicographically. */
  predicate Lt(a: Range, b: Range) {
    a.lo < b.lo || (a.lo == b.lo && a.hi < b.hi)
  }

  predicate Sorted(s: seq<Range>) {
    forall i, j | 0 <= i < j < |s| :: !Lt(s[j], s[i])
  }

  predicate Proper(s: seq<Range>) {
    forall i | 0 <= i < |s| :: s[i].lo <= s[i].hi
  }

  /** No range reaches the next one. */
  predicate Separated(s: seq<Range>) {
    forall i, j | 0 <= i < j < |s| :: s[i].hi < s[j].lo
  }

  /** Sorted, disjoint, no empty range. */
  predicate Normal(s: seq<Range>) {
    Proper(s) && Separated(s)
  }

  predicate Within(s: seq<Range>, min: int, max: int) {
    forall i | 0 <= i < |s| :: min <= s[i].lo && s[i].hi <= max
  }

  predicate In(x: int, r: Range) {
    r.lo <= x <= r.hi
  }

  /** `x` belongs to one of the ranges. */
  predicate Has(s: seq<Range>, x: int) {
    exists i | 0 <= i < |s| :: In(x, s[i])
  }

  lemma HasCons(s: seq<Range>, x: int)
    requires s != []
    ensures Has(s, x) <==> In(x, s[0]) || Has(s[1..], x)
  {
    if Has(s, x) && !In(x, s[0]) {
      var i :| 0 <= i < |s| && In(x, s[i]);
      assert In(x, s[1..][i - 1]);
    }
    if Has(s[1..], x) {
      var i :| 0 <= i < |s[1..]| && In(x, s[1..][i]);
      assert In(x, s[i + 1]);
    }
  }

  lemma HasConcat(s: seq<Range>, t: seq<Range>, x: int)
    ensures Has(s + t, x) <==> Has(s, x) || Has(t, x)
  {
    if Has(s, x) {
      var i :| 0 <= i < |s| && In(x, s[i]);
      assert In(x, (s + t)[i]);
    }
    if Has(t, x) {
      var i :| 0 <= i < |t| && In(x, t[i]);
      assert In(x, (s + t)[|s| + i]);
    }
    if Has(s + t, x) {
      var i :| 0 <= i < |s + t| && In(x, (s + t)[i]);
      assert i < |s| ==> In(x, s[i]);
      assert i >= |s| ==> In(x, t[i - |s|]);
    }
  }

  lemma HasThree(a: seq<Range>, r: Range, b: seq<Range>, x: int)
    ensures Has(a + [r] + b, x) <==> Has(a, x) || In(x, r) || Has(b, x)
  {
    HasConcat(a + [r], b, x);
    HasConcat(a, [r], x);
    HasCons([r], x);
  }

  lemma NormalAround(a: seq<Range>, r: Range, b: seq<Range>)
    requires Normal(a) && Normal(b) && r.lo <= r.hi
    requires a == [] || a[|a| - 1].hi < r.lo
    requires b == [] || r.hi < b[0].lo
    ensures Normal(a + [r] + b)
  {
    var t := a + [r] + b;
    forall i | 0 <= i < |a| ensures a[i].hi < r.lo {
      assert i < |a| - 1 ==> a[i].hi < a[|a| - 1].lo;
    }
    forall j | 0 <= j < |b| ensures r.hi < b[j].lo {
      assert j > 0 ==> b[0].hi < b[j].lo;
    }
    forall i, j | 0 <= i < j < |t| ensures t[i].hi < t[j].lo {
      assert t[i] == if i < |a| then a[i] else if i == |a| then r else b[i - |a| - 1];
      assert t[j] == if j < |a| then a[j] else if j == |a| then r else b[j - |a| - 1];
    }
  }

  lemma NormalSlice(s: seq<Range>, i: nat, j: nat)
    requires Normal(s) && i <= j <= |s|
    ensures Normal(s[i..j])
  {
  }

  lemma NormalCons(r: Range, t: seq<Range>)
    requires Normal(t) && r.lo <= r.hi
    requires t != [] ==> r.hi < t[0].lo
    ensures Normal([r] + t)
  {
    NormalAround([], r, t);
    assert [r] + t == [] + [r] + t;
  }

  lemma NormalTail(s: seq<Range>)
    requires Normal(s) && s != []
    ensures Normal(s[1..])
    ensures s[1..] != [] ==> s[0].hi < s[1..][0].lo <= s[1..][0].hi
  {
  }

  // ---- bisect and sort ----------------------------------------------------

  /** `bisect(s, v)`: the position after every element not greater than `v`. */
  function Bisect(s: seq<Range>, v: Range): (k: nat)
    ensures k <= |s|
    ensures k < |s| ==> Lt(v, s[k])
    ensures forall i | 0 <= i < k :: !Lt(v, s[i])
  {
    if s == [] || Lt(v, s[0]) then 0 else 1 + Bisect(s[1..], v)
  }

  lemma BisectUnique(s: seq<Range>, v: Range, k: nat)
    requires k <= |s|
    requires k < |s| ==> Lt(v, s[k])
    requires forall i | 0 <= i < k :: !Lt(v, s[i])
    ensures k == Bisect(s, v)
  {
  }

  /** `insort`. */
  function Insort(s: seq<Range>, v: Range): seq<Range> {
    var k := Bisect(s, v);
    s[..k] + [v] + s[k..]
  }

  /** `list.sort()` on ranges, as repeated stable insertion. */
  function Sort(s: seq<Range>): seq<Range> {
    if s == [] then [] else Insort(Sort(s[..|s| - 1]), s[|s| - 1])
  }

  lemma InsortSorted(s: seq<Range>, v: Range)
    requires Sorted(s)
    ensures Sorted(Insort(s, v))
  {
    var k := Bisect(s, v);
    var t := Insort(s, v);
    assert forall i | 0 <= i < |t| :: t[i] == if i < k then s[i] else if i == k then v else s[i - 1];
    forall i, j | 0 <= i < j < |t| ensures !Lt(t[j], t[i]) {
      if j == k {
        assert t[i] == s[i];
      } else if i == k {
        assert t[j] == s[j - 1];
        assert !Lt(s[j - 1], s[k]) || j - 1 == k;
      }
    }
  }

  lemma InsortMultiset(s: seq<Range>, v: Range)
    ensures multiset(Insort(s, v)) == multiset(s) + multiset{v}
  {
    var k := Bisect(s, v);
    assert s == s[..k] + s[k..];
  }

  lemma Last(s: seq<Range>)
    requires s != []
    ensures s == s[..|s| - 1] + [s[|s| - 1]]
    ensures multiset(s) == multiset(s[..|s| - 1]) + multiset{s[|s| - 1]}
  {
    assert s == s[..|s| - 1] + [s[|s| - 1]];
  }

  lemma {:induction false} SortSorts(s: seq<Range>)
    ensures Sorted(Sort(s))
    ensures multiset(Sort(s)) == multiset(s)
    ensures |Sort(s)| == |s|
  {
    if s != [] {
      SortSorts(s[..|s| - 1]);
      InsortSorted(Sort(s[..|s| - 1]), s[|s| - 1]);
      InsortMultiset(Sort(s[..|s| - 1]), s[|s| - 1]);
      Last(s);
    }
  }

  /** Sorting an already sorted list changes nothing. */
  lemma {:induction false} SortOfSorted(s: seq<Range>)
    requires Sorted(s)
    ensures Sort(s) == s
  {
    if s != [] {
      var t, v := s[..|s| - 1], s[|s| - 1];
      SortOfSorted(t);
      BisectUnique(t, v, |t|);
      assert s == t + [v];
    }
  }

  lemma SortSnoc(s: seq<Range>, i: nat)
    requires i < |s|
    ensures Sorted(Sort(s[..i]))
    ensures Sort(s[..i + 1]) == Insort(Sort(s[..i]), s[i])
  {
    SortSorts(s[..i]);
    assert s[..i + 1][..i] == s[..i];
  }

  lemma SortTwice(s: seq<Range>)
    ensures Sort(Sort(s)) == Sort(s)
  {
    SortSorts(s);
    SortOfSorted(Sort(s));
  }

  lemma InMultiset(s: seq<Range>, t: seq<Range>, x: int)
    requires multiset(s) == multiset(t)
    ensures Has(s, x) ==> Has(t, x)
  {
    if Has(s, x) {
      var i :| 0 <= i < |s| && In(x, s[i]);
      assert s[i] in multiset(s);
      assert s[i] in t;
      var j :| 0 <= j < |t| && t[j] == s[i];
    }
  }

  lemma SortKeepsElements(s: seq<Range>, x: int)
    ensures Has(Sort(s), x) <==> Has(s, x)
  {
    SortSorts(s);
    InMultiset(s, Sort(s), x);
    InMultiset(Sort(s), s, x);
  }

  lemma SortKeepsProper(s: seq<Range>)
    requires Proper(s)
    ensures Proper(Sort(s))
  {
    SortSorts(s);
    forall i | 0 <= i < |Sort(s)| ensures Sort(s)[i].lo <= Sort(s)[i].hi {
      assert Sort(s)[i] in multiset(Sort(s));
      assert Sort(s)[i] in s;
    }
  }

  // ---- prune --------------------------------------------------------------

  /** One turn of the merging loop of `prune`: a range that starts at or before
      the end of the last kept one overwrites that end (no maximum is taken). */
  function MergeStep(m: seq<Range>, e: Range): seq<Range> {
    if m == [] || m[|m| - 1].hi < e.lo then m + [e]
    else m[..|m| - 1] + [Range(m[|m| - 1].lo, e.hi)]
  }

  /** The merging loop of `prune`. */
  function Merge(s: seq<Range>): (m: seq<Range>)
    ensures m == [] <==> s == []
    ensures s != [] ==> m[|m| - 1].hi == s[|s| - 1].hi && m[0].lo == s[0].lo
  {
    if s == [] then [] else MergeStep(Merge(s[..|s| - 1]), s[|s| - 1])
  }

  /** The merging loop after `i` turns. */
  function MergeUpTo(s: seq<Range>, i: nat): seq<Range>
    requires i <= |s|
  {
    if i == 0 then [] else MergeStep(MergeUpTo(s, i - 1), s[i - 1])
  }

  lemma {:induction false} MergeUpToIs(s: seq<Range>, i: nat)
    requires i <= |s|
    ensures MergeUpTo(s, i) == Merge(s[..i])
    ensures i == |s| ==> MergeUpTo(s, i) == Merge(s)
  {
    if i > 0 {
      MergeUpToIs(s, i - 1);
      assert s[..i][..i - 1] == s[..i - 1];
    }
    assert s[..|s|] == s;
  }

  function Prune(s: seq<Range>): seq<Range> {
    Merge(Sort(s))
  }

  /** The first range put in front of the merged rest. */
  function MergeCons(r: Range, m: seq<Range>): seq<Range>
    requires m != []
  {
    if r.hi < m[0].lo then [r] + m else [Range(r.lo, m[0].hi)] + m[1..]
  }

  lemma MergeConsStep(r: Range, m: seq<Range>, e: Range)
    requires m != []
    ensures MergeStep(MergeCons(r, m), e) == MergeCons(r, MergeStep(m, e))
  {
    var c := MergeCons(r, m);
    if |m| == 1 {
      assert m[..0] == [] && m[1..] == [];
      assert c[..|c| - 1] == if r.hi < m[0].lo then [r] else [];
    } else {
      assert c[|c| - 1] == m[|m| - 1];
      assert c[..|c| - 1] == MergeCons(r, m[..|m| - 1]);
    }
  }

  /** The same loop read from the front. */
  lemma {:induction false} MergeFront(s: seq<Range>)
    requires |s| > 1
    ensures Merge(s) == MergeCons(s[0], Merge(s[1..]))
  {
    var t, e := s[..|s| - 1], s[|s| - 1];
    if |t| == 1 {
      MergeSingle(t);
      MergeSingle(s[1..]);
      assert t[..0] == [];
    } else {
      MergeFront(t);
      assert s[1..][..|s[1..]| - 1] == t[1..];
      MergeConsStep(s[0], Merge(t[1..]), e);
    }
  }

  lemma MergeSingle(s: seq<Range>)
    requires |s| == 1
    ensures Merge(s) == s
  {
    assert s[..0] == [];
  }

  lemma MergeStepApart(m: seq<Range>, e: Range)
    requires m == [] || m[|m| - 1].hi < e.lo
    ensures MergeStep(m, e) == m + [e]
  {
  }

  /** A list without overlaps is left alone. */
  lemma {:induction false} MergeSeparated(s: seq<Range>)
    requires Separated(s)
    ensures Merge(s) == s
  {
    if s != [] {
      MergeSeparated(s[..|s| - 1]);
      MergeStepApart(s[..|s| - 1], s[|s| - 1]);
      Last(s);
    }
  }

  /** Whatever the input, the merged list is sorted and disjoint. */
  lemma {:induction false} MergeNormal(s: seq<Range>)
    requires Sorted(s) && Proper(s)
    ensures Normal(Merge(s))
  {
    if |s| == 1 {
      MergeSingle(s);
    } else if |s| > 1 {
      var m := Merge(s[1..]);
      MergeNormal(s[1..]);
      MergeFront(s);
      NormalTail(m);
      assert !Lt(s[1], s[0]);
      if s[0].hi < s[1].lo {
        NormalCons(s[0], m);
      } else {
        NormalCons(Range(s[0].lo, m[0].hi), m[1..]);
      }
    }
  }

  /** What a range shares with its successor's start onwards is also covered by
      the ranges that follow it. Two disjoint ranges, and two that overlap at
      their ends only, satisfy it; a range nested in its predecessor does not,
      unless other ranges happen to cover the rest of that predecessor. */
  predicate TailsCovered(s: seq<Range>) {
    |s| > 1 ==> Covers(s[1..], s[1].lo, s[0].hi) && TailsCovered(s[1..])
  }

  /** The ranges contain every number from `lo` to `hi`. */
  predicate Covers(s: seq<Range>, lo: int, hi: int) {
    forall x | lo <= x <= hi :: Has(s, x)
  }

  lemma MergeConsMembers(r: Range, m: seq<Range>, x: int)
    requires Normal(m) && m != [] && r.lo <= m[0].lo
    ensures Has(MergeCons(r, m), x) <==>
            (r.lo <= x && (if r.hi < m[0].lo then x <= r.hi else x < m[0].lo)) || Has(m, x)
  {
    var c := MergeCons(r, m);
    HasCons(c, x);
    HasCons(m, x);
    assert c[1..] == if r.hi < m[0].lo then m else m[1..];
  }

  lemma MergeSoundFront(s: seq<Range>, x: int)
    requires |s| > 1 && Sorted(s) && Proper(s)
    ensures Has(Merge(s), x) <==>
            (s[0].lo <= x && (if s[0].hi < s[1].lo then x <= s[0].hi else x < s[1].lo)) || Has(Merge(s[1..]), x)
  {
    MergeFront(s);
    MergeNormal(s[1..]);
    assert !Lt(s[1], s[0]);
    MergeConsMembers(s[0], Merge(s[1..]), x);
  }

  /** Range `i` is the last one that starts at `x` or before. */
  predicate LastStart(s: seq<Range>, x: int, i: nat) {
    i < |s| && s[i].lo <= x && (i + 1 < |s| ==> x < s[i + 1].lo)
  }

  ghost predicate InLastStart(s: seq<Range>, x: int) {
    exists i: nat :: LastStart(s, x, i) && x <= s[i].hi
  }

  lemma InLastStartFront(s: seq<Range>, x: int)
    requires |s| > 1
    ensures InLastStart(s, x) <==> (s[0].lo <= x < s[1].lo && x <= s[0].hi) || InLastStart(s[1..], x)
  {
    assert LastStart(s, x, 0) <==> s[0].lo <= x < s[1].lo;
    if i: nat :| LastStart(s[1..], x, i) && x <= s[1..][i].hi {
      assert LastStart(s, x, i + 1);
    }
    if i: nat :| LastStart(s, x, i) && x <= s[i].hi {
      assert i > 0 ==> LastStart(s[1..], x, i - 1);
    }
  }

  /** What merging keeps: exactly the addresses that the last range starting at or
      before them contains. */
  lemma {:induction false} MergeMembers(s: seq<Range>, x: int)
    requires Sorted(s) && Proper(s)
    ensures Has(Merge(s), x) <==> InLastStart(s, x)
  {
    if |s| == 1 {
      MergeSingle(s);
      HasCons(s, x);
      assert LastStart(s, x, 0) <==> s[0].lo <= x;
    } else if |s| > 1 {
      MergeSoundFront(s, x);
      InLastStartFront(s, x);
      MergeMembers(s[1..], x);
    }
  }

  /** Merging never invents an element ... */
  lemma {:induction false} MergeSound(s: seq<Range>, x: int)
    requires Sorted(s) && Proper(s)
    ensures Has(Merge(s), x) ==> Has(s, x)
  {
    if |s| == 1 {
      MergeSingle(s);
    } else if |s| > 1 {
      MergeSound(s[1..], x);
      MergeSoundFront(s, x);
      HasCons(s, x);
    }
  }

  /** ... and loses none exactly when every overlap is covered further on. */
  lemma {:induction false} MergeExact(s: seq<Range>)
    requires Sorted(s) && Proper(s)
    ensures (forall x :: Has(Merge(s), x) <==> Has(s, x)) <==> TailsCovered(s)
  {
    if |s| == 1 {
      MergeSingle(s);
    } else if |s| > 1 {
      MergeExact(s[1..]);
      forall x ensures Has(s, x) <==> In(x, s[0]) || Has(s[1..], x) { HasCons(s, x); }
      forall x ensures Has(Merge(s[1..]), x) ==> Has(s[1..], x) { MergeSound(s[1..], x); }
      forall x ensures Has(Merge(s), x) <==>
            (s[0].lo <= x && (if s[0].hi < s[1].lo then x <= s[0].hi else x < s[1].lo)) || Has(Merge(s[1..]), x)
      { MergeSoundFront(s, x); }
      forall x | Has(s[1..], x) ensures s[1].lo <= x {
        var i :| 0 <= i < |s[1..]| && In(x, s[1..][i]);
        assert !Lt(s[i + 1], s[1]);
      }
    }
  }

  /** `prune` always ends sorted and disjoint and never adds an address; it
      keeps every address exactly when the overlaps of the sorted list are
      covered further on. */
  lemma PruneExact(s: seq<Range>)
    requires Proper(s)
    ensures Normal(Prune(s))
    ensures forall x :: Has(Prune(s), x) ==> Has(s, x)
    ensures (forall x :: Has(Prune(s), x) <==> Has(s, x)) <==> TailsCovered(Sort(s))
  {
    SortSorts(s);
    SortKeepsProper(s);
    MergeNormal(Sort(s));
    MergeExact(Sort(s));
    forall x ensures Has(Sort(s), x) <==> Has(s, x) { SortKeepsElements(s, x); }
    forall x ensures Has(Prune(s), x) ==> Has(s, x) { MergeSound(Sort(s), x); }
  }

  /** The failing family is not empty: a nested range cuts its host short. */
  lemma PruneLosesNested()
    ensures Has([Range(1, 10), Range(2, 3)], 4)
    ensures !Has(Prune([Range(1, 10), Range(2, 3)]), 4)
  {
    var s := [Range(1, 10), Range(2, 3)];
    assert In(4, s[0]);
    SortOfSorted(s);
    MergeFront(s);
    MergeSingle(s[1..]);
    assert Prune(s) == [Range(1, 3)];
  }

  lemma NormalIsSorted(s: seq<Range>)
    requires Normal(s)
    ensures Sorted(s) && Prune(s) == s
  {
    SortOfSorted(s);
    MergeSeparated(s);
  }

  // ---- ins ----------------------------------------------------------------

  /** `ins`: `ent` extends its left neighbour, its right neighbour or both, or
      becomes a new entry. */
  function Ins(s: seq<Range>, e: Range): seq<Range> {
    var k := Bisect(s, e);
    if k > 0 && s[k - 1].hi >= e.lo then
      if k < |s| && s[k].lo <= e.hi then
        s[..k - 1] + [Range(s[k - 1].lo, s[k].hi)] + s[k + 1..]
      else
        s[..k - 1] + [Range(s[k - 1].lo, e.hi)] + s[k..]
    else if k < |s| && s[k].lo <= e.hi then
      s[..k] + [Range(e.lo, s[k].hi)] + s[k + 1..]
    else
      s[..k] + [e] + s[k..]
  }

  /** When `ins` denotes union: `e` is not nested in its left neighbour without
      touching the right one, and whatever of `e` sticks out beyond the right
      neighbour it is joined to belongs to the ranges after that. */
  predicate Joins(s: seq<Range>, e: Range) {
    var k := Bisect(s, e);
    if k < |s| && s[k].lo <= e.hi then
      Covers(s[k + 1..], s[k].hi + 1, e.hi)
    else
      k == 0 || s[k - 1].hi <= e.hi || s[k - 1].hi < e.lo
  }

  /** The three shapes of `ins` in one: the entries of `s` from `i` up to `j`
      make way for `r`. */
  lemma InsShape(s: seq<Range>, e: Range) returns (i: nat, j: nat, r: Range)
    requires Normal(s) && e.lo <= e.hi
    ensures var k := Bisect(s, e);
            && k <= j <= |s| && i <= k && k - 1 <= i && j <= k + 1
            && (i < k <==> k > 0 && s[k - 1].hi >= e.lo)
            && (j > k <==> k < |s| && s[k].lo <= e.hi)
            && r == Range(if i < k then s[i].lo else e.lo, if j > k then s[k].hi else e.hi)
    ensures Ins(s, e) == s[..i] + [r] + s[j..]
    ensures r.lo <= r.hi
    ensures i > 0 ==> s[i - 1].hi < r.lo
    ensures j < |s| ==> r.hi < s[j].lo
  {
    var k := Bisect(s, e);
    i := if k > 0 && s[k - 1].hi >= e.lo then k - 1 else k;
    j := if k < |s| && s[k].lo <= e.hi then k + 1 else k;
    r := Range(if i < k then s[i].lo else e.lo, if j > k then s[k].hi else e.hi);
    assert i < k ==> !Lt(e, s[i]);
    assert 0 < i < k ==> s[i - 1].hi < s[i].lo;
    assert k < j < |s| ==> s[k].hi < s[j].lo;
  }

  /** `ins` keeps the list sorted and disjoint, whatever range it is given. */
  lemma NormalParts(s: seq<Range>, i: nat, j: nat)
    requires Normal(s) && i <= |s| && j <= |s|
    ensures Normal(s[..i]) && Normal(s[j..])
  {
    NormalSlice(s, 0, i);
    NormalSlice(s, j, |s|);
    assert s[..i] == s[0..i] && s[j..] == s[j..|s|];
  }

  lemma InsNormal(s: seq<Range>, e: Range)
    requires Normal(s) && e.lo <= e.hi
    ensures Normal(Ins(s, e))
  {
    var i, j, r := InsShape(s, e);
    NormalParts(s, i, j);
    NormalAround(s[..i], r, s[j..]);
  }

  lemma InsMembers(s: seq<Range>, e: Range, i: nat, j: nat, r: Range, x: int)
    requires i <= j <= |s| && Ins(s, e) == s[..i] + [r] + s[j..]
    ensures Has(Ins(s, e), x) <==> Has(s[..i], x) || In(x, r) || Has(s[j..], x)
    ensures Has(s, x) <==> Has(s[..i], x) || Has(s[i..j], x) || Has(s[j..], x)
  {
    HasThree(s[..i], r, s[j..], x);
    assert s == s[..i] + (s[i..j] + s[j..]);
    HasConcat(s[..i], s[i..j] + s[j..], x);
    HasConcat(s[i..j], s[j..], x);
  }

  lemma Beyond(s: seq<Range>, k: nat, x: int)
    requires Normal(s) && k <= |s|
    ensures Has(s[..k], x) ==> k > 0 && x <= s[k - 1].hi
    ensures Has(s[k..], x) ==> k < |s| && s[k].lo <= x
  {
    if Has(s[..k], x) {
      var i :| 0 <= i < |s[..k]| && In(x, s[..k][i]);
      assert i < k - 1 ==> s[i].hi < s[k - 1].lo;
    }
    if Has(s[k..], x) {
      var i :| 0 <= i < |s[k..]| && In(x, s[k..][i]);
      assert i > 0 ==> s[k].hi < s[k + i].lo;
    }
  }

  lemma InsExactAt(s: seq<Range>, e: Range, i: nat, j: nat, r: Range, x: int)
    requires Normal(s) && i <= j <= |s| && j <= i + 2 && r.lo <= r.hi
    requires Ins(s, e) == s[..i] + [r] + s[j..]
    requires i > 0 ==> s[i - 1].hi < r.lo
    requires j < |s| ==> r.hi < s[j].lo
    ensures Has(Ins(s, e), x) <==> Has(s[..i], x) || In(x, r) || Has(s[j..], x)
    ensures Has(s, x) <==> Has(s[..i], x) || Has(s[j..], x) ||
                           (i < j && In(x, s[i])) || (i + 1 < j && In(x, s[i + 1]))
    ensures Has(s[..i], x) ==> x < r.lo
    ensures Has(s[j..], x) ==> r.hi < x
  {
    InsMembers(s, e, i, j, r, x);
    Middle(s, i, j, x);
    Beyond(s, i, x);
    Beyond(s, j, x);
  }

  /** An address of `e`, or the last one before it, that insertion loses. */
  lemma LostPoint(s: seq<Range>, e: Range) returns (x: int)
    requires Normal(s) && e.lo <= e.hi && !Joins(s, e)
    ensures var k := Bisect(s, e);
            if k < |s| && s[k].lo <= e.hi then In(x, e) && s[k].hi < x && !Has(s[k + 1..], x)
            else k > 0 && e.lo <= s[k - 1].hi && e.hi < x && x == s[k - 1].hi
  {
    var k := Bisect(s, e);
    if k < |s| && s[k].lo <= e.hi {
      x :| s[k].hi + 1 <= x <= e.hi && !Has(s[k + 1..], x);
      assert e.lo <= s[k].lo;
    } else {
      x := s[k - 1].hi;
    }
  }

  lemma InsLoses(s: seq<Range>, e: Range) returns (x: int)
    requires Normal(s) && e.lo <= e.hi && !Joins(s, e)
    ensures (Has(s, x) || In(x, e)) && !Has(Ins(s, e), x)
  {
    x := LostPoint(s, e);
    var i, j, r := InsShape(s, e);
    InsExactAt(s, e, i, j, r, x);
  }

  /** The addresses that insertion drops: what is left of `e` beyond a right neighbour
      it reaches, or of a left neighbour beyond `e`. */
  predicate Dropped(s: seq<Range>, e: Range, x: int) {
    var k := Bisect(s, e);
    if k < |s| && s[k].lo <= e.hi then
      s[k].hi < x <= e.hi && !Has(s[k + 1..], x)
    else
      k > 0 && e.lo <= s[k - 1].hi && e.hi < x <= s[k - 1].hi
  }

  lemma InsReaching(s: seq<Range>, e: Range, x: int)
    requires Normal(s) && e.lo <= e.hi && Bisect(s, e) < |s| && s[Bisect(s, e)].lo <= e.hi
    ensures Has(Ins(s, e), x) <==> (Has(s, x) || In(x, e)) && !Dropped(s, e, x)
  {
    var i, j, r := InsShape(s, e);
    InsExactAt(s, e, i, j, r, x);
    assert i + 1 < j ==> s[i].hi < s[i + 1].lo;
  }

  lemma InsNotReaching(s: seq<Range>, e: Range, x: int)
    requires Normal(s) && e.lo <= e.hi && (Bisect(s, e) < |s| ==> e.hi < s[Bisect(s, e)].lo)
    ensures Has(Ins(s, e), x) <==> (Has(s, x) || In(x, e)) && !Dropped(s, e, x)
  {
    var i, j, r := InsShape(s, e);
    InsExactAt(s, e, i, j, r, x);
  }

  /** After insertion the list has exactly the addresses of both, without those. */
  lemma InsKeeps(s: seq<Range>, e: Range, x: int)
    requires Normal(s) && e.lo <= e.hi
    ensures Has(Ins(s, e), x) <==> (Has(s, x) || In(x, e)) && !Dropped(s, e, x)
  {
    if Bisect(s, e) < |s| && s[Bisect(s, e)].lo <= e.hi {
      InsReaching(s, e, x);
    } else {
      InsNotReaching(s, e, x);
    }
  }

  /** `ins` denotes union exactly when `Joins` holds. */
  lemma InsExact(s: seq<Range>, e: Range)
    requires Normal(s) && e.lo <= e.hi
    ensures (forall x :: Has(Ins(s, e), x) <==> Has(s, x) || In(x, e)) <==> Joins(s, e)
  {
    if Joins(s, e) {
      var i, j, r := InsShape(s, e);
      forall x ensures Has(Ins(s, e), x) <==> Has(s, x) || In(x, e) {
        InsExactAt(s, e, i, j, r, x);
        assert i + 1 < j ==> s[i].hi < s[i + 1].lo;
      }
    } else {
      var x := InsLoses(s, e);
    }
  }

  /** Like `prune`, `ins` cuts short a range with the new one nested in it. */
  lemma InsLosesNested()
    ensures !Joins([Range(1, 10)], Range(2, 3))
    ensures Has([Range(1, 10)], 4) && !Has(Ins([Range(1, 10)], Range(2, 3)), 4)
  {
    var s, e := [Range(1, 10)], Range(2, 3);
    assert In(4, s[0]);
    assert Bisect(s[1..], e) == 0 && Bisect(s, e) == 1;
    assert Ins(s, e) == [Range(1, 3)];
  }

  lemma Middle(s: seq<Range>, i: nat, j: nat, x: int)
    requires i <= j <= |s| && j <= i + 2
    ensures Has(s[i..j], x) <==> (i < j && In(x, s[i])) || (i + 1 < j && In(x, s[i + 1]))
  {
    if i < j {
      assert s[i..j][0] == s[i];
      if i + 1 < j { assert s[i..j][1] == s[i + 1]; }
    }
  }

  /** A range beyond the last one is appended. */
  lemma InsAppend(s: seq<Range>, e: Range)
    requires Normal(s) && e.lo <= e.hi
    requires s != [] ==> s[|s| - 1].hi < e.lo
    ensures Ins(s, e) == s + [e] && Normal(s + [e])
  {
    forall i | 0 <= i < |s| ensures s[i].hi < e.lo && !Lt(e, s[i]) {
      assert i < |s| - 1 ==> s[i].hi < s[|s| - 1].lo;
    }
    BisectUnique(s, e, |s|);
    NormalAround(s, e, []);
    assert s + [e] + [] == s + [e];
  }

  // ---- inv ----------------------------------------------------------------

  function Gap(l: int, right: int): seq<Range> {
    if l <= right then [Range(l, right)] else []
  }

  /** `inv`: the gaps between consecutive ranges, from `l` up to `max`. */
  function Inv(s: seq<Range>, l: int, max: int): seq<Range> {
    if s == [] then Gap(l, max) else Gap(l, s[0].lo - 1) + Inv(s[1..], s[0].hi + 1, max)
  }

  lemma {:induction false} InvNormal(s: seq<Range>, l: int, max: int)
    requires Normal(s)
    ensures Normal(Inv(s, l, max))
    ensures Inv(s, l, max) != [] ==> l <= Inv(s, l, max)[0].lo || (s != [] && s[0].hi < Inv(s, l, max)[0].lo)
  {
    if s != [] {
      NormalTail(s);
      InvNormal(s[1..], s[0].hi + 1, max);
      if l <= s[0].lo - 1 {
        NormalCons(Range(l, s[0].lo - 1), Inv(s[1..], s[0].hi + 1, max));
      } else {
        assert Inv(s, l, max) == Inv(s[1..], s[0].hi + 1, max);
      }
    }
  }

  /** The stored gaps stay below the next start. */
  ghost predicate Below(g: seq<Range>, l: int) {
    Normal(g) && (g != [] ==> g[|g| - 1].hi < l)
  }

  /** The gaps of a longer list, by its last range. */
  lemma {:induction false} InvSnoc(s: seq<Range>, r: Range, l: int, max: int)
    ensures Inv(s + [r], l, max) == Inv(s, l, r.lo - 1) + Gap(r.hi + 1, max)
  {
    if s == [] {
      assert s + [r] == [r] && [r][1..] == [];
    } else {
      InvSnoc(s[1..], r, s[0].hi + 1, max);
      assert (s + [r])[1..] == s[1..] + [r];
      Regroup(Gap(l, s[0].lo - 1), Inv(s[1..], s[0].hi + 1, r.lo - 1), Gap(r.hi + 1, max));
    }
  }

  /** Going on behind the end of the last range. */
  lemma InvOn(s: seq<Range>, l: int, next: int, max: int)
    requires if s == [] then next == l else next == s[|s| - 1].hi + 1
    ensures Inv(s, l, max) == Inv(s, l, next - 1) + Gap(next, max)
  {
    if s != [] {
      Last(s);
      InvSnoc(s[..|s| - 1], s[|s| - 1], l, max);
      InvSnoc(s[..|s| - 1], s[|s| - 1], l, next - 1);
    }
  }

  lemma {:induction false} InvEnds(s: seq<Range>, l: int, max: int)
    requires Normal(s) && (s != [] ==> s[|s| - 1].hi <= max)
    ensures Inv(s, l, max) != [] ==> Inv(s, l, max)[|Inv(s, l, max)| - 1].hi <= max
  {
    if s != [] {
      NormalTail(s);
      InvEnds(s[1..], s[0].hi + 1, max);
      assert s[0].lo <= s[0].hi && (|s| > 1 ==> s[0].hi < s[|s| - 1].hi);
    }
  }

  /** Where the loop of `inv` goes on after `i` ranges. */
  function NextStart(s: seq<Range>, i: nat, l: int): int
    requires i <= |s|
  {
    if i == 0 then l else s[i - 1].hi + 1
  }

  /** What the loop of `inv` has stored after `i` ranges. */
  function GapsUpTo(s: seq<Range>, i: nat, l: int): seq<Range>
    requires i <= |s|
  {
    Inv(s[..i], l, NextStart(s, i, l) - 1)
  }

  lemma GapsBelow(s: seq<Range>, i: nat, l: int)
    requires Normal(s) && i <= |s|
    ensures Below(GapsUpTo(s, i, l), NextStart(s, i, l))
  {
    NormalSlice(s, 0, i);
    assert s[0..i] == s[..i];
    InvNormal(s[..i], l, NextStart(s, i, l) - 1);
    InvEnds(s[..i], l, NextStart(s, i, l) - 1);
  }

  lemma GapsNext(s: seq<Range>, i: nat, l: int)
    requires i < |s|
    ensures GapsUpTo(s, i + 1, l) == GapsUpTo(s, i, l) + Gap(NextStart(s, i, l), s[i].lo - 1)
  {
    assert s[..i + 1] == s[..i] + [s[i]];
    InvOn(s[..i], l, NextStart(s, i, l), s[i].lo - 1);
    InvSnoc(s[..i], s[i], l, s[i].hi);
  }

  lemma GapsAll(s: seq<Range>, l: int, max: int)
    ensures Inv(s, l, max) == GapsUpTo(s, |s|, l) + Gap(NextStart(s, |s|, l), max)
  {
    assert s[..|s|] == s;
    InvOn(s, l, NextStart(s, |s|, l), max);
  }

  lemma {:induction false} InvMembers(s: seq<Range>, l: int, max: int, x: int)
    requires Normal(s)
    ensures s == [] ==> (Has(Inv(s, l, max), x) <==> l <= x <= max)
    ensures s != [] ==> (Has(Inv(s, l, max), x) <==> l <= x < s[0].lo || Has(Inv(s[1..], s[0].hi + 1, max), x))
  {
    if s == [] {
      if l <= max { assert In(x, Inv(s, l, max)[0]) <==> l <= x <= max; }
    } else {
      var g := Gap(l, s[0].lo - 1);
      HasConcat(g, Inv(s[1..], s[0].hi + 1, max), x);
      if g != [] { HasCons(g, x); }
    }
  }

  /** Every number of `[l, max]` outside the ranges is in a gap, no number of
      the ranges is. */
  lemma {:induction false} InvComplete(s: seq<Range>, l: int, max: int, x: int)
    requires Normal(s)
    ensures l <= x <= max && !Has(s, x) ==> Has(Inv(s, l, max), x)
    ensures Has(s, x) ==> !Has(Inv(s, l, max), x)
    ensures Has(Inv(s, l, max), x) ==> l <= x || (s != [] && s[0].hi < x)
  {
    InvMembers(s, l, max, x);
    if s != [] {
      HasCons(s, x);
      NormalTail(s);
      InvComplete(s[1..], s[0].hi + 1, max, x);
      Beyond(s, 1, x);
      assert |s| > 1 ==> s[0].hi < s[1].lo <= s[1].hi;
    }
  }

  /** The addresses of the gaps, whatever the bounds: those outside the ranges that
      are not before both the lower bound and the first range, nor behind both the
      upper bound and the last. */
  lemma {:induction false} InvMembersExactly(s: seq<Range>, l: int, max: int, x: int)
    requires Normal(s)
    ensures Has(Inv(s, l, max), x) <==>
            !Has(s, x) && (s == [] || x < s[0].lo ==> l <= x) && (s == [] || s[|s| - 1].hi < x ==> x <= max)
  {
    InvMembers(s, l, max, x);
    if s != [] {
      NormalTail(s);
      HasCons(s, x);
      Beyond(s, 1, x);
      InvMembersExactly(s[1..], s[0].hi + 1, max, x);
      assert |s| > 1 ==> s[0].hi < s[1].lo <= s[1].hi && s[0].hi < s[|s| - 1].lo <= s[|s| - 1].hi;
    }
  }

  /** No gap, and neither end piece, sticks out of `[min, max]`. */
  predicate GapsFit(s: seq<Range>, l: int, min: int, max: int) {
    if s == [] then l <= max ==> min <= l
    else (l < s[0].lo ==> min <= l && s[0].lo - 1 <= max) && GapsFit(s[1..], s[0].hi + 1, min, max)
  }

  ghost predicate Inside(s: seq<Range>, min: int, max: int) {
    forall x | Has(s, x) :: min <= x <= max
  }

  lemma {:induction false} InvInside(s: seq<Range>, l: int, min: int, max: int)
    requires Normal(s)
    ensures Inside(Inv(s, l, max), min, max) <==> GapsFit(s, l, min, max)
  {
    var v := Inv(s, l, max);
    if s == [] {
      forall x ensures Has(v, x) <==> l <= x <= max { InvMembers(s, l, max, x); }
      assert l <= max ==> Has(v, l);
    } else {
      var t := Inv(s[1..], s[0].hi + 1, max);
      forall x ensures Has(v, x) <==> l <= x < s[0].lo || Has(t, x) { InvMembers(s, l, max, x); }
      NormalTail(s);
      InvInside(s[1..], s[0].hi + 1, min, max);
      if l < s[0].lo {
        assert Has(v, l) && Has(v, s[0].lo - 1);
      }
    }
  }

  /** `inv` is the complement within `[min, max]` exactly when the gaps fit. */
  lemma InvExact(s: seq<Range>, min: int, max: int)
    requires Normal(s)
    ensures Normal(Inv(s, min, max))
    ensures (forall x :: Has(Inv(s, min, max), x) <==> min <= x <= max && !Has(s, x)) <==> GapsFit(s, min, min, max)
  {
    InvNormal(s, min, max);
    InvInside(s, min, min, max);
    var v := Inv(s, min, max);
    forall x
      ensures min <= x <= max && !Has(s, x) ==> Has(v, x)
      ensures Has(s, x) ==> !Has(v, x)
    {
      InvComplete(s, min, max, x);
    }
  }

  /** A range beyond the bounds makes the gap before it stick out. */
  lemma InvSticksOut()
    ensures !GapsFit([Range(20, 20)], 1, 1, 10)
    ensures Has(Inv([Range(20, 20)], 1, 10), 15)
  {
    var s := [Range(20, 20)];
    assert s[1..] == [];
    assert Inv(s, 1, 10) == [Range(1, 19)];
    assert In(15, Inv(s, 1, 10)[0]);
  }

  /** Ranges that lie inside `[min, max]` meet the condition. */
  lemma {:induction false} WithinFits(s: seq<Range>, l: int, min: int, max: int)
    requires Normal(s) && Within(s, min, max) && min <= l
    ensures GapsFit(s, l, min, max)
  {
    if s != [] {
      NormalTail(s);
      WithinFits(s[1..], s[0].hi + 1, min, max);
    }
  }

  // ---- counting -----------------------------------------------------------

  function Interval(lo: int, hi: int): (r: set<int>)
    ensures forall x :: x in r <==> lo <= x <= hi
    ensures |r| == if lo <= hi then hi - lo + 1 else 0
    decreases hi - lo + 1
  {
    if lo > hi then {} else
      var r := Interval(lo, hi - 1);
      r + {hi}
  }

  /** The addresses of a list of ranges. */
  function Elems(s: seq<Range>): (r: set<int>)
    ensures forall x :: x in r <==> Has(s, x)
  {
    if s == [] then {} else
      assert forall x :: Has(s, x) <==> In(x, s[0]) || Has(s[1..], x) by {
        forall x ensures Has(s, x) <==> In(x, s[0]) || Has(s[1..], x) { HasCons(s, x); }
      }
      Interval(s[0].lo, s[0].hi) + Elems(s[1..])
  }

  // ---- first fit ----------------------------------------------------------

  /** The loop of `alloc_addr` over the available ranges: whole ranges while
      they fit, then the front part of one. The second result is the number of
      addresses still missing. */
  function TakeLow(s: seq<Range>, n: nat): (seq<Range>, int) {
    if n == 0 || s == [] then ([], n)
    else
      var size := s[0].hi - s[0].lo + 1;
      if n < size then ([Range(s[0].lo, s[0].lo + n - 1)], 0)
      else
        var (t, m) := TakeLow(s[1..], n - size);
        ([s[0]] + t, m)
  }

  /** How many addresses a list without overlaps holds. */
  function Size(s: seq<Range>): int {
    if s == [] then 0 else s[0].hi - s[0].lo + 1 + Size(s[1..])
  }

  lemma {:induction false} SizeIsCardinality(s: seq<Range>)
    requires Normal(s)
    ensures |Elems(s)| == Size(s)
  {
    if s != [] {
      NormalTail(s);
      SizeIsCardinality(s[1..]);
      forall x | x in Elems(s[1..]) ensures s[0].hi < x { Beyond(s, 1, x); }
      assert Interval(s[0].lo, s[0].hi) !! Elems(s[1..]);
    }
  }

  /** First fit stays sorted and disjoint ... */
  lemma {:induction false} TakeLowNormal(s: seq<Range>, n: nat)
    requires Normal(s)
    ensures Normal(TakeLow(s, n).0)
    ensures TakeLow(s, n).0 != [] ==> s != [] && s[0].lo == TakeLow(s, n).0[0].lo
  {
    if n > 0 && s != [] && n >= s[0].hi - s[0].lo + 1 {
      var t := TakeLow(s[1..], n - (s[0].hi - s[0].lo + 1)).0;
      NormalTail(s);
      TakeLowNormal(s[1..], n - (s[0].hi - s[0].lo + 1));
      assert t != [] ==> |s| > 1 && s[0].hi < s[1].lo;
      NormalAround([], s[0], t);
      assert [s[0]] + t == [] + [s[0]] + t;
    }
  }

  /** Nothing in `s` that `t` leaves out comes before anything in `t`. */
  ghost predicate Lowest(t: seq<Range>, s: seq<Range>) {
    && (forall x | Has(t, x) :: Has(s, x))
    && (forall x, y | Has(t, x) && Has(s, y) && !Has(t, y) :: x < y)
  }

  /** ... and hands out the lowest addresses ... */
  lemma {:induction false} TakeLowIsLowest(s: seq<Range>, n: nat)
    requires Normal(s)
    ensures Lowest(TakeLow(s, n).0, s)
  {
    if n > 0 && s != [] {
      var size := s[0].hi - s[0].lo + 1;
      var t := TakeLow(s, n).0;
      NormalTail(s);
      forall x ensures Has(s, x) <==> In(x, s[0]) || Has(s[1..], x) { HasCons(s, x); }
      forall x | Has(s[1..], x) ensures s[0].hi < x { Beyond(s, 1, x); }
      forall x ensures Has(t, x) <==> In(x, t[0]) || Has(t[1..], x) { HasCons(t, x); }
      if n >= size {
        TakeLowIsLowest(s[1..], n - size);
        assert t[1..] == TakeLow(s[1..], n - size).0;
      }
    }
  }

  /** ... exactly `n` of them, unless fewer exist, in which case it takes all
      and reports how many are missing. */
  lemma {:induction false} TakeLowCounts(s: seq<Range>, n: nat)
    requires Normal(s)
    ensures TakeLow(s, n).1 == if n <= Size(s) then 0 else n - Size(s)
    ensures Size(TakeLow(s, n).0) == n - TakeLow(s, n).1
    ensures Size(s) >= 0
  {
    if s != [] {
      var size := s[0].hi - s[0].lo + 1;
      NormalTail(s);
      if n < size {
        TakeLowCounts(s[1..], 0);
        assert n > 0 ==> [Range(s[0].lo, s[0].lo + n - 1)][1..] == [];
      } else {
        TakeLowCounts(s[1..], n - size);
        assert n > 0 ==> TakeLow(s, n).0[1..] == TakeLow(s[1..], n - size).0;
      }
    }
  }

  /** The loop of `alloc_addr`, midway: `acc` is stored, `av` is available, `m`
      addresses are missing, and `goal` is where it will end. */
  ghost predicate Fitting(acc: seq<Range>, av: seq<Range>, m: nat, goal: (seq<Range>, int)) {
    && Normal(acc + av)
    && acc + TakeLow(av, m).0 == goal.0
    && TakeLow(av, m).1 == goal.1
  }

  lemma FitStart(av: seq<Range>, n: nat)
    requires Normal(av)
    ensures Fitting([], av, n, TakeLow(av, n))
  {
    assert [] + av == av;
    assert [] + TakeLow(av, n).0 == TakeLow(av, n).0;
  }

  /** The next available range goes behind the stored ones. */
  lemma FitNext(acc: seq<Range>, av: seq<Range>, m: nat, goal: (seq<Range>, int), r: Range)
    requires Fitting(acc, av, m, goal) && av != []
    requires r.lo == av[0].lo && (r.lo <= r.hi || r == av[0])
    ensures Normal(acc) && Ins(acc, r) == acc + [r] && av[0].lo <= av[0].hi
  {
    var s := acc + av;
    NormalSlice(s, 0, |acc|);
    assert s[0..|acc|] == acc && s[|acc|] == av[0];
    assert acc != [] ==> s[|acc| - 1] == acc[|acc| - 1];
    InsAppend(acc, r);
  }

  lemma FitWhole(acc: seq<Range>, av: seq<Range>, m: nat, goal: (seq<Range>, int))
    requires Fitting(acc, av, m, goal) && av != [] && m > av[0].hi - av[0].lo && av[0].lo <= av[0].hi
    ensures Fitting(acc + [av[0]], av[1..], m - (av[0].hi - av[0].lo + 1), goal)
  {
    assert acc + [av[0]] + av[1..] == acc + av;
    assert TakeLow(av, m).0 == [av[0]] + TakeLow(av[1..], m - (av[0].hi - av[0].lo + 1)).0;
  }

  lemma FitFront(acc: seq<Range>, av: seq<Range>, m: nat, goal: (seq<Range>, int))
    requires Fitting(acc, av, m, goal) && av != [] && 0 < m <= av[0].hi - av[0].lo
    ensures goal == (acc + [Range(av[0].lo, av[0].lo + m - 1)], 0)
  {
  }

  lemma FitEnd(acc: seq<Range>, av: seq<Range>, m: nat, goal: (seq<Range>, int))
    requires Fitting(acc, av, m, goal) && (m == 0 || av == [])
    ensures goal == (acc, m)
  {
    assert acc + [] == acc;
  }

  // ---- iteration ----------------------------------------------------------

  /** `range(lo, hi + 1)` */
  function UpFrom(lo: int, hi: int): (r: seq<int>)
    decreases hi - lo + 1
  {
    if lo > hi then [] else UpFrom(lo, hi - 1) + [hi]
  }

  lemma {:induction false} UpFromAt(lo: int, hi: int)
    ensures |UpFrom(lo, hi)| == if lo <= hi then hi - lo + 1 else 0
    ensures forall k | 0 <= k < |UpFrom(lo, hi)| :: UpFrom(lo, hi)[k] == lo + k
    decreases hi - lo + 1
  {
    if lo <= hi {
      UpFromAt(lo, hi - 1);
    }
  }

  /** The addresses that iteration yields. */
  function Addresses(s: seq<Range>): seq<int> {
    if s == [] then [] else Addresses(s[..|s| - 1]) + UpFrom(s[|s| - 1].lo, s[|s| - 1].hi)
  }

  predicate Increasing(a: seq<int>) {
    forall i, j | 0 <= i < j < |a| :: a[i] < a[j]
  }

  lemma {:induction false} AddressesAreElems(s: seq<Range>, x: int)
    ensures x in Addresses(s) <==> Has(s, x)
    decreases |s|
  {
    if s != [] {
      var n := |s| - 1;
      AddressesAreElems(s[..n], x);
      UpFromAt(s[n].lo, s[n].hi);
      assert x in UpFrom(s[n].lo, s[n].hi) <==> In(x, s[n]) by {
        assert In(x, s[n]) ==> UpFrom(s[n].lo, s[n].hi)[x - s[n].lo] == x;
      }
      HasInit(s, x);
    }
  }

  lemma HasInit(s: seq<Range>, x: int)
    requires s != []
    ensures Has(s, x) <==> Has(s[..|s| - 1], x) || In(x, s[|s| - 1])
  {
    var n := |s| - 1;
    assert forall i | 0 <= i < n :: s[..n][i] == s[i];
  }

  lemma InitIsBefore(s: seq<Range>, x: int)
    requires Normal(s) && s != [] && Has(s[..|s| - 1], x)
    ensures x < s[|s| - 1].lo
  {
    var i :| 0 <= i < |s| - 1 && In(x, s[..|s| - 1][i]);
    assert s[..|s| - 1][i] == s[i];
  }

  lemma {:induction false} AddressesIncrease(s: seq<Range>)
    requires Normal(s)
    ensures Increasing(Addresses(s))
    decreases |s|
  {
    if s != [] {
      var n := |s| - 1;
      var a := Addresses(s[..n]);
      NormalSlice(s, 0, n);
      assert s[0..n] == s[..n];
      AddressesIncrease(s[..n]);
      forall i | 0 <= i < |a| ensures a[i] < s[n].lo {
        assert a[i] in a;
        AddressesAreElems(s[..n], a[i]);
        InitIsBefore(s, a[i]);
      }
      UpFromAt(s[n].lo, s[n].hi);
    }
  }

  /** Iterating over normalised ranges yields each of their addresses once, in
      increasing order. */
  lemma AddressesInOrder(s: seq<Range>)
    requires Normal(s)
    ensures Increasing(Addresses(s)) && |Addresses(s)| == |Elems(s)|
    ensures forall x :: x in Addresses(s) <==> Has(s, x)
  {
    forall x ensures x in Addresses(s) <==> Has(s, x) {
      AddressesAreElems(s, x);
    }
    AddressesIncrease(s);
    IncreasingCounts(Addresses(s), Elems(s));
  }

  lemma {:induction false} IncreasingCounts(a: seq<int>, e: set<int>)
    requires Increasing(a) && forall x :: x in a <==> x in e
    ensures |a| == |e|
    decreases |a|
  {
    if a == [] {
      assert forall x | x in e :: x in a;
    } else {
      var n := |a| - 1;
      assert a == a[..n] + [a[n]];
      assert a[n] in e && a[n] !in a[..n];
      IncreasingCounts(a[..n], e - {a[n]});
    }
  }
}
