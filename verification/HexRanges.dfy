/** `HexRanges` (runtime/singularity.py): a list of `[lo, hi]` lists that is
    edited in place. The inner lists are objects here too, so that sharing
    them, as `union` and `ins` do, is visible. */
module HexRangesModel {
  import opened Ranges
  import opened HexText
  import opened Lists

  /** One inner `[lo, hi]` list. */
  class Cell {
    var ends: Range

    constructor (lo: int, hi: int)
      ensures ends == Range(lo, hi)
    {
      ends := Range(lo, hi);
    }
  }

  /** The list of cells `cs` currently reads as `s`. */
  ghost predicate Shows(cs: seq<Cell>, s: seq<Range>)
    reads cs
  {
    |cs| == |s| && forall i | 0 <= i < |cs| :: cs[i].ends == s[i]
  }

  ghost predicate Owned(cs: seq<Cell>, own: set<Cell>) {
    forall i | 0 <= i < |cs| :: cs[i] in own
  }

  /** `bisect`: the binary search finds the position that `Bisect` denotes. */
  method BisectRight(cs: seq<Cell>, v: Range, ghost s: seq<Range>) returns (k: nat)
    requires Shows(cs, s) && Sorted(s)
    ensures k == Bisect(s, v)
  {
    k := 0;
    var high := |cs|;
    while k < high
      invariant k <= high <= |cs|
      invariant forall i | 0 <= i < k :: !Lt(v, s[i])
      invariant forall i | high <= i < |cs| :: Lt(v, s[i])
    {
      var mid := (k + high) / 2;
      if Lt(v, cs[mid].ends) { high := mid; } else { k := mid + 1; }
    }
    BisectUnique(s, v, k);
  }

  lemma Splice(cs: seq<Cell>, s: seq<Range>, k: nat, c: Cell, own: set<Cell>)
    requires Shows(cs, s) && Distinct(cs) && Owned(cs, own) && c !in own && k <= |cs|
    ensures Shows(cs[..k] + [c] + cs[k..], s[..k] + [c.ends] + s[k..])
    ensures Distinct(cs[..k] + [c] + cs[k..])
    ensures Owned(cs[..k] + [c] + cs[k..], own + {c})
  {
    var r := cs[..k] + [c] + cs[k..];
    assert forall i | 0 <= i < |r| :: r[i] == if i < k then cs[i] else if i == k then c else cs[i - 1];
  }

  /** `insort` */
  method InsortCell(cs: seq<Cell>, c: Cell, ghost s: seq<Range>, ghost own: set<Cell>) returns (r: seq<Cell>)
    requires Shows(cs, s) && Distinct(cs) && Owned(cs, own) && c !in own
    requires Sorted(s)
    ensures Shows(r, Insort(s, c.ends)) && Distinct(r) && Owned(r, own + {c})
  {
    var k := BisectRight(cs, c.ends, s);
    Splice(cs, s, k, c, own);
    r := cs[..k] + [c] + cs[k..];
  }

  /** `list.sort()`: stable insertion. */
  method SortCells(cs: seq<Cell>, ghost s: seq<Range>, ghost all: set<Cell>)
    returns (r: seq<Cell>, ghost own: set<Cell>)
    requires Shows(cs, s) && Distinct(cs) && Owned(cs, all)
    ensures Shows(r, Sort(s)) && Distinct(r) && Owned(r, own) && own <= all
  {
    r, own := [], {};
    for i := 0 to |cs|
      invariant Shows(r, Sort(s[..i])) && Distinct(r) && Owned(r, own) && own <= all
      invariant forall j | i <= j < |cs| :: cs[j] !in own
    {
      SortSnoc(s, i);
      r := InsortCell(r, cs[i], Sort(s[..i]), own);
      own := own + {cs[i]};
    }
    assert s[..|cs|] == s;
  }

  /** The loop of `HexRanges.__init__`: a new cell per range, `insort`ed. */
  method InsortAll(found: seq<Range>) returns (cells: seq<Cell>, ghost own: set<Cell>)
    ensures Shows(cells, Sort(found)) && Distinct(cells) && Owned(cells, own)
    ensures fresh(own)
  {
    cells, own := [], {};
    for i := 0 to |found|
      invariant Shows(cells, Sort(found[..i])) && Distinct(cells) && Owned(cells, own)
      invariant fresh(own)
    {
      SortSnoc(found, i);
      var c := new Cell(found[i].lo, found[i].hi);
      cells := InsortCell(cells, c, Sort(found[..i]), own);
      own := own + {c};
    }
    assert found[..|found|] == found;
  }

  /** One turn of the merging loop of `prune`. */
  method MergeTurn(tmp: seq<Cell>, ent: Cell, ghost m: seq<Range>, ghost own: set<Cell>) returns (r: seq<Cell>)
    requires Shows(tmp, m) && Distinct(tmp) && Owned(tmp, own) && ent !in own
    modifies own
    ensures Shows(r, MergeStep(m, old(ent.ends))) && Distinct(r) && Owned(r, own + {ent})
    ensures |r| <= |tmp| + 1
    ensures |r| == |tmp| + 1 ==> forall c | c in own :: c.ends == old(c.ends)
  {
    if |tmp| == 0 || tmp[|tmp| - 1].ends.hi < ent.ends.lo {
      return tmp + [ent];
    }
    var last := tmp[|tmp| - 1];
    last.ends := Range(last.ends.lo, ent.ends.hi);
    return tmp;
  }

  /** The same turn, at place `i` of the sorted list. */
  method MergeNext(tmp: seq<Cell>, sorted: seq<Cell>, i: nat, ghost s: seq<Range>, ghost seen: set<Cell>)
    returns (r: seq<Cell>)
    requires |sorted| == |s| && i < |sorted| && Distinct(sorted) && Ahead(sorted, s, i, seen)
    requires Shows(tmp, MergeUpTo(s, i)) && Distinct(tmp) && Owned(tmp, seen)
    modifies seen
    ensures Shows(r, MergeUpTo(s, i + 1)) && Distinct(r) && Owned(r, seen + {sorted[i]})
    ensures Ahead(sorted, s, i + 1, seen + {sorted[i]})
    ensures |r| <= |tmp| + 1
    ensures |r| == |tmp| + 1 ==> forall c | c in seen :: c.ends == old(c.ends)
  {
    AheadNext(sorted, s, i, seen);
    r := MergeTurn(tmp, sorted[i], MergeUpTo(s, i), seen);
  }

  lemma DistinctFrom(cs: seq<Cell>, i: nat)
    requires Distinct(cs) && i < |cs|
    ensures forall j | i < j < |cs| :: cs[j] != cs[i]
  {
  }

  /** The merging loop of `prune`. When nothing is merged away, every cell keeps
      its contents. */
  method MergeCells(sorted: seq<Cell>, ghost s: seq<Range>, ghost own: set<Cell>) returns (tmp: seq<Cell>)
    requires Shows(sorted, s) && Distinct(sorted) && Owned(sorted, own)
    modifies own
    ensures Shows(tmp, Merge(s)) && Distinct(tmp) && Owned(tmp, own)
    ensures |tmp| <= |sorted|
    ensures |tmp| == |sorted| ==> forall c | c in own :: c.ends == old(c.ends)
  {
    tmp := [];
    ghost var seen: set<Cell> := {};
    for i := 0 to |sorted|
      invariant Shows(tmp, MergeUpTo(s, i)) && Distinct(tmp) && Owned(tmp, seen) && seen <= own
      invariant Ahead(sorted, s, i, seen)
      invariant |tmp| <= i
      invariant |tmp| == i ==> forall c | c in seen :: c.ends == old(c.ends)
      invariant forall c | c in own && c !in seen :: c.ends == old(c.ends)
    {
      tmp := MergeNext(tmp, sorted, i, s, seen);
      seen := seen + {sorted[i]};
    }
    MergeUpToIs(s, |s|);
  }

  /** The cells still to come read as the list did, and none of them was met. */
  ghost predicate Ahead(sorted: seq<Cell>, s: seq<Range>, i: nat, seen: set<Cell>)
    requires |sorted| == |s|
    reads sorted
  {
    forall j | i <= j < |sorted| :: sorted[j] !in seen && sorted[j].ends == s[j]
  }

  lemma AheadNext(sorted: seq<Cell>, s: seq<Range>, i: nat, seen: set<Cell>)
    requires |sorted| == |s| && i < |s| && Distinct(sorted) && Ahead(sorted, s, i, seen)
    ensures sorted[i] !in seen && sorted[i].ends == s[i]
    ensures Ahead(sorted, s, i + 1, seen + {sorted[i]})
  {
    DistinctFrom(sorted, i);
  }

  lemma UpdateIsSplice(s: seq<Range>, i: nat, r: Range)
    requires i < |s|
    ensures s[i := r] == s[..i] + [r] + s[i + 1..]
  {
  }

  lemma UpdateAndDrop(s: seq<Range>, i: nat, r: Range)
    requires i + 1 < |s|
    ensures s[i := r][..i + 1] + s[i := r][i + 2..] == s[..i] + [r] + s[i + 2..]
  {
  }

  /** `cs[i][0] = lo` or `cs[i][1] = hi`, by the new contents. */
  method SetEnds(cs: seq<Cell>, i: nat, r: Range, ghost s: seq<Range>)
    requires Shows(cs, s) && Distinct(cs) && i < |cs|
    modifies cs[i]
    ensures Shows(cs, s[i := r])
  {
    cs[i].ends := r;
  }

  lemma DropCell(cs: seq<Cell>, s: seq<Range>, i: nat, own: set<Cell>)
    requires Shows(cs, s) && Distinct(cs) && Owned(cs, own) && i < |cs|
    ensures Shows(cs[..i] + cs[i + 1..], s[..i] + s[i + 1..])
    ensures Distinct(cs[..i] + cs[i + 1..]) && Owned(cs[..i] + cs[i + 1..], own)
  {
    var r := cs[..i] + cs[i + 1..];
    assert forall k | 0 <= k < |r| :: r[k] == if k < i then cs[k] else cs[k + 1];
  }

  /** `ent` goes into its left neighbour, or joins it with the right one. */
  method ExtendLeft(cs: seq<Cell>, e: Range, idx: nat, ghost s: seq<Range>, ghost own: set<Cell>) returns (r: seq<Cell>)
    requires Shows(cs, s) && Distinct(cs) && Owned(cs, own)
    requires idx == Bisect(s, e) && idx > 0 && s[idx - 1].hi >= e.lo
    modifies own
    ensures Shows(r, Ins(s, e)) && Distinct(r) && Owned(r, own)
  {
    if idx < |cs| && cs[idx].ends.lo <= e.hi {
      var joined := Range(cs[idx - 1].ends.lo, cs[idx].ends.hi);
      UpdateAndDrop(s, idx - 1, joined);
      SetEnds(cs, idx - 1, joined, s);
      DropCell(cs, s[idx - 1 := joined], idx, own);
      r := cs[..idx] + cs[idx + 1..];
    } else {
      UpdateIsSplice(s, idx - 1, Range(cs[idx - 1].ends.lo, e.hi));
      SetEnds(cs, idx - 1, Range(cs[idx - 1].ends.lo, e.hi), s);
      r := cs;
    }
  }

  /** `ent` goes into its right neighbour. */
  method ExtendRight(cs: seq<Cell>, e: Range, idx: nat, ghost s: seq<Range>)
    requires Shows(cs, s) && Distinct(cs)
    requires idx == Bisect(s, e) && !(idx > 0 && s[idx - 1].hi >= e.lo) && idx < |s| && s[idx].lo <= e.hi
    modifies cs[idx]
    ensures Shows(cs, Ins(s, e))
  {
    UpdateIsSplice(s, idx, Range(e.lo, cs[idx].ends.hi));
    SetEnds(cs, idx, Range(e.lo, cs[idx].ends.hi), s);
  }

  /** The body of `ins`, on the list of cells: a neighbour is extended in place,
      or `ent` itself is stored. */
  method InsertCell(cs: seq<Cell>, ent: Cell, ghost s: seq<Range>, ghost own: set<Cell>) returns (r: seq<Cell>)
    requires Shows(cs, s) && Distinct(cs) && Owned(cs, own) && ent !in own
    requires Normal(s)
    modifies own
    ensures Shows(r, Ins(s, old(ent.ends))) && Distinct(r) && Owned(r, own + {ent})
  {
    NormalIsSorted(s);
    var idx := BisectRight(cs, ent.ends, s);
    if idx > 0 && cs[idx - 1].ends.hi >= ent.ends.lo {
      r := ExtendLeft(cs, ent.ends, idx, s, own);
    } else if idx < |cs| && cs[idx].ends.lo <= ent.ends.hi {
      ExtendRight(cs, ent.ends, idx, s);
      r := cs;
    } else {
      Splice(cs, s, idx, ent, own);
      r := cs[..idx] + [ent] + cs[idx..];
    }
  }

  /** A list of ranges. `Contents` is what its cells read as, `Repr` the cells
      it may edit. */
  class HexRanges {
    var entries: seq<Cell>
    ghost var Contents: seq<Range>
    ghost var Repr: set<Cell>

    ghost predicate Valid()
      reads this, Repr
    {
      Owned(entries, Repr) && Distinct(entries) && Shows(entries, Contents)
    }

    constructor Empty()
      ensures Valid() && Contents == [] && Repr == {}
    {
      entries, Contents, Repr := [], [], {};
    }

    /** `HexRanges(text)` */
    constructor (text: string)
      ensures Valid() && fresh(Repr)
      ensures Contents == Parse(text)
    {
      var cells, own := InsortAll(FindAll(text));
      entries, Contents, Repr := cells, Sort(FindAll(text)), own;
      new;
      SortTwice(FindAll(text));
      Prune();
    }

    /** Sorts, then merges in place. When nothing is merged away, every cell
        keeps its contents. */
    method Prune()
      requires Valid()
      modifies this, Repr
      ensures Valid() && Repr <= old(Repr)
      ensures Contents == Ranges.Prune(old(Contents))
      ensures |Contents| == old(|Contents|) ==> forall c | c in old(Repr) :: c.ends == old(c.ends)
    {
      var sorted, own := SortCells(entries, Contents, Repr);
      var merged := MergeCells(sorted, Sort(Contents), own);
      SortSorts(Contents);
      entries, Contents, Repr := merged, Ranges.Prune(Contents), own;
    }

    /** `ins(ent)` */
    method Insert(ent: Cell)
      requires Valid() && Normal(Contents) && ent !in Repr
      modifies this, Repr
      ensures Valid() && Repr == old(Repr) + {ent}
      ensures Contents == Ins(old(Contents), old(ent.ends))
    {
      ghost var s := Ins(Contents, ent.ends);
      var r := InsertCell(entries, ent, Contents, Repr);
      entries, Contents, Repr := r, s, Repr + {ent};
    }

    /** `if l <= right: ins([l, right])`, after `i` turns of the loop of `inv`. */
    method InsertGap(l: int, right: int, ghost s: seq<Range>, ghost i: nat, ghost min: int)
      requires Valid() && Normal(s) && i <= |s|
      requires Contents == GapsUpTo(s, i, min) && l == NextStart(s, i, min)
      modifies this, Repr
      ensures Valid() && fresh(Repr - old(Repr))
      ensures Contents == old(Contents) + Gap(l, right)
    {
      GapsBelow(s, i, min);
      if l <= right {
        InsAppend(Contents, Range(l, right));
        var c := new Cell(l, right);
        Insert(c);
      }
    }

    /** `inv(_min, _max)`: a new list of new cells. */
    method Inverse(min: int, max: int) returns (r: HexRanges)
      requires Valid() && Normal(Contents)
      ensures fresh(r) && r.Valid() && fresh(r.Repr)
      ensures r.Contents == Inv(Contents, min, max)
    {
      ghost var s := Contents;
      r := new HexRanges.Empty();
      var l := min;
      for i := 0 to |entries|
        invariant fresh(r) && r.Valid() && fresh(r.Repr)
        invariant r.Contents == GapsUpTo(s, i, min) && l == NextStart(s, i, min)
      {
        var ent := entries[i].ends;
        assert ent == s[i];
        GapsNext(s, i, min);
        r.InsertGap(l, ent.lo - 1, s, i, min);
        l := ent.hi + 1;
      }
      GapsAll(s, min, max);
      r.InsertGap(l, max, s, |s|, min);
    }

    /** `str(self)` */
    method Str() returns (s: string)
      requires Valid()
      ensures s == Print(Contents)
    {
      s := "";
      var first := true;
      for i := 0 to |entries|
        invariant first <==> i == 0
        invariant s == Print(Contents[..i])
      {
        var ent := entries[i].ends;
        if !first { s := s + ","; }
        s := s + if ent.lo == ent.hi then HexInt(ent.lo) else HexInt(ent.lo) + "-" + HexInt(ent.hi);
        PrintNext(Contents, i);
        first := false;
      }
      assert Contents[..|entries|] == Contents;
    }

    /** `pop()` */
    method Pop()
      requires Valid() && entries != []
      modifies this
      ensures Valid() && Repr == old(Repr) - {old(entries[0])}
      ensures entries == old(entries)[1..] && Contents == old(Contents)[1..]
    {
      Repr := Repr - {entries[0]};
      entries, Contents := entries[1..], Contents[1..];
    }

    /** `self._entries.extend(other._entries)`: the cells become shared. */
    method Extend(other: HexRanges)
      requires Valid() && other.Valid() && other != this && Repr !! other.Repr
      modifies this
      ensures Valid() && Repr == old(Repr) + other.Repr
      ensures Contents == old(Contents) + other.Contents
    {
      Repr := Repr + other.Repr;
      entries, Contents := entries + other.entries, Contents + other.Contents;
    }

    /** `__iter__` */
    method Iterate() returns (addrs: seq<int>)
      requires Valid()
      ensures addrs == Addresses(Contents)
    {
      addrs := [];
      for k := 0 to |entries|
        invariant addrs == Addresses(Contents[..k])
      {
        var ends := entries[k].ends;
        assert Contents[..k + 1][..k] == Contents[..k];
        ghost var start := addrs;
        var i := ends.lo;
        while i <= ends.hi
          invariant ends.lo <= i && (i <= ends.hi + 1 || i == ends.lo)
          invariant addrs == start + UpFrom(ends.lo, i - 1)
        {
          addrs := addrs + [i];
          i := i + 1;
        }
        assert UpFrom(ends.lo, i - 1) == UpFrom(ends.lo, ends.hi);
      }
      assert Contents[..|entries|] == Contents;
    }
  }

  /** Separate lists that read as `vals`, with all their cells in `own`. */
  ghost predicate Loaded(hs: seq<HexRanges>, vals: seq<seq<Range>>, own: set<Cell>)
    reads hs, own
  {
    && |hs| == |vals|
    && (forall i | 0 <= i < |hs| :: hs[i].Repr <= own && hs[i].Valid() && hs[i].Contents == vals[i])
    && (forall i, j | 0 <= i < j < |hs| :: hs[i].Repr !! hs[j].Repr)
  }

  function Flat(vals: seq<seq<Range>>): seq<Range> {
    if vals == [] then [] else Flat(vals[..|vals| - 1]) + vals[|vals| - 1]
  }

  lemma FlatSnoc(vals: seq<seq<Range>>, i: nat)
    requires i < |vals|
    ensures Flat(vals[..i + 1]) == Flat(vals[..i]) + vals[i]
  {
    assert vals[..i + 1][..i] == vals[..i];
  }

  /** `HexRanges.union(*hs)`: a new list made of the very cells of the arguments.
      Pruning it may edit them, but not when nothing is merged away. */
  method Union(hs: seq<HexRanges>, ghost vals: seq<seq<Range>>, ghost own: set<Cell>) returns (u: HexRanges)
    requires Loaded(hs, vals, own)
    modifies own
    ensures fresh(u) && u.Valid() && u.Repr <= own
    ensures u.Contents == Ranges.Prune(Flat(vals))
    ensures |u.Contents| == |Flat(vals)| ==> forall c | c in own :: c.ends == old(c.ends)
  {
    u := new HexRanges.Empty();
    for i := 0 to |hs|
      invariant fresh(u) && u.Valid() && u.Repr <= own
      invariant forall j | i <= j < |hs| :: u.Repr !! hs[j].Repr
      invariant u.Contents == Flat(vals[..i])
      modifies u
    {
      FlatSnoc(vals, i);
      u.Extend(hs[i]);
    }
    assert vals[..|vals|] == vals;
    u.Prune();
  }

  /** The front part of the first available range is enough. */
  method TakeFront(avail: HexRanges, addrs: HexRanges, n: nat, ghost goal: (seq<Range>, int))
    requires avail.Valid() && addrs.Valid() && avail != addrs && addrs.Repr !! avail.Repr
    requires Fitting(addrs.Contents, avail.Contents, n, goal)
    requires avail.Contents != [] && 0 < n <= avail.Contents[0].hi - avail.Contents[0].lo
    modifies avail, addrs, addrs.Repr, avail.Repr
    ensures addrs.Valid() && fresh(addrs.Repr - old(addrs.Repr))
    ensures (addrs.Contents, 0) == goal
  {
    var ent := avail.entries[0];
    var a := new Cell(ent.ends.lo, ent.ends.lo + n - 1);
    FitFront(addrs.Contents, avail.Contents, n, goal);
    FitNext(addrs.Contents, avail.Contents, n, goal, a.ends);
    addrs.Insert(a);
    ent.ends := Range(ent.ends.lo + n, ent.ends.hi);
  }

  /** The first available range moves over as it is. */
  method TakeFirst(avail: HexRanges, addrs: HexRanges, n: nat, ghost goal: (seq<Range>, int)) returns (missing: nat)
    requires avail.Valid() && addrs.Valid() && avail != addrs && addrs.Repr !! avail.Repr
    requires Fitting(addrs.Contents, avail.Contents, n, goal)
    requires avail.Contents != [] && avail.Contents[0].hi - avail.Contents[0].lo < n
    modifies avail, addrs, addrs.Repr
    ensures avail.Valid() && addrs.Valid() && addrs.Repr !! avail.Repr
    ensures avail.Repr <= old(avail.Repr) && addrs.Repr <= old(addrs.Repr + avail.Repr)
    ensures Fitting(addrs.Contents, avail.Contents, missing, goal) && missing < n
  {
    var ent := avail.entries[0];
    FitNext(addrs.Contents, avail.Contents, n, goal, ent.ends);
    FitWhole(addrs.Contents, avail.Contents, n, goal);
    missing := n - (ent.ends.hi - ent.ends.lo + 1);
    addrs.Insert(ent);
    avail.Pop();
  }

  /** The loop of `alloc_addr` over the available ranges. */
  method FirstFit(avail: HexRanges, n: nat) returns (addrs: HexRanges, missing: nat)
    requires avail.Valid() && Normal(avail.Contents)
    modifies avail, avail.Repr
    ensures fresh(addrs) && addrs.Valid() && fresh(addrs.Repr - old(avail.Repr))
    ensures (addrs.Contents, missing) == TakeLow(old(avail.Contents), n)
  {
    ghost var goal, was := TakeLow(avail.Contents, n), avail.Repr;
    addrs := new HexRanges.Empty();
    missing := n;
    FitStart(avail.Contents, n);
    while missing > 0 && |avail.entries| > 0
      invariant fresh(addrs) && addrs.Valid() && avail.Valid() && addrs.Repr !! avail.Repr
      invariant fresh(addrs.Repr - was) && avail.Repr <= was
      invariant Fitting(addrs.Contents, avail.Contents, missing, goal)
      decreases missing
    {
      var ent := avail.entries[0].ends;
      if missing < ent.hi - ent.lo + 1 {
        TakeFront(avail, addrs, missing, goal);
        missing := 0;
        return;
      }
      missing := TakeFirst(avail, addrs, missing, goal);
    }
    FitEnd(addrs.Contents, avail.Contents, missing, goal);
  }
}
