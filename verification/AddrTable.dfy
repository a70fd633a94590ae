/** The allocation table of `IPAddrDb` (runtime/singularity.py) on values, and
    what any history of allocations and releases does to it. */
module AddrTable {
  import opened Options
  import opened Ranges
  import opened Lists

  datatype Row = Row(name: string, ranges: seq<Range>)

  /** The table, in insertion order. */
  type Table = seq<Row>

  /** The addresses a network offers: `network + 1` to `broadcast - 1`. */
  datatype Net = Net(min: int, max: int)

  function Used(t: Table): seq<Range> {
    if t == [] then [] else Used(t[..|t| - 1]) + t[|t| - 1].ranges
  }

  ghost predicate Disjoint(a: seq<Range>, b: seq<Range>) {
    forall x | Has(a, x) :: !Has(b, x)
  }

  function NamesOf(t: Table): (names: seq<string>)
    ensures |names| == |t|
  {
    seq(|t|, i requires 0 <= i < |t| => t[i].name)
  }

  /** Every allocation is sorted, disjoint and inside the network; no cluster
      occurs twice and no address belongs to two clusters. */
  ghost predicate Consistent(t: Table, net: Net) {
    && (forall i | 0 <= i < |t| :: Normal(t[i].ranges) && Within(t[i].ranges, net.min, net.max))
    && Distinct(NamesOf(t))
    && (forall i, j | 0 <= i < j < |t| :: Disjoint(t[i].ranges, t[j].ranges))
  }

  /** The row of a cluster; `|t|` when there is none. */
  function Find(t: Table, name: string): (k: nat)
    ensures k <= |t|
    ensures k < |t| ==> t[k].name == name
    ensures forall i | 0 <= i < k :: t[i].name != name
  {
    if t == [] || t[0].name == name then 0 else 1 + Find(t[1..], name)
  }

  function Available(t: Table, net: Net): seq<Range> {
    Inv(Prune(Used(t)), net.min, net.max)
  }

  /** `alloc_addr`: a known cluster gets its old ranges back. */
  function Alloc(t: Table, net: Net, name: string, n: nat): (Table, Option<seq<Range>>) {
    var k := Find(t, name);
    if k < |t| then (t, Some(t[k].ranges))
    else
      var (r, missing) := TakeLow(Available(t, net), n);
      if missing > 0 then (t, None) else (t + [Row(name, r)], Some(r))
  }

  /** `free_addr` */
  function Free(t: Table, name: string): Table {
    var k := Find(t, name);
    if k < |t| then t[..k] + t[k + 1..] else t
  }

  /** The addresses of the network that no cluster holds. */
  function FreeSet(t: Table, net: Net): set<int> {
    set x | x in Interval(net.min, net.max) && !Has(Used(t), x)
  }

  // ---- members ------------------------------------------------------------

  lemma {:induction false} UsedMembers(t: Table, x: int)
    ensures Has(Used(t), x) <==> exists i :: 0 <= i < |t| && Has(t[i].ranges, x)
  {
    if t != [] {
      var n := |t| - 1;
      UsedMembers(t[..n], x);
      HasConcat(Used(t[..n]), t[n].ranges, x);
      if Has(Used(t[..n]), x) {
        var i :| 0 <= i < n && Has(t[..n][i].ranges, x);
        assert Has(t[i].ranges, x);
      }
      if i :| 0 <= i < |t| && Has(t[i].ranges, x) {
        assert i < n ==> t[..n][i] == t[i];
      }
    }
  }

  lemma ConsistentPrefix(t: Table, net: Net, k: nat)
    requires Consistent(t, net) && k <= |t|
    ensures Consistent(t[..k], net)
  {
    assert NamesOf(t[..k]) == NamesOf(t)[..k];
  }

  /** Putting a range that overlaps nothing into a sorted, disjoint list. */
  lemma InsortDisjoint(s: seq<Range>, r: Range)
    requires Normal(s) && r.lo <= r.hi
    requires forall x | In(x, r) :: !Has(s, x)
    ensures Normal(Insort(s, r))
  {
    var k := Bisect(s, r);
    NormalSlice(s, 0, k);
    NormalSlice(s, k, |s|);
    assert s[0..k] == s[..k] && s[k..|s|] == s[k..];
    if k > 0 {
      assert !Lt(r, s[k - 1]);
      if r.lo <= s[k - 1].hi { assert In(r.lo, s[k - 1]); assert In(r.lo, r); }
    }
    if k < |s| && s[k].lo <= r.hi {
      assert In(s[k].lo, s[k]) && In(s[k].lo, r);
    }
    NormalAround(s[..k], r, s[k..]);
  }

  lemma {:induction false} SortAppendDisjoint(s: seq<Range>, rs: seq<Range>)
    requires Normal(Sort(s)) && Normal(rs) && Disjoint(rs, s)
    ensures Normal(Sort(s + rs))
  {
    if rs == [] {
      assert s + rs == s;
    } else {
      var n := |rs| - 1;
      var a, r := rs[..n], rs[n];
      SplitLast(rs);
      SortAppendDisjoint(s, a);
      assert (s + rs)[..|s + rs| - 1] == s + a;
      forall x | In(x, r) ensures !Has(Sort(s + a), x) {
        SortKeepsElements(s + a, x);
        HasConcat(s, a, x);
      }
      InsortDisjoint(Sort(s + a), r);
    }
  }

  lemma SplitLast(rs: seq<Range>)
    requires Normal(rs) && rs != []
    ensures var n := |rs| - 1;
            && Normal(rs[..n]) && rs[n].lo <= rs[n].hi
            && (forall x | In(x, rs[n]) :: Has(rs, x) && !Has(rs[..n], x))
            && (forall x | Has(rs[..n], x) :: Has(rs, x))
  {
    var n := |rs| - 1;
    NormalSlice(rs, 0, n);
    assert rs[0..n] == rs[..n];
    assert rs == rs[..n] + [rs[n]];
    forall x ensures Has(rs, x) <==> Has(rs[..n], x) || In(x, rs[n]) {
      HasConcat(rs[..n], [rs[n]], x);
      HasCons([rs[n]], x);
    }
    forall x | Has(rs[..n], x) ensures x < rs[n].lo {
      Beyond(rs, n, x);
    }
  }

  /** The ranges of a consistent table overlap nowhere, so pruning their union
      only sorts it. */
  lemma {:induction false} UsedNormal(t: Table, net: Net)
    requires Consistent(t, net)
    ensures Normal(Sort(Used(t)))
    ensures Prune(Used(t)) == Sort(Used(t)) && |Prune(Used(t))| == |Used(t)|
  {
    if t != [] {
      var n := |t| - 1;
      ConsistentPrefix(t, net, n);
      UsedNormal(t[..n], net);
      forall x | Has(t[n].ranges, x) ensures !Has(Used(t[..n]), x) {
        UsedMembers(t[..n], x);
        assert forall i | 0 <= i < n :: Disjoint(t[i].ranges, t[n].ranges);
      }
      SortAppendDisjoint(Used(t[..n]), t[n].ranges);
    }
    SortSorts(Used(t));
    MergeSeparated(Sort(Used(t)));
  }

  lemma WithinByMembers(s: seq<Range>, min: int, max: int)
    requires Normal(s) && forall x | Has(s, x) :: min <= x <= max
    ensures Within(s, min, max)
  {
    forall i | 0 <= i < |s| ensures min <= s[i].lo && s[i].hi <= max {
      assert In(s[i].lo, s[i]) && In(s[i].hi, s[i]);
      assert Has(s, s[i].lo) && Has(s, s[i].hi);
    }
  }

  lemma WithinMembers(s: seq<Range>, min: int, max: int, x: int)
    requires Within(s, min, max) && Has(s, x)
    ensures min <= x <= max
  {
  }

  /** Every address in use is one of the network. */
  lemma UsedWithin(t: Table, net: Net, x: int)
    requires Consistent(t, net) && Has(Used(t), x)
    ensures net.min <= x <= net.max
  {
    UsedMembers(t, x);
    var i :| 0 <= i < |t| && Has(t[i].ranges, x);
    WithinMembers(t[i].ranges, net.min, net.max, x);
  }

  lemma PrunedUsed(t: Table, net: Net)
    requires Consistent(t, net)
    ensures Normal(Prune(Used(t))) && Within(Prune(Used(t)), net.min, net.max)
    ensures forall x :: Has(Prune(Used(t)), x) <==> Has(Used(t), x)
  {
    var u := Prune(Used(t));
    UsedNormal(t, net);
    forall x ensures Has(u, x) <==> Has(Used(t), x) { SortKeepsElements(Used(t), x); }
    forall x | Has(u, x) ensures net.min <= x <= net.max { UsedWithin(t, net, x); }
    WithinByMembers(u, net.min, net.max);
  }

  lemma AvailableAt(t: Table, net: Net, x: int)
    requires Consistent(t, net)
    ensures Has(Available(t, net), x) <==> net.min <= x <= net.max && !Has(Used(t), x)
  {
    var u := Prune(Used(t));
    PrunedUsed(t, net);
    WithinFits(u, net.min, net.min, net.max);
    InvInside(u, net.min, net.min, net.max);
    InvComplete(u, net.min, net.max, x);
  }

  /** What `alloc_addr` chooses from is exactly the set of free addresses. */
  lemma AvailableIsFree(t: Table, net: Net)
    requires Consistent(t, net)
    ensures Normal(Available(t, net))
    ensures Elems(Available(t, net)) == FreeSet(t, net)
  {
    PrunedUsed(t, net);
    InvNormal(Prune(Used(t)), net.min, net.max);
    forall x ensures x in Elems(Available(t, net)) <==> x in FreeSet(t, net) {
      AvailableAt(t, net, x);
    }
  }

  // ---- one call -----------------------------------------------------------

  lemma AppendConsistent(t: Table, net: Net, row: Row)
    requires Consistent(t, net) && Find(t, row.name) == |t|
    requires Normal(row.ranges) && forall x | Has(row.ranges, x) :: x in FreeSet(t, net)
    ensures Consistent(t + [row], net)
  {
    WithinByMembers(row.ranges, net.min, net.max);
    assert NamesOf(t + [row]) == NamesOf(t) + [row.name];
    DistinctJoin(NamesOf(t), [row.name]);
    forall i | 0 <= i < |t| ensures Disjoint(t[i].ranges, row.ranges) {
      forall x | Has(t[i].ranges, x) ensures !Has(row.ranges, x) {
        UsedMembers(t, x);
      }
    }
  }

  lemma AppendFree(t: Table, net: Net, row: Row)
    ensures FreeSet(t + [row], net) == FreeSet(t, net) - Elems(row.ranges)
  {
    assert (t + [row])[..|t|] == t;
    forall x ensures Has(Used(t + [row]), x) <==> Has(Used(t), x) || Has(row.ranges, x) {
      HasConcat(Used(t), row.ranges, x);
    }
  }

  /** Nothing of `s` that `t` leaves out comes before anything of `t`. */
  ghost predicate SmallestOf(t: set<int>, s: set<int>) {
    t <= s && forall x, y | x in t && y in s && y !in t :: x < y
  }

  /** A new cluster gets exactly the `n` lowest free addresses, which stop being
      free; or, exactly when fewer than `n` are free, nothing happens. */
  lemma AllocExact(t: Table, net: Net, name: string, n: nat)
    requires Consistent(t, net) && Find(t, name) == |t|
    ensures var (t', r) := Alloc(t, net, name, n);
            && (r.None? <==> |FreeSet(t, net)| < n)
            && (r.None? ==> t' == t)
            && (r.Some? ==>
                  && Normal(r.value) && |Elems(r.value)| == n
                  && SmallestOf(Elems(r.value), FreeSet(t, net))
                  && t' == t + [Row(name, r.value)] && Consistent(t', net)
                  && FreeSet(t', net) == FreeSet(t, net) - Elems(r.value))
  {
    var av := Available(t, net);
    var (r, missing) := TakeLow(av, n);
    AvailableIsFree(t, net);
    TakeLowNormal(av, n);
    LowestTaken(t, net, n);
    if missing == 0 {
      assert forall x | Has(r, x) :: x in Elems(r);
      AppendConsistent(t, net, Row(name, r));
      AppendFree(t, net, Row(name, r));
    }
  }

  lemma LowestTaken(t: Table, net: Net, n: nat)
    requires Consistent(t, net)
    ensures var (r, missing) := TakeLow(Available(t, net), n);
            && missing >= 0
            && (missing == 0 <==> n <= |FreeSet(t, net)|)
            && |Elems(r)| == n - missing
            && SmallestOf(Elems(r), FreeSet(t, net))
  {
    var av := Available(t, net);
    AvailableIsFree(t, net);
    TakenCount(av, n);
    TakenSmallest(av, n);
  }

  lemma TakenCount(av: seq<Range>, n: nat)
    requires Normal(av)
    ensures var (r, missing) := TakeLow(av, n);
            missing >= 0 && (missing == 0 <==> n <= |Elems(av)|) && |Elems(r)| == n - missing
  {
    TakeLowNormal(av, n);
    TakeLowCounts(av, n);
    SizeIsCardinality(av);
    SizeIsCardinality(TakeLow(av, n).0);
  }

  lemma TakenSmallest(av: seq<Range>, n: nat)
    requires Normal(av)
    ensures SmallestOf(Elems(TakeLow(av, n).0), Elems(av))
  {
    TakeLowIsLowest(av, n);
  }

  /** The three ways a call can go. */
  lemma AllocCases(t: Table, net: Net, name: string, n: nat)
    requires Consistent(t, net)
    ensures var k := Find(t, name);
            var (r, missing) := TakeLow(Available(t, net), n);
            && (k < |t| ==> Alloc(t, net, name, n) == (t, Some(t[k].ranges)))
            && (k == |t| && missing > 0 ==> Alloc(t, net, name, n) == (t, None))
            && (k == |t| && missing <= 0 ==>
                  Alloc(t, net, name, n) == (t + [Row(name, r)], Some(r)) && Consistent(t + [Row(name, r)], net))
  {
    if Find(t, name) == |t| {
      AllocExact(t, net, name, n);
    }
  }

  /** A known cluster gets its old allocation back and nothing changes. */
  lemma AllocKnown(t: Table, net: Net, i: nat, n: nat)
    requires Consistent(t, net) && i < |t|
    ensures Alloc(t, net, t[i].name, n) == (t, Some(t[i].ranges))
  {
    var k := Find(t, t[i].name);
    assert NamesOf(t)[k] == NamesOf(t)[i];
  }

  lemma DropRow(t: Table, k: nat)
    requires k < |t|
    ensures |t[..k] + t[k + 1..]| == |t| - 1
    ensures forall i | 0 <= i < |t| - 1 :: (t[..k] + t[k + 1..])[i] == if i < k then t[i] else t[i + 1]
  {
  }

  lemma NamesWithout(t: Table, k: nat)
    requires k < |t|
    ensures NamesOf(t[..k] + t[k + 1..]) == NamesOf(t)[..k] + NamesOf(t)[k + 1..]
  {
    DropRow(t, k);
  }

  lemma FreeConsistent(t: Table, net: Net, name: string)
    requires Consistent(t, net)
    ensures Consistent(Free(t, name), net)
  {
    var k := Find(t, name);
    if k < |t| {
      var t' := Free(t, name);
      DropRow(t, k);
      DistinctWithout(NamesOf(t), k);
      NamesWithout(t, k);
      forall i, j | 0 <= i < j < |t'| ensures Disjoint(t'[i].ranges, t'[j].ranges) {
        var a, b := if i < k then i else i + 1, if j < k then j else j + 1;
        assert a < b && t'[i] == t[a] && t'[j] == t[b];
      }
    }
  }

  lemma {:induction false} UsedDrop(t: Table, k: nat, x: int)
    requires k < |t|
    ensures Has(Used(t), x) <==> Has(Used(t[..k] + t[k + 1..]), x) || Has(t[k].ranges, x)
  {
    var n := |t| - 1;
    var t' := t[..k] + t[k + 1..];
    HasConcat(Used(t[..n]), t[n].ranges, x);
    if k == n {
      assert t' == t[..n];
    } else {
      UsedDrop(t[..n], k, x);
      assert t'[..n - 1] == t[..n][..k] + t[..n][k + 1..];
      assert t'[n - 1] == t[n];
      HasConcat(Used(t'[..n - 1]), t[n].ranges, x);
    }
  }

  lemma FindAbsent(t: Table, name: string)
    requires name !in NamesOf(t)
    ensures Find(t, name) == |t|
  {
    forall i | 0 <= i < |t| ensures t[i].name != name {
      assert NamesOf(t)[i] in NamesOf(t);
    }
  }

  /** Releasing a cluster makes exactly its addresses free again. */
  lemma FreeExact(t: Table, net: Net, name: string)
    requires Consistent(t, net)
    ensures Find(Free(t, name), name) == |Free(t, name)|
    ensures var k := Find(t, name);
            FreeSet(Free(t, name), net) ==
            FreeSet(t, net) + if k < |t| then Elems(t[k].ranges) else {}
  {
    var k, t' := Find(t, name), Free(t, name);
    if k < |t| {
      FreedOnce(t, net, k);
      FindAbsent(t', name);
      var r := t[k].ranges;
      forall x ensures Has(Used(t), x) <==> Has(Used(t'), x) || Has(r, x) {
        UsedDrop(t, k, x);
      }
      FreeSetGrows(t, t', net, r);
    }
  }

  /** Releasing a cluster takes its row out and leaves the row of every other cluster
      as it was, in the old order. */
  lemma FreeOthers(t: Table, net: Net, name: string)
    requires Consistent(t, net)
    ensures Free(t, name) == Others(t, name)
    ensures forall r: Row :: r in Free(t, name) <==> r in t && r.name != name
  {
    OthersMembers(t, name);
    var k := Find(t, name);
    if k < |t| {
      forall i | 0 <= i < |t| && i != k ensures t[i].name != name {
        assert NamesOf(t)[i] != NamesOf(t)[k];
      }
      OthersParts(t, name, k);
    } else {
      NoneLeft(t, name);
    }
  }

  /** The rows of the other clusters. */
  function Others(t: Table, name: string): Table {
    if t == [] then [] else (if t[0].name == name then [] else [t[0]]) + Others(t[1..], name)
  }

  lemma {:induction false} OthersMembers(t: Table, name: string)
    ensures forall r: Row :: r in Others(t, name) <==> r in t && r.name != name
  {
    if t != [] {
      OthersMembers(t[1..], name);
      assert forall r: Row :: r in t <==> r == t[0] || r in t[1..];
    }
  }

  lemma {:induction false} NoneLeft(t: Table, name: string)
    requires forall i | 0 <= i < |t| :: t[i].name != name
    ensures Others(t, name) == t
  {
    if t != [] {
      NoneLeft(t[1..], name);
    }
  }

  lemma {:induction false} OthersParts(t: Table, name: string, k: nat)
    requires k < |t| && t[k].name == name
    requires forall i | 0 <= i < |t| && i != k :: t[i].name != name
    ensures Others(t, name) == t[..k] + t[k + 1..]
  {
    if k == 0 {
      NoneLeft(t[1..], name);
      assert t[..0] + t[1..] == t[1..];
    } else {
      OthersParts(t[1..], name, k - 1);
      assert [t[0]] + (t[1..][..k - 1] + t[1..][k..]) == t[..k] + t[k + 1..];
    }
  }

  lemma FreeSetGrows(t: Table, t': Table, net: Net, r: seq<Range>)
    requires forall x :: Has(Used(t), x) <==> Has(Used(t'), x) || Has(r, x)
    requires forall x | Has(r, x) :: net.min <= x <= net.max && !Has(Used(t'), x)
    ensures FreeSet(t', net) == FreeSet(t, net) + Elems(r)
  {
  }

  /** No other cluster holds the addresses of row `k`, and nobody is left with
      its name. */
  lemma FreedOnce(t: Table, net: Net, k: nat)
    requires Consistent(t, net) && k < |t|
    ensures var t' := t[..k] + t[k + 1..];
            && (forall x | Has(t[k].ranges, x) :: net.min <= x <= net.max && !Has(Used(t'), x))
            && t[k].name !in NamesOf(t')
  {
    var t' := t[..k] + t[k + 1..];
    DropRow(t, k);
    DistinctWithout(NamesOf(t), k);
    NamesWithout(t, k);
    forall x | Has(t[k].ranges, x) ensures net.min <= x <= net.max && !Has(Used(t'), x) {
      WithinMembers(t[k].ranges, net.min, net.max, x);
      UsedMembers(t', x);
      forall i | 0 <= i < |t'| ensures !Has(t'[i].ranges, x) {
        assert Disjoint(t[k].ranges, t'[i].ranges) || Disjoint(t'[i].ranges, t[k].ranges);
      }
    }
  }

  // ---- histories ----------------------------------------------------------

  datatype Op = AllocOp(name: string, n: nat) | FreeOp(name: string)

  function Step(t: Table, net: Net, op: Op): Table {
    match op
    case AllocOp(name, n) => Alloc(t, net, name, n).0
    case FreeOp(name) => Free(t, name)
  }

  function Run(t: Table, net: Net, ops: seq<Op>): Table
    decreases |ops|
  {
    if ops == [] then t else Run(Step(t, net, ops[0]), net, ops[1..])
  }

  lemma StepConsistent(t: Table, net: Net, op: Op)
    requires Consistent(t, net)
    ensures Consistent(Step(t, net, op), net)
  {
    match op
    case AllocOp(name, n) => if Find(t, name) == |t| { AllocExact(t, net, name, n); }
    case FreeOp(name) => FreeConsistent(t, net, name);
  }

  /** Whatever clusters come and go, starting from an empty database: the table
      stays consistent, ... */
  lemma {:induction false} RunConsistent(t: Table, net: Net, ops: seq<Op>)
    requires Consistent(t, net)
    ensures Consistent(Run(t, net, ops), net)
    decreases |ops|
  {
    if ops != [] {
      StepConsistent(t, net, ops[0]);
      RunConsistent(Step(t, net, ops[0]), net, ops[1..]);
    }
  }

  /** A call leaves the row of every cluster that it does not name as it was, and
      the row of one that it names for allocation, once there. */
  lemma StepOthers(t: Table, net: Net, op: Op)
    requires Consistent(t, net)
    ensures forall r: Row | r.name != op.name :: r in Step(t, net, op) <==> r in t
    ensures op.AllocOp? ==> forall r: Row | r in t :: r in Step(t, net, op)
  {
    match op
    case AllocOp(name, n) =>
      AllocCases(t, net, name, n);
    case FreeOp(name) => FreeOthers(t, net, name);
  }

  /** Over any calls, the ranges of a cluster change only by calls that name it ... */
  lemma {:induction false} RunOthers(t: Table, net: Net, ops: seq<Op>, r: Row)
    requires Consistent(t, net)
    requires forall i | 0 <= i < |ops| :: ops[i].name != r.name
    ensures r in Run(t, net, ops) <==> r in t
    decreases |ops|
  {
    if ops != [] {
      StepConsistent(t, net, ops[0]);
      StepOthers(t, net, ops[0]);
      RunOthers(Step(t, net, ops[0]), net, ops[1..], r);
    }
  }

  /** ... and once allocated stay until the cluster is released. */
  lemma {:induction false} KeptUntilFreed(t: Table, net: Net, ops: seq<Op>, r: Row)
    requires Consistent(t, net) && r in t
    requires forall i | 0 <= i < |ops| :: ops[i] != FreeOp(r.name)
    ensures r in Run(t, net, ops)
    decreases |ops|
  {
    if ops != [] {
      StepConsistent(t, net, ops[0]);
      StepOthers(t, net, ops[0]);
      KeptUntilFreed(Step(t, net, ops[0]), net, ops[1..], r);
    }
  }

  /** How many clusters hold an address. */
  function Holders(t: Table, x: int): nat {
    if t == [] then 0 else Holders(t[..|t| - 1], x) + if Has(t[|t| - 1].ranges, x) then 1 else 0
  }

  lemma {:induction false} HoldersAtMostOne(t: Table, net: Net, x: int)
    requires Consistent(t, net)
    ensures Holders(t, x) == if Has(Used(t), x) then 1 else 0
    decreases |t|
  {
    if t != [] {
      var n := |t| - 1;
      ConsistentPrefix(t, net, n);
      HoldersAtMostOne(t[..n], net, x);
      HasConcat(Used(t[..n]), t[n].ranges, x);
      UsedMembers(t[..n], x);
      assert Has(Used(t[..n]), x) ==>
          exists i :: 0 <= i < n && Has(t[i].ranges, x) && Disjoint(t[i].ranges, t[n].ranges);
    }
  }

  /** ... every address is either free or belongs to exactly one cluster, nothing else
      belongs to any, and with no cluster left the whole network is free. */
  lemma Conservation(t: Table, net: Net)
    requires Consistent(t, net)
    ensures forall x | net.min <= x <= net.max :: Holders(t, x) == if x in FreeSet(t, net) then 0 else 1
    ensures forall x | !(net.min <= x <= net.max) :: Holders(t, x) == 0 && x !in FreeSet(t, net)
    ensures |FreeSet(t, net)| + |Elems(Used(t))| == |Interval(net.min, net.max)|
    ensures FreeSet([], net) == Interval(net.min, net.max)
  {
    forall x ensures Holders(t, x) == if Has(Used(t), x) then 1 else 0 {
      HoldersAtMostOne(t, net, x);
    }
    forall x | Has(Used(t), x) ensures net.min <= x <= net.max {
      UsedWithin(t, net, x);
    }
    FreeAndUsed(t, net);
    AllFree(net);
  }

  lemma FreeAndUsed(t: Table, net: Net)
    requires forall x | Has(Used(t), x) :: net.min <= x <= net.max
    ensures |FreeSet(t, net)| + |Elems(Used(t))| == |Interval(net.min, net.max)|
  {
    assert FreeSet(t, net) !! Elems(Used(t));
    assert FreeSet(t, net) + Elems(Used(t)) == Interval(net.min, net.max);
  }

  lemma AllFree(net: Net)
    ensures FreeSet([], net) == Interval(net.min, net.max)
  {
    assert forall x :: !Has(Used([]), x);
  }

  /** An allocation followed by the release of the same cluster is undone. */
  lemma AllocThenFree(t: Table, net: Net, name: string, n: nat)
    requires Find(t, name) == |t|
    ensures Free(Alloc(t, net, name, n).0, name) == t
  {
    var t' := Alloc(t, net, name, n).0;
    if t' != t {
      FindLast(t, name, t'[|t|]);
      assert t'[..|t|] + t'[|t| + 1..] == t;
    }
  }

  lemma {:induction false} FindLast(t: Table, name: string, row: Row)
    requires Find(t, name) == |t| && row.name == name
    ensures Find(t + [row], name) == |t|
  {
    if t != [] {
      assert (t + [row])[1..] == t[1..] + [row];
      FindLast(t[1..], name, row);
    }
  }
}
