/** Distributing containers over Docker hosts (`DockerCluster.__create` in
    runtime/docker.py): level up to the highest load first, then spread evenly. */
module DockerPlacement {
  import opened Lists
  import opened Placement

  /** One row of the allocation table: `[load, alloc, client]`. */
  datatype Row = Row(load: nat, alloc: nat, client: string)

  function Loads(tbl: seq<Row>): (r: seq<nat>)
    ensures |r| == |tbl| && forall i | 0 <= i < |tbl| :: r[i] == tbl[i].load
  {
    seq(|tbl|, i requires 0 <= i < |tbl| => tbl[i].load)
  }

  function Allocs(tbl: seq<Row>): (r: seq<nat>)
    ensures |r| == |tbl| && forall i | 0 <= i < |tbl| :: r[i] == tbl[i].alloc
  {
    seq(|tbl|, i requires 0 <= i < |tbl| => tbl[i].alloc)
  }

  predicate ByLoad(tbl: seq<Row>) {
    forall i, j | 0 <= i < j < |tbl| :: tbl[i].load <= tbl[j].load
  }

  function Hosts(tbl: seq<Row>): (r: seq<(nat, string)>)
    ensures |r| == |tbl|
  {
    seq(|tbl|, i requires 0 <= i < |tbl| => (tbl[i].load, tbl[i].client))
  }

  /** Nothing is allocated yet. */
  predicate Unused(tbl: seq<Row>) {
    forall i | 0 <= i < |tbl| :: tbl[i].alloc == 0
  }

  lemma InsertOrdered(tbl: seq<Row>, k: nat, row: Row)
    requires ByLoad(tbl) && k <= |tbl|
    requires k > 0 ==> tbl[k - 1].load <= row.load
    requires k < |tbl| ==> row.load <= tbl[k].load
    ensures ByLoad(tbl[..k] + [row] + tbl[k..])
  {
    var r := tbl[..k] + [row] + tbl[k..];
    forall i | 0 <= i < k ensures tbl[i].load <= row.load {
      assert i < k - 1 ==> tbl[i].load <= tbl[k - 1].load;
    }
    forall i | k <= i < |tbl| ensures row.load <= tbl[i].load {
      assert i > k ==> tbl[k].load <= tbl[i].load;
    }
    forall i, j | 0 <= i < j < |r| ensures r[i].load <= r[j].load {
      assert r[i] == if i < k then tbl[i] else if i == k then row else tbl[i - 1];
      assert r[j] == if j < k then tbl[j] else if j == k then row else tbl[j - 1];
    }
  }

  lemma InsertHost(tbl: seq<Row>, k: nat, row: Row)
    requires k <= |tbl|
    ensures multiset(Hosts(tbl[..k] + [row] + tbl[k..])) == multiset(Hosts(tbl)) + multiset{(row.load, row.client)}
  {
    var h := Hosts(tbl);
    assert h == h[..k] + h[k..];
    assert Hosts(tbl[..k] + [row] + tbl[k..]) == h[..k] + [(row.load, row.client)] + h[k..];
  }

  /** `tbl.sort(key = load)`: stable insertion. */
  method SortByLoad(rows: seq<Row>) returns (tbl: seq<Row>)
    requires Unused(rows)
    ensures ByLoad(tbl) && Unused(tbl) && |tbl| == |rows|
    ensures multiset(Hosts(tbl)) == multiset(Hosts(rows))
    ensures forall x :: WithLoad(tbl, x) == WithLoad(rows, x)
  {
    tbl := [];
    for n := 0 to |rows|
      invariant ByLoad(tbl) && Unused(tbl) && |tbl| == n
      invariant multiset(Hosts(tbl)) == multiset(Hosts(rows)[..n])
      invariant forall x :: WithLoad(tbl, x) == WithLoad(rows[..n], x)
    {
      HostsNext(rows, n);
      assert rows[..n + 1] == rows[..n] + [rows[n]];
      forall x ensures WithLoad(rows[..n + 1], x) == WithLoad(rows[..n], x) + WithLoad([rows[n]], x) {
        FilterConcat(rows[..n], [rows[n]], Carries(x));
      }
      tbl := InsertRow(tbl, rows[n]);
    }
    assert Hosts(rows)[..|rows|] == Hosts(rows) && rows[..|rows|] == rows;
  }

  lemma HostsNext(rows: seq<Row>, n: nat)
    requires n < |rows|
    ensures Hosts(rows)[..n + 1] == Hosts(rows)[..n] + [(rows[n].load, rows[n].client)]
  {
  }

  function Carries(x: nat): Row -> bool {
    (r: Row) => r.load == x
  }

  /** The rows that carry this load, in order. */
  function WithLoad(tbl: seq<Row>, x: nat): seq<Row> {
    Filter(tbl, Carries(x))
  }

  lemma InsertWithLoad(tbl: seq<Row>, k: nat, row: Row, x: nat)
    requires ByLoad(tbl) && k <= |tbl| && (k < |tbl| ==> row.load < tbl[k].load)
    ensures WithLoad(tbl[..k] + [row] + tbl[k..], x) == WithLoad(tbl, x) + WithLoad([row], x)
  {
    assert forall i | k <= i < |tbl| :: tbl[k].load <= tbl[i].load;
    assert tbl == tbl[..k] + tbl[k..];
    FilterInsert(tbl[..k], row, tbl[k..], Carries(x));
  }

  /** Behind the rows that do not carry more. */
  method InsertRow(tbl: seq<Row>, row: Row) returns (r: seq<Row>)
    requires ByLoad(tbl) && Unused(tbl) && row.alloc == 0
    ensures ByLoad(r) && Unused(r) && |r| == |tbl| + 1
    ensures multiset(Hosts(r)) == multiset(Hosts(tbl)) + multiset{(row.load, row.client)}
    ensures forall x :: WithLoad(r, x) == WithLoad(tbl, x) + WithLoad([row], x)
  {
    var k := 0;
    while k < |tbl| && tbl[k].load <= row.load
      invariant k <= |tbl|
      invariant k > 0 ==> tbl[k - 1].load <= row.load
    {
      k := k + 1;
    }
    InsertOrdered(tbl, k, row);
    InsertHost(tbl, k, row);
    InsertUnused(tbl, k, row);
    forall x ensures WithLoad(tbl[..k] + [row] + tbl[k..], x) == WithLoad(tbl, x) + WithLoad([row], x) {
      InsertWithLoad(tbl, k, row, x);
    }
    r := tbl[..k] + [row] + tbl[k..];
  }

  lemma InsertUnused(tbl: seq<Row>, k: nat, row: Row)
    requires Unused(tbl) && row.alloc == 0 && k <= |tbl|
    ensures Unused(tbl[..k] + [row] + tbl[k..])
  {
  }

  // ---- filling -------------------------------------------------------------

  /** After filling with `rest` nodes left over: nobody is above `top`, and if
      any are left everybody is at `top`. */
  ghost predicate Filled(tbl: seq<Row>, top: nat, n: nat, rest: nat) {
    && Sum(Allocs(tbl)) + rest == n
    && (forall i | 0 <= i < |tbl| :: tbl[i].load + tbl[i].alloc <= top)
    && (rest > 0 ==> forall i | 0 <= i < |tbl| :: tbl[i].load + tbl[i].alloc == top)
  }

  lemma AllocUpdate(tbl: seq<Row>, i: nat, a: nat)
    requires i < |tbl|
    ensures Sum(Allocs(tbl[i := tbl[i].(alloc := a)])) == Sum(Allocs(tbl)) - tbl[i].alloc + a
  {
    SumUpdate(Allocs(tbl), i, a);
    assert Allocs(tbl[i := tbl[i].(alloc := a)]) == Allocs(tbl)[i := a];
  }

  /** How far each row is below the last. */
  function Gaps(tbl: seq<Row>): (r: seq<nat>)
    requires tbl != [] && ByLoad(tbl)
    ensures |r| == |tbl| && forall i | 0 <= i < |tbl| :: r[i] == tbl[|tbl| - 1].load - tbl[i].load
  {
    seq(|tbl|, i requires 0 <= i < |tbl| => tbl[|tbl| - 1].load - tbl[i].load)
  }

  /** What the gap at `i` gets of `n`, when the gaps before it come first. */
  function Poured(gaps: seq<nat>, n: nat, i: nat): nat
    requires i < |gaps|
  {
    var before := Sum(gaps[..i]);
    if n <= before then 0 else if n - before < gaps[i] then n - before else gaps[i]
  }

  /** It ends at gap `i`, which gets `a`. */
  lemma PouredUpTo(gaps: seq<nat>, n: nat, i: nat, a: nat)
    requires i < |gaps| && a <= gaps[i] && n == Sum(gaps[..i]) + a
    ensures forall j | 0 <= j < |gaps| :: Poured(gaps, n, j) == if j < i then gaps[j] else if j == i then a else 0
    ensures n <= Sum(gaps)
  {
    PrefixNext(gaps, i);
    PrefixGrows(gaps, i + 1, |gaps|);
    forall j | 0 <= j < |gaps|
      ensures Poured(gaps, n, j) == if j < i then gaps[j] else if j == i then a else 0
    {
      if j < i {
        PrefixNext(gaps, j);
        PrefixGrows(gaps, j + 1, i);
      } else if j > i {
        PrefixGrows(gaps, i + 1, j);
      }
    }
  }

  /** It fills the gaps before `i`, and the others are none. */
  lemma {:induction false} PouredAll(gaps: seq<nat>, n: nat, i: nat)
    requires i <= |gaps| && Sum(gaps[..i]) <= n && forall j | i <= j < |gaps| :: gaps[j] == 0
    ensures forall j | 0 <= j < |gaps| :: Poured(gaps, n, j) == gaps[j]
    ensures Sum(gaps) == Sum(gaps[..i])
    decreases |gaps| - i
  {
    if i < |gaps| {
      PrefixNext(gaps, i);
      PouredAll(gaps, n, i + 1);
    } else {
      assert gaps[..i] == gaps;
      forall j | 0 <= j < |gaps| ensures Poured(gaps, n, j) == gaps[j] {
        PrefixNext(gaps, j);
        PrefixGrows(gaps, j + 1, i);
      }
    }
  }

  /** The first loop: level up to the highest load. */
  method Fill(tbl: seq<Row>, n: nat) returns (r: seq<Row>, rest: nat)
    requires tbl != [] && ByLoad(tbl)
    requires Unused(tbl)
    ensures Loads(r) == Loads(tbl) && Hosts(r) == Hosts(tbl)
    ensures Filled(r, tbl[|tbl| - 1].load, n, rest)
    ensures forall i | 0 <= i < |r| :: r[i].alloc == Poured(Gaps(tbl), n, i)
    ensures rest == if n < Sum(Gaps(tbl)) then 0 else n - Sum(Gaps(tbl))
  {
    ghost var gaps := Gaps(tbl);
    var top := tbl[|tbl| - 1].load;
    r, rest := tbl, n;
    ghost var last := 0;
    var i := 0;
    FillNone(tbl);
    while i < |r|
      invariant 0 <= i <= |r| == |tbl| && last == 0
      invariant r == FillAt(tbl, i, last) && Sum(gaps[..i]) + rest == n
      invariant i > 0 ==> rest > 0
    {
      FillRow(tbl, i, 0);
      var a := top - r[i].load;
      if a == 0 {
        break;
      }
      a := if a < rest then a else rest;
      FillRow(tbl, i, a);
      r := r[i := r[i].(alloc := a)];
      rest := rest - a;
      if rest == 0 {
        last := a;
        break;
      }
      PrefixNext(gaps, i);
      FillNext(tbl, i);
      i := i + 1;
    }
    FillDone(tbl, n, i, last, rest);
  }

  /** The gaps before row `i` are filled and row `i` has `a`. */
  function FillAt(tbl: seq<Row>, i: nat, a: nat): (r: seq<Row>)
    requires tbl != [] && ByLoad(tbl)
    ensures |r| == |tbl|
  {
    seq(|tbl|, j requires 0 <= j < |tbl| =>
      tbl[j].(alloc := if j < i then Gaps(tbl)[j] else if j == i then a else 0))
  }

  lemma FillNone(tbl: seq<Row>)
    requires tbl != [] && ByLoad(tbl) && Unused(tbl)
    ensures FillAt(tbl, 0, 0) == tbl
  {
  }

  lemma FillRow(tbl: seq<Row>, i: nat, a: nat)
    requires tbl != [] && ByLoad(tbl) && i < |tbl|
    ensures FillAt(tbl, i, 0)[i] == tbl[i].(alloc := 0)
    ensures FillAt(tbl, i, 0)[i := FillAt(tbl, i, 0)[i].(alloc := a)] == FillAt(tbl, i, a)
  {
  }

  lemma FillNext(tbl: seq<Row>, i: nat)
    requires tbl != [] && ByLoad(tbl) && i < |tbl|
    ensures FillAt(tbl, i, Gaps(tbl)[i]) == FillAt(tbl, i + 1, 0)
  {
  }

  /** It stops in row `i` with nothing left, or where no gap is left. */
  lemma FillDone(tbl: seq<Row>, n: nat, i: nat, a: nat, rest: nat)
    requires tbl != [] && ByLoad(tbl) && i <= |tbl|
    requires Sum(Gaps(tbl)[..i]) + a + rest == n
    requires if i < |tbl| && Gaps(tbl)[i] > 0 then rest == 0 && a <= Gaps(tbl)[i] else a == 0
    ensures var r := FillAt(tbl, i, a);
            && Loads(r) == Loads(tbl) && Hosts(r) == Hosts(tbl)
            && (forall j | 0 <= j < |r| :: r[j].alloc == Poured(Gaps(tbl), n, j))
            && rest == (if n < Sum(Gaps(tbl)) then 0 else n - Sum(Gaps(tbl)))
            && Filled(r, tbl[|tbl| - 1].load, n, rest)
  {
    var r, gaps := FillAt(tbl, i, a), Gaps(tbl);
    FillPoured(tbl, n, i, a, rest);
    SumPoured(gaps, n, |gaps|);
    assert gaps[..|gaps|] == gaps;
    assert Allocs(r) == PouredTo(gaps, n, |gaps|);
  }

  lemma FillPoured(tbl: seq<Row>, n: nat, i: nat, a: nat, rest: nat)
    requires tbl != [] && ByLoad(tbl) && i <= |tbl|
    requires Sum(Gaps(tbl)[..i]) + a + rest == n
    requires if i < |tbl| && Gaps(tbl)[i] > 0 then rest == 0 && a <= Gaps(tbl)[i] else a == 0
    ensures forall j | 0 <= j < |tbl| :: FillAt(tbl, i, a)[j].alloc == Poured(Gaps(tbl), n, j)
    ensures rest == if n < Sum(Gaps(tbl)) then 0 else n - Sum(Gaps(tbl))
  {
    var gaps := Gaps(tbl);
    if i < |tbl| && gaps[i] > 0 {
      PouredUpTo(gaps, n, i, a);
    } else {
      assert forall j | i <= j < |tbl| :: tbl[i].load <= tbl[j].load;
      PouredAll(gaps, n, i);
    }
  }

  /** What the first `m` gaps get. */
  function PouredTo(gaps: seq<nat>, n: nat, m: nat): (r: seq<nat>)
    requires m <= |gaps|
    ensures |r| == m
  {
    seq(m, i requires 0 <= i < m => Poured(gaps, n, i))
  }

  lemma {:induction false} SumPoured(gaps: seq<nat>, n: nat, m: nat)
    requires m <= |gaps|
    ensures Sum(PouredTo(gaps, n, m)) == if n < Sum(gaps[..m]) then n else Sum(gaps[..m])
    decreases m
  {
    if m > 0 {
      SumPoured(gaps, n, m - 1);
      PrefixNext(gaps, m - 1);
      assert PouredTo(gaps, n, m) == PouredTo(gaps, n, m - 1) + [Poured(gaps, n, m - 1)];
      SumSnoc(PouredTo(gaps, n, m - 1), Poured(gaps, n, m - 1));
    }
  }

  lemma SameHosts(tbl: seq<Row>, i: nat, a: nat)
    requires i < |tbl|
    ensures Loads(tbl[i := tbl[i].(alloc := a)]) == Loads(tbl)
    ensures Hosts(tbl[i := tbl[i].(alloc := a)]) == Hosts(tbl)
  {
  }

  lemma {:induction false} ZeroSum(tbl: seq<Row>)
    requires Unused(tbl)
    ensures Sum(Allocs(tbl)) == 0
  {
    if tbl != [] {
      ZeroSum(tbl[1..]);
      assert Allocs(tbl)[1..] == Allocs(tbl[1..]);
    }
  }

  // ---- spreading -----------------------------------------------------------

  /** `q` more for every row, and one more for the first `k`. */
  function Spread(tbl: seq<Row>, q: nat, k: nat): (r: seq<Row>)
    ensures |r| == |tbl|
    ensures forall i | 0 <= i < |tbl| ::
              r[i].load == tbl[i].load && r[i].alloc == tbl[i].alloc + q + if i < k then 1 else 0
  {
    seq(|tbl|, i requires 0 <= i < |tbl| => AddTo(tbl[i], q + if i < k then 1 else 0))
  }

  lemma SpreadHosts(tbl: seq<Row>, q: nat, k: nat)
    ensures Hosts(Spread(tbl, q, k)) == Hosts(tbl)
  {
  }

  lemma {:induction false} SpreadSum(tbl: seq<Row>, q: nat, k: nat)
    requires k <= |tbl|
    ensures Sum(Allocs(Spread(tbl, q, k))) == Sum(Allocs(tbl)) + |tbl| * q + k
  {
    var r := Allocs(Spread(tbl, q, k));
    if tbl != [] {
      var k' := if k > 0 then k - 1 else 0;
      SpreadSum(tbl[1..], q, k');
      assert Allocs(tbl)[1..] == Allocs(tbl[1..]);
      assert r[1..] == Allocs(Spread(tbl[1..], q, k'));
      OneMore(|tbl| - 1, q);
    }
  }

  lemma OneMore(m: nat, q: nat)
    ensures (m + 1) * q == m * q + q
  {
  }

  /** The last two loops: the leftover nodes, evenly. */
  method SpreadRest(tbl: seq<Row>, rest: nat) returns (r: seq<Row>, ghost q: nat, ghost k: nat)
    requires tbl != []
    ensures r == Spread(tbl, q, k) && k < |tbl| && (rest == 0 ==> q == 0 && k == 0)
    ensures Sum(Allocs(r)) == Sum(Allocs(tbl)) + rest
    ensures q == rest / |tbl| && k == rest % |tbl|
  {
    var share, left := rest / |tbl|, rest % |tbl|;
    DivMod(rest, |tbl|);
    SpreadSum(tbl, share, left);
    q, k := share, left;
    r := EvenOut(tbl, share, left);
  }

  /** The two loops. */
  method EvenOut(tbl: seq<Row>, q: nat, k: nat) returns (r: seq<Row>)
    requires k < |tbl|
    ensures r == Spread(tbl, q, k)
  {
    r := tbl;
    GivenNone(tbl, q);
    for i := 0 to |tbl|
      invariant r == Given(tbl, i, q)
    {
      GivenNext(tbl, i, q);
      r := r[i := AddTo(r[i], q)];
    }
    ghost var even := r;
    GivenNone(even, 1);
    for i := 0 to k
      invariant r == Given(even, i, 1)
    {
      GivenNext(even, i, 1);
      r := r[i := AddTo(r[i], 1)];
    }
    GivenIsSpread(tbl, q, k);
  }

  function AddTo(row: Row, n: nat): Row {
    row.(alloc := row.alloc + n)
  }

  /** `n` more for each of the first `i` rows. */
  function Given(tbl: seq<Row>, i: nat, n: nat): (r: seq<Row>)
    requires i <= |tbl|
    ensures |r| == |tbl|
  {
    seq(|tbl|, j requires 0 <= j < |tbl| => if j < i then AddTo(tbl[j], n) else tbl[j])
  }

  lemma GivenNone(tbl: seq<Row>, n: nat)
    ensures Given(tbl, 0, n) == tbl
  {
  }

  lemma GivenNext(tbl: seq<Row>, i: nat, n: nat)
    requires i < |tbl|
    ensures Given(tbl, i, n)[i := AddTo(Given(tbl, i, n)[i], n)] == Given(tbl, i + 1, n)
  {
  }

  lemma GivenIsSpread(tbl: seq<Row>, q: nat, k: nat)
    requires k <= |tbl|
    ensures Given(Given(tbl, |tbl|, q), k, 1) == Spread(tbl, q, k)
  {
  }

  /** Filling and spreading places all nodes and is optimal. */
  lemma FillThenSpread(tbl: seq<Row>, top: nat, n: nat, rest: nat, q: nat, k: nat)
    requires tbl != [] && Filled(tbl, top, n, rest) && Max(Loads(tbl)) == top
    requires k < |tbl| && (rest == 0 ==> q == 0 && k == 0)
    requires Sum(Allocs(Spread(tbl, q, k))) == Sum(Allocs(tbl)) + rest
    ensures var r := Spread(tbl, q, k);
            Loads(r) == Loads(tbl) && Optimal(Loads(r), Allocs(r), n)
  {
    var r := Spread(tbl, q, k);
    if rest == 0 {
      assert Allocs(r) == Allocs(tbl) && Loads(r) == Loads(tbl);
      WithinMaxIsOptimal(Loads(r), Allocs(r), n);
    } else {
      EvenIsOptimal(r, top + q, n);
    }
  }

  lemma DivMod(a: nat, b: nat)
    requires b > 0
    ensures a == b * (a / b) + a % b && a % b < b
    ensures a == 0 ==> a / b == 0 && a % b == 0
  {
  }

  lemma EvenIsOptimal(r: seq<Row>, level: nat, n: nat)
    requires r != [] && Sum(Allocs(r)) == n
    requires forall i | 0 <= i < |r| :: level <= r[i].load + r[i].alloc <= level + 1
    ensures Optimal(Loads(r), Allocs(r), n)
  {
    var l, a := Loads(r), Allocs(r);
    assert forall i | 0 <= i < |l| :: level <= l[i] + a[i] <= level + 1;
    BalancedIsOptimal(l, a, n);
  }

  /** The nodes of row `i`: what the gaps before it leave for its own gap, then its
      share of what all gaps leave, one more in the first rows. */
  ghost predicate Shared(tbl: seq<Row>, n: nat)
    requires tbl != [] && ByLoad(tbl)
  {
    var gaps := Gaps(tbl);
    var rest := if n < Sum(gaps) then 0 else n - Sum(gaps);
    forall i | 0 <= i < |tbl| ::
      tbl[i].alloc == Poured(gaps, n, i) + rest / |tbl| + if i < rest % |tbl| then 1 else 0
  }

  /** The allocation table for `n` nodes, from the running containers of each
      client. Without a client the source fails. */
  method Allocate(running: seq<(nat, string)>, n: nat) returns (tbl: seq<Row>)
    requires running != []
    ensures |tbl| == |running| && multiset(Hosts(tbl)) == multiset(running)
    ensures Optimal(Loads(tbl), Allocs(tbl), n)
    ensures ByLoad(tbl) && Shared(tbl, n)
    ensures forall x :: Filter(Hosts(tbl), CarriesNow(x)) == Filter(running, CarriesNow(x))
  {
    var rows := seq(|running|, i requires 0 <= i < |running| => Row(running[i].0, 0, running[i].1));
    var sorted := SortByLoad(rows);
    assert Hosts(rows) == running;
    SameOrder(sorted, rows);
    var rest;
    tbl, rest := Fill(sorted, n);
    TopIsMax(sorted);
    ghost var q, k;
    var filled := tbl;
    tbl, q, k := SpreadRest(filled, rest);
    FillThenSpread(filled, sorted[|sorted| - 1].load, n, rest, q, k);
    SpreadHosts(filled, q, k);
    SharedOut(sorted, filled, n, rest, q, k);
  }

  function CarriesNow(x: nat): ((nat, string)) -> bool {
    (h: (nat, string)) => h.0 == x
  }

  /** The clients of one load keep their order. */
  lemma SameOrder(a: seq<Row>, b: seq<Row>)
    requires forall x :: WithLoad(a, x) == WithLoad(b, x)
    ensures forall x :: Filter(Hosts(a), CarriesNow(x)) == Filter(Hosts(b), CarriesNow(x))
  {
    forall x ensures Filter(Hosts(a), CarriesNow(x)) == Filter(Hosts(b), CarriesNow(x)) {
      HostsWithLoad(a, x);
      HostsWithLoad(b, x);
    }
  }

  lemma {:induction false} HostsWithLoad(tbl: seq<Row>, x: nat)
    ensures Filter(Hosts(tbl), CarriesNow(x)) == Hosts(WithLoad(tbl, x))
  {
    if tbl != [] {
      HostsWithLoad(tbl[1..], x);
      assert Hosts(tbl)[1..] == Hosts(tbl[1..]);
      FilterFront(tbl, Carries(x));
      FilterFront(Hosts(tbl), CarriesNow(x));
      HostsFront(Taken(tbl[0], Carries(x)), WithLoad(tbl[1..], x));
      assert Hosts(Taken(tbl[0], Carries(x))) == Taken(Hosts(tbl)[0], CarriesNow(x));
    }
  }

  lemma HostsFront(a: seq<Row>, b: seq<Row>)
    ensures Hosts(a + b) == Hosts(a) + Hosts(b)
  {
  }

  lemma SharedOut(sorted: seq<Row>, filled: seq<Row>, n: nat, rest: nat, q: nat, k: nat)
    requires sorted != [] && ByLoad(sorted) && Loads(filled) == Loads(sorted) && |filled| == |sorted|
    requires forall i | 0 <= i < |filled| :: filled[i].alloc == Poured(Gaps(sorted), n, i)
    requires rest == if n < Sum(Gaps(sorted)) then 0 else n - Sum(Gaps(sorted))
    requires q == rest / |sorted| && k == rest % |sorted|
    ensures ByLoad(Spread(filled, q, k)) && Shared(Spread(filled, q, k), n)
  {
    var r := Spread(filled, q, k);
    assert forall i | 0 <= i < |r| :: r[i].load == Loads(filled)[i] == Loads(sorted)[i] == sorted[i].load;
    assert Gaps(r) == Gaps(sorted);
  }

  lemma TopIsMax(tbl: seq<Row>)
    requires tbl != [] && ByLoad(tbl)
    ensures Max(Loads(tbl)) == tbl[|tbl| - 1].load
  {
    assert Loads(tbl)[|tbl| - 1] <= Max(Loads(tbl));
  }

  // ---- emitting the containers ---------------------------------------------

  /** How many nodes the rows before `r` take. */
  function First(tbl: seq<Row>, r: nat): nat
    requires r <= |tbl|
  {
    Sum(Allocs(tbl)[..r])
  }

  lemma FirstNext(tbl: seq<Row>, r: nat)
    requires r < |tbl|
    ensures First(tbl, r + 1) == First(tbl, r) + tbl[r].alloc <= Sum(Allocs(tbl))
  {
    PrefixNext(Allocs(tbl), r);
    PrefixGrows(Allocs(tbl), r + 1, |tbl|);
  }

  /** Row `r` takes node `j`: the rows before it have taken `j` nodes or fewer, and
      with its own they are more. */
  predicate Takes(tbl: seq<Row>, r: nat, j: nat) {
    r < |tbl| && Sum(Allocs(tbl)[..r]) <= j < Sum(Allocs(tbl)[..r + 1])
  }

  /** The containers of the rows before `r` are on the client of their row, in the
      order of the nodes. */
  ghost predicate Built(tbl: seq<Row>, nodes: seq<string>, build: seq<(string, string)>, r: nat)
    requires r <= |tbl|
  {
    && |build| == First(tbl, r) <= |nodes|
    && forall i: nat, j: nat | i < r && Takes(tbl, i, j) && j < |build| :: build[j] == (tbl[i].client, nodes[j])
  }

  /** Each container is for its node, on the client of the row that takes it. */
  ghost predicate OnItsRow(tbl: seq<Row>, nodes: seq<string>, build: seq<(string, string)>) {
    && |build| == |nodes|
    && forall r: nat, j: nat | Takes(tbl, r, j) :: j < |build| && build[j] == (tbl[r].client, nodes[j])
  }

  lemma BuiltNext(tbl: seq<Row>, nodes: seq<string>, build: seq<(string, string)>, r: nat, more: seq<(string, string)>)
    requires r < |tbl| && Built(tbl, nodes, build, r) && |build| + |more| <= |nodes| && |more| == tbl[r].alloc
    requires forall j | 0 <= j < |more| :: more[j] == (tbl[r].client, nodes[|build| + j])
    ensures Built(tbl, nodes, build + more, r + 1)
  {
    FirstNext(tbl, r);
    forall i: nat, j: nat | i < r + 1 && Takes(tbl, i, j) && j < |build + more|
      ensures (build + more)[j] == (tbl[i].client, nodes[j])
    {
      if i < r {
        PrefixGrows(Allocs(tbl), i + 1, r);
      } else {
        assert (build + more)[j] == more[j - |build|];
      }
    }
  }

  /** Every node gets one container, in order, on the client of the row that takes it;
      the index never runs out. */
  method Emit(tbl: seq<Row>, nodes: seq<string>) returns (build: seq<(string, string)>)
    requires Sum(Allocs(tbl)) == |nodes|
    ensures |build| == |nodes|
    ensures OnItsRow(tbl, nodes, build)
  {
    build := [];
    var idx := 0;
    for r := 0 to |tbl|
      invariant idx == |build| && Built(tbl, nodes, build, r)
    {
      FirstNext(tbl, r);
      ghost var before := build;
      for i := 0 to tbl[r].alloc
        invariant idx == |build| == |before| + i && before <= build
        invariant forall j | |before| <= j < |build| :: build[j] == (tbl[r].client, nodes[j])
      {
        build := build + [(tbl[r].client, nodes[idx])];
        idx := idx + 1;
      }
      assert build == before + build[|before|..];
      BuiltNext(tbl, nodes, before, r, build[|before|..]);
    }
    BuiltAll(tbl, nodes, build);
  }

  lemma BuiltAll(tbl: seq<Row>, nodes: seq<string>, build: seq<(string, string)>)
    requires Sum(Allocs(tbl)) == |nodes| && Built(tbl, nodes, build, |tbl|)
    ensures |build| == |nodes|
    ensures OnItsRow(tbl, nodes, build)
  {
    assert Allocs(tbl)[..|tbl|] == Allocs(tbl);
    forall r: nat, j: nat | Takes(tbl, r, j) ensures j < |build| && build[j] == (tbl[r].client, nodes[j]) {
      PrefixGrows(Allocs(tbl), r + 1, |tbl|);
    }
  }

  // ---- what the clients end with -------------------------------------------

  /** The containers built on a client. */
  function PlacesOn(build: seq<(string, string)>, client: string): set<nat> {
    set j: nat | j < |build| && build[j].0 == client
  }

  /** What each client runs in the end, counted from what is built. */
  function EndLoads(running: seq<(nat, string)>, build: seq<(string, string)>): (r: seq<nat>)
    ensures |r| == |running|
    ensures forall i | 0 <= i < |r| :: r[i] == running[i].0 + |PlacesOn(build, running[i].1)|
  {
    seq(|running|, i requires 0 <= i < |running| => running[i].0 + |PlacesOn(build, running[i].1)|)
  }

  function LoadsNow(running: seq<(nat, string)>): (r: seq<nat>)
    ensures |r| == |running| && forall i | 0 <= i < |r| :: r[i] == running[i].0
  {
    seq(|running|, i requires 0 <= i < |running| => running[i].0)
  }

  function Clients(running: seq<(nat, string)>): (r: seq<string>)
    ensures |r| == |running| && forall i | 0 <= i < |r| :: r[i] == running[i].1
  {
    seq(|running|, i requires 0 <= i < |running| => running[i].1)
  }

  lemma {:induction false} TakenBySome(tbl: seq<Row>, m: nat, j: nat) returns (r: nat)
    requires m <= |tbl| && j < First(tbl, m)
    ensures r < m && Takes(tbl, r, j)
    decreases m
  {
    FirstNext(tbl, m - 1);
    if j < First(tbl, m - 1) {
      r := TakenBySome(tbl, m - 1, j);
    } else {
      r := m - 1;
    }
  }

  function Between(a: nat, b: nat): (r: set<nat>)
    requires a <= b
    ensures |r| == b - a && forall j :: j in r <==> a <= j < b
    decreases b
  {
    if a == b then {} else Between(a, b - 1) + {b - 1}
  }

  /** A client has as many containers built on it as its row says. */
  lemma PlacesAreAlloc(tbl: seq<Row>, nodes: seq<string>, build: seq<(string, string)>, r: nat)
    requires Distinct(Clients(Hosts(tbl))) && r < |tbl| && |build| == Sum(Allocs(tbl)) == |nodes|
    requires OnItsRow(tbl, nodes, build)
    ensures |PlacesOn(build, tbl[r].client)| == tbl[r].alloc
  {
    var c := Clients(Hosts(tbl));
    assert Allocs(tbl)[..|tbl|] == Allocs(tbl);
    forall j | j in PlacesOn(build, tbl[r].client) ensures Takes(tbl, r, j) {
      var i := TakenBySome(tbl, |tbl|, j);
      assert c[i] == c[r];
    }
    forall j: nat | Takes(tbl, r, j) ensures j in PlacesOn(build, tbl[r].client) {}
    FirstNext(tbl, r);
    assert PlacesOn(build, tbl[r].client) == Between(First(tbl, r), First(tbl, r + 1));
  }

  lemma EndLoadsOfTable(tbl: seq<Row>, nodes: seq<string>, build: seq<(string, string)>)
    requires Distinct(Clients(Hosts(tbl))) && |build| == Sum(Allocs(tbl)) == |nodes|
    requires OnItsRow(tbl, nodes, build)
    ensures EndLoads(Hosts(tbl), build) == After(Loads(tbl), Allocs(tbl))
  {
    var e, a := EndLoads(Hosts(tbl), build), After(Loads(tbl), Allocs(tbl));
    forall r | 0 <= r < |tbl| ensures e[r] == a[r] {
      PlacesAreAlloc(tbl, nodes, build, r);
    }
  }

  lemma ClientsRearranged(a: seq<(nat, string)>, b: seq<(nat, string)>)
    requires Distinct(Clients(b)) && multiset(a) == multiset(b)
    ensures Distinct(Clients(a))
  {
    forall i, j | 0 <= i < j < |b| ensures b[i] != b[j] {
      assert Clients(b)[i] != Clients(b)[j];
    }
    RearrangedDistinct(a, b);
    forall i, j | 0 <= i < j < |a| ensures Clients(a)[i] != Clients(a)[j] {
      assert a[i] in b && a[j] in b && a[i] != a[j];
      var p :| 0 <= p < |b| && b[p] == a[i];
      var q :| 0 <= q < |b| && b[q] == a[j];
      assert Clients(b)[p] != Clients(b)[q];
    }
  }

  lemma EndMaxAtMost(a: seq<(nat, string)>, b: seq<(nat, string)>, build: seq<(string, string)>)
    requires a != [] && b != [] && forall h | h in a :: h in b
    ensures Max(EndLoads(a, build)) <= Max(EndLoads(b, build))
    ensures Max(LoadsNow(a)) <= Max(LoadsNow(b))
  {
    forall i | 0 <= i < |a|
      ensures EndLoads(a, build)[i] <= Max(EndLoads(b, build)) && LoadsNow(a)[i] <= Max(LoadsNow(b))
    {
      assert a[i] in b;
      var p :| 0 <= p < |b| && b[p] == a[i];
      assert EndLoads(b, build)[p] == EndLoads(a, build)[i] && LoadsNow(b)[p] == LoadsNow(a)[i];
    }
  }

  lemma {:induction false} SumRearranged(a: seq<(nat, string)>, b: seq<(nat, string)>)
    requires multiset(a) == multiset(b)
    ensures Sum(LoadsNow(a)) == Sum(LoadsNow(b))
    decreases |a|
  {
    RearrangedMembers(a, b);
    if a != [] {
      assert a[0] in b;
      var p :| 0 <= p < |b| && b[p] == a[0];
      RestRearranged(a, b, p);
      SumRearranged(a[1..], b[..p] + b[p + 1..]);
      SumFront(a);
      SumWithout(b, p);
    }
  }

  lemma SumFront(a: seq<(nat, string)>)
    requires a != []
    ensures Sum(LoadsNow(a)) == a[0].0 + Sum(LoadsNow(a[1..]))
  {
    assert LoadsNow(a)[1..] == LoadsNow(a[1..]);
  }

  lemma {:induction false} SumWithout(b: seq<(nat, string)>, p: nat)
    requires p < |b|
    ensures Sum(LoadsNow(b)) == b[p].0 + Sum(LoadsNow(b[..p] + b[p + 1..]))
  {
    var rest := b[..p] + b[p + 1..];
    SumFront(b);
    if p == 0 {
      assert rest == b[1..];
    } else {
      SumWithout(b[1..], p - 1);
      assert rest[1..] == b[1..][..p - 1] + b[1..][p..];
      SumFront(rest);
    }
  }

  /** The highest load of any client in the end, counted from what is built, is the
      least that can be reached. */
  lemma EndsBest(running: seq<(nat, string)>, tbl: seq<Row>, nodes: seq<string>, build: seq<(string, string)>)
    requires running != [] && multiset(Hosts(tbl)) == multiset(running) && Distinct(Clients(running))
    requires Optimal(Loads(tbl), Allocs(tbl), |nodes|) && |build| == |nodes|
    requires OnItsRow(tbl, nodes, build)
    ensures Max(EndLoads(running, build)) == Best(LoadsNow(running), |nodes|)
  {
    var hosts := Hosts(tbl);
    ClientsRearranged(hosts, running);
    EndLoadsOfTable(tbl, nodes, build);
    BestRearranged(hosts, running, |nodes|);
    EndMaxRearranged(hosts, running, build);
    assert LoadsNow(hosts) == Loads(tbl);
  }

  lemma EndMaxRearranged(a: seq<(nat, string)>, b: seq<(nat, string)>, build: seq<(string, string)>)
    requires b != [] && multiset(a) == multiset(b)
    ensures a != [] && Max(EndLoads(a, build)) == Max(EndLoads(b, build)) && Max(LoadsNow(a)) == Max(LoadsNow(b))
  {
    RearrangedMembers(a, b);
    EndMaxAtMost(a, b, build);
    EndMaxAtMost(b, a, build);
  }

  lemma BestRearranged(a: seq<(nat, string)>, b: seq<(nat, string)>, n: nat)
    requires b != [] && multiset(a) == multiset(b)
    ensures a != [] && Best(LoadsNow(a), n) == Best(LoadsNow(b), n)
  {
    RearrangedMembers(a, b);
    EndMaxRearranged(a, b, []);
    SumRearranged(a, b);
    SameBest(LoadsNow(a), LoadsNow(b), n);
  }

  lemma SameBest(a: seq<nat>, b: seq<nat>, n: nat)
    requires a != [] && b != [] && |a| == |b| && Sum(a) == Sum(b) && Max(a) == Max(b)
    ensures Best(a, n) == Best(b, n)
  {
  }

  /** From the running containers to the list of containers to create. */
  method Distribute(running: seq<(nat, string)>, nodes: seq<string>)
    returns (tbl: seq<Row>, build: seq<(string, string)>)
    requires running != []
    ensures multiset(Hosts(tbl)) == multiset(running)
    ensures |build| == |nodes| == Sum(Allocs(tbl))
    ensures OnItsRow(tbl, nodes, build)
    ensures Distinct(Clients(running)) ==> Max(EndLoads(running, build)) == Best(LoadsNow(running), |nodes|)
  {
    tbl := Allocate(running, |nodes|);
    build := Emit(tbl, nodes);
    if Distinct(Clients(running)) {
      EndsBest(running, tbl, nodes, build);
    }
  }
}
