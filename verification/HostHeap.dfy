/** Choosing the Singularity host of each node (`SCluster._create` in
    runtime/singularity.py): a binary heap of hosts whose root is grown in place
    and then put back. The heap operations are those of Python's `heapq`. */
module HostHeap {
  import opened Lists
  import opened Placement

  /** `HeapEntry`: a host and what it runs. Entries compare by how much that is. */
  class HeapEntry {
    const host: string
    var conts: seq<string>

    constructor (host: string, conts: seq<string>)
      ensures this.host == host && this.conts == conts
    {
      this.host, this.conts := host, conts;
    }
  }

  /** Loads of a list of hosts. */
  ghost predicate HasLoads(es: seq<HeapEntry>, loads: seq<nat>)
    reads es
  {
    |es| == |loads| && forall i | 0 <= i < |es| :: |es[i].conts| == loads[i]
  }

  // ---- heap order on loads -------------------------------------------------

  function Parent(c: nat): nat
    requires c > 0
  {
    (c - 1) / 2
  }

  /** `pos` is in the subtree of `start`. */
  predicate Under(start: nat, pos: nat) {
    pos == start || (pos > start && Under(start, Parent(pos)))
  }

  /** No entry below position `s` in the tree is smaller than its parent. */
  ghost predicate HeapFrom(l: seq<nat>, s: nat) {
    forall c | 1 <= c < |l| && Parent(c) >= s :: l[Parent(c)] <= l[c]
  }

  lemma {:induction false} RootIsLeast(l: seq<nat>, i: nat)
    requires HeapFrom(l, 0) && i < |l|
    ensures l[0] <= l[i]
  {
    if i > 0 {
      RootIsLeast(l, Parent(i));
    }
  }

  /** In order from `s`, except that nothing is known about the entry at `pos`;
      its children are not smaller than its parent. */
  ghost predicate Hole(l: seq<nat>, s: nat, pos: nat) {
    && s <= pos < |l|
    && (forall c | 1 <= c < |l| && Parent(c) >= s && Parent(c) != pos && c != pos :: l[Parent(c)] <= l[c])
    && (pos > s && Parent(pos) >= s ==> forall c | pos < c < |l| && Parent(c) == pos :: l[Parent(pos)] <= l[c])
  }

  /** In order from `s`, except that the entry at `pos` may be smaller than its
      parent. */
  ghost predicate Rising(l: seq<nat>, s: nat, pos: nat) {
    && Hole(l, s, pos)
    && (forall c | pos < c < |l| && Parent(c) == pos :: l[pos] <= l[c])
  }

  ghost predicate RisingUnder(l: seq<nat>, s: nat, pos: nat) {
    Rising(l, s, pos) && Under(s, pos)
  }

  function Swapped(l: seq<nat>, i: nat, j: nat): seq<nat>
    requires i < |l| && j < |l|
  {
    l[i := l[j]][j := l[i]]
  }

  predicate SmallerChild(l: seq<nat>, pos: nat, child: nat) {
    && pos < child < |l| && Parent(child) == pos
    && forall c | pos < c < |l| && Parent(c) == pos :: l[child] <= l[c]
  }

  lemma HoleDown(l: seq<nat>, s: nat, pos: nat, child: nat)
    requires Hole(l, s, pos) && SmallerChild(l, pos, child)
    requires pos == s || Parent(pos) >= s
    ensures Hole(Swapped(l, pos, child), s, child)
  {
  }

  lemma HoleUp(l: seq<nat>, s: nat, pos: nat)
    requires Rising(l, s, pos) && pos > s && Parent(pos) >= s && l[pos] < l[Parent(pos)]
    ensures Rising(Swapped(l, Parent(pos), pos), s, Parent(pos))
  {
  }

  lemma Risen(l: seq<nat>, s: nat, pos: nat)
    requires Rising(l, s, pos)
    requires pos > 0 && Parent(pos) >= s ==> l[Parent(pos)] <= l[pos]
    ensures HeapFrom(l, s)
  {
  }

  /** `heap[i], heap[j] = heap[j], heap[i]` */
  method Swap(heap: array<HeapEntry>, i: nat, j: nat, ghost l: seq<nat>)
    requires i < heap.Length && j < heap.Length && HasLoads(heap[..], l)
    modifies heap
    ensures HasLoads(heap[..], Swapped(l, i, j))
    ensures multiset(heap[..]) == multiset(old(heap[..]))
  {
    heap[i], heap[j] := heap[j], heap[i];
  }

  /** The child to move up: the right one unless the left one is smaller. */
  method ChooseChild(heap: array<HeapEntry>, pos: nat, ghost l: seq<nat>) returns (child: nat)
    requires 2 * pos + 1 < heap.Length && HasLoads(heap[..], l)
    ensures child < heap.Length && SmallerChild(l, pos, child)
  {
    child := 2 * pos + 1;
    if child + 1 < heap.Length && !(|heap[child].conts| < |heap[child + 1].conts|) {
      child := child + 1;
    }
    assert heap[..][child] == heap[child];
  }

  /** `_siftup(heap, start)`: the smaller child moves up until the entry is at a
      leaf, then it rises to its place. */
  method SiftUp(heap: array<HeapEntry>, start: nat, ghost l0: seq<nat>) returns (ghost l: seq<nat>)
    requires start < heap.Length && HasLoads(heap[..], l0) && HeapFrom(l0, start + 1)
    modifies heap
    ensures HasLoads(heap[..], l) && HeapFrom(l, start)
    ensures multiset(heap[..]) == multiset(old(heap[..]))
  {
    l := l0;
    var pos := start;
    while 2 * pos + 1 < heap.Length
      invariant start <= pos < heap.Length && Under(start, pos)
      invariant HasLoads(heap[..], l) && Hole(l, start, pos)
      invariant multiset(heap[..]) == multiset(old(heap[..]))
      decreases heap.Length - pos
    {
      var child := ChooseChild(heap, pos, l);
      HoleDown(l, start, pos, child);
      Swap(heap, pos, child, l);
      l := Swapped(l, pos, child);
      pos := child;
    }
    l := SiftDown(heap, start, pos, l);
  }

  /** `_siftdown(heap, start, pos)` */
  method SiftDown(heap: array<HeapEntry>, start: nat, from: nat, ghost l0: seq<nat>) returns (ghost l: seq<nat>)
    requires from < heap.Length && HasLoads(heap[..], l0) && RisingUnder(l0, start, from)
    modifies heap
    ensures HasLoads(heap[..], l) && HeapFrom(l, start)
    ensures multiset(heap[..]) == multiset(old(heap[..]))
  {
    l := l0;
    var pos := from;
    while pos > start
      invariant start <= pos < heap.Length && Under(start, pos)
      invariant HasLoads(heap[..], l) && Rising(l, start, pos)
      invariant multiset(heap[..]) == multiset(old(heap[..]))
      decreases pos
    {
      var parent := (pos - 1) / 2;
      assert heap[..][pos] == heap[pos] && heap[..][parent] == heap[parent];
      if !(|heap[pos].conts| < |heap[parent].conts|) {
        break;
      }
      HoleUp(l, start, pos);
      Swap(heap, parent, pos, l);
      l := Swapped(l, parent, pos);
      pos := parent;
    }
    Risen(l, start, pos);
  }

  /** `heapify(heap)` */
  method Heapify(heap: array<HeapEntry>, ghost l0: seq<nat>) returns (ghost l: seq<nat>)
    requires HasLoads(heap[..], l0)
    modifies heap
    ensures HasLoads(heap[..], l) && HeapFrom(l, 0)
    ensures multiset(heap[..]) == multiset(old(heap[..]))
  {
    l := l0;
    var i := heap.Length / 2;
    while i > 0
      invariant 0 <= i <= heap.Length / 2
      invariant HasLoads(heap[..], l) && HeapFrom(l, i)
      invariant multiset(heap[..]) == multiset(old(heap[..]))
    {
      i := i - 1;
      l := SiftUp(heap, i, l);
    }
  }

  // ---- assigning nodes -----------------------------------------------------

  /** How many of the nodes went to host `h`. */
  function Count(assign: seq<nat>, h: nat): nat {
    if assign == [] then 0 else (if assign[|assign| - 1] == h then 1 else 0) + Count(assign[..|assign| - 1], h)
  }

  /** Load of host `h` after the first nodes were assigned. */
  function LoadAt(loads: seq<nat>, assign: seq<nat>, h: nat): nat
    requires h < |loads|
  {
    loads[h] + Count(assign, h)
  }

  /** Every node went to a host that was least loaded at that moment. */
  ghost predicate LeastLoaded(loads: seq<nat>, assign: seq<nat>)
    decreases |assign|
  {
    assign == [] ||
    var n := |assign| - 1;
    && LeastLoaded(loads, assign[..n])
    && assign[n] < |loads|
    && forall h | 0 <= h < |loads| :: LoadAt(loads, assign[..n], assign[n]) <= LoadAt(loads, assign[..n], h)
  }

  /** How many nodes each of the first `m` hosts got. */
  function Counts(assign: seq<nat>, m: nat): (r: seq<nat>)
    ensures |r| == m && forall h | 0 <= h < m :: r[h] == Count(assign, h)
  {
    seq(m, h requires 0 <= h < m => Count(assign, h))
  }

  /** The places of the nodes that went to host `h`. */
  function PlacesOf(assign: seq<nat>, h: nat): set<nat> {
    set i: nat | i < |assign| && assign[i] == h
  }

  lemma {:induction false} CountIsCardinality(assign: seq<nat>, h: nat)
    ensures Count(assign, h) == |PlacesOf(assign, h)|
  {
    if assign != [] {
      var n := |assign| - 1;
      CountIsCardinality(assign[..n], h);
      assert PlacesOf(assign, h) == PlacesOf(assign[..n], h) + if assign[n] == h then {n} else {};
    }
  }

  /** The nodes that went to host `h`, in order. */
  function NodesOf(nodes: seq<string>, assign: seq<nat>, h: nat): seq<string>
    requires |nodes| == |assign|
  {
    if nodes == [] then []
    else
      var n := |nodes| - 1;
      NodesOf(nodes[..n], assign[..n], h) + if assign[n] == h then [nodes[n]] else []
  }

  lemma {:induction false} NodesOfCount(nodes: seq<string>, assign: seq<nat>, h: nat)
    requires |nodes| == |assign|
    ensures |NodesOf(nodes, assign, h)| == Count(assign, h)
  {
    if nodes != [] {
      NodesOfCount(nodes[..|nodes| - 1], assign[..|nodes| - 1], h);
    }
  }

  /** A node is listed with its host behind those that went there before it. */
  lemma {:induction false} NodesOfPlace(nodes: seq<string>, assign: seq<nat>, i: nat)
    requires |nodes| == |assign| && i < |nodes|
    ensures var h := assign[i];
            Count(assign[..i], h) < |NodesOf(nodes, assign, h)|
            && NodesOf(nodes, assign, h)[Count(assign[..i], h)] == nodes[i]
    decreases |nodes|
  {
    var n := |nodes| - 1;
    NodesOfCount(nodes[..n], assign[..n], assign[i]);
    if i < n {
      NodesOfPlace(nodes[..n], assign[..n], i);
      assert assign[..n][..i] == assign[..i];
    }
  }

  lemma {:induction false} CountsSum(assign: seq<nat>, m: nat)
    requires forall i | 0 <= i < |assign| :: assign[i] < m
    ensures Sum(Counts(assign, m)) == |assign|
  {
    if assign == [] {
      SumZero(Counts(assign, m));
    } else {
      var n := |assign| - 1;
      CountsSum(assign[..n], m);
      assert Count(assign, assign[n]) == 1 + Count(assign[..n], assign[n]);
      SumUpdate(Counts(assign[..n], m), assign[n], Count(assign, assign[n]));
      assert Counts(assign, m) == Counts(assign[..n], m)[assign[n] := Count(assign, assign[n])];
    }
  }

  lemma {:induction false} SumZero(s: seq<nat>)
    requires forall i | 0 <= i < |s| :: s[i] == 0
    ensures Sum(s) == 0
  {
    if s != [] { SumZero(s[1..]); }
  }

  /** A host that received a node ends at most one above any other. */
  lemma {:induction false} ReceiversBalanced(loads: seq<nat>, assign: seq<nat>, h: nat, g: nat)
    requires LeastLoaded(loads, assign) && h < |loads| && g < |loads| && Count(assign, h) > 0
    ensures LoadAt(loads, assign, h) <= LoadAt(loads, assign, g) + 1
    decreases |assign|
  {
    var n := |assign| - 1;
    if assign[n] != h {
      ReceiversBalanced(loads, assign[..n], h, g);
    } else {
      assert LoadAt(loads, assign[..n], h) <= LoadAt(loads, assign[..n], g);
    }
  }

  lemma {:induction false} AssignInRange(loads: seq<nat>, assign: seq<nat>)
    requires LeastLoaded(loads, assign)
    ensures forall i | 0 <= i < |assign| :: assign[i] < |loads|
    decreases |assign|
  {
    if assign != [] { AssignInRange(loads, assign[..|assign| - 1]); }
  }

  /** Always taking a least loaded host reaches the best maximum possible, the
      same that levelling and spreading reaches. */
  lemma LeastLoadedIsOptimal(loads: seq<nat>, assign: seq<nat>)
    requires loads != [] && LeastLoaded(loads, assign)
    ensures Optimal(loads, Counts(assign, |loads|), |assign|)
  {
    var alloc := Counts(assign, |loads|);
    AssignInRange(loads, assign);
    CountsSum(assign, |loads|);
    forall i, j | 0 <= i < |loads| && 0 <= j < |loads| && alloc[i] > 0
      ensures loads[i] + alloc[i] <= loads[j] + alloc[j] + 1
    {
      ReceiversBalanced(loads, assign, i, j);
    }
    BalancedIsOptimal(loads, alloc, |assign|);
  }

  /** What the hosts run after the nodes were assigned. */
  function Final(before: seq<seq<string>>, nodes: seq<string>, assign: seq<nat>): (r: seq<seq<string>>)
    requires |nodes| == |assign|
    ensures |r| == |before| && forall h | 0 <= h < |r| :: r[h] == before[h] + NodesOf(nodes, assign, h)
  {
    seq(|before|, h requires 0 <= h < |before| => before[h] + NodesOf(nodes, assign, h))
  }

  ghost predicate Run(hosts: seq<HeapEntry>, conts: seq<seq<string>>)
    reads hosts
  {
    |hosts| == |conts| && forall h | 0 <= h < |hosts| :: hosts[h].conts == conts[h]
  }

  function Lengths(before: seq<seq<string>>): (r: seq<nat>)
    ensures |r| == |before| && forall h | 0 <= h < |r| :: r[h] == |before[h]|
  {
    seq(|before|, h requires 0 <= h < |before| => |before[h]|)
  }

  /** One turn of the assignment loop: the root is grown in place, then put back
      where it belongs. */
  method Place(heap: array<HeapEntry>, node: string, ghost l0: seq<nat>) returns (ent: HeapEntry, ghost l: seq<nat>)
    requires heap.Length > 0 && HasLoads(heap[..], l0) && HeapFrom(l0, 0) && Distinct(heap[..])
    modifies heap, heap[0]
    ensures ent == old(heap[0]) && ent.conts == old(heap[0].conts) + [node]
    ensures HasLoads(heap[..], l) && HeapFrom(l, 0)
    ensures multiset(heap[..]) == multiset(old(heap[..]))
  {
    ent := heap[0];
    assert heap[..][0] == ent;
    ent.conts := ent.conts + [node];
    l := l0[0 := l0[0] + 1];
    heap[0] := ent;
    l := SiftUp(heap, 0, l);
  }

  /** The loads of the hosts are the ones counted. */
  lemma FinalSizes(before: seq<seq<string>>, nodes: seq<string>, assign: seq<nat>)
    requires |nodes| == |assign|
    ensures forall g | 0 <= g < |before| :: |Final(before, nodes, assign)[g]| == LoadAt(Lengths(before), assign, g)
  {
    forall g | 0 <= g < |before| ensures |Final(before, nodes, assign)[g]| == LoadAt(Lengths(before), assign, g) {
      NodesOfCount(nodes, assign, g);
    }
  }

  lemma FinalNext(before: seq<seq<string>>, nodes: seq<string>, i: nat, assign: seq<nat>, h: nat)
    requires i < |nodes| && |assign| == i && h < |before|
    ensures var f := Final(before, nodes[..i], assign);
            Final(before, nodes[..i + 1], assign + [h]) == f[h := f[h] + [nodes[i]]]
  {
    var f, f' := Final(before, nodes[..i], assign), Final(before, nodes[..i + 1], assign + [h]);
    forall g | 0 <= g < |before| ensures f'[g] == f[h := f[h] + [nodes[i]]][g] {
      NodesOfNext(nodes, i, assign, h, g);
    }
  }

  lemma AssignNext(loads: seq<nat>, assign: seq<nat>, h: nat)
    requires LeastLoaded(loads, assign) && h < |loads|
    requires forall g | 0 <= g < |loads| :: LoadAt(loads, assign, h) <= LoadAt(loads, assign, g)
    ensures LeastLoaded(loads, assign + [h])
  {
    assert (assign + [h])[..|assign|] == assign;
  }

  lemma NodesOfNext(nodes: seq<string>, i: nat, assign: seq<nat>, h: nat, g: nat)
    requires i < |nodes| && |assign| == i
    ensures NodesOf(nodes[..i + 1], assign + [h], g) ==
            NodesOf(nodes[..i], assign, g) + if h == g then [nodes[i]] else []
  {
    assert nodes[..i + 1][..i] == nodes[..i];
    assert (assign + [h])[..i] == assign;
  }

  /** A turn, seen from the list of hosts. */
  method Turn(heap: array<HeapEntry>, hosts: seq<HeapEntry>, nodes: seq<string>, i: nat,
              ghost before: seq<seq<string>>, ghost assign: seq<nat>, ghost l0: seq<nat>)
    returns (ent: HeapEntry, ghost h: nat, ghost l: seq<nat>)
    requires Distinct(hosts) && hosts != [] && multiset(heap[..]) == multiset(hosts)
    requires HasLoads(heap[..], l0) && HeapFrom(l0, 0)
    requires i < |nodes| && |assign| == i && Run(hosts, Final(before, nodes[..i], assign))
    requires LeastLoaded(Lengths(before), assign)
    modifies heap, hosts
    ensures multiset(heap[..]) == multiset(hosts)
    ensures HasLoads(heap[..], l) && HeapFrom(l, 0)
    ensures h < |hosts| && ent == hosts[h]
    ensures Run(hosts, Final(before, nodes[..i + 1], assign + [h]))
    ensures LeastLoaded(Lengths(before), assign + [h])
  {
    ghost var f := Final(before, nodes[..i], assign);
    RearrangedDistinct(heap[..], hosts);
    assert |heap[..]| == |multiset(heap[..])| == |multiset(hosts)| == |hosts|;
    assert heap[..][0] in hosts;
    h :| h < |hosts| && hosts[h] == heap[0];
    FinalSizes(before, nodes[..i], assign);
    forall g | 0 <= g < |hosts| ensures |f[h]| <= |f[g]| {
      assert hosts[g] in heap[..];
      LeastRoot(heap[..], l0, hosts[g]);
    }
    AssignNext(Lengths(before), assign, h);
    FinalNext(before, nodes, i, assign, h);
    ent, l := Place(heap, nodes[i], l0);
    assert Run(hosts, f[h := f[h] + [nodes[i]]]);
  }

  lemma LeastRoot(es: seq<HeapEntry>, l: seq<nat>, e: HeapEntry)
    requires HasLoads(es, l) && HeapFrom(l, 0) && e in es
    ensures |es[0].conts| <= |e.conts|
  {
    var i :| 0 <= i < |es| && es[i] == e;
    RootIsLeast(l, i);
  }

  /** Node by node, the host is the one with the recorded index. */
  ghost predicate Matches(placed: seq<HeapEntry>, hosts: seq<HeapEntry>, assign: seq<nat>)
    decreases |assign|
  {
    && |placed| == |assign|
    && (assign != [] ==>
          var n := |assign| - 1;
          assign[n] < |hosts| && placed[n] == hosts[assign[n]] && Matches(placed[..n], hosts, assign[..n]))
  }

  lemma MatchesNext(placed: seq<HeapEntry>, hosts: seq<HeapEntry>, assign: seq<nat>, h: nat)
    requires Matches(placed, hosts, assign) && h < |hosts|
    ensures Matches(placed + [hosts[h]], hosts, assign + [h])
  {
    assert (placed + [hosts[h]])[..|placed|] == placed && (assign + [h])[..|assign|] == assign;
  }

  lemma {:induction false} MatchesAll(placed: seq<HeapEntry>, hosts: seq<HeapEntry>, assign: seq<nat>)
    requires Matches(placed, hosts, assign)
    ensures |placed| == |assign|
    ensures forall i | 0 <= i < |assign| :: assign[i] < |hosts| && placed[i] == hosts[assign[i]]
    decreases |assign|
  {
    if assign != [] { MatchesAll(placed[..|assign| - 1], hosts, assign[..|assign| - 1]); }
  }

  /** The loop over the nodes. */
  method AssignAll(heap: array<HeapEntry>, hosts: seq<HeapEntry>, nodes: seq<string>,
                   ghost before: seq<seq<string>>, ghost l0: seq<nat>)
    returns (placed: seq<HeapEntry>, ghost assign: seq<nat>)
    requires Distinct(hosts) && hosts != [] && multiset(heap[..]) == multiset(hosts)
    requires HasLoads(heap[..], l0) && HeapFrom(l0, 0) && Run(hosts, before)
    modifies heap, hosts
    ensures |placed| == |assign| == |nodes|
    ensures forall i | 0 <= i < |nodes| :: assign[i] < |hosts| && placed[i] == hosts[assign[i]]
    ensures Run(hosts, Final(before, nodes, assign))
    ensures LeastLoaded(Lengths(before), assign)
  {
    placed, assign := [], [];
    ghost var l := l0;
    FinalNothing(before);
    assert nodes[..0] == [];
    for i := 0 to |nodes|
      invariant |assign| == i && Matches(placed, hosts, assign)
      invariant multiset(heap[..]) == multiset(hosts)
      invariant HasLoads(heap[..], l) && HeapFrom(l, 0)
      invariant Run(hosts, Final(before, nodes[..i], assign))
      invariant LeastLoaded(Lengths(before), assign)
    {
      var ent;
      ghost var h;
      ent, h, l := Turn(heap, hosts, nodes, i, before, assign, l);
      MatchesNext(placed, hosts, assign, h);
      placed, assign := placed + [ent], assign + [h];
    }
    MatchesAll(placed, hosts, assign);
    assert nodes[..|nodes|] == nodes;
  }

  lemma FinalNothing(before: seq<seq<string>>)
    ensures Final(before, [], []) == before
  {
    assert forall h | 0 <= h < |before| :: before[h] + [] == before[h];
  }

  /** The host of every node. */
  method AssignHosts(hosts: seq<HeapEntry>, nodes: seq<string>, ghost before: seq<seq<string>>)
    returns (placed: seq<HeapEntry>, ghost assign: seq<nat>)
    requires Distinct(hosts) && (hosts != [] || nodes == [])
    requires Run(hosts, before)
    modifies hosts
    ensures |placed| == |assign| == |nodes|
    ensures forall i | 0 <= i < |nodes| :: assign[i] < |hosts| && placed[i] == hosts[assign[i]]
    ensures Run(hosts, Final(before, nodes, assign))
    ensures LeastLoaded(Lengths(before), assign)
  {
    FinalNothing(before);
    if nodes == [] {
      return [], [];
    }
    var heap := new HeapEntry[|hosts|](i requires 0 <= i < |hosts| => hosts[i]);
    assert heap[..] == hosts;
    ghost var l := Heapify(heap, Lengths(before));
    placed, assign := AssignAll(heap, hosts, nodes, before, l);
  }
}
