/** The aggregation tree: which daemons feed which, and what each daemon lists
    (scalability/ldmsdutils.py, scalability/test.py). The tree is given by the
    tables of daemon names, level by level. */
module AggTree {
  import opened Blocks
  import opened DaemonNames
  import opened LevelTables
  import opened Lists

  /** The names of every level, and how many metric sets a sampler has. */
  datatype Tree = Tree(names: seq<seq<string>>, sets: nat)

  /** Four levels, the last with one daemon. */
  predicate Fits(t: Tree) {
    |t.names| == TOP + 1 && |t.names[TOP]| == 1
  }

  /** No level has two daemons of one name. */
  predicate Proper(t: Tree) {
    Fits(t) && forall l | 0 <= l <= TOP :: Distinct(t.names[l])
  }

  // ---- producers -----------------------------------------------------------

  /** `N_DIST`: how many daemons of the level below each daemon of level `l` takes.
      A level without daemons has none that would divide by zero. */
  function Share(t: Tree, l: nat): nat
    requires Fits(t) && 0 < l <= TOP
  {
    if |t.names[l]| == 0 then 0 else Quot(|t.names[l - 1]|, |t.names[l]|)
  }

  lemma ShareFits(t: Tree, l: nat, i: nat)
    requires Fits(t) && 0 < l <= TOP && i <= |t.names[l]|
    ensures Times(i, Share(t, l)) <= |t.names[l - 1]|
  {
    if |t.names[l]| > 0 {
      QuotExact(|t.names[l - 1]|, |t.names[l]|);
      TimesGrows(i, |t.names[l]|, Share(t, l));
    }
  }

  /** `getPrdcr` of daemon `i` of level `l`. */
  function Producers(t: Tree, l: nat, i: nat): (s: seq<string>)
    requires Fits(t) && 0 < l <= TOP && i < |t.names[l]|
    ensures forall x | x in s :: x in t.names[l - 1]
  {
    ShareFits(t, l, i + 1);
    t.names[l - 1][Times(i, Share(t, l))..Times(i + 1, Share(t, l))]
  }

  /** Daemon `i` takes as many daemons as the division says, from `i` times that on. */
  lemma ProducersExactly(t: Tree, l: nat, i: nat)
    requires Fits(t) && 0 < l <= TOP && i < |t.names[l]|
    ensures var d := |t.names[l - 1]| / |t.names[l]|;
            i * d + d <= |t.names[l - 1]| && Producers(t, l, i) == t.names[l - 1][i * d..i * d + d]
  {
    QuotIsQuotient(|t.names[l - 1]|, |t.names[l]|);
    ShareFits(t, l, i + 1);
    TimesIsProduct(i, Share(t, l));
  }

  function AllProducers(t: Tree, l: nat, n: nat): seq<string>
    requires Fits(t) && 0 < l <= TOP && n <= |t.names[l]|
  {
    if n == 0 then [] else AllProducers(t, l, n - 1) + Producers(t, l, n - 1)
  }

  lemma {:induction false} ProducersInOrder(t: Tree, l: nat, n: nat)
    requires Fits(t) && 0 < l <= TOP && n <= |t.names[l]|
    ensures Times(n, Share(t, l)) <= |t.names[l - 1]|
    ensures AllProducers(t, l, n) == t.names[l - 1][..Times(n, Share(t, l))]
    decreases n
  {
    ShareFits(t, l, n);
    if n > 0 {
      ProducersInOrder(t, l, n - 1);
    }
  }

  /** The producers of a level are the level below, in order, exactly when the
      count of the level divides the count below; otherwise the last ones are
      left without an aggregator. */
  lemma PartitionExact(t: Tree, l: nat)
    requires Fits(t) && 0 < l <= TOP && t.names[l] != []
    ensures AllProducers(t, l, |t.names[l]|) <= t.names[l - 1]
    ensures AllProducers(t, l, |t.names[l]|) == t.names[l - 1]
            <==> Divides(|t.names[l]|, |t.names[l - 1]|)
  {
    ProducersInOrder(t, l, |t.names[l]|);
    QuotExact(|t.names[l - 1]|, |t.names[l]|);
  }

  // ---- expected directories ------------------------------------------------

  function SetsOn(daemon: string, n: nat): (s: seq<string>)
    ensures |s| == n
  {
    if n == 0 then [] else SetsOn(daemon, n - 1) + [SetName(daemon, n - 1)]
  }

  lemma {:induction false} SetsOnPlace(daemon: string, n: nat, i: nat)
    requires i < n
    ensures SetsOn(daemon, n)[i] == SetName(daemon, i)
    decreases n
  {
    if i < n - 1 {
      SetsOnPlace(daemon, n - 1, i);
    }
  }

  /** All sets of samplers `a` up to `b`, in order. */
  function Block(t: Tree, a: nat, b: nat): seq<string>
    requires Fits(t) && a <= b <= |t.names[0]|
    decreases b
  {
    if a == b then [] else Block(t, a, b - 1) + SetsOn(t.names[0][b - 1], t.sets)
  }

  lemma {:induction false} BlockJoin(t: Tree, a: nat, b: nat, e: nat)
    requires Fits(t) && a <= b <= e <= |t.names[0]|
    ensures Block(t, a, e) == Block(t, a, b) + Block(t, b, e)
    decreases e
  {
    if b < e {
      BlockJoin(t, a, b, e - 1);
    }
  }

  /** `getExpectedDir` of daemon `i` of level `l`. */
  function Expected(t: Tree, l: nat, i: nat): seq<string>
    requires Fits(t) && l <= TOP && i < |t.names[l]|
    decreases l, 0
  {
    if l == 0 then SetsOn(t.names[0][i], t.sets) else Gather(t, l - 1, Producers(t, l, i))
  }

  /** `getPrdcrDir`: the directories of the producers `names` one after the other. */
  function Gather(t: Tree, l: nat, names: seq<string>): seq<string>
    requires Fits(t) && l < TOP
    requires forall x | x in names :: x in t.names[l]
    decreases l, 1, |names|
  {
    if names == [] then []
    else
      var n := |names| - 1;
      Gather(t, l, names[..n]) + Expected(t, l, IndexOf(t.names[l], names[n]))
  }

  /** How many samplers stand below a daemon of level `l`. */
  function Width(t: Tree, l: nat): nat
    requires Fits(t) && l <= TOP
  {
    if l == 0 then 1 else Times(Share(t, l), Width(t, l - 1))
  }

  lemma {:induction false} WidthFits(t: Tree, l: nat, b: nat)
    requires Fits(t) && l <= TOP && b <= |t.names[l]|
    ensures Times(b, Width(t, l)) <= |t.names[0]|
    decreases l
  {
    if l == 0 {
      TimesOne(b);
    } else {
      ShareFits(t, l, b);
      WidthFits(t, l - 1, Times(b, Share(t, l)));
      TimesNested(b, Share(t, l), Width(t, l - 1));
    }
  }

  lemma TimesOne(b: nat)
    ensures Times(b, 1) == b
  {
    TimesIsProduct(b, 1);
  }

  lemma IndexOfPlace(names: seq<string>, k: nat)
    requires Distinct(names) && k < |names|
    ensures IndexOf(names, names[k]) == k
  {
  }

  /** Where the samplers of daemon `i` of level `l` start. */
  function Start(t: Tree, l: nat, i: nat): nat
    requires Fits(t) && l <= TOP
  {
    Times(i, Width(t, l))
  }

  lemma StartBelow(t: Tree, l: nat, i: nat)
    requires Fits(t) && 0 < l <= TOP
    ensures Start(t, l, i) == Start(t, l - 1, Times(i, Share(t, l)))
  {
    TimesNested(i, Share(t, l), Width(t, l - 1));
  }

  lemma StartBounds(t: Tree, l: nat, a: nat, b: nat)
    requires Fits(t) && l <= TOP && a <= b <= |t.names[l]|
    ensures Start(t, l, a) <= Start(t, l, b) <= |t.names[0]|
  {
    WidthFits(t, l, b);
    TimesGrows(a, b, Width(t, l));
  }

  lemma SamplerIsBlock(t: Tree, i: nat)
    requires Fits(t) && i < |t.names[0]|
    ensures Start(t, 0, i) == i && Start(t, 0, i + 1) == i + 1
    ensures Expected(t, 0, i) == Block(t, i, i + 1)
  {
    TimesOne(i);
    TimesOne(i + 1);
    assert Block(t, i, i) == [];
  }

  /** All sets below daemons `a` up to `b` of level `l`, in order. */
  function BlockBelow(t: Tree, l: nat, a: nat, b: nat): seq<string>
    requires Fits(t) && l <= TOP && a <= b <= |t.names[l]|
  {
    StartBounds(t, l, a, b);
    Block(t, Start(t, l, a), Start(t, l, b))
  }

  lemma {:induction false} ExpectedBelow(t: Tree, l: nat, i: nat)
    requires Proper(t) && l <= TOP && i < |t.names[l]|
    ensures Expected(t, l, i) == BlockBelow(t, l, i, i + 1)
    decreases l, 0
  {
    if l == 0 {
      SamplerIsBlock(t, i);
    } else {
      ShareFits(t, l, i + 1);
      var a, b := Times(i, Share(t, l)), Times(i + 1, Share(t, l));
      ExpectedIsGather(t, l, i, a, b);
      GatherIsBlock(t, l - 1, a, b);
      BlockUp(t, l, i, a, b);
    }
  }

  lemma ExpectedIsGather(t: Tree, l: nat, i: nat, a: nat, b: nat)
    requires Fits(t) && 0 < l <= TOP && i < |t.names[l]| && b <= |t.names[l - 1]|
    requires a == Times(i, Share(t, l)) <= b == Times(i + 1, Share(t, l))
    ensures Expected(t, l, i) == Gather(t, l - 1, t.names[l - 1][a..b])
  {
  }

  lemma BlockUp(t: Tree, l: nat, i: nat, a: nat, b: nat)
    requires Fits(t) && 0 < l <= TOP && i < |t.names[l]| && b <= |t.names[l - 1]|
    requires a == Times(i, Share(t, l)) <= b == Times(i + 1, Share(t, l))
    ensures BlockBelow(t, l, i, i + 1) == BlockBelow(t, l - 1, a, b)
  {
    StartBelow(t, l, i);
    StartBelow(t, l, i + 1);
  }

  /** The directories of daemons `a` up to `b` of level `l`, one after the other. */
  lemma {:induction false} GatherIsBlock(t: Tree, l: nat, a: nat, b: nat)
    requires Proper(t) && l < TOP && a <= b <= |t.names[l]|
    ensures Gather(t, l, t.names[l][a..b]) == BlockBelow(t, l, a, b)
    decreases l, 1, b
  {
    if a < b {
      GatherIsBlock(t, l, a, b - 1);
      ExpectedBelow(t, l, b - 1);
      GatherNext(t, l, a, b);
    }
  }

  /** One more producer, whose sets follow those before. */
  lemma GatherNext(t: Tree, l: nat, a: nat, b: nat)
    requires Proper(t) && l < TOP && a < b <= |t.names[l]|
    requires Gather(t, l, t.names[l][a..b - 1]) == BlockBelow(t, l, a, b - 1)
    requires Expected(t, l, b - 1) == BlockBelow(t, l, b - 1, b)
    ensures Gather(t, l, t.names[l][a..b]) == BlockBelow(t, l, a, b)
  {
    var s := t.names[l][a..b];
    assert s[..|s| - 1] == t.names[l][a..b - 1] && s[|s| - 1] == t.names[l][b - 1];
    IndexOfPlace(t.names[l], b - 1);
    StartBounds(t, l, a, b - 1);
    StartBounds(t, l, b - 1, b);
    BlockJoin(t, Start(t, l, a), Start(t, l, b - 1), Start(t, l, b));
  }

  /** A daemon expects the sets of a block of consecutive samplers. */
  lemma ExpectedIsBlock(t: Tree, l: nat, i: nat)
    requires Proper(t) && l <= TOP && i < |t.names[l]|
    ensures Start(t, l, i) <= Start(t, l, i + 1) <= |t.names[0]|
    ensures Expected(t, l, i) == Block(t, Start(t, l, i), Start(t, l, i + 1))
  {
    StartBounds(t, l, i, i + 1);
    ExpectedBelow(t, l, i);
  }

  // ---- every set once ------------------------------------------------------

  lemma {:induction false} BlockOrigin(t: Tree, a: nat, b: nat, x: string) returns (i: nat, k: nat)
    requires Fits(t) && a <= b <= |t.names[0]| && x in Block(t, a, b)
    ensures a <= i < b && k < t.sets && x == SetName(t.names[0][i], k)
    decreases b
  {
    if x in Block(t, a, b - 1) {
      i, k := BlockOrigin(t, a, b - 1, x);
    } else {
      i := b - 1;
      k :| k < t.sets && SetsOn(t.names[0][i], t.sets)[k] == x;
      SetsOnPlace(t.names[0][i], t.sets, k);
    }
  }

  /** Blocks of different samplers have no set in common. */
  lemma BlocksApart(t: Tree, a: nat, b: nat, d: nat, e: nat)
    requires Proper(t) && a <= b <= d <= e <= |t.names[0]|
    ensures Apart(Block(t, a, b), Block(t, d, e))
  {
    forall x | x in Block(t, a, b) && x in Block(t, d, e) ensures false {
      var i, k := BlockOrigin(t, a, b, x);
      var j, m := BlockOrigin(t, d, e, x);
      SetNameIsInjective(t.names[0][i], k, t.names[0][j], m);
    }
  }

  lemma SetsOnDistinct(daemon: string, n: nat)
    ensures Distinct(SetsOn(daemon, n))
  {
    var s := SetsOn(daemon, n);
    forall i, j | 0 <= i < j < n ensures s[i] != s[j] {
      SetsOnPlace(daemon, n, i);
      SetsOnPlace(daemon, n, j);
      SetNameIsInjective(daemon, i, daemon, j);
    }
  }

  lemma {:induction false} BlockDistinct(t: Tree, a: nat, b: nat)
    requires Proper(t) && a <= b <= |t.names[0]|
    ensures Distinct(Block(t, a, b))
    decreases b
  {
    if a < b {
      BlockDistinct(t, a, b - 1);
      BlocksApart(t, a, b - 1, b - 1, b);
      assert Block(t, b - 1, b) == SetsOn(t.names[0][b - 1], t.sets);
      SetsOnDistinct(t.names[0][b - 1], t.sets);
      DistinctJoin(Block(t, a, b - 1), SetsOn(t.names[0][b - 1], t.sets));
    }
  }

  lemma {:induction false} BlockAt(t: Tree, a: nat, b: nat, i: nat, k: nat)
    requires Fits(t) && a <= i < b <= |t.names[0]| && k < t.sets
    ensures |Block(t, a, b)| == Times(b - a, t.sets)
    ensures Times(i - a, t.sets) + k < |Block(t, a, b)|
    ensures Block(t, a, b)[Times(i - a, t.sets) + k] == t.names[0][i] + "/set_" + Dec(k)
    decreases b
  {
    BlockLength(t, a, b - 1);
    TimesGrows(i - a, b - a, t.sets);
    if i < b - 1 {
      BlockAt(t, a, b - 1, i, k);
    } else {
      SetsOnPlace(t.names[0][i], t.sets, k);
    }
  }

  lemma {:induction false} BlockLength(t: Tree, a: nat, b: nat)
    requires Fits(t) && a <= b <= |t.names[0]|
    ensures |Block(t, a, b)| == Times(b - a, t.sets)
    decreases b
  {
    if a < b {
      BlockLength(t, a, b - 1);
    }
  }

  /** Set by set: what a daemon expects are the sets of its samplers, by number, one
      sampler after the other. */
  lemma ExpectedAt(t: Tree, l: nat, i: nat, s: nat, k: nat, p: nat)
    requires Proper(t) && l <= TOP && i < |t.names[l]| && k < t.sets
    requires Start(t, l, i) <= s < Start(t, l, i + 1)
    requires p == (s - Start(t, l, i)) * t.sets + k
    ensures s < |t.names[0]| && p < |Expected(t, l, i)|
    ensures Expected(t, l, i)[p] == t.names[0][s] + "/set_" + Dec(k)
  {
    ExpectedIsBlock(t, l, i);
    TimesIsProduct(s - Start(t, l, i), t.sets);
    BlockAt(t, Start(t, l, i), Start(t, l, i + 1), s, k);
  }

  /** Where the samplers of a daemon start, level by level. */
  lemma StartsExactly(t: Tree, i: nat)
    requires Fits(t)
    ensures Start(t, 0, i) == i
    ensures t.names[1] != [] ==> Start(t, 1, i) == i * (|t.names[0]| / |t.names[1]|)
    ensures t.names[1] != [] && t.names[2] != [] ==>
              Start(t, 2, i) == (i * (|t.names[1]| / |t.names[2]|)) * (|t.names[0]| / |t.names[1]|)
  {
    TimesOne(i);
    if t.names[1] != [] {
      StartOfFirst(t, i);
      if t.names[2] != [] {
        StartBelow(t, 2, i);
        QuotIsQuotient(|t.names[1]|, |t.names[2]|);
        TimesIsProduct(i, Share(t, 2));
        StartOfFirst(t, i * (|t.names[1]| / |t.names[2]|));
      }
    }
  }

  lemma StartOfFirst(t: Tree, i: nat)
    requires Fits(t) && t.names[1] != []
    ensures Start(t, 1, i) == i * (|t.names[0]| / |t.names[1]|)
  {
    StartBelow(t, 1, i);
    TimesOne(Times(i, Share(t, 1)));
    QuotIsQuotient(|t.names[0]|, |t.names[1]|);
    TimesIsProduct(i, Share(t, 1));
  }

  /** No daemon expects a set twice. */
  lemma ExpectedDistinct(t: Tree, l: nat, i: nat)
    requires Proper(t) && l <= TOP && i < |t.names[l]|
    ensures Distinct(Expected(t, l, i))
  {
    ExpectedIsBlock(t, l, i);
    BlockDistinct(t, Start(t, l, i), Start(t, l, i + 1));
  }

  /** Two daemons of one level have no set in common. */
  lemma SiblingsApart(t: Tree, l: nat, i: nat, j: nat)
    requires Proper(t) && l <= TOP && i < |t.names[l]| && j < |t.names[l]| && i != j
    ensures SetOf(Expected(t, l, i)) !! SetOf(Expected(t, l, j))
  {
    ExpectedIsBlock(t, l, i);
    ExpectedIsBlock(t, l, j);
    if i < j {
      StartBounds(t, l, i + 1, j);
      BlocksApart(t, Start(t, l, i), Start(t, l, i + 1), Start(t, l, j), Start(t, l, j + 1));
    } else {
      StartBounds(t, l, j + 1, i);
      BlocksApart(t, Start(t, l, j), Start(t, l, j + 1), Start(t, l, i), Start(t, l, i + 1));
    }
  }

  /** The daemon count of every level up to `l` divides the one below. */
  predicate Regular(t: Tree, l: nat)
    requires Fits(t) && l <= TOP
  {
    l > 0 ==> Regular(t, l - 1) && Divides(|t.names[l]|, |t.names[l - 1]|)
  }

  lemma {:induction false} WidthExact(t: Tree, l: nat)
    requires Fits(t) && l <= TOP && |t.names[0]| > 0
    ensures Times(|t.names[l]|, Width(t, l)) == |t.names[0]| <==> Regular(t, l)
    ensures Regular(t, l) ==> Width(t, l) > 0
    decreases l
  {
    if l == 0 {
      TimesOne(|t.names[0]|);
    } else {
      var n, m, d, w := |t.names[l]|, |t.names[l - 1]|, Share(t, l), Width(t, l - 1);
      WidthExact(t, l - 1);
      WidthFits(t, l - 1, m);
      ShareFits(t, l, n);
      TimesNested(n, d, w);
      TimesGrows(Times(n, d), m, w);
      TimesIsProduct(n, 0);
      if n > 0 {
        QuotExact(m, n);
      }
    }
  }

  /** The top aggregator expects every set of every sampler, in order, exactly
      when each level's count divides the count of the level below. */
  lemma TopSeesAll(t: Tree)
    requires Proper(t) && t.names[0] != [] && t.sets > 0
    ensures Expected(t, TOP, 0) <= Block(t, 0, |t.names[0]|)
    ensures Expected(t, TOP, 0) == Block(t, 0, |t.names[0]|)
            <==> Divides(|t.names[2]|, |t.names[1]|) && Divides(|t.names[1]|, |t.names[0]|)
  {
    ExpectedIsBlock(t, TOP, 0);
    WidthExact(t, TOP);
    RegularTop(t);
    var n, w := |t.names[0]|, Width(t, TOP);
    assert Times(1, w) == Times(0, w) + w;
    BlockJoin(t, 0, w, n);
    if w < n {
      assert |Block(t, w, n)| >= t.sets;
    }
  }

  lemma RegularTop(t: Tree)
    requires Fits(t)
    ensures Regular(t, TOP) <==> Divides(|t.names[2]|, |t.names[1]|) && Divides(|t.names[1]|, |t.names[0]|)
  {
    assert Divides(1, |t.names[2]|);
    assert Regular(t, 3) <==> Regular(t, 2);
    assert Regular(t, 2) <==> Regular(t, 1) && Divides(|t.names[2]|, |t.names[1]|);
    assert Regular(t, 1) <==> Regular(t, 0) && Divides(|t.names[1]|, |t.names[0]|);
  }

  // ---- after daemons die ---------------------------------------------------

  /** What daemon `i` of level `l` lists while the daemons `dead` of level `k` are
      down: its own sets, or the sets its live producers list. */
  ghost function Reach(t: Tree, l: nat, i: nat, k: nat, dead: set<string>): set<string>
    requires Fits(t) && l <= TOP && i < |t.names[l]|
    decreases l, 0
  {
    if l == 0 then SetOf(SetsOn(t.names[0][i], t.sets)) else Union(t, l - 1, Producers(t, l, i), k, dead)
  }

  ghost function Union(t: Tree, l: nat, names: seq<string>, k: nat, dead: set<string>): set<string>
    requires Fits(t) && l < TOP
    requires forall x | x in names :: x in t.names[l]
    decreases l, 1, |names|
  {
    if names == [] then {}
    else
      var n := |names| - 1;
      Union(t, l, names[..n], k, dead)
      + if l == k && names[n] in dead then {} else Reach(t, l, IndexOf(t.names[l], names[n]), k, dead)
  }

  /** `rm_sets`: what the dead daemons were expected to list. */
  ghost function Lost(t: Tree, k: nat, dead: set<string>): set<string>
    requires Fits(t) && k <= TOP
  {
    set i, x | 0 <= i < |t.names[k]| && t.names[k][i] in dead && x in Expected(t, k, i) :: x
  }

  lemma SetOfJoin(a: seq<string>, b: seq<string>)
    ensures SetOf(a + b) == SetOf(a) + SetOf(b)
  {
  }

  /** Nothing is lost at the level of the dead or below it. */
  lemma {:induction false} ReachBelow(t: Tree, l: nat, i: nat, k: nat, dead: set<string>)
    requires Fits(t) && l <= TOP && i < |t.names[l]| && l <= k
    ensures Reach(t, l, i, k, dead) == SetOf(Expected(t, l, i))
    decreases l, 0
  {
    if l > 0 {
      UnionBelow(t, l - 1, Producers(t, l, i), k, dead);
    }
  }

  lemma {:induction false} UnionBelow(t: Tree, l: nat, names: seq<string>, k: nat, dead: set<string>)
    requires Fits(t) && l < TOP && l < k
    requires forall x | x in names :: x in t.names[l]
    ensures Union(t, l, names, k, dead) == SetOf(Gather(t, l, names))
    decreases l, 1, |names|
  {
    if names != [] {
      var n := |names| - 1;
      UnionBelow(t, l, names[..n], k, dead);
      ReachBelow(t, l, IndexOf(t.names[l], names[n]), k, dead);
    }
  }

  /** What a daemon of the level of the dead adds to the level above. */
  lemma Contribution(t: Tree, k: nat, i: nat, dead: set<string>)
    requires Proper(t) && k <= TOP && i < |t.names[k]|
    ensures SetOf(Expected(t, k, i)) - Lost(t, k, dead)
            == if t.names[k][i] in dead then {} else SetOf(Expected(t, k, i))
  {
    if t.names[k][i] in dead {
      assert SetOf(Expected(t, k, i)) <= Lost(t, k, dead);
    } else {
      forall x | x in SetOf(Expected(t, k, i)) ensures x !in Lost(t, k, dead) {
        forall j | 0 <= j < |t.names[k]| && t.names[k][j] in dead ensures x !in Expected(t, k, j) {
          SiblingsApart(t, k, i, j);
          assert x !in SetOf(Expected(t, k, j));
        }
      }
    }
  }

  /** Every daemon above the dead lists what it expects less what the dead were
      expected to list; the others list all they expect. */
  lemma {:induction false} KillExact(t: Tree, l: nat, i: nat, k: nat, dead: set<string>)
    requires Proper(t) && l <= TOP && i < |t.names[l]| && k <= TOP
    ensures Reach(t, l, i, k, dead)
            == SetOf(Expected(t, l, i)) - if l > k then Lost(t, k, dead) else {}
    decreases l, 0
  {
    if l <= k {
      ReachBelow(t, l, i, k, dead);
    } else {
      UnionAbove(t, l - 1, Producers(t, l, i), k, dead);
    }
  }

  lemma {:induction false} UnionAbove(t: Tree, l: nat, names: seq<string>, k: nat, dead: set<string>)
    requires Proper(t) && l < TOP && k <= l
    requires forall x | x in names :: x in t.names[l]
    ensures Union(t, l, names, k, dead) == SetOf(Gather(t, l, names)) - Lost(t, k, dead)
    decreases l, 1, |names|
  {
    if names != [] {
      var n := |names| - 1;
      var i := IndexOf(t.names[l], names[n]);
      UnionAbove(t, l, names[..n], k, dead);
      KillExact(t, l, i, k, dead);
      if l == k {
        Contribution(t, k, i, dead);
      }
      SetOfJoin(Gather(t, l, names[..n]), Expected(t, l, i));
    }
  }
}
