/** The daemon handlers (`LDMSD` and its subclasses in scalability/ldmsdutils.py)
    and the check of their directories (`dir_verify` in scalability/test.py). */
module LdmsDaemonModel {
  import opened AggTree
  import opened Blocks
  import opened DaemonNames
  import opened LevelTables
  import opened Lists

  /** A handler. A memo that is still `None` and one that holds an empty list are
      both computed again, so both are the empty list here. */
  class Daemon {
    const tree: Tree
    const level: nat
    const name: string
    const idx: nat
    var prdcr: seq<string>
    var expectedDir: seq<string>
    var prdcrDir: seq<string>

    ghost predicate Placed() {
      && Fits(tree) && level <= TOP && idx < |tree.names[level]|
      && tree.names[level][idx] == name
    }

    ghost predicate Valid()
      reads this
    {
      && Placed()
      && (prdcr != [] ==> level > 0 && prdcr == Producers(tree, level, idx))
      && (expectedDir != [] ==> expectedDir == Expected(tree, level, idx))
      && (prdcrDir != [] ==> prdcrDir == Expected(tree, level, idx))
    }

    constructor (tree: Tree, level: nat, name: string)
      requires Fits(tree) && level <= TOP && name in tree.names[level]
      ensures Valid()
      ensures this.tree == tree && this.level == level && this.name == name
      ensures idx == IndexOf(tree.names[level], name)
    {
      this.tree, this.level, this.name := tree, level, name;
      idx := IndexOf(tree.names[level], name);
      prdcr, expectedDir, prdcrDir := [], [], [];
    }

    /** `getPrdcr` */
    method GetPrdcr() returns (r: seq<string>)
      requires Valid()
      modifies this`prdcr
      ensures Valid()
      ensures r == if level == 0 then [] else Producers(tree, level, idx)
    {
      if level == 0 {
        return [];
      }
      if prdcr != [] {
        return prdcr;
      }
      var dist := |tree.names[level - 1]| / |tree.names[level]|;
      ShareIs(dist);
      var off := idx * dist;
      var names := [];
      for i := 0 to dist
        invariant names == tree.names[level - 1][off..off + i]
      {
        names := names + [tree.names[level - 1][off + i]];
      }
      prdcr := names;
      r := names;
    }

    /** The block by multiplication and division. */
    lemma ShareIs(dist: nat)
      requires Placed() && level > 0 && dist == |tree.names[level - 1]| / |tree.names[level]|
      ensures idx * dist + dist <= |tree.names[level - 1]|
      ensures Producers(tree, level, idx) == tree.names[level - 1][idx * dist..idx * dist + dist]
    {
      QuotIsQuotient(|tree.names[level - 1]|, |tree.names[level]|);
      TimesIsProduct(idx, dist);
      ShareFits(tree, level, idx + 1);
    }

    /** `prdcr_cls(prdcr).getExpectedDir()` */
    method ChildDir(prdcr: string) returns (dir: seq<string>)
      requires Placed() && level > 0 && prdcr in tree.names[level - 1]
      ensures dir == Expected(tree, level - 1, IndexOf(tree.names[level - 1], prdcr))
      decreases level, 0
    {
      var l := new Daemon(tree, level - 1, prdcr);
      dir := l.GetExpectedDir();
    }

    /** `getPrdcrDir`: a handler is made for every producer. */
    method GetPrdcrDir() returns (r: seq<string>)
      requires Valid() && level > 0
      modifies this`prdcr, this`prdcrDir
      ensures Valid()
      ensures r == Expected(tree, level, idx)
      decreases level, 1
    {
      if prdcrDir == [] {
        var ret := [];
        var ps := GetPrdcr();
        for k := 0 to |ps|
          invariant Valid()
          invariant forall x | x in ps[..k] :: x in tree.names[level - 1]
          invariant ret == Gather(tree, level - 1, ps[..k])
        {
          assert ps[k] in ps;
          var dir := ChildDir(ps[k]);
          assert ps[..k + 1] == ps[..k] + [ps[k]];
          ret := ret + dir;
        }
        assert ps[..|ps|] == ps;
        prdcrDir := ret;
      }
      r := prdcrDir;
    }

    /** `getExpectedDir` */
    method GetExpectedDir() returns (r: seq<string>)
      requires Valid()
      modifies this`prdcr, this`prdcrDir, this`expectedDir
      ensures Valid()
      ensures r == Expected(tree, level, idx)
      decreases level, 2
    {
      if level > 0 {
        r := GetPrdcrDir();
      } else {
        if expectedDir == [] {
          var sets := [];
          for i := 0 to tree.sets
            invariant sets == SetsOn(name, i)
          {
            sets := sets + [SetName(name, i)];
          }
          expectedDir := sets;
        }
        r := expectedDir;
      }
    }

    /** `getMissingDir`: an empty argument counts as none, and the daemon is asked
        for its directory, `listed`. */
    method GetMissingDir(dir: seq<string>, listed: seq<string>) returns (missing: set<string>)
      requires Valid()
      modifies this
      ensures Valid()
      ensures forall x :: x in missing <==>
          x in Expected(tree, level, idx) && x !in if dir != [] then dir else listed
    {
      var ldir := if dir != [] then dir else listed;
      var edir := GetExpectedDir();
      missing := SetOf(edir) - SetOf(ldir);
    }
  }

  function NamesOf(ds: seq<Daemon>): seq<string> {
    seq(|ds|, k requires 0 <= k < |ds| => ds[k].name)
  }

  /** What all handlers made for one level have in common. */
  ghost predicate Handlers(ds: seq<Daemon>, tree: Tree, level: nat)
    reads ds
  {
    forall k | 0 <= k < |ds| :: ds[k].Valid() && ds[k].tree == tree && ds[k].level == level
  }

  lemma NamesOfJoin(a: seq<Daemon>, b: seq<Daemon>)
    ensures NamesOf(a + b) == NamesOf(a) + NamesOf(b)
  {
  }

  /** `allDaemons`: one handler for every name of a level, in order. */
  method AllDaemons(tree: Tree, level: nat, hosts: seq<string>, base: nat, per: nat) returns (ds: seq<Daemon>)
    requires Fits(tree) && level <= TOP && tree.names[level] == OnHosts(hosts, base, per)
    ensures NamesOf(ds) == tree.names[level]
    ensures Handlers(ds, tree, level) && forall k | 0 <= k < |ds| :: fresh(ds[k])
  {
    ds := [];
    for h := 0 to |hosts|
      invariant NamesOf(ds) == OnHosts(hosts[..h], base, per)
      invariant Handlers(ds, tree, level) && forall k | 0 <= k < |ds| :: fresh(ds[k])
    {
      var more := HostDaemons(tree, level, hosts, h, base, per);
      NamesOfJoin(ds, more);
      OnHostsStep(hosts, h, base, per);
      ds := ds + more;
    }
    assert hosts[..|hosts|] == hosts;
  }

  lemma OnHostsStep(hosts: seq<string>, h: nat, base: nat, per: nat)
    requires h < |hosts|
    ensures OnHosts(hosts[..h + 1], base, per) == OnHosts(hosts[..h], base, per) + OnHost(hosts[h], base, per)
  {
    assert hosts[..h + 1][..h] == hosts[..h];
  }

  /** The inner comprehension: the handlers of one host. */
  method HostDaemons(tree: Tree, level: nat, hosts: seq<string>, h: nat, base: nat, per: nat) returns (ds: seq<Daemon>)
    requires Fits(tree) && level <= TOP && tree.names[level] == OnHosts(hosts, base, per) && h < |hosts|
    ensures NamesOf(ds) == OnHost(hosts[h], base, per)
    ensures Handlers(ds, tree, level) && forall k | 0 <= k < |ds| :: fresh(ds[k])
  {
    ds := [];
    for i := 0 to per
      invariant NamesOf(ds) == OnHost(hosts[h], base, i)
      invariant Handlers(ds, tree, level) && forall k | 0 <= k < |ds| :: fresh(ds[k])
    {
      OnHostsListed(hosts, base, per, h, i);
      var d := new Daemon(tree, level, Name(hosts[h], base + i));
      NamesOfJoin(ds, [d]);
      ds := ds + [d];
    }
  }

  lemma {:induction false} OnHostsListed(hosts: seq<string>, base: nat, per: nat, h: nat, i: nat)
    requires h < |hosts| && i < per
    ensures Name(hosts[h], base + i) in OnHosts(hosts, base, per)
    decreases |hosts|
  {
    var n := |hosts| - 1;
    if h < n {
      OnHostsListed(hosts[..n], base, per, h, i);
    } else {
      assert OnHost(hosts[n], base, per)[i] == Name(hosts[h], base + i);
    }
  }

  // ---- the check -----------------------------------------------------------

  /** The daemon lists what it expects; above `rmLevel`, less `rm`. */
  ghost predicate Matches(d: Daemon, dir: set<string>, rm: set<string>, rmLevel: nat)
    requires d.Placed()
  {
    dir == SetOf(Expected(d.tree, d.level, d.idx)) - if d.level > rmLevel then rm else {}
  }

  ghost predicate AllPlaced(ds: seq<Daemon>) {
    forall k | 0 <= k < |ds| :: ds[k].Placed()
  }

  ghost predicate AllValid(ds: seq<Daemon>)
    reads ds
  {
    forall k | 0 <= k < |ds| :: ds[k].Valid()
  }

  ghost predicate AllMatch(ds: seq<Daemon>, dirs: seq<set<string>>, rm: set<string>, rmLevel: nat, n: nat)
    requires n <= |ds| <= |dirs| && AllPlaced(ds)
  {
    forall k | 0 <= k < n :: Matches(ds[k], dirs[k], rm, rmLevel)
  }

  /** `dir_verify`. `sent` lists the verdicts handed to `assert_test`, `raised`
      tells whether it raises, which it does only when debugging. The loop is
      never left by a break, so its `else` part always follows: a run that does
      not raise ends in a verdict of success, whatever was found before. */
  method DirVerify(ds: seq<Daemon>, dirs: seq<set<string>>, rm: set<string>, rmLevel: nat, debug: bool)
    returns (raised: bool, sent: seq<bool>)
    requires |dirs| == |ds|
    requires AllPlaced(ds) && AllValid(ds)
    modifies ds
    ensures AllValid(ds)
    ensures raised <==> debug && !AllMatch(ds, dirs, rm, rmLevel, |ds|)
    ensures AllMatch(ds, dirs, rm, rmLevel, |ds|) <==> false !in sent
    ensures !raised <==> sent != [] && sent[|sent| - 1]
  {
    sent := [];
    for k := 0 to |ds|
      invariant AllValid(ds)
      invariant AllMatch(ds, dirs, rm, rmLevel, k) <==> false !in sent
      invariant debug ==> false !in sent
    {
      var edir := ds[k].GetExpectedDir();
      var eset := SetOf(edir);
      if ds[k].level > rmLevel {
        eset := eset - rm;
      }
      if dirs[k] != eset {
        assert !Matches(ds[k], dirs[k], rm, rmLevel);
        sent := sent + [false];
        if debug {
          return true, sent;
        }
      }
    }
    sent := sent + [true];
    raised := false;
  }

  /** With the daemons `dead` of level `k` down and `rm` what they were expected to
      list, the directories of the live daemons match. */
  lemma LiveDaemonsMatch(ds: seq<Daemon>, dirs: seq<set<string>>, tree: Tree, k: nat, dead: set<string>)
    requires Proper(tree) && k <= TOP && |dirs| == |ds|
    requires AllPlaced(ds)
    requires forall j | 0 <= j < |ds| ::
               ds[j].tree == tree && ds[j].Placed() && dirs[j] == Reach(tree, ds[j].level, ds[j].idx, k, dead)
    ensures AllMatch(ds, dirs, Lost(tree, k, dead), k, |ds|)
  {
    forall j | 0 <= j < |ds| ensures Matches(ds[j], dirs[j], Lost(tree, k, dead), k) {
      KillExact(tree, ds[j].level, ds[j].idx, k, dead);
    }
  }
}
