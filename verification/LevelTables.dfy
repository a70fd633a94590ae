/** The tables of daemon names (scalability/ldmsdutils.py): every level is a list of
    hosts, each with as many daemons on consecutive ports. */
module LevelTables {
  import opened DaemonNames
  import opened Lists

  /** Levels 0 to 3: samplers, first and second level aggregators, top. */
  const TOP: nat := 3

  /** Hosts, daemons per host and base port of every level. */
  datatype Config = Config(hosts: seq<seq<string>>, per: seq<nat>, base: seq<nat>)

  /** There is one top aggregator. */
  predicate Shape(c: Config) {
    && |c.hosts| == |c.per| == |c.base| == TOP + 1
    && |c.hosts[TOP]| == 1 && c.per[TOP] == 1
  }

  function OnHost(host: string, base: nat, n: nat): (s: seq<string>)
    ensures |s| == n
    ensures forall i | 0 <= i < n :: s[i] == Name(host, base + i)
  {
    if n == 0 then [] else OnHost(host, base, n - 1) + [Name(host, base + (n - 1))]
  }

  function OnHosts(hosts: seq<string>, base: nat, per: nat): seq<string> {
    if hosts == [] then []
    else OnHosts(hosts[..|hosts| - 1], base, per) + OnHost(hosts[|hosts| - 1], base, per)
  }

  /** `DL` */
  function Levels(c: Config): (t: seq<seq<string>>)
    requires Shape(c)
    ensures |t| == TOP + 1
  {
    seq(TOP + 1, l requires 0 <= l <= TOP => OnHosts(c.hosts[l], c.base[l], c.per[l]))
  }

  lemma {:induction false} OnHostsOrigin(hosts: seq<string>, base: nat, per: nat, x: string) returns (h: string, i: nat)
    requires x in OnHosts(hosts, base, per)
    ensures h in hosts && i < per && x == Name(h, base + i)
    decreases |hosts|
  {
    var n := |hosts| - 1;
    if x in OnHosts(hosts[..n], base, per) {
      h, i := OnHostsOrigin(hosts[..n], base, per, x);
    } else {
      h := hosts[n];
      i := OnHostPlace(h, base, per, x);
    }
  }

  lemma OnHostPlace(host: string, base: nat, per: nat, x: string) returns (i: nat)
    requires x in OnHost(host, base, per)
    ensures i < per && x == Name(host, base + i)
  {
    i :| i < per && x == OnHost(host, base, per)[i];
  }

  lemma OnHostDistinct(host: string, base: nat, per: nat)
    ensures Distinct(OnHost(host, base, per))
  {
    var b := OnHost(host, base, per);
    forall i, j | 0 <= i < j < |b| ensures b[i] != b[j] {
      NameIsInjective(host, base + i, host, base + j);
    }
  }

  lemma HostsApart(hosts: seq<string>, host: string, base: nat, per: nat, x: string)
    requires host !in hosts && x in OnHosts(hosts, base, per)
    ensures x !in OnHost(host, base, per)
  {
    if x in OnHost(host, base, per) {
      var h, i := OnHostsOrigin(hosts, base, per, x);
      var j := OnHostPlace(host, base, per, x);
      NameIsInjective(h, base + i, host, base + j);
      assert false;
    }
  }

  lemma {:induction false} OnHostsDistinct(hosts: seq<string>, base: nat, per: nat)
    requires Distinct(hosts)
    ensures Distinct(OnHosts(hosts, base, per))
    decreases |hosts|
  {
    if hosts != [] {
      var n := |hosts| - 1;
      var a := OnHosts(hosts[..n], base, per);
      OnHostsDistinct(hosts[..n], base, per);
      OnHostDistinct(hosts[n], base, per);
      forall x | x in a ensures x !in OnHost(hosts[n], base, per) {
        HostsApart(hosts[..n], hosts[n], base, per, x);
      }
      DistinctJoin(a, OnHost(hosts[n], base, per));
    }
  }

  /** Levels that list no host twice list no daemon twice, whatever dashes the
      hosts have in their names. */
  lemma LevelsDistinct(c: Config)
    requires Shape(c)
    requires forall l | 0 <= l <= TOP :: Distinct(c.hosts[l])
    ensures |Levels(c)[TOP]| == 1
    ensures forall l | 0 <= l <= TOP :: Distinct(Levels(c)[l])
  {
    assert OnHosts(c.hosts[TOP][..0], c.base[TOP], 1) == [];
    forall l | 0 <= l <= TOP ensures Distinct(Levels(c)[l]) {
      OnHostsDistinct(c.hosts[l], c.base[l], c.per[l]);
    }
  }

  /** A level has as many daemons as hosts times daemons per host. */
  lemma {:induction false} HostsCount(hosts: seq<string>, base: nat, per: nat)
    ensures |OnHosts(hosts, base, per)| == |hosts| * per
    decreases |hosts|
  {
    if hosts != [] {
      HostsCount(hosts[..|hosts| - 1], base, per);
      assert |hosts| * per == (|hosts| - 1) * per + per;
    }
  }

  lemma {:induction false} OnHostsAt(hosts: seq<string>, base: nat, per: nat, h: nat, i: nat)
    requires h < |hosts| && i < per
    ensures h * per + i < |OnHosts(hosts, base, per)|
    ensures OnHosts(hosts, base, per)[h * per + i] == hosts[h] + "-" + Dec(base + i)
    decreases |hosts|
  {
    var n := |hosts| - 1;
    HostsCount(hosts[..n], base, per);
    if h < n {
      OnHostsAt(hosts[..n], base, per, h, i);
    }
  }

  /** Daemon by daemon, a level has the hosts listed for it, each with its number of
      daemons on consecutive ports from its base port, and no others. */
  lemma LevelExactly(c: Config, l: nat)
    requires Shape(c) && l <= TOP
    ensures |Levels(c)[l]| == |c.hosts[l]| * c.per[l]
    ensures forall h, i | 0 <= h < |c.hosts[l]| && 0 <= i < c.per[l] :: AtPlace(c, l, h, i)
  {
    HostsCount(c.hosts[l], c.base[l], c.per[l]);
    forall h, i | 0 <= h < |c.hosts[l]| && 0 <= i < c.per[l] ensures AtPlace(c, l, h, i) {
      OnHostsAt(c.hosts[l], c.base[l], c.per[l], h, i);
    }
  }

  /** Daemon `i` of host `h` of level `l`. */
  predicate AtPlace(c: Config, l: nat, h: nat, i: nat)
    requires Shape(c) && l <= TOP && h < |c.hosts[l]| && i < c.per[l]
  {
    var k := h * c.per[l] + i;
    k < |Levels(c)[l]| && Levels(c)[l][k] == c.hosts[l][h] + "-" + Dec(c.base[l] + i)
  }
}
