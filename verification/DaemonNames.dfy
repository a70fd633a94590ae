/** Names of daemons, `host-port`, and of the metric sets of a sampler,
    `daemon/set_i` (scalability/ldmsdutils.py). */
module DaemonNames {
  import opened Options

  // ---- decimal numbers -----------------------------------------------------

  predicate AllDigits(s: string) {
    forall i | 0 <= i < |s| :: '0' <= s[i] <= '9'
  }

  /** `"{}".format(n)` */
  function Dec(n: nat): (s: string)
    ensures s != "" && AllDigits(s)
  {
    if n < 10 then [('0' as int + n) as char] else Dec(n / 10) + [('0' as int + n % 10) as char]
  }

  /** `int(s)` on a run of digits. */
  function DecValue(s: string): nat
    requires AllDigits(s)
  {
    if s == "" then 0 else 10 * DecValue(s[..|s| - 1]) + (s[|s| - 1] as int - '0' as int)
  }

  lemma {:induction false} DecRoundTrip(n: nat)
    ensures DecValue(Dec(n)) == n
    decreases n
  {
    var s := Dec(n);
    if n < 10 {
      assert s[..0] == "";
    } else {
      DecRoundTrip(n / 10);
      assert s[..|s| - 1] == Dec(n / 10);
    }
  }

  // ---- splitting from the right --------------------------------------------

  /** `s.rsplit(c, 1)`, or nothing when `c` does not occur. */
  function RSplit(s: string, c: char): Option<(string, string)> {
    if s == "" then None
    else
      var n := |s| - 1;
      if s[n] == c then Some((s[..n], ""))
      else
        match RSplit(s[..n], c)
        case None => None
        case Some(p) => Some((p.0, p.1 + [s[n]]))
  }

  lemma {:induction false} RSplitJoin(a: string, c: char, b: string)
    requires c !in b
    ensures RSplit(a + [c] + b, c) == Some((a, b))
    decreases |b|
  {
    var s := a + [c] + b;
    if b == "" {
      assert s[..|s| - 1] == a;
    } else {
      var b' := b[..|b| - 1];
      assert s[..|s| - 1] == a + [c] + b';
      assert b == b' + [b[|b| - 1]];
      RSplitJoin(a, c, b');
    }
  }

  // ---- names ---------------------------------------------------------------

  function Name(host: string, port: nat): string {
    host + "-" + Dec(port)
  }

  /** A daemon gets its host and port back from its name, whatever the host is
      called, so no two daemons share a name. */
  lemma NameSplits(host: string, port: nat)
    ensures RSplit(Name(host, port), '-') == Some((host, Dec(port)))
  {
    assert "-" == ['-'];
    RSplitJoin(host, '-', Dec(port));
  }

  lemma NameIsInjective(h0: string, p0: nat, h1: string, p1: nat)
    ensures Name(h0, p0) == Name(h1, p1) <==> h0 == h1 && p0 == p1
  {
    NameSplits(h0, p0);
    NameSplits(h1, p1);
    DecRoundTrip(p0);
    DecRoundTrip(p1);
  }

  function SetName(daemon: string, i: nat): string {
    daemon + "/set_" + Dec(i)
  }

  lemma SetNameIsInjective(d0: string, i0: nat, d1: string, i1: nat)
    ensures SetName(d0, i0) == SetName(d1, i1) <==> d0 == d1 && i0 == i1
  {
    SetNameSplits(d0, i0);
    SetNameSplits(d1, i1);
    DecRoundTrip(i0);
    DecRoundTrip(i1);
  }

  lemma SetNameSplits(d: string, i: nat)
    ensures RSplit(SetName(d, i), '/') == Some((d, "set_" + Dec(i)))
    ensures ("set_" + Dec(i))[4..] == Dec(i)
  {
    assert SetName(d, i) == d + ['/'] + ("set_" + Dec(i));
    RSplitJoin(d, '/', "set_" + Dec(i));
  }

  /** A port and a set number, in full. */
  lemma NamesInFull()
    ensures Name("node-1", 10001) == "node-1-10001"
    ensures SetName("node-1-10001", 12) == "node-1-10001/set_12"
  {
    assert Dec(1) == "1" && Dec(10) == "10" && Dec(100) == "100" && Dec(1000) == "1000" && Dec(10001) == "10001";
    assert Dec(12) == "12";
  }
}
