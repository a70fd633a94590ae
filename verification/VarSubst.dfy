/** `%VAR%` substitution in one string (`Spec.VAR_RE`, `Spec._subst_str` in
    LDMS_Test.py). */
module VarSubst {
  import opened Options

  /** What the variable table holds, by name, as `str()` prints it. */
  type Env = map<string, string>

  // ---- scanning ------------------------------------------------------------

  /** A character left alone, or a match of `%([0-9a-zA-Z-._]*)%`. */
  datatype Token = Ch(c: char) | Ref(name: string)

  predicate IsNameChar(c: char) {
    '0' <= c <= '9' || 'a' <= c <= 'z' || 'A' <= c <= 'Z' || c in "-._"
  }

  predicate IsName(s: string) {
    forall i | 0 <= i < |s| :: IsNameChar(s[i])
  }

  /** The longest run of name characters, and what follows it. */
  function NameRun(s: string): (r: (string, string))
    ensures IsName(r.0) && s == r.0 + r.1
    ensures r.1 == "" || !IsNameChar(r.1[0])
  {
    if s == "" || !IsNameChar(s[0]) then ("", s)
    else
      var (n, rest) := NameRun(s[1..]);
      ([s[0]] + n, rest)
  }

  /** The matches of the expression from left to right, and the characters
      between them. */
  function Scan(s: string): seq<Token>
    decreases |s|
  {
    if s == "" then []
    else if s[0] == '%' then
      var (n, rest) := NameRun(s[1..]);
      if rest != "" && rest[0] == '%' then [Ref(n)] + Scan(rest[1..]) else [Ch('%')] + Scan(s[1..])
    else [Ch(s[0])] + Scan(s[1..])
  }

  /** No stray `%`, and no `%%` escape. */
  predicate Plain(ts: seq<Token>) {
    forall t | t in ts :: t != Ch('%') && t != Ref("")
  }

  lemma {:induction false} NameRunExact(a: string, b: string)
    requires IsName(a) && (b == "" || !IsNameChar(b[0]))
    ensures NameRun(a + b) == (a, b)
  {
    if a == "" {
      assert a + b == b;
    } else {
      assert (a + b)[1..] == a[1..] + b;
      NameRunExact(a[1..], b);
      assert [a[0]] + a[1..] == a;
    }
  }

  /** The expression matches at the front of `s`, up to place `e`. */
  predicate MatchesTo(s: string, e: nat) {
    && 0 < e < |s| && s[0] == '%' && s[e] == '%'
    && forall i | 0 < i < e :: IsNameChar(s[i])
  }

  lemma ScanMatch(s: string, e: nat)
    requires MatchesTo(s, e)
    ensures Scan(s) == [Ref(s[1..e])] + Scan(s[e + 1..])
  {
    assert s[1..] == s[1..e] + s[e..];
    NameRunExact(s[1..e], s[e..]);
    assert s[e..][1..] == s[e + 1..];
  }

  lemma MatchOfRun(s: string) returns (e: nat)
    requires s != "" && s[0] == '%' && NameRun(s[1..]).1 != "" && NameRun(s[1..]).1[0] == '%'
    ensures MatchesTo(s, e)
  {
    var (n, rest) := NameRun(s[1..]);
    e := 1 + |n|;
    assert s[e] == (n + rest)[|n|];
    assert forall i | 0 < i < e :: s[i] == n[i - 1];
  }

  /** The leftmost match is taken, else the first character is left alone. */
  lemma ScanExactly(s: string)
    requires s != ""
    ensures forall e: nat | MatchesTo(s, e) :: Scan(s) == [Ref(s[1..e])] + Scan(s[e + 1..])
    ensures (forall e: nat :: !MatchesTo(s, e)) ==> Scan(s) == [Ch(s[0])] + Scan(s[1..])
  {
    forall e: nat | MatchesTo(s, e) ensures Scan(s) == [Ref(s[1..e])] + Scan(s[e + 1..]) {
      ScanMatch(s, e);
    }
    var (n, rest) := NameRun(s[1..]);
    if s[0] == '%' && rest != "" && rest[0] == '%' {
      var e := MatchOfRun(s);
    }
  }

  /** A match in the middle of a string does not depend on what follows. */
  lemma ScanRef(n: string, rest: string)
    requires IsName(n)
    ensures Scan("%" + (n + ("%" + rest))) == [Ref(n)] + Scan(rest)
  {
    var s := "%" + (n + ("%" + rest));
    assert s[1..] == n + ("%" + rest);
    NameRunExact(n, "%" + rest);
    assert ("%" + rest)[1..] == rest;
  }

  lemma PlainHead(a: string) returns (n: string, tail: string)
    requires a != "" && Plain(Scan(a))
    ensures a[0] == '%' ==> IsName(n) && a == "%" + (n + ("%" + tail)) && Scan(a) == [Ref(n)] + Scan(tail)
    ensures a[0] != '%' ==> tail == a[1..] && Scan(a) == [Ch(a[0])] + Scan(tail)
    ensures |tail| < |a| && Plain(Scan(tail))
  {
    assert Scan(a)[0] in Scan(a);
    if a[0] == '%' {
      var (name, rest) := NameRun(a[1..]);
      n, tail := name, rest[1..];
      assert rest == "%" + tail;
    } else {
      n, tail := "", a[1..];
    }
    assert forall t | t in Scan(tail) :: t in Scan(a);
  }

  /** Without stray `%` signs the scan of a concatenation is the concatenation
      of the scans. */
  lemma {:induction false} ScanConcat(a: string, b: string)
    requires Plain(Scan(a))
    ensures Scan(a + b) == Scan(a) + Scan(b)
    decreases |a|
  {
    if a == "" {
      assert a + b == b;
    } else {
      var n, tail := PlainHead(a);
      ScanConcat(tail, b);
      if a[0] == '%' {
        PrependRef(n, tail, b);
      } else {
        PrependChar(a[0], tail, tail + b, Scan(b));
        ConsAppend(a[0], tail, b);
        assert a == [a[0]] + tail;
      }
    }
  }

  lemma PrependRef(n: string, tail: string, b: string)
    requires IsName(n) && Scan(tail + b) == Scan(tail) + Scan(b)
    ensures Scan("%" + (n + ("%" + tail)) + b) == [Ref(n)] + Scan(tail) + Scan(b)
  {
    Reassociate(n, tail, b);
    ScanRef(n, tail + b);
  }

  lemma ScanCons(c: char, t: string)
    requires c != '%'
    ensures Scan([c] + t) == [Ch(c)] + Scan(t)
  {
    assert ([c] + t)[1..] == t;
  }

  lemma PrependChar(c: char, tail: string, rest: string, more: seq<Token>)
    requires c != '%' && Scan(rest) == Scan(tail) + more
    ensures Scan([c] + rest) == Scan([c] + tail) + more
  {
    ScanCons(c, tail);
    ScanCons(c, rest);
    ConsAppend(Ch(c), Scan(tail), more);
  }

  lemma ConsAppend<T>(x: T, a: seq<T>, b: seq<T>)
    ensures [x] + (a + b) == ([x] + a) + b
  {
  }

  lemma Reassociate(n: string, tail: string, b: string)
    ensures "%" + (n + ("%" + tail)) + b == "%" + (n + ("%" + (tail + b)))
  {
  }

  // ---- one pass ------------------------------------------------------------

  /** The replacement of one token; an unknown name raises. */
  function Piece(t: Token, env: Env): Option<string> {
    match t
    case Ch(c) => Some([c])
    case Ref(n) => if n in env then Some(env[n]) else None
  }

  function Pieces(ts: seq<Token>, env: Env): Option<string> {
    if ts == [] then Some("")
    else
      match (Piece(ts[0], env), Pieces(ts[1..], env))
      case (Some(a), Some(b)) => Some(a + b)
      case _ => None
  }

  /** `VAR_RE.sub(lambda m: str(VAR[m.group(1)]), s)` */
  function Sub(s: string, env: Env): Option<string> {
    Pieces(Scan(s), env)
  }

  /** Nothing is left for the expression to match. A stray `%` may be left. */
  predicate NoRefs(ts: seq<Token>) {
    forall t | t in ts :: t.Ch?
  }

  /** A string without matches is left alone. */
  lemma {:induction false} NoRefsFixed(env: Env, s: string)
    requires NoRefs(Scan(s))
    ensures Sub(s, env) == Some(s)
    decreases |s|
  {
    if s != "" {
      assert Scan(s)[0] in Scan(s);
      assert Scan(s)[1..] == Scan(s[1..]);
      assert forall t | t in Scan(s[1..]) :: t in Scan(s);
      NoRefsFixed(env, s[1..]);
      assert s == [s[0]] + s[1..];
    }
  }

  // ---- the loop ------------------------------------------------------------

  /** `n` passes; none when one of them raises. */
  function Passes(s: string, env: Env, n: nat): Option<string>
    decreases n
  {
    if n == 0 then Some(s)
    else
      match Sub(s, env)
      case Some(t) => Passes(t, env, n - 1)
      case None => None
  }

  lemma {:induction false} PassesNext(s: string, env: Env, n: nat)
    ensures Passes(s, env, n + 1) == match Passes(s, env, n) case Some(t) => Sub(t, env) case None => None
    decreases n
  {
    if n == 0 {
      assert Sub(s, env).Some? ==> Passes(Sub(s, env).value, env, 0) == Sub(s, env);
    } else if Sub(s, env).Some? {
      PassesNext(Sub(s, env).value, env, n - 1);
    }
  }

  /** After `k` passes there is nothing more to do: one has raised, or another
      changes nothing. */
  predicate Stops(s: string, env: Env, k: nat) {
    match Passes(s, env, k)
    case None => true
    case Some(t) => Sub(t, env) == Some(t)
  }

  /** After `k` passes no placeholder is left. */
  predicate Settles(s: string, env: Env, k: nat) {
    Passes(s, env, k).Some? && NoRefs(Scan(Passes(s, env, k).value))
  }

  lemma {:induction false} StopsFrom(s: string, env: Env, j: nat, k: nat)
    requires Stops(s, env, j) && j <= k
    ensures Stops(s, env, k) && Passes(s, env, k) == Passes(s, env, j)
    decreases k
  {
    if j < k {
      StopsFrom(s, env, j, k - 1);
      PassesNext(s, env, k - 1);
    }
  }

  /** Where the loop stops does not depend on when one looks. */
  lemma StopsOnce(s: string, env: Env, j: nat, k: nat)
    requires Stops(s, env, j) && Stops(s, env, k)
    ensures Passes(s, env, j) == Passes(s, env, k)
  {
    StopsFrom(s, env, j, j + k);
    StopsFrom(s, env, k, j + k);
  }

  /** The loop comes back with a string. */
  ghost predicate Returns(s: string, env: Env) {
    exists k: nat :: Stops(s, env, k) && Passes(s, env, k).Some?
  }

  lemma SettlesStops(s: string, env: Env, k: nat)
    requires Settles(s, env, k)
    ensures Stops(s, env, k)
  {
    NoRefsFixed(env, Passes(s, env, k).value);
  }

  /** `_subst_str`: substitute until nothing changes. The counter of the source
      is never increased, so that the loop ends is due to the references alone. */
  method SubstStr(val: string, env: Env, ghost k: nat) returns (r: Option<string>)
    requires Stops(val, env, k)
    ensures r == Passes(val, env, k)
  {
    ghost var j := 1;
    var s0 := Sub(val, env);
    PassesNext(val, env, 0);
    if s0.None? {
      StopsOnce(val, env, 1, k);
      return None;
    }
    var s1 := Sub(s0.value, env);
    while s1.Some? && s0 != s1
      invariant s0.Some? && Passes(val, env, j) == s0 && Sub(s0.value, env) == s1
      decreases k - j
    {
      if k <= j {
        StopsFrom(val, env, k, j);
      }
      PassesNext(val, env, j);
      j := j + 1;
      s0 := s1;
      s1 := Sub(s0.value, env);
    }
    PassesNext(val, env, j);
    StopsOnce(val, env, if s1.None? then j + 1 else j, k);
    r := if s1.None? then None else s0;
  }

  // ---- what a string means -------------------------------------------------

  /** References resolve within `k` levels: every name is defined, chains of
      references end, and no stray `%` or `%%` is met on the way. */
  predicate Ground(env: Env, ts: seq<Token>, k: nat)
    decreases k, |ts|
  {
    if ts == [] then true
    else
      && Ground(env, ts[1..], k)
      && match ts[0]
         case Ch(c) => c != '%'
         case Ref(n) => n != "" && k > 0 && n in env && Ground(env, Scan(env[n]), k - 1)
  }

  /** Recursive evaluation. */
  function Eval(env: Env, ts: seq<Token>, k: nat): string
    requires Ground(env, ts, k)
    decreases k, |ts|
  {
    if ts == [] then ""
    else
      (match ts[0]
       case Ch(c) => [c]
       case Ref(n) => Eval(env, Scan(env[n]), k - 1)) + Eval(env, ts[1..], k)
  }

  lemma {:induction false} GroundPlain(env: Env, ts: seq<Token>, k: nat)
    requires Ground(env, ts, k)
    ensures Plain(ts)
    ensures k == 0 ==> NoRefs(ts)
  {
    if ts != [] {
      GroundPlain(env, ts[1..], k);
      assert forall t | t in ts :: t == ts[0] || t in ts[1..];
    }
  }

  lemma {:induction false} GroundConcat(env: Env, a: seq<Token>, b: seq<Token>, k: nat)
    ensures Ground(env, a + b, k) <==> Ground(env, a, k) && Ground(env, b, k)
    ensures Ground(env, a + b, k) ==> Eval(env, a + b, k) == Eval(env, a, k) + Eval(env, b, k)
  {
    if a == [] {
      assert a + b == b;
    } else {
      assert (a + b)[1..] == a[1..] + b;
      GroundConcat(env, a[1..], b, k);
    }
  }

  /** More levels change nothing. */
  lemma {:induction false} GroundMore(env: Env, ts: seq<Token>, k: nat, j: nat)
    requires Ground(env, ts, k) && k <= j
    ensures Ground(env, ts, j) && Eval(env, ts, j) == Eval(env, ts, k)
    decreases k, |ts|
  {
    if ts != [] {
      GroundMore(env, ts[1..], k, j);
      if ts[0].Ref? {
        GroundMore(env, Scan(env[ts[0].name]), k - 1, j - 1);
      }
    }
  }

  /** One pass uses up one level and keeps the meaning. */
  lemma {:induction false} PassKeepsMeaning(env: Env, ts: seq<Token>, k: nat)
    requires Ground(env, ts, k) && k > 0
    ensures Pieces(ts, env).Some?
    ensures Ground(env, Scan(Pieces(ts, env).value), k - 1)
    ensures Eval(env, Scan(Pieces(ts, env).value), k - 1) == Eval(env, ts, k)
    decreases |ts|
  {
    if ts != [] {
      PassKeepsMeaning(env, ts[1..], k);
      var rest := Pieces(ts[1..], env).value;
      var a := Piece(ts[0], env).value;
      if ts[0].Ch? {
        ScanChar(ts[0].c);
        assert [Ch(ts[0].c)][1..] == [];
      }
      GroundPlain(env, Scan(a), k - 1);
      ScanConcat(a, rest);
      GroundConcat(env, Scan(a), Scan(rest), k - 1);
    }
  }

  lemma ScanChar(c: char)
    requires c != '%'
    ensures Scan([c]) == [Ch(c)]
  {
    assert [c][1..] == "";
  }

  /** Without levels a string evaluates to itself. */
  lemma {:induction false} GroundZero(env: Env, s: string)
    requires Plain(Scan(s)) && NoRefs(Scan(s))
    ensures Ground(env, Scan(s), 0) && Eval(env, Scan(s), 0) == s
    decreases |s|
  {
    if s != "" {
      assert Scan(s)[0] in Scan(s);
      assert Scan(s)[1..] == Scan(s[1..]);
      assert forall t | t in Scan(s[1..]) :: t in Scan(s);
      GroundZero(env, s[1..]);
      assert s == [s[0]] + s[1..];
    }
  }

  /** The value of a string has no placeholder and no stray `%` in it. */
  lemma {:induction false} EvalHasNoRefs(env: Env, ts: seq<Token>, k: nat)
    requires Ground(env, ts, k)
    ensures NoRefs(Scan(Eval(env, ts, k))) && Plain(Scan(Eval(env, ts, k)))
    decreases k, |ts|
  {
    if ts != [] {
      EvalHasNoRefs(env, ts[1..], k);
      var a := match ts[0] case Ch(c) => [c] case Ref(n) => Eval(env, Scan(env[n]), k - 1);
      if ts[0].Ch? {
        ScanChar(ts[0].c);
      } else {
        EvalHasNoRefs(env, Scan(env[ts[0].name]), k - 1);
      }
      ScanConcat(a, Eval(env, ts[1..], k));
    }
  }

  /** A resolvable string that a pass leaves alone has nothing left to resolve. */
  lemma {:induction false} StableHasNoRefs(env: Env, s: string, k: nat)
    requires Ground(env, Scan(s), k) && Sub(s, env) == Some(s)
    ensures NoRefs(Scan(s))
    decreases k
  {
    if k > 0 {
      PassKeepsMeaning(env, Scan(s), k);
      StableHasNoRefs(env, s, k - 1);
    } else {
      GroundPlain(env, Scan(s), 0);
    }
  }

  // ---- when references resolve ---------------------------------------------

  /** The names that count: what they stand for is free of stray `%` and refers
      to names that count. A name without a value may count. */
  predicate Tidy(env: Env, names: set<string>) {
    && "" !in names
    && (forall n | n in names && n in env :: Plain(Scan(env[n])) && RefsIn(Scan(env[n]), names))
  }

  predicate RefsIn(ts: seq<Token>, names: set<string>) {
    forall t | t in ts && t.Ref? :: t.name in names
  }

  /** When no stray `%` can be met from the string: `k` passes succeed and leave no
      placeholder exactly when the references resolve within `k` levels, and then
      they compute the recursive evaluation. */
  lemma {:induction false} PassesExact(env: Env, s: string, k: nat, names: set<string>)
    requires Plain(Scan(s)) && RefsIn(Scan(s), names) && Tidy(env, names)
    ensures Ground(env, Scan(s), k) <==> Settles(s, env, k)
    ensures Ground(env, Scan(s), k) ==> Passes(s, env, k) == Some(Eval(env, Scan(s), k))
    decreases k
  {
    if k == 0 {
      if NoRefs(Scan(s)) { GroundZero(env, s); }
      if Ground(env, Scan(s), 0) { GroundPlain(env, Scan(s), 0); }
    } else {
      if Ground(env, Scan(s), k) { PassKeepsMeaning(env, Scan(s), k); }
      if Sub(s, env).Some? {
        var t := Sub(s, env).value;
        PassPlain(env, Scan(s), names);
        PassesExact(env, t, k - 1, names);
        if Ground(env, Scan(t), k - 1) { PassBack(env, Scan(s), k, names); }
      }
    }
  }

  lemma {:induction false} PassPlain(env: Env, ts: seq<Token>, names: set<string>)
    requires Plain(ts) && RefsIn(ts, names) && Tidy(env, names) && Pieces(ts, env).Some?
    ensures Plain(Scan(Pieces(ts, env).value)) && RefsIn(Scan(Pieces(ts, env).value), names)
  {
    if ts != [] {
      assert forall t | t in ts[1..] :: t in ts;
      assert ts[0] in ts;
      PassPlain(env, ts[1..], names);
      var a := Piece(ts[0], env).value;
      if ts[0].Ch? { ScanChar(ts[0].c); }
      ScanConcat(a, Pieces(ts[1..], env).value);
    }
  }

  lemma {:induction false} PassBack(env: Env, ts: seq<Token>, k: nat, names: set<string>)
    requires Plain(ts) && RefsIn(ts, names) && Tidy(env, names) && Pieces(ts, env).Some?
    requires k > 0 && Ground(env, Scan(Pieces(ts, env).value), k - 1)
    ensures Ground(env, ts, k)
    decreases |ts|
  {
    if ts != [] {
      assert forall t | t in ts[1..] :: t in ts;
      assert ts[0] in ts;
      var a, rest := Piece(ts[0], env).value, Pieces(ts[1..], env).value;
      if ts[0].Ch? { ScanChar(ts[0].c); }
      ScanConcat(a, rest);
      GroundConcat(env, Scan(a), Scan(rest), k - 1);
      PassBack(env, ts[1..], k, names);
    }
  }

  /** The names of `rank` are defined, free of stray `%`, and refer to names of
      lower rank only. Other names of the table, `""` among them, do not matter. */
  ghost predicate Acyclic(env: Env, rank: map<string, nat>) {
    forall n | n in rank ::
      n != "" && n in env && Plain(Scan(env[n])) && RefsBelow(rank, Scan(env[n]), rank[n])
  }

  ghost predicate RefsBelow(rank: map<string, nat>, ts: seq<Token>, k: nat) {
    forall t | t in ts && t.Ref? :: t.name in rank && rank[t.name] < k
  }

  /** The string refers to ranked names only: its references are closed and
      acyclic. */
  ghost predicate Ranked(env: Env, rank: map<string, nat>, ts: seq<Token>) {
    Acyclic(env, rank) && Plain(ts) && RefsIn(ts, rank.Keys)
  }

  lemma {:induction false} AcyclicGround(env: Env, rank: map<string, nat>, ts: seq<Token>, k: nat)
    requires Acyclic(env, rank) && Plain(ts) && RefsBelow(rank, ts, k)
    ensures Ground(env, ts, k)
    decreases k, |ts|
  {
    if ts != [] {
      assert ts[0] in ts && forall t | t in ts[1..] :: t in ts;
      AcyclicGround(env, rank, ts[1..], k);
      if ts[0].Ref? {
        var n := ts[0].name;
        AcyclicGround(env, rank, Scan(env[n]), rank[n]);
        GroundMore(env, Scan(env[n]), rank[n], k - 1);
      }
    }
  }

  lemma {:induction false} RankBound(rank: map<string, nat>, names: set<string>) returns (b: nat)
    requires names <= rank.Keys
    ensures forall n | n in names :: rank[n] < b
    decreases |names|
  {
    if names == {} {
      b := 0;
    } else {
      var n :| n in names;
      b := RankBound(rank, names - {n});
      b := b + rank[n] + 1;
      assert forall m | m in names :: m == n || m in names - {n};
    }
  }

  /** The fewest levels within which the references resolve. */
  function Least(env: Env, ts: seq<Token>, k: nat): (j: nat)
    requires Ground(env, ts, k)
    ensures j <= k && Ground(env, ts, j)
    ensures j > 0 ==> !Ground(env, ts, j - 1)
    decreases k
  {
    if k == 0 || !Ground(env, ts, k - 1) then k else Least(env, ts, k - 1)
  }

  lemma LeastIsLeast(env: Env, ts: seq<Token>, k: nat, j: nat)
    requires Ground(env, ts, k) && Ground(env, ts, j)
    ensures Least(env, ts, k) <= j
  {
    var l := Least(env, ts, k);
    if j < l {
      GroundMore(env, ts, j, l - 1);
    }
  }

  lemma {:induction false} GroundRefs(env: Env, ts: seq<Token>, k: nat)
    requires Ground(env, ts, k)
    ensures forall t | t in ts && t.Ref? ::
              t.name != "" && k > 0 && t.name in env && Ground(env, Scan(env[t.name]), k - 1)
  {
    if ts != [] {
      GroundRefs(env, ts[1..], k);
      assert forall t | t in ts :: t == ts[0] || t in ts[1..];
    }
  }

  /** Ranking every name that resolves within `k` levels by the fewest it needs. */
  ghost function LevelRank(env: Env, k: nat): map<string, nat> {
    map n | n in env && n != "" && Ground(env, Scan(env[n]), k) :: Least(env, Scan(env[n]), k)
  }

  lemma LevelRankIsAcyclic(env: Env, k: nat)
    ensures Acyclic(env, LevelRank(env, k))
  {
    var rank := LevelRank(env, k);
    forall n | n in rank ensures Plain(Scan(env[n])) && RefsBelow(rank, Scan(env[n]), rank[n]) {
      var ts := Scan(env[n]);
      GroundPlain(env, ts, k);
      GroundRefs(env, ts, rank[n]);
      forall t | t in ts && t.Ref? ensures t.name in rank && rank[t.name] < rank[n] {
        GroundMore(env, Scan(env[t.name]), rank[n] - 1, k);
        LeastIsLeast(env, Scan(env[t.name]), k, rank[n] - 1);
      }
    }
  }

  ghost predicate Resolves(env: Env, ts: seq<Token>) {
    exists k: nat :: Ground(env, ts, k)
  }

  ghost predicate ClosedAcyclic(env: Env, ts: seq<Token>) {
    exists rank: map<string, nat> :: Ranked(env, rank, ts)
  }

  /** References resolve if and only if they are closed and acyclic. */
  lemma ResolvesExactly(env: Env, ts: seq<Token>)
    ensures Resolves(env, ts) <==> ClosedAcyclic(env, ts)
  {
    if Resolves(env, ts) {
      var k: nat :| Ground(env, ts, k);
      LevelRankIsAcyclic(env, k);
      GroundPlain(env, ts, k);
      GroundRefs(env, ts, k);
      forall t | t in ts && t.Ref? ensures t.name in LevelRank(env, k) {
        GroundMore(env, Scan(env[t.name]), k - 1, k);
      }
      assert Ranked(env, LevelRank(env, k), ts);
    }
    if ClosedAcyclic(env, ts) {
      var rank: map<string, nat> :| Ranked(env, rank, ts);
      var b := RankBound(rank, rank.Keys);
      AcyclicGround(env, rank, ts, b);
    }
  }

  /** What resolves is settled by the loop, at its recursive evaluation. */
  lemma {:induction false} GroundSettles(env: Env, s: string, k: nat)
    requires Ground(env, Scan(s), k)
    ensures Settles(s, env, k) && Passes(s, env, k) == Some(Eval(env, Scan(s), k))
    decreases k
  {
    GroundPlain(env, Scan(s), k);
    if k == 0 {
      GroundZero(env, s);
    } else {
      PassKeepsMeaning(env, Scan(s), k);
      GroundSettles(env, Sub(s, env).value, k - 1);
    }
  }

  ghost predicate SettlesAtAll(s: string, env: Env) {
    exists k: nat :: Settles(s, env, k)
  }

  /** When no stray `%` can be met from the string, the loop ends without a
      placeholder if and only if the references are closed and acyclic. */
  lemma SettlesExactly(env: Env, s: string, names: set<string>)
    requires Plain(Scan(s)) && RefsIn(Scan(s), names) && Tidy(env, names)
    ensures SettlesAtAll(s, env) <==> ClosedAcyclic(env, Scan(s))
  {
    ResolvesExactly(env, Scan(s));
    if SettlesAtAll(s, env) {
      var k: nat :| Settles(s, env, k);
      PassesExact(env, s, k, names);
    }
    if Resolves(env, Scan(s)) {
      var k: nat :| Ground(env, Scan(s), k);
      PassesExact(env, s, k, names);
    }
  }

  // ---- references that do not resolve --------------------------------------

  lemma SubRef(n: string, rest: string, env: Env)
    requires IsName(n) && n in env && Sub(rest, env).Some?
    ensures Sub("%" + (n + ("%" + rest)), env) == Some(env[n] + Sub(rest, env).value)
  {
    ScanRef(n, rest);
    assert ([Ref(n)] + Scan(rest))[1..] == Scan(rest);
  }

  lemma SubOne(n: string, s: string, env: Env)
    requires IsName(n) && n in env && s == "%" + (n + "%")
    ensures Scan(s) == [Ref(n)] && Sub(s, env) == Some(env[n])
  {
    assert "%" + "" == "%";
    ScanRef(n, "");
    assert Pieces([Ref(n)][1..], env) == Some("");
    assert env[n] + "" == env[n];
  }

  /** A name that stands for itself stops the loop with its placeholder left. */
  lemma SelfReferenceStays(env: Env)
    requires "a" in env && env["a"] == "%a%"
    ensures Stops("%a%", env, 0) && forall n: nat :: !Settles("%a%", env, n)
  {
    SubOne("a", "%a%", env);
    assert Ref("a") in Scan("%a%");
    forall n: nat ensures !Settles("%a%", env, n) {
      StopsFrom("%a%", env, 0, n);
    }
  }

  lemma {:induction false} Alternates(x: string, y: string, env: Env, n: nat)
    requires Sub(x, env) == Some(y) && Sub(y, env) == Some(x) && x != y
    ensures Passes(x, env, n) == Some(if n % 2 == 0 then x else y)
    ensures !Stops(x, env, n)
    decreases n
  {
    if n > 0 {
      Alternates(x, y, env, n - 1);
      PassesNext(x, env, n - 1);
    }
  }

  /** Two names that stand for each other take turns for ever. */
  lemma CyclesDoNotResolve(env: Env)
    requires "a" in env && "b" in env && env["a"] == "%b%" && env["b"] == "%a%"
    ensures forall n: nat ::
              Passes("%a%", env, n) == Some(if n % 2 == 0 then "%a%" else "%b%") && !Stops("%a%", env, n)
  {
    SubOne("a", "%a%", env);
    SubOne("b", "%b%", env);
    assert "%a%"[1] != "%b%"[1];
    forall n: nat
      ensures Passes("%a%", env, n) == Some(if n % 2 == 0 then "%a%" else "%b%") && !Stops("%a%", env, n)
    {
      Alternates("%a%", "%b%", env, n);
    }
  }

  function Bars(n: nat): string {
    if n == 0 then "" else "%" + Bars(n - 1)
  }

  lemma {:induction false} BarsJoin(m: nat, n: nat)
    ensures Bars(m) + Bars(n) == Bars(m + n)
    decreases m
  {
    if m == 0 {
      assert Bars(0) + Bars(n) == Bars(n);
    } else {
      BarsJoin(m - 1, n);
      assert Bars(m) + Bars(n) == "%" + (Bars(m - 1) + Bars(n));
    }
  }

  lemma {:induction false} BarsCount(n: nat)
    ensures |Bars(n)| == n
    decreases n
  {
    if n > 0 {
      BarsCount(n - 1);
    }
  }

  lemma OneBar(env: Env)
    ensures Sub("%", env) == Some("%")
  {
    assert "%"[1..] == "" && NameRun("") == ("", "");
    assert Scan("%") == [Ch('%')];
    NoRefsFixed(env, "%");
  }

  lemma TwoBars(rest: string, env: Env)
    requires "" in env && env[""] == "%" && Sub(rest, env).Some?
    ensures Sub("%" + ("%" + rest), env) == Some("%" + Sub(rest, env).value)
  {
    SubRef("", rest, env);
    assert "" + ("%" + rest) == "%" + rest;
  }

  lemma TwoMoreBars(n: nat, h: nat, env: Env)
    requires "" in env && env[""] == "%" && Sub(Bars(n), env) == Some(Bars(h))
    ensures Sub(Bars(n + 2), env) == Some(Bars(h + 1))
  {
    TwoBars(Bars(n), env);
    assert Bars(n + 2) == "%" + ("%" + Bars(n));
  }

  lemma FewBars(env: Env)
    ensures Sub(Bars(0), env) == Some(Bars(0)) && Sub(Bars(1), env) == Some(Bars(1))
  {
    OneBar(env);
    assert Bars(1) == "%" && Scan("") == [];
  }

  /** Two `%` make one; a last one stays. */
  lemma {:induction false} SubBars(n: nat, h: nat, env: Env)
    requires "" in env && env[""] == "%" && n <= 2 * h <= n + 1
    ensures Sub(Bars(n), env) == Some(Bars(h))
    decreases n
  {
    if n <= 1 {
      FewBars(env);
    } else {
      SubBars(n - 2, h - 1, env);
      TwoMoreBars(n - 2, h - 1, env);
    }
  }

  /** `%a%` and then `n` times `%`. */
  function SelfThen(n: nat): string {
    "%" + ("a" + ("%" + Bars(n)))
  }

  lemma SubSelfThen(m: nat, n: nat, env: Env)
    requires "" in env && env[""] == "%" && "a" in env && env["a"] == SelfThen(m)
    ensures Sub(SelfThen(n), env) == Some(SelfThen(m + (n + 1) / 2))
  {
    SubBars(n, (n + 1) / 2, env);
    SubRef("a", Bars(n), env);
    BarsJoin(m, (n + 1) / 2);
    assert SelfThen(m) + Bars((n + 1) / 2) == "%" + ("a" + ("%" + (Bars(m) + Bars((n + 1) / 2))));
  }

  /** A self-reference before `m` stray `%` stops the loop at twice as many. */
  lemma {:induction false} SelfReferenceGrows(m: nat, n: nat, env: Env) returns (k: nat)
    requires "" in env && env[""] == "%" && "a" in env && env["a"] == SelfThen(m)
    requires n <= 2 * m
    ensures Stops(SelfThen(n), env, k) && Passes(SelfThen(n), env, k) == Some(SelfThen(2 * m))
    decreases 2 * m - n
  {
    SubSelfThen(m, n, env);
    if n == 2 * m {
      k := 0;
    } else {
      k := SelfReferenceGrows(m, m + (n + 1) / 2, env);
      k := k + 1;
    }
  }
}
