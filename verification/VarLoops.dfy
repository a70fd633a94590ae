/** When the loop of `Spec._subst_str` (LDMS_Test.py) ends at all: placeholders that
    lead back to themselves, and names without a value. */
module VarLoops {
  import opened Lists
  import opened VarSubst

  // ---- passes as rewriting of tokens ---------------------------------------

  /** What a pass makes of one token. A name without a value leaves nothing. */
  function Image(env: Env, t: Token): seq<Token> {
    match t
    case Ch(_) => [t]
    case Ref(n) => if n in env then Scan(env[n]) else []
  }

  function Images(env: Env, ts: seq<Token>): seq<Token> {
    if ts == [] then [] else Image(env, ts[0]) + Images(env, ts[1..])
  }

  function Iter(env: Env, ts: seq<Token>, k: nat): seq<Token>
    decreases k
  {
    if k == 0 then ts else Iter(env, Images(env, ts), k - 1)
  }

  lemma {:induction false} ImagesConcat(env: Env, a: seq<Token>, b: seq<Token>)
    ensures Images(env, a + b) == Images(env, a) + Images(env, b)
  {
    if a == [] {
      assert a + b == b;
    } else {
      ImagesConcat(env, a[1..], b);
      assert (a + b)[1..] == a[1..] + b;
    }
  }

  lemma {:induction false} IterConcat(env: Env, a: seq<Token>, b: seq<Token>, k: nat)
    ensures Iter(env, a + b, k) == Iter(env, a, k) + Iter(env, b, k)
    decreases k
  {
    if k > 0 {
      ImagesConcat(env, a, b);
      IterConcat(env, Images(env, a), Images(env, b), k - 1);
    }
  }

  lemma {:induction false} IterNext(env: Env, ts: seq<Token>, k: nat)
    ensures Iter(env, ts, k + 1) == Images(env, Iter(env, ts, k))
    decreases k
  {
    if k > 0 {
      IterNext(env, Images(env, ts), k - 1);
    }
  }

  lemma {:induction false} IterNothing(env: Env, k: nat)
    ensures Iter(env, [], k) == []
    decreases k
  {
    if k > 0 {
      IterNothing(env, k - 1);
    }
  }

  lemma ImagesOne(env: Env, t: Token)
    ensures Images(env, [t]) == Image(env, t)
  {
    assert [t][1..] == [];
  }

  /** The string again, from its tokens. */
  function Render(ts: seq<Token>): string {
    if ts == [] then ""
    else (match ts[0] case Ch(c) => [c] case Ref(n) => "%" + (n + "%")) + Render(ts[1..])
  }

  lemma {:induction false} RenderScan(s: string)
    ensures Render(Scan(s)) == s
    decreases |s|
  {
    if s != "" {
      var (n, rest) := NameRun(s[1..]);
      if s[0] == '%' && rest != "" && rest[0] == '%' {
        RenderScan(rest[1..]);
        RenderRef(s, n, rest);
      } else {
        RenderScan(s[1..]);
        RenderChar(s);
      }
    }
  }

  lemma RenderRef(s: string, n: string, rest: string)
    requires s != "" && s[0] == '%' && NameRun(s[1..]) == (n, rest) && rest != "" && rest[0] == '%'
    requires Render(Scan(rest[1..])) == rest[1..]
    ensures Render(Scan(s)) == s
  {
    assert Scan(s)[0] == Ref(n) && Scan(s)[1..] == Scan(rest[1..]);
    assert s == "%" + s[1..] == "%" + (n + rest);
    assert rest == "%" + rest[1..];
    assert "%" + (n + "%") + rest[1..] == "%" + (n + ("%" + rest[1..]));
  }

  lemma RenderChar(s: string)
    requires s != "" && Scan(s) == [Ch(s[0])] + Scan(s[1..]) && Render(Scan(s[1..])) == s[1..]
    ensures Render(Scan(s)) == s
  {
    assert Scan(s)[0] == Ch(s[0]) && Scan(s)[1..] == Scan(s[1..]);
    assert s == [s[0]] + s[1..];
  }

  predicate Defined(env: Env, ts: seq<Token>) {
    forall t | t in ts && t.Ref? :: t.name in env
  }

  lemma {:induction false} PiecesDefined(env: Env, ts: seq<Token>)
    ensures Pieces(ts, env).Some? <==> Defined(env, ts)
  {
    if ts != [] {
      PiecesDefined(env, ts[1..]);
      assert forall t | t in ts :: t == ts[0] || t in ts[1..];
      assert ts[0] in ts && forall t | t in ts[1..] :: t in ts;
    }
  }

  lemma {:induction false} PiecesAreImages(env: Env, ts: seq<Token>, names: set<string>)
    requires Plain(ts) && RefsIn(ts, names) && Tidy(env, names) && Pieces(ts, env).Some?
    ensures Scan(Pieces(ts, env).value) == Images(env, ts)
  {
    if ts != [] {
      assert forall t | t in ts[1..] :: t in ts;
      assert ts[0] in ts;
      PiecesAreImages(env, ts[1..], names);
      var a := Piece(ts[0], env).value;
      if ts[0].Ch? { ScanChar(ts[0].c); }
      ScanConcat(a, Pieces(ts[1..], env).value);
    }
  }

  /** The first `k` passes meet no name without a value. */
  predicate AllDefined(env: Env, ts: seq<Token>, k: nat)
    decreases k
  {
    k > 0 ==> Defined(env, ts) && AllDefined(env, Images(env, ts), k - 1)
  }

  /** Where no stray `%` is met, passes over a string are passes over its tokens. */
  lemma {:induction false} PassesAreImages(env: Env, s: string, k: nat, names: set<string>)
    requires Plain(Scan(s)) && RefsIn(Scan(s), names) && Tidy(env, names)
    ensures Passes(s, env, k).Some? <==> AllDefined(env, Scan(s), k)
    ensures Passes(s, env, k).Some? ==> Scan(Passes(s, env, k).value) == Iter(env, Scan(s), k)
    decreases k
  {
    if k > 0 {
      PiecesDefined(env, Scan(s));
      if Sub(s, env).Some? {
        PassPlain(env, Scan(s), names);
        PiecesAreImages(env, Scan(s), names);
        PassesAreImages(env, Sub(s, env).value, k - 1, names);
      }
    }
  }

  /** One more pass changes no token. */
  predicate Steady(env: Env, ts: seq<Token>, k: nat) {
    Iter(env, ts, k + 1) == Iter(env, ts, k)
  }

  lemma StopsIsSteady(env: Env, s: string, k: nat, names: set<string>)
    requires Plain(Scan(s)) && RefsIn(Scan(s), names) && Tidy(env, names) && Passes(s, env, k + 1).Some?
    ensures Passes(s, env, k).Some?
    ensures Stops(s, env, k) <==> Steady(env, Scan(s), k)
  {
    PassesNext(s, env, k);
    PassesAreImages(env, s, k, names);
    PassesAreImages(env, s, k + 1, names);
    RenderScan(Passes(s, env, k).value);
    RenderScan(Passes(s, env, k + 1).value);
  }

  // ---- chains of references ------------------------------------------------

  /** After `k` passes the string refers to `n`. */
  predicate Refers(env: Env, ts: seq<Token>, n: string, k: nat) {
    Ref(n) in Iter(env, ts, k)
  }

  ghost predicate Reached(env: Env, ts: seq<Token>, n: string) {
    exists k: nat :: Refers(env, ts, n, k)
  }

  ghost predicate MeetsUndefined(env: Env, ts: seq<Token>) {
    exists n :: n !in env && Reached(env, ts, n)
  }

  /** The name leads back to itself. */
  ghost predicate ComesBack(env: Env, n: string) {
    n in env && Reached(env, Scan(env[n]), n)
  }

  /** A chain of `k` references leads from the tokens to one that is `n`. */
  predicate Chain(env: Env, ts: seq<Token>, n: string, k: nat)
    decreases k
  {
    if k == 0 then Ref(n) in ts
    else exists t | t in ts :: t.Ref? && t.name in env && Chain(env, Scan(env[t.name]), n, k - 1)
  }

  lemma ChainConcat(env: Env, a: seq<Token>, b: seq<Token>, n: string, k: nat)
    ensures Chain(env, a + b, n, k) <==> Chain(env, a, n, k) || Chain(env, b, n, k)
  {
    assert forall t :: t in a + b <==> t in a || t in b;
  }

  /** A chain from the images is a chain that is longer by one. */
  lemma {:induction false} ChainNext(env: Env, ts: seq<Token>, n: string, k: nat)
    ensures Chain(env, ts, n, k + 1) <==> Chain(env, Images(env, ts), n, k)
    decreases |ts|
  {
    if ts != [] {
      ChainNext(env, ts[1..], n, k);
      ChainConcat(env, Image(env, ts[0]), Images(env, ts[1..]), n, k);
      ChainConcat(env, [ts[0]], ts[1..], n, k + 1);
      assert ts == [ts[0]] + ts[1..];
      ChainFromOne(env, ts[0], n, k);
    } else if k > 0 {
      assert Images(env, ts) == [];
    }
  }

  lemma ChainFromOne(env: Env, t: Token, n: string, k: nat)
    ensures Chain(env, [t], n, k + 1) <==> Chain(env, Image(env, t), n, k)
  {
    assert t in [t];
  }

  /** After `k` passes the string refers to the names at the end of chains of length
      `k`, and to no other. */
  lemma {:induction false} RefersExactly(env: Env, ts: seq<Token>, n: string, k: nat)
    ensures Refers(env, ts, n, k) <==> Chain(env, ts, n, k)
    decreases k
  {
    if k > 0 {
      ChainNext(env, ts, n, k - 1);
      RefersExactly(env, Images(env, ts), n, k - 1);
    }
  }

  lemma {:induction false} DefinedAt(env: Env, ts: seq<Token>, k: nat, i: nat)
    requires AllDefined(env, ts, k) && i < k
    ensures Defined(env, Iter(env, ts, i))
    decreases k
  {
    if i > 0 {
      DefinedAt(env, Images(env, ts), k - 1, i - 1);
    }
  }

  lemma {:induction false} UndefinedAt(env: Env, ts: seq<Token>, k: nat) returns (i: nat, n: string)
    requires !AllDefined(env, ts, k)
    ensures i < k && n !in env && Ref(n) in Iter(env, ts, i)
    decreases k
  {
    if Defined(env, ts) {
      i, n := UndefinedAt(env, Images(env, ts), k - 1);
      i := i + 1;
    } else {
      var t :| t in ts && t.Ref? && t.name !in env;
      i, n := 0, t.name;
    }
  }

  ghost predicate Raises(s: string, env: Env) {
    exists k: nat :: Passes(s, env, k).None?
  }

  lemma UndefinedRaises(env: Env, s: string, n: string, k: nat, names: set<string>)
    requires Plain(Scan(s)) && RefsIn(Scan(s), names) && Tidy(env, names)
    requires n !in env && Refers(env, Scan(s), n, k)
    ensures Passes(s, env, k + 1).None?
  {
    PassesAreImages(env, s, k + 1, names);
    if AllDefined(env, Scan(s), k + 1) {
      DefinedAt(env, Scan(s), k + 1, k);
    }
  }

  /** Some pass raises if and only if a chain of references leads to a name without a
      value. */
  lemma RaisesExactly(env: Env, s: string, names: set<string>)
    requires Plain(Scan(s)) && RefsIn(Scan(s), names) && Tidy(env, names)
    ensures Raises(s, env) <==> MeetsUndefined(env, Scan(s))
  {
    if Raises(s, env) {
      var k: nat :| Passes(s, env, k).None?;
      PassesAreImages(env, s, k, names);
      var i, n := UndefinedAt(env, Scan(s), k);
      assert Refers(env, Scan(s), n, i);
    }
    if MeetsUndefined(env, Scan(s)) {
      var n :| n !in env && Reached(env, Scan(s), n);
      var k: nat :| Refers(env, Scan(s), n, k);
      UndefinedRaises(env, s, n, k, names);
    }
  }

  // ---- what comes to nothing -----------------------------------------------

  /** Some pass leaves nothing of the tokens. */
  ghost predicate Vanishes(env: Env, ts: seq<Token>) {
    exists k: nat :: Iter(env, ts, k) == []
  }

  predicate EmptyValue(env: Env, ts: seq<Token>, k: nat) {
    Ground(env, ts, k) && Eval(env, ts, k) == ""
  }

  lemma EmptyCons(env: Env, ts: seq<Token>, k: nat)
    requires ts != []
    ensures EmptyValue(env, ts, k) <==> EmptyValue(env, ts[1..], k) && EmptyToken(env, ts[0], k)
  {
  }

  predicate EmptyToken(env: Env, t: Token, k: nat) {
    match t
    case Ch(_) => false
    case Ref(n) => n != "" && k > 0 && n in env && EmptyValue(env, Scan(env[n]), k - 1)
  }

  /** Where every name has a value: what comes to nothing resolves, and evaluates to
      the empty string, within as many levels as it takes passes. */
  lemma {:induction false} VanishesExactly(env: Env, ts: seq<Token>, k: nat, names: set<string>)
    requires Plain(ts) && RefsIn(ts, names) && Tidy(env, names) && names <= env.Keys
    ensures Iter(env, ts, k) == [] <==> EmptyValue(env, ts, k)
    decreases k, |ts|
  {
    if ts == [] {
      IterNothing(env, k);
    } else {
      assert ts[0] in ts && forall t | t in ts[1..] :: t in ts;
      EmptyCons(env, ts, k);
      VanishesExactly(env, ts[1..], k, names);
      TokenVanishes(env, ts[0], k, names);
      assert ts == [ts[0]] + ts[1..];
      IterConcat(env, [ts[0]], ts[1..], k);
    }
  }

  lemma {:induction false} TokenVanishes(env: Env, t: Token, k: nat, names: set<string>)
    requires (t.Ref? ==> t.name in names) && Tidy(env, names) && names <= env.Keys
    ensures Iter(env, [t], k) == [] <==> EmptyToken(env, t, k)
    decreases k, 0
  {
    ImagesOne(env, t);
    if t.Ch? {
      CharStays(env, t.c, k);
    } else if k > 0 {
      VanishesExactly(env, Scan(env[t.name]), k - 1, names);
    }
  }

  lemma {:induction false} CharStays(env: Env, c: char, k: nat)
    ensures Iter(env, [Ch(c)], k) == [Ch(c)]
    decreases k
  {
    ImagesOne(env, Ch(c));
    if k > 0 {
      CharStays(env, c, k - 1);
    }
  }

  lemma {:induction false} VanishedStays(env: Env, ts: seq<Token>, k: nat, j: nat)
    requires Iter(env, ts, k) == [] && k <= j
    ensures Iter(env, ts, j) == []
    decreases j
  {
    if k < j {
      VanishedStays(env, ts, k, j - 1);
      IterNext(env, ts, j - 1);
    }
  }

  /** Tokens come to nothing when each of them does. */
  lemma {:induction false} VanishesEach(env: Env, ts: seq<Token>)
    ensures Vanishes(env, ts) <==> forall t | t in ts :: Vanishes(env, [t])
  {
    if ts == [] {
      assert Iter(env, ts, 0) == [];
    } else {
      VanishesBoth(env, [ts[0]], ts[1..]);
      VanishesEach(env, ts[1..]);
      assert ts == [ts[0]] + ts[1..];
      assert forall t :: t in ts <==> t == ts[0] || t in ts[1..];
    }
  }

  lemma VanishesBoth(env: Env, a: seq<Token>, b: seq<Token>)
    ensures Vanishes(env, a + b) <==> Vanishes(env, a) && Vanishes(env, b)
  {
    if Vanishes(env, a + b) {
      var k: nat :| Iter(env, a + b, k) == [];
      IterConcat(env, a, b, k);
    }
    if Vanishes(env, a) && Vanishes(env, b) {
      var j: nat :| Iter(env, a, j) == [];
      var k: nat :| Iter(env, b, k) == [];
      VanishedStays(env, a, j, j + k);
      VanishedStays(env, b, k, j + k);
      IterConcat(env, a, b, j + k);
    }
  }

  lemma VanishesNext(env: Env, t: Token)
    ensures Vanishes(env, [t]) <==> Vanishes(env, Image(env, t))
  {
    ImagesOne(env, t);
    if Vanishes(env, [t]) {
      var k: nat :| Iter(env, [t], k) == [];
      assert Iter(env, Image(env, t), k - 1) == [];
    }
    if Vanishes(env, Image(env, t)) {
      var k: nat :| Iter(env, Image(env, t), k) == [];
      assert Iter(env, [t], k + 1) == [];
    }
  }

  lemma {:induction false} IterTwice(env: Env, ts: seq<Token>, j: nat, k: nat)
    ensures Iter(env, Iter(env, ts, j), k) == Iter(env, ts, j + k)
    decreases j
  {
    if j > 0 {
      IterTwice(env, Images(env, ts), j - 1, k);
    }
  }

  lemma IterInside(env: Env, ts: seq<Token>, t: Token, x: Token, k: nat)
    requires t in ts && x in Iter(env, [t], k)
    ensures x in Iter(env, ts, k)
  {
    var i :| 0 <= i < |ts| && ts[i] == t;
    SplitAt(ts, i);
    IterConcat(env, ts[..i], [t] + ts[i + 1..], k);
    IterConcat(env, [t], ts[i + 1..], k);
  }

  // ---- what stays ----------------------------------------------------------

  /** The tokens that never come to nothing. */
  ghost function Lasting(env: Env, ts: seq<Token>): seq<Token> {
    if ts == [] then []
    else (if Vanishes(env, [ts[0]]) then [] else [ts[0]]) + Lasting(env, ts[1..])
  }

  lemma {:induction false} LastingConcat(env: Env, a: seq<Token>, b: seq<Token>)
    ensures Lasting(env, a + b) == Lasting(env, a) + Lasting(env, b)
  {
    if a == [] {
      assert a + b == b;
    } else {
      LastingConcat(env, a[1..], b);
      assert (a + b)[1..] == a[1..] + b;
    }
  }

  lemma {:induction false} NoneLasting(env: Env, ts: seq<Token>)
    ensures Lasting(env, ts) == [] <==> Vanishes(env, ts)
  {
    VanishesEach(env, ts);
    if ts != [] {
      NoneLasting(env, ts[1..]);
      VanishesEach(env, ts[1..]);
      assert forall t :: t in ts <==> t == ts[0] || t in ts[1..];
    }
  }

  lemma {:induction false} LastingGrows(env: Env, ts: seq<Token>)
    ensures |Lasting(env, Images(env, ts))| >= |Lasting(env, ts)|
  {
    if ts != [] {
      LastingGrows(env, ts[1..]);
      LastingConcat(env, Image(env, ts[0]), Images(env, ts[1..]));
      VanishesNext(env, ts[0]);
      NoneLasting(env, Image(env, ts[0]));
    }
  }

  /** If a pass changes none of the lasting tokens, each of them is the only lasting
      one of its own image. */
  lemma {:induction false} LastingInPlace(env: Env, ts: seq<Token>)
    requires Lasting(env, Images(env, ts)) == Lasting(env, ts)
    ensures forall t | t in ts && !Vanishes(env, [t]) :: Lasting(env, Image(env, t)) == [t]
  {
    if ts != [] {
      var x, rest := ts[0], ts[1..];
      LastingGrows(env, rest);
      LastingConcat(env, Image(env, x), Images(env, rest));
      VanishesNext(env, x);
      NoneLasting(env, Image(env, x));
      HeadInPlace(Lasting(env, Image(env, x)), Lasting(env, Images(env, rest)), Lasting(env, rest),
                  if Vanishes(env, [x]) then [] else [x]);
      LastingInPlace(env, rest);
      assert forall t | t in ts :: t == x || t in rest;
    }
  }

  lemma HeadInPlace<T>(a: seq<T>, b: seq<T>, rest: seq<T>, head: seq<T>)
    requires a + b == head + rest && |b| >= |rest| && |head| <= |a|
    ensures a == head && b == rest
  {
    assert |a + b| == |head + rest|;
    assert (a + b)[..|a|] == a && (head + rest)[..|head|] == head;
    assert (a + b)[|a|..] == b && (head + rest)[|head|..] == rest;
  }

  /** The value of `n` has `n` itself at place `i`, and the rest comes to nothing. */
  ghost predicate OnlyItselfAt(env: Env, n: string, i: nat)
    requires n in env
  {
    var ts := Scan(env[n]);
    i < |ts| && ts[i] == Ref(n) && Vanishes(env, ts[..i]) && Vanishes(env, ts[i + 1..])
  }

  /** The name refers to itself directly, once, and to nothing else that lasts. */
  ghost predicate OnlyItself(env: Env, n: string) {
    n in env && exists i: nat :: OnlyItselfAt(env, n, i)
  }

  lemma {:induction false} OnlyLasting(env: Env, ts: seq<Token>, x: Token) returns (i: nat)
    requires Lasting(env, ts) == [x]
    ensures i < |ts| && ts[i] == x && Vanishes(env, ts[..i]) && Vanishes(env, ts[i + 1..])
  {
    if Vanishes(env, [ts[0]]) {
      i := OnlyLasting(env, ts[1..], x);
      VanishesBoth(env, [ts[0]], ts[1..][..i]);
      assert ts[..i + 1] == [ts[0]] + ts[1..][..i];
      assert ts[1..][i + 1..] == ts[i + 2..] && ts[1..][i] == ts[i + 1];
      i := i + 1;
    } else {
      i := 0;
      HeadInPlace([ts[0]], Lasting(env, ts[1..]), [], [x]);
      NoneLasting(env, ts[1..]);
      assert Iter(env, ts[..0], 0) == [];
    }
  }

  // ---- when the loop ends --------------------------------------------------

  /** Every name that is reached and leads back to itself does so directly and once,
      and the rest of its value comes to nothing. */
  ghost predicate OnlyDirectLoops(env: Env, ts: seq<Token>) {
    forall n | Reached(env, ts, n) && ComesBack(env, n) :: OnlyItself(env, n)
  }

  lemma {:induction false} SteadyFrom(env: Env, ts: seq<Token>, j: nat, k: nat)
    requires Steady(env, ts, j) && j <= k
    ensures Steady(env, ts, k) && Iter(env, ts, k) == Iter(env, ts, j)
    decreases k
  {
    if j < k {
      SteadyFrom(env, ts, j, k - 1);
      IterNext(env, ts, k - 1);
      IterNext(env, ts, k);
    }
  }

  lemma IterOn(env: Env, ts: seq<Token>, t: Token, x: Token, j: nat, k: nat)
    requires t in Iter(env, ts, j) && x in Iter(env, Image(env, t), k)
    ensures x in Iter(env, ts, j + k + 1)
  {
    ImagesOne(env, t);
    IterInside(env, Iter(env, ts, j), t, x, k + 1);
    IterTwice(env, ts, j, k + 1);
  }

  /** Chains join where one ends and the other starts. */
  lemma RefersOn(env: Env, ts: seq<Token>, n: string, m: string, j: nat, k: nat)
    requires n in env && Refers(env, ts, n, j) && Refers(env, Scan(env[n]), m, k)
    ensures Refers(env, ts, m, j + k + 1)
  {
    IterOn(env, ts, Ref(n), Ref(m), j, k);
  }

  lemma {:induction false} RefersLate(env: Env, ts: seq<Token>, n: string, j: nat, k: nat, late: nat) returns (i: nat)
    requires n in env && Refers(env, ts, n, j) && Refers(env, Scan(env[n]), n, k)
    ensures i >= late && Refers(env, ts, n, i)
    decreases late - j
  {
    if j >= late {
      i := j;
    } else {
      RefersOn(env, ts, n, n, j, k);
      i := RefersLate(env, ts, n, j + k + 1, k, late);
    }
  }

  /** A name that leads back to itself never goes. */
  lemma LoopsLast(env: Env, n: string)
    requires ComesBack(env, n)
    ensures !Vanishes(env, [Ref(n)])
  {
    var k: nat :| Refers(env, Scan(env[n]), n, k);
    forall j: nat ensures Iter(env, [Ref(n)], j) != [] {
      assert Refers(env, [Ref(n)], n, 0);
      var i := RefersLate(env, [Ref(n)], n, 0, k, j);
      if Iter(env, [Ref(n)], j) == [] {
        VanishedStays(env, [Ref(n)], j, i);
      }
    }
  }

  lemma SteadyLoopsAreDirect(env: Env, ts: seq<Token>, k: nat)
    requires Steady(env, ts, k)
    ensures OnlyDirectLoops(env, ts)
  {
    var x := Iter(env, ts, k);
    IterNext(env, ts, k);
    LastingInPlace(env, x);
    forall n | Reached(env, ts, n) && ComesBack(env, n) ensures OnlyItself(env, n) {
      var j: nat :| Refers(env, ts, n, j);
      var p: nat :| Refers(env, Scan(env[n]), n, p);
      var i := RefersLate(env, ts, n, j, p, k);
      SteadyFrom(env, ts, k, i);
      LoopsLast(env, n);
      var at := OnlyLasting(env, Scan(env[n]), Ref(n));
      assert OnlyItselfAt(env, n, at);
    }
  }

  lemma SteadyConcat(env: Env, a: seq<Token>, b: seq<Token>, j: nat, k: nat)
    requires Steady(env, a, j) && Steady(env, b, k)
    ensures Steady(env, a + b, j + k)
  {
    SteadyFrom(env, a, j, j + k);
    SteadyFrom(env, b, k, j + k);
    IterConcat(env, a, b, j + k);
    IterConcat(env, a, b, j + k + 1);
  }

  lemma BesideNothing(env: Env, t: Token, u: seq<Token>, v: seq<Token>, k: nat)
    requires Image(env, t) == u + ([t] + v) && Iter(env, u, k) == [] && Iter(env, v, k) == []
    ensures Steady(env, [t], k)
  {
    ImagesOne(env, t);
    IterConcat(env, u, [t] + v, k);
    IterConcat(env, [t], v, k);
  }

  /** A name that stands for itself and for what comes to nothing grows no more once
      that is gone. */
  lemma DirectLoopSteady(env: Env, n: string) returns (k: nat)
    requires OnlyItself(env, n)
    ensures Steady(env, [Ref(n)], k)
  {
    var i: nat :| OnlyItselfAt(env, n, i);
    var u, v := Scan(env[n])[..i], Scan(env[n])[i + 1..];
    var a: nat :| Iter(env, u, a) == [];
    var b: nat :| Iter(env, v, b) == [];
    k := a + b;
    VanishedStays(env, u, a, k);
    VanishedStays(env, v, b, k);
    SplitAt(Scan(env[n]), i);
    BesideNothing(env, Ref(n), u, v, k);
  }

  /** Whatever the second list refers to is reached from the first. */
  ghost predicate Leads(env: Env, from: seq<Token>, ts: seq<Token>) {
    forall t | t in ts && t.Ref? :: Reached(env, from, t.name)
  }

  ghost predicate LeadsFrom(env: Env, m: string, ts: seq<Token>) {
    m in env && Leads(env, Scan(env[m]), ts)
  }

  ghost predicate AllLead(env: Env, seen: set<string>, ts: seq<Token>) {
    forall m | m in seen :: LeadsFrom(env, m, ts)
  }

  lemma LeadsOn(env: Env, from: seq<Token>, n: string)
    requires n in env && Leads(env, from, [Ref(n)])
    ensures Leads(env, from, Scan(env[n]))
  {
    assert Ref(n) in [Ref(n)];
    var k: nat :| Refers(env, from, n, k);
    forall t | t in Scan(env[n]) && t.Ref? ensures Reached(env, from, t.name) {
      RefersOn(env, from, n, t.name, k, 0);
    }
  }

  lemma LeadsPart(env: Env, from: seq<Token>, ts: seq<Token>, part: seq<Token>)
    requires Leads(env, from, ts) && forall t | t in part :: t in ts
    ensures Leads(env, from, part)
  {
  }

  lemma AllLeadPart(env: Env, seen: set<string>, ts: seq<Token>, part: seq<Token>)
    requires AllLead(env, seen, ts) && forall t | t in part :: t in ts
    ensures AllLead(env, seen, part)
  {
    forall m | m in seen ensures LeadsFrom(env, m, part) {
      assert LeadsFrom(env, m, ts);
      LeadsPart(env, Scan(env[m]), ts, part);
    }
  }

  lemma AllLeadOn(env: Env, seen: set<string>, n: string)
    requires n in env && AllLead(env, seen, [Ref(n)])
    ensures AllLead(env, seen + {n}, Scan(env[n]))
  {
    forall m | m in seen + {n} ensures LeadsFrom(env, m, Scan(env[n])) {
      if m in seen {
        assert LeadsFrom(env, m, [Ref(n)]);
        LeadsOn(env, Scan(env[m]), n);
      } else {
        LeadsNext(env, Scan(env[n]));
      }
    }
  }

  lemma LeadsNext(env: Env, ts: seq<Token>)
    ensures Leads(env, ts, ts)
  {
    forall t | t in ts && t.Ref? ensures Reached(env, ts, t.name) {
      assert Refers(env, ts, t.name, 0);
    }
  }

  lemma SeenComesBack(env: Env, seen: set<string>, n: string)
    requires AllLead(env, seen, [Ref(n)]) && n in seen
    ensures ComesBack(env, n)
  {
    assert Ref(n) in [Ref(n)];
    assert LeadsFrom(env, n, [Ref(n)]);
  }

  /** `seen` are the names on the way here from the string. */
  lemma {:induction false} DirectLoopsSteady(env: Env, all: seq<Token>, ts: seq<Token>, seen: set<string>)
    returns (k: nat)
    requires OnlyDirectLoops(env, all) && Leads(env, all, ts) && AllLead(env, seen, ts)
    ensures Steady(env, ts, k)
    decreases env.Keys - seen, |ts|
  {
    if ts == [] {
      k := 0;
    } else {
      var x, rest := [ts[0]], ts[1..];
      assert ts == x + rest;
      LeadsPart(env, all, ts, x);
      LeadsPart(env, all, ts, rest);
      AllLeadPart(env, seen, ts, x);
      AllLeadPart(env, seen, ts, rest);
      var a := TokenSteady(env, all, ts[0], seen);
      var b := DirectLoopsSteady(env, all, rest, seen);
      SteadyConcat(env, x, rest, a, b);
      k := a + b;
    }
  }

  lemma {:induction false} TokenSteady(env: Env, all: seq<Token>, t: Token, seen: set<string>) returns (k: nat)
    requires OnlyDirectLoops(env, all) && Leads(env, all, [t]) && AllLead(env, seen, [t])
    ensures Steady(env, [t], k)
    decreases env.Keys - seen, 0
  {
    ImagesOne(env, t);
    if t.Ref? && t.name in seen {
      SeenComesBack(env, seen, t.name);
    }
    if t.Ch? {
      k := 0;
    } else if t.name !in env {
      k := 1;
    } else if ComesBack(env, t.name) {
      k := DirectLoopSteady(env, t.name);
    } else {
      LeadsOn(env, all, t.name);
      AllLeadOn(env, seen, t.name);
      k := DirectLoopsSteady(env, all, Scan(env[t.name]), seen + {t.name});
      k := k + 1;
    }
  }

  ghost predicate Ends(s: string, env: Env) {
    exists k: nat :: Stops(s, env, k)
  }

  /** When no stray `%` can be met from the string: some pass raises, or the loop
      returns, or it goes on for ever, and which of them is told by the references. It
      returns if and only if every name that is reached has a value and every name
      that leads back to itself does so directly and once, with the rest of its value
      coming to nothing. */
  lemma ReturnsExactly(env: Env, s: string, names: set<string>)
    requires Plain(Scan(s)) && RefsIn(Scan(s), names) && Tidy(env, names)
    ensures Returns(s, env) <==> !MeetsUndefined(env, Scan(s)) && OnlyDirectLoops(env, Scan(s))
    ensures Ends(s, env) <==> MeetsUndefined(env, Scan(s)) || OnlyDirectLoops(env, Scan(s))
  {
    RaisesExactly(env, s, names);
    if Raises(s, env) {
      var k: nat :| Passes(s, env, k).None?;
      assert Stops(s, env, k);
      forall j: nat ensures !(Stops(s, env, j) && Passes(s, env, j).Some?) {
        if Stops(s, env, j) {
          StopsOnce(s, env, j, k);
        }
      }
    } else {
      forall k: nat ensures Stops(s, env, k) <==> Steady(env, Scan(s), k) {
        StopsIsSteady(env, s, k, names);
      }
      SteadyExactly(env, Scan(s));
    }
  }

  ghost predicate Settling(env: Env, ts: seq<Token>) {
    exists k: nat :: Steady(env, ts, k)
  }

  lemma SteadyExactly(env: Env, ts: seq<Token>)
    ensures Settling(env, ts) <==> OnlyDirectLoops(env, ts)
  {
    if Settling(env, ts) {
      var k: nat :| Steady(env, ts, k);
      SteadyLoopsAreDirect(env, ts, k);
    }
    if OnlyDirectLoops(env, ts) {
      LeadsNext(env, ts);
      var k := DirectLoopsSteady(env, ts, ts, {});
    }
  }
}
