/** `Spec` as a whole (LDMS_Test.py): expansion, then substitution in the scope
    of the enclosing objects. */
module SpecLang {
  import opened Options
  import opened VarSubst
  import opened SpecExpand

  const TEMPLATES := "templates"

  // ---- scopes --------------------------------------------------------------

  predicate Primitive(v: Value) {
    v.Scalar? || v.Text?
  }

  /** The primitive attributes of an object, as `str()` prints them. */
  function Prims(d: Object): Env {
    map k | k in d && Primitive(d[k]) :: d[k].text
  }

  /** The variable table inside nested objects, outermost first. */
  function Scope(outer: Env, objs: seq<Object>): Env
    decreases |objs|
  {
    if objs == [] then outer else Scope(outer + Prims(objs[0]), objs[1..])
  }

  /** A name means what the nearest enclosing object says. */
  lemma {:induction false} ScopeIsNearest(outer: Env, objs: seq<Object>, n: string, i: nat)
    requires i < |objs| && n in objs[i] && Primitive(objs[i][n])
    requires forall j | i < j < |objs| :: !(n in objs[j] && Primitive(objs[j][n]))
    ensures n in Scope(outer, objs) && Scope(outer, objs)[n] == objs[i][n].text
    decreases |objs|
  {
    if i == 0 {
      ScopeUntouched(outer + Prims(objs[0]), objs[1..], n);
    } else {
      ScopeIsNearest(outer + Prims(objs[0]), objs[1..], n, i - 1);
    }
  }

  lemma {:induction false} ScopeUntouched(outer: Env, objs: seq<Object>, n: string)
    requires forall j | 0 <= j < |objs| :: !(n in objs[j] && Primitive(objs[j][n]))
    ensures n in Scope(outer, objs) <==> n in outer
    ensures n in outer ==> Scope(outer, objs)[n] == outer[n]
    decreases |objs|
  {
    if objs != [] {
      assert n !in Prims(objs[0]);
      ScopeUntouched(outer + Prims(objs[0]), objs[1..], n);
    }
  }

  // ---- substitution --------------------------------------------------------

  /** The loop comes back for every string in the value, in the scope where it
      stands. */
  ghost predicate Closed(v: Value, env: Env)
    decreases v
  {
    match v
    case Scalar(_, _) => true
    case Text(s) => Returns(s, env)
    case List(s) => forall x | x in s :: Closed(x, env)
    case Tuple(s) => forall x | x in s :: Closed(x, env)
    case Dict(d) => forall k | k in d :: Closed(d[k], env + Prims(d))
  }

  /** What a string comes to. */
  ghost function Meaning(env: Env, s: string): string
    requires Returns(s, env)
  {
    var k: nat :| Stops(s, env, k) && Passes(s, env, k).Some?;
    Passes(s, env, k).value
  }

  lemma MeaningIs(env: Env, s: string, k: nat)
    requires Stops(s, env, k) && Passes(s, env, k).Some?
    ensures Some(Meaning(env, s)) == Passes(s, env, k)
  {
    var j: nat :| Stops(s, env, j) && Passes(s, env, j).Some? && Meaning(env, s) == Passes(s, env, j).value;
    StopsOnce(s, env, j, k);
  }

  /** The loop leaves no placeholder if and only if some number of passes leaves
      none. */
  lemma MeaningSettles(env: Env, s: string)
    requires Returns(s, env)
    ensures NoRefs(Scan(Meaning(env, s))) <==> SettlesAtAll(s, env)
  {
    var j: nat :| Stops(s, env, j) && Passes(s, env, j).Some? && Meaning(env, s) == Passes(s, env, j).value;
    if SettlesAtAll(s, env) {
      var k: nat :| Settles(s, env, k);
      SettlesStops(s, env, k);
      MeaningIs(env, s, k);
    } else {
      assert !Settles(s, env, j);
    }
  }

  /** In a scope where the references of a string are closed and acyclic, it is
      closed and comes to its recursive evaluation. */
  lemma AcyclicClosed(env: Env, s: string)
    requires ClosedAcyclic(env, Scan(s))
    ensures Closed(Text(s), env) && SettlesAtAll(s, env)
    ensures exists k: nat :: Ground(env, Scan(s), k) && Meaning(env, s) == Eval(env, Scan(s), k)
  {
    ResolvesExactly(env, Scan(s));
    var k: nat :| Ground(env, Scan(s), k);
    GroundSettles(env, s, k);
    SettlesStops(s, env, k);
    MeaningIs(env, s, k);
  }

  /** `_subst` */
  ghost function Subst(v: Value, env: Env): Value
    requires Closed(v, env)
    decreases v, 0
  {
    match v
    case Scalar(_, _) => v
    case Text(s) => Text(Meaning(env, s))
    case List(s) => List(SubstItems(s, env))
    case Tuple(s) => Tuple(SubstItems(s, env))
    case Dict(d) => Dict(map k | k in d :: Subst(d[k], env + Prims(d)))
  }

  ghost function SubstItems(s: seq<Value>, env: Env): (r: seq<Value>)
    requires forall x | x in s :: Closed(x, env)
    ensures |r| == |s| && forall i | 0 <= i < |s| :: r[i] == Subst(s[i], env)
    decreases s, 1
  {
    if s == [] then [] else [Subst(s[0], env)] + SubstItems(s[1..], env)
  }

  /** No placeholder is left. */
  ghost predicate Resolved(v: Value)
    decreases v
  {
    match v
    case Scalar(_, _) => true
    case Text(s) => NoRefs(Scan(s))
    case List(s) => forall x | x in s :: Resolved(x)
    case Tuple(s) => forall x | x in s :: Resolved(x)
    case Dict(d) => forall k | k in d :: Resolved(d[k])
  }

  /** No string of the value keeps a placeholder, in the scope where it stands. */
  ghost predicate Settled(v: Value, env: Env)
    decreases v
  {
    match v
    case Scalar(_, _) => true
    case Text(s) => SettlesAtAll(s, env)
    case List(s) => forall x | x in s :: Settled(x, env)
    case Tuple(s) => forall x | x in s :: Settled(x, env)
    case Dict(d) => forall k | k in d :: Settled(d[k], env + Prims(d))
  }

  /** Nothing is left to resolve if and only if every string settles. */
  lemma {:induction false} SubstResolves(v: Value, env: Env)
    requires Closed(v, env)
    ensures Resolved(Subst(v, env)) <==> Settled(v, env)
    decreases v
  {
    match v
    case Scalar(_, _) =>
    case Text(s) => MeaningSettles(env, s);
    case List(s) => ItemsResolve(v, env);
    case Tuple(s) => ItemsResolve(v, env);
    case Dict(d) =>
      var r := Subst(v, env).attrs;
      forall k | k in d ensures Resolved(r[k]) <==> Settled(d[k], env + Prims(d)) {
        SubstResolves(d[k], env + Prims(d));
      }
  }

  lemma {:induction false} ItemsResolve(v: Value, env: Env)
    requires (v.List? || v.Tuple?) && Closed(v, env)
    ensures (forall x | x in Subst(v, env).items :: Resolved(x)) <==> forall x | x in v.items :: Settled(x, env)
    decreases v, 0
  {
    var s, r := v.items, Subst(v, env).items;
    forall i | 0 <= i < |s| ensures Resolved(r[i]) <==> Settled(s[i], env) {
      SubstResolves(s[i], env);
    }
    assert forall i | 0 <= i < |s| :: s[i] in s && r[i] in r;
  }

  /** What settles can be substituted. */
  lemma {:induction false} SettledCloses(v: Value, env: Env)
    requires Settled(v, env)
    ensures Closed(v, env)
    decreases v
  {
    match v
    case Scalar(_, _) =>
    case Text(s) =>
      var k: nat :| Settles(s, env, k);
      SettlesStops(s, env, k);
    case List(s) => forall x | x in s ensures Closed(x, env) { SettledCloses(x, env); }
    case Tuple(s) => forall x | x in s ensures Closed(x, env) { SettledCloses(x, env); }
    case Dict(d) => forall k | k in d ensures Closed(d[k], env + Prims(d)) { SettledCloses(d[k], env + Prims(d)); }
  }

  /** A value without placeholders means itself, in any scope. */
  lemma {:induction false} SubstFixed(v: Value, env: Env)
    requires Resolved(v)
    ensures Closed(v, env) && Subst(v, env) == v
    decreases v
  {
    match v
    case Scalar(_, _) =>
    case Text(s) =>
      NoRefsFixed(env, s);
      assert Stops(s, env, 0);
      MeaningIs(env, s, 0);
    case List(s) =>
      forall i | 0 <= i < |s| ensures Closed(s[i], env) && Subst(s[i], env) == s[i] { SubstFixed(s[i], env); }
      assert SubstItems(s, env) == s;
    case Tuple(s) =>
      forall i | 0 <= i < |s| ensures Closed(s[i], env) && Subst(s[i], env) == s[i] { SubstFixed(s[i], env); }
      assert SubstItems(s, env) == s;
    case Dict(d) =>
      forall k | k in d ensures Closed(d[k], env + Prims(d)) && Subst(d[k], env + Prims(d)) == d[k] {
        SubstFixed(d[k], env + Prims(d));
      }
      assert Subst(v, env).attrs == d;
  }

  /** Substitution changes strings only, so what is expanded stays expanded. */
  lemma {:induction false} SubstKeepsExpanded(v: Value, env: Env, lvl: nat)
    requires Closed(v, env) && Expanded(v, lvl)
    ensures Expanded(Subst(v, env), lvl)
    decreases v
  {
    match v
    case Scalar(_, _) =>
    case Text(s) =>
    case List(s) =>
      forall i | 0 <= i < |s| ensures Expanded(Subst(s[i], env), lvl + 1) {
        assert s[i] in s;
        SubstKeepsExpanded(s[i], env, lvl + 1);
      }
    case Tuple(s) =>
      forall i | 0 <= i < |s| ensures Expanded(Subst(s[i], env), lvl + 1) {
        assert s[i] in s;
        SubstKeepsExpanded(s[i], env, lvl + 1);
      }
    case Dict(d) =>
      forall k | k in d ensures Expanded(Subst(d[k], env + Prims(d)), lvl + 1) {
        SubstKeepsExpanded(d[k], env + Prims(d), lvl + 1);
      }
  }

  // ---- any place in the spec -----------------------------------------------

  datatype Step = Attr(name: string) | Item(index: nat)

  /** What stands at the end of a path, and the objects around it. */
  predicate Leads(v: Value, path: seq<Step>)
    decreases |path|
  {
    path == [] ||
    match path[0]
    case Attr(k) => v.Dict? && k in v.attrs && Leads(v.attrs[k], path[1..])
    case Item(i) => (v.List? || v.Tuple?) && i < |v.items| && Leads(v.items[i], path[1..])
  }

  function At(v: Value, path: seq<Step>): Value
    requires Leads(v, path)
    decreases |path|
  {
    if path == [] then v
    else
      match path[0]
      case Attr(k) => At(v.attrs[k], path[1..])
      case Item(i) => At(v.items[i], path[1..])
  }

  function Around(v: Value, path: seq<Step>): seq<Object>
    requires Leads(v, path)
    decreases |path|
  {
    if path == [] then []
    else
      match path[0]
      case Attr(k) => [v.attrs] + Around(v.attrs[k], path[1..])
      case Item(i) => Around(v.items[i], path[1..])
  }

  /** Wherever a value stands, it is replaced by its meaning in the scope of the
      objects around it, nearest winning. */
  lemma {:induction false} SubstAt(v: Value, env: Env, path: seq<Step>)
    requires Closed(v, env) && Leads(v, path)
    ensures Leads(Subst(v, env), path)
    ensures Closed(At(v, path), Scope(env, Around(v, path)))
    ensures At(Subst(v, env), path) == Subst(At(v, path), Scope(env, Around(v, path)))
    decreases |path|
  {
    if path != [] {
      match path[0]
      case Attr(k) =>
        SubstAt(v.attrs[k], env + Prims(v.attrs), path[1..]);
        assert Around(v, path)[1..] == Around(v.attrs[k], path[1..]);
      case Item(i) =>
        SubstAt(v.items[i], env, path[1..]);
    }
  }

  /** Every string settles in the scope of the objects around it. */
  ghost predicate TextsSettle(v: Value, env: Env) {
    forall path | Leads(v, path) && At(v, path).Text? ::
      SettlesAtAll(At(v, path).text, Scope(env, Around(v, path)))
  }

  lemma PathIn(v: Value, env: Env, step: Step, path: seq<Step>)
    requires Leads(v, [step] + path)
    ensures var w := if step.Attr? then v.attrs[step.name] else v.items[step.index];
            var inner := if step.Attr? then env + Prims(v.attrs) else env;
            && Leads(w, path) && At(v, [step] + path) == At(w, path)
            && Scope(env, Around(v, [step] + path)) == Scope(inner, Around(w, path))
  {
    assert ([step] + path)[1..] == path;
    if step.Attr? {
      assert Around(v, [step] + path)[1..] == Around(v.attrs[step.name], path);
    }
  }

  lemma TextsSettleIn(v: Value, env: Env, step: Step)
    requires TextsSettle(v, env) && Leads(v, [step])
    ensures var w := if step.Attr? then v.attrs[step.name] else v.items[step.index];
            TextsSettle(w, if step.Attr? then env + Prims(v.attrs) else env)
  {
    var w := if step.Attr? then v.attrs[step.name] else v.items[step.index];
    var inner := if step.Attr? then env + Prims(v.attrs) else env;
    forall path | Leads(w, path) && At(w, path).Text?
      ensures SettlesAtAll(At(w, path).text, Scope(inner, Around(w, path)))
    {
      assert ([step] + path)[0] == step && ([step] + path)[1..] == path;
      assert Leads(v, [step] + path);
      PathIn(v, env, step, path);
    }
  }

  lemma {:induction false} SettledAt(v: Value, env: Env, path: seq<Step>)
    requires Settled(v, env) && Leads(v, path)
    ensures Settled(At(v, path), Scope(env, Around(v, path)))
    decreases |path|
  {
    if path != [] {
      match path[0]
      case Attr(k) =>
        SettledAt(v.attrs[k], env + Prims(v.attrs), path[1..]);
        assert Around(v, path)[1..] == Around(v.attrs[k], path[1..]);
      case Item(i) =>
        SettledAt(v.items[i], env, path[1..]);
    }
  }

  /** A value settles if and only if each of its strings does in the scope of the
      objects around it, nearest winning. */
  lemma {:induction false} SettledExactly(v: Value, env: Env)
    ensures Settled(v, env) <==> TextsSettle(v, env)
    decreases v
  {
    if Settled(v, env) {
      forall path | Leads(v, path) && At(v, path).Text?
        ensures SettlesAtAll(At(v, path).text, Scope(env, Around(v, path)))
      {
        SettledAt(v, env, path);
      }
    }
    if TextsSettle(v, env) {
      match v
      case Scalar(_, _) =>
      case Text(s) =>
        assert Leads(v, []) && At(v, []) == v && Scope(env, Around(v, [])) == env;
      case List(s) =>
        forall x | x in s ensures Settled(x, env) {
          var i :| 0 <= i < |s| && s[i] == x;
          assert Leads(v, [Item(i)]);
          TextsSettleIn(v, env, Item(i));
          SettledExactly(x, env);
        }
      case Tuple(s) =>
        forall x | x in s ensures Settled(x, env) {
          var i :| 0 <= i < |s| && s[i] == x;
          assert Leads(v, [Item(i)]);
          TextsSettleIn(v, env, Item(i));
          SettledExactly(x, env);
        }
      case Dict(d) =>
        forall k | k in d ensures Settled(d[k], env + Prims(d)) {
          assert Leads(v, [Attr(k)]);
          TextsSettleIn(v, env, Attr(k));
          SettledExactly(d[k], env + Prims(d));
        }
    }
  }

  // ---- the whole spec ------------------------------------------------------

  function TemplatesOf(x: Object): Object {
    if TEMPLATES in x && x[TEMPLATES].Dict? then x[TEMPLATES].attrs else map[]
  }

  /** `_start_expand` */
  function ExpandTop(x: Object): Option<Object> {
    if forall k | k in x && k != TEMPLATES :: Expand(TemplatesOf(x), x[k], 0).Some?
    then Some(map k | k in x :: if k == TEMPLATES then x[k] else Expand(TemplatesOf(x), x[k], 0).value)
    else None
  }

  /** The table `_start_subst` begins with; `""` is there for `%%`. */
  function TopScope(y: Object): Env {
    Prims(y)["" := "%"]
  }

  ghost predicate ClosedTop(y: Object) {
    forall k | k in y && k != TEMPLATES :: Closed(y[k], TopScope(y))
  }

  /** `_start_subst` */
  ghost function SubstTop(y: Object): Object
    requires ClosedTop(y)
  {
    map k | k in y :: if k == TEMPLATES then y[k] else Subst(y[k], TopScope(y))
  }

  /** The source comes back from the spec: it expands, and the loop ends for every
      string of the expanded spec. */
  ghost predicate Sound(x: Object) {
    ExpandTop(x).Some? && ClosedTop(ExpandTop(x).value)
  }

  ghost function Spec(x: Object): Object
    requires Sound(x)
  {
    SubstTop(ExpandTop(x).value)
  }

  /** The spec expands and its strings settle. */
  ghost predicate Resolvable(x: Object) {
    && ExpandTop(x).Some?
    && forall k | k in x && k != TEMPLATES :: Settled(ExpandTop(x).value[k], TopScope(ExpandTop(x).value))
  }

  /** Outside the templates nothing is left to extend, and nothing to resolve if and
      only if the strings settle. */
  lemma SpecIsFinal(x: Object, k: string)
    requires Sound(x) && k in x && k != TEMPLATES
    ensures k in Spec(x)
    ensures Expanded(Spec(x)[k], 0)
    ensures Resolved(Spec(x)[k]) <==> Settled(ExpandTop(x).value[k], TopScope(ExpandTop(x).value))
  {
    var y := ExpandTop(x).value;
    ExpandExpands(TemplatesOf(x), x[k], 0);
    SubstKeepsExpanded(y[k], TopScope(y), 0);
    SubstResolves(y[k], TopScope(y));
  }

  /** Processing a resolved spec changes nothing; in particular the second pass stays
      within the depth limit. */
  lemma SpecIsIdempotent(x: Object)
    requires Resolvable(x)
    ensures Sound(x) && Sound(Spec(x)) && Spec(Spec(x)) == Spec(x)
  {
    var y := ExpandTop(x).value;
    forall k | k in y && k != TEMPLATES ensures Closed(y[k], TopScope(y)) {
      SettledCloses(y[k], TopScope(y));
    }
    var z := Spec(x);
    forall k | k in z && k != TEMPLATES
      ensures Expand(TemplatesOf(z), z[k], 0) == Some(z[k])
      ensures Closed(z[k], TopScope(z)) && Subst(z[k], TopScope(z)) == z[k]
    {
      SpecIsFinal(x, k);
      ExpandFixed(TemplatesOf(z), z[k], 0);
      SubstFixed(z[k], TopScope(z));
    }
    assert ExpandTop(z).Some? && ExpandTop(z).value == z;
    assert SubstTop(z) == z;
  }

  /** One more pass leaves every string of the value alone, in the scope where it
      stands. */
  ghost predicate Still(v: Value, env: Env)
    decreases v
  {
    match v
    case Scalar(_, _) => true
    case Text(s) => Sub(s, env) == Some(s)
    case List(s) => forall x | x in s :: Still(x, env)
    case Tuple(s) => forall x | x in s :: Still(x, env)
    case Dict(d) => forall k | k in d :: Still(d[k], env + Prims(d))
  }

  /** A string comes to itself if and only if one pass leaves it alone. */
  lemma StillText(s: string, env: Env)
    ensures Sub(s, env) == Some(s) <==> Returns(s, env) && Meaning(env, s) == s
  {
    if Sub(s, env) == Some(s) {
      assert Stops(s, env, 0) && Passes(s, env, 0) == Some(s);
      MeaningIs(env, s, 0);
    } else if Returns(s, env) {
      var j: nat :| Stops(s, env, j) && Passes(s, env, j).Some? && Meaning(env, s) == Passes(s, env, j).value;
    }
  }

  /** A value is substituted by itself if and only if it is still. */
  lemma {:induction false} StillExactly(v: Value, env: Env)
    ensures Still(v, env) <==> Closed(v, env) && Subst(v, env) == v
    decreases v, 1
  {
    match v
    case Scalar(_, _) =>
    case Text(s) => StillText(s, env);
    case List(s) => StillItems(s, env);
    case Tuple(s) => StillItems(s, env);
    case Dict(d) => StillAttrs(v, env);
  }

  lemma {:induction false} StillItems(s: seq<Value>, env: Env)
    ensures (forall x | x in s :: Still(x, env))
            <==> (forall x | x in s :: Closed(x, env)) && SubstItems(s, env) == s
    decreases s, 0
  {
    forall i | 0 <= i < |s| ensures Still(s[i], env) <==> Closed(s[i], env) && Subst(s[i], env) == s[i] {
      StillExactly(s[i], env);
    }
    assert forall i | 0 <= i < |s| :: s[i] in s;
    if forall x | x in s :: Still(x, env) {
      assert SubstItems(s, env) == s;
    }
  }

  lemma {:induction false} StillAttrs(v: Value, env: Env)
    requires v.Dict?
    ensures Still(v, env) <==> Closed(v, env) && Subst(v, env) == v
    decreases v, 0
  {
    var d, inner := v.attrs, env + Prims(v.attrs);
    forall k | k in d ensures Still(d[k], inner) <==> Closed(d[k], inner) && Subst(d[k], inner) == d[k] {
      StillExactly(d[k], inner);
    }
    if Closed(v, env) {
      assert Subst(v, env).attrs == d <==> forall k | k in d :: Subst(d[k], inner) == d[k];
    }
  }

  /** Processing a processed spec once more succeeds and changes nothing if and only
      if one pass leaves each of its strings alone. */
  lemma IdempotentExactly(x: Object)
    requires Sound(x)
    ensures var z := Spec(x);
            Sound(z) && Spec(z) == z <==> forall k | k in z && k != TEMPLATES :: Still(z[k], TopScope(z))
  {
    var z := Spec(x);
    forall k | k in z && k != TEMPLATES
      ensures Expand(TemplatesOf(z), z[k], 0) == Some(z[k])
      ensures Still(z[k], TopScope(z)) <==> Closed(z[k], TopScope(z)) && Subst(z[k], TopScope(z)) == z[k]
    {
      SpecIsFinal(x, k);
      ExpandFixed(TemplatesOf(z), z[k], 0);
      StillExactly(z[k], TopScope(z));
    }
    assert ExpandTop(z).Some? && ExpandTop(z).value == z;
    if ClosedTop(z) {
      assert SubstTop(z) == z <==> forall k | k in z && k != TEMPLATES :: Subst(z[k], TopScope(z)) == z[k];
    }
  }

  lemma OneAttribute(s: string, t: string, k: nat)
    requires Stops(s, TopScope(map["a" := Text(s)]), k) && Passes(s, TopScope(map["a" := Text(s)]), k) == Some(t)
    ensures Sound(map["a" := Text(s)]) && Spec(map["a" := Text(s)]) == map["a" := Text(t)]
  {
    var x: Object := map["a" := Text(s)];
    assert ExpandTop(x).Some? && ExpandTop(x).value == x;
    assert Returns(s, TopScope(x));
    MeaningIs(TopScope(x), s, k);
    assert SubstTop(x) == map["a" := Text(t)];
  }

  lemma SelfThenDoubles(m: nat)
    ensures Sound(map["a" := Text(SelfThen(m))])
    ensures Spec(map["a" := Text(SelfThen(m))]) == map["a" := Text(SelfThen(2 * m))]
  {
    var k := SelfReferenceGrows(m, m, TopScope(map["a" := Text(SelfThen(m))]));
    OneAttribute(SelfThen(m), SelfThen(2 * m), k);
  }

  /** A spec that keeps a placeholder can change each time it is processed: an
      attribute `a` that stands for `%a%` and some more `%` gets twice as many. */
  lemma UnresolvedIsNotIdempotent(m: nat)
    requires m > 0
    ensures var x: Object := map["a" := Text(SelfThen(m))];
            !Resolvable(x) && Sound(x) && Sound(Spec(x)) && Spec(Spec(x)) != Spec(x)
  {
    SelfThenDoubles(m);
    SelfThenDoubles(2 * m);
    BarsCount(2 * m);
    BarsCount(2 * (2 * m));
    assert |SelfThen(2 * m)| != |SelfThen(2 * (2 * m))|;
    assert map["a" := Text(SelfThen(2 * m))]["a"] != map["a" := Text(SelfThen(2 * (2 * m)))]["a"];
    ChangedIsUnresolved(map["a" := Text(SelfThen(m))]);
  }

  lemma ChangedIsUnresolved(x: Object)
    requires Sound(x) && Sound(Spec(x)) && Spec(Spec(x)) != Spec(x)
    ensures !Resolvable(x)
  {
    if Resolvable(x) {
      SpecIsIdempotent(x);
    }
  }

  /** The references of every string in a value are closed and acyclic in the scope
      of the objects around it. */
  ghost predicate AcyclicTexts(v: Value, env: Env) {
    forall path | Leads(v, path) && At(v, path).Text? ::
      ClosedAcyclic(Scope(env, Around(v, path)), Scan(At(v, path).text))
  }

  /** Specs whose references are closed and acyclic where they stand are processed
      completely, and processing them again changes nothing. */
  lemma AcyclicSpec(x: Object)
    requires ExpandTop(x).Some?
    requires var y := ExpandTop(x).value;
             forall k | k in y && k != TEMPLATES :: AcyclicTexts(y[k], TopScope(y))
    ensures Resolvable(x) && Sound(x) && Sound(Spec(x)) && Spec(Spec(x)) == Spec(x)
    ensures forall k | k in x && k != TEMPLATES :: k in Spec(x) && Expanded(Spec(x)[k], 0) && Resolved(Spec(x)[k])
  {
    var y := ExpandTop(x).value;
    forall k | k in y && k != TEMPLATES ensures Settled(y[k], TopScope(y)) {
      AcyclicTextsSettle(y[k], TopScope(y));
    }
    SpecIsIdempotent(x);
    forall k | k in x && k != TEMPLATES ensures k in Spec(x) && Expanded(Spec(x)[k], 0) && Resolved(Spec(x)[k]) {
      SpecIsFinal(x, k);
    }
  }

  lemma AcyclicTextsSettle(v: Value, env: Env)
    requires AcyclicTexts(v, env)
    ensures Settled(v, env)
  {
    forall path | Leads(v, path) && At(v, path).Text?
      ensures SettlesAtAll(At(v, path).text, Scope(env, Around(v, path)))
    {
      AcyclicClosed(Scope(env, Around(v, path)), At(v, path).text);
    }
    SettledExactly(v, env);
  }

  // ---- the variable table in motion ----------------------------------------

  /** The part of `Spec` that substitutes: `VAR` is replaced on entering an
      object and put back on leaving it. */
  class Substitution {
    var VAR: Env

    constructor (y: Object)
      ensures VAR == TopScope(y)
    {
      VAR := TopScope(y);
    }

    method SubstValue(v: Value) returns (r: Value)
      requires Closed(v, VAR)
      modifies this
      ensures VAR == old(VAR)
      ensures r == Subst(v, old(VAR))
      decreases v, 0
    {
      match v
      case Scalar(_, _) => r := v;
      case Text(s) =>
        ghost var k: nat :| Stops(s, VAR, k) && Passes(s, VAR, k).Some?;
        MeaningIs(VAR, s, k);
        var t := SubstStr(s, VAR, k);
        r := Text(t.value);
      case List(s) =>
        var t := SubstList(s);
        r := List(t);
      case Tuple(s) =>
        var t := SubstList(s);
        r := Tuple(t);
      case Dict(d) =>
        var save := VAR;
        VAR := save + Prims(d);
        var t := SubstAttrs(v, d);
        VAR := save;
        r := Dict(t);
    }

    method SubstList(s: seq<Value>) returns (r: seq<Value>)
      requires forall x | x in s :: Closed(x, VAR)
      modifies this
      ensures VAR == old(VAR)
      ensures r == SubstItems(s, old(VAR))
      decreases s, 1
    {
      ghost var env := VAR;
      r := [];
      for i := 0 to |s|
        invariant VAR == env && |r| == i
        invariant forall j | 0 <= j < i :: r[j] == Subst(s[j], env)
      {
        var x := SubstValue(s[i]);
        r := r + [x];
      }
    }

    method SubstAttrs(ghost v: Value, d: Object) returns (r: Object)
      requires v == Dict(d) && forall k | k in d :: Closed(d[k], VAR)
      modifies this
      ensures VAR == old(VAR)
      ensures r == map k | k in d :: Subst(d[k], old(VAR))
      decreases v, 0, 0
    {
      ghost var env := VAR;
      r := map[];
      var keys := d.Keys;
      while keys != {}
        invariant VAR == env && keys <= d.Keys && r.Keys == d.Keys - keys
        invariant forall k | k in r :: r[k] == Subst(d[k], env)
        decreases keys
      {
        var k :| k in keys;
        var x := SubstValue(d[k]);
        r := r[k := x];
        keys := keys - {k};
      }
    }
  }
}
