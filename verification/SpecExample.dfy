/** One spec in full, from templates to text. */
module SpecExample {
  import opened Options
  import opened VarSubst
  import opened SpecExpand
  import opened SpecLang

  /** Which characters a name may have, by their codes: digits, capitals, small
      letters, `-`, `.` and `_`. */
  lemma NameChars(c: char)
    ensures IsNameChar(c) <==>
            48 <= c as int <= 57 || 65 <= c as int <= 90 || 97 <= c as int <= 122 || c as int in {45, 46, 95}
  {
  }

  // ---- one reference -------------------------------------------------------

  lemma {:induction false} SubBehind(pre: string, s: string, env: Env)
    requires '%' !in pre && Sub(s, env).Some?
    ensures Sub(pre + s, env) == Some(pre + Sub(s, env).value)
  {
    if pre == "" {
      assert pre + s == s && pre + Sub(s, env).value == Sub(s, env).value;
    } else {
      SubBehind(pre[1..], s, env);
      SubCons(pre[0], pre[1..] + s, env);
      assert pre + s == [pre[0]] + (pre[1..] + s);
      assert pre + Sub(s, env).value == [pre[0]] + (pre[1..] + Sub(s, env).value);
    }
  }

  lemma SubCons(c: char, s: string, env: Env)
    requires c != '%' && Sub(s, env).Some?
    ensures Sub([c] + s, env) == Some([c] + Sub(s, env).value)
  {
    ScanCons(c, s);
    assert ([Ch(c)] + Scan(s))[1..] == Scan(s);
  }

  lemma WithoutRefs(s: string, env: Env)
    requires '%' !in s
    ensures Sub(s, env) == Some(s)
  {
    SubBehind(s, "", env);
    assert s + "" == s;
  }

  /** A reference at the end of a text is replaced by the value of the name. */
  lemma RefAtEnd(pre: string, n: string, env: Env)
    requires '%' !in pre && IsName(n) && n in env && '%' !in env[n]
    ensures var s := pre + ("%" + (n + "%"));
            Stops(s, env, 1) && Passes(s, env, 1) == Some(pre + env[n])
  {
    var s, t := pre + ("%" + (n + "%")), pre + env[n];
    SubOne(n, "%" + (n + "%"), env);
    SubBehind(pre, "%" + (n + "%"), env);
    WithoutRefs(t, env);
    assert Passes(t, env, 0) == Some(t);
  }

  lemma TextAtEnd(pre: string, n: string, env: Env)
    requires '%' !in pre && IsName(n) && n in env && '%' !in env[n]
    ensures var v := Text(pre + ("%" + (n + "%")));
            Closed(v, env) && Subst(v, env) == Text(pre + env[n])
  {
    RefAtEnd(pre, n, env);
    MeaningIs(env, pre + ("%" + (n + "%")), 1);
  }

  lemma TextAsIs(s: string, env: Env)
    requires '%' !in s
    ensures Closed(Text(s), env) && Subst(Text(s), env) == Text(s)
  {
    WithoutRefs(s, env);
    StillExactly(Text(s), env);
  }

  // ---- the spec ------------------------------------------------------------

  function Base(): Object {
    map["path" := Text("/bin/%prog%"), "user" := Text("%USER%")]
  }

  function Sbin(): Object {
    map["!extends" := Text("base"), "path" := Text("/sbin/%prog%"), "id" := Text("n%num%")]
  }

  function Jail(): Object {
    map["!extends" := Text("sbin"), "prog" := Text("ls"), "USER" := Text("me")]
  }

  function Templates(): Object {
    map["base" := Dict(Base()), "sbin" := Dict(Sbin())]
  }

  function Example(): Object {
    map["templates" := Dict(Templates()), "num" := Scalar("7", true), "USER" := Text("root"), "jail" := Dict(Jail())]
  }

  /** What the inner object extends to. */
  function Extended(): Object {
    map["path" := Text("/sbin/%prog%"), "user" := Text("%USER%"), "id" := Text("n%num%"),
        "prog" := Text("ls"), "USER" := Text("me")]
  }

  function Substituted(): Object {
    map["path" := Text("/sbin/ls"), "user" := Text("me"), "id" := Text("n7"),
        "prog" := Text("ls"), "USER" := Text("me")]
  }

  lemma JailChain()
    ensures IsChain(Templates(), Jail(), [Jail(), Sbin(), Base()])
    ensures Follow(Templates(), Jail(), {}) == Ends([Jail(), Sbin(), Base()])
  {
    var c := [Jail(), Sbin(), Base()];
    assert ExtendsTo(Templates(), c[0], c[1]);
    assert ExtendsTo(Templates(), c[1], c[2]);
    FollowExactly(Templates(), Jail(), c);
  }

  lemma OverlayThree(a: Object, b: Object, c: Object)
    ensures Overlay([a, b, c]) == c + b + a
  {
    OverlayOne(c);
    assert [a, b, c][1..] == [b, c] && [b, c][1..] == [c];
  }

  function BaseAndSbin(): Object {
    map["path" := Text("/sbin/%prog%"), "user" := Text("%USER%"), "id" := Text("n%num%"), "!extends" := Text("base")]
  }

  lemma SbinOverBase()
    ensures Base() + Sbin() == BaseAndSbin()
  {
  }

  lemma JailOverBoth()
    ensures BaseAndSbin() + Jail() - {EXTENDS} == Extended()
  {
  }

  lemma JailOverlay()
    ensures Overlay([Jail(), Sbin(), Base()]) - {EXTENDS} == Extended()
  {
    OverlayThree(Jail(), Sbin(), Base());
    SbinOverBase();
    JailOverBoth();
  }

  lemma JailExpands()
    ensures Expand(Templates(), Dict(Jail()), 0) == Some(Dict(Extended()))
  {
    JailChain();
    JailOverlay();
    assert forall k | k in Extended() :: Expand(Templates(), Extended()[k], 1) == Some(Extended()[k]);
    assert Expand(Templates(), Dict(Jail()), 0).value.attrs == Extended();
  }

  /** The table where the strings of the inner object stand. */
  function Inner(): Env {
    TopScope(Expanded0()) + Prims(Extended())
  }

  function Expanded0(): Object {
    Example()["jail" := Dict(Extended())]
  }

  lemma ExampleExpands()
    ensures ExpandTop(Example()) == Some(Expanded0())
  {
    JailExpands();
    assert TemplatesOf(Example()) == Templates();
    assert forall k | k in Example() && k != TEMPLATES && k != "jail" ::
        Expand(Templates(), Example()[k], 0) == Some(Example()[k]);
    assert ExpandTop(Example()).value == Expanded0();
  }

  /** A number at the top, a name overridden inside, and one that only the object
      has. */
  lemma InnerNames()
    ensures "num" in Inner() && Inner()["num"] == "7"
    ensures "USER" in Inner() && Inner()["USER"] == "me"
    ensures "prog" in Inner() && Inner()["prog"] == "ls"
  {
    assert "num" in Prims(Expanded0()) && Prims(Expanded0())["num"] == "7";
    assert "num" !in Prims(Extended());
  }

  /** The loop comes back from `v` with `w`. */
  ghost predicate Becomes(v: Value, w: Value, env: Env) {
    Closed(v, env) && Subst(v, env) == w
  }

  lemma PathBecomes(env: Env)
    requires "prog" in env && env["prog"] == "ls"
    ensures Becomes(Text("/sbin/%prog%"), Text("/sbin/ls"), env)
  {
    TextAtEnd("/sbin/", "prog", env);
    assert "/sbin/" + ("%" + ("prog" + "%")) == "/sbin/%prog%" && "/sbin/" + "ls" == "/sbin/ls";
  }

  lemma UserBecomes(env: Env)
    requires "USER" in env && env["USER"] == "me"
    ensures Becomes(Text("%USER%"), Text("me"), env)
  {
    TextAtEnd("", "USER", env);
    assert "" + ("%" + ("USER" + "%")) == "%USER%" && "" + "me" == "me";
  }

  lemma IdBecomes(env: Env)
    requires "num" in env && env["num"] == "7"
    ensures Becomes(Text("n%num%"), Text("n7"), env)
  {
    TextAtEnd("n", "num", env);
    assert "n" + ("%" + ("num" + "%")) == "n%num%" && "n" + "7" == "n7";
  }

  lemma AttributeBecomes(k: string)
    requires k in Extended()
    ensures Becomes(Extended()[k], Substituted()[k], Inner())
  {
    InnerNames();
    if k == "path" {
      PathBecomes(Inner());
    } else if k == "user" {
      UserBecomes(Inner());
    } else if k == "id" {
      IdBecomes(Inner());
    } else if k == "prog" {
      TextAsIs("ls", Inner());
    } else {
      TextAsIs("me", Inner());
    }
  }

  lemma DictBecomes(d: Object, r: Object, env: Env)
    requires d.Keys == r.Keys && forall k | k in d :: Becomes(d[k], r[k], env + Prims(d))
    ensures Becomes(Dict(d), Dict(r), env)
  {
    assert Subst(Dict(d), env).attrs == r;
  }

  lemma JailBecomes()
    ensures Becomes(Dict(Extended()), Dict(Substituted()), TopScope(Expanded0()))
  {
    forall k | k in Extended() ensures Becomes(Extended()[k], Substituted()[k], Inner()) {
      AttributeBecomes(k);
    }
    DictBecomes(Extended(), Substituted(), TopScope(Expanded0()));
  }

  lemma TopBecomes(y: Object, z: Object)
    requires y.Keys == z.Keys && (TEMPLATES in y ==> y[TEMPLATES] == z[TEMPLATES])
    requires forall k | k in y && k != TEMPLATES :: Becomes(y[k], z[k], TopScope(y))
    ensures ClosedTop(y) && SubstTop(y) == z
  {
  }

  lemma OtherBecomes(k: string)
    requires k in Expanded0() && k != TEMPLATES && k != "jail"
    ensures Becomes(Expanded0()[k], Expanded0()[k], TopScope(Expanded0()))
  {
    if k == "USER" {
      TextAsIs("root", TopScope(Expanded0()));
    }
  }

  /** The example as it is processed: the inner object has every attribute of its
      templates that it does not override, each placeholder is replaced by what the
      nearest object says, and the templates stay as they were. */
  lemma ExampleProcessed()
    ensures Sound(Example())
    ensures Spec(Example()) == Example()["jail" := Dict(Substituted())]
  {
    var y, z := Expanded0(), Example()["jail" := Dict(Substituted())];
    ExampleExpands();
    JailBecomes();
    forall k | k in y && k != TEMPLATES ensures Becomes(y[k], z[k], TopScope(y)) {
      if k != "jail" {
        OtherBecomes(k);
      }
    }
    TopBecomes(y, z);
  }
}
