/** Running template expansion (`Spec._expand*` in LDMS_Test.py): in which way it
    can fail, and the recursion over the two loops of `_expand_dict`. */
module ExpandRun {
  import opened Options
  import opened SpecExpand

  /** An exception, or a call that never comes back. */
  datatype Failure = Raised | Forever

  /** The call can fail in this way. The attributes of an object may come in any
      order, so any of them may be the first to fail. */
  predicate Fails(tmpl: Object, v: Value, lvl: nat, f: Failure)
    requires lvl <= MAX_DEPTH + 1
    decreases MAX_DEPTH + 1 - lvl, 0
  {
    if lvl > MAX_DEPTH then f == Raised
    else
      match v
      case Scalar(_, _) => false
      case Text(_) => false
      case List(s) => ItemsFail(tmpl, s, lvl + 1, f)
      case Tuple(s) => ItemsFail(tmpl, s, lvl + 1, f)
      case Dict(d) =>
        match Follow(tmpl, d, {})
        case Raises => f == Raised
        case Circles => f == Forever
        case Ends(chain) => AttrsFail(tmpl, Overlay(chain) - {EXTENDS}, lvl + 1, f)
  }

  /** Items come in order: one that fails is the last. */
  predicate ItemsFail(tmpl: Object, s: seq<Value>, lvl: nat, f: Failure)
    requires lvl <= MAX_DEPTH + 1
    decreases MAX_DEPTH + 1 - lvl, 1, |s|
  {
    s != [] && (Fails(tmpl, s[0], lvl, f)
                || (Expand(tmpl, s[0], lvl).Some? && ItemsFail(tmpl, s[1..], lvl, f)))
  }

  predicate AttrsFail(tmpl: Object, d: Object, lvl: nat, f: Failure)
    requires lvl <= MAX_DEPTH + 1
    decreases MAX_DEPTH + 1 - lvl, 1
  {
    exists k | k in d :: Fails(tmpl, d[k], lvl, f)
  }

  /** There is no value exactly when the call raises or never comes back. */
  lemma {:induction false} FailsExactly(tmpl: Object, v: Value, lvl: nat)
    requires lvl <= MAX_DEPTH + 1
    ensures Expand(tmpl, v, lvl).None? <==> Fails(tmpl, v, lvl, Raised) || Fails(tmpl, v, lvl, Forever)
    decreases MAX_DEPTH + 1 - lvl, 0
  {
    if lvl <= MAX_DEPTH {
      match v
      case Scalar(_, _) =>
      case Text(_) =>
      case List(s) => ItemsFailExactly(tmpl, s, lvl + 1);
      case Tuple(s) => ItemsFailExactly(tmpl, s, lvl + 1);
      case Dict(d) =>
        match Follow(tmpl, d, {})
        case Ends(chain) =>
          var merged := Overlay(chain) - {EXTENDS};
          forall k | k in merged
            ensures Expand(tmpl, merged[k], lvl + 1).None?
                    <==> Fails(tmpl, merged[k], lvl + 1, Raised) || Fails(tmpl, merged[k], lvl + 1, Forever)
          {
            FailsExactly(tmpl, merged[k], lvl + 1);
          }
        case _ =>
    }
  }

  lemma {:induction false} ItemsFailExactly(tmpl: Object, s: seq<Value>, lvl: nat)
    requires lvl <= MAX_DEPTH + 1
    ensures ExpandItems(tmpl, s, lvl).None? <==> ItemsFail(tmpl, s, lvl, Raised) || ItemsFail(tmpl, s, lvl, Forever)
    decreases MAX_DEPTH + 1 - lvl, 1, |s|
  {
    if s != [] {
      FailsExactly(tmpl, s[0], lvl);
      ItemsFailExactly(tmpl, s[1..], lvl);
    }
  }

  ghost predicate AlwaysReturns(tmpl: Object) {
    forall v: Value :: !Fails(tmpl, v, 0, Forever)
  }

  /** Every expansion comes back, for whatever value, if and only if no template
      comes back to itself. */
  lemma EndsExactly(tmpl: Object)
    ensures AlwaysReturns(tmpl) <==> !HasCycle(tmpl)
  {
    CyclesExactly(tmpl);
    if HasCycle(tmpl) {
      var d: Object :| Follow(tmpl, d, {}) == Circles;
      var v := Dict(d);
      assert Fails(tmpl, v, 0, Forever);
    } else {
      forall v ensures !Fails(tmpl, v, 0, Forever) {
        NoCycleEnds(tmpl, v, 0);
      }
    }
  }

  lemma {:induction false} NoCycleEnds(tmpl: Object, v: Value, lvl: nat)
    requires lvl <= MAX_DEPTH + 1 && !SomeObjectCircles(tmpl)
    ensures !Fails(tmpl, v, lvl, Forever)
    decreases MAX_DEPTH + 1 - lvl, 0
  {
    if lvl <= MAX_DEPTH {
      match v
      case Scalar(_, _) =>
      case Text(_) =>
      case List(s) => NoCycleItemsEnd(tmpl, s, lvl + 1);
      case Tuple(s) => NoCycleItemsEnd(tmpl, s, lvl + 1);
      case Dict(d) =>
        assert Follow(tmpl, d, {}) != Circles;
        match Follow(tmpl, d, {})
        case Ends(chain) =>
          var merged := Overlay(chain) - {EXTENDS};
          forall k | k in merged ensures !Fails(tmpl, merged[k], lvl + 1, Forever) {
            NoCycleEnds(tmpl, merged[k], lvl + 1);
          }
        case _ =>
    }
  }

  lemma {:induction false} NoCycleItemsEnd(tmpl: Object, s: seq<Value>, lvl: nat)
    requires lvl <= MAX_DEPTH + 1 && !SomeObjectCircles(tmpl)
    ensures !ItemsFail(tmpl, s, lvl, Forever)
    decreases MAX_DEPTH + 1 - lvl, 1, |s|
  {
    if s != [] {
      NoCycleEnds(tmpl, s[0], lvl);
      NoCycleItemsEnd(tmpl, s[1..], lvl);
    }
  }

  // ---- the methods ---------------------------------------------------------

  /** `_expand`, on calls that come back: the value, or none when it raises. */
  method ExpandValue(tmpl: Object, obj: Value, lvl: nat) returns (r: Option<Value>)
    requires lvl <= MAX_DEPTH + 1 && !Fails(tmpl, obj, lvl, Forever)
    ensures r == Expand(tmpl, obj, lvl)
    ensures r.None? <==> Fails(tmpl, obj, lvl, Raised)
    decreases MAX_DEPTH + 1 - lvl, 0
  {
    FailsExactly(tmpl, obj, lvl);
    if lvl > MAX_DEPTH {
      return None;
    }
    match obj
    case Scalar(_, _) => r := Some(obj);
    case Text(_) => r := Some(obj);
    case List(lst) =>
      var items := ExpandList(tmpl, lst, lvl + 1);
      r := if items.Some? then Some(List(items.value)) else None;
    case Tuple(tpl) =>
      var items := ExpandList(tmpl, tpl, lvl + 1);
      r := if items.Some? then Some(Tuple(items.value)) else None;
    case Dict(dct) =>
      var lst := Collect(tmpl, dct);
      if lst.None? {
        return None;
      }
      var tmp := Merge(lst.value);
      var attrs := ExpandAttrs(tmpl, tmp, lvl + 1);
      AttrsGiveDict(tmpl, dct, lvl, tmp, attrs);
      r := if attrs.Some? then Some(Dict(attrs.value)) else None;
  }

  /** `[ self._expand(x, lvl) for x in lst ]` */
  method ExpandList(tmpl: Object, lst: seq<Value>, lvl: nat) returns (r: Option<seq<Value>>)
    requires lvl <= MAX_DEPTH + 1 && !ItemsFail(tmpl, lst, lvl, Forever)
    ensures r == ExpandItems(tmpl, lst, lvl)
    decreases MAX_DEPTH + 1 - lvl, 1
  {
    var out := [];
    assert lst[0..] == lst;
    AfterNothing(ExpandItems(tmpl, lst, lvl));
    for i := 0 to |lst|
      invariant !ItemsFail(tmpl, lst[i..], lvl, Forever)
      invariant ExpandItems(tmpl, lst, lvl) == After(out, ExpandItems(tmpl, lst[i..], lvl))
    {
      assert lst[i..][1..] == lst[i + 1..];
      var x := ExpandValue(tmpl, lst[i], lvl);
      if x.None? {
        return None;
      }
      AfterNext(out, x.value, ExpandItems(tmpl, lst[i + 1..], lvl));
      out := out + [x.value];
    }
    assert lst[|lst|..] == [] && out + [] == out;
    r := Some(out);
  }

  function After(out: seq<Value>, more: Option<seq<Value>>): Option<seq<Value>> {
    if more.Some? then Some(out + more.value) else None
  }

  lemma AfterNothing(more: Option<seq<Value>>)
    ensures After([], more) == more
  {
    if more.Some? {
      assert [] + more.value == more.value;
    }
  }

  lemma AfterNext(out: seq<Value>, x: Value, more: Option<seq<Value>>)
    ensures After(out, After([x], more)) == After(out + [x], more)
  {
    if more.Some? {
      assert out + ([x] + more.value) == out + [x] + more.value;
    }
  }

  predicate AttrsExpanded(tmpl: Object, d: Object, lvl: nat, out: Object)
    requires lvl <= MAX_DEPTH + 1
  {
    forall k | k in out :: k in d && Expand(tmpl, d[k], lvl) == Some(out[k])
  }

  /** Every attribute expanded; none when one of them has no expansion. */
  predicate OfAttrs(tmpl: Object, d: Object, lvl: nat, r: Option<Object>)
    requires lvl <= MAX_DEPTH + 1
  {
    match r
    case Some(out) => out.Keys == d.Keys && AttrsExpanded(tmpl, d, lvl, out)
    case None => exists k | k in d :: Expand(tmpl, d[k], lvl).None?
  }

  lemma AttrsGiveDict(tmpl: Object, d: Object, lvl: nat, merged: Object, r: Option<Object>)
    requires lvl <= MAX_DEPTH && Follow(tmpl, d, {}).Ends?
    requires merged == Overlay(Follow(tmpl, d, {}).chain) - {EXTENDS} && OfAttrs(tmpl, merged, lvl + 1, r)
    ensures Expand(tmpl, Dict(d), lvl) == if r.Some? then Some(Dict(r.value)) else None
  {
    if r.Some? {
      assert forall k | k in merged :: Expand(tmpl, merged[k], lvl + 1) == Some(r.value[k]);
      assert Expand(tmpl, Dict(d), lvl).value.attrs == r.value;
    }
  }

  /** `{ k: self._expand(v, lvl) for k,v in d.items() }`, in any order. */
  method ExpandAttrs(tmpl: Object, d: Object, lvl: nat) returns (r: Option<Object>)
    requires lvl <= MAX_DEPTH + 1 && !AttrsFail(tmpl, d, lvl, Forever)
    ensures OfAttrs(tmpl, d, lvl, r)
    decreases MAX_DEPTH + 1 - lvl, 1
  {
    var rest, out: Object := d.Keys, map[];
    while rest != {}
      invariant rest <= d.Keys && out.Keys == d.Keys - rest && AttrsExpanded(tmpl, d, lvl, out)
      decreases rest
    {
      var k :| k in rest;
      assert k in d;
      var x := ExpandValue(tmpl, d[k], lvl);
      if x.None? {
        return None;
      }
      out := out[k := x.value];
      rest := rest - {k};
    }
    assert d.Keys - {} == d.Keys;
    r := Some(out);
  }
}
