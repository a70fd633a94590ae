/** Spec values and template extension (`Spec._expand*` in LDMS_Test.py). */
module SpecExpand {
  import opened Options

  /** What a spec is made of. A number or boolean is represented by what
      `str()` prints for it, and by whether it is true. */
  datatype Value =
    | Scalar(text: string, truthy: bool)
    | Text(text: string)
    | List(items: seq<Value>)
    | Tuple(items: seq<Value>)
    | Dict(attrs: Object)

  type Object = map<string, Value>

  const MAX_DEPTH := 64
  const EXTENDS := "!extends"

  predicate Truthy(v: Value) {
    match v
    case Scalar(_, b) => b
    case Text(s) => s != ""
    case List(s) => s != []
    case Tuple(s) => s != []
    case Dict(d) => d != map[]
  }

  // ---- the chain of extension ----------------------------------------------

  /** Following `!extends` ends with the objects met, raises (unknown template,
      or one that is not an object), or goes round in circles for ever. */
  datatype Walk = Ends(chain: seq<Object>) | Raises | Circles

  /** The template named by an object, if it names one. */
  datatype Link = NoLink | BadLink | LinkTo(name: string)

  function LinkOf(d: Object): Link {
    if EXTENDS !in d || !Truthy(d[EXTENDS]) then NoLink
    else if d[EXTENDS].Text? then LinkTo(d[EXTENDS].text)
    else BadLink
  }

  /** The first loop of `_expand_dict`. A template met twice is met again and
      again, because what follows depends on its name alone. */
  function Follow(tmpl: Object, d: Object, seen: set<string>): (w: Walk)
    ensures w.Ends? ==> w.chain != [] && w.chain[0] == d
    decreases tmpl.Keys - seen
  {
    match LinkOf(d)
    case NoLink => Ends([d])
    case BadLink => Raises
    case LinkTo(name) =>
      if name !in tmpl || !tmpl[name].Dict? then Raises
      else if name in seen then Circles
      else
        match Follow(tmpl, tmpl[name].attrs, seen + {name})
        case Ends(c) => Ends([d] + c)
        case w => w
  }

  /** The second loop: the base first, nearer objects override. */
  function Overlay(chain: seq<Object>): Object {
    if chain == [] then map[] else Overlay(chain[1..]) + chain[0]
  }

  /** The first object of the chain that defines `k`. */
  function Nearest(chain: seq<Object>, k: string): (i: nat)
    ensures i <= |chain|
    ensures i < |chain| ==> k in chain[i]
    ensures forall j | 0 <= j < i :: k !in chain[j]
  {
    if chain == [] || k in chain[0] then 0 else 1 + Nearest(chain[1..], k)
  }

  lemma {:induction false} OverlayIsNearest(chain: seq<Object>, k: string)
    ensures k in Overlay(chain) <==> Nearest(chain, k) < |chain|
    ensures k in Overlay(chain) ==> Overlay(chain)[k] == chain[Nearest(chain, k)][k]
  {
    if chain != [] {
      OverlayIsNearest(chain[1..], k);
    }
  }

  // ---- expansion -----------------------------------------------------------

  /** The value, or none when the source raises or never returns. */
  function Expand(tmpl: Object, v: Value, lvl: nat): Option<Value>
    requires lvl <= MAX_DEPTH + 1
    decreases MAX_DEPTH + 1 - lvl, 0
  {
    if lvl > MAX_DEPTH then None
    else
      match v
      case Scalar(_, _) => Some(v)
      case Text(_) => Some(v)
      case List(s) =>
        (match ExpandItems(tmpl, s, lvl + 1)
         case Some(r) => Some(List(r))
         case None => None)
      case Tuple(s) =>
        (match ExpandItems(tmpl, s, lvl + 1)
         case Some(r) => Some(Tuple(r))
         case None => None)
      case Dict(d) =>
        match Follow(tmpl, d, {})
        case Ends(chain) =>
          var merged := Overlay(chain) - {EXTENDS};
          if forall k | k in merged :: Expand(tmpl, merged[k], lvl + 1).Some?
          then Some(Dict(map k | k in merged :: Expand(tmpl, merged[k], lvl + 1).value))
          else None
        case _ => None
  }

  function ExpandItems(tmpl: Object, s: seq<Value>, lvl: nat): Option<seq<Value>>
    requires lvl <= MAX_DEPTH + 1
    decreases MAX_DEPTH + 1 - lvl, 1, |s|
  {
    if s == [] then Some([])
    else
      match (Expand(tmpl, s[0], lvl), ExpandItems(tmpl, s[1..], lvl))
      case (Some(a), Some(b)) => Some([a] + b)
      case _ => None
  }

  /** Items are expanded one by one, in place. */
  lemma {:induction false} ItemsInPlace(tmpl: Object, s: seq<Value>, lvl: nat)
    requires lvl <= MAX_DEPTH + 1
    ensures var r := ExpandItems(tmpl, s, lvl);
            && (r.Some? <==> forall i | 0 <= i < |s| :: Expand(tmpl, s[i], lvl).Some?)
            && (r.Some? ==> |r.value| == |s| && forall i | 0 <= i < |s| :: Expand(tmpl, s[i], lvl) == Some(r.value[i]))
    decreases |s|
  {
    if s != [] {
      ItemsInPlace(tmpl, s[1..], lvl);
      assert forall i | 1 <= i < |s| :: s[i] == s[1..][i - 1];
    }
  }

  /** Nothing in the value extends anything, and it is at most `MAX_DEPTH` deep
      when it stands at level `lvl`. */
  predicate Expanded(v: Value, lvl: nat)
    decreases v
  {
    && lvl <= MAX_DEPTH
    && match v
       case Scalar(_, _) => true
       case Text(_) => true
       case List(s) => forall x | x in s :: Expanded(x, lvl + 1)
       case Tuple(s) => forall x | x in s :: Expanded(x, lvl + 1)
       case Dict(d) => EXTENDS !in d && forall k | k in d :: Expanded(d[k], lvl + 1)
  }

  /** Whatever expansion returns is expanded. */
  lemma {:induction false} ExpandExpands(tmpl: Object, v: Value, lvl: nat)
    requires lvl <= MAX_DEPTH + 1 && Expand(tmpl, v, lvl).Some?
    ensures Expanded(Expand(tmpl, v, lvl).value, lvl)
    decreases MAX_DEPTH + 1 - lvl, 0
  {
    match v
    case Scalar(_, _) =>
    case Text(_) =>
    case List(s) => ItemsExpand(tmpl, s, lvl + 1);
    case Tuple(s) => ItemsExpand(tmpl, s, lvl + 1);
    case Dict(d) =>
      var r := Expand(tmpl, v, lvl).value;
      var merged := Overlay(Follow(tmpl, d, {}).chain) - {EXTENDS};
      forall k | k in r.attrs ensures Expanded(r.attrs[k], lvl + 1) {
        ExpandExpands(tmpl, merged[k], lvl + 1);
      }
  }

  lemma {:induction false} ItemsExpand(tmpl: Object, s: seq<Value>, lvl: nat)
    requires lvl <= MAX_DEPTH + 1 && ExpandItems(tmpl, s, lvl).Some?
    ensures forall x | x in ExpandItems(tmpl, s, lvl).value :: Expanded(x, lvl)
    decreases MAX_DEPTH + 1 - lvl, 1, |s|
  {
    if s != [] {
      ExpandExpands(tmpl, s[0], lvl);
      ItemsExpand(tmpl, s[1..], lvl);
    }
  }

  /** What is expanded already stays as it is, whatever the templates: the second
      pass cannot run into the depth limit either. */
  lemma {:induction false} ExpandFixed(tmpl: Object, v: Value, lvl: nat)
    requires Expanded(v, lvl)
    ensures Expand(tmpl, v, lvl) == Some(v)
    decreases v, 0
  {
    match v
    case Scalar(_, _) =>
    case Text(_) =>
    case List(s) => ItemsFixed(tmpl, s, lvl + 1);
    case Tuple(s) => ItemsFixed(tmpl, s, lvl + 1);
    case Dict(d) =>
      OverlayOne(d);
      forall k | k in d ensures Expand(tmpl, d[k], lvl + 1) == Some(d[k]) { ExpandFixed(tmpl, d[k], lvl + 1); }
      assert Follow(tmpl, d, {}) == Ends([d]);
      assert Expand(tmpl, v, lvl).value.attrs == d;
  }

  lemma {:induction false} ItemsFixed(tmpl: Object, s: seq<Value>, lvl: nat)
    requires lvl <= MAX_DEPTH + 1 && forall x | x in s :: Expanded(x, lvl)
    ensures ExpandItems(tmpl, s, lvl) == Some(s)
    decreases s, 1
  {
    if s != [] {
      ExpandFixed(tmpl, s[0], lvl);
      ItemsFixed(tmpl, s[1..], lvl);
      assert s == [s[0]] + s[1..];
    }
  }

  lemma OverlayOne(d: Object)
    ensures Overlay([d]) == d
    ensures EXTENDS !in d ==> Overlay([d]) - {EXTENDS} == d
  {
    assert [d][1..] == [];
    assert map[] + d == d;
  }

  /** The template the loop stands at after `i + 1` turns; none when it has ended
      or raised by then. */
  function Jump(tmpl: Object, d: Object, i: nat): Option<string>
    ensures Jump(tmpl, d, i).Some? ==> Jump(tmpl, d, i).value in tmpl && tmpl[Jump(tmpl, d, i).value].Dict?
    decreases i
  {
    match LinkOf(d)
    case LinkTo(m) =>
      if m !in tmpl || !tmpl[m].Dict? then None
      else if i == 0 then Some(m) else Jump(tmpl, tmpl[m].attrs, i - 1)
    case _ => None
  }

  lemma {:induction false} JumpTwice(tmpl: Object, d: Object, i: nat, j: nat)
    requires Jump(tmpl, d, i).Some?
    ensures Jump(tmpl, d, i + 1 + j) == Jump(tmpl, tmpl[Jump(tmpl, d, i).value].attrs, j)
    decreases i
  {
    if i > 0 {
      JumpTwice(tmpl, tmpl[LinkOf(d).name].attrs, i - 1, j);
    }
  }

  /** A walk that does not circle comes to an end. */
  lemma {:induction false} JumpsEnd(tmpl: Object, d: Object, seen: set<string>) returns (i: nat)
    requires Follow(tmpl, d, seen) != Circles
    ensures Jump(tmpl, d, i).None?
    decreases tmpl.Keys - seen
  {
    i := 0;
    if LinkOf(d).LinkTo? {
      var m := LinkOf(d).name;
      if m in tmpl && tmpl[m].Dict? {
        i := JumpsEnd(tmpl, tmpl[m].attrs, seen + {m});
        i := i + 1;
      }
    }
  }

  /** The template `n` comes back to itself after `p + 1` turns. */
  predicate ComesBack(tmpl: Object, n: string, p: nat) {
    n in tmpl && tmpl[n].Dict? && Jump(tmpl, tmpl[n].attrs, p) == Some(n)
  }

  ghost predicate InCycle(tmpl: Object, n: string) {
    exists p: nat :: ComesBack(tmpl, n, p)
  }

  /** The object extends, over however many steps, a template that comes back to
      itself. */
  ghost predicate ReachesCycle(tmpl: Object, d: Object) {
    exists i: nat :: Jump(tmpl, d, i).Some? && InCycle(tmpl, Jump(tmpl, d, i).value)
  }

  /** Where a circling walk meets a name again: one it had seen before, or one on a
      cycle. */
  lemma {:induction false} CirclesComeBack(tmpl: Object, d: Object, seen: set<string>) returns (i: nat)
    requires Follow(tmpl, d, seen) == Circles
    ensures Jump(tmpl, d, i).Some?
    ensures Jump(tmpl, d, i).value in seen || InCycle(tmpl, Jump(tmpl, d, i).value)
    decreases tmpl.Keys - seen
  {
    var m := LinkOf(d).name;
    i := 0;
    if m !in seen {
      var j := CirclesComeBack(tmpl, tmpl[m].attrs, seen + {m});
      if Jump(tmpl, tmpl[m].attrs, j) == Some(m) {
        assert ComesBack(tmpl, m, j);
      } else {
        i := j + 1;
      }
    }
  }

  /** On a cycle there is always a next template. */
  lemma {:induction false} CycleGoesOn(tmpl: Object, n: string, p: nat, i: nat)
    requires ComesBack(tmpl, n, p)
    ensures Jump(tmpl, tmpl[n].attrs, i).Some?
    decreases i
  {
    var d := tmpl[n].attrs;
    if i <= p {
      JumpEarlier(tmpl, d, i, p);
    } else {
      CycleGoesOn(tmpl, n, p, i - p - 1);
      JumpTwice(tmpl, d, p, i - p - 1);
    }
  }

  lemma {:induction false} JumpEarlier(tmpl: Object, d: Object, i: nat, j: nat)
    requires i <= j && Jump(tmpl, d, j).Some?
    ensures Jump(tmpl, d, i).Some?
    decreases i
  {
    if i > 0 {
      JumpEarlier(tmpl, tmpl[LinkOf(d).name].attrs, i - 1, j - 1);
    }
  }

  ghost predicate NeverEnds(tmpl: Object, d: Object) {
    forall i: nat :: Jump(tmpl, d, i).Some?
  }

  /** Following `!extends` from an object goes on for ever if and only if the object
      reaches a template that comes back to itself; that is what `Circles` tells. */
  lemma CirclesExactly(tmpl: Object, d: Object)
    ensures Follow(tmpl, d, {}) == Circles <==> NeverEnds(tmpl, d)
    ensures Follow(tmpl, d, {}) == Circles <==> ReachesCycle(tmpl, d)
  {
    if Follow(tmpl, d, {}) == Circles {
      var i := CirclesComeBack(tmpl, d, {});
      assert ReachesCycle(tmpl, d);
    } else {
      var i := JumpsEnd(tmpl, d, {});
      assert !NeverEnds(tmpl, d);
    }
    if ReachesCycle(tmpl, d) {
      CycleNeverEnds(tmpl, d);
    }
  }

  lemma CycleNeverEnds(tmpl: Object, d: Object)
    requires ReachesCycle(tmpl, d)
    ensures NeverEnds(tmpl, d)
  {
    var i: nat :| Jump(tmpl, d, i).Some? && InCycle(tmpl, Jump(tmpl, d, i).value);
    var n := Jump(tmpl, d, i).value;
    var p: nat :| ComesBack(tmpl, n, p);
    forall j: nat ensures Jump(tmpl, d, j).Some? {
      if j <= i {
        JumpEarlier(tmpl, d, j, i);
      } else {
        CycleGoesOn(tmpl, n, p, j - i - 1);
        JumpTwice(tmpl, d, i, j - i - 1);
      }
    }
  }

  ghost predicate HasCycle(tmpl: Object) {
    exists n :: n in tmpl && InCycle(tmpl, n)
  }

  ghost predicate SomeObjectCircles(tmpl: Object) {
    exists d: Object :: Follow(tmpl, d, {}) == Circles
  }

  /** Some object can be given that circles if and only if some template comes back
      to itself. */
  lemma CyclesExactly(tmpl: Object)
    ensures SomeObjectCircles(tmpl) <==> HasCycle(tmpl)
  {
    if SomeObjectCircles(tmpl) {
      var d: Object :| Follow(tmpl, d, {}) == Circles;
      var i := CirclesComeBack(tmpl, d, {});
    }
    if HasCycle(tmpl) {
      var n :| n in tmpl && InCycle(tmpl, n);
      var p: nat :| ComesBack(tmpl, n, p);
      assert ReachesCycle(tmpl, tmpl[n].attrs);
      CirclesExactly(tmpl, tmpl[n].attrs);
    }
  }

  /** The shortest spec that is never expanded: a template that extends itself. */
  lemma SelfExtensionCircles()
    ensures var d: Object := map[EXTENDS := Text("a")];
            Follow(map["a" := Dict(d)], d, {}) == Circles && NeverEnds(map["a" := Dict(d)], d)
  {
    var d: Object := map[EXTENDS := Text("a")];
    var tmpl: Object := map["a" := Dict(d)];
    assert Jump(tmpl, d, 0) == Some("a");
    assert ComesBack(tmpl, "a", 0);
    assert ReachesCycle(tmpl, d);
    CirclesExactly(tmpl, d);
  }

  // ---- the chain, without the loop -----------------------------------------

  /** What Python takes for false. */
  predicate Falsy(v: Value) {
    || v == Text("") || v == List([]) || v == Tuple([]) || v == Dict(map[])
    || (v.Scalar? && !v.truthy)
  }

  /** The object `d` extends the template `e`. */
  predicate ExtendsTo(tmpl: Object, d: Object, e: Object) {
    && "!extends" in d && d["!extends"].Text? && !Falsy(d["!extends"])
    && d["!extends"].text in tmpl && tmpl[d["!extends"].text] == Dict(e)
  }

  predicate ExtendsNothing(d: Object) {
    "!extends" !in d || Falsy(d["!extends"])
  }

  /** What `d` says it extends is no template that is an object. */
  predicate ExtendsBadly(tmpl: Object, d: Object) {
    !ExtendsNothing(d)
    && (d["!extends"].Text? ==> d["!extends"].text !in tmpl || !tmpl[d["!extends"].text].Dict?)
  }

  /** From `d` on each object extends the next. */
  predicate Walks(tmpl: Object, d: Object, c: seq<Object>) {
    c != [] && c[0] == d && forall i | 0 <= i < |c| - 1 :: ExtendsTo(tmpl, c[i], c[i + 1])
  }

  /** The chain of extension of `d`, whole. */
  predicate IsChain(tmpl: Object, d: Object, c: seq<Object>) {
    Walks(tmpl, d, c) && ExtendsNothing(c[|c| - 1])
  }

  predicate BreaksOff(tmpl: Object, d: Object, c: seq<Object>) {
    Walks(tmpl, d, c) && ExtendsBadly(tmpl, c[|c| - 1])
  }

  /** `c` is the walk that `w` tells of, where it comes to an end. */
  predicate IsWalkOf(tmpl: Object, d: Object, w: Walk, c: seq<Object>) {
    && (w.Ends? ==> w.chain == c && IsChain(tmpl, d, c))
    && (w.Raises? ==> BreaksOff(tmpl, d, c))
  }

  lemma WalksOn(tmpl: Object, d: Object, e: Object, c: seq<Object>)
    requires ExtendsTo(tmpl, d, e) && Walks(tmpl, e, c)
    ensures Walks(tmpl, d, [d] + c)
  {
  }

  lemma {:induction false} FollowWalks(tmpl: Object, d: Object, seen: set<string>) returns (c: seq<Object>)
    ensures IsWalkOf(tmpl, d, Follow(tmpl, d, seen), c)
    decreases tmpl.Keys - seen
  {
    c := [d];
    if LinkOf(d).LinkTo? {
      var m := LinkOf(d).name;
      if m in tmpl && tmpl[m].Dict? && m !in seen {
        var e := tmpl[m].attrs;
        var rest := FollowWalks(tmpl, e, seen + {m});
        if Walks(tmpl, e, rest) {
          WalksOn(tmpl, d, e, rest);
        }
        c := [d] + rest;
      }
    }
  }

  lemma {:induction false} WalkIsOnlyOne(tmpl: Object, d: Object, a: seq<Object>, b: seq<Object>)
    requires IsChain(tmpl, d, a) || BreaksOff(tmpl, d, a)
    requires IsChain(tmpl, d, b) || BreaksOff(tmpl, d, b)
    ensures a == b
    decreases |a|
  {
    if |a| > 1 && |b| > 1 {
      assert ExtendsTo(tmpl, a[0], a[1]) && ExtendsTo(tmpl, b[0], b[1]);
      WalkIsOnlyOne(tmpl, a[1], a[1..], b[1..]);
      assert a == [d] + a[1..] && b == [d] + b[1..];
    } else {
      assert |a| > 1 ==> ExtendsTo(tmpl, a[0], a[1]);
      assert |b| > 1 ==> ExtendsTo(tmpl, b[0], b[1]);
    }
  }

  lemma {:induction false} WalkEnds(tmpl: Object, d: Object, c: seq<Object>)
    requires IsChain(tmpl, d, c) || BreaksOff(tmpl, d, c)
    ensures Jump(tmpl, d, |c| - 1).None?
    decreases |c|
  {
    if |c| > 1 {
      assert ExtendsTo(tmpl, c[0], c[1]);
      WalkEnds(tmpl, c[1], c[1..]);
    }
  }

  ghost predicate CannotFollow(tmpl: Object, d: Object) {
    exists c: seq<Object> :: BreaksOff(tmpl, d, c)
  }

  /** The loop collects the chain of extension, the object first and each template
      behind what extends it; it raises if and only if the chain breaks off. */
  lemma FollowExactly(tmpl: Object, d: Object, c: seq<Object>)
    ensures Follow(tmpl, d, {}) == Ends(c) <==> IsChain(tmpl, d, c)
    ensures Follow(tmpl, d, {}) == Raises <==> CannotFollow(tmpl, d)
  {
    var r := FollowWalks(tmpl, d, {});
    if IsChain(tmpl, d, c) {
      WalkDecides(tmpl, d, c, r);
    }
    if CannotFollow(tmpl, d) {
      var b: seq<Object> :| BreaksOff(tmpl, d, b);
      WalkDecides(tmpl, d, b, r);
    }
  }

  lemma FollowIsEither(tmpl: Object, d: Object)
    requires Follow(tmpl, d, {}) != Circles
    ensures var w := Follow(tmpl, d, {});
            if w.Ends? then IsChain(tmpl, d, w.chain) else CannotFollow(tmpl, d)
  {
    var r := FollowWalks(tmpl, d, {});
  }

  /** Once some walk ends or breaks off, the loop does not go on for ever, and its
      walk is that one. */
  lemma WalkDecides(tmpl: Object, d: Object, c: seq<Object>, r: seq<Object>)
    requires IsChain(tmpl, d, c) || BreaksOff(tmpl, d, c)
    requires IsWalkOf(tmpl, d, Follow(tmpl, d, {}), r)
    ensures Follow(tmpl, d, {}) != Circles && r == c
  {
    WalkEnds(tmpl, d, c);
    CirclesExactly(tmpl, d);
    WalkIsOnlyOne(tmpl, d, c, r);
  }

  /** Each attribute of an expanded object is the expansion of its nearest definition
      along the chain of extension, and it has no other attribute. */
  lemma ExpandIsNearest(tmpl: Object, d: Object, c: seq<Object>, lvl: nat, k: string)
    requires lvl <= MAX_DEPTH && IsChain(tmpl, d, c) && Expand(tmpl, Dict(d), lvl).Some?
    ensures var r, i := Expand(tmpl, Dict(d), lvl).value, Nearest(c, k);
            && r.Dict?
            && (k in r.attrs <==> k != "!extends" && exists j :: 0 <= j < |c| && k in c[j])
            && (k in r.attrs ==> Some(r.attrs[k]) == Expand(tmpl, c[i][k], lvl + 1))
  {
    FollowExactly(tmpl, d, c);
    OverlayIsNearest(c, k);
  }

  /** An object has an expansion if and only if its chain is whole and each nearest
      definition has one. */
  lemma ExpandsExactly(tmpl: Object, d: Object, lvl: nat)
    requires lvl <= MAX_DEPTH
    ensures Expand(tmpl, Dict(d), lvl).Some? <==> ChainExpands(tmpl, d, lvl + 1)
  {
    if ChainExpands(tmpl, d, lvl + 1) {
      var c: seq<Object> :| IsChain(tmpl, d, c) && AllExpand(tmpl, c, lvl + 1);
      FollowExactly(tmpl, d, c);
      var merged := Overlay(c) - {EXTENDS};
      forall k | k in merged ensures Expand(tmpl, merged[k], lvl + 1).Some? {
        OverlayIsNearest(c, k);
      }
    }
    if Expand(tmpl, Dict(d), lvl).Some? {
      var c := Follow(tmpl, d, {}).chain;
      FollowExactly(tmpl, d, c);
      var merged := Overlay(c) - {EXTENDS};
      forall k | k != "!extends" && Nearest(c, k) < |c| ensures Expand(tmpl, c[Nearest(c, k)][k], lvl + 1).Some? {
        OverlayIsNearest(c, k);
        assert k in merged;
      }
      assert AllExpand(tmpl, c, lvl + 1);
    }
  }

  ghost predicate ChainExpands(tmpl: Object, d: Object, lvl: nat)
    requires lvl <= MAX_DEPTH + 1
  {
    exists c: seq<Object> :: IsChain(tmpl, d, c) && AllExpand(tmpl, c, lvl)
  }

  ghost predicate AllExpand(tmpl: Object, c: seq<Object>, lvl: nat)
    requires lvl <= MAX_DEPTH + 1
  {
    forall k | k != "!extends" && Nearest(c, k) < |c| :: Expand(tmpl, c[Nearest(c, k)][k], lvl).Some?
  }

  /** Lists in lists, `n` deep. */
  function Nested(n: nat): Value {
    if n == 0 then Text("x") else List([Nested(n - 1)])
  }

  /** Sixty-four levels below the first are expanded, and no more. */
  lemma DepthExactly(tmpl: Object, n: nat)
    ensures Expand(tmpl, Nested(n), 0).Some? <==> n <= 64
  {
    NestedExpands(tmpl, n, 0);
  }

  lemma {:induction false} NestedExpands(tmpl: Object, n: nat, lvl: nat)
    requires lvl <= 65
    ensures Expand(tmpl, Nested(n), lvl).Some? <==> n + lvl <= 64
    decreases n
  {
    if n > 0 && lvl <= 64 {
      NestedExpands(tmpl, n - 1, lvl + 1);
      assert ExpandItems(tmpl, [Nested(n - 1)][1..], lvl + 1) == Some([]);
    }
  }

  /** Extension goes down in `rank`. */
  ghost predicate AcyclicTemplates(tmpl: Object, rank: map<string, nat>) {
    forall n | n in tmpl && tmpl[n].Dict? ::
      n in rank && match LinkOf(tmpl[n].attrs)
                   case LinkTo(m) => m in tmpl && m in rank ==> rank[m] < rank[n]
                   case _ => true
  }

  /** With acyclic templates the loop always ends. */
  lemma {:induction false} AcyclicEnds(tmpl: Object, d: Object, seen: set<string>, rank: map<string, nat>)
    requires AcyclicTemplates(tmpl, rank)
    requires match LinkOf(d)
             case LinkTo(m) => m in tmpl && tmpl[m].Dict? ==> forall n | n in seen :: n in rank && rank[m] < rank[n]
             case _ => true
    ensures Follow(tmpl, d, seen) != Circles
    decreases tmpl.Keys - seen
  {
    match LinkOf(d)
    case LinkTo(m) =>
      if m in tmpl && tmpl[m].Dict? && m !in seen {
        AcyclicEnds(tmpl, tmpl[m].attrs, seen + {m}, rank);
      }
    case _ =>
  }

  /** How many turns the loop takes from `d`, when it has ended by turn `k`. */
  function Turns(tmpl: Object, d: Object, k: nat): (i: nat)
    requires Jump(tmpl, d, k).None?
    ensures Jump(tmpl, d, i).None?
    ensures i > 0 ==> Jump(tmpl, d, i - 1).Some?
    decreases k
  {
    if k == 0 || Jump(tmpl, d, k - 1).Some? then k else Turns(tmpl, d, k - 1)
  }

  lemma TurnsAgree(tmpl: Object, d: Object, i: nat, j: nat)
    requires Jump(tmpl, d, i).None? && (i > 0 ==> Jump(tmpl, d, i - 1).Some?)
    requires Jump(tmpl, d, j).None? && (j > 0 ==> Jump(tmpl, d, j - 1).Some?)
    ensures i == j
  {
    if i < j {
      JumpEarlier(tmpl, d, i, j - 1);
    } else if j < i {
      JumpEarlier(tmpl, d, j, i - 1);
    }
  }

  ghost function TurnsOf(tmpl: Object, d: Object): (i: nat)
    requires !NeverEnds(tmpl, d)
    ensures Jump(tmpl, d, i).None? && (i > 0 ==> Jump(tmpl, d, i - 1).Some?)
  {
    var k: nat :| Jump(tmpl, d, k).None?;
    Turns(tmpl, d, k)
  }

  lemma TurnsBehind(tmpl: Object, d: Object)
    requires LinkOf(d).LinkTo? && LinkOf(d).name in tmpl && tmpl[LinkOf(d).name].Dict?
    requires !NeverEnds(tmpl, d)
    ensures !NeverEnds(tmpl, tmpl[LinkOf(d).name].attrs)
    ensures TurnsOf(tmpl, tmpl[LinkOf(d).name].attrs) < TurnsOf(tmpl, d)
  {
    var t, i := tmpl[LinkOf(d).name].attrs, TurnsOf(tmpl, d);
    assert Jump(tmpl, d, 0).Some?;
    assert Jump(tmpl, t, i - 1) == Jump(tmpl, d, i);
    assert i > 1 ==> Jump(tmpl, t, i - 2) == Jump(tmpl, d, i - 1);
    TurnsAgree(tmpl, t, TurnsOf(tmpl, t), i - 1);
  }

  ghost predicate CanBeRanked(tmpl: Object) {
    exists rank: map<string, nat> :: AcyclicTemplates(tmpl, rank)
  }

  /** Templates can be ranked if and only if none comes back to itself, so the rank
      asked for by `AcyclicEnds` is there whenever every walk ends. */
  lemma AcyclicExactly(tmpl: Object)
    ensures CanBeRanked(tmpl) <==> !HasCycle(tmpl)
  {
    CyclesExactly(tmpl);
    if CanBeRanked(tmpl) {
      var rank: map<string, nat> :| AcyclicTemplates(tmpl, rank);
      forall d: Object ensures Follow(tmpl, d, {}) != Circles {
        AcyclicEnds(tmpl, d, {}, rank);
      }
    }
    if !HasCycle(tmpl) {
      forall d: Object ensures !NeverEnds(tmpl, d) {
        CirclesExactly(tmpl, d);
      }
      var rank: map<string, nat> := map n | n in tmpl && tmpl[n].Dict? :: TurnsOf(tmpl, tmpl[n].attrs);
      forall n | n in rank && LinkOf(tmpl[n].attrs).LinkTo? && LinkOf(tmpl[n].attrs).name in rank
        ensures rank[LinkOf(tmpl[n].attrs).name] < rank[n]
      {
        TurnsBehind(tmpl, tmpl[n].attrs);
      }
      assert AcyclicTemplates(tmpl, rank);
    }
  }

  /** The first loop of `_expand_dict`. A walk that circles never comes back
      from it. */
  method Collect(tmpl: Object, dct: Object) returns (lst: Option<seq<Object>>)
    requires Follow(tmpl, dct, {}) != Circles
    ensures lst == match Follow(tmpl, dct, {}) case Ends(chain) => Some(chain) case _ => None
    ensures if lst.Some? then IsChain(tmpl, dct, lst.value) else CannotFollow(tmpl, dct)
  {
    FollowIsEither(tmpl, dct);
    var acc, last := [dct], dct;
    ghost var pre, seen: set<string> := [], {};
    while LinkOf(last) != NoLink
      invariant acc == pre + [last]
      invariant Follow(tmpl, dct, {}) == Prepend(pre, Follow(tmpl, last, seen))
      decreases tmpl.Keys - seen
    {
      var link := LinkOf(last);
      if link == BadLink || link.name !in tmpl || !tmpl[link.name].Dict? {
        return None;
      }
      seen := seen + {link.name};
      PrependTwice(pre, last, Follow(tmpl, tmpl[link.name].attrs, seen));
      pre := pre + [last];
      last := tmpl[link.name].attrs;
      acc := acc + [last];
    }
    lst := Some(acc);
  }

  /** The second loop: pop from the end, so the base comes first. */
  method Merge(lst: seq<Object>) returns (tmp: Object)
    ensures tmp == Overlay(lst) - {EXTENDS}
  {
    tmp := map[];
    var rest := lst;
    while |rest| > 0
      invariant |rest| <= |lst| && rest == lst[..|rest|]
      invariant tmp == Overlay(lst[|rest|..])
    {
      var n := |rest| - 1;
      assert lst[n..][1..] == lst[n + 1..];
      tmp := tmp + rest[n];
      rest := rest[..n];
    }
    assert lst[0..] == lst;
    tmp := tmp - {EXTENDS};
  }

  function Prepend(pre: seq<Object>, w: Walk): Walk {
    match w
    case Ends(c) => Ends(pre + c)
    case _ => w
  }

  lemma PrependTwice(a: seq<Object>, d: Object, w: Walk)
    ensures Prepend(a, Prepend([d], w)) == Prepend(a + [d], w)
  {
    if w.Ends? {
      assert a + ([d] + w.chain) == a + [d] + w.chain;
    }
  }
}
