/** Comparison that ignores the order of lists (`obj_xeq` and `XCmp.xeq` in
    LDMS_Test.py). */
module XCompare {
  import opened Lists
  import opened Options

  /** What is compared. A dictionary lists its keys in increasing order and a
      value for each; a record is an instance of a class derived from `XCmp` with
      its attributes in order; an address is an `LdmsAddr`. */
  datatype Value =
    | Nothing
    | Num(n: int)
    | Str(s: string)
    | List(items: seq<Value>)
    | Dict(keys: seq<string>, vals: seq<Value>)
    | Rec(cls: nat, fields: seq<Value>)
    | Addr(family: int, port: int, addr: seq<int>)

  /** A comparison says yes or no, or raises. */
  datatype Answer = Yes | No | Raise

  const AF_INET6 := 10

  /** Ten zero bytes and two of all ones, then an IPv4 address. */
  predicate IsMapped(a: seq<int>) {
    |a| >= 12 && (forall i | 0 <= i < 10 :: a[i] == 0) && a[10] == a[11] == 255
  }

  /** `as_ipv6`: anything but an IPv6 address is put into the IPv4-mapped form of
      section 2.5.5.2 of RFC 4291. */
  function AsIPv6(v: Value): (r: Value)
    requires v.Addr?
    ensures r.Addr? && r.family == AF_INET6 && r.port == v.port
    ensures v.family == AF_INET6 ==> r.addr == v.addr
    ensures v.family != AF_INET6 && |v.addr| == 4 ==> |r.addr| == 16 && IsMapped(r.addr) && r.addr[12..] == v.addr
  {
    if v.family == AF_INET6 then v
    else Addr(AF_INET6, v.port, [0, 0, 0, 0, 0, 0, 0, 0, 0, 0] + [255, 255] + v.addr)
  }

  /** `list(b)`: a string gives its characters and a dictionary its keys. */
  function Iterate(b: Value): Option<seq<Value>> {
    match b
    case List(s) => Some(s)
    case Str(s) => Some(seq(|s|, i requires 0 <= i < |s| => Str([s[i]])))
    case Dict(k, _) => Some(seq(|k|, i requires 0 <= i < |k| => Str(k[i])))
    case _ => None
  }

  // ---- the comparison ------------------------------------------------------

  function Xeq(a: Value, b: Value): Answer
    decreases a, 0
  {
    match a
    case List(s) =>
      (match Iterate(b)
       case None => Raise
       case Some(l) => if |s| != |l| then No else ListXeq(s, l))
    case Dict(k, d) =>
      if !b.Dict? then Raise
      else if k != b.keys || |d| != |b.vals| then No
      else ValuesXeq(d, b.vals)
    case Rec(c, f) =>
      if !b.Rec? || c != b.cls || |f| != |b.fields| then Raise else FieldsXeq(f, b.fields)
    case Addr(_, _, _) =>
      if !b.Addr? then Raise else if AsIPv6(a) == AsIPv6(b) then Yes else No
    case _ => if a == b then Yes else No
  }

  datatype Found = At(index: nat) | NotFound | Raised

  /** The first element of `lx` that `a` is equal to. */
  function FindMatch(a: Value, lx: seq<Value>): (f: Found)
    ensures f.At? ==> f.index < |lx|
    decreases a, 1, |lx|
  {
    if lx == [] then NotFound
    else
      match Xeq(a, lx[0])
      case Yes => At(0)
      case Raise => Raised
      case No =>
        match FindMatch(a, lx[1..])
        case At(i) => At(i + 1)
        case f => f
  }

  function Without(lx: seq<Value>, i: nat): seq<Value>
    requires i < |lx|
  {
    lx[..i] + lx[i + 1..]
  }

  /** Greedy matching: each element takes the first equal one that is left. */
  function ListXeq(l0: seq<Value>, lx: seq<Value>): Answer
    decreases l0, 2
  {
    if l0 == [] then Yes
    else
      match FindMatch(l0[0], lx)
      case At(i) => ListXeq(l0[1..], Without(lx, i))
      case NotFound => No
      case Raised => Raise
  }

  function ValuesXeq(d0: seq<Value>, d1: seq<Value>): Answer
    requires |d0| == |d1|
    decreases d0, 2
  {
    if d0 == [] then Yes
    else
      match Xeq(d0[0], d1[0])
      case Yes => ValuesXeq(d0[1..], d1[1..])
      case r => r
  }

  /** Attributes that are `None` on either side match anything. */
  function FieldsXeq(f0: seq<Value>, f1: seq<Value>): Answer
    requires |f0| == |f1|
    decreases f0, 2
  {
    if f0 == [] then Yes
    else if f0[0].Nothing? || f1[0].Nothing? then FieldsXeq(f0[1..], f1[1..])
    else
      match Xeq(f0[0], f1[0])
      case Yes => FieldsXeq(f0[1..], f1[1..])
      case r => r
  }

  // ---- element by element --------------------------------------------------

  /** Neither attribute is `None`, so the two are compared. */
  predicate Compared(f0: seq<Value>, f1: seq<Value>, i: nat)
    requires |f0| == |f1|
  {
    i < |f0| && f0[i] != Nothing && f1[i] != Nothing
  }

  /** The first two attributes compared that are not equal, at `i`. */
  predicate FirstUnequal(f0: seq<Value>, f1: seq<Value>, i: nat)
    requires |f0| == |f1|
  {
    && Compared(f0, f1, i) && Xeq(f0[i], f1[i]) != Yes
    && forall j: nat | j < i && Compared(f0, f1, j) :: Xeq(f0[j], f1[j]) == Yes
  }

  /** Records agree if and only if every two attributes do that are both there, and
      otherwise the first two that do not tell the answer. */
  lemma {:induction false} FieldsExactly(f0: seq<Value>, f1: seq<Value>)
    requires |f0| == |f1|
    ensures FieldsXeq(f0, f1) == Yes <==> forall i: nat | Compared(f0, f1, i) :: Xeq(f0[i], f1[i]) == Yes
    ensures forall i: nat | FirstUnequal(f0, f1, i) :: FieldsXeq(f0, f1) == Xeq(f0[i], f1[i])
  {
    if f0 != [] {
      FieldsExactly(f0[1..], f1[1..]);
      forall i: nat ensures Compared(f0[1..], f1[1..], i) <==> Compared(f0, f1, i + 1) {}
      forall i: nat | FirstUnequal(f0, f1, i) ensures FieldsXeq(f0, f1) == Xeq(f0[i], f1[i]) {
        if i > 0 {
          assert FirstUnequal(f0[1..], f1[1..], i - 1);
          assert Compared(f0, f1, 0) ==> Xeq(f0[0], f1[0]) == Yes;
        }
      }
      if FieldsXeq(f0, f1) == Yes {
        forall i: nat | Compared(f0, f1, i) ensures Xeq(f0[i], f1[i]) == Yes {
          assert i > 0 ==> Compared(f0[1..], f1[1..], i - 1);
        }
      }
      if forall i: nat | Compared(f0, f1, i) :: Xeq(f0[i], f1[i]) == Yes {
        forall i: nat | Compared(f0[1..], f1[1..], i) ensures Xeq(f0[1..][i], f1[1..][i]) == Yes {
          assert Compared(f0, f1, i + 1);
        }
        assert !Compared(f0, f1, 0) || Xeq(f0[0], f1[0]) == Yes;
      }
    }
  }

  predicate FirstOther(d0: seq<Value>, d1: seq<Value>, i: nat)
    requires |d0| == |d1|
  {
    i < |d0| && Xeq(d0[i], d1[i]) != Yes && forall j | 0 <= j < i :: Xeq(d0[j], d1[j]) == Yes
  }

  /** Values of equal keys agree if and only if every two do, `None` included, and
      otherwise the first two that do not tell the answer. */
  lemma {:induction false} ValuesExactly(d0: seq<Value>, d1: seq<Value>)
    requires |d0| == |d1|
    ensures ValuesXeq(d0, d1) == Yes <==> forall i | 0 <= i < |d0| :: Xeq(d0[i], d1[i]) == Yes
    ensures forall i: nat | FirstOther(d0, d1, i) :: ValuesXeq(d0, d1) == Xeq(d0[i], d1[i])
  {
    if d0 != [] {
      ValuesExactly(d0[1..], d1[1..]);
      forall i: nat | FirstOther(d0, d1, i) ensures ValuesXeq(d0, d1) == Xeq(d0[i], d1[i]) {
        if i > 0 {
          forall j | 0 <= j < i - 1 ensures Xeq(d0[1..][j], d1[1..][j]) == Yes {
            assert d0[1..][j] == d0[j + 1] && d1[1..][j] == d1[j + 1];
          }
          assert FirstOther(d0[1..], d1[1..], i - 1);
        }
      }
      assert forall i | 0 <= i < |d0| - 1 :: d0[1..][i] == d0[i + 1] && d1[1..][i] == d1[i + 1];
    }
  }

  /** The search finds the first equal element, if it meets none before that with
      which the comparison raises. */
  lemma {:induction false} FindExactly(a: Value, lx: seq<Value>)
    ensures match FindMatch(a, lx)
            case At(i) => Xeq(a, lx[i]) == Yes && forall j | 0 <= j < i :: Xeq(a, lx[j]) == No
            case NotFound => forall j | 0 <= j < |lx| :: Xeq(a, lx[j]) == No
            case Raised => exists i: nat :: FirstRaise(a, lx, i)
  {
    if lx != [] && Xeq(a, lx[0]) == No {
      FindExactly(a, lx[1..]);
      assert forall j | 0 <= j < |lx| - 1 :: lx[1..][j] == lx[j + 1];
      if FindMatch(a, lx[1..]) == Raised {
        var i: nat :| FirstRaise(a, lx[1..], i);
        assert FirstRaise(a, lx, i + 1);
      }
    } else if lx != [] && Xeq(a, lx[0]) == Raise {
      assert FirstRaise(a, lx, 0);
    }
  }

  predicate FirstRaise(a: Value, lx: seq<Value>, i: nat) {
    i < |lx| && Xeq(a, lx[i]) == Raise && forall j | 0 <= j < i :: Xeq(a, lx[j]) == No
  }

  /** Which shapes raise at once, and which are simply unequal. */
  lemma ShapesExactly(a: Value, b: Value)
    ensures a.List? ==> (Xeq(a, b) == Raise <== !b.List? && !b.Str? && !b.Dict?)
    ensures a.List? && b.List? && |a.items| != |b.items| ==> Xeq(a, b) == No
    ensures a.Dict? && !b.Dict? ==> Xeq(a, b) == Raise
    ensures a.Dict? && b.Dict? && a.keys != b.keys ==> Xeq(a, b) == No
    ensures a.Rec? && (!b.Rec? || a.cls != b.cls) ==> Xeq(a, b) == Raise
    ensures a.Addr? && !b.Addr? ==> Xeq(a, b) == Raise
    ensures a.Nothing? || a.Num? || a.Str? ==> Xeq(a, b) == if a == b then Yes else No
  {
  }

  // ---- the greedy choice, without popping ----------------------------------

  /** `p[i]` is the first place not picked before that holds an equal of `l0[i]`,
      and nothing raises before it. */
  predicate PicksAt(l0: seq<Value>, lx: seq<Value>, p: seq<nat>, i: nat)
    requires i < |p| <= |l0|
  {
    && p[i] < |lx| && p[i] !in p[..i] && Xeq(l0[i], lx[p[i]]) == Yes
    && forall j: nat | j < p[i] && j !in p[..i] :: Xeq(l0[i], lx[j]) == No
  }

  predicate Picks(l0: seq<Value>, lx: seq<Value>, p: seq<nat>) {
    |p| <= |l0| && forall i | 0 <= i < |p| :: PicksAt(l0, lx, p, i)
  }

  /** Where an element meets the first raise among the places not picked. */
  predicate MeetsRaise(a: Value, lx: seq<Value>, p: seq<nat>, j: nat) {
    && j < |lx| && j !in p && Xeq(a, lx[j]) == Raise
    && forall i: nat | i < j && i !in p :: Xeq(a, lx[i]) == No
  }

  /** How the picking ends: everything has its place, or the next element has none, or
      meets one with which the comparison raises. */
  ghost predicate PickingEnds(l0: seq<Value>, lx: seq<Value>, p: seq<nat>, r: Answer)
    requires |p| <= |l0|
  {
    match r
    case Yes => |p| == |l0|
    case No => |p| < |l0| && forall j: nat | j < |lx| && j !in p :: Xeq(l0[|p|], lx[j]) == No
    case Raise => |p| < |l0| && exists j: nat :: MeetsRaise(l0[|p|], lx, p, j)
  }

  /** Places of the list without place `k`, in the list with it. */
  function Shift(q: seq<nat>, k: nat): (r: seq<nat>)
    ensures |r| == |q|
  {
    seq(|q|, i requires 0 <= i < |q| => ShiftOne(q[i], k))
  }

  function ShiftOne(j: nat, k: nat): nat {
    if j < k then j else j + 1
  }

  lemma ShiftMembers(q: seq<nat>, k: nat, j: nat)
    ensures k !in Shift(q, k)
    ensures ShiftOne(j, k) in Shift(q, k) <==> j in q
  {
    if j in q {
      var i :| 0 <= i < |q| && q[i] == j;
      assert Shift(q, k)[i] == ShiftOne(j, k);
    }
  }

  /** Every place but `k` is the shift of one. */
  function Unshift(j: nat, k: nat): (i: nat)
    requires j != k
    ensures ShiftOne(i, k) == j
  {
    if j < k then j else j - 1
  }

  lemma PicksShift(l0: seq<Value>, lx: seq<Value>, k: nat, q: seq<nat>, i: nat)
    requires l0 != [] && k < |lx| && i < |q| <= |l0| - 1 && PicksAt(l0[1..], Without(lx, k), q, i)
    ensures PicksAt(l0, lx, [k] + Shift(q, k), i + 1)
  {
    var p, rest := [k] + Shift(q, k), Without(lx, k);
    assert p[..i + 1] == [k] + Shift(q[..i], k);
    ShiftMembers(q[..i], k, q[i]);
    forall j: nat | j < p[i + 1] && j !in p[..i + 1] ensures Xeq(l0[i + 1], lx[j]) == No {
      ShiftMembers(q[..i], k, Unshift(j, k));
      assert rest[Unshift(j, k)] == lx[j];
    }
  }

  lemma EndsShift(l0: seq<Value>, lx: seq<Value>, k: nat, q: seq<nat>, r: Answer)
    requires l0 != [] && k < |lx| && |q| <= |l0| - 1 && PickingEnds(l0[1..], Without(lx, k), q, r)
    ensures PickingEnds(l0, lx, [k] + Shift(q, k), r)
  {
    var p, rest := [k] + Shift(q, k), Without(lx, k);
    if r != Yes {
      var a := l0[1..][|q|];
      if r == No {
        forall j: nat | j < |lx| && j !in p ensures Xeq(a, lx[j]) == No {
          ShiftMembers(q, k, Unshift(j, k));
          assert rest[Unshift(j, k)] == lx[j];
        }
      } else {
        var i: nat :| MeetsRaise(a, rest, q, i);
        ShiftMembers(q, k, i);
        forall j: nat | j < ShiftOne(i, k) && j !in p ensures Xeq(a, lx[j]) == No {
          ShiftMembers(q, k, Unshift(j, k));
          assert rest[Unshift(j, k)] == lx[j];
        }
        assert MeetsRaise(a, lx, p, ShiftOne(i, k));
      }
    }
  }

  lemma {:induction false} PicksOf(l0: seq<Value>, lx: seq<Value>) returns (p: seq<nat>)
    ensures Picks(l0, lx, p) && PickingEnds(l0, lx, p, ListXeq(l0, lx))
    decreases |l0|
  {
    p := [];
    if l0 != [] {
      FindExactly(l0[0], lx);
      var f := FindMatch(l0[0], lx);
      if f.At? {
        var q := PicksOf(l0[1..], Without(lx, f.index));
        p := [f.index] + Shift(q, f.index);
        forall i | 0 <= i < |p| ensures PicksAt(l0, lx, p, i) {
          if i > 0 {
            PicksShift(l0, lx, f.index, q, i - 1);
          }
        }
        EndsShift(l0, lx, f.index, q, ListXeq(l0, lx));
      } else if f.Raised? {
        var i: nat :| FirstRaise(l0[0], lx, i);
        assert MeetsRaise(l0[0], lx, p, i);
      }
    }
  }

  lemma {:induction false} PicksAgree(l0: seq<Value>, lx: seq<Value>, p: seq<nat>, q: seq<nat>, i: nat)
    requires Picks(l0, lx, p) && Picks(l0, lx, q) && i <= |p| && i <= |q|
    ensures p[..i] == q[..i]
    decreases i
  {
    if i > 0 {
      PicksAgree(l0, lx, p, q, i - 1);
      assert PicksAt(l0, lx, p, i - 1) && PicksAt(l0, lx, q, i - 1);
    }
  }

  /** Picking does not end where more can be picked. */
  lemma LongerGoesOn(l0: seq<Value>, lx: seq<Value>, p: seq<nat>, q: seq<nat>, r: Answer)
    requires Picks(l0, lx, p) && Picks(l0, lx, q) && |p| < |q|
    ensures !PickingEnds(l0, lx, p, r)
  {
    PicksAgree(l0, lx, p, q, |p|);
    assert p[..|p|] == p && PicksAt(l0, lx, q, |p|);
  }

  lemma EndsOnce(l0: seq<Value>, lx: seq<Value>, p: seq<nat>, r: Answer, q: seq<nat>, t: Answer)
    requires Picks(l0, lx, p) && PickingEnds(l0, lx, p, r)
    requires Picks(l0, lx, q) && PickingEnds(l0, lx, q, t)
    ensures |p| == |q| && r == t
  {
    if |p| < |q| {
      LongerGoesOn(l0, lx, p, q, r);
    } else if |q| < |p| {
      LongerGoesOn(l0, lx, q, p, t);
    } else {
      PicksAgree(l0, lx, p, q, |p|);
      assert p[..|p|] == p && q[..|q|] == q;
    }
  }

  ghost predicate CanEnd(l0: seq<Value>, lx: seq<Value>, r: Answer) {
    exists p: seq<nat> :: Picks(l0, lx, p) && PickingEnds(l0, lx, p, r)
  }

  /** Greedy matching gives the answer at which the picking of first free places ends,
      wildcards or not. */
  lemma ListXeqExactly(l0: seq<Value>, lx: seq<Value>, r: Answer)
    ensures ListXeq(l0, lx) == r <==> CanEnd(l0, lx, r)
  {
    var q := PicksOf(l0, lx);
    if CanEnd(l0, lx, r) {
      var p: seq<nat> :| Picks(l0, lx, p) && PickingEnds(l0, lx, p, r);
      EndsOnce(l0, lx, p, r, q, ListXeq(l0, lx));
    }
  }

  // ---- normal forms --------------------------------------------------------

  /** Values up to the order of every list and the notation of addresses. */
  datatype Norm =
    | NNothing
    | NNum(n: int)
    | NStr(s: string)
    | NList(items: multiset<Norm>)
    | NDict(keys: seq<string>, vals: seq<Norm>)
    | NRec(cls: nat, fields: seq<Norm>)
    | NAddr(port: int, addr: seq<int>)

  function NormOf(v: Value): Norm
    decreases v, 0
  {
    match v
    case Nothing => NNothing
    case Num(n) => NNum(n)
    case Str(s) => NStr(s)
    case List(s) => NList(multiset(Norms(s)))
    case Dict(k, d) => NDict(k, Norms(d))
    case Rec(c, f) => NRec(c, Norms(f))
    case Addr(_, p, _) => NAddr(p, AsIPv6(v).addr)
  }

  function Norms(s: seq<Value>): (r: seq<Norm>)
    ensures |r| == |s| && forall i | 0 <= i < |s| :: r[i] == NormOf(s[i])
    decreases s, 1
  {
    if s == [] then [] else [NormOf(s[0])] + Norms(s[1..])
  }

  /** No record has a `None` attribute. */
  predicate NoWildcards(v: Value)
    decreases v
  {
    match v
    case List(s) => forall x | x in s :: NoWildcards(x)
    case Dict(_, d) => forall x | x in d :: NoWildcards(x)
    case Rec(_, f) => forall x | x in f :: !x.Nothing? && NoWildcards(x)
    case _ => true
  }

  /** Nowhere in the comparison does a list meet a string or a dictionary, which
      Python would silently turn into lists of their parts. */
  predicate NoCoercion(a: Value, b: Value)
    decreases a
  {
    match a
    case List(s) => !b.Str? && !b.Dict? && (b.List? ==> forall x, y | x in s && y in b.items :: NoCoercion(x, y))
    case Dict(k, d) =>
      b.Dict? && k == b.keys && |d| == |b.vals| ==> forall i | 0 <= i < |d| :: NoCoercion(d[i], b.vals[i])
    case Rec(_, s) => b.Rec? ==> forall i | 0 <= i < |s| && i < |b.fields| :: NoCoercion(s[i], b.fields[i])
    case _ => true
  }

  ghost predicate Right(a: Value, b: Value, r: Answer) {
    (r == Yes ==> NormOf(a) == NormOf(b)) && (r == No ==> NormOf(a) != NormOf(b))
  }

  /** On values without wildcards a comparison that answers is right: equal means
      equal up to the order of lists. */
  lemma {:induction false} XeqDecides(a: Value, b: Value)
    requires NoWildcards(a) && NoWildcards(b) && NoCoercion(a, b)
    ensures Right(a, b, Xeq(a, b))
    decreases a, 0
  {
    match a
    case List(s) =>
      if b.List? {
        NormsCount(s, b.items);
        if |s| == |b.items| { ListDecides(s, b.items); }
      }
    case Dict(k, d) =>
      if b.Dict? && k == b.keys && |d| == |b.vals| { ValuesDecide(d, b.vals); }
    case Rec(_, f) =>
      if b.Rec? && |f| == |b.fields| { FieldsDecide(f, b.fields); }
    case Addr(_, _, _) =>
    case _ =>
  }

  lemma NormsCount(s: seq<Value>, t: seq<Value>)
    ensures multiset(Norms(s)) == multiset(Norms(t)) ==> |s| == |t|
  {
    assert |multiset(Norms(s))| == |s| && |multiset(Norms(t))| == |t|;
  }

  lemma {:induction false} FindDecides(a: Value, lx: seq<Value>)
    requires NoWildcards(a) && forall y | y in lx :: NoWildcards(y) && NoCoercion(a, y)
    ensures match FindMatch(a, lx)
            case At(i) => NormOf(a) == NormOf(lx[i])
            case NotFound => NormOf(a) !in Norms(lx)
            case Raised => true
    decreases a, 1, |lx|
  {
    if lx != [] {
      XeqDecides(a, lx[0]);
      FindDecides(a, lx[1..]);
    }
  }

  lemma {:induction false} NormsConcat(a: seq<Value>, b: seq<Value>)
    ensures Norms(a + b) == Norms(a) + Norms(b)
  {
    if a == [] {
      assert a + b == b;
    } else {
      assert (a + b)[1..] == a[1..] + b;
      NormsConcat(a[1..], b);
    }
  }

  lemma NormsWithout(lx: seq<Value>, i: nat)
    requires i < |lx|
    ensures multiset(Norms(lx)) == multiset(Norms(Without(lx, i))) + multiset{NormOf(lx[i])}
  {
    var a, b, v := lx[..i], lx[i + 1..], lx[i];
    SplitAt(lx, i);
    NormsConcat(a, [v] + b);
    NormsCons(v, b);
    NormsConcat(a, b);
    MultisetMiddle(Norms(a), NormOf(v), Norms(b));
  }

  lemma NormsCons(v: Value, b: seq<Value>)
    ensures Norms([v] + b) == [NormOf(v)] + Norms(b)
  {
    assert ([v] + b)[1..] == b;
  }

  lemma MultisetMiddle(a: seq<Norm>, x: Norm, b: seq<Norm>)
    ensures multiset(a + ([x] + b)) == multiset(a + b) + multiset{x}
  {
  }

  lemma AddOne(a: multiset<Norm>, b: multiset<Norm>, x: Norm)
    ensures multiset{x} + a == b + multiset{x} <==> a == b
  {
    if multiset{x} + a == b + multiset{x} {
      assert a == multiset{x} + a - multiset{x} == b + multiset{x} - multiset{x} == b;
    }
  }

  ghost predicate RightList(l0: seq<Value>, lx: seq<Value>) {
    && (ListXeq(l0, lx) == Yes ==> multiset(Norms(l0)) == multiset(Norms(lx)))
    && (ListXeq(l0, lx) == No ==> multiset(Norms(l0)) != multiset(Norms(lx)))
  }

  lemma NormsHead(l0: seq<Value>)
    requires l0 != []
    ensures multiset(Norms(l0)) == multiset{NormOf(l0[0])} + multiset(Norms(l0[1..]))
  {
    assert Norms(l0) == [NormOf(l0[0])] + Norms(l0[1..]);
  }

  lemma Matched(l0: seq<Value>, lx: seq<Value>, i: nat)
    requires l0 != [] && i < |lx| && FindMatch(l0[0], lx) == At(i) && NormOf(l0[0]) == NormOf(lx[i])
    requires RightList(l0[1..], Without(lx, i))
    ensures RightList(l0, lx)
  {
    NormsHead(l0);
    NormsWithout(lx, i);
    AddOne(multiset(Norms(l0[1..])), multiset(Norms(Without(lx, i))), NormOf(l0[0]));
  }

  lemma Unmatched(l0: seq<Value>, lx: seq<Value>)
    requires l0 != [] && FindMatch(l0[0], lx) == NotFound && NormOf(l0[0]) !in Norms(lx)
    ensures RightList(l0, lx)
  {
    NormsHead(l0);
    assert NormOf(l0[0]) !in multiset(Norms(lx));
  }

  /** Greedy matching never has to reconsider. */
  lemma {:induction false} ListDecides(l0: seq<Value>, lx: seq<Value>)
    requires forall x | x in l0 :: NoWildcards(x)
    requires forall y | y in lx :: NoWildcards(y)
    requires forall x, y | x in l0 && y in lx :: NoCoercion(x, y)
    requires |l0| == |lx|
    ensures RightList(l0, lx)
    decreases l0, 2
  {
    if l0 != [] {
      FindDecides(l0[0], lx);
      match FindMatch(l0[0], lx)
      case At(i) =>
        ListDecides(l0[1..], Without(lx, i));
        Matched(l0, lx, i);
      case NotFound =>
        Unmatched(l0, lx);
      case Raised =>
    }
  }

  lemma {:induction false} ValuesDecide(d0: seq<Value>, d1: seq<Value>)
    requires |d0| == |d1|
    requires forall x | x in d0 :: NoWildcards(x)
    requires forall x | x in d1 :: NoWildcards(x)
    requires forall i | 0 <= i < |d0| :: NoCoercion(d0[i], d1[i])
    ensures ValuesXeq(d0, d1) == Yes ==> Norms(d0) == Norms(d1)
    ensures ValuesXeq(d0, d1) == No ==> Norms(d0) != Norms(d1)
    decreases d0, 2
  {
    if d0 != [] {
      XeqDecides(d0[0], d1[0]);
      ValuesDecide(d0[1..], d1[1..]);
      assert Norms(d0)[1..] == Norms(d0[1..]) && Norms(d1)[1..] == Norms(d1[1..]);
    }
  }

  lemma {:induction false} FieldsDecide(f0: seq<Value>, f1: seq<Value>)
    requires |f0| == |f1|
    requires forall x | x in f0 :: !x.Nothing? && NoWildcards(x)
    requires forall x | x in f1 :: !x.Nothing? && NoWildcards(x)
    requires forall i | 0 <= i < |f0| :: NoCoercion(f0[i], f1[i])
    ensures FieldsXeq(f0, f1) == Yes ==> Norms(f0) == Norms(f1)
    ensures FieldsXeq(f0, f1) == No ==> Norms(f0) != Norms(f1)
    decreases f0, 2
  {
    if f0 != [] {
      assert f0[0] in f0 && f1[0] in f1;
      XeqDecides(f0[0], f1[0]);
      FieldsDecide(f0[1..], f1[1..]);
      assert Norms(f0)[1..] == Norms(f0[1..]) && Norms(f1)[1..] == Norms(f1[1..]);
    }
  }

  // ---- values of the same shape --------------------------------------------

  /** The two values fit together wherever the comparison looks: lists with
      lists, dictionaries with dictionaries, records of one class, anything with a
      number, a string or nothing. */
  predicate Comparable(a: Value, b: Value)
    decreases a
  {
    match a
    case List(s) => b.List? && forall x, y | x in s && y in b.items :: Comparable(x, y)
    case Dict(k, d) =>
      b.Dict? && (k == b.keys && |d| == |b.vals| ==> forall i | 0 <= i < |d| :: Comparable(d[i], b.vals[i]))
    case Rec(c, f) =>
      && b.Rec? && c == b.cls && |f| == |b.fields|
      && forall i | 0 <= i < |f| :: f[i].Nothing? || b.fields[i].Nothing? || Comparable(f[i], b.fields[i])
    case Addr(_, _, _) => b.Addr?
    case _ => true
  }

  /** Then the comparison never raises. */
  lemma {:induction false} ComparableAnswers(a: Value, b: Value)
    requires Comparable(a, b)
    ensures Xeq(a, b) != Raise
    decreases a, 0
  {
    match a
    case List(s) => ListAnswers(s, b.items);
    case Dict(k, d) => if k == b.keys && |d| == |b.vals| { ValuesAnswer(d, b.vals); }
    case Rec(_, f) => FieldsAnswer(f, b.fields);
    case _ =>
  }

  lemma {:induction false} FindAnswers(a: Value, lx: seq<Value>)
    requires forall y | y in lx :: Comparable(a, y)
    ensures FindMatch(a, lx) != Raised
    decreases a, 1, |lx|
  {
    if lx != [] {
      ComparableAnswers(a, lx[0]);
      FindAnswers(a, lx[1..]);
    }
  }

  lemma {:induction false} ListAnswers(l0: seq<Value>, lx: seq<Value>)
    requires forall x, y | x in l0 && y in lx :: Comparable(x, y)
    ensures ListXeq(l0, lx) != Raise
    decreases l0, 2
  {
    if l0 != [] {
      FindAnswers(l0[0], lx);
      match FindMatch(l0[0], lx)
      case At(i) => ListAnswers(l0[1..], Without(lx, i));
      case _ =>
    }
  }

  lemma {:induction false} ValuesAnswer(d0: seq<Value>, d1: seq<Value>)
    requires |d0| == |d1| && forall i | 0 <= i < |d0| :: Comparable(d0[i], d1[i])
    ensures ValuesXeq(d0, d1) != Raise
    decreases d0, 2
  {
    if d0 != [] {
      ComparableAnswers(d0[0], d1[0]);
      ValuesAnswer(d0[1..], d1[1..]);
    }
  }

  lemma {:induction false} FieldsAnswer(f0: seq<Value>, f1: seq<Value>)
    requires |f0| == |f1|
    requires forall i | 0 <= i < |f0| :: f0[i].Nothing? || f1[i].Nothing? || Comparable(f0[i], f1[i])
    ensures FieldsXeq(f0, f1) != Raise
    decreases f0, 2
  {
    if f0 != [] {
      if !f0[0].Nothing? && !f1[0].Nothing? { ComparableAnswers(f0[0], f1[0]); }
      FieldsAnswer(f0[1..], f1[1..]);
    }
  }

  lemma {:induction false} ComparableNoCoercion(a: Value, b: Value)
    requires Comparable(a, b) && NoWildcards(a) && NoWildcards(b)
    ensures NoCoercion(a, b)
    decreases a
  {
    match a
    case List(s) =>
      forall x, y | x in s && y in b.items ensures NoCoercion(x, y) { ComparableNoCoercion(x, y); }
    case Dict(k, d) =>
      if k == b.keys && |d| == |b.vals| {
        forall i | 0 <= i < |d| ensures NoCoercion(d[i], b.vals[i]) { ComparableNoCoercion(d[i], b.vals[i]); }
      }
    case Rec(_, f) =>
      forall i | 0 <= i < |f| ensures NoCoercion(f[i], b.fields[i]) {
        assert f[i] in f && b.fields[i] in b.fields;
        ComparableNoCoercion(f[i], b.fields[i]);
      }
    case _ =>
  }

  /** On values of one shape and without wildcards the comparison is equality of
      normal forms ... */
  lemma XeqIsNormEquality(a: Value, b: Value)
    requires Comparable(a, b) && NoWildcards(a) && NoWildcards(b)
    ensures Xeq(a, b) == if NormOf(a) == NormOf(b) then Yes else No
  {
    ComparableNoCoercion(a, b);
    ComparableAnswers(a, b);
    XeqDecides(a, b);
  }

  /** ... hence an equivalence. */
  lemma XeqEquivalence(a: Value, b: Value, c: Value)
    requires NoWildcards(a) && NoWildcards(b) && NoWildcards(c)
    requires Comparable(a, a) && Comparable(a, b) && Comparable(b, a) && Comparable(b, c) && Comparable(a, c)
    ensures Xeq(a, a) == Yes
    ensures Xeq(a, b) == Xeq(b, a)
    ensures Xeq(a, b) == Yes && Xeq(b, c) == Yes ==> Xeq(a, c) == Yes
  {
    XeqIsNormEquality(a, a);
    XeqIsNormEquality(a, b);
    XeqIsNormEquality(b, a);
    XeqIsNormEquality(b, c);
    XeqIsNormEquality(a, c);
  }

  // ---- with wildcards ------------------------------------------------------

  /** `p` pairs the elements of `l0` one to one with elements of `l1` they are
      equal to. */
  ghost predicate Pairs(l0: seq<Value>, l1: seq<Value>, p: seq<nat>) {
    && |p| == |l0|
    && (forall i | 0 <= i < |p| :: p[i] < |l1| && Xeq(l0[i], l1[p[i]]) == Yes)
    && (forall i, j | 0 <= i < j < |p| :: p[i] != p[j])
  }

  lemma {:induction false} FindFinds(a: Value, lx: seq<Value>)
    requires FindMatch(a, lx).At?
    ensures Xeq(a, lx[FindMatch(a, lx).index]) == Yes
    decreases |lx|
  {
    if Xeq(a, lx[0]) != Yes {
      FindFinds(a, lx[1..]);
    }
  }

  /** Even with wildcards a yes for two lists means that their elements pair up
      one to one. */
  lemma {:induction false} YesMeansPairs(l0: seq<Value>, lx: seq<Value>) returns (p: seq<nat>)
    requires ListXeq(l0, lx) == Yes
    ensures Pairs(l0, lx, p)
    decreases |l0|
  {
    if l0 == [] {
      p := [];
    } else {
      var k := FindMatch(l0[0], lx).index;
      FindFinds(l0[0], lx);
      var q := YesMeansPairs(l0[1..], Without(lx, k));
      p := PairFirst(l0, lx, k, q);
    }
  }

  lemma PairFirst(l0: seq<Value>, lx: seq<Value>, k: nat, q: seq<nat>) returns (p: seq<nat>)
    requires l0 != [] && k < |lx| && Xeq(l0[0], lx[k]) == Yes
    requires Pairs(l0[1..], Without(lx, k), q)
    ensures Pairs(l0, lx, p)
  {
    var tail, rest := l0[1..], Without(lx, k);
    p := [k] + seq(|q|, i requires 0 <= i < |q| => if q[i] < k then q[i] else q[i] + 1);
    forall i | 0 <= i < |p| ensures p[i] < |lx| && Xeq(l0[i], lx[p[i]]) == Yes {
      if i > 0 {
        assert Xeq(tail[i - 1], rest[q[i - 1]]) == Yes;
        assert tail[i - 1] == l0[i] && rest[q[i - 1]] == lx[p[i]];
      }
    }
    forall i, j | 0 <= i < j < |p| ensures p[i] != p[j] {
      assert i > 0 ==> q[i - 1] != q[j - 1];
    }
  }

  /** Records with one attribute compare as that attribute does. */
  lemma OneField(c: nat, v: Value, w: Value)
    requires v.Num? || v.Nothing?
    requires w.Num? || w.Nothing?
    ensures Xeq(Rec(c, [v]), Rec(c, [w])) == if v.Nothing? || w.Nothing? || v == w then Yes else No
  {
    assert [v][1..] == [] && [w][1..] == [];
    assert FieldsXeq([v][1..], [w][1..]) == Yes;
    assert FieldsXeq([v], [w]) == if v.Nothing? || w.Nothing? || v == w then Yes else No by {
      assert v.Num? && w.Num? ==> Xeq(v, w) == if v == w then Yes else No;
    }
    assert Rec(c, [v]).Rec? && Rec(c, [v]).fields == [v];
    assert Xeq(Rec(c, [v]), Rec(c, [w])) == FieldsXeq([v], [w]);
  }

  /** The greedy choice can be wrong when wildcards are about: the elements pair
      up, yet the answer is no. */
  lemma WildcardsMislead(c: nat)
    ensures var any, one, two := Rec(c, [Nothing]), Rec(c, [Num(1)]), Rec(c, [Num(2)]);
            Pairs([any, one], [one, two], [1, 0]) && ListXeq([any, one], [one, two]) == No
  {
    var any, one, two := Rec(c, [Nothing]), Rec(c, [Num(1)]), Rec(c, [Num(2)]);
    OneField(c, Nothing, Num(1));
    OneField(c, Nothing, Num(2));
    OneField(c, Num(1), Num(1));
    OneField(c, Num(1), Num(2));
    assert [one, two][1..] == [two] && Without([one, two], 0) == [two] && [any, one][1..] == [one];
    assert FindMatch(any, [one, two]) == At(0);
    assert [two][1..] == [] && FindMatch(one, [two]) == NotFound;
  }

  // ---- exactly when greedy matching is right --------------------------------

  /** Whenever `x` is equal to `y'` and `x'` to `y`, comparing `x` with `y` does not
      raise, and if those two are equal so are `x'` and `y'`. */
  predicate Tame(a: set<Value>, b: set<Value>) {
    forall x, x', y, y' | x in a && x' in a && y in b && y' in b ::
      Xeq(x, y') == Yes && Xeq(x', y) == Yes ==> Xeq(x, y) != Raise && (Xeq(x, y) == Yes ==> Xeq(x', y') == Yes)
  }

  predicate From(l: seq<Value>, a: set<Value>) {
    forall x | x in l :: x in a
  }

  /** The elements of two lists pair up one to one, none left over. */
  ghost predicate PairUp(l0: seq<Value>, l1: seq<Value>) {
    |l0| == |l1| && exists p :: Pairs(l0, l1, p)
  }

  /** Two lists are found equal if and only if their elements pair up. */
  ghost predicate GreedyIsRight(l0: seq<Value>, l1: seq<Value>) {
    Xeq(List(l0), List(l1)) == Yes <==> PairUp(l0, l1)
  }

  ghost predicate AlwaysRight(a: set<Value>, b: set<Value>) {
    forall l0, l1 | From(l0, a) && From(l1, b) :: GreedyIsRight(l0, l1)
  }

  /** The indices below `n`. */
  lemma {:induction false} UpTo(n: nat) returns (s: set<nat>)
    ensures |s| == n && forall i: nat :: i in s <==> i < n
    decreases n
  {
    s := {};
    if n > 0 {
      s := UpTo(n - 1);
      s := s + {n - 1};
    }
  }

  lemma {:induction false} DifferentCount(p: seq<nat>) returns (s: set<nat>)
    requires Distinct(p)
    ensures |s| == |p| && forall i :: i in s <==> i in p
    decreases |p|
  {
    s := {};
    if p != [] {
      var n := |p| - 1;
      s := DifferentCount(p[..n]);
      assert p == p[..n] + [p[n]];
      assert p[n] !in p[..n];
      s := s + {p[n]};
    }
  }

  lemma SubsetOfSameSize(a: set<nat>, b: set<nat>)
    requires a <= b && |a| == |b|
    ensures a == b
  {
    assert |b - a| == |b| - |a| by { assert b == a + (b - a); }
  }

  /** One to one between lists of equal length leaves nothing over. */
  lemma Owner(l0: seq<Value>, l1: seq<Value>, p: seq<nat>, k: nat) returns (j: nat)
    requires Pairs(l0, l1, p) && |l0| == |l1| && k < |l1|
    ensures j < |p| && p[j] == k
  {
    var s := DifferentCount(p);
    var all := UpTo(|l1|);
    SubsetOfSameSize(s, all);
    assert k in p;
    j :| 0 <= j < |p| && p[j] == k;
  }

  /** With a partner in the list and nothing raising, a match is found. */
  lemma {:induction false} FindSome(a: Value, lx: seq<Value>)
    requires exists y | y in lx :: Xeq(a, y) == Yes
    requires forall y | y in lx :: Xeq(a, y) != Raise
    ensures FindMatch(a, lx).At?
    decreases |lx|
  {
    if Xeq(a, lx[0]) != Yes {
      var y :| y in lx && Xeq(a, y) == Yes;
      assert lx == [lx[0]] + lx[1..];
      assert y in lx[1..];
      FindSome(a, lx[1..]);
    }
  }

  /** The first element can take the greedy choice: its owner takes the old partner. */
  lemma Exchange(l0: seq<Value>, lx: seq<Value>, p: seq<nat>, k: nat, a: set<Value>, b: set<Value>)
    returns (q: seq<nat>)
    requires From(l0, a) && From(lx, b) && Tame(a, b) && |l0| == |lx| && l0 != []
    requires Pairs(l0, lx, p) && k < |lx| && Xeq(l0[0], lx[k]) == Yes
    ensures Pairs(l0, lx, q) && q[0] == k
  {
    var j := Owner(l0, lx, p, k);
    q := p[j := p[0]][0 := k];
    assert l0[0] in l0 && l0[j] in l0 && lx[k] in lx && lx[p[0]] in lx;
    assert Xeq(l0[j], lx[p[0]]) == Yes;
  }

  /** The pairing of the rest, once the first element and its partner are gone. */
  lemma DropFirst(l0: seq<Value>, lx: seq<Value>, p: seq<nat>) returns (q: seq<nat>)
    requires Pairs(l0, lx, p) && l0 != []
    ensures Pairs(l0[1..], Without(lx, p[0]), q)
  {
    var k, tail, rest := p[0], l0[1..], Without(lx, p[0]);
    q := seq(|p| - 1, i requires 0 <= i < |p| - 1 => if p[i + 1] < k then p[i + 1] else (p[i + 1] - 1) as nat);
    forall i | 0 <= i < |q| ensures q[i] < |rest| && Xeq(tail[i], rest[q[i]]) == Yes {
      assert p[i + 1] != k;
      assert tail[i] == l0[i + 1] && rest[q[i]] == lx[p[i + 1]];
    }
    forall i, j | 0 <= i < j < |q| ensures q[i] != q[j] {
      assert p[i + 1] != p[j + 1] && p[i + 1] != k && p[j + 1] != k;
    }
  }

  lemma FirstIsFound(l0: seq<Value>, lx: seq<Value>, p: seq<nat>, a: set<Value>, b: set<Value>)
    requires From(l0, a) && From(lx, b) && Tame(a, b) && |l0| == |lx| && l0 != []
    requires Pairs(l0, lx, p)
    ensures FindMatch(l0[0], lx).At?
  {
    assert lx[p[0]] in lx && l0[0] in l0;
    forall y | y in lx ensures Xeq(l0[0], y) != Raise {
      var i :| 0 <= i < |lx| && lx[i] == y;
      var j := Owner(l0, lx, p, i);
      assert l0[j] in l0;
    }
    FindSome(l0[0], lx);
  }

  lemma {:induction false} TamePairsFound(l0: seq<Value>, lx: seq<Value>, p: seq<nat>, a: set<Value>, b: set<Value>)
    requires From(l0, a) && From(lx, b) && Tame(a, b) && |l0| == |lx|
    requires Pairs(l0, lx, p)
    ensures ListXeq(l0, lx) == Yes
    decreases |l0|
  {
    if l0 != [] {
      FirstIsFound(l0, lx, p, a, b);
      var k := FindMatch(l0[0], lx).index;
      FindFinds(l0[0], lx);
      var q := Exchange(l0, lx, p, k, a, b);
      var r := DropFirst(l0, lx, q);
      TamePairsFound(l0[1..], Without(lx, k), r, a, b);
    }
  }

  lemma CrossPairs(l0: seq<Value>, l1: seq<Value>)
    requires |l0| == |l1| == 2 && Xeq(l0[0], l1[1]) == Yes && Xeq(l0[1], l1[0]) == Yes
    ensures PairUp(l0, l1)
  {
    var p: seq<nat> := [1, 0];
    assert Pairs(l0, l1, p);
  }

  /** Two elements are found in a crossed pair only if the greedy choice for the
      first does no harm. */
  lemma TwoAgainstTwo(l0: seq<Value>, l1: seq<Value>)
    requires |l0| == |l1| == 2 && ListXeq(l0, l1) == Yes
    ensures Xeq(l0[0], l1[0]) != Raise
    ensures Xeq(l0[0], l1[0]) == Yes ==> Xeq(l0[1], l1[1]) == Yes
  {
    if Xeq(l0[0], l1[0]) == Yes {
      var rest := Without(l1, 0);
      assert FindMatch(l0[0], l1) == At(0);
      assert l0[1..][0] == l0[1] && rest == [l1[1]];
      FindFinds(l0[1], rest);
    }
  }

  lemma TameIsRight(a: set<Value>, b: set<Value>, l0: seq<Value>, l1: seq<Value>)
    requires Tame(a, b) && From(l0, a) && From(l1, b)
    ensures GreedyIsRight(l0, l1)
  {
    if Xeq(List(l0), List(l1)) == Yes {
      var p := YesMeansPairs(l0, l1);
    }
    if PairUp(l0, l1) {
      var p :| Pairs(l0, l1, p);
      TamePairsFound(l0, l1, p, a, b);
    }
  }

  lemma RightIsTame(a: set<Value>, b: set<Value>, l0: seq<Value>, l1: seq<Value>)
    requires AlwaysRight(a, b) && From(l0, a) && From(l1, b)
    requires |l0| == |l1| == 2 && Xeq(l0[0], l1[1]) == Yes && Xeq(l0[1], l1[0]) == Yes
    ensures Xeq(l0[0], l1[0]) != Raise
    ensures Xeq(l0[0], l1[0]) == Yes ==> Xeq(l0[1], l1[1]) == Yes
  {
    CrossPairs(l0, l1);
    assert GreedyIsRight(l0, l1);
    TwoAgainstTwo(l0, l1);
  }

  /** Greedy matching finds every pairing, for all lists drawn from two sets of
      values, if and only if the two sets are tame. */
  lemma GreedyExact(a: set<Value>, b: set<Value>)
    ensures AlwaysRight(a, b) <==> Tame(a, b)
  {
    if Tame(a, b) {
      forall l0, l1 | From(l0, a) && From(l1, b) ensures GreedyIsRight(l0, l1) {
        TameIsRight(a, b, l0, l1);
      }
    }
    if AlwaysRight(a, b) {
      forall x, x', y, y' | x in a && x' in a && y in b && y' in b && Xeq(x, y') == Yes && Xeq(x', y) == Yes
        ensures Xeq(x, y) != Raise && (Xeq(x, y) == Yes ==> Xeq(x', y') == Yes)
      {
        RightIsTame(a, b, [x, x'], [y, y']);
      }
    }
  }

  // ---- lists against strings and dictionaries -------------------------------

  function Words(k: seq<string>): (r: seq<Norm>)
    ensures |r| == |k| && forall i | 0 <= i < |k| :: r[i] == NStr(k[i])
  {
    seq(|k|, i requires 0 <= i < |k| => NStr(k[i]))
  }

  function Letters(t: string): (r: seq<Norm>)
    ensures |r| == |t| && forall i | 0 <= i < |t| :: r[i] == NStr([t[i]])
  {
    seq(|t|, i requires 0 <= i < |t| => NStr([t[i]]))
  }

  lemma StringsDecide(s: seq<Value>, l: seq<Value>)
    requires |s| == |l|
    requires (forall x | x in s :: !x.List?) && (forall y | y in l :: y.Str?)
    ensures ListXeq(s, l) == Yes <==> multiset(Norms(s)) == multiset(Norms(l))
  {
    if forall x | x in s :: x.Str? {
      ListDecides(s, l);
      ListAnswers(s, l);
    } else {
      var i :| 0 <= i < |s| && !s[i].Str?;
      OtherThanString(s, l, i);
    }
  }

  lemma OtherThanString(s: seq<Value>, l: seq<Value>, i: nat)
    requires i < |s| && !s[i].Str? && !s[i].List? && forall y | y in l :: y.Str?
    ensures ListXeq(s, l) != Yes && multiset(Norms(s)) != multiset(Norms(l))
  {
    NormsApart(s, l, i);
    if ListXeq(s, l) == Yes {
      var p := YesMeansPairs(s, l);
      assert l[p[i]] in l;
      NotAString(s[i], l[p[i]]);
    }
  }

  lemma NotAString(x: Value, y: Value)
    requires !x.Str? && !x.List? && y.Str?
    ensures Xeq(x, y) != Yes
  {
  }

  lemma NormsApart(s: seq<Value>, l: seq<Value>, i: nat)
    requires i < |s| && !s[i].Str? && forall y | y in l :: y.Str?
    ensures multiset(Norms(s)) != multiset(Norms(l))
  {
    NormsAreWords(l);
    Foreign(Norms(s), Norms(l), i);
  }

  lemma NormsAreWords(l: seq<Value>)
    requires forall y | y in l :: y.Str?
    ensures forall i | 0 <= i < |l| :: Norms(l)[i].NStr?
  {
    forall i | 0 <= i < |l| ensures Norms(l)[i].NStr? {
      assert l[i] in l;
    }
  }

  lemma Foreign(a: seq<Norm>, b: seq<Norm>, i: nat)
    requires i < |a| && !a[i].NStr? && forall j | 0 <= j < |b| :: b[j].NStr?
    ensures multiset(a) != multiset(b)
  {
    assert a[i] in multiset(a);
    assert a[i] !in b;
    assert a[i] !in multiset(b);
  }

  lemma ListMeetsWords(s: seq<Value>, b: Value, l: seq<Value>)
    requires (forall x | x in s :: !x.List?) && Iterate(b) == Some(l) && forall y | y in l :: y.Str?
    ensures Xeq(List(s), b) == Yes <==> multiset(Norms(s)) == multiset(Norms(l))
  {
    NormsCount(s, l);
    if |s| == |l| {
      StringsDecide(s, l);
    }
  }

  /** A list without nested lists is equal to a dictionary if and only if its
      elements are the keys, in any order and whatever the values; the other way
      round the comparison raises. */
  lemma ListMeetsDictionary(s: seq<Value>, k: seq<string>, d: seq<Value>)
    requires forall x | x in s :: !x.List?
    ensures Xeq(List(s), Dict(k, d)) == Yes <==> multiset(Norms(s)) == multiset(Words(k))
    ensures Xeq(Dict(k, d), List(s)) == Raise
  {
    KeyNorms(k);
    ListMeetsWords(s, Dict(k, d), Keys(k));
  }

  function Keys(k: seq<string>): (l: seq<Value>)
    ensures Iterate(Dict(k, [])) == Some(l) && |l| == |k|
    ensures forall y | y in l :: y.Str?
  {
    seq(|k|, i requires 0 <= i < |k| => Str(k[i]))
  }

  lemma KeyNorms(k: seq<string>)
    ensures Norms(Keys(k)) == Words(k)
  {
  }

  function Parts(t: string): (l: seq<Value>)
    ensures Iterate(Str(t)) == Some(l) && |l| == |t|
    ensures forall y | y in l :: y.Str?
  {
    seq(|t|, i requires 0 <= i < |t| => Str([t[i]]))
  }

  lemma PartNorms(t: string)
    ensures Norms(Parts(t)) == Letters(t)
  {
  }

  /** Likewise for a string and its letters; the other way round they differ. */
  lemma ListMeetsString(s: seq<Value>, t: string)
    requires forall x | x in s :: !x.List?
    ensures Xeq(List(s), Str(t)) == Yes <==> multiset(Norms(s)) == multiset(Letters(t))
    ensures Xeq(Str(t), List(s)) == No
  {
    PartNorms(t);
    ListMeetsWords(s, Str(t), Parts(t));
  }

  /** Addresses are equal exactly when their ports are and their bytes, the bytes of
      an IPv4 address being taken in the mapped form. */
  lemma AddressesMeet(p: int, a: seq<int>, q: int, b: seq<int>, v4: int)
    requires v4 != AF_INET6 && |a| == 4
    ensures Xeq(Addr(v4, p, a), Addr(AF_INET6, q, b)) == Yes <==> p == q && |b| == 16 && IsMapped(b) && b[12..] == a
    ensures |b| == 4 ==> (Xeq(Addr(v4, p, a), Addr(v4, q, b)) == Yes <==> p == q && a == b)
  {
    var m := AsIPv6(Addr(v4, p, a)).addr;
    if |b| == 16 && IsMapped(b) && b[12..] == a {
      forall i | 0 <= i < 16 ensures b[i] == m[i] {
        assert i >= 12 ==> b[i] == b[12..][i - 12] && m[i] == m[12..][i - 12];
      }
      assert b == m;
    }
    if |b| == 4 {
      var n := AsIPv6(Addr(v4, q, b)).addr;
      assert m == n ==> m[12..] == n[12..];
    }
  }

  // ---- the loops -----------------------------------------------------------

  /** `obj_xeq` */
  method ObjXeq(a: Value, b: Value) returns (r: Answer)
    ensures r == Xeq(a, b)
    decreases a, 0
  {
    match a
    case List(s) =>
      match Iterate(b) {
        case None => r := Raise;
        case Some(l) =>
          if |s| != |l| { r := No; } else { r := ListLoop(s, l); }
      }
    case Dict(k, d) =>
      if !b.Dict? { r := Raise; }
      else if k != b.keys || |d| != |b.vals| { r := No; }
      else { r := ValuesLoop(d, b.vals); }
    case Rec(c, f) =>
      if !b.Rec? || c != b.cls || |f| != |b.fields| { r := Raise; } else { r := FieldsLoop(f, b.fields); }
    case Addr(_, _, _) =>
      if !b.Addr? { r := Raise; } else { r := if AsIPv6(a) == AsIPv6(b) then Yes else No; }
    case _ => r := if a == b then Yes else No;
  }

  /** The inner loop of `list_xeq`. */
  method Search(a: Value, lx: seq<Value>) returns (f: Found)
    ensures f == FindMatch(a, lx)
    decreases a, 1
  {
    var i := 0;
    while i < |lx|
      invariant i <= |lx|
      invariant FindMatch(a, lx) == match FindMatch(a, lx[i..]) case At(k) => At(k + i) case g => g
      decreases |lx| - i
    {
      assert lx[i..][1..] == lx[i + 1..];
      var r := ObjXeq(a, lx[i]);
      if r == Yes { return At(i); }
      if r == Raise { return Raised; }
      i := i + 1;
    }
    f := NotFound;
  }

  /** `list_xeq`: what has been matched is popped from a copy. */
  method ListLoop(l0: seq<Value>, l1: seq<Value>) returns (r: Answer)
    ensures r == ListXeq(l0, l1)
    decreases l0, 2
  {
    var lx := l1;
    for i := 0 to |l0|
      invariant ListXeq(l0, l1) == ListXeq(l0[i..], lx)
    {
      assert l0[i..][1..] == l0[i + 1..];
      var f := Search(l0[i], lx);
      match f {
        case At(k) => lx := lx[..k] + lx[k + 1..];
        case NotFound => return No;
        case Raised => return Raise;
      }
    }
    r := Yes;
  }

  /** The loop of `dict_xeq`, over equal keys. */
  method ValuesLoop(d0: seq<Value>, d1: seq<Value>) returns (r: Answer)
    requires |d0| == |d1|
    ensures r == ValuesXeq(d0, d1)
    decreases d0, 2
  {
    for i := 0 to |d0|
      invariant ValuesXeq(d0, d1) == ValuesXeq(d0[i..], d1[i..])
    {
      assert d0[i..][1..] == d0[i + 1..] && d1[i..][1..] == d1[i + 1..];
      r := ObjXeq(d0[i], d1[i]);
      if r != Yes { return; }
    }
    r := Yes;
  }

  /** The loop of `XCmp.xeq`, over the attributes. */
  method FieldsLoop(f0: seq<Value>, f1: seq<Value>) returns (r: Answer)
    requires |f0| == |f1|
    ensures r == FieldsXeq(f0, f1)
    decreases f0, 2
  {
    for i := 0 to |f0|
      invariant FieldsXeq(f0, f1) == FieldsXeq(f0[i..], f1[i..])
    {
      assert f0[i..][1..] == f0[i + 1..] && f1[i..][1..] == f1[i + 1..];
      if !f0[i].Nothing? && !f1[i].Nothing? {
        r := ObjXeq(f0[i], f1[i]);
        if r != Yes { return; }
      }
    }
    r := Yes;
  }
}
