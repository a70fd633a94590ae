/** Lists without repetition, and their places. */
module Lists {
  predicate Distinct<T(==)>(s: seq<T>) {
    forall i, j | 0 <= i < j < |s| :: s[i] != s[j]
  }

  predicate Apart<T(==)>(a: seq<T>, b: seq<T>) {
    forall x | x in a :: x !in b
  }

  lemma DistinctJoin<T>(a: seq<T>, b: seq<T>)
    requires Distinct(a) && Distinct(b)
    requires Apart(a, b)
    ensures Distinct(a + b)
  {
    var s := a + b;
    forall i, j | 0 <= i < j < |s| ensures s[i] != s[j] {
      if i < |a| <= j {
        assert s[i] in a && s[j] in b;
      }
    }
  }

  /** Taking an element out keeps a list free of repetition, and it is gone. */
  lemma DistinctWithout<T>(s: seq<T>, k: nat)
    requires Distinct(s) && k < |s|
    ensures Distinct(s[..k] + s[k + 1..]) && s[k] !in s[..k] + s[k + 1..]
  {
    var t := s[..k] + s[k + 1..];
    assert forall i | 0 <= i < |t| :: t[i] == if i < k then s[i] else s[i + 1];
  }

  lemma SplitAt<T>(s: seq<T>, i: nat)
    requires i < |s|
    ensures s == s[..i] + ([s[i]] + s[i + 1..])
  {
  }

  lemma {:induction false} DistinctOnce<T>(s: seq<T>, x: T)
    requires Distinct(s)
    ensures multiset(s)[x] <= 1
  {
    if s != [] {
      DistinctOnce(s[1..], x);
      assert s == [s[0]] + s[1..];
      assert s[0] !in s[1..];
    }
  }

  lemma TwiceAtLeastTwo<T>(s: seq<T>, i: nat, j: nat)
    requires i < j < |s| && s[i] == s[j]
    ensures multiset(s)[s[i]] >= 2
  {
    assert s == s[..i] + [s[i]] + s[i + 1..j] + [s[j]] + s[j + 1..];
  }

  /** A rearrangement of a list without repetition has none. */
  lemma RearrangedDistinct<T>(a: seq<T>, b: seq<T>)
    requires Distinct(b) && multiset(a) == multiset(b)
    ensures Distinct(a) && |a| == |b|
    ensures forall x :: x in a <==> x in b
  {
    forall i, j | 0 <= i < j < |a| ensures a[i] != a[j] {
      DistinctOnce(b, a[i]);
      if a[i] == a[j] { TwiceAtLeastTwo(a, i, j); }
    }
    RearrangedMembers(a, b);
  }

  lemma RearrangedMembers<T>(a: seq<T>, b: seq<T>)
    requires multiset(a) == multiset(b)
    ensures |a| == |b| && forall x :: x in a <==> x in b
  {
    assert |a| == |multiset(a)| == |multiset(b)| == |b|;
    forall x ensures x in a <==> x in b {
      assert x in a <==> x in multiset(a);
      assert x in b <==> x in multiset(b);
    }
  }

  lemma WithoutOne<T>(s: seq<T>, p: nat)
    requires p < |s|
    ensures multiset(s) == multiset(s[..p] + s[p + 1..]) + multiset{s[p]}
  {
    assert s == s[..p] + [s[p]] + s[p + 1..];
  }

  /** Rearranged lists stay so without one element of each that is the same. */
  lemma RestRearranged<T>(a: seq<T>, b: seq<T>, p: nat)
    requires a != [] && p < |b| && b[p] == a[0] && multiset(a) == multiset(b)
    ensures multiset(a[1..]) == multiset(b[..p] + b[p + 1..])
  {
    WithoutOne(a, 0);
    WithoutOne(b, p);
    assert a[..0] + a[1..] == a[1..];
    Cancel(multiset(a[1..]), multiset(b[..p] + b[p + 1..]), a[0]);
  }

  lemma Cancel<T>(a: multiset<T>, b: multiset<T>, x: T)
    requires a + multiset{x} == b + multiset{x}
    ensures a == b
  {
    assert a == a + multiset{x} - multiset{x};
    assert b == b + multiset{x} - multiset{x};
  }

  /** The elements that `f` takes, in order. */
  function Filter<T>(s: seq<T>, f: T -> bool): seq<T> {
    if s == [] then [] else Taken(s[0], f) + Filter(s[1..], f)
  }

  lemma {:induction false} FilterConcat<T>(a: seq<T>, b: seq<T>, f: T -> bool)
    ensures Filter(a + b, f) == Filter(a, f) + Filter(b, f)
  {
    if a == [] {
      assert a + b == b;
    } else {
      FilterConcat(a[1..], b, f);
      FilterFront(a, f);
      FilterFront(a + b, f);
      assert (a + b)[1..] == a[1..] + b;
      Regroup(Taken(a[0], f), Filter(a[1..], f), Filter(b, f));
    }
  }

  function Taken<T>(x: T, f: T -> bool): seq<T> {
    if f(x) then [x] else []
  }

  lemma FilterFront<T>(s: seq<T>, f: T -> bool)
    requires s != []
    ensures Filter(s, f) == Taken(s[0], f) + Filter(s[1..], f)
  {
  }

  lemma Regroup<T>(a: seq<T>, b: seq<T>, c: seq<T>)
    ensures a + (b + c) == (a + b) + c
  {
  }

  lemma {:induction false} FilterNone<T>(s: seq<T>, f: T -> bool)
    requires forall i | 0 <= i < |s| :: !f(s[i])
    ensures Filter(s, f) == []
  {
    if s != [] {
      FilterNone(s[1..], f);
    }
  }

  /** An element put in between, with none that `f` takes behind it if it takes that. */
  lemma FilterInsert<T>(a: seq<T>, x: T, b: seq<T>, f: T -> bool)
    requires f(x) ==> forall i | 0 <= i < |b| :: !f(b[i])
    ensures Filter(a + [x] + b, f) == Filter(a + b, f) + Filter([x], f)
  {
    FilterConcat(a, b, f);
    FilterConcat(a + [x], b, f);
    FilterConcat(a, [x], f);
    FilterEither(x, b, f);
    SwapNone(Filter(a, f), Filter([x], f), Filter(b, f));
  }

  lemma FilterEither<T>(x: T, b: seq<T>, f: T -> bool)
    requires f(x) ==> forall i | 0 <= i < |b| :: !f(b[i])
    ensures Filter([x], f) == [] || Filter(b, f) == []
  {
    if f(x) {
      FilterNone(b, f);
    } else {
      FilterNone([x], f);
    }
  }

  lemma SwapNone<T>(a: seq<T>, x: seq<T>, b: seq<T>)
    requires x == [] || b == []
    ensures a + x + b == a + b + x
  {
  }

  function SetOf<T>(s: seq<T>): set<T> {
    set x | x in s
  }

  /** `SAMPLERS_IDX` and its like: a dictionary made by a comprehension keeps the
      last place of a name. */
  function IndexOf<T(==)>(names: seq<T>, x: T): (i: nat)
    requires x in names
    ensures i < |names| && names[i] == x
  {
    var n := |names| - 1;
    if names[n] == x then n else
      assert names == names[..n] + [names[n]];
      IndexOf(names[..n], x)
  }
}
