/** The reference-counted completion protocol of python/ldms_ls.py, as the steps of
    its threads. The library calls `lookup_cb` once for every set, in order, with
    `more` cleared on the last, and `update_cb` once for every update asked for.
    Each step is what a thread does under the lock, or between two of those. */
module LsProtocol {
  import opened Options

  /** The update of one set: not asked for, under way, its data recorded but its
      reference still held, over. */
  datatype Upd = NotYet | Asked | Recorded | Over

  /** Where the lookup callback of set `next` is. */
  datatype Lookup = Before | Got | Updating

  /** The thread in `wait_zero`: about to test the count, asleep on the condition,
      back with an answer. */
  datatype Waiter = Testing | Asleep | Back(zero: bool)

  datatype World = World(count: nat, next: nat, lookup: Lookup, upd: seq<Upd>, got: set<string>,
                         waiter: Waiter, failed: bool)

  datatype Action =
    | LookupGet
    | LookupUpdate
    | LookupEnd
    | Record(i: nat)
    | Release(i: nat)
    | Test
    | Wake
    | GiveUp

  /** After `ref_count.get()` and `x.lookup()` of the main routine. */
  function Start(n: nat): World {
    World(1, 0, Before, seq(n, i => NotYet), {}, Testing, false)
  }

  /** `put`: the assertion, the decrement and the notification. */
  function Put(w: World): World {
    if w.count == 0 then w.(failed := true)
    else w.(count := w.count - 1, waiter := if w.count == 1 && w.waiter == Asleep then Testing else w.waiter)
  }

  /** What an action makes of the world; nothing when it cannot happen. */
  function Step(names: seq<string>, w: World, a: Action): Option<World>
    requires |names| == |w.upd|
  {
    var n := |names|;
    match a
    case LookupGet =>
      if w.next < n && w.lookup == Before then Some(w.(count := w.count + 1, lookup := Got)) else None
    case LookupUpdate =>
      if w.next < n && w.lookup == Got then Some(w.(lookup := Updating, upd := w.upd[w.next := Asked])) else None
    case LookupEnd =>
      if w.next < n && w.lookup == Updating then
        var ended := w.(lookup := Before, next := w.next + 1);
        Some(if w.next + 1 < n then ended else Put(ended))
      else None
    case Record(i) =>
      if i < n && w.upd[i] == Asked then Some(w.(upd := w.upd[i := Recorded], got := w.got + {names[i]})) else None
    case Release(i) =>
      if i < n && w.upd[i] == Recorded then Some(Put(w.(upd := w.upd[i := Over]))) else None
    case Test =>
      if w.waiter != Testing then None
      else if w.count > 0 then Some(w.(waiter := Asleep))
      else Some(w.(waiter := Back(true)))
    case Wake => if w.waiter == Asleep then Some(w.(waiter := Testing)) else None
    case GiveUp => if w.waiter == Testing && w.count > 0 then Some(w.(waiter := Back(false))) else None
  }

  /** Actions that cannot happen are passed over. */
  function Run(names: seq<string>, actions: seq<Action>): (w: World)
    ensures |w.upd| == |names|
  {
    if actions == [] then Start(|names|)
    else
      var w := Run(names, actions[..|actions| - 1]);
      match Step(names, w, actions[|actions| - 1])
      case None => w
      case Some(v) => v
  }

  // ---- what every step keeps -----------------------------------------------

  function Held(upd: seq<Upd>): nat {
    if upd == [] then 0 else Held(upd[..|upd| - 1]) + if upd[|upd| - 1] in {Asked, Recorded} then 1 else 0
  }

  /** References taken for a set and not put down yet. */
  function Outstanding(w: World): nat {
    Held(w.upd) + if w.lookup == Got then 1 else 0
  }

  /** The reference of the lookup itself goes with the last callback. */
  predicate LookupUnfinished(w: World) {
    w.next < |w.upd| || w.upd == []
  }

  predicate InOrder(w: World) {
    && w.next <= |w.upd|
    && (w.lookup != Before ==> w.next < |w.upd|)
    && (forall i | 0 <= i < |w.upd| :: w.upd[i] == NotYet <==> i > w.next || (i == w.next && w.lookup != Updating))
  }

  /** The count is exact, and the waiter sees it so. */
  predicate Counted(w: World) {
    && !w.failed
    && InOrder(w)
    && w.count == Outstanding(w) + (if LookupUnfinished(w) then 1 else 0)
    && (w.waiter == Asleep ==> w.count > 0)
    && (w.waiter == Back(true) ==> w.count == 0)
  }

  /** The data of every set whose update has come is there. */
  predicate HasData(names: seq<string>, w: World) {
    forall i | 0 <= i < |w.upd| && i < |names| :: w.upd[i] in {Recorded, Over} ==> names[i] in w.got
  }

  predicate Kept(names: seq<string>, w: World) {
    |names| == |w.upd| && Counted(w) && HasData(names, w)
  }

  lemma {:induction false} HeldUpdate(upd: seq<Upd>, i: nat, u: Upd)
    requires i < |upd|
    ensures Held(upd[i := u]) + (if upd[i] in {Asked, Recorded} then 1 else 0)
            == Held(upd) + (if u in {Asked, Recorded} then 1 else 0)
    decreases |upd|
  {
    var n := |upd| - 1;
    var v := upd[i := u];
    if i < n {
      HeldUpdate(upd[..n], i, u);
      assert v[..n] == upd[..n][i := u];
    } else {
      assert v[..n] == upd[..n];
    }
  }

  lemma {:induction false} HeldNone(upd: seq<Upd>)
    ensures Held(upd) == 0 <==> forall i | 0 <= i < |upd| :: upd[i] !in {Asked, Recorded}
    decreases |upd|
  {
    if upd != [] {
      var n := |upd| - 1;
      HeldNone(upd[..n]);
      assert upd == upd[..n] + [upd[n]];
    }
  }

  /** A reference of a set is counted, so putting it down cannot fail. */
  lemma HeldSome(upd: seq<Upd>, i: nat)
    requires i < |upd| && upd[i] in {Asked, Recorded}
    ensures Held(upd) > 0
  {
    HeldNone(upd);
  }

  lemma LookupStepCounts(names: seq<string>, w: World, a: Action)
    requires |names| == |w.upd| && Counted(w) && a in {LookupGet, LookupUpdate, LookupEnd}
    requires Step(names, w, a).Some?
    ensures Counted(Step(names, w, a).value)
  {
    if a == LookupUpdate {
      HeldUpdate(w.upd, w.next, Asked);
    }
  }

  lemma UpdateStepCounts(names: seq<string>, w: World, a: Action)
    requires |names| == |w.upd| && Counted(w) && (a.Record? || a.Release?)
    requires Step(names, w, a).Some?
    ensures Counted(Step(names, w, a).value)
  {
    match a
    case Record(i) => HeldUpdate(w.upd, i, Recorded);
    case Release(i) =>
      HeldSome(w.upd, i);
      HeldUpdate(w.upd, i, Over);
  }

  lemma WaiterStepCounts(names: seq<string>, w: World, a: Action)
    requires |names| == |w.upd| && Counted(w) && OfWaiter(a)
    requires Step(names, w, a).Some?
    ensures Counted(Step(names, w, a).value)
  {
  }

  lemma StepHasData(names: seq<string>, w: World, a: Action)
    requires |names| == |w.upd| && HasData(names, w) && Step(names, w, a).Some?
    ensures HasData(names, Step(names, w, a).value)
  {
  }

  lemma StepKeeps(names: seq<string>, w: World, a: Action)
    requires Kept(names, w) && Step(names, w, a).Some?
    ensures Kept(names, Step(names, w, a).value)
  {
    StepHasData(names, w, a);
    if OfWaiter(a) {
      WaiterStepCounts(names, w, a);
    } else if a.Record? || a.Release? {
      UpdateStepCounts(names, w, a);
    } else {
      LookupStepCounts(names, w, a);
    }
  }

  lemma {:induction false} StartKept(names: seq<string>)
    ensures Kept(names, Start(|names|))
  {
    HeldNone(Start(|names|).upd);
  }

  /** In every interleaving the count is the references outstanding, and one more
      while the lookup is unfinished, and the assertion of `put` has not failed. */
  lemma {:induction false} CountExact(names: seq<string>, actions: seq<Action>)
    ensures Kept(names, Run(names, actions))
    decreases |actions|
  {
    if actions == [] {
      StartKept(names);
    } else {
      var n := |actions| - 1;
      CountExact(names, actions[..n]);
      var w := Run(names, actions[..n]);
      if Step(names, w, actions[n]).Some? {
        StepKeeps(names, w, actions[n]);
      }
    }
  }

  /** Data is there for a set if and only if the update of a set of that name has
      come. */
  ghost predicate OnlyData(names: seq<string>, w: World)
    requires |names| == |w.upd|
  {
    forall x :: x in w.got <==> exists i: nat :: i < |names| && names[i] == x && w.upd[i] in {Recorded, Over}
  }

  lemma StepOnlyData(names: seq<string>, w: World, a: Action)
    requires Kept(names, w) && OnlyData(names, w) && Step(names, w, a).Some?
    ensures OnlyData(names, Step(names, w, a).value)
  {
    var v := Step(names, w, a).value;
    if a.Record? {
      assert v.upd[a.i] == Recorded;
    }
    forall i: nat | i < |names| && v.upd[i] in {Recorded, Over}
      ensures w.upd[i] in {Recorded, Over} || a == Record(i)
    {
    }
    forall i: nat | i < |names| && w.upd[i] in {Recorded, Over} ensures v.upd[i] in {Recorded, Over} {
    }
  }

  lemma {:induction false} DataExactly(names: seq<string>, actions: seq<Action>)
    ensures OnlyData(names, Run(names, actions))
    decreases |actions|
  {
    if actions != [] {
      var n := |actions| - 1;
      var w := Run(names, actions[..n]);
      DataExactly(names, actions[..n]);
      CountExact(names, actions[..n]);
      if Step(names, w, actions[n]).Some? {
        StepOnlyData(names, w, actions[n]);
      }
    }
  }

  // ---- safety --------------------------------------------------------------

  /** `wait_zero` says so only when every set looked up has its data recorded and
      no callback is left to run. */
  lemma ReturnsWithAll(names: seq<string>, actions: seq<Action>)
    requires Run(names, actions).waiter == Back(true)
    ensures names != [] && (forall x | x in names :: x in Run(names, actions).got)
    ensures forall i | 0 <= i < |names| :: Run(names, actions).upd[i] == Over
    ensures Work(Run(names, actions)) == 0
  {
    var w := Run(names, actions);
    CountExact(names, actions);
    HeldNone(w.upd);
    forall i | 0 <= i < |names| ensures w.upd[i] == Over {
      assert w.upd[i] !in {NotYet, Asked, Recorded};
    }
    AllOver(w.upd);
  }

  /** A thread is asleep only while a reference is held, so no wakeup is lost. */
  lemma NoLostWakeup(names: seq<string>, actions: seq<Action>)
    requires Run(names, actions).waiter == Asleep
    ensures Run(names, actions).count > 0
    ensures names != [] ==> Work(Run(names, actions)) > 0
  {
    var w := Run(names, actions);
    CountExact(names, actions);
    if names != [] && Work(w) == 0 {
      Finished(names, w);
      assert false;
    }
  }

  // ---- progress ------------------------------------------------------------

  function UpdWork(upd: seq<Upd>): nat {
    if upd == [] then 0
    else
      UpdWork(upd[..|upd| - 1])
      + match upd[|upd| - 1] case NotYet => 2 case Asked => 2 case Recorded => 1 case Over => 0
  }

  /** How many steps the callbacks have yet to take. */
  function Work(w: World): int {
    UpdWork(w.upd) + 3 * (|w.upd| - w.next) - match w.lookup case Before => 0 case Got => 1 case Updating => 2
  }

  predicate OfWaiter(a: Action) {
    a in {Test, Wake, GiveUp}
  }

  lemma {:induction false} UpdWorkUpdate(upd: seq<Upd>, i: nat, u: Upd)
    requires i < |upd|
    ensures UpdWork(upd[i := u]) - UpdWork(upd) == UpdWork([u]) - UpdWork([upd[i]])
    decreases |upd|
  {
    var n := |upd| - 1;
    var v := upd[i := u];
    assert UpdWork([u][..0]) == 0 && UpdWork([upd[i]][..0]) == 0;
    if i < n {
      UpdWorkUpdate(upd[..n], i, u);
      assert v[..n] == upd[..n][i := u];
    } else {
      assert v[..n] == upd[..n];
    }
  }

  lemma UpdWorkOne()
    ensures UpdWork([NotYet]) == UpdWork([Asked]) == 2 && UpdWork([Recorded]) == 1 && UpdWork([Over]) == 0
  {
    assert [NotYet][..0] == [] && [Asked][..0] == [] && [Recorded][..0] == [] && [Over][..0] == [];
  }

  lemma {:induction false} AllOver(upd: seq<Upd>)
    requires forall i | 0 <= i < |upd| :: upd[i] == Over
    ensures UpdWork(upd) == 0
    decreases |upd|
  {
    if upd != [] {
      AllOver(upd[..|upd| - 1]);
    }
  }

  /** Every step of a callback is one step less to do; the waiter changes nothing. */
  lemma WorkDrops(names: seq<string>, w: World, a: Action)
    requires Kept(names, w) && Step(names, w, a).Some?
    ensures Work(Step(names, w, a).value) == if OfWaiter(a) then Work(w) else Work(w) - 1
  {
    UpdWorkOne();
    match a
    case LookupUpdate => UpdWorkUpdate(w.upd, w.next, Asked);
    case Record(i) => UpdWorkUpdate(w.upd, i, Recorded);
    case Release(i) => UpdWorkUpdate(w.upd, i, Over);
    case _ =>
  }

  lemma {:induction false} UpdWorkLeft(upd: seq<Upd>) returns (i: nat)
    requires UpdWork(upd) > 0
    ensures i < |upd| && upd[i] != Over
    decreases |upd|
  {
    var n := |upd| - 1;
    if upd[n] != Over {
      i := n;
    } else {
      i := UpdWorkLeft(upd[..n]);
    }
  }

  /** While the callbacks have work left one of them can take a step, whatever the
      waiter does. */
  lemma NeverStuck(names: seq<string>, w: World) returns (a: Action)
    requires Kept(names, w) && Work(w) > 0
    ensures !OfWaiter(a) && Step(names, w, a).Some?
  {
    if w.next < |names| {
      a := match w.lookup case Before => LookupGet case Got => LookupUpdate case Updating => LookupEnd;
    } else {
      var i := UpdWorkLeft(w.upd);
      a := if w.upd[i] == Asked then Record(i) else Release(i);
    }
  }

  lemma {:induction false} NoUpdWork(upd: seq<Upd>)
    requires UpdWork(upd) == 0
    ensures Held(upd) == 0
    decreases |upd|
  {
    if upd != [] {
      NoUpdWork(upd[..|upd| - 1]);
    }
  }

  /** When the callbacks are done the count is zero and the waiter is awake; if it
      has not answered, its next test does. */
  lemma Finished(names: seq<string>, w: World)
    requires Kept(names, w) && names != [] && Work(w) == 0
    ensures w.count == 0 && w.waiter != Asleep
    ensures w.waiter == Testing ==> Step(names, w, Test) == Some(w.(waiter := Back(true)))
  {
    NoUpdWork(w.upd);
  }

  /** With nothing to look up no callback ever runs: the reference of the lookup
      stays and `wait_zero` never says zero. The main routine asks first whether
      there is any set. */
  lemma {:induction false} NothingToLookUp(actions: seq<Action>)
    ensures Run([], actions).count == 1 && Run([], actions).waiter != Back(true)
  {
    CountExact([], actions);
  }

  lemma RunNext(names: seq<string>, actions: seq<Action>, a: Action)
    requires Step(names, Run(names, actions), a).Some?
    ensures Some(Run(names, actions + [a])) == Step(names, Run(names, actions), a)
  {
    assert (actions + [a])[..|actions + [a]| - 1] == actions;
  }

  /** The waiter has not run out of time. */
  predicate StillWaits(w: World) {
    w.waiter != Back(false)
  }

  lemma NextCallback(names: seq<string>, actions: seq<Action>) returns (a: Action)
    requires StillWaits(Run(names, actions)) && Work(Run(names, actions)) > 0
    ensures a != GiveUp && StillWaits(Run(names, actions + [a]))
    ensures Work(Run(names, actions + [a])) == Work(Run(names, actions)) - 1
  {
    var w := Run(names, actions);
    CountExact(names, actions);
    a := NeverStuck(names, w);
    WorkDrops(names, w, a);
    RunNext(names, actions, a);
    CallbackKeepsWaiting(names, w, a);
  }

  lemma CallbackKeepsWaiting(names: seq<string>, w: World, a: Action)
    requires |names| == |w.upd| && StillWaits(w) && a != GiveUp && Step(names, w, a).Some?
    ensures StillWaits(Step(names, w, a).value)
  {
  }

  /** With something to look up every run can be brought to its end. */
  lemma {:induction false} Completion(names: seq<string>, actions: seq<Action>) returns (more: seq<Action>)
    requires names != [] && StillWaits(Run(names, actions))
    ensures Run(names, actions + more).waiter == Back(true) && GiveUp !in more
    decreases Work(Run(names, actions))
  {
    if Work(Run(names, actions)) > 0 {
      var a := NextCallback(names, actions);
      var rest := Completion(names, actions + [a]);
      more := Prepended(a, rest, actions);
    } else {
      CountExact(names, actions);
      more := LastTest(names, actions);
    }
  }

  lemma Prepended(a: Action, rest: seq<Action>, actions: seq<Action>) returns (more: seq<Action>)
    requires a != GiveUp && GiveUp !in rest
    ensures actions + more == actions + [a] + rest && GiveUp !in more
  {
    more := [a] + rest;
    assert actions + more == actions + [a] + rest;
  }

  lemma LastTest(names: seq<string>, actions: seq<Action>) returns (more: seq<Action>)
    requires names != [] && StillWaits(Run(names, actions)) && Work(Run(names, actions)) <= 0
    requires Kept(names, Run(names, actions))
    ensures Run(names, actions + more).waiter == Back(true) && GiveUp !in more
  {
    var w := Run(names, actions);
    WorkNotNegative(names, w);
    Finished(names, w);
    if w.waiter == Testing {
      RunNext(names, actions, Test);
      more := [Test];
    } else {
      more := [];
      assert actions + more == actions;
    }
  }

  lemma WorkNotNegative(names: seq<string>, w: World)
    requires Kept(names, w)
    ensures Work(w) >= 0
  {
  }

  ghost predicate CanComplete(names: seq<string>, actions: seq<Action>) {
    exists more: seq<Action> :: Run(names, actions + more).waiter == Back(true)
  }

  /** As long as the waiter has not given up, it can be brought to say that all is
      done if and only if there is something to look up. */
  lemma CompletesExactly(names: seq<string>, actions: seq<Action>)
    requires StillWaits(Run(names, actions))
    ensures CanComplete(names, actions) <==> names != []
  {
    if names != [] {
      var more := Completion(names, actions);
    } else {
      forall more: seq<Action> ensures Run(names, actions + more).waiter != Back(true) {
        NothingToLookUp(actions + more);
      }
    }
  }
}
