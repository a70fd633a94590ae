/** The objects of python/ldms_ls.py: the counter under its lock, and the callbacks
    that fill the table of sets. Every method is one atomic step. */
module LdmsLsModel {
  import opened LsProtocol
  import opened Options

  /** `RefCount`; `asleep` tells whether a thread waits on the condition. */
  class RefCount {
    var refCount: nat
    var asleep: bool

    constructor ()
      ensures refCount == 0 && !asleep
    {
      refCount, asleep := 0, false;
    }

    method Get()
      modifies this
      ensures refCount == old(refCount) + 1 && asleep == old(asleep)
    {
      refCount := refCount + 1;
    }

    /** False when the assertion fails. */
    method Put() returns (ok: bool)
      modifies this
      ensures ok <==> old(refCount) > 0
      ensures ok ==> refCount == old(refCount) - 1 && asleep == (old(asleep) && refCount > 0)
      ensures !ok ==> refCount == old(refCount) && asleep == old(asleep)
    {
      if refCount == 0 {
        return false;
      }
      refCount := refCount - 1;
      if refCount == 0 {
        asleep := false;
      }
      ok := true;
    }

    /** One turn of the loop in `wait_zero`, with the lock held: an answer, or none
        when the thread goes to sleep. `expired` tells whether the time is up; the
        main routine gives no timeout. */
    method Turn(expired: bool) returns (r: Option<bool>)
      requires !asleep
      modifies `asleep
      ensures r == if refCount == 0 then Some(true) else if expired then Some(false) else None
      ensures asleep <==> r.None?
    {
      if refCount > 0 {
        if expired {
          return Some(false);
        }
        asleep := true;
        return None;
      }
      r := Some(true);
    }

    /** The wait on the condition ends by itself. */
    method Wake()
      modifies `asleep
      ensures !asleep
    {
      asleep := false;
    }
  }

  /** The globals of the program. The fields of the library side, which callback runs
      and how far each update is, are ghost: `world`. */
  class Listing {
    const names: seq<string>
    const ref: RefCount
    var sets: map<string, bool>
    var answer: Option<bool>
    ghost var world: World

    ghost predicate Valid()
      reads this, ref
    {
      && Kept(names, world)
      && ref.refCount == world.count
      && (ref.asleep <==> world.waiter == Asleep)
      && answer == (if world.waiter.Back? then Some(world.waiter.zero) else None)
      && (forall x | x in names :: x in sets)
      && (forall x | x in sets :: sets[x] <==> x in world.got)
    }

    /** The main routine up to `wait_zero`: the table says of each set whether it
        has an `lset`. */
    constructor (names: seq<string>)
      ensures Valid() && this.names == names && world == Start(|names|) && fresh(ref)
    {
      this.names := names;
      ref := new RefCount();
      sets := map x | x in names :: false;
      answer := None;
      world := Start(|names|);
      new;
      StartKept(names);
      ref.Get();
    }

    /** `lookup_cb`, `ref_count.get()`. */
    method LookupGet()
      requires Valid() && Step(names, world, Action.LookupGet).Some?
      modifies this, ref
      ensures Valid() && Some(world) == Step(names, old(world), Action.LookupGet)
    {
      StepKeeps(names, world, Action.LookupGet);
      ref.Get();
      world := Step(names, world, Action.LookupGet).value;
    }

    /** `lookup_cb`, `lset.update`: from here on the update callback can come. */
    method LookupUpdate()
      requires Valid() && Step(names, world, Action.LookupUpdate).Some?
      modifies this
      ensures Valid() && Some(world) == Step(names, old(world), Action.LookupUpdate)
    {
      StepKeeps(names, world, Action.LookupUpdate);
      world := Step(names, world, Action.LookupUpdate).value;
    }

    /** `lookup_cb`, after the update was asked for: `more` is clear on the last. */
    method LookupEnd(more: bool) returns (ok: bool)
      requires Valid() && Step(names, world, Action.LookupEnd).Some?
      requires more <==> world.next + 1 < |names|
      modifies this, ref
      ensures ok && Valid() && Some(world) == Step(names, old(world), Action.LookupEnd)
    {
      StepKeeps(names, world, Action.LookupEnd);
      ok := true;
      if !more {
        ok := ref.Put();
      }
      world := Step(names, world, Action.LookupEnd).value;
    }

    /** `update_cb`, the entry of the table. */
    method UpdateRecord(i: nat)
      requires Valid() && i < |names| && Step(names, world, Record(i)).Some?
      modifies this
      ensures Valid() && Some(world) == Step(names, old(world), Record(i))
    {
      StepKeeps(names, world, Record(i));
      assert names[i] in names;
      sets := sets[names[i] := true];
      world := Step(names, world, Record(i)).value;
    }

    /** `update_cb`, `ref_count.put()`. */
    method UpdateRelease(i: nat) returns (ok: bool)
      requires Valid() && i < |names| && Step(names, world, Release(i)).Some?
      modifies this, ref
      ensures ok && Valid() && Some(world) == Step(names, old(world), Release(i))
    {
      HeldSome(world.upd, i);
      StepKeeps(names, world, Release(i));
      ok := ref.Put();
      world := Step(names, world, Release(i)).value;
    }

    /** The wait on the condition ends by itself. */
    method Woken()
      requires Valid() && world.waiter == Asleep
      modifies this, ref
      ensures Valid() && Some(world) == Step(names, old(world), Action.Wake)
    {
      StepKeeps(names, world, Action.Wake);
      ref.Wake();
      world := Step(names, world, Action.Wake).value;
    }

    /** The waiting thread tests the count. An answer of true means that every set
        looked up has its data. */
    method WaitTurn(expired: bool)
      requires Valid() && world.waiter == Testing
      modifies this, ref
      ensures Valid()
      ensures Some(world) == Step(names, old(world), if expired && old(world).count > 0 then GiveUp else Test)
      ensures answer == Some(true) ==> names != [] && forall x | x in names :: x in sets && sets[x]
    {
      ghost var a := if expired && world.count > 0 then GiveUp else Test;
      StepKeeps(names, world, a);
      answer := ref.Turn(expired);
      world := Step(names, world, a).value;
      if answer == Some(true) {
        ZeroMeansAll(names, world);
      }
    }
  }

  lemma ZeroMeansAll(names: seq<string>, w: World)
    requires Kept(names, w) && w.count == 0
    ensures names != [] && forall x | x in names :: x in w.got
  {
    HeldNone(w.upd);
    forall i | 0 <= i < |names| ensures names[i] in w.got {
      assert w.upd[i] !in {NotYet, Asked, Recorded};
    }
  }
}
