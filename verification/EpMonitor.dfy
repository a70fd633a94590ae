/** The objects of the log monitor (scalability/ugni-manual/check_ep.py): entries
    that change state in place, shared by the table and the two lists. */
module EpMonitorModel {
  import opened EpLog
  import opened Options

  class Entry {
    const ptr: string
    const op: Op
    var state: State

    constructor (ptr: string, op: Op)
      ensures this.ptr == ptr && this.op == op && state == Init
    {
      this.ptr, this.op, state := ptr, op, Init;
    }
  }

  function PtrsOf(es: seq<Entry>): (s: seq<string>)
    ensures |s| == |es|
  {
    if es == [] then [] else [es[0].ptr] + PtrsOf(es[1..])
  }

  function DoneOf(es: seq<Entry>): seq<(string, Op)> {
    if es == [] then [] else DoneOf(es[..|es| - 1]) + [(es[|es| - 1].ptr, es[|es| - 1].op)]
  }

  lemma {:induction false} PtrsOfSnoc(es: seq<Entry>, e: Entry)
    ensures PtrsOf(es + [e]) == PtrsOf(es) + [e.ptr]
    decreases |es|
  {
    if es == [] {
      assert (es + [e])[1..] == [];
    } else {
      assert (es + [e])[1..] == es[1..] + [e];
      PtrsOfSnoc(es[1..], e);
    }
  }

  /** No other entry of the list has the pointer of `e`. */
  predicate Alone(es: seq<Entry>, e: Entry) {
    forall x | x in es :: x.ptr == e.ptr ==> x == e
  }

  lemma {:induction false} PtrsOfRemove(es: seq<Entry>, e: Entry)
    requires Alone(es, e)
    ensures PtrsOf(Remove(es, e)) == Remove(PtrsOf(es), e.ptr)
    decreases |es|
  {
    if es != [] {
      assert es[0] in es;
      if es[0] != e {
        assert Alone(es[1..], e);
        PtrsOfRemove(es[1..], e);
        assert ([es[0]] + Remove(es[1..], e))[1..] == Remove(es[1..], e);
        assert ([es[0].ptr] + PtrsOf(es[1..]))[1..] == PtrsOf(es[1..]);
      }
    }
  }

  lemma {:induction false} InPtrs(es: seq<Entry>, e: Entry)
    requires Alone(es, e)
    ensures e in es <==> e.ptr in PtrsOf(es)
    decreases |es|
  {
    if es != [] {
      assert es == [es[0]] + es[1..];
      assert Alone(es[1..], e);
      InPtrs(es[1..], e);
    }
  }

  /** The listed entries are the ones of the table. */
  predicate InTable(es: seq<Entry>, table: map<string, Entry>) {
    forall x | x in es :: x.ptr in table && table[x.ptr] == x
  }

  lemma GoneFromList(was: seq<Entry>, table: map<string, Entry>, e: Entry)
    requires InTable(was, table) && e.ptr in table && table[e.ptr] == e
    ensures Alone(was, e) && InTable(Remove(was, e), table)
    ensures PtrsOf(Remove(was, e)) == Remove(PtrsOf(was), e.ptr)
    ensures e in was <==> e.ptr in PtrsOf(was)
  {
    assert Alone(was, e);
    PtrsOfRemove(was, e);
    InPtrs(was, e);
    forall x | x in Remove(was, e) ensures x in was {
      InRemove(was, e, x);
    }
  }

  lemma OutOfTable(es: seq<Entry>, table: map<string, Entry>, e: Entry)
    requires InTable(es, table) && e.ptr in table && table[e.ptr] == e
    requires e.ptr !in PtrsOf(es)
    ensures InTable(es, table - {e.ptr})
  {
    InPtrs(es, e);
  }

  /** The posted list after a change shows the posted list of the next world. */
  lemma PostedFollows(was: seq<Entry>, table: map<string, Entry>, e: Entry, l: Line, w: World, posted: seq<Entry>)
    requires Step(w, l).Some? && Listed(Step(w, l).value)
    requires InTable(was, table) && PtrsOf(was) == w.posted
    requires l.ptr in w.entries && l.ptr in table && table[l.ptr] == e && e.ptr == l.ptr
    requires var gone := if w.entries[l.ptr].state == Post then Remove(was, e) else was;
             posted == if l.state == Post then gone + [e] else gone
    ensures PtrsOf(posted) == Step(w, l).value.posted
    ensures InTable(posted, if l.state == Complete then table - {l.ptr} else table)
  {
    var gone := if w.entries[l.ptr].state == Post then Remove(was, e) else was;
    GoneFromList(was, table, e);
    PtrsOfSnoc(gone, e);
    if l.state == Complete {
      OutOfTable(gone, table, e);
    }
  }

  lemma DoneFollows(was: seq<Entry>, e: Entry, l: Line, w: World, completed: seq<Entry>)
    requires Step(w, l).Some? && DoneOf(was) == w.completed
    requires l.ptr in w.entries && e.ptr == l.ptr && e.op == w.entries[l.ptr].op
    requires completed == if l.state == Complete then was + [e] else was
    ensures DoneOf(completed) == Step(w, l).value.completed
  {
    assert (was + [e])[..|was + [e]| - 1] == was;
  }

  /** The globals of the program. */
  class Monitor {
    var entries: map<string, Entry>
    var posted: seq<Entry>
    var completed: seq<Entry>
    var maxPosted: nat
    ghost var world: World

    ghost predicate Valid()
      reads this, entries.Values
    {
      TableShows() && ListsShow() && Listed(world)
    }

    ghost predicate TableShows()
      reads this, entries.Values
    {
      && entries.Keys == world.entries.Keys
      && (forall p | p in entries :: Mirrors(p, entries[p]))
    }

    ghost predicate ListsShow()
      reads this
    {
      && InTable(posted, entries)
      && PtrsOf(posted) == world.posted
      && DoneOf(completed) == world.completed
      && maxPosted == world.maxPosted
    }

    ghost predicate Mirrors(p: string, e: Entry)
      requires p in world.entries
      reads this, e
    {
      e.ptr == p && e.op == world.entries[p].op && e.state == world.entries[p].state
    }

    constructor ()
      ensures Valid() && world == START && entries == map[]
    {
      entries, posted, completed, maxPosted, world := map[], [], [], 0, START;
    }

    /** `Entry.change`. False means that it raises, before anything is changed. */
    method Change(e: Entry, op: Op, state: State) returns (ok: bool)
      requires e.state == Post ==> e in posted
      modifies `posted, `completed, `maxPosted, e`state
      ensures ok <==> op == e.op && state in Next(old(e.state))
      ensures !ok ==> posted == old(posted) && completed == old(completed)
                      && maxPosted == old(maxPosted) && e.state == old(e.state)
      ensures ok ==> e.state == state
      ensures ok ==> var gone := if old(e.state) == Post then Remove(old(posted), e) else old(posted);
                     posted == if state == Post then gone + [e] else gone
      ensures ok ==> completed == if state == Complete then old(completed) + [e] else old(completed)
      ensures ok ==> maxPosted == if state == Post && |posted| > old(maxPosted) then |posted| else old(maxPosted)
    {
      if op != e.op || state !in Next(e.state) {
        return false;
      }
      if e.state == Post {
        posted := Remove(posted, e);
      }
      if state == Post {
        posted := posted + [e];
        maxPosted := if |posted| > maxPosted then |posted| else maxPosted;
      }
      if state == Complete {
        completed := completed + [e];
      }
      e.state := state;
      ok := true;
    }

    /** The entry of the line's pointer, made when there is none. */
    method Lookup(l: Line) returns (e: Entry)
      requires Valid() && l.Line?
      modifies `entries, `world
      ensures Valid() && world == Known(old(world), l)
      ensures l.ptr in entries && e == entries[l.ptr]
      ensures forall p | p in entries :: entries[p] in old(entries.Values) || fresh(entries[p])
    {
      StepKnown(world, l);
      if l.ptr in entries {
        e := entries[l.ptr];
      } else {
        e := new Entry(l.ptr, l.op);
        entries := entries[l.ptr := e];
        world := Known(world, l);
      }
    }

    lemma TableFollows(e: Entry, l: Line, w: World)
      requires Step(w, l) == Some(world) && l.ptr in w.entries
      requires entries.Keys == w.entries.Keys - if l.state == Complete then {l.ptr} else {}
      requires l.ptr in entries ==>
                 entries[l.ptr] == e && e.ptr == l.ptr && e.op == w.entries[l.ptr].op && e.state == l.state
      requires forall p | p in entries && p != l.ptr ::
                 entries[p].ptr == p && entries[p].op == w.entries[p].op && entries[p].state == w.entries[p].state
      ensures TableShows()
    {
    }

    /** What `Change` and the removal on completion leave of the entry, the table
        and the lists. */
    ghost predicate Changed(e: Entry, l: Line, state: State, table: map<string, Entry>, was: seq<Entry>,
                            done: seq<Entry>, high: nat)
      requires l.Line?
      reads this, e
    {
      && e.state == l.state
      && entries == (if l.state == Complete then table - {l.ptr} else table)
      && (var gone := if state == Post then Remove(was, e) else was;
          posted == if l.state == Post then gone + [e] else gone)
      && completed == (if l.state == Complete then done + [e] else done)
      && maxPosted == if l.state == Post && |posted| > high then |posted| else high
    }

    /** The change of an entry, and its removal from the table on completion. */
    method Turn(e: Entry, l: Line) returns (ok: bool)
      requires l.Line? && (e.state == Post ==> e in posted)
      modifies `entries, `posted, `completed, `maxPosted, e`state
      ensures ok <==> l.op == e.op && l.state in Next(old(e.state))
      ensures ok ==> Changed(e, l, old(e.state), old(entries), old(posted), old(completed), old(maxPosted))
      ensures !ok ==> entries == old(entries)
    {
      ok := Change(e, l.op, l.state);
      if ok && l.state == Complete {
        entries := entries - {l.ptr};
      }
    }

    lemma ListsFollow(e: Entry, l: Line, w: World, table: map<string, Entry>, was: seq<Entry>, done: seq<Entry>)
      requires Step(w, l) == Some(world) && Listed(world)
      requires l.ptr in w.entries && l.ptr in table && table[l.ptr] == e
      requires e.ptr == l.ptr && e.op == w.entries[l.ptr].op
      requires InTable(was, table) && PtrsOf(was) == w.posted && DoneOf(done) == w.completed
      requires Changed(e, l, w.entries[l.ptr].state, table, was, done, w.maxPosted)
      ensures ListsShow()
    {
      PostedFollows(was, table, e, l, w, posted);
      DoneFollows(done, e, l, w, completed);
    }

    /** The entries but the one of `l` still show `w`. */
    ghost predicate OthersShow(w: World, l: Line)
      requires l.Line? && entries.Keys <= w.entries.Keys
      reads this, entries.Values
    {
      forall p | p in entries && p != l.ptr ::
        entries[p].ptr == p && entries[p].op == w.entries[p].op && entries[p].state == w.entries[p].state
    }

    /** The specification catches up. */
    ghost method Advance(e: Entry, l: Line, table: map<string, Entry>, was: seq<Entry>, done: seq<Entry>)
      requires Step(world, l).Some? && Listed(world)
      requires table.Keys == world.entries.Keys
      requires l.ptr in table && table[l.ptr] == e && e.ptr == l.ptr && e.op == world.entries[l.ptr].op
      requires InTable(was, table) && PtrsOf(was) == world.posted && DoneOf(done) == world.completed
      requires Changed(e, l, world.entries[l.ptr].state, table, was, done, world.maxPosted)
      requires OthersShow(world, l)
      modifies `world
      ensures Valid() && Some(world) == Step(old(world), l)
    {
      ghost var w := world;
      StepListed(w, l);
      world := Step(w, l).value;
      TableFollows(e, l, w);
      ListsFollow(e, l, w, table, was, done);
    }

    /** The same on the specification's side: one step of the world. */
    method ChangeEntry(e: Entry, l: Line) returns (ok: bool)
      requires Valid() && Readable(l) && l.ptr in entries && e == entries[l.ptr]
      modifies this, e`state
      ensures ok <==> Step(old(world), l).Some?
      ensures ok ==> Valid() && Some(world) == Step(old(world), l)
      ensures forall p | p in entries :: p in old(entries) && entries[p] == old(entries)[p]
    {
      assert Mirrors(l.ptr, e);
      GoneFromList(posted, entries, e);
      ghost var table, was, done := entries, posted, completed;
      ok := Turn(e, l);
      if ok {
        Advance(e, l, table, was, done);
      }
    }

    /** One turn of the loop over the log. */
    method Feed(l: Line) returns (ok: bool)
      requires Valid()
      modifies this, entries.Values
      ensures ok <==> Step(old(world), l).Some?
      ensures ok ==> Valid() && Some(world) == Step(old(world), l)
      ensures forall p | p in entries :: entries[p] in old(entries.Values) || fresh(entries[p])
    {
      if !Readable(l) {
        return false;
      }
      StepKnown(world, l);
      var e := Lookup(l);
      ok := ChangeEntry(e, l);
    }

    /** The loop. */
    method Drive(log: seq<Line>) returns (ok: bool)
      requires Valid() && world == START && entries == map[]
      modifies this
      ensures ok <==> Run(log).Some?
      ensures ok ==> Valid() && Some(world) == Run(log)
    {
      for i := 0 to |log|
        invariant Valid() && Some(world) == Run(log[..i])
        invariant forall p | p in entries :: fresh(entries[p])
      {
        assert log[..i + 1] == log[..i] + [log[i]];
        RunNext(log[..i], log[i]);
        ok := Feed(log[i]);
        if !ok {
          RunStops(log, i + 1);
          return;
        }
      }
      assert log[..|log|] == log;
      ok := true;
    }
  }

  /** A log is not accepted once a beginning of it is not. */
  lemma {:induction false} RunStops(log: seq<Line>, i: nat)
    requires i <= |log| && Run(log[..i]).None?
    ensures Run(log).None?
    decreases |log| - i
  {
    if i < |log| {
      assert log[..i + 1] == log[..i] + [log[i]];
      RunNext(log[..i], log[i]);
      RunStops(log, i + 1);
    } else {
      assert log[..i] == log;
    }
  }
}
