/** `StreamTally` and `StreamThroughput` (python/ldms_qgroup_common.py): linked
    tallies that hand the entries leaving one window to the next, longer one.
    The clock is a parameter. */
module StreamTallyModel {
  import opened Windows
  import TallyChain

  class StreamTally {
    const sec: real
    var dq: seq<Entry>
    var tallies: map<string, int>
    var total: int
    var nextTally: StreamTally?

    constructor (sec: real)
      ensures this.sec == sec && dq == [] && tallies == map[] && total == 0 && nextTally == null
    {
      this.sec, dq, tallies, total, nextTally := sec, [], map[], 0, null;
    }

    function Fields(): TallyChain.State
      reads this
    {
      TallyChain.State(sec, dq, tallies, total)
    }

    /** `tally_inc` */
    method TallyInc(src: string, v: int)
      modifies `tallies, `total
      ensures Fields() == TallyChain.TallyInc(old(Fields()), src, v)
    {
      if src !in tallies {
        tallies := tallies[src := 0];
      }
      tallies := tallies[src := tallies[src] + v];
      total := total + v;
    }

    /** The loop of `tally_prune`: expired entries go to the next tally. */
    method PruneOwn(ts: real, ghost next: set<StreamTally>)
      requires next == if nextTally == null then {} else {nextTally}
      requires this !in next
      modifies `dq, `tallies, `total, next`dq
      ensures Fields() == TallyChain.PopExpired(old(Fields()), ts).0
      ensures nextTally != null ==>
                nextTally.dq == old(nextTally.dq) + TallyChain.PopExpired(old(Fields()), ts).1
    {
      ghost var goal, out := TallyChain.PopExpired(Fields(), ts), [];
      while |dq| > 0
        invariant goal.0 == TallyChain.PopExpired(Fields(), ts).0
        invariant goal.1 == out + TallyChain.PopExpired(Fields(), ts).1
        invariant nextTally != null ==> nextTally.dq == old(nextTally.dq) + out
        decreases |dq|
      {
        var data := dq[0];
        if data.ts + sec >= ts { break; }
        TallyChain.PopStep(Fields(), ts, out);
        dq := dq[1..];
        TallyInc(data.src, -data.load);
        if nextTally != null {
          nextTally.dq := nextTally.dq + [data];
        }
        out := out + [data];
      }
    }

    /** `tally_prune(ts)`, from this tally down the chain. */
    method TallyPrune(ts: real,
                      ghost chain: seq<StreamTally>, ghost ss: seq<TallyChain.State>, ghost all: set<StreamTally>)
      requires IsChain(chain, all) && chain[0] == this && Shows(chain, ss)
      modifies all`dq, all`tallies, all`total
      ensures Shows(chain, TallyChain.PruneAll(ss, [], ts))
      decreases |chain|
    {
      ChainTail(chain, all);
      ghost var (s, out) := TallyChain.PopExpired(ss[0], ts);
      assert ss[0].(dq := ss[0].dq + []) == ss[0];
      if nextTally == null {
        PruneOwn(ts, {});
        assert TallyChain.PruneAll(ss[1..], out, ts) == [];
        return;
      }
      ghost var rest, ss' := chain[1..], ss[1..][0 := ss[1].(dq := ss[1].dq + out)];
      PruneOwn(ts, {chain[1]});
      assert Shows(rest, ss');
      TallyChain.PruneArrived(ss[1..], out, ts);
      nextTally.TallyPrune(ts, rest, ss', all - {this});
    }

    /** `add_data(data)` at time `ts`, called on the first tally. */
    method AddData(data: StreamData, ts: real,
                   ghost chain: seq<StreamTally>, ghost ss: seq<TallyChain.State>, ghost all: set<StreamTally>)
      requires IsChain(chain, all) && chain[0] == this && Shows(chain, ss)
      modifies all`dq, all`tallies, all`total
      ensures Shows(chain, TallyChain.Add(ss, NewEntry(data, ts)))
    {
      CountEverywhere(data, ts, chain, ss, all);
      TallyPrune(ts, chain, TallyChain.AddFirst(ss, NewEntry(data, ts)), all);
    }

    /** `add_data(data)` up to the pruning. */
    method CountEverywhere(data: StreamData, ts: real,
                           ghost chain: seq<StreamTally>, ghost ss: seq<TallyChain.State>, ghost all: set<StreamTally>)
      requires IsChain(chain, all) && chain[0] == this && Shows(chain, ss)
      modifies `dq, all`tallies, all`total
      ensures Shows(chain, TallyChain.AddFirst(ss, NewEntry(data, ts)))
    {
      var src := data.src;
      var load := |data.name| + |data.data|;
      assert chain[0].Fields() == ss[0];
      dq := dq + [Entry(ts, load, src, data)];
      TallyInc(src, load);
      ghost var mine := Fields();
      assert mine == TallyChain.AddFirst(ss, NewEntry(data, ts))[0];
      CountRest(src, load, chain, ss, all);
      assert Fields() == mine;
    }

    /** The loop of `add_data` over the tallies after the first. */
    method CountRest(src: string, load: int,
                     ghost chain: seq<StreamTally>, ghost ss: seq<TallyChain.State>, ghost all: set<StreamTally>)
      requires IsChain(chain, all) && chain[0] == this && |ss| == |chain|
      requires forall j | 1 <= j < |chain| :: chain[j].Fields() == ss[j]
      modifies (all - {this})`tallies, (all - {this})`total
      ensures forall j | 1 <= j < |chain| :: chain[j].Fields() == TallyChain.TallyInc(ss[j], src, load)
    {
      var tally := nextTally;
      ghost var i := 1;
      while tally != null
        invariant 1 <= i <= |chain|
        invariant tally == After(chain, i - 1)
        invariant forall j | 1 <= j < |chain| :: chain[j].Fields() == Counted(ss[j], j < i, src, load)
        decreases |chain| - i
      {
        tally.TallyInc(src, load);
        tally := tally.nextTally;
        i := i + 1;
      }
    }
  }

  function NewEntry(data: StreamData, ts: real): Entry {
    Entry(ts, |data.name| + |data.data|, data.src, data)
  }

  ghost function Counted(s: TallyChain.State, done: bool, src: string, load: int): TallyChain.State {
    if done then TallyChain.TallyInc(s, src, load) else s
  }

  ghost predicate Shows(chain: seq<StreamTally>, ss: seq<TallyChain.State>)
    reads chain
  {
    |chain| == |ss| && forall i | 0 <= i < |chain| :: chain[i].Fields() == ss[i]
  }

  /** `chain` is what following `next_tally` visits, all of it in `all`. */
  ghost predicate IsChain(chain: seq<StreamTally>, all: set<StreamTally>)
    reads chain
  {
    && chain != []
    && (forall i | 0 <= i < |chain| :: chain[i] in all)
    && (forall i | 0 <= i < |chain| :: chain[i].nextTally == After(chain, i))
    && (forall i, j | 0 <= i < j < |chain| :: chain[i] != chain[j])
  }

  ghost function After(chain: seq<StreamTally>, i: nat): StreamTally? {
    if i + 1 < |chain| then chain[i + 1] else null
  }

  lemma ChainTail(chain: seq<StreamTally>, all: set<StreamTally>)
    requires IsChain(chain, all)
    ensures chain[0].nextTally == null ==> |chain| == 1
    ensures chain[0].nextTally != null ==>
              |chain| > 1 && chain[0].nextTally == chain[1] && IsChain(chain[1..], all - {chain[0]})
  {
    var rest := chain[1..];
    if |chain| > 1 {
      forall i | 0 <= i < |rest| ensures rest[i].nextTally == After(rest, i) && rest[i] in all - {chain[0]} {
        assert rest[i] == chain[i + 1] && After(rest, i) == After(chain, i + 1);
      }
    }
  }

  predicate Increasing(r: seq<real>) {
    forall i, j | 0 <= i < j < |r| :: r[i] <= r[j]
  }

  method InsertWindow(r: seq<real>, v: real) returns (s: seq<real>)
    requires Increasing(r)
    ensures Increasing(s) && multiset(s) == multiset(r) + multiset{v} && |s| == |r| + 1
  {
    var k := 0;
    while k < |r| && r[k] <= v
      invariant k <= |r|
      invariant forall i | 0 <= i < k :: r[i] <= v
    {
      k := k + 1;
    }
    s := r[..k] + [v] + r[k..];
    Inserted(r, k, v);
    assert multiset(s) == multiset(r) + multiset{v} by { assert r == r[..k] + r[k..]; }
  }

  lemma Inserted(r: seq<real>, k: nat, v: real)
    requires Increasing(r) && k <= |r|
    requires forall i | 0 <= i < k :: r[i] <= v
    requires k < |r| ==> v <= r[k]
    ensures Increasing(r[..k] + [v] + r[k..])
  {
    var s := r[..k] + [v] + r[k..];
    forall i, j | 0 <= i < j < |s| ensures s[i] <= s[j] {
      assert s[i] == if i < k then r[i] else if i == k then v else r[i - 1];
      assert s[j] == if j < k then r[j] else if j == k then v else r[j - 1];
    }
  }

  /** `list.sort()` on window lengths. */
  method SortWindows(secs: seq<real>) returns (r: seq<real>)
    ensures Increasing(r) && multiset(r) == multiset(secs) && |r| == |secs|
  {
    r := [];
    for n := 0 to |secs|
      invariant Increasing(r) && multiset(r) == multiset(secs[..n]) && |r| == n
    {
      assert secs[..n + 1] == secs[..n] + [secs[n]];
      r := InsertWindow(r, secs[n]);
    }
    assert secs[..|secs|] == secs;
  }

  class StreamThroughput {
    var secs: seq<real>
    var tallies: seq<StreamTally>
    ghost var History: seq<Entry>
    ghost var Now: real
    ghost var States: seq<TallyChain.State>
    ghost var Repr: set<StreamTally>

    ghost predicate Valid()
      reads this, Repr
    {
      && (forall i | 0 <= i < |tallies| :: tallies[i] in Repr)
      && IsChain(tallies, Repr) && Shows(tallies, States)
      && TallyChain.Tracks(States, History, Now) && Faithful(History)
      && |secs| == |tallies| && forall i | 0 <= i < |secs| :: States[i].sec == secs[i]
    }

    /** The windows are taken in increasing order and the tallies linked in it.
        Without any window the source fails. */
    constructor (secs: seq<real>)
      requires secs != []
      ensures Valid() && fresh(Repr) && History == []
      ensures multiset(this.secs) == multiset(secs)
    {
      var sorted := SortWindows(secs);
      var ts, own := MakeTallies(sorted);
      this.secs, tallies, History, Now := sorted, ts, [], 0.0;
      Repr := own;
      States := TallyChain.Fresh(sorted);
      new;
      TallyChain.FreshTracks(sorted);
    }

    /** The specification catches up. */
    ghost method Follow(ss: seq<TallyChain.State>, history: seq<Entry>, now: real)
      requires forall i | 0 <= i < |tallies| :: tallies[i] in Repr
      requires IsChain(tallies, Repr) && Shows(tallies, ss)
      requires |secs| == |tallies| && forall i | 0 <= i < |secs| :: ss[i].sec == secs[i]
      requires TallyChain.Tracks(ss, history, now) && Faithful(history)
      modifies `States, `History, `Now
      ensures Valid() && States == ss && History == history && Now == now
    {
      States, History, Now := ss, history, now;
    }

    /** `add_data(data)` at time `ts`. */
    method AddData(data: StreamData, ts: real)
      requires Valid() && (History != [] ==> Now <= ts)
      modifies this, Repr
      ensures Valid() && Repr == old(Repr) && secs == old(secs)
      ensures History == old(History) + [NewEntry(data, ts)] && Now == ts
      ensures Sent(History) == old(Sent(History)) + [(ts, data)]
    {
      ghost var e, ss := NewEntry(data, ts), TallyChain.Add(States, NewEntry(data, ts));
      EntryFaithful(History, data, ts);
      TallyChain.AddTracks(States, History, Now, e);
      tallies[0].AddData(data, ts, tallies, States, Repr);
      Follow(ss, History + [e], ts);
    }

    /** `tally_prune(ts)` */
    method TallyPrune(ts: real)
      requires Valid() && (History != [] ==> Now <= ts)
      modifies this, Repr
      ensures Valid() && Repr == old(Repr) && secs == old(secs)
      ensures History == old(History) && Now == ts
    {
      ghost var ss := TallyChain.PruneAll(States, [], ts);
      TallyChain.PruneTracks(States, History, Now, ts);
      tallies[0].TallyPrune(ts, tallies, States, Repr);
      Follow(ss, History, ts);
    }

    /** Every tally answers its window over the whole history, however often
        entries were added and pruned; and the deques, last tally first, hold
        exactly the longest window. */
    lemma Answers()
      requires Valid()
      ensures forall i | 0 <= i < |tallies| ::
                tallies[i].sec == secs[i] && (tallies[i].total, tallies[i].tallies) == Answer(History, secs[i], Now)
      ensures TallyChain.Queued(States) == Window(History, secs[|secs| - 1], Now)
    {
      forall i | 0 <= i < |tallies|
        ensures tallies[i].sec == secs[i] && (tallies[i].total, tallies[i].tallies) == Answer(History, secs[i], Now)
      {
        assert tallies[i].Fields() == States[i];
        TallyChain.TallyIsWindow(States, History, |History|, Now, i);
      }
      TallyChain.QueuedIsWindow(States, History, Now);
    }

    /** `summary()` */
    method Summary() returns (r: seq<(real, int)>)
      requires Valid()
      ensures |r| == |secs|
      ensures forall i | 0 <= i < |r| :: r[i] == (secs[i], Received(Sent(History), secs[i], Now))
    {
      Answers();
      AnswersReceived(History, Now);
      r := SummaryOf(tallies, History, secs, Now);
    }

    /** `details()`: windows of equal length share one entry. */
    method Details() returns (d: map<real, (int, map<string, int>)>)
      requires Valid()
      ensures forall s :: s in d <==> s in secs
      ensures forall s | s in d :: d[s] == ReceivedAnswer(Sent(History), s, Now)
    {
      Answers();
      AnswersReceived(History, Now);
      d := DetailsOf(tallies, History, secs, Now);
    }
  }

  /** The total and the per-source sums of a window, from the history. */
  function Answer(h: seq<Entry>, sec: real, now: real): (int, map<string, int>) {
    (Sum(Window(h, sec, now)), SumBySource(h, Window(h, sec, now)))
  }

  /** The same from what was received. */
  function ReceivedAnswer(sent: seq<(real, StreamData)>, sec: real, now: real): (int, map<string, int>) {
    (Received(sent, sec, now), ReceivedBySource(sent, sec, now))
  }

  lemma AnswersReceived(h: seq<Entry>, now: real)
    requires Faithful(h)
    ensures forall s :: Answer(h, s, now) == ReceivedAnswer(Sent(h), s, now)
  {
    forall s ensures Answer(h, s, now) == ReceivedAnswer(Sent(h), s, now) {
      SumsAreReceived(h, "", s, now);
      BySourceIsReceived(h, s, now);
    }
  }

  /** The new entry counts the name and the data, for the sender. */
  lemma EntryFaithful(h: seq<Entry>, data: StreamData, ts: real)
    requires Faithful(h)
    ensures Faithful(h + [NewEntry(data, ts)])
    ensures Sent(h + [NewEntry(data, ts)]) == Sent(h) + [(ts, data)]
  {
  }

  /** The loop of `summary`, over tallies that answer the windows `secs`. */
  method SummaryOf(ts: seq<StreamTally>, ghost h: seq<Entry>, ghost secs: seq<real>, ghost now: real)
    returns (r: seq<(real, int)>)
    requires |ts| == |secs|
    requires forall i | 0 <= i < |ts| ::
               ts[i].sec == secs[i] && (ts[i].total, ts[i].tallies) == Answer(h, secs[i], now)
    ensures |r| == |secs|
    ensures forall i | 0 <= i < |r| :: r[i] == (secs[i], Answer(h, secs[i], now).0)
  {
    r := [];
    for i := 0 to |ts|
      invariant |r| == i
      invariant forall j | 0 <= j < i :: r[j] == (secs[j], Answer(h, secs[j], now).0)
    {
      assert (ts[i].total, ts[i].tallies).0 == Answer(h, secs[i], now).0;
      r := r + [(ts[i].sec, ts[i].total)];
    }
  }

  /** The loop of `details`, over tallies that answer the windows `secs`. */
  method DetailsOf(ts: seq<StreamTally>, ghost h: seq<Entry>, ghost secs: seq<real>, ghost now: real)
    returns (d: map<real, (int, map<string, int>)>)
    requires |ts| == |secs|
    requires forall i | 0 <= i < |ts| ::
               ts[i].sec == secs[i] && (ts[i].total, ts[i].tallies) == Answer(h, secs[i], now)
    ensures forall s :: s in d <==> s in secs
    ensures forall s | s in d :: d[s] == Answer(h, s, now)
  {
    d := map[];
    for i := 0 to |ts|
      invariant forall s :: s in d <==> s in secs[..i]
      invariant forall s | s in d :: d[s] == Answer(h, s, now)
    {
      assert secs[..i + 1] == secs[..i] + [secs[i]];
      d := d[ts[i].sec := (ts[i].total, ts[i].tallies)];
    }
    assert secs[..|ts|] == secs;
  }

  /** One tally per window, each linked to the next. */
  method MakeTallies(secs: seq<real>) returns (ts: seq<StreamTally>, ghost own: set<StreamTally>)
    requires secs != []
    ensures fresh(own) && IsChain(ts, own) && Shows(ts, TallyChain.Fresh(secs))
  {
    ts, own := [], {};
    for i := 0 to |secs|
      invariant |ts| == i && fresh(own)
      invariant forall j | 0 <= j < i :: ts[j] in own && ts[j].nextTally == null
      invariant forall j | 0 <= j < i :: ts[j].Fields() == TallyChain.Fresh(secs)[j]
      invariant forall j, k | 0 <= j < k < i :: ts[j] != ts[k]
    {
      var t := new StreamTally(secs[i]);
      ts := ts + [t];
      own := own + {t};
    }
    var t := ts[0];
    for i := 1 to |secs|
      invariant t == ts[i - 1]
      invariant forall j | 0 <= j < i - 1 :: ts[j].nextTally == After(ts, j)
      invariant forall j | i - 1 <= j < |ts| :: ts[j].nextTally == null
      invariant forall j | 0 <= j < |ts| :: ts[j].Fields() == TallyChain.Fresh(secs)[j]
    {
      t.nextTally := ts[i];
      t := ts[i];
    }
  }
}
