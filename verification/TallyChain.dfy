/** What the chain of tallies computes, on plain values, and why each total is
    the answer to its window. */
module TallyChain {
  import opened Windows

  /** The fields of one `StreamTally`. */
  datatype State = State(sec: real, dq: seq<Entry>, tallies: map<string, int>, total: int)

  function TallyInc(s: State, src: string, v: int): State {
    s.(tallies := Inc(s.tallies, src, v), total := s.total + v)
  }

  /** The loop of `tally_prune`: the tally without its expired entries, and
      those entries. */
  function PopExpired(s: State, ts: real): (State, seq<Entry>)
    decreases |s.dq|
  {
    if s.dq == [] || Live(s.dq[0], s.sec, ts) then (s, [])
    else
      var e := s.dq[0];
      var (r, out) := PopExpired(TallyInc(s.(dq := s.dq[1..]), e.src, -e.load), ts);
      (r, [e] + out)
  }

  lemma PopStep(s: State, ts: real, out: seq<Entry>)
    requires s.dq != [] && !Live(s.dq[0], s.sec, ts)
    ensures var s' := TallyInc(s.(dq := s.dq[1..]), s.dq[0].src, -s.dq[0].load);
            && PopExpired(s, ts).0 == PopExpired(s', ts).0
            && out + PopExpired(s, ts).1 == out + [s.dq[0]] + PopExpired(s', ts).1
  {
  }

  /** `tally_prune` down the chain, when `arrived` was just handed to the first
      tally. */
  function PruneAll(ss: seq<State>, arrived: seq<Entry>, ts: real): (r: seq<State>)
    ensures |r| == |ss|
    decreases |ss|
  {
    if ss == [] then []
    else
      var (s, out) := PopExpired(ss[0].(dq := ss[0].dq + arrived), ts);
      [s] + PruneAll(ss[1..], out, ts)
  }

  /** Every tally counts a new entry. */
  function CountAll(ss: seq<State>, e: Entry): (r: seq<State>)
    ensures |r| == |ss|
    ensures forall i | 0 <= i < |ss| :: r[i] == TallyInc(ss[i], e.src, e.load)
  {
    seq(|ss|, i requires 0 <= i < |ss| => TallyInc(ss[i], e.src, e.load))
  }

  /** `add_data` without the pruning. */
  function AddFirst(ss: seq<State>, e: Entry): seq<State>
    requires ss != []
  {
    CountAll(ss, e)[0 := TallyInc(ss[0].(dq := ss[0].dq + [e]), e.src, e.load)]
  }

  // ---- the invariant -------------------------------------------------------

  /** The tally counts the history from `c` on, and holds its entries from `c`
      up to `end`. */
  ghost predicate Counts(s: State, h: seq<Entry>, c: nat, end: nat) {
    && c <= end <= |h|
    && s.dq == h[c..end]
    && s.total == Total(h, c)
    && s.tallies == Table(h, c)
  }

  /** Tally `i` counts the history from `cuts[i]` on; its entries end where those
      of the tally before it begin. */
  ghost predicate Cascade(ss: seq<State>, h: seq<Entry>, cuts: seq<nat>, end: nat)
    decreases |ss|
  {
    && |cuts| == |ss|
    && (ss != [] ==> Counts(ss[0], h, cuts[0], end) && Cascade(ss[1..], h, cuts[1..], cuts[0]))
  }

  predicate WindowsGrow(ss: seq<State>) {
    forall i, j | 0 <= i < j < |ss| :: ss[i].sec <= ss[j].sec
  }

  /** Where each tally's window begins at `ts`. */
  function CutsAt(h: seq<Entry>, ss: seq<State>, ts: real): seq<nat> {
    if ss == [] then [] else [Cut(h, ss[0].sec, ts)] + CutsAt(h, ss[1..], ts)
  }

  /** No tally has pruned beyond `later`. */
  predicate NotBeyond(cuts: seq<nat>, later: seq<nat>) {
    |cuts| == |later| && forall i | 0 <= i < |cuts| :: cuts[i] <= later[i]
  }

  lemma {:induction false} PopExact(s: State, h: seq<Entry>, c: nat, end: nat, ts: real)
    requires Counts(s, h, c, end) && c <= Cut(h, s.sec, ts) <= end
    ensures var (r, out) := PopExpired(s, ts);
            && Counts(r, h, Cut(h, s.sec, ts), end) && r.sec == s.sec
            && out == h[c..Cut(h, s.sec, ts)]
    decreases end - c
  {
    var k := Cut(h, s.sec, ts);
    if c < k {
      assert s.dq[0] == h[c];
      assert s.dq[1..] == h[c + 1..end];
      PopExact(TallyInc(s.(dq := s.dq[1..]), h[c].src, -h[c].load), h, c + 1, end, ts);
      assert [h[c]] + h[c + 1..k] == h[c..k];
    } else {
      assert c < end ==> s.dq[0] == h[k];
      assert h[c..k] == [];
    }
  }

  /** Pruning at `ts` leaves every tally counting exactly its window. */
  lemma {:induction false} PruneExact(ss: seq<State>, arrived: seq<Entry>, h: seq<Entry>, cuts: seq<nat>,
                                      mid: nat, end: nat, ts: real)
    requires Cascade(ss, h, cuts, mid) && mid <= end <= |h| && arrived == h[mid..end]
    requires NotBeyond(cuts, CutsAt(h, ss, ts)) && WindowsGrow(ss)
    requires ss != [] ==> Cut(h, ss[0].sec, ts) <= end
    ensures Cascade(PruneAll(ss, arrived, ts), h, CutsAt(h, ss, ts), end)
    ensures forall i | 0 <= i < |ss| :: PruneAll(ss, arrived, ts)[i].sec == ss[i].sec
    decreases |ss|
  {
    if ss != [] {
      var k := Cut(h, ss[0].sec, ts);
      var s := ss[0].(dq := ss[0].dq + arrived);
      assert h[cuts[0]..mid] + h[mid..end] == h[cuts[0]..end];
      assert CutsAt(h, ss, ts)[0] == k;
      PopExact(s, h, cuts[0], end, ts);
      var (r, out) := PopExpired(s, ts);
      assert CutsAt(h, ss, ts)[1..] == CutsAt(h, ss[1..], ts);
      assert forall i | 0 <= i < |ss| - 1 :: CutsAt(h, ss, ts)[1..][i] == CutsAt(h, ss, ts)[i + 1];
      if |ss| > 1 {
        CutMonotone(h, ss[1].sec, ts, ss[0].sec, ts);
      }
      PruneExact(ss[1..], out, h, cuts[1..], cuts[0], k, ts);
      assert PruneAll(ss, arrived, ts)[1..] == PruneAll(ss[1..], out, ts);
    }
  }

  lemma {:induction false} CountAllCascade(ss: seq<State>, h: seq<Entry>, cuts: seq<nat>, end: nat, e: Entry)
    requires Cascade(ss, h, cuts, end)
    ensures Cascade(CountAll(ss, e), h + [e], cuts, end)
    decreases |ss|
  {
    if ss != [] {
      AppendTally(h, cuts[0], e);
      assert (h + [e])[cuts[0]..end] == h[cuts[0]..end];
      CountAllCascade(ss[1..], h, cuts[1..], cuts[0], e);
      assert CountAll(ss, e)[1..] == CountAll(ss[1..], e);
    }
  }

  lemma AddFirstCascade(ss: seq<State>, h: seq<Entry>, cuts: seq<nat>, e: Entry)
    requires ss != [] && Cascade(ss, h, cuts, |h|)
    ensures Cascade(AddFirst(ss, e), h + [e], cuts, |h| + 1)
  {
    CountAllCascade(ss, h, cuts, |h|, e);
    AppendTally(h, cuts[0], e);
    var a := AddFirst(ss, e);
    assert (h + [e])[cuts[0]..|h| + 1] == h[cuts[0]..|h|] + [e];
    assert a[1..] == CountAll(ss, e)[1..];
  }

  lemma {:induction false} CutsMove(h: seq<Entry>, ss: seq<State>, now: real, ts: real)
    requires now <= ts
    ensures NotBeyond(CutsAt(h, ss, now), CutsAt(h, ss, ts))
    decreases |ss|
  {
    if ss != [] {
      CutMonotone(h, ss[0].sec, now, ss[0].sec, ts);
      CutsMove(h, ss[1..], now, ts);
    }
  }

  lemma {:induction false} CutsAppend(h: seq<Entry>, e: Entry, ss: seq<State>, ts: real)
    ensures NotBeyond(CutsAt(h, ss, ts), CutsAt(h + [e], ss, ts))
    decreases |ss|
  {
    if ss != [] {
      CutAppend(h, e, ss[0].sec, ts);
      CutsAppend(h, e, ss[1..], ts);
    }
  }

  lemma {:induction false} CutsOfSecs(h: seq<Entry>, ss: seq<State>, ss': seq<State>, ts: real)
    requires |ss| == |ss'| && forall i | 0 <= i < |ss| :: ss'[i].sec == ss[i].sec
    ensures CutsAt(h, ss, ts) == CutsAt(h, ss', ts)
    decreases |ss|
  {
    if ss != [] {
      CutsOfSecs(h, ss[1..], ss'[1..], ts);
    }
  }

  lemma {:induction false} CutsOfNothing(ss: seq<State>, now: real, ts: real, h: seq<Entry>)
    ensures NotBeyond(CutsAt([], ss, now), CutsAt(h, ss, ts))
    decreases |ss|
  {
    if ss != [] {
      CutsOfNothing(ss[1..], now, ts, h);
    }
  }

  /** What arrives can as well be appended first. */
  lemma PruneArrived(ss: seq<State>, arrived: seq<Entry>, ts: real)
    requires ss != []
    ensures PruneAll(ss, arrived, ts) == PruneAll(ss[0 := ss[0].(dq := ss[0].dq + arrived)], [], ts)
  {
    var s := ss[0].(dq := ss[0].dq + arrived);
    assert s.(dq := s.dq + []) == s;
  }

  // ---- the whole object ----------------------------------------------------

  /** Everything up to `now` is counted, and nothing older than its window. */
  ghost predicate Tracks(ss: seq<State>, h: seq<Entry>, now: real) {
    && ss != [] && WindowsGrow(ss) && Ordered(h)
    && (h != [] ==> h[|h| - 1].ts <= now)
    && Cascade(ss, h, CutsAt(h, ss, now), |h|)
  }

  /** New tallies for the given windows. */
  function Fresh(secs: seq<real>): (ss: seq<State>)
    ensures |ss| == |secs|
  {
    seq(|secs|, i requires 0 <= i < |secs| => State(secs[i], [], map[], 0))
  }

  lemma {:induction false} FreshCascade(ss: seq<State>, ts: real)
    requires forall i | 0 <= i < |ss| :: ss[i] == State(ss[i].sec, [], map[], 0)
    ensures Cascade(ss, [], CutsAt([], ss, ts), 0)
    decreases |ss|
  {
    if ss != [] {
      FreshCascade(ss[1..], ts);
      assert CutsAt([], ss, ts)[1..] == CutsAt([], ss[1..], ts);
    }
  }

  lemma FreshTracks(secs: seq<real>)
    requires secs != [] && forall i, j | 0 <= i < j < |secs| :: secs[i] <= secs[j]
    ensures Tracks(Fresh(secs), [], 0.0)
  {
    FreshCascade(Fresh(secs), 0.0);
  }

  function Add(ss: seq<State>, e: Entry): seq<State>
    requires ss != []
  {
    PruneAll(AddFirst(ss, e), [], e.ts)
  }

  lemma AddNotBeyond(ss: seq<State>, h: seq<Entry>, now: real, e: Entry)
    requires h != [] ==> now <= e.ts
    ensures NotBeyond(CutsAt(h, ss, now), CutsAt(h + [e], ss, e.ts))
  {
    if h == [] {
      CutsOfNothing(ss, now, e.ts, h + [e]);
    } else {
      CutsAppend(h, e, ss, now);
      CutsMove(h + [e], ss, now, e.ts);
    }
  }

  lemma AddTracks(ss: seq<State>, h: seq<Entry>, now: real, e: Entry)
    requires Tracks(ss, h, now) && (h != [] ==> now <= e.ts)
    ensures Tracks(Add(ss, e), h + [e], e.ts)
    ensures forall i | 0 <= i < |ss| :: Add(ss, e)[i].sec == ss[i].sec
  {
    var a := AddFirst(ss, e);
    var h', cuts := h + [e], CutsAt(h, ss, now);
    AddFirstCascade(ss, h, cuts, e);
    AddNotBeyond(ss, h, now, e);
    CutsOfSecs(h', ss, a, e.ts);
    OrderedAppend(h, e);
    PrunedTracks(a, h', cuts, e.ts);
  }

  lemma OrderedAppend(h: seq<Entry>, e: Entry)
    requires Ordered(h) && (h != [] ==> h[|h| - 1].ts <= e.ts)
    ensures Ordered(h + [e])
  {
    forall i, j | 0 <= i < j < |h + [e]| ensures (h + [e])[i].ts <= (h + [e])[j].ts {
      assert i < |h| - 1 ==> h[i].ts <= h[|h| - 1].ts;
    }
  }

  lemma PrunedTracks(ss: seq<State>, h: seq<Entry>, cuts: seq<nat>, ts: real)
    requires ss != [] && WindowsGrow(ss) && Ordered(h) && (h != [] ==> h[|h| - 1].ts <= ts)
    requires Cascade(ss, h, cuts, |h|) && NotBeyond(cuts, CutsAt(h, ss, ts))
    ensures Tracks(PruneAll(ss, [], ts), h, ts)
    ensures forall i | 0 <= i < |ss| :: PruneAll(ss, [], ts)[i].sec == ss[i].sec
  {
    assert h[|h|..|h|] == [];
    PruneExact(ss, [], h, cuts, |h|, |h|, ts);
    CutsOfSecs(h, ss, PruneAll(ss, [], ts), ts);
  }

  lemma PruneTracks(ss: seq<State>, h: seq<Entry>, now: real, ts: real)
    requires Tracks(ss, h, now) && (h != [] ==> now <= ts)
    ensures Tracks(PruneAll(ss, [], ts), h, ts)
    ensures forall i | 0 <= i < |ss| :: PruneAll(ss, [], ts)[i].sec == ss[i].sec
  {
    if h == [] {
      CutsOfNothing(ss, now, ts, h);
    } else {
      CutsMove(h, ss, now, ts);
    }
    PrunedTracks(ss, h, CutsAt(h, ss, now), ts);
  }

  /** Every tally is the answer of its window over the whole history. */
  lemma {:induction false} TallyIsWindow(ss: seq<State>, h: seq<Entry>, end: nat, ts: real, i: nat)
    requires Ordered(h) && Cascade(ss, h, CutsAt(h, ss, ts), end) && i < |ss|
    ensures ss[i].total == Sum(Window(h, ss[i].sec, ts))
    ensures ss[i].tallies == SumBySource(h, Window(h, ss[i].sec, ts))
    decreases |ss|
  {
    var cuts := CutsAt(h, ss, ts);
    if i == 0 {
      WindowIsSuffix(h, ss[0].sec, ts);
      TotalIsSum(h, cuts[0]);
      TableExact(h, cuts[0]);
    } else {
      assert cuts[1..] == CutsAt(h, ss[1..], ts);
      TallyIsWindow(ss[1..], h, cuts[0], ts, i - 1);
    }
  }

  /** The deques, from the last tally to the first. */
  function Queued(ss: seq<State>): seq<Entry> {
    if ss == [] then [] else Queued(ss[1..]) + ss[0].dq
  }

  /** Together, in this order, the deques are what the last tally counts. */
  lemma {:induction false} QueuedIsSuffix(ss: seq<State>, h: seq<Entry>, cuts: seq<nat>, end: nat)
    requires ss != [] && Cascade(ss, h, cuts, end)
    ensures cuts[|ss| - 1] <= end <= |h| && Queued(ss) == h[cuts[|ss| - 1]..end]
    decreases |ss|
  {
    if |ss| == 1 {
      assert Queued(ss[1..]) == [];
    } else {
      var a, c := cuts[|ss| - 1], cuts[0];
      QueuedIsSuffix(ss[1..], h, cuts[1..], c);
      assert Queued(ss[1..]) == h[a..c] && ss[0].dq == h[c..end];
      Adjoining(h, a, c, end);
    }
  }

  lemma Adjoining(h: seq<Entry>, a: nat, c: nat, b: nat)
    requires a <= c <= b <= |h|
    ensures h[a..c] + h[c..b] == h[a..b]
  {
  }

  lemma {:induction false} LastCut(h: seq<Entry>, ss: seq<State>, ts: real)
    requires ss != []
    ensures |CutsAt(h, ss, ts)| == |ss|
    ensures CutsAt(h, ss, ts)[|ss| - 1] == Cut(h, ss[|ss| - 1].sec, ts)
    decreases |ss|
  {
    if |ss| > 1 {
      LastCut(h, ss[1..], ts);
    }
  }

  /** The deques hold exactly the longest window, in order. */
  lemma QueuedIsWindow(ss: seq<State>, h: seq<Entry>, now: real)
    requires Tracks(ss, h, now)
    ensures Queued(ss) == Window(h, ss[|ss| - 1].sec, now)
  {
    QueuedIsSuffix(ss, h, CutsAt(h, ss, now), |h|);
    LastCut(h, ss, now);
    WindowIsSuffix(h, ss[|ss| - 1].sec, now);
  }
}
