/** Sliding windows over a history of stream data, answered the plain way: keep
    the entries of the window and add them up. */
module Windows {

  datatype StreamData = StreamData(name: string, data: string, src: string)

  /** A deque entry: `(ts, load, src, data)`. */
  datatype Entry = Entry(ts: real, load: int, src: string, data: StreamData)

  predicate Live(e: Entry, sec: real, now: real) {
    e.ts + sec >= now
  }

  function Window(h: seq<Entry>, sec: real, now: real): seq<Entry> {
    if h == [] then []
    else (if Live(h[0], sec, now) then [h[0]] else []) + Window(h[1..], sec, now)
  }

  function Sum(h: seq<Entry>): int {
    if h == [] then 0 else h[0].load + Sum(h[1..])
  }

  function SumOf(h: seq<Entry>, src: string): int {
    if h == [] then 0 else (if h[0].src == src then h[0].load else 0) + SumOf(h[1..], src)
  }

  function Sources(h: seq<Entry>): set<string> {
    set i | 0 <= i < |h| :: h[i].src
  }

  /** Total load per source; every source ever seen is listed. */
  function SumBySource(h: seq<Entry>, live: seq<Entry>): map<string, int> {
    map s | s in Sources(h) :: SumOf(live, s)
  }

  /** The window holds the entries not older than `sec` and no others, in order. */
  lemma {:induction false} WindowMembers(h: seq<Entry>, sec: real, now: real)
    ensures forall e :: e in Window(h, sec, now) <==> e in h && e.ts + sec >= now
  {
    if h != [] {
      WindowMembers(h[1..], sec, now);
      assert forall e :: e in h <==> e == h[0] || e in h[1..];
    }
  }

  // ---- what came in --------------------------------------------------------

  /** The data received, with its times, without anything worked out from it. */
  function Sent(h: seq<Entry>): (r: seq<(real, StreamData)>)
    ensures |r| == |h| && forall i | 0 <= i < |h| :: r[i] == (h[i].ts, h[i].data)
  {
    seq(|h|, i requires 0 <= i < |h| => (h[i].ts, h[i].data))
  }

  /** Every entry counts the characters of the name and the data, for the sender of
      the data. */
  predicate Faithful(h: seq<Entry>) {
    forall e | e in h :: e.load == |e.data.name| + |e.data.data| && e.src == e.data.src
  }

  /** The characters received within the last `sec`, names included. */
  function Received(sent: seq<(real, StreamData)>, sec: real, now: real): int {
    if sent == [] then 0
    else
      (if sent[0].0 + sec >= now then |sent[0].1.name| + |sent[0].1.data| else 0) + Received(sent[1..], sec, now)
  }

  /** Those from one sender. */
  function ReceivedFrom(sent: seq<(real, StreamData)>, src: string, sec: real, now: real): int {
    if sent == [] then 0
    else
      (if sent[0].0 + sec >= now && sent[0].1.src == src then |sent[0].1.name| + |sent[0].1.data| else 0)
      + ReceivedFrom(sent[1..], src, sec, now)
  }

  function Senders(sent: seq<(real, StreamData)>): set<string> {
    set i | 0 <= i < |sent| :: sent[i].1.src
  }

  /** What each sender sent; everyone ever heard of is listed. */
  function ReceivedBySource(sent: seq<(real, StreamData)>, sec: real, now: real): map<string, int> {
    map src | src in Senders(sent) :: ReceivedFrom(sent, src, sec, now)
  }

  lemma SumFront(e: Entry, h: seq<Entry>, src: string)
    ensures Sum([e] + h) == e.load + Sum(h)
    ensures SumOf([e] + h, src) == (if e.src == src then e.load else 0) + SumOf(h, src)
  {
    assert ([e] + h)[1..] == h;
  }

  /** Totals over the window are what was received in it. */
  lemma {:induction false} SumsAreReceived(h: seq<Entry>, src: string, sec: real, now: real)
    requires Faithful(h)
    ensures Sum(Window(h, sec, now)) == Received(Sent(h), sec, now)
    ensures SumOf(Window(h, sec, now), src) == ReceivedFrom(Sent(h), src, sec, now)
  {
    if h != [] {
      SumsAreReceived(h[1..], src, sec, now);
      assert Sent(h)[1..] == Sent(h[1..]);
      assert h[0] in h && Sent(h)[0] == (h[0].ts, h[0].data);
      if Live(h[0], sec, now) {
        SumFront(h[0], Window(h[1..], sec, now), src);
      } else {
        assert Window(h, sec, now) == Window(h[1..], sec, now);
      }
    }
  }

  lemma BySourceIsReceived(h: seq<Entry>, sec: real, now: real)
    requires Faithful(h)
    ensures SumBySource(h, Window(h, sec, now)) == ReceivedBySource(Sent(h), sec, now)
  {
    forall i | 0 <= i < |h| ensures h[i].src == Sent(h)[i].1.src {
      assert h[i] in h;
    }
    assert Sources(h) == Senders(Sent(h));
    forall src ensures SumOf(Window(h, sec, now), src) == ReceivedFrom(Sent(h), src, sec, now) {
      SumsAreReceived(h, src, sec, now);
    }
  }

  /** Timestamps never go back. */
  ghost predicate Ordered(h: seq<Entry>) {
    forall i, j | 0 <= i < j < |h| :: h[i].ts <= h[j].ts
  }

  /** How many entries at the front have expired. */
  function Cut(h: seq<Entry>, sec: real, now: real): (c: nat)
    ensures c <= |h|
    ensures c < |h| ==> Live(h[c], sec, now)
    ensures forall i | 0 <= i < c :: !Live(h[i], sec, now)
  {
    if h == [] || Live(h[0], sec, now) then 0 else 1 + Cut(h[1..], sec, now)
  }

  lemma {:induction false} WindowAll(h: seq<Entry>, sec: real, now: real)
    requires forall i | 0 <= i < |h| :: Live(h[i], sec, now)
    ensures Window(h, sec, now) == h
  {
    if h != [] {
      WindowAll(h[1..], sec, now);
    }
  }

  /** In an ordered history the window is a suffix. */
  lemma {:induction false} WindowIsSuffix(h: seq<Entry>, sec: real, now: real)
    requires Ordered(h)
    ensures Window(h, sec, now) == h[Cut(h, sec, now)..]
  {
    if h == [] || Live(h[0], sec, now) {
      WindowAll(h, sec, now);
    } else {
      WindowIsSuffix(h[1..], sec, now);
    }
  }

  /** Later moments and shorter windows expire more. */
  lemma CutMonotone(h: seq<Entry>, sec: real, now: real, sec': real, now': real)
    requires sec' <= sec && now <= now'
    ensures Cut(h, sec, now) <= Cut(h, sec', now')
  {
    var c, d := Cut(h, sec, now), Cut(h, sec', now');
    assert d < c ==> !Live(h[d], sec, now);
  }

  lemma {:induction false} CutAppend(h: seq<Entry>, e: Entry, sec: real, now: real)
    ensures Cut(h, sec, now) <= Cut(h + [e], sec, now)
  {
    if h != [] {
      assert (h + [e])[1..] == h[1..] + [e];
      CutAppend(h[1..], e, sec, now);
    }
  }

  // ---- one entry in, one entry out ---------------------------------------

  function Get(m: map<string, int>, src: string): int {
    if src in m then m[src] else 0
  }

  /** `tally_inc` on the per-source table. */
  function Inc(m: map<string, int>, src: string, v: int): map<string, int> {
    m[src := Get(m, src) + v]
  }

  /** The table after every entry of `h` came in ... */
  function TableIn(h: seq<Entry>): map<string, int> {
    if h == [] then map[] else Inc(TableIn(h[..|h| - 1]), h[|h| - 1].src, h[|h| - 1].load)
  }

  /** ... and the first `c` of them went out. */
  function Table(h: seq<Entry>, c: nat): map<string, int>
    requires c <= |h|
  {
    if c == 0 then TableIn(h) else Inc(Table(h, c - 1), h[c - 1].src, -h[c - 1].load)
  }

  /** The total after every entry of `h` came in and the first `c` went out. */
  function Total(h: seq<Entry>, c: nat): int
    requires c <= |h|
  {
    if c == 0 then Sum(h) else Total(h, c - 1) - h[c - 1].load
  }

  lemma {:induction false} TotalIsSum(h: seq<Entry>, c: nat)
    requires c <= |h|
    ensures Total(h, c) == Sum(h[c..])
  {
    if c == 0 {
      assert h[0..] == h;
    } else {
      TotalIsSum(h, c - 1);
      assert h[c - 1..][1..] == h[c..];
    }
  }

  lemma {:induction false} SumAppend(h: seq<Entry>, e: Entry, src: string)
    ensures Sum(h + [e]) == Sum(h) + e.load
    ensures SumOf(h + [e], src) == SumOf(h, src) + if e.src == src then e.load else 0
  {
    if h != [] {
      assert (h + [e])[1..] == h[1..] + [e];
      SumAppend(h[1..], e, src);
    } else {
      assert h + [e] == [e] && [e][1..] == [];
    }
  }

  lemma {:induction false} TableInIsSums(h: seq<Entry>, src: string)
    ensures src in TableIn(h) <==> src in Sources(h)
    ensures Get(TableIn(h), src) == SumOf(h, src)
  {
    if h != [] {
      var n := |h| - 1;
      TableInIsSums(h[..n], src);
      SumAppend(h[..n], h[n], src);
      assert h == h[..n] + [h[n]];
      assert Sources(h) == Sources(h[..n]) + {h[n].src};
    }
  }

  lemma {:induction false} TableIsSums(h: seq<Entry>, c: nat, src: string)
    requires c <= |h|
    ensures src in Table(h, c) <==> src in Sources(h)
    ensures Get(Table(h, c), src) == SumOf(h[c..], src)
  {
    if c == 0 {
      assert h[0..] == h;
      TableInIsSums(h, src);
    } else {
      TableIsSums(h, c - 1, src);
      assert h[c - 1..][1..] == h[c..];
      assert h[c - 1].src in Sources(h);
    }
  }

  /** The table kept by increments is the table of sums. */
  lemma TableExact(h: seq<Entry>, c: nat)
    requires c <= |h|
    ensures Table(h, c) == SumBySource(h, h[c..])
  {
    var a, b := Table(h, c), SumBySource(h, h[c..]);
    forall s ensures (s in a <==> s in b) && (s in a ==> a[s] == b[s]) {
      TableIsSums(h, c, s);
    }
  }

  lemma IncCommutes(m: map<string, int>, s: string, v: int, s': string, v': int)
    ensures Inc(Inc(m, s, v), s', v').Keys == Inc(Inc(m, s', v'), s, v).Keys
    ensures Inc(Inc(m, s, v), s', v') == Inc(Inc(m, s', v'), s, v)
  {
  }

  lemma {:induction false} AppendTally(h: seq<Entry>, c: nat, e: Entry)
    requires c <= |h|
    ensures Total(h + [e], c) == Total(h, c) + e.load
    ensures Table(h + [e], c) == Inc(Table(h, c), e.src, e.load)
  {
    if c == 0 {
      SumAppend(h, e, e.src);
      assert (h + [e])[..|h|] == h;
    } else {
      AppendTally(h, c - 1, e);
      IncCommutes(Table(h, c - 1), e.src, e.load, h[c - 1].src, -h[c - 1].load);
    }
  }
}
