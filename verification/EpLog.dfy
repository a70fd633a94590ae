/** The life of an endpoint entry and the log that drives it
    (scalability/ugni-manual/check_ep.py), on values. */
module EpLog {
  import opened Lists
  import opened Options

  datatype State = Init | Post | Complete | Pending | Resume | Error

  datatype Op = Read | Write | Send

  /** A line of the log that the pattern matches, or any other. */
  datatype Line = Line(state: State, op: Op, ptr: string) | Other

  /** `FROM_TBL` */
  function Next(s: State): set<State> {
    match s
    case Init => {Post, Pending, Error}
    case Post => {Complete}
    case Complete => {}
    case Pending => {Resume, Error}
    case Resume => {Post, Pending, Error}
    case Error => {}
  }

  /** Which changes are allowed, by the state they lead to. */
  lemma ChangesExactly(s: State, t: State)
    ensures t in Next(s) <==>
      match t
      case Init => false
      case Post => s == Init || s == Resume
      case Pending => s == Init || s == Resume
      case Resume => s == Pending
      case Complete => s == Post
      case Error => s == Init || s == Pending || s == Resume
  {
  }

  /** The states the pattern can read; it does not know `error`. */
  predicate Readable(l: Line) {
    l.Line? && l.state in {Post, Complete, Pending, Resume}
  }

  datatype Rec = Rec(state: State, op: Op)

  /** The table of entries, the two lists (an entry is named by its pointer) and
      the high-water mark. */
  datatype World = World(entries: map<string, Rec>, posted: seq<string>, completed: seq<(string, Op)>, maxPosted: nat)

  const START := World(map[], [], [], 0)

  /** `list.remove`: the first `x` goes. */
  function Remove<T(==)>(s: seq<T>, x: T): seq<T> {
    if s == [] then [] else if s[0] == x then s[1..] else [s[0]] + Remove(s[1..], x)
  }

  /** One line of the log; nothing when the program stops with an error. */
  function Step(w: World, l: Line): Option<World> {
    if !Readable(l) then None
    else
      var rec := if l.ptr in w.entries then w.entries[l.ptr] else Rec(Init, l.op);
      if l.op != rec.op || l.state !in Next(rec.state) then None
      else
        var gone := if rec.state == Post then Remove(w.posted, l.ptr) else w.posted;
        var posted := if l.state == Post then gone + [l.ptr] else gone;
        Some(World(
          if l.state == Complete then w.entries - {l.ptr} else w.entries[l.ptr := Rec(l.state, rec.op)],
          posted,
          if l.state == Complete then w.completed + [(l.ptr, rec.op)] else w.completed,
          if l.state == Post && |posted| > w.maxPosted then |posted| else w.maxPosted))
  }

  function Run(log: seq<Line>): Option<World> {
    if log == [] then Some(START)
    else
      match Run(log[..|log| - 1])
      case None => None
      case Some(w) => Step(w, log[|log| - 1])
  }

  // ---- lifecycles ----------------------------------------------------------

  type Event = (State, Op)

  /** (pending resume)^n */
  function Rounds(n: nat, op: Op): seq<Event> {
    if n == 0 then [] else Rounds(n - 1, op) + [(Pending, op), (Resume, op)]
  }

  /** (pending resume)* post complete, of one operation. */
  function Life(n: nat, op: Op): seq<Event> {
    Rounds(n, op) + [(Post, op), (Complete, op)]
  }

  /** A whole number of lifecycles, described by their rounds and operations. */
  function Lives(ls: seq<(nat, Op)>): seq<Event> {
    if ls == [] then [] else Lives(ls[..|ls| - 1]) + Life(ls[|ls| - 1].0, ls[|ls| - 1].1)
  }

  /** What an unfinished lifecycle has shown so far. */
  datatype Part = Nothing | Waits(n: nat, op: Op) | Resumed(n: nat, op: Op) | Posted(n: nat, op: Op)

  function PartEvents(p: Part): seq<Event> {
    match p
    case Nothing => []
    case Waits(n, op) => Rounds(n, op) + [(Pending, op)]
    case Resumed(n, op) => Rounds(n + 1, op)
    case Posted(n, op) => Rounds(n, op) + [(Post, op)]
  }

  /** An unfinished lifecycle is a proper beginning of a lifecycle. */
  lemma PartIsPrefix(p: Part, n: nat, op: Op)
    requires p.Nothing? || (p.n == n && p.op == op)
    ensures PartEvents(p) < Life(if p.Waits? || p.Resumed? then n + 1 else n, op)
  {
    var m := if p.Waits? || p.Resumed? then n + 1 else n;
    var full := Life(m, op);
    match p
    case Nothing => assert full != [];
    case Waits(_, _) =>
      assert full == (Rounds(n, op) + [(Pending, op)]) + ([(Resume, op)] + [(Post, op), (Complete, op)]);
    case Resumed(_, _) => assert full == Rounds(n + 1, op) + [(Post, op), (Complete, op)];
    case Posted(_, _) => assert full == (Rounds(n, op) + [(Post, op)]) + [(Complete, op)];
  }

  /** The events split into lifecycles, the last possibly unfinished. */
  ghost predicate Splits(es: seq<Event>) {
    exists ls: seq<(nat, Op)>, p: Part :: es == Lives(ls) + PartEvents(p)
  }

  // ---- one pointer ---------------------------------------------------------

  /** No entry, or one in a state. */
  datatype Local = Idle | Live(rec: Rec)

  function LocalStep(s: Local, e: Event): Option<Local> {
    var rec := if s.Live? then s.rec else Rec(Init, e.1);
    if e.1 != rec.op || e.0 !in Next(rec.state) then None
    else if e.0 == Complete then Some(Idle)
    else Some(Live(Rec(e.0, rec.op)))
  }

  function LocalRun(es: seq<Event>): Option<Local> {
    if es == [] then Some(Idle)
    else
      match LocalRun(es[..|es| - 1])
      case None => None
      case Some(s) => LocalStep(s, es[|es| - 1])
  }

  function PartState(p: Part): Local {
    match p
    case Nothing => Idle
    case Waits(_, op) => Live(Rec(Pending, op))
    case Resumed(_, op) => Live(Rec(Resume, op))
    case Posted(_, op) => Live(Rec(Post, op))
  }

  predicate NoError(es: seq<Event>) {
    forall i | 0 <= i < |es| :: es[i].0 in {Post, Complete, Pending, Resume}
  }

  lemma {:induction false} LocalSplits(es: seq<Event>) returns (ls: seq<(nat, Op)>, p: Part)
    requires NoError(es) && LocalRun(es).Some?
    ensures es == Lives(ls) + PartEvents(p)
    ensures LocalRun(es) == Some(PartState(p))
    decreases |es|
  {
    if es == [] {
      ls, p := [], Nothing;
    } else {
      var n := |es| - 1;
      assert NoError(es[..n]);
      var ls0, p0 := LocalSplits(es[..n]);
      ls, p := Extend(ls0, p0, es[n]);
      assert es == es[..n] + [es[n]];
    }
  }

  /** The unfinished lifecycle after one more event, unless the event ends it. */
  function PartNext(p: Part, e: Event): Part {
    match p
    case Nothing => if e.0 == Post then Posted(0, e.1) else Waits(0, e.1)
    case Waits(n, _) => Resumed(n, e.1)
    case Resumed(n, _) => if e.0 == Post then Posted(n + 1, e.1) else Waits(n + 1, e.1)
    case Posted(_, _) => Nothing
  }

  lemma PartGrows(p: Part, e: Event)
    requires !p.Posted?
    requires e.0 in {Post, Complete, Pending, Resume} && LocalStep(PartState(p), e).Some?
    ensures PartEvents(PartNext(p, e)) == PartEvents(p) + [e]
  {
    match p
    case Nothing => assert PartEvents(PartNext(p, e)) == Rounds(0, e.1) + [e];
    case Waits(n, op) => assert [(Pending, op), (Resume, op)] == [(Pending, op)] + [e];
    case Resumed(n, op) => assert PartEvents(PartNext(p, e)) == Rounds(n + 1, op) + [e];
  }

  /** One more event continues the unfinished lifecycle, ends it or begins one. */
  lemma Extend(ls0: seq<(nat, Op)>, p0: Part, e: Event) returns (ls: seq<(nat, Op)>, p: Part)
    requires e.0 in {Post, Complete, Pending, Resume} && LocalStep(PartState(p0), e).Some?
    ensures Lives(ls) + PartEvents(p) == Lives(ls0) + PartEvents(p0) + [e]
    ensures LocalStep(PartState(p0), e) == Some(PartState(p))
  {
    p := PartNext(p0, e);
    if p0.Posted? {
      ls := ls0 + [(p0.n, p0.op)];
      assert ls[..|ls| - 1] == ls0;
      assert Life(p0.n, p0.op) == PartEvents(p0) + [e];
    } else {
      ls := ls0;
      PartGrows(p0, e);
    }
  }

  lemma LocalNext(es: seq<Event>, e: Event)
    ensures LocalRun(es + [e]) == match LocalRun(es) case None => None case Some(s) => LocalStep(s, e)
  {
    assert (es + [e])[..|es + [e]| - 1] == es;
  }

  lemma LocalTwo(es: seq<Event>, e: Event, f: Event)
    requires LocalRun(es).Some? && LocalStep(LocalRun(es).value, e).Some?
    ensures LocalRun(es + [e, f]) == LocalStep(LocalStep(LocalRun(es).value, e).value, f)
  {
    assert es + [e, f] == (es + [e]) + [f];
    LocalNext(es, e);
    LocalNext(es + [e], f);
  }

  lemma {:induction false} RunRounds(es: seq<Event>, n: nat, op: Op)
    requires LocalRun(es) == Some(Idle)
    ensures LocalRun(es + Rounds(n, op)) == Some(if n == 0 then Idle else Live(Rec(Resume, op)))
    decreases n
  {
    if n == 0 {
      assert es + Rounds(n, op) == es;
    } else {
      var before := es + Rounds(n - 1, op);
      RunRounds(es, n - 1, op);
      LocalTwo(before, (Pending, op), (Resume, op));
      assert es + Rounds(n, op) == before + [(Pending, op), (Resume, op)];
    }
  }

  lemma {:induction false} RunLives(ls: seq<(nat, Op)>)
    ensures LocalRun(Lives(ls)) == Some(Idle)
    decreases |ls|
  {
    if ls != [] {
      var init, l := ls[..|ls| - 1], ls[|ls| - 1];
      RunLives(init);
      RunRounds(Lives(init), l.0, l.1);
      LocalTwo(Lives(init) + Rounds(l.0, l.1), (Post, l.1), (Complete, l.1));
      assert Lives(ls) == Lives(init) + Rounds(l.0, l.1) + [(Post, l.1), (Complete, l.1)];
    }
  }

  lemma RunRoundsThen(es: seq<Event>, n: nat, op: Op, e: Event)
    requires LocalRun(es) == Some(Idle) && e.0 in {Post, Pending} && e.1 == op
    ensures LocalRun(es + (Rounds(n, op) + [e])) == Some(Live(Rec(e.0, op)))
  {
    RunRounds(es, n, op);
    LocalNext(es + Rounds(n, op), e);
    assert es + (Rounds(n, op) + [e]) == es + Rounds(n, op) + [e];
  }

  lemma RunPart(ls: seq<(nat, Op)>, p: Part)
    ensures LocalRun(Lives(ls) + PartEvents(p)) == Some(PartState(p))
  {
    var es := Lives(ls);
    RunLives(ls);
    match p
    case Nothing => assert es + [] == es;
    case Waits(n, op) => RunRoundsThen(es, n, op, (Pending, op));
    case Resumed(n, op) => RunRounds(es, n + 1, op);
    case Posted(n, op) => RunRoundsThen(es, n, op, (Post, op));
  }

  /** The events of one pointer are accepted exactly when they split into
      lifecycles. */
  lemma LocalExact(es: seq<Event>)
    requires NoError(es)
    ensures LocalRun(es).Some? <==> Splits(es)
  {
    if LocalRun(es).Some? {
      var ls, p := LocalSplits(es);
    }
    if Splits(es) {
      var ls: seq<(nat, Op)>, p: Part :| es == Lives(ls) + PartEvents(p);
      RunPart(ls, p);
    }
  }

  // ---- the whole log -------------------------------------------------------

  /** The events of one pointer, in order. */
  function Proj(log: seq<Line>, ptr: string): seq<Event> {
    if log == [] then []
    else
      var l := log[|log| - 1];
      Proj(log[..|log| - 1], ptr) + if l.Line? && l.ptr == ptr then [(l.state, l.op)] else []
  }

  predicate AllReadable(log: seq<Line>) {
    forall i | 0 <= i < |log| :: Readable(log[i])
  }

  lemma {:induction false} ProjNoError(log: seq<Line>, ptr: string)
    requires AllReadable(log)
    ensures NoError(Proj(log, ptr))
    decreases |log|
  {
    if log != [] {
      assert AllReadable(log[..|log| - 1]);
      ProjNoError(log[..|log| - 1], ptr);
    }
  }

  function LocalOf(w: World, ptr: string): Local {
    if ptr in w.entries then Live(w.entries[ptr]) else Idle
  }

  lemma StepIsLocal(w: World, l: Line, ptr: string)
    ensures Step(w, l).Some? <==> Readable(l) && LocalStep(LocalOf(w, l.ptr), (l.state, l.op)).Some?
    ensures Step(w, l).Some? ==>
              LocalOf(Step(w, l).value, ptr)
              == if ptr == l.ptr then LocalStep(LocalOf(w, ptr), (l.state, l.op)).value else LocalOf(w, ptr)
  {
  }

  lemma RunNext(init: seq<Line>, l: Line)
    ensures Run(init + [l]) == match Run(init) case None => None case Some(w) => Step(w, l)
  {
    assert (init + [l])[..|init + [l]| - 1] == init;
  }

  lemma RunLocalStep(init: seq<Line>, l: Line, w: World, ptr: string)
    requires LocalRun(Proj(init, ptr)) == Some(LocalOf(w, ptr)) && Step(w, l).Some?
    ensures LocalRun(Proj(init + [l], ptr)) == Some(LocalOf(Step(w, l).value, ptr))
  {
    StepIsLocal(w, l, ptr);
    ProjNext(init, l, ptr);
  }

  /** While the log is accepted, the entry of a pointer is where its own events
      have taken it. */
  lemma {:induction false} RunIsLocal(log: seq<Line>, ptr: string)
    requires Run(log).Some?
    ensures AllReadable(log) && LocalRun(Proj(log, ptr)) == Some(LocalOf(Run(log).value, ptr))
    decreases |log|
  {
    if log != [] {
      var init, l := log[..|log| - 1], log[|log| - 1];
      assert log == init + [l];
      RunNext(init, l);
      RunIsLocal(init, ptr);
      RunLocalStep(init, l, Run(init).value, ptr);
    }
  }

  /** While the log is accepted, a pointer has an entry if and only if its last event
      is not a completion, and the entry has the state and the operation of that. */
  lemma EntriesExactly(log: seq<Line>, ptr: string)
    requires Run(log).Some?
    ensures var es, w := Proj(log, ptr), Run(log).value;
            && (ptr in w.entries <==> es != [] && es[|es| - 1].0 != Complete)
            && (ptr in w.entries ==> w.entries[ptr] == Rec(es[|es| - 1].0, es[|es| - 1].1))
  {
    RunIsLocal(log, ptr);
  }

  lemma ProjNext(init: seq<Line>, l: Line, ptr: string)
    ensures LocalRun(Proj(init + [l], ptr)) ==
      if l.Line? && l.ptr == ptr then
        match LocalRun(Proj(init, ptr)) case None => None case Some(s) => LocalStep(s, (l.state, l.op))
      else LocalRun(Proj(init, ptr))
  {
    var log := init + [l];
    assert log[..|log| - 1] == init;
    if l.Line? && l.ptr == ptr {
      LocalNext(Proj(init, ptr), (l.state, l.op));
    } else {
      assert Proj(init, ptr) + [] == Proj(init, ptr);
    }
  }

  lemma {:induction false} LocalsAccept(log: seq<Line>)
    requires AllReadable(log)
    requires forall ptr :: LocalRun(Proj(log, ptr)).Some?
    ensures Run(log).Some?
    decreases |log|
  {
    if log != [] {
      var init, l := log[..|log| - 1], log[|log| - 1];
      assert log == init + [l];
      assert AllReadable(init);
      forall ptr ensures LocalRun(Proj(init, ptr)).Some? {
        assert LocalRun(Proj(log, ptr)).Some?;
        ProjNext(init, l, ptr);
      }
      LocalsAccept(init);
      RunIsLocal(init, l.ptr);
      ProjNext(init, l, l.ptr);
      assert LocalRun(Proj(log, l.ptr)).Some?;
      StepIsLocal(Run(init).value, l, l.ptr);
    }
  }

  ghost predicate EachSplits(log: seq<Line>) {
    forall ptr :: Splits(Proj(log, ptr))
  }

  /** A log is accepted exactly when every line is readable and the events of
      every pointer split into lifecycles. */
  lemma AcceptedExactly(log: seq<Line>)
    ensures Run(log).Some? <==> AllReadable(log) && EachSplits(log)
  {
    if Run(log).Some? {
      RunIsLocal(log, "");
      forall ptr ensures Splits(Proj(log, ptr)) {
        RunIsLocal(log, ptr);
        ProjNoError(log, ptr);
        LocalExact(Proj(log, ptr));
      }
    } else if AllReadable(log) && EachSplits(log) {
      forall ptr ensures LocalRun(Proj(log, ptr)).Some? {
        assert Splits(Proj(log, ptr));
        ProjNoError(log, ptr);
        LocalExact(Proj(log, ptr));
      }
      LocalsAccept(log);
    }
  }

  // ---- the counts ----------------------------------------------------------

  function Times(log: seq<Line>, s: State): nat {
    if log == [] then 0
    else Times(log[..|log| - 1], s) + if log[|log| - 1].Line? && log[|log| - 1].state == s then 1 else 0
  }

  /** Posts that have not completed yet. */
  function Open(log: seq<Line>): int {
    Times(log, Post) - Times(log, Complete)
  }

  /** The largest number of open posts at any point of the log. */
  function Peak(log: seq<Line>): int {
    if log == [] then 0
    else if Open(log) > Peak(log[..|log| - 1]) then Open(log) else Peak(log[..|log| - 1])
  }

  lemma {:induction false} PeakIsMaximum(log: seq<Line>)
    ensures forall k | 0 <= k <= |log| :: Open(log[..k]) <= Peak(log)
    ensures exists k | 0 <= k <= |log| :: Open(log[..k]) == Peak(log)
    decreases |log|
  {
    if log == [] {
      assert Open(log[..0]) == Peak(log);
    } else {
      var init := log[..|log| - 1];
      PeakIsMaximum(init);
      assert log[..|log|] == log;
      forall k | 0 <= k <= |log| ensures Open(log[..k]) <= Peak(log) {
        if k < |log| {
          assert log[..k] == init[..k];
        }
      }
      var k :| 0 <= k <= |init| && Open(init[..k]) == Peak(init);
      assert init[..k] == log[..k];
      assert Open(log[..|log|]) == Peak(log) || Open(log[..k]) == Peak(log);
    }
  }

  /** The pointers and operations of the complete lines, in order. */
  function Completions(log: seq<Line>): (s: seq<(string, Op)>)
    ensures |s| == Times(log, Complete)
  {
    if log == [] then []
    else
      var l := log[|log| - 1];
      Completions(log[..|log| - 1]) + if l.Line? && l.state == Complete then [(l.ptr, l.op)] else []
  }

  /** The list of posted entries names each entry in state post once, and no other. */
  ghost predicate Listed(w: World) {
    && Distinct(w.posted)
    && (forall p :: p in w.posted <==> p in w.entries && w.entries[p].state == Post)
  }

  /** Between two lines, no entry is new, complete or in error. */
  ghost predicate Tidy(w: World) {
    Listed(w) && forall p | p in w.entries :: w.entries[p].state in {Post, Pending, Resume}
  }

  /** The world once the pointer of the line has an entry. */
  function Known(w: World, l: Line): World
    requires l.Line?
  {
    if l.ptr in w.entries then w else w.(entries := w.entries[l.ptr := Rec(Init, l.op)])
  }

  lemma StepKnown(w: World, l: Line)
    requires l.Line?
    ensures Step(Known(w, l), l) == Step(w, l)
    ensures Listed(w) ==> Listed(Known(w, l))
  {
    if l.ptr !in w.entries {
      assert w.entries[l.ptr := Rec(Init, l.op)][l.ptr := Rec(l.state, l.op)] == w.entries[l.ptr := Rec(l.state, l.op)];
    }
  }

  lemma {:induction false} RemoveDistinct(s: seq<string>, x: string)
    requires Distinct(s)
    ensures Distinct(Remove(s, x))
    ensures forall y :: y in Remove(s, x) <==> y in s && y != x
    ensures |Remove(s, x)| == if x in s then |s| - 1 else |s|
    decreases |s|
  {
    if s != [] {
      assert s == [s[0]] + s[1..];
      if s[0] != x {
        RemoveDistinct(s[1..], x);
        DistinctJoin([s[0]], Remove(s[1..], x));
      }
    }
  }

  lemma StepListed(w: World, l: Line)
    requires Listed(w) && Step(w, l).Some?
    ensures Listed(Step(w, l).value)
    ensures |Step(w, l).value.posted| - |w.posted|
            == (if l.state == Post then 1 else 0) - (if l.state == Complete then 1 else 0)
  {
    var rec := if l.ptr in w.entries then w.entries[l.ptr] else Rec(Init, l.op);
    if rec.state == Post {
      RemoveDistinct(w.posted, l.ptr);
    }
    if l.state == Post {
      DistinctJoin(w.posted, [l.ptr]);
    }
  }

  /** How far the log was when the pointer was last posted; 0 when it never was. */
  function LastPost(log: seq<Line>, ptr: string): nat {
    if log == [] then 0
    else
      var l := log[|log| - 1];
      if l.Line? && l.state == Post && l.ptr == ptr then |log| else LastPost(log[..|log| - 1], ptr)
  }

  lemma {:induction false} LastPostBound(log: seq<Line>, ptr: string)
    ensures LastPost(log, ptr) <= |log|
    decreases |log|
  {
    if log != [] {
      LastPostBound(log[..|log| - 1], ptr);
    }
  }

  ghost predicate ByLastPost(log: seq<Line>, s: seq<string>) {
    forall i, j | 0 <= i < j < |s| :: LastPost(log, s[i]) < LastPost(log, s[j])
  }

  lemma {:induction false} InRemove<T>(s: seq<T>, x: T, y: T)
    requires y in Remove(s, x)
    ensures y in s
    decreases |s|
  {
    if s[0] != x && y != s[0] {
      InRemove(s[1..], x, y);
    }
  }

  lemma {:induction false} RemoveKeepsOrder(log: seq<Line>, s: seq<string>, x: string)
    requires ByLastPost(log, s)
    ensures ByLastPost(log, Remove(s, x))
    decreases |s|
  {
    if s != [] && s[0] != x {
      var r := Remove(s[1..], x);
      RemoveKeepsOrder(log, s[1..], x);
      forall j | 0 <= j < |r| ensures LastPost(log, s[0]) < LastPost(log, r[j]) {
        InRemove(s[1..], x, r[j]);
        var k :| 0 <= k < |s| - 1 && s[1..][k] == r[j];
        assert s[k + 1] == r[j];
      }
      OrderFront(log, s[0], r);
    }
  }

  lemma OrderFront(log: seq<Line>, x: string, r: seq<string>)
    requires ByLastPost(log, r) && forall j | 0 <= j < |r| :: LastPost(log, x) < LastPost(log, r[j])
    ensures ByLastPost(log, [x] + r)
  {
  }

  /** The posted list is in the order in which its entries were posted. */
  lemma {:induction false} PostedInOrder(log: seq<Line>)
    requires Run(log).Some?
    ensures ByLastPost(log, Run(log).value.posted)
    decreases |log|
  {
    if log != [] {
      var init, l := log[..|log| - 1], log[|log| - 1];
      var w := Run(init).value;
      assert log == init + [l];
      RunNext(init, l);
      PostedInOrder(init);
      CountsExact(init);
      GoneFrom(init, w, l);
      PostedNext(init, l, w, Gone(w, l.ptr));
    }
  }

  /** The posted list once the entry of the line has left it. */
  function Gone(w: World, ptr: string): seq<string> {
    if ptr in w.entries && w.entries[ptr].state == Post then Remove(w.posted, ptr) else w.posted
  }

  lemma GoneFrom(init: seq<Line>, w: World, l: Line)
    requires Tidy(w) && Step(w, l).Some? && ByLastPost(init, w.posted)
    ensures Step(w, l).value.posted == Gone(w, l.ptr) + if l.state == Post then [l.ptr] else []
    ensures l.ptr !in Gone(w, l.ptr) && ByLastPost(init, Gone(w, l.ptr))
  {
    RemoveKeepsOrder(init, w.posted, l.ptr);
    RemoveDistinct(w.posted, l.ptr);
  }

  lemma PostedNext(init: seq<Line>, l: Line, w: World, gone: seq<string>)
    requires Step(w, l).Some? && Tidy(w) && ByLastPost(init, gone) && l.ptr !in gone
    requires Step(w, l).value.posted == gone + if l.state == Post then [l.ptr] else []
    ensures ByLastPost(init + [l], Step(w, l).value.posted)
  {
    var log, s := init + [l], Step(w, l).value.posted;
    assert log[..|log| - 1] == init;
    forall i, j | 0 <= i < j < |s| ensures LastPost(log, s[i]) < LastPost(log, s[j]) {
      assert s[i] == gone[i] && gone[i] in gone;
      LastPostBound(init, s[i]);
      if j < |gone| {
        assert s[j] == gone[j] && gone[j] in gone;
      }
    }
  }

  /** After any accepted log: the posted list holds exactly the entries in state
      post, each once; the high-water mark is the peak of open posts over every
      beginning of the log; the completed list is the complete lines in order. */
  lemma {:induction false} CountsExact(log: seq<Line>)
    requires Run(log).Some?
    ensures Tidy(Run(log).value)
    ensures |Run(log).value.posted| == Open(log)
    ensures Run(log).value.maxPosted == Peak(log)
    ensures Run(log).value.completed == Completions(log)
    decreases |log|
  {
    if log != [] {
      var init := log[..|log| - 1];
      CountsExact(init);
      StepListed(Run(init).value, log[|log| - 1]);
      OpenBelowPeak(init);
    }
  }

  lemma OpenBelowPeak(log: seq<Line>)
    ensures Open(log) <= Peak(log)
  {
  }
}
