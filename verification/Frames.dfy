/** Frames around stream messages: what C/test_stream_sampler.c writes, and what the
    readers of LDMS_Test.py and python/stream_check.py make of it. `loads` stands
    for the JSON decoder. */
module Frames {
  import opened Options

  const NUL: char := 0 as char
  const SOH: char := 1 as char
  const STX: char := 2 as char
  const ETX: char := 3 as char

  // ---- writing -------------------------------------------------------------

  datatype Kind = StringKind | JsonKind | OtherKind

  function KindText(k: Kind): (s: string)
    ensures STX !in s
  {
    match k
    case StringKind => "string"
    case JsonKind => "json"
    case OtherKind => "unknown"
  }

  /** A frame with any header and body. */
  function Wire(header: string, body: string): string {
    [SOH] + header + [STX] + body + [ETX]
  }

  function Frame(k: Kind, data: string): string {
    Wire(KindText(k), data)
  }

  /** The bytes of frames in full: the marks 1, 2 and 3 around the type and the text,
      and one frame behind the other. */
  lemma FramesInFull()
    ensures Frame(JsonKind, "{}") == [1 as char] + "json" + [2 as char] + "{}" + [3 as char]
    ensures Frame(StringKind, "hi") == [1 as char] + "string" + [2 as char] + "hi" + [3 as char]
    ensures Frame(OtherKind, "") == [1 as char] + "unknown" + [2 as char] + [3 as char]
    ensures Written([Event(StringKind, "hi"), Event(JsonKind, "{}")])
            == [1 as char] + "string" + [2 as char] + "hi" + [3 as char]
               + [1 as char] + "json" + [2 as char] + "{}" + [3 as char]
  {
    var es := [Event(StringKind, "hi"), Event(JsonKind, "{}")];
    assert es[1..] == [Event(JsonKind, "{}")] && es[1..][1..] == [];
    assert Written([]) == "";
  }

  datatype Event = Event(kind: Kind, data: string)

  function Written(es: seq<Event>): string {
    if es == [] then "" else Frame(es[0].kind, es[0].data) + Written(es[1..])
  }

  // ---- reading -------------------------------------------------------------

  /** `strip('\x00')` */
  function Strip(s: string): string {
    if s == "" then ""
    else if s[0] == NUL then Strip(s[1..])
    else if s[|s| - 1] == NUL then Strip(s[..|s| - 1])
    else s
  }

  datatype Outcome<J> =
    | Msg(header: string, text: string, obj: Option<J>)
    | EndOfFile
    | NotStart
    | BadHeader
    | Short
    | Incomplete
    | BadJson(header: string, text: string)

  /** The first place of `c` from `from` on, or the end. */
  function Find(s: string, from: nat, c: char): (r: nat)
    requires from <= |s|
    ensures from <= r <= |s|
    ensures forall i | from <= i < r :: s[i] != c
    ensures r < |s| ==> s[r] == c
    decreases |s| - from
  {
    if from == |s| || s[from] == c then from else Find(s, from + 1, c)
  }

  /** What either reader makes of a header and a text. */
  function Deliver<J>(header: string, text: string, loads: string -> Option<J>): Outcome<J> {
    if header != "json" then Msg(header, text, None)
    else
      match loads(text)
      case None => BadJson(header, text)
      case Some(j) => Msg(header, text, Some(j))
  }

  /** Whether a whole frame was taken, decoded or not. */
  predicate Taken<J>(o: Outcome<J>) {
    o.Msg? || o.BadJson?
  }

  /** `read_msg` of LDMS_Test.py: the outcome and the position after it. */
  function ReadMsg<J>(s: string, pos: nat, loads: string -> Option<J>): (r: (Outcome<J>, nat))
    requires pos <= |s|
    ensures r.1 <= |s|
  {
    if pos == |s| then (EndOfFile, pos)
    else if s[pos] != SOH then (NotStart, pos)
    else
      var h := Find(s, pos + 1, STX);
      if h == |s| then (BadHeader, pos) else ReadText(s, pos, s[pos + 1..h], h + 1, loads)
  }

  /** The rest of the frame that started at `pos`, from behind its header. */
  function ReadText<J>(s: string, pos: nat, header: string, b: nat, loads: string -> Option<J>): (r: (Outcome<J>, nat))
    requires pos < b <= |s|
    ensures r.1 <= |s|
  {
    var e := Find(s, b, ETX);
    if e == |s| then (Incomplete, pos) else (Deliver(header, Strip(s[b..e]), loads), e + 1)
  }

  /** `read_msg` of python/stream_check.py: the length of the text is known. */
  function ReadSized<J>(s: string, pos: nat, n: nat, loads: string -> Option<J>): (r: (Outcome<J>, nat))
    requires pos <= |s|
    ensures r.1 <= |s|
  {
    if pos == |s| then (EndOfFile, pos)
    else if s[pos] != SOH then (NotStart, pos)
    else
      var h := Find(s, pos + 1, STX);
      if h == |s| then (BadHeader, pos) else ReadSizedText(s, pos, s[pos + 1..h], h + 1, n, loads)
  }

  function ReadSizedText<J>(s: string, pos: nat, header: string, b: nat, n: nat, loads: string -> Option<J>)
    : (r: (Outcome<J>, nat))
    requires pos < b <= |s|
    ensures r.1 <= |s|
  {
    if b + n > |s| then (Short, |s|)
    else
      var e := SkipNul(s, b + n);
      if e < |s| && s[e] == ETX then (Deliver(header, s[b..b + n], loads), e + 1) else (Incomplete, pos)
  }

  /** At most one terminating zero is passed over. */
  function SkipNul(s: string, p: nat): (e: nat)
    requires p <= |s|
    ensures p <= e <= |s|
  {
    if p < |s| && s[p] == NUL then p + 1 else p
  }

  // ---- what is read, without the loops -------------------------------------

  /** `c` stands at `i` for the first time from `from` on. */
  predicate FirstAt(s: string, from: nat, c: char, i: nat) {
    from <= i < |s| && s[i] == c && forall j | from <= j < i :: s[j] != c
  }

  predicate NoneFrom(s: string, from: nat, c: char) {
    forall j | from <= j < |s| :: s[j] != c
  }

  /** The first mark 2 behind `pos` is at `h`, and no mark 3 follows it. */
  predicate Endless(s: string, pos: nat, h: nat) {
    FirstAt(s, pos + 1, 2 as char, h) && NoneFrom(s, h + 1, 3 as char)
  }

  /** Each of the four failures, by what stands in the file. */
  lemma FailuresExactly<J>(s: string, pos: nat, loads: string -> Option<J>)
    requires pos <= |s|
    ensures var r := ReadMsg(s, pos, loads).0;
            && (r == EndOfFile <==> pos == |s|)
            && (r == NotStart <==> pos < |s| && s[pos] != 1 as char)
            && (r == BadHeader <==> pos < |s| && s[pos] == 1 as char && NoneFrom(s, pos + 1, 2 as char))
            && (r == Incomplete <==> pos < |s| && s[pos] == 1 as char && exists h: nat :: Endless(s, pos, h))
  {
    if pos < |s| && s[pos] == 1 as char {
      var h := Find(s, pos + 1, STX);
      if h < |s| {
        assert Endless(s, pos, h) <==> NoneFrom(s, h + 1, 3 as char);
        var e := Find(s, h + 1, ETX);
      }
    }
  }

  /** A message: the type up to the first mark 2, the text up to the first mark 3
      behind it, without zeros at its ends, decoded if the type says JSON. */
  lemma MessageExactly<J>(s: string, pos: nat, h: nat, e: nat, loads: string -> Option<J>)
    requires pos < |s| && s[pos] == 1 as char
    requires FirstAt(s, pos + 1, 2 as char, h) && FirstAt(s, h + 1, 3 as char, e)
    ensures ReadMsg(s, pos, loads).1 == e + 1
    ensures var header, text, r := s[pos + 1..h], Strip(s[h + 1..e]), ReadMsg(s, pos, loads).0;
            if header != "json" then r == Msg(header, text, None)
            else if loads(text).None? then r == BadJson(header, text)
            else r == Msg(header, text, loads(text))
  {
    assert Find(s, pos + 1, STX) == h && Find(s, h + 1, ETX) == e;
  }

  /** The failures of the reader that knows the length, and what it takes. */
  lemma SizedExactly<J>(s: string, pos: nat, n: nat, h: nat, loads: string -> Option<J>)
    requires pos < |s| && s[pos] == 1 as char && FirstAt(s, pos + 1, 2 as char, h)
    ensures var r, b := ReadSized(s, pos, n, loads), h + 1 + n;
            if b > |s| then r == (Short, |s|)
            else if b < |s| && s[b] == 3 as char then
              r == (Deliver(s[pos + 1..h], s[h + 1..b], loads), b + 1)
            else if b + 1 < |s| && s[b] == 0 as char && s[b + 1] == 3 as char then
              r == (Deliver(s[pos + 1..h], s[h + 1..b], loads), b + 2)
            else r == (Incomplete, pos)
  {
    assert Find(s, pos + 1, STX) == h;
  }

  function Zeros(n: nat): string {
    if n == 0 then "" else [0 as char] + Zeros(n - 1)
  }

  lemma {:induction false} ZerosSnoc(n: nat)
    ensures Zeros(n) + [0 as char] == Zeros(n + 1)
  {
    if n > 0 {
      ZerosSnoc(n - 1);
    }
  }

  /** Stripping takes zeros off both ends, and nothing else. */
  lemma {:induction false} StripExactly(s: string) returns (a: nat, b: nat)
    ensures s == Zeros(a) + Strip(s) + Zeros(b)
    ensures Strip(s) == "" || (Strip(s)[0] != 0 as char && Strip(s)[|Strip(s)| - 1] != 0 as char)
    decreases |s|
  {
    a, b := 0, 0;
    if s != "" && s[0] == NUL {
      a, b := StripExactly(s[1..]);
      ZeroInFront(s, a, Strip(s[1..]), b);
      a := a + 1;
    } else if s != "" && s[|s| - 1] == NUL {
      a, b := StripExactly(s[..|s| - 1]);
      ZeroBehind(s, a, Strip(s[..|s| - 1]), b);
      b := b + 1;
    }
  }

  lemma ZeroInFront(s: string, a: nat, t: string, b: nat)
    requires s != "" && s[0] == 0 as char && s[1..] == Zeros(a) + t + Zeros(b)
    ensures s == Zeros(a + 1) + t + Zeros(b)
  {
    assert s == [s[0]] + s[1..];
  }

  lemma ZeroBehind(s: string, a: nat, t: string, b: nat)
    requires s != "" && s[|s| - 1] == 0 as char && s[..|s| - 1] == Zeros(a) + t + Zeros(b)
    ensures s == Zeros(a) + t + Zeros(b + 1)
  {
    ZerosSnoc(b);
    assert s == s[..|s| - 1] + [s[|s| - 1]];
  }

  // ---- position ------------------------------------------------------------

  /** A read that fails before decoding leaves the position alone, any other moves
      it on. */
  lemma PositionMoves<J>(s: string, pos: nat, loads: string -> Option<J>)
    requires pos <= |s|
    ensures var r := ReadMsg(s, pos, loads);
            if Taken(r.0) then r.1 > pos else r.1 == pos
  {
  }

  /** A frame starts here and its text is cut short by the end of the file. */
  predicate CutShort(s: string, pos: nat, n: nat) {
    && pos < |s| && s[pos] == SOH
    && Find(s, pos + 1, STX) < |s| && Find(s, pos + 1, STX) + 1 + n > |s|
  }

  /** The reader that knows the length leaves the position alone on failing if and
      only if the text is not cut short; if it is, the position is the end. */
  lemma SizedPositionMoves<J>(s: string, pos: nat, n: nat, loads: string -> Option<J>)
    requires pos <= |s|
    ensures var r := ReadSized(s, pos, n, loads);
            && (Taken(r.0) ==> r.1 > pos)
            && (!Taken(r.0) ==> (r.1 == pos <==> !CutShort(s, pos, n)))
            && (CutShort(s, pos, n) ==> !Taken(r.0) && pos < r.1 == |s|)
  {
    assert pos < |s| && s[pos] == SOH ==> Find(s, pos + 1, STX) >= pos + 1;
  }

  /** An empty text where one character is expected is such a file. */
  lemma EmptyTextIsCutShort<J>(loads: string -> Option<J>)
    ensures CutShort([SOH, STX], 0, 1)
    ensures ReadSized([SOH, STX], 0, 1, loads) == (Short, 2)
    ensures ReadMsg([SOH, STX], 0, loads) == (Incomplete, 0)
  {
    var s := [SOH, STX];
    assert Find(s, 1, STX) == 1 && Find(s, 2, ETX) == 2;
  }

  lemma FindGrown(s: string, more: string, from: nat, c: char)
    requires from <= |s| && Find(s, from, c) < |s|
    ensures Find(s + more, from, c) == Find(s, from, c)
  {
    var f, g := Find(s, from, c), Find(s + more, from, c);
    assert (s + more)[f] == c;
    assert g < |s| ==> s[g] == (s + more)[g];
  }

  /** A message once complete stays the same when more is written behind it, so a
      reader may try again after an incomplete one. */
  lemma MoreTextSameMessage<J>(s: string, more: string, pos: nat, loads: string -> Option<J>)
    requires pos <= |s| && Taken(ReadMsg(s, pos, loads).0)
    ensures ReadMsg(s + more, pos, loads) == ReadMsg(s, pos, loads)
  {
    var h := Find(s, pos + 1, STX);
    FindGrown(s, more, pos + 1, STX);
    SliceGrown(s, more, pos + 1, h);
    MoreTextSameText(s, more, pos, s[pos + 1..h], h + 1, loads);
  }

  lemma MoreTextSameText<J>(s: string, more: string, pos: nat, header: string, b: nat, loads: string -> Option<J>)
    requires pos < b <= |s| && Taken(ReadText(s, pos, header, b, loads).0)
    ensures ReadText(s + more, pos, header, b, loads) == ReadText(s, pos, header, b, loads)
  {
    FindGrown(s, more, b, ETX);
    SliceGrown(s, more, b, Find(s, b, ETX));
  }

  lemma SliceGrown(s: string, more: string, a: nat, b: nat)
    requires a <= b <= |s|
    ensures (s + more)[a..b] == s[a..b]
  {
  }

  // ---- one frame -----------------------------------------------------------

  /** A body and the end mark stand at `b`. */
  predicate HasBody(s: string, b: nat, body: string) {
    b + |body| < |s| && s[b..b + |body|] == body && s[b + |body|] == ETX
  }

  /** The file `s` has, from `at` on, a frame with this header and body. */
  predicate HasFrame(s: string, at: nat, header: string, body: string) {
    && HasBody(s, at + 2 + |header|, body)
    && s[at] == SOH && s[at + 1 + |header|] == STX && s[at + 1..at + 1 + |header|] == header
  }

  lemma FrameInFile(pre: string, header: string, body: string, post: string)
    ensures HasFrame(pre + Wire(header, body) + post, |pre|, header, body)
    ensures |pre + Wire(header, body)| == |pre| + 2 + |header| + |body| + 1
  {
    var s, b := pre + Wire(header, body) + post, |pre| + 2 + |header|;
    assert s[|pre| + 1..b - 1] == header;
    assert s[b..b + |body|] == body;
  }

  lemma FindHeader(s: string, at: nat, header: string, body: string)
    requires HasFrame(s, at, header, body) && STX !in header
    ensures Find(s, at + 1, STX) == at + 1 + |header|
    ensures s[at + 1..Find(s, at + 1, STX)] == header
  {
    var b := at + 2 + |header|;
    forall i | at + 1 <= i < b - 1 ensures s[i] != STX {
      assert s[i] == s[at + 1..b - 1][i - at - 1] == header[i - at - 1];
    }
  }

  lemma FindBody(s: string, b: nat, body: string)
    requires HasBody(s, b, body)
    ensures Find(s, b, ETX) <= b + |body| && (Find(s, b, ETX) == b + |body| <==> ETX !in body)
  {
    assert forall i | 0 <= i < |body| :: body[i] == s[b..b + |body|][i] == s[b + i];
    if ETX in body {
      var i :| 0 <= i < |body| && body[i] == ETX;
      assert s[b + i] == ETX;
    } else {
      assert forall i | b <= i < b + |body| :: s[i] == body[i - b];
    }
  }

  /** A frame is read back whole, and the reader stops right behind it, exactly when
      the data is free of the end mark. */
  lemma FrameExact<J>(pre: string, k: Kind, data: string, post: string, loads: string -> Option<J>)
    ensures var r := ReadMsg(pre + Frame(k, data) + post, |pre|, loads);
            && Taken(r.0)
            && (r.1 == |pre + Frame(k, data)| <==> ETX !in data)
            && (ETX !in data ==> r.0 == Deliver(KindText(k), Strip(data), loads))
  {
    var s, header := pre + Frame(k, data) + post, KindText(k);
    var b := |pre| + 2 + |header|;
    FrameInFile(pre, header, data, post);
    HeaderRead(s, |pre|, header, b, data, loads);
    BodyRead(s, |pre|, header, b, data, loads);
  }

  lemma HeaderRead<J>(s: string, at: nat, header: string, b: nat, body: string, loads: string -> Option<J>)
    requires HasFrame(s, at, header, body) && STX !in header && b == at + 2 + |header|
    ensures HasBody(s, b, body)
    ensures ReadMsg(s, at, loads) == ReadText(s, at, header, b, loads)
  {
    FindHeader(s, at, header, body);
    assert Find(s, at + 1, STX) + 1 == b;
  }

  lemma BodyRead<J>(s: string, at: nat, header: string, b: nat, body: string, loads: string -> Option<J>)
    requires at < b && HasBody(s, b, body)
    ensures var r := ReadText(s, at, header, b, loads);
            && Taken(r.0)
            && (r.1 == b + |body| + 1 <==> ETX !in body)
            && (ETX !in body ==> r.0 == Deliver(header, Strip(body), loads))
  {
    FindBody(s, b, body);
    TextAt(s, at, header, b, loads);
    BodySlice(s, b, body);
  }

  lemma BodySlice(s: string, b: nat, body: string)
    requires HasBody(s, b, body)
    ensures ETX !in body ==> Strip(s[b..Find(s, b, ETX)]) == Strip(body)
  {
    FindBody(s, b, body);
    if ETX !in body {
      assert s[b..Find(s, b, ETX)] == body;
    }
  }

  /** The text ends at the first end mark. */
  lemma TextAt<J>(s: string, at: nat, header: string, b: nat, loads: string -> Option<J>)
    requires at < b <= |s| && Find(s, b, ETX) < |s|
    ensures var r, e := ReadText(s, at, header, b, loads), Find(s, b, ETX);
            Taken(r.0) && r.1 == e + 1 && r.0 == Deliver(header, Strip(s[b..e]), loads)
  {
  }

  /** The reader that knows the length takes the frame exactly when the data has
      that length, or one more for a terminating zero; end marks in the data do not
      disturb it. */
  lemma SizedExact<J>(pre: string, k: Kind, data: string, post: string, n: nat, loads: string -> Option<J>)
    ensures var r := ReadSized(pre + Frame(k, data) + post, |pre|, n, loads);
            && (Taken(r.0) && r.1 == |pre + Frame(k, data)|
                <==> |data| == n || (|data| == n + 1 && data[n] == NUL))
            && (Taken(r.0) && r.1 == |pre + Frame(k, data)| ==> r.0 == Deliver(KindText(k), data[..n], loads))
  {
    FrameInFile(pre, KindText(k), data, post);
    SizedAt(pre + Frame(k, data) + post, |pre|, KindText(k), data, n, loads);
  }

  lemma SizedAt<J>(s: string, at: nat, header: string, body: string, n: nat, loads: string -> Option<J>)
    requires HasFrame(s, at, header, body) && STX !in header
    ensures var r, end := ReadSized(s, at, n, loads), at + 2 + |header| + |body| + 1;
            && (Taken(r.0) && r.1 == end <==> |body| == n || (|body| == n + 1 && body[n] == NUL))
            && (Taken(r.0) && r.1 == end ==> r.0 == Deliver(header, body[..n], loads))
  {
    FindHeader(s, at, header, body);
    assert ReadSized(s, at, n, loads) == ReadSizedText(s, at, header, at + 2 + |header|, n, loads);
    if n <= |body| {
      SizedPlaces(s, at, header, body, n);
    }
  }

  lemma SizedPlaces(s: string, at: nat, header: string, body: string, n: nat)
    requires HasFrame(s, at, header, body) && n <= |body|
    ensures var b := at + 2 + |header|;
            s[b..b + n] == body[..n] && (n < |body| ==> s[b + n] == body[n])
  {
    var b := at + 2 + |header|;
    assert s[b..b + n] == s[b..b + |body|][..n];
    assert n < |body| ==> s[b + n] == s[b..b + |body|][n];
  }

  // ---- many frames ---------------------------------------------------------

  /** Reading `n` times: the outcomes and the position at the end. */
  function ReadMany<J>(s: string, pos: nat, n: nat, loads: string -> Option<J>): (r: (seq<Outcome<J>>, nat))
    requires pos <= |s|
    ensures r.1 <= |s|
    decreases n
  {
    if n == 0 then ([], pos)
    else
      var first := ReadMsg(s, pos, loads);
      var rest := ReadMany(s, first.1, n - 1, loads);
      ([first.0] + rest.0, rest.1)
  }

  function Delivered<J>(es: seq<Event>, loads: string -> Option<J>): seq<Outcome<J>> {
    if es == [] then []
    else [Deliver(KindText(es[0].kind), Strip(es[0].data), loads)] + Delivered(es[1..], loads)
  }

  /** Reading as often as was written gives what was written, in order, and stops at
      the end of what was written. */
  lemma {:induction false} WrittenReadBack<J>(pre: string, es: seq<Event>, post: string, loads: string -> Option<J>)
    requires forall e | e in es :: ETX !in e.data
    ensures ReadMany(pre + Written(es) + post, |pre|, |es|, loads)
            == (Delivered(es, loads), |pre + Written(es)|)
    decreases |es|
  {
    if es == [] {
      assert pre + Written(es) == pre;
    } else {
      var f, rest := Frame(es[0].kind, es[0].data), Written(es[1..]);
      assert es[0] in es;
      FrameExact(pre, es[0].kind, es[0].data, rest + post, loads);
      Regroup(pre, f, rest, post);
      WrittenReadBack(pre + f, es[1..], post, loads);
    }
  }

  lemma Regroup(a: string, b: string, c: string, d: string)
    ensures a + (b + c) + d == a + b + (c + d) == (a + b) + c + d
    ensures a + (b + c) == (a + b) + c
  {
  }

  /** The next read of a file that holds nothing else says that it has ended. */
  lemma ThenEnds<J>(es: seq<Event>, loads: string -> Option<J>)
    requires forall e | e in es :: ETX !in e.data
    ensures var s := Written(es);
            ReadMany(s, 0, |es|, loads).1 == |s| && ReadMsg(s, |s|, loads) == (EndOfFile, |s|)
  {
    WrittenReadBack("", es, "", loads);
    assert "" + Written(es) + "" == Written(es);
  }

  // ---- agreement -----------------------------------------------------------

  predicate Bare(s: string) {
    s == "" || (s[0] != NUL && s[|s| - 1] != NUL)
  }

  lemma {:induction false} StripShort(s: string)
    ensures |Strip(s)| <= |s| && Bare(Strip(s))
    ensures Strip(s) == s <==> Bare(s)
    decreases |s|
  {
    if s != "" && s[0] == NUL {
      StripShort(s[1..]);
    } else if s != "" && s[|s| - 1] == NUL {
      StripShort(s[..|s| - 1]);
    }
  }

  lemma {:induction false} StripEnd(s: string)
    ensures Strip(s + [NUL]) == Strip(s)
    decreases |s|
  {
    var t := s + [NUL];
    if s == "" {
      assert t[1..] == "";
    } else if s[0] == NUL {
      assert t[1..] == s[1..] + [NUL];
      StripEnd(s[1..]);
    } else {
      assert t[..|t| - 1] == s;
    }
  }

  /** A message free of the end mark, sent with or without a terminating zero, is
      taken by both readers, and they say the same exactly when it has no zero at
      either end. */
  lemma ReadersAgree<J>(pre: string, k: Kind, text: string, terminated: bool, post: string, loads: string -> Option<J>)
    requires ETX !in text
    ensures var s := pre + Frame(k, if terminated then text + [NUL] else text) + post;
            var a, b := ReadMsg(s, |pre|, loads), ReadSized(s, |pre|, |text|, loads);
            Taken(a.0) && Taken(b.0) && a.0.header == b.0.header && a.1 == b.1 && (a == b <==> Bare(text))
  {
    var data := if terminated then text + [NUL] else text;
    FrameExact(pre, k, data, post, loads);
    SizedExact(pre, k, data, post, |text|, loads);
    SameText(text, terminated);
  }

  lemma SameText(text: string, terminated: bool)
    ensures var data := if terminated then text + [NUL] else text;
            data[..|text|] == text && Strip(data) == Strip(text) && (Strip(text) == text <==> Bare(text))
    ensures terminated ==> (text + [NUL])[|text|] == NUL
    ensures ETX !in text ==> ETX !in if terminated then text + [NUL] else text
  {
    StripEnd(text);
    StripShort(text);
  }
}
