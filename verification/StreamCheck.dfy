/** The check of a stream sampler's output file (python/stream_check.py): which
    files pass it. */
module StreamCheck {
  import opened Frames
  import opened Options

  /** What was published, what it decodes to, and JSON's null, which is also what
      stands for a text that does not decode. */
  datatype Input<J> = Input(text: string, nil: J)

  function Decoded<J>(input: Input<J>, loads: string -> Option<J>): J {
    match loads(input.text)
    case None => input.nil
    case Some(j) => j
  }

  /** The comparisons made on one message. */
  predicate Good<J(==)>(o: Outcome<J>, input: Input<J>, loads: string -> Option<J>) {
    && o.Msg?
    && (o.header == "json" ==> o.obj == Some(Decoded(input, loads)))
    && (o.header == "string" ==> o.text == input.text)
  }

  /** Reading and comparing `n` messages from `pos` on: where that ends, if nothing
      is raised on the way. */
  function ReadGood<J(==)>(s: string, pos: nat, n: nat, input: Input<J>, loads: string -> Option<J>): (r: Option<nat>)
    requires pos <= |s|
    ensures r.Some? ==> pos <= r.value <= |s|
    decreases n
  {
    if n == 0 then Some(pos)
    else
      SizedPositionMoves(s, pos, |input.text|, loads);
      var r := ReadSized(s, pos, |input.text|, loads);
      if Good(r.0, input, loads) then ReadGood(s, r.1, n - 1, input, loads) else None
  }

  /** The whole program: every message is good and nothing is left over. */
  predicate Passes<J(==)>(s: string, n: nat, input: Input<J>, loads: string -> Option<J>) {
    ReadGood(s, 0, n, input, loads) == Some(|s|)
  }

  // ---- the files that pass -------------------------------------------------

  /** A frame as the check knows it: a text, perhaps with a terminating zero. */
  datatype Piece = Piece(header: string, text: string, terminated: bool)

  function Body(p: Piece): string {
    if p.terminated then p.text + [NUL] else p.text
  }

  function PieceText(p: Piece): string {
    Wire(p.header, Body(p))
  }

  function Joined(ps: seq<Piece>): string {
    if ps == [] then "" else PieceText(ps[0]) + Joined(ps[1..])
  }

  /** A piece of the right length whose text is what was published, for a string, or
      decodes to the same, for JSON. */
  predicate GoodPiece<J(==)>(p: Piece, input: Input<J>, loads: string -> Option<J>) {
    && STX !in p.header
    && |p.text| == |input.text|
    && (p.header == "string" ==> p.text == input.text)
    && (p.header == "json" ==> loads(p.text) == Some(Decoded(input, loads)))
  }

  predicate AllGood<J(==)>(ps: seq<Piece>, input: Input<J>, loads: string -> Option<J>) {
    forall i | 0 <= i < |ps| :: GoodPiece(ps[i], input, loads)
  }

  /** A frame that was taken is a piece of the file. */
  lemma TakenIsPiece<J>(s: string, pos: nat, n: nat, loads: string -> Option<J>) returns (p: Piece)
    requires pos <= |s| && Taken(ReadSized(s, pos, n, loads).0)
    ensures var r := ReadSized(s, pos, n, loads);
            && pos <= r.1 && s[pos..r.1] == PieceText(p)
            && STX !in p.header && |p.text| == n && r.0 == Deliver(p.header, p.text, loads)
  {
    var h := Find(s, pos + 1, STX);
    var b := h + 1;
    var e := SkipNul(s, b + n);
    p := Piece(s[pos + 1..h], s[b..b + n], e > b + n);
    assert s[b..e] == Body(p);
    WireInFile(s, pos, h, e);
  }

  lemma WireInFile(s: string, pos: nat, h: nat, e: nat)
    requires pos < h < e < |s| && s[pos] == SOH && s[h] == STX && s[e] == ETX
    ensures s[pos..e + 1] == Wire(s[pos + 1..h], s[h + 1..e])
  {
  }

  lemma {:induction false} PassedIsJoined<J>(s: string, pos: nat, n: nat, input: Input<J>, loads: string -> Option<J>)
    returns (ps: seq<Piece>)
    requires pos <= |s| && ReadGood(s, pos, n, input, loads).Some?
    ensures |ps| == n && AllGood(ps, input, loads)
    ensures s[pos..ReadGood(s, pos, n, input, loads).value] == Joined(ps)
    decreases n
  {
    if n == 0 {
      ps := [];
    } else {
      var r := ReadSized(s, pos, |input.text|, loads);
      var p := TakenIsPiece(s, pos, |input.text|, loads);
      var rest := PassedIsJoined(s, r.1, n - 1, input, loads);
      ps := [p] + rest;
      var end := ReadGood(s, pos, n, input, loads).value;
      assert end == ReadGood(s, r.1, n - 1, input, loads).value;
      SliceJoin(s, pos, r.1, end);
      JoinedCons(p, rest);
    }
  }

  lemma SliceJoin(s: string, a: nat, b: nat, c: nat)
    requires a <= b <= c <= |s|
    ensures s[a..c] == s[a..b] + s[b..c]
  {
  }

  lemma JoinedCons(p: Piece, rest: seq<Piece>)
    ensures Joined([p] + rest) == PieceText(p) + Joined(rest)
  {
    assert ([p] + rest)[1..] == rest;
  }

  /** A good piece in the file is read as one good message. */
  lemma PieceIsRead<J>(pre: string, p: Piece, post: string, input: Input<J>, loads: string -> Option<J>)
    requires GoodPiece(p, input, loads)
    ensures var r := ReadSized(pre + PieceText(p) + post, |pre|, |input.text|, loads);
            Good(r.0, input, loads) && r.1 == |pre + PieceText(p)|
  {
    FrameInFile(pre, p.header, Body(p), post);
    SizedAt(pre + PieceText(p) + post, |pre|, p.header, Body(p), |input.text|, loads);
    assert Body(p)[..|p.text|] == p.text;
  }

  lemma {:induction false} JoinedPasses<J>(pre: string, ps: seq<Piece>, input: Input<J>, loads: string -> Option<J>)
    requires AllGood(ps, input, loads)
    ensures ReadGood(pre + Joined(ps), |pre|, |ps|, input, loads) == Some(|pre + Joined(ps)|)
    decreases |ps|
  {
    if ps == [] {
      assert pre + Joined(ps) == pre;
    } else {
      var t, rest := PieceText(ps[0]), Joined(ps[1..]);
      PieceIsRead(pre, ps[0], rest, input, loads);
      assert pre + (t + rest) == pre + t + rest;
      JoinedPasses(pre + t, ps[1..], input, loads);
    }
  }

  ghost predicate IsJoined<J>(s: string, n: nat, input: Input<J>, loads: string -> Option<J>) {
    exists ps: seq<Piece> :: |ps| == n && s == Joined(ps) && AllGood(ps, input, loads)
  }

  /** A file passes exactly when it is `n` good frames and nothing else. */
  lemma PassesExactly<J>(s: string, n: nat, input: Input<J>, loads: string -> Option<J>)
    ensures Passes(s, n, input, loads) <==> IsJoined(s, n, input, loads)
  {
    if Passes(s, n, input, loads) {
      var ps := PassedIsJoined(s, 0, n, input, loads);
      assert s[0..|s|] == s;
    }
    if IsJoined(s, n, input, loads) {
      var ps: seq<Piece> :| |ps| == n && s == Joined(ps) && AllGood(ps, input, loads);
      JoinedPasses("", ps, input, loads);
      assert "" + Joined(ps) == s;
    }
  }

  /** What the sampler writes for `n` messages of one text passes, when a JSON text
      decodes. */
  lemma WrittenPasses<J>(kinds: seq<Kind>, terminated: bool, input: Input<J>, loads: string -> Option<J>)
    requires JsonKind in kinds ==> loads(input.text).Some?
    ensures var data := if terminated then input.text + [NUL] else input.text;
            Passes(Written(seq(|kinds|, i requires 0 <= i < |kinds| => Event(kinds[i], data))), |kinds|, input, loads)
  {
    var data := if terminated then input.text + [NUL] else input.text;
    var es := seq(|kinds|, i requires 0 <= i < |kinds| => Event(kinds[i], data));
    var ps := seq(|kinds|, i requires 0 <= i < |kinds| => Piece(KindText(kinds[i]), input.text, terminated));
    WrittenIsJoined(es, ps);
    JoinedPasses("", ps, input, loads);
    assert "" + Joined(ps) == Written(es);
  }

  lemma {:induction false} WrittenIsJoined(es: seq<Event>, ps: seq<Piece>)
    requires |es| == |ps|
    requires forall i | 0 <= i < |es| :: KindText(es[i].kind) == ps[i].header && es[i].data == Body(ps[i])
    ensures Written(es) == Joined(ps)
    decreases |es|
  {
    if es != [] {
      WrittenIsJoined(es[1..], ps[1..]);
    }
  }
}
