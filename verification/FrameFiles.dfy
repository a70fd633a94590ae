/** The programs around the frames: the callback that appends to the output file
    (C/test_stream_sampler.c), and the readers, which move a position one character
    at a time (LDMS_Test.py, python/stream_check.py). */
module FrameFiles {
  import opened Frames
  import opened Options
  import opened StreamCheck

  class OutFile {
    var text: string

    constructor ()
      ensures text == ""
    {
      text := "";
    }

    method Write(s: string)
      modifies this
      ensures text == old(text) + s
    {
      text := text + s;
    }
  }

  /** `test_stream_recv_cb`: events other than a receipt are passed over. */
  method RecvCb(out: OutFile, received: bool, e: Event)
    modifies out
    ensures out.text == if received then old(out.text) + Frame(e.kind, e.data) else old(out.text)
  {
    if !received {
      return;
    }
    out.Write([SOH]);
    match e.kind {
      case StringKind => out.Write("string");
      case JsonKind => out.Write("json");
      case OtherKind => out.Write("unknown");
    }
    out.Write([STX]);
    out.Write(e.data);
    out.Write([ETX]);
  }

  class TextFile {
    const text: string
    var pos: nat

    ghost predicate Valid()
      reads this
    {
      pos <= |text|
    }

    constructor (text: string)
      ensures Valid() && this.text == text && pos == 0
    {
      this.text, pos := text, 0;
    }

    /** `read(1)`: empty at the end. */
    method Read1() returns (c: string)
      requires Valid()
      modifies this
      ensures Valid()
      ensures if old(pos) < |text| then c == [text[old(pos)]] && pos == old(pos) + 1 else c == "" && pos == old(pos)
    {
      if pos == |text| {
        return "";
      }
      c := [text[pos]];
      pos := pos + 1;
    }

    /** `read(n)`: as much as there is. */
    method Read(n: nat) returns (s: string)
      requires Valid()
      modifies this
      ensures Valid()
      ensures pos == if old(pos) + n <= |text| then old(pos) + n else |text|
      ensures s == text[old(pos)..pos]
    {
      var to := if pos + n <= |text| then pos + n else |text|;
      s := text[pos..to];
      pos := to;
    }

    method Seek(p: nat)
      requires p <= |text|
      modifies this
      ensures Valid() && pos == p
    {
      pos := p;
    }

    /** Both loops of `read_msg`: characters are collected until the mark, which is
        read too; false when the file ends first. */
    method ReadUntil(mark: char) returns (s: string, found: bool)
      requires Valid()
      modifies this
      ensures Valid()
      ensures var f := Find(text, old(pos), mark);
              && s == text[old(pos)..f] && (found <==> f < |text|)
              && pos == if found then f + 1 else |text|
    {
      ghost var start := pos;
      s := "";
      var c := Read1();
      while c != "" && c != [mark]
        invariant Valid() && start <= pos
        invariant c == "" ==> pos == |text| && s == text[start..]
        invariant c != "" ==> pos > start && c == [text[pos - 1]] && s == text[start..pos - 1]
        invariant forall i | start <= i < start + |s| :: text[i] != mark
        decreases |text| - pos, |c|
      {
        s := s + c;
        c := Read1();
      }
      found := c == [mark];
      FoundIs(text, start, mark, start + |s|);
    }
  }

  lemma FoundIs(s: string, from: nat, c: char, r: nat)
    requires from <= r <= |s| && (forall i | from <= i < r :: s[i] != c) && (r < |s| ==> s[r] == c)
    ensures Find(s, from, c) == r
  {
  }

  /** `text.strip('\x00')` */
  method StripNul(s: string) returns (r: string)
    ensures r == Strip(s)
  {
    r := s;
    while r != "" && r[0] == NUL
      invariant Strip(r) == Strip(s)
      decreases |r|
    {
      r := r[1..];
    }
    while r != "" && r[|r| - 1] == NUL
      invariant Strip(r) == Strip(s)
      invariant r != "" ==> r[0] != NUL
      decreases |r|
    {
      r := r[..|r| - 1];
    }
  }

  /** `read_msg` of LDMS_Test.py */
  method ReadMessage<J>(f: TextFile, loads: string -> Option<J>) returns (r: Outcome<J>)
    requires f.Valid()
    modifies f
    ensures f.Valid()
    ensures (r, f.pos) == ReadMsg(f.text, old(f.pos), loads)
  {
    var pos := f.pos;
    var c := f.Read1();
    if c == "" {
      return EndOfFile;
    }
    if c != [SOH] {
      f.Seek(pos);
      return NotStart;
    }
    var header, found := f.ReadUntil(STX);
    if !found {
      f.Seek(pos);
      return BadHeader;
    }
    var text;
    text, found := f.ReadUntil(ETX);
    if !found {
      f.Seek(pos);
      return Incomplete;
    }
    text := StripNul(text);
    r := Deliver(header, text, loads);
  }

  /** `read_msg` of python/stream_check.py */
  method ReadMessageSized<J>(f: TextFile, n: nat, loads: string -> Option<J>) returns (r: Outcome<J>)
    requires f.Valid()
    modifies f
    ensures f.Valid()
    ensures (r, f.pos) == ReadSized(f.text, old(f.pos), n, loads)
  {
    var pos := f.pos;
    var c := f.Read1();
    if c == "" {
      return EndOfFile;
    }
    if c != [SOH] {
      f.Seek(pos);
      return NotStart;
    }
    var header, found := f.ReadUntil(STX);
    if !found {
      f.Seek(pos);
      return BadHeader;
    }
    var text := f.Read(n);
    if |text| != n {
      return Short;
    }
    c := f.Read1();
    if c == [NUL] {
      c := f.Read1();
    }
    if c != [ETX] {
      f.Seek(pos);
      return Incomplete;
    }
    r := Deliver(header, text, loads);
  }

  /** The comparisons of the loop: false when one raises. */
  method Compare<J(==)>(m: Outcome<J>, input: Input<J>, loads: string -> Option<J>) returns (ok: bool)
    ensures ok <==> Good(m, input, loads)
  {
    if !m.Msg? {
      return false;
    }
    if m.header == "json" && m.obj != Some(Decoded(input, loads)) {
      return false;
    }
    if m.header == "string" && m.text != input.text {
      return false;
    }
    ok := true;
  }

  /** The program of python/stream_check.py: false when it raises. */
  method CheckFile<J(==)>(text: string, n: nat, input: Input<J>, loads: string -> Option<J>) returns (ok: bool)
    ensures ok <==> Passes(text, n, input, loads)
  {
    var f := new TextFile(text);
    for i := 0 to n
      invariant f.Valid() && f.text == text
      invariant ReadGood(text, 0, n, input, loads) == ReadGood(text, f.pos, n - i, input, loads)
    {
      var m := ReadMessageSized(f, |input.text|, loads);
      var good := Compare(m, input, loads);
      if !good {
        return false;
      }
    }
    ok := f.pos == |text|;
  }
}
