/** The text form of a range list: `HexRanges.__str__` and the regular
    expression that reads it back (runtime/singularity.py). */
module HexText {
  import opened Options
  import opened Ranges

  // ---- numbers ------------------------------------------------------------

  predicate IsHex(c: char) {
    '0' <= c <= '9' || 'A' <= c <= 'F' || 'a' <= c <= 'f'
  }

  function DigitValue(c: char): (d: nat)
    requires IsHex(c)
    ensures d < 16
  {
    if c <= '9' then c as int - '0' as int
    else if c <= 'F' then c as int - 'A' as int + 10
    else c as int - 'a' as int + 10
  }

  function DigitChar(d: nat): (c: char)
    requires d < 16
    ensures IsHex(c) && DigitValue(c) == d
  {
    if d < 10 then (d + '0' as int) as char else (d - 10 + 'A' as int) as char
  }

  predicate AllHex(s: string) {
    forall i | 0 <= i < |s| :: IsHex(s[i])
  }

  /** `"{:X}".format(n)` */
  function Hex(n: nat): (s: string)
    ensures s != "" && AllHex(s)
  {
    if n < 16 then [DigitChar(n)] else Hex(n / 16) + [DigitChar(n % 16)]
  }

  function HexInt(n: int): string {
    if n < 0 then "-" + Hex(-n) else Hex(n)
  }

  /** `int(s, base=16)` on a run of digits. */
  function Value(s: string): nat
    requires AllHex(s)
  {
    if s == "" then 0 else 16 * Value(s[..|s| - 1]) + DigitValue(s[|s| - 1])
  }

  lemma {:induction false} HexRoundTrip(n: nat)
    ensures Value(Hex(n)) == n
  {
    if n < 16 {
      assert Hex(n)[..0] == "";
    } else {
      HexRoundTrip(n / 16);
      assert Hex(n)[..|Hex(n)| - 1] == Hex(n / 16);
    }
  }

  /** The digits as `{:X}` and `int(s, 16)` have them. */
  lemma DigitsAre()
    ensures forall c :: IsHex(c) <==> c in "0123456789ABCDEFabcdef"
    ensures forall d | 0 <= d < 16 :: DigitChar(d) == "0123456789ABCDEF"[d]
    ensures forall d | 10 <= d < 16 :: DigitValue("0123456789abcdef"[d]) == d
  {
  }

  function Power(k: nat): nat {
    if k == 0 then 1 else 16 * Power(k - 1)
  }

  function DigitSum(s: string, i: nat): nat
    requires AllHex(s) && i <= |s|
  {
    if i == 0 then 0 else DigitSum(s, i - 1) + DigitValue(s[i - 1]) * Power(|s| - i)
  }

  lemma {:induction false} DigitSumShift(s: string, i: nat)
    requires s != "" && AllHex(s) && i < |s|
    ensures DigitSum(s, i) == 16 * DigitSum(s[..|s| - 1], i)
  {
    if i > 0 {
      DigitSumShift(s, i - 1);
      var d, p := DigitValue(s[i - 1]), Power(|s| - 1 - i);
      assert Power(|s| - i) == 16 * p;
      Times16(d, p);
    }
  }

  lemma Times16(d: nat, p: nat)
    ensures d * (16 * p) == 16 * (d * p)
  {
  }

  /** The value of a text is the sum of its digits, each times the power of sixteen
      that its place says. */
  lemma {:induction false} ValueIsDigitSum(s: string)
    requires AllHex(s)
    ensures Value(s) == DigitSum(s, |s|)
    decreases |s|
  {
    if s != "" {
      ValueIsDigitSum(s[..|s| - 1]);
      DigitSumShift(s, |s| - 1);
      assert Power(0) == 1;
    }
  }

  /** No leading zero is printed. */
  lemma {:induction false} HexLeads(n: nat)
    ensures n > 0 ==> Hex(n)[0] != '0'
    ensures Hex(0) == "0"
  {
    if n >= 16 {
      HexLeads(n / 16);
    }
  }

  // ---- printing -----------------------------------------------------------

  function PrintOne(r: Range): string {
    if r.lo == r.hi then HexInt(r.lo) else HexInt(r.lo) + "-" + HexInt(r.hi)
  }

  function Print(s: seq<Range>): string {
    if s == [] then ""
    else if |s| == 1 then PrintOne(s[0])
    else PrintOne(s[0]) + "," + Print(s[1..])
  }

  lemma {:induction false} PrintSnoc(s: seq<Range>, r: Range)
    requires s != []
    ensures Print(s + [r]) == Print(s) + "," + PrintOne(r)
  {
    assert (s + [r])[1..] == s[1..] + [r];
    if |s| == 1 {
      assert s[1..] + [r] == [r];
    } else {
      PrintSnoc(s[1..], r);
      assert Print(s + [r]) == PrintOne(s[0]) + "," + (Print(s[1..]) + "," + PrintOne(r));
    }
  }

  lemma PrintNext(s: seq<Range>, i: nat)
    requires i < |s|
    ensures Print(s[..i + 1]) == if i == 0 then PrintOne(s[i]) else Print(s[..i]) + "," + PrintOne(s[i])
  {
    assert s[..i + 1] == s[..i] + [s[i]];
    if i > 0 { PrintSnoc(s[..i], s[i]); }
  }

  // ---- reading ------------------------------------------------------------

  /** The longest run of digits at the front, and what follows it. */
  function Digits(s: string): (r: (string, string))
    ensures AllHex(r.0) && |r.1| == |s| - |r.0|
  {
    if s == "" || !IsHex(s[0]) then ("", s)
    else
      var (d, rest) := Digits(s[1..]);
      ([s[0]] + d, rest)
  }

  /** `$` without MULTILINE: at the end, or before a final newline. */
  predicate AtEnd(s: string) {
    s == "" || s == "\n"
  }

  /** The tail of the expression, `(?:,|$)`: the text after it. */
  function Terminator(s: string): (r: Option<string>)
    ensures r.Some? ==> |r.value| <= |s|
  {
    if s != "" && s[0] == ',' then Some(s[1..]) else if AtEnd(s) then Some(s) else None
  }

  /** What may follow the first number `a`: `(?:-([0-9A-F]+))?(?:,|$)`. */
  function MatchTail(a: nat, t: string): (m: Option<(Range, string)>)
    ensures m.Some? ==> |m.value.1| <= |t|
  {
    if t != "" && t[0] == '-' && Digits(t[1..]).0 != "" then
      var (b, u) := Digits(t[1..]);
      match Terminator(u)
      case Some(rest) => Some((Range(a, Value(b)), rest))
      case None => None
    else
      match Terminator(t)
      case Some(rest) => Some((Range(a, a), rest))
      case None => None
  }

  /** One match of the expression at the front of `s`, and the text after it.
      Digit runs are taken whole: a shorter one would be followed by a digit,
      which no continuation accepts. */
  function MatchHead(s: string): (m: Option<(Range, string)>)
    ensures m.Some? ==> |m.value.1| < |s|
  {
    var (a, t) := Digits(s);
    if a == "" then None else MatchTail(Value(a), t)
  }

  /** `RE.findall(s)`: a position without a match is skipped. */
  function FindAll(s: string): seq<Range>
    decreases |s|
  {
    if s == "" then []
    else
      match MatchHead(s)
      case Some((r, rest)) => [r] + FindAll(rest)
      case None => FindAll(s[1..])
  }

  /** `HexRanges(s)`: every match is inserted in order, then pruned. */
  function Parse(s: string): seq<Range> {
    Prune(FindAll(s))
  }

  lemma {:induction false} DigitsExact(a: string, b: string)
    requires AllHex(a) && (b == "" || !IsHex(b[0]))
    ensures Digits(a + b) == (a, b)
  {
    if a == "" {
      assert a + b == b;
    } else {
      assert (a + b)[1..] == a[1..] + b;
      DigitsExact(a[1..], b);
      assert [a[0]] + a[1..] == a;
    }
  }

  // ---- the expression, by places -------------------------------------------

  /** A run of digits from `i` up to `j` that no digit follows. */
  predicate RunTo(s: string, i: nat, j: nat) {
    i <= j <= |s| && AllHex(s[i..j]) && (j < |s| ==> !IsHex(s[j]))
  }

  /** A comma, the end, or a final newline. */
  predicate EndsAt(s: string, j: nat) {
    j == |s| || (j < |s| && s[j] == ',') || (j + 1 == |s| && s[j] == '\n')
  }

  /** What is left of the text: a comma is used up. */
  function LeftFrom(s: string, j: nat): string
    requires j <= |s|
  {
    if j < |s| && s[j] == ',' then s[j + 1..] else s[j..]
  }

  lemma DigitsFrom(s: string, i: nat, j: nat)
    requires RunTo(s, i, j)
    ensures Digits(s[i..]) == (s[i..j], s[j..])
  {
    DigitsExact(s[i..j], s[j..]);
    assert s[i..] == s[i..j] + s[j..];
  }

  lemma TerminatorExactly(s: string, j: nat)
    requires j <= |s|
    ensures Terminator(s[j..]) == if EndsAt(s, j) then Some(LeftFrom(s, j)) else None
  {
    if j < |s| {
      assert s[j..][1..] == s[j + 1..];
    }
  }

  /** One number, where no second one follows. */
  lemma MatchOneExactly(s: string, i: nat)
    requires 0 < i && RunTo(s, 0, i)
    requires i < |s| && s[i] == '-' ==> i + 1 == |s| || !IsHex(s[i + 1])
    ensures MatchHead(s) ==
            if EndsAt(s, i) then Some((Range(Value(s[..i]), Value(s[..i])), LeftFrom(s, i))) else None
  {
    DigitsFrom(s, 0, i);
    assert s[0..] == s && s[0..i] == s[..i];
    TerminatorExactly(s, i);
    if i < |s| && s[i] == '-' {
      assert s[i..][1..] == s[i + 1..];
      DigitsFrom(s, i + 1, i + 1);
    }
  }

  /** Two numbers. */
  lemma MatchTwoExactly(s: string, i: nat, j: nat)
    requires 0 < i < |s| && RunTo(s, 0, i) && s[i] == '-' && i + 1 < j && RunTo(s, i + 1, j)
    ensures MatchHead(s) ==
            if EndsAt(s, j) then Some((Range(Value(s[..i]), Value(s[i + 1..j])), LeftFrom(s, j))) else None
  {
    DigitsFrom(s, 0, i);
    DigitsFrom(s, i + 1, j);
    assert s[0..] == s && s[0..i] == s[..i] && s[i..][1..] == s[i + 1..];
    TerminatorExactly(s, j);
  }

  /** Nothing matches where no digit is. */
  lemma MatchNoneExactly(s: string)
    requires s == "" || !IsHex(s[0])
    ensures MatchHead(s) == None
  {
  }

  /** The text after a printed range: the end, or a comma and more ranges. */
  function After(text: string, last: bool): string {
    if last then "" else "," + text
  }

  lemma MatchSecond(a: nat, b: string, text: string, last: bool)
    requires b != "" && AllHex(b) && (last ==> text == "")
    ensures MatchTail(a, "-" + (b + After(text, last))) == Some((Range(a, Value(b)), text))
  {
    DigitsExact(b, After(text, last));
    assert ("-" + (b + After(text, last)))[1..] == b + After(text, last);
  }

  lemma MatchFirst(a: string, t: string)
    requires a != "" && AllHex(a) && (t == "" || !IsHex(t[0]))
    ensures MatchHead(a + t) == MatchTail(Value(a), t)
  {
    DigitsExact(a, t);
  }

  lemma MatchOne(r: Range, text: string, last: bool)
    requires 0 <= r.lo && 0 <= r.hi && (last ==> text == "")
    ensures MatchHead(PrintOne(r) + After(text, last)) == Some((r, text))
  {
    HexRoundTrip(r.lo);
    HexRoundTrip(r.hi);
    if r.lo == r.hi {
      MatchFirst(Hex(r.lo), After(text, last));
    } else {
      var t := "-" + (Hex(r.hi) + After(text, last));
      MatchFirst(Hex(r.lo), t);
      MatchSecond(r.lo, Hex(r.hi), text, last);
      Reassociate(Hex(r.lo), "-", Hex(r.hi), After(text, last));
    }
  }

  lemma Reassociate(a: string, b: string, c: string, d: string)
    ensures a + b + c + d == a + (b + (c + d))
  {
  }

  lemma {:induction false} FindAllPrint(s: seq<Range>)
    requires forall i | 0 <= i < |s| :: 0 <= s[i].lo && 0 <= s[i].hi
    ensures FindAll(Print(s)) == s
  {
    if s != [] {
      var text := Print(s[1..]);
      MatchOne(s[0], text, |s| == 1);
      assert Print(s) == PrintOne(s[0]) + After(text, |s| == 1);
      FindAllPrint(s[1..]);
    }
  }

  /** Reading the printed form of a sorted, disjoint list gives it back. */
  lemma ParsePrint(s: seq<Range>)
    requires Normal(s) && (s == [] || 0 <= s[0].lo)
    ensures Parse(Print(s)) == s
  {
    forall i | 0 <= i < |s| ensures 0 <= s[i].lo && 0 <= s[i].hi {
      assert i > 0 ==> s[0].hi < s[i].lo;
    }
    FindAllPrint(s);
    NormalIsSorted(s);
  }

  lemma TwoDigits(a: char, b: char)
    requires IsHex(a) && IsHex(b)
    ensures Value([a]) == DigitValue(a) && Value([a, b]) == 16 * DigitValue(a) + DigitValue(b)
  {
    assert [a][..0] == [] && [a, b][..1] == [a];
  }

  /** A range and a single address, in full: printed, ... */
  lemma PrintedText()
    ensures Print([Range(0x1A, 0x2F), Range(0xAB, 0xAB)]) == "1A-2F,AB"
  {
    assert Hex(0x1A) == "1A" && Hex(0x2F) == "2F" && Hex(0xAB) == "AB";
    assert [Range(0x1A, 0x2F), Range(0xAB, 0xAB)][1..] == [Range(0xAB, 0xAB)];
  }

  lemma ReadFirst()
    ensures MatchHead("1a-2F,AB") == Some((Range(0x1A, 0x2F), "AB"))
  {
    TwoDigits('1', 'a');
    TwoDigits('2', 'F');
    MatchSecond(0x1A, "2F", "AB", false);
    assert "-" + ("2F" + After("AB", false)) == "-2F,AB";
    MatchFirst("1a", "-2F,AB");
    assert "1a" + "-2F,AB" == "1a-2F,AB";
  }

  lemma ReadSecond()
    ensures MatchHead("AB") == Some((Range(0xAB, 0xAB), ""))
  {
    TwoDigits('A', 'B');
    MatchFirst("AB", "");
    assert "AB" + "" == "AB";
  }

  /** ... and read, in either case. */
  lemma ReadText()
    ensures Parse("1a-2F,AB") == [Range(0x1A, 0x2F), Range(0xAB, 0xAB)]
  {
    ReadFirst();
    ReadSecond();
    FoundTwo("1a-2F,AB", "AB", Range(0x1A, 0x2F), Range(0xAB, 0xAB));
    NormalIsSorted([Range(0x1A, 0x2F), Range(0xAB, 0xAB)]);
  }

  lemma FoundTwo(s: string, text: string, a: Range, b: Range)
    requires s != "" && text != "" && MatchHead(s) == Some((a, text)) && MatchHead(text) == Some((b, ""))
    ensures FindAll(s) == [a, b]
  {
    assert FindAll("") == [];
  }
}
