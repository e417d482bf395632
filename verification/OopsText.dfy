/**
 The text of a kernel oops (kernel/panic.c) and its host-side parser
 (scripts/parse_oops.py), with the proof that the parser recovers what was printed
 from any serial log the oops stands in.

 The parser's regular expressions never need to give characters back: each repeated
 class is followed by a character outside it.  They are therefore scanners that take
 as much as they can.  Character classes are those of the ASCII range.
 */
module OopsText {
  import opened Numerals
  import opened Formats

  // ---------------------------------------------------------------------------
  // Lines
  // ---------------------------------------------------------------------------

  // The characters str.splitlines breaks at.
  predicate IsBreak(c: char) {
    var n := c as int;
    0x0A <= n <= 0x0D || 0x1C <= n <= 0x1E || n == 0x85 || 0x2028 <= n <= 0x2029
  }

  predicate OneLine(s: string) { forall i :: 0 <= i < |s| ==> !IsBreak(s[i]) }

  // The position of the first break, or the length.
  function LineLength(s: string): (n: nat)
    ensures n <= |s| && OneLine(s[..n]) && (n < |s| ==> IsBreak(s[n]))
  {
    if s == "" || IsBreak(s[0]) then 0 else 1 + LineLength(s[1..])
  }

  // A carriage return and the newline after it are one break.
  function BreakLength(s: string): (n: nat)
    requires s != ""
    ensures 1 <= n <= |s|
  {
    if |s| >= 2 && s[0] == '\r' && s[1] == '\n' then 2 else 1
  }

  function SplitLines(s: string): seq<string>
    decreases |s|
  {
    if s == "" then []
    else
      var n := LineLength(s);
      if n == |s| then [s] else [s[..n]] + SplitLines(s[n + BreakLength(s[n..])..])
  }

  function Unlines(ls: seq<string>): string { if ls == [] then "" else ls[0] + "\n" + Unlines(ls[1..]) }

  lemma {:induction false} LineLengthOf(line: string, rest: string)
    requires OneLine(line) && rest != "" && IsBreak(rest[0])
    ensures LineLength(line + rest) == |line|
  {
    if line == "" {
      assert line + rest == rest;
    } else {
      assert (line + rest)[1..] == line[1..] + rest;
      LineLengthOf(line[1..], rest);
    }
  }

  lemma SplitFirstLine(line: string, rest: string)
    requires OneLine(line)
    ensures SplitLines(line + "\n" + rest) == [line] + SplitLines(rest)
  {
    var s := line + "\n" + rest;
    assert s == line + ("\n" + rest);
    LineLengthOf(line, "\n" + rest);
    assert s[..|line|] == line && s[|line|..] == "\n" + rest && s[|line| + 1..] == rest;
  }

  lemma {:induction false} SplitUnlines(ls: seq<string>, rest: string)
    requires forall i :: 0 <= i < |ls| ==> OneLine(ls[i])
    ensures SplitLines(Unlines(ls) + rest) == ls + SplitLines(rest)
  {
    hide SplitLines, IsBreak;
    if ls == [] {
      assert Unlines(ls) + rest == rest;
      assert ls + SplitLines(rest) == SplitLines(rest);
    } else {
      var later := Unlines(ls[1..]) + rest;
      assert Unlines(ls) + rest == ls[0] + "\n" + later;
      SplitFirstLine(ls[0], later);
      SplitUnlines(ls[1..], rest);
      assert [ls[0]] + (ls[1..] + SplitLines(rest)) == ls + SplitLines(rest);
    }
  }

  lemma SplitStep(s: string, n: nat)
    requires n < |s| && LineLength(s) == n
    ensures SplitLines(s) == [s[..n]] + SplitLines(s[n + BreakLength(s[n..])..])
  {
  }

  lemma SplitEmpty()
    ensures SplitLines("") == []
  {
  }

  // A newline separates: what comes before it and after it split independently.
  lemma {:induction false} SplitAtNewline(pre: string, rest: string)
    ensures SplitLines(pre + "\n" + rest) == SplitLines(pre + "\n") + SplitLines(rest)
    decreases |pre|
  {
    hide SplitLines, IsBreak, LineLength;
    SplitEmpty();
    var n := LineLength(pre);
    if n == |pre| {
      assert pre[..n] == pre;
      SplitFirstLine(pre, rest);
      SplitFirstLine(pre, "");
      assert pre + "\n" + "" == pre + "\n";
    } else {
      SplitAfterBreak(pre, rest, n);
    }
  }

  lemma {:induction false} SplitAfterBreak(pre: string, rest: string, n: nat)
    requires n == LineLength(pre) < |pre|
    ensures SplitLines(pre + "\n" + rest) == SplitLines(pre + "\n") + SplitLines(rest)
    decreases |pre|, 0
  {
    hide SplitLines, IsBreak, LineLength;
    SplitEmpty();
    var a, b := pre + "\n", pre + "\n" + rest;
    var line, tail := pre[..n], pre[n..];
    assert a == line + (tail + "\n") && b == line + (tail + "\n" + rest);
    LineLengthOf(line, tail + "\n");
    LineLengthOf(line, tail + "\n" + rest);
    assert a[..n] == line == b[..n];
    assert a[n..] == tail + "\n" && b[n..] == tail + "\n" + rest;
    var k := BreakLength(a[n..]);
    assert BreakLength(b[n..]) == k;
    SplitStep(a, n);
    SplitStep(b, n);
    if k > |tail| {
      assert tail == "\r" && k == 2;
      assert a[n + k..] == "" && b[n + k..] == rest;
    } else {
      assert a[n + k..] == pre[n + k..] + "\n" && b[n + k..] == pre[n + k..] + "\n" + rest;
      SplitAtNewline(pre[n + k..], rest);
      assert [line] + (SplitLines(a[n + k..]) + SplitLines(rest)) == [line] + SplitLines(a[n + k..]) + SplitLines(rest);
    }
  }

  // ---------------------------------------------------------------------------
  // Scanners
  // ---------------------------------------------------------------------------

  predicate IsSpaceChar(c: char) { c == ' ' || c == '\t' || c as int == 0x1F || c as int == 0xA0 || IsBreak(c) }

  predicate NotSpace(c: char) { !IsSpaceChar(c) }

  predicate NotQuote(c: char) { c != '"' }

  predicate IsHex(c: char) { '0' <= c <= '9' || 'a' <= c <= 'f' || 'A' <= c <= 'F' }

  predicate IsWord(c: char) { '0' <= c <= '9' || 'a' <= c <= 'z' || 'A' <= c <= 'Z' || c == '_' }

  predicate IsBlank(c: char) { c == ' ' }

  lemma {:induction false} LeadingOf(t: string, rest: string, p: char -> bool)
    requires (forall i :: 0 <= i < |t| ==> p(t[i])) && (rest == "" || !p(rest[0]))
    ensures Leading(t + rest, p) == |t|
  {
    if t == "" {
      assert t + rest == rest;
    } else {
      assert (t + rest)[1..] == t[1..] + rest;
      LeadingOf(t[1..], rest, p);
    }
  }

  // A scan succeeds with what it captured and the rest of the line.
  datatype Scan = Fail | Got(text: string, rest: string)

  function Expect(s: string, lit: string): Scan { if lit <= s then Got(lit, s[|lit|..]) else Fail }

  // One or more characters of a class.
  function Many1(s: string, p: char -> bool): Scan {
    var n := Leading(s, p);
    if n == 0 then Fail else Got(s[..n], s[n..])
  }

  // -?\d+
  function Signed(s: string): Scan {
    var n := if s != "" && s[0] == '-' then 1 else 0;
    match Many1(s[n..], IsDecimal)
    case Fail => Fail
    case Got(d, rest) => Got(s[..n] + d, rest)
  }

  // 0x[0-9a-fA-F]+
  function HexNumber(s: string): Scan {
    match Expect(s, "0x")
    case Fail => Fail
    case Got(_, r) =>
      match Many1(r, IsHex)
      case Fail => Fail
      case Got(d, rest) => Got("0x" + d, rest)
  }

  // int() of a captured -?\d+
  function IntValue(t: string): int {
    if t != "" && t[0] == '-' then 0 - Value(t[1..], 10) else Value(t, 10)
  }

  lemma ExpectOf(lit: string, rest: string)
    ensures Expect(lit + rest, lit) == Got(lit, rest)
  {
    assert (lit + rest)[|lit|..] == rest;
  }

  lemma Many1Of(t: string, rest: string, p: char -> bool)
    requires t != "" && (forall i :: 0 <= i < |t| ==> p(t[i])) && (rest == "" || !p(rest[0]))
    ensures Many1(t + rest, p) == Got(t, rest)
  {
    LeadingOf(t, rest, p);
    assert (t + rest)[..|t|] == t && (t + rest)[|t|..] == rest;
  }

  lemma NumberOf(v: nat, width: int, rest: string)
    requires rest == "" || !IsDecimal(rest[0])
    ensures Many1(Padded(v, 10, width) + rest, IsDecimal) == Got(Padded(v, 10, width), rest)
    ensures Value(Padded(v, 10, width), 10) == v
  {
    PaddedReadsBack(v, 10, width);
    var t := Padded(v, 10, width);
    assert forall i :: 0 <= i < |t| ==> IsDecimal(t[i]);
    Many1Of(t, rest, IsDecimal);
  }

  // s_dec
  function DecText(v: int): string { if v < 0 then "-" + Digits(-v, 10) else Digits(v, 10) }

  // A sign and digits are matched whole.
  lemma SignedText(d: string, rest: string)
    requires d != "" && (forall i :: 0 <= i < |d| ==> IsDecimal(d[i])) && (rest == "" || !IsDecimal(rest[0]))
    ensures Signed(d + rest) == Got(d, rest) && Signed("-" + d + rest) == Got("-" + d, rest)
  {
    hide Signed, Many1;
    Many1Of(d, rest, IsDecimal);
    UnsignedText(d, rest);
    NegativeText(d, rest);
  }

  lemma NegativeText(d: string, rest: string)
    requires Many1(d + rest, IsDecimal) == Got(d, rest)
    ensures Signed("-" + d + rest) == Got("-" + d, rest)
  {
    hide Many1;
    var t := "-" + d + rest;
    assert t[0] == '-' && t[1..] == d + rest && t[..1] == "-";
  }

  lemma UnsignedText(d: string, rest: string)
    requires d != "" && d[0] != '-' && Many1(d + rest, IsDecimal) == Got(d, rest)
    ensures Signed(d + rest) == Got(d, rest)
  {
    hide Many1;
    var s := d + rest;
    assert s[0] == d[0] && s[0..] == s && s[..0] + d == d;
  }

  lemma SignedOf(v: int, rest: string)
    requires rest == "" || !IsDecimal(rest[0])
    ensures Signed(DecText(v) + rest) == Got(DecText(v), rest) && IntValue(DecText(v)) == v
  {
    hide Digits, Value, Signed;
    var n := if v < 0 then -v else v;
    var d := Digits(n, 10);
    DigitsReadBack(n, 10);
    assert forall i :: 0 <= i < |d| ==> IsDigit(d[i], 10);
    SignedText(d, rest);
    assert ("-" + d)[1..] == d && d[0] != '-';
  }

  lemma HexOf(v: nat, rest: string)
    requires rest == "" || !IsHex(rest[0])
    ensures HexNumber(PtrField(v) + rest) == Got(PtrField(v), rest)
  {
    var t := Padded(v, 16, 16);
    PaddedReadsBack(v, 16, 16);
    assert forall i :: 0 <= i < |t| ==> IsHex(t[i]);
    assert PtrField(v) + rest == "0x" + (t + rest);
    ExpectOf("0x", t + rest);
    Many1Of(t, rest, IsHex);
  }
}
