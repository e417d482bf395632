/**
 scripts/parse_oops.py over the text of kernel/panic.c: the line patterns, the line
 state machine, and the round trip.
 */
module OopsParse {
  import opened Numerals
  import opened Options
  import opened Formats
  import opened KlogMicro
  import opened OopsText

  // ---------------------------------------------------------------------------
  // What a panic reports
  // ---------------------------------------------------------------------------

  datatype Regs = Regs(rax: nat, rbx: nat, rcx: nat, rdx: nat, rsi: nat, rdi: nat, rbp: nat, r8: nat,
                       r9: nat, r10: nat, r11: nat, r12: nat, r13: nat, r14: nat, r15: nat, intNo: nat, err: nat)

  datatype Report = Report(
    build: string, cpu: int, pid: int, reason: string, cr2: nat, cr3: nat, rip: nat, rsp: nat, rflags: nat,
    regs: Option<Regs>, trace: seq<nat>, tail: seq<Slot>)

  const OOPS_MAGIC := 0xDEAD0005

  const LEVEL_NAMES := ["TRACE", "DEBUG", "INFO", "WARN", "ERROR", "FATAL"]

  function LevelName(level: nat): string { if level % 16 <= 5 then LEVEL_NAMES[level % 16] else "?????" }

  // The message up to its terminator, with everything unprintable turned into a space.
  function Sanitised(m: seq<char>): string {
    if m == [] || m[0] == '\0' then ""
    else [if (' ' <= m[0] < 127 as char) || m[0] == '\t' then m[0] else ' '] + Sanitised(m[1..])
  }

  function TailLine(e: Slot, names: nat -> string): string {
    "[seq=" + Padded(e.sequence, 10, 0) + " " + Padded(e.ns / 1_000_000_000, 10, 4) + "." + Padded(e.ns % 1_000_000_000, 10, 9)
    + "] " + LevelName(e.level) + " " + names(e.subsys) + " " + Sanitised(e.message)
  }

  function HeaderLine(r: Report): string {
    "==OOPS== phase=13 build=" + r.build + " cpu=" + DecText(r.cpu) + " pid=" + DecText(r.pid) + " reason=\"" + r.reason + "\""
  }

  function MagicLine(): string { "oops.magic=" + PtrField(OOPS_MAGIC) }

  function CrLine(r: Report): string { "oops.cr2=" + PtrField(r.cr2) + " oops.cr3=" + PtrField(r.cr3) }

  function RipLine(r: Report): string {
    "oops.rip=" + PtrField(r.rip) + " oops.rsp=" + PtrField(r.rsp) + " oops.rflags=" + PtrField(r.rflags)
  }

  function RegLines(g: Regs): seq<string> {
    ["regs.rax=" + PtrField(g.rax) + " rbx=" + PtrField(g.rbx) + " rcx=" + PtrField(g.rcx) + " rdx=" + PtrField(g.rdx),
     "regs.rsi=" + PtrField(g.rsi) + " rdi=" + PtrField(g.rdi) + " rbp=" + PtrField(g.rbp) + " r8=" + PtrField(g.r8),
     "regs.r9=" + PtrField(g.r9) + " r10=" + PtrField(g.r10) + " r11=" + PtrField(g.r11) + " r12=" + PtrField(g.r12),
     "regs.r13=" + PtrField(g.r13) + " r14=" + PtrField(g.r14) + " r15=" + PtrField(g.r15),
     "int_no=" + PtrField(g.intNo) + " err=" + PtrField(g.err)]
  }

  function FrameLine(i: nat, rip: nat): string { "frame " + DecText(i) + ": rip=" + PtrField(rip) }

  function FrameLines(trace: seq<nat>): seq<string> {
    if trace == [] then [] else FrameLines(trace[..|trace| - 1]) + [FrameLine(|trace| - 1, trace[|trace| - 1])]
  }

  function TailLines(tail: seq<Slot>, names: nat -> string): seq<string> {
    if tail == [] then [] else TailLines(tail[..|tail| - 1], names) + [TailLine(tail[|tail| - 1], names)]
  }

  // The lines of an oops; the text starts with a newline so that the header opens a line.
  function ReportLines(r: Report, names: nat -> string): seq<string> {
    [HeaderLine(r), MagicLine(), CrLine(r), RipLine(r)]
    + (if r.regs.None? then [] else RegLines(r.regs.value))
    + FrameLines(r.trace)
    + ["==KLOG BEGIN=="] + TailLines(r.tail, names) + ["==KLOG END==", "==OOPS END=="]
  }

  function ReportText(r: Report, names: nat -> string): string { "\n" + Unlines(ReportLines(r, names)) }

  // ---------------------------------------------------------------------------
  // Line patterns
  // ---------------------------------------------------------------------------

  datatype Header = Header(phase: int, build: string, cpu: int, pid: int, reason: string)

  function MatchHeader(line: string): Option<Header> {
    match Expect(line, "==OOPS== phase=") case Fail => None case Got(_, s0) =>
    match Many1(s0, IsDecimal) case Fail => None case Got(phase, s1) =>
    match Expect(s1, " build=") case Fail => None case Got(_, s2) =>
    match Many1(s2, NotSpace) case Fail => None case Got(build, s3) =>
    match Expect(s3, " cpu=") case Fail => None case Got(_, s4) =>
    match Signed(s4) case Fail => None case Got(cpu, s5) =>
    match Expect(s5, " pid=") case Fail => None case Got(_, s6) =>
    match Signed(s6) case Fail => None case Got(pid, s7) =>
    match Expect(s7, " reason=\"") case Fail => None case Got(_, s8) =>
      var n := Leading(s8, NotQuote);
      if n == |s8| then None else Some(Header(IntValue(phase), build, IntValue(cpu), IntValue(pid), s8[..n]))
  }

  function MatchMagic(line: string): Option<string> {
    match Expect(line, "oops.magic=") case Fail => None case Got(_, s) =>
    match HexNumber(s) case Fail => None case Got(h, _) => Some(h)
  }

  function MatchCr(line: string): Option<(string, string)> {
    match Expect(line, "oops.cr2=") case Fail => None case Got(_, s0) =>
    match HexNumber(s0) case Fail => None case Got(cr2, s1) =>
    match Expect(s1, " oops.cr3=") case Fail => None case Got(_, s2) =>
    match HexNumber(s2) case Fail => None case Got(cr3, _) => Some((cr2, cr3))
  }

  function MatchRip(line: string): Option<(string, string, string)> {
    match Expect(line, "oops.rip=") case Fail => None case Got(_, s0) =>
    match HexNumber(s0) case Fail => None case Got(rip, s1) =>
    match Expect(s1, " oops.rsp=") case Fail => None case Got(_, s2) =>
    match HexNumber(s2) case Fail => None case Got(rsp, s3) =>
    match Expect(s3, " oops.rflags=") case Fail => None case Got(_, s4) =>
    match HexNumber(s4) case Fail => None case Got(rflags, _) => Some((rip, rsp, rflags))
  }

  datatype Frame = Frame(index: int, rip: string)

  function MatchFrame(line: string): Option<Frame> {
    match Expect(line, "frame ") case Fail => None case Got(_, s0) =>
    match Many1(s0, IsDecimal) case Fail => None case Got(idx, s1) =>
    match Expect(s1, ": rip=") case Fail => None case Got(_, s2) =>
    match HexNumber(s2) case Fail => None case Got(rip, _) => Some(Frame(IntValue(idx), rip))
  }

  datatype TailEntry = TailEntry(sequence: int, ns: int, level: string, subsys: string, message: string)

  function MatchTail(line: string): Option<TailEntry> {
    match Expect(line, "[seq=") case Fail => None case Got(_, s0) =>
    match Many1(s0, IsDecimal) case Fail => None case Got(sq, s1) =>
    match Many1(s1, IsBlank) case Fail => None case Got(_, s2) =>
    match Many1(s2, IsDecimal) case Fail => None case Got(secs, s3) =>
    match Expect(s3, ".") case Fail => None case Got(_, s4) =>
    match Many1(s4, IsDecimal) case Fail => None case Got(nsec, s5) =>
    match Expect(s5, "] ") case Fail => None case Got(_, s6) =>
    match Many1(s6, IsWord) case Fail => None case Got(level, s7) =>
    match Expect(s7, " ") case Fail => None case Got(_, s8) =>
    match Many1(s8, NotSpace) case Fail => None case Got(subsys, s9) =>
    match Expect(s9, " ") case Fail => None case Got(_, msg) =>
      Some(TailEntry(IntValue(sq), IntValue(secs) * 1_000_000_000 + IntValue(nsec), level, subsys, msg))
  }

  // ---------------------------------------------------------------------------
  // The state machine
  // ---------------------------------------------------------------------------

  datatype Mode = Wait | InOops | InKlog | Done

  datatype Parsed = Parsed(
    header: Option<Header>, magic: Option<string>, cr: Option<(string, string)>, rip: Option<(string, string, string)>,
    frames: seq<Frame>, tail: seq<TailEntry>, complete: bool)

  const NOTHING := Parsed(None, None, None, None, [], [], false)

  datatype Parser = Parser(mode: Mode, out: Parsed)

  function OopsLine(out: Parsed, line: string): Parser {
    if "==OOPS END==" <= line then Parser(Done, out.(complete := true))
    else if "==KLOG BEGIN==" <= line then Parser(InKlog, out)
    else if MatchMagic(line).Some? then Parser(InOops, out.(magic := MatchMagic(line)))
    else if MatchCr(line).Some? then Parser(InOops, out.(cr := MatchCr(line)))
    else if MatchRip(line).Some? then Parser(InOops, out.(rip := MatchRip(line)))
    else if MatchFrame(line).Some? then Parser(InOops, out.(frames := out.frames + [MatchFrame(line).value]))
    else Parser(InOops, out)
  }

  function KlogLine(out: Parsed, line: string): Parser {
    if "==KLOG END==" <= line then Parser(InOops, out)
    else if MatchTail(line).Some? then Parser(InKlog, out.(tail := out.tail + [MatchTail(line).value]))
    else Parser(InKlog, out)
  }

  function Feed(p: Parser, line: string): Parser {
    match p.mode
    case Wait => if MatchHeader(line).Some? then Parser(InOops, p.out.(header := MatchHeader(line))) else p
    case InOops => OopsLine(p.out, line)
    case InKlog => KlogLine(p.out, line)
    case Done => p
  }

  function FeedAll(p: Parser, lines: seq<string>): Parser
    decreases |lines|
  {
    if lines == [] then p else FeedAll(Feed(p, lines[0]), lines[1..])
  }

  // raw.rstrip("\r")
  function StripCr(s: string): string { if s != "" && s[|s| - 1] == '\r' then StripCr(s[..|s| - 1]) else s }

  lemma {:induction false} SplitLinesAreLines(s: string)
    ensures forall i :: 0 <= i < |SplitLines(s)| ==> OneLine(SplitLines(s)[i])
    decreases |s|
  {
    if s != "" {
      var n := LineLength(s);
      if n < |s| {
        SplitLinesAreLines(s[n + BreakLength(s[n..])..]);
      } else {
        assert s[..n] == s;
      }
    }
  }

  // The parser's result: nothing unless a header was found.
  function Result(p: Parser): Option<Parsed> { if p.out.header.Some? then Some(p.out) else None }

  function Parse(text: string): Option<Parsed> { Result(FeedAll(Parser(Wait, NOTHING), SplitLines(text))) }

  method ParseOops(text: string) returns (result: Option<Parsed>)
    ensures result == Parse(text)
  {
    hide Feed, SplitLines;
    var lines := SplitLines(text);
    SplitLinesAreLines(text);
    var p := Parser(Wait, NOTHING);
    var i := 0;
    while i < |lines| && p.mode != Done
      invariant 0 <= i <= |lines|
      invariant FeedAll(p, lines[i..]) == FeedAll(Parser(Wait, NOTHING), lines)
    {
      var line := StripCr(lines[i]);
      assert line == lines[i];
      p := Feed(p, line);
      i := i + 1;
    }
    if p.mode == Done { DoneStays(p, lines[i..]); }
    result := if p.out.header.Some? then Some(p.out) else None;
  }

  lemma {:induction false} DoneStays(p: Parser, lines: seq<string>)
    requires p.mode == Done
    ensures FeedAll(p, lines) == p
    decreases |lines|
  {
    if lines != [] { DoneStays(p, lines[1..]); }
  }

  lemma {:induction false} FeedAllConcat(p: Parser, a: seq<string>, b: seq<string>)
    ensures FeedAll(p, a + b) == FeedAll(FeedAll(p, a), b)
    decreases |a|
  {
    hide Feed;
    if a == [] {
      assert a + b == b;
    } else {
      assert (a + b)[1..] == a[1..] + b;
      FeedAllConcat(Feed(p, a[0]), a[1..], b);
    }
  }

  // ---------------------------------------------------------------------------
  // Each printed line reads back
  // ---------------------------------------------------------------------------

  predicate Token(s: string) { s != "" && forall i :: 0 <= i < |s| ==> NotSpace(s[i]) }

  // Build names are tokens; the reason has no quote and stays on its line.
  predicate GoodReport(r: Report) { Token(r.build) && OneLine(r.reason) && '"' !in r.reason }

  lemma HeaderSplit(build: string, cpu: string, pid: string, reason: string)
    ensures
      "==OOPS== phase=13 build=" + build + " cpu=" + cpu + " pid=" + pid + " reason=\"" + reason + "\"" ==
      "==OOPS== phase=" + ("13" + (" build=" + (build + (" cpu=" + (cpu + (" pid=" + (pid + (" reason=\"" + (reason + "\"")))))))))
  {
    var tail := " reason=\"" + (reason + "\"");
    assert " reason=\"" + reason + "\"" == tail;
    var rest := " cpu=" + (cpu + (" pid=" + (pid + tail)));
    assert " cpu=" + cpu + " pid=" + pid + " reason=\"" + reason + "\"" == rest;
    assert "==OOPS== phase=13 build=" == "==OOPS== phase=" + "13" + " build=";
  }

  lemma HeaderReadsBack(r: Report)
    requires GoodReport(r)
    ensures MatchHeader(HeaderLine(r)) == Some(Header(13, r.build, r.cpu, r.pid, r.reason))
  {
    hide Expect, Many1, Signed, DecText, Value;
    HeaderSplit(r.build, DecText(r.cpu), DecText(r.pid), r.reason);
    var s8 := r.reason + "\"";
    var s7 := " reason=\"" + s8;
    var s6 := DecText(r.pid) + s7;
    var s5 := " pid=" + s6;
    var s4 := DecText(r.cpu) + s5;
    var s3 := " cpu=" + s4;
    var s2 := r.build + s3;
    var s1 := " build=" + s2;
    var s0 := "13" + s1;
    assert HeaderLine(r) == "==OOPS== phase=" + s0;
    ExpectOf("==OOPS== phase=", s0);
    Many1Of("13", s1, IsDecimal);
    ExpectOf(" build=", s2);
    Many1Of(r.build, s3, NotSpace);
    ExpectOf(" cpu=", s4);
    SignedOf(r.cpu, s5);
    ExpectOf(" pid=", s6);
    SignedOf(r.pid, s7);
    ExpectOf(" reason=\"", s8);
    LeadingOf(r.reason, "\"", NotQuote);
    assert s8[..|r.reason|] == r.reason;
    assert IntValue("13") == 13 by { ThirteenReads(); }
  }

  lemma ThirteenReads()
    ensures IntValue("13") == 13
  {
    assert "13"[..1] == "1" && "1"[..0] == "";
    assert Value("1", 10) == 1;
  }

  lemma MagicReadsBack()
    ensures MatchMagic(MagicLine()) == Some(PtrField(OOPS_MAGIC))
  {
    hide Expect, HexNumber, PtrField;
    assert PtrField(OOPS_MAGIC) == PtrField(OOPS_MAGIC) + "";
    ExpectOf("oops.magic=", PtrField(OOPS_MAGIC));
    HexOf(OOPS_MAGIC, "");
  }

  lemma CrReadsBack(r: Report)
    ensures MatchCr(CrLine(r)) == Some((PtrField(r.cr2), PtrField(r.cr3)))
  {
    hide Expect, HexNumber, PtrField;
    var s1 := " oops.cr3=" + PtrField(r.cr3);
    assert CrLine(r) == "oops.cr2=" + (PtrField(r.cr2) + s1);
    ExpectOf("oops.cr2=", PtrField(r.cr2) + s1);
    HexOf(r.cr2, s1);
    ExpectOf(" oops.cr3=", PtrField(r.cr3));
    assert PtrField(r.cr3) == PtrField(r.cr3) + "";
    HexOf(r.cr3, "");
  }

  lemma RipReadsBack(r: Report)
    ensures MatchRip(RipLine(r)) == Some((PtrField(r.rip), PtrField(r.rsp), PtrField(r.rflags)))
  {
    hide Expect, HexNumber, PtrField;
    var s3 := " oops.rflags=" + PtrField(r.rflags);
    var s2 := PtrField(r.rsp) + s3;
    var s1 := " oops.rsp=" + s2;
    assert RipLine(r) == "oops.rip=" + (PtrField(r.rip) + s1);
    ExpectOf("oops.rip=", PtrField(r.rip) + s1);
    HexOf(r.rip, s1);
    ExpectOf(" oops.rsp=", s2);
    HexOf(r.rsp, s3);
    ExpectOf(" oops.rflags=", PtrField(r.rflags));
    assert PtrField(r.rflags) == PtrField(r.rflags) + "";
    HexOf(r.rflags, "");
  }

  lemma FrameReadsBack(i: nat, rip: nat)
    ensures MatchFrame(FrameLine(i, rip)) == Some(Frame(i, PtrField(rip)))
  {
    hide Expect, HexNumber, PtrField, Many1, Digits, Value;
    var s1 := ": rip=" + PtrField(rip);
    assert FrameLine(i, rip) == "frame " + (Digits(i, 10) + s1);
    ExpectOf("frame ", Digits(i, 10) + s1);
    NumberOf(i, 0, s1);
    assert Padded(i, 10, 0) == Digits(i, 10) by { assert Repeat('0', 0 - |Digits(i, 10)|) == ""; }
    assert IsDigit(Digits(i, 10)[0], 10);
    ExpectOf(": rip=", PtrField(rip));
    assert PtrField(rip) == PtrField(rip) + "";
    HexOf(rip, "");
  }

  function EntryOf(e: Slot, names: nat -> string): TailEntry {
    TailEntry(e.sequence, e.ns, LevelName(e.level), names(e.subsys), Sanitised(e.message))
  }

  lemma IntOfPadded(v: nat, width: int)
    ensures IntValue(Padded(v, 10, width)) == v
  {
    PaddedReadsBack(v, 10, width);
    var t := Padded(v, 10, width);
    assert t != "" && IsDigit(t[0], 10);
  }

  // A log line is recovered exactly when its level has a name; the parser passes over the others.
  lemma TailReadsBack(e: Slot, names: nat -> string)
    requires Token(names(e.subsys))
    ensures MatchTail(TailLine(e, names)) == if e.level % 16 <= 5 then Some(EntryOf(e, names)) else None
  {
    hide Expect, Many1, Padded, Sanitised, IntValue, LevelName, Token;
    var secs, nsec := e.ns / 1_000_000_000, e.ns % 1_000_000_000;
    var s9 := " " + Sanitised(e.message);
    var s8 := names(e.subsys) + s9;
    var s7 := " " + s8;
    var s6 := LevelName(e.level) + s7;
    var s5 := "] " + s6;
    var s4 := Padded(nsec, 10, 9) + s5;
    var s3 := "." + s4;
    var s2 := Padded(secs, 10, 4) + s3;
    var s1 := " " + s2;
    var s0 := Padded(e.sequence, 10, 0) + s1;
    assert TailLine(e, names) == "[seq=" + s0;
    ExpectOf("[seq=", s0);
    NumberOf(e.sequence, 0, s1);
    PaddedStarts(secs, 4);
    Many1Of(" ", s2, IsBlank);
    NumberOf(secs, 4, s3);
    ExpectOf(".", s4);
    NumberOf(nsec, 9, s5);
    ExpectOf("] ", s6);
    LevelScans(e.level, s7);
    ExpectOf(" ", s8);
    TokenScans(names(e.subsys), s9);
    ExpectOf(" ", Sanitised(e.message));
    IntOfPadded(e.sequence, 0);
    IntOfPadded(secs, 4);
    IntOfPadded(nsec, 9);
  }

  lemma PaddedStarts(v: nat, width: int)
    ensures Padded(v, 10, width) != "" && Padded(v, 10, width)[0] != ' '
  {
    PaddedReadsBack(v, 10, width);
    var t := Padded(v, 10, width);
    assert t != "" && IsDigit(t[0], 10);
  }

  lemma LevelScans(level: nat, rest: string)
    requires rest != "" && rest[0] == ' '
    ensures Many1(LevelName(level) + rest, IsWord) == if level % 16 <= 5 then Got(LevelName(level), rest) else Fail
  {
    var t := LevelName(level);
    if level % 16 <= 5 {
      assert t != "" && forall i :: 0 <= i < |t| ==> IsWord(t[i]) by {
        var k := level % 16;
        assert t == LEVEL_NAMES[k];
        assert k == 0 || k == 1 || k == 2 || k == 3 || k == 4 || k == 5;
      }
      Many1Of(t, rest, IsWord);
    } else {
      assert (t + rest)[0] == '?';
    }
  }

  lemma TokenScans(t: string, rest: string)
    requires Token(t) && rest != "" && rest[0] == ' '
    ensures Many1(t + rest, NotSpace) == Got(t, rest)
  {
    Many1Of(t, rest, NotSpace);
  }

  // ---------------------------------------------------------------------------
  // Every printed line is one line
  // ---------------------------------------------------------------------------

  lemma OneLineConcat(a: string, b: string)
    requires OneLine(a) && OneLine(b)
    ensures OneLine(a + b)
  {
  }

  lemma OneLine3(a: string, b: string, c: string)
    requires OneLine(a) && OneLine(b) && OneLine(c)
    ensures OneLine(a + b + c)
  {
  }

  lemma NumeralsAreOneLine(v: nat, base: nat, width: int)
    requires IsBase(base)
    ensures OneLine(Padded(v, base, width)) && OneLine(Digits(v, base))
  {
    PaddedReadsBack(v, base, width);
  }

  lemma PtrIsOneLine(v: nat)
    ensures OneLine(PtrField(v))
  {
    NumeralsAreOneLine(v, 16, 16);
    hide Padded;
    OneLineConcat("0x", Padded(v, 16, 16));
  }

  lemma {:induction false} SanitisedIsOneLine(m: seq<char>)
    ensures OneLine(Sanitised(m))
  {
    if m != [] && m[0] != '\0' { SanitisedIsOneLine(m[1..]); }
  }

  lemma TokenIsOneLine(s: string)
    requires Token(s)
    ensures OneLine(s)
  {
    assert forall i :: 0 <= i < |s| ==> NotSpace(s[i]);
  }

  lemma TailLineIsOneLine(e: Slot, names: nat -> string)
    requires Token(names(e.subsys))
    ensures OneLine(TailLine(e, names))
  {
    var secs, nsec := e.ns / 1_000_000_000, e.ns % 1_000_000_000;
    NumeralsAreOneLine(e.sequence, 10, 0);
    NumeralsAreOneLine(secs, 10, 4);
    NumeralsAreOneLine(nsec, 10, 9);
    assert OneLine(LevelName(e.level));
    SanitisedIsOneLine(e.message);
    TokenIsOneLine(names(e.subsys));
    LiteralsAreOneLine();
    hide Padded, Sanitised, LevelName, Token, OneLine;
    var a := "[seq=" + Padded(e.sequence, 10, 0) + " ";
    OneLine3("[seq=", Padded(e.sequence, 10, 0), " ");
    var b := a + Padded(secs, 10, 4) + ".";
    OneLine3(a, Padded(secs, 10, 4), ".");
    var c := b + Padded(nsec, 10, 9) + "] ";
    OneLine3(b, Padded(nsec, 10, 9), "] ");
    var d := c + LevelName(e.level) + " ";
    OneLine3(c, LevelName(e.level), " ");
    OneLine3(d, names(e.subsys), " ");
    OneLineConcat(d + names(e.subsys) + " ", Sanitised(e.message));
  }

  lemma LiteralsAreOneLine()
    ensures OneLine("[seq=") && OneLine(" ") && OneLine(".") && OneLine("] ")
    ensures OneLine("==OOPS== phase=13 build=") && OneLine(" cpu=") && OneLine(" pid=") && OneLine(" reason=\"") && OneLine("\"")
    ensures OneLine("oops.magic=") && OneLine("oops.cr2=") && OneLine(" oops.cr3=")
    ensures OneLine("oops.rip=") && OneLine(" oops.rsp=") && OneLine(" oops.rflags=")
  {
  }

  lemma FixedLinesAreOneLine(r: Report)
    requires GoodReport(r)
    ensures OneLine(HeaderLine(r)) && OneLine(MagicLine()) && OneLine(CrLine(r)) && OneLine(RipLine(r))
  {
    hide PtrField, DecText, Token, OneLine;
    LiteralsAreOneLine();
    forall v: nat ensures OneLine(PtrField(v)) { PtrIsOneLine(v); }
    TokenIsOneLine(r.build);
    DecIsOneLine(r.cpu);
    DecIsOneLine(r.pid);
    var a := "==OOPS== phase=13 build=" + r.build + " cpu=";
    OneLine3("==OOPS== phase=13 build=", r.build, " cpu=");
    var b := a + DecText(r.cpu) + " pid=";
    OneLine3(a, DecText(r.cpu), " pid=");
    var c := b + DecText(r.pid) + " reason=\"";
    OneLine3(b, DecText(r.pid), " reason=\"");
    OneLine3(c, r.reason, "\"");
    OneLineConcat("oops.magic=", PtrField(OOPS_MAGIC));
    OneLine3("oops.cr2=", PtrField(r.cr2), " oops.cr3=");
    OneLineConcat("oops.cr2=" + PtrField(r.cr2) + " oops.cr3=", PtrField(r.cr3));
    OneLine3("oops.rip=", PtrField(r.rip), " oops.rsp=");
    OneLine3("oops.rip=" + PtrField(r.rip) + " oops.rsp=", PtrField(r.rsp), " oops.rflags=");
    OneLineConcat("oops.rip=" + PtrField(r.rip) + " oops.rsp=" + PtrField(r.rsp) + " oops.rflags=", PtrField(r.rflags));
  }

  lemma DecIsOneLine(v: int)
    ensures OneLine(DecText(v))
  {
    NumeralsAreOneLine(if v < 0 then -v else v, 10, 0);
  }

  // "a=<hex> b=<hex> ..." for up to four registers
  lemma RegLineIsOneLine(n0: string, v0: nat, n1: string, v1: nat, n2: string, v2: nat, n3: string, v3: nat)
    requires OneLine(n0) && OneLine(n1) && OneLine(n2) && OneLine(n3)
    ensures OneLine(n0 + PtrField(v0) + n1 + PtrField(v1))
    ensures OneLine(n0 + PtrField(v0) + n1 + PtrField(v1) + n2 + PtrField(v2))
    ensures OneLine(n0 + PtrField(v0) + n1 + PtrField(v1) + n2 + PtrField(v2) + n3 + PtrField(v3))
  {
    hide PtrField, OneLine;
    forall v: nat ensures OneLine(PtrField(v)) { PtrIsOneLine(v); }
    var a := n0 + PtrField(v0);
    OneLineConcat(n0, PtrField(v0));
    var b := a + n1 + PtrField(v1);
    OneLine3(a, n1, PtrField(v1));
    var c := b + n2 + PtrField(v2);
    OneLine3(b, n2, PtrField(v2));
    OneLine3(c, n3, PtrField(v3));
  }

  lemma RegNamesAreOneLine()
    ensures OneLine("regs.rax=") && OneLine(" rbx=") && OneLine(" rcx=") && OneLine(" rdx=")
    ensures OneLine("regs.rsi=") && OneLine(" rdi=") && OneLine(" rbp=") && OneLine(" r8=")
    ensures OneLine("regs.r9=") && OneLine(" r10=") && OneLine(" r11=") && OneLine(" r12=")
    ensures OneLine("regs.r13=") && OneLine(" r14=") && OneLine(" r15=") && OneLine("int_no=") && OneLine(" err=")
  {
  }

  lemma RegLinesAreOneLine(g: Regs)
    ensures forall i :: 0 <= i < |RegLines(g)| ==> OneLine(RegLines(g)[i])
  {
    hide PtrField, OneLine;
    RegNamesAreOneLine();
    RegLineIsOneLine("regs.rax=", g.rax, " rbx=", g.rbx, " rcx=", g.rcx, " rdx=", g.rdx);
    RegLineIsOneLine("regs.rsi=", g.rsi, " rdi=", g.rdi, " rbp=", g.rbp, " r8=", g.r8);
    RegLineIsOneLine("regs.r9=", g.r9, " r10=", g.r10, " r11=", g.r11, " r12=", g.r12);
    RegLineIsOneLine("regs.r13=", g.r13, " r14=", g.r14, " r15=", g.r15, " r14=", 0);
    RegLineIsOneLine("int_no=", g.intNo, " err=", g.err, " err=", 0, " err=", 0);
  }

  lemma {:induction false} FrameLinesAreOneLine(trace: seq<nat>)
    ensures forall i :: 0 <= i < |FrameLines(trace)| ==> OneLine(FrameLines(trace)[i])
  {
    if trace != [] {
      var n := |trace| - 1;
      FrameLinesAreOneLine(trace[..n]);
      PtrIsOneLine(trace[n]);
      DecIsOneLine(n);
      hide PtrField, DecText;
      assert OneLine(FrameLine(n, trace[n]));
    }
  }

  lemma {:induction false} TailLinesAreOneLine(tail: seq<Slot>, names: nat -> string)
    requires forall i :: 0 <= i < |tail| ==> Token(names(tail[i].subsys))
    ensures forall i :: 0 <= i < |TailLines(tail, names)| ==> OneLine(TailLines(tail, names)[i])
  {
    hide Token, TailLine, OneLine;
    if tail != [] {
      var n := |tail| - 1;
      TailLinesAreOneLine(tail[..n], names);
      TailLineIsOneLine(tail[n], names);
    }
  }

  // ---------------------------------------------------------------------------
  // The round trip
  // ---------------------------------------------------------------------------

  function Frames(trace: seq<nat>): seq<Frame> {
    if trace == [] then [] else Frames(trace[..|trace| - 1]) + [Frame(|trace| - 1, PtrField(trace[|trace| - 1]))]
  }

  // The entries whose level has a name.
  function Entries(tail: seq<Slot>, names: nat -> string): seq<TailEntry> {
    if tail == [] then []
    else
      var e := tail[|tail| - 1];
      Entries(tail[..|tail| - 1], names) + if e.level % 16 <= 5 then [EntryOf(e, names)] else []
  }

  function Expected(r: Report, names: nat -> string): Parsed {
    Parsed(Some(Header(13, r.build, r.cpu, r.pid, r.reason)), Some(PtrField(OOPS_MAGIC)),
           Some((PtrField(r.cr2), PtrField(r.cr3))), Some((PtrField(r.rip), PtrField(r.rsp), PtrField(r.rflags))),
           Frames(r.trace), Entries(r.tail, names), true)
  }

  lemma FeedOne(p: Parser, line: string)
    ensures FeedAll(p, [line]) == Feed(p, line)
  {
    hide Feed;
    assert [line][1..] == [];
    assert FeedAll(Feed(p, line), []) == Feed(p, line);
  }

  // A line is no marker and matches no pattern whose text differs from it somewhere.
  lemma Mismatch(line: string, lit: string, i: nat)
    requires i < |lit| && (i >= |line| || line[i] != lit[i])
    ensures !(lit <= line) && Expect(line, lit) == Fail
  {
  }

  lemma FixedLinesFeed(out: Parsed, r: Report)
    ensures Feed(Parser(InOops, out), MagicLine()) == Parser(InOops, out.(magic := Some(PtrField(OOPS_MAGIC))))
    ensures Feed(Parser(InOops, out), CrLine(r)) == Parser(InOops, out.(cr := Some((PtrField(r.cr2), PtrField(r.cr3)))))
    ensures Feed(Parser(InOops, out), RipLine(r)) ==
            Parser(InOops, out.(rip := Some((PtrField(r.rip), PtrField(r.rsp), PtrField(r.rflags)))))
  {
    hide PtrField, HexNumber, Expect;
    MagicReadsBack();
    CrReadsBack(r);
    RipReadsBack(r);
    Mismatch(MagicLine(), "==OOPS END==", 0);
    Mismatch(MagicLine(), "==KLOG BEGIN==", 0);
    Mismatch(CrLine(r), "==OOPS END==", 0);
    Mismatch(CrLine(r), "==KLOG BEGIN==", 0);
    Mismatch(CrLine(r), "oops.magic=", 5);
    Mismatch(RipLine(r), "==OOPS END==", 0);
    Mismatch(RipLine(r), "==KLOG BEGIN==", 0);
    Mismatch(RipLine(r), "oops.magic=", 5);
    Mismatch(RipLine(r), "oops.cr2=", 5);
  }

  lemma OtherLineFeed(out: Parsed, line: string)
    requires line != "" && line[0] != '=' && line[0] != 'o' && line[0] != 'f'
    ensures Feed(Parser(InOops, out), line) == Parser(InOops, out)
  {
    hide HexNumber, Many1, Expect;
    Mismatch(line, "==OOPS END==", 0);
    Mismatch(line, "==KLOG BEGIN==", 0);
    Mismatch(line, "oops.magic=", 0);
    Mismatch(line, "oops.cr2=", 0);
    Mismatch(line, "oops.rip=", 0);
    Mismatch(line, "frame ", 0);
  }

  lemma {:induction false} OtherLinesFeed(out: Parsed, lines: seq<string>)
    requires forall i :: 0 <= i < |lines| ==> lines[i] != "" && lines[i][0] != '=' && lines[i][0] != 'o' && lines[i][0] != 'f'
    ensures FeedAll(Parser(InOops, out), lines) == Parser(InOops, out)
    decreases |lines|
  {
    hide Feed;
    if lines != [] {
      OtherLineFeed(out, lines[0]);
      OtherLinesFeed(out, lines[1..]);
    }
  }

  lemma FrameFeed(out: Parsed, i: nat, rip: nat)
    ensures Feed(Parser(InOops, out), FrameLine(i, rip)) == Parser(InOops, out.(frames := out.frames + [Frame(i, PtrField(rip))]))
  {
    hide PtrField, HexNumber, Expect, Many1, DecText;
    FrameReadsBack(i, rip);
    Mismatch(FrameLine(i, rip), "==OOPS END==", 0);
    Mismatch(FrameLine(i, rip), "==KLOG BEGIN==", 0);
    Mismatch(FrameLine(i, rip), "oops.magic=", 0);
    Mismatch(FrameLine(i, rip), "oops.cr2=", 0);
    Mismatch(FrameLine(i, rip), "oops.rip=", 0);
  }

  lemma {:induction false} FramesFeed(out: Parsed, trace: seq<nat>)
    ensures FeedAll(Parser(InOops, out), FrameLines(trace)) == Parser(InOops, out.(frames := out.frames + Frames(trace)))
    decreases |trace|
  {
    hide Feed, FrameLine, PtrField;
    if trace == [] {
      assert out.frames + [] == out.frames;
    } else {
      var n := |trace| - 1;
      FramesFeed(out, trace[..n]);
      FeedAllConcat(Parser(InOops, out), FrameLines(trace[..n]), [FrameLine(n, trace[n])]);
      var mid := out.(frames := out.frames + Frames(trace[..n]));
      FeedOne(Parser(InOops, mid), FrameLine(n, trace[n]));
      FrameFeed(mid, n, trace[n]);
      assert out.frames + Frames(trace[..n]) + [Frame(n, PtrField(trace[n]))] == out.frames + Frames(trace);
    }
  }

  lemma TailFeed(out: Parsed, e: Slot, names: nat -> string)
    requires Token(names(e.subsys))
    ensures Feed(Parser(InKlog, out), TailLine(e, names)) ==
            Parser(InKlog, out.(tail := out.tail + if e.level % 16 <= 5 then [EntryOf(e, names)] else []))
  {
    hide MatchTail, Padded, Sanitised, LevelName, Token;
    TailReadsBack(e, names);
    Mismatch(TailLine(e, names), "==KLOG END==", 0);
    assert out.tail + [] == out.tail;
  }

  lemma {:induction false} TailsFeed(out: Parsed, tail: seq<Slot>, names: nat -> string)
    requires forall i :: 0 <= i < |tail| ==> Token(names(tail[i].subsys))
    ensures FeedAll(Parser(InKlog, out), TailLines(tail, names)) == Parser(InKlog, out.(tail := out.tail + Entries(tail, names)))
    decreases |tail|
  {
    hide Feed, TailLine, Token, EntryOf;
    if tail == [] {
      assert out.tail + [] == out.tail;
    } else {
      var n := |tail| - 1;
      var e := tail[n];
      TailsFeed(out, tail[..n], names);
      FeedAllConcat(Parser(InKlog, out), TailLines(tail[..n], names), [TailLine(e, names)]);
      var mid := out.(tail := out.tail + Entries(tail[..n], names));
      FeedOne(Parser(InKlog, mid), TailLine(e, names));
      TailFeed(mid, e, names);
      var own := if e.level % 16 <= 5 then [EntryOf(e, names)] else [];
      assert out.tail + Entries(tail[..n], names) + own == out.tail + Entries(tail, names);
    }
  }

  // The four parts of a report's lines.
  function HeadLines(r: Report): seq<string> { [HeaderLine(r), MagicLine(), CrLine(r), RipLine(r)] }

  function RegPart(r: Report): seq<string> { if r.regs.None? then [] else RegLines(r.regs.value) }

  lemma HeadFeed(r: Report)
    requires GoodReport(r)
    ensures FeedAll(Parser(Wait, NOTHING), HeadLines(r)) ==
            Parser(InOops, Expected(r, _ => "").(frames := [], tail := [], complete := false))
  {
    hide HeaderLine, MagicLine, CrLine, RipLine, PtrField, MatchHeader;
    HeaderReadsBack(r);
    var lines := HeadLines(r);
    var p0 := Parser(Wait, NOTHING);
    var p1 := Feed(p0, lines[0]);
    assert p1 == Parser(InOops, NOTHING.(header := Some(Header(13, r.build, r.cpu, r.pid, r.reason))));
    FixedLinesFeed(p1.out, r);
    var p2 := Feed(p1, lines[1]);
    FixedLinesFeed(p2.out, r);
    var p3 := Feed(p2, lines[2]);
    FixedLinesFeed(p3.out, r);
    var p4 := Feed(p3, lines[3]);
    hide Feed;
    FeedFour(p0, lines[0], lines[1], lines[2], lines[3]);
  }

  lemma FeedFour(p: Parser, a: string, b: string, c: string, d: string)
    ensures FeedAll(p, [a, b, c, d]) == Feed(Feed(Feed(Feed(p, a), b), c), d)
  {
    hide Feed;
    FeedAllConcat(p, [a], [b, c, d]);
    assert [a] + [b, c, d] == [a, b, c, d];
    FeedOne(p, a);
    FeedAllConcat(Feed(p, a), [b], [c, d]);
    assert [b] + [c, d] == [b, c, d];
    FeedOne(Feed(p, a), b);
    FeedAllConcat(Feed(Feed(p, a), b), [c], [d]);
    assert [c] + [d] == [c, d];
    FeedOne(Feed(Feed(p, a), b), c);
    FeedOne(Feed(Feed(Feed(p, a), b), c), d);
  }

  lemma RegsFeed(out: Parsed, r: Report)
    ensures FeedAll(Parser(InOops, out), RegPart(r)) == Parser(InOops, out)
  {
    hide Feed, PtrField;
    OtherLinesFeed(out, RegPart(r));
  }

  lemma MarkersFeed(out: Parsed)
    ensures Feed(Parser(InOops, out), "==KLOG BEGIN==") == Parser(InKlog, out)
    ensures Feed(Parser(InKlog, out), "==KLOG END==") == Parser(InOops, out)
    ensures Feed(Parser(InOops, out), "==OOPS END==") == Parser(Done, out.(complete := true))
  {
    Mismatch("==KLOG BEGIN==", "==OOPS END==", 2);
  }

  // The state machine, fed the lines of a report, ends with exactly what was reported.
  lemma {:induction false} ReportFeeds(r: Report, names: nat -> string)
    requires GoodReport(r) && forall i :: 0 <= i < |r.tail| ==> Token(names(r.tail[i].subsys))
    ensures FeedAll(Parser(Wait, NOTHING), ReportLines(r, names)) == Parser(Done, Expected(r, names))
  {
    hide Feed, PtrField, HeaderLine, MagicLine, CrLine, RipLine, RegLines, FrameLines, TailLines, Frames, Entries, FeedAll, Token;
    var out0 := Expected(r, _ => "").(frames := [], tail := [], complete := false);
    var out1 := out0.(frames := Frames(r.trace));
    var out2 := out1.(tail := Entries(r.tail, names));
    var a, b, c, d := HeadLines(r), RegPart(r), FrameLines(r.trace), TailLines(r.tail, names);
    var end := ["==KLOG END==", "==OOPS END=="];
    assert ReportLines(r, names) == a + (b + (c + (["==KLOG BEGIN=="] + (d + end))));
    HeadFeed(r);
    FeedAllConcat(Parser(Wait, NOTHING), a, b + (c + (["==KLOG BEGIN=="] + (d + end))));
    RegsFeed(out0, r);
    FeedAllConcat(Parser(InOops, out0), b, c + (["==KLOG BEGIN=="] + (d + end)));
    FramesFeed(out0, r.trace);
    assert [] + Frames(r.trace) == Frames(r.trace) && [] + Entries(r.tail, names) == Entries(r.tail, names);
    FeedAllConcat(Parser(InOops, out0), c, ["==KLOG BEGIN=="] + (d + end));
    MarkersFeed(out1);
    FeedOne(Parser(InOops, out1), "==KLOG BEGIN==");
    FeedAllConcat(Parser(InOops, out1), ["==KLOG BEGIN=="], d + end);
    TailsFeed(out1, r.tail, names);
    FeedAllConcat(Parser(InKlog, out1), d, end);
    MarkersFeed(out2);
    assert end == ["==KLOG END=="] + ["==OOPS END=="];
    FeedAllConcat(Parser(InKlog, out2), ["==KLOG END=="], ["==OOPS END=="]);
    FeedOne(Parser(InKlog, out2), "==KLOG END==");
    FeedOne(Parser(InOops, out2), "==OOPS END==");
  }

  lemma ReportLinesAreLines(r: Report, names: nat -> string)
    requires GoodReport(r) && forall i :: 0 <= i < |r.tail| ==> Token(names(r.tail[i].subsys))
    ensures forall i :: 0 <= i < |ReportLines(r, names)| ==> OneLine(ReportLines(r, names)[i])
  {
    hide PtrField, HeaderLine, MagicLine, CrLine, RipLine, RegLines, FrameLines, TailLines, OneLine, Token;
    FixedLinesAreOneLine(r);
    if r.regs.Some? { RegLinesAreOneLine(r.regs.value); }
    FrameLinesAreOneLine(r.trace);
    TailLinesAreOneLine(r.tail, names);
    MarkersAreOneLine();
  }

  lemma MarkersAreOneLine()
    ensures OneLine("==KLOG BEGIN==") && OneLine("==KLOG END==") && OneLine("==OOPS END==")
  {
  }

  predicate NoHeader(lines: seq<string>) { forall i :: 0 <= i < |lines| ==> MatchHeader(lines[i]).None? }

  lemma {:induction false} WaitingSkips(p: Parser, lines: seq<string>)
    requires p.mode == Wait && NoHeader(lines)
    ensures FeedAll(p, lines) == p
    decreases |lines|
  {
    hide MatchHeader;
    if lines != [] { WaitingSkips(p, lines[1..]); }
  }

  // Parsing any serial log that contains the oops gives back the report: whatever was printed before
  // it, as long as no line of that is itself an oops header, and whatever comes after it.  Messages may
  // hold any bytes; none of them can end a block or pass for a header field.
  lemma {:induction false} OopsRoundTrip(before: string, r: Report, names: nat -> string, after: string)
    requires GoodReport(r) && forall i :: 0 <= i < |r.tail| ==> Token(names(r.tail[i].subsys))
    requires NoHeader(SplitLines(before + "\n"))
    ensures Parse(before + ReportText(r, names) + after) == Some(Expected(r, names))
  {
    hide SplitLines, FeedAll, ReportLines, Unlines, NoHeader, Token, Expected;
    var lines := ReportLines(r, names);
    var text := Unlines(lines) + after;
    assert before + ReportText(r, names) + after == before + "\n" + text;
    SplitAtNewline(before, text);
    ReportLinesAreLines(r, names);
    SplitUnlines(lines, after);
    var first, p := SplitLines(before + "\n"), Parser(Wait, NOTHING);
    FeedAllConcat(p, first, lines + SplitLines(after));
    WaitingSkips(p, first);
    FeedAllConcat(p, lines, SplitLines(after));
    ReportFeeds(r, names);
    DoneStays(Parser(Done, Expected(r, names)), SplitLines(after));
    ExpectedHasHeader(r, names);
  }

  lemma ExpectedHasHeader(r: Report, names: nat -> string)
    ensures Expected(r, names).header.Some?
  {
  }
}
