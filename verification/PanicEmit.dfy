/**
 The emitter of kernel/panic.c: characters leave one at a time on the serial line.
 Each routine is proved to append exactly its text, the whole of it the text of
 OopsParse.ReportText.  The klog tail it prints is read from the ring without the lock.
 */
module PanicEmit {
  import opened Numerals
  import opened Options
  import opened Formats
  import opened Vsnprintf
  import opened KlogMicro
  import opened OopsText
  import opened OopsParse

  // The stack frames the walk visits: aligned, in the kernel half, growing upwards, at most 32.
  // memory gives the 64-bit word at an address.
  function Trace(rbp: nat, i: nat, memory: nat -> nat): seq<nat>
    decreases 32 - i
  {
    if i >= 32 || rbp == 0 || rbp % 8 != 0 || rbp < 0xFFFF_8000_0000_0000 then []
    else [memory(rbp + 8)] + if memory(rbp) <= rbp then [] else Trace(memory(rbp), i + 1, memory)
  }

  lemma {:induction false} UnlinesConcat(a: seq<string>, b: seq<string>)
    ensures Unlines(a + b) == Unlines(a) + Unlines(b)
  {
    if a == [] {
      assert a + b == b;
    } else {
      assert (a + b)[1..] == a[1..] + b;
      UnlinesConcat(a[1..], b);
    }
  }

  lemma UnlinesOne(line: string)
    ensures Unlines([line]) == line + "\n"
  {
    assert [line][1..] == [];
    assert Unlines([]) == "";
  }

  lemma FrameLinesSnoc(t: seq<nat>, rip: nat)
    ensures Unlines(FrameLines(t + [rip])) == Unlines(FrameLines(t)) + FrameLine(|t|, rip) + "\n"
  {
    hide FrameLine;
    assert (t + [rip])[..|t|] == t;
    UnlinesConcat(FrameLines(t), [FrameLine(|t|, rip)]);
    UnlinesOne(FrameLine(|t|, rip));
  }

  lemma TailLinesSnoc(t: seq<Slot>, e: Slot, names: nat -> string)
    ensures Unlines(TailLines(t + [e], names)) == Unlines(TailLines(t, names)) + TailLine(e, names) + "\n"
  {
    hide TailLine;
    assert (t + [e])[..|t|] == t;
    UnlinesConcat(TailLines(t, names), [TailLine(e, names)]);
    UnlinesOne(TailLine(e, names));
  }

  class Serial {
    var out: string

    constructor ()
      ensures out == ""
    {
      out := "";
    }

    method Putc(c: char)
      modifies this
      ensures out == old(out) + [c]
    {
      out := out + [c];
    }

    method SStr(s: Option<string>)
      modifies this
      ensures out == old(out) + if s.None? then "(null)" else s.value
    {
      var t := if s.None? then "(null)" else s.value;
      var i := 0;
      while i < |t|
        invariant 0 <= i <= |t| && out == old(out) + t[..i]
      {
        Putc(t[i]);
        i := i + 1;
      }
    }

    method Say(s: string)
      modifies this
      ensures out == old(out) + s
    {
      SStr(Some(s));
    }

    method SHex(v: nat)
      requires v < UINT64_LIMIT
      modifies this
      ensures out == old(out) + PtrField(v)
    {
      hide PtrField, Shifted, Nibbles, DigitChar;
      Say("0x");
      ghost var start := out;
      NoNibbles(v);
      var i := 0;
      while i < 16
        invariant 0 <= i <= 16 && out == start + Nibbles(v, i)
      {
        NibbleStep(v, i);
        Putc(DigitChar(Shifted(v, 15 - i) % 16));
        i := i + 1;
      }
      AllNibbles(v);
    }

    // The digit loops of s_dec and s_dec_padded, through a scratch buffer of 24.
    method SDigits(v: nat, zeros: int)
      requires v < UINT64_LIMIT
      modifies this
      ensures out == old(out) + Repeat('0', zeros - |Digits(v, 10)|) + Digits(v, 10)
    {
      hide Digits;
      var tmp := new char[24];
      var n := FormatUintDigits(v, 10, tmp);
      ghost var d := Digits(v, 10);
      var pad := zeros - n;
      var k := 0;
      while k < pad
        invariant 0 <= k && (k <= pad || k == 0) && out == old(out) + Repeat('0', k)
        invariant forall j :: 0 <= j < n ==> tmp[j] == d[n - 1 - j]
      {
        Putc('0');
        k := k + 1;
      }
      assert Repeat('0', k) == Repeat('0', pad);
      ghost var start := out;
      var i: nat := n;
      while i > 0
        invariant i <= n && out == start + d[..n - i]
        invariant forall j :: 0 <= j < n ==> tmp[j] == d[n - 1 - j]
      {
        i := i - 1;
        Putc(tmp[i]);
      }
    }

    method SDecPadded(v: nat, width: int)
      requires v < UINT64_LIMIT
      modifies this
      ensures out == old(out) + Padded(v, 10, width)
    {
      SDigits(v, width);
      assert out == old(out) + (Repeat('0', width - |Digits(v, 10)|) + Digits(v, 10));
    }

    method SDec(v: int)
      requires -0x8000_0000_0000_0000 < v < 0x8000_0000_0000_0000
      modifies this
      ensures out == old(out) + DecText(v)
    {
      hide Digits;
      var n := v;
      if v < 0 {
        Putc('-');
        n := -v;
      }
      SDigits(n, 0);
      assert Repeat('0', 0 - |Digits(n, 10)|) == "";
      assert out == old(out) + DecText(v);
    }

    method DumpStackTrace(start: nat, memory: nat -> nat)
      requires start < UINT64_LIMIT && forall a :: memory(a) < UINT64_LIMIT
      modifies this
      ensures out == old(out) + Unlines(FrameLines(Trace(start, 0, memory)))
    {
      hide FrameLine, FrameLines, Unlines, Trace;
      NoLines();
      var rbp: nat := start;
      ghost var done: seq<nat> := [];
      ghost var goal := Trace(start, 0, memory);
      assert done + goal == goal && old(out) + "" == old(out);
      var i := 0;
      while i < 32
        invariant 0 <= i <= 32 && |done| == i && rbp < UINT64_LIMIT
        invariant goal == done + Trace(rbp, i, memory)
        invariant out == old(out) + Unlines(FrameLines(done))
      {
        TraceStep(rbp, i, memory);
        if rbp == 0 || rbp % 8 != 0 || rbp < 0xFFFF_8000_0000_0000 { break; }
        var savedRip, savedRbp := memory(rbp + 8), memory(rbp);
        FrameLinesSnoc(done, savedRip);
        ghost var before := Unlines(FrameLines(done));
        PrintFrame(i, savedRip);
        assert old(out) + before + FrameLine(i, savedRip) + "\n" == old(out) + (before + FrameLine(i, savedRip) + "\n");
        done := done + [savedRip];
        i := i + 1;
        if savedRbp <= rbp {
          assert goal == done;
          return;
        }
        rbp := savedRbp;
      }
      TraceStep(rbp, i, memory);
      assert goal == done;
    }

    method PrintFrame(i: nat, rip: nat)
      requires i < 32 && rip < UINT64_LIMIT
      modifies this
      ensures out == old(out) + FrameLine(i, rip) + "\n"
    {
      hide PtrField, DecText;
      Say("frame ");
      SDec(i);
      Say(": rip=");
      SHex(rip);
      Putc('\n');
    }

    // One log record, as dump_klog_tail prints it.
    method PrintEntry(e: Slot, names: nat -> string)
      requires e.sequence < UINT64_LIMIT && e.ns < UINT64_LIMIT && |e.message| == MSG_LEN
      modifies this
      ensures out == old(out) + TailLine(e, names) + "\n"
    {
      hide Padded, Sanitised, LevelName;
      Say("[seq=");
      SDecPadded(e.sequence, 0);
      Say(" ");
      SDecPadded(e.ns / 1_000_000_000, 4);
      Putc('.');
      SDecPadded(e.ns % 1_000_000_000, 9);
      Say("] ");
      Say(LevelName(e.level));
      Putc(' ');
      Say(names(e.subsys));
      Putc(' ');
      PrintMessage(e.message);
      Putc('\n');
      EntryRegrouped(old(out), Padded(e.sequence, 10, 0), Padded(e.ns / 1_000_000_000, 10, 4), Padded(e.ns % 1_000_000_000, 10, 9),
                     LevelName(e.level), names(e.subsys), Sanitised(e.message));
    }

    static lemma EntryRegrouped(o: string, n: string, s: string, f: string, level: string, name: string, m: string)
      ensures
        o + "[seq=" + n + " " + s + ['.'] + f + "] " + level + [' '] + name + [' '] + m + ['\n'] ==
        o + ("[seq=" + n + " " + s + "." + f + "] " + level + " " + name + " " + m) + "\n"
    {
      var stamp := "[seq=" + n + " " + s + "." + f + "] ";
      assert o + "[seq=" + n + " " + s + ['.'] + f + "] " == o + stamp;
    }

    method PrintMessage(m: seq<char>)
      modifies this
      ensures out == old(out) + Sanitised(m)
    {
      var k := 0;
      ghost var full := Sanitised(m);
      assert m[0..] == m;
      while k < |m| && m[k] != '\0'
        invariant 0 <= k <= |m|
        invariant out + Sanitised(m[k..]) == old(out) + full
      {
        var c := m[k];
        ghost var before := out;
        assert m[k..][1..] == m[k + 1..];
        Putc(if (' ' <= c < 127 as char) || c == '\t' then c else ' ');
        assert before + Sanitised(m[k..]) == out + Sanitised(m[k + 1..]);
        k := k + 1;
      }
      assert Sanitised(m[k..]) == "";
    }

    // Prints exactly the entries DumpFrom selects.
    method DumpKlogTail(slots: seq<Slot>, head: nat, names: nat -> string)
      requires |slots| == RING_ENTRIES
      requires forall i :: 0 <= i < |slots| ==> slots[i].sequence < UINT64_LIMIT && slots[i].ns < UINT64_LIMIT && |slots[i].message| == MSG_LEN
      modifies this
      ensures
        var start := if head < DUMP_MAX then 0 else head - DUMP_MAX;
        out == old(out) + Unlines(["==KLOG BEGIN=="] + TailLines(DumpFrom(slots, start, head), names) + ["==KLOG END=="])
    {
      hide TailLine, TailLines, Unlines, DumpFrom;
      NoLines();
      NoTailLines(names);
      var want := DUMP_MAX;
      if want > head { want := head; }
      var start := head - want;
      Say("==KLOG BEGIN==\n");
      ghost var mark := out;
      ghost var done: seq<Slot> := [];
      ghost var goal := DumpFrom(slots, start, head);
      assert goal == done + goal && mark + "" == mark;
      var i := start;
      while i < head
        invariant start <= i <= head
        invariant goal == done + DumpFrom(slots, i, head)
        invariant out == mark + Unlines(TailLines(done, names))
      {
        DumpStep(slots, i, head);
        var e := slots[i % RING_ENTRIES];
        i := i + 1;
        if Guarded(e.level) || e.sequence == 0 {
          assert [] + DumpFrom(slots, i, head) == DumpFrom(slots, i, head);
          continue;
        }
        TailLinesSnoc(done, e, names);
        assert done + ([e] + DumpFrom(slots, i, head)) == done + [e] + DumpFrom(slots, i, head);
        ghost var before := Unlines(TailLines(done, names));
        PrintEntry(e, names);
        assert mark + before + TailLine(e, names) + "\n" == mark + (before + TailLine(e, names) + "\n");
        done := done + [e];
      }
      DumpStep(slots, head, head);
      assert done + [] == done;
      Say("==KLOG END==\n");
      WrapTail(old(out), TailLines(done, names));
    }

    static lemma Regrouped(o: string, build: string, cpu: string, pid: string, reason: string)
      ensures
        o + "\n==OOPS== phase=13 build=" + build + " cpu=" + cpu + " pid=" + pid + " reason=\"" + reason + "\"\n" ==
        o + "\n" + ("==OOPS== phase=13 build=" + build + " cpu=" + cpu + " pid=" + pid + " reason=\"" + reason + "\"") + "\n"
    {
      assert "\n==OOPS== phase=13 build=" == "\n" + "==OOPS== phase=13 build=" && "\"\n" == "\"" + "\n";
    }

    method EmitHeader(r: Report)
      requires Small(r.cpu) && Small(r.pid)
      modifies this
      ensures out == old(out) + "\n" + HeaderLine(r) + "\n"
    {
      hide DecText;
      Say("\n==OOPS== phase=13 build=");
      Say(r.build);
      Say(" cpu=");
      SDec(r.cpu);
      Say(" pid=");
      SDec(r.pid);
      Say(" reason=\"");
      Say(r.reason);
      Say("\"\n");
      Regrouped(old(out), r.build, DecText(r.cpu), DecText(r.pid), r.reason);
    }

    // A register line of two to four values.
    method EmitPair(n0: string, v0: nat, n1: string, v1: nat)
      requires v0 < UINT64_LIMIT && v1 < UINT64_LIMIT
      modifies this
      ensures out == old(out) + (n0 + PtrField(v0) + n1 + PtrField(v1))
    {
      hide PtrField;
      Say(n0);
      SHex(v0);
      Say(n1);
      SHex(v1);
      assert old(out) + n0 + PtrField(v0) + n1 + PtrField(v1) == old(out) + (n0 + PtrField(v0) + n1 + PtrField(v1));
    }

    method EmitControl(r: Report)
      requires r.cr2 < UINT64_LIMIT && r.cr3 < UINT64_LIMIT && r.rip < UINT64_LIMIT && r.rsp < UINT64_LIMIT && r.rflags < UINT64_LIMIT
      modifies this
      ensures out == old(out) + (MagicLine() + "\n") + (CrLine(r) + "\n") + (RipLine(r) + "\n")
    {
      hide PtrField;
      Say("oops.magic=");
      SHex(OOPS_MAGIC);
      Putc('\n');
      assert out == old(out) + (MagicLine() + "\n");
      ghost var a := out;
      EmitPair("oops.cr2=", r.cr2, " oops.cr3=", r.cr3);
      Putc('\n');
      assert out == a + (CrLine(r) + "\n");
      ghost var b := out;
      EmitPair("oops.rip=", r.rip, " oops.rsp=", r.rsp);
      Say(" oops.rflags=");
      SHex(r.rflags);
      Putc('\n');
      assert out == b + (RipLine(r) + "\n");
    }

    method EmitFour(n0: string, v0: nat, n1: string, v1: nat, n2: string, v2: nat, n3: string, v3: nat)
      requires v0 < UINT64_LIMIT && v1 < UINT64_LIMIT && v2 < UINT64_LIMIT && v3 < UINT64_LIMIT
      modifies this
      ensures out == old(out) + (n0 + PtrField(v0) + n1 + PtrField(v1) + n2 + PtrField(v2) + n3 + PtrField(v3) + "\n")
    {
      hide PtrField;
      EmitPair(n0, v0, n1, v1);
      EmitPair(n2, v2, n3, v3);
      Putc('\n');
      ghost var a, b := n0 + PtrField(v0) + n1 + PtrField(v1), n2 + PtrField(v2) + n3 + PtrField(v3);
      assert old(out) + a + b + "\n" == old(out) + (a + b + "\n");
      assert a + b == a + n2 + PtrField(v2) + n3 + PtrField(v3);
    }

    method EmitRegs(g: Regs)
      requires GoodRegs(g)
      modifies this
      ensures out == old(out) + Unlines(RegLines(g))
    {
      hide PtrField, Unlines;
      ghost var l := RegLines(g);
      UnlinesFive(l[0], l[1], l[2], l[3], l[4]);
      EmitFour("regs.rax=", g.rax, " rbx=", g.rbx, " rcx=", g.rcx, " rdx=", g.rdx);
      EmitFour("regs.rsi=", g.rsi, " rdi=", g.rdi, " rbp=", g.rbp, " r8=", g.r8);
      EmitFour("regs.r9=", g.r9, " r10=", g.r10, " r11=", g.r11, " r12=", g.r12);
      ghost var three := out;
      EmitPair("regs.r13=", g.r13, " r14=", g.r14);
      Say(" r15=");
      SHex(g.r15);
      Putc('\n');
      assert out == three + (l[3] + "\n");
      ghost var four := out;
      EmitPair("int_no=", g.intNo, " err=", g.err);
      Putc('\n');
      assert out == four + (l[4] + "\n");
      FiveAppended(old(out), l[0] + "\n", l[1] + "\n", l[2] + "\n", l[3] + "\n", l[4] + "\n");
    }

    // emit_oops, after the framebuffer banner: the text of the report of this panic.
    method EmitOops(reason: string, build: string, cpu: int, pid: int, cr2: nat, cr3: nat, at: Context,
                    memory: nat -> nat, slots: seq<Slot>, head: nat, names: nat -> string)
      requires Small(cpu) && Small(pid) && cr2 < UINT64_LIMIT && cr3 < UINT64_LIMIT && GoodContext(at)
      requires forall a :: memory(a) < UINT64_LIMIT
      requires |slots| == RING_ENTRIES
      requires forall i :: 0 <= i < |slots| ==> slots[i].sequence < UINT64_LIMIT && slots[i].ns < UINT64_LIMIT && |slots[i].message| == MSG_LEN
      modifies this
      ensures out == old(out) + ReportText(PanicReport(reason, build, cpu, pid, cr2, cr3, at, memory, slots, head), names)
    {
      ghost var r := PanicReport(reason, build, cpu, pid, cr2, cr3, at, memory, slots, head);
      hide HeaderLine, MagicLine, CrLine, RipLine, RegLines, FrameLines, TailLines, Unlines, Trace, DumpFrom;
      var shown := Report(build, cpu, pid, reason, cr2, cr3, at.rip, at.rsp, at.rflags, at.regs, [], []);
      EmitHeader(shown);
      EmitControl(shown);
      HeadersDoNotShowTheTail(shown, r);
      ghost var o1 := out;
      if at.regs.Some? {
        EmitRegs(at.regs.value);
      }
      NoLines();
      assert out == o1 + Unlines(RegPart(r));
      DumpStackTrace(if at.regs.Some? then at.regs.value.rbp else at.rbp, memory);
      DumpKlogTail(slots, head, names);
      Say("==OOPS END==\n");
      WholeText(old(out), r, names);
    }
  }

  lemma FiveAppended(o: string, a: string, b: string, c: string, d: string, e: string)
    ensures o + a + b + c + d + e == o + (a + b + c + d + e)
  {
  }

  predicate Small(v: int) { -0x8000_0000 <= v < 0x8000_0000 }

  predicate GoodRegs(g: Regs) {
    && g.rax < UINT64_LIMIT && g.rbx < UINT64_LIMIT && g.rcx < UINT64_LIMIT && g.rdx < UINT64_LIMIT
    && g.rsi < UINT64_LIMIT && g.rdi < UINT64_LIMIT && g.rbp < UINT64_LIMIT && g.r8 < UINT64_LIMIT
    && g.r9 < UINT64_LIMIT && g.r10 < UINT64_LIMIT && g.r11 < UINT64_LIMIT && g.r12 < UINT64_LIMIT
    && g.r13 < UINT64_LIMIT && g.r14 < UINT64_LIMIT && g.r15 < UINT64_LIMIT && g.intNo < UINT64_LIMIT && g.err < UINT64_LIMIT
  }

  // Where the panic happened: an interrupt frame brings all registers, an explicit kpanic only a few.
  datatype Context = Context(rip: nat, rsp: nat, rflags: nat, rbp: nat, regs: Option<Regs>)

  predicate GoodContext(c: Context) {
    && c.rip < UINT64_LIMIT && c.rsp < UINT64_LIMIT && c.rflags < UINT64_LIMIT && c.rbp < UINT64_LIMIT
    && (c.regs.Some? ==> GoodRegs(c.regs.value))
  }

  function PanicReport(reason: string, build: string, cpu: int, pid: int, cr2: nat, cr3: nat, at: Context,
                       memory: nat -> nat, slots: seq<Slot>, head: nat): Report
    requires |slots| == RING_ENTRIES
  {
    Report(build, cpu, pid, reason, cr2, cr3, at.rip, at.rsp, at.rflags, at.regs,
           Trace(if at.regs.Some? then at.regs.value.rbp else at.rbp, 0, memory),
           DumpFrom(slots, if head < DUMP_MAX then 0 else head - DUMP_MAX, head))
  }

  lemma HeadersDoNotShowTheTail(a: Report, b: Report)
    requires b.(trace := [], tail := []) == a.(trace := [], tail := [])
    ensures HeaderLine(a) == HeaderLine(b) && CrLine(a) == CrLine(b) && RipLine(a) == RipLine(b)
  {
  }

  lemma UnlinesFive(a: string, b: string, c: string, d: string, e: string)
    ensures Unlines([a, b, c, d, e]) == (a + "\n") + (b + "\n") + (c + "\n") + (d + "\n") + (e + "\n")
  {
    hide Unlines;
    UnlinesOne(a);
    UnlinesOne(b);
    UnlinesOne(c);
    UnlinesOne(d);
    UnlinesOne(e);
    UnlinesConcat([a], [b]);
    UnlinesConcat([a] + [b], [c]);
    UnlinesConcat([a] + [b] + [c], [d]);
    UnlinesConcat([a] + [b] + [c] + [d], [e]);
    assert [a, b, c, d, e] == [a] + [b] + [c] + [d] + [e];
  }

  lemma UnlinesFour(a: string, b: string, c: string, d: string)
    ensures Unlines([a, b, c, d]) == (a + "\n") + (b + "\n") + (c + "\n") + (d + "\n")
  {
    hide Unlines;
    UnlinesOne(a);
    UnlinesOne(b);
    UnlinesOne(c);
    UnlinesOne(d);
    UnlinesConcat([a], [b]);
    UnlinesConcat([a] + [b], [c]);
    UnlinesConcat([a] + [b] + [c], [d]);
    assert [a, b, c, d] == [a] + [b] + [c] + [d];
  }

  // The pieces, in the order they leave, are the report's text.
  lemma WholeText(before: string, r: Report, names: nat -> string)
    ensures
      var tail := ["==KLOG BEGIN=="] + TailLines(r.tail, names) + ["==KLOG END=="];
      before + "\n" + HeaderLine(r) + "\n" + (MagicLine() + "\n") + (CrLine(r) + "\n") + (RipLine(r) + "\n")
      + Unlines(RegPart(r)) + Unlines(FrameLines(r.trace)) + Unlines(tail) + "==OOPS END==\n"
      == before + ReportText(r, names)
  {
    hide HeaderLine, MagicLine, CrLine, RipLine, RegPart, FrameLines, TailLines, Unlines;
    var a, b, c := HeadLines(r), RegPart(r), FrameLines(r.trace);
    var tail := ["==KLOG BEGIN=="] + TailLines(r.tail, names) + ["==KLOG END=="];
    SplitReport(r, names);
    UnlinesFour(HeaderLine(r), MagicLine(), CrLine(r), RipLine(r));
    UnlinesConcat(a, b);
    UnlinesConcat(a + b, c);
    UnlinesConcat(a + b + c, tail);
    UnlinesConcat(a + b + c + tail, ["==OOPS END=="]);
    UnlinesOne("==OOPS END==");
  }

  lemma SplitReport(r: Report, names: nat -> string)
    ensures ReportLines(r, names) ==
            HeadLines(r) + RegPart(r) + FrameLines(r.trace)
            + (["==KLOG BEGIN=="] + TailLines(r.tail, names) + ["==KLOG END=="]) + ["==OOPS END=="]
  {
    hide HeaderLine, MagicLine, CrLine, RipLine, RegLines, FrameLines, TailLines;
  }

  // End to end: whatever single store the log's writer was frozen at, the host reads from the serial log
  // the report of the panic and, of the last min(256, head) finished log entries, every one whose level
  // has a name.
  lemma {:induction false} PanicIsReadable(
      events: seq<Event>, before: string, after: string, names: nat -> string, r: Report)
    requires r.tail == DumpFrom(Run(events).slots, DumpStart(Run(events)), Run(events).head)
    requires GoodReport(r) && forall k :: Token(names(k))
    requires NoHeader(SplitLines(before + "\n"))
    ensures
      var s := Run(events);
      Parse(before + ReportText(r, names) + after) == Some(Expected(r.(tail := Published(s.history, DumpStart(s))), names))
  {
    hide Run, ReportText, Parse, NoHeader, Token, Expected, DumpFrom, Published;
    PanicDumpIsExact(events);
    OopsRoundTrip(before, r, names, after);
  }

  lemma TraceStep(rbp: nat, i: nat, memory: nat -> nat)
    ensures
      if i >= 32 || rbp == 0 || rbp % 8 != 0 || rbp < 0xFFFF_8000_0000_0000 then Trace(rbp, i, memory) == []
      else if memory(rbp) <= rbp then Trace(rbp, i, memory) == [memory(rbp + 8)]
      else Trace(rbp, i, memory) == [memory(rbp + 8)] + Trace(memory(rbp), i + 1, memory)
  {
  }

  lemma DumpStep(slots: seq<Slot>, i: nat, head: nat)
    requires |slots| == RING_ENTRIES && i <= head
    ensures i == head ==> DumpFrom(slots, i, head) == []
    ensures i < head ==>
      var e := slots[i % RING_ENTRIES];
      DumpFrom(slots, i, head) == (if Guarded(e.level) || e.sequence == 0 then [] else [e]) + DumpFrom(slots, i + 1, head)
  {
  }

  lemma WrapTail(out: string, lines: seq<string>)
    ensures out + "==KLOG BEGIN==\n" + Unlines(lines) + "==KLOG END==\n" ==
            out + Unlines(["==KLOG BEGIN=="] + lines + ["==KLOG END=="])
  {
    hide Unlines;
    UnlinesConcat(["==KLOG BEGIN=="] + lines, ["==KLOG END=="]);
    UnlinesConcat(["==KLOG BEGIN=="], lines);
    UnlinesOne("==KLOG BEGIN==");
    UnlinesOne("==KLOG END==");
  }

  lemma NoLines()
    ensures Unlines([]) == "" && FrameLines([]) == []
  {
  }

  lemma NoTailLines(names: nat -> string)
    ensures TailLines([], names) == []
  {
  }
}
