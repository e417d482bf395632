/**
 scripts/klog_sweep.py: the rewriter that turned serial_write sequences in C sources
 into klog calls.  Lines are character sequences, matched as the script's regular
 expressions match them.  A second sweep changes nothing; what the generated calls say is
 SweepMeaning's.
 */
module KlogSweep {
  import opened Options

  // ---------------------------------------------------------------------------
  // Matching a line
  // ---------------------------------------------------------------------------

  // The white space of a source line.
  predicate IsSpace(c: char) { c in " \t\n\r" || c == 11 as char || c == 12 as char }

  predicate AllSpace(s: string) { forall i :: 0 <= i < |s| ==> IsSpace(s[i]) }

  function IndentLength(s: string): (n: nat)
    ensures n <= |s| && AllSpace(s[..n]) && (n < |s| ==> !IsSpace(s[n]))
  {
    if s == "" || !IsSpace(s[0]) then 0 else 1 + IndentLength(s[1..])
  }

  // The first unescaped quote of a string literal that starts at s.
  function LiteralEnd(s: string): (r: Option<nat>)
    ensures r.Some? ==> r.value < |s|
  {
    if s == "" then None
    else if s[0] == '"' then Some(0)
    else if s[0] != '\\' then
      var r := LiteralEnd(s[1..]);
      if r.None? then None else Some(r.value + 1)
    else if |s| < 2 || s[1] == '\n' then None
    else
      var r := LiteralEnd(s[2..]);
      if r.None? then None else Some(r.value + 2)
  }

  function IndexOfChar(s: string, c: char): (r: Option<nat>)
    ensures r.Some? ==> r.value < |s|
  {
    if s == "" then None
    else if s[0] == c then Some(0)
    else
      var r := IndexOfChar(s[1..], c);
      if r.None? then None else Some(r.value + 1)
  }

  // str.strip
  function StripRight(s: string): string {
    if s != "" && IsSpace(s[|s| - 1]) then StripRight(s[..|s| - 1]) else s
  }
  function Strip(s: string): string { StripRight(s[IndentLength(s)..]) }

  datatype Line = Plain(indent: string, msg: string) | Hex(indent: string, arg: string) | Dec(indent: string, arg: string) | Other

  const SW_PLAIN := "serial_write(\""
  const SW_HEX := "serial_write_hex("
  const SW_DEC := "serial_write_dec("

  // The argument of a one-argument call that ends its line; the argument has no semicolon.
  function CallArg(s: string): Option<string> {
    match IndexOfChar(s, ';')
    case None => None
    case Some(k) =>
      if k >= 2 && s[k - 1] == ')' && AllSpace(s[k + 1..]) then Some(s[..k - 1]) else None
  }

  function Classify(line: string): Line {
    var n := IndentLength(line);
    var indent, code := line[..n], line[n..];
    if SW_PLAIN <= code then
      var body := code[|SW_PLAIN|..];
      match LiteralEnd(body)
      case None => Other
      case Some(k) => if "\");" <= body[k..] && AllSpace(body[k + 3..]) then Plain(indent, body[..k]) else Other
    else if SW_HEX <= code then
      match CallArg(code[|SW_HEX|..])
      case None => Other
      case Some(arg) => Hex(indent, arg)
    else if SW_DEC <= code then
      match CallArg(code[|SW_DEC|..])
      case None => Other
      case Some(arg) => Dec(indent, arg)
    else Other
  }

  // ---------------------------------------------------------------------------
  // Rewriting
  // ---------------------------------------------------------------------------

  // str.replace("%", "%%")
  function Doubled(s: string): string {
    if s == "" then "" else (if s[0] == '%' then "%%" else [s[0]]) + Doubled(s[1..])
  }

  // str.replace("%%", "%")
  function Undoubled(s: string): string {
    if s == "" then ""
    else if |s| >= 2 && s[0] == '%' && s[1] == '%' then "%" + Undoubled(s[2..])
    else [s[0]] + Undoubled(s[1..])
  }

  predicate EndsWithEscapedN(s: string) { |s| >= 2 && s[|s| - 2] == '\\' && s[|s| - 1] == 'n' }

  // strip_trailing_newline, on source text
  function StripTrailingNewline(s: string): string { if EndsWithEscapedN(s) then s[..|s| - 2] else s }

  predicate Contains(s: string, t: string) { |t| <= |s| && (t <= s || (s != "" && Contains(s[1..], t))) }

  function Upper(s: string): string {
    seq(|s|, i requires 0 <= i < |s| => if 'a' <= s[i] <= 'z' then (s[i] as int - 32) as char else s[i])
  }

  function DeriveLevel(msg: string): string {
    var u := Upper(msg);
    if Contains(u, "PANIC") || Contains(u, "FATAL") || Contains(u, "!!!") then "KLOG_FATAL"
    else if Contains(u, "ERROR") || Contains(u, "FAIL") then "KLOG_ERROR"
    else if Contains(u, "WARN") then "KLOG_WARN"
    else if Contains(u, "DEBUG") || Contains(u, "[DBG]") then "KLOG_DEBUG"
    else "KLOG_INFO"
  }

  function FormatOf(item: Line): string {
    match item
    case Plain(_, msg) => Doubled(msg)
    case Hex(_, _) => "0x%lx"
    case Dec(_, _) => "%lu"
    case Other => ""
  }

  function JoinedFormat(group: seq<Line>): string {
    if group == [] then "" else JoinedFormat(group[..|group| - 1]) + FormatOf(group[|group| - 1])
  }

  function ArgsText(group: seq<Line>): string {
    if group == [] then ""
    else
      var last := group[|group| - 1];
      ArgsText(group[..|group| - 1])
      + if last.Hex? || last.Dec? then ", (unsigned long)(" + Strip(last.arg) + ")" else ""
  }

  function KlogLine(indent: string, level: string, subsys: string, fmt: string, args: string): string {
    indent + "klog(" + level + ", " + subsys + ", \"" + fmt + "\"" + args + ");\n"
  }

  function GroupLine(group: seq<Line>, subsys: string): string
    requires group != [] && group[0].Plain?
  {
    var fmt := StripTrailingNewline(JoinedFormat(group));
    KlogLine(group[0].indent, DeriveLevel(Undoubled(fmt)), subsys, fmt, ArgsText(group))
  }

  function SimpleLine(item: Line, subsys: string): string
    requires item.Plain?
  {
    var msg := StripTrailingNewline(item.msg);
    KlogLine(item.indent, DeriveLevel(msg), subsys, msg, "")
  }

  predicate Joins(line: string, indent: string) {
    var item := Classify(line);
    !item.Other? && item.indent == indent
  }

  // The end of the group whose first line has this indent; j is the line after the first.
  function GroupEnd(lines: seq<string>, j: nat, indent: string): (e: nat)
    requires j <= |lines|
    ensures j <= e <= |lines|
    ensures forall k :: j <= k < e ==> Joins(lines[k], indent)
    ensures e < |lines| ==> !Joins(lines[e], indent)
    decreases |lines| - j
  {
    if j < |lines| && Joins(lines[j], indent) then GroupEnd(lines, j + 1, indent) else j
  }

  function Items(lines: seq<string>): seq<Line> { seq(|lines|, i requires 0 <= i < |lines| => Classify(lines[i])) }

  datatype Sweep = Sweep(lines: seq<string>, simple: nat, grouped: nat)

  // rewrite_lines from line i on
  function RewriteFrom(lines: seq<string>, i: nat, subsys: string): Sweep
    requires i <= |lines|
    decreases |lines| - i
  {
    if i == |lines| then Sweep([], 0, 0)
    else
      var item := Classify(lines[i]);
      var e := if item.Plain? then GroupEnd(lines, i + 1, item.indent) else i + 1;
      if item.Plain? && e > i + 1 then
        var rest := RewriteFrom(lines, e, subsys);
        Sweep([GroupLine(Items(lines[i..e]), subsys)] + rest.lines, rest.simple, rest.grouped + 1)
      else if item.Plain? && '%' !in item.msg then
        var rest := RewriteFrom(lines, i + 1, subsys);
        Sweep([SimpleLine(item, subsys)] + rest.lines, rest.simple + 1, rest.grouped)
      else
        var rest := RewriteFrom(lines, i + 1, subsys);
        rest.(lines := [lines[i]] + rest.lines)
  }

  // The inner loop of rewrite_lines: the adjacent calls at the indent of line i.
  method CollectGroup(lines: seq<string>, i: nat) returns (group: seq<Line>, j: nat)
    requires i < |lines| && Classify(lines[i]).Plain?
    ensures j == GroupEnd(lines, i + 1, Classify(lines[i]).indent) && group == Items(lines[i..j])
  {
    hide Classify;
    var indent := Classify(lines[i]).indent;
    group := [Classify(lines[i])];
    j := i + 1;
    while j < |lines| && Joins(lines[j], indent)
      invariant i + 1 <= j <= |lines|
      invariant GroupEnd(lines, j, indent) == GroupEnd(lines, i + 1, indent)
      invariant group == Items(lines[i..j])
    {
      group := group + [Classify(lines[j])];
      j := j + 1;
    }
  }

  function After(out: seq<string>, simple: nat, grouped: nat, rest: Sweep): Sweep {
    Sweep(out + rest.lines, simple + rest.simple, grouped + rest.grouped)
  }

  lemma AfterAfter(out: seq<string>, simple: nat, grouped: nat, line: string, s: nat, g: nat, rest: Sweep)
    ensures After(out, simple, grouped, After([line], s, g, rest)) == After(out + [line], simple + s, grouped + g, rest)
  {
    assert out + ([line] + rest.lines) == out + [line] + rest.lines;
  }

  // One turn of the outer loop: a line to put out, where to go on, and what to count.
  method RewriteOne(lines: seq<string>, i: nat, subsys: string)
    returns (line: string, next: nat, simple: nat, grouped: nat)
    requires i < |lines|
    ensures i < next <= |lines|
    ensures RewriteFrom(lines, i, subsys) == After([line], simple, grouped, RewriteFrom(lines, next, subsys))
  {
    hide Classify, GroupLine, SimpleLine, GroupEnd, Items;
    var item := Classify(lines[i]);
    if item.Plain? {
      var group, j := CollectGroup(lines, i);
      assert |group| == j - i by { ItemCount(lines[i..j]); }
      if |group| > 1 {
        assert group[0].Plain? by { FirstItem(lines[i..j]); }
        return GroupLine(group, subsys), j, 0, 1;
      }
      if '%' !in item.msg {
        return SimpleLine(item, subsys), i + 1, 1, 0;
      }
    }
    return lines[i], i + 1, 0, 0;
  }

  lemma ItemCount(lines: seq<string>)
    ensures |Items(lines)| == |lines|
  {
  }

  lemma FirstItem(lines: seq<string>)
    requires lines != []
    ensures Items(lines) != [] && Items(lines)[0] == Classify(lines[0])
  {
  }

  method RewriteLines(lines: seq<string>, subsys: string) returns (out: seq<string>, simpleN: nat, groupN: nat)
    ensures Sweep(out, simpleN, groupN) == RewriteFrom(lines, 0, subsys)
  {
    hide RewriteFrom;
    out, simpleN, groupN := [], 0, 0;
    var i := 0;
    ghost var goal := RewriteFrom(lines, 0, subsys);
    assert [] + goal.lines == goal.lines;
    while i < |lines|
      invariant 0 <= i <= |lines|
      invariant goal == After(out, simpleN, groupN, RewriteFrom(lines, i, subsys))
    {
      var line, next, s, g := RewriteOne(lines, i, subsys);
      AfterAfter(out, simpleN, groupN, line, s, g, RewriteFrom(lines, next, subsys));
      out, simpleN, groupN, i := out + [line], simpleN + s, groupN + g, next;
    }
    NothingLeft(lines, subsys);
  }

  lemma NothingLeft(lines: seq<string>, subsys: string)
    ensures RewriteFrom(lines, |lines|, subsys) == Sweep([], 0, 0)
  {
  }

  // ---------------------------------------------------------------------------
  // A second sweep changes nothing
  // ---------------------------------------------------------------------------

  lemma KlogLineIsOther(indent: string, level: string, subsys: string, fmt: string, args: string)
    requires AllSpace(indent)
    ensures Classify(KlogLine(indent, level, subsys, fmt, args)) == Other
  {
    var line := KlogLine(indent, level, subsys, fmt, args);
    IndentOf(indent, line);
    assert line[|indent|] == 'k';
    assert line[|indent|..][0] == 'k';
  }

  lemma {:induction false} IndentOf(indent: string, line: string)
    requires AllSpace(indent) && indent < line && !IsSpace(line[|indent|])
    ensures IndentLength(line) == |indent|
  {
    if indent != "" {
      assert line[1..][|indent| - 1] == line[|indent|];
      assert forall i :: 0 <= i < |indent| - 1 ==> indent[1..][i] == line[1..][i];
      IndentOf(indent[1..], line[1..]);
    }
  }

  // Lone serial_write lines with a '%' are all the work left over.
  ghost predicate Settled(out: seq<string>) {
    forall p :: 0 <= p < |out| && Classify(out[p]).Plain? ==>
      && '%' in Classify(out[p]).msg
      && (p + 1 < |out| ==> !Joins(out[p + 1], Classify(out[p]).indent))
  }

  lemma SettledCons(x: string, rest: seq<string>)
    requires Settled(rest)
    requires Classify(x).Plain? ==> '%' in Classify(x).msg && (rest != [] ==> !Joins(rest[0], Classify(x).indent))
    ensures Settled([x] + rest)
  {
    hide Classify;
    var out := [x] + rest;
    forall p | 0 <= p < |out| && Classify(out[p]).Plain?
      ensures '%' in Classify(out[p]).msg && (p + 1 < |out| ==> !Joins(out[p + 1], Classify(out[p]).indent))
    {
      if p > 0 { assert out[p] == rest[p - 1]; }
    }
  }

  lemma {:induction false} RewrittenIsSettled(lines: seq<string>, i: nat, subsys: string)
    requires i <= |lines|
    ensures
      var out := RewriteFrom(lines, i, subsys).lines;
      && Settled(out)
      && (out != [] ==> i < |lines| && (out[0] == lines[i] || Classify(out[0]).Other?))
    decreases |lines| - i
  {
    hide Classify, Settled, GroupLine, SimpleLine, Joins;
    if i == |lines| {
      NothingIsSettled();
    } else {
      var item := Classify(lines[i]);
      var e := if item.Plain? then GroupEnd(lines, i + 1, item.indent) else i + 1;
      RewrittenIsSettled(lines, e, subsys);
      var rest := RewriteFrom(lines, e, subsys).lines;
      if item.Plain? && e > i + 1 {
        GroupLineIsOther(lines, i, e, subsys);
        SettledCons(GroupLine(Items(lines[i..e]), subsys), rest);
      } else if item.Plain? && '%' !in item.msg {
        SimpleLineIsOther(lines[i], subsys);
        SettledCons(SimpleLine(item, subsys), rest);
      } else {
        if rest != [] { OtherDoesNotJoin(rest[0]); }
        SettledCons(lines[i], rest);
      }
    }
  }

  lemma NothingIsSettled()
    ensures Settled([])
  {
  }

  lemma OtherDoesNotJoin(line: string)
    ensures Classify(line).Other? ==> forall indent :: !Joins(line, indent)
  {
  }

  lemma GroupLineIsOther(lines: seq<string>, i: nat, e: nat, subsys: string)
    requires i < e <= |lines| && Classify(lines[i]).Plain?
    ensures Classify(GroupLine(Items(lines[i..e]), subsys)).Other?
  {
    hide Classify;
    var group := Items(lines[i..e]);
    var fmt := StripTrailingNewline(JoinedFormat(group));
    IndentIsSpace(lines[i]);
    KlogLineIsOther(group[0].indent, DeriveLevel(Undoubled(fmt)), subsys, fmt, ArgsText(group));
  }

  lemma SimpleLineIsOther(line: string, subsys: string)
    requires Classify(line).Plain?
    ensures Classify(SimpleLine(Classify(line), subsys)).Other?
  {
    hide Classify;
    var item := Classify(line);
    var msg := StripTrailingNewline(item.msg);
    IndentIsSpace(line);
    KlogLineIsOther(item.indent, DeriveLevel(msg), subsys, msg, "");
  }

  lemma IndentIsSpace(line: string)
    ensures Classify(line).Plain? ==> AllSpace(Classify(line).indent)
  {
  }

  lemma {:induction false} SettledIsFixed(out: seq<string>, k: nat, subsys: string)
    requires Settled(out) && k <= |out|
    ensures RewriteFrom(out, k, subsys) == Sweep(out[k..], 0, 0)
    decreases |out| - k
  {
    if k < |out| {
      hide Classify;
      SettledIsFixed(out, k + 1, subsys);
      assert out[k..] == [out[k]] + out[k + 1..];
    }
  }

  lemma {:induction false} SweepIsIdempotent(lines: seq<string>, subsys: string)
    ensures
      var once := RewriteFrom(lines, 0, subsys).lines;
      RewriteFrom(once, 0, subsys) == Sweep(once, 0, 0)
  {
    RewrittenIsSettled(lines, 0, subsys);
    var once := RewriteFrom(lines, 0, subsys).lines;
    hide Settled;
    SettledIsFixed(once, 0, subsys);
    assert once[0..] == once;
  }
}
