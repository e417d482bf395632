/**
 kernel/vsnprintf.c in place: every routine writes into a caller's buffer of `cap`
 bytes and counts on past its end.  The buffer always holds the prefix of the text
 produced so far that fits, and nothing else of it is touched; kvsnprintf is proved
 to produce the text of Formats.Render.

 `text` is what has been produced, `orig` what the buffer held at the start.
 */
module Vsnprintf {
  import opened Numerals
  import opened Options
  import opened Formats

  // How many characters of a text are stored: one byte of the buffer is the terminator's.
  function Kept(cap: nat, len: nat): nat { if cap == 0 then 0 else if len < cap - 1 then len else cap - 1 }

  ghost predicate Emitted(buf: array<char>, cap: nat, pos: nat, text: string, orig: seq<char>)
    reads buf
  {
    && cap <= buf.Length == |orig| && pos == |text|
    && var n := Kept(cap, |text|); buf[..n] == text[..n] && buf[n..] == orig[n..]
  }

  method WriteChar(buf: array<char>, cap: nat, pos: nat, c: char, ghost text: string, ghost orig: seq<char>) returns (p: nat)
    requires Emitted(buf, cap, pos, text, orig)
    modifies buf
    ensures Emitted(buf, cap, p, text + [c], orig)
  {
    if pos + 1 < cap {
      buf[pos] := c;
      assert buf[..pos + 1] == text + [c];
    }
    p := pos + 1;
  }

  method WritePad(buf: array<char>, cap: nat, pos: nat, pad: char, n: int, ghost text: string, ghost orig: seq<char>)
    returns (p: nat)
    requires Emitted(buf, cap, pos, text, orig)
    modifies buf
    ensures Emitted(buf, cap, p, text + Repeat(pad, n), orig)
  {
    hide Emitted;
    p := pos;
    var i := 0;
    assert text + Repeat(pad, 0) == text;
    while i < n
      invariant 0 <= i && (i <= n || i == 0)
      invariant Emitted(buf, cap, p, text + Repeat(pad, i), orig)
    {
      p := WriteChar(buf, cap, p, pad, text + Repeat(pad, i), orig);
      i := i + 1;
      assert text + Repeat(pad, i - 1) + [pad] == text + Repeat(pad, i);
    }
    assert Repeat(pad, i) == Repeat(pad, n);
  }

  // The loop that copies a string out.
  method WriteText(buf: array<char>, cap: nat, pos: nat, s: string, len: nat, ghost text: string, ghost orig: seq<char>)
    returns (p: nat)
    requires Emitted(buf, cap, pos, text, orig) && len <= |s|
    modifies buf
    ensures Emitted(buf, cap, p, text + s[..len], orig)
  {
    hide Emitted;
    p := pos;
    var i := 0;
    assert text + s[..0] == text;
    while i < len
      invariant 0 <= i <= len
      invariant Emitted(buf, cap, p, text + s[..i], orig)
    {
      p := WriteChar(buf, cap, p, s[i], text + s[..i], orig);
      i := i + 1;
      assert text + s[..i - 1] + [s[i - 1]] == text + s[..i];
    }
  }

  // The C string's length, but no more than max when max is not negative.
  method BoundedStrlen(s: string, max: int) returns (n: nat)
    requires CString(s)
    ensures n == if 0 <= max < |s| then max else |s|
  {
    n := 0;
    while n < |s| && (max < 0 || n < max)
      invariant n <= |s| && (max < 0 || n <= max)
    {
      n := n + 1;
    }
  }

  lemma NoneRepeated(c: char, n: int)
    requires n <= 0
    ensures Repeat(c, n) == ""
  {
  }

  // A string field, piece by piece as it is written.
  lemma StrFieldForm(s: Option<string>, max: int, width: nat, f: Flags, t: string, text: string)
    requires t == StrText(s, max)
    ensures
      var spaces := Repeat(' ', if width > |t| then width - |t| else 0);
      && (width <= |t| ==> text + t == text + StrField(s, max, width, f))
      && (f.left ==> text + t + spaces == text + StrField(s, max, width, f))
      && (!f.left ==> text + spaces + t == text + StrField(s, max, width, f))
  {
    hide StrText;
    var spaces := Repeat(' ', if width > |t| then width - |t| else 0);
    assert Repeat(' ', width - |t|) == spaces;
    if width <= |t| { assert spaces == "" && t + "" == t && "" + t == t; }
  }

  method WriteStr(buf: array<char>, cap: nat, pos: nat, s: Option<string>, maxLen: int, width: nat, flags: Flags,
                  ghost text: string, ghost orig: seq<char>)
    returns (p: nat)
    requires Emitted(buf, cap, pos, text, orig) && (s.Some? ==> CString(s.value))
    modifies buf
    ensures Emitted(buf, cap, p, text + StrField(s, maxLen, width, flags), orig)
  {
    hide Emitted, Repeat, StrField;
    var t := if s.None? then "(null)" else s.value;
    var sLen := BoundedStrlen(t, maxLen);
    var padN := if width > sLen then width - sLen else 0;
    ghost var spaces := Repeat(' ', padN);
    StrFieldForm(s, maxLen, width, flags, t[..sLen], text);
    p := pos;
    ghost var cur := text;
    if padN > 0 && !flags.left {
      p := WritePad(buf, cap, p, ' ', padN, cur, orig);
      cur := cur + spaces;
    }
    p := WriteText(buf, cap, p, t, sLen, cur, orig);
    cur := cur + t[..sLen];
    if padN > 0 && flags.left {
      p := WritePad(buf, cap, p, ' ', padN, cur, orig);
      cur := cur + spaces;
    }
  }

  // The digits still to be produced when `v` is left.
  ghost function Pending(v: nat, base: nat): string
    requires IsBase(base)
  {
    if v == 0 then "" else Digits(v, base)
  }

  lemma PendingStep(v: nat, base: nat)
    requires IsBase(base) && v > 0
    ensures v % base < 16 && 0 <= v / base < v
    ensures Pending(v, base) == Pending(v / base, base) + [DigitChar(v % base)]
  {
  }

  // The digits of v, lowest first.  A scratch buffer of 20 suffices; the callers have 32 and 24.
  method FormatUintDigits(v: nat, base: nat, tmp: array<char>) returns (n: nat)
    requires IsBase(base) && v < UINT64_LIMIT && tmp.Length >= 20
    modifies tmp
    ensures n == |Digits(v, base)| <= 20
    ensures forall k :: 0 <= k < n ==> tmp[k] == Digits(v, base)[n - 1 - k]
  {
    hide Digits, Pending, DigitChar;
    Uint64DigitCount(v, base);
    ZeroDigit(base);
    n := 0;
    if v == 0 {
      tmp[0] := '0';
      n := 1;
    } else {
      var rest: nat := v;
      ghost var done := "";
      PendingSome(v, base);
      assert Digits(v, base) == Digits(v, base) + "";
      while rest > 0 && n < tmp.Length
        invariant Digits(v, base) == Pending(rest, base) + done
        invariant n == |done| && forall k :: 0 <= k < n ==> tmp[k] == done[n - 1 - k]
        decreases rest
      {
        PendingStep(rest, base);
        var c := DigitChar(rest % base);
        assert Pending(rest / base, base) + [c] + done == Pending(rest / base, base) + ([c] + done);
        done := [c] + done;
        tmp[n] := c;
        n := n + 1;
        rest := rest / base;
      }
      PendingSome(rest, base);
      assert Pending(rest, base) + done == done;
    }
  }

  lemma PendingSome(v: nat, base: nat)
    requires IsBase(base)
    ensures Pending(v, base) == "" <==> v == 0
    ensures v > 0 ==> Pending(v, base) == Digits(v, base)
  {
  }

  // Digits leave the scratch buffer highest first.
  method WriteDigits(buf: array<char>, cap: nat, pos: nat, tmp: array<char>, n: nat, ghost digits: string,
                     ghost text: string, ghost orig: seq<char>)
    returns (p: nat)
    requires Emitted(buf, cap, pos, text, orig) && buf != tmp
    requires n == |digits| <= tmp.Length && forall k :: 0 <= k < n ==> tmp[k] == digits[n - 1 - k]
    modifies buf
    ensures Emitted(buf, cap, p, text + digits, orig)
  {
    hide Emitted;
    p := pos;
    var i: nat := n;
    assert text + digits[..0] == text;
    while i > 0
      invariant i <= n
      invariant Emitted(buf, cap, p, text + digits[..n - i], orig)
    {
      i := i - 1;
      p := WriteChar(buf, cap, p, tmp[i], text + digits[..n - i - 1], orig);
      assert text + digits[..n - i - 1] + [digits[n - 1 - i]] == text + digits[..n - i];
    }
    assert digits[..n] == digits;
  }

  // An unsigned field, piece by piece as it is written.
  lemma UintFieldForm(v: nat, base: nat, width: nat, f: Flags, text: string)
    requires IsBase(base)
    ensures
      var d := Digits(v, base);
      var pad := if width > |d| then width - |d| else 0;
      var c := if f.zero && !f.left then '0' else ' ';
      && (pad == 0 ==> text + d == text + UintField(v, base, width, f))
      && (f.left ==> text + d + Repeat(' ', pad) == text + UintField(v, base, width, f))
      && (!f.left ==> text + Repeat(c, pad) + d == text + UintField(v, base, width, f))
  {
    hide Digits, Repeat;
    var d := Digits(v, base);
    var pad := if width > |d| then width - |d| else 0;
    if width <= |d| {
      NoneRepeated(' ', width - |d|);
      NoneRepeated('0', width - |d|);
      NoneRepeated(' ', 0);
      NoneRepeated('0', 0);
      assert d + "" == d && "" + d == d && text + "" == text;
    } else if f.left {
      assert text + d + Repeat(' ', pad) == text + (d + Repeat(' ', pad));
    }
  }

  method WriteUint(buf: array<char>, cap: nat, pos: nat, v: nat, base: nat, width: nat, flags: Flags,
                   ghost text: string, ghost orig: seq<char>)
    returns (p: nat)
    requires Emitted(buf, cap, pos, text, orig) && IsBase(base) && v < UINT64_LIMIT
    modifies buf
    ensures Emitted(buf, cap, p, text + UintField(v, base, width, flags), orig)
  {
    hide Emitted, Digits, Repeat, UintField;
    var tmp := new char[32];
    var n := FormatUintDigits(v, base, tmp);
    ghost var digits := Digits(v, base);
    var padN := if width > n then width - n else 0;
    var padChar := if flags.zero && !flags.left then '0' else ' ';
    UintFieldForm(v, base, width, flags, text);
    p := pos;
    ghost var cur := text;
    if padN > 0 && !flags.left {
      p := WritePad(buf, cap, p, padChar, padN, cur, orig);
      cur := cur + Repeat(padChar, padN);
    }
    p := WriteDigits(buf, cap, p, tmp, n, digits, cur, orig);
    cur := cur + digits;
    if padN > 0 && flags.left {
      p := WritePad(buf, cap, p, ' ', padN, cur, orig);
      cur := cur + Repeat(' ', padN);
    }
  }

  method WriteInt(buf: array<char>, cap: nat, pos: nat, v: int, width: nat, flags: Flags,
                  ghost text: string, ghost orig: seq<char>)
    returns (p: nat)
    requires Emitted(buf, cap, pos, text, orig) && -0x8000_0000_0000_0000 <= v < 0x8000_0000_0000_0000
    modifies buf
    ensures Emitted(buf, cap, p, text + IntField(v, width, flags), orig)
  {
    hide Emitted, Digits, IntField, SignedField;
    IntFieldForm(v, width, flags);
    var sign := "";
    var absV: nat;
    if v < 0 {
      sign := "-";
      absV := -(v + 1) + 1;
    } else {
      absV := v;
      if flags.plus { sign := "+"; } else if flags.space { sign := " "; }
    }
    var tmp := new char[32];
    var n := FormatUintDigits(absV, 10, tmp);
    p := WriteSigned(buf, cap, pos, sign, tmp, n, Digits(absV, 10), width, flags, text, orig);
  }

  // The layout of write_int: spaces, sign, zeros, digits, spaces.
  method WriteSigned(buf: array<char>, cap: nat, pos: nat, sign: string, tmp: array<char>, n: nat, ghost digits: string,
                     width: nat, flags: Flags, ghost text: string, ghost orig: seq<char>)
    returns (p: nat)
    requires Emitted(buf, cap, pos, text, orig) && buf != tmp && |sign| <= 1
    requires n == |digits| <= tmp.Length && forall k :: 0 <= k < n ==> tmp[k] == digits[n - 1 - k]
    modifies buf
    ensures Emitted(buf, cap, p, text + SignedField(sign, digits, width, flags), orig)
  {
    hide Emitted;
    var body := n + |sign|;
    var padN := if width > body then width - body else 0;
    var zeroPad := flags.zero && !flags.left;
    p := pos;
    ghost var cur := text;
    if padN > 0 && !flags.left && !zeroPad {
      p := WritePad(buf, cap, p, ' ', padN, cur, orig);
      cur := cur + Repeat(' ', padN);
    }
    assert cur == text + (if flags.left || zeroPad then "" else Repeat(' ', padN));
    if sign != "" {
      p := WriteChar(buf, cap, p, sign[0], cur, orig);
      cur := cur + [sign[0]];
    }
    assert cur == text + (if flags.left || zeroPad then "" else Repeat(' ', padN)) + sign;
    if padN > 0 && zeroPad {
      p := WritePad(buf, cap, p, '0', padN, cur, orig);
      cur := cur + Repeat('0', padN);
    }
    assert cur == text + (if flags.left || zeroPad then "" else Repeat(' ', padN)) + sign + (if zeroPad then Repeat('0', padN) else "");
    p := WriteDigits(buf, cap, p, tmp, n, digits, cur, orig);
    cur := cur + digits;
    if padN > 0 && flags.left {
      p := WritePad(buf, cap, p, ' ', padN, cur, orig);
      cur := cur + Repeat(' ', padN);
    }
    Regroup(text, if flags.left || zeroPad then "" else Repeat(' ', padN), sign, if zeroPad then Repeat('0', padN) else "",
            digits, if flags.left then Repeat(' ', padN) else "");
  }

  lemma Regroup(t: string, a: string, b: string, c: string, d: string, e: string)
    ensures t + a + b + c + d + e == t + (a + b + c + d + e)
    ensures e == "" ==> t + a + b + c + d == t + (a + b + c + d + e)
  {
  }

  function SignedField(sign: string, digits: string, width: nat, f: Flags): string {
    var body := |digits| + |sign|;
    var pad := if width > body then width - body else 0;
    var zero := f.zero && !f.left;
    (if f.left || zero then "" else Repeat(' ', pad)) + sign + (if zero then Repeat('0', pad) else "") + digits
    + (if f.left then Repeat(' ', pad) else "")
  }

  // An int field, piece by piece as it is written.
  lemma IntFieldForm(v: int, width: nat, f: Flags)
    ensures IntField(v, width, f) == SignedField(Sign(v, f), Digits(Abs(v), 10), width, f)
  {
    hide Digits, Repeat, Sign, Abs;
    var sign, digits := Sign(v, f), Digits(Abs(v), 10);
    var pad := width - |sign| - |digits|;
    assert |sign + digits| == |sign| + |digits| && width - |sign + digits| == pad;
    if pad <= 0 {
      NoneRepeated(' ', pad);
      NoneRepeated('0', pad);
    }
  }

  // A value shifted right by k nibbles.
  function Shifted(v: nat, k: nat): nat {
    v / Pow(16, k)
  }

  lemma ShiftedStep(v: nat, k: nat)
    ensures Shifted(v, k + 1) == Shifted(v, k) / 16
  {
    assert Pow(16, k + 1) == 16 * Pow(16, k);
    DivTimes(v, Pow(16, k), 16);
  }

  lemma TopNibble(v: nat)
    requires v < UINT64_LIMIT
    ensures Shifted(v, 15) < 16
  {
    PowersOf64Bits();
  }

  // The first i of the sixteen nibbles of a 64-bit value.
  ghost function Nibbles(v: nat, i: nat): string
    requires i <= 16
  {
    if i == 0 then "" else Padded(Shifted(v, 16 - i), 16, i)
  }

  lemma NibbleStep(v: nat, i: nat)
    requires v < UINT64_LIMIT && i < 16
    ensures Nibbles(v, i + 1) == Nibbles(v, i) + [DigitChar(Shifted(v, 15 - i) % 16)]
  {
    hide Padded, DigitChar, Shifted;
    if i == 0 {
      TopNibble(v);
      PaddedDigit(Shifted(v, 15), 16);
      SmallDivides(Shifted(v, 15), 16);
    } else {
      ShiftedStep(v, 15 - i);
      PaddedStep(Shifted(v, 15 - i), 16, i + 1);
    }
  }

  lemma NoNibbles(v: nat)
    ensures Nibbles(v, 0) == ""
  {
  }

  lemma AllNibbles(v: nat)
    ensures PtrField(v) == "0x" + Nibbles(v, 16)
  {
    hide Padded;
    assert v / Pow(16, 0) == v;
  }

  // Sixteen nibbles, highest first.
  method WritePtr(buf: array<char>, cap: nat, pos: nat, ptr: nat, ghost text: string, ghost orig: seq<char>) returns (p: nat)
    requires Emitted(buf, cap, pos, text, orig) && ptr < UINT64_LIMIT
    modifies buf
    ensures Emitted(buf, cap, p, text + PtrField(ptr), orig)
  {
    hide Emitted, PtrField, Shifted, Nibbles, DigitChar;
    p := WriteChar(buf, cap, pos, '0', text, orig);
    p := WriteChar(buf, cap, p, 'x', text + "0", orig);
    ghost var lead := text + "0x";
    assert text + "0" + "x" == lead + "" == lead;
    NoNibbles(ptr);
    var i := 0;
    while i < 16
      invariant 0 <= i <= 16
      invariant Emitted(buf, cap, p, lead + Nibbles(ptr, i), orig)
    {
      NibbleStep(ptr, i);
      var d := Shifted(ptr, 15 - i) % 16;
      p := WriteChar(buf, cap, p, DigitChar(d), lead + Nibbles(ptr, i), orig);
      assert lead + Nibbles(ptr, i) + [DigitChar(d)] == lead + Nibbles(ptr, i + 1);
      i := i + 1;
    }
    AllNibbles(ptr);
    assert lead + Nibbles(ptr, 16) == text + PtrField(ptr);
  }

  // The digit loops of width and precision.
  method ParseNumber(fmt: string) returns (n: nat, rest: string)
    ensures (n, rest) == ScanNumber(fmt, 0)
  {
    n, rest := 0, fmt;
    while rest != "" && '0' <= rest[0] <= '9'
      invariant ScanNumber(rest, n) == ScanNumber(fmt, 0)
      decreases |rest|
    {
      n := n * 10 + (rest[0] as int - '0' as int);
      rest := rest[1..];
    }
  }

  // From behind the '%' up to the conversion character.
  method ParseSpec(fmt: string, args: seq<Arg>) returns (p: Spec)
    requires ScanSpec(fmt, args).Some?
    ensures ScanSpec(fmt, args) == Some(p)
  {
    hide ScanNumber, AsInt;
    var flags, s, ap := NO_FLAGS, fmt, args;
    while s != "" && (s[0] == '0' || s[0] == '-' || s[0] == '+' || s[0] == ' ')
      invariant ScanFlags(s, flags) == ScanFlags(fmt, NO_FLAGS)
      decreases |s|
    {
      flags := AddFlag(flags, s[0]);
      s := s[1..];
    }
    assert ScanFlags(fmt, NO_FLAGS) == (flags, s);
    hide ScanFlags;
    var width: nat;
    ghost var scanned := ScanWidth(flags, s, args);
    if s != "" && s[0] == '*' {
      var w := AsInt(ap[0].v);
      ap := ap[1..];
      if w < 0 { flags := flags.(left := true); width := -w; } else { width := w; }
      s := s[1..];
    } else {
      width, s := ParseNumber(s);
    }
    assert scanned == Some(Spec(flags, width, -1, false, s, ap));
    hide ScanWidth;
    var precision := -1;
    if s != "" && s[0] == '.' {
      s := s[1..];
      if s != "" && s[0] == '*' {
        precision := AsInt(ap[0].v);
        ap := ap[1..];
        s := s[1..];
      } else {
        precision, s := ParseNumber(s);
      }
    }
    assert ScanPrecision(scanned.value) == Some(Spec(flags, width, precision, false, s, ap));
    hide ScanPrecision;
    var isLong := false;
    ghost var tail := s;
    while s != "" && s[0] == 'l'
      invariant ScanLongs(s, isLong) == ScanLongs(tail, false)
      decreases |s|
    {
      isLong := true;
      s := s[1..];
    }
    p := Spec(flags, width, precision, isLong, s, ap);
  }

  // The switch on the conversion character.
  method WriteConversion(buf: array<char>, cap: nat, pos: nat, p: Spec, conv: char, ghost text: string, ghost orig: seq<char>)
    returns (next: nat, args: seq<Arg>)
    requires Emitted(buf, cap, pos, text, orig) && Convert(p, conv).Some?
    modifies buf
    ensures Convert(p, conv).value.args == args
    ensures Emitted(buf, cap, next, text + Convert(p, conv).value.text, orig)
  {
    hide Emitted, IntField, UintField, StrField, PtrField;
    args := p.args;
    if conv == 'd' || conv == 'i' {
      next := WriteInt(buf, cap, pos, if p.long then AsLong(args[0].v) else AsInt(args[0].v), p.width, p.flags, text, orig);
      args := args[1..];
    } else if conv == 'u' || conv == 'x' {
      var v := if p.long then AsUlong(args[0].v) else AsUint(args[0].v);
      next := WriteUint(buf, cap, pos, v, if conv == 'u' then 10 else 16, p.width, p.flags, text, orig);
      args := args[1..];
    } else if conv == 'p' {
      next := WritePtr(buf, cap, pos, AsUlong(args[0].v), text, orig);
      args := args[1..];
    } else if conv == 's' {
      next := WriteStr(buf, cap, pos, args[0].s, p.precision, p.width, p.flags, text, orig);
      args := args[1..];
    } else if conv == 'c' {
      next := WriteCharField(buf, cap, pos, (AsUint(args[0].v) % 256) as char, p.width, p.flags, text, orig);
      args := args[1..];
    } else if conv == '%' {
      next := WriteChar(buf, cap, pos, '%', text, orig);
    } else {
      next := WriteChar(buf, cap, pos, '%', text, orig);
      next := WriteChar(buf, cap, next, conv, text + "%", orig);
      assert text + "%" + [conv] == text + ['%', conv];
    }
  }

  method WriteCharField(buf: array<char>, cap: nat, pos: nat, ch: char, width: nat, flags: Flags,
                        ghost text: string, ghost orig: seq<char>)
    returns (p: nat)
    requires Emitted(buf, cap, pos, text, orig)
    modifies buf
    ensures Emitted(buf, cap, p, text + CharField(ch, width, flags), orig)
  {
    hide Emitted;
    var padN := if width > 1 then width - 1 else 0;
    assert Repeat(' ', padN) == Repeat(' ', width - 1);
    p := pos;
    ghost var cur := text;
    if padN > 0 && !flags.left {
      p := WritePad(buf, cap, p, ' ', padN, cur, orig);
      cur := cur + Repeat(' ', padN);
    }
    p := WriteChar(buf, cap, p, ch, cur, orig);
    cur := cur + [ch];
    if padN > 0 && flags.left {
      p := WritePad(buf, cap, p, ' ', padN, cur, orig);
      cur := cur + Repeat(' ', padN);
    }
    assert cur == text + CharField(ch, width, flags);
  }

  // What kvsnprintf prints, buffer aside.
  function FullText(fmt: Option<string>, args: seq<Arg>): string
    requires fmt.Some? ==> Render(fmt.value, args).Some?
  {
    if fmt.None? then "" else Render(fmt.value, args).value.text
  }

  // (int)pos
  function ToInt(n: nat): int { if n % 0x1_0000_0000 < 0x8000_0000 then n % 0x1_0000_0000 else n % 0x1_0000_0000 - 0x1_0000_0000 }

  // The buffer ends up with the longest prefix of the text that fits, a terminator behind it, and
  // every other byte unchanged; the result is the length of the whole text.
  method KvSnprintf(buf: array<char>, cap: nat, fmt: Option<string>, args: seq<Arg>) returns (r: int)
    requires cap <= buf.Length
    requires fmt.Some? ==> '\0' !in fmt.value && Render(fmt.value, args).Some?
    modifies buf
    ensures r == ToInt(|FullText(fmt, args)|)
    ensures |FullText(fmt, args)| <= INT_MAX ==> r == |FullText(fmt, args)|
    ensures cap == 0 ==> buf[..] == old(buf[..])
    ensures cap > 0 ==>
      var full := FullText(fmt, args);
      var n := if |full| < cap then |full| else cap - 1;
      buf[..n] == full[..n] && buf[n] == '\0' && buf[n + 1..] == old(buf[n + 1..])
  {
    hide Render, ToInt;
    forall n: nat | n <= INT_MAX { ToIntSmall(n); }
    ghost var orig := buf[..];
    if fmt.None? {
      if cap > 0 { buf[0] := '\0'; }
      return 0;
    }
    var pos := PrintAll(buf, cap, fmt.value, args, orig);
    ghost var full := FullText(fmt, args);
    if cap > 0 {
      if pos < cap { buf[pos] := '\0'; } else { buf[cap - 1] := '\0'; }
    }
    r := ToInt(pos);
  }

  lemma ToIntSmall(n: nat)
    requires n <= INT_MAX
    ensures ToInt(n) == n
  {
  }

  // The rest of a rendering behind a literal character, and behind a directive.
  lemma RenderLiteral(fmt: string, args: seq<Arg>)
    requires fmt != "" && fmt[0] != '%' && Render(fmt, args).Some?
    ensures Render(fmt[1..], args).Some?
    ensures Render(fmt, args).value.text == [fmt[0]] + Render(fmt[1..], args).value.text
  {
  }

  lemma RenderSpec(fmt: string, args: seq<Arg>)
    requires fmt != "" && fmt[0] == '%' && Render(fmt, args).Some?
    ensures ScanSpec(fmt[1..], args).Some?
    ensures
      var p := ScanSpec(fmt[1..], args).value;
      && |p.rest| < |fmt|
      && if p.rest == "" then Render(fmt, args).value.text == ""
         else
           && Convert(p, p.rest[0]).Some?
           && var piece := Convert(p, p.rest[0]).value;
              && Render(p.rest[1..], piece.args).Some?
              && Render(fmt, args).value.text == piece.text + Render(p.rest[1..], piece.args).value.text
  {
    hide ScanSpec, Convert;
    ScanSpecShrinks(fmt[1..], args);
  }

  lemma RenderNothing(args: seq<Arg>)
    ensures Render("", args) == Some(Rendered("", args))
  {
  }

  lemma NothingEmitted(buf: array<char>, cap: nat, orig: seq<char>)
    requires cap <= buf.Length && orig == buf[..]
    ensures Emitted(buf, cap, 0, "", orig)
  {
    assert buf[0..] == orig[0..];
  }

  // The main loop.
  method PrintAll(buf: array<char>, cap: nat, format: string, args: seq<Arg>, ghost orig: seq<char>) returns (pos: nat)
    requires Render(format, args).Some? && cap <= buf.Length && orig == buf[..]
    modifies buf
    ensures Emitted(buf, cap, pos, Render(format, args).value.text, orig)
  {
    hide Emitted, Convert, Render, ScanSpec;
    var fmt, ap := format, args;
    ghost var text := "";
    ghost var full := Render(format, args).value.text;
    pos := 0;
    assert "" + full == full;
    NothingEmitted(buf, cap, orig);
    while fmt != ""
      invariant Emitted(buf, cap, pos, text, orig)
      invariant Render(fmt, ap).Some? && text + Render(fmt, ap).value.text == full
      decreases |fmt|
    {
      if fmt[0] != '%' {
        RenderLiteral(fmt, ap);
        ghost var later := Render(fmt[1..], ap).value.text;
        assert text + ([fmt[0]] + later) == text + [fmt[0]] + later;
        pos := WriteChar(buf, cap, pos, fmt[0], text, orig);
        text := text + [fmt[0]];
        fmt := fmt[1..];
        continue;
      }
      RenderSpec(fmt, ap);
      fmt := fmt[1..];
      var p := ParseSpec(fmt, ap);
      fmt := p.rest;
      if fmt == "" {
        assert text + "" == text;
        return;
      }
      ghost var piece := Convert(p, fmt[0]).value;
      ghost var later := Render(fmt[1..], piece.args).value.text;
      assert text + (piece.text + later) == text + piece.text + later;
      pos, ap := WriteConversion(buf, cap, pos, p, fmt[0], text, orig);
      text := text + piece.text;
      fmt := fmt[1..];
    }
    RenderNothing(ap);
    assert text + "" == text;
  }
}
