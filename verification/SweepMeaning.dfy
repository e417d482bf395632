/**
 Whether a klog call generated by scripts/klog_sweep.py says what the serial_write
 calls it replaced said (arch/x86_64/drivers/serial/serial.c).
 */
module SweepMeaning {
  import opened Numerals
  import opened Options
  import opened Formats
  import opened KlogSweep

  // ---------------------------------------------------------------------------
  // C string literals
  // ---------------------------------------------------------------------------

  predicate IsEscape(c: char) {
    || c == 'n' || c == 't' || c == 'r' || c == 'a' || c == 'b' || c == 'f' || c == 'v'
    || c == '\\' || c == '"' || c == '\'' || c == '?'
  }

  function EscapeValue(c: char): char {
    if c == 'n' then '\n' else if c == 't' then '\t' else if c == 'r' then '\r'
    else if c == 'a' then 7 as char else if c == 'b' then 8 as char
    else if c == 'v' then 11 as char else if c == 'f' then 12 as char else c
  }

  predicate IsOctalDigit(c: char) { '0' <= c <= '7' }

  predicate IsHexDigit(c: char) { '0' <= c <= '9' || 'a' <= c <= 'f' || 'A' <= c <= 'F' }

  function DigitCode(c: char): nat {
    if '0' <= c <= '9' then c as int - '0' as int
    else if 'a' <= c <= 'f' then c as int - 'a' as int + 10
    else if 'A' <= c <= 'F' then c as int - 'A' as int + 10
    else 0
  }

  function Code(digits: string, base: nat): nat {
    if digits == "" then 0 else Code(digits[..|digits| - 1], base) * base + DigitCode(digits[|digits| - 1])
  }

  // The digits of an octal escape are at most three, those of a hexadecimal one all that there are.
  function OctalRun(s: string): (n: nat)
    ensures n <= |s| && n <= 3
  {
    if s == "" || !IsOctalDigit(s[0]) then 0
    else if |s| == 1 || !IsOctalDigit(s[1]) then 1
    else if |s| == 2 || !IsOctalDigit(s[2]) then 2
    else 3
  }

  function HexRun(s: string): (n: nat)
    ensures n <= |s|
  {
    if s == "" || !IsHexDigit(s[0]) then 0 else 1 + HexRun(s[1..])
  }

  // The length of the first character or escape; 0 where there is none.
  function TokenLength(s: string): (n: nat)
    ensures n <= |s|
  {
    if s == "" then 0
    else if s[0] != '\\' then if s[0] == '"' || s[0] == '\n' || s[0] == '\0' then 0 else 1
    else if |s| == 1 then 0
    else if IsEscape(s[1]) then 2
    else if IsOctalDigit(s[1]) then 1 + OctalRun(s[1..])
    else if s[1] == 'x' && HexRun(s[2..]) > 0 then 2 + HexRun(s[2..])
    else 0
  }

  function TokenCode(s: string): nat
    requires TokenLength(s) > 0
  {
    if s[0] != '\\' then s[0] as int
    else if IsEscape(s[1]) then EscapeValue(s[1]) as int
    else if IsOctalDigit(s[1]) then Code(s[1..TokenLength(s)], 8)
    else Code(s[2..TokenLength(s)], 16)
  }

  predicate GoodToken(s: string) { TokenLength(s) > 0 && (s[0] == '\\' ==> TokenCode(s) < 256) }

  function TokenChar(s: string): char
    requires GoodToken(s)
  {
    if s[0] != '\\' then s[0] else TokenCode(s) as char
  }

  // A sequence of characters and escapes, and one whose escapes all denote a character.
  predicate Lexes(s: string) { s == "" || (TokenLength(s) > 0 && Lexes(s[TokenLength(s)..])) }

  function Tokens(s: string): nat
    requires Lexes(s)
  {
    if s == "" then 0 else 1 + Tokens(s[TokenLength(s)..])
  }

  predicate Literal(s: string) { s == "" || (GoodToken(s) && Literal(s[TokenLength(s)..])) }

  function Unescape(s: string): string
    requires Literal(s)
  {
    if s == "" then "" else [TokenChar(s)] + Unescape(s[TokenLength(s)..])
  }

  lemma {:induction false} LiteralLexes(s: string)
    requires Literal(s)
    ensures Lexes(s) && Tokens(s) == |Unescape(s)|
    decreases |s|
  {
    if s != "" { LiteralLexes(s[TokenLength(s)..]); }
  }

  // A numeric escape that ends its text goes on when a further digit follows.
  predicate Extends(token: string, c: char) {
    |token| >= 2 && token[0] == '\\' &&
    ((IsOctalDigit(token[1]) && |token| < 4 && IsOctalDigit(c)) || (token[1] == 'x' && IsHexDigit(c)))
  }

  function LastToken(s: string): string
    requires Lexes(s) && s != ""
  {
    if TokenLength(s) == |s| then s else LastToken(s[TokenLength(s)..])
  }

  predicate Apart(a: string, b: string) { a == "" || b == "" || !Lexes(a) || !Extends(LastToken(a), b[0]) }

  // ---------------------------------------------------------------------------
  // Literals behind each other
  // ---------------------------------------------------------------------------

  lemma OctalRunStays(s: string, b: string)
    requires OctalRun(s) < |s| || OctalRun(s) == 3 || b == "" || !IsOctalDigit(b[0])
    ensures OctalRun(s + b) == OctalRun(s)
  {
  }

  lemma {:induction false} HexRunStays(s: string, b: string)
    requires HexRun(s) < |s| || b == "" || !IsHexDigit(b[0])
    ensures HexRun(s + b) == HexRun(s)
  {
    if s == "" {
      assert s + b == b;
    } else if IsHexDigit(s[0]) {
      assert (s + b)[1..] == s[1..] + b;
      HexRunStays(s[1..], b);
    }
  }

  // What follows a token does not change it, unless it extends it.
  lemma TokenStays(a: string, b: string)
    requires TokenLength(a) > 0 && (TokenLength(a) < |a| || b == "" || !Extends(a, b[0]))
    ensures TokenLength(a + b) == TokenLength(a) && TokenCode(a + b) == TokenCode(a) && (a + b)[0] == a[0]
  {
    hide HexRun, Code;
    var s, n := a + b, TokenLength(a);
    if a[0] == '\\' {
      assert s[1] == a[1] && s[1..] == a[1..] + b && s[2..] == a[2..] + b;
      assert s[1..n] == a[1..n] && s[2..n] == a[2..n];
      if !IsEscape(a[1]) {
        if IsOctalDigit(a[1]) { OctalRunStays(a[1..], b); } else { HexRunStays(a[2..], b); }
      }
    }
  }

  lemma OctalRunDigits(s: string)
    ensures forall i :: 0 <= i < OctalRun(s) ==> IsHexDigit(s[i])
  {
  }

  lemma {:induction false} HexRunDigits(s: string)
    ensures forall i :: 0 <= i < HexRun(s) ==> IsHexDigit(s[i])
  {
    if s != "" && IsHexDigit(s[0]) { HexRunDigits(s[1..]); }
  }

  lemma OctalRunGrows(s: string, b: string)
    requires OctalRun(s) == |s| < 3 && b != "" && IsOctalDigit(b[0])
    ensures OctalRun(s + b) > |s|
  {
  }

  lemma {:induction false} HexRunGrows(s: string, b: string)
    requires HexRun(s) == |s| && b != "" && IsHexDigit(b[0])
    ensures HexRun(s + b) > |s|
  {
    if s == "" {
      assert s + b == b;
    } else {
      assert (s + b)[1..] == s[1..] + b;
      HexRunGrows(s[1..], b);
    }
  }

  // A token that is extended takes in characters of the text behind it, all of them digits.
  lemma TokenGrows(a: string, b: string)
    requires TokenLength(a) == |a| && b != "" && Extends(a, b[0])
    ensures TokenLength(a + b) > |a| && forall i :: 0 <= i < TokenLength(a + b) - |a| ==> IsHexDigit(b[i])
  {
    hide OctalRun, HexRun;
    var s := a + b;
    assert s[1] == a[1] && s[1..] == a[1..] + b && s[2..] == a[2..] + b;
    if IsOctalDigit(a[1]) {
      OctalRunGrows(a[1..], b);
      OctalRunDigits(s[1..]);
      assert forall i :: 0 <= i < TokenLength(s) - |a| ==> b[i] == s[1..][|a| - 1 + i];
    } else {
      HexRunGrows(a[2..], b);
      HexRunDigits(s[2..]);
      assert forall i :: 0 <= i < TokenLength(s) - |a| ==> b[i] == s[2..][|a| - 2 + i];
    }
  }

  lemma {:induction false} DigitTokens(s: string, k: nat)
    requires Lexes(s) && k <= |s| && forall i :: 0 <= i < k ==> IsHexDigit(s[i])
    ensures Lexes(s[k..]) && Tokens(s) == k + Tokens(s[k..])
  {
    if k == 0 {
      assert s[0..] == s;
    } else {
      assert TokenLength(s) == 1 && s[1..][k - 1..] == s[k..];
      DigitTokens(s[1..], k - 1);
    }
  }

  // Put together, two texts have as many tokens as they had, or fewer where an escape goes on.
  lemma {:induction false} LexConcat(a: string, b: string)
    requires Lexes(a) && Lexes(b)
    ensures Lexes(a + b)
    ensures if Apart(a, b) then Tokens(a + b) == Tokens(a) + Tokens(b) else Tokens(a + b) < Tokens(a) + Tokens(b)
    decreases |a|
  {
    hide TokenLength;
    var s, n := a + b, TokenLength(a);
    if a == "" {
      assert s == b;
    } else if n < |a| {
      TokenStays(a, b);
      assert s[n..] == a[n..] + b;
      LexConcat(a[n..], b);
    } else if Apart(a, b) {
      TokenStays(a, b);
      assert s[n..] == b;
      NoTokens(a[n..]);
    } else {
      TokenGrows(a, b);
      var m := TokenLength(s);
      DigitTokens(b, m - n);
      assert s[m..] == b[m - n..];
      NoTokens(a[n..]);
    }
  }

  lemma NoTokens(s: string)
    requires s == ""
    ensures Lexes(s) && Tokens(s) == 0 && Literal(s) && Unescape(s) == ""
  {
  }

  lemma {:induction false} LiteralConcat(a: string, b: string)
    requires Literal(a) && Lexes(a) && Apart(a, b)
    ensures Literal(a + b) <==> Literal(b)
    ensures Literal(b) ==> Unescape(a + b) == Unescape(a) + Unescape(b)
    decreases |a|
  {
    hide TokenLength, TokenCode;
    if a == "" {
      assert a + b == b;
    } else {
      var n := TokenLength(a);
      TokenStays(a, b);
      assert (a + b)[n..] == a[n..] + b;
      LiteralConcat(a[n..], b);
    }
  }

  // ---------------------------------------------------------------------------
  // Doubling percent signs
  // ---------------------------------------------------------------------------

  lemma {:induction false} DoubledConcat(a: string, b: string)
    ensures Doubled(a + b) == Doubled(a) + Doubled(b)
  {
    if a == "" {
      assert a + b == b;
    } else {
      assert (a + b)[1..] == a[1..] + b;
      DoubledConcat(a[1..], b);
    }
  }

  // A numeric escape denotes a percent sign, which the script does not see.
  predicate EscapedPercent(s: string)
    requires Literal(s)
  {
    s != "" && ((s[0] == '\\' && TokenChar(s) == '%') || EscapedPercent(s[TokenLength(s)..]))
  }

  // A token stands by itself, and what follows it does not extend it.
  lemma TokenAlone(s: string)
    requires GoodToken(s)
    ensures
      var t := s[..TokenLength(s)];
      && GoodToken(t) && TokenLength(t) == |t| && TokenChar(t) == TokenChar(s)
      && (|t| < |s| ==> !Extends(t, s[|t|]))
      && (t == "%" || '%' !in t)
  {
    hide HexRun, Code;
    var n := TokenLength(s);
    var t := s[..n];
    if s[0] == '\\' {
      assert t[1..] == s[1..n] && t[1] == s[1];
      if !IsEscape(s[1]) {
        if IsOctalDigit(s[1]) {
          OctalRunAlone(s[1..]);
          assert s[1..][..n - 1] == t[1..] && t[1..n] == s[1..n];
        } else {
          HexRunAlone(s[2..]);
          assert s[2..][..n - 2] == t[2..] && t[2..n] == s[2..n];
        }
      }
    }
  }

  lemma OctalRunAlone(s: string)
    ensures
      var n := OctalRun(s);
      OctalRun(s[..n]) == n && (n < 3 && n < |s| ==> !IsOctalDigit(s[n])) && '%' !in s[..n]
  {
  }

  lemma {:induction false} HexRunAlone(s: string)
    ensures
      var n := HexRun(s);
      HexRun(s[..n]) == n && (n < |s| ==> !IsHexDigit(s[n])) && '%' !in s[..n]
  {
    if s != "" && IsHexDigit(s[0]) {
      var n := HexRun(s);
      HexRunAlone(s[1..]);
      assert s[..n][1..] == s[1..][..n - 1] && s[..n] == [s[0]] + s[1..][..n - 1];
    }
  }

  lemma TokenIsLiteral(t: string)
    requires GoodToken(t) && TokenLength(t) == |t|
    ensures Lexes(t) && LastToken(t) == t && Literal(t) && Unescape(t) == [TokenChar(t)]
  {
    hide TokenLength, TokenCode;
    assert t[|t|..] == "";
    NoTokens(t[|t|..]);
  }

  lemma {:induction false} NothingToDouble(s: string)
    requires '%' !in s
    ensures Doubled(s) == s
  {
    if s != "" { NothingToDouble(s[1..]); }
  }

  lemma PercentDoubled()
    ensures Doubled("%") == "%%" && Lexes("%%") && LastToken("%%") == "%" && Literal("%%") && Unescape("%%") == "%%"
  {
    assert "%"[1..] == "" && "%%"[1..] == "%";
  }

  // The doubled text of one token denotes the doubled character, unless the token is an escape for it.
  lemma TokenDoubled(t: string)
    requires GoodToken(t) && TokenLength(t) == |t| && (t == "%" || '%' !in t)
    ensures
      var d := Doubled(t);
      && Lexes(d) && Literal(d) && d != "" && LastToken(d) == t
      && if t[0] == '\\' && TokenChar(t) == '%' then |Unescape(d)| < |Doubled([TokenChar(t)])|
         else Unescape(d) == Doubled([TokenChar(t)])
  {
    hide TokenLength, TokenCode, Literal, Lexes, LastToken, Unescape;
    PercentDoubled();
    if t != "%" {
      NothingToDouble(t);
      TokenIsLiteral(t);
      if TokenChar(t) != '%' { NothingToDouble([TokenChar(t)]); }
    }
  }

  lemma DoubledHead(s: string)
    ensures if s == "" then Doubled(s) == "" else Doubled(s) != "" && Doubled(s)[0] == s[0]
  {
  }

  // Doubling the percent signs of the source text doubles those of the string it denotes, exactly when
  // none of them is written as an escape.
  lemma {:induction false} LiteralDoubled(s: string)
    requires Literal(s)
    ensures Literal(Doubled(s))
    ensures if EscapedPercent(s) then |Unescape(Doubled(s))| < |Doubled(Unescape(s))|
            else Unescape(Doubled(s)) == Doubled(Unescape(s))
    decreases |s|
  {
    hide TokenLength, TokenCode, Lexes, LastToken, Doubled;
    DoubledHead("");
    if s != "" {
      var n := TokenLength(s);
      var t, rest := s[..n], s[n..];
      TokenAlone(s);
      LiteralDoubled(rest);
      TokenDoubled(t);
      assert s == t + rest;
      DoubledConcat(t, rest);
      DoubledHead(rest);
      LiteralConcat(Doubled(t), Doubled(rest));
      DoubledConcat([TokenChar(s)], Unescape(rest));
    }
  }

  // ---------------------------------------------------------------------------
  // Cutting a final newline
  // ---------------------------------------------------------------------------

  predicate EndsInNewline(t: string) { t != "" && t[|t| - 1] == '\n' }

  lemma LastTokenBehind(t: string, rest: string)
    requires GoodToken(t) && TokenLength(t) == |t| && rest != "" && Lexes(rest) && !Extends(t, rest[0])
    ensures Lexes(t + rest) && LastToken(t + rest) == LastToken(rest)
  {
    hide TokenCode, TokenLength;
    TokenStays(t, rest);
    assert (t + rest)[|t|..] == rest;
  }

  lemma {:induction false} SplitLast(s: string) returns (init: string, token: string)
    requires Literal(s) && s != ""
    ensures s == init + token && Literal(init) && Lexes(init) && Apart(init, token)
    ensures GoodToken(token) && TokenLength(token) == |token| && Literal(token) && Unescape(token) == [TokenChar(token)]
    ensures Unescape(s) == Unescape(init) + Unescape(token)
    decreases |s|
  {
    hide TokenLength, TokenCode, Lexes, LastToken;
    var n := TokenLength(s);
    var t := s[..n];
    TokenAlone(s);
    TokenIsLiteral(t);
    if n == |s| {
      init, token := "", s;
      assert t == s && "" + s == s;
      NoTokens("");
    } else {
      var rest;
      rest, token := SplitLast(s[n..]);
      init := t + rest;
      assert s == init + token;
      LiteralConcat(t, rest);
      LiteralLexes(init);
      LiteralLexes(rest);
      if rest != "" {
        assert rest[0] == s[n];
        LastTokenBehind(t, rest);
      } else {
        assert init == t && token[0] == s[n];
      }
      LiteralConcat(init, token);
    }
  }

  lemma TokenEnd(t: string)
    requires GoodToken(t) && TokenLength(t) == |t|
    ensures t[|t| - 1] == 'n' ==> t == "n" || t == "\\n"
    ensures t[|t| - 1] == '\\' ==> t == "\\\\"
  {
    hide OctalRun, HexRun, TokenCode;
    if t[0] == '\\' && !IsEscape(t[1]) {
      OctalRunDigits(t[1..]);
      HexRunDigits(t[2..]);
      assert IsHexDigit(t[|t| - 1]);
    }
  }

  // A text that ends in a backslash and n can lose them exactly when they are one escape.
  lemma {:induction false} StrippedLiteral(s: string)
    requires Literal(s) && EndsWithEscapedN(s)
    ensures Literal(s[..|s| - 2]) <==> EndsInNewline(Unescape(s))
    ensures EndsInNewline(Unescape(s)) ==> Unescape(s[..|s| - 2]) + "\n" == Unescape(s)
  {
    var init, token := SplitLast(s);
    TokenEnd(token);
    hide Unescape, Literal, Lexes, LastToken;
    if token == "\\n" {
      assert s[..|s| - 2] == init && TokenChar(token) == '\n';
    } else {
      assert token == "n" && TokenChar(token) == 'n';
      assert init != "" && init[|init| - 1] == '\\' && s[..|s| - 2] == init[..|init| - 1];
      DanglingBackslash(init);
    }
  }

  lemma DanglingBackslash(s: string)
    requires Literal(s) && s != "" && s[|s| - 1] == '\\'
    ensures !Literal(s[..|s| - 1])
  {
    hide TokenCode, Lexes, LastToken, Literal, Unescape, IsEscape;
    var init, token := SplitLast(s);
    assert token[|token| - 1] == s[|s| - 1];
    TokenEnd(token);
    assert s[..|s| - 1] == init + "\\";
    assert Apart(init, "\\");
    LiteralConcat(init, "\\");
    LoneBackslash();
  }

  lemma LoneBackslash()
    ensures !Literal("\\")
  {
  }

  // ---------------------------------------------------------------------------
  // A run of the replaced calls
  // ---------------------------------------------------------------------------

  datatype Call = Say(msg: string) | SayHex(v: nat) | SayDec(v: nat)

  predicate Fits(item: Line, call: Call) {
    match call
    case Say(msg) => item.Plain? && item.msg == msg && Literal(msg)
    case SayHex(v) => item.Hex? && v < UINT64_LIMIT
    case SayDec(v) => item.Dec? && v < UINT64_LIMIT
  }

  // The calls a group of lines makes when its arguments have these values.
  predicate Runs(group: seq<Line>, calls: seq<Call>) {
    |group| == |calls| && forall i :: 0 <= i < |group| ==> Fits(group[i], calls[i])
  }

  // What C reads of a string: up to its first zero byte.
  function UpToNul(t: string): string { if t == "" || t[0] == '\0' then "" else [t[0]] + UpToNul(t[1..]) }

  lemma {:induction false} NoNul(t: string)
    requires '\0' !in t
    ensures UpToNul(t) == t
  {
    if t != "" { NoNul(t[1..]); }
  }

  function UpperHex(v: nat): string { Upper(Padded(v, 16, 16)) }

  function SerialOne(c: Call): string
    requires c.Say? ==> Literal(c.msg)
  {
    match c
    case Say(msg) => UpToNul(Unescape(msg))
    case SayHex(v) => "0x" + UpperHex(v)
    case SayDec(v) => Digits(v, 10)
  }

  function KlogOne(c: Call): string
    requires c.Say? ==> Literal(c.msg)
  {
    match c
    case Say(msg) => UpToNul(Unescape(msg))
    case SayHex(v) => "0x" + Digits(v, 16)
    case SayDec(v) => Digits(v, 10)
  }

  predicate AllLiteral(calls: seq<Call>) { forall i :: 0 <= i < |calls| && calls[i].Say? ==> Literal(calls[i].msg) }

  // No literal has an escape for a zero byte.
  predicate NulFree(c: Call)
    requires c.Say? ==> Literal(c.msg)
  {
    c.Say? ==> '\0' !in Unescape(c.msg)
  }

  predicate AllNulFree(calls: seq<Call>)
    requires AllLiteral(calls)
  {
    forall i :: 0 <= i < |calls| ==> NulFree(calls[i])
  }

  // What the serial calls print, and what the klog call is to print.
  function SerialText(calls: seq<Call>): string
    requires AllLiteral(calls)
  {
    if calls == [] then "" else SerialText(calls[..|calls| - 1]) + SerialOne(calls[|calls| - 1])
  }

  function KlogText(calls: seq<Call>): string
    requires AllLiteral(calls)
  {
    if calls == [] then "" else KlogText(calls[..|calls| - 1]) + KlogOne(calls[|calls| - 1])
  }

  function KlogArgs(calls: seq<Call>): seq<Arg> {
    if calls == [] then []
    else
      var last := calls[|calls| - 1];
      KlogArgs(calls[..|calls| - 1]) + if last.Say? then [] else [Num(last.v)]
  }

  // ---------------------------------------------------------------------------
  // The generated format as a sequence of directives
  // ---------------------------------------------------------------------------

  const PERCENT := Dir("", Absent, Absent, 0, '%')
  const LONG_HEX := Dir("", Absent, Absent, 1, 'x')
  const LONG_DEC := Dir("", Absent, Absent, 1, 'u')

  function CharPieces(t: string): seq<Piece> {
    if t == "" then [] else CharPieces(t[..|t| - 1]) + [if t[|t| - 1] == '%' then PERCENT else Lit(t[|t| - 1])]
  }

  function CallPieces(c: Call): seq<Piece>
    requires c.Say? ==> Literal(c.msg)
  {
    match c
    case Say(msg) => CharPieces(Unescape(msg))
    case SayHex(_) => [Lit('0'), Lit('x'), LONG_HEX]
    case SayDec(_) => [LONG_DEC]
  }

  function AllPieces(calls: seq<Call>): seq<Piece>
    requires AllLiteral(calls)
  {
    if calls == [] then [] else AllPieces(calls[..|calls| - 1]) + CallPieces(calls[|calls| - 1])
  }

  lemma {:induction false} FormatTextConcat(a: seq<Piece>, b: seq<Piece>)
    ensures FormatText(a + b) == FormatText(a) + FormatText(b)
  {
    if a == [] {
      assert a + b == b;
    } else {
      assert (a + b)[1..] == a[1..] + b;
      FormatTextConcat(a[1..], b);
    }
  }

  lemma PrependAssoc(a: string, b: string, r: Option<Rendered>)
    ensures Prepend(a, Prepend(b, r)) == Prepend(a + b, r)
  {
    if r.Some? { assert a + (b + r.value.text) == a + b + r.value.text; }
  }

  lemma PrependToNothing(a: string, args: seq<Arg>)
    ensures Prepend(a, Some(Rendered("", args))) == Some(Rendered(a, args))
    ensures Prepend("", Some(Rendered(a, args))) == Some(Rendered(a, args))
  {
    assert a + "" == a && "" + a == a;
  }

  // Meanings compose: the second part continues with the arguments the first one left.
  lemma {:induction false} MeaningConcat(a: seq<Piece>, b: seq<Piece>, args: seq<Arg>)
    ensures
      match Meaning(a, args)
      case None => Meaning(a + b, args) == None
      case Some(r) => Meaning(a + b, args) == Prepend(r.text, Meaning(b, r.args))
    decreases |a|
  {
    hide Settings, Convert;
    if a == [] {
      assert a + b == b;
      if Meaning(b, args).Some? { PrependToNothing(Meaning(b, args).value.text, Meaning(b, args).value.args); }
    } else {
      assert (a + b)[1..] == a[1..] + b && (a + b)[0] == a[0];
      if a[0].Lit? {
        MeaningConcat(a[1..], b, args);
        var later := Meaning(a[1..], args);
        if later.Some? { PrependAssoc([a[0].c], later.value.text, Meaning(b, later.value.args)); }
      } else if Settings(a[0], args).Some? {
        var c := Convert(Settings(a[0], args).value, a[0].conv);
        if c.Some? {
          MeaningConcat(a[1..], b, c.value.args);
          var later := Meaning(a[1..], c.value.args);
          if later.Some? { PrependAssoc(c.value.text, later.value.text, Meaning(b, later.value.args)); }
        }
      }
    }
  }

  lemma SmallTexts()
    ensures PieceText(PERCENT) == "%%" && PieceText(LONG_HEX) == "%lx" && PieceText(LONG_DEC) == "%lu"
    ensures forall p :: FormatText([p]) == PieceText(p)
  {
    assert Repeat('l', 0) == "" && Repeat('l', 1) == "l";
    forall p ensures FormatText([p]) == PieceText(p) {
      assert [p][1..] == [];
      assert FormatText([p]) == PieceText(p) + FormatText([]);
    }
  }

  lemma MeaningOfPercent(args: seq<Arg>)
    ensures Meaning([PERCENT], args) == Some(Rendered("%", args))
  {
    assert [PERCENT][1..] == [];
    PrependToNothing("%", args);
    assert Settings(PERCENT, args) == Some(Spec(NO_FLAGS, 0, -1, false, "%", args));
  }

  lemma MeaningOfLong(p: Piece, v: nat, args: seq<Arg>)
    requires (p == LONG_HEX || p == LONG_DEC) && v < UINT64_LIMIT
    ensures Meaning([p], [Num(v)] + args) == Some(Rendered(Digits(v, if p == LONG_HEX then 16 else 10), args))
  {
    hide Digits;
    assert [p][1..] == [];
    var all := [Num(v)] + args;
    assert Settings(p, all) == Some(Spec(NO_FLAGS, 0, -1, true, [p.conv], all));
    assert all[1..] == args && AsUlong(v) == v;
    var base := if p == LONG_HEX then 16 else 10;
    PrependToNothing(Digits(v, base), args);
    assert Repeat(' ', 0 - |Digits(v, base)|) + Digits(v, base) == Digits(v, base);
  }

  lemma NoPieces(args: seq<Arg>)
    ensures FormatText([]) == Doubled("") == "" && Meaning([], args) == Some(Rendered("", args))
  {
  }

  lemma OneChar(c: char, args: seq<Arg>)
    ensures
      var p := if c == '%' then PERCENT else Lit(c);
      FormatText([p]) == Doubled([c]) && Meaning([p], args) == Some(Rendered([c], args)) && WellFormed(p)
  {
    SmallTexts();
    assert [c][1..] == "";
    if c == '%' {
      MeaningOfPercent(args);
    } else {
      assert [Lit(c)][1..] == [];
      NoPieces(args);
      PrependToNothing([c], args);
    }
  }

  lemma {:induction false} CharPiecesMeaning(t: string, args: seq<Arg>)
    ensures FormatText(CharPieces(t)) == Doubled(t)
    ensures Meaning(CharPieces(t), args) == Some(Rendered(t, args))
    ensures forall p :: p in CharPieces(t) ==> WellFormed(p)
  {
    hide Meaning, Doubled, FormatText, WellFormed;
    if t == "" {
      NoPieces(args);
    } else {
      var n := |t| - 1;
      var c := t[n];
      var init, p := CharPieces(t[..n]), if c == '%' then PERCENT else Lit(c);
      CharPiecesMeaning(t[..n], args);
      OneChar(c, args);
      FormatTextConcat(init, [p]);
      MeaningConcat(init, [p], args);
      DoubledConcat(t[..n], [c]);
      assert t == t[..n] + [c];
    }
  }

  lemma CallPiecesMeaning(c: Call, args: seq<Arg>)
    requires if c.Say? then Literal(c.msg) && NulFree(c) else c.v < UINT64_LIMIT
    ensures Meaning(CallPieces(c), (if c.Say? then [] else [Num(c.v)]) + args) == Some(Rendered(KlogOne(c), args))
    ensures forall p :: p in CallPieces(c) ==> WellFormed(p)
  {
    hide Meaning;
    match c
    case Say(msg) =>
      NoNul(Unescape(msg));
      CharPiecesMeaning(Unescape(msg), args);
      assert [] + args == args;
    case SayHex(v) =>
      var all := [Num(v)] + args;
      MeaningOfLong(LONG_HEX, v, args);
      CharPiecesMeaning("0x", all);
      assert CharPieces("0x") == [Lit('0'), Lit('x')] by {
        assert "0x"[..1] == "0" && "0"[..0] == "";
      }
      MeaningConcat([Lit('0'), Lit('x')], [LONG_HEX], all);
      assert [Lit('0'), Lit('x')] + [LONG_HEX] == CallPieces(c);
    case SayDec(v) =>
      MeaningOfLong(LONG_DEC, v, args);
  }

  // The arguments of a run, followed by any others, are consumed exactly.
  lemma {:induction false} AllPiecesMeaning(calls: seq<Call>, args: seq<Arg>)
    requires AllLiteral(calls) && AllNulFree(calls)
    requires forall i :: 0 <= i < |calls| && !calls[i].Say? ==> calls[i].v < UINT64_LIMIT
    ensures Meaning(AllPieces(calls), KlogArgs(calls) + args) == Some(Rendered(KlogText(calls), args))
    ensures forall p :: p in AllPieces(calls) ==> WellFormed(p)
    decreases |calls|
  {
    hide Meaning, CallPieces, KlogOne, WellFormed, Literal, Unescape;
    if calls == [] {
      NoPieces(args);
      assert [] + args == args;
    } else {
      var n := |calls| - 1;
      var own := if calls[n].Say? then [] else [Num(calls[n].v)];
      AllPiecesMeaning(calls[..n], own + args);
      CallPiecesMeaning(calls[n], args);
      assert KlogArgs(calls) + args == KlogArgs(calls[..n]) + (own + args);
      MeaningConcat(AllPieces(calls[..n]), CallPieces(calls[n]), KlogArgs(calls) + args);
    }
  }

  // No percent sign of the line's literal is written as an escape.
  predicate CleanItem(item: Line) { item.Plain? ==> Literal(item.msg) && !EscapedPercent(item.msg) }

  // Nor does an escape at the end of one line's text go on in the next one's.
  predicate Clean(group: seq<Line>) {
    group == [] ||
    var n := |group| - 1;
    Clean(group[..n]) && CleanItem(group[n]) && Apart(JoinedFormat(group[..n]), FormatOf(group[n]))
  }

  lemma CallFormat(item: Line, c: Call)
    requires Fits(item, c)
    ensures Literal(FormatOf(item))
    ensures if CleanItem(item) then Unescape(FormatOf(item)) == FormatText(CallPieces(c))
            else |Unescape(FormatOf(item))| < |FormatText(CallPieces(c))|
  {
    hide Literal, Unescape, TokenLength;
    match c
    case Say(msg) =>
      LiteralDoubled(msg);
      CharPiecesMeaning(Unescape(msg), []);
    case SayHex(_) =>
      SmallTexts();
      FormatTextConcat([Lit('0')], [Lit('x'), LONG_HEX]);
      FormatTextConcat([Lit('x')], [LONG_HEX]);
      assert [Lit('0')] + [Lit('x'), LONG_HEX] == CallPieces(c) && [Lit('x')] + [LONG_HEX] == [Lit('x'), LONG_HEX];
      PlainText("0x%lx");
    case SayDec(_) =>
      SmallTexts();
      PlainText("%lu");
  }

  // Text without escapes denotes itself.
  lemma {:induction false} PlainText(s: string)
    requires forall i :: 0 <= i < |s| ==> s[i] != '\\' && s[i] != '"' && s[i] != '\n' && s[i] != '\0'
    ensures Literal(s) && Unescape(s) == s
  {
    if s != "" { PlainText(s[1..]); }
  }

  // The joined text denotes the intended format exactly when the group is clean; otherwise it has
  // fewer characters and escapes than that format has characters.
  lemma {:induction false} GroupFormat(group: seq<Line>, calls: seq<Call>)
    requires Runs(group, calls)
    ensures AllLiteral(calls)
    ensures
      var fmt, intended := JoinedFormat(group), FormatText(AllPieces(calls));
      Lexes(fmt) && if Clean(group) then Literal(fmt) && Unescape(fmt) == intended else Tokens(fmt) < |intended|
    decreases |group|
  {
    hide Literal, Unescape, Lexes, Tokens, FormatText, FormatOf, CallPieces, Apart, CleanItem;
    if group == [] {
      NoTokens("");
      NoPieces([]);
    } else {
      var n := |group| - 1;
      var before, last := JoinedFormat(group[..n]), FormatOf(group[n]);
      GroupFormat(group[..n], calls[..n]);
      CallFormat(group[n], calls[n]);
      LiteralLexes(last);
      LexConcat(before, last);
      FormatTextConcat(AllPieces(calls[..n]), CallPieces(calls[n]));
      if Clean(group[..n]) {
        LiteralLexes(before);
        if Apart(before, last) { LiteralConcat(before, last); }
      }
    }
  }

  // ---------------------------------------------------------------------------
  // What the rewriting keeps
  // ---------------------------------------------------------------------------

  function MinusNewline(t: string): string { if EndsInNewline(t) then t[..|t| - 1] else t }

  // A format and its text end in a newline together.
  lemma {:induction false} NewlineAtEnd(ps: seq<Piece>, args: seq<Arg>)
    requires ps != [] && ps[|ps| - 1] == Lit('\n') && Meaning(ps, args).Some?
    ensures
      var init := ps[..|ps| - 1];
      && FormatText(init) + "\n" == FormatText(ps)
      && Meaning(init, args).Some? && Meaning(init, args).value.args == Meaning(ps, args).value.args
      && Meaning(init, args).value.text + "\n" == Meaning(ps, args).value.text
  {
    var init := ps[..|ps| - 1];
    assert ps == init + [Lit('\n')];
    hide Meaning, FormatText;
    FormatTextConcat(init, [Lit('\n')]);
    MeaningConcat(init, [Lit('\n')], args);
    SmallTexts();
    if Meaning(init, args).Some? {
      OneChar('\n', Meaning(init, args).value.args);
      OneChar('\n', Meaning(ps, args).value.args);
    }
  }

  // How the pieces of a stretch of calls end, next to how its text ends.
  ghost predicate EndsAlike(ps: seq<Piece>, text: string) {
    && (EndsInNewline(text) <==> ps != [] && ps[|ps| - 1] == Lit('\n'))
    && (ps == [] <==> text == "")
    && (ps != [] ==> ps[|ps| - 1] in {LONG_HEX, LONG_DEC, PERCENT} || ps[|ps| - 1].Lit?)
  }

  lemma EndsAlikeConcat(a: seq<Piece>, s: string, b: seq<Piece>, t: string)
    requires EndsAlike(a, s) && EndsAlike(b, t)
    ensures EndsAlike(a + b, s + t)
  {
    if b == [] { assert a + b == a && s + t == s; }
  }

  lemma CallEndsAlike(c: Call)
    requires c.Say? ==> Literal(c.msg)
    requires NulFree(c)
    ensures EndsAlike(CallPieces(c), KlogOne(c))
  {
    hide Unescape, Literal;
    match c
    case Say(msg) => NoNul(Unescape(msg));
    case SayHex(v) => assert IsDigit(Digits(v, 16)[|Digits(v, 16)| - 1], 16);
    case SayDec(v) => assert IsDigit(Digits(v, 10)[|Digits(v, 10)| - 1], 10);
  }

  lemma {:induction false} CallsEndAlike(calls: seq<Call>)
    requires AllLiteral(calls) && AllNulFree(calls)
    ensures EndsAlike(AllPieces(calls), KlogText(calls))
    decreases |calls|
  {
    hide CallPieces, KlogOne;
    if calls != [] {
      var n := |calls| - 1;
      CallsEndAlike(calls[..n]);
      CallEndsAlike(calls[n]);
      EndsAlikeConcat(AllPieces(calls[..n]), KlogText(calls[..n]), CallPieces(calls[n]), KlogOne(calls[n]));
    }
  }

  lemma TextEndOfFormat(ps: seq<Piece>)
    requires ps != [] ==> ps[|ps| - 1] in {LONG_HEX, LONG_DEC, PERCENT} || ps[|ps| - 1].Lit?
    ensures EndsInNewline(FormatText(ps)) <==> ps != [] && ps[|ps| - 1] == Lit('\n')
  {
    hide FormatText;
    NoPieces([]);
    if ps != [] {
      var last := ps[|ps| - 1];
      assert ps == ps[..|ps| - 1] + [last];
      FormatTextConcat(ps[..|ps| - 1], [last]);
      SmallTexts();
    }
  }

  // What the klog call is to print: the trailing newline goes if it is written as \n.
  function Expected(group: seq<Line>, calls: seq<Call>): string
    requires AllLiteral(calls)
  {
    if EndsWithEscapedN(JoinedFormat(group)) then MinusNewline(KlogText(calls)) else KlogText(calls)
  }

  // The generated literal, before the cut, denotes the replaced text with its percent signs doubled
  // and a directive for each number exactly when the group is clean.  Then the cut leaves a literal
  // exactly when a final backslash and n are one escape, and the klog call prints what it is to
  // print, percent signs included, with no argument left over.
  lemma {:induction false} RewritingKeepsMeaning(group: seq<Line>, calls: seq<Call>)
    requires Runs(group, calls)
    ensures AllLiteral(calls)
    ensures
      var fmt := JoinedFormat(group);
      Literal(fmt) && Unescape(fmt) == FormatText(AllPieces(calls)) <==> Clean(group)
    ensures Clean(group) && AllNulFree(calls) ==>
      var fmt := JoinedFormat(group);
      var out := StripTrailingNewline(fmt);
      && (Literal(out) <==> (EndsWithEscapedN(fmt) ==> EndsInNewline(KlogText(calls))))
      && (Literal(out) ==> Render(Unescape(out), KlogArgs(calls)) == Some(Rendered(Expected(group, calls), [])))
  {
    hide Literal, Unescape, Lexes, Tokens, FormatText, Meaning, AllPieces, JoinedFormat, KlogText, KlogArgs, Render, WellFormed, Clean;
    var fmt := JoinedFormat(group);
    GroupFormat(group, calls);
    if Literal(fmt) { LiteralLexes(fmt); }
    if Clean(group) && AllNulFree(calls) {
      CleanKeepsMeaning(group, calls);
    }
  }

  lemma {:induction false} CleanKeepsMeaning(group: seq<Line>, calls: seq<Call>)
    requires Runs(group, calls) && AllLiteral(calls) && Clean(group) && AllNulFree(calls)
    ensures
      var fmt := JoinedFormat(group);
      var out := StripTrailingNewline(fmt);
      && (Literal(out) <==> (EndsWithEscapedN(fmt) ==> EndsInNewline(KlogText(calls))))
      && (Literal(out) ==> Render(Unescape(out), KlogArgs(calls)) == Some(Rendered(Expected(group, calls), [])))
  {
    hide Literal, Unescape, Lexes, Tokens, FormatText, Meaning, AllPieces, JoinedFormat, KlogText, KlogArgs, Render, WellFormed, Clean;
    var fmt := JoinedFormat(group);
    GroupFormat(group, calls);
    var ps, args := AllPieces(calls), KlogArgs(calls);
    AllPiecesMeaning(calls, []);
    assert args + [] == args;
    CallsEndAlike(calls);
    TextEndOfFormat(ps);
    RenderIsMeaning(ps, args);
    if EndsWithEscapedN(fmt) {
      StrippedLiteral(fmt);
      if EndsInNewline(KlogText(calls)) {
        NewlineAtEnd(ps, args);
        var init := ps[..|ps| - 1];
        assert forall p :: p in init ==> p in ps;
        RenderIsMeaning(init, args);
        SnocInjective(Unescape(fmt[..|fmt| - 2]), FormatText(init), '\n');
      }
    }
  }

  // The literal of a backslash and an n loses its last two characters and is no literal any more.
  lemma EscapedBackslashIsCut()
    ensures Literal("\\\\n") && !Literal(StripTrailingNewline("\\\\n"))
  {
    assert "\\\\n"[2..] == "n" && "n"[1..] == "" && "\\\\n"[..1] == "\\";
  }

  // One octal escape.
  lemma OctalEscape(digits: string)
    requires 0 < |digits| <= 3 && (forall i :: 0 <= i < |digits| ==> IsOctalDigit(digits[i])) && Code(digits, 8) < 256
    ensures
      var t := "\\" + digits;
      Lexes(t) && LastToken(t) == t && Literal(t) && Unescape(t) == [Code(digits, 8) as char]
  {
    hide Code;
    var t := "\\" + digits;
    assert t[1..] == digits && t[1..|t|] == digits && t[1] == digits[0];
    TokenIsLiteral(t);
  }

  lemma OctalCodes()
    ensures Code("0", 8) == 0 && Code("4", 8) == 4 && Code("41", 8) == '!' as int && Code("45", 8) == '%' as int
  {
    assert "0"[..0] == "" && "4"[..0] == "" && "41"[..1] == "4" && "45"[..1] == "4";
  }

  lemma JoinedTwo(a: string, b: string)
    requires '%' !in a && '%' !in b
    ensures JoinedFormat([Plain("", a)]) == a && JoinedFormat([Plain("", a), Plain("", b)]) == a + b
  {
    var group := [Plain("", a), Plain("", b)];
    assert group[..1] == [Plain("", a)];
    SimpleLineFormat(group[0]);
    NothingToDouble(b);
  }

  // The escape \4 and the digit 1 of the next call become the escape \41, an exclamation mark.
  lemma EscapeGoesOn()
    ensures
      var a, b := "\\" + "4", "1";
      && Literal(a) && Unescape(a) == [4 as char] && Literal(b) && Unescape(b) == "1"
      && JoinedFormat([Plain("", a), Plain("", b)]) == a + b && Literal(a + b) && Unescape(a + b) == "!"
  {
    hide JoinedFormat, Literal, Unescape, Lexes, LastToken, Code;
    var a, b := "\\" + "4", "1";
    JoinedTwo(a, b);
    OctalCodes();
    OctalEscape("4");
    OctalEscape("41");
    PlainText(b);
    assert a + b == "\\" + "41";
  }

  // The escape \45 denotes a percent sign, and klog reads it as the start of a directive.
  lemma EscapedPercentIsRead()
    ensures
      var a := "\\" + "45" + "d";
      && Literal(a) && Unescape(a) == "%d" && JoinedFormat([Plain("", a)]) == a
      && Render(Unescape(a), []).None?
  {
    hide JoinedFormat, Literal, Unescape, Lexes, LastToken, Code, Render;
    var a := "\\" + "45" + "d";
    JoinedTwo(a, "");
    OctalCodes();
    OctalEscape("45");
    PlainText("d");
    LiteralConcat("\\" + "45", "d");
    RenderMissing();
  }

  lemma RenderMissing()
    ensures Render("%d", []).None?
  {
    assert "%d"[1..] == "d";
  }

  // A zero byte ends the klog call's format, and what the next call said is lost.
  lemma NulCutsTheRest()
    ensures
      var a, b := "a" + ("\\" + "0"), "b";
      var group, calls := [Plain("", a), Plain("", b)], [Say(a), Say(b)];
      && Runs(group, calls) && AllLiteral(calls) && KlogText(calls) == "ab"
      && Literal(JoinedFormat(group)) && UpToNul(Unescape(JoinedFormat(group))) == "a"
  {
    hide JoinedFormat, Literal, Unescape, Lexes, LastToken, Code;
    var nul := "\\" + "0";
    var a, b := "a" + nul, "b";
    JoinedTwo(a, b);
    OctalCodes();
    OctalEscape("0");
    PlainText("a");
    PlainText(b);
    PlainApart("a", nul);
    LiteralConcat("a", nul);
    assert !Extends(nul, 'b');
    LiteralConcat(nul, b);
    LiteralConcat("a", nul + b);
    assert a + b == "a" + (nul + b);
    UpToFirst("a", "");
    UpToFirst("a", "b");
    NoNul("b");
    assert Unescape(a) == "a" + ['\0'] + "";
    TwoCalls(a, b);
    assert "a" + "b" == "ab";
  }

  lemma TwoCalls(a: string, b: string)
    requires Literal(a) && Literal(b)
    ensures AllLiteral([Say(a), Say(b)]) && KlogText([Say(a), Say(b)]) == KlogOne(Say(a)) + KlogOne(Say(b))
  {
    hide Literal, KlogOne;
    var calls := [Say(a), Say(b)];
    assert calls[..1] == [Say(a)] && [Say(a)][..0] == [];
    assert KlogText([]) == "";
    assert KlogText([Say(a)]) == "" + KlogOne(Say(a)) == KlogOne(Say(a));
  }

  lemma UpToFirst(t: string, rest: string)
    requires |t| == 1 && t[0] != '\0'
    ensures UpToNul(t + ['\0'] + rest) == t
  {
    var s := t + ['\0'] + rest;
    assert s[1..][0] == '\0' && [s[0]] + "" == t;
  }

  lemma PlainApart(a: string, b: string)
    requires |a| == 1 && TokenLength(a) == 1
    ensures Lexes(a) && Apart(a, b)
  {
    assert a[1..] == "";
  }

  lemma SnocInjective(a: string, b: string, c: char)
    requires a + [c] == b + [c]
    ensures a == b
  {
    assert (a + [c])[..|a|] == a && (b + [c])[..|a|] == b;
  }

  // A single line without '%' is the same with a group of one.
  lemma {:induction false} SimpleLineFormat(item: Line)
    requires item.Plain? && '%' !in item.msg
    ensures JoinedFormat([item]) == item.msg
  {
    NothingToDouble(item.msg);
    assert [item][..0] == [];
    assert JoinedFormat([item]) == "" + Doubled(item.msg);
  }

  // ---------------------------------------------------------------------------
  // Against the serial driver's own output
  // ---------------------------------------------------------------------------

  // serial_write_hex prints sixteen upper-case digits, klog's %lx the shortest lower-case numeral.
  predicate SameEitherWay(v: nat) {
    v >= 0x1000_0000_0000_0000 && forall c :: c in Digits(v, 16) ==> '0' <= c <= '9'
  }

  lemma UpperFixed(d: string)
    requires forall i :: 0 <= i < |d| ==> IsDigit(d[i], 16)
    ensures d == Upper(d) <==> forall c :: c in d ==> '0' <= c <= '9'
  {
    var u := Upper(d);
    assert forall i :: 0 <= i < |d| ==> (d[i] == u[i] <==> '0' <= d[i] <= '9');
    if d == u {
      forall c | c in d ensures '0' <= c <= '9' {
        var i :| 0 <= i < |d| && d[i] == c;
      }
    }
    if forall c :: c in d ==> '0' <= c <= '9' {
      assert forall i :: 0 <= i < |d| ==> d[i] in d;
      assert d == u;
    }
  }

  lemma HexSameEitherWay(v: nat)
    requires v < UINT64_LIMIT
    ensures |Digits(v, 16)| <= |UpperHex(v)| == 16
    ensures Digits(v, 16) == UpperHex(v) <==> SameEitherWay(v)
  {
    hide Digits, Upper, Pow;
    var d := Digits(v, 16);
    PowersOf64Bits();
    Uint64DigitCount(v, 16);
    PaddedReadsBack(v, 16, 16);
    DigitCount(v, 16, 15);
    assert |d| == 16 ==> Repeat('0', 0) + d == d;
    UpperLength(Padded(v, 16, 16));
    UpperFixed(d);
  }

  // The value 255 comes out as ff from one and as 00000000000000FF from the other.
  lemma HexTextsDiffer()
    ensures Digits(255, 16) == "ff" && KlogText([SayHex(255)]) != SerialText([SayHex(255)])
  {
    assert AllLiteral([SayHex(255)]);
    assert Digits(255, 16) == Digits(15, 16) + [DigitChar(15)];
    assert Digits(15, 16) == [DigitChar(15)];
    assert !SameEitherWay(255);
    TextsAgreeIff([SayHex(255)]);
    assert [SayHex(255)][0].SayHex?;
  }

  lemma UpperLength(s: string)
    ensures |Upper(s)| == |s|
  {
  }

  lemma {:induction false} SerialIsLonger(calls: seq<Call>)
    requires AllLiteral(calls) && forall i :: 0 <= i < |calls| && !calls[i].Say? ==> calls[i].v < UINT64_LIMIT
    ensures |KlogText(calls)| <= |SerialText(calls)|
    decreases |calls|
  {
    if calls != [] {
      var n := |calls| - 1;
      SerialIsLonger(calls[..n]);
      if calls[n].SayHex? { HexSameEitherWay(calls[n].v); }
    }
  }

  // The two texts agree character for character exactly when every hexadecimal value fills sixteen
  // digits and uses none of the letters.
  lemma {:induction false} TextsAgreeIff(calls: seq<Call>)
    requires AllLiteral(calls) && forall i :: 0 <= i < |calls| && !calls[i].Say? ==> calls[i].v < UINT64_LIMIT
    ensures KlogText(calls) == SerialText(calls) <==> AllSame(calls)
    decreases |calls|
  {
    hide SameEitherWay, KlogOne, SerialOne, AllSame;
    if calls == [] {
      NoCallsAgree();
    } else {
      var n := |calls| - 1;
      var init := calls[..n];
      TextsAgreeIff(init);
      SerialIsLonger(init);
      OneCallAgreesIff(calls[n]);
      ConcatEqual(KlogText(init), KlogOne(calls[n]), SerialText(init), SerialOne(calls[n]));
      AllHexSplit(calls);
    }
  }

  predicate AllSame(calls: seq<Call>) { forall i :: 0 <= i < |calls| && calls[i].SayHex? ==> SameEitherWay(calls[i].v) }

  lemma NoCallsAgree()
    ensures AllSame([])
  {
  }

  lemma AllHexSplit(calls: seq<Call>)
    requires calls != []
    ensures
      var n := |calls| - 1;
      AllSame(calls) <==> AllSame(calls[..n]) && (calls[n].SayHex? ==> SameEitherWay(calls[n].v))
  {
    hide SameEitherWay;
    var n := |calls| - 1;
    assert forall i :: 0 <= i < n ==> calls[..n][i] == calls[i];
  }

  lemma OneCallAgreesIff(c: Call)
    requires c.Say? ==> Literal(c.msg)
    requires !c.Say? ==> c.v < UINT64_LIMIT
    ensures |KlogOne(c)| <= |SerialOne(c)|
    ensures KlogOne(c) == SerialOne(c) <==> (c.SayHex? ==> SameEitherWay(c.v))
  {
    hide SameEitherWay, UpperHex, Digits, Unescape;
    if c.SayHex? {
      HexSameEitherWay(c.v);
      assert KlogOne(c)[2..] == Digits(c.v, 16) && SerialOne(c)[2..] == UpperHex(c.v);
    }
  }

  lemma ConcatEqual(a: string, x: string, b: string, y: string)
    requires |a| <= |b| && |x| <= |y|
    ensures a + x == b + y <==> a == b && x == y
  {
    if a + x == b + y {
      assert |a| == |b|;
      assert a == (a + x)[..|a|] && b == (b + y)[..|a|];
      assert x == (a + x)[|a|..] && y == (b + y)[|a|..];
    }
  }
}
