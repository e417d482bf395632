/**
 The shell's JSON strings: json_append writes one into a bounded buffer
 (user/gash.c:1799-1824), jsmn_parse_string finds its end (user/json.c:89-157) and the
 loop of cmd_ai prints what it stands for (user/gash.c:2091-2102).
 */
module JsonEscape {

  function Escape(c: char): (r: string)
    ensures |r| == 1 || |r| == 2
  {
    if c == '"' || c == '\\' then ['\\', c]
    else if c == '\n' then ['\\', 'n']
    else if c == '\r' then ['\\', 'r']
    else if c == '\t' then ['\\', 't']
    else [c]
  }

  function Escaped(s: string): string { if s == "" then "" else Escape(s[0]) + Escaped(s[1..]) }

  // How many characters json_append takes when `room` bytes are left, its NUL among them.
  function Taken(s: string, room: nat): (n: nat)
    ensures n <= |s|
  {
    if s == "" || |Escape(s[0])| >= room then 0 else 1 + Taken(s[1..], room - |Escape(s[0])|)
  }

  lemma {:induction false} EscapedSnoc(s: string, c: char)
    ensures Escaped(s + [c]) == Escaped(s) + Escape(c)
  {
    hide Escape;
    if s == "" {
      assert s + [c] == [c] && [c][1..] == "";
    } else {
      assert (s + [c])[1..] == s[1..] + [c];
      EscapedSnoc(s[1..], c);
    }
  }

  lemma {:induction false} EscapedConcat(s: string, t: string)
    ensures Escaped(s + t) == Escaped(s) + Escaped(t)
  {
    hide Escape;
    if s == "" {
      assert s + t == t;
    } else {
      assert (s + t)[1..] == s[1..] + t;
      EscapedConcat(s[1..], t);
    }
  }

  // The characters taken are the longest prefix whose escaped text leaves a byte for the NUL.
  lemma {:induction false} TakenIsLongest(s: string, room: nat, m: nat)
    requires room > 0 && m <= |s|
    ensures |Escaped(s[..m])| < room <==> m <= Taken(s, room)
  {
    hide Escape;
    if m > 0 {
      assert s[..m][1..] == s[1..][..m - 1];
      assert Escaped(s[..m]) == Escape(s[0]) + Escaped(s[1..][..m - 1]);
      if |Escape(s[0])| < room {
        TakenIsLongest(s[1..], room - |Escape(s[0])|, m - 1);
      }
    }
  }

  // ---------------------------------------------------------------------------
  // json_append
  // ---------------------------------------------------------------------------

  method PutPair(buf: array<char>, pos: nat, max: nat, c: char) returns (ok: bool)
    requires pos < max <= buf.Length
    modifies buf
    ensures ok <==> pos + 2 < max
    ensures ok ==> buf[pos] == '\\' && buf[pos + 1] == c
    ensures forall k :: 0 <= k < buf.Length && (!ok || k < pos || k >= pos + 2) ==> buf[k] == old(buf[k])
  {
    ok := pos + 2 < max;
    if ok { buf[pos], buf[pos + 1] := '\\', c; }
  }

  // One round of the loop: the character's escaped text if it and a NUL fit, nothing otherwise.
  method PutEscaped(buf: array<char>, pos: nat, max: nat, c: char) returns (ok: bool)
    requires pos + 1 < max <= buf.Length
    modifies buf
    ensures ok <==> pos + |Escape(c)| < max
    ensures ok ==> buf[pos..pos + |Escape(c)|] == Escape(c)
    ensures forall k :: 0 <= k < buf.Length && (!ok || k < pos || k >= pos + |Escape(c)|) ==> buf[k] == old(buf[k])
  {
    if c == '"' || c == '\\' {
      ok := PutPair(buf, pos, max, c);
    } else if c == '\n' {
      ok := PutPair(buf, pos, max, 'n');
    } else if c == '\r' {
      ok := PutPair(buf, pos, max, 'r');
    } else if c == '\t' {
      ok := PutPair(buf, pos, max, 't');
    } else {
      ok := true;
      buf[pos] := c;
    }
  }

  // The longest prefix of s that fits, escaped and NUL-terminated, and no other byte changed.
  method JsonAppend(buf: array<char>, pos: nat, max: nat, s: string) returns (end: nat)
    requires pos < max <= buf.Length && '\0' !in s
    modifies buf
    ensures end == pos + |Escaped(s[..Taken(s, max - pos)])| < max
    ensures buf[pos..end] == Escaped(s[..Taken(s, max - pos)]) && buf[end] == '\0'
    ensures forall k :: 0 <= k < buf.Length && (k < pos || k > end) ==> buf[k] == old(buf[k])
  {
    hide Escape, Escaped, Taken;
    end := pos;
    var i := 0;
    EscapedEmpty();
    while i < |s| && end + 1 < max
      invariant 0 <= i <= |s| && pos <= end < max && end == pos + |Escaped(s[..i])|
      invariant buf[pos..end] == Escaped(s[..i])
      invariant forall k :: 0 <= k < buf.Length && (k < pos || k >= end) ==> buf[k] == old(buf[k])
    {
      assert s[..i + 1] == s[..i] + [s[i]];
      EscapedSnoc(s[..i], s[i]);
      ghost var was := buf[pos..end];
      var ok := PutEscaped(buf, end, max, s[i]);
      assert buf[pos..end] == was;
      if !ok { break; }
      var next := end + |Escape(s[i])|;
      assert buf[pos..next] == buf[pos..end] + buf[end..next];
      end := next;
      i := i + 1;
    }
    Stopped(s, i, max - pos);
    assert s[..i] == s[..Taken(s, max - pos)];
    buf[end] := '\0';
  }

  lemma EscapedEmpty()
    ensures Escaped("") == ""
  {
  }

  // Stopping where the next character does not fit, or at the end, is stopping after the taken ones.
  lemma Stopped(s: string, i: nat, room: nat)
    requires i <= |s| && |Escaped(s[..i])| < room
    requires i < |s| ==> |Escaped(s[..i])| + 1 >= room || |Escaped(s[..i])| + |Escape(s[i])| >= room
    ensures i == Taken(s, room)
  {
    hide Escape, Escaped, Taken;
    TakenIsLongest(s, room, i);
    if i < |s| {
      assert s[..i + 1] == s[..i] + [s[i]];
      EscapedSnoc(s[..i], s[i]);
      TakenIsLongest(s, room, i + 1);
    }
  }

  // ---------------------------------------------------------------------------
  // The printing loop
  // ---------------------------------------------------------------------------

  // What a backslash followed by c prints, if the pair is known.
  predicate Known(c: char) { c == 'n' || c == 't' || c == '\\' || c == '"' }

  function Meant(c: char): char { if c == 'n' then '\n' else if c == 't' then '\t' else c }

  function Decode(t: string): string {
    if t == "" then ""
    else if t[0] == '\\' && |t| > 1 && Known(t[1]) then [Meant(t[1])] + Decode(t[2..])
    else [t[0]] + Decode(t[1..])
  }

  // What the loop prints at j, and where it goes on.
  lemma DecodeStep(response: string, j: nat, end: nat)
    requires j < end <= |response|
    ensures
      var pair := response[j] == '\\' && j + 1 < end && Known(response[j + 1]);
      Decode(response[j..end]) ==
      if pair then [Meant(response[j + 1])] + Decode(response[j + 2..end]) else [response[j]] + Decode(response[j + 1..end])
  {
    var t := response[j..end];
    assert t[0] == response[j] && t[1..] == response[j + 1..end];
    if j + 1 < end { assert t[1] == response[j + 1] && t[2..] == response[j + 2..end]; }
  }

  method PrintDecoded(response: string, start: nat, end: nat) returns (out: string)
    requires start <= end <= |response|
    ensures out == Decode(response[start..end])
  {
    hide Decode, Known, Meant;
    out := "";
    var j := start;
    assert out + Decode(response[j..end]) == Decode(response[start..end]);
    while j < end
      invariant start <= j <= end
      invariant out + Decode(response[j..end]) == Decode(response[start..end])
    {
      DecodeStep(response, j, end);
      ghost var before, was := out, j;
      var c := response[j];
      if c == '\\' && j + 1 < end && Known(response[j + 1]) {
        c := Meant(response[j + 1]);
        j := j + 1;
      }
      out := out + [c];
      j := j + 1;
      assert before + ([c] + Decode(response[j..end])) == out + Decode(response[j..end]);
    }
    assert response[j..end] == "";
    DecodeEmpty();
  }

  // What the printed form of s looks like: s, with each carriage return shown as a backslash and an r.
  function Shown(s: string): string {
    if s == "" then "" else (if s[0] == '\r' then "\\r" else [s[0]]) + Shown(s[1..])
  }

  lemma {:induction false} ShownLength(s: string)
    ensures |Shown(s)| >= |s| && (|Shown(s)| == |s| <==> '\r' !in s)
    ensures '\r' !in s ==> Shown(s) == s
  {
    if s != "" { ShownLength(s[1..]); }
  }

  lemma DecodeOne(c: char, t: string)
    ensures Decode(Escape(c) + t) == Shown([c]) + Decode(t)
  {
    var u := Escape(c) + t;
    assert Shown([c]) == (if c == '\r' then "\\r" else [c]) + Shown("") == if c == '\r' then "\\r" else [c];
    if c == '\r' {
      assert u[1..] == ['r'] + t && (['r'] + t)[1..] == t;
      assert Decode(u[1..]) == ['r'] + Decode(t);
      assert Decode(u) == ['\\'] + Decode(u[1..]);
    } else if |Escape(c)| == 2 {
      assert u[2..] == t;
    } else {
      assert u[1..] == t;
    }
  }

  lemma {:induction false} DecodeOfEscaped(s: string)
    ensures Decode(Escaped(s)) == Shown(s)
  {
    hide Escape, Decode;
    if s == "" {
      DecodeEmpty();
    } else {
      DecodeOne(s[0], Escaped(s[1..]));
      DecodeOfEscaped(s[1..]);
      assert [s[0]][1..] == "";
      assert Shown(s) == Shown([s[0]]) + Shown(s[1..]);
    }
  }

  lemma DecodeEmpty()
    ensures Decode("") == ""
  {
  }

  // Printing undoes escaping exactly for the strings without a carriage return.
  lemma {:induction false} RoundTripIff(s: string)
    ensures Decode(Escaped(s)) == s <==> '\r' !in s
  {
    DecodeOfEscaped(s);
    ShownLength(s);
  }

  lemma CarriageReturnIsLost()
    ensures Decode(Escaped("\r")) == "\\r" == Decode(Escaped("\\r"))
  {
    DecodeOfEscaped("\r");
    DecodeOfEscaped("\\r");
    assert Shown("\r") == "\\r" + Shown("") == "\\r";
    assert "\\r"[1..] == "r" && "r"[1..] == "";
    assert Shown("r") == "r" + Shown("") == "r";
    assert Shown("\\r") == "\\" + Shown("r") == "\\r";
  }

  // However little room there is, what was written prints as a prefix of s.  It is all of s
  // exactly when the escaped text leaves a byte for the NUL.
  lemma {:induction false} TruncationIsPrefix(s: string, room: nat)
    requires room > 0 && '\r' !in s
    ensures Decode(Escaped(s[..Taken(s, room)])) == s[..Taken(s, room)]
    ensures s[..Taken(s, room)] == s <==> |Escaped(s)| < room
  {
    hide Escape, Escaped, Decode, Taken;
    RoundTripIff(s[..Taken(s, room)]);
    TakenIsLongest(s, room, |s|);
    assert s[..|s|] == s;
  }

  // ---------------------------------------------------------------------------
  // jsmn_parse_string
  // ---------------------------------------------------------------------------

  datatype Scan = Closed(end: nat) | Invalid | Partial

  predicate IsHex(c: char) { '0' <= c <= '9' || 'A' <= c <= 'F' || 'a' <= c <= 'f' }

  predicate Simple(c: char) {
    c == '"' || c == '/' || c == '\\' || c == 'b' || c == 'f' || c == 'r' || c == 'n' || c == 't'
  }

  predicate Ended(js: string, p: nat) { p >= |js| || js[p] == '\0' }

  // Where up to n hexadecimal digits from p end, short only at the end of the text.
  function AfterHex(js: string, p: nat, n: nat): (q: int)
    ensures q == -1 || p <= q <= p + n
    decreases n
  {
    if n == 0 || Ended(js, p) then p else if IsHex(js[p]) then AfterHex(js, p + 1, n - 1) else -1
  }

  // The scan from inside a string: its closing quote, an unknown escape, or the end of the text.
  function ScanFrom(js: string, p: nat): (r: Scan)
    ensures r.Closed? ==> p <= r.end < |js| && js[r.end] == '"'
    decreases |js| - p
  {
    if Ended(js, p) then Partial
    else if js[p] == '"' then Closed(p)
    else if js[p] == '\\' && p + 1 < |js| then
      if Simple(js[p + 1]) then ScanFrom(js, p + 2)
      else if js[p + 1] == 'u' then
        var q := AfterHex(js, p + 2, 4);
        if q == -1 then Invalid else ScanFrom(js, q)
      else Invalid
    else ScanFrom(js, p + 1)
  }

  method ScanHex(js: string, p: nat) returns (q: int)
    ensures q == AfterHex(js, p, 4)
  {
    q := p;
    var i := 0;
    while i < 4 && q < |js| && js[q] != '\0'
      invariant 0 <= i <= 4 && q == p + i && AfterHex(js, q, 4 - i) == AfterHex(js, p, 4)
      decreases 4 - i
    {
      if !IsHex(js[q]) { return -1; }
      q := q + 1;
      i := i + 1;
    }
  }

  method ParseString(js: string, start: nat) returns (r: Scan)
    requires start < |js| && js[start] == '"'
    ensures r == ScanFrom(js, start + 1)
  {
    var pos := start + 1;
    while pos < |js| && js[pos] != '\0'
      invariant start + 1 <= pos && ScanFrom(js, pos) == ScanFrom(js, start + 1)
      decreases |js| - pos
    {
      var c := js[pos];
      if c == '"' { return Closed(pos); }
      if c == '\\' && pos + 1 < |js| {
        pos := pos + 1;
        if Simple(js[pos]) {
        } else if js[pos] == 'u' {
          var q := ScanHex(js, pos + 1);
          if q == -1 { return Invalid; }
          pos := q - 1;
        } else {
          return Invalid;
        }
      }
      pos := pos + 1;
    }
    r := Partial;
  }

  // Inside a text that holds escaped s at p, the scan passes over it.
  lemma {:induction false} ScanPasses(js: string, p: nat, s: string)
    requires '\0' !in s && p + |Escaped(s)| <= |js| && js[p..p + |Escaped(s)|] == Escaped(s)
    ensures ScanFrom(js, p) == ScanFrom(js, p + |Escaped(s)|)
    decreases |s|
  {
    hide AfterHex;
    if s != "" {
      var e, t := Escape(s[0]), Escaped(s[1..]);
      assert js[p..p + |e| + |t|] == e + t;
      assert js[p] == (e + t)[0] && (|e| == 2 ==> js[p + 1] == (e + t)[1]);
      var q := p + |e|;
      assert js[q..q + |t|] == (e + t)[|e|..] == t;
      ScanPasses(js, q, s[1..]);
    }
  }

  // A quoted escaped string inside any text: the scan finds its end, and printing what it
  // found gives the string back exactly when it has no carriage return.
  lemma {:induction false} QuotedRoundTrip(before: string, s: string, after: string)
    requires '\0' !in s
    ensures
      var js := before + "\"" + Escaped(s) + "\"" + after;
      var r := ScanFrom(js, |before| + 1);
      && r == Closed(|before| + 1 + |Escaped(s)|)
      && (Decode(js[|before| + 1..r.end]) == s <==> '\r' !in s)
  {
    hide Escape, Escaped, Decode;
    var js := before + "\"" + Escaped(s) + "\"" + after;
    var p := |before| + 1;
    assert js[p..p + |Escaped(s)|] == Escaped(s);
    assert js[p + |Escaped(s)|] == '"';
    ScanPasses(js, p, s);
    RoundTripIff(s);
  }
}
