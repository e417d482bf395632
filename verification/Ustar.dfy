/**
 Ustar archives by their own definition (the ustar Interchange Format of pax, IEEE Std
 1003.1): a header block whose path is the prefix field, a slash and the name field, or
 the name field alone; the file's data, padded to blocks, for the types that have data;
 and zeros behind the last file.  Links, devices, directories and pipes have no data, and
 the size field of all but links may still show a number.

 The kernel reads only the name field, as a C string, and steps over as many bytes as the
 size field shows.  So it reaches some headers and sees the paths of some of them; which,
 is decided here.
 */
module Ustar {
  import opened Options
  import opened Initrd

  const PREFIX_AT := 345
  const PREFIX_LEN := 155

  // ---------------------------------------------------------------------------
  // A header's path
  // ---------------------------------------------------------------------------

  // A text field of n bytes: up to its first zero byte, or all of it.
  function Field(a: seq<char>, i: nat, n: nat): (s: string)
    ensures |s| <= n && (i + |s| <= |a| || s == "")
    ensures forall k :: 0 <= k < |s| ==> i + k < |a| && s[k] == a[i + k] && s[k] != '\0'
    ensures |s| < n && i + |s| < |a| ==> a[i + |s|] == '\0'
    decreases n
  {
    if n == 0 || i >= |a| || a[i] == '\0' then "" else [a[i]] + Field(a, i + 1, n - 1)
  }

  function NameField(a: seq<char>, h: nat): string { Field(a, h, NAME_LEN) }

  function PrefixField(a: seq<char>, h: nat): string { Field(a, h + PREFIX_AT, PREFIX_LEN) }

  function PathOf(prefix: string, name: string): string { if prefix == "" then name else prefix + "/" + name }

  function UstarPath(a: seq<char>, h: nat): string { PathOf(PrefixField(a, h), NameField(a, h)) }

  // Reading the name field as a C string runs on into the next field when all its bytes are used.
  lemma {:induction false} StringOfField(a: seq<char>, i: nat, n: nat)
    requires i + n <= |a|
    ensures |Field(a, i, n)| <= n
    ensures StringAt(a, i) == Field(a, i, n) + if |Field(a, i, n)| == n then StringAt(a, i + n) else ""
    decreases n
  {
    if n > 0 && a[i] != '\0' {
      StringOfField(a, i + 1, n - 1);
    }
  }

  // In a text with period m, an entry repeats m places on.
  lemma {:induction false} Repeats(x: string, m: nat, i: nat, c: char) returns (j: nat)
    requires 0 < m <= |x| && i < |x| && x[i] == c
    requires forall k :: 0 <= k < |x| - m ==> x[k] == x[k + m]
    ensures |x| - m <= j < |x| && x[j] == c
    decreases |x| - i
  {
    if i >= |x| - m {
      j := i;
    } else {
      assert x[i] == x[i + m];
      j := Repeats(x, m, i + m, c);
    }
  }

  lemma {:induction false} SlashComesAround(name: string, next: string, prefix: string)
    requires name + next == prefix + "/" + name
    ensures '/' in next
  {
    var x, m := name + next, |prefix| + 1;
    assert |x| == |name| + m;
    assert forall k :: 0 <= k < |name| ==> x[k + m] == name[k] == x[k];
    var j := Repeats(x, m, m - 1, '/');
    assert x[j] == next[j - |name|];
  }

  // name + next can only be prefix/name when the prefix is empty or next holds a slash.
  lemma OverrunIsNoPath(name: string, next: string, prefix: string)
    requires prefix != "" && '/' !in next
    ensures name + next != PathOf(prefix, name)
  {
    if name + next == PathOf(prefix, name) { SlashComesAround(name, next, prefix); }
  }

  // The kernel sees a header's path exactly when the prefix field is empty and the name field ends
  // inside its 100 bytes or is followed by a zero byte.  What follows a name of 100 bytes, up to the
  // first zero byte, is the numeric fields and holds no slash.
  lemma {:induction false} NameIsPathIff(a: seq<char>, h: nat)
    requires h + BLOCK <= |a|
    requires |NameField(a, h)| == NAME_LEN && PrefixField(a, h) != "" ==> '/' !in StringAt(a, h + NAME_LEN)
    ensures
      StringAt(a, h) == UstarPath(a, h) <==>
      PrefixField(a, h) == "" && (|NameField(a, h)| < NAME_LEN || a[h + NAME_LEN] == '\0')
  {
    hide Field;
    StringOfField(a, h, NAME_LEN);
    EmptyAtNul(a, h + NAME_LEN);
    hide StringAt;
    var name, next := NameField(a, h), StringAt(a, h + NAME_LEN);
    assert StringAt(a, h) == name + (if |name| == NAME_LEN then next else "");
    if PrefixField(a, h) != "" {
      OverrunIsNoPath(name, if |name| == NAME_LEN then next else "", PrefixField(a, h));
    } else if |name| == NAME_LEN && next != "" {
      assert |name + next| > |name|;
    } else {
      assert name + "" == name;
    }
  }

  // ---------------------------------------------------------------------------
  // An archive of files
  // ---------------------------------------------------------------------------

  // mid is the mode and owner fields; the size field is the size in octal, width digits, and fill;
  // times is the time and checksum fields, kind the type, and tail everything up to the prefix.
  datatype File = File(
    name: string, prefix: string, mid: string, size: nat, width: nat, fill: string, times: string, kind: char,
    tail: string, data: seq<char>)

  const MID_LEN := 24
  const SIZE_LEN := 12
  const TIMES_LEN := 20
  const TAIL_LEN := 188

  // No data is stored for links (1, 2), devices (3, 4), directories (5) and pipes (6).
  predicate HasData(kind: char) { !('1' <= kind <= '6') }

  ghost predicate GoodSize(f: File) {
    && f.size < Pow8(f.width) && f.width + |f.fill| == SIZE_LEN && f.fill != ""
    && forall i :: 0 <= i < |f.fill| ==> f.fill[i] == ' ' || f.fill[i] == '\0'
  }

  ghost predicate GoodFile(f: File) {
    && 0 < |f.name| <= NAME_LEN && '\0' !in f.name
    && |f.prefix| <= PREFIX_LEN && '\0' !in f.prefix
    && |f.mid| == MID_LEN && |f.times| == TIMES_LEN && |f.tail| == TAIL_LEN
    && GoodSize(f)
    && (if HasData(f.kind) then |f.data| == f.size else f.data == [])
    && (f.kind == '1' || f.kind == '2' ==> f.size == 0)
  }

  function Zeros(n: nat): (s: string)
    ensures |s| == n && forall i :: 0 <= i < n ==> s[i] == '\0'
  {
    seq(n, _ => '\0')
  }

  function Pad(s: string, n: nat): string { s + if |s| < n then Zeros(n - |s|) else "" }

  function SizeField(f: File): string { Octal(f.size, f.width) + f.fill }

  function Header(f: File): string {
    Pad(f.name, NAME_LEN) + f.mid + SizeField(f) + f.times + [f.kind] + f.tail + Pad(f.prefix, PREFIX_LEN) + Zeros(12)
  }

  function Stored(f: File): seq<char> {
    if HasData(f.kind) && |f.data| <= RoundUp(|f.data|) then f.data + Zeros(RoundUp(|f.data|) - |f.data|) else []
  }

  function Block(f: File): string { Header(f) + Stored(f) }

  // The files one after the other, with `end` behind them.
  function Archive(fs: seq<File>, end: seq<char>): seq<char> { if fs == [] then end else Block(fs[0]) + Archive(fs[1..], end) }

  ghost predicate GoodArchive(fs: seq<File>, end: seq<char>) {
    && (forall i :: 0 <= i < |fs| ==> GoodFile(fs[i]))
    && |end| >= BLOCK && end[0] == '\0'
  }

  function FilePath(f: File): string { PathOf(f.prefix, f.name) }

  function Paths(fs: seq<File>): seq<string> { seq(|fs|, i requires 0 <= i < |fs| => FilePath(fs[i])) }

  // Where file i's header is, from the first one on.
  function Place(fs: seq<File>, i: nat): nat
    requires i < |fs|
  {
    if i == 0 then 0 else |Block(fs[0])| + Place(fs[1..], i - 1)
  }

  // ---------------------------------------------------------------------------
  // The bytes of one file
  // ---------------------------------------------------------------------------

  lemma HeaderLength(f: File)
    requires GoodFile(f)
    ensures |Header(f)| == BLOCK && |Block(f)| == BLOCK + if HasData(f.kind) then RoundUp(f.size) else 0
  {
    hide Pow8, Octal;
    RoundUpIsLeast(|f.data|);
  }

  lemma HeaderFields(f: File)
    requires GoodFile(f)
    ensures |Header(f)| == BLOCK
    ensures Header(f)[..NAME_LEN] == Pad(f.name, NAME_LEN)
    ensures Header(f)[NAME_LEN] == f.mid[0]
    ensures Header(f)[SIZE_AT..SIZE_AT + SIZE_LEN] == SizeField(f)
    ensures Header(f)[PREFIX_AT..PREFIX_AT + PREFIX_LEN] == Pad(f.prefix, PREFIX_LEN)
    ensures Header(f)[BLOCK - 1] == '\0'
  {
    hide Octal, Zeros, Pow8;
    HeaderLength(f);
    var n, o, p := Pad(f.name, NAME_LEN), SizeField(f), Pad(f.prefix, PREFIX_LEN);
    assert Header(f) == n + f.mid + o + f.times + [f.kind] + f.tail + p + Zeros(12);
    assert |n| == 100 && |f.mid| == 24 && |o| == 12 && |f.times| == 20 && |f.tail| == 188 && |p| == 155;
  }

  // A field filled by Pad reads as what was put there.
  lemma {:induction false} FieldOfPad(a: seq<char>, i: nat, s: string, n: nat)
    requires |s| <= n && '\0' !in s && i + n <= |a| && a[i..i + n] == Pad(s, n)
    ensures Field(a, i, n) == s
    decreases n
  {
    if n > 0 {
      var p := Pad(s, n);
      assert a[i] == p[0];
      if s == "" {
        assert p[0] == '\0';
      } else {
        assert s[0] in s;
        assert p[1..] == Pad(s[1..], n - 1);
        assert a[i + 1..i + 1 + (n - 1)] == a[i..i + n][1..];
        FieldOfPad(a, i + 1, s[1..], n - 1);
        assert s == [s[0]] + s[1..];
      }
    }
  }

  ghost predicate HoldsFile(a: seq<char>, h: nat, f: File) { h + |Block(f)| <= |a| && a[h..h + |Block(f)|] == Block(f) }

  lemma SliceOfSlice(a: seq<char>, h: nat, x: seq<char>, i: nat, j: nat)
    requires h + |x| <= |a| && a[h..h + |x|] == x && i <= j <= |x|
    ensures a[h + i..h + j] == x[i..j]
  {
    var b := a[h + i..h + j];
    assert forall k :: 0 <= k < j - i ==> b[k] == a[h + (i + k)] == a[h..h + |x|][i + k];
  }

  lemma HeaderBytes(a: seq<char>, h: nat, f: File)
    requires GoodFile(f) && HoldsFile(a, h, f)
    ensures h + BLOCK <= |a| && |Header(f)| == BLOCK && a[h..h + BLOCK] == Header(f)
    ensures HasData(f.kind) ==> h + BLOCK + f.size <= |a| && a[h + BLOCK..h + BLOCK + f.size] == f.data
  {
    hide Header, GoodSize;
    HeaderLength(f);
    RoundUpIsLeast(|f.data|);
    var b := Block(f);
    SliceOfSlice(a, h, b, 0, BLOCK);
    assert b[..BLOCK] == Header(f);
    if HasData(f.kind) {
      assert b[BLOCK..BLOCK + f.size] == f.data;
      SliceOfSlice(a, h, b, BLOCK, BLOCK + f.size);
    }
  }

  lemma SizeReadsBack(a: seq<char>, i: nat, f: File)
    requires GoodSize(f) && i + SIZE_LEN <= |a| && a[i..i + SIZE_LEN] == SizeField(f)
    ensures OctalFrom(a, i, 0) == f.size
  {
    hide Pow8, OctalFrom;
    var x := SizeField(f);
    assert |Octal(f.size, f.width)| == f.width;
    hide Octal;
    SliceOfSlice(a, i, x, 0, f.width);
    assert x[..f.width] == Octal(f.size, f.width);
    assert a[i + f.width] == a[i..i + SIZE_LEN][f.width] == x[f.width] == f.fill[0];
    OctalReadsBack(a, i, f.size, f.width);
  }

  // What the C string behind a header's name field is.
  function Behind(f: File): string { StringAt(Header(f), NAME_LEN) }

  lemma {:induction false} StringInside(a: seq<char>, h: nat, x: seq<char>, i: nat)
    requires h + |x| <= |a| && a[h..h + |x|] == x && x != [] && x[|x| - 1] == '\0' && i < |x|
    ensures StringAt(a, h + i) == StringAt(x, i)
    decreases |x| - i
  {
    assert a[h + i] == a[h..h + |x|][i] == x[i];
    if x[i] != '\0' { StringInside(a, h, x, i + 1); }
  }

  // What the kernel reads from a file's header.
  lemma {:induction false} FileReadsBack(a: seq<char>, h: nat, f: File)
    requires GoodFile(f) && HoldsFile(a, h, f)
    ensures SizeOf(a, h) == f.size && NextHeader(a, h) == h + BLOCK + RoundUp(f.size)
    ensures h + BLOCK <= |a| && NameField(a, h) == f.name && PrefixField(a, h) == f.prefix
    ensures a[h + NAME_LEN] == f.mid[0] && a[h] != '\0' && StringAt(a, h + NAME_LEN) == Behind(f)
  {
    hide Header, SizeField, Pad, Field, Block, OctalFrom, GoodSize, StringAt;
    HeaderBytes(a, h, f);
    HeaderFields(f);
    var x := Header(f);
    SliceOfSlice(a, h, x, 0, NAME_LEN);
    SliceOfSlice(a, h, x, SIZE_AT, SIZE_AT + SIZE_LEN);
    SliceOfSlice(a, h, x, PREFIX_AT, PREFIX_AT + PREFIX_LEN);
    FieldOfPad(a, h, f.name, NAME_LEN);
    FieldOfPad(a, h + PREFIX_AT, f.prefix, PREFIX_LEN);
    SizeReadsBack(a, h + SIZE_AT, f);
    StringInside(a, h, x, NAME_LEN);
    assert a[h + NAME_LEN] == a[h..h + BLOCK][NAME_LEN] == x[NAME_LEN];
    assert f.name[0] == a[h];
    assert f.name[0] in f.name;
    assert RoundUp(0) == 0;
  }

  // ---------------------------------------------------------------------------
  // The walk over an archive
  // ---------------------------------------------------------------------------

  lemma BlockInPlace(a: seq<char>, h: nat, f: File, rest: seq<char>)
    requires h <= |a| && a[h..] == Block(f) + rest
    ensures HoldsFile(a, h, f) && h + |Block(f)| <= |a| && a[h + |Block(f)|..] == rest
  {
    hide Block;
    var b := Block(f) + rest;
    assert |b| == |a| - h;
    assert a[h..h + |Block(f)|] == b[..|Block(f)|] == Block(f);
    assert a[h + |Block(f)|..] == b[|Block(f)|..] == rest;
  }

  lemma WalkUnrolls(a: seq<char>, h: nat)
    requires h + BLOCK <= |a| && a[h] != '\0'
    ensures Walkable(a, h) <==> Walkable(a, NextHeader(a, h))
    ensures Walkable(a, h) ==> Headers(a, h) == [h] + Headers(a, NextHeader(a, h))
  {
  }

  lemma WalkStops(a: seq<char>, h: nat)
    requires h + BLOCK <= |a| && a[h] == '\0'
    ensures Walkable(a, h) && Headers(a, h) == []
  {
  }

  // The size field shows what is stored.
  predicate Truthful(f: File) { HasData(f.kind) || f.size == 0 }

  lemma NextIsNextFile(a: seq<char>, h: nat, f: File)
    requires GoodFile(f) && HoldsFile(a, h, f)
    ensures h + BLOCK <= |a| && a[h] != '\0'
    ensures if Truthful(f) then NextHeader(a, h) == h + |Block(f)| else NextHeader(a, h) > h + |Block(f)|
  {
    hide Block, GoodSize, SizeOf, NextHeader, HoldsFile;
    FileReadsBack(a, h, f);
    HeaderLength(f);
    RoundUpIsLeast(f.size);
    assert RoundUp(0) == 0;
  }

  lemma {:induction false} WalkFrom(a: seq<char>, h: nat, fs: seq<File>, end: seq<char>)
    requires GoodArchive(fs, end) && h <= |a| && a[h..] == Archive(fs, end)
    requires forall i :: 0 <= i < |fs| ==> Truthful(fs[i])
    ensures
      && Walkable(a, h) && |Headers(a, h)| == |fs|
      && forall i :: 0 <= i < |fs| ==> HoldsFile(a, Headers(a, h)[i], fs[i])
    decreases |fs|
  {
    hide Block, NextHeader, HoldsFile, GoodFile, Walkable, Headers, Truthful;
    if fs == [] {
      assert a[h] == a[h..][0];
      WalkStops(a, h);
    } else {
      var f := fs[0];
      BlockInPlace(a, h, f, Archive(fs[1..], end));
      hide Archive;
      NextIsNextFile(a, h, f);
      WalkFrom(a, h + |Block(f)|, fs[1..], end);
      WalkUnrolls(a, h);
      var hs := Headers(a, h + |Block(f)|);
      forall i | 0 <= i < |fs| ensures HoldsFile(a, ([h] + hs)[i], fs[i]) {
        if i > 0 { assert ([h] + hs)[i] == hs[i - 1] && fs[i] == fs[1..][i - 1]; }
      }
    }
  }

  // The kernel's walk over an archive whose size fields show what is stored visits its files, in order.
  lemma {:induction false} ArchiveWalk(fs: seq<File>, end: seq<char>)
    requires GoodArchive(fs, end) && forall i :: 0 <= i < |fs| ==> Truthful(fs[i])
    ensures
      var a := Archive(fs, end);
      && Walkable(a, 0) && |Headers(a, 0)| == |fs|
      && forall i :: 0 <= i < |fs| ==> HoldsFile(a, Headers(a, 0)[i], fs[i])
  {
    hide *;
    var a := Archive(fs, end);
    assert a[0..] == a;
    WalkFrom(a, 0, fs, end);
  }

  lemma {:induction false} HeadersGoOn(a: seq<char>, h: nat, k: nat)
    requires Walkable(a, h) && k in Headers(a, h)
    ensures k >= h
    decreases |a| - h
  {
    if a[h] != '\0' && k != h {
      NextHeaderIsLeast(a, h);
      HeadersGoOn(a, NextHeader(a, h), k);
    }
  }

  // Every file's header is on the walk.
  ghost predicate AllReached(a: seq<char>, h: nat, fs: seq<File>)
    requires Walkable(a, h)
  {
    forall i :: 0 <= i < |fs| ==> h + Place(fs, i) in Headers(a, h)
  }

  // Every file that another one follows shows the size of what is stored.
  ghost predicate TruthfulBeforeLast(fs: seq<File>) { forall i :: 0 <= i < |fs| - 1 ==> Truthful(fs[i]) }

  lemma PlaceSplits(fs: seq<File>, i: nat)
    requires 0 < i < |fs|
    ensures Place(fs, i) == |Block(fs[0])| + Place(fs[1..], i - 1)
  {
  }

  lemma {:induction false} ReachedFromIff(a: seq<char>, h: nat, fs: seq<File>, end: seq<char>)
    requires GoodArchive(fs, end) && h <= |a| && a[h..] == Archive(fs, end) && Walkable(a, h)
    ensures AllReached(a, h, fs) <==> TruthfulBeforeLast(fs)
    decreases |fs|
  {
    hide Block, NextHeader, HoldsFile, GoodFile, Walkable, Headers, Truthful;
    if fs != [] {
      var f, rest := fs[0], fs[1..];
      BlockInPlace(a, h, f, Archive(rest, end));
      hide Archive;
      NextIsNextFile(a, h, f);
      HeaderLength(f);
      WalkUnrolls(a, h);
      var next, b := NextHeader(a, h), |Block(f)|;
      if |fs| == 1 {
        assert h in [h] + Headers(a, next);
      } else if Truthful(f) {
        ReachedFromIff(a, h + b, rest, end);
        assert TruthfulBeforeLast(fs) <==> TruthfulBeforeLast(rest) by {
          assert forall i :: 0 < i < |fs| ==> fs[i] == rest[i - 1];
        }
        ReachedRest(a, h, fs);
      } else {
        SecondSkipped(a, h, fs);
      }
    }
  }

  // Behind a truthful file, reaching the others is reaching them from the next header on.
  lemma ReachedRest(a: seq<char>, h: nat, fs: seq<File>)
    requires |fs| > 1 && Walkable(a, h) && Walkable(a, h + |Block(fs[0])|)
    requires Headers(a, h) == [h] + Headers(a, h + |Block(fs[0])|) && |Block(fs[0])| > 0
    ensures AllReached(a, h, fs) <==> AllReached(a, h + |Block(fs[0])|, fs[1..])
  {
    hide Block, Walkable, Headers;
    var b, rest := |Block(fs[0])|, fs[1..];
    forall i | 0 < i < |fs|
      ensures h + Place(fs, i) == h + b + Place(rest, i - 1)
      ensures h + Place(fs, i) in Headers(a, h) <==> h + b + Place(rest, i - 1) in Headers(a, h + b)
    {
      PlaceSplits(fs, i);
    }
    if AllReached(a, h, fs) {
      forall j | 0 <= j < |rest| ensures h + b + Place(rest, j) in Headers(a, h + b) {
        assert h + Place(fs, j + 1) in Headers(a, h);
      }
    }
    if AllReached(a, h + b, rest) {
      forall i | 0 <= i < |fs| ensures h + Place(fs, i) in Headers(a, h) {
        if i > 0 { assert h + b + Place(rest, i - 1) in Headers(a, h + b); }
      }
    }
  }

  // A size that is shown but not stored hides the next file.
  lemma SecondSkipped(a: seq<char>, h: nat, fs: seq<File>)
    requires |fs| > 1 && Walkable(a, h) && Walkable(a, NextHeader(a, h))
    requires Headers(a, h) == [h] + Headers(a, NextHeader(a, h)) && 0 < |Block(fs[0])| && h + |Block(fs[0])| < NextHeader(a, h)
    ensures !AllReached(a, h, fs)
  {
    hide Block, Walkable, Headers, NextHeader;
    PlaceSplits(fs, 1);
    var k := h + Place(fs, 1);
    if k in Headers(a, h) { HeadersGoOn(a, NextHeader(a, h), k); }
  }

  // Every file's header is reached exactly when each file before the last shows the size of what is stored.
  lemma {:induction false} AllReachedIff(fs: seq<File>, end: seq<char>)
    requires GoodArchive(fs, end) && Walkable(Archive(fs, end), 0)
    ensures AllReached(Archive(fs, end), 0, fs) <==> TruthfulBeforeLast(fs)
  {
    hide *;
    var a := Archive(fs, end);
    assert a[0..] == a;
    ReachedFromIff(a, 0, fs, end);
  }

  // A file's path is what the kernel sees of it.
  predicate Visible(f: File) { f.prefix == "" && (|f.name| < NAME_LEN || (f.mid != "" && f.mid[0] == '\0')) }

  // Behind a name of 100 bytes under a prefix, the fields up to the first zero byte hold no slash.
  ghost predicate NoSlashBehind(f: File) { |f.name| == NAME_LEN && f.prefix != "" ==> '/' !in Behind(f) }

  lemma FileSeenIff(a: seq<char>, h: nat, f: File)
    requires GoodFile(f) && HoldsFile(a, h, f) && NoSlashBehind(f)
    ensures UstarPath(a, h) == FilePath(f)
    ensures StringAt(a, h) == FilePath(f) <==> Visible(f)
  {
    hide Block, Field, StringAt, SizeOf, NextHeader, HoldsFile, Behind, GoodSize;
    FileReadsBack(a, h, f);
    NameIsPathIff(a, h);
  }

  // The names the kernel walks over are the archive's paths exactly when every file is visible.
  lemma {:induction false} NamesArePathsIff(fs: seq<File>, end: seq<char>)
    requires GoodArchive(fs, end) && forall i :: 0 <= i < |fs| ==> Truthful(fs[i]) && NoSlashBehind(fs[i])
    ensures Walkable(Archive(fs, end), 0)
    ensures Names(Archive(fs, end), 0) == Paths(fs) <==> forall i :: 0 <= i < |fs| ==> Visible(fs[i])
  {
    hide Archive, Walkable, Headers, Names, HoldsFile, GoodFile, Visible, StringAt, FilePath, UstarPath, NoSlashBehind, Truthful;
    ArchiveWalk(fs, end);
    var a := Archive(fs, end);
    var ns := Names(a, 0);
    forall i | 0 <= i < |fs| ensures ns[i] == Paths(fs)[i] <==> Visible(fs[i]) {
      FileSeenIff(a, Headers(a, 0)[i], fs[i]);
    }
  }

  // Where a lookup points, the file's data lies, with its size.
  lemma {:induction false} LookupFindsTheData(fs: seq<File>, end: seq<char>, i: nat)
    requires GoodArchive(fs, end) && i < |fs| && forall j :: 0 <= j < |fs| ==> Truthful(fs[j])
    ensures
      var a := Archive(fs, end);
      && Walkable(a, 0) && i < |Headers(a, 0)|
      && var data, size := Headers(a, 0)[i] + BLOCK, SizeOf(a, Headers(a, 0)[i]);
         size == |fs[i].data| && data + size <= |a| && a[data..data + size] == fs[i].data
  {
    hide Archive, Walkable, Headers, Block, GoodSize, HoldsFile, SizeOf;
    ArchiveWalk(fs, end);
    var a := Archive(fs, end);
    FileReadsBack(a, Headers(a, 0)[i], fs[i]);
    HeaderBytes(a, Headers(a, 0)[i], fs[i]);
  }

  // The listing without the component buffer.
  function FullListing(prefix: string, names: seq<string>): seq<Child> {
    if names == [] then []
    else
      var before := FullListing(prefix, names[..|names| - 1]);
      match FullChildOf(prefix, names[|names| - 1])
      case None => before
      case Some(c) => if Listed(before, c.name) then before else before + [c]
  }

  lemma {:induction false} ShortListing(prefix: string, names: seq<string>)
    requires forall i :: 0 <= i < |names| ==> ShortComponent(prefix, names[i])
    ensures Listing(prefix, names) == FullListing(prefix, names)
  {
    hide ChildOf, FullChildOf, ShortComponent;
    if names != [] {
      ShortListing(prefix, names[..|names| - 1]);
      CutShowsIff(prefix, names[|names| - 1]);
    }
  }

  // In an archive of visible files with components of up to 99 characters, whose size fields show what
  // is stored, what readdir walks through for any directory is the listing of the archive's paths.
  lemma {:induction false} DirectoryOfArchive(fs: seq<File>, end: seq<char>, dir: Option<string>)
    requires GoodArchive(fs, end)
    requires forall i :: 0 <= i < |fs| ==> Truthful(fs[i]) && Visible(fs[i]) && ShortComponent(Prefix(dir), FilePath(fs[i]))
    ensures Walkable(Archive(fs, end), 0)
    ensures Listing(CutPrefix(dir), Names(Archive(fs, end), 0)) == FullListing(Prefix(dir), Paths(fs))
  {
    hide Archive, Walkable, Names, Listing, FullListing, ShortComponent, Prefix, CutPrefix, Truthful;
    NamesArePathsIff(fs, end);
    assert forall i :: 0 <= i < |fs| ==> |Paths(fs)[i]| <= NAME_LEN;
    CutListing(dir, Paths(fs));
    ShortListing(Prefix(dir), Paths(fs));
  }

  // ---------------------------------------------------------------------------
  // Archives the kernel does not see as they are
  // ---------------------------------------------------------------------------

  // A file without contents whose size field shows n in eleven digits.
  function Plain(name: string, prefix: string, kind: char, n: nat): File {
    File(name, prefix, Zeros(MID_LEN), n, 11, "\0", Zeros(TIMES_LEN), kind, Zeros(TAIL_LEN), [])
  }

  lemma PlainIsGood(name: string, prefix: string, kind: char, n: nat)
    requires 0 < |name| <= NAME_LEN && '\0' !in name && |prefix| <= PREFIX_LEN && '\0' !in prefix
    requires n <= 512 && (n == 0 || '3' <= kind <= '6')
    ensures GoodFile(Plain(name, prefix, kind, n))
  {
    assert Pow8(11) == 8 * (8 * Pow8(9)) && Pow8(9) == 8 * (8 * Pow8(7)) && Pow8(7) >= 8;
  }

  lemma OneName(a: seq<char>, h: nat, f: File)
    requires GoodFile(f) && HoldsFile(a, h, f) && |f.name| < NAME_LEN
    ensures StringAt(a, h) == f.name
  {
    hide StringAt, Field, GoodSize, HoldsFile;
    FileReadsBack(a, h, f);
    StringOfField(a, h, NAME_LEN);
    assert f.name + "" == f.name;
  }

  // An archive that shows one file by its name field and ends behind it.
  lemma OnlyNameSeen(a: seq<char>, f: File, rest: seq<char>)
    requires GoodFile(f) && |f.name| < NAME_LEN && a == Block(f) + rest
    requires NextHeader(a, 0) + BLOCK <= |a| && a[NextHeader(a, 0)] == '\0'
    ensures Walkable(a, 0) && Names(a, 0) == [f.name]
  {
    hide Block, StringAt, GoodFile, NextHeader, HoldsFile;
    assert a[0..] == a;
    BlockInPlace(a, 0, f, rest);
    NextIsNextFile(a, 0, f);
    WalkStops(a, NextHeader(a, 0));
    OneName(a, 0, f);
  }

  lemma ArchiveOfOne(f: File, end: seq<char>)
    ensures Archive([f], end) == Block(f) + end
  {
    hide Block;
    assert [f][1..] == [];
    assert Archive([], end) == end;
  }

  lemma ArchiveOfTwo(f: File, g: File, end: seq<char>)
    ensures Archive([f, g], end) == Block(f) + (Block(g) + end)
  {
    hide Block;
    assert [f, g][1..] == [g];
    ArchiveOfOne(g, end);
  }

  lemma RoundUps()
    ensures RoundUp(0) == 0 && RoundUp(512) == 512
  {
  }

  // A file x under lib, written with a prefix field: the kernel finds x at the top and no lib/x.
  lemma PrefixIsIgnored()
    ensures
      var f := Plain("x", "lib", '0', 0);
      var a := Archive([f], Zeros(1024));
      && GoodFile(f) && Paths([f]) == ["lib/x"]
      && Walkable(a, 0) && Names(a, 0) == ["x"] && Listing("", Names(a, 0)) == [Child("x", false)]
  {
    hide Walkable, Names, Zeros, Listing, Block, GoodFile, NextHeader, Archive;
    var f := Plain("x", "lib", '0', 0);
    PlainIsGood("x", "lib", '0', 0);
    var a := Archive([f], Zeros(1024));
    ArchiveOfOne(f, Zeros(1024));
    assert a[0..] == a;
    BlockInPlace(a, 0, f, Zeros(1024));
    NextIsNextFile(a, 0, f);
    assert a[|Block(f)|] == Zeros(1024)[0];
    OnlyNameSeen(a, f, Zeros(1024));
    ShownAlone("x");
    assert FilePath(f) == "lib/x";
  }

  lemma ShownAlone(x: string)
    requires x != "" && '/' !in x && x != "." && x != ".." && |x| <= COMP_CAP
    ensures Listing("", [x]) == [Child(x, false)]
  {
    ComponentOfPlain(x);
    assert x[0..] == x;
    assert [x][..0] == [];
    assert ChildOf("", x) == Some(Child(x, false));
    assert Listing("", []) == [];
  }

  // A name that uses all 100 bytes, before a mode field that starts with a digit, is not seen as it is.
  lemma FullNameIsOverrun(f: File, end: seq<char>)
    requires GoodArchive([f], end) && |f.name| == NAME_LEN && f.mid != "" && f.mid[0] != '\0'
    requires Truthful(f) && NoSlashBehind(f)
    ensures Walkable(Archive([f], end), 0) && Names(Archive([f], end), 0) != Paths([f])
  {
    hide Archive, Walkable, Names, GoodFile, NoSlashBehind;
    NamesArePathsIff([f], end);
    assert !Visible([f][0]);
  }

  // A record without data that shows one block, and an empty file behind it: the kernel steps over the file.
  lemma SizeHidesNext(d: File, x: File, end: seq<char>)
    requires GoodArchive([d, x], end) && GoodFile(d) && GoodFile(x) && |d.name| < NAME_LEN
    requires !HasData(d.kind) && d.size == 512 && x.size == 0
    ensures Walkable(Archive([d, x], end), 0) && Names(Archive([d, x], end), 0) == [d.name]
  {
    hide Walkable, Names, Block, GoodFile, NextHeader, StringAt, Archive, RoundUp;
    RoundUps();
    var a, rest := Archive([d, x], end), Block(x) + end;
    ArchiveOfTwo(d, x, end);
    HeaderLength(d);
    HeaderLength(x);
    assert a[0..] == a;
    BlockInPlace(a, 0, d, rest);
    FileReadsBack(a, 0, d);
    assert a[1024] == rest[512] == end[0];
    OnlyNameSeen(a, d, rest);
  }

  // A directory whose size field shows 512, and a file x behind it.
  lemma DirectorySizeHidesNext()
    ensures
      var d, x := Plain("d/", "", '5', 512), Plain("x", "", '0', 0);
      var a := Archive([d, x], Zeros(1024));
      && GoodArchive([d, x], Zeros(1024)) && Visible(d) && Visible(x) && Paths([d, x]) == ["d/", "x"]
      && Walkable(a, 0) && Names(a, 0) == ["d/"]
  {
    hide Walkable, Names, Zeros, GoodFile, Archive;
    var d, x := Plain("d/", "", '5', 512), Plain("x", "", '0', 0);
    PlainIsGood("d/", "", '5', 512);
    PlainIsGood("x", "", '0', 0);
    SizeHidesNext(d, x, Zeros(1024));
    assert FilePath(d) == "d/" && FilePath(x) == "x";
  }
}
