/**
 The initial RAM disk of kernel/initrd.c: a ustar archive in memory, found files by
 walking its headers, and directory listings made from the flat list of names.

 The archive is its bytes.  A header's name field is at offset 0 and its size field, in
 octal, at offset 124; data is padded to the next multiple of 512; a header whose name is
 empty ends the archive.  Ustar says what these bytes are for an archive written from files.
 */
module Initrd {
  import opened Options

  const BLOCK := 512
  const NAME_LEN := 100
  const SIZE_AT := 124

  // ---------------------------------------------------------------------------
  // The archive
  // ---------------------------------------------------------------------------

  // The C string at i: up to the first zero byte.
  function StringAt(a: seq<char>, i: nat): (s: string)
    ensures i + |s| <= |a| || s == ""
    ensures forall k :: 0 <= k < |s| ==> i + k < |a| && s[k] == a[i + k] && s[k] != '\0'
    ensures i + |s| < |a| ==> a[i + |s|] == '\0'
    decreases |a| - i
  {
    if i >= |a| || a[i] == '\0' then "" else [a[i]] + StringAt(a, i + 1)
  }

  predicate IsOctal(c: char) { '0' <= c <= '7' }

  // oct2ulong continued at i with the value so far.
  function OctalFrom(a: seq<char>, i: nat, val: nat): nat
    decreases |a| - i
  {
    if i < |a| && IsOctal(a[i]) then OctalFrom(a, i + 1, val * 8 + (a[i] as int - '0' as int)) else val
  }

  function SizeOf(a: seq<char>, h: nat): nat { OctalFrom(a, h + SIZE_AT, 0) }

  // (n + 511) & ~511
  function RoundUp(n: nat): nat { (n + 511) / 512 * 512 }

  function NextHeader(a: seq<char>, h: nat): nat { h + BLOCK + if SizeOf(a, h) > 0 then RoundUp(SizeOf(a, h)) else 0 }

  // The next header is at the first block boundary at or behind the data's end.
  lemma NextHeaderIsLeast(a: seq<char>, h: nat)
    ensures
      var next, end := NextHeader(a, h), h + BLOCK + SizeOf(a, h);
      (next - h) % BLOCK == 0 && end <= next < end + BLOCK
  {
    hide SizeOf;
    RoundUpIsLeast(SizeOf(a, h));
  }

  lemma RoundUpIsLeast(n: nat)
    ensures RoundUp(n) % 512 == 0 && n <= RoundUp(n) < n + 512
  {
  }

  // The chain of headers ends with an empty one inside the archive's memory.
  predicate Walkable(a: seq<char>, h: nat)
    decreases |a| - h
  {
    h + BLOCK <= |a| && (a[h] == '\0' || Walkable(a, NextHeader(a, h)))
  }

  lemma {:induction false} ChainEnds(a: seq<char>, h: nat) returns (e: nat)
    requires Walkable(a, h)
    ensures h <= e < |a| && a[e] == '\0'
    decreases |a| - h
  {
    hide NextHeader;
    if a[h] == '\0' {
      e := h;
    } else {
      assert NextHeader(a, h) > h by { NextHeaderIsLeast(a, h); }
      e := ChainEnds(a, NextHeader(a, h));
    }
  }

  // Every name of a walkable archive ends inside it.
  lemma NameEnds(a: seq<char>, h: nat)
    requires Walkable(a, h)
    ensures h + |StringAt(a, h)| < |a|
  {
    hide Walkable;
    var e := ChainEnds(a, h);
    StopsBy(a, h, e);
  }

  lemma {:induction false} StopsBy(a: seq<char>, h: nat, e: nat)
    requires h <= e < |a| && a[e] == '\0'
    ensures h + |StringAt(a, h)| <= e
    decreases e - h
  {
    if h < e { StopsBy(a, h + 1, e); }
  }

  function Headers(a: seq<char>, h: nat): seq<nat>
    requires Walkable(a, h)
    decreases |a| - h
  {
    if a[h] == '\0' then [] else [h] + Headers(a, NextHeader(a, h))
  }

  function Names(a: seq<char>, h: nat): (ns: seq<string>)
    requires Walkable(a, h)
    ensures |ns| == |Headers(a, h)|
    ensures forall i :: 0 <= i < |ns| ==> ns[i] == StringAt(a, Headers(a, h)[i])
    decreases |a| - h
  {
    if a[h] == '\0' then [] else [StringAt(a, h)] + Names(a, NextHeader(a, h))
  }

  // ---------------------------------------------------------------------------
  // A directory's listing, from names alone
  // ---------------------------------------------------------------------------

  // The first component of a path, and whether more follows.
  function Component(s: string): (c: string)
    ensures |c| <= |s| && c == s[..|c|] && '/' !in c && (|c| < |s| ==> s[|c|] == '/')
  {
    if s == "" || s[0] == '/' then "" else [s[0]] + Component(s[1..])
  }

  datatype Child = Child(name: string, isDir: bool)

  // The component buffer holds 99 characters and a terminator.
  const COMP_CAP := 99

  function Cut(c: string): string { if |c| > COMP_CAP then c[..COMP_CAP] else c }

  // What an archive name shows of the directory with this prefix.
  function ChildOf(prefix: string, name: string): Option<Child> {
    if !(prefix <= name) || |name| == |prefix| then None
    else
      var rest := name[|prefix|..];
      var c := Component(rest);
      if c == "" || c == "." || c == ".." then None else Some(Child(Cut(c), |c| <= COMP_CAP && |c| < |rest|))
  }

  // The same without the buffer.
  function FullChildOf(prefix: string, name: string): Option<Child> {
    if !(prefix <= name) || |name| == |prefix| then None
    else
      var rest := name[|prefix|..];
      var c := Component(rest);
      if c == "" || c == "." || c == ".." then None else Some(Child(c, |c| < |rest|))
  }

  predicate ShortComponent(prefix: string, name: string) {
    prefix <= name ==> |Component(name[|prefix|..])| <= COMP_CAP
  }

  // The buffer shows exactly in components of 100 characters and more.
  lemma CutShowsIff(prefix: string, name: string)
    ensures ChildOf(prefix, name) == FullChildOf(prefix, name) <==> ShortComponent(prefix, name)
  {
    hide Component;
  }

  predicate Listed(children: seq<Child>, name: string) { exists i :: 0 <= i < |children| && children[i].name == name }

  // Distinct children in order of first appearance.
  function Listing(prefix: string, names: seq<string>): seq<Child> {
    if names == [] then []
    else
      var before := Listing(prefix, names[..|names| - 1]);
      match ChildOf(prefix, names[|names| - 1])
      case None => before
      case Some(c) => if Listed(before, c.name) then before else before + [c]
  }

  lemma {:induction false} ListingIsDistinct(prefix: string, names: seq<string>)
    ensures forall i, j :: 0 <= i < j < |Listing(prefix, names)| ==> Listing(prefix, names)[i].name != Listing(prefix, names)[j].name
  {
    if names != [] { ListingIsDistinct(prefix, names[..|names| - 1]); }
  }

  // Exactly the children some name shows are listed.
  lemma {:induction false} ListingIsComplete(prefix: string, names: seq<string>, x: string)
    ensures Listed(Listing(prefix, names), x) <==>
            exists i :: 0 <= i < |names| && ChildOf(prefix, names[i]).Some? && ChildOf(prefix, names[i]).value.name == x
  {
    if names != [] {
      var n := |names| - 1;
      var before := Listing(prefix, names[..n]);
      var all := Listing(prefix, names);
      ListingIsComplete(prefix, names[..n], x);
      hide ChildOf;
      var c := ChildOf(prefix, names[n]);
      if c.Some? && !Listed(before, c.value.name) {
        assert all[|all| - 1] == c.value;
        assert Listed(all, c.value.name);
      }
      if Listed(before, x) {
        var i :| 0 <= i < |before| && before[i].name == x;
        assert all[i].name == x;
      }
      if Listed(all, x) && !Listed(before, x) {
        assert c.Some? && c.value.name == x;
      }
    }
  }

  lemma {:induction false} ListedNamesFit(prefix: string, names: seq<string>, i: nat)
    requires i < |Listing(prefix, names)|
    ensures |Listing(prefix, names)[i].name| <= COMP_CAP
    decreases |names|
  {
    hide Component;
    var before := Listing(prefix, names[..|names| - 1]);
    if i < |before| { ListedNamesFit(prefix, names[..|names| - 1], i); }
  }

  // A name of one component.
  predicate OneComponent(x: string) { x != "" && '/' !in x && x != "." && x != ".." }

  // A file that a lookup of prefix + x finds has x in the listing of the prefix's directory exactly
  // when x fits the component buffer.
  lemma {:induction false} FoundFilesAreListed(prefix: string, names: seq<string>, x: string)
    requires prefix + x in names && OneComponent(x)
    ensures Listed(Listing(prefix, names), x) <==> |x| <= COMP_CAP
    ensures Listed(Listing(prefix, names), Cut(x))
  {
    var i :| 0 <= i < |names| && names[i] == prefix + x;
    assert names[i][|prefix|..] == x;
    ComponentOfPlain(x);
    hide Listing, Component;
    ListingIsComplete(prefix, names, Cut(x));
    assert ChildOf(prefix, names[i]).Some? && ChildOf(prefix, names[i]).value.name == Cut(x);
    if Listed(Listing(prefix, names), x) {
      var j :| 0 <= j < |Listing(prefix, names)| && Listing(prefix, names)[j].name == x;
      ListedNamesFit(prefix, names, j);
    }
  }

  lemma {:induction false} ComponentOfPlain(x: string)
    requires '/' !in x
    ensures Component(x) == x
  {
    if x != "" { ComponentOfPlain(x[1..]); }
  }

  // Whether a child was already shown, by scanning the earlier names as the source does.
  lemma {:induction false} SeenIffListed(prefix: string, names: seq<string>, k: nat, c: string)
    requires k <= |names|
    ensures Listed(Listing(prefix, names[..k]), c) <==>
            exists i :: 0 <= i < k && ChildOf(prefix, names[i]).Some? && ChildOf(prefix, names[i]).value.name == c
  {
    hide ChildOf;
    ListingIsComplete(prefix, names[..k], c);
    assert forall i :: 0 <= i < k ==> names[..k][i] == names[i];
  }

  // ---------------------------------------------------------------------------
  // Walking the archive
  // ---------------------------------------------------------------------------

  // The w octal digits of n, highest first.
  function Octal(n: nat, w: nat): (s: string)
    ensures |s| == w && forall i :: 0 <= i < w ==> IsOctal(s[i])
  {
    if w == 0 then "" else Octal(n / 8, w - 1) + [(n % 8 + '0' as int) as char]
  }

  function Pow8(w: nat): nat { if w == 0 then 1 else 8 * Pow8(w - 1) }

  // A field of w octal digits that show n, with something else behind them.
  ghost predicate OctalField(a: seq<char>, i: nat, n: nat, w: nat) {
    && i + w <= |a| && a[i..i + w] == Octal(n, w) && n < Pow8(w)
    && (i + w < |a| ==> !IsOctal(a[i + w]))
  }

  // Reading the digits of n behind the value v gives v * 8^w + n and goes on behind them.
  lemma {:induction false} OctalRun(a: seq<char>, i: nat, n: nat, w: nat, v: nat)
    requires i + w <= |a| && a[i..i + w] == Octal(n, w) && n < Pow8(w)
    ensures OctalFrom(a, i, v) == OctalFrom(a, i + w, v * Pow8(w) + n)
    decreases w
  {
    if w == 0 {
      assert n == 0 && v * 1 == v;
    } else {
      var p := Pow8(w - 1);
      assert Pow8(w) == 8 * p;
      LastDigit(a, i, n, w, v * p + n / 8);
      hide OctalFrom, Octal, Pow8;
      OctalRun(a, i, n / 8, w - 1, v);
      OctalSum(v, p, n);
    }
  }

  lemma LastDigit(a: seq<char>, i: nat, n: nat, w: nat, u: nat)
    requires 0 < w && i + w <= |a| && a[i..i + w] == Octal(n, w)
    ensures a[i..i + (w - 1)] == Octal(n / 8, w - 1)
    ensures OctalFrom(a, i + (w - 1), u) == OctalFrom(a, i + w, u * 8 + n % 8)
  {
    var s := Octal(n, w);
    assert a[i..i + (w - 1)] == s[..w - 1];
    assert a[i + (w - 1)] == s[w - 1];
  }

  lemma OctalSum(v: nat, p: nat, n: nat)
    ensures (v * p + n / 8) * 8 + n % 8 == v * (8 * p) + n
  {
    assert v * p * 8 == v * (8 * p);
  }

  // An octal field reads back to its number.
  lemma OctalReadsBack(a: seq<char>, i: nat, n: nat, w: nat)
    requires OctalField(a, i, n, w)
    ensures OctalFrom(a, i, 0) == n
  {
    OctalRun(a, i, n, w, 0);
    assert 0 * Pow8(w) + n == n;
  }

  method Oct2ulong(a: seq<char>, start: nat) returns (val: nat)
    ensures val == OctalFrom(a, start, 0)
    ensures forall n, w :: OctalField(a, start, n, w) ==> val == n
  {
    forall n, w | OctalField(a, start, n, w) ensures OctalFrom(a, start, 0) == n { OctalReadsBack(a, start, n, w); }
    val := 0;
    var i := start;
    while i < |a| && '0' <= a[i] <= '7'
      invariant start <= i && OctalFrom(a, i, val) == OctalFrom(a, start, 0)
      decreases |a| - i
    {
      val := val * 8 + (a[i] as int - '0' as int);
      i := i + 1;
    }
  }

  method TarNext(a: seq<char>, h: nat) returns (next: nat)
    ensures next == NextHeader(a, h)
    ensures (next - h) % BLOCK == 0 && h + BLOCK + SizeOf(a, h) <= next < h + BLOCK + SizeOf(a, h) + BLOCK
  {
    NextHeaderIsLeast(a, h);
    var size := Oct2ulong(a, h + SIZE_AT);
    next := h + BLOCK;
    if size > 0 { next := next + (size + 511) / 512 * 512; }
  }

  // strcmp(name, s) == 0
  method SameName(a: seq<char>, h: nat, s: string) returns (same: bool)
    requires h < |a| && h + |StringAt(a, h)| < |a| && '\0' !in s
    ensures same <==> StringAt(a, h) == s
  {
    ghost var name := StringAt(a, h);
    var i := 0;
    while i < |s| && a[h + i] == s[i]
      invariant 0 <= i <= |s| && i <= |name| && name[..i] == s[..i]
    {
      assert s[i] in s;
      i := i + 1;
    }
    same := i == |s| && a[h + i] == '\0';
    assert i < |name| ==> name[i] == a[h + i] != '\0';
    if same { assert name[..i] == name && s[..i] == s; }
  }

  // initrd_lookup: where the first file of that name starts, and its size.
  method Lookup(a: seq<char>, filename: string) returns (found: Option<(nat, nat)>)
    requires Walkable(a, 0) && '\0' !in filename
    ensures found.None? <==> filename !in Names(a, 0)
    ensures found.Some? ==> exists i :: FirstNamed(a, filename, i) && found.value == (Headers(a, 0)[i] + BLOCK, SizeOf(a, Headers(a, 0)[i]))
  {
    hide StringAt, NextHeader, SizeOf, Names, Headers, Walkable, OctalField, FirstNamed;
    WalkStart(a, 0);
    ghost var names, headers := Names(a, 0), Headers(a, 0);
    assert headers[0..] == headers && names[0..] == names;
    var h := 0;
    ghost var k := 0;
    while a[h] != '\0'
      invariant Walkable(a, h) && h < |a| && 0 <= k <= |names|
      invariant Headers(a, h) == headers[k..] && Names(a, h) == names[k..]
      invariant filename !in names[..k] && h < |a|
      invariant a[h] == '\0' ==> Names(a, h) == []
      decreases |a| - h
    {
      WalkStep(a, h, names, headers, k);
      var same := SameName(a, h, filename);
      var size := Oct2ulong(a, h + SIZE_AT);
      if same {
        SizeIs(a, h);
        FirstAt(a, filename, k);
        return Some((h + BLOCK, size));
      }
      h := TarNext(a, h);
      NotYet(names, filename, k);
      k := k + 1;
      WalkStart(a, h);
    }
    assert Names(a, h) == [];
    assert names[..k] == names;
    found := None;
  }

  ghost predicate FirstNamed(a: seq<char>, name: string, i: int)
    requires Walkable(a, 0)
  {
    0 <= i < |Names(a, 0)| && Names(a, 0)[i] == name && name !in Names(a, 0)[..i]
  }

  lemma FirstAt(a: seq<char>, name: string, i: int)
    requires Walkable(a, 0) && 0 <= i < |Names(a, 0)| && Names(a, 0)[i] == name && name !in Names(a, 0)[..i]
    ensures FirstNamed(a, name, i)
  {
  }

  lemma NotYet(names: seq<string>, name: string, k: nat)
    requires k < |names| && name !in names[..k] && names[k] != name
    ensures name !in names[..k + 1]
  {
    assert names[..k + 1] == names[..k] + [names[k]];
  }

  lemma WalkStart(a: seq<char>, h: nat)
    requires Walkable(a, h)
    ensures h < |a| && |Headers(a, h)| == |Names(a, h)|
    ensures a[h] == '\0' ==> Headers(a, h) == [] && Names(a, h) == []
    ensures a[h] != '\0' ==> |Headers(a, h)| > 0 && Headers(a, h)[0] == h
  {
  }

  lemma SizeIs(a: seq<char>, h: nat)
    ensures SizeOf(a, h) == OctalFrom(a, h + SIZE_AT, 0)
  {
  }

  // One step of the walk over headers and names.
  lemma WalkStep(a: seq<char>, h: nat, names: seq<string>, headers: seq<nat>, k: nat)
    requires Walkable(a, h) && a[h] != '\0' && k <= |headers| == |names|
    requires Headers(a, h) == headers[k..] && Names(a, h) == names[k..]
    ensures k < |headers| && headers[k] == h && names[k] == StringAt(a, h)
    ensures NextHeader(a, h) > h && Walkable(a, NextHeader(a, h))
    ensures Headers(a, NextHeader(a, h)) == headers[k + 1..] && Names(a, NextHeader(a, h)) == names[k + 1..]
    ensures h + |StringAt(a, h)| < |a|
  {
    NameEnds(a, h);
    assert headers[k..][0] == headers[k] && headers[k..][1..] == headers[k + 1..];
    assert names[k..][0] == names[k] && names[k..][1..] == names[k + 1..];
    assert Headers(a, h)[1..] == Headers(a, NextHeader(a, h));
    assert Names(a, h)[1..] == Names(a, NextHeader(a, h));
  }

  // match_prefix: where the rest of the name starts.
  method MatchPrefix(a: seq<char>, h: nat, prefix: string) returns (rest: Option<nat>)
    requires h + |StringAt(a, h)| < |a| && '\0' !in prefix
    ensures rest == if prefix <= StringAt(a, h) then Some(h + |prefix|) else None
  {
    ghost var name := StringAt(a, h);
    var i := 0;
    while i < |prefix|
      invariant 0 <= i <= |prefix| && i <= |name| && prefix[..i] <= name
    {
      assert prefix[i] in prefix;
      if a[h + i] != prefix[i] {
        return None;
      }
      i := i + 1;
    }
    assert prefix[..i] == prefix;
    rest := Some(h + |prefix|);
  }

  // first_component, with room for 99 characters.
  method FirstComponent(a: seq<char>, start: nat) returns (comp: string, isDir: bool)
    requires start + |StringAt(a, start)| < |a|
    ensures
      var c := Component(StringAt(a, start));
      comp == Cut(c) && isDir == (|c| <= COMP_CAP && |c| < |StringAt(a, start)|)
  {
    hide StringAt, Component;
    ghost var rest := StringAt(a, start);
    comp := "";
    while a[start + |comp|] != '\0' && a[start + |comp|] != '/' && |comp| < COMP_CAP
      invariant |comp| <= |rest| && |comp| <= COMP_CAP && comp == rest[..|comp|] && '/' !in comp
      decreases |rest| - |comp|
    {
      assert |comp| < |rest|;
      comp := comp + [a[start + |comp|]];
    }
    isDir := a[start + |comp|] == '/';
    if |comp| == |rest| || rest[|comp|] == '/' {
      ComponentIs(rest, comp);
    } else {
      ComponentReaches(rest, comp);
    }
  }

  lemma {:induction false} ComponentReaches(s: string, c: string)
    requires c < s && '/' !in c && s[|c|] != '/'
    ensures c < Component(s)
  {
    if c != "" {
      assert c[0] in c;
      assert c[1..] < s[1..] && s[1..][|c| - 1] == s[|c|];
      ComponentReaches(s[1..], c[1..]);
    }
  }

  lemma {:induction false} ComponentIs(s: string, c: string)
    requires c <= s && '/' !in c && (|c| < |s| ==> s[|c|] == '/')
    ensures Component(s) == c
  {
    if c != "" {
      assert c[0] in c;
      assert c[1..] <= s[1..];
      ComponentIs(s[1..], c[1..]);
    }
  }

  lemma {:induction false} StringAtRest(a: seq<char>, h: nat, k: nat)
    requires k <= |StringAt(a, h)|
    ensures StringAt(a, h + k) == StringAt(a, h)[k..]
    decreases k
  {
    if k > 0 {
      var s, t := StringAt(a, h), StringAt(a, h + 1);
      assert s == [a[h]] + t;
      hide StringAt;
      StringAtRest(a, h + 1, k - 1);
      assert s[k..] == t[k - 1..];
    }
  }

  // ---------------------------------------------------------------------------
  // The directory prefix
  // ---------------------------------------------------------------------------

  function WithSlash(s: string): string { if s != "" && s[|s| - 1] != '/' then s + "/" else s }

  function DropSlash(dir: string): string { if dir != "" && dir[0] == '/' then dir[1..] else dir }

  // "" for the top level, "bin/" for "/bin" or "bin".
  function Prefix(dir: Option<string>): string { WithSlash(DropSlash(if dir.None? then "" else dir.value)) }

  const PREFIX_CAP := 126

  function CutPrefix(dir: Option<string>): string {
    var s := DropSlash(if dir.None? then "" else dir.value);
    WithSlash(if |s| > PREFIX_CAP then s[..PREFIX_CAP] else s)
  }

  // The prefix buffer cuts long paths; names that fit it cannot tell the difference.
  lemma CutIsHarmless(dir: Option<string>, name: string)
    requires |name| <= PREFIX_CAP
    ensures ChildOf(CutPrefix(dir), name) == ChildOf(Prefix(dir), name)
  {
  }

  function Base(dir: Option<string>): string { DropSlash(if dir.None? then "" else dir.value) }

  // The prefix buffer shows the whole directory, its trailing slash included.
  predicate PrefixFits(dir: Option<string>) {
    var s := Base(dir);
    |s| <= PREFIX_CAP || (|s| == PREFIX_CAP + 1 && s[PREFIX_CAP] == '/' && s[PREFIX_CAP - 1] != '/')
  }

  lemma CutPrefixIff(dir: Option<string>)
    ensures CutPrefix(dir) == Prefix(dir) <==> PrefixFits(dir)
  {
    var s := Base(dir);
    if |s| > PREFIX_CAP {
      var c := s[..PREFIX_CAP];
      assert |WithSlash(c)| <= PREFIX_CAP + 1;
      if |s| == PREFIX_CAP + 1 && s[PREFIX_CAP] == '/' {
        assert s == c + "/";
      }
    }
  }

  // A file that a lookup finds in a directory that fits the buffer is in the directory's listing
  // exactly when its name fits the component buffer.
  lemma FoundInDirectory(dir: Option<string>, names: seq<string>, x: string)
    requires PrefixFits(dir) && Prefix(dir) + x in names && OneComponent(x)
    ensures Listed(Listing(CutPrefix(dir), names), x) <==> |x| <= COMP_CAP
  {
    hide Listing, Prefix, CutPrefix, PrefixFits, Component;
    CutPrefixIff(dir);
    FoundFilesAreListed(Prefix(dir), names, x);
  }

  lemma ComponentEnds(y: string, x: string)
    requires y != "" && y[|y| - 1] == '/'
    ensures Component(y + x) == Component(y)
  {
    hide Component;
    assert '/' in y;
    ComponentIs(y + x, Component(y));
  }

  // The cut prefix of a directory that does not fit is a proper part of the whole, or no part of it.
  lemma CutIsShorter(dir: Option<string>)
    requires !PrefixFits(dir)
    ensures |CutPrefix(dir)| <= |Prefix(dir)| && CutPrefix(dir) != Prefix(dir)
    ensures Prefix(dir) != "" && Prefix(dir)[|Prefix(dir)| - 1] == '/'
  {
    CutPrefixIff(dir);
  }

  lemma SameChild(prefix: string, whole: string, x: string)
    requires prefix < whole && whole[|whole| - 1] == '/'
    ensures
      var shown := ChildOf(prefix, whole + x);
      shown.Some? ==> shown.value.name == Cut(Component(whole[|prefix|..]))
  {
    hide Component;
    var y := whole[|prefix|..];
    assert (whole + x)[|prefix|..] == y + x;
    ComponentEnds(y, x);
  }

  // Of the files a and b in a directory that does not fit, the directory's listing lacks one.
  lemma {:induction false} LongDirectoryLoses(dir: Option<string>) returns (x: string)
    requires !PrefixFits(dir)
    ensures OneComponent(x) && |x| <= COMP_CAP && !Listed(Listing(CutPrefix(dir), [Prefix(dir) + x]), x)
  {
    hide Listing, Prefix, CutPrefix, PrefixFits, Component, ChildOf, Cut;
    var c, p := CutPrefix(dir), Prefix(dir);
    CutIsShorter(dir);
    ListingIsComplete(c, [p + "a"], "a");
    ListingIsComplete(c, [p + "b"], "b");
    if c <= p {
      SameChild(c, p, "a");
      SameChild(c, p, "b");
      x := if Cut(Component(p[|c|..])) == "a" then "b" else "a";
    } else {
      NoChild(c, p, "a");
      x := "a";
    }
  }

  lemma NoChild(prefix: string, whole: string, x: string)
    requires |prefix| <= |whole| && !(prefix <= whole)
    ensures ChildOf(prefix, whole + x).None?
  {
  }

  // Every file of a directory that a lookup can find, and that fits the component buffer, is in the
  // directory's listing, whatever else the archive holds, exactly when the directory fits the buffer.
  lemma {:induction false} FoundIsListedIff(dir: Option<string>)
    ensures (forall names, x ::
               OneComponent(x) && |x| <= COMP_CAP && Prefix(dir) + x in names ==> Listed(Listing(CutPrefix(dir), names), x))
            <==> PrefixFits(dir)
  {
    hide Listing, Prefix, CutPrefix, PrefixFits;
    if PrefixFits(dir) {
      forall names, x | OneComponent(x) && |x| <= COMP_CAP && Prefix(dir) + x in names ensures Listed(Listing(CutPrefix(dir), names), x) {
        FoundInDirectory(dir, names, x);
      }
    } else {
      var x := LongDirectoryLoses(dir);
      assert Prefix(dir) + x in [Prefix(dir) + x];
    }
  }

  function Run(c: char, n: nat): string { seq(n, _ => c) }

  // A directory name of 127 characters: its file x is found, and its listing is empty.
  lemma LongDirectoryIsEmpty()
    ensures
      var dir := Run('d', 127);
      var names := [dir + "/x"];
      Prefix(Some(dir)) + "x" in names && Listing(CutPrefix(Some(dir)), names) == []
  {
    var dir := Run('d', 127);
    var name := dir + "/x";
    assert Prefix(Some(dir)) == dir + "/";
    assert (dir + "/") + "x" == name;
    var cut := CutPrefix(Some(dir));
    assert cut == dir[..126] + "/";
    assert cut[126] == '/' && name[126] == 'd';
    assert ChildOf(cut, name) == None;
    var names := [name];
    assert names[..0] == [];
    assert Listing(cut, names[..0]) == [];
  }

  lemma {:induction false} CutListing(dir: Option<string>, names: seq<string>)
    requires forall i :: 0 <= i < |names| ==> |names[i]| <= PREFIX_CAP
    ensures Listing(CutPrefix(dir), names) == Listing(Prefix(dir), names)
  {
    if names != [] {
      CutListing(dir, names[..|names| - 1]);
      CutIsHarmless(dir, names[|names| - 1]);
    }
  }

  method NormalisePrefix(dir: Option<string>) returns (prefix: string)
    ensures prefix == CutPrefix(dir)
  {
    var p := if dir.None? then "" else dir.value;
    if p != "" && p[0] == '/' { p := p[1..]; }
    prefix := "";
    while |prefix| < |p| && |prefix| < PREFIX_CAP
      invariant |prefix| <= |p| && |prefix| <= PREFIX_CAP && prefix == p[..|prefix|]
      decreases |p| - |prefix|
    {
      prefix := prefix + [p[|prefix|]];
    }
    if |prefix| > 0 && prefix[|prefix| - 1] != '/' { prefix := prefix + "/"; }
  }

  // ---------------------------------------------------------------------------
  // initrd_readdir
  // ---------------------------------------------------------------------------

  lemma EmptyAtNul(a: seq<char>, h: nat)
    requires h < |a|
    ensures a[h] == '\0' <==> StringAt(a, h) == ""
  {
  }

  // One header seen from the directory: its child, if it shows one.
  method ShownAt(a: seq<char>, h: nat, prefix: string) returns (child: Option<Child>)
    requires Walkable(a, h) && a[h] != '\0' && '\0' !in prefix
    ensures child == ChildOf(prefix, StringAt(a, h))
  {
    hide StringAt, Walkable, Names, Headers, NextHeader, Component;
    ghost var name := StringAt(a, h);
    assert Headers(a, h)[0..] == Headers(a, h) && Names(a, h)[0..] == Names(a, h);
    WalkStep(a, h, Names(a, h), Headers(a, h), 0);
    var rest := MatchPrefix(a, h, prefix);
    if rest.None? { return None; }
    StringAtRest(a, h, |prefix|);
    EmptyAtNul(a, rest.value);
    if a[rest.value] == '\0' { return None; }
    var comp, isDir := FirstComponent(a, rest.value);
    if |comp| == 0 { return None; }
    if comp[0] == '.' && (|comp| == 1 || (|comp| == 2 && comp[1] == '.')) {
      assert comp == "." || comp == "..";
      return None;
    }
    child := Some(Child(comp, isDir));
  }

  // The dedup scan: has an earlier header shown this name?
  method SeenBefore(a: seq<char>, h: nat, prefix: string, name: string, ghost k: nat) returns (seen: bool)
    requires Walkable(a, 0) && Walkable(a, h) && a[h] != '\0' && '\0' !in prefix
    requires k < |Headers(a, 0)| && Headers(a, h) == Headers(a, 0)[k..]
    ensures seen <==> Listed(Listing(prefix, Names(a, 0)[..k]), name)
  {
    hide StringAt, NextHeader, ChildOf, Listing, Headers, Names, Walkable;
    ghost var names, headers := Names(a, 0), Headers(a, 0);
    SeenIffListed(prefix, names, k, name);
    WalkStart(a, h);
    assert headers[k] == Headers(a, h)[0] == h;
    assert headers[0..] == headers && names[0..] == names;
    var g := 0;
    ghost var m := 0;
    while g != h
      invariant Walkable(a, g) && 0 <= m <= k
      invariant Headers(a, g) == headers[m..] && Names(a, g) == names[m..]
      invariant forall i :: 0 <= i < m ==> !(ChildOf(prefix, names[i]).Some? && ChildOf(prefix, names[i]).value.name == name)
      decreases |a| - g
    {
      WalkStart(a, g);
      WalkStep(a, g, names, headers, m);
      var child := ShownAt(a, g, prefix);
      if child.Some? && child.value.name == name {
        return true;
      }
      g := TarNext(a, g);
      m := m + 1;
    }
    assert |Headers(a, h)| == |headers| - m;
    seen := false;
  }

  // The child at an index of the listing; -1 past its end.  Output that does not fit is cut.
  method ReadDir(a: seq<char>, dir: Option<string>, index: nat, out: array<char>, cap: nat) returns (r: int, isDir: bool)
    requires Walkable(a, 0) && cap <= out.Length && (dir.Some? ==> '\0' !in dir.value)
    modifies out
    ensures
      var children := Listing(CutPrefix(dir), Names(a, 0));
      && (r == 0 <==> cap > 0 && index < |children|) && (r == 0 || r == -1)
      && (r == -1 ==> out[..] == old(out[..]))
      && (r == 0 ==>
            var name := children[index].name;
            var n := if |name| < cap then |name| else cap - 1;
            && isDir == children[index].isDir
            && out[..n] == name[..n] && out[n] == '\0' && out[n + 1..] == old(out[n + 1..]))
  {
    hide StringAt, NextHeader, ChildOf, Listing, Listed, Prefix, CutPrefix, Headers, Names, Walkable;
    isDir := false;
    if cap == 0 { return -1, false; }
    var prefix := NormalisePrefix(dir);
    PrefixHasNoNul(dir);
    ghost var names, headers := Names(a, 0), Headers(a, 0);
    NothingListed(prefix);
    var distinct := 0;
    var h := 0;
    ghost var k := 0;
    assert names[..0] == [] && headers[0..] == headers && names[0..] == names;
    WalkStart(a, 0);
    while a[h] != '\0'
      invariant Walkable(a, h) && h < |a| && 0 <= k <= |names|
      invariant Headers(a, h) == headers[k..] && Names(a, h) == names[k..]
      invariant distinct == |Listing(prefix, names[..k])| <= index
      invariant out[..] == old(out[..])
      decreases |a| - h
    {
      WalkStep(a, h, names, headers, k);
      ListingStep(prefix, names, k);
      ListingGrows(prefix, names, k + 1);
      var child := ShownAt(a, h, prefix);
      if child.Some? {
        var seen := SeenBefore(a, h, prefix, child.value.name, k);
        if !seen {
          if distinct == index {
            CopyOut(child.value.name, out, cap);
            return 0, child.value.isDir;
          }
          distinct := distinct + 1;
        }
      }
      h := TarNext(a, h);
      k := k + 1;
      WalkStart(a, h);
    }
    WalkStart(a, h);
    assert names[..k] == names;
    r := -1;
  }

  method CopyOut(name: string, out: array<char>, cap: nat)
    requires 0 < cap <= out.Length
    modifies out
    ensures
      var n := if |name| < cap then |name| else cap - 1;
      out[..n] == name[..n] && out[n] == '\0' && out[n + 1..] == old(out[n + 1..])
  {
    var o := 0;
    while o < |name| && o < cap - 1
      invariant 0 <= o <= |name| && o <= cap - 1
      invariant forall k :: 0 <= k < o ==> out[k] == name[k]
      invariant forall k :: o <= k < out.Length ==> out[k] == old(out[k])
    {
      out[o] := name[o];
      o := o + 1;
    }
    out[o] := '\0';
  }

  lemma PrefixHasNoNul(dir: Option<string>)
    requires dir.Some? ==> '\0' !in dir.value
    ensures '\0' !in CutPrefix(dir)
  {
  }

  lemma NothingListed(prefix: string)
    ensures Listing(prefix, []) == []
  {
  }

  lemma ListingStep(prefix: string, names: seq<string>, k: nat)
    requires k < |names|
    ensures
      var before, after := Listing(prefix, names[..k]), Listing(prefix, names[..k + 1]);
      match ChildOf(prefix, names[k])
      case None => after == before
      case Some(c) => after == if Listed(before, c.name) then before else before + [c]
  {
    hide ChildOf, Listed;
    assert names[..k + 1][..k] == names[..k];
  }

  lemma {:induction false} ListingGrows(prefix: string, names: seq<string>, k: nat)
    requires k <= |names|
    ensures Listing(prefix, names[..k]) <= Listing(prefix, names)
    decreases |names|
  {
    hide ChildOf, Listed;
    if k < |names| {
      var n := |names| - 1;
      ListingGrows(prefix, names[..n], k);
      assert names[..n][..k] == names[..k];
    } else {
      assert names[..k] == names;
    }
  }
}
