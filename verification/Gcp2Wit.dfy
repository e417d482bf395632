/**
 scripts/gcp2wit.py: from the syscall manifest to a WIT document.  Syscalls are put
 into interfaces by their first pledge, ordered inside an interface by number, and
 printed.  The manifest is a dictionary; its key order is the order of the sequence.
 */
module Gcp2Wit {

  // pledge and pledge_classes of the manifest, and the syscall's number.
  datatype Syscall = Syscall(pledge: seq<string>, classes: seq<string>, number: int)

  datatype Entry = Entry(name: string, syscall: Syscall)

  const PLEDGE_INTERFACES: seq<string> := [
    "core", "compute", "time", "fs_read", "fs_write", "ipc_send", "ipc_recv", "spawn", "sys_query", "sys_control",
    "net_client", "net_server", "storage_client", "storage_server", "input_client", "input_server", "ai_query", "ai_local"]

  // ---------------------------------------------------------------------------
  // String order
  // ---------------------------------------------------------------------------

  // Code point order.
  predicate Le(a: string, b: string) {
    a == "" || (b != "" && (a[0] < b[0] || (a[0] == b[0] && Le(a[1..], b[1..]))))
  }

  lemma {:induction false} LeTotal(a: string, b: string)
    ensures Le(a, b) || Le(b, a)
  {
    if a != "" && b != "" && a[0] == b[0] { LeTotal(a[1..], b[1..]); }
  }

  lemma {:induction false} LeTransitive(a: string, b: string, c: string)
    requires Le(a, b) && Le(b, c)
    ensures Le(a, c)
  {
    if a != "" && a[0] == b[0] && b[0] == c[0] { LeTransitive(a[1..], b[1..], c[1..]); }
  }

  lemma {:induction false} LeAntisymmetric(a: string, b: string)
    requires Le(a, b) && Le(b, a)
    ensures a == b
  {
    if a != "" { LeAntisymmetric(a[1..], b[1..]); }
  }

  ghost predicate IsLeast(m: string, s: set<string>) { m in s && forall y :: y in s ==> Le(m, y) }

  lemma {:induction false} LeastExists(s: set<string>)
    requires s != {}
    ensures exists m :: IsLeast(m, s)
    decreases |s|
  {
    var x :| x in s;
    LeTotal(x, x);
    if s == {x} {
      assert IsLeast(x, s);
    } else {
      LeastExists(s - {x});
      var l :| IsLeast(l, s - {x});
      LeTotal(x, l);
      var m := if Le(x, l) then x else l;
      forall y | y in s ensures Le(m, y) {
        if y != x && Le(x, l) { LeTransitive(x, l, y); }
      }
      assert IsLeast(m, s);
    }
  }

  function Least(s: set<string>): (m: string)
    requires s != {}
    ensures IsLeast(m, s)
  {
    LeastExists(s);
    assert forall a, b | IsLeast(a, s) && IsLeast(b, s) :: a == b by {
      forall a, b | IsLeast(a, s) && IsLeast(b, s) ensures a == b { LeAntisymmetric(a, b); }
    }
    assert forall a | a in s && forall y | y in s :: Le(a, y) :: IsLeast(a, s);
    var m :| m in s && forall y | y in s :: Le(m, y);
    m
  }

  // sorted() of a set
  function Sorted(s: set<string>): (r: seq<string>)
    ensures forall x :: x in r <==> x in s
    ensures |r| == |s|
    decreases |s|
  {
    if s == {} then [] else [Least(s)] + Sorted(s - {Least(s)})
  }

  // ---------------------------------------------------------------------------
  // Interfaces
  // ---------------------------------------------------------------------------

  // str.strip()'s white space, in ASCII
  predicate IsSpace(c: char) { c == ' ' || '\t' <= c <= '\r' || '\U{1c}' <= c <= '\U{1f}' }

  function LStrip(s: string): string { if s != "" && IsSpace(s[0]) then LStrip(s[1..]) else s }

  function RStrip(s: string): string { if s != "" && IsSpace(s[|s| - 1]) then RStrip(s[..|s| - 1]) else s }

  function UpToBar(s: string): string { if s == "" || s[0] == '|' then "" else [s[0]] + UpToBar(s[1..]) }

  // p.split("|")[0].strip()
  function Head(p: string): string { RStrip(LStrip(UpToBar(p))) }

  // sorted() of a list of strings
  function InsertString(x: string, s: seq<string>): seq<string> {
    if s == [] || Le(x, s[0]) then [x] + s else [s[0]] + InsertString(x, s[1..])
  }

  function SortStrings(s: seq<string>): seq<string> { if s == [] then [] else InsertString(s[0], SortStrings(s[1..])) }

  function FirstKnown(ps: seq<string>): string {
    if ps == [] then "" else if Head(ps[0]) in PLEDGE_INTERFACES then Head(ps[0]) else FirstKnown(ps[1..])
  }

  // first_pledge
  function Interface(sc: Syscall): string {
    var pledges := if sc.pledge != [] then sc.pledge else sc.classes;
    if pledges == [] then "core"
    else
      var known := FirstKnown(SortStrings(pledges));
      if known != "" then known else if Head(pledges[0]) != "" then Head(pledges[0]) else "core"
  }

  // ---------------------------------------------------------------------------
  // Buckets
  // ---------------------------------------------------------------------------

  function Members(es: seq<Entry>, iface: string): seq<Entry> {
    if es == [] then []
    else (if Interface(es[0].syscall) == iface then [es[0]] else []) + Members(es[1..], iface)
  }

  // list.sort(key=number): stable, so an entry goes before later ones with its number.
  function Insert(x: Entry, s: seq<Entry>): seq<Entry> {
    if s == [] || x.syscall.number <= s[0].syscall.number then [x] + s else [s[0]] + Insert(x, s[1..])
  }

  function SortByNumber(s: seq<Entry>): seq<Entry> { if s == [] then [] else Insert(s[0], SortByNumber(s[1..])) }

  function Bucket(es: seq<Entry>, iface: string): seq<Entry> { SortByNumber(Members(es, iface)) }

  ghost predicate InOrder(s: seq<Entry>) { forall i, j :: 0 <= i < j < |s| ==> s[i].syscall.number <= s[j].syscall.number }

  lemma {:induction false} InsertMembers(x: Entry, s: seq<Entry>)
    ensures multiset(Insert(x, s)) == multiset{x} + multiset(s)
    ensures forall e :: e in Insert(x, s) <==> e == x || e in s
  {
    if s != [] && x.syscall.number > s[0].syscall.number {
      InsertMembers(x, s[1..]);
      assert s == [s[0]] + s[1..];
    }
  }

  lemma {:induction false} InsertKeepsOrder(x: Entry, s: seq<Entry>)
    requires InOrder(s)
    ensures InOrder(Insert(x, s))
  {
    if s != [] && x.syscall.number > s[0].syscall.number {
      InsertKeepsOrder(x, s[1..]);
      InsertMembers(x, s[1..]);
      InOrderCons(s[0], Insert(x, s[1..]));
    }
  }

  lemma InOrderCons(x: Entry, s: seq<Entry>)
    requires InOrder(s) && forall e :: e in s ==> x.syscall.number <= e.syscall.number
    ensures InOrder([x] + s)
  {
    var r := [x] + s;
    assert forall i :: 1 <= i < |r| ==> r[i] == s[i - 1] && r[i] in s;
  }

  lemma {:induction false} SortIsSorted(s: seq<Entry>)
    ensures InOrder(SortByNumber(s)) && multiset(SortByNumber(s)) == multiset(s)
  {
    if s != [] {
      SortIsSorted(s[1..]);
      InsertKeepsOrder(s[0], SortByNumber(s[1..]));
      InsertMembers(s[0], SortByNumber(s[1..]));
      assert s == [s[0]] + s[1..];
    }
  }

  lemma {:induction false} MembersCount(es: seq<Entry>, iface: string, e: Entry)
    ensures multiset(Members(es, iface))[e] == if Interface(e.syscall) == iface then multiset(es)[e] else 0
  {
    if es != [] {
      MembersCount(es[1..], iface, e);
      assert es == [es[0]] + es[1..];
    }
  }

  // Every syscall is in the bucket of its interface as often as in the manifest, and in no other.
  lemma {:induction false} EachSyscallInOneInterface(es: seq<Entry>, iface: string, e: Entry)
    ensures multiset(Bucket(es, iface))[e] == if Interface(e.syscall) == iface then multiset(es)[e] else 0
    ensures InOrder(Bucket(es, iface))
  {
    SortIsSorted(Members(es, iface));
    MembersCount(es, iface, e);
  }

  // The entries with one number, in order.
  function Numbered(s: seq<Entry>, n: int): seq<Entry> {
    if s == [] then [] else (if s[0].syscall.number == n then [s[0]] else []) + Numbered(s[1..], n)
  }

  lemma {:induction false} InsertIsStable(x: Entry, s: seq<Entry>, n: int)
    requires InOrder(s)
    ensures Numbered(Insert(x, s), n) == (if x.syscall.number == n then [x] else []) + Numbered(s, n)
  {
    if s == [] || x.syscall.number <= s[0].syscall.number {
      assert ([x] + s)[1..] == s;
    } else {
      InsertIsStable(x, s[1..], n);
      assert ([s[0]] + Insert(x, s[1..]))[1..] == Insert(x, s[1..]);
      if x.syscall.number == n {
        assert Numbered(s, n) == [] + Numbered(s[1..], n) == Numbered(s[1..], n);
      } else {
        assert [] + Numbered(s, n) == Numbered(s, n) && [] + Numbered(s[1..], n) == Numbered(s[1..], n);
      }
    }
  }

  // The sort orders by number, loses nothing, and keeps the order of entries with the same number.
  lemma {:induction false} SortIsStable(s: seq<Entry>, n: int)
    ensures InOrder(SortByNumber(s)) && multiset(SortByNumber(s)) == multiset(s)
    ensures Numbered(SortByNumber(s), n) == Numbered(s, n)
  {
    SortIsSorted(s);
    if s != [] {
      SortIsStable(s[1..], n);
      InsertIsStable(s[0], SortByNumber(s[1..]), n);
    }
  }

  // ---------------------------------------------------------------------------
  // The document
  // ---------------------------------------------------------------------------

  function Lower(s: string): string {
    seq(|s|, i requires 0 <= i < |s| => if 'A' <= s[i] <= 'Z' then (s[i] as int + 32) as char else s[i])
  }

  function Dashes(s: string): string { seq(|s|, i requires 0 <= i < |s| => if s[i] == '_' then '-' else s[i]) }

  function WitIdent(name: string): string {
    var s := Lower(name);
    Dashes(if "sys-" <= s || "sys_" <= s then s[4..] else s)
  }

  function IfaceIdent(pledge: string): string { Dashes(Lower(pledge)) }

  const CANONICAL_ERRORS: seq<string> := [
    "e-inval", "e-perm", "e-pledge", "e-nomem", "e-noent", "e-busy", "e-fault", "e-shutdown", "e-stale", "e-other"]

  function ErrorVariant(iface: string): seq<string> {
    ["  variant " + IfaceIdent(iface) + "-error {"]
    + seq(|CANONICAL_ERRORS|, i requires 0 <= i < |CANONICAL_ERRORS| => "    " + CANONICAL_ERRORS[i] + ",")
    + ["  }"]
  }

  function FuncLine(e: Entry, iface: string): string {
    "  " + WitIdent(e.name) + ": func(args: list<u64>) -> result<u64, " + IfaceIdent(iface) + "-error>;"
  }

  function FuncLines(es: seq<Entry>, iface: string): seq<string> {
    if es == [] then [] else FuncLines(es[..|es| - 1], iface) + [FuncLine(es[|es| - 1], iface)]
  }

  function InterfaceLines(iface: string, es: seq<Entry>): seq<string> {
    if es == [] then []
    else ["interface " + IfaceIdent(iface) + " {"] + ErrorVariant(iface) + [""] + FuncLines(es, iface) + ["}", ""]
  }

  function ImportLines(ifaces: seq<string>): seq<string> {
    if ifaces == [] then [] else ImportLines(ifaces[..|ifaces| - 1]) + ["  import " + IfaceIdent(ifaces[|ifaces| - 1]) + ";"]
  }

  const DOC_ENTRY: string := "  " + "/// Module entry point. Returns 0 on success, non-zero on failure."
  const DOC_ONCE: string := "  " + "/// wasmd-worker invokes this exactly once after instantiate."

  function WorldLines(ifaces: seq<string>): seq<string> {
    ["world wasmd-guest {"] + ImportLines(ifaces)
    + ["", DOC_ENTRY,
       DOC_ONCE, "  export start: func() -> s32;", "}"]
  }

  const NOTE_GENERATED: string := "//" + " AUTO-GENERATED by scripts/gcp2wit.py from etc/gcp.json. DO NOT EDIT."
  const NOTE_PHASE: string := "//" + " Phase 26 Stage C. Regenerate by re-running the generator."

  const PREAMBLE: seq<string> := [
    NOTE_GENERATED, NOTE_PHASE, "", "package grahaos:gcp@1.0.0;", ""]

  // Canonical interfaces with at least one syscall, in canonical order.
  function Canonical(es: seq<Entry>, n: nat): seq<string>
    requires n <= |PLEDGE_INTERFACES|
  {
    if n == 0 then []
    else Canonical(es, n - 1) + if Bucket(es, PLEDGE_INTERFACES[n - 1]) != [] then [PLEDGE_INTERFACES[n - 1]] else []
  }

  function Extras(es: seq<Entry>): set<string> {
    set i | 0 <= i < |es| && Interface(es[i].syscall) !in PLEDGE_INTERFACES :: Interface(es[i].syscall)
  }

  function Populated(es: seq<Entry>): seq<string> { Canonical(es, |PLEDGE_INTERFACES|) + Sorted(Extras(es)) }

  function BodyLines(es: seq<Entry>, ifaces: seq<string>): seq<string> {
    if ifaces == [] then []
    else BodyLines(es, ifaces[..|ifaces| - 1]) + InterfaceLines(ifaces[|ifaces| - 1], Bucket(es, ifaces[|ifaces| - 1]))
  }

  function DocumentLines(es: seq<Entry>): seq<string> {
    PREAMBLE + BodyLines(es, Populated(es)) + WorldLines(Populated(es))
  }

  lemma {:induction false} MembersNonEmpty(es: seq<Entry>, iface: string)
    ensures Members(es, iface) != [] <==> exists i :: 0 <= i < |es| && Interface(es[i].syscall) == iface
  {
    hide Interface;
    if es != [] {
      MembersNonEmpty(es[1..], iface);
      if i :| 0 <= i < |es| && Interface(es[i].syscall) == iface {
        if i > 0 { assert es[1..][i - 1] == es[i]; }
      }
      if Members(es[1..], iface) != [] {
        var i :| 0 <= i < |es[1..]| && Interface(es[1..][i].syscall) == iface;
        assert es[i + 1] == es[1..][i];
      }
    }
  }

  lemma BucketNonEmpty(es: seq<Entry>, iface: string)
    ensures Bucket(es, iface) != [] <==> exists i :: 0 <= i < |es| && Interface(es[i].syscall) == iface
  {
    hide Interface;
    MembersNonEmpty(es, iface);
    SortIsSorted(Members(es, iface));
    assert |multiset(Bucket(es, iface))| == |multiset(Members(es, iface))|;
  }

  lemma {:induction false} CanonicalMembers(es: seq<Entry>, n: nat, iface: string)
    requires n <= |PLEDGE_INTERFACES|
    ensures iface in Canonical(es, n) <==> iface in PLEDGE_INTERFACES[..n] && Bucket(es, iface) != []
  {
    hide Bucket;
    if n > 0 {
      CanonicalMembers(es, n - 1, iface);
      assert PLEDGE_INTERFACES[..n] == PLEDGE_INTERFACES[..n - 1] + [PLEDGE_INTERFACES[n - 1]];
    }
  }

  // The document has, and its world imports, exactly the interfaces some syscall falls into.
  lemma {:induction false} PopulatedExactly(es: seq<Entry>, iface: string)
    ensures iface in Populated(es) <==> exists i :: 0 <= i < |es| && Interface(es[i].syscall) == iface
  {
    hide Interface, Bucket, Canonical, Sorted;
    CanonicalMembers(es, |PLEDGE_INTERFACES|, iface);
    assert PLEDGE_INTERFACES[..|PLEDGE_INTERFACES|] == PLEDGE_INTERFACES;
    BucketNonEmpty(es, iface);
    assert iface in Sorted(Extras(es)) <==> iface in Extras(es);
  }

  ghost predicate Distinct(s: seq<string>) { forall i, j :: 0 <= i < j < |s| ==> s[i] != s[j] }

  lemma ConsDistinct(x: string, s: seq<string>)
    requires Distinct(s) && x !in s
    ensures Distinct([x] + s)
  {
  }

  lemma {:induction false} SortedDistinct(s: set<string>)
    ensures Distinct(Sorted(s))
    decreases |s|
  {
    hide Least, Distinct;
    if s == {} {
      assert Distinct([]) by { NoneDistinct(); }
    } else {
      var m := Least(s);
      SortedDistinct(s - {m});
      ConsDistinct(m, Sorted(s - {m}));
    }
  }

  lemma NoneDistinct()
    ensures Distinct([])
  {
  }

  lemma {:induction false} CanonicalDistinct(es: seq<Entry>, n: nat)
    requires n <= |PLEDGE_INTERFACES|
    ensures Distinct(Canonical(es, n)) && forall x :: x in Canonical(es, n) ==> x in PLEDGE_INTERFACES[..n]
  {
    hide Bucket;
    if n > 0 {
      CanonicalDistinct(es, n - 1);
      PledgesDistinct();
      SnocDistinct(Canonical(es, n - 1), PLEDGE_INTERFACES, n - 1);
    }
  }

  // Where a pledge stands in the list, told by its length and one of its characters.
  ghost function PledgeAt(s: string): int {
    var n := |s|;
    if n == 4 then if s[0] == 'c' then 0 else 2
    else if n == 5 then 7
    else if n == 7 then if s[0] == 'c' then 1 else 3
    else if n == 8 then
      if s[7] == 'e' then 4 else if s[7] == 'd' then 5 else if s[7] == 'v' then 6 else if s[7] == 'y' then 16 else 17
    else if n == 9 then 8
    else if n == 10 then if s[9] == 't' then 10 else 11
    else if n == 11 then 9
    else if n == 12 then if s[11] == 't' then 14 else 15
    else if n == 14 then if s[13] == 't' then 12 else 13
    else -1
  }

  lemma PledgesDistinct()
    ensures Distinct(PLEDGE_INTERFACES)
  {
    assert forall i :: 0 <= i < |PLEDGE_INTERFACES| ==> PledgeAt(PLEDGE_INTERFACES[i]) == i;
  }

  lemma SnocDistinct(c: seq<string>, from: seq<string>, n: nat)
    requires n < |from| && Distinct(from) && Distinct(c) && forall x :: x in c ==> x in from[..n]
    ensures Distinct(c + [from[n]]) && forall x :: x in c + [from[n]] ==> x in from[..n + 1]
    ensures forall x :: x in c ==> x in from[..n + 1]
  {
    assert from[..n + 1] == from[..n] + [from[n]];
    forall j | 0 <= j < |c| ensures c[j] != from[n] { assert c[j] in c; }
  }

  // The interfaces of the document are different pledges; whether they print differently is decided below.
  lemma PopulatedDistinct(es: seq<Entry>)
    ensures Distinct(Populated(es))
  {
    hide Bucket, Sorted, Canonical, Interface;
    var c, x := Canonical(es, |PLEDGE_INTERFACES|), Sorted(Extras(es));
    CanonicalDistinct(es, |PLEDGE_INTERFACES|);
    SortedDistinct(Extras(es));
    assert forall i :: 0 <= i < |c| ==> c[i] in c;
    assert forall i :: 0 <= i < |x| ==> x[i] in x && x[i] in Extras(es);
  }

  function ImportLine(iface: string): string { "  import " + IfaceIdent(iface) + ";" }

  function BlockHead(iface: string): string { "interface " + IfaceIdent(iface) + " {" }

  lemma {:induction false} ImportLinesAt(ifaces: seq<string>)
    ensures |ImportLines(ifaces)| == |ifaces|
    ensures forall k :: 0 <= k < |ifaces| ==> ImportLines(ifaces)[k] == ImportLine(ifaces[k])
  {
    hide IfaceIdent;
    if ifaces != [] { ImportLinesAt(ifaces[..|ifaces| - 1]); }
  }

  // The lines of a document that open an interface block.
  predicate OpensBlock(line: string) { "interface " <= line }

  function Openings(lines: seq<string>): seq<string> {
    if lines == [] then []
    else Openings(lines[..|lines| - 1]) + if OpensBlock(lines[|lines| - 1]) then [lines[|lines| - 1]] else []
  }

  function BlockHeads(ifaces: seq<string>): seq<string> {
    if ifaces == [] then [] else BlockHeads(ifaces[..|ifaces| - 1]) + [BlockHead(ifaces[|ifaces| - 1])]
  }

  lemma {:induction false} OpeningsConcat(a: seq<string>, b: seq<string>)
    ensures Openings(a + b) == Openings(a) + Openings(b)
    decreases |b|
  {
    hide OpensBlock;
    if b == [] {
      assert a + b == a;
    } else {
      assert (a + b)[..|a + b| - 1] == a + b[..|b| - 1];
      OpeningsConcat(a, b[..|b| - 1]);
    }
  }

  lemma {:induction false} NoOpenings(lines: seq<string>)
    requires forall i :: 0 <= i < |lines| ==> !OpensBlock(lines[i])
    ensures Openings(lines) == []
  {
    hide OpensBlock;
    if lines != [] { NoOpenings(lines[..|lines| - 1]); }
  }

  // A line with another first character opens no block.
  lemma OtherStart(line: string)
    requires line == "" || line[0] != 'i'
    ensures !OpensBlock(line)
  {
  }

  lemma {:induction false} FuncLinesOpenNothing(es: seq<Entry>, iface: string)
    ensures Openings(FuncLines(es, iface)) == []
  {
    hide IfaceIdent, WitIdent;
    FuncLinesAt(es, iface);
    var lines := FuncLines(es, iface);
    forall i | 0 <= i < |lines| ensures !OpensBlock(lines[i]) { OtherStart(lines[i]); }
    NoOpenings(lines);
  }

  lemma ErrorVariantOpensNothing(iface: string)
    ensures Openings(ErrorVariant(iface)) == []
  {
    hide IfaceIdent;
    var lines := ErrorVariant(iface);
    forall i | 0 <= i < |lines| ensures !OpensBlock(lines[i]) { OtherStart(lines[i]); }
    NoOpenings(lines);
  }

  // A block is opened by its first line and by no other.
  lemma BlockOpensOnce(es: seq<Entry>, iface: string)
    requires Bucket(es, iface) != []
    ensures Openings(InterfaceLines(iface, Bucket(es, iface))) == [BlockHead(iface)]
  {
    hide Bucket, IfaceIdent, ErrorVariant, FuncLines, Openings;
    var fs := FuncLines(Bucket(es, iface), iface);
    var head := [BlockHead(iface)];
    assert InterfaceLines(iface, Bucket(es, iface)) == head + ErrorVariant(iface) + [""] + fs + ["}", ""];
    OpeningsConcat(head + ErrorVariant(iface) + [""] + fs, ["}", ""]);
    OpeningsConcat(head + ErrorVariant(iface) + [""], fs);
    OpeningsConcat(head + ErrorVariant(iface), [""]);
    OpeningsConcat(head, ErrorVariant(iface));
    ErrorVariantOpensNothing(iface);
    FuncLinesOpenNothing(Bucket(es, iface), iface);
    NoOpenings([""]);
    NoOpenings(["}", ""]);
    OneOpening(BlockHead(iface));
  }

  lemma OneOpening(line: string)
    requires OpensBlock(line)
    ensures Openings([line]) == [line]
  {
    assert [line][..0] == [];
    assert Openings([]) == [];
  }

  lemma {:induction false} BodyOpenings(es: seq<Entry>, ifaces: seq<string>)
    requires forall i :: 0 <= i < |ifaces| ==> Bucket(es, ifaces[i]) != []
    ensures Openings(BodyLines(es, ifaces)) == BlockHeads(ifaces)
    decreases |ifaces|
  {
    hide Bucket, InterfaceLines, BlockHead;
    if ifaces == [] {
      assert Openings([]) == [];
    } else {
      var n := |ifaces| - 1;
      BodyOpenings(es, ifaces[..n]);
      BlockOpensOnce(es, ifaces[n]);
      hide Openings;
      OpeningsConcat(BodyLines(es, ifaces[..n]), InterfaceLines(ifaces[n], Bucket(es, ifaces[n])));
    }
  }

  lemma ImportsOpenNothing(ifaces: seq<string>)
    ensures Openings(ImportLines(ifaces)) == []
  {
    hide IfaceIdent, ImportLines;
    ImportLinesAt(ifaces);
    var lines := ImportLines(ifaces);
    forall i | 0 <= i < |lines| ensures !OpensBlock(lines[i]) {
      assert ImportLine(ifaces[i])[0] == ' ';
      OtherStart(lines[i]);
    }
    NoOpenings(lines);
  }

  // Five lines, none of which opens a block.
  lemma FiveOpenNothing(a: string, b: string, c: string, d: string, e: string)
    requires !OpensBlock(a) && !OpensBlock(b) && !OpensBlock(c) && !OpensBlock(d) && !OpensBlock(e)
    ensures Openings([a, b, c, d, e]) == []
  {
    hide OpensBlock;
    NoOpenings([a, b, c, d, e]);
  }

  lemma WorldOpensNothing(ifaces: seq<string>)
    ensures Openings(WorldLines(ifaces)) == []
  {
    hide IfaceIdent, ImportLines, Openings;
    var head := "world wasmd-guest {";
    assert head[0] == 'w';
    OtherStart(head);
    NoOpenings([head]);
    var c0 := DOC_ENTRY;
    var c1, c2 := DOC_ONCE, "  export start: func() -> s32;";
    assert c0[0] == ' ' && c1[0] == ' ' && c2[0] == ' ' && "}"[0] == '}';
    OtherStart("");
    OtherStart(c0);
    OtherStart(c1);
    OtherStart(c2);
    OtherStart("}");
    FiveOpenNothing("", c0, c1, c2, "}");
    ImportsOpenNothing(ifaces);
    OpeningsConcat([head] + ImportLines(ifaces), ["", c0, c1, c2, "}"]);
    OpeningsConcat([head], ImportLines(ifaces));
  }

  lemma PreambleOpensNothing()
    ensures Openings(PREAMBLE) == []
  {
    hide Openings;
    assert PREAMBLE[0][0] == '/' && PREAMBLE[1][0] == '/' && PREAMBLE[3][0] == 'p';
    OtherStart(PREAMBLE[0]);
    OtherStart(PREAMBLE[1]);
    OtherStart(PREAMBLE[2]);
    OtherStart(PREAMBLE[3]);
    OtherStart(PREAMBLE[4]);
    FiveOpenNothing(PREAMBLE[0], PREAMBLE[1], PREAMBLE[2], PREAMBLE[3], PREAMBLE[4]);
    assert PREAMBLE == [PREAMBLE[0], PREAMBLE[1], PREAMBLE[2], PREAMBLE[3], PREAMBLE[4]];
  }

  // The lines of the document that open a block are those of its interfaces, in order.
  lemma {:induction false} DocumentOpenings(es: seq<Entry>)
    ensures Openings(DocumentLines(es)) == BlockHeads(Populated(es))
  {
    hide Populated, BodyLines, WorldLines, Bucket, Openings, BlockHeads, Interface;
    var p := Populated(es);
    forall i | 0 <= i < |p| ensures Bucket(es, p[i]) != [] {
      PopulatedExactly(es, p[i]);
      BucketNonEmpty(es, p[i]);
    }
    BodyOpenings(es, p);
    WorldOpensNothing(p);
    PreambleOpensNothing();
    OpeningsConcat(PREAMBLE + BodyLines(es, p), WorldLines(p));
    OpeningsConcat(PREAMBLE, BodyLines(es, p));
  }

  lemma {:induction false} BlockHeadsAt(ifaces: seq<string>)
    ensures |BlockHeads(ifaces)| == |ifaces|
    ensures forall k :: 0 <= k < |ifaces| ==> BlockHeads(ifaces)[k] == BlockHead(ifaces[k])
  {
    hide BlockHead;
    if ifaces != [] { BlockHeadsAt(ifaces[..|ifaces| - 1]); }
  }

  lemma LinesShowIdents(x: string, y: string)
    ensures ImportLine(x) == ImportLine(y) <==> IfaceIdent(x) == IfaceIdent(y)
    ensures BlockHead(x) == BlockHead(y) <==> IfaceIdent(x) == IfaceIdent(y)
  {
    hide IfaceIdent;
    var c, d := IfaceIdent(x), IfaceIdent(y);
    if ImportLine(x) == ImportLine(y) {
      assert |c| == |d|;
      assert ImportLine(x)[9..9 + |c|] == c && ImportLine(y)[9..9 + |d|] == d;
    }
    if BlockHead(x) == BlockHead(y) {
      assert |c| == |d|;
      assert BlockHead(x)[10..10 + |c|] == c && BlockHead(y)[10..10 + |d|] == d;
    }
  }

  predicate SameIdent(e: Entry, f: Entry) { IfaceIdent(Interface(e.syscall)) == IfaceIdent(Interface(f.syscall)) }

  // Different interfaces in use have different identifiers.
  ghost predicate IdentsApart(es: seq<Entry>) {
    forall i, j :: 0 <= i < |es| && 0 <= j < |es| && SameIdent(es[i], es[j]) ==> Interface(es[i].syscall) == Interface(es[j].syscall)
  }

  ghost predicate PrintApart(ifaces: seq<string>) {
    forall a, b :: 0 <= a < b < |ifaces| ==> IfaceIdent(ifaces[a]) != IfaceIdent(ifaces[b])
  }

  lemma PrintApartIff(es: seq<Entry>)
    ensures PrintApart(Populated(es)) <==> IdentsApart(es)
  {
    hide Populated, Interface, IfaceIdent;
    var p := Populated(es);
    PopulatedDistinct(es);
    if PrintApart(p) {
      forall i, j | 0 <= i < |es| && 0 <= j < |es| && SameIdent(es[i], es[j])
        ensures Interface(es[i].syscall) == Interface(es[j].syscall)
      {
        PopulatedExactly(es, Interface(es[i].syscall));
        PopulatedExactly(es, Interface(es[j].syscall));
        var a :| 0 <= a < |p| && p[a] == Interface(es[i].syscall);
        var b :| 0 <= b < |p| && p[b] == Interface(es[j].syscall);
      }
    }
    if IdentsApart(es) {
      forall a, b | 0 <= a < b < |p| ensures IfaceIdent(p[a]) != IfaceIdent(p[b]) {
        PopulatedExactly(es, p[a]);
        PopulatedExactly(es, p[b]);
        var i :| 0 <= i < |es| && Interface(es[i].syscall) == p[a];
        var j :| 0 <= j < |es| && Interface(es[j].syscall) == p[b];
        assert SameIdent(es[i], es[j]) <==> IfaceIdent(p[a]) == IfaceIdent(p[b]);
      }
    }
  }

  // No interface is imported, or its block opened, twice exactly when the identifiers keep the
  // interfaces in use apart.
  lemma {:induction false} PrintedOnceIff(es: seq<Entry>)
    ensures Distinct(ImportLines(Populated(es))) <==> IdentsApart(es)
    ensures Distinct(Openings(DocumentLines(es))) <==> IdentsApart(es)
  {
    hide Populated, IfaceIdent, Interface, IdentsApart, ImportLines, ImportLine, BlockHead, BlockHeads, Openings, DocumentLines;
    var p := Populated(es);
    PrintApartIff(es);
    ImportLinesAt(p);
    BlockHeadsAt(p);
    DocumentOpenings(es);
    var l, h := ImportLines(p), BlockHeads(p);
    forall a, b | 0 <= a < b < |p|
      ensures l[a] == l[b] <==> IfaceIdent(p[a]) == IfaceIdent(p[b])
      ensures h[a] == h[b] <==> IfaceIdent(p[a]) == IfaceIdent(p[b])
    {
      LinesShowIdents(p[a], p[b]);
    }
  }

  // The pledges fs-read and fs_read are two interfaces with one identifier.
  lemma TwoPledgesOneIdent()
    ensures
      var es := [Entry("a", Syscall(["fs-read"], [], 1)), Entry("b", Syscall(["fs_read"], [], 2))];
      !Distinct(ImportLines(Populated(es))) && !Distinct(Openings(DocumentLines(es)))
  {
    hide Populated, ImportLines, Openings, DocumentLines, Interface, IfaceIdent;
    var x, y := Syscall(["fs-read"], [], 1), Syscall(["fs_read"], [], 2);
    var es := [Entry("a", x), Entry("b", y)];
    PrintedOnceIff(es);
    OnePledge("fs-read", 1);
    OnePledge("fs_read", 2);
    DashOrUnderscore("fs-read", "fs_read");
    assert "fs-read" != "fs_read" by { assert "fs-read"[2] != "fs_read"[2]; }
    assert SameIdent(es[0], es[1]);
    assert Interface(es[0].syscall) == "fs-read" && Interface(es[1].syscall) == "fs_read";
  }

  lemma DashOrUnderscore(x: string, y: string)
    requires |x| == |y| && forall i :: 0 <= i < |x| ==> x[i] == y[i] || (x[i] == '-' && y[i] == '_')
    ensures IfaceIdent(x) == IfaceIdent(y)
  {
  }

  // A syscall with one pledge that needs no splitting or stripping is in the interface of that name.
  lemma OnePledge(p: string, n: int)
    requires p != "" && forall i :: 0 <= i < |p| ==> p[i] != '|' && !IsSpace(p[i])
    ensures Interface(Syscall([p], [], n)) == p
  {
    PlainHead(p);
    assert SortStrings([p][1..]) == [];
    assert SortStrings([p]) == [p];
    assert FirstKnown([p][1..]) == "";
  }

  lemma PlainHead(p: string)
    requires forall i :: 0 <= i < |p| ==> p[i] != '|' && !IsSpace(p[i])
    ensures Head(p) == p
  {
    NoBar(p);
  }

  lemma {:induction false} NoBar(p: string)
    requires '|' !in p
    ensures UpToBar(p) == p
  {
    if p != "" { NoBar(p[1..]); }
  }

  // ---------------------------------------------------------------------------
  // Key order
  // ---------------------------------------------------------------------------

  lemma {:induction false} MembersAreMembers(es: seq<Entry>, iface: string)
    ensures forall e :: e in Members(es, iface) ==> e in es && Interface(e.syscall) == iface
  {
    hide Interface;
    if es != [] { MembersAreMembers(es[1..], iface); }
  }

  // What a function line shows of an entry, and what it is sorted by.
  function KeyOf(e: Entry): (int, string) { (e.syscall.number, WitIdent(e.name)) }

  function Keys(s: seq<Entry>): seq<(int, string)> { seq(|s|, i requires 0 <= i < |s| => KeyOf(s[i])) }

  ghost predicate KeysInOrder(k: seq<(int, string)>) { forall i, j :: 0 <= i < j < |k| ==> k[i].0 <= k[j].0 }

  ghost predicate OneIdentPerNumber(k: seq<(int, string)>) {
    forall i, j :: 0 <= i < |k| && 0 <= j < |k| && k[i].0 == k[j].0 ==> k[i] == k[j]
  }

  lemma KeysSplit(t: seq<Entry>, i: nat)
    requires i < |t|
    ensures multiset(Keys(t)) == multiset{KeyOf(t[i])} + multiset(Keys(t[..i] + t[i + 1..]))
    ensures multiset(t) == multiset{t[i]} + multiset(t[..i] + t[i + 1..])
  {
    assert t == t[..i] + [t[i]] + t[i + 1..];
    assert Keys(t) == Keys(t[..i]) + [KeyOf(t[i])] + Keys(t[i + 1..]);
    assert Keys(t[..i] + t[i + 1..]) == Keys(t[..i]) + Keys(t[i + 1..]);
  }

  lemma {:induction false} KeysOfPermutation(s: seq<Entry>, t: seq<Entry>)
    requires multiset(s) == multiset(t)
    ensures multiset(Keys(s)) == multiset(Keys(t))
    decreases |s|
  {
    hide Keys, KeyOf;
    if s == [] {
      assert |multiset(t)| == |multiset(s)| == 0;
    } else {
      assert s[0] in multiset(t);
      var i :| 0 <= i < |t| && t[i] == s[0];
      KeysSplit(s, 0);
      KeysSplit(t, i);
      assert s[..0] + s[1..] == s[1..];
      assert multiset(s[1..]) == multiset(s) - multiset{s[0]} && multiset(t[..i] + t[i + 1..]) == multiset(t) - multiset{s[0]};
      KeysOfPermutation(s[1..], t[..i] + t[i + 1..]);
    }
  }

  lemma SameFirst(k: seq<(int, string)>, l: seq<(int, string)>)
    requires KeysInOrder(k) && OneIdentPerNumber(k) && KeysInOrder(l) && multiset(k) == multiset(l) && k != []
    ensures l != [] && k[0] == l[0]
  {
    assert k[0] in multiset(k) && k[0] in multiset(l);
    assert l[0] in multiset(l) && l[0] in multiset(k);
    var i :| 0 <= i < |l| && l[i] == k[0];
    var j :| 0 <= j < |k| && k[j] == l[0];
    assert k[0].0 <= k[j].0 && l[0].0 <= l[i].0;
  }

  lemma SameRest<T>(k: seq<T>, l: seq<T>)
    requires k != [] && l != [] && k[0] == l[0] && multiset(k) == multiset(l)
    ensures multiset(k[1..]) == multiset(l[1..])
  {
    assert k == [k[0]] + k[1..] && l == [l[0]] + l[1..];
    assert multiset(k[1..]) == multiset(k) - multiset{k[0]} && multiset(l[1..]) == multiset(l) - multiset{l[0]};
  }

  // With one identifier per number, the order by number is the only one.
  lemma {:induction false} OneOrder(k: seq<(int, string)>, l: seq<(int, string)>)
    requires KeysInOrder(k) && OneIdentPerNumber(k) && KeysInOrder(l) && multiset(k) == multiset(l)
    ensures k == l
    decreases |k|
  {
    if k == [] {
      assert |multiset(l)| == |multiset(k)| == 0;
    } else {
      SameFirst(k, l);
      SameRest(k, l);
      OneOrder(k[1..], l[1..]);
      assert k == [k[0]] + k[1..] && l == [l[0]] + l[1..];
    }
  }

  predicate Tied(e: Entry, f: Entry) {
    Interface(e.syscall) == Interface(f.syscall) && e.syscall.number == f.syscall.number
  }

  // Syscalls of one interface with the same number have the same identifier; distinct numbers suffice.
  ghost predicate TiesAgree(es: seq<Entry>) {
    forall i, j :: 0 <= i < j < |es| && Tied(es[i], es[j]) ==> WitIdent(es[i].name) == WitIdent(es[j].name)
  }

  lemma BucketMember(es: seq<Entry>, iface: string, i: nat) returns (k: nat)
    requires i < |Bucket(es, iface)|
    ensures k < |es| && es[k] == Bucket(es, iface)[i] && Interface(es[k].syscall) == iface
  {
    hide Interface;
    MembersAreMembers(es, iface);
    SortIsSorted(Members(es, iface));
    var e := Bucket(es, iface)[i];
    assert e in multiset(Bucket(es, iface)) && e in Members(es, iface);
    k :| 0 <= k < |es| && es[k] == e;
  }

  lemma BucketIdents(es: seq<Entry>, iface: string)
    requires TiesAgree(es)
    ensures OneIdentPerNumber(Keys(Bucket(es, iface))) && KeysInOrder(Keys(Bucket(es, iface)))
  {
    hide Interface, WitIdent;
    SortIsSorted(Members(es, iface));
    var s := Bucket(es, iface);
    forall i, j | 0 <= i < |s| && 0 <= j < |s| && s[i].syscall.number == s[j].syscall.number ensures KeyOf(s[i]) == KeyOf(s[j]) {
      var k := BucketMember(es, iface, i);
      var l := BucketMember(es, iface, j);
    }
  }

  lemma MembersPermuted(a: seq<Entry>, b: seq<Entry>, iface: string)
    requires multiset(a) == multiset(b)
    ensures multiset(Bucket(a, iface)) == multiset(Bucket(b, iface)) && |Bucket(a, iface)| == |Bucket(b, iface)|
  {
    hide Interface, Bucket;
    forall e ensures multiset(Bucket(a, iface))[e] == multiset(Bucket(b, iface))[e] {
      EachSyscallInOneInterface(a, iface, e);
      EachSyscallInOneInterface(b, iface, e);
    }
    assert multiset(Bucket(a, iface)) == multiset(Bucket(b, iface));
    assert |multiset(Bucket(a, iface))| == |multiset(Bucket(b, iface))|;
  }

  lemma BucketKeys(a: seq<Entry>, b: seq<Entry>, iface: string)
    requires multiset(a) == multiset(b) && TiesAgree(a)
    ensures Keys(Bucket(a, iface)) == Keys(Bucket(b, iface))
  {
    hide Interface, WitIdent, TiesAgree;
    MembersPermuted(a, b, iface);
    KeysOfPermutation(Bucket(a, iface), Bucket(b, iface));
    BucketIdents(a, iface);
    SortIsSorted(Members(b, iface));
    OneOrder(Keys(Bucket(a, iface)), Keys(Bucket(b, iface)));
  }

  lemma {:induction false} FuncLinesAt(es: seq<Entry>, iface: string)
    ensures |FuncLines(es, iface)| == |es|
    ensures forall i :: 0 <= i < |es| ==> FuncLines(es, iface)[i] == FuncLine(es[i], iface)
  {
    hide FuncLine;
    if es != [] { FuncLinesAt(es[..|es| - 1], iface); }
  }

  lemma FuncLinesOfKeys(s: seq<Entry>, t: seq<Entry>, iface: string)
    requires Keys(s) == Keys(t)
    ensures FuncLines(s, iface) == FuncLines(t, iface)
  {
    hide WitIdent, IfaceIdent, FuncLines;
    FuncLinesAt(s, iface);
    FuncLinesAt(t, iface);
    forall i | 0 <= i < |s| ensures FuncLine(s[i], iface) == FuncLine(t[i], iface) {
      assert Keys(s)[i] == Keys(t)[i];
    }
  }

  lemma FuncLineInjective(e: Entry, f: Entry, iface: string)
    requires FuncLine(e, iface) == FuncLine(f, iface)
    ensures WitIdent(e.name) == WitIdent(f.name)
  {
    hide WitIdent, IfaceIdent;
    var c, d := WitIdent(e.name), WitIdent(f.name);
    var tail := ": func(args: list<u64>) -> result<u64, " + IfaceIdent(iface) + "-error>;";
    assert FuncLine(e, iface) == "  " + c + tail && FuncLine(f, iface) == "  " + d + tail;
    assert |c| == |d|;
    assert ("  " + c + tail)[2..2 + |c|] == c && ("  " + d + tail)[2..2 + |d|] == d;
  }

  lemma InterfaceLinesSplit(iface: string, s: seq<Entry>, t: seq<Entry>)
    requires |s| == |t|
    ensures |InterfaceLines(iface, s)| == |InterfaceLines(iface, t)|
    ensures InterfaceLines(iface, s) == InterfaceLines(iface, t) ==> FuncLines(s, iface) == FuncLines(t, iface)
  {
    hide FuncLines, ErrorVariant, FuncLine, IfaceIdent;
    FuncLinesAt(s, iface);
    FuncLinesAt(t, iface);
    if s == [] {
      assert s == t;
    } else {
      var head := ["interface " + IfaceIdent(iface) + " {"] + ErrorVariant(iface) + [""];
      var fs, ft := FuncLines(s, iface), FuncLines(t, iface);
      assert (head + fs + ["}", ""])[|head|..|head| + |fs|] == fs && (head + ft + ["}", ""])[|head|..|head| + |ft|] == ft;
    }
  }

  lemma Cancel<T>(a: seq<T>, b: seq<T>, c: seq<T>, d: seq<T>)
    requires |b| == |d| && a + b == c + d
    ensures a == c && b == d
  {
    assert |a + b| == |c + d|;
    assert (a + b)[..|a|] == a && (c + d)[..|c|] == c && (a + b)[|a|..] == b && (c + d)[|c|..] == d;
  }

  // Equal bodies with equally long interfaces have equal interfaces.
  lemma {:induction false} BodySplit(a: seq<Entry>, b: seq<Entry>, ifaces: seq<string>, iface: string)
    requires multiset(a) == multiset(b) && iface in ifaces && BodyLines(a, ifaces) == BodyLines(b, ifaces)
    ensures FuncLines(Bucket(a, iface), iface) == FuncLines(Bucket(b, iface), iface)
    decreases |ifaces|
  {
    hide Bucket, InterfaceLines, FuncLines;
    var last := ifaces[|ifaces| - 1];
    MembersPermuted(a, b, last);
    InterfaceLinesSplit(last, Bucket(a, last), Bucket(b, last));
    Cancel(BodyLines(a, ifaces[..|ifaces| - 1]), InterfaceLines(last, Bucket(a, last)),
           BodyLines(b, ifaces[..|ifaces| - 1]), InterfaceLines(last, Bucket(b, last)));
    if iface != last {
      BodySplit(a, b, ifaces[..|ifaces| - 1], iface);
    }
  }

  lemma {:induction false} CanonicalOfPermutation(a: seq<Entry>, b: seq<Entry>, n: nat)
    requires multiset(a) == multiset(b) && n <= |PLEDGE_INTERFACES|
    ensures Canonical(a, n) == Canonical(b, n)
  {
    hide Bucket, Interface;
    if n > 0 {
      CanonicalOfPermutation(a, b, n - 1);
      var iface := PLEDGE_INTERFACES[n - 1];
      BucketNonEmpty(a, iface);
      BucketNonEmpty(b, iface);
      UsedOfPermutation(a, b, iface);
      UsedOfPermutation(b, a, iface);
    }
  }

  lemma UsedOfPermutation(a: seq<Entry>, b: seq<Entry>, iface: string)
    requires multiset(a) == multiset(b)
    ensures (exists i :: 0 <= i < |a| && Interface(a[i].syscall) == iface) ==>
            exists i :: 0 <= i < |b| && Interface(b[i].syscall) == iface
  {
    hide Interface;
    if i :| 0 <= i < |a| && Interface(a[i].syscall) == iface {
      assert a[i] in multiset(a) && a[i] in multiset(b);
      var j :| 0 <= j < |b| && b[j] == a[i];
    }
  }

  lemma PopulatedOfPermutation(a: seq<Entry>, b: seq<Entry>)
    requires multiset(a) == multiset(b)
    ensures Populated(a) == Populated(b)
  {
    hide Canonical, Interface, Sorted;
    CanonicalOfPermutation(a, b, |PLEDGE_INTERFACES|);
    forall iface ensures iface in Extras(a) <==> iface in Extras(b) {
      UsedOfPermutation(a, b, iface);
      UsedOfPermutation(b, a, iface);
    }
    assert Extras(a) == Extras(b);
  }

  lemma {:induction false} BodyOfPermutation(a: seq<Entry>, b: seq<Entry>, ifaces: seq<string>)
    requires multiset(a) == multiset(b) && TiesAgree(a)
    ensures BodyLines(a, ifaces) == BodyLines(b, ifaces)
    decreases |ifaces|
  {
    hide Bucket, TiesAgree, FuncLines, Keys, ErrorVariant, IfaceIdent;
    if ifaces != [] {
      var last := ifaces[|ifaces| - 1];
      BodyOfPermutation(a, b, ifaces[..|ifaces| - 1]);
      BucketKeys(a, b, last);
      MembersPermuted(a, b, last);
      FuncLinesOfKeys(Bucket(a, last), Bucket(b, last), last);
    }
  }

  lemma DocumentOfPermutation(a: seq<Entry>, b: seq<Entry>)
    requires multiset(a) == multiset(b) && TiesAgree(a)
    ensures DocumentLines(a) == DocumentLines(b)
  {
    hide Populated, BodyLines, WorldLines, TiesAgree;
    PopulatedOfPermutation(a, b);
    BodyOfPermutation(a, b, Populated(a));
  }

  // Two tied entries at the front come out in their input order, with the same neighbours.
  lemma {:induction false} TiedInsertions(x: Entry, y: Entry, s: seq<Entry>) returns (l: seq<Entry>, r: seq<Entry>)
    requires x.syscall.number == y.syscall.number
    ensures Insert(x, Insert(y, s)) == l + [x, y] + r && Insert(y, Insert(x, s)) == l + [y, x] + r
  {
    if s == [] || x.syscall.number <= s[0].syscall.number {
      l, r := [], s;
    } else {
      l, r := TiedInsertions(x, y, s[1..]);
      l := [s[0]] + l;
    }
  }

  lemma FrontTwo(x: Entry, y: Entry, rest: seq<Entry>)
    requires Interface(x.syscall) == Interface(y.syscall)
    ensures Bucket([x, y] + rest, Interface(x.syscall)) == Insert(x, Insert(y, SortByNumber(Members(rest, Interface(x.syscall)))))
  {
    hide Interface, Insert;
    var iface := Interface(x.syscall);
    var m := Members(rest, iface);
    var es := [x, y] + rest;
    assert es[1..] == [y] + rest && ([y] + rest)[1..] == rest;
    assert Members([y] + rest, iface) == [y] + m;
    assert Members(es, iface) == [x] + ([y] + m);
    assert ([x] + ([y] + m))[1..] == [y] + m && ([y] + m)[1..] == m;
    assert SortByNumber([y] + m) == Insert(y, SortByNumber(m));
  }

  // Swapping two tied syscalls with different identifiers at the front shows in the document.
  lemma {:induction false} TiesShow(x: Entry, y: Entry, rest: seq<Entry>)
    requires Tied(x, y) && WitIdent(x.name) != WitIdent(y.name)
    ensures DocumentLines([x, y] + rest) != DocumentLines([y, x] + rest)
  {
    hide Interface, WitIdent, Populated, BodyLines, WorldLines, FuncLines, FuncLine, Bucket;
    var a, b, iface := [x, y] + rest, [y, x] + rest, Interface(x.syscall);
    if DocumentLines(a) == DocumentLines(b) {
      assert multiset(a) == multiset(b);
      PopulatedOfPermutation(a, b);
      var p := Populated(a);
      Cancel(PREAMBLE + BodyLines(a, p), WorldLines(p), PREAMBLE + BodyLines(b, p), WorldLines(p));
      assert (PREAMBLE + BodyLines(a, p))[|PREAMBLE|..] == BodyLines(a, p);
      assert (PREAMBLE + BodyLines(b, p))[|PREAMBLE|..] == BodyLines(b, p);
      PopulatedExactly(a, iface);
      assert Interface(a[0].syscall) == iface;
      BodySplit(a, b, p, iface);
      FrontTwo(x, y, rest);
      FrontTwo(y, x, rest);
      var l, r := TiedInsertions(x, y, SortByNumber(Members(rest, iface)));
      assert Bucket(a, iface)[|l|] == x && Bucket(b, iface)[|l|] == y;
      FuncLinesAt(Bucket(a, iface), iface);
      FuncLinesAt(Bucket(b, iface), iface);
      FuncLineInjective(x, y, iface);
      assert false;
    }
  }

  lemma TwoToFront(a: seq<Entry>, i: nat, j: nat) returns (rest: seq<Entry>)
    requires i < j < |a|
    ensures multiset([a[i], a[j]] + rest) == multiset(a) == multiset([a[j], a[i]] + rest)
  {
    rest := a[..i] + a[i + 1..j] + a[j + 1..];
    assert a == a[..i] + [a[i]] + a[i + 1..j] + [a[j]] + a[j + 1..];
  }

  // Shuffling the manifest's keys never changes the document exactly when ties inside an interface agree.
  lemma {:induction false} KeyOrderIrrelevantIff(a: seq<Entry>)
    ensures (forall b :: multiset(b) == multiset(a) ==> DocumentLines(b) == DocumentLines(a)) <==> TiesAgree(a)
  {
    hide DocumentLines, Interface, WitIdent;
    if TiesAgree(a) {
      forall b | multiset(b) == multiset(a) ensures DocumentLines(b) == DocumentLines(a) {
        DocumentOfPermutation(a, b);
      }
    } else {
      var i, j :| 0 <= i < j < |a| && Tied(a[i], a[j]) && WitIdent(a[i].name) != WitIdent(a[j].name);
      var rest := TwoToFront(a, i, j);
      TiesShow(a[i], a[j], rest);
    }
  }

  // Two unpledged syscalls with number 1.
  lemma ShuffleShows()
    ensures var a, b := Entry("a", Syscall([], [], 1)), Entry("b", Syscall([], [], 1));
            DocumentLines([a, b]) != DocumentLines([b, a])
  {
    hide DocumentLines;
    var a, b := Entry("a", Syscall([], [], 1)), Entry("b", Syscall([], [], 1));
    assert WitIdent("a") == "a" && WitIdent("b") == "b";
    TiesShow(a, b, []);
    assert [a, b] + [] == [a, b] && [b, a] + [] == [b, a];
  }

  // ---------------------------------------------------------------------------
  // partition_by_iface
  // ---------------------------------------------------------------------------

  lemma {:induction false} MembersSnoc(es: seq<Entry>, e: Entry, iface: string)
    ensures Members(es + [e], iface) == Members(es, iface) + if Interface(e.syscall) == iface then [e] else []
  {
    hide Interface, Members;
    var all := es + [e];
    MembersStep(all, iface);
    NoMembers(iface);
    if es == [] {
      assert all[0] == e && all[1..] == [];
    } else {
      assert all[0] == es[0] && all[1..] == es[1..] + [e];
      MembersStep(es, iface);
      MembersSnoc(es[1..], e, iface);
    }
  }

  lemma MembersStep(es: seq<Entry>, iface: string)
    requires es != []
    ensures Members(es, iface) == (if Interface(es[0].syscall) == iface then [es[0]] else []) + Members(es[1..], iface)
  {
    hide Interface;
  }

  lemma NoMembers(iface: string)
    ensures Members([], iface) == []
  {
  }

  // A dictionary with every canonical interface and every other one in use, each list in bucket order.
  method PartitionByIface(es: seq<Entry>) returns (bucket: map<string, seq<Entry>>)
    ensures forall iface :: iface in bucket <==> iface in PLEDGE_INTERFACES || Bucket(es, iface) != []
    ensures forall iface :: iface in bucket ==> bucket[iface] == Bucket(es, iface)
  {
    hide Interface, Members, SortByNumber;
    bucket := map iface | iface in PLEDGE_INTERFACES :: [];
    var i := 0;
    forall x ensures Members(es[..0], x) == [] { NoMembers(x); }
    while i < |es|
      invariant 0 <= i <= |es|
      invariant forall iface :: iface in bucket <==> iface in PLEDGE_INTERFACES || Members(es[..i], iface) != []
      invariant forall iface :: iface in bucket ==> bucket[iface] == Members(es[..i], iface)
    {
      var iface := Interface(es[i].syscall);
      assert es[..i + 1] == es[..i] + [es[i]];
      forall x { MembersSnoc(es[..i], es[i], x); }
      bucket := bucket[iface := (if iface in bucket then bucket[iface] else []) + [es[i]]];
      i := i + 1;
    }
    assert es[..i] == es;
    forall iface ensures Bucket(es, iface) != [] <==> Members(es, iface) != [] {
      MembersNonEmpty(es, iface);
      BucketNonEmpty(es, iface);
    }
    bucket := map iface | iface in bucket :: SortByNumber(bucket[iface]);
  }

  method EmitErrorVariant(iface: string) returns (out: seq<string>)
    ensures out == ErrorVariant(iface)
  {
    var lead := "  variant " + IfaceIdent(iface) + "-error {";
    out := [lead];
    var i := 0;
    while i < |CANONICAL_ERRORS|
      invariant 0 <= i <= |CANONICAL_ERRORS| && |out| == i + 1 && out[0] == lead
      invariant forall k :: 0 <= k < i ==> out[k + 1] == "    " + CANONICAL_ERRORS[k] + ","
    {
      out := out + ["    " + CANONICAL_ERRORS[i] + ","];
      i := i + 1;
    }
    out := out + ["  }"];
  }

  method EmitInterface(iface: string, syscalls: seq<Entry>) returns (out: seq<string>)
    ensures out == InterfaceLines(iface, syscalls)
  {
    hide ErrorVariant, FuncLine, IfaceIdent;
    if |syscalls| == 0 { return []; }
    var variant := EmitErrorVariant(iface);
    out := ["interface " + IfaceIdent(iface) + " {"] + variant + [""];
    ghost var head := out;
    var i := 0;
    while i < |syscalls|
      invariant 0 <= i <= |syscalls| && out == head + FuncLines(syscalls[..i], iface)
    {
      assert syscalls[..i + 1][..i] == syscalls[..i];
      out := out + [FuncLine(syscalls[i], iface)];
      i := i + 1;
    }
    assert syscalls[..i] == syscalls;
    out := out + ["}"] + [""];
    assert out == head + FuncLines(syscalls, iface) + ["}", ""];
  }

  method EmitWorld(populated: seq<string>) returns (out: seq<string>)
    ensures out == WorldLines(populated)
  {
    hide IfaceIdent;
    out := ["world wasmd-guest {"];
    var i := 0;
    while i < |populated|
      invariant 0 <= i <= |populated| && out == ["world wasmd-guest {"] + ImportLines(populated[..i])
    {
      assert populated[..i + 1][..i] == populated[..i];
      out := out + ["  import " + IfaceIdent(populated[i]) + ";"];
      i := i + 1;
    }
    assert populated[..i] == populated;
    out := out + ["", DOC_ENTRY,
                  DOC_ONCE, "  export start: func() -> s32;", "}"];
  }

  method FindPopulated(es: seq<Entry>, bucket: map<string, seq<Entry>>) returns (populated: seq<string>)
    requires forall iface :: iface in bucket <==> iface in PLEDGE_INTERFACES || Bucket(es, iface) != []
    requires forall iface :: iface in bucket ==> bucket[iface] == Bucket(es, iface)
    ensures populated == Populated(es)
  {
    hide Bucket, Interface, Sorted, Extras;
    populated := [];
    var i := 0;
    while i < |PLEDGE_INTERFACES|
      invariant 0 <= i <= |PLEDGE_INTERFACES| && populated == Canonical(es, i)
    {
      assert PLEDGE_INTERFACES[i] in PLEDGE_INTERFACES;
      if bucket[PLEDGE_INTERFACES[i]] != [] {
        populated := populated + [PLEDGE_INTERFACES[i]];
      }
      i := i + 1;
    }
    var extras := set iface | iface in bucket && iface !in PLEDGE_INTERFACES;
    forall iface ensures iface in extras <==> iface in Extras(es) { ExtrasAre(es, iface); }
    assert extras == Extras(es);
    populated := populated + Sorted(extras);
  }

  lemma ExtrasAre(es: seq<Entry>, iface: string)
    ensures iface in Extras(es) <==> iface !in PLEDGE_INTERFACES && Bucket(es, iface) != []
  {
    hide Bucket, Interface;
    BucketNonEmpty(es, iface);
  }

  // The loop of generate over the populated interfaces.
  method EmitInterfaces(es: seq<Entry>, bucket: map<string, seq<Entry>>, populated: seq<string>) returns (lines: seq<string>)
    requires forall iface :: iface in populated ==> iface in bucket && bucket[iface] == Bucket(es, iface)
    ensures lines == BodyLines(es, populated)
  {
    hide Bucket, InterfaceLines;
    lines := [];
    var i := 0;
    while i < |populated|
      invariant 0 <= i <= |populated| && lines == BodyLines(es, populated[..i])
    {
      assert populated[..i + 1][..i] == populated[..i];
      var block := EmitInterface(populated[i], bucket[populated[i]]);
      lines := lines + block;
      i := i + 1;
    }
    assert populated[..i] == populated;
  }

  // The document's lines; the file is these joined by, and ending in, a line feed.
  method Generate(es: seq<Entry>) returns (lines: seq<string>)
    ensures lines == DocumentLines(es)
  {
    hide Bucket, BodyLines, WorldLines, Interface, Populated;
    var bucket := PartitionByIface(es);
    var populated := FindPopulated(es, bucket);
    forall iface | iface in populated ensures iface in bucket {
      PopulatedExactly(es, iface);
      BucketNonEmpty(es, iface);
    }
    var body := EmitInterfaces(es, bucket, populated);
    var world := EmitWorld(populated);
    lines := PREAMBLE + body + world;
  }
}
