/**
 The segment loop of elf_load (kernel/elf.c): every PT_LOAD segment is copied page by
 page into fresh zeroed pages.  The result is compared with the segment image of the
 Program Header chapter of the System V ABI: file bytes at their addresses, zeros
 around them.

 `file` gives the byte at each offset from the start of the file in memory; offsets past
 the file's end read whatever lies there.
 */
module ElfLoader {

  const PAGE_SIZE := 4096
  const PT_LOAD := 1

  type byte = b: int | 0 <= b < 256

  const WORD_LIMIT := 0x1_0000_0000_0000_0000

  type word = n: nat | n < WORD_LIMIT

  datatype Phdr = Phdr(ptype: nat, executable: bool, writable: bool, offset: word, vaddr: word, filesz: word, memsz: word)

  datatype Page = Page(bytes: seq<byte>, writable: bool, noExecute: bool)

  // The segment's pages lie inside the 64-bit address space.
  predicate InRange(p: Phdr) { p.vaddr + p.memsz + PAGE_SIZE <= WORD_LIMIT }

  // Where the file part ends, in 64 bits: for a part that does not fit, somewhere before its start.
  function FileEnd(p: Phdr): nat { (p.vaddr + p.filesz) % WORD_LIMIT }

  predicate Unwrapped(p: Phdr) { p.vaddr + p.filesz < WORD_LIMIT }

  function StartPage(p: Phdr): nat { p.vaddr / PAGE_SIZE * PAGE_SIZE }

  function EndPage(p: Phdr): nat { (p.vaddr + p.memsz + PAGE_SIZE - 1) / PAGE_SIZE * PAGE_SIZE }

  function PageCount(p: Phdr): nat { (EndPage(p) - StartPage(p)) / PAGE_SIZE }

  function PageAddr(p: Phdr, j: nat): nat { StartPage(p) + j * PAGE_SIZE }

  // ---------------------------------------------------------------------------
  // What one page receives
  // ---------------------------------------------------------------------------

  function CopyStart(p: Phdr, page: nat): nat { if page < p.vaddr then p.vaddr - page else 0 }

  // The clamp compares with the end of the file bytes without counting copy_start.
  function CopySize(p: Phdr, page: nat): int {
    var size := PAGE_SIZE - CopyStart(p, page);
    if page >= FileEnd(p) then 0
    else if page + size > FileEnd(p) then FileEnd(p) - page
    else size
  }

  function FileOffset(p: Phdr, page: nat): nat {
    if page < p.vaddr then p.offset else p.offset + (page - p.vaddr)
  }

  function PageByte(p: Phdr, file: nat -> byte, page: nat, k: nat): byte {
    var start := CopyStart(p, page);
    if start <= k < start + CopySize(p, page) then file(FileOffset(p, page) + (k - start)) else 0
  }

  // The ABI's image of the segment.
  function ImageByte(p: Phdr, file: nat -> byte, addr: nat): byte {
    if p.vaddr <= addr < p.vaddr + p.filesz then file(p.offset + (addr - p.vaddr)) else 0
  }

  // A page of the segment: it lies on the page grid and reaches beyond vaddr.
  predicate PageOf(p: Phdr, page: nat) { page % PAGE_SIZE == 0 && page >= StartPage(p) }

  lemma PageOfBounds(p: Phdr, page: nat)
    requires PageOf(p, page)
    ensures CopyStart(p, page) < PAGE_SIZE
    ensures page < p.vaddr ==> page == StartPage(p) && CopyStart(p, page) == p.vaddr % PAGE_SIZE
    ensures CopyStart(p, page) + CopySize(p, page) <= PAGE_SIZE
  {
    var s, d := p.vaddr / 4096, p.vaddr % 4096;
    assert p.vaddr == 4096 * s + d && StartPage(p) == 4096 * s;
    if page < p.vaddr {
      var m := page / 4096;
      assert page == 4096 * m;
      assert m == s;
    }
  }

  // File bytes land at their own addresses, for any alignment of the segment.
  lemma {:induction false} FileBytesArePlaced(p: Phdr, file: nat -> byte, page: nat, k: nat)
    requires PageOf(p, page) && Unwrapped(p) && k < PAGE_SIZE && p.vaddr <= page + k < p.vaddr + p.filesz
    ensures PageByte(p, file, page, k) == file(p.offset + (page + k - p.vaddr))
  {
    PageOfBounds(p, page);
  }

  // Of a file part that does not fit the address space nothing is copied behind the first page.
  lemma WrappedIsNotCopied(p: Phdr, file: nat -> byte, page: nat, k: nat)
    requires !Unwrapped(p) && page >= p.vaddr
    ensures PageByte(p, file, page, k) == 0
  {
    assert FileEnd(p) == p.vaddr + p.filesz - WORD_LIMIT;
  }

  // The condition under which the clamp is harmless: the segment starts on a page boundary, or its
  // file bytes reach the end of its first page.
  predicate ClampHarmless(p: Phdr) { p.vaddr % PAGE_SIZE == 0 || p.vaddr % PAGE_SIZE + p.filesz >= PAGE_SIZE }

  lemma {:induction false} HarmlessGivesImage(p: Phdr, file: nat -> byte, page: nat, k: nat)
    requires PageOf(p, page) && k < PAGE_SIZE && Unwrapped(p) && ClampHarmless(p)
    ensures PageByte(p, file, page, k) == ImageByte(p, file, page + k)
  {
    PageOfBounds(p, page);
  }

  ghost predicate FirstPageIsImage(p: Phdr, file: nat -> byte) {
    forall k :: 0 <= k < PAGE_SIZE ==> PageByte(p, file, StartPage(p), k) == ImageByte(p, file, StartPage(p) + k)
  }

  // For other segments some file shows bytes where the image has zeros: the ABI image is built for
  // every file exactly under the condition.
  lemma {:induction false} ImageIffClampHarmless(p: Phdr)
    requires Unwrapped(p)
    ensures (forall file: nat -> byte :: FirstPageIsImage(p, file)) <==> ClampHarmless(p)
  {
    var page := StartPage(p);
    assert PageOf(p, page) by { StartIsPage(p); }
    if ClampHarmless(p) {
      forall file: nat -> byte ensures FirstPageIsImage(p, file) {
        forall k | 0 <= k < PAGE_SIZE ensures PageByte(p, file, page, k) == ImageByte(p, file, page + k) {
          HarmlessGivesImage(p, file, page, k);
        }
      }
    } else {
      var ones: nat -> byte := (_: nat) => 1;
      var k := p.vaddr % PAGE_SIZE + p.filesz;
      PageOfBounds(p, page);
      StartIsPage(p);
      assert PageByte(p, ones, page, k) == 1 && ImageByte(p, ones, page + k) == 0;
      assert !FirstPageIsImage(p, ones);
    }
  }

  // One file byte at address 16: the loader also copies the file's next byte, to address 17.
  lemma ByteBehindTheSegment()
    ensures
      var p := Phdr(PT_LOAD, false, true, 0, 16, 1, 1);
      var file: nat -> byte := (i: nat) => if i < 2 then 7 else 0;
      PageOf(p, 0) && PageByte(p, file, 0, 17) == 7 && ImageByte(p, file, 17) == 0
  {
  }

  lemma StartIsPage(p: Phdr)
    ensures StartPage(p) % PAGE_SIZE == 0 && StartPage(p) + p.vaddr % PAGE_SIZE == p.vaddr
  {
  }

  // ---------------------------------------------------------------------------
  // The loader
  // ---------------------------------------------------------------------------

  function PageFor(p: Phdr, file: nat -> byte, page: nat): Page {
    Page(seq(PAGE_SIZE, k requires 0 <= k => PageByte(p, file, page, k)), p.writable, !p.executable)
  }

  // Mapping the first n pages of a segment.
  function MapPages(space: map<nat, Page>, p: Phdr, file: nat -> byte, n: nat): map<nat, Page> {
    if n == 0 then space
    else MapPages(space, p, file, n - 1)[PageAddr(p, n - 1) := PageFor(p, file, PageAddr(p, n - 1))]
  }

  function LoadSegments(phdrs: seq<Phdr>, file: nat -> byte): map<nat, Page> {
    if phdrs == [] then map[]
    else
      var n := |phdrs| - 1;
      var space := LoadSegments(phdrs[..n], file);
      if phdrs[n].ptype == PT_LOAD then MapPages(space, phdrs[n], file, PageCount(phdrs[n])) else space
  }

  // The page range of a segment.
  predicate Covers(p: Phdr, page: nat) { page % PAGE_SIZE == 0 && StartPage(p) <= page < StartPage(p) + PageCount(p) * PAGE_SIZE }

  // Every address of the segment in memory lies in one of its pages.
  lemma SegmentIsCovered(p: Phdr, addr: nat)
    requires p.vaddr <= addr < p.vaddr + p.memsz
    ensures Covers(p, addr / PAGE_SIZE * PAGE_SIZE)
  {
    var s, m, e := p.vaddr / 4096, addr / 4096, (p.vaddr + p.memsz + 4095) / 4096;
    assert s <= m < e;
    assert StartPage(p) == 4096 * s && EndPage(p) == 4096 * e;
    assert (4096 * e - 4096 * s) / 4096 == e - s;
  }

  lemma {:induction false} MappedPages(space: map<nat, Page>, p: Phdr, file: nat -> byte, n: nat, page: nat)
    ensures
      var mapped := MapPages(space, p, file, n);
      if page % PAGE_SIZE == 0 && StartPage(p) <= page < StartPage(p) + n * PAGE_SIZE
      then page in mapped && mapped[page] == PageFor(p, file, page)
      else (page in mapped <==> page in space) && (page in mapped ==> mapped[page] == space[page])
  {
    hide PageFor;
    StartIsPage(p);
    if n > 0 {
      MappedPages(space, p, file, n - 1, page);
      GridStep(StartPage(p), n - 1, page);
    }
  }

  lemma GridStep(start: nat, j: nat, page: nat)
    requires start % PAGE_SIZE == 0
    ensures (start + j * PAGE_SIZE) % PAGE_SIZE == 0
    ensures page % PAGE_SIZE == 0 ==>
      (start <= page < start + (j + 1) * PAGE_SIZE <==> start <= page < start + j * PAGE_SIZE || page == start + j * PAGE_SIZE)
  {
    var s, m := start / 4096, page / 4096;
    assert start == 4096 * s;
    assert start + j * 4096 == 4096 * (s + j);
    if page % 4096 == 0 { assert page == 4096 * m; }
  }

  ghost predicate Disjoint(phdrs: seq<Phdr>) {
    forall i, j, page :: 0 <= i < j < |phdrs| && phdrs[i].ptype == PT_LOAD && phdrs[j].ptype == PT_LOAD ==>
      !(Covers(phdrs[i], page) && Covers(phdrs[j], page))
  }

  // Each loadable segment's pages survive the loading of the others.
  lemma {:induction false} SegmentPageSurvives(phdrs: seq<Phdr>, file: nat -> byte, i: nat, page: nat)
    requires Disjoint(phdrs) && i < |phdrs| && phdrs[i].ptype == PT_LOAD && Covers(phdrs[i], page)
    ensures page in LoadSegments(phdrs, file) && LoadSegments(phdrs, file)[page] == PageFor(phdrs[i], file, page)
    decreases |phdrs|
  {
    hide PageFor, MapPages, PageCount;
    var n := |phdrs| - 1;
    var space := LoadSegments(phdrs[..n], file);
    MappedPages(space, phdrs[n], file, PageCount(phdrs[n]), page);
    if i < n {
      SegmentPageSurvives(phdrs[..n], file, i, page);
      assert phdrs[n].ptype == PT_LOAD ==> !Covers(phdrs[n], page);
    }
  }

  // The loaded address space is the ABI image of every segment, with its protection.
  lemma {:induction false} LoadedImage(phdrs: seq<Phdr>, file: nat -> byte, i: nat, page: nat, k: nat)
    requires Disjoint(phdrs) && i < |phdrs| && phdrs[i].ptype == PT_LOAD && Covers(phdrs[i], page) && k < PAGE_SIZE
    ensures
      var space := LoadSegments(phdrs, file);
      var p := phdrs[i];
      && page in space && |space[page].bytes| == PAGE_SIZE
      && space[page].writable == p.writable && space[page].noExecute == !p.executable
      && (Unwrapped(p) && p.vaddr <= page + k < p.vaddr + p.filesz ==>
            space[page].bytes[k] == file(p.offset + (page + k - p.vaddr)))
      && (Unwrapped(p) && ClampHarmless(p) ==> space[page].bytes[k] == ImageByte(p, file, page + k))
  {
    SegmentPageSurvives(phdrs, file, i, page);
    hide LoadSegments, PageByte, ImageByte;
    var p := phdrs[i];
    if Unwrapped(p) && p.vaddr <= page + k < p.vaddr + p.filesz { FileBytesArePlaced(p, file, page, k); }
    if Unwrapped(p) && ClampHarmless(p) { HarmlessGivesImage(p, file, page, k); }
  }

  // The byte a program sees at an address, if its page is mapped.
  function ByteAt(space: map<nat, Page>, addr: nat): (b: int)
    ensures b != -1 ==> addr / PAGE_SIZE * PAGE_SIZE in space
  {
    var page := addr / PAGE_SIZE * PAGE_SIZE;
    if page in space && |space[page].bytes| == PAGE_SIZE then space[page].bytes[addr % PAGE_SIZE] else -1
  }

  // What a program sees at every address of a loaded segment: the file part holds the file's bytes,
  // and, exactly where the image is built, the rest of the segment holds zeros.
  lemma {:induction false} SegmentInMemory(phdrs: seq<Phdr>, file: nat -> byte, i: nat, addr: nat)
    requires Disjoint(phdrs) && i < |phdrs| && phdrs[i].ptype == PT_LOAD && phdrs[i].filesz <= phdrs[i].memsz
    requires InRange(phdrs[i]) && phdrs[i].vaddr <= addr < phdrs[i].vaddr + phdrs[i].memsz
    ensures
      var p, b := phdrs[i], ByteAt(LoadSegments(phdrs, file), addr);
      && (addr < p.vaddr + p.filesz ==> b == file(p.offset + (addr - p.vaddr)))
      && (addr >= p.vaddr + p.filesz && ClampHarmless(p) ==> b == 0)
  {
    hide LoadSegments, PageCount, StartPage;
    SegmentIsCovered(phdrs[i], addr);
    LoadedImage(phdrs, file, i, addr / PAGE_SIZE * PAGE_SIZE, addr % PAGE_SIZE);
  }

  // The body of the page loop: clear, then copy.
  method FillPage(p: Phdr, file: nat -> byte, page: nat) returns (bytes: array<byte>)
    requires PageOf(p, page)
    ensures fresh(bytes) && bytes[..] == PageFor(p, file, page).bytes
  {
    PageOfBounds(p, page);
    hide StartPage;
    bytes := new byte[PAGE_SIZE];
    var k := 0;
    while k < PAGE_SIZE
      invariant 0 <= k <= PAGE_SIZE && forall i :: 0 <= i < k ==> bytes[i] == 0
    {
      bytes[k] := 0;
      k := k + 1;
    }
    var fileEnd := (p.vaddr + p.filesz) % WORD_LIMIT;
    if page < fileEnd {
      var copyStart := if page < p.vaddr then p.vaddr - page else 0;
      var copySize := PAGE_SIZE - copyStart;
      if page + copySize > fileEnd { copySize := fileEnd - page; }
      if copySize > 0 {
        var fileOffset := if page < p.vaddr then p.offset else p.offset + (page - p.vaddr);
        k := 0;
        while k < copySize
          invariant 0 <= k <= copySize
          invariant forall i :: copyStart <= i < copyStart + k ==> bytes[i] == file(fileOffset + (i - copyStart))
          invariant forall i :: 0 <= i < PAGE_SIZE && !(copyStart <= i < copyStart + k) ==> bytes[i] == 0
        {
          bytes[copyStart + k] := file(fileOffset + k);
          k := k + 1;
        }
      }
    }
    assert forall i :: 0 <= i < PAGE_SIZE ==> bytes[i] == PageByte(p, file, page, i);
  }

  // The whole loop.  grant(n) says whether the n-th page could be allocated and mapped; the load
  // succeeds exactly when none of the pages it needs is refused.
  method LoadAll(phdrs: seq<Phdr>, file: nat -> byte, grant: nat -> bool) returns (ok: bool, space: map<nat, Page>)
    requires forall i :: 0 <= i < |phdrs| ==> InRange(phdrs[i])
    ensures ok ==> space == LoadSegments(phdrs, file)
    ensures ok <==> forall n :: 0 <= n < TotalPages(phdrs) ==> grant(n)
  {
    hide PageFor, StartPage, PageCount;
    ok, space := true, map[];
    var used := 0;
    var i := 0;
    while i < |phdrs|
      invariant 0 <= i <= |phdrs| && ok
      invariant space == LoadSegments(phdrs[..i], file) && used == TotalPages(phdrs[..i])
      invariant forall n :: 0 <= n < used ==> grant(n)
    {
      var p := phdrs[i];
      assert phdrs[..i + 1][..i] == phdrs[..i];
      TotalGrows(phdrs, i + 1);
      i := i + 1;
      if p.ptype != PT_LOAD { continue; }
      ghost var before := space;
      var j := 0;
      var base := used;
      while j < PageCount(p)
        invariant 0 <= j <= PageCount(p) && used == base + j && ok
        invariant space == MapPages(before, p, file, j)
        invariant forall n :: 0 <= n < used ==> grant(n)
      {
        if !grant(used) {
          assert used < TotalPages(phdrs[..i]) <= TotalPages(phdrs);
          ok := false;
          return;
        }
        StartIsPage(p);
        GridStep(StartPage(p), j, PageAddr(p, j));
        var bytes := FillPage(p, file, PageAddr(p, j));
        var page := Page(bytes[..], p.writable, !p.executable);
        assert page == PageFor(p, file, PageAddr(p, j)) by { PageForFields(p, file, PageAddr(p, j)); }
        space := space[PageAddr(p, j) := page];
        used := used + 1;
        j := j + 1;
      }
    }
    assert phdrs[..|phdrs|] == phdrs;
  }

  lemma PageForFields(p: Phdr, file: nat -> byte, page: nat)
    ensures PageFor(p, file, page).writable == p.writable && PageFor(p, file, page).noExecute == !p.executable
  {
  }

  function TotalPages(phdrs: seq<Phdr>): nat {
    if phdrs == [] then 0
    else
      var n := |phdrs| - 1;
      TotalPages(phdrs[..n]) + if phdrs[n].ptype == PT_LOAD then PageCount(phdrs[n]) else 0
  }

  lemma {:induction false} TotalGrows(phdrs: seq<Phdr>, i: nat)
    requires i <= |phdrs|
    ensures TotalPages(phdrs[..i]) <= TotalPages(phdrs)
    decreases |phdrs|
  {
    if i < |phdrs| {
      TotalGrows(phdrs[..|phdrs| - 1], i);
      assert phdrs[..|phdrs| - 1][..i] == phdrs[..i];
    } else {
      assert phdrs[..i] == phdrs;
    }
  }
}
