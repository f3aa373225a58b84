/** The boot loader of boot/main.c: `readseg` and `bootmain` on memory and a disk image. */
module Loader {
  import opened Bits
  import opened Options
  import opened BootDisk

  const PAGESIZE := 4096
  const ELFHDR := 0x10000
  const ELF_MAGIC := 0x464C_457F

  /** The four arguments of `readseg`, as a program header has them. */
  datatype Segment = Segment(va: nat, filesz: nat, memsz: nat, offset: nat)

  /** Where the segment goes: addresses have 24 bits. */
  function Start(g: Segment): nat {
    g.va % 0x100_0000
  }

  function FileEnd(g: Segment): nat {
    Start(g) + g.filesz
  }

  function MemEnd(g: Segment): nat {
    Start(g) + g.memsz
  }

  function SectorDown(a: nat): (r: nat)
    ensures r % SECTSIZE == 0 && r <= a < r + SECTSIZE
  {
    a - a % SECTSIZE
  }

  function SectorUp(a: nat): (r: nat)
    ensures r % SECTSIZE == 0 && a <= r < a + SECTSIZE
  {
    SectorDown(a + SECTSIZE - 1)
  }

  /** What lies in front of the segment in its first sector is read too. */
  function ReadStart(g: Segment): nat {
    SectorDown(Start(g))
  }

  /** And what follows the segment in its last sector. */
  function ReadEnd(g: Segment): nat {
    SectorUp(FileEnd(g))
  }

  /** The byte of the image that `readseg` reads for an address. */
  function ImageIndex(g: Segment, a: nat): nat
    requires ReadStart(g) <= a
  {
    (g.offset / SECTSIZE + 1) * SECTSIZE + (a - ReadStart(g))
  }

  function ByteAt(image: seq<Byte>, k: nat): Byte {
    if k < |image| then image[k] else 0
  }

  /** The byte at an address after `readseg`: cleared, or read, or as before. */
  function ByteAfter(image: seq<Byte>, g: Segment, a: nat, before: Byte): Byte {
    if FileEnd(g) <= a < MemEnd(g) then 0
    else if ReadStart(g) <= a < ReadEnd(g) then ByteAt(image, ImageIndex(g, a))
    else before
  }

  /** The segment's sectors are on the disk and its addresses in memory. */
  predicate Fits(image: seq<Byte>, memory: nat, g: Segment) {
    && ReadEnd(g) <= memory && MemEnd(g) <= memory
    && (g.offset / SECTSIZE + 1) * SECTSIZE + (ReadEnd(g) - ReadStart(g)) <= |image|
  }

  /** `readsect` */
  method ReadSect(image: seq<Byte>, mem: array<Byte>, dst: nat, sector: nat)
    requires dst + SECTSIZE <= mem.Length && (sector + 1) * SECTSIZE <= |image|
    modifies mem
    ensures forall a :: 0 <= a < mem.Length ==>
              mem[a] == if dst <= a < dst + SECTSIZE then image[sector * SECTSIZE + (a - dst)] else old(mem[a])
  {
    var k := 0;
    while k < SECTSIZE
      invariant 0 <= k <= SECTSIZE
      invariant forall a :: 0 <= a < mem.Length ==>
                  mem[a] == if dst <= a < dst + k then image[sector * SECTSIZE + (a - dst)] else old(mem[a])
    {
      mem[dst + k] := image[sector * SECTSIZE + k];
      k := k + 1;
    }
  }

  /** `readseg` */
  method ReadSeg(image: seq<Byte>, mem: array<Byte>, g: Segment)
    requires Fits(image, mem.Length, g)
    modifies mem
    ensures mem[..] == AfterSegment(image, old(mem[..]), g)
  {
    ReadSectors(image, mem, g);
    ghost var read := mem[..];
    var endVa := FileEnd(g);
    while endVa < MemEnd(g)
      invariant FileEnd(g) <= endVa && (endVa <= MemEnd(g) || endVa == FileEnd(g))
      invariant forall a :: 0 <= a < mem.Length ==> mem[a] == if FileEnd(g) <= a < endVa then 0 else read[a]
    {
      mem[endVa] := 0;
      endVa := endVa + 1;
    }
  }

  /** The first loop of `readseg`. */
  method ReadSectors(image: seq<Byte>, mem: array<Byte>, g: Segment)
    requires Fits(image, mem.Length, g)
    modifies mem
    ensures forall a :: 0 <= a < mem.Length ==>
              mem[a] == if ReadStart(g) <= a < ReadEnd(g) then ByteAt(image, ImageIndex(g, a)) else old(mem[a])
  {
    hide SectorDown, SectorUp;
    var va := Start(g);
    var endVa := va + g.filesz;
    ReadStartIs(g);
    va := va - va % SECTSIZE;
    var sector := g.offset / SECTSIZE + 1;
    ghost var n := 0;
    while va < endVa
      invariant va == ReadStart(g) + n * SECTSIZE && sector == g.offset / SECTSIZE + 1 + n
      invariant va <= ReadEnd(g)
      invariant forall a :: 0 <= a < mem.Length ==>
                  mem[a] == if ReadStart(g) <= a < va then ByteAt(image, ImageIndex(g, a)) else old(mem[a])
    {
      SectorFits(g, n);
      ReadSect(image, mem, va, sector);
      assert forall a :: va <= a < va + SECTSIZE ==> sector * SECTSIZE + (a - va) == ImageIndex(g, a);
      va := va + SECTSIZE;
      sector := sector + 1;
      n := n + 1;
    }
    SectorFits(g, n);
  }

  lemma ReadStartIs(g: Segment)
    ensures Start(g) - Start(g) % SECTSIZE == ReadStart(g) <= ReadEnd(g)
  {
  }

  /** As long as the segment is not at its end, a whole sector fits. */
  lemma SectorFits(g: Segment, n: nat)
    requires ReadStart(g) + n * SECTSIZE <= ReadEnd(g)
    ensures ReadStart(g) + n * SECTSIZE < FileEnd(g) ==> ReadStart(g) + (n + 1) * SECTSIZE <= ReadEnd(g)
    ensures ReadStart(g) + n * SECTSIZE >= FileEnd(g) ==> ReadStart(g) + n * SECTSIZE == ReadEnd(g)
  {
    hide SectorDown, SectorUp;
    assert ReadStart(g) % SECTSIZE == 0 && ReadEnd(g) % SECTSIZE == 0;
  }

  // ----- bootmain

  /** Memory after one segment, and after several in order. */
  ghost function AfterSegment(image: seq<Byte>, m: seq<Byte>, g: Segment): (r: seq<Byte>)
    ensures |r| == |m| && forall a :: 0 <= a < |m| ==> r[a] == ByteAfter(image, g, a, m[a])
  {
    seq(|m|, a requires 0 <= a < |m| => ByteAfter(image, g, a, m[a]))
  }

  ghost function AfterSegments(image: seq<Byte>, m: seq<Byte>, gs: seq<Segment>): (r: seq<Byte>)
    ensures |r| == |m|
  {
    if gs == [] then m else AfterSegment(image, AfterSegments(image, m, gs[..|gs| - 1]), gs[|gs| - 1])
  }

  /** A little-endian field of 2 or 4 bytes. */
  function Half(b: seq<Byte>, k: nat): nat
    requires k + 2 <= |b|
  {
    b[k] as int + 256 * b[k + 1] as int
  }

  function Word(b: seq<Byte>, k: nat): nat
    requires k + 4 <= |b|
  {
    Half(b, k) + 0x1_0000 * Half(b, k + 2)
  }

  /** The number and the place of the program headers, from the first page of an ELF file. */
  function HeaderCount(page: seq<Byte>): nat
    requires |page| == PAGESIZE
  {
    Half(page, 44)
  }

  function HeaderOffset(page: seq<Byte>): nat
    requires |page| == PAGESIZE
  {
    Word(page, 28)
  }

  predicate HeadersInPage(page: seq<Byte>)
    requires |page| == PAGESIZE
  {
    HeaderOffset(page) + 32 * HeaderCount(page) <= PAGESIZE
  }

  /** The segment of a program header. */
  function Header(page: seq<Byte>, i: nat): Segment
    requires |page| == PAGESIZE && HeadersInPage(page) && i < HeaderCount(page)
  {
    var at := HeaderOffset(page) + 32 * i;
    Segment(Word(page, at + 8), Word(page, at + 16), Word(page, at + 20), Word(page, at + 4))
  }

  function Headers(page: seq<Byte>, n: nat): (gs: seq<Segment>)
    requires |page| == PAGESIZE && HeadersInPage(page) && n <= HeaderCount(page)
    ensures |gs| == n && forall i :: 0 <= i < n ==> gs[i] == Header(page, i)
  {
    if n == 0 then [] else Headers(page, n - 1) + [Header(page, n - 1)]
  }

  /** The segment does not touch the page that the headers are read into. */
  predicate AwayFromHeaders(g: Segment) {
    (ReadEnd(g) <= ELFHDR && MemEnd(g) <= ELFHDR) || ReadStart(g) >= ELFHDR + PAGESIZE
  }

  const HEADER_PAGE := Segment(ELFHDR, PAGESIZE, PAGESIZE, 0)

  /** What `bootmain` reads as the first page of the kernel. */
  function FirstPage(image: seq<Byte>): (p: seq<Byte>)
    requires |image| >= SECTSIZE + PAGESIZE
    ensures |p| == PAGESIZE
  {
    image[SECTSIZE..SECTSIZE + PAGESIZE]
  }

  method ReadHalf(mem: array<Byte>, a: nat) returns (w: nat)
    requires a + 2 <= mem.Length
    ensures w == Half(mem[..], a)
  {
    w := mem[a] as int + 256 * mem[a + 1] as int;
  }

  method ReadWord(mem: array<Byte>, a: nat) returns (w: nat)
    requires a + 4 <= mem.Length
    ensures w == Word(mem[..], a)
  {
    var low := ReadHalf(mem, a);
    var high := ReadHalf(mem, a + 2);
    w := low + 0x1_0000 * high;
  }

  /** The scratch page holds the first page of the kernel. */
  ghost predicate HeaderAt(m: seq<Byte>, page: seq<Byte>) {
    |page| == PAGESIZE && |m| >= ELFHDR + PAGESIZE && forall k :: 0 <= k < PAGESIZE ==> m[ELFHDR + k] == page[k]
  }

  lemma HeaderFields(m: seq<Byte>, page: seq<Byte>, k: nat)
    requires HeaderAt(m, page)
    ensures k + 2 <= PAGESIZE ==> Half(m, ELFHDR + k) == Half(page, k)
    ensures k + 4 <= PAGESIZE ==> Word(m, ELFHDR + k) == Word(page, k)
  {
    if k + 2 <= PAGESIZE {
      assert m[ELFHDR + k] == page[k] && m[ELFHDR + (k + 1)] == page[k + 1];
    }
    if k + 4 <= PAGESIZE {
      assert m[ELFHDR + (k + 2)] == page[k + 2] && m[ELFHDR + (k + 3)] == page[k + 3];
    }
  }

  lemma HeaderRead(image: seq<Byte>, m: seq<Byte>)
    requires |m| >= ELFHDR + PAGESIZE && |image| >= SECTSIZE + PAGESIZE
    ensures Fits(image, |m|, HEADER_PAGE) && HeaderAt(AfterSegment(image, m, HEADER_PAGE), FirstPage(image))
  {
    assert ReadStart(HEADER_PAGE) == ELFHDR && ReadEnd(HEADER_PAGE) == ELFHDR + PAGESIZE;
    forall k | 0 <= k < PAGESIZE
      ensures AfterSegment(image, m, HEADER_PAGE)[ELFHDR + k] == FirstPage(image)[k]
    {
      assert ImageIndex(HEADER_PAGE, ELFHDR + k) == SECTSIZE + k;
    }
  }

  lemma HeaderKept(image: seq<Byte>, m: seq<Byte>, page: seq<Byte>, g: Segment)
    requires HeaderAt(m, page) && AwayFromHeaders(g)
    ensures HeaderAt(AfterSegment(image, m, g), page)
  {
  }

  /** The loop of `bootmain`, up to the jump to the kernel; the answer is whether the file
      had the magic number. The headers are read from memory, one before each segment. */
  method BootMain(image: seq<Byte>, mem: array<Byte>) returns (ok: bool)
    requires mem.Length >= ELFHDR + PAGESIZE && |image| >= SECTSIZE + PAGESIZE
    requires Word(FirstPage(image), 0) == ELF_MAGIC ==>
               && HeadersInPage(FirstPage(image))
               && forall i: nat :: i < HeaderCount(FirstPage(image)) ==>
                    Fits(image, mem.Length, Header(FirstPage(image), i)) && AwayFromHeaders(Header(FirstPage(image), i))
    modifies mem
    ensures ok <==> Word(FirstPage(image), 0) == ELF_MAGIC
    ensures ok ==> mem[..] == AfterSegments(image, AfterSegment(image, old(mem[..]), HEADER_PAGE),
                                            Headers(FirstPage(image), HeaderCount(FirstPage(image))))
  {
    ghost var page, start := FirstPage(image), AfterSegment(image, mem[..], HEADER_PAGE);
    HeaderRead(image, mem[..]);
    ReadSeg(image, mem, HEADER_PAGE);
    HeaderFields(mem[..], page, 0);
    HeaderFields(mem[..], page, 28);
    HeaderFields(mem[..], page, 44);
    hide ByteAfter, HeaderAt, Word, Half;
    var magic := ReadWord(mem, ELFHDR);
    if magic != ELF_MAGIC {
      return false;
    }
    var phoff := ReadWord(mem, ELFHDR + 28);
    var phnum := ReadHalf(mem, ELFHDR + 44);
    var i := 0;
    while i < phnum
      invariant 0 <= i <= phnum && HeaderAt(mem[..], page)
      invariant mem[..] == AfterSegments(image, start, Headers(page, i))
    {
      var g := ReadHeader(mem, ELFHDR + phoff + 32 * i, page, i);
      HeaderKept(image, mem[..], page, g);
      ReadSeg(image, mem, g);
      assert Headers(page, i + 1)[..i] == Headers(page, i);
      i := i + 1;
    }
    return true;
  }

  method ReadHeader(mem: array<Byte>, at: nat, ghost page: seq<Byte>, ghost i: nat) returns (g: Segment)
    requires HeaderAt(mem[..], page) && HeadersInPage(page) && i < HeaderCount(page)
    requires at == ELFHDR + HeaderOffset(page) + 32 * i
    ensures g == Header(page, i)
  {
    ghost var k := HeaderOffset(page) + 32 * i;
    HeaderFields(mem[..], page, k + 4);
    HeaderFields(mem[..], page, k + 8);
    HeaderFields(mem[..], page, k + 16);
    HeaderFields(mem[..], page, k + 20);
    var va := ReadWord(mem, at + 8);
    var filesz := ReadWord(mem, at + 16);
    var memsz := ReadWord(mem, at + 20);
    var offset := ReadWord(mem, at + 4);
    g := Segment(va, filesz, memsz, offset);
  }

  // ----- the ELF format

  /** Numbers as they are stored. */
  function Le16(n: nat): (b: seq<Byte>)
    ensures |b| == 2
  {
    [n % 256, n / 256 % 256]
  }

  function Le32(n: nat): (b: seq<Byte>)
    ensures |b| == 4
  {
    Le16(n % 0x1_0000) + Le16(n / 0x1_0000)
  }

  lemma WordIsStored(b: seq<Byte>, k: nat, n: nat)
    requires k + 4 <= |b| && b[k..k + 4] == Le32(n) && n < 0x1_0000_0000
    ensures Word(b, k) == n
  {
    var r := b[k..k + 4];
    assert b[k] == r[0] && b[k + 1] == r[1] && b[k + 2] == r[2] && b[k + 3] == r[3];
  }

  lemma HalfIsStored(b: seq<Byte>, k: nat, n: nat)
    requires k + 2 <= |b| && b[k..k + 2] == Le16(n) && n < 0x1_0000
    ensures Half(b, k) == n
  {
    var r := b[k..k + 2];
    assert b[k] == r[0] && b[k + 1] == r[1];
  }

  /** `struct Proghdr` */
  datatype ProgramHeader =
    ProgramHeader(kind: nat, offset: nat, va: nat, pa: nat, filesz: nat, memsz: nat, flags: nat, align: nat)

  function HeaderBytes(h: ProgramHeader): (b: seq<Byte>)
    ensures |b| == 32
  {
    Le32(h.kind) + Le32(h.offset) + Le32(h.va) + Le32(h.pa) + Le32(h.filesz) + Le32(h.memsz) + Le32(h.flags) + Le32(h.align)
  }

  /** A program header that is stored in the page is read as the segment that it describes. */
  lemma HeaderIsStored(page: seq<Byte>, i: nat, h: ProgramHeader)
    requires |page| == PAGESIZE && HeadersInPage(page) && i < HeaderCount(page)
    requires page[HeaderOffset(page) + 32 * i..HeaderOffset(page) + 32 * i + 32] == HeaderBytes(h)
    requires h.offset < 0x1_0000_0000 && h.va < 0x1_0000_0000 && h.filesz < 0x1_0000_0000 && h.memsz < 0x1_0000_0000
    ensures Header(page, i) == Segment(h.va, h.filesz, h.memsz, h.offset)
  {
    hide Word, Le32, HeaderOffset, HeaderCount, HeaderBytes;
    var at := HeaderOffset(page) + 32 * i;
    HeaderParts(h);
    FieldIsStored(page, at, 32, 4, h.offset);
    FieldIsStored(page, at, 32, 8, h.va);
    FieldIsStored(page, at, 32, 16, h.filesz);
    FieldIsStored(page, at, 32, 20, h.memsz);
  }

  lemma HeaderParts(h: ProgramHeader)
    ensures var b := HeaderBytes(h);
            b[4..8] == Le32(h.offset) && b[8..12] == Le32(h.va) && b[16..20] == Le32(h.filesz) && b[20..24] == Le32(h.memsz)
  {
    hide Le32;
  }

  /** A field of a part of the page. */
  lemma FieldIsStored(page: seq<Byte>, at: nat, len: nat, k: nat, n: nat)
    requires at + len <= |page| && k + 4 <= len && n < 0x1_0000_0000
    requires page[at..at + len][k..k + 4] == Le32(n)
    ensures Word(page, at + k) == n
  {
    hide Word, Le32;
    var q, part := at + k, page[at..at + len];
    assert page[q] == part[k] && page[q + 1] == part[k + 1] && page[q + 2] == part[k + 2] && page[q + 3] == part[k + 3];
    assert page[q..q + 4] == part[k..k + 4];
    WordIsStored(page, q, n);
  }

  /** The start of `struct Elf`, up to the number of program headers. */
  datatype ElfHeader =
    ElfHeader(magic: nat, elf: seq<Byte>, kind: nat, machine: nat, version: nat, entry: nat, phoff: nat, shoff: nat,
              flags: nat, ehsize: nat, phentsize: nat, phnum: nat)

  function ElfBytes(h: ElfHeader): (b: seq<Byte>)
    requires |h.elf| == 12
    ensures |b| == 46
  {
    Le32(h.magic) + h.elf + Le16(h.kind) + Le16(h.machine) + Le32(h.version) + Le32(h.entry) + Le32(h.phoff)
    + Le32(h.shoff) + Le32(h.flags) + Le16(h.ehsize) + Le16(h.phentsize) + Le16(h.phnum)
  }

  /** And so is the header of the file. */
  lemma ElfIsStored(page: seq<Byte>, h: ElfHeader)
    requires |page| == PAGESIZE && |h.elf| == 12 && page[..46] == ElfBytes(h)
    requires h.magic < 0x1_0000_0000 && h.phoff < 0x1_0000_0000 && h.phnum < 0x1_0000
    ensures Word(page, 0) == h.magic && HeaderOffset(page) == h.phoff && HeaderCount(page) == h.phnum
  {
    hide Word, Half, Le32, Le16, ElfBytes;
    ElfParts(h);
    assert page[..46] == page[0..46];
    FieldIsStored(page, 0, 46, 0, h.magic);
    FieldIsStored(page, 0, 46, 28, h.phoff);
    assert page[44..46] == page[..46][44..46];
    HalfIsStored(page, 44, h.phnum);
  }

  lemma ElfParts(h: ElfHeader)
    requires |h.elf| == 12
    ensures var b := ElfBytes(h); b[0..4] == Le32(h.magic) && b[28..32] == Le32(h.phoff) && b[44..46] == Le16(h.phnum)
  {
    hide Le32, Le16;
  }

  /** The masks of `readseg`: addresses have 24 bits, and are rounded down to a sector. */
  lemma SegmentMasks(g: Segment)
    requires g.va < 0x1_0000_0000
    ensures And(g.va, 0xFF_FFFF) == Start(g)
    ensures And(Start(g), 0xFFFF_FE00) == ReadStart(g)
  {
    assert Pow2(8) == 256;
    assert Pow2(9) == 512;
    assert Pow2(16) == 65536;
    assert Pow2(24) == 0x100_0000;
    assert Pow2(32) == 0x1_0000_0000;
    AndLowMask(g.va / 0x100_0000, g.va % 0x100_0000, 24);
    AndHighMask(Start(g) / SECTSIZE, Start(g) % SECTSIZE, 9, 32);
  }

  // ----- loading inverts image building

  /** The addresses of a segment hold its bytes of the kernel, and zeros after them. */
  ghost predicate Loaded(m: seq<Byte>, kernel: seq<Byte>, g: Segment)
    requires g.offset + g.filesz <= |kernel| && FileEnd(g) <= |m| && MemEnd(g) <= |m|
  {
    && (forall a :: Start(g) <= a < FileEnd(g) ==> m[a] == kernel[g.offset + (a - Start(g))])
    && forall a :: FileEnd(g) <= a < MemEnd(g) ==> m[a] == 0
  }

  /** The segment is a part of the kernel file, at the same place in its sector in memory
      and in the file. */
  predicate FromKernel(kernel: seq<Byte>, g: Segment) {
    g.offset + g.filesz <= |kernel| && Start(g) % SECTSIZE == g.offset % SECTSIZE
  }

  /** What `later` reads or clears, whole sectors of it, misses the addresses of `g`. */
  predicate Spares(later: Segment, g: Segment) {
    || (ReadEnd(later) <= Start(g) && MemEnd(later) <= Start(g))
    || (FileEnd(g) <= ReadStart(later) && MemEnd(g) <= ReadStart(later))
  }

  lemma LoadsItself(image: seq<Byte>, kernel: seq<Byte>, m: seq<Byte>, g: Segment)
    requires |image| >= SECTSIZE + |kernel| && image[SECTSIZE..SECTSIZE + |kernel|] == kernel
    requires FromKernel(kernel, g) && FileEnd(g) <= |m| && MemEnd(g) <= |m|
    ensures Loaded(AfterSegment(image, m, g), kernel, g)
  {
    forall a | Start(g) <= a < FileEnd(g)
      ensures AfterSegment(image, m, g)[a] == kernel[g.offset + (a - Start(g))]
    {
      SameSectorOffset(g, a - Start(g));
      assert kernel[g.offset + (a - Start(g))] == image[SECTSIZE + (g.offset + (a - Start(g)))];
    }
  }

  /** The byte `k` of a segment comes from byte `k` after its offset, behind the boot sector. */
  lemma SameSectorOffset(g: Segment, k: nat)
    requires Start(g) % SECTSIZE == g.offset % SECTSIZE && k < g.filesz
    ensures ReadStart(g) <= Start(g) + k < ReadEnd(g)
    ensures ImageIndex(g, Start(g) + k) == SECTSIZE + g.offset + k
  {
  }

  lemma SparedStaysLoaded(image: seq<Byte>, kernel: seq<Byte>, m: seq<Byte>, later: Segment, g: Segment)
    requires g.offset + g.filesz <= |kernel| && FileEnd(g) <= |m| && MemEnd(g) <= |m|
    requires Loaded(m, kernel, g) && Spares(later, g)
    ensures Loaded(AfterSegment(image, m, later), kernel, g)
  {
  }

  /** All segments are in memory after the last one was read, if each spares those that
      were read before it. */
  lemma {:induction false} SegmentsLoaded(image: seq<Byte>, kernel: seq<Byte>, m: seq<Byte>, gs: seq<Segment>, i: nat)
    requires |image| >= SECTSIZE + |kernel| && image[SECTSIZE..SECTSIZE + |kernel|] == kernel
    requires forall j :: 0 <= j < |gs| ==> FromKernel(kernel, gs[j]) && FileEnd(gs[j]) <= |m| && MemEnd(gs[j]) <= |m|
    requires forall j, k :: 0 <= j < k < |gs| ==> Spares(gs[k], gs[j])
    requires i < |gs|
    ensures |AfterSegments(image, m, gs)| == |m| && FromKernel(kernel, gs[i]) && FileEnd(gs[i]) <= |m| && MemEnd(gs[i]) <= |m|
    ensures Loaded(AfterSegments(image, m, gs), kernel, gs[i])
    decreases |gs|
  {
    var n := |gs| - 1;
    var before := AfterSegments(image, m, gs[..n]);
    if i == n {
      LoadsItself(image, kernel, before, gs[n]);
    } else {
      SegmentsLoaded(image, kernel, m, gs[..n], i);
      SparedStaysLoaded(image, kernel, before, gs[n], gs[i]);
    }
  }

  /** The first page of a kernel; a shorter one is filled up. */
  function KernelPage(kernel: seq<Byte>): (p: seq<Byte>)
    ensures |p| == PAGESIZE
    ensures forall k :: 0 <= k < PAGESIZE && k < |kernel| ==> p[k] == kernel[k]
  {
    if |kernel| >= PAGESIZE then kernel[..PAGESIZE] else kernel + BootDisk.Zeros(PAGESIZE - |kernel|)
  }

  /** Two pages with the same start have the same headers, if these are in that part. */
  lemma SameHeaders(p: seq<Byte>, q: seq<Byte>, len: nat)
    requires |p| == |q| == PAGESIZE && 48 <= len <= PAGESIZE && forall k :: 0 <= k < len ==> p[k] == q[k]
    requires HeaderOffset(p) + 32 * HeaderCount(p) <= len
    ensures Word(q, 0) == Word(p, 0) && HeaderOffset(q) == HeaderOffset(p) && HeaderCount(q) == HeaderCount(p)
    ensures Headers(q, HeaderCount(p)) == Headers(p, HeaderCount(p))
    ensures forall i: nat :: i < HeaderCount(p) ==> Header(q, i) == Header(p, i)
  {
    hide Half, Word;
    SameField(p, q, len, 0);
    SameField(p, q, len, 28);
    SameField(p, q, len, 44);
    forall i: nat | i < HeaderCount(p) ensures Header(q, i) == Header(p, i) {
      var at := HeaderOffset(p) + 32 * i;
      assert at + 32 <= len;
      SameField(p, q, len, at + 4);
      SameField(p, q, len, at + 8);
      SameField(p, q, len, at + 16);
      SameField(p, q, len, at + 20);
    }
  }

  lemma SameField(p: seq<Byte>, q: seq<Byte>, len: nat, k: nat)
    requires k + 4 <= len <= |p| && len <= |q| && forall i :: 0 <= i < len ==> p[i] == q[i]
    ensures Word(q, k) == Word(p, k) && Half(q, k) == Half(p, k)
  {
  }

  /** The kernel can be booted into `memory` bytes: its headers are in its first page, and
      its segments are in memory and spare the header page and each other. */
  ghost predicate Bootable(kernel: seq<Byte>, memory: nat) {
    && memory >= ELFHDR + PAGESIZE && |kernel| >= 48
    && Word(KernelPage(kernel), 0) == ELF_MAGIC && HeadersInPage(KernelPage(kernel))
    && HeaderOffset(KernelPage(kernel)) + 32 * HeaderCount(KernelPage(kernel)) <= |kernel|
    && var n := HeaderCount(KernelPage(kernel));
       && (forall i: nat :: i < n ==>
             var g := Header(KernelPage(kernel), i);
             FromKernel(kernel, g) && ReadEnd(g) <= memory && MemEnd(g) <= memory && AwayFromHeaders(g))
       && forall i: nat, j: nat :: i < j < n ==> Spares(Header(KernelPage(kernel), j), Header(KernelPage(kernel), i))
  }

  /** The sectors of a segment are on the disk, the last one filled up. */
  lemma SegmentOnDisk(image: seq<Byte>, kernel: seq<Byte>, memory: nat, g: Segment)
    requires |image| % SECTSIZE == 0 && |image| >= SECTSIZE + |kernel|
    requires FromKernel(kernel, g) && ReadEnd(g) <= memory && MemEnd(g) <= memory
    ensures Fits(image, memory, g)
  {
    hide SectorDown, SectorUp, ReadStart, ReadEnd;
    var end := (g.offset / SECTSIZE + 1) * SECTSIZE + (ReadEnd(g) - ReadStart(g));
    SectorBounds(g);
    SumOfSectors(g.offset / SECTSIZE + 1, ReadEnd(g), ReadStart(g));
    assert g.offset == g.offset / SECTSIZE * SECTSIZE + g.offset % SECTSIZE;
    WholeSectors(end, |image|);
  }

  lemma SectorBounds(g: Segment)
    ensures ReadStart(g) % SECTSIZE == 0 && ReadEnd(g) % SECTSIZE == 0
    ensures ReadStart(g) == Start(g) - Start(g) % SECTSIZE && ReadStart(g) <= ReadEnd(g) < FileEnd(g) + SECTSIZE
  {
  }

  lemma SumOfSectors(n: nat, a: nat, b: nat)
    requires a % SECTSIZE == 0 && b % SECTSIZE == 0
    ensures (n * SECTSIZE + (a - b)) % SECTSIZE == 0
  {
  }

  lemma WholeSectors(a: nat, b: nat)
    requires a % SECTSIZE == 0 && b % SECTSIZE == 0 && a < b + SECTSIZE
    ensures a <= b
  {
  }

  /** The writer and the loader agree: for a kernel that is written to the disk as the first
      file, the loader leaves the bytes of every segment at its addresses, and zeros after
      them, whatever else is on the disk and was in memory. */
  method BuildAndBoot(boot: seq<Byte>, kernel: seq<Byte>, rest: seq<Item>, mem: array<Byte>) returns (written: bool)
    requires Bootable(kernel, mem.Length)
    modifies mem
    ensures written <==> |boot| <= 510 && SkipsForward(1, [Contents(kernel)] + rest)
    ensures written ==> forall i: nat :: i < HeaderCount(KernelPage(kernel)) ==>
              var g := Header(KernelPage(kernel), i);
              && g.offset + g.filesz <= |kernel| && FileEnd(g) <= mem.Length && MemEnd(g) <= mem.Length
              && Loaded(mem[..], kernel, g)
  {
    var image := MakeBootDisk(boot, [Contents(kernel)] + rest);
    if image.None? {
      return false;
    }
    BootableImage(boot, kernel, rest, mem.Length);
    ghost var start := AfterSegment(image.value, mem[..], HEADER_PAGE);
    var ok := BootMain(image.value, mem);
    AllLoaded(image.value, kernel, start);
    return true;
  }

  /** What the loader needs of the image. */
  lemma BootableImage(boot: seq<Byte>, kernel: seq<Byte>, rest: seq<Item>, memory: nat)
    requires Bootable(kernel, memory) && Image(boot, [Contents(kernel)] + rest).Some?
    ensures var image := Image(boot, [Contents(kernel)] + rest).value;
            var page, n := KernelPage(kernel), HeaderCount(KernelPage(kernel));
            && |image| >= SECTSIZE + PAGESIZE && |image| >= SECTSIZE + |kernel| && image[SECTSIZE..SECTSIZE + |kernel|] == kernel
            && Word(FirstPage(image), 0) == ELF_MAGIC && HeadersInPage(FirstPage(image)) && HeaderCount(FirstPage(image)) == n
            && Headers(FirstPage(image), n) == Headers(page, n)
            && forall i: nat :: i < n ==> Header(FirstPage(image), i) == Header(page, i) && Fits(image, memory, Header(page, i))
  {
    ImageStarts(boot, kernel, rest);
    var image := Image(boot, [Contents(kernel)] + rest).value;
    var page := KernelPage(kernel);
    forall k | 0 <= k < PAGESIZE && k < |kernel| ensures FirstPage(image)[k] == page[k] {
      assert FirstPage(image)[k] == image[SECTSIZE..SECTSIZE + |kernel|][k];
    }
    SameHeaders(page, FirstPage(image), if |kernel| < PAGESIZE then |kernel| else PAGESIZE);
    forall i: nat | i < HeaderCount(page) ensures Fits(image, memory, Header(page, i)) {
      SegmentOnDisk(image, kernel, memory, Header(page, i));
    }
  }

  lemma AllLoaded(image: seq<Byte>, kernel: seq<Byte>, m: seq<Byte>)
    requires Bootable(kernel, |m|) && |image| >= SECTSIZE + |kernel| && image[SECTSIZE..SECTSIZE + |kernel|] == kernel
    ensures var n := HeaderCount(KernelPage(kernel));
            forall i: nat :: i < n ==>
              var g := Header(KernelPage(kernel), i);
              && g.offset + g.filesz <= |kernel| && FileEnd(g) <= |m| && MemEnd(g) <= |m|
              && Loaded(AfterSegments(image, m, Headers(KernelPage(kernel), n)), kernel, g)
  {
    var n := HeaderCount(KernelPage(kernel));
    var gs := Headers(KernelPage(kernel), n);
    forall i: nat | i < n
      ensures var g := Header(KernelPage(kernel), i);
              && g.offset + g.filesz <= |kernel| && FileEnd(g) <= |m| && MemEnd(g) <= |m|
              && Loaded(AfterSegments(image, m, gs), kernel, g)
    {
      assert gs[i] == Header(KernelPage(kernel), i);
      SegmentsLoaded(image, kernel, m, gs, i);
    }
  }
}
