/** The boot image that boot/mkbootdisk.c writes. */
module BootDisk {
  import opened Options

  type Byte = b: int | 0 <= b < 256

  const SECTSIZE := 512

  /** An argument after the boot sector: a file, or a sector to skip to. */
  datatype Item = Contents(bytes: seq<Byte>) | SkipTo(sector: nat)

  function Zeros(n: nat): (z: seq<Byte>)
    ensures |z| == n && forall i :: 0 <= i < n ==> z[i] == 0
  {
    seq(n, i => 0)
  }

  /** The boot sector with its signature. */
  function BootSector(boot: seq<Byte>): (s: seq<Byte>)
    requires |boot| <= 510
    ensures |s| == SECTSIZE
  {
    boot + Zeros(510 - |boot|) + [0x55, 0xAA]
  }

  /** A file up to the end of its last sector. */
  function Padded(file: seq<Byte>): (s: seq<Byte>)
    ensures |s| % SECTSIZE == 0 && |file| <= |s| < |file| + SECTSIZE && file <= s
  {
    if |file| % SECTSIZE == 0 then file else file + Zeros(SECTSIZE - |file| % SECTSIZE)
  }

  /** Zero sectors up to a sector number. */
  function FilledTo(out: seq<Byte>, sector: nat): seq<Byte> {
    if |out| < sector * SECTSIZE then out + Zeros(sector * SECTSIZE - |out|) else out
  }

  /** The output with further items; there is none if an item would have to skip back. */
  function Laid(out: seq<Byte>, items: seq<Item>): Option<seq<Byte>>
    decreases |items|
  {
    if items == [] then Some(FilledTo(out, 1024))
    else match items[0]
      case Contents(bytes) => Laid(out + Padded(bytes), items[1..])
      case SkipTo(sector) => if |out| > sector * SECTSIZE then None else Laid(FilledTo(out, sector), items[1..])
  }

  /** What the program writes. */
  function Image(boot: seq<Byte>, items: seq<Item>): Option<seq<Byte>> {
    if |boot| > 510 then None else Laid(BootSector(boot), items)
  }

  /** Nothing that was written is changed by the items that follow, and the image consists
      of whole sectors, at least 1024 of them. */
  lemma {:induction false} LaidExtends(out: seq<Byte>, items: seq<Item>)
    requires |out| % SECTSIZE == 0
    ensures Laid(out, items).Some? ==> var i := Laid(out, items).value;
              out <= i && |i| % SECTSIZE == 0 && |i| >= 1024 * SECTSIZE
    decreases |items|
  {
    if items != [] {
      match items[0]
      case Contents(bytes) => LaidExtends(out + Padded(bytes), items[1..]);
      case SkipTo(sector) => LaidExtends(FilledTo(out, sector), items[1..]);
    }
  }

  /** The boot sector ends with its signature, and the first file follows it. */
  lemma ImageStarts(boot: seq<Byte>, kernel: seq<Byte>, rest: seq<Item>)
    requires Image(boot, [Contents(kernel)] + rest).Some?
    ensures var i := Image(boot, [Contents(kernel)] + rest).value;
            && |i| % SECTSIZE == 0 && |i| >= 1024 * SECTSIZE && |i| >= SECTSIZE + |kernel|
            && boot <= i && i[510] == 0x55 && i[511] == 0xAA
            && i[SECTSIZE..SECTSIZE + |kernel|] == kernel
  {
    var items := [Contents(kernel)] + rest;
    var out := BootSector(boot) + Padded(kernel);
    assert items[1..] == rest;
    LaidExtends(out, rest);
    var i := Image(boot, items).value;
    assert i[..|out|] == out;
    assert out[SECTSIZE..] == Padded(kernel);
    assert out[SECTSIZE..SECTSIZE + |kernel|] == Padded(kernel)[..|kernel|] == kernel;
    assert i[SECTSIZE..SECTSIZE + |kernel|] == i[..|out|][SECTSIZE..SECTSIZE + |kernel|];
  }

  // ----- where everything is

  /** The sector behind an item that starts at sector `pos`. */
  function SectorAfter(pos: nat, item: Item): nat {
    match item
    case Contents(bytes) => pos + (|bytes| + SECTSIZE - 1) / SECTSIZE
    case SkipTo(sector) => sector
  }

  /** The sector at which item `i` starts, or at which all of them end. */
  function SectorOf(pos: nat, items: seq<Item>, i: nat): nat
    requires i <= |items|
    decreases i
  {
    if i == 0 then pos else SectorOf(SectorAfter(pos, items[0]), items[1..], i - 1)
  }

  /** No item skips to a sector in front of it. */
  ghost predicate SkipsForward(pos: nat, items: seq<Item>) {
    forall i :: 0 <= i < |items| && items[i].SkipTo? ==> SectorOf(pos, items, i) <= items[i].sector
  }

  /** The byte at `a` belongs to the file that is item `i`. */
  predicate InFile(pos: nat, items: seq<Item>, i: nat, a: nat)
    requires i < |items|
  {
    items[i].Contents? && SectorOf(pos, items, i) * SECTSIZE <= a < SectorOf(pos, items, i) * SECTSIZE + |items[i].bytes|
  }

  /** Every file is at its sector, and all other bytes behind the first `pos` sectors are zero. */
  ghost predicate Placed(image: seq<Byte>, pos: nat, items: seq<Item>) {
    && (forall i: nat, a: nat :: i < |items| && InFile(pos, items, i, a) ==>
          a < |image| && image[a] == items[i].bytes[a - SectorOf(pos, items, i) * SECTSIZE])
    && forall a: nat :: pos * SECTSIZE <= a < |image| && (forall i: nat :: i < |items| ==> !InFile(pos, items, i, a)) ==>
         image[a] == 0
  }

  lemma PaddedFile(file: seq<Byte>)
    ensures |Padded(file)| == (|file| + SECTSIZE - 1) / SECTSIZE * SECTSIZE
    ensures forall k :: 0 <= k < |Padded(file)| ==> Padded(file)[k] == if k < |file| then file[k] else 0
  {
  }

  lemma {:induction false} LaidPlaces(out: seq<Byte>, pos: nat, items: seq<Item>)
    requires |out| == pos * SECTSIZE
    ensures Laid(out, items).Some? <==> SkipsForward(pos, items)
    ensures Laid(out, items).Some? ==> var r := Laid(out, items).value;
              var end := SectorOf(pos, items, |items|);
              out <= r && |r| == (if end < 1024 then 1024 else end) * SECTSIZE && Placed(r, pos, items)
    decreases |items|
  {
    if items != [] {
      var next := SectorAfter(pos, items[0]);
      SkipsForwardStep(pos, items);
      match items[0]
      case Contents(bytes) =>
        PaddedFile(bytes);
        assert |out + Padded(bytes)| == next * SECTSIZE;
        LaidPlaces(out + Padded(bytes), next, items[1..]);
        if SkipsForward(next, items[1..]) {
          PlacedBehind(out, Padded(bytes), Laid(out, items).value, pos, items);
        }
      case SkipTo(sector) =>
        if pos <= sector {
          var fill := Zeros(sector * SECTSIZE - |out|);
          assert FilledTo(out, sector) == out + fill;
          LaidPlaces(out + fill, next, items[1..]);
          if SkipsForward(next, items[1..]) {
            PlacedBehind(out, fill, Laid(out, items).value, pos, items);
          }
        }
    }
  }

  lemma SkipsForwardStep(pos: nat, items: seq<Item>)
    requires items != []
    ensures SkipsForward(pos, items) <==>
              (items[0].SkipTo? ==> pos <= items[0].sector) && SkipsForward(SectorAfter(pos, items[0]), items[1..])
  {
    var next := SectorAfter(pos, items[0]);
    assert forall i: nat :: i < |items| - 1 ==> items[1..][i] == items[i + 1] && SectorOf(next, items[1..], i) == SectorOf(pos, items, i + 1);
    if SkipsForward(pos, items) {
      forall i: nat | i < |items| - 1 && items[1..][i].SkipTo? ensures SectorOf(next, items[1..], i) <= items[1..][i].sector {
        assert items[i + 1].SkipTo?;
      }
    }
    if (items[0].SkipTo? ==> pos <= items[0].sector) && SkipsForward(next, items[1..]) {
      forall i: nat | i < |items| && items[i].SkipTo? ensures SectorOf(pos, items, i) <= items[i].sector {
        if i > 0 {
          assert items[1..][i - 1].SkipTo?;
        }
      }
    }
  }

  /** What was written for the first item, in front of what is written for the others. */
  lemma PlacedBehind(out: seq<Byte>, part: seq<Byte>, image: seq<Byte>, pos: nat, items: seq<Item>)
    requires |out| == pos * SECTSIZE && items != [] && out + part <= image
    requires |out + part| == SectorAfter(pos, items[0]) * SECTSIZE
    requires items[0].Contents? ==> part == Padded(items[0].bytes)
    requires items[0].SkipTo? ==> forall k :: 0 <= k < |part| ==> part[k] == 0
    requires Placed(image, SectorAfter(pos, items[0]), items[1..])
    ensures Placed(image, pos, items)
  {
    var next := SectorAfter(pos, items[0]);
    assert forall a :: pos * SECTSIZE <= a < next * SECTSIZE ==> image[a] == (out + part)[a] == part[a - pos * SECTSIZE];
    if items[0].Contents? {
      PaddedFile(items[0].bytes);
    }
    InFileStep(pos, items);
    forall i: nat, a: nat | i < |items| && InFile(pos, items, i, a)
      ensures a < |image| && image[a] == items[i].bytes[a - SectorOf(pos, items, i) * SECTSIZE]
    {
      if i > 0 {
        assert InFile(next, items[1..], i - 1, a);
      }
    }
    forall a: nat | pos * SECTSIZE <= a < |image| && (forall i: nat :: i < |items| ==> !InFile(pos, items, i, a))
      ensures image[a] == 0
    {
      assert !InFile(pos, items, 0, a);
      assert forall i: nat :: i < |items| - 1 ==> InFile(pos, items, i + 1, a) == InFile(next, items[1..], i, a);
    }
  }

  lemma InFileStep(pos: nat, items: seq<Item>)
    requires items != []
    ensures forall a: nat :: InFile(pos, items, 0, a) <==>
              items[0].Contents? && pos * SECTSIZE <= a < pos * SECTSIZE + |items[0].bytes|
    ensures forall i: nat, a: nat :: 0 < i < |items| ==>
              (InFile(pos, items, i, a) <==> InFile(SectorAfter(pos, items[0]), items[1..], i - 1, a))
    ensures forall i: nat :: 0 < i < |items| ==>
              items[1..][i - 1] == items[i] && SectorOf(SectorAfter(pos, items[0]), items[1..], i - 1) == SectorOf(pos, items, i)
  {
  }

  /** The image of all arguments: when there is one, how long it is, and what every byte of it is. */
  lemma ImagePlaces(boot: seq<Byte>, items: seq<Item>)
    ensures Image(boot, items).Some? <==> |boot| <= 510 && SkipsForward(1, items)
    ensures Image(boot, items).Some? ==> var image := Image(boot, items).value;
              var end := SectorOf(1, items, |items|);
              && |image| == (if end < 1024 then 1024 else end) * SECTSIZE
              && boot <= image && (forall a :: |boot| <= a < 510 ==> image[a] == 0) && image[510] == 0x55 && image[511] == 0xAA
              && Placed(image, 1, items)
  {
    if |boot| <= 510 {
      LaidPlaces(BootSector(boot), 1, items);
      assert forall a :: |boot| <= a < 510 ==> BootSector(boot)[a] == 0;
    }
  }

  /** The call that builds the repository's image: a kernel, filled up to `n` sectors. */
  lemma KernelImage(boot: seq<Byte>, kernel: seq<Byte>, n: nat)
    ensures Image(boot, [Contents(kernel), SkipTo(n)]).Some? <==>
              |boot| <= 510 && SECTSIZE + |Padded(kernel)| <= n * SECTSIZE
    ensures Image(boot, [Contents(kernel), SkipTo(n)]).Some? ==>
              var image := Image(boot, [Contents(kernel), SkipTo(n)]).value;
              && |image| == (if n < 1024 then 1024 else n) * SECTSIZE
              && (forall a :: 0 <= a < |kernel| ==> image[SECTSIZE + a] == kernel[a])
              && forall a :: SECTSIZE + |kernel| <= a < |image| ==> image[a] == 0
  {
    var items := [Contents(kernel), SkipTo(n)];
    ImagePlaces(boot, items);
    PaddedFile(kernel);
    var end := SectorAfter(1, items[0]);
    assert items[1..] == [SkipTo(n)] && items[1..][1..] == [];
    assert SectorOf(1, items, 0) == 1 && SectorOf(1, items, 1) == end && SectorOf(1, items, 2) == n;
    if Image(boot, items).Some? {
      var image := Image(boot, items).value;
      forall a: nat | a < |kernel| ensures image[SECTSIZE + a] == kernel[a] {
        assert InFile(1, items, 0, SECTSIZE + a);
      }
      forall a: nat | SECTSIZE + |kernel| <= a < |image| ensures image[a] == 0 {
        assert !InFile(1, items, 0, a) && !InFile(1, items, 1, a);
      }
    }
  }

  /** Copies a file to the output, 1000 bytes at a time, and fills its last sector. */
  method CopyFile(out: seq<Byte>, file: seq<Byte>) returns (out': seq<Byte>, sectors: nat)
    ensures out' == out + Padded(file) && sectors * SECTSIZE == |Padded(file)|
  {
    out' := out;
    var pos := 0;
    while pos < |file|
      invariant 0 <= pos <= |file| && out' == out + file[..pos]
    {
      var n := if |file| - pos < 1000 then |file| - pos else 1000;
      out' := out' + file[pos..pos + n];
      assert file[..pos + n] == file[..pos] + file[pos..pos + n];
      pos := pos + n;
    }
    assert file[..pos] == file;
    if pos % SECTSIZE != 0 {
      out' := out' + Zeros(SECTSIZE - pos % SECTSIZE);
      pos := pos + (SECTSIZE - pos % SECTSIZE);
    }
    sectors := pos / SECTSIZE;
  }

  /** Writes zero sectors until `nsectors` reaches `to`. */
  method FillTo(out: seq<Byte>, nsectors: nat, to: nat) returns (out': seq<Byte>, nsectors': nat)
    requires |out| == nsectors * SECTSIZE
    ensures out' == FilledTo(out, to) && |out'| == nsectors' * SECTSIZE
    ensures nsectors' == if nsectors < to then to else nsectors
  {
    out', nsectors' := out, nsectors;
    while nsectors' < to
      invariant nsectors <= nsectors' && (nsectors < to ==> nsectors' <= to) && (nsectors >= to ==> nsectors' == nsectors)
      invariant out' == out + Zeros((nsectors' - nsectors) * SECTSIZE)
    {
      out' := out' + Zeros(SECTSIZE);
      nsectors' := nsectors' + 1;
    }
  }

  /** `main`: nothing is answered when it gives up. */
  method MakeBootDisk(boot: seq<Byte>, items: seq<Item>) returns (image: Option<seq<Byte>>)
    ensures image == Image(boot, items)
    ensures image.Some? <==> |boot| <= 510 && SkipsForward(1, items)
  {
    ImagePlaces(boot, items);
    hide SkipsForward;
    var n := if |boot| < 1000 then |boot| else 1000;
    if n > 510 {
      return None;
    }
    var out := boot + Zeros(510 - n) + [0x55, 0xAA];
    var nsectors := 1;
    var i := 0;
    assert items[0..] == items;
    while i < |items|
      invariant 0 <= i <= |items| && |out| == nsectors * SECTSIZE
      invariant Image(boot, items) == Laid(out, items[i..])
    {
      assert items[i..][0] == items[i] && items[i..][1..] == items[i + 1..];
      match items[i] {
        case SkipTo(sector) =>
          if nsectors > sector {
            return None;
          }
          out, nsectors := FillTo(out, nsectors, sector);
        case Contents(bytes) =>
          var sectors;
          out, sectors := CopyFile(out, bytes);
          nsectors := nsectors + sectors;
      }
      i := i + 1;
    }
    out, nsectors := FillTo(out, nsectors, 1024);
    return Some(out);
  }
}
