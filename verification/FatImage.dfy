/**
 The volume that newfs writes, sector after sector, and the kernel's view of it: the geometry that `pc_getfat`
 takes from the boot sector, and the walk along the allocation table that `pc_bmap` makes for a file.
 The two programs only share the bytes on the disk.
 */
module FatImage {
  import opened Bytes
  import opened FatTable

  // ----- little-endian numbers -----

  function Le16(v: nat): seq<byte> { [v % 256, v / 256 % 256] }

  function Le32(v: nat): seq<byte> { Le16(v) + Le16(v / 0x1_0000) }

  function Get16(b: seq<byte>, i: nat): nat
    requires i + 2 <= |b|
  {
    var lo: nat, hi: nat := b[i], b[i + 1];
    lo + 256 * hi
  }

  function Get32(b: seq<byte>, i: nat): nat
    requires i + 4 <= |b|
  {
    Get16(b, i) + 0x1_0000 * Get16(b, i + 2)
  }

  lemma Le16Back(b: seq<byte>, i: nat, v: nat)
    requires StandsAt(b, i, Le16(v)) && v < 0x1_0000
    ensures Get16(b, i) == v
  {
    var e := Le16(v);
    assert e[0] == b[i + 0] && e[1] == b[i + 1];
  }

  lemma Le32Back(b: seq<byte>, i: nat, v: nat)
    requires StandsAt(b, i, Le32(v)) && v < 0x1_0000_0000
    ensures Get32(b, i) == v
  {
    StandsSplit(b, i, Le16(v), Le16(v / 0x1_0000));
    Le16Low(b, i, v);
    Le16Back(b, i + 2, v / 0x1_0000);
  }

  lemma Le16Low(b: seq<byte>, i: nat, v: nat)
    requires StandsAt(b, i, Le16(v))
    ensures Get16(b, i) == v % 0x1_0000
  {
    var e := Le16(v);
    assert e[0] == b[i + 0] && e[1] == b[i + 1];
  }

  // ----- what newfs writes -----

  const RESV_SECTORS: nat := 1
  const NUM_FATS: nat := 2
  const DIRENT: nat := 32

  type ulong = x: int | 0 <= x < 0x1_0000_0000

  /** The BIOS parameter block, less the fields that are the same in every volume. */
  datatype Bpb = Bpb(spc: byte, rootEntries: ushort, volume16: ushort, media: byte, spf: ushort,
                     spt: ushort, heads: ushort, hidden: ulong, volume32: ulong)

  /** The packed, little-endian structure: it is found at offset 11 of the boot sector. */
  function PackBpb(b: Bpb): (r: seq<byte>)
    ensures |r| == 25
  {
    [BPSEC % 256, BPSEC / 256, b.spc, RESV_SECTORS, 0, NUM_FATS,
     b.rootEntries % 256, b.rootEntries / 256, b.volume16 % 256, b.volume16 / 256, b.media,
     b.spf % 256, b.spf / 256, b.spt % 256, b.spt / 256, b.heads % 256, b.heads / 256,
     b.hidden % 256, b.hidden / 256 % 256, b.hidden / 0x1_0000 % 256, b.hidden / 0x100_0000,
     b.volume32 % 256, b.volume32 / 256 % 256, b.volume32 / 0x1_0000 % 256, b.volume32 / 0x100_0000]
  }

  /** The first sector of a boot block, with the parameter block and its extension `ext` copied over it. */
  function BootSector(boot: seq<byte>, b: Bpb, ext: seq<byte>): (r: seq<byte>)
    requires BPSEC <= |boot| && |ext| == 26
    ensures |r| == BPSEC
  {
    boot[..11] + PackBpb(b) + ext + boot[62..BPSEC]
  }

  /** `n` bytes that begin with `src`, and go on with zeroes. */
  function Padded(src: seq<byte>, n: nat): (r: seq<byte>)
    ensures |r| == n
  {
    if n <= |src| then src[..n] else src + Zeros(n - |src|)
  }

  /** The directory entry of the first file: `head` holds its name, attributes and time. */
  datatype FirstFile = FirstFile(head: seq<byte>, data: seq<byte>)

  function RootDir(entries: nat, f: Option<FirstFile>, start: ushort): (r: seq<byte>)
    requires f.Some? ==> |f.value.head| == 26 && 0 < entries
    ensures |r| == entries * DIRENT
  {
    if f.None? then Zeros(entries * DIRENT)
    else f.value.head + Le16(start) + Le32(|f.value.data|) + Zeros((entries - 1) * DIRENT)
  }

  /** The sectors that `write_rest` writes, in its `u_short` arithmetic. */
  function RestSectors(bytes: nat, spc: nat): ushort
    requires 0 < spc
  {
    U16(Clusters(bytes, spc) * spc)
  }

  /** The sectors of whole clusters that hold `bytes` bytes. */
  function WholeSectors(bytes: nat, spc: nat): nat
    requires 0 < spc
  {
    IDivCeil(IDivCeil(bytes, BPSEC), spc) * spc
  }

  lemma CeilUp(a: nat, spc: nat)
    requires 0 < spc
    ensures a <= IDivCeil(a, spc) * spc && IDivCeil(a, spc) <= a
    ensures IDivCeil(a, spc) <= IDivCeil(a, spc) * spc
  {
    IDivCeilLeast(a, spc);
    var c := IDivCeil(a, spc);
    TimesAtLeast(c, spc);
    if 0 < a {
      TimesAtLeast(c - 1, spc);
    }
  }

  lemma TimesAtLeast(x: nat, y: nat)
    requires 0 < y
    ensures x <= x * y
  {
  }

  /** `write_rest` copies everything, in whole clusters, exactly when these come to fewer than 65536 sectors. */
  lemma RestIsWhole(bytes: nat, spc: nat)
    requires 0 < spc
    ensures RestSectors(bytes, spc) == WholeSectors(bytes, spc) <==> WholeSectors(bytes, spc) < 0x1_0000
    ensures WholeSectors(bytes, spc) < 0x1_0000 ==> Clusters(bytes, spc) * spc == WholeSectors(bytes, spc)
  {
    var sectors := IDivCeil(bytes, BPSEC);
    CeilUp(sectors, spc);
    if WholeSectors(bytes, spc) < 0x1_0000 {
      assert U16(sectors) == sectors;
      assert U16(IDivCeil(sectors, spc)) == IDivCeil(sectors, spc);
    }
  }

  /** 65535 sectors in clusters of four come to 65536, so that nothing of such a file is written. */
  lemma RestCanVanish()
    ensures RestSectors(65535 * BPSEC, 4) == 0
  {
  }

  /** The file descriptor that newfs writes to, from where it was left. */
  class Disk {
    var data: seq<byte>

    constructor ()
      ensures data == []
    {
      data := [];
    }

    method Write(bytes: seq<byte>)
      modifies this
      ensures data == old(data) + bytes
    {
      data := data + bytes;
    }
  }

  lemma PaddedStep(src: seq<byte>, n: nat, pos: nat, chunk: seq<byte>)
    requires pos == (if n <= |src| then n else |src|)
    requires chunk == Padded(src[pos..], BPSEC)
    ensures Padded(src, n + BPSEC) == Padded(src, n) + chunk
  {
    var a, b := Padded(src, n + BPSEC), Padded(src, n) + chunk;
    forall k | 0 <= k < n + BPSEC
      ensures a[k] == b[k]
    {
      if n <= k && k < |src| {
        assert chunk[k - n] == src[k];
      }
    }
  }

  /** `write_rest`: what is left of `src`, zero padded to whole clusters. */
  method WriteRest(disk: Disk, spc: nat, src: seq<byte>, remaining: nat)
    requires 0 < spc
    modifies disk
    ensures disk.data == old(disk.data) + Padded(src, RestSectors(remaining, spc) * BPSEC)
  {
    var wnumsect := RestSectors(remaining, spc);
    var s, pos, doneread, buf := 0, 0, false, Zeros(BPSEC);
    ghost var n, was := 0, disk.data;
    while s < wnumsect
      invariant 0 <= s <= wnumsect && n == s * BPSEC
      invariant AtSector(src, n, pos, doneread, buf)
      invariant disk.data == was + Padded(src, n)
    {
      buf, pos, doneread := CopySector(disk, src, pos, doneread, buf, was, n);
      n := n + BPSEC;
      s := s + 1;
    }
  }

  /** Where the copy stands after `n` bytes. */
  ghost predicate AtSector(src: seq<byte>, n: nat, pos: int, doneread: bool, buf: seq<byte>) {
    && pos == (if n <= |src| then n else |src|)
    && (doneread ==> pos == |src| && buf == Zeros(BPSEC))
  }

  /** One turn of the loop. */
  method CopySector(disk: Disk, src: seq<byte>, pos: nat, doneread: bool, buf: seq<byte>, ghost was: seq<byte>, ghost n: nat)
    returns (buf': seq<byte>, pos': nat, done': bool)
    requires AtSector(src, n, pos, doneread, buf) && disk.data == was + Padded(src, n)
    modifies disk
    ensures AtSector(src, n + BPSEC, pos', done', buf') && disk.data == was + Padded(src, n + BPSEC)
  {
    buf', pos', done' := buf, pos, doneread;
    if !doneread {
      buf', pos', done' := ReadSector(src, pos);
    }
    PaddedStep(src, n, pos, buf');
    ghost var done := Padded(src, n);
    disk.Write(buf');
    assert was + done + buf' == was + (done + buf');
  }

  /** `read` of the next sector, with what is missing of it set to zero. */
  method ReadSector(src: seq<byte>, pos: nat) returns (buf: seq<byte>, next: nat, doneread: bool)
    requires pos <= |src|
    ensures buf == Padded(src[pos..], BPSEC)
    ensures next == (if pos + BPSEC <= |src| then pos + BPSEC else |src|)
    ensures doneread ==> next == |src| && buf == Zeros(BPSEC)
  {
    var rstat := if BPSEC <= |src| - pos then BPSEC else |src| - pos;
    buf := src[pos..pos + rstat] + Zeros(BPSEC - rstat);
    next := pos + rstat;
    doneread := rstat == 0;
  }

  /** The size of a boot block file, in whole sectors. */
  function BootSize(boot: seq<byte>): nat {
    IDivCeil(|boot|, BPSEC) * BPSEC
  }

  function RestOfBoot(boot: seq<byte>, spc: nat): seq<byte>
    requires BPSEC <= |boot| && 0 < spc
  {
    IDivCeilLeast(|boot|, BPSEC);
    Padded(boot[BPSEC..], RestSectors(BootSize(boot) - BPSEC, spc) * BPSEC)
  }

  function FileArea(f: Option<FirstFile>, spc: nat): seq<byte>
    requires 0 < spc
  {
    if f.None? then [] else Padded(f.value.data, RestSectors(|f.value.data|, spc) * BPSEC)
  }

  function FileSize(f: Option<FirstFile>): Option<nat> {
    match f case None => None case Some(x) => Some(|x.data|)
  }

  /** What newfs is given: a boot block file, a volume with room for everything, and perhaps a first file. */
  ghost predicate Inputs(bits: nat, b: Bpb, ext: seq<byte>, boot: seq<byte>, f: Option<FirstFile>) {
    && (bits == 12 || bits == 16) && 0 < b.spf && 0 < b.spc && 0 < b.rootEntries
    && |ext| == 26 && BPSEC <= |boot| && BPSEC <= BootSize(boot)
    && (f.Some? ==> |f.value.head| == 26)
    && Room(bits, BPSEC * b.spf, LastCluster(BootSize(boot), FileSize(f), b.spc))
  }

  ghost function Start(b: Bpb, boot: seq<byte>): nat
    requires 0 < b.spc && BPSEC <= BootSize(boot)
  {
    FirstCluster(BootSize(boot), b.spc)
  }

  /** The whole output. */
  ghost function Volume(b: Bpb, ext: seq<byte>, boot: seq<byte>, f: Option<FirstFile>, fat: seq<byte>, start: ushort): seq<byte>
    requires |ext| == 26 && BPSEC <= |boot| && 0 < b.spc && 0 < b.rootEntries
    requires f.Some? ==> |f.value.head| == 26
  {
    BootSector(boot, b, ext) + fat + fat + RootDir(b.rootEntries, f, start) + RestOfBoot(boot, b.spc) + FileArea(f, b.spc)
  }

  /** The table that goes with these inputs. */
  ghost predicate RightTable(bits: nat, b: Bpb, boot: seq<byte>, f: Option<FirstFile>, fat: seq<byte>)
    requires 0 < b.spc && BPSEC <= BootSize(boot)
  {
    && |fat| == BPSEC * b.spf
    && 3 <= |fat| && fat[..3] == [b.media, 255, 255]
    && Entries(bits, fat) ==
       (if f.Some? then Table(bits, |fat|, b.media, Start(b, boot) - 2, Start(b, boot), ChainLength(|f.value.data|, b.spc) - 1, true)
        else Table(bits, |fat|, b.media, Start(b, boot) - 2, 0, 0, false))
  }

  /** The copies of the table. */
  method WriteTables(disk: Disk, fatp: array<byte>)
    modifies disk
    ensures disk.data == old(disk.data) + fatp[..] + fatp[..]
  {
    ghost var fat, was := fatp[..], disk.data;
    var nf := 0;
    while nf < NUM_FATS
      invariant 0 <= nf <= NUM_FATS
      invariant disk.data == if nf == 0 then was else if nf == 1 then was + fat else was + fat + fat
    {
      disk.Write(fatp[..]);
      nf := nf + 1;
    }
  }

  /** The rest of the boot block, and the first file. */
  method WriteFileSpace(disk: Disk, spc: nat, boot: seq<byte>, f: Option<FirstFile>)
    requires 0 < spc && BPSEC <= |boot|
    modifies disk
    ensures disk.data == old(disk.data) + RestOfBoot(boot, spc) + FileArea(f, spc)
  {
    var bootblksize := BootSize(boot);
    IDivCeilLeast(|boot|, BPSEC);
    if BPSEC < bootblksize {
      WriteRest(disk, spc, boot[BPSEC..], bootblksize - BPSEC);
    } else {
      IDivCeilLeast(0, spc);
      assert RestOfBoot(boot, spc) == [];
    }
    if f.Some? {
      WriteRest(disk, spc, f.value.data, |f.value.data|);
    }
  }

  /** `write_fat`: boot sector, tables, root directory, rest of the boot block, first file. */
  method WriteFat(disk: Disk, bits: nat, b: Bpb, ext: seq<byte>, boot: seq<byte>, f: Option<FirstFile>)
    returns (ghost fat: seq<byte>)
    requires Inputs(bits, b, ext, boot, f)
    modifies disk
    ensures RightTable(bits, b, boot, f, fat)
    ensures f.Some? ==> Start(b, boot) < 0x1_0000
    ensures disk.data == old(disk.data) + Volume(b, ext, boot, f, fat, if f.Some? then Start(b, boot) else 0)
  {
    ghost var was := disk.data;
    disk.Write(BootSector(boot, b, ext));
    var fatp, ffsc := BuildFat(bits, b.media, b.spf, b.spc, BootSize(boot), FileSize(f));
    fat := fatp[..];
    WriteTables(disk, fatp);
    var start := if f.Some? then ffsc else 0;
    disk.Write(RootDir(b.rootEntries, f, start));
    WriteFileSpace(disk, b.spc, boot, f);
    Assembled(was, BootSector(boot, b, ext), fat, RootDir(b.rootEntries, f, start), RestOfBoot(boot, b.spc), FileArea(f, b.spc));
  }

  lemma Assembled(a: seq<byte>, b: seq<byte>, c: seq<byte>, d: seq<byte>, e: seq<byte>, f: seq<byte>)
    ensures a + b + c + c + d + e + f == a + (b + c + c + d + e + f)
  {
  }
}
