/**
 A boot partition from end to end: newfs sizes it and chooses the entry width, the kernel takes the width from the boot
 sector (`dosgetfattype`), mounts the volume and reads the first file.
 */
module FatBoot {
  import opened Bytes
  import opened FatTable
  import opened FatImage
  import opened FatLayout
  import opened FatVolume
  import opened FatSizing

  const MD_FIXED: byte := 0xF8
  const HD_ROOT_ENTRIES := 512

  /** The last part of `dosgetfattype`, for sectors of 512 bytes: the entry width, from the number of whole clusters. */
  function BootWidth(img: seq<byte>): Option<nat> {
    if |img| < BPSEC then None else
    var fatsec, nfat, spcl := Get16(img, 22), img[16], img[13];
    if Get16(img, 11) != BPSEC || fatsec < 1 || nfat < 1 || spcl < 1 then None else
    var overhead := nfat * fatsec + Get16(img, 14) + Get16(img, 17) * DIRENT / BPSEC;
    var numsect := if Get16(img, 19) != 0 then Get16(img, 19) else Get32(img, 32);
    Some(if DOS_F12MAXC < U32(numsect - overhead) / spcl then 16 else 12)
  }

  /** What newfs puts in the parameter block of a partition that it sized. */
  function HardDisk(volume: ulong, sizing: Sizing, spt: ushort, heads: ushort, hidden: ulong): Bpb
    requires sizing.spc < 256
  {
    Bpb(sizing.spc, HD_ROOT_ENTRIES, if 0xFFFF < volume then 0 else volume, MD_FIXED, sizing.spf, spt, heads, hidden, volume)
  }

  /** The width that the kernel reads off the boot sector is the one that follows from the whole clusters. */
  lemma WidthIsRead(img: seq<byte>, b: Bpb, volume: ulong, left: nat)
    requires Sized(b, volume, left) && BPSEC <= |img| && StandsAt(img, 11, PackBpb(b))
    ensures BootWidth(img) == Some(KernelBits(left))
  {
    BpbReadsBack(img, b);
    TableIsLeast(left);
    LeftIs(volume, RESV_SECTORS + b.rootEntries * DIRENT / BPSEC);
    Plain(DataSectors(left));
  }

  /** The last cluster of the file is one of the partition's and has an entry. */
  predicate Reaches(left: nat, last: nat) {
    && last < DataSectors(left) / ClusterSize(left) + PCF_FIRSTCLUSTER
    && HasEntry(NewfsBits(left), BPSEC * TableSectors(left), last)
  }

  lemma ReachesHasRoom(left: nat, last: nat)
    requires 2 <= left < 0x400000 && Reaches(left, last)
    ensures Room(NewfsBits(left), BPSEC * TableSectors(left), last)
  {
    TableIsLeast(left);
    CountPlain(left);
    Capacities(TableSectors(left));
    IDivCeilLeast(DataSectors(left), ClusterSize(left));
  }

  /** A boot block and a first file that fit on a partition. */
  ghost predicate FitsOn(left: nat, boot: seq<byte>, f: FirstFile) {
    && BPSEC <= |boot| && BPSEC <= BootSize(boot) && |f.head| == 26
    && WholeSectors(BootSize(boot) - BPSEC, ClusterSize(left)) < 0x1_0000 && WholeSectors(|f.data|, ClusterSize(left)) < 0x1_0000
    && Reaches(left, LastCluster(BootSize(boot), Some(|f.data|), ClusterSize(left)))
  }

  lemma SmallEnough(size: nat, spc: nat)
    requires 0 < spc && WholeSectors(size, spc) < 0x1_0000
    ensures size < 0x1_0000_0000
  {
    CeilUp(IDivCeil(size, BPSEC), spc);
    IDivCeilLeast(size, BPSEC);
  }

  /** They meet everything that the round trip asks for. */
  lemma PartitionFits(b: Bpb, volume: ulong, left: nat, ext: seq<byte>, boot: seq<byte>, f: FirstFile, fat: seq<byte>)
    requires Sized(b, volume, left) && b.rootEntries == HD_ROOT_ENTRIES && |ext| == 26 && |fat| == BPSEC * b.spf
    requires FitsOn(left, boot, f)
    ensures Inputs(NewfsBits(left), b, ext, boot, Some(f))
    ensures Fits(NewfsBits(left), b, boot, f, Described(NewfsBits(left), b, fat))
    ensures KernelSized(Described(NewfsBits(left), b, fat))
  {
    TableIsLeast(left);
    CountPlain(left);
    IDivCeilLeast(DataSectors(left), ClusterSize(left));
    ReachesHasRoom(left, LastCluster(BootSize(boot), Some(|f.data|), b.spc));
    SmallEnough(|f.data|, b.spc);
    PartitionCovered(b, volume, left, fat);
  }

  /** What comes back of the first file on a partition: it, unless its chain leads into the reserved codes. */
  ghost function Returned(left: nat, boot: seq<byte>, f: FirstFile): Result<seq<byte>>
    requires BPSEC <= BootSize(boot)
  {
    if LinksHold(NewfsBits(left), FirstCluster(BootSize(boot), ClusterSize(left)), ChainLength(|f.data|, ClusterSize(left)))
    then Ok(f.data)
    else Err(EIO)
  }

  lemma HardDiskIsSized(volume: ulong, left: nat, spt: ushort, heads: ushort, hidden: ulong)
    requires left == Left(volume, RESV_SECTORS, HD_ROOT_ENTRIES) && 2 <= left < 0x400000
    ensures Sized(HardDisk(volume, SizingOf(left), spt, heads, hidden), volume, left)
  {
    TableIsLeast(left);
    NothingWraps(volume, RESV_SECTORS + HD_ROOT_ENTRIES * DIRENT / BPSEC, left);
    assert U16(TableSectors(left)) == TableSectors(left);
  }

  /** A difference that wraps around is large. */
  lemma NothingWraps(volume: ulong, lost: nat, left: nat)
    requires left == U32(volume - lost) && left < 0x400000 && lost <= 0x1_0000
    ensures lost <= volume
  {
  }

  /** newfs and the kernel mean the same width: the last, partial cluster does not take the count over the limit. */
  predicate WidthsMeet(left: nat) {
    !(DOS_F12MAXC * ClusterSize(left) < DataSectors(left) < (DOS_F12MAXC + 1) * ClusterSize(left))
  }

  /** On a sized partition the kernel finds the width in the boot sector that newfs wrote, and with it the first file. */
  lemma PartitionReadsBack(img: seq<byte>, b: Bpb, volume: ulong, left: nat, ext: seq<byte>, boot: seq<byte>, f: FirstFile,
                           fat: seq<byte>)
    requires Sized(b, volume, left) && b.media == MD_FIXED && b.rootEntries == HD_ROOT_ENTRIES && FitsOn(left, boot, f)
    requires OnDisk(img, NewfsBits(left), b, ext, boot, f, fat) && WidthsMeet(left)
    ensures BootWidth(img) == Some(NewfsBits(left))
    ensures FirstFileOf(img, NewfsBits(left)) == Returned(left, boot, f)
  {
    PartitionFits(b, volume, left, ext, boot, f, fat);
    FirstFileReadsBack(img, NewfsBits(left), b, ext, boot, f, fat);
    WidthsAgree(left);
    ParametersStand(img, b, ext, boot, f, fat);
    WidthIsRead(img, b, volume, left);
  }

  lemma ParametersStand(img: seq<byte>, b: Bpb, ext: seq<byte>, boot: seq<byte>, f: FirstFile, fat: seq<byte>)
    requires |ext| == 26 && BPSEC <= |boot| && 0 < b.spc && 0 < b.rootEntries && |f.head| == 26 && |fat| == BPSEC * b.spf
    requires BPSEC <= BootSize(boot) && Start(b, boot) < 0x1_0000
    requires StandsAt(img, 0, Volume(b, ext, boot, Some(f), fat, Start(b, boot)))
    ensures BPSEC <= |img| && StandsAt(img, 11, PackBpb(b))
  {
    Sections(img, b, ext, boot, Some(f), fat, Start(b, boot));
    BootSectorStands(img, b, ext, boot);
  }

  /** newfs on a boot partition of `volume` sectors, and the kernel on what it wrote. */
  method InstallPartition(volume: ulong, spt: ushort, heads: ushort, hidden: ulong, ext: seq<byte>, boot: seq<byte>, f: FirstFile)
    returns (img: seq<byte>, r: Result<seq<byte>>)
    requires |ext| == 26 && BPSEC <= BootSize(boot)
    requires var left := Left(volume, RESV_SECTORS, HD_ROOT_ENTRIES);
      left < 0x400000 ==> 2 <= left && FitsOn(left, boot, f) && WidthsMeet(left)
    ensures var left := Left(volume, RESV_SECTORS, HD_ROOT_ENTRIES);
      && r == (if 0x400000 <= left then Err(4) else Returned(left, boot, f))
      && (left < 0x400000 ==>
            Laid(img, NewfsBits(left), HardDisk(volume, SizingOf(left), spt, heads, hidden), ext, boot, Some(f)))
  {
    var sizing := ComputeClusterSize(volume, RESV_SECTORS, HD_ROOT_ENTRIES);
    if sizing.Err? {
      return [], Err(sizing.code);
    }
    ghost var left := Left(volume, RESV_SECTORS, HD_ROOT_ENTRIES);
    var b := HardDisk(volume, sizing.value, spt, heads, hidden);
    HardDiskIsSized(volume, left, spt, heads, hidden);
    PartitionFits(b, volume, left, ext, boot, f, Zeros(BPSEC * b.spf));
    img, r := WriteAndRead(volume, left, sizing.value.bits, b, ext, boot, f);
  }

  method WriteAndRead(ghost volume: ulong, ghost left: nat, bits: nat, b: Bpb, ext: seq<byte>, boot: seq<byte>, f: FirstFile)
    returns (img: seq<byte>, r: Result<seq<byte>>)
    requires Sized(b, volume, left) && b.media == MD_FIXED && b.rootEntries == HD_ROOT_ENTRIES && bits == NewfsBits(left)
    requires Inputs(bits, b, ext, boot, Some(f)) && FitsOn(left, boot, f) && WidthsMeet(left)
    ensures Laid(img, bits, b, ext, boot, Some(f)) && r == Returned(left, boot, f)
  {
    ghost var fat;
    FitsOnIsCountable(b, volume, left, boot, f);
    img, fat := Install(bits, b, ext, boot, Some(f));
    PartitionReadsBack(img, b, volume, left, ext, boot, f, fat);
    var width := BootWidth(img).value;
    r := ReadFirstFile(img, width);
  }

  lemma FitsOnIsCountable(b: Bpb, volume: ulong, left: nat, boot: seq<byte>, f: FirstFile)
    requires Sized(b, volume, left) && FitsOn(left, boot, f)
    ensures 0 < b.spc && Countable(b, boot, Some(f))
  {
    SmallEnough(|f.data|, b.spc);
    BootClusters(boot, b.spc);
  }

  /** A file that fits and does not come back: 4079 clusters on a partition of 4080, with a boot block of one sector. */
  lemma ReservedClusterIsLost(left: nat, boot: seq<byte>, f: FirstFile)
    requires left == Left(16385, RESV_SECTORS, HD_ROOT_ENTRIES)
    requires |boot| == BPSEC && |f.head| == 26 && |f.data| == 4079 * 2048
    ensures FitsOn(left, boot, f) && WidthsMeet(left) && Returned(left, boot, f) == Err(EIO)
  {
    assert left == 16352 && ClusterSize(left) == 4 && TableSectors(left) == 16;
    assert BootSize(boot) == BPSEC && Clusters(|f.data|, 4) == 4079;
  }

  /** Such partitions are all about the same size. */
  lemma DisagreeingSize(left: nat)
    requires 2 <= left < 0x400000 && !WidthsMeet(left)
    ensures NewfsBits(left) == 16 && KernelBits(left) == 12
    ensures ClusterSize(left) == 4 && 16 <= TableSectors(left) && DataSectors(left) / 4 == DOS_F12MAXC
  {
    WidthsAgree(left);
    TableIsLeast(left);
    CountPlain(left);
    IDivCeilLeast(left, FAT16_ENTSPERSECT * 4 + 2);
  }

  /** The 12-bit entry 2 of a 16-bit table: the last byte of entry 1, and four bits of entry 2. */
  lemma HalfAnEntry(fat: seq<byte>, media: byte, length: nat)
    requires 6 <= |fat| && 1 < length && Entries(16, fat) == Table(16, |fat|, media, 0, 2, length - 1, true)
    ensures GetCluster(16, fat, 2) == 3 && GetCluster(12, fat, 2) == 1023
  {
    assert GetCluster(16, fat, 1) == Entries(16, fat)[1];
    assert GetCluster(16, fat, 2) == Entries(16, fat)[2];
  }

  /** Behind a boot block of one sector, the first file starts at cluster 2. */
  lemma StartsAtTwo(b: Bpb, boot: seq<byte>, f: FirstFile, fat: seq<byte>)
    requires b.spc == 4 && |boot| == BPSEC && BPSEC <= BootSize(boot) && RightTable(16, b, boot, Some(f), fat)
    ensures Entries(16, fat) == Table(16, |fat|, b.media, 0, 2, ChainLength(|f.data|, b.spc) - 1, true)
  {
    assert BootSize(boot) == BPSEC;
    assert Start(b, boot) == 2;
  }

  /** Where they mean different widths, the second cluster of a file behind a boot block of one sector is not found:
      the kernel takes half an entry for a whole one, and goes to cluster 1023 instead of 3. */
  lemma WrongWidthMisreads(b: Bpb, volume: ulong, left: nat, boot: seq<byte>, f: FirstFile, fat: seq<byte>)
    requires Sized(b, volume, left) && !WidthsMeet(left) && |boot| == BPSEC && BPSEC <= BootSize(boot)
    requires RightTable(NewfsBits(left), b, boot, Some(f), fat) && 1 < ChainLength(|f.data|, b.spc)
    ensures NewfsBits(left) == 16 && KernelBits(left) == 12
    ensures ClusterAt(Described(16, b, fat), 2, 1) == Ok(3) && ClusterAt(Described(12, b, fat), 2, 1) == Ok(1023)
  {
    DisagreeingSize(left);
    PartitionCovered(b, volume, left, fat);
    StartsAtTwo(b, boot, f, fat);
    HalfAnEntry(fat, b.media, ChainLength(|f.data|, b.spc));
    OneLink(Described(16, b, fat), 2, 3);
    OneLink(Described(12, b, fat), 2, 1023);
  }

  lemma OneLink(m: Mounted, cn: ushort, next: ushort)
    requires ValidCluster(m, cn) && HasEntry(m.bits, |m.fat|, cn) && GetCluster(m.bits, m.fat, cn) == next
    requires ValidCluster(m, next) && HasEntry(m.bits, |m.fat|, next)
    ensures ClusterAt(m, cn, 1) == Ok(next)
  {
    assert ClusterAt(m, next, 0) == Ok(next);
  }
}
