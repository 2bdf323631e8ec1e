/**
 The kernel's side of a FAT volume: mounting (`pc_getfat`) and mapping a file's clusters to sectors (`pc_bmap`);
 and the proof that it finds on a volume written by newfs what newfs was asked to put there.
 */
module FatVolume {
  import opened Bytes
  import opened FatTable
  import opened FatImage
  import opened FatLayout

  const ENOENT := 2
  const EIO := 5
  /** Not an error of the kernel: it would read memory behind the table. */
  const PAST_TABLE := -1

  /** What `pc_getfat` keeps of a mounted volume; sectors are counted from the start of the volume. */
  datatype Mounted = Mounted(bits: nat, spcl: nat, rdirstart: nat, rdirsec: nat, datastart: nat, ncluster: int, fat: seq<byte>)

  /** Division of C ints, which rounds towards zero. */
  function CDiv(a: int, b: nat): int
    requires 0 < b
  {
    if 0 <= a then a / b else -((-a) / b)
  }

  predicate KnownMedia(m: byte) {
    m in {0xF8, 0xFE, 0xFF, 0xFC, 0xFD, 0xF0, 0xF9}
  }

  /** The first sector of the root directory: it comes after the reserved sectors and the tables. */
  function RdirStart(fatstart: nat, nfat: nat, fatsec: nat): nat {
    fatstart + nfat * fatsec
  }

  /** `pc_getfat` on a volume of 512-byte sectors, given the width that the partition table suggests. */
  function GetFat(img: seq<byte>, bits: nat): Option<Mounted> {
    if |img| < 2 * BPSEC then None else
    var fatsec, fatstart := Get16(img, 22), Get16(img, 14);
    if Get16(img, 11) != BPSEC || fatsec < 1 || img[16] < 1 || img[13] == 0 || !KnownMedia(img[21]) then None else
    var rdirstart := RdirStart(fatstart, img[16], fatsec);
    var rdirsec := Get16(img, 17) * DIRENT / BPSEC;
    var numsect := if Get16(img, 19) != 0 then Get16(img, 19) else Get32(img, 32);
    if |img| < (fatstart + fatsec) * BPSEC then None else
    var fat := img[fatstart * BPSEC..(fatstart + fatsec) * BPSEC];
    if fat[0] != img[21] || fat[1] != 255 || fat[2] != 255 then None
    else if bits == 16 && fat[3] != 255 && 12 < fatsec then None
    else Some(Mounted(if bits == 16 && fat[3] != 255 then 12 else bits, img[13], rdirstart, rdirsec, rdirstart + rdirsec,
                      CDiv(numsect - (rdirstart + rdirsec), img[13]), fat))
  }

  /** `pc_validcl`. */
  predicate ValidCluster(m: Mounted, cn: int) {
    PCF_FIRSTCLUSTER <= cn < m.ncluster + PCF_FIRSTCLUSTER
  }

  /** The table has an entry for every cluster of the volume. */
  predicate Covered(m: Mounted) {
    m.ncluster + PCF_FIRSTCLUSTER <= Capacity(m.bits, |m.fat|)
  }

  /** The cluster `lcn` links after `cn`, if all clusters up to it are valid and have an entry: that of the last one
      is read too. */
  function ClusterAt(m: Mounted, cn: ushort, lcn: nat): Result<ushort>
    decreases lcn
  {
    if !ValidCluster(m, cn) then Err(EIO)
    else if !HasEntry(m.bits, |m.fat|, cn) then Err(PAST_TABLE)
    else if lcn == 0 then Ok(cn)
    else ClusterAt(m, GetCluster(m.bits, m.fat, cn), lcn - 1)
  }

  /** The first sector of a cluster (`pc_cldaddr`). */
  function SectorOf(m: Mounted, cn: int): int {
    m.datastart + (cn - PCF_FIRSTCLUSTER) * m.spcl
  }

  /** The sector of logical cluster `lcn` of a file: it must lie within the volume and the file, and the chain must
      lead to it. */
  function BlockOf(m: Mounted, scluster: ushort, size: nat, lcn: nat): Result<int>
    requires 0 < m.spcl
  {
    if lcn >= m.ncluster || size == 0 || HowMany(size, m.spcl * BPSEC) <= lcn then Err(ENOENT)
    else match ClusterAt(m, scluster, lcn)
         case Err(e) => Err(e)
         case Ok(cn) => Ok(SectorOf(m, cn))
  }

  /** `pc_bmap` for a regular file. */
  method Bmap(m: Mounted, scluster: ushort, size: nat, lcn: nat) returns (r: Result<int>)
    requires 0 < m.spcl
    ensures r == BlockOf(m, scluster, size, lcn)
  {
    if lcn >= m.ncluster {
      return Err(ENOENT);
    }
    if size == 0 || lcn >= HowMany(size, m.spcl * BPSEC) {
      return Err(ENOENT);
    }
    var cn, ncn, k := scluster, scluster, lcn;
    while true
      invariant 0 <= k <= lcn && ClusterAt(m, scluster, lcn) == ClusterAt(m, ncn, k)
      decreases k
    {
      cn := ncn;
      if !ValidCluster(m, cn) {
        return Err(EIO);
      }
      if !HasEntry(m.bits, |m.fat|, cn) {
        return Err(PAST_TABLE);
      }
      ncn := GetCluster(m.bits, m.fat, cn);
      if k == 0 {
        return Ok(SectorOf(m, cn));
      }
      k := k - 1;
    }
  }

  // ----- reading back -----

  /** The kernel takes 12-bit entries for volumes of up to 4086 clusters. */
  predicate KernelSized(m: Mounted) {
    m.bits == 16 || m.ncluster <= DOS_F12MAXC
  }

  /** The links of a chain lead to its cluster `lcn`: in 12 bits a number from 0xFF0 on is taken for a reserved code. */
  predicate Reachable(bits: nat, start: nat, lcn: nat) {
    bits == 16 || lcn == 0 || start + lcn < PCF_12BCLUSTER
  }

  /** They lead to its last cluster. */
  predicate LinksHold(bits: nat, start: nat, length: nat)
    requires 0 < length
  {
    Reachable(bits, start, length - 1)
  }

  /** A table with a chain of consecutive clusters, which all are in the volume and have entries. */
  ghost predicate Chained(m: Mounted, media: byte, start: nat, length: nat) {
    && 0 < length && PCF_FIRSTCLUSTER <= start && start + length <= m.ncluster + PCF_FIRSTCLUSTER
    && start + length <= 0x1_0000 && HasEntry(m.bits, |m.fat|, start + length - 1)
    && Entries(m.bits, m.fat) == Table(m.bits, |m.fat|, media, start - 2, start, length - 1, true)
  }

  /** What an entry keeps of the number of the next cluster. */
  lemma StoredLink(bits: nat, cn: ushort)
    ensures bits == 16 || cn < PCF_12BCLUSTER ==> Stored(bits, cn) == cn
    ensures bits != 16 && PCF_12BCLUSTER <= cn < 0x1000 ==> PCF_RESCLUSTER <= Stored(bits, cn)
  {
  }

  /** The entry of a cluster that another one follows. */
  lemma LinkIs(m: Mounted, media: byte, start: nat, length: nat, from: nat)
    requires Chained(m, media, start, length) && start <= from && from + 1 < start + length
    ensures HasEntry(m.bits, |m.fat|, from) && GetCluster(m.bits, m.fat, from) == Stored(m.bits, from + 1)
  {
    assert GetCluster(m.bits, m.fat, from) == Entries(m.bits, m.fat)[from];
    assert U16(from + 1) == from + 1;
  }

  /** Along a chain of consecutive clusters, `lcn` links lead `lcn` clusters on, */
  lemma {:induction false} ChainFollows(m: Mounted, media: byte, start: nat, length: nat, from: nat, lcn: nat)
    requires Chained(m, media, start, length) && start <= from && from + lcn < start + length
    requires Reachable(m.bits, from, lcn)
    ensures ClusterAt(m, from, lcn) == Ok(from + lcn)
    decreases lcn
  {
    if lcn != 0 {
      LinkIs(m, media, start, length, from);
      StoredLink(m.bits, from + 1);
      ChainFollows(m, media, start, length, from + 1, lcn - 1);
    }
  }

  /** unless they lead into the reserved codes: there the kernel finds no valid cluster. */
  lemma {:induction false} ChainBreaks(m: Mounted, media: byte, start: nat, length: nat, from: nat, lcn: nat)
    requires Chained(m, media, start, length) && start <= from && from + lcn < start + length
    requires !Reachable(m.bits, from, lcn) && KernelSized(m)
    ensures ClusterAt(m, from, lcn) == Err(EIO)
    decreases lcn
  {
    LinkIs(m, media, start, length, from);
    StoredLink(m.bits, from + 1);
    if from + 1 < PCF_12BCLUSTER {
      ChainBreaks(m, media, start, length, from + 1, lcn - 1);
    }
  }

  /** The kernel follows the whole of a chain exactly if it has one cluster or ends below the reserved codes. */
  lemma FollowedIffLinksHold(m: Mounted, media: byte, start: nat, length: nat)
    requires Chained(m, media, start, length) && KernelSized(m)
    ensures (forall lcn: nat :: lcn < length ==> ClusterAt(m, start, lcn) == Ok(start + lcn)) <==> LinksHold(m.bits, start, length)
  {
    if LinksHold(m.bits, start, length) {
      forall lcn: nat | lcn < length
        ensures ClusterAt(m, start, lcn) == Ok(start + lcn)
      {
        ChainFollows(m, media, start, length, start, lcn);
      }
    } else {
      ChainBreaks(m, media, start, length, start, length - 1);
    }
  }

  /** The fields that `pc_getfat` uses are read as they were packed. */
  lemma BpbReadsBack(img: seq<byte>, b: Bpb)
    requires StandsAt(img, 11, PackBpb(b))
    ensures Get16(img, 11) == BPSEC && img[13] == b.spc && Get16(img, 14) == RESV_SECTORS && img[16] == NUM_FATS
    ensures Get16(img, 17) == b.rootEntries && Get16(img, 19) == b.volume16 && img[21] == b.media
    ensures Get16(img, 22) == b.spf && Get32(img, 32) == b.volume32
  {
    var p := PackBpb(b);
    assert p[0] == img[11 + 0] && p[1] == img[11 + 1] && p[2] == img[11 + 2] && p[3] == img[11 + 3] && p[4] == img[11 + 4];
    assert p[5] == img[11 + 5] && p[6] == img[11 + 6] && p[7] == img[11 + 7] && p[8] == img[11 + 8] && p[9] == img[11 + 9];
    assert p[10] == img[11 + 10] && p[11] == img[11 + 11] && p[12] == img[11 + 12];
    assert p[21] == img[11 + 21] && p[22] == img[11 + 22] && p[23] == img[11 + 23] && p[24] == img[11 + 24];
    Bytes32(b.volume32);
  }

  lemma Bytes32(v: ulong)
    ensures v % 256 + 256 * (v / 256 % 256) + 0x1_0000 * (v / 0x1_0000 % 256 + 256 * (v / 0x100_0000)) == v
  {
  }

  /** The mounted volume that the parameter block describes. */
  ghost function Described(bits: nat, b: Bpb, fat: seq<byte>): Mounted
    requires 0 < b.spc
  {
    var datastart := 1 + 2 * b.spf + b.rootEntries * DIRENT / BPSEC;
    Mounted(bits, b.spc, 1 + 2 * b.spf, b.rootEntries * DIRENT / BPSEC, datastart,
            CDiv((if b.volume16 != 0 then b.volume16 else b.volume32) - datastart, b.spc), fat)
  }

  /** A 16-bit table has the fourth byte that marks it as one. */
  lemma WideSignature(b: Bpb, boot: seq<byte>, f: Option<FirstFile>, fat: seq<byte>)
    requires 0 < b.spc && BPSEC <= BootSize(boot) && 4 <= |fat| && RightTable(16, b, boot, f, fat)
    ensures fat[3] == 255
  {
    assert GetCluster(16, fat, 1) == Entries(16, fat)[1];
  }

  /** What mounting needs of the bytes. */
  lemma MountsFrom(img: seq<byte>, bits: nat, b: Bpb, fat: seq<byte>)
    requires StandsAt(img, 11, PackBpb(b)) && StandsAt(img, BPSEC, fat) && 0 < b.spf && |fat| == b.spf * BPSEC
    requires 0 < b.spc && KnownMedia(b.media)
    requires fat[0] == b.media && fat[1] == 255 && fat[2] == 255 && (bits == 16 ==> fat[3] == 255)
    ensures GetFat(img, bits) == Some(Described(bits, b, fat))
  {
    BpbReadsBack(img, b);
    var n := (1 + b.spf) * BPSEC;
    assert n == BPSEC + |fat|;
    forall k | 0 <= k < |fat|
      ensures img[BPSEC..n][k] == fat[k]
    {
      assert fat[k] == img[BPSEC + k];
    }
    assert img[BPSEC..n] == fat;
  }

  /** The kernel mounts the volume, with the table and the geometry that newfs had in mind. */
  lemma VolumeMounts(img: seq<byte>, bits: nat, b: Bpb, ext: seq<byte>, boot: seq<byte>, f: Option<FirstFile>, fat: seq<byte>,
                     start: ushort)
    requires Inputs(bits, b, ext, boot, f) && RightTable(bits, b, boot, f, fat) && KnownMedia(b.media)
    requires StandsAt(img, 0, Volume(b, ext, boot, f, fat, start))
    ensures GetFat(img, bits) == Some(Described(bits, b, fat))
  {
    Sections(img, b, ext, boot, f, fat, start);
    BootSectorStands(img, b, ext, boot);
    if bits == 16 {
      WideSignature(b, boot, f, fat);
    }
    assert fat[0] == fat[..3][0] && fat[1] == fat[..3][1] && fat[2] == fat[..3][2];
    MountsFrom(img, bits, b, fat);
  }

  /** The volume is one that newfs can fill: the counts do not overflow, the root directory takes whole sectors,
      and the last cluster that is marked is one of the volume's. */
  ghost predicate Fits(bits: nat, b: Bpb, boot: seq<byte>, f: FirstFile, m: Mounted)
    requires 0 < b.spc && BPSEC <= BootSize(boot)
  {
    && WholeSectors(BootSize(boot) - BPSEC, b.spc) < 0x1_0000 && WholeSectors(|f.data|, b.spc) < 0x1_0000
    && |f.data| < 0x1_0000_0000 && b.rootEntries % 16 == 0
    && ValidCluster(m, LastCluster(BootSize(boot), Some(|f.data|), b.spc))
  }

  /** The first file begins where its first cluster does. */
  lemma FileStartsAtCluster(bits: nat, b: Bpb, boot: seq<byte>, fat: seq<byte>)
    requires 0 < b.spc && BPSEC <= |boot| && BPSEC <= BootSize(boot) && b.rootEntries % 16 == 0
    requires WholeSectors(BootSize(boot) - BPSEC, b.spc) < 0x1_0000
    ensures SectorOf(Described(bits, b, fat), Start(b, boot)) * BPSEC == FileAt(b, boot)
  {
    var over := BootSize(boot) - BPSEC;
    RestIsWhole(over, b.spc);
    var clusters := Clusters(over, b.spc);
    assert RestSectors(over, b.spc) == clusters * b.spc;
    assert |RestOfBoot(boot, b.spc)| == clusters * b.spc * BPSEC;
    assert Start(b, boot) - 2 == clusters;
    RootSectors(b.rootEntries);
  }

  lemma RootSectors(entries: nat)
    requires entries % 16 == 0
    ensures entries * DIRENT / BPSEC * BPSEC == entries * DIRENT
  {
  }

  /** A file that is not empty has as many whole clusters as its chain is long. */
  lemma ChainHolds(size: nat, spc: nat)
    requires 0 < spc && 0 < size && WholeSectors(size, spc) < 0x1_0000
    ensures ChainLength(size, spc) == Clusters(size, spc)
    ensures RestSectors(size, spc) * BPSEC == ChainLength(size, spc) * (spc * BPSEC)
    ensures size <= ChainLength(size, spc) * (spc * BPSEC)
  {
    RestIsWhole(size, spc);
    IDivCeilLeast(size, BPSEC);
    CeilUp(IDivCeil(size, BPSEC), spc);
    TimesMonotone(Clusters(size, spc), 0, spc);
  }

  /** The file reaches into the last cluster of its chain. */
  lemma ChainReaches(size: nat, spc: nat)
    requires 0 < spc && 0 < size && WholeSectors(size, spc) < 0x1_0000
    ensures Clusters(size, spc) <= HowMany(size, spc * BPSEC)
  {
    var sectors := IDivCeil(size, BPSEC);
    IDivCeilLeast(size, BPSEC);
    NoWrap(size, spc);
    LastReached(size, sectors, spc, Clusters(size, spc));
  }

  lemma LastReached(size: nat, sectors: nat, spc: nat, clusters: nat)
    requires 0 < spc && 0 < sectors && (sectors - 1) * BPSEC < size && clusters == IDivCeil(sectors, spc)
    ensures (clusters - 1) * (spc * BPSEC) < size && clusters <= HowMany(size, spc * BPSEC)
  {
    IDivCeilLeast(sectors, spc);
    var before := (clusters - 1) * spc;
    assert before * BPSEC <= (sectors - 1) * BPSEC;
    assert before * BPSEC == (clusters - 1) * (spc * BPSEC);
    HowManyReaches(size, spc * BPSEC, clusters);
  }

  /** The first entry of the root directory gives the start and the size of the first file. */
  lemma EntryReadsBack(img: seq<byte>, b: Bpb, f: FirstFile, start: ushort)
    requires |f.head| == 26 && 0 < b.rootEntries && |f.data| < 0x1_0000_0000
    requires StandsAt(img, RdirAt(b), RootDir(b.rootEntries, Some(f), start))
    ensures RdirAt(b) + DIRENT <= |img|
    ensures Get16(img, RdirAt(b) + 26) == start && Get32(img, RdirAt(b) + 28) == |f.data|
  {
    var at := RdirAt(b);
    StandsSplit(img, at, f.head + Le16(start) + Le32(|f.data|), Zeros((b.rootEntries - 1) * DIRENT));
    StandsSplit(img, at, f.head + Le16(start), Le32(|f.data|));
    StandsSplit(img, at, f.head, Le16(start));
    Le16Back(img, at + 26, start);
    Le32Back(img, at + 28, |f.data|);
  }

  /** The logical cluster of a file that holds byte `k`. */
  function ClusterOf(spc: nat, k: nat): nat
    requires 0 < spc
  {
    QuotientNat(k, spc * BPSEC);
    k / (spc * BPSEC)
  }

  /** Byte `k` of a file: the kernel maps the cluster that holds it, and reads it there. */
  function ByteAt(img: seq<byte>, m: Mounted, scluster: ushort, size: nat, k: nat): Result<byte>
    requires 0 < m.spcl
  {
    match BlockOf(m, scluster, size, ClusterOf(m.spcl, k))
    case Err(e) => Err(e)
    case Ok(sector) => var at := sector * BPSEC + k % (m.spcl * BPSEC); if 0 <= at < |img| then Ok(img[at]) else Err(EIO)
  }

  lemma QuotientNat(k: nat, y: nat)
    requires 0 < y
    ensures 0 <= k / y && 0 <= k % y
  {
  }

  /** The first `n` bytes of a file. */
  function ReadUpTo(img: seq<byte>, m: Mounted, scluster: ushort, size: nat, n: nat): Result<seq<byte>>
    requires 0 < m.spcl
    decreases n
  {
    if n == 0 then Ok([])
    else
      var front :- ReadUpTo(img, m, scluster, size, n - 1);
      var c :- ByteAt(img, m, scluster, size, n - 1);
      Ok(front + [c])
  }

  /** The image begins with what `write_fat` writes. */
  ghost predicate OnDisk(img: seq<byte>, bits: nat, b: Bpb, ext: seq<byte>, boot: seq<byte>, f: FirstFile, fat: seq<byte>) {
    && Inputs(bits, b, ext, boot, Some(f)) && RightTable(bits, b, boot, Some(f), fat)
    && Start(b, boot) < 0x1_0000
    && StandsAt(img, 0, Volume(b, ext, boot, Some(f), fat, Start(b, boot)))
  }

  /** The kernel finds byte `k` of the chain where newfs wrote it: the file's bytes, and zeroes after them. Behind a link
      that does not lead on it finds none. */
  lemma ByteReadsBack(img: seq<byte>, bits: nat, b: Bpb, ext: seq<byte>, boot: seq<byte>, f: FirstFile, fat: seq<byte>, k: nat)
    requires OnDisk(img, bits, b, ext, boot, f, fat) && 0 < |f.data|
    requires Fits(bits, b, boot, f, Described(bits, b, fat))
    requires k < ChainLength(|f.data|, b.spc) * (b.spc * BPSEC)
    ensures var found := ByteAt(img, Described(bits, b, fat), Start(b, boot), |f.data|, k);
      && (Reachable(bits, Start(b, boot), ClusterOf(b.spc, k)) ==> found == Ok(if k < |f.data| then f.data[k] else 0))
      && (!Reachable(bits, Start(b, boot), ClusterOf(b.spc, k)) && KernelSized(Described(bits, b, fat)) ==> found == Err(EIO))
  {
    var start, length, m := Start(b, boot), ChainLength(|f.data|, b.spc), Described(bits, b, fat);
    ChainThere(bits, b, boot, f, fat, m);
    AreaByte(img, b, ext, boot, f, fat, k);
    FileStartsAtCluster(bits, b, boot, fat);
    FoundInChain(img, m, b.media, start, length, |f.data|, FileAt(b, boot), k);
  }

  /** The chain of the first file. */
  lemma ChainThere(bits: nat, b: Bpb, boot: seq<byte>, f: FirstFile, fat: seq<byte>, m: Mounted)
    requires 0 < b.spc && BPSEC <= BootSize(boot) && RightTable(bits, b, boot, Some(f), fat) && m == Described(bits, b, fat)
    requires Room(bits, BPSEC * b.spf, LastCluster(BootSize(boot), Some(|f.data|), b.spc))
    requires Fits(bits, b, boot, f, m) && 0 < |f.data|
    ensures Chained(m, b.media, Start(b, boot), ChainLength(|f.data|, b.spc))
    ensures ChainLength(|f.data|, b.spc) <= HowMany(|f.data|, b.spc * BPSEC)
  {
    ChainHolds(|f.data|, b.spc);
    ChainReaches(|f.data|, b.spc);
  }

  /** Byte `k` behind the start of the first file. */
  lemma AreaByte(img: seq<byte>, b: Bpb, ext: seq<byte>, boot: seq<byte>, f: FirstFile, fat: seq<byte>, k: nat)
    requires |ext| == 26 && BPSEC <= |boot| && BPSEC <= BootSize(boot) && 0 < b.spc && 0 < b.rootEntries && |f.head| == 26
    requires |fat| == BPSEC * b.spf && Start(b, boot) < 0x1_0000 && 0 < |f.data| && WholeSectors(|f.data|, b.spc) < 0x1_0000
    requires StandsAt(img, 0, Volume(b, ext, boot, Some(f), fat, Start(b, boot)))
    requires k < ChainLength(|f.data|, b.spc) * (b.spc * BPSEC)
    ensures FileAt(b, boot) + k < |img| && img[FileAt(b, boot) + k] == if k < |f.data| then f.data[k] else 0
  {
    ChainHolds(|f.data|, b.spc);
    Sections(img, b, ext, boot, Some(f), fat, Start(b, boot));
    var area := FileArea(Some(f), b.spc);
    assert area[k] == img[FileAt(b, boot) + k];
  }

  /** Byte `k` of a chain of consecutive clusters is `k` bytes after the start of the first one. */
  lemma FoundInChain(img: seq<byte>, m: Mounted, media: byte, start: nat, length: nat, size: nat, at: nat, k: nat)
    requires 0 < m.spcl && Chained(m, media, start, length)
    requires SectorOf(m, start) * BPSEC == at && at + k < |img| && k < length * (m.spcl * BPSEC)
    requires 0 < size && length <= HowMany(size, m.spcl * BPSEC)
    ensures Reachable(m.bits, start, ClusterOf(m.spcl, k)) ==> ByteAt(img, m, start, size, k) == Ok(img[at + k])
    ensures !Reachable(m.bits, start, ClusterOf(m.spcl, k)) && KernelSized(m) ==> ByteAt(img, m, start, size, k) == Err(EIO)
  {
    var clsize := m.spcl * BPSEC;
    Quotient(k, clsize, length);
    var q: nat, r: nat := ClusterOf(m.spcl, k), k % clsize;
    if Reachable(m.bits, start, q) {
      assert ClusterAt(m, start, q) == Ok(start + q) by {
        ChainFollows(m, media, start, length, start, q);
      }
      assert SectorOf(m, start + q) * BPSEC + r == at + k by {
        SectorOffset(m, start, q);
      }
      FoundThere(img, m, start, size, k, q, r, start + q);
    } else if KernelSized(m) {
      ChainBreaks(m, media, start, length, start, q);
      LostThere(img, m, start, size, k, q);
    }
  }

  lemma FoundThere(img: seq<byte>, m: Mounted, scluster: ushort, size: nat, k: nat, q: nat, r: nat, cn: ushort)
    requires 0 < m.spcl
    requires q == ClusterOf(m.spcl, k) && r == k % (m.spcl * BPSEC) && q < m.ncluster
    requires 0 < size && q < HowMany(size, m.spcl * BPSEC)
    requires ClusterAt(m, scluster, q) == Ok(cn) && 0 <= SectorOf(m, cn) * BPSEC + r < |img|
    ensures ByteAt(img, m, scluster, size, k) == Ok(img[SectorOf(m, cn) * BPSEC + r])
  {
  }

  lemma LostThere(img: seq<byte>, m: Mounted, scluster: ushort, size: nat, k: nat, q: nat)
    requires 0 < m.spcl && q == ClusterOf(m.spcl, k) && q < m.ncluster
    requires 0 < size && q < HowMany(size, m.spcl * BPSEC) && ClusterAt(m, scluster, q) == Err(EIO)
    ensures ByteAt(img, m, scluster, size, k) == Err(EIO)
  {
  }

  lemma SectorOffset(m: Mounted, start: nat, q: nat)
    ensures SectorOf(m, start + q) * BPSEC == SectorOf(m, start) * BPSEC + q * (m.spcl * BPSEC)
  {
    assert (start + q - 2) * m.spcl == (start - 2) * m.spcl + q * m.spcl;
    assert q * m.spcl * BPSEC == q * (m.spcl * BPSEC);
  }

  // ----- reading the first file -----

  /** Bytes that are all found are read, */
  lemma {:induction false} ReadsAll(img: seq<byte>, m: Mounted, scluster: ushort, size: nat, n: nat, contents: seq<byte>)
    requires 0 < m.spcl && n <= |contents|
    requires forall k: nat :: k < n ==> ByteAt(img, m, scluster, size, k) == Ok(contents[k])
    ensures ReadUpTo(img, m, scluster, size, n) == Ok(contents[..n])
    decreases n
  {
    if n != 0 {
      ReadsAll(img, m, scluster, size, n - 1, contents);
      assert contents[..n] == contents[..n - 1] + [contents[n - 1]];
    }
  }

  /** and the first that is not found ends the reading. */
  lemma {:induction false} ReadFails(img: seq<byte>, m: Mounted, scluster: ushort, size: nat, n: nat, k: nat, contents: seq<byte>,
                                     e: int)
    requires 0 < m.spcl && k < n && k <= |contents| && ByteAt(img, m, scluster, size, k) == Err(e)
    requires forall j: nat :: j < k ==> ByteAt(img, m, scluster, size, j) == Ok(contents[j])
    ensures ReadUpTo(img, m, scluster, size, n) == Err(e)
    decreases n
  {
    if k < n - 1 {
      ReadFails(img, m, scluster, size, n - 1, k, contents, e);
    } else {
      ReadsAll(img, m, scluster, size, k, contents);
    }
  }

  /** What is read of the first file: all of it, or an error where the chain leads into the reserved codes. */
  ghost predicate ReadsBack(r: Result<seq<byte>>, bits: nat, b: Bpb, boot: seq<byte>, f: FirstFile, m: Mounted)
    requires 0 < b.spc && BPSEC <= BootSize(boot)
  {
    var hold := LinksHold(bits, Start(b, boot), ChainLength(|f.data|, b.spc));
    (hold ==> r == Ok(f.data)) && (!hold && KernelSized(m) ==> r == Err(EIO))
  }

  /** The bytes of the first `whole` clusters are found, if links lead to them. */
  lemma ClustersReadBack(img: seq<byte>, bits: nat, b: Bpb, ext: seq<byte>, boot: seq<byte>, f: FirstFile, fat: seq<byte>,
                         whole: nat, n: nat)
    requires OnDisk(img, bits, b, ext, boot, f, fat) && Fits(bits, b, boot, f, Described(bits, b, fat)) && 0 < |f.data|
    requires 0 < whole <= ChainLength(|f.data|, b.spc) && Reachable(bits, Start(b, boot), whole - 1)
    requires n <= whole * (b.spc * BPSEC) && n <= |f.data|
    ensures forall k: nat :: k < n ==> ByteAt(img, Described(bits, b, fat), Start(b, boot), |f.data|, k) == Ok(f.data[k])
  {
    ChainHolds(|f.data|, b.spc);
    forall k: nat | k < n
      ensures ByteAt(img, Described(bits, b, fat), Start(b, boot), |f.data|, k) == Ok(f.data[k])
    {
      Quotient(k, b.spc * BPSEC, whole);
      ByteReadsBack(img, bits, b, ext, boot, f, fat, k);
    }
  }

  lemma BytesReadBack(img: seq<byte>, bits: nat, b: Bpb, ext: seq<byte>, boot: seq<byte>, f: FirstFile, fat: seq<byte>)
    requires OnDisk(img, bits, b, ext, boot, f, fat)
    requires Fits(bits, b, boot, f, Described(bits, b, fat)) && 0 < |f.data|
    ensures ReadsBack(ReadUpTo(img, Described(bits, b, fat), Start(b, boot), |f.data|, |f.data|), bits, b, boot, f,
                      Described(bits, b, fat))
  {
    var start, length, m := Start(b, boot), ChainLength(|f.data|, b.spc), Described(bits, b, fat);
    if LinksHold(bits, start, length) {
      ChainHolds(|f.data|, b.spc);
      ClustersReadBack(img, bits, b, ext, boot, f, fat, length, |f.data|);
      ReadsAll(img, m, start, |f.data|, |f.data|, f.data);
      assert f.data[..|f.data|] == f.data;
    } else if KernelSized(m) {
      var k := FirstLost(|f.data|, b.spc, length, BrokenAt(start));
      ClustersReadBack(img, bits, b, ext, boot, f, fat, BrokenAt(start), k);
      ByteReadsBack(img, bits, b, ext, boot, f, fat, k);
      ReadFails(img, m, start, |f.data|, |f.data|, k, f.data, EIO);
    }
  }

  /** The first byte of logical cluster `q` of a file. */
  lemma FirstLost(size: nat, spc: nat, length: nat, q: nat) returns (k: nat)
    requires 0 < spc && 0 < size && WholeSectors(size, spc) < 0x1_0000 && length == ChainLength(size, spc) && q < length
    ensures k == q * (spc * BPSEC) && k < size && k < length * (spc * BPSEC) && ClusterOf(spc, k) == q
  {
    var y := spc * BPSEC;
    LastClusterUsed(size, spc);
    ChainHolds(size, spc);
    k := FirstBefore(q, length, y, size);
  }

  lemma FirstBefore(q: nat, length: nat, y: nat, size: nat) returns (k: nat)
    requires 0 < y && q < length && (length - 1) * y < size <= length * y
    ensures k == q * y && k < size && k < length * y && k / y == q
  {
    TimesMonotone(q, length - 1, y);
    TimesMonotone(0, q, y);
    k := q * y;
    FirstOfCluster(k, q, y);
  }

  /** The first cluster of a chain that its links do not lead to. */
  function BrokenAt(start: nat): (r: nat)
    ensures 0 < r
  {
    if start < PCF_12BCLUSTER then PCF_12BCLUSTER - start else 1
  }

  lemma FirstOfCluster(n: nat, q: nat, y: nat)
    requires 0 < y && n == q * y
    ensures n / y == q
  {
    var p := n / y;
    assert n == p * y + n % y && (p + 1) * y == p * y + y && (q + 1) * y == q * y + y;
    TimesMonotone(p + 1, q, y);
    TimesMonotone(q + 1, p, y);
  }

  /** A file that is not empty reaches into the last cluster of its chain. */
  lemma LastClusterUsed(size: nat, spc: nat)
    requires 0 < spc && 0 < size && WholeSectors(size, spc) < 0x1_0000
    ensures (ChainLength(size, spc) - 1) * (spc * BPSEC) < size
  {
    var sectors := IDivCeil(size, BPSEC);
    IDivCeilLeast(size, BPSEC);
    NoWrap(size, spc);
    ChainHolds(size, spc);
    LastReached(size, sectors, spc, Clusters(size, spc));
  }

  /** The first root entry of a mounted volume has this start cluster and this size. */
  predicate RootNames(img: seq<byte>, m: Mounted, start: int, size: int) {
    var entry := m.rdirstart * BPSEC;
    entry + DIRENT <= |img| && Get16(img, entry + 26) == start && Get32(img, entry + 28) == size
  }

  /** The root entry of the first file, where the mounted volume has it. */
  lemma EntryFound(img: seq<byte>, bits: nat, b: Bpb, ext: seq<byte>, boot: seq<byte>, f: FirstFile, fat: seq<byte>, m: Mounted)
    requires OnDisk(img, bits, b, ext, boot, f, fat) && |f.data| < 0x1_0000_0000 && m == Described(bits, b, fat)
    ensures RootNames(img, m, Start(b, boot), |f.data|)
  {
    Sections(img, b, ext, boot, Some(f), fat, Start(b, boot));
    EntryReadsBack(img, b, f, Start(b, boot));
    assert RdirAt(b) == m.rdirstart * BPSEC;
  }

  const EINVAL := 22

  /** Mounts a volume, and reads the file that its first root entry names. */
  function FirstFileOf(img: seq<byte>, bits: nat): Result<seq<byte>> {
    match GetFat(img, bits)
    case None => Err(EINVAL)
    case Some(m) =>
      var entry := m.rdirstart * BPSEC;
      if |img| < entry + DIRENT then Err(EIO)
      else ReadUpTo(img, m, Get16(img, entry + 26), Get32(img, entry + 28), Get32(img, entry + 28))
  }

  /**
   The round trip. On the volume that newfs writes, the kernel mounts the geometry and the table that newfs meant, the
   first root entry names the first file's start and size, and what is read through the chain is the file, or an error
   exactly where the chain leads into the reserved codes.
   */
  lemma FirstFileReadsBack(img: seq<byte>, bits: nat, b: Bpb, ext: seq<byte>, boot: seq<byte>, f: FirstFile, fat: seq<byte>)
    requires OnDisk(img, bits, b, ext, boot, f, fat) && KnownMedia(b.media)
    requires Fits(bits, b, boot, f, Described(bits, b, fat))
    ensures GetFat(img, bits) == Some(Described(bits, b, fat))
    ensures ReadsBack(FirstFileOf(img, bits), bits, b, boot, f, Described(bits, b, fat))
  {
    VolumeMounts(img, bits, b, ext, boot, Some(f), fat, Start(b, boot));
    RootReadsBack(img, bits, b, ext, boot, f, fat, Described(bits, b, fat));
    ContentsReadBack(img, bits, b, ext, boot, f, fat);
  }

  lemma RootReadsBack(img: seq<byte>, bits: nat, b: Bpb, ext: seq<byte>, boot: seq<byte>, f: FirstFile, fat: seq<byte>, m: Mounted)
    requires OnDisk(img, bits, b, ext, boot, f, fat) && |f.data| < 0x1_0000_0000
    requires GetFat(img, bits) == Some(m) && m == Described(bits, b, fat)
    ensures FirstFileOf(img, bits) == ReadUpTo(img, m, Start(b, boot), |f.data|, |f.data|)
  {
    EntryFound(img, bits, b, ext, boot, f, fat, m);
    FirstFileIs(img, bits, m, Start(b, boot), |f.data|);
  }

  lemma FirstFileIs(img: seq<byte>, bits: nat, m: Mounted, start: ushort, size: nat)
    requires GetFat(img, bits) == Some(m) && 0 < m.spcl && RootNames(img, m, start, size)
    ensures FirstFileOf(img, bits) == ReadUpTo(img, m, start, size, size)
  {
  }

  lemma ContentsReadBack(img: seq<byte>, bits: nat, b: Bpb, ext: seq<byte>, boot: seq<byte>, f: FirstFile, fat: seq<byte>)
    requires OnDisk(img, bits, b, ext, boot, f, fat)
    requires Fits(bits, b, boot, f, Described(bits, b, fat))
    ensures ReadsBack(ReadUpTo(img, Described(bits, b, fat), Start(b, boot), |f.data|, |f.data|), bits, b, boot, f,
                      Described(bits, b, fat))
  {
    if 0 < |f.data| {
      BytesReadBack(img, bits, b, ext, boot, f, fat);
    } else {
      EmptyFileHolds(bits, b, boot, f);
    }
  }

  lemma EmptyFileHolds(bits: nat, b: Bpb, boot: seq<byte>, f: FirstFile)
    requires 0 < b.spc && BPSEC <= BootSize(boot) && f.data == []
    ensures LinksHold(bits, Start(b, boot), ChainLength(|f.data|, b.spc))
  {
    IDivCeilLeast(0, BPSEC);
    IDivCeilLeast(0, b.spc);
  }

  /** One byte of a file, through `Bmap`. */
  method ReadByte(img: seq<byte>, m: Mounted, scluster: ushort, size: nat, k: nat) returns (r: Result<byte>)
    requires 0 < m.spcl
    ensures r == ByteAt(img, m, scluster, size, k)
  {
    var clsize := m.spcl * BPSEC;
    QuotientNat(k, clsize);
    var sector := Bmap(m, scluster, size, ClusterOf(m.spcl, k));
    if sector.Err? {
      return Err(sector.code);
    }
    var at := sector.value * BPSEC + k % clsize;
    return if 0 <= at < |img| then Ok(img[at]) else Err(EIO);
  }

  /** Reads a file byte by byte. */
  method ReadFile(img: seq<byte>, m: Mounted, scluster: ushort, size: nat) returns (r: Result<seq<byte>>)
    requires 0 < m.spcl
    ensures r == ReadUpTo(img, m, scluster, size, size)
  {
    var data, k := [], 0;
    while k < size
      invariant 0 <= k <= size && ReadUpTo(img, m, scluster, size, k) == Ok(data)
    {
      var c := ReadByte(img, m, scluster, size, k);
      if c.Err? {
        FailsFrom(img, m, scluster, size, k, size);
        return Err(c.code);
      }
      data, k := data + [c.value], k + 1;
    }
    return Ok(data);
  }

  lemma {:induction false} FailsFrom(img: seq<byte>, m: Mounted, scluster: ushort, size: nat, k: nat, n: nat)
    requires 0 < m.spcl && k < n && ReadUpTo(img, m, scluster, size, k).Ok? && ByteAt(img, m, scluster, size, k).Err?
    ensures ReadUpTo(img, m, scluster, size, n) == Err(ByteAt(img, m, scluster, size, k).code)
    decreases n
  {
    if k < n - 1 {
      FailsFrom(img, m, scluster, size, k, n - 1);
    }
  }

  /** Mounts a volume, and reads the file that its first root entry names. */
  method ReadFirstFile(img: seq<byte>, bits: nat) returns (r: Result<seq<byte>>)
    ensures r == FirstFileOf(img, bits)
  {
    var mounted := GetFat(img, bits);
    if mounted.None? {
      return Err(EINVAL);
    }
    var entry := mounted.value.rdirstart * BPSEC;
    if |img| < entry + DIRENT {
      return Err(EIO);
    }
    r := ReadFile(img, mounted.value, Get16(img, entry + 26), Get32(img, entry + 28));
  }

  /** Only the length of the table matters for what fits. */
  lemma FitsAnyTable(bits: nat, b: Bpb, boot: seq<byte>, f: FirstFile, fat: seq<byte>, other: seq<byte>)
    requires 0 < b.spc && BPSEC <= BootSize(boot) && |fat| == |other|
    requires Fits(bits, b, boot, f, Described(bits, b, fat))
    ensures Fits(bits, b, boot, f, Described(bits, b, other))
  {
  }

  lemma ReadsBackAnyTable(r: Result<seq<byte>>, bits: nat, b: Bpb, boot: seq<byte>, f: FirstFile, fat: seq<byte>, other: seq<byte>)
    requires 0 < b.spc && BPSEC <= BootSize(boot) && ReadsBack(r, bits, b, boot, f, Described(bits, b, fat))
    ensures ReadsBack(r, bits, b, boot, f, Described(bits, b, other))
  {
  }

  /** A floppy of 1.44 megabytes. */
  const FLOPPY := Bpb(1, 224, 2880, 0xF0, 9, 18, 2, 0, 2880)

  lemma FloppyCounts(size: nat)
    requires 0 < size <= 2847 * BPSEC
    ensures WholeSectors(size, 1) == Clusters(size, 1) == IDivCeil(size, BPSEC) && 0 < IDivCeil(size, BPSEC) <= 2847
  {
  }

  /** On such a floppy, with a boot block of one sector, the round trip holds for every file up to 2847 sectors. */
  lemma FloppyFits(ext: seq<byte>, boot: seq<byte>, f: FirstFile)
    requires |ext| == 26 && |boot| == BPSEC && |f.head| == 26 && 0 < |f.data| <= 2847 * BPSEC
    ensures Inputs(12, FLOPPY, ext, boot, Some(f)) && KnownMedia(FLOPPY.media)
    ensures LinksHold(12, Start(FLOPPY, boot), ChainLength(|f.data|, FLOPPY.spc))
    ensures Fits(12, FLOPPY, boot, f, Described(12, FLOPPY, Zeros(BPSEC * FLOPPY.spf)))
  {
    FloppyCounts(|f.data|);
    assert Start(FLOPPY, boot) == 2;
  }

  lemma FitsIsCountable(bits: nat, b: Bpb, boot: seq<byte>, f: FirstFile, m: Mounted)
    requires 0 < b.spc && BPSEC <= |boot| && BPSEC <= BootSize(boot) && Fits(bits, b, boot, f, m)
    ensures Countable(b, boot, Some(f))
  {
    BootClusters(boot, b.spc);
  }

  /** newfs writes a volume with the layout that it should have, and the kernel reads the first file back from it, or fails
      where the chain leads into the reserved codes. */
  method InstallAndRead(bits: nat, b: Bpb, ext: seq<byte>, boot: seq<byte>, f: FirstFile)
    returns (img: seq<byte>, r: Result<seq<byte>>)
    requires Inputs(bits, b, ext, boot, Some(f)) && b.media in {0xF0, 0xF8, 0xF9, 0xFC, 0xFD, 0xFE, 0xFF}
    requires Fits(bits, b, boot, f, Described(bits, b, Zeros(BPSEC * b.spf)))
    ensures Laid(img, bits, b, ext, boot, Some(f))
    ensures ReadsBack(r, bits, b, boot, f, Described(bits, b, Zeros(BPSEC * b.spf)))
  {
    FitsIsCountable(bits, b, boot, f, Described(bits, b, Zeros(BPSEC * b.spf)));
    ghost var fat;
    img, fat := Install(bits, b, ext, boot, Some(f));
    FitsAnyTable(bits, b, boot, f, Zeros(BPSEC * b.spf), fat);
    FirstFileReadsBack(img, bits, b, ext, boot, f, fat);
    r := ReadFirstFile(img, bits);
    ReadsBackAnyTable(r, bits, b, boot, f, fat, Zeros(BPSEC * b.spf));
  }
}
