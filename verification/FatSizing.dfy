/**
 `compute_hd_clustersize`: sectors per cluster, sectors per table and entry width for a hard disk partition, and
 how far its arithmetic agrees with what the table must hold and with what the kernel computes.
 */
module FatSizing {
  import opened Bytes
  import opened FatTable
  import opened FatImage
  import opened FatLayout
  import opened FatVolume

  const FAT16_ENTSPERSECT := 256

  /** Unsigned 32-bit arithmetic. */
  function U32(x: int): ulong { x % 0x1_0000_0000 }

  /** The sectors that neither the reserved area nor the root directory takes. */
  function Left(volume: ulong, resv: nat, rootEntries: nat): ulong {
    U32(volume - (resv + rootEntries * DIRENT / BPSEC))
  }

  function ClusterSize(left: nat): (spc: nat)
    ensures spc == 4 || spc == 8 || spc == 16 || spc == 32 || spc == 64
  {
    if left <= 0x40000 then 4 else if left <= 0x80000 then 8 else if left <= 0x100000 then 16
    else if left <= 0x200000 then 32 else 64
  }

  function TableSectors(left: nat): nat {
    IDivCeil(left, FAT16_ENTSPERSECT * ClusterSize(left) + 2)
  }

  /** The count of clusters that decides the entry width. */
  function ClusterCount(left: nat): nat {
    IDivCeil(U32(left - 2 * TableSectors(left)), ClusterSize(left))
  }

  /** The entry width that newfs chooses. */
  function NewfsBits(left: nat): nat {
    if ClusterCount(left) <= DOS_F12MAXC then 12 else 16
  }

  datatype Sizing = Sizing(spc: nat, spf: ushort, bits: nat)

  /** The smallest cluster size from 4 on with which 65536 clusters hold everything. */
  predicate LeastClusterSize(left: nat, spc: nat) {
    left <= 0x10000 * spc && (spc == 4 || 0x10000 * (spc / 2) < left)
  }

  /** Clusters are as small as they can be, the table is the least that has an entry for every cluster beside two such
      tables, it has at most 256 sectors, there are at most 65528 clusters, and their number decides the width. */
  ghost predicate WellSized(left: nat, z: Sizing) {
    && (z.spc == 4 || z.spc == 8 || z.spc == 16 || z.spc == 32 || z.spc == 64) && LeastClusterSize(left, z.spc)
    && 0 < z.spf <= 256 && 2 * z.spf <= left
    && Suffices(left, z.spf) && (forall k: nat :: k < z.spf ==> !Suffices(left, k))
    && var clusters := IDivCeil(left - 2 * z.spf, z.spc);
       clusters <= 65528 && z.bits == if clusters <= DOS_F12MAXC then 12 else 16
  }

  /** What `compute_hd_clustersize` stores. */
  function SizingOf(left: nat): Sizing {
    Sizing(ClusterSize(left), U16(TableSectors(left)), NewfsBits(left))
  }

  lemma SizingIsGood(left: nat)
    requires 2 <= left < 0x400000
    ensures WellSized(left, SizingOf(left))
  {
    TableIsLeast(left);
    CountPlain(left);
    assert U16(TableSectors(left)) == TableSectors(left);
  }

  /** The choice of the cluster size. */
  method ChooseClusterSize(left: ulong) returns (r: Result<nat>)
    ensures r == if 0x400000 <= left then Err(4) else Ok(ClusterSize(left))
  {
    if left >= 0x400000 {
      return Err(4);
    } else if left <= 0x40000 {
      return Ok(4);
    } else if left <= 0x80000 {
      return Ok(8);
    } else if left <= 0x100000 {
      return Ok(16);
    } else if left <= 0x200000 {
      return Ok(32);
    } else {
      return Ok(64);
    }
  }

  /** `compute_hd_clustersize`. Error 4 is the exit status for a partition too large for a FAT; every other one with two
      usable sectors or more is well sized. */
  method ComputeClusterSize(volume: ulong, resv: nat, rootEntries: nat) returns (r: Result<Sizing>)
    ensures 0x400000 <= Left(volume, resv, rootEntries) <==> r == Err(4)
    ensures 2 <= Left(volume, resv, rootEntries) < 0x400000 ==> r.Ok? && WellSized(Left(volume, resv, rootEntries), r.value)
    ensures Left(volume, resv, rootEntries) < 0x400000 ==> r == Ok(SizingOf(Left(volume, resv, rootEntries)))
  {
    var lost := resv;
    lost := lost + rootEntries * DIRENT / BPSEC;
    var left := U32(volume - lost);
    var spc :- ChooseClusterSize(left);
    var z := FillIn(left, spc);
    if 2 <= left {
      SizingIsGood(left);
    }
    return Ok(z);
  }

  /** The rest of it, given the cluster size. */
  method FillIn(left: ulong, spc: nat) returns (z: Sizing)
    requires spc == ClusterSize(left)
    ensures z == SizingOf(left)
  {
    var spf := IDivCeil(left, FAT16_ENTSPERSECT * spc + 2);
    var cleft := IDivCeil(U32(left - 2 * spf), spc);
    z := Sizing(spc, U16(spf), if cleft <= DOS_F12MAXC then 12 else 16);
  }

  /** A table of `k` sectors has an entry for each cluster that is left beside two such tables. */
  predicate Suffices(left: nat, k: nat)
    requires 2 * k <= left
  {
    IDivCeil(left - 2 * k, ClusterSize(left)) <= FAT16_ENTSPERSECT * k
  }

  lemma CeilAtMost(a: nat, b: nat, c: nat)
    requires 0 < b
    ensures IDivCeil(a, b) <= c <==> a <= c * b
  {
    IDivCeilLeast(a, b);
    TimesMonotone(IDivCeil(a, b), c, b);
    TimesMonotone(c, IDivCeil(a, b) - 1, b);
  }

  lemma SufficesMeans(left: nat, k: nat)
    requires 2 * k <= left
    ensures Suffices(left, k) <==> left <= k * (FAT16_ENTSPERSECT * ClusterSize(left) + 2)
  {
    var spc := ClusterSize(left);
    CeilAtMost(left - 2 * k, spc, FAT16_ENTSPERSECT * k);
    assert FAT16_ENTSPERSECT * k * spc + 2 * k == k * (FAT16_ENTSPERSECT * spc + 2);
  }

  /** The table size is the least that suffices, and at most 256 sectors; the clusters are at most 65528. */
  lemma TableIsLeast(left: nat)
    requires 2 <= left < 0x400000
    ensures 0 < TableSectors(left) <= 256 && 2 * TableSectors(left) <= left
    ensures Suffices(left, TableSectors(left))
    ensures forall k: nat :: k < TableSectors(left) ==> !Suffices(left, k)
    ensures ClusterCount(left) <= 65528
  {
    var spc := ClusterSize(left);
    var d, spf := FAT16_ENTSPERSECT * spc + 2, TableSectors(left);
    IDivCeilLeast(left, d);
    TableBounds(left);
    SufficesMeans(left, spf);
    forall k: nat | k < spf
      ensures !Suffices(left, k)
    {
      SufficesMeans(left, k);
      TimesMonotone(k, spf - 1, d);
    }
  }

  /** Nothing wraps around when there are two usable sectors. */
  lemma CountPlain(left: nat)
    requires 2 * TableSectors(left) <= left < 0x400000
    ensures ClusterCount(left) == IDivCeil(left - 2 * TableSectors(left), ClusterSize(left))
  {
    Plain(left - 2 * TableSectors(left));
  }

  lemma Plain(x: nat)
    requires x < 0x400000
    ensures U32(x) == x
  {
  }

  lemma TableBounds(left: nat)
    requires 2 <= left < 0x400000
    ensures TableSectors(left) <= 256 && 2 * TableSectors(left) <= left
    ensures ClusterCount(left) <= 65528
  {
    var spc, spf := ClusterSize(left), TableSectors(left);
    var d := FAT16_ENTSPERSECT * spc + 2;
    CeilAtMost(left, d, 256);
    CeilAtMost(left, d, left / 2);
    AtLeastHalf(left, d);
    CountPlain(left);
    CeilAtMost(left - 2 * spf, spc, 65528);
    IDivCeilLeast(left, d);
    CountBound(left, spc, spf);
  }

  lemma CountBound(left: nat, spc: nat, spf: nat)
    requires left <= spf * (FAT16_ENTSPERSECT * spc + 2)
    requires spc == 4 || spc == 8 || spc == 16 || spc == 32 || spc == 64
    requires left <= 0x10000 * spc && left < 0x400000
    ensures left - 2 * spf <= 65528 * spc
  {
  }

  lemma AtLeastHalf(left: nat, d: nat)
    requires 2 <= left && 1026 <= d
    ensures left <= left / 2 * d
  {
    TimesMonotone(1026, d, left / 2);
  }

  /** With one usable sector the subtraction wraps around, and the count is nonsense. */
  lemma OneSectorWraps()
    ensures ClusterCount(1) > 65528
  {
    assert TableSectors(1) == 1;
  }

  /** A partition that is not too large is well sized exactly if it has two usable sectors. */
  lemma WellSizedIff(left: nat)
    requires left < 0x400000
    ensures WellSized(left, SizingOf(left)) <==> 2 <= left
  {
    if 2 <= left {
      SizingIsGood(left);
    } else {
      assert left == 1 ==> TableSectors(left) == 1;
    }
  }

  /** The sectors of the data area. */
  function DataSectors(left: nat): int { left - 2 * TableSectors(left) }

  lemma Capacities(spf: nat)
    ensures 0 < spf ==> FAT16_ENTSPERSECT * spf + 2 <= Capacity(12, BPSEC * spf)
    ensures Capacity(16, BPSEC * spf) == FAT16_ENTSPERSECT * spf
  {
  }

  /** In the 12-bit case, all clusters and the two reserved entries fit in the table. */
  lemma NarrowTableFits(left: nat)
    requires 2 <= left < 0x400000 && ClusterCount(left) <= DOS_F12MAXC
    ensures ClusterCount(left) + PCF_FIRSTCLUSTER <= Capacity(12, BPSEC * TableSectors(left))
  {
    TableIsLeast(left);
    CountPlain(left);
    Capacities(TableSectors(left));
  }

  /** In the 16-bit case they need not: the reserved entries are not counted. They fit exactly when the data area is
      two clusters short of what the table could describe. */
  lemma WideTableFits(left: nat)
    requires 2 <= left < 0x400000
    ensures ClusterCount(left) + PCF_FIRSTCLUSTER <= Capacity(16, BPSEC * TableSectors(left)) <==>
            DataSectors(left) <= (FAT16_ENTSPERSECT * TableSectors(left) - 2) * ClusterSize(left)
  {
    TableIsLeast(left);
    CountPlain(left);
    var spc, spf := ClusterSize(left), TableSectors(left);
    Capacities(spf);
    CeilAtMost(left - 2 * spf, spc, FAT16_ENTSPERSECT * spf - 2);
  }

  /** A partition that gets 16-bit entries, and whose table is two entries short. */
  lemma WideTableCanBeShort()
    ensures NewfsBits(20 * 1026) == 16
    ensures ClusterCount(20 * 1026) + PCF_FIRSTCLUSTER > Capacity(16, BPSEC * TableSectors(20 * 1026))
  {
    assert TableSectors(20 * 1026) == 20;
  }

  /** The kernel counts whole clusters only: `dosgetfattype` takes the width of a boot partition from that count. */
  function KernelBits(left: nat): nat
    requires 2 <= left < 0x400000
  {
    TableIsLeast(left);
    if DataSectors(left) / ClusterSize(left) > DOS_F12MAXC then 16 else 12
  }

  /** newfs rounds the count up, so that the two disagree on the width exactly when a last, partial cluster takes it
      over the limit. */
  lemma WidthsAgree(left: nat)
    requires 2 <= left < 0x400000
    ensures KernelBits(left) == NewfsBits(left) <==>
            !(DOS_F12MAXC * ClusterSize(left) < DataSectors(left) < (DOS_F12MAXC + 1) * ClusterSize(left))
  {
    TableIsLeast(left);
    CountPlain(left);
    CeilAtMost(left - 2 * TableSectors(left), ClusterSize(left), DOS_F12MAXC);
  }

  /** Such a partition: newfs writes 16-bit entries, the kernel reads 12-bit ones. */
  lemma WidthsCanDisagree()
    ensures KernelBits(16377) == 12 && NewfsBits(16377) == 16
  {
    assert TableSectors(16377) == 16;
  }

  /** The parameter block of a partition of `volume` sectors, as newfs fills it in. */
  ghost predicate Sized(b: Bpb, volume: ulong, left: nat) {
    && left == Left(volume, RESV_SECTORS, b.rootEntries) && 2 <= left < 0x400000
    && RESV_SECTORS + b.rootEntries * DIRENT / BPSEC <= volume
    && b.spc == ClusterSize(left) && b.spf == TableSectors(left)
    && b.volume32 == volume && b.volume16 == (if 0xFFFF < volume then 0 else volume)
  }

  /** The kernel's table reaches every cluster of a partition that newfs sized: always with 12-bit entries, and with
      16-bit ones exactly when the data area is more than one cluster short of what the table could describe. */
  lemma PartitionCovered(b: Bpb, volume: ulong, left: nat, fat: seq<byte>)
    requires Sized(b, volume, left) && |fat| == BPSEC * b.spf
    ensures Described(16, b, fat).ncluster == DataSectors(left) / ClusterSize(left)
    ensures ClusterCount(left) <= DOS_F12MAXC ==> Covered(Described(12, b, fat))
    ensures Covered(Described(16, b, fat)) <==>
            DataSectors(left) < (FAT16_ENTSPERSECT * TableSectors(left) - 1) * ClusterSize(left)
  {
    TableIsLeast(left);
    CountPlain(left);
    Capacities(b.spf);
    var spc, spf := ClusterSize(left), TableSectors(left);
    LeftIs(volume, RESV_SECTORS + b.rootEntries * DIRENT / BPSEC);
    var data := left - 2 * spf;
    assert Described(16, b, fat).ncluster == data / spc;
    FloorBelow(data, spc, FAT16_ENTSPERSECT * spf - 1);
    IDivCeilLeast(data, spc);
  }

  lemma LeftIs(volume: ulong, lost: nat)
    requires lost <= volume
    ensures U32(volume - lost) == volume - lost
  {
  }

  lemma FloorBelow(x: nat, y: nat, c: int)
    requires 0 < y
    ensures x / y < c <==> x < c * y
  {
    assert x == x / y * y + x % y;
    TimesMonotone(x / y + 1, c, y);
    TimesMonotone(c, x / y, y);
  }
}
