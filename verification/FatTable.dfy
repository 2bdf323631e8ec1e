/**
 The file allocation table: how newfs writes an entry (`mark_cluster`), how the kernel reads one
 (`pc_getcluster`), and the table that `build_fat` leaves in memory.
 */
module FatTable {
  import opened Bytes

  const BPSEC: nat := 512
  const PCF_FREECLUSTER := 0
  const PCF_BADCLUSTER := 0xFFF7
  const PCF_LASTCLUSTER := 0xFFF8
  const PCF_FIRSTCLUSTER := 2
  const PCF_12BCLUSTER := 0xFF0
  const PCF_RESCLUSTER := 0xFFF0
  const DOS_F12MAXC := 4086

  /** Assignment to a `u_short`. */
  function U16(x: int): ushort { x % 0x1_0000 }

  /** The macro of the same name. */
  function IDivCeil(a: nat, b: nat): (r: nat)
    requires 0 < b
  {
    a / b + if a % b == 0 then 0 else 1
  }

  /** It is the least number of pieces of size `b` that hold `a`. */
  lemma IDivCeilLeast(a: nat, b: nat)
    requires 0 < b
    ensures a <= IDivCeil(a, b) * b
    ensures a == 0 ==> IDivCeil(a, b) == 0
    ensures 0 < a ==> 0 < IDivCeil(a, b) && (IDivCeil(a, b) - 1) * b < a
  {
    assert a == a / b * b + a % b;
    assert (a / b + 1) * b == a / b * b + b;
    assert a % b == 0 && 0 < a ==> (a / b - 1) * b == a / b * b - b;
  }

  /** Where entry `n` begins in the table. */
  function EntryIndex(bits: nat, n: nat): nat {
    if bits == 16 then 2 * n else n + n / 2
  }

  /** How many entries a table of `size` bytes has. */
  function Capacity(bits: nat, size: nat): nat {
    if bits == 16 then size / 2 else 2 * size / 3
  }

  /** The table has room for entry `n`. */
  predicate HasEntry(bits: nat, size: nat, n: nat) {
    n < Capacity(bits, size)
  }

  lemma EntryFits(bits: nat, size: nat, n: nat)
    ensures HasEntry(bits, size, n) <==> EntryIndex(bits, n) + 1 < size
  {
  }

  /** The kernel widens the 12-bit codes from 0xFF0 up to their 16-bit forms. */
  function Widen(cn: int): int {
    if PCF_12BCLUSTER <= cn then cn % 16 + PCF_RESCLUSTER else cn
  }

  /** The two bytes of entry `n`, put together. */
  function Entry(bits: nat, n: nat, lo: byte, hi: byte): (r: ushort) {
    if bits == 16 then lo + 256 * hi
    else if n % 2 == 1 then Widen(lo / 16 + 16 * hi)
    else Widen(lo + 256 * (hi % 16))
  }

  /** `pc_getcluster` of the kernel. */
  function GetCluster(bits: nat, fat: seq<byte>, n: nat): (r: ushort)
    requires HasEntry(bits, |fat|, n)
  {
    EntryFits(bits, |fat|, n);
    Entry(bits, n, fat[EntryIndex(bits, n)], fat[EntryIndex(bits, n) + 1])
  }

  /** A value that the kernel reads back as it was marked: below the reserved codes, or one of them. */
  predicate Markable(bits: nat, v: ushort) {
    bits == 16 || v < PCF_12BCLUSTER || PCF_RESCLUSTER <= v
  }

  /** The first byte of an entry that is marked, given what it held. */
  function MarkLo(bits: nat, n: nat, value: ushort, lo: byte): byte {
    if bits == 16 || n % 2 == 0 then value % 256 else lo % 16 + value % 16 * 16
  }

  function MarkHi(bits: nat, n: nat, value: ushort, hi: byte): byte {
    if bits == 16 then value / 256
    else if n % 2 == 1 then value / 16 % 256
    else hi - hi % 16 + value / 256 % 16
  }

  lemma LowBits(v: ushort)
    ensures v % 16 + 16 * (v / 16 % 256) == v % 4096
    ensures v % 256 + 256 * (v / 256 % 16) == v % 4096
  {
    Low4(v, v / 16);
    Low8(v, v / 256);
  }

  lemma Low4(v: nat, q: nat)
    requires q == v / 16
    ensures v % 16 + 16 * (q % 256) == v % 4096
  {
    assert v == 16 * q + v % 16 && q == 256 * (q / 256) + q % 256;
  }

  lemma Low8(v: nat, q: nat)
    requires q == v / 256
    ensures v % 256 + 256 * (q % 16) == v % 4096
  {
    assert v == 256 * q + v % 256 && q == 16 * (q / 16) + q % 16;
  }

  lemma WidenLow(v: ushort)
    ensures Widen(v % 4096) == v <==> v < PCF_12BCLUSTER || PCF_RESCLUSTER <= v
  {
    assert v == 4096 * (v / 4096) + v % 4096;
  }

  lemma Nibbles(b: byte, x: int)
    requires 0 <= x < 16
    ensures (b % 16 + x * 16) / 16 == x && (b - b % 16 + x) % 16 == x
  {
  }

  /** What the kernel reads for a marked value: a 12-bit entry keeps its low bits. */
  function Stored(bits: nat, value: ushort): int {
    if bits == 16 then value else Widen(value % 4096)
  }

  /** What is marked is read back, for every value the entry can tell apart. */
  lemma MarkedReadsBack(bits: nat, n: nat, value: ushort, lo: byte, hi: byte)
    ensures Entry(bits, n, MarkLo(bits, n, value, lo), MarkHi(bits, n, value, hi)) == Stored(bits, value)
    ensures Entry(bits, n, MarkLo(bits, n, value, lo), MarkHi(bits, n, value, hi)) == value <==> Markable(bits, value)
  {
    if bits == 16 {
    } else if n % 2 == 1 {
      Nibbles(lo, value % 16);
      LowBits(value);
      WidenLow(value);
    } else {
      Nibbles(hi, value / 256 % 16);
      LowBits(value);
      WidenLow(value);
    }
  }

  /** All entries of a table, as the kernel reads them. */
  ghost function Entries(bits: nat, fat: seq<byte>): (r: seq<int>)
    ensures |r| == Capacity(bits, |fat|)
  {
    seq(Capacity(bits, |fat|), m requires 0 <= m < Capacity(bits, |fat|) => GetCluster(bits, fat, m))
  }

  /** `mark_cluster` of newfs. A value is read back exactly if it is no code that a 12-bit entry would confuse with
      another one; no other entry changes, although neighbours share a byte. */
  method MarkCluster(bits: nat, fat: array<byte>, n: ushort, value: ushort)
    requires bits == 12 || bits == 16
    requires HasEntry(bits, fat.Length, n)
    modifies fat
    ensures Entries(bits, fat[..])[n] == Stored(bits, value)
    ensures Entries(bits, fat[..])[n] == value <==> Markable(bits, value)
    ensures Entries(bits, fat[..]) == Entries(bits, old(fat[..]))[n := Stored(bits, value)]
    ensures forall m: nat :: m != n && HasEntry(bits, fat.Length, m) ==>
              Entries(bits, fat[..])[m] == Entries(bits, old(fat[..]))[m]
    ensures 2 <= n ==> fat[..3] == old(fat[..3])
  {
    EntryFits(bits, fat.Length, n);
    ghost var was := fat[..];
    var i := EntryIndex(bits, n);
    MarkedReadsBack(bits, n, value, fat[i], fat[i + 1]);
    fat[i] := MarkLo(bits, n, value, fat[i]);
    fat[i + 1] := MarkHi(bits, n, value, fat[i + 1]);
    forall m: nat | m != n && HasEntry(bits, fat.Length, m)
      ensures GetCluster(bits, fat[..], m) == GetCluster(bits, was, m)
    {
      Untouched(bits, was, fat[..], n, m, value);
    }
    assert GetCluster(bits, fat[..], n) == Entries(bits, fat[..])[n];
  }

  /** An entry other than `n` shares at most half a byte with it, and that half is kept. */
  lemma Untouched(bits: nat, a: seq<byte>, b: seq<byte>, n: nat, m: nat, value: ushort)
    requires bits == 12 || bits == 16
    requires m != n && HasEntry(bits, |a|, m) && EntryIndex(bits, n) + 1 < |a|
    requires var i := EntryIndex(bits, n);
             b == a[i := MarkLo(bits, n, value, a[i])][i + 1 := MarkHi(bits, n, value, a[i + 1])]
    ensures GetCluster(bits, a, m) == GetCluster(bits, b, m)
  {
    EntryFits(bits, |a|, n);
    EntryFits(bits, |a|, m);
    var i, j := EntryIndex(bits, n), EntryIndex(bits, m);
    if bits == 12 {
      if n % 2 == 1 {
        assert b[i] % 16 == a[i] % 16;
      } else {
        assert b[i + 1] / 16 == a[i + 1] / 16;
      }
      if m / 2 == n / 2 {
        assert j + 1 == i || j == i + 1;
      } else {
        assert j + 1 < i || i + 1 < j;
      }
    }
  }

  // ----- build_fat -----

  /** The clusters that hold `bytes` bytes, in the `u_short` arithmetic of `build_fat` and `write_rest`. */
  function Clusters(bytes: nat, spc: nat): ushort
    requires 0 < spc
  {
    U16(IDivCeil(U16(IDivCeil(bytes, BPSEC)), spc))
  }

  /** Entry `m` of a table with `bad` hidden clusters and a chain of `linked` links from `start`, which ends
      after them if `ended`. A link is what the kernel reads of the next cluster's number. */
  function Expected(bits: nat, media: byte, bad: nat, start: nat, linked: nat, ended: bool, m: nat): int {
    if m == 0 then (if bits == 16 then 0xFF00 + media else Widen(0xF00 + media))
    else if m == 1 then 0xFFFF
    else if m < PCF_FIRSTCLUSTER + bad then PCF_BADCLUSTER
    else if start <= m < start + linked then Stored(bits, U16(m + 1))
    else if ended && m == start + linked then PCF_LASTCLUSTER
    else PCF_FREECLUSTER
  }

  ghost function Table(bits: nat, size: nat, media: byte, bad: nat, start: nat, linked: nat, ended: bool): (r: seq<int>)
    ensures |r| == Capacity(bits, size)
  {
    seq(Capacity(bits, size), m requires 0 <= m => Expected(bits, media, bad, start, linked, ended, m))
  }

  /** All of the hidden clusters and of the chain have an entry and a number of 16 bits. */
  predicate Room(bits: nat, size: nat, last: nat) {
    HasEntry(bits, size, last) && last < 0x1_0000
  }

  /** The media entries, and zeroes everywhere else. */
  method BlankTable(bits: nat, media: byte, spf: nat) returns (fat: array<byte>)
    requires (bits == 12 || bits == 16) && 0 < spf
    ensures fresh(fat) && fat.Length == BPSEC * spf
    ensures fat[..3] == [media, 255, 255]
    ensures Entries(bits, fat[..]) == Table(bits, fat.Length, media, 0, 0, 0, false)
  {
    fat := new byte[BPSEC * spf](_ => 0);
    fat[0], fat[1], fat[2] := media, 255, 255;
    if bits == 16 {
      fat[3] := 255;
    }
    forall m: nat | HasEntry(bits, fat.Length, m)
      ensures GetCluster(bits, fat[..], m) == Expected(bits, media, 0, 0, 0, false, m)
    {
      BlankEntry(bits, fat[..], media, m);
    }
  }

  lemma BlankEntry(bits: nat, fat: seq<byte>, media: byte, m: nat)
    requires (bits == 12 || bits == 16) && 4 <= |fat| && HasEntry(bits, |fat|, m)
    requires fat[0] == media && fat[1] == 255 && fat[2] == 255 && fat[3] == (if bits == 16 then 255 else 0)
    requires forall k :: 4 <= k < |fat| ==> fat[k] == 0
    ensures GetCluster(bits, fat, m) == Expected(bits, media, 0, 0, 0, false, m)
  {
    EntryFits(bits, |fat|, m);
  }

  /** Marking one entry turns one table into another that differs in that entry only. */
  method MarkNext(bits: nat, fat: array<byte>, n: nat, value: nat, ghost table: seq<int>, ghost next: seq<int>)
    requires bits == 12 || bits == 16
    requires 2 < fat.Length && 2 <= n && Room(bits, fat.Length, n) && value < 0x1_0000
    requires |table| == Capacity(bits, fat.Length) && Entries(bits, fat[..]) == table && next == table[n := Stored(bits, value)]
    modifies fat
    ensures Entries(bits, fat[..]) == next
    ensures fat[..3] == old(fat[..3])
  {
    assert U16(n) == n && U16(value) == value;
    MarkCluster(bits, fat, U16(n), U16(value));
  }

  /** The two codes are read back as they are marked. */
  lemma StoredCodes(bits: nat)
    ensures Stored(bits, PCF_BADCLUSTER) == PCF_BADCLUSTER && Stored(bits, PCF_LASTCLUSTER) == PCF_LASTCLUSTER
  {
  }

  /** Tables that differ in one entry. */
  lemma OneMore(bits: nat, size: nat, media: byte, bad: nat, start: nat, linked: nat, ended: bool,
                bad': nat, start': nat, linked': nat, ended': bool, n: nat)
    requires HasEntry(bits, size, n)
    requires forall m: nat :: m != n ==>
               Expected(bits, media, bad, start, linked, ended, m) == Expected(bits, media, bad', start', linked', ended', m)
    ensures Table(bits, size, media, bad', start', linked', ended') ==
            Table(bits, size, media, bad, start, linked, ended)[n := Expected(bits, media, bad', start', linked', ended', n)]
  {
  }

  /** Hides the clusters that the rest of the boot block takes. */
  method HideClusters(bits: nat, fat: array<byte>, media: byte, numclust: ushort, ghost table: seq<int>)
    requires bits == 12 || bits == 16
    requires 2 < fat.Length && Room(bits, fat.Length, 1 + numclust)
    requires table == Table(bits, fat.Length, media, 0, 0, 0, false) && Entries(bits, fat[..]) == table
    modifies fat
    ensures Entries(bits, fat[..]) == Table(bits, fat.Length, media, numclust, 0, 0, false)
    ensures fat[..3] == old(fat[..3])
  {
    var cn := 0;
    ghost var now := table;
    while cn < numclust
      invariant 0 <= cn <= numclust
      invariant now == Table(bits, fat.Length, media, cn, 0, 0, false)
      invariant Entries(bits, fat[..]) == now
      invariant fat[..3] == old(fat[..3])
    {
      OneMore(bits, fat.Length, media, cn, 0, 0, false, cn + 1, 0, 0, false, cn + 2);
      StoredCodes(bits);
      MarkNext(bits, fat, cn + 2, PCF_BADCLUSTER, now, now[cn + 2 := PCF_BADCLUSTER]);
      now := now[cn + 2 := PCF_BADCLUSTER];
      cn := cn + 1;
    }
  }

  /** Chains the clusters of the first file, from `start` on. */
  method ChainClusters(bits: nat, fat: array<byte>, media: byte, ghost bad: nat, start: ushort, numclust: ushort,
                       ghost table: seq<int>)
    requires bits == 12 || bits == 16
    requires 2 < fat.Length && start == PCF_FIRSTCLUSTER + bad
    requires Room(bits, fat.Length, start + (if numclust == 0 then 0 else numclust - 1))
    requires table == Table(bits, fat.Length, media, bad, start, 0, false) && Entries(bits, fat[..]) == table
    modifies fat
    ensures Entries(bits, fat[..]) ==
            Table(bits, fat.Length, media, bad, start, if numclust == 0 then 0 else numclust - 1, true)
    ensures fat[..3] == old(fat[..3])
  {
    var cn := 0;
    ghost var now := table;
    while cn < numclust - 1
      invariant 0 <= cn && (cn <= numclust - 1 || cn == 0)
      invariant now == Table(bits, fat.Length, media, bad, start, cn, false)
      invariant Entries(bits, fat[..]) == now
      invariant fat[..3] == old(fat[..3])
    {
      OneMore(bits, fat.Length, media, bad, start, cn, false, bad, start, cn + 1, false, start + cn);
      MarkNext(bits, fat, start + cn, start + cn + 1, now, now[start + cn := Stored(bits, U16(start + cn + 1))]);
      now := now[start + cn := Stored(bits, U16(start + cn + 1))];
      cn := cn + 1;
    }
    OneMore(bits, fat.Length, media, bad, start, cn, false, bad, start, cn, true, start + cn);
    StoredCodes(bits);
    MarkNext(bits, fat, start + cn, PCF_LASTCLUSTER, now, now[start + cn := PCF_LASTCLUSTER]);
  }

  /** Where an empty chain would start does not matter. */
  lemma NoChain(bits: nat, size: nat, media: byte, bad: nat, start: nat)
    ensures Table(bits, size, media, bad, 0, 0, false) == Table(bits, size, media, bad, start, 0, false)
  {
  }

  /** The first cluster of the first file. */
  function FirstCluster(bootblksize: nat, spc: nat): nat
    requires BPSEC <= bootblksize && 0 < spc
  {
    PCF_FIRSTCLUSTER + Clusters(bootblksize - BPSEC, spc)
  }

  /** How many clusters the first file gets: at least one, even when it is empty. */
  function ChainLength(ffsize: nat, spc: nat): (r: nat)
    requires 0 < spc
    ensures 0 < r
  {
    if Clusters(ffsize, spc) == 0 then 1 else Clusters(ffsize, spc)
  }

  /** The last cluster that `build_fat` marks. */
  function LastCluster(bootblksize: nat, ffsize: Option<nat>, spc: nat): nat
    requires BPSEC <= bootblksize && 0 < spc
  {
    FirstCluster(bootblksize, spc) - 1 + if ffsize.Some? then ChainLength(ffsize.value, spc) else 0
  }

  /**
   `build_fat`: the media entries, then exactly the clusters of the boot block's rest marked bad from cluster 2 on,
   then (if there is a first file) one chain of consecutive clusters, and everything else free.
   */
  method BuildFat(bits: nat, media: byte, spf: nat, spc: nat, bootblksize: nat, ffsize: Option<nat>)
    returns (fat: array<byte>, ffstart: ushort)
    requires (bits == 12 || bits == 16) && 0 < spf && 0 < spc && BPSEC <= bootblksize
    requires Room(bits, BPSEC * spf, LastCluster(bootblksize, ffsize, spc))
    ensures fresh(fat) && fat.Length == BPSEC * spf
    ensures fat[..3] == [media, 255, 255]
    ensures var start := FirstCluster(bootblksize, spc);
            if ffsize.Some? then
              && ffstart == start
              && Entries(bits, fat[..]) ==
                 Table(bits, fat.Length, media, start - 2, start, ChainLength(ffsize.value, spc) - 1, true)
            else Entries(bits, fat[..]) == Table(bits, fat.Length, media, start - 2, 0, 0, false)
  {
    fat, ffstart := BuildTable(bits, media, spf, Clusters(bootblksize - BPSEC, spc),
                               if ffsize.Some? then Some(Clusters(ffsize.value, spc)) else None);
  }

  /** The part of `build_fat` that comes after counting clusters. */
  method BuildTable(bits: nat, media: byte, spf: nat, bad: ushort, file: Option<ushort>)
    returns (fat: array<byte>, ffstart: ushort)
    requires (bits == 12 || bits == 16) && 0 < spf
    requires Room(bits, BPSEC * spf, 1 + bad + match file case None => 0 case Some(n) => if n == 0 then 1 else n)
    ensures fresh(fat) && fat.Length == BPSEC * spf
    ensures fat[..3] == [media, 255, 255]
    ensures match file
            case None => Entries(bits, fat[..]) == Table(bits, fat.Length, media, bad, 0, 0, false)
            case Some(n) =>
              && ffstart == 2 + bad
              && Entries(bits, fat[..]) == Table(bits, fat.Length, media, bad, 2 + bad, if n == 0 then 0 else n - 1, true)
  {
    fat := BlankTable(bits, media, spf);
    HideClusters(bits, fat, media, bad, Table(bits, fat.Length, media, 0, 0, 0, false));
    ffstart := 0;
    if file.Some? {
      ffstart := U16(bad + 2);
      NoChain(bits, fat.Length, media, bad, ffstart);
      ChainClusters(bits, fat, media, bad, ffstart, file.value, Table(bits, fat.Length, media, bad, 0, 0, false));
    }
  }
}
