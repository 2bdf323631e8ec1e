/**
 The volume that newfs writes, byte by byte: what stands at which offset of the image, told by the FAT format alone.
 */
module FatLayout {
  import opened Bytes
  import opened FatTable
  import opened FatImage

  /** `howmany(x, y)`. */
  function HowMany(x: nat, y: nat): nat
    requires 0 < y
  {
    (x + (y - 1)) / y
  }

  // ----- the layout -----

  /** From `lo` to `hi` the image has `src`, all of it, and zeroes behind it. */
  ghost predicate BytesAt(img: seq<byte>, lo: nat, hi: nat, src: seq<byte>) {
    lo + |src| <= hi <= |img| && forall k :: lo <= k < hi ==> img[k] == if k - lo < |src| then src[k - lo] else 0
  }

  /** Two and four bytes, the lowest first. */
  function Word(img: seq<byte>, at: nat): nat
    requires at + 2 <= |img|
  {
    var lo: nat, hi: nat := img[at], img[at + 1];
    lo + 0x100 * hi
  }

  function Long(img: seq<byte>, at: nat): nat
    requires at + 4 <= |img|
  {
    var a: nat, b: nat, c: nat, d: nat := img[at], img[at + 1], img[at + 2], img[at + 3];
    a + 0x100 * b + 0x1_0000 * c + 0x100_0000 * d
  }

  /** The first sector is that of the boot block, with the parameter block and its extension in bytes 11 to 61. */
  ghost predicate BootSectorAt(img: seq<byte>, b: Bpb, ext: seq<byte>, boot: seq<byte>) {
    && 512 <= |boot| && 512 <= |img| && |ext| == 26
    && (forall k :: 0 <= k < 11 ==> img[k] == boot[k])
    && (forall k :: 62 <= k < 512 ==> img[k] == boot[k])
    && (forall k :: 36 <= k < 62 ==> img[k] == ext[k - 36])
    && img[11] == 0 && img[12] == 2 && img[13] == b.spc && img[14] == 1 && img[15] == 0 && img[16] == 2
    && Word(img, 17) == b.rootEntries && Word(img, 19) == b.volume16 && img[21] == b.media && Word(img, 22) == b.spf
    && Word(img, 24) == b.spt && Word(img, 26) == b.heads && Long(img, 28) == b.hidden && Long(img, 32) == b.volume32
  }

  /** Entry `n` of a table at `at`: two bytes, or three half bytes of which an even entry has the lower ones. */
  function RawEntry(bits: nat, img: seq<byte>, at: nat, n: nat): int
    requires at + (if bits == 16 then 2 * n else n + n / 2) + 1 < |img|
  {
    var i := at + if bits == 16 then 2 * n else n + n / 2;
    if bits == 16 then Word(img, i) else if n % 2 == 0 then Word(img, i) % 4096 else Word(img, i) / 16
  }

  /** What entry `n` should say: clusters 2 and on are `hidden` bad ones, then a chain of `length`, then free ones. */
  function RightEntry(bits: nat, media: byte, hidden: nat, length: nat, n: nat): int {
    var top := if bits == 16 then 0xF000 else 0;
    if n == 0 then top + 0xF00 + media
    else if n == 1 then top + 0xFFF
    else if n < 2 + hidden then top + 0xFF7
    else if n < 1 + hidden + length then (n + 1) % (if bits == 16 then 0x1_0000 else 0x1000)
    else if n == 1 + hidden + length && 0 < length then top + 0xFF8
    else 0
  }

  /** A table of `size` bytes with these entries. */
  ghost predicate TableAt(img: seq<byte>, at: nat, size: nat, bits: nat, media: byte, hidden: nat, length: nat) {
    && at + size <= |img|
    && forall n: nat :: (if bits == 16 then 2 * n else n + n / 2) + 1 < size ==>
         RawEntry(bits, img, at, n) == RightEntry(bits, media, hidden, length, n)
  }

  /** A root directory of `size` bytes whose first entry, if there is a file, has its start cluster and its size. */
  ghost predicate RootAt(img: seq<byte>, at: nat, size: nat, f: Option<FirstFile>, start: int) {
    match f
    case None => BytesAt(img, at, at + size, [])
    case Some(file) =>
      && 32 <= size && BytesAt(img, at, at + 26, file.head) && BytesAt(img, at + 32, at + size, [])
      && Word(img, at + 26) == start && Long(img, at + 28) == |file.data|
  }

  /** The bytes of the first file. */
  function DataOf(f: Option<FirstFile>): seq<byte> {
    match f case None => [] case Some(file) => file.data
  }

  /** How many clusters the first file has in the table: one even if it is empty. */
  function ClustersOf(f: Option<FirstFile>, cluster: nat): nat
    requires 0 < cluster
  {
    if f.None? then 0 else if DataOf(f) == [] then 1 else HowMany(|DataOf(f)|, cluster)
  }

  /** The whole clusters that the rest of the boot block takes, and their bytes. */
  function Hidden(b: Bpb, boot: seq<byte>): nat
    requires 0 < b.spc && 512 <= |boot|
  {
    HowMany(|boot| - 512, 512 * b.spc)
  }

  function HiddenArea(b: Bpb, boot: seq<byte>): nat
    requires 0 < b.spc && 512 <= |boot|
  {
    Hidden(b, boot) * (512 * b.spc)
  }

  /** The bytes of the whole clusters that the first file takes. */
  function FileSpace(b: Bpb, f: Option<FirstFile>): nat
    requires 0 < b.spc
  {
    HowMany(|DataOf(f)|, 512 * b.spc) * (512 * b.spc)
  }

  /** Where the root directory is, behind two tables of `spf` sectors, and the clusters, behind that. */
  function RdirAt(b: Bpb): nat { 512 + 2 * (512 * b.spf) }

  function DataAt(b: Bpb): nat { RdirAt(b) + 32 * b.rootEntries }

  /** The whole volume: the boot sector, two tables, the root directory, the rest of the boot block in whole clusters,
      and the first file in whole clusters. */
  ghost predicate Laid(img: seq<byte>, bits: nat, b: Bpb, ext: seq<byte>, boot: seq<byte>, f: Option<FirstFile>)
    requires 0 < b.spc && 512 <= |boot|
  {
    && BootSectorAt(img, b, ext, boot)
    && TablesAt(img, bits, b, Hidden(b, boot), ClustersOf(f, 512 * b.spc))
    && RootAt(img, RdirAt(b), 32 * b.rootEntries, f, 2 + Hidden(b, boot))
    && FilesAt(img, DataAt(b), boot[512..], HiddenArea(b, boot), DataOf(f), FileSpace(b, f))
  }

  /** Both tables. */
  ghost predicate TablesAt(img: seq<byte>, bits: nat, b: Bpb, hidden: nat, length: nat) {
    && TableAt(img, 512, 512 * b.spf, bits, b.media, hidden, length)
    && TableAt(img, 512 + 512 * b.spf, 512 * b.spf, bits, b.media, hidden, length)
  }

  /** The two files behind the root directory, in `n` and `m` bytes. */
  ghost predicate FilesAt(img: seq<byte>, at: nat, rest: seq<byte>, n: nat, file: seq<byte>, m: nat) {
    BytesAt(img, at, at + n, rest) && BytesAt(img, at + n, at + n + m, file)
  }

  // ----- counting clusters -----

  lemma TimesMonotone(a: int, b: int, y: nat)
    ensures a <= b ==> a * y <= b * y
  {
  }

  lemma Quotient(k: nat, y: nat, c: nat)
    requires 0 < y && k < c * y
    ensures 0 <= k / y < c && 0 <= k % y && k == k / y * y + k % y
  {
    assert k == k / y * y + k % y;
    TimesMonotone(c, k / y, y);
  }

  /** `howmany` counts every cluster that the file reaches into. */
  lemma HowManyReaches(x: nat, y: nat, c: int)
    requires 0 < y && (c - 1) * y < x
    ensures c <= HowMany(x, y)
  {
    var h := HowMany(x, y);
    Quotient(x + (y - 1), y, x + y);
    TimesMonotone(h, c - 1, y);
  }

  lemma NoWrap(size: nat, spc: nat)
    requires 0 < spc && WholeSectors(size, spc) < 0x1_0000
    ensures Clusters(size, spc) == IDivCeil(IDivCeil(size, BPSEC), spc)
  {
    CeilUp(IDivCeil(size, BPSEC), spc);
  }

  /** A count with this property is the only one. */
  lemma LeastOnce(x: nat, y: nat, a: nat, c: nat)
    requires 0 < y && x <= a * y && x <= c * y && (0 < a ==> (a - 1) * y < x) && (0 < c ==> (c - 1) * y < x)
    ensures a == c
  {
    TimesMonotone(a, c - 1, y);
    TimesMonotone(c, a - 1, y);
  }

  lemma HowManyLeast(x: nat, y: nat)
    requires 0 < y
    ensures x <= HowMany(x, y) * y && (0 < HowMany(x, y) ==> (HowMany(x, y) - 1) * y < x)
  {
    var h, r := HowMany(x, y), (x + (y - 1)) % y;
    assert x + (y - 1) == h * y + r;
    assert (h - 1) * y == h * y - y;
  }

  /** Counting sectors first makes no difference. */
  lemma CeilCeil(x: nat, spc: nat)
    requires 0 < spc
    ensures IDivCeil(IDivCeil(x, BPSEC), spc) == HowMany(x, BPSEC * spc)
  {
    var s := IDivCeil(x, BPSEC);
    var c := IDivCeil(s, spc);
    IDivCeilLeast(x, BPSEC);
    IDivCeilLeast(s, spc);
    assert s * BPSEC <= c * spc * BPSEC == c * (BPSEC * spc);
    if 0 < c {
      assert (c - 1) * spc * BPSEC <= (s - 1) * BPSEC;
      assert (c - 1) * spc * BPSEC == (c - 1) * (BPSEC * spc);
    }
    HowManyLeast(x, BPSEC * spc);
    LeastOnce(x, BPSEC * spc, c, HowMany(x, BPSEC * spc));
  }

  /** The clusters that newfs counts, when the counts fit. */
  lemma ClustersAre(bytes: nat, spc: nat)
    requires 0 < spc && WholeSectors(bytes, spc) < 0x1_0000
    ensures Clusters(bytes, spc) == HowMany(bytes, 512 * spc)
    ensures RestSectors(bytes, spc) * BPSEC == HowMany(bytes, 512 * spc) * (512 * spc)
  {
    NoWrap(bytes, spc);
    CeilCeil(bytes, spc);
    RestIsWhole(bytes, spc);
    assert Clusters(bytes, spc) * spc * BPSEC == Clusters(bytes, spc) * (512 * spc);
  }

  /** A boot block in whole sectors takes as many clusters as its bytes. */
  lemma BootClusters(boot: seq<byte>, spc: nat)
    requires 0 < spc && BPSEC <= |boot| && BPSEC <= BootSize(boot)
    ensures IDivCeil(BootSize(boot) - BPSEC, BPSEC) == IDivCeil(|boot| - BPSEC, BPSEC)
    ensures WholeSectors(BootSize(boot) - BPSEC, spc) == WholeSectors(|boot| - BPSEC, spc)
    ensures Clusters(BootSize(boot) - BPSEC, spc) == Clusters(|boot| - BPSEC, spc)
    ensures RestSectors(BootSize(boot) - BPSEC, spc) == RestSectors(|boot| - BPSEC, spc)
  {
  }

  // ----- where the parts stand -----

  ghost function FileAt(b: Bpb, boot: seq<byte>): nat
    requires 0 < b.spc && BPSEC <= |boot|
  {
    DataAt(b) + |RestOfBoot(boot, b.spc)|
  }

  lemma SixParts(img: seq<byte>, bs: seq<byte>, fat: seq<byte>, rd: seq<byte>, rest: seq<byte>, file: seq<byte>,
                 first: nat, second: nat, third: nat, fourth: nat, fifth: nat)
    requires StandsAt(img, 0, bs + fat + fat + rd + rest + file)
    requires first == |bs| && second == first + |fat| && third == second + |fat| && fourth == third + |rd|
    requires fifth == fourth + |rest|
    ensures StandsAt(img, 0, bs) && StandsAt(img, first, fat) && StandsAt(img, second, fat)
    ensures StandsAt(img, third, rd) && StandsAt(img, fourth, rest) && StandsAt(img, fifth, file)
  {
    StandsSplit(img, 0, bs + fat + fat + rd + rest, file);
    StandsSplit(img, 0, bs + fat + fat + rd, rest);
    StandsSplit(img, 0, bs + fat + fat, rd);
    StandsSplit(img, 0, bs + fat, fat);
    StandsSplit(img, 0, bs, fat);
  }

  /** Where each part of the volume stands. */
  lemma Sections(img: seq<byte>, b: Bpb, ext: seq<byte>, boot: seq<byte>, f: Option<FirstFile>, fat: seq<byte>, start: ushort)
    requires |ext| == 26 && BPSEC <= |boot| && 0 < b.spc && 0 < b.rootEntries
    requires f.Some? ==> |f.value.head| == 26
    requires |fat| == BPSEC * b.spf && StandsAt(img, 0, Volume(b, ext, boot, f, fat, start))
    ensures StandsAt(img, 0, BootSector(boot, b, ext)) && StandsAt(img, BPSEC, fat) && StandsAt(img, BPSEC + BPSEC * b.spf, fat)
    ensures StandsAt(img, RdirAt(b), RootDir(b.rootEntries, f, start))
    ensures StandsAt(img, DataAt(b), RestOfBoot(boot, b.spc)) && StandsAt(img, FileAt(b, boot), FileArea(f, b.spc))
  {
    SixParts(img, BootSector(boot, b, ext), fat, RootDir(b.rootEntries, f, start), RestOfBoot(boot, b.spc), FileArea(f, b.spc),
             BPSEC, BPSEC + BPSEC * b.spf, RdirAt(b), DataAt(b), FileAt(b, boot));
  }

  lemma PaddedAt(img: seq<byte>, lo: nat, src: seq<byte>, n: nat)
    requires StandsAt(img, lo, Padded(src, n)) && |src| <= n
    ensures BytesAt(img, lo, lo + n, src)
  {
    var p := Padded(src, n);
    forall k | lo <= k < lo + n
      ensures img[k] == if k - lo < |src| then src[k - lo] else 0
    {
      assert p[k - lo] == img[lo + (k - lo)];
    }
  }

  lemma StandsBytes(img: seq<byte>, lo: nat, src: seq<byte>)
    requires StandsAt(img, lo, src)
    ensures BytesAt(img, lo, lo + |src|, src)
  {
    assert Padded(src, |src|) == src;
    PaddedAt(img, lo, src, |src|);
  }

  lemma ZeroesAt(img: seq<byte>, lo: nat, n: nat)
    requires StandsAt(img, lo, Zeros(n))
    ensures BytesAt(img, lo, lo + n, [])
  {
    assert Padded([], n) == Zeros(n);
    PaddedAt(img, lo, [], n);
  }

  lemma FourBytes(v: ulong)
    ensures v % 256 + 0x100 * (v / 256 % 256) + 0x1_0000 * (v / 0x1_0000 % 256) + 0x100_0000 * (v / 0x100_0000) == v
  {
  }

  /** A byte of what stands at `q`. */
  lemma ByteOf(img: seq<byte>, q: nat, e: seq<byte>, k: nat)
    requires StandsAt(img, q, e) && k < |e|
    ensures img[q + k] == e[k]
  {
  }

  lemma WordOf(img: seq<byte>, q: nat, e: seq<byte>, k: nat, v: ushort)
    requires StandsAt(img, q, e) && k + 1 < |e| && e[k] == v % 256 && e[k + 1] == v / 256
    ensures Word(img, q + k) == v
  {
    ByteOf(img, q, e, k);
    ByteOf(img, q, e, k + 1);
  }

  lemma LongOf(img: seq<byte>, q: nat, e: seq<byte>, k: nat, v: ulong)
    requires StandsAt(img, q, e) && k + 3 < |e| && e[k] == v % 256 && e[k + 1] == v / 256 % 256
    requires e[k + 2] == v / 0x1_0000 % 256 && e[k + 3] == v / 0x100_0000
    ensures Long(img, q + k) == v
  {
    ByteOf(img, q, e, k);
    ByteOf(img, q, e, k + 1);
    ByteOf(img, q, e, k + 2);
    ByteOf(img, q, e, k + 3);
    FourBytes(v);
  }

  lemma CountsAt(img: seq<byte>, b: Bpb, p: seq<byte>)
    requires StandsAt(img, 11, p) && p == PackBpb(b)
    ensures Word(img, 17) == b.rootEntries && Word(img, 19) == b.volume16 && Word(img, 22) == b.spf
    ensures Word(img, 24) == b.spt && Word(img, 26) == b.heads
  {
    WordOf(img, 11, p, 6, b.rootEntries);
    WordOf(img, 11, p, 8, b.volume16);
    WordOf(img, 11, p, 11, b.spf);
    WordOf(img, 11, p, 13, b.spt);
    WordOf(img, 11, p, 15, b.heads);
  }

  lemma SectorsAt(img: seq<byte>, b: Bpb, p: seq<byte>)
    requires StandsAt(img, 11, p) && p == PackBpb(b)
    ensures Long(img, 28) == b.hidden && Long(img, 32) == b.volume32
  {
    LongOf(img, 11, p, 17, b.hidden);
    LongOf(img, 11, p, 21, b.volume32);
  }

  lemma ParametersAt(img: seq<byte>, b: Bpb, p: seq<byte>)
    requires StandsAt(img, 11, p) && p == PackBpb(b)
    ensures img[11] == 0 && img[12] == 2 && img[13] == b.spc && img[14] == 1 && img[15] == 0 && img[16] == 2
    ensures Word(img, 17) == b.rootEntries && Word(img, 19) == b.volume16 && img[21] == b.media && Word(img, 22) == b.spf
    ensures Word(img, 24) == b.spt && Word(img, 26) == b.heads && Long(img, 28) == b.hidden && Long(img, 32) == b.volume32
  {
    assert p[0] == img[11 + 0] && p[1] == img[11 + 1] && p[2] == img[11 + 2] && p[3] == img[11 + 3];
    assert p[4] == img[11 + 4] && p[5] == img[11 + 5] && p[10] == img[11 + 10];
    CountsAt(img, b, p);
    SectorsAt(img, b, p);
  }

  lemma BootSectorStands(img: seq<byte>, b: Bpb, ext: seq<byte>, boot: seq<byte>)
    requires BPSEC <= |boot| && |ext| == 26 && StandsAt(img, 0, BootSector(boot, b, ext))
    ensures StandsAt(img, 11, PackBpb(b)) && BootSectorAt(img, b, ext, boot)
  {
    var last := boot[62..BPSEC];
    StandsSplit(img, 0, boot[..11] + PackBpb(b) + ext, last);
    StandsSplit(img, 0, boot[..11] + PackBpb(b), ext);
    StandsSplit(img, 0, boot[..11], PackBpb(b));
    ParametersAt(img, b, PackBpb(b));
    StandsBytes(img, 0, boot[..11]);
    StandsBytes(img, 36, ext);
    StandsBytes(img, 62, last);
  }

  // ----- the tables -----

  /** The kernel's reading of an entry is a widened one of its own bits. */
  lemma RawIs(bits: nat, img: seq<byte>, at: nat, fat: seq<byte>, n: nat)
    requires (bits == 12 || bits == 16) && StandsAt(img, at, fat) && HasEntry(bits, |fat|, n)
    ensures EntryIndex(bits, n) + 1 < |fat|
    ensures 0 <= RawEntry(bits, img, at, n) && (bits == 12 ==> RawEntry(bits, img, at, n) < 0x1000)
    ensures GetCluster(bits, fat, n) == if bits == 16 then RawEntry(bits, img, at, n) else Widen(RawEntry(bits, img, at, n))
  {
    EntryFits(bits, |fat|, n);
    var i := EntryIndex(bits, n);
    assert fat[i] == img[at + i] && fat[i + 1] == img[at + (i + 1)];
    WordParts(fat[i], fat[i + 1]);
  }

  lemma WordParts(lo: nat, hi: nat)
    requires lo < 256 && hi < 256
    ensures (lo + 256 * hi) / 16 == lo / 16 + 16 * hi && (lo + 256 * hi) % 4096 == lo + 256 * (hi % 16)
  {
  }

  lemma WidenOnce(x: int, y: int)
    requires 0 <= x < 0x1000 && 0 <= y < 0x1000 && Widen(x) == Widen(y)
    ensures x == y
  {
  }

  /** The entry that the kernel should read, in the bits that it is made of. */
  lemma RightIs(bits: nat, media: byte, hidden: nat, length: nat, n: nat)
    requires bits == 12 || bits == 16
    ensures var right := RightEntry(bits, media, hidden, length, n);
            var expected := if 0 < length then Expected(bits, media, hidden, 2 + hidden, length - 1, true, n)
                            else Expected(bits, media, hidden, 0, 0, false, n);
            0 <= right && (bits == 12 ==> right < 0x1000) && expected == if bits == 16 then right else Widen(right)
  {
    if bits == 12 && 2 + hidden <= n < 1 + hidden + length {
      LinkBits(n);
    }
  }

  lemma LinkBits(n: nat)
    ensures U16(n + 1) % 4096 == (n + 1) % 4096
  {
    Low12(n + 1, (n + 1) / 0x1_0000);
  }

  lemma Low12(x: nat, q: nat)
    requires q == x / 0x1_0000
    ensures x % 0x1_0000 % 4096 == x % 4096
  {
    assert x % 0x1_0000 == x - 4096 * (16 * q);
  }

  lemma TableStands(img: seq<byte>, at: nat, fat: seq<byte>, bits: nat, media: byte, hidden: nat, length: nat)
    requires (bits == 12 || bits == 16) && StandsAt(img, at, fat) && HasChain(bits, fat, media, hidden, length)
    ensures TableAt(img, at, |fat|, bits, media, hidden, length)
  {
    forall n: nat | (if bits == 16 then 2 * n else n + n / 2) + 1 < |fat|
      ensures RawEntry(bits, img, at, n) == RightEntry(bits, media, hidden, length, n)
    {
      EntryFits(bits, |fat|, n);
      RawIs(bits, img, at, fat, n);
      RightIs(bits, media, hidden, length, n);
      assert Entries(bits, fat)[n] == GetCluster(bits, fat, n);
      if bits == 12 {
        WidenOnce(RawEntry(bits, img, at, n), RightEntry(bits, media, hidden, length, n));
      }
    }
  }

  // ----- the root directory -----

  lemma RootStands(img: seq<byte>, at: nat, entries: nat, f: Option<FirstFile>, start: ushort)
    requires 0 < entries && (f.Some? ==> |f.value.head| == 26 && |f.value.data| < 0x1_0000_0000)
    requires StandsAt(img, at, RootDir(entries, f, start))
    ensures RootAt(img, at, 32 * entries, f, start)
  {
    match f
    case None => ZeroesAt(img, at, entries * DIRENT);
    case Some(file) =>
      var rest := Zeros((entries - 1) * DIRENT);
      StandsSplit(img, at, file.head + Le16(start) + Le32(|file.data|), rest);
      StandsSplit(img, at, file.head + Le16(start), Le32(|file.data|));
      StandsSplit(img, at, file.head, Le16(start));
      ZeroesAt(img, at + 32, (entries - 1) * DIRENT);
      StandsBytes(img, at, file.head);
      StartAt(img, at + 26, start);
      SizeAt(img, at + 28, |file.data|);
  }

  lemma StartAt(img: seq<byte>, at: nat, v: ushort)
    requires StandsAt(img, at, Le16(v))
    ensures Word(img, at) == v
  {
    var e := Le16(v);
    assert e[0] == img[at + 0] && e[1] == img[at + 1];
  }

  lemma SizeAt(img: seq<byte>, at: nat, v: ulong)
    requires StandsAt(img, at, Le32(v))
    ensures Long(img, at) == v
  {
    var e := Le32(v);
    assert e == [v % 256, v / 256 % 256, v / 0x1_0000 % 256, v / 0x1_0000 / 256 % 256];
    assert e[0] == img[at + 0] && e[1] == img[at + 1] && e[2] == img[at + 2] && e[3] == img[at + 3];
    FourBytes(v);
  }

  // ----- the whole volume -----

  /** The counts of `write_fat` do not overflow. */
  predicate Countable(b: Bpb, boot: seq<byte>, f: Option<FirstFile>)
    requires 0 < b.spc && BPSEC <= |boot|
  {
    && WholeSectors(|boot| - BPSEC, b.spc) < 0x1_0000 && WholeSectors(|DataOf(f)|, b.spc) < 0x1_0000
    && |DataOf(f)| < 0x1_0000_0000
  }

  lemma ChainIs(f: Option<FirstFile>, spc: nat)
    requires f.Some? && 0 < spc && WholeSectors(|DataOf(f)|, spc) < 0x1_0000
    ensures ChainLength(|f.value.data|, spc) == ClustersOf(f, 512 * spc)
  {
    ClustersAre(|DataOf(f)|, spc);
    HowManyLeast(|DataOf(f)|, 512 * spc);
  }

  lemma StartIs(b: Bpb, boot: seq<byte>)
    requires 0 < b.spc && BPSEC <= |boot| && BPSEC <= BootSize(boot) && WholeSectors(|boot| - BPSEC, b.spc) < 0x1_0000
    ensures Start(b, boot) == 2 + Hidden(b, boot)
  {
    BootClusters(boot, b.spc);
    ClustersAre(|boot| - BPSEC, b.spc);
  }

  /** The entries of a table with a chain of this length. */
  ghost predicate HasChain(bits: nat, fat: seq<byte>, media: byte, hidden: nat, length: nat) {
    Entries(bits, fat) == if 0 < length then Table(bits, |fat|, media, hidden, 2 + hidden, length - 1, true)
                          else Table(bits, |fat|, media, hidden, 0, 0, false)
  }

  lemma RightChain(bits: nat, b: Bpb, boot: seq<byte>, f: Option<FirstFile>, fat: seq<byte>, hidden: nat, length: nat)
    requires 0 < b.spc && BPSEC <= |boot| && BPSEC <= BootSize(boot) && RightTable(bits, b, boot, f, fat)
    requires Start(b, boot) == 2 + hidden && length == if f.None? then 0 else ChainLength(|f.value.data|, b.spc)
    ensures HasChain(bits, fat, b.media, hidden, length)
  {
  }

  lemma BothStand(img: seq<byte>, bits: nat, b: Bpb, fat: seq<byte>, hidden: nat, length: nat)
    requires (bits == 12 || bits == 16) && |fat| == 512 * b.spf && HasChain(bits, fat, b.media, hidden, length)
    requires StandsAt(img, 512, fat) && StandsAt(img, 512 + 512 * b.spf, fat)
    ensures TablesAt(img, bits, b, hidden, length)
  {
    TableStands(img, 512, fat, bits, b.media, hidden, length);
    TableStands(img, 512 + 512 * b.spf, fat, bits, b.media, hidden, length);
  }

  lemma TablesAreLaid(img: seq<byte>, bits: nat, b: Bpb, boot: seq<byte>, f: Option<FirstFile>, fat: seq<byte>)
    requires (bits == 12 || bits == 16) && 0 < b.spc && BPSEC <= |boot| && BPSEC <= BootSize(boot) && Countable(b, boot, f)
    requires RightTable(bits, b, boot, f, fat) && StandsAt(img, 512, fat) && StandsAt(img, 512 + 512 * b.spf, fat)
    ensures Start(b, boot) == 2 + Hidden(b, boot)
    ensures TablesAt(img, bits, b, Hidden(b, boot), ClustersOf(f, 512 * b.spc))
  {
    StartIs(b, boot);
    if f.Some? {
      ChainIs(f, b.spc);
    }
    RightChain(bits, b, boot, f, fat, Hidden(b, boot), ClustersOf(f, 512 * b.spc));
    BothStand(img, bits, b, fat, Hidden(b, boot), ClustersOf(f, 512 * b.spc));
  }

  /** The sizes of the two areas. */
  lemma HiddenSize(b: Bpb, boot: seq<byte>)
    requires 0 < b.spc && BPSEC <= |boot| && BPSEC <= BootSize(boot) && WholeSectors(|boot| - BPSEC, b.spc) < 0x1_0000
    ensures RestOfBoot(boot, b.spc) == Padded(boot[512..], HiddenArea(b, boot)) && |boot| - 512 <= HiddenArea(b, boot)
  {
    BootClusters(boot, b.spc);
    ClustersAre(|boot| - BPSEC, b.spc);
    HowManyLeast(|boot| - BPSEC, 512 * b.spc);
  }

  lemma FileSize(b: Bpb, f: Option<FirstFile>)
    requires 0 < b.spc && WholeSectors(|DataOf(f)|, b.spc) < 0x1_0000
    ensures f.Some? ==> FileArea(f, b.spc) == Padded(DataOf(f), FileSpace(b, f))
    ensures |DataOf(f)| <= FileSpace(b, f) && (f.None? ==> FileSpace(b, f) == 0)
  {
    if f.None? {
      NothingNeeded(512 * b.spc);
    } else {
      ClustersAre(|DataOf(f)|, b.spc);
      HowManyLeast(|DataOf(f)|, 512 * b.spc);
    }
  }

  lemma NothingNeeded(y: nat)
    requires 0 < y
    ensures HowMany(0, y) == 0
  {
    HowManyLeast(0, y);
    TimesMonotone(0, HowMany(0, y) - 1, y);
  }

  /** The areas behind the root directory. */
  lemma AreasAreLaid(img: seq<byte>, at: nat, rest: seq<byte>, n: nat, file: seq<byte>, m: nat)
    requires |rest| <= n && |file| <= m
    requires StandsAt(img, at, Padded(rest, n)) && StandsAt(img, at + n, Padded(file, m))
    ensures FilesAt(img, at, rest, n, file, m)
  {
    PaddedAt(img, at, rest, n);
    PaddedAt(img, at + n, file, m);
  }

  lemma FilesAreLaid(img: seq<byte>, b: Bpb, boot: seq<byte>, f: Option<FirstFile>, at: nat)
    requires 0 < b.spc && BPSEC <= |boot| && BPSEC <= BootSize(boot) && Countable(b, boot, f) && at == DataAt(b)
    requires StandsAt(img, at, RestOfBoot(boot, b.spc)) && StandsAt(img, FileAt(b, boot), FileArea(f, b.spc))
    ensures FilesAt(img, at, boot[512..], HiddenArea(b, boot), DataOf(f), FileSpace(b, f))
  {
    HiddenSize(b, boot);
    FileSize(b, f);
    assert Padded([], 0) == [];
    AreasAreLaid(img, at, boot[512..], HiddenArea(b, boot), DataOf(f), FileSpace(b, f));
  }

  lemma HeadIsLaid(img: seq<byte>, b: Bpb, ext: seq<byte>, boot: seq<byte>, f: Option<FirstFile>, start: ushort)
    requires |ext| == 26 && BPSEC <= |boot| && 0 < b.rootEntries
    requires f.Some? ==> |f.value.head| == 26 && |f.value.data| < 0x1_0000_0000
    requires StandsAt(img, 0, BootSector(boot, b, ext)) && StandsAt(img, RdirAt(b), RootDir(b.rootEntries, f, start))
    ensures BootSectorAt(img, b, ext, boot) && RootAt(img, RdirAt(b), 32 * b.rootEntries, f, start)
  {
    BootSectorStands(img, b, ext, boot);
    RootStands(img, RdirAt(b), b.rootEntries, f, start);
  }

  lemma RootNamesStart(img: seq<byte>, at: nat, size: nat, f: Option<FirstFile>, start: int, first: int)
    requires RootAt(img, at, size, f, start) && (f.Some? ==> start == first)
    ensures RootAt(img, at, size, f, first)
  {
  }

  lemma FrontIsLaid(img: seq<byte>, bits: nat, b: Bpb, ext: seq<byte>, boot: seq<byte>, f: Option<FirstFile>, fat: seq<byte>,
                    start: ushort)
    requires (bits == 12 || bits == 16) && 0 < b.spc && BPSEC <= |boot| && BPSEC <= BootSize(boot) && Countable(b, boot, f)
    requires |ext| == 26 && 0 < b.rootEntries && (f.Some? ==> |f.value.head| == 26) && RightTable(bits, b, boot, f, fat)
    requires StandsAt(img, 0, Volume(b, ext, boot, f, fat, start)) && (f.Some? ==> start == Start(b, boot))
    ensures BootSectorAt(img, b, ext, boot) && RootAt(img, RdirAt(b), 32 * b.rootEntries, f, 2 + Hidden(b, boot))
    ensures TablesAt(img, bits, b, Hidden(b, boot), ClustersOf(f, 512 * b.spc))
  {
    Sections(img, b, ext, boot, f, fat, start);
    HeadIsLaid(img, b, ext, boot, f, start);
    TablesAreLaid(img, bits, b, boot, f, fat);
    RootNamesStart(img, RdirAt(b), 32 * b.rootEntries, f, start, 2 + Hidden(b, boot));
  }

  lemma BackIsLaid(img: seq<byte>, b: Bpb, ext: seq<byte>, boot: seq<byte>, f: Option<FirstFile>, fat: seq<byte>, start: ushort)
    requires 0 < b.spc && BPSEC <= |boot| && BPSEC <= BootSize(boot) && Countable(b, boot, f)
    requires |ext| == 26 && 0 < b.rootEntries && |fat| == BPSEC * b.spf && (f.Some? ==> |f.value.head| == 26)
    requires StandsAt(img, 0, Volume(b, ext, boot, f, fat, start))
    ensures FilesAt(img, DataAt(b), boot[512..], HiddenArea(b, boot), DataOf(f), FileSpace(b, f))
  {
    Sections(img, b, ext, boot, f, fat, start);
    FilesAreLaid(img, b, boot, f, DataAt(b));
  }

  /** What `write_fat` writes has this layout, unless a count overflows. */
  lemma VolumeIsLaid(img: seq<byte>, bits: nat, b: Bpb, ext: seq<byte>, boot: seq<byte>, f: Option<FirstFile>, fat: seq<byte>,
                     start: ushort)
    requires Inputs(bits, b, ext, boot, f) && RightTable(bits, b, boot, f, fat) && Countable(b, boot, f)
    requires StandsAt(img, 0, Volume(b, ext, boot, f, fat, start)) && (f.Some? ==> start == Start(b, boot))
    ensures Laid(img, bits, b, ext, boot, f)
  {
    FrontIsLaid(img, bits, b, ext, boot, f, fat, start);
    BackIsLaid(img, b, ext, boot, f, fat, start);
  }

  lemma Begins(img: seq<byte>, v: seq<byte>)
    requires img == [] + v
    ensures StandsAt(img, 0, v) && img == v
  {
  }

  lemma InstalledIsLaid(img: seq<byte>, bits: nat, b: Bpb, ext: seq<byte>, boot: seq<byte>, f: Option<FirstFile>, fat: seq<byte>,
                        v: seq<byte>)
    requires Inputs(bits, b, ext, boot, f) && RightTable(bits, b, boot, f, fat) && (f.Some? ==> Start(b, boot) < 0x1_0000)
    requires v == Volume(b, ext, boot, f, fat, if f.Some? then Start(b, boot) else 0) && img == [] + v
    ensures img == v && (Countable(b, boot, f) ==> Laid(img, bits, b, ext, boot, f))
  {
    Begins(img, v);
    if Countable(b, boot, f) {
      VolumeIsLaid(img, bits, b, ext, boot, f, fat, if f.Some? then Start(b, boot) else 0);
    }
  }

  /** newfs on an empty file. */
  method Install(bits: nat, b: Bpb, ext: seq<byte>, boot: seq<byte>, f: Option<FirstFile>)
    returns (img: seq<byte>, ghost fat: seq<byte>)
    requires Inputs(bits, b, ext, boot, f)
    ensures RightTable(bits, b, boot, f, fat) && (f.Some? ==> Start(b, boot) < 0x1_0000)
    ensures img == Volume(b, ext, boot, f, fat, if f.Some? then Start(b, boot) else 0)
    ensures Countable(b, boot, f) ==> Laid(img, bits, b, ext, boot, f)
  {
    var disk := new Disk();
    fat := WriteFat(disk, bits, b, ext, boot, f);
    img := disk.data;
    InstalledIsLaid(img, bits, b, ext, boot, f, fat, Volume(b, ext, boot, f, fat, if f.Some? then Start(b, boot) else 0));
  }
}
