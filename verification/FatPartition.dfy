/**
 Finding the partition that newfs works on: the drive names of `parse_drvnum`, and the walk of `seek_partn` along the
 boot records of an extended partition.
 */
module FatPartition {
  import opened Bytes
  import opened Numbers
  import opened FatTable
  import opened FatImage
  import opened FatSizing

  // ----- drive names -----

  const LETTER_C: byte := 99
  const LETTER_Z: byte := 122
  const BOOT_NAME: seq<byte> := [98, 111, 111, 116]
  const BOOT_DRIVE := 99

  ghost predicate AllDigits(pn: seq<byte>) {
    forall k :: 0 <= k < |pn| ==> IsDigit(pn[k])
  }

  /** The weight of the first of `c` digits, as an int. */
  method Weight(c: nat) returns (m: int)
    requires 0 < c
    ensures m == Wrap32(Pow10(c - 1))
  {
    m := 1;
    var n := c - 1;
    while n != 0
      invariant 0 <= n < c && m == Wrap32(Pow10(c - 1 - n))
      decreases n
    {
      WrapSum(10, Pow10(c - 1 - n), 0);
      m := Wrap32(m * 10);
      n := n - 1;
    }
  }

  /** Adding a digit at its place. */
  lemma PlaceValue(pn: seq<byte>, k: nat)
    requires k < |pn|
    ensures Decimal(pn, 0, k + 1) * Pow10(|pn| - (k + 1)) ==
            Decimal(pn, 0, k) * Pow10(|pn| - k) + Pow10(|pn| - (k + 1)) * (pn[k] - DIGIT0)
  {
    var w, d := Pow10(|pn| - (k + 1)), pn[k] - DIGIT0;
    assert Pow10(|pn| - k) == 10 * w;
    assert (10 * Decimal(pn, 0, k) + d) * w == Decimal(pn, 0, k) * (10 * w) + w * d;
  }

  lemma AddDigit(pn: seq<byte>, k: nat, v: int, m: int)
    requires k < |pn| && v == Wrap32(Decimal(pn, 0, k) * Pow10(|pn| - k)) && m == Wrap32(Pow10(|pn| - k - 1))
    ensures Wrap32(v + m * (pn[k] - DIGIT0)) == Wrap32(Decimal(pn, 0, k + 1) * Pow10(|pn| - (k + 1)))
  {
    PlaceValue(pn, k);
    WrapTerms(Decimal(pn, 0, k) * Pow10(|pn| - k), Pow10(|pn| - k - 1), pn[k] - DIGIT0);
  }

  lemma WrapTerms(sum: int, w: int, d: int)
    ensures Wrap32(Wrap32(sum) + Wrap32(w) * d) == Wrap32(sum + w * d)
  {
    var v, m, p := Wrap32(sum), Wrap32(w), w * d;
    WrapSum(d, w, v);
    assert d * m == m * d && d * w == p;
    WrapSum(1, sum, p);
  }

  /** The digits at the start of `pn`, each weighted by what follows it. */
  method SumDigits(pn: seq<byte>) returns (v: int, k: nat)
    ensures k <= |pn| && (forall j :: 0 <= j < k ==> IsDigit(pn[j])) && (k < |pn| ==> !IsDigit(pn[k]))
    ensures v == Wrap32(Decimal(pn, 0, k) * Pow10(|pn| - k))
  {
    v, k := 0, 0;
    while k < |pn| && IsDigit(pn[k])
      invariant k <= |pn| && (forall j :: 0 <= j < k ==> IsDigit(pn[j]))
      invariant v == Wrap32(Decimal(pn, 0, k) * Pow10(|pn| - k))
    {
      var m := Weight(|pn| - k);
      AddDigit(pn, k, v, m);
      v := Wrap32(v + m * (pn[k] - DIGIT0));
      k := k + 1;
    }
  }

  /** What a number should name: the drive of that number, or nothing above 24. */
  function NamedDrive(value: int): int {
    if 24 < value then -1 else value
  }

  /** What a digit string names: `parse_drvnum` holds its value in an int. */
  function DigitsDrive(pn: seq<byte>): int {
    NamedDrive(Wrap32(Decimal(pn, 0, |pn|)))
  }

  /** `parse_drvnum`. A name of none of the three forms leaves the result unset: `unset` is what happens to be there. */
  method ParseDriveNumber(pn: seq<byte>, unset: int) returns (r: int)
    ensures |pn| == 1 && 'c' as int <= pn[0] <= 'z' as int ==> r == pn[0] - 'c' as int + 1
    ensures pn != [] && AllDigits(pn) ==> r == DigitsDrive(pn)
    ensures pn != [] && IsDigit(pn[0]) && !AllDigits(pn) ==> r == -1
    ensures |pn| == 4 && (forall k :: 0 <= k < 4 ==> pn[k] == "boot"[k] as int) ==> r == 99
  {
    if |pn| == 1 && LETTER_C <= pn[0] <= LETTER_Z {
      return pn[0] - LETTER_C + 1;
    } else if pn != [] && IsDigit(pn[0]) {
      var v, d := SumDigits(pn);
      if d < |pn| || 24 < v {
        return -1;
      }
      assert Pow10(|pn| - d) == 1;
      return v;
    } else if pn == BOOT_NAME {
      return BOOT_DRIVE;
    }
    return unset;
  }

  lemma {:induction false} DecimalNat(pn: seq<byte>, k: nat)
    requires k <= |pn| && AllDigits(pn)
    ensures 0 <= Decimal(pn, 0, k)
    decreases k
  {
    if k != 0 {
      DecimalNat(pn, k - 1);
    }
  }

  /** A digit string names the drive of its decimal value exactly when that is at most 24, or its low 32 bits are a
      positive int above 24 or all ones. */
  lemma DigitsNameDrive(pn: seq<byte>)
    requires pn != [] && AllDigits(pn)
    ensures var value := Decimal(pn, 0, |pn|);
            DigitsDrive(pn) == NamedDrive(value) <==>
            value <= 24 || 25 <= value % 0x1_0000_0000 < 0x8000_0000 || value % 0x1_0000_0000 == 0xFFFF_FFFF
  {
    DecimalNat(pn, |pn|);
  }

  /** "4294967297" names drive 1, and no drive should have that name. */
  lemma DigitsCanWrap(pn: seq<byte>)
    requires pn == [52, 50, 57, 52, 57, 54, 55, 50, 57, 55]
    ensures AllDigits(pn) && DigitsDrive(pn) == 1 && NamedDrive(Decimal(pn, 0, |pn|)) == -1
  {
    assert Decimal(pn, 0, 1) == 4;
    assert Decimal(pn, 0, 2) == 42;
    assert Decimal(pn, 0, 3) == 429;
    assert Decimal(pn, 0, 4) == 4294;
    assert Decimal(pn, 0, 5) == 42949;
    assert Decimal(pn, 0, 6) == 429496;
    assert Decimal(pn, 0, 7) == 4294967;
    assert Decimal(pn, 0, 8) == 42949672;
    assert Decimal(pn, 0, 9) == 429496729;
    assert Decimal(pn, 0, 10) == 4294967297;
  }

  // ----- extended partitions -----

  const EXTDOS: byte := 5
  const FD_NUMPART: nat := 4

  datatype Part = Part(systid: byte, relsect: ulong, numsect: ulong)

  type Table = t: seq<Part> | |t| == FD_NUMPART witness seq(FD_NUMPART, _ => Part(0, 0, 0))

  const NO_EXTENDED := 1
  const UNREADABLE := 2
  const NO_SUCH_PARTITION := 3
  const BOGUS := 4

  /** The sector that a seek to sector `n` reaches: the byte offset is an unsigned 32-bit number. */
  function Reached(n: ulong): nat { U32(n * BPSEC) / BPSEC }

  /** From 4 gigabytes on, a seek reaches the beginning of the disk again. */
  lemma SeekWraps(n: ulong)
    requires n < 0x80_0000
    ensures Reached(n) == n && Reached(n + 0x80_0000) == n
  {
  }

  /** The record at sector `n` links to another one: its second entry is an extended partition. */
  predicate LinksOn(disk: map<nat, Table>, n: ulong) {
    Reached(n) in disk && disk[Reached(n)][1].systid == 5
  }

  /** Records at these sectors are readable, and each links to the one after it, relative to the start of the whole
      extended partition, where the first one is. */
  predicate Linked(disk: map<nat, Table>, bias: ulong, at: seq<ulong>) {
    && (at != [] ==> at[0] == bias)
    && (forall k :: 0 <= k < |at| ==> Reached(at[k]) in disk)
    && forall k :: 0 <= k < |at| - 1 ==> LinksOn(disk, at[k]) && at[k + 1] == U32(disk[Reached(at[k])][1].relsect + bias)
  }

  /** Where the record after these would be. */
  function Following(disk: map<nat, Table>, bias: ulong, at: seq<ulong>): ulong
    requires Linked(disk, bias, at)
  {
    if at == [] then bias else U32(disk[Reached(at[|at| - 1])][1].relsect + bias)
  }

  /** The last of these records has no link. */
  predicate EndsWith(disk: map<nat, Table>, bias: ulong, at: seq<ulong>) {
    Linked(disk, bias, at) && at != [] && !LinksOn(disk, at[|at| - 1])
  }

  /** The record after these is asked for, and cannot be read. */
  predicate BreaksAfter(disk: map<nat, Table>, bias: ulong, at: seq<ulong>) {
    && Linked(disk, bias, at) && (at != [] ==> LinksOn(disk, at[|at| - 1]))
    && Reached(Following(disk, bias, at)) !in disk
  }

  /** There is one chain of each length. */
  lemma {:induction false} LinkedOnce(disk: map<nat, Table>, bias: ulong, a: seq<ulong>, b: seq<ulong>)
    requires Linked(disk, bias, a) && Linked(disk, bias, b) && |a| <= |b|
    ensures a == b[..|a|]
    decreases |a|
  {
    if a != [] {
      var n := |a| - 1;
      LinkedOnce(disk, bias, a[..n], b);
      assert n != 0 ==> a[n - 1] == a[..n][n - 1] == b[n - 1] && a[n] == b[n];
      assert a == a[..n] + [a[n]] && b[..n + 1] == b[..n] + [b[n]];
    }
  }

  /** How a walk of `drvnum - 1` records ends: they are all there, or the chain ends before, or it breaks off. */
  predicate Walked(disk: map<nat, Table>, bias: ulong, at: seq<ulong>, drvnum: int) {
    && |at| < drvnum && Linked(disk, bias, at)
    && (|at| < drvnum - 1 ==> EndsWith(disk, bias, at) || BreaksAfter(disk, bias, at))
  }

  /** Every walk ends in exactly one of the three ways, and at one place. */
  lemma WalkedOnce(disk: map<nat, Table>, bias: ulong, a: seq<ulong>, b: seq<ulong>, drvnum: int)
    requires Walked(disk, bias, a, drvnum) && Walked(disk, bias, b, drvnum)
    ensures a == b && !(EndsWith(disk, bias, a) && BreaksAfter(disk, bias, a))
  {
    if |a| <= |b| {
      LinkedOnce(disk, bias, a, b);
      ShortStops(disk, bias, a, b, drvnum);
    } else {
      LinkedOnce(disk, bias, b, a);
      ShortStops(disk, bias, b, a, drvnum);
    }
  }

  /** A walk that stopped cannot be part of a longer chain. */
  lemma ShortStops(disk: map<nat, Table>, bias: ulong, a: seq<ulong>, b: seq<ulong>, drvnum: int)
    requires Walked(disk, bias, a, drvnum) && Linked(disk, bias, b) && |a| <= |b| < drvnum && a == b[..|a|]
    ensures a == b
  {
    assert a != [] ==> b[|a| - 1] == a[|a| - 1];
    assert |a| < |b| && a != [] ==> LinksOn(disk, a[|a| - 1]);
    assert |a| < |b| ==> Reached(b[|a|]) in disk && b[|a|] == Following(disk, bias, a);
  }

  /** The first entry of the table for an extended partition. */
  method FindExtended(part: Table) returns (i: nat)
    ensures i <= FD_NUMPART && (i < FD_NUMPART ==> part[i].systid == EXTDOS)
    ensures forall j :: 0 <= j < i ==> part[j].systid != EXTDOS
  {
    i := 0;
    while i < FD_NUMPART && part[i].systid != EXTDOS
      invariant i <= FD_NUMPART && forall j :: 0 <= j < i ==> part[j].systid != EXTDOS
    {
      i := i + 1;
    }
  }

  /** A chain that is long enough, one that ends early, and one that breaks off early are each what the walk found. */
  lemma WalkDecides(disk: map<nat, Table>, bias: ulong, at: seq<ulong>, drvnum: int)
    requires Walked(disk, bias, at, drvnum)
    ensures forall b: seq<ulong> :: Linked(disk, bias, b) && |b| == drvnum - 1 ==> b == at
    ensures forall b: seq<ulong> :: EndsWith(disk, bias, b) && |b| < drvnum - 1 ==> b == at && !BreaksAfter(disk, bias, at)
    ensures forall b: seq<ulong> :: BreaksAfter(disk, bias, b) && |b| < drvnum - 1 ==> b == at && !EndsWith(disk, bias, at)
  {
    forall b: seq<ulong> | Walked(disk, bias, b, drvnum)
      ensures b == at && !(EndsWith(disk, bias, b) && BreaksAfter(disk, bias, b))
    {
      WalkedOnce(disk, bias, at, b, drvnum);
    }
    forall b: seq<ulong> | Linked(disk, bias, b) && |b| == drvnum - 1
      ensures b == at
    {
      assert Walked(disk, bias, b, drvnum);
    }
    forall b: seq<ulong> | EndsWith(disk, bias, b) && |b| < drvnum - 1
      ensures b == at && !BreaksAfter(disk, bias, at)
    {
      assert Walked(disk, bias, b, drvnum);
    }
    forall b: seq<ulong> | BreaksAfter(disk, bias, b) && |b| < drvnum - 1
      ensures b == at && !EndsWith(disk, bias, at)
    {
      assert Walked(disk, bias, b, drvnum);
    }
  }

  /** The loop of `seek_partn`: `drvnum - 1` records along the chain, or fewer if it ends before. */
  method WalkChain(disk: map<nat, Table>, first: Part, drvnum: int) returns (r: Result<(Table, ulong)>, ghost at: seq<ulong>)
    requires 2 <= drvnum && first.systid == EXTDOS
    ensures Walked(disk, first.relsect, at, drvnum)
    ensures |at| == drvnum - 1 ==> r == Ok((disk[Reached(at[|at| - 1])], at[|at| - 1]))
    ensures |at| < drvnum - 1 ==> r == Err(if EndsWith(disk, first.relsect, at) then NO_SUCH_PARTITION else UNREADABLE)
  {
    var part: Table := seq(FD_NUMPART, _ => Part(0, 0, 0));
    var partbias, nextseek, xsysid, drvbasesec, left := first.relsect, first.relsect, first.systid, 0, drvnum - 1;
    at := [];
    while left != 0 && xsysid == EXTDOS
      invariant 0 <= left < drvnum && |at| == drvnum - 1 - left && Linked(disk, partbias, at)
      invariant at != [] ==> part == disk[Reached(at[|at| - 1])] && xsysid == part[1].systid && drvbasesec == at[|at| - 1]
      invariant at == [] ==> xsysid == EXTDOS
      invariant nextseek == Following(disk, partbias, at)
      decreases left
    {
      if Reached(nextseek) !in disk {
        return Err(UNREADABLE), at;
      }
      part := disk[Reached(nextseek)];
      xsysid := part[1].systid;
      drvbasesec := nextseek;
      at := at + [nextseek];
      nextseek := U32(part[1].relsect + partbias);
      left := left - 1;
    }
    if left != 0 {
      return Err(NO_SUCH_PARTITION), at;
    }
    return Ok((part, drvbasesec)), at;
  }

  /** The records of the fourth drive, the third and the second: both links count from the start of the extended partition. */
  lemma FourthDrive(disk: map<nat, Table>, bias: ulong, link: ulong, link2: ulong)
    requires bias in disk && bias + link in disk && bias + link2 in disk && bias + link + link2 < 0x80_0000
    requires disk[bias][1] == Part(5, link, disk[bias][1].numsect)
    requires disk[bias + link][1] == Part(5, link2, disk[bias + link][1].numsect)
    ensures Linked(disk, bias, [bias, bias + link, bias + link2])
  {
    assert Reached(bias) == bias && Reached(bias + link) == bias + link && Reached(bias + link2) == bias + link2;
  }

  /** The first extended entry of the partition table. */
  predicate FirstExtended(part: Table, i: nat) {
    i < 4 && part[i].systid == 5 && forall j :: 0 <= j < i ==> part[j].systid != 5
  }

  /** The extended case of `seek_partn`: the boot sector of logical drive `drvnum`, and its table entry. Each outcome has
      its condition on the chain of records: the drive is looked up in the last one, relative to where that is. */
  method SeekExtended(disk: map<nat, Table>, part: Table, drvnum: int) returns (r: Result<(ulong, Part)>)
    requires 2 <= drvnum
    ensures (forall i: nat :: !FirstExtended(part, i)) ==> r == Err(NO_EXTENDED)
    ensures forall i: nat, at: seq<ulong> :: FirstExtended(part, i) && Linked(disk, part[i].relsect, at) && |at| == drvnum - 1 ==>
              var drive := disk[Reached(at[|at| - 1])][0];
              var boot := U32(drive.relsect + at[|at| - 1]);
              r == if part[i].numsect < U32(boot - part[i].relsect) then Err(BOGUS) else Ok((boot, drive))
    ensures forall i: nat, at: seq<ulong> ::
              FirstExtended(part, i) && EndsWith(disk, part[i].relsect, at) && |at| < drvnum - 1 ==> r == Err(NO_SUCH_PARTITION)
    ensures forall i: nat, at: seq<ulong> ::
              FirstExtended(part, i) && BreaksAfter(disk, part[i].relsect, at) && |at| < drvnum - 1 ==> r == Err(UNREADABLE)
    ensures forall i: nat :: FirstExtended(part, i) ==> exists at: seq<ulong> :: Walked(disk, part[i].relsect, at, drvnum)
  {
    var i := FindExtended(part);
    if i == FD_NUMPART {
      return Err(NO_EXTENDED);
    }
    assert FirstExtended(part, i) && forall j: nat :: FirstExtended(part, j) ==> j == i;
    var w, at := WalkChain(disk, part[i], drvnum);
    WalkDecides(disk, part[i].relsect, at, drvnum);
    if w.Err? {
      return Err(w.code);
    }
    var bootsectseek := U32(w.value.0[0].relsect + w.value.1);
    if part[i].numsect < U32(bootsectseek - part[i].relsect) {
      return Err(BOGUS);
    }
    return Ok((bootsectseek, w.value.0[0]));
  }
}
