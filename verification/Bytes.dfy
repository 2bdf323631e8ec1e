/** Bytes, C-style failure codes, and the bit operations of the `PLACE` and `ISTHERE` macros. */
module Bytes {

  type byte = x: int | 0 <= x < 256

  /** A `u_short`: in FAT code a cluster number, or a count of sectors or clusters. */
  type ushort = x: int | 0 <= x < 0x1_0000

  /** What a routine that may give up returns: a value, or the number passed to ERROR. */
  datatype Result<+T> = Ok(value: T) | Err(code: int) {
    predicate IsFailure() { Err? }
    function PropagateFailure<U>(): Result<U> requires Err? { Err(code) }
    function Extract(): T requires Ok? { value }
  }

  datatype Option<+T> = None | Some(value: T)

  function Zeros(n: nat): (r: seq<byte>)
    ensures |r| == n
  {
    seq(n, _ => 0)
  }

  /** Bit `j` of `b`, counted from the least significant one: `b & bittab[j]`. */
  predicate Bit(b: nat, j: nat) {
    if j == 0 then b % 2 == 1 else Bit(b / 2, j - 1)
  }

  /** `b | bittab[j]`. */
  function OrBit(b: nat, j: nat): nat {
    if j == 0 then b - b % 2 + 1 else 2 * OrBit(b / 2, j - 1) + b % 2
  }

  /** The number whose bit `j` is set exactly when `first + j` is a member, for members below `hi`. */
  function Mask(members: set<int>, first: int, hi: int): nat
    decreases hi - first
  {
    if hi <= first then 0
    else (if first in members then 1 else 0) + 2 * Mask(members, first + 1, hi)
  }

  function Pow2(n: nat): nat {
    if n == 0 then 1 else 2 * Pow2(n - 1)
  }

  lemma {:induction false} MaskBound(members: set<int>, first: int, hi: int)
    requires first <= hi
    ensures Mask(members, first, hi) < Pow2(hi - first)
    decreases hi - first
  {
    if first < hi {
      MaskBound(members, first + 1, hi);
    }
  }

  /** Bit `j` is worth the `j`th power of two. */
  lemma {:induction false} BitIs(b: nat, j: nat)
    ensures 0 < Pow2(j) && (Bit(b, j) <==> b / Pow2(j) % 2 == 1)
    decreases j
  {
    if j != 0 {
      BitIs(b / 2, j - 1);
      DivTwice(b, Pow2(j - 1));
    }
  }

  lemma DivTwice(b: nat, y: nat)
    requires 0 < y
    ensures b / 2 / y == b / (2 * y)
  {
    var q := b / (2 * y);
    assert b == 2 * y * q + b % (2 * y);
    assert b / 2 == y * q + b % (2 * y) / 2;
    var r := b % (2 * y) / 2;
    assert r < y;
    QuotientIs(b / 2, y, q, r);
  }

  lemma QuotientIs(a: nat, y: nat, q: nat, r: nat)
    requires r < y && a == y * q + r
    ensures a / y == q
  {
    var p := a / y;
    assert a == y * p + a % y;
    assert p < q ==> y * (p + 1) <= y * q;
    assert q < p ==> y * (q + 1) <= y * p;
  }

  /** One byte of a bitmap: members `8k .. 8k+7`. */
  function MaskByte(members: set<int>, k: nat): byte {
    MaskBound(members, 8 * k, 8 * k + 8);
    assert Pow2(8) == 256;
    Mask(members, 8 * k, 8 * k + 8)
  }

  /** The `w` bytes that hold the members below `8w`. */
  function Bitmap(members: set<int>, w: nat): (r: seq<byte>)
    ensures |r| == w
  {
    seq(w, k requires 0 <= k => MaskByte(members, k))
  }

  lemma {:induction false} MaskBit(members: set<int>, first: int, hi: int, c: int)
    requires first <= c < hi
    ensures Bit(Mask(members, first, hi), c - first) == (c in members)
    decreases hi - first
  {
    assert Mask(members, first, hi) / 2 == Mask(members, first + 1, hi);
    if first < c {
      MaskBit(members, first + 1, hi, c);
    }
  }

  /** Setting a bit adds the member that the bit stands for. */
  lemma {:induction false} MaskAdd(members: set<int>, first: int, hi: int, c: int)
    requires first <= c < hi
    ensures Mask(members + {c}, first, hi) == OrBit(Mask(members, first, hi), c - first)
    decreases hi - first
  {
    assert Mask(members, first, hi) / 2 == Mask(members, first + 1, hi);
    if first == c {
      MaskAgrees(members, members + {c}, first + 1, hi);
    } else {
      MaskAdd(members, first + 1, hi, c);
    }
  }

  /** Two sets with the same members in a window have the same mask there. */
  lemma {:induction false} MaskAgrees(a: set<int>, b: set<int>, first: int, hi: int)
    requires forall x :: first <= x < hi ==> (x in a <==> x in b)
    ensures Mask(a, first, hi) == Mask(b, first, hi)
    decreases hi - first
  {
    if first < hi {
      MaskAgrees(a, b, first + 1, hi);
    }
  }

  /** Flipping every bit of a mask complements its window. */
  lemma {:induction false} MaskComplement(a: set<int>, b: set<int>, first: int, hi: int)
    requires first <= hi
    requires forall x :: first <= x < hi ==> (x in a <==> x !in b)
    ensures Mask(b, first, hi) == Pow2(hi - first) - 1 - Mask(a, first, hi)
    decreases hi - first
  {
    if first < hi {
      MaskComplement(a, b, first + 1, hi);
    }
  }

  /** `ISTHERE(c)` on the bitmap that starts at index `q`. */
  predicate IsThere(code: seq<byte>, q: nat, c: nat)
    requires q + c / 8 < |code|
  {
    Bit(code[q + c / 8], c % 8)
  }

  /** The bytes `e` stand in `code` from index `q` on. */
  ghost predicate StandsAt(code: seq<byte>, q: nat, e: seq<byte>) {
    q + |e| <= |code| && forall k :: 0 <= k < |e| ==> e[k] == code[q + k]
  }

  lemma StandsSplit(code: seq<byte>, q: nat, a: seq<byte>, b: seq<byte>)
    requires StandsAt(code, q, a + b)
    ensures StandsAt(code, q, a) && StandsAt(code, q + |a|, b)
  {
    var e := a + b;
    forall k | 0 <= k < |a|
      ensures a[k] == code[q + k]
    {
      assert e[k] == code[q + k];
    }
    forall k | 0 <= k < |b|
      ensures b[k] == code[q + |a| + k]
    {
      assert e[|a| + k] == code[q + (|a| + k)];
    }
  }

  lemma IsThereBitmap(code: seq<byte>, q: nat, members: set<int>, w: nat, c: nat)
    requires StandsAt(code, q, Bitmap(members, w))
    requires c < 8 * w
    ensures IsThere(code, q, c) == (c in members)
  {
    var k := c / 8;
    assert Bitmap(members, w)[k] == code[q + k];
    MaskBit(members, 8 * k, 8 * k + 8, c);
    assert c - 8 * k == c % 8;
  }

  /** `PLACE(c)` changes one byte of the bitmap, and so adds `c`. */
  lemma PlaceAdds(members: set<int>, c: nat)
    ensures OrBit(MaskByte(members, c / 8), c % 8) == MaskByte(members + {c}, c / 8)
    ensures forall k: nat :: k != c / 8 ==> MaskByte(members + {c}, k) == MaskByte(members, k)
  {
    var more, k := members + {c}, c / 8;
    assert c - 8 * k == c % 8;
    MaskAdd(members, 8 * k, 8 * k + 8, c);
    forall j: nat | j != k
      ensures MaskByte(more, j) == MaskByte(members, j)
    {
      MaskAgrees(members, more, 8 * j, 8 * j + 8);
    }
  }
}
