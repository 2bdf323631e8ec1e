/**
 The bracket case of `compile`: one pass over the text that sets bits in the code buffer, widens
 the bitmap when the first character above 127 turns up, and complements it in place.
 */
module RegexpBracket {
  import opened Bytes
  import opened RegexpCode
  import opened RegexpPattern
  import opened RegexpRoom

  /** The array outside `[lo, hi)` is as it was. */
  twostate predicate OnlyChanged(buf: array<byte>, lo: nat, hi: nat)
    reads buf
  {
    forall k :: 0 <= k < buf.Length && !(lo <= k < hi) ==> buf[k] == old(buf[k])
  }

  /** The `w` bytes at `ep` hold exactly `members`. */
  ghost predicate Holds(buf: array<byte>, ep: nat, w: nat, members: set<int>)
    reads buf
  {
    ep + w <= buf.Length && forall j :: ep <= j < ep + w ==> buf[j] == MaskByte(members, j - ep)
  }

  /** `PLACE(c)`. */
  method Place(buf: array<byte>, ep: nat, c: nat, ghost w: nat, ghost members: set<int>)
    requires Holds(buf, ep, w, members) && c < 8 * w
    modifies buf
    ensures Holds(buf, ep, w, members + {c})
    ensures OnlyChanged(buf, ep, ep + w)
  {
    PlaceAdds(members, c);
    buf[ep + c / 8] := OrBit(buf[ep + c / 8], c % 8);
  }

  lemma {:induction false} MaskNone(members: set<int>, first: int, hi: int)
    requires forall x <- members :: x < first
    ensures Mask(members, first, hi) == 0
    decreases hi - first
  {
    if first < hi {
      MaskNone(members, first + 1, hi);
    }
  }

  /** Zeroes `buf[ep+lo .. ep+hi]`: a bitmap of `lo` bytes grows to one of `hi` bytes. */
  method Clear(buf: array<byte>, ep: nat, lo: nat, hi: nat, ghost members: set<int>)
    requires lo <= hi && ep + hi <= buf.Length
    requires Holds(buf, ep, lo, members)
    requires forall x <- members :: x < 8 * lo
    modifies buf
    ensures Holds(buf, ep, hi, members)
    ensures OnlyChanged(buf, ep + lo, ep + hi)
  {
    for i := lo to hi
      invariant Holds(buf, ep, i, members)
      invariant OnlyChanged(buf, ep + lo, ep + hi)
    {
      MaskNone(members, 8 * i, 8 * i + 8);
      buf[ep + i] := 0;
    }
  }

  /** Switches from CCL to CXCL: the bitmap doubles, and is still empty above 127. */
  method Widen(buf: array<byte>, ep: nat, ghost members: set<int>)
    requires 0 < ep && ep + 32 <= buf.Length
    requires Holds(buf, ep, 16, members)
    requires forall x <- members :: x < 128
    modifies buf
    ensures buf[ep - 1] == CXCL && Holds(buf, ep, 32, members)
    ensures OnlyChanged(buf, ep - 1, ep + 32)
  {
    Clear(buf, ep, 16, 32, members);
    buf[ep - 1] := CXCL;
  }

  /** Places every character from `lo` up to, not including, `hi`. */
  method PlaceSpan(buf: array<byte>, ep: nat, lo: nat, hi: nat, ghost w: nat, ghost members: set<int>)
    requires Holds(buf, ep, w, members) && hi <= 8 * w && hi <= 256
    modifies buf
    ensures Holds(buf, ep, w, members + Span(lo, hi))
    ensures OnlyChanged(buf, ep, ep + w)
  {
    var lc := lo;
    ghost var acc := members;
    while lc < hi
      invariant lo <= lc && (lc <= hi || lc == lo)
      invariant acc == members + Span(lo, lc)
      invariant Holds(buf, ep, w, acc)
      invariant OnlyChanged(buf, ep, ep + w)
    {
      Place(buf, ep, lc, w, acc);
      acc := acc + {lc};
      lc := lc + 1;
    }
    assert acc == members + Span(lo, hi);
  }

  /** Flips every bit of a 32-byte bitmap. */
  method Flip(buf: array<byte>, ep: nat, ghost members: set<int>, ghost flipped: set<int>)
    requires Holds(buf, ep, 32, members)
    requires forall x :: 0 <= x < 256 ==> (x in members <==> x !in flipped)
    modifies buf
    ensures Holds(buf, ep, 32, flipped)
    ensures OnlyChanged(buf, ep, ep + 32)
  {
    for i := 0 to 32
      invariant forall j :: ep <= j < ep + i ==> buf[j] == MaskByte(flipped, j - ep)
      invariant forall j :: ep + i <= j < ep + 32 ==> buf[j] == MaskByte(members, j - ep)
      invariant OnlyChanged(buf, ep, ep + 32)
    {
      Flipped(members, flipped, i);
      buf[ep + i] := 255 - buf[ep + i];
    }
  }

  lemma Flipped(members: set<int>, flipped: set<int>, k: nat)
    requires forall x :: 8 * k <= x < 8 * k + 8 ==> (x in members <==> x !in flipped)
    ensures MaskByte(flipped, k) == 255 - MaskByte(members, k)
  {
    MaskComplement(members, flipped, 8 * k, 8 * k + 8);
    assert Pow2(8) == 256;
  }

  /** `ep[0] &= 0376`: takes NUL out of a bitmap. */
  method ClearNul(buf: array<byte>, ep: nat, ghost w: nat, ghost members: set<int>)
    requires Holds(buf, ep, w, members) && 0 < w
    modifies buf
    ensures Holds(buf, ep, w, members - {0})
    ensures OnlyChanged(buf, ep, ep + w)
  {
    ghost var before := buf[ep..ep + w];
    buf[ep] := buf[ep] - buf[ep] % 2;
    ghost var after, less := buf[ep..ep + w], members - {0};
    NulCleared(before, after, members, less);
    assert forall j :: ep <= j < ep + w ==> buf[j] == after[j - ep];
  }

  lemma NulCleared(before: seq<byte>, after: seq<byte>, members: set<int>, less: set<int>)
    requires 0 < |before| == |after| && less == members - {0}
    requires forall k :: 0 <= k < |before| ==> before[k] == MaskByte(members, k)
    requires after[0] == before[0] - before[0] % 2 && forall k :: 1 <= k < |after| ==> after[k] == before[k]
    ensures forall k :: 0 <= k < |after| ==> after[k] == MaskByte(less, k)
  {
    forall k: nat | k < |after|
      ensures after[k] == MaskByte(less, k)
    {
      if k == 0 {
        DropNul(members, k);
      } else {
        MaskAgrees(members, less, 8 * k, 8 * k + 8);
      }
    }
  }

  lemma Parity(x: nat, bit: nat, rest: nat)
    requires x == bit + 2 * rest && bit < 2
    ensures x - x % 2 == 2 * rest
  {
  }

  lemma DropNul(s: set<int>, k: nat)
    requires k == 0
    ensures MaskByte(s - {0}, k) == MaskByte(s, k) - MaskByte(s, k) % 2
  {
    var first, hi := 8 * k, 8 * k + 8;
    var rest := Mask(s, first + 1, hi);
    MaskAgrees(s, s - {0}, first + 1, hi);
    Parity(MaskByte(s, k), if first in s then 1 else 0, rest);
  }

  lemma HighOrNot(chars: set<int>, c: int)
    ensures HasHigh(chars + {c}) <==> HasHigh(chars) || 128 <= c
  {
    if HasHigh(chars) {
      var x :| x in chars && 128 <= x;
      assert x in chars + {c};
    }
    assert c in chars + {c};
  }

  ghost predicate BitmapState(buf: array<byte>, ep: nat, narrow: bool, acc: set<int>)
    requires 0 < ep <= buf.Length
    reads buf
  {
    && narrow == !HasHigh(acc)
    && (forall x <- acc :: 0 <= x < 256)
    && buf[ep - 1] == (if narrow then CCL else CXCL)
    && Holds(buf, ep, if narrow then 16 else 32, acc)
  }

  /** Makes room for characters above 127 if `c` is the first of them. Fails when there is none. */
  method Admit(buf: array<byte>, ep: nat, endbuf: nat, narrow: bool, c: byte, ghost acc: set<int>)
    returns (ok: bool, still: bool)
    requires 0 < ep && ep + 16 < endbuf < buf.Length
    requires BitmapState(buf, ep, narrow, acc)
    modifies buf
    ensures ok <==> c < 128 || !narrow || ep + 32 < endbuf
    ensures ok ==> still == (narrow && c < 128)
    ensures ok ==> buf[ep - 1] == (if still then CCL else CXCL)
    ensures ok ==> Holds(buf, ep, if still then 16 else 32, acc)
    ensures ok && narrow && !still ==> ep + 32 < endbuf
    ensures OnlyChanged(buf, ep - 1, ep + 32)
  {
    ok, still := true, narrow;
    if 128 <= c && narrow {
      still := false;
      if endbuf <= ep + 32 {
        ok := false;
        return;
      }
      Widen(buf, ep, acc);
    }
  }

  /** Adds a range and its end, or (with `lo == c`) a single character, to the bitmap. */
  method PlaceElement(buf: array<byte>, ep: nat, lo: byte, c: byte, narrow: bool, ghost acc: set<int>)
    requires 0 < ep && ep + (if narrow then 16 else 32) <= buf.Length
    requires narrow == !(HasHigh(acc) || 128 <= c)
    requires forall x <- acc :: 0 <= x < 256
    requires buf[ep - 1] == (if narrow then CCL else CXCL)
    requires Holds(buf, ep, if narrow then 16 else 32, acc)
    modifies buf
    ensures BitmapState(buf, ep, narrow, acc + Span(lo, c) + {c})
    ensures OnlyChanged(buf, ep, ep + 32)
  {
    ghost var w := if narrow then 16 else 32;
    PlaceSpan(buf, ep, lo, c, w, acc);
    ghost var mid := acc + Span(lo, c);
    assert c < 128 ==> (HasHigh(mid) <==> HasHigh(acc)) by {
      if HasHigh(acc) {
        var x :| x in acc && 128 <= x;
        assert x in mid;
      }
    }
    Place(buf, ep, c, w, mid);
    HighOrNot(mid, c);
  }

  /** What `[` leaves when the elements of the bracket expression have been read: error 50 exactly if one of them is
      above 127 and there is no room for the wide bitmap. */
  ghost predicate Scanned(t: seq<byte>, pos0: nat, r: Result<nat>, buf: array<byte>, ep: nat, endbuf: nat,
                          narrow: bool, chars: set<int>)
    requires 0 < ep <= buf.Length
    reads buf
  {
    if ReadsHigh(t, pos0, 0) && endbuf <= ep + 32 then r == Err(50)
    else
      match BracketFrom(t, pos0, 0, {})
      case Ok((s, next)) => r == Ok(next) && s == chars && BitmapState(buf, ep, narrow, s)
      case Err(e) => r == Err(e)
  }

  /** The loop over the elements of a bracket expression. */
  method ScanElements(t: seq<byte>, pos0: nat, buf: array<byte>, ep: nat, endbuf: nat)
    returns (r: Result<nat>, narrow: bool, ghost chars: set<int>)
    requires 0 < ep && ep + 16 < endbuf < buf.Length
    requires BitmapState(buf, ep, true, {})
    modifies buf
    ensures Scanned(t, pos0, r, buf, ep, endbuf, narrow, chars)
    ensures OnlyChanged(buf, ep - 1, ep + 32)
  {
    narrow, chars := true, {};
    if |t| <= pos0 {
      return Err(RAN_OFF), narrow, chars;
    }
    var c, pos, lc := t[pos0], pos0 + 1, 0;
    while true
      invariant pos0 < pos <= |t| && c == t[pos - 1] && 0 <= lc < 256
      invariant BitmapState(buf, ep, narrow, chars) && (!narrow ==> ep + 32 < endbuf)
      invariant BracketFrom(t, pos0, 0, {}) == BracketFrom(t, pos - 1, lc, chars)
      invariant ReadsHigh(t, pos0, 0) <==> !narrow || ReadsHigh(t, pos - 1, lc)
      invariant OnlyChanged(buf, ep - 1, ep + 32)
      decreases |t| - pos
    {
      if c == 0 || c == NEWLINE {
        return Err(49), narrow, chars;
      }
      ghost var was := narrow;
      var ok;
      ok, narrow := Admit(buf, ep, endbuf, narrow, c, chars);
      if !ok {
        return Err(50), narrow, chars;
      }
      if c == MINUS && lc != 0 {
        if |t| <= pos {
          return Err(RAN_OFF), narrow, chars;
        }
        c, pos := t[pos], pos + 1;
        if c == RBRACKET {
          Place(buf, ep, MINUS, if narrow then 16 else 32, chars);
          HighOrNot(chars, MINUS);
          return Ok(pos), narrow, chars + {MINUS};
        }
        ok, narrow := Admit(buf, ep, endbuf, narrow, c, chars);
        if !ok {
          return Err(50), narrow, chars;
        }
        PlaceElement(buf, ep, lc, c, narrow, chars);
        chars := chars + Span(lc, c) + {c};
      } else {
        PlaceElement(buf, ep, c, c, narrow, chars);
        assert chars + Span(c, c) + {c} == chars + {c};
        chars := chars + {c};
      }
      lc := c;
      assert BracketFrom(t, pos0, 0, {}) == BracketRest(t, pos, lc, chars);
      assert ReadsHigh(t, pos0, 0) <==> !narrow || ReadsHighRest(t, pos, lc);
      if |t| <= pos {
        return Err(RAN_OFF), narrow, chars;
      }
      c, pos := t[pos], pos + 1;
      if c == RBRACKET {
        return Ok(pos), narrow, chars;
      }
    }
  }

  /** The bytes `e` stand at `ep`. */
  ghost predicate Written(buf: array<byte>, ep: nat, e: seq<byte>)
    reads buf
  {
    ep + |e| <= buf.Length && buf[ep..ep + |e|] == e
  }

  /** The last step: complement the bitmap or mark it as negated. */
  method Negate(buf: array<byte>, ep: nat, narrow: bool, ghost chars: set<int>)
    requires 0 < ep <= buf.Length && BitmapState(buf, ep, narrow, chars)
    modifies buf
    ensures ep + (if narrow then 16 else 32) <= buf.Length
    ensures buf[ep - 1] == BaseOpcode(One(ClassOf(true, chars)))
    ensures Holds(buf, ep, if narrow then 16 else 32, ClassOf(true, chars).members)
    ensures OnlyChanged(buf, ep - 1, ep + 32)
  {
    if narrow {
      PlaceAdds(chars, 0);
      assert OrBit(buf[ep], 0) == OrStar(buf[ep]);
      buf[ep - 1] := NCCL;
      buf[ep] := OrStar(buf[ep]);
    } else {
      ghost var flipped := AllBut(chars);
      Flip(buf, ep, chars, flipped);
      ClearNul(buf, ep, 32, flipped);
    }
  }

  /** The complement, with NUL still in it. */
  ghost function AllBut(chars: set<int>): (r: set<int>)
    ensures forall x :: 0 <= x < 256 ==> (x in chars <==> x !in r)
    ensures r - {0} == Span(1, 256) - chars
  {
    Span(0, 256) - chars
  }

  /** The case `[` of `compile`, with `pos` just after the bracket and `ep0` the code position. */
  method CompileBracket(t: seq<byte>, pos0: nat, buf: array<byte>, ep0: nat, endbuf: nat)
    returns (r: Result<(nat, nat)>)
    requires ep0 < endbuf < buf.Length
    modifies buf
    ensures endbuf < ep0 + BracketRoom(t, pos0) ==> r == Err(50)
    ensures ep0 + BracketRoom(t, pos0) <= endbuf ==>
              match Bracket(t, pos0)
              case Ok((a, next)) =>
                var e := EncodeItem(Item(One(a), Once));
                r == Ok((next, ep0 + |e|)) && Written(buf, ep0, e)
              case Err(e) => r == Err(e)
    ensures OnlyChanged(buf, ep0, ep0 + 33)
  {
    if endbuf <= ep0 + 17 {
      return Err(50);
    }
    buf[ep0] := CCL;
    var ep := ep0 + 1;
    Clear(buf, ep, 0, 16, {});
    if |t| <= pos0 {
      return Err(RAN_OFF);
    }
    var neg := t[pos0] == CARET;
    ghost var chars;
    var s, narrow;
    s, narrow, chars := ScanElements(t, if neg then pos0 + 1 else pos0, buf, ep, endbuf);
    if s.Err? {
      return Err(s.code);
    }
    var w := CloseBracket(buf, ep0, neg, narrow, chars);
    return Ok((s.value, ep + w));
  }

  /** After the closing bracket: complement if asked to, and step over the bitmap. */
  method CloseBracket(buf: array<byte>, ep0: nat, neg: bool, narrow: bool, ghost chars: set<int>) returns (w: nat)
    requires ep0 < buf.Length && BitmapState(buf, ep0 + 1, narrow, chars)
    modifies buf
    ensures |EncodeItem(Item(One(ClassOf(neg, chars)), Once))| == 1 + w
    ensures Written(buf, ep0, EncodeItem(Item(One(ClassOf(neg, chars)), Once)))
    ensures OnlyChanged(buf, ep0, ep0 + 33)
  {
    w := if narrow then 16 else 32;
    if neg {
      Negate(buf, ep0 + 1, narrow, chars);
    }
    Assembled(buf, ep0, w, ClassOf(neg, chars));
  }

  /** An opcode and the bitmap after it are the code of a class. */
  lemma Assembled(buf: array<byte>, ep0: nat, w: nat, a: Atom)
    requires ep0 + 1 + w <= buf.Length && a.Class? && w == BitmapWidth(a.kind)
    requires buf[ep0] == BaseOpcode(One(a)) && Holds(buf, ep0 + 1, w, a.members)
    ensures |EncodeItem(Item(One(a), Once))| == 1 + w
    ensures Written(buf, ep0, EncodeItem(Item(One(a), Once)))
  {
    var e := EncodeItem(Item(One(a), Once));
    assert e == [BaseOpcode(One(a))] + Bitmap(a.members, w);
    forall k | 0 <= k < 1 + w
      ensures buf[ep0..ep0 + 1 + w][k] == e[k]
    {
      if 0 < k {
        assert buf[ep0 + k] == MaskByte(a.members, ep0 + k - (ep0 + 1));
      }
    }
  }
}
