/**
 The byte code of <regexp.h>: its opcodes, the items they stand for, and the two directions
 between a list of items and the bytes that `compile` leaves and `advance` reads.
 */
module RegexpCode {
  import opened Bytes

  const CBRA := 2
  const CCHR := 4
  const CDOT := 8
  const CCL := 12
  const CXCL := 16
  const CDOL := 20
  const CCEOF := 22
  const CKET := 24
  const CBACK := 36
  const NCCL := 40
  const NBRA := 9

  /** A group number: an index into `braslist` and `braelist`. */
  type group = g: int | 0 <= g < NBRA

  /** The three bitmap forms of a bracket expression: CCL, NCCL, CXCL. */
  datatype Kind = Plain | Negated | Wide

  /** Something that matches one character. */
  datatype Atom =
    | Chr(c: byte)
    | Dot
    | Class(kind: Kind, members: set<int>)

  datatype Base =
    | One(atom: Atom)
    | Bra(n: group)
    | Ket(n: group)
    | Back(n: group)
    | Dol

  /** How an item repeats. `Interval` holds the bound bytes that follow the item in the code. */
  datatype Repeat = Once | Star | Interval(bounds: seq<byte>)

  datatype Item = Item(base: Base, rep: Repeat)

  /** `b | STAR`. */
  function OrStar(b: byte): byte { b - b % 2 + 1 }

  /** `b | RNGE`. */
  function OrRange(b: byte): byte { b - b % 4 + 3 }

  function BaseOpcode(b: Base): byte {
    match b
    case One(Chr(_)) => CCHR
    case One(Dot) => CDOT
    case One(Class(Plain, _)) => CCL
    case One(Class(Negated, _)) => NCCL
    case One(Class(Wide, _)) => CXCL
    case Bra(_) => CBRA
    case Ket(_) => CKET
    case Back(_) => CBACK
    case Dol => CDOL
  }

  function Opcode(it: Item): byte {
    match it.rep
    case Once => BaseOpcode(it.base)
    case Star => OrStar(BaseOpcode(it.base))
    case Interval(_) => OrRange(BaseOpcode(it.base))
  }

  function BitmapWidth(k: Kind): nat { if k == Wide then 32 else 16 }

  function Args(b: Base): seq<byte> {
    match b
    case One(Chr(c)) => [c]
    case One(Dot) => []
    case One(Class(k, m)) => Bitmap(m, BitmapWidth(k))
    case Bra(n) => [n]
    case Ket(n) => [n]
    case Back(n) => [n]
    case Dol => []
  }

  function Tail(r: Repeat): seq<byte> {
    match r
    case Once => []
    case Star => []
    case Interval(bounds) => bounds
  }

  function EncodeItem(it: Item): (r: seq<byte>)
    ensures 0 < |r|
  {
    [Opcode(it)] + Args(it.base) + Tail(it.rep)
  }

  function EncodeItems(items: seq<Item>): seq<byte> {
    if items == [] then [] else EncodeItem(items[0]) + EncodeItems(items[1..])
  }

  /** What `compile` leaves in the buffer. */
  function Encode(items: seq<Item>): seq<byte> {
    EncodeItems(items) + [CCEOF]
  }

  lemma {:induction false} EncodeAppend(a: seq<Item>, b: seq<Item>)
    ensures EncodeItems(a + b) == EncodeItems(a) + EncodeItems(b)
  {
    if a == [] {
      assert a + b == b;
    } else {
      assert (a + b)[0] == a[0] && (a + b)[1..] == a[1..] + b;
      EncodeAppend(a[1..], b);
    }
  }

  lemma EncodeSnoc(a: seq<Item>, it: Item)
    ensures EncodeItems(a + [it]) == EncodeItems(a) + EncodeItem(it)
  {
    EncodeAppend(a, [it]);
    assert [it][1..] == [];
    assert EncodeItems([it]) == EncodeItem(it) + [];
  }

  // ----- what `advance` can execute -----

  /** The interval bytes that `advance` reads: exactly one pair, in order. */
  predicate GoodBounds(b: seq<byte>) {
    |b| == 2 && b[0] <= b[1]
  }

  /** `advance` has a case for the opcode of this item, and its operands are in range. */
  predicate Decodable(it: Item) {
    match it.base
    case One(a) =>
      && (it.rep.Interval? ==> GoodBounds(it.rep.bounds))
      && (a.Class? ==> forall x <- a.members :: 0 <= x < 8 * BitmapWidth(a.kind))
    case Back(_) => !it.rep.Interval?
    case _ => it.rep == Once
  }

  /** The members a bitmap of `w` bytes at index `q` stands for. */
  ghost function MembersAt(code: seq<byte>, q: nat, w: nat): set<int>
    requires q + w <= |code|
  {
    set c | 0 <= c < 8 * w && IsThere(code, q, c)
  }

  /** The atom that opcode `op`, stripped of STAR and RNGE, has with its operands at `q`. */
  ghost function DecodeAtom(code: seq<byte>, op: int, q: nat): Option<(Atom, nat)> {
    if op == CCHR && q < |code| then Some((Chr(code[q]), q + 1))
    else if op == CDOT && q <= |code| then Some((Dot, q))
    else if op == CCL && q + 16 <= |code| then Some((Class(Plain, MembersAt(code, q, 16)), q + 16))
    else if op == NCCL && q + 16 <= |code| then Some((Class(Negated, MembersAt(code, q, 16)), q + 16))
    else if op == CXCL && q + 32 <= |code| then Some((Class(Wide, MembersAt(code, q, 32)), q + 32))
    else None
  }

  /** The item at `ep` and the index after it, if `advance` has a case for it. */
  ghost function DecodeItem(code: seq<byte>, ep: nat): (r: Option<(Item, nat)>)
    ensures r.Some? ==> ep < r.value.1
  {
    if |code| <= ep then None else
    var op, mark := code[ep], if ep + 1 < |code| then code[ep + 1] else NBRA;
    if op == CBRA then (if mark < NBRA then Some((Item(Bra(mark), Once), ep + 2)) else None)
    else if op == CKET then (if mark < NBRA then Some((Item(Ket(mark), Once), ep + 2)) else None)
    else if op == CBACK then (if mark < NBRA then Some((Item(Back(mark), Once), ep + 2)) else None)
    else if op == OrStar(CBACK) then (if mark < NBRA then Some((Item(Back(mark), Star), ep + 2)) else None)
    else if op == CDOL then Some((Item(Dol, Once), ep + 1))
    else
      match DecodeAtom(code, op - op % 4, ep + 1)
      case None => None
      case Some((a, q)) =>
        if op % 4 == 0 then Some((Item(One(a), Once), q))
        else if op % 4 == 1 then Some((Item(One(a), Star), q))
        else if op % 4 == 3 && q + 2 <= |code| && code[q] <= code[q + 1] then
          Some((Item(One(a), Interval(code[q..q + 2])), q + 2))
        else None
  }

  /** The items from `ep` up to the CCEOF mark, if every one can be executed. */
  ghost function Decode(code: seq<byte>, ep: nat): Option<seq<Item>>
    decreases |code| - ep
  {
    if |code| <= ep then None
    else if code[ep] == CCEOF then Some([])
    else
      match DecodeItem(code, ep)
      case None => None
      case Some((it, next)) =>
        match Decode(code, next)
        case None => None
        case Some(rest) => Some([it] + rest)
  }

  lemma DecodeEncodedAtom(code: seq<byte>, q: nat, a: Atom)
    requires StandsAt(code, q, Args(One(a)))
    requires a.Class? ==> forall x <- a.members :: 0 <= x < 8 * BitmapWidth(a.kind)
    ensures DecodeAtom(code, BaseOpcode(One(a)), q) == Some((a, q + |Args(One(a))|))
  {
    match a
    case Chr(c) => assert code[q] == Args(One(a))[0];
    case Dot =>
    case Class(k, m) =>
      var w := BitmapWidth(k);
      forall c | 0 <= c < 8 * w
        ensures IsThere(code, q, c) == (c in m)
      {
        IsThereBitmap(code, q, m, w, c);
      }
      assert MembersAt(code, q, w) == m;
  }

  /** STAR and RNGE sit in the two low bits, which the one-character opcodes leave clear. */
  lemma OpcodeParts(it: Item)
    requires it.base.One?
    ensures Opcode(it) - Opcode(it) % 4 == BaseOpcode(it.base)
    ensures Opcode(it) % 4 == if it.rep.Once? then 0 else if it.rep.Star? then 1 else 3
    ensures Opcode(it) !in {CBRA, CKET, CBACK, OrStar(CBACK), CDOL, CCEOF}
  {
  }

  lemma DecodeEncodedOne(code: seq<byte>, ep: nat, it: Item)
    requires Decodable(it) && it.base.One?
    requires StandsAt(code, ep, [Opcode(it)]) && StandsAt(code, ep + 1, Args(it.base))
    requires StandsAt(code, ep + 1 + |Args(it.base)|, Tail(it.rep))
    ensures DecodeItem(code, ep) == Some((it, ep + |EncodeItem(it)|))
  {
    var q := ep + 1 + |Args(it.base)|;
    assert code[ep] == [Opcode(it)][0];
    OpcodeParts(it);
    DecodeEncodedAtom(code, ep + 1, it.base.atom);
    if it.rep.Interval? {
      var b := it.rep.bounds;
      assert b[0] == code[q] && b[1] == code[q + 1];
      assert code[q..q + 2] == b;
    }
  }

  lemma DecodeEncodedItem(code: seq<byte>, ep: nat, it: Item)
    requires Decodable(it) && StandsAt(code, ep, EncodeItem(it))
    ensures code[ep] == Opcode(it) != CCEOF
    ensures DecodeItem(code, ep) == Some((it, ep + |EncodeItem(it)|))
  {
    var op, args := [Opcode(it)], Args(it.base);
    StandsSplit(code, ep, op + args, Tail(it.rep));
    StandsSplit(code, ep, op, args);
    assert code[ep] == op[0];
    if it.base.One? {
      DecodeEncodedOne(code, ep, it);
      OpcodeParts(it);
    } else if !it.base.Dol? {
      assert code[ep + 1] == args[0];
    }
  }

  lemma EncodeCons(it: Item, rest: seq<Item>)
    ensures Encode([it] + rest) == EncodeItem(it) + Encode(rest)
  {
    assert ([it] + rest)[1..] == rest;
  }

  /** Code that starts with an executable item decodes to that item and what the rest decodes to. */
  lemma DecodeCons(code: seq<byte>, ep: nat, it: Item, rest: seq<Item>)
    requires Decodable(it) && StandsAt(code, ep, EncodeItem(it))
    requires Decode(code, ep + |EncodeItem(it)|) == Some(rest)
    ensures Decode(code, ep) == Some([it] + rest)
  {
    DecodeEncodedItem(code, ep, it);
  }

  /** Decoding undoes encoding, wherever the code stands in the buffer. */
  lemma {:induction false} DecodeEncoded(code: seq<byte>, ep: nat, items: seq<Item>)
    requires forall it <- items :: Decodable(it)
    requires StandsAt(code, ep, Encode(items))
    ensures Decode(code, ep) == Some(items)
    decreases |items|
  {
    if items == [] {
      assert code[ep] == Encode(items)[0];
    } else {
      var it, rest := items[0], items[1..];
      assert [it] + rest == items;
      EncodeCons(it, rest);
      StandsSplit(code, ep, EncodeItem(it), Encode(rest));
      DecodeEncoded(code, ep + |EncodeItem(it)|, rest);
      DecodeCons(code, ep, it, rest);
    }
  }
}
