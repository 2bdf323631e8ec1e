/**
 `advance` and `step` of <regexp.h>: the interpreter of the byte code, with its global capture lists
 that are never restored, proved to agree with the pure matcher on the decoded items.

 The subject is a NUL-terminated string: `z` is its bytes with the NUL, so that every index into `z`
 that is proved in bounds is a read that does not go past the terminator.
 */
module RegexpMatch {
  import opened Bytes
  import opened RegexpCode
  import opened RegexpMeaning
  import opened RegexpGroups

  /** What `advance` returns: 1, 0, or nothing because it loops forever. */
  datatype Verdict = Yes | No | Never

  /** A subject string with its terminating NUL. */
  ghost predicate Terminated(z: seq<byte>) {
    0 < |z| && z[|z| - 1] == 0 && forall i :: 0 <= i < |z| - 1 ==> z[i] != 0
  }

  /** No item accepts NUL, so that the terminator stops every scan. */
  predicate NulSafe(it: Item) {
    it.base.One? ==> !Accepts(it.base.atom, 0)
  }

  ghost predicate AllNulSafe(items: seq<Item>) {
    forall it <- items :: NulSafe(it)
  }

  // ----- the tests that the source writes out, opcode by opcode -----

  /** The one-character cases: `q` is the operand's index, `op` the opcode without STAR and RNGE. */
  predicate TestOnce(code: seq<byte>, op: int, q: nat, c: byte)
    requires q + OperandSize(op) <= |code|
  {
    if op == CCHR then code[q] == c
    else if op == CDOT then c != 0
    else if op == CXCL then IsThere(code, q, c)
    else if op == NCCL then (c < 128 && IsThere(code, q, c)) != true
    else if op == CCL then (c < 128 && IsThere(code, q, c)) != false
    else false
  }

  /** The condition under which the interval cases give up on a character. */
  predicate RangeRejects(code: seq<byte>, op: int, q: nat, c: byte)
    requires q + OperandSize(op) <= |code|
  {
    if op == CCHR then c != code[q]
    else if op == CDOT then c == 0
    else if op == CXCL then !IsThere(code, q, c)
    else if op == NCCL then (128 <= c || !IsThere(code, q, c)) != true
    else if op == CCL then (128 <= c || !IsThere(code, q, c)) != false
    else true
  }

  function OperandSize(op: int): nat {
    if op == CCHR then 1 else if op == CXCL then 32 else if op == CCL || op == NCCL then 16 else 0
  }

  /** Both forms of the test agree with the set that the atom stands for. */
  lemma TestsAgree(code: seq<byte>, op: int, q: nat, c: byte)
    requires DecodeAtom(code, op, q).Some?
    ensures q + OperandSize(op) <= |code| && DecodeAtom(code, op, q).value.1 == q + OperandSize(op)
    ensures TestOnce(code, op, q, c) == Accepts(DecodeAtom(code, op, q).value.0, c)
    ensures RangeRejects(code, op, q, c) == !Accepts(DecodeAtom(code, op, q).value.0, c)
  {
  }

  /** `code` from `ep` on is executable, and stands for `items`. */
  ghost predicate Ready(z: seq<byte>, lp: int, code: seq<byte>, ep: nat, items: seq<Item>, open: set<group>, closed: set<group>) {
    && Terminated(z) && 0 <= lp < |z|
    && Decode(code, ep) == Some(items) && AllNulSafe(items)
    && open !! closed && Scoped(items, open, closed)
  }

  /** What `advance` returned, with `loc2` and the capture lists, is what the pure matcher gives. */
  ghost predicate Agrees(v: Verdict, o: Outcome, loc2: int, env: Captures) {
    match v
    case Yes => o == Matched(loc2, env)
    case No => o == NoMatch
    case Never => o == Hangs
  }

  /** The code at `ep` is its first item followed by the code of the others. */
  lemma DecodeHead(code: seq<byte>, ep: nat, items: seq<Item>) returns (next: nat)
    requires Decode(code, ep) == Some(items)
    ensures ep < |code| && (code[ep] == CCEOF <==> items == [])
    ensures items != [] ==> DecodeItem(code, ep) == Some((items[0], next)) && Decode(code, next) == Some(items[1..]) && ep < next
  {
    next := 0;
    if code[ep] != CCEOF {
      next := DecodeItem(code, ep).value.1;
    }
  }

  /** A one-character item: its opcode, its operand, and its bounds if it has some. */
  lemma DecodeOne(code: seq<byte>, ep: nat, it: Item, next: nat)
    requires DecodeItem(code, ep) == Some((it, next)) && it.base.One?
    ensures ep < |code|
    ensures var op, q := code[ep], ep + 1 + OperandSize(code[ep] - code[ep] % 4);
      && DecodeAtom(code, op - op % 4, ep + 1) == Some((it.base.atom, q))
      && (if op % 4 == 0 then it.rep == Once && next == q
          else if op % 4 == 1 then it.rep == Star && next == q
          else op % 4 == 3 && q + 2 <= |code| && it.rep == Interval(code[q..q + 2]) && code[q] <= code[q + 1] && next == q + 2)
      && op !in {CBRA, CKET, CBACK, OrStar(CBACK), CDOL, CCEOF}
  {
    TestsAgree(code, code[ep] - code[ep] % 4, ep + 1, 0);
  }

  /** The opcodes with STAR or RNGE set. */
  predicate IsRepeat(op: byte) {
    op == OrStar(CBACK) || (op !in {CBRA, CKET, CBACK, CDOL, CCEOF} && op % 4 != 0)
  }

  lemma RepeatOpcode(code: seq<byte>, ep: nat, it: Item, next: nat)
    requires DecodeItem(code, ep) == Some((it, next))
    ensures ep < |code| && (IsRepeat(code[ep]) <==> it.rep != Once)
  {
    if it.base.One? {
      DecodeOne(code, ep, it, next);
    }
  }

  /** One item on, the groups are still in order. */
  lemma ScopeAfter(items: seq<Item>, env: Captures, i: int, j: int, open: set<group>, closed: set<group>)
    requires items != [] && open !! closed && Scoped(items, open, closed) && InOrder(env, i, open, closed) && 0 <= i <= j
    ensures var it := items[0];
      && OpenAfter(it, open) !! ClosedAfter(it, closed)
      && Scoped(items[1..], OpenAfter(it, open), ClosedAfter(it, closed))
      && InOrder(After(it, env, i), j, OpenAfter(it, open), ClosedAfter(it, closed))
  {
  }

  /** Positions in use are in order later on too, when the slots in use have not changed. */
  lemma OrderKept(items: seq<Item>, a: Captures, b: Captures, i: int, j: int, open: set<group>, closed: set<group>)
    requires open !! closed && Scoped(items, open, closed) && AgreeOutside(items, a, b)
    requires InOrder(a, i, open, closed) && i <= j
    ensures InOrder(b, j, open, closed)
  {
    ScopedWrites(items, open, closed);
  }

  class Matcher {
    const braslist: array<int>
    const braelist: array<int>
    var low: int
    var size: int
    var loc1: int
    var loc2: int
    var locs: int
    var circf: bool

    ghost predicate Valid()
      reads this
    {
      braslist.Length == NBRA && braelist.Length == NBRA && braslist != braelist
    }

    ghost function Env(): Captures
      requires Valid()
      reads this, braslist, braelist
    {
      Captures(braslist[..], braelist[..])
    }

    constructor ()
      ensures Valid()
    {
      braslist, braelist := new int[NBRA], new int[NBRA];
      low, size, loc1, loc2, locs, circf := 0, 0, 0, 0, -1, false;
    }

    /** `getrnge`: reads the two bound bytes at `q`. In order, they are the limits that the interval
        stands for, on any subject. */
    method GetRange(code: seq<byte>, q: nat, ghost s: seq<byte>)
      requires q + 2 <= |code|
      modifies `low, `size
      ensures low == code[q] && size == (if code[q + 1] == 255 then 20000 else code[q + 1] - low)
      ensures GoodBounds(code[q..q + 2]) ==> (low, size) == Limits(Interval(code[q..q + 2]), s)
    {
      low := code[q];
      size := if code[q + 1] == 255 then 20000 else code[q + 1] - low;
    }

    /** `while (low--)`: the characters that an interval demands. */
    method ScanLow(z: seq<byte>, lp0: nat, code: seq<byte>, op: int, q: nat, ghost a: Atom) returns (ok: bool, lp: nat)
      requires Terminated(z) && lp0 < |z| && 0 <= low
      requires DecodeAtom(code, op, q) == Some((a, q + OperandSize(op))) && !Accepts(a, 0)
      modifies `low
      ensures ok <==> Scan(a, Subject(z), lp0, old(low)) == lp0 + old(low)
      ensures ok ==> lp == lp0 + old(low) < |z|
    {
      ghost var s := Subject(z);
      lp := lp0;
      while true
        invariant lp0 <= lp <= |s| && 0 <= low && lp + low == lp0 + old(low)
        invariant Scan(a, s, lp0, old(low)) == Scan(a, s, lp, low)
        decreases low
      {
        low := low - 1;
        if low == -1 {
          return true, lp;
        }
        TestsAgree(code, op, q, z[lp]);
        if RangeRejects(code, op, q, z[lp]) {
          return false, lp + 1;
        }
        lp := lp + 1;
      }
    }

    /** `while (size--)`: as many more characters as an interval allows. Ends one past the last candidate. */
    method ScanSize(z: seq<byte>, lp0: nat, code: seq<byte>, op: int, q: nat, ghost a: Atom) returns (lp: nat)
      requires Terminated(z) && lp0 < |z| && 0 <= size
      requires DecodeAtom(code, op, q) == Some((a, q + OperandSize(op))) && !Accepts(a, 0)
      modifies `size
      ensures lp == Scan(a, Subject(z), lp0, old(size)) + 1
    {
      ghost var s := Subject(z);
      lp := lp0;
      while true
        invariant lp0 <= lp <= |s| && 0 <= size && lp + size == lp0 + old(size)
        invariant Scan(a, s, lp0, old(size)) == Scan(a, s, lp, size)
        decreases size
      {
        size := size - 1;
        if size == -1 {
          break;
        }
        TestsAgree(code, op, q, z[lp]);
        lp := lp + 1;
        if RangeRejects(code, op, q, z[lp - 1]) {
          break;
        }
      }
      if size < 0 {
        lp := lp + 1;
      }
    }
  
    /** The scans of an interval: the least count from `lp` to `curlp`, then up to one before `last`. */
    method ScanRange(z: seq<byte>, lp: nat, code: seq<byte>, op: int, q: nat, ghost a: Atom, ghost r: Repeat)
      returns (ok: bool, curlp: nat, last: nat)
      requires Terminated(z) && lp < |z|
      requires DecodeAtom(code, op, q) == Some((a, q + OperandSize(op))) && !Accepts(a, 0)
      requires q + OperandSize(op) + 2 <= |code| && code[q + OperandSize(op)] <= code[q + OperandSize(op) + 1]
      requires r == Interval(code[q + OperandSize(op)..q + OperandSize(op) + 2])
      modifies `low, `size
      ensures ok <==> Scan(a, Subject(z), lp, Limits(r, Subject(z)).0) == lp + Limits(r, Subject(z)).0
      ensures ok ==> curlp == lp + Limits(r, Subject(z)).0 < |z|
      ensures ok ==> last == Scan(a, Subject(z), curlp, Limits(r, Subject(z)).1) + 1
    {
      GetRange(code, q + OperandSize(op), Subject(z));
      ok, curlp := ScanLow(z, lp, code, op, q, a);
      last := 0;
      if ok {
        last := ScanSize(z, curlp, code, op, q, a);
      }
    }

    /** The case `CBACK`. */
    method SingleBack(z: seq<byte>, lp: nat, g: group, ghost items: seq<Item>, ghost open: set<group>, ghost closed: set<group>)
      returns (same: bool, lp': nat)
      requires Valid() && Terminated(z) && lp < |z| && InOrder(Env(), lp, open, closed)
      requires items != [] && items[0] == Item(Back(g), Once) && g in closed
      ensures !same ==> Run(items, Subject(z), lp, Env(), locs) == NoMatch
      ensures same ==> lp <= lp' < |z|
      ensures same ==> Run(items, Subject(z), lp, Env(), locs) == Run(items[1..], Subject(z), lp', Env(), locs)
    {
      var bbeg := braslist[g];
      var ct := braelist[g] - bbeg;
      assert Env().starts[g] == bbeg && Env().ends[g] == bbeg + ct;
      same := Ecmp(z, bbeg, lp, ct);
      lp' := lp + ct;
    }

    /** The cases that do not repeat: they move on, or fail. */
    method Single(z: seq<byte>, lp: nat, code: seq<byte>, ep: nat, ghost items: seq<Item>, ghost open: set<group>,
                  ghost closed: set<group>)
      returns (ok: bool, lp': nat, ep': nat)
      requires Valid() && Ready(z, lp, code, ep, items, open, closed) && InOrder(Env(), lp, open, closed)
      requires items != [] && items[0].rep == Once
      modifies braslist, braelist
      ensures !ok ==> Env() == old(Env()) && Run(items, Subject(z), lp, Env(), locs) == NoMatch
      ensures ok ==> lp <= lp' < |z| && ep < ep' && Decode(code, ep') == Some(items[1..])
      ensures ok ==> Env() == After(items[0], old(Env()), lp)
      ensures ok ==> Run(items, Subject(z), lp, old(Env()), locs) == Run(items[1..], Subject(z), lp', Env(), locs)
    {
      ghost var next := DecodeHead(code, ep, items);
      ghost var s, it, env := Subject(z), items[0], Env();
      var op := code[ep];
      if op == CBRA {
        braslist[code[ep + 1]] := lp;
        assert Env().starts == env.starts[it.base.n := lp];
        return true, lp, ep + 2;
      } else if op == CKET {
        braelist[code[ep + 1]] := lp;
        assert Env().ends == env.ends[it.base.n := lp];
        return true, lp, ep + 2;
      } else if op == CDOL {
        return z[lp] == 0, lp, ep + 1;
      } else if op == CBACK {
        ok, lp' := SingleBack(z, lp, code[ep + 1], items, open, closed);
        return ok, lp', ep + 2;
      } else {
        DecodeOne(code, ep, it, next);
        TestsAgree(code, op, ep + 1, z[lp]);
        assert NulSafe(it) by { assert it in items; }
        return TestOnce(code, op, ep + 1, z[lp]), lp + 1, ep + 1 + OperandSize(op);
      }
    }
  
    /** What a call leaves alone whatever it returns. */
    twostate predicate Kept(items: seq<Item>)
      requires old(Valid()) && Valid()
      reads this, braslist, braelist
    {
      locs == old(locs) && circf == old(circf) && loc1 == old(loc1) && AgreeOutside(items, old(Env()), Env())
    }

    /** One candidate: the outcome is that of the captures `env` before the first candidate, although earlier ones have
        overwritten the lists since. */
    method TryRest(z: seq<byte>, curlp: nat, lp: nat, code: seq<byte>, ep: nat, ghost env: Captures, ghost rest: seq<Item>,
                   ghost open: set<group>, ghost closed: set<group>)
      returns (v: Verdict)
      requires Valid() && Ready(z, curlp, code, ep, rest, open, closed) && InOrder(env, curlp, open, closed)
      requires curlp <= lp < |z| && AgreeOutside(rest, env, Env())
      modifies this, braslist, braelist
      ensures locs == old(locs) && circf == old(circf) && loc1 == old(loc1) && AgreeOutside(rest, env, Env())
      ensures Agrees(v, Run(rest, Subject(z), lp, env, locs), loc2, Env())
      decreases |code| - ep, 3
    {
      OrderKept(rest, env, Env(), curlp, lp, open, closed);
      StaleIgnored(rest, Subject(z), lp, env, Env(), locs, open, closed);
      v := Advance(z, lp, code, ep, rest, open, closed);
    }

    /** The label `star`: tries the rest of the code at every candidate, longest first. */
    method Candidates(z: seq<byte>, curlp: nat, lp0: nat, code: seq<byte>, ep: nat, ghost rest: seq<Item>,
                      ghost open: set<group>, ghost closed: set<group>)
      returns (v: Verdict)
      requires Valid() && Ready(z, curlp, code, ep, rest, open, closed) && InOrder(Env(), curlp, open, closed)
      requires curlp < lp0 <= |z|
      modifies this, braslist, braelist
      ensures Kept(rest)
      ensures var p := Pick(rest, Subject(z), curlp, lp0 - 1, 1, old(Env()), locs, locs);
              Agrees(v, Resume(rest, Subject(z), p, old(Env()), locs), loc2, Env())
      decreases |code| - ep, 4
    {
      ghost var s, env, chosen := Subject(z), Env(), Pick(rest, Subject(z), curlp, lp0 - 1, 1, Env(), locs, locs);
      var lp := lp0;
      while true
        invariant curlp < lp <= lp0
        invariant chosen == Pick(rest, s, curlp, lp - 1, 1, env, locs, locs)
        invariant Kept(rest)
        decreases lp
      {
        lp := lp - 1;
        if lp == locs {
          return No;
        }
        v := TryRest(z, curlp, lp, code, ep, env, rest, open, closed);
        if v != No {
          return;
        }
        if lp <= curlp {
          return No;
        }
      }
    }

    /** The loop of a starred back reference. */
    method Copies(z: seq<byte>, curlp: nat, lp0: nat, ct: nat, code: seq<byte>, ep: nat, ghost rest: seq<Item>,
                  ghost open: set<group>, ghost closed: set<group>)
      returns (v: Verdict)
      requires Valid() && Ready(z, curlp, code, ep, rest, open, closed) && InOrder(Env(), curlp, open, closed)
      requires curlp <= lp0 < |z| && 0 < ct
      modifies this, braslist, braelist
      ensures Kept(rest)
      ensures var p := Pick(rest, Subject(z), curlp, lp0, ct, old(Env()), -1, locs);
              Agrees(v, Resume(rest, Subject(z), p, old(Env()), locs), loc2, Env())
      decreases |code| - ep, 4
    {
      ghost var s, env, chosen := Subject(z), Env(), Pick(rest, Subject(z), curlp, lp0, ct, Env(), -1, locs);
      var lp: int := lp0;
      while curlp <= lp
        invariant lp <= lp0
        invariant chosen == Pick(rest, s, curlp, lp, ct, env, -1, locs)
        invariant Kept(rest)
        decreases lp - curlp
      {
        v := TryRest(z, curlp, lp, code, ep, env, rest, open, closed);
        if v != No {
          return;
        }
        lp := lp - ct;
      }
      return No;
    }

    /** The case `CBACK | STAR`. With an empty group the source never leaves its first loop. */
    method RepeatedBack(z: seq<byte>, lp: nat, code: seq<byte>, ep: nat, ghost items: seq<Item>,
                        ghost open: set<group>, ghost closed: set<group>)
      returns (v: Verdict)
      requires Valid() && Ready(z, lp, code, ep, items, open, closed) && InOrder(Env(), lp, open, closed)
      requires items != [] && items[0].rep != Once && items[0].base.Back?
      modifies this, braslist, braelist
      ensures Kept(items)
      ensures Agrees(v, Run(items, Subject(z), lp, old(Env()), locs), loc2, Env())
      decreases |code| - ep, 0
    {
      ghost var next := DecodeHead(code, ep, items);
      var bbeg := braslist[code[ep + 1]];
      var ct := braelist[code[ep + 1]] - bbeg;
      assert Text(Subject(z), Env(), items[0].base.n) == Subject(z)[bbeg..bbeg + ct];
      if ct == 0 {
        return Never;
      }
      var last := ScanBack(z, bbeg, ct, lp);
      v := Copies(z, lp, last, ct, code, ep + 2, items[1..], open, closed);
    }

    /** The cases with STAR. */
    method RepeatedStar(z: seq<byte>, lp: nat, code: seq<byte>, base: int, q: nat, ghost a: Atom, ghost rest: seq<Item>,
                        ghost open: set<group>, ghost closed: set<group>)
      returns (v: Verdict)
      requires Valid() && Ready(z, lp, code, q + OperandSize(base), rest, open, closed) && InOrder(Env(), lp, open, closed)
      requires DecodeAtom(code, base, q) == Some((a, q + OperandSize(base))) && !Accepts(a, 0)
      modifies this, braslist, braelist
      ensures Kept(rest)
      ensures Agrees(v, Run([Item(One(a), Star)] + rest, Subject(z), lp, old(Env()), locs), loc2, Env())
      decreases |code| - (q + OperandSize(base)), 5
    {
      RunRepeatedCons(a, Star, rest, Subject(z), lp, Env(), locs, lp);
      var last := ScanStar(z, lp, code, base, q, a);
      v := Candidates(z, lp, last, code, q + OperandSize(base), rest, open, closed);
    }

    /** The cases with RNGE. */
    method RepeatedRange(z: seq<byte>, lp: nat, code: seq<byte>, base: int, q: nat, ghost a: Atom, ghost r: Repeat,
                         ghost rest: seq<Item>, ghost open: set<group>, ghost closed: set<group>)
      returns (v: Verdict)
      requires Valid() && Ready(z, lp, code, q + OperandSize(base) + 2, rest, open, closed) && InOrder(Env(), lp, open, closed)
      requires DecodeAtom(code, base, q) == Some((a, q + OperandSize(base))) && !Accepts(a, 0)
      requires q + OperandSize(base) + 2 <= |code| && code[q + OperandSize(base)] <= code[q + OperandSize(base) + 1]
      requires r == Interval(code[q + OperandSize(base)..q + OperandSize(base) + 2])
      modifies this, braslist, braelist
      ensures Kept(rest)
      ensures Agrees(v, Run([Item(One(a), r)] + rest, Subject(z), lp, old(Env()), locs), loc2, Env())
      decreases |code| - (q + OperandSize(base) + 2), 5
    {
      ghost var s, env, whole := Subject(z), Env(), Run([Item(One(a), r)] + rest, Subject(z), lp, Env(), locs);
      RunRepeatedCons(a, r, rest, s, lp, env, locs, Scan(a, s, lp, Limits(r, s).0));
      var ok, curlp, last := ScanRange(z, lp, code, base, q, a, r);
      assert Env() == env;
      if !ok {
        assert whole == NoMatch;
        return No;
      }
      assert InOrder(env, curlp, open, closed);
      ghost var p := Pick(rest, s, curlp, last - 1, 1, env, locs, locs);
      assert whole == Resume(rest, s, p, env, locs);
      v := Candidates(z, curlp, last, code, q + OperandSize(base) + 2, rest, open, closed);
    }

    /** The cases that repeat a character or a back reference. */
    method Repeated(z: seq<byte>, lp: nat, code: seq<byte>, ep: nat, ghost items: seq<Item>, ghost open: set<group>,
                    ghost closed: set<group>)
      returns (v: Verdict)
      requires Valid() && Ready(z, lp, code, ep, items, open, closed) && InOrder(Env(), lp, open, closed)
      requires items != [] && items[0].rep != Once
      modifies this, braslist, braelist
      ensures Kept(items)
      ensures Agrees(v, Run(items, Subject(z), lp, old(Env()), locs), loc2, Env())
      decreases |code| - ep, 1
    {
      ghost var next := DecodeHead(code, ep, items);
      ghost var it, rest := items[0], items[1..];
      assert items == [it] + rest;
      if code[ep] == OrStar(CBACK) {
        if it.base.One? {
          DecodeOne(code, ep, it, next);
        }
        v := RepeatedBack(z, lp, code, ep, items, open, closed);
      } else {
        DecodeOne(code, ep, it, next);
        assert NulSafe(it) by { assert it in items; }
        var base := code[ep] - code[ep] % 4;
        if code[ep] % 4 == 1 {
          v := RepeatedStar(z, lp, code, base, ep + 1, it.base.atom, rest, open, closed);
        } else {
          v := RepeatedRange(z, lp, code, base, ep + 1, it.base.atom, it.rep, rest, open, closed);
        }
      }
    }

    /** `advance(lp, ep)`. */
    method Advance(z: seq<byte>, lp0: nat, code: seq<byte>, ep0: nat, ghost items: seq<Item>, ghost open: set<group>,
                   ghost closed: set<group>)
      returns (v: Verdict)
      requires Valid() && Ready(z, lp0, code, ep0, items, open, closed) && InOrder(Env(), lp0, open, closed)
      modifies this, braslist, braelist
      ensures Kept(items)
      ensures Agrees(v, Run(items, Subject(z), lp0, old(Env()), locs), loc2, Env())
      decreases |code| - ep0, 2
    {
      ghost var whole, s := Run(items, Subject(z), lp0, Env(), locs), Subject(z);
      ghost var cur, o, c := items, open, closed;
      var lp, ep := lp0, ep0;
      while true
        invariant ep0 <= ep && Ready(z, lp, code, ep, cur, o, c) && InOrder(Env(), lp, o, c)
        invariant Opens(cur) <= Opens(items) && Closes(cur) <= Closes(items)
        invariant Kept(items)
        invariant whole == Run(cur, s, lp, Env(), locs)
        decreases |code| - ep
      {
        ghost var next := DecodeHead(code, ep, cur);
        if code[ep] == CCEOF {
          loc2 := lp;
          return Yes;
        }
        RepeatOpcode(code, ep, cur[0], next);
        if IsRepeat(code[ep]) {
          v := Repeated(z, lp, code, ep, cur, o, c);
          return;
        }
        var ok;
        ghost var was, env := lp, Env();
        ok, lp, ep := Single(z, lp, code, ep, cur, o, c);
        if !ok {
          return No;
        }
        ScopeAfter(cur, env, was, lp, o, c);
        o, c := OpenAfter(cur[0], o), ClosedAfter(cur[0], c);
        cur := cur[1..];
      }
    }
  
    /** The verdict on a search from `p1`: the match at `loc1` is the leftmost one, or there is none at all,
        or the first position that does not fail is one where `advance` never returns. */
    twostate predicate Leftmost(v: Verdict, z: seq<byte>, p1: nat, items: seq<Item>)
      requires old(Valid()) && Valid() && 0 < |z|
      reads this, braslist, braelist
    {
      && locs == old(locs) && circf == old(circf)
      && match v
         case Yes =>
           && p1 <= loc1 < |z|
           && Run(items, Subject(z), loc1, old(Env()), locs) == Matched(loc2, Env())
           && NoneBefore(items, Subject(z), p1, loc1, old(Env()), locs)
         case No => NoneBefore(items, Subject(z), p1, |z|, old(Env()), locs)
         case Never =>
           exists q: nat :: p1 <= q < |z|
             && Run(items, Subject(z), q, old(Env()), locs) == Hangs
             && NoneBefore(items, Subject(z), p1, q, old(Env()), locs)
    }

    /** One attempt of `step`, after attempts at `p1` up to `p` that failed. */
    method Attempt(z: seq<byte>, p: nat, code: seq<byte>, ghost items: seq<Item>, ghost env: Captures) returns (v: Verdict)
      requires Valid() && Ready(z, p, code, 0, items, {}, {}) && AgreeOutside(items, env, Env())
      modifies this, braslist, braelist
      ensures locs == old(locs) && circf == old(circf) && AgreeOutside(items, env, Env())
      ensures Agrees(v, Run(items, Subject(z), p, env, locs), loc2, Env())
      ensures v == Yes ==> loc1 == p
    {
      StaleIgnored(items, Subject(z), p, env, Env(), locs, {}, {});
      v := Advance(z, p, code, 0, items, {}, {});
      if v == Yes {
        loc1 := p;
      }
    }

    /** The regular algorithm of `step`. */
    method StepRegular(z: seq<byte>, p1: nat, code: seq<byte>, ghost items: seq<Item>) returns (v: Verdict)
      requires Valid() && Ready(z, p1, code, 0, items, {}, {})
      modifies this, braslist, braelist
      ensures Leftmost(v, z, p1, items)
    {
      ghost var env := Env();
      var p := p1;
      while true
        invariant p1 <= p < |z| && locs == old(locs) && circf == old(circf)
        invariant AgreeOutside(items, env, Env())
        invariant NoneBefore(items, Subject(z), p1, p, env, locs)
        decreases |z| - p
      {
        v := Attempt(z, p, code, items, env);
        if v != No || z[p] == 0 {
          return;
        }
        p := p + 1;
      }
    }

    /** The fast path of `step`: only positions that hold the pattern's first character are tried. */
    method StepFast(z: seq<byte>, p1: nat, code: seq<byte>, ghost items: seq<Item>) returns (v: Verdict)
      requires Valid() && Ready(z, p1, code, 0, items, {}, {})
      requires code[0] == CCHR
      modifies this, braslist, braelist
      ensures Leftmost(v, z, p1, items)
    {
      ghost var env := Env();
      ghost var next := DecodeHead(code, 0, items);
      var c := code[1];
      assert items[0] == Item(One(Chr(c)), Once);
      var p := p1;
      while true
        invariant p1 <= p < |z| && locs == old(locs) && circf == old(circf)
        invariant AgreeOutside(items, env, Env())
        invariant NoneBefore(items, Subject(z), p1, p, env, locs)
        decreases |z| - p
      {
        v := No;
        if z[p] == c {
          v := Attempt(z, p, code, items, env);
        }
        if v != No || z[p] == 0 {
          return;
        }
        p := p + 1;
      }
    }

    /** `step(p1, p2)`, with `code` at `p2`. */
    method Step(z: seq<byte>, p1: nat, code: seq<byte>, ghost items: seq<Item>) returns (v: Verdict)
      requires Valid() && Ready(z, p1, code, 0, items, {}, {})
      modifies this, braslist, braelist
      ensures old(circf) ==> loc1 == p1 && Agrees(v, Run(items, Subject(z), p1, old(Env()), locs), loc2, Env())
      ensures !old(circf) ==> Leftmost(v, z, p1, items)
      ensures locs == old(locs) && circf == old(circf)
    {
      if circf {
        loc1 := p1;
        v := Advance(z, p1, code, 0, items, {}, {});
        return;
      }
      ghost var next := DecodeHead(code, 0, items);
      if code[0] == CCHR {
        v := StepFast(z, p1, code, items);
      } else {
        v := StepRegular(z, p1, code, items);
      }
    }
  }

  /** No match starts in `[p, q)`. */
  ghost predicate NoneBefore(items: seq<Item>, s: seq<byte>, p: nat, q: int, env: Captures, locs: int) {
    forall k: nat :: p <= k < q && k <= |s| ==> Run(items, s, k, env, locs) == NoMatch
  }

  /** The subject without its terminator. */
  function Subject(z: seq<byte>): seq<byte>
    requires 0 < |z|
  {
    z[..|z| - 1]
  }

  /** The scan of a starred character: ends one past the last candidate. */
  method ScanStar(z: seq<byte>, lp0: nat, code: seq<byte>, op: int, q: nat, ghost a: Atom) returns (lp: nat)
    requires Terminated(z) && lp0 < |z|
    requires DecodeAtom(code, op, q) == Some((a, q + OperandSize(op))) && !Accepts(a, 0)
    ensures lp == Scan(a, Subject(z), lp0, |Subject(z)|) + 1
  {
    ghost var s := Subject(z);
    lp := lp0;
    TestsAgree(code, op, q, z[lp]);
    while TestOnce(code, op, q, z[lp])
      invariant lp0 <= lp <= |s|
      invariant Scan(a, s, lp0, |s|) == Scan(a, s, lp, |s| - (lp - lp0))
      invariant TestOnce(code, op, q, z[lp]) == Accepts(a, z[lp])
      decreases |s| - lp
    {
      lp := lp + 1;
      TestsAgree(code, op, q, z[lp]);
    }
    lp := lp + 1;
  }

  /** A character in which two stretches differ. */
  lemma StretchesDiffer(s: seq<byte>, a: nat, b: nat, n: nat, k: nat)
    requires a + n <= |s| && b + n <= |s| && k < n && s[a + k] != s[b + k]
    ensures s[b..b + n] != s[a..a + n]
  {
    assert s[b..b + n][k] == s[b + k];
    assert s[a..a + n][k] == s[a + k];
  }

  /** `ecmp(z + a, z + b, n)`: `strncmp` stops at the first difference or at a NUL. */
  method Ecmp(z: seq<byte>, a: nat, b: nat, n: nat) returns (same: bool)
    requires Terminated(z) && a + n < |z| && b < |z|
    ensures same <==> b + n <= |Subject(z)| && Subject(z)[b..b + n] == Subject(z)[a..a + n]
  {
    ghost var s := Subject(z);
    var k := 0;
    while k < n && z[a + k] == z[b + k] && z[a + k] != 0
      invariant k <= n && b + k <= |s|
      invariant s[b..b + k] == s[a..a + k]
      decreases n - k
    {
      assert s[b..b + k + 1] == s[b..b + k] + [s[b + k]];
      assert s[a..a + k + 1] == s[a..a + k] + [s[a + k]];
      k := k + 1;
    }
    if k < n && b + n <= |s| {
      StretchesDiffer(s, a, b, n, k);
    }
    return k == n || z[a + k] == z[b + k];
  }

  /** The scan of a starred back reference. */
  method ScanBack(z: seq<byte>, bbeg: nat, ct: nat, lp0: nat) returns (lp: nat)
    requires Terminated(z) && bbeg + ct < |z| && lp0 < |z| && 0 < ct
    ensures lp == ScanCopies(Subject(z)[bbeg..bbeg + ct], Subject(z), lp0)
  {
    ghost var s, w := Subject(z), Subject(z)[bbeg..bbeg + ct];
    lp := lp0;
    var same := Ecmp(z, bbeg, lp, ct);
    while same
      invariant lp0 <= lp <= |s|
      invariant ScanCopies(w, s, lp0) == ScanCopies(w, s, lp)
      invariant same <==> lp + ct <= |s| && s[lp..lp + ct] == w
      decreases |s| - lp
    {
      lp := lp + ct;
      same := Ecmp(z, bbeg, lp, ct);
    }
  }
}
