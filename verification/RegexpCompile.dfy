/**
 `compile` of <regexp.h>: one pass over the pattern that writes byte code, and goes back to patch
 the last opcode when a `*` or `\{` follows. It is proved to leave exactly the encoding of the
 pattern's items, or the error the parse meets first, or error 50 exactly when the buffer is too small.
 */
module RegexpCompile {
  import opened Bytes
  import opened Numbers
  import opened RegexpCode
  import opened RegexpPattern
  import opened RegexpRoom
  import opened RegexpBracket

  /** The result of a parse, with `pre` put before its items. */
  ghost function Prefixed(pre: seq<Item>, r: Result<Parsed>): Result<Parsed> {
    match r
    case Ok(p) => Ok(p.(items := pre + p.items))
    case Err(e) => r
  }

  /** The digits of one bound, from the first one on. */
  method ReadNumber(t: seq<byte>, pos0: nat) returns (r: Result<(int, nat)>)
    ensures r == Number(t, pos0, 0)
  {
    var i, pos := 0, pos0;
    while true
      invariant pos0 <= pos
      invariant Number(t, pos0, 0) == Number(t, pos, i)
      decreases |t| - pos
    {
      if |t| <= pos {
        return Err(RAN_OFF);
      }
      var c := t[pos];
      if IsDigit(c) {
        i := Wrap32(10 * i + c - DIGIT0);
      } else {
        return Err(16);
      }
      pos := pos + 1;
      if |t| <= pos {
        return Err(RAN_OFF);
      }
      if t[pos] == BACKSLASH || t[pos] == COMMA {
        return Ok((i, pos));
      }
    }
  }

  /** One bound, checked and cut to the byte that is stored. */
  method ReadBound(t: seq<byte>, pos: nat) returns (r: Result<(byte, nat)>)
    ensures r == Bound(t, pos)
  {
    var n := ReadNumber(t, pos);
    if n.Err? {
      return Err(n.code);
    }
    if 255 <= n.value.0 {
      return Err(11);
    }
    return Ok((n.value.0 % 256, n.value.1));
  }

  /** The interval case: reads `m\}`, `m,\}` or `m,n\}` and writes two bytes. */
  method CompileBounds(t: seq<byte>, pos0: nat, buf: array<byte>, ep: nat) returns (r: Result<(nat, nat)>)
    requires ep + 2 <= buf.Length
    modifies buf
    ensures match Bounds(t, pos0)
            case Ok((b, next)) => r == Ok((next, ep + 2)) && Written(buf, ep, b)
            case Err(e) => r == Err(e)
    ensures OnlyChanged(buf, ep, ep + 2)
  {
    var n := ReadBound(t, pos0);
    if n.Err? {
      return Err(n.code);
    }
    var cflg, pos := false, n.value.1;
    buf[ep] := n.value.0;
    if t[pos] == COMMA {
      cflg := true;
      pos := pos + 1;
      if |t| <= pos {
        return Err(RAN_OFF);
      }
      if t[pos] == BACKSLASH {
        buf[ep + 1] := 255;
      } else {
        n := ReadBound(t, pos);
        if n.Err? {
          return Err(n.code);
        }
        pos := n.value.1;
        buf[ep + 1] := n.value.0;
        if t[pos] == COMMA {
          return Err(44);
        }
      }
    }
    pos := pos + 1;
    if |t| <= pos {
      return Err(RAN_OFF);
    }
    if t[pos] != RBRACE {
      return Err(45);
    }
    if !cflg {
      buf[ep + 1] := n.value.0;
    } else if buf[ep + 1] < buf[ep] {
      return Err(46);
    }
    assert buf[ep..ep + 2] == [buf[ep], buf[ep + 1]];
    return Ok((pos + 1, ep + 2));
  }

  /** `*ep++ = op`. */
  method Emit(buf: array<byte>, ep: nat, op: byte)
    requires ep < buf.Length
    modifies buf
    ensures Written(buf, ep, [op]) && OnlyChanged(buf, ep, ep + 1)
  {
    buf[ep] := op;
  }

  /** `*ep++ = op; *ep++ = arg`. */
  method EmitPair(buf: array<byte>, ep: nat, op: byte, arg: byte)
    requires ep + 1 < buf.Length
    modifies buf
    ensures Written(buf, ep, [op, arg]) && OnlyChanged(buf, ep, ep + 2)
  {
    buf[ep], buf[ep + 1] := op, arg;
  }

  /** The code of every item but a bracket expression is one or two bytes. */
  lemma ShortCode(b: Base)
    requires !(b.One? && b.atom.Class?)
    ensures EncodeItem(Item(b, Once)) ==
            match b
            case One(Chr(c)) => [CCHR, c]
            case One(Dot) => [CDOT]
            case Bra(n) => [CBRA, n]
            case Ket(n) => [CKET, n]
            case Back(n) => [CBACK, n]
            case Dol => [CDOL]
  {
  }

  /** The cases that start a new item. */
  method CompilePrimary(t: seq<byte>, pos: nat, buf: array<byte>, ep: nat, endbuf: nat, eof: byte, g: Groups)
    returns (r: Result<(nat, nat, Groups)>)
    requires ep < endbuf < buf.Length
    modifies buf
    ensures endbuf < ep + TurnRoom(t, pos) ==> r == Err(50)
    ensures ep + TurnRoom(t, pos) <= endbuf ==>
              match Primary(t, pos, g, eof)
              case Ok((b, next, g')) =>
                var e := EncodeItem(Item(b, Once));
                r == Ok((next, ep + |e|, g')) && Written(buf, ep, e)
              case Err(e) => r == Err(e)
    ensures OnlyChanged(buf, ep, ep + 33)
  {
    if pos < |t| && t[pos] == LBRACKET {
      var b := CompileBracket(t, pos + 1, buf, ep, endbuf);
      if b.Err? {
        return Err(b.code);
      }
      return Ok((b.value.0, b.value.1, g));
    }
    r := CompileSimple(t, pos, buf, ep, eof, g);
  }

  /** All of them but bracket expressions: there is room for two bytes. */
  method CompileSimple(t: seq<byte>, pos: nat, buf: array<byte>, ep: nat, eof: byte, g: Groups)
    returns (r: Result<(nat, nat, Groups)>)
    requires ep + 2 <= buf.Length && (pos < |t| ==> t[pos] != LBRACKET)
    modifies buf
    ensures match Primary(t, pos, g, eof)
            case Ok((b, next, g')) =>
              var e := EncodeItem(Item(b, Once));
              r == Ok((next, ep + |e|, g')) && Written(buf, ep, e)
            case Err(e) => r == Err(e)
    ensures OnlyChanged(buf, ep, ep + 2)
  {
    if |t| <= pos {
      return Err(RAN_OFF);
    }
    var c := t[pos];
    if c == PERIOD {
      ShortCode(One(Dot));
      Emit(buf, ep, CDOT);
      return Ok((pos + 1, ep + 1, g));
    } else if c == DOLLAR && !(Peek(t, pos + 1) != eof && Peek(t, pos + 1) != NEWLINE) {
      ShortCode(Dol);
      Emit(buf, ep, CDOL);
      return Ok((pos + 1, ep + 1, g));
    } else if c == BACKSLASH {
      r := CompileEscape(t, pos + 1, buf, ep, g);
    } else {
      ShortCode(One(Chr(c)));
      EmitPair(buf, ep, CCHR, c);
      return Ok((pos + 1, ep + 2, g));
    }
  }

  /** The inner switch on the character after a backslash, except for `\{`. */
  method CompileEscape(t: seq<byte>, pos: nat, buf: array<byte>, ep: nat, g: Groups)
    returns (r: Result<(nat, nat, Groups)>)
    requires ep + 2 <= buf.Length
    modifies buf
    ensures match Escape(t, pos, g)
            case Ok((b, next, g')) =>
              var e := EncodeItem(Item(b, Once));
              r == Ok((next, ep + |e|, g')) && Written(buf, ep, e)
            case Err(e) => r == Err(e)
    ensures OnlyChanged(buf, ep, ep + 2)
  {
    if |t| <= pos {
      return Err(RAN_OFF);
    }
    var c, g' := t[pos], g;
    if c == LPAREN {
      if NBRA <= g.nbra {
        return Err(43);
      }
      g' := g.(open := g.open + [g.nbra], nbra := g.nbra + 1);
      ShortCode(Bra(g.nbra));
      EmitPair(buf, ep, CBRA, g.nbra);
    } else if c == RPAREN {
      if g.open == [] {
        return Err(42);
      }
      var top := |g.open| - 1;
      g' := g.(open := g.open[..top], closed := g.closed + 1);
      ShortCode(Ket(g.open[top]));
      EmitPair(buf, ep, CKET, g.open[top]);
    } else if c == NEWLINE {
      return Err(36);
    } else if c == LETTER_N {
      ShortCode(One(Chr(NEWLINE)));
      EmitPair(buf, ep, CCHR, NEWLINE);
    } else if DIGIT0 < c <= DIGIT9 {
      if g.closed <= c - DIGIT0 - 1 {
        return Err(25);
      }
      ShortCode(Back(c - DIGIT0 - 1));
      EmitPair(buf, ep, CBACK, c - DIGIT0 - 1);
    } else {
      ShortCode(One(Chr(c)));
      EmitPair(buf, ep, CCHR, c);
    }
    return Ok((pos + 1, ep + 2, g'));
  }

  // ----- the loop -----

  /** Where the loop stands: the code so far is that of `pre` and `it`, whose opcode is at `lastep`,
      and the whole pattern is what is left to read put after them. `room` is what the whole pattern
      asks for. `lastep == -1` is the null pointer: nothing has been read. */
  ghost predicate Progress(whole: Result<Parsed>, room: nat, t: seq<byte>, pos: nat, g: Groups, eof: byte, sed: bool,
                           code: seq<byte>, lastep: int, pre: seq<Item>, it: Item)
    requires pos <= |t|
  {
    if lastep < 0 then
      && lastep == -1 && code == [] && pre == [] && whole == ItemsFrom(t, pos, g, eof, sed)
      && room == Room(t, pos, g, eof)
    else
      && lastep == |EncodeItems(pre)|
      && code == EncodeItems(pre) + EncodeItem(it)
      && whole == Prefixed(pre, Finish(t, pos, it, g, eof, sed))
      && room == |code| + RoomAfter(t, pos, it, g, eof)
  }

  /** An error that ends the compilation: 50 exactly if there is less room than the pattern asks for. */
  ghost predicate Refused(whole: Result<Parsed>, room: nat, endbuf: nat, code: int) {
    if endbuf < room then code == 50 else whole == Err(code)
  }

  /** The items read so far when no more can repeat the last of them. */
  ghost function Done(lastep: int, pre: seq<Item>, it: Item): seq<Item> {
    if lastep < 0 then [] else pre + [it]
  }

  /** Nothing at `pos` repeats the last item, so it is finished. */
  lemma Settle(whole: Result<Parsed>, room: nat, t: seq<byte>, pos: nat, g: Groups, eof: byte, sed: bool,
               code: seq<byte>, lastep: int, pre: seq<Item>, it: Item)
    requires pos <= |t| && Progress(whole, room, t, pos, g, eof, sed, code, lastep, pre, it)
    requires 0 <= lastep ==> Suffix(t, pos, it, eof) == Ok((it, pos)) && RoomAfter(t, pos, it, g, eof) == Room(t, pos, g, eof)
    ensures code == EncodeItems(Done(lastep, pre, it)) && room == |code| + Room(t, pos, g, eof)
    ensures whole == Prefixed(Done(lastep, pre, it), ItemsFrom(t, pos, g, eof, sed))
  {
    var rest := ItemsFrom(t, pos, g, eof, sed);
    if lastep < 0 {
      if rest.Ok? {
        assert [] + rest.value.items == rest.value.items;
      }
    } else {
      EncodeSnoc(pre, it);
      if rest.Ok? {
        assert pre + ([it] + rest.value.items) == pre + [it] + rest.value.items;
      }
    }
  }

  /** An item read at `pos` becomes the last one. */
  lemma Advance(whole: Result<Parsed>, t: seq<byte>, pos: nat, g: Groups, eof: byte, sed: bool, done: seq<Item>,
                b: Base, next: nat, g': Groups)
    requires pos < |t| && t[pos] != eof && t[pos] != NEWLINE
    requires whole == Prefixed(done, ItemsFrom(t, pos, g, eof, sed))
    requires Primary(t, pos, g, eof) == Ok((b, next, g'))
    ensures whole == Prefixed(done, Finish(t, next, Item(b, Once), g', eof, sed))
  {
  }

  /** Patching the opcode of the last item in place gives the code of the repeated item. */
  lemma Patched(pre: seq<Item>, it: Item, it': Item, code: seq<byte>, extra: seq<byte>)
    requires code == EncodeItems(pre) + EncodeItem(it)
    requires it'.base == it.base && Tail(it'.rep) == Tail(it.rep) + extra
    ensures code[|EncodeItems(pre)| := Opcode(it')] + extra == EncodeItems(pre) + EncodeItem(it')
  {
  }

  lemma BaseOpcodes(b: Base)
    ensures BaseOpcode(b) in {CBRA, CCHR, CDOT, CCL, CXCL, CDOL, CKET, CBACK, NCCL}
    ensures BaseOpcode(b) == CBRA <==> b.Bra?
    ensures BaseOpcode(b) == CKET <==> b.Ket?
  {
  }

  /** STAR does nothing to an opcode that has RNGE, and RNGE covers STAR. */
  lemma PatchStar(it: Item)
    ensures Starrable(it) ==> Opcode(Starred(it)) == OrStar(Opcode(it))
    ensures Opcode(it) == CBRA || Opcode(it) == CKET <==> !Starrable(it)
  {
    BaseOpcodes(it.base);
  }

  lemma PatchRange(it: Item, b: seq<byte>)
    ensures Opcode(Ranged(it, b)) == OrRange(Opcode(it))
  {
    BaseOpcodes(it.base);
  }

  /** Going back to set STAR in the opcode at `lastep`. */
  method PatchWithStar(ghost whole: Result<Parsed>, ghost room: nat, t: seq<byte>, pos: nat, g: Groups, eof: byte, sed: bool,
                       buf: array<byte>, ep: nat, lastep: nat, ghost pre: seq<Item>, ghost it: Item)
    requires pos < |t| && lastep < ep <= buf.Length
    requires Progress(whole, room, t, pos, g, eof, sed, buf[..ep], lastep, pre, it)
    requires t[pos] == ASTERISK && t[pos] != eof && buf[lastep] != CBRA && buf[lastep] != CKET
    modifies buf
    ensures Progress(whole, room, t, pos + 1, g, eof, sed, buf[..ep], lastep, pre, Starred(it))
  {
    PatchStar(it);
    Patched(pre, it, Starred(it), buf[..ep], []);
    ghost var code := buf[..ep];
    assert buf[lastep] == code[lastep] == Opcode(it);
    buf[lastep] := OrStar(buf[lastep]);
    assert buf[..ep] == code[lastep := buf[lastep]] + [];
  }

  /** Reading an interval: the parse goes on with the item it repeats, or fails as the bounds do. */
  lemma RangeStep(pre: seq<Item>, t: seq<byte>, pos: nat, it: Item, g: Groups, eof: byte, sed: bool)
    requires pos < |t| && t[pos] == BACKSLASH && t[pos] != eof && Peek(t, pos + 1) == LBRACE
    ensures Bounds(t, pos + 2).Ok? ==>
              var b, next := Bounds(t, pos + 2).value.0, Bounds(t, pos + 2).value.1;
              && Prefixed(pre, Finish(t, pos, it, g, eof, sed)) == Prefixed(pre, Finish(t, next, Ranged(it, b), g, eof, sed))
              && RoomAfter(t, pos, it, g, eof) == 2 + RoomAfter(t, next, Ranged(it, b), g, eof)
    ensures Bounds(t, pos + 2).Err? ==>
              Prefixed(pre, Finish(t, pos, it, g, eof, sed)) == Err(Bounds(t, pos + 2).code) && RoomAfter(t, pos, it, g, eof) == 1
  {
  }

  /** Going back to set RNGE in the opcode at `lastep`, then writing the bounds at `ep`. */
  method PatchWithRange(t: seq<byte>, pos: nat, buf: array<byte>, ep: nat, lastep: nat,
                        ghost pre: seq<Item>, ghost it: Item)
    returns (r: Result<nat>)
    requires lastep < ep && ep + 2 <= buf.Length
    requires lastep == |EncodeItems(pre)| && buf[..ep] == EncodeItems(pre) + EncodeItem(it)
    modifies buf
    ensures match Bounds(t, pos)
            case Ok((b, next)) =>
              r == Ok(next) && buf[..ep + 2] == EncodeItems(pre) + EncodeItem(Ranged(it, b))
            case Err(e) => r == Err(e)
  {
    ghost var code := buf[..ep];
    assert buf[lastep] == code[lastep] == Opcode(it);
    buf[lastep] := OrRange(buf[lastep]);
    var b := CompileBounds(t, pos, buf, ep);
    if b.Err? {
      return Err(b.code);
    }
    ghost var bounds := Bounds(t, pos).value.0;
    PatchRange(it, bounds);
    Patched(pre, it, Ranged(it, bounds), code, bounds);
    assert buf[..ep + 2] == code[lastep := buf[lastep]] + bounds;
    return Ok(b.value.0);
  }

  /** Starting a new item at `ep`, which becomes `lastep`. */
  method AppendItem(ghost whole: Result<Parsed>, ghost room: nat, t: seq<byte>, pos: nat, g: Groups, eof: byte, sed: bool,
                    buf: array<byte>, ep: nat, endbuf: nat, ghost done: seq<Item>)
    returns (r: Result<(nat, nat, Groups)>, ghost it: Item)
    requires pos < |t| && ep < endbuf < buf.Length
    requires t[pos] != eof && t[pos] != NEWLINE
    requires buf[..ep] == EncodeItems(done)
    requires whole == Prefixed(done, ItemsFrom(t, pos, g, eof, sed)) && room == ep + Room(t, pos, g, eof)
    modifies buf
    ensures r.Err? ==> Refused(whole, room, endbuf, r.code)
    ensures r.Ok? ==> pos < r.value.0 <= |t| && ep < r.value.1 <= buf.Length
    ensures r.Ok? ==> Progress(whole, room, t, r.value.0, r.value.2, eof, sed, buf[..r.value.1], ep, done, it)
  {
    it := Item(Dol, Once);
    ghost var code := buf[..ep];
    r := CompilePrimary(t, pos, buf, ep, endbuf, eof, g);
    ghost var first := Primary(t, pos, g, eof);
    if first.Ok? {
      ghost var (b, next, g') := first.value;
      it := Item(b, Once);
      Advance(whole, t, pos, g, eof, sed, done, b, next, g');
      TurnRoomIs(t, pos, g, eof);
    }
    if r.Ok? {
      assert buf[..r.value.1] == code + EncodeItem(it);
    }
  }

  /** The reader's position, the code position, the position of the last opcode, and the groups. */
  datatype State = State(pos: nat, ep: nat, lastep: int, g: Groups)

  /** One turn of the loop that does not end the pattern. */
  method Round(ghost whole: Result<Parsed>, ghost room: nat, t: seq<byte>, pos: nat, g: Groups, eof: byte, sed: bool,
               buf: array<byte>, ep: nat, lastep: int, endbuf: nat, ghost pre: seq<Item>, ghost it: Item)
    returns (r: Result<State>, ghost pre': seq<Item>, ghost it': Item)
    requires pos < |t| && lastep < ep < endbuf < buf.Length && t[pos] != eof && t[pos] != NEWLINE
    requires Progress(whole, room, t, pos, g, eof, sed, buf[..ep], lastep, pre, it)
    modifies buf
    ensures r.Err? ==> Refused(whole, room, endbuf, r.code)
    ensures r.Ok? ==> var n := r.value;
      && pos < n.pos <= |t| && n.lastep < n.ep <= buf.Length
      && Progress(whole, room, t, n.pos, n.g, eof, sed, buf[..n.ep], n.lastep, pre', it')
  {
    var c := t[pos];
    pre', it' := pre, it;
    if c == ASTERISK && lastep != -1 && !(buf[lastep] == CBRA || buf[lastep] == CKET) {
      PatchWithStar(whole, room, t, pos, g, eof, sed, buf, ep, lastep, pre, it);
      it' := Starred(it);
      return Ok(State(pos + 1, ep, lastep, g)), pre', it';
    } else if c == BACKSLASH && Peek(t, pos + 1) == LBRACE && lastep != -1 {
      RangeStep(pre, t, pos, it, g, eof, sed);
      var b := PatchWithRange(t, pos + 2, buf, ep, lastep, pre, it);
      if b.Err? {
        return Err(b.code), pre', it';
      }
      it' := Ranged(it, Bounds(t, pos + 2).value.0);
      return Ok(State(b.value, ep + 2, lastep, g)), pre', it';
    } else {
      PatchStar(it);
      assert lastep != -1 ==> buf[lastep] == buf[..ep][lastep] == Opcode(it);
      Settle(whole, room, t, pos, g, eof, sed, buf[..ep], lastep, pre, it);
      pre' := Done(lastep, pre, it);
      var n;
      n, it' := AppendItem(whole, room, t, pos, g, eof, sed, buf, ep, endbuf, pre');
      if n.Err? {
        return Err(n.code), pre', it';
      }
      return Ok(State(n.value.0, n.value.1, ep, n.value.2)), pre', it';
    }
  }

  class Compiler {
    var sed: bool
    var circf: bool
    var nodelim: bool
    var nbra: int

    constructor (sed: bool)
      ensures this.sed == sed
    {
      this.sed := sed;
      circf, nodelim, nbra := false, false, 0;
    }

    /** What `compile` leaves for a pattern that parses to `p` and asks for `room`. */
    ghost predicate Compiled(p: Result<Parsed>, room: nat, buf: array<byte>, endbuf: nat, r: Result<nat>)
      reads this, buf
    {
      if endbuf < room then r == Err(50)
      else
        match p
        case Ok(parsed) =>
          var code := Encode(parsed.items);
          r == Ok(|code|) && room == |code| && |code| <= buf.Length && buf[..|code|] == code && nbra == parsed.groups.nbra
        case Err(e) => r == Err(e)
    }

    /**
     Compiles the pattern that starts at `start`. An empty pattern keeps the code already in the
     buffer. Otherwise the result is error 50 exactly if `endbuf` is less than the room the pattern
     asks for, which for a pattern that parses is the length of its code with the end mark. If not,
     the buffer gets the encoding of the items, or the error is that of the parse.

     One byte of slack lies past `endbuf`: the room is checked once for every two bytes written.
     */
    method Compile(t: seq<byte>, start: nat, buf: array<byte>, endbuf: nat, eof: byte) returns (r: Result<nat>)
      requires start <= |t| && 0 < endbuf < buf.Length
      modifies this, buf
      ensures sed == old(sed)
      ensures start == |t| ==> r == Err(RAN_OFF)
      ensures start < |t| && (t[start] == eof || t[start] == NEWLINE) ==>
                && buf[..] == old(buf[..]) && circf == old(circf) && nbra == old(nbra)
                && r == if buf[0] == 0 && !sed then Err(41) else Ok(0)
      ensures start < |t| && t[start] != eof && t[start] != NEWLINE ==>
                && circf == (t[start] == CARET)
                && Compiled(Pattern(t, start, eof, sed), PatternRoom(t, start, eof), buf, endbuf, r)
    {
      if start == |t| {
        return Err(RAN_OFF);
      }
      var c := t[start];
      if c == eof || c == NEWLINE {
        if c == NEWLINE {
          nodelim := true;
        }
        if buf[0] == 0 && !sed {
          return Err(41);
        }
        return Ok(0);
      }
      circf, nbra := c == CARET, 0;
      r := CompileItems(Pattern(t, start, eof, sed), PatternRoom(t, start, eof), t, if circf then start + 1 else start, buf, endbuf, eof);
    }

    /** The end of the pattern, at the delimiter or at a newline. */
    method Close(ghost whole: Result<Parsed>, t: seq<byte>, pos: nat, buf: array<byte>, ep: nat, eof: byte, g: Groups,
                 ghost done: seq<Item>)
      returns (r: Result<nat>)
      requires pos < |t| && ep < buf.Length && (t[pos] == eof || t[pos] == NEWLINE)
      requires buf[..ep] == EncodeItems(done)
      requires whole == Prefixed(done, ItemsFrom(t, pos, g, eof, sed))
      modifies this, buf
      ensures sed == old(sed) && circf == old(circf)
      ensures match whole
              case Ok(p) =>
                r == Ok(ep + 1) && buf[..ep + 1] == Encode(p.items) && nbra == p.groups.nbra
              case Err(e) => r == Err(e)
    {
      if t[pos] != eof && sed {
        return Err(36);
      }
      ghost var code := buf[..ep];
      buf[ep] := CCEOF;
      nodelim := nodelim || t[pos] != eof;
      nbra := g.nbra;
      assert buf[..ep + 1] == code + [CCEOF] && done + [] == done;
      if g.open != [] {
        return Err(42);
      }
      return Ok(ep + 1);
    }

    /** Where the loop ends: no room, no more text, or the end of the pattern. */
    method Stop(ghost whole: Result<Parsed>, ghost room: nat, t: seq<byte>, pos: nat, buf: array<byte>, ep: nat, endbuf: nat,
                eof: byte, g: Groups, lastep: int, ghost pre: seq<Item>, ghost it: Item)
      returns (r: Result<nat>)
      requires pos <= |t| && ep <= buf.Length && 0 < endbuf < buf.Length
      requires endbuf <= ep || pos == |t| || t[pos] == eof || t[pos] == NEWLINE
      requires Progress(whole, room, t, pos, g, eof, sed, buf[..ep], lastep, pre, it)
      modifies this, buf
      ensures sed == old(sed) && circf == old(circf)
      ensures Compiled(whole, room, buf, endbuf, r)
    {
      if endbuf <= ep {
        return Err(50);
      }
      Settle(whole, room, t, pos, g, eof, sed, buf[..ep], lastep, pre, it);
      if pos == |t| {
        return Err(RAN_OFF);
      }
      r := Close(whole, t, pos, buf, ep, eof, g, Done(lastep, pre, it));
    }

    method CompileItems(ghost whole: Result<Parsed>, ghost room: nat, t: seq<byte>, start: nat, buf: array<byte>, endbuf: nat,
                        eof: byte)
      returns (r: Result<nat>)
      requires start <= |t| && 0 < endbuf < buf.Length
      requires whole == ItemsFrom(t, start, NO_GROUPS, eof, sed) && room == Room(t, start, NO_GROUPS, eof)
      modifies this, buf
      ensures sed == old(sed) && circf == old(circf)
      ensures Compiled(whole, room, buf, endbuf, r)
    {
      ghost var pre, it := [], Item(Dol, Once);
      var pos, ep, lastep, g := start, 0, -1, NO_GROUPS;
      if whole.Ok? {
        RoomIsLength(t, start, NO_GROUPS, eof, sed);
      }
      while ep < endbuf && pos < |t| && t[pos] != eof && t[pos] != NEWLINE
        invariant 0 <= pos <= |t| && 0 <= ep <= buf.Length
        invariant sed == old(sed) && circf == old(circf) && lastep < ep
        invariant Progress(whole, room, t, pos, g, eof, sed, buf[..ep], lastep, pre, it)
        decreases |t| - pos
      {
        var n;
        n, pre, it := Round(whole, room, t, pos, g, eof, sed, buf, ep, lastep, endbuf, pre, it);
        if n.Err? {
          return Err(n.code);
        }
        pos, ep, lastep, g := n.value.pos, n.value.ep, n.value.lastep, n.value.g;
      }
      r := Stop(whole, room, t, pos, buf, ep, endbuf, eof, g, lastep, pre, it);
    }
  }
}
