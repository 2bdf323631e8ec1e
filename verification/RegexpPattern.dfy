/**
 The pattern language of `compile` in <regexp.h>, as a recursive-descent parse of the pattern
 text into items. Nothing is patched here: an item is read together with everything that
 repeats it before it is put in the list.

 `t` is the text the includer's GETC walks over, `eof` the delimiter given to `compile`.
 */
module RegexpPattern {
  import opened Bytes
  import opened Numbers
  import opened RegexpCode

  const NEWLINE := 10
  const DOLLAR := 36
  const LPAREN := 40
  const RPAREN := 41
  const ASTERISK := 42
  const COMMA := 44
  const MINUS := 45
  const PERIOD := 46
  const LBRACKET := 91
  const BACKSLASH := 92
  const RBRACKET := 93
  const CARET := 94
  const LETTER_N := 110
  const LBRACE := 123
  const RBRACE := 125

  /** GETC was asked for a character after the last one of the text. */
  const RAN_OFF := -1

  /** GETC at `pos`. */
  function At(t: seq<byte>, pos: nat): Result<byte> {
    if pos < |t| then Ok(t[pos]) else Err(RAN_OFF)
  }

  /** PEEKC at `pos`; past the text it sees the NUL that ends a C string. */
  function Peek(t: seq<byte>, pos: nat): byte {
    if pos < |t| then t[pos] else 0
  }

  // ----- intervals -----

  /** One bound: at least one digit, up to a backslash or comma. Gives the bound as a C int
      and the position of that terminator. */
  function Number(t: seq<byte>, pos: nat, i: int): (r: Result<(int, nat)>)
    ensures r.Ok? ==> pos < r.value.1 < |t| && (t[r.value.1] == BACKSLASH || t[r.value.1] == COMMA)
    decreases |t| - pos
  {
    var c :- At(t, pos);
    if !IsDigit(c) then Err(16) else
    var v := Wrap32(10 * i + c - DIGIT0);
    var next :- At(t, pos + 1);
    if next == BACKSLASH || next == COMMA then Ok((v, pos + 1)) else Number(t, pos + 1, v)
  }

  /** A bound as it is stored: the low byte of a value that passed the check against 255. */
  function Bound(t: seq<byte>, pos: nat): (r: Result<(byte, nat)>)
    ensures r.Ok? ==> pos < r.value.1 < |t| && (t[r.value.1] == BACKSLASH || t[r.value.1] == COMMA)
  {
    var (v, p) :- Number(t, pos, 0);
    if 255 <= v then Err(11) else Ok((v % 256, p))
  }

  /** The end of an interval whose last bound or comma was followed by the backslash at `p`. */
  function CloseBounds(t: seq<byte>, p: nat, lo: byte, hi: byte, two: bool): (r: Result<(seq<byte>, nat)>)
    ensures r.Ok? ==> p < r.value.1 <= |t| && |r.value.0| == 2
  {
    var c :- At(t, p + 1);
    if c != RBRACE then Err(45)
    else if two && hi < lo then Err(46)
    else Ok(([lo, hi], p + 2))
  }

  /** What follows `\{`: `m\}`, `m,\}` or `m,n\}`. */
  function Bounds(t: seq<byte>, pos: nat): (r: Result<(seq<byte>, nat)>)
    ensures r.Ok? ==> pos < r.value.1 <= |t| && |r.value.0| == 2
  {
    var (lo, p) :- Bound(t, pos);
    if t[p] == BACKSLASH then CloseBounds(t, p, lo, lo, false) else
    var c :- At(t, p + 1);
    if c == BACKSLASH then CloseBounds(t, p + 1, lo, 255, true) else
    var (hi, q) :- Bound(t, p + 1);
    if t[q] == COMMA then Err(44) else CloseBounds(t, q, lo, hi, true)
  }

  // ----- bracket expressions -----

  predicate IsChar(x: int) {
    0 <= x < 256
  }

  /** The characters from `lo` up to, not including, `hi`. */
  function Span(lo: int, hi: int): set<int> {
    set x | lo <= x < hi && IsChar(x)
  }

  /** One element of a bracket expression at `pos`, and the ones after it. `last` is the character
      a `-` would start a range from (0 for none), `acc` what was read before. Gives the set and
      the position after the closing bracket. */
  function BracketFrom(t: seq<byte>, pos: nat, last: byte, acc: set<int>): (r: Result<(set<int>, nat)>)
    ensures r.Ok? ==> pos < r.value.1 <= |t| && acc <= r.value.0
    decreases |t| - pos, 1
  {
    var c :- At(t, pos);
    if c == 0 || c == NEWLINE then Err(49)
    else if c == MINUS && last != 0 then
      var c2 :- At(t, pos + 1);
      if c2 == RBRACKET then Ok((acc + {MINUS}, pos + 2))
      else BracketRest(t, pos + 2, c2, acc + Span(last, c2) + {c2})
    else BracketRest(t, pos + 1, c, acc + {c})
  }

  function BracketRest(t: seq<byte>, pos: nat, last: byte, acc: set<int>): (r: Result<(set<int>, nat)>)
    ensures r.Ok? ==> pos < r.value.1 <= |t| && acc <= r.value.0
    decreases |t| - pos, 2
  {
    var c :- At(t, pos);
    if c == RBRACKET then Ok((acc, pos + 1)) else BracketFrom(t, pos, last, acc)
  }

  predicate HasHigh(s: set<int>) {
    exists c <- s :: 128 <= c
  }

  /** The bitmap form chosen for a set: CXCL when it has a character above 127, else CCL or NCCL. */
  function ClassOf(neg: bool, chars: set<int>): Atom {
    if HasHigh(chars) then
      Class(Wide, if neg then Span(1, 256) - chars else chars)
    else if neg then Class(Negated, chars + {0})
    else Class(Plain, chars)
  }

  function Bracket(t: seq<byte>, pos: nat): (r: Result<(Atom, nat)>)
    ensures r.Ok? ==> pos < r.value.1 <= |t|
  {
    var c :- At(t, pos);
    var neg := c == CARET;
    var (chars, next) :- BracketFrom(t, if neg then pos + 1 else pos, 0, {});
    Ok((ClassOf(neg, chars), next))
  }

  // ----- items -----

  /** The groups so far: those still open (innermost last), how many were opened, how many closed. */
  datatype Groups = Groups(open: seq<group>, nbra: nat, closed: nat)

  /** What follows a backslash, at the place of an item. */
  function Escape(t: seq<byte>, pos: nat, g: Groups): (r: Result<(Base, nat, Groups)>)
    ensures r.Ok? ==> pos < r.value.1 <= |t|
  {
    var c :- At(t, pos);
    if c == LPAREN then
      if NBRA <= g.nbra then Err(43)
      else Ok((Bra(g.nbra), pos + 1, g.(open := g.open + [g.nbra], nbra := g.nbra + 1)))
    else if c == RPAREN then
      if g.open == [] then Err(42)
      else var top := |g.open| - 1;
           Ok((Ket(g.open[top]), pos + 1, g.(open := g.open[..top], closed := g.closed + 1)))
    else if c == NEWLINE then Err(36)
    else if c == LETTER_N then Ok((One(Chr(NEWLINE)), pos + 1, g))
    else if DIGIT0 < c <= DIGIT9 then
      if g.closed <= c - DIGIT0 - 1 then Err(25)
      else Ok((Back(c - DIGIT0 - 1), pos + 1, g))
    else Ok((One(Chr(c)), pos + 1, g))
  }

  /** An item without its repetition. `*` and `\{` are only met here when there is nothing they
      could repeat, and then stand for themselves. */
  function Primary(t: seq<byte>, pos: nat, g: Groups, eof: byte): (r: Result<(Base, nat, Groups)>)
    ensures r.Ok? ==> pos < r.value.1 <= |t|
  {
    var c :- At(t, pos);
    if c == PERIOD then Ok((One(Dot), pos + 1, g))
    else if c == DOLLAR && (Peek(t, pos + 1) == eof || Peek(t, pos + 1) == NEWLINE) then Ok((Dol, pos + 1, g))
    else if c == LBRACKET then
      var (a, next) :- Bracket(t, pos + 1);
      Ok((One(a), next, g))
    else if c == BACKSLASH then Escape(t, pos + 1, g)
    else Ok((One(Chr(c)), pos + 1, g))
  }

  /** `*` repeats everything but a bare group mark. */
  predicate Starrable(it: Item) {
    !(it.rep == Once && (it.base.Bra? || it.base.Ket?))
  }

  /** A star does nothing to an interval. */
  function Starred(it: Item): Item {
    if it.rep.Interval? then it else it.(rep := Star)
  }

  function Ranged(it: Item, bounds: seq<byte>): Item {
    it.(rep := Interval((if it.rep.Interval? then it.rep.bounds else []) + bounds))
  }

  /** Everything that repeats `it`. */
  function Suffix(t: seq<byte>, pos: nat, it: Item, eof: byte): (r: Result<(Item, nat)>)
    requires pos <= |t|
    ensures r.Ok? ==> pos <= r.value.1 <= |t|
    decreases |t| - pos
  {
    if pos == |t| || t[pos] == eof then Ok((it, pos))
    else if t[pos] == ASTERISK && Starrable(it) then Suffix(t, pos + 1, Starred(it), eof)
    else if t[pos] == BACKSLASH && Peek(t, pos + 1) == LBRACE then
      var (b, next) :- Bounds(t, pos + 2);
      Suffix(t, next, Ranged(it, b), eof)
    else Ok((it, pos))
  }

  /** A parsed pattern: its items, the groups at the end, and the position of the character that ended it. */
  datatype Parsed = Parsed(items: seq<Item>, groups: Groups, stop: nat)

  function Cons(it: Item, p: Parsed): Parsed {
    p.(items := [it] + p.items)
  }

  /** The items from `pos` to the delimiter or a newline. */
  function ItemsFrom(t: seq<byte>, pos: nat, g: Groups, eof: byte, sed: bool): (r: Result<Parsed>)
    ensures r.Ok? ==> pos <= r.value.stop < |t|
    decreases |t| - pos, 0
  {
    var c :- At(t, pos);
    if c == eof then
      if g.open != [] then Err(42) else Ok(Parsed([], g, pos))
    else if c == NEWLINE then
      if sed then Err(36) else if g.open != [] then Err(42) else Ok(Parsed([], g, pos))
    else
      var (b, p, g') :- Primary(t, pos, g, eof);
      Finish(t, p, Item(b, Once), g', eof, sed)
  }

  /** The rest of a pattern whose current item is `it`, less what still repeats it. */
  function Finish(t: seq<byte>, pos: nat, it: Item, g: Groups, eof: byte, sed: bool): (r: Result<Parsed>)
    requires pos <= |t|
    ensures r.Ok? ==> pos <= r.value.stop < |t|
    decreases |t| - pos, 1
  {
    var (it', p) :- Suffix(t, pos, it, eof);
    var rest :- ItemsFrom(t, p, g, eof, sed);
    Ok(Cons(it', rest))
  }

  const NO_GROUPS := Groups([], 0, 0)

  /** A non-empty pattern, less the `^` that anchors it. */
  function Pattern(t: seq<byte>, start: nat, eof: byte, sed: bool): Result<Parsed> {
    ItemsFrom(t, if Peek(t, start) == CARET then start + 1 else start, NO_GROUPS, eof, sed)
  }
}
