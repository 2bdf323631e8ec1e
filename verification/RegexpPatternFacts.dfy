/** What every pattern that `compile` accepts has in common. */
module RegexpPatternFacts {
  import opened Bytes
  import opened Numbers
  import opened RegexpCode
  import opened RegexpPattern
  import opened RegexpMeaning
  import opened RegexpGroups

  // ----- bracket expressions -----

  ghost predicate NulFree(t: seq<byte>, lo: nat, hi: int) {
    forall k :: lo <= k < hi && k < |t| ==> t[k] != 0
  }

  /** Only characters end up in the set, and NUL only if it is in the text. */
  lemma {:induction false} BracketChars(t: seq<byte>, pos: nat, last: byte, acc: set<int>)
    requires forall x <- acc :: 0 <= x < 256
    requires BracketFrom(t, pos, last, acc).Ok?
    ensures forall x <- BracketFrom(t, pos, last, acc).value.0 :: 0 <= x < 256
    ensures 0 !in acc && NulFree(t, pos, BracketFrom(t, pos, last, acc).value.1) ==>
              0 !in BracketFrom(t, pos, last, acc).value.0
    decreases |t| - pos
  {
    var c := t[pos];
    if c == MINUS && last != 0 {
      if t[pos + 1] != RBRACKET && t[pos + 2] != RBRACKET {
        BracketChars(t, pos + 2, t[pos + 1], acc + Span(last, t[pos + 1]) + {t[pos + 1] as int});
      }
    } else if t[pos + 1] != RBRACKET {
      BracketChars(t, pos + 1, c, acc + {c as int});
    }
  }

  /** The set written between the brackets at `pos`, and whether it is complemented. */
  function Written(t: seq<byte>, pos: nat): set<int>
    requires Bracket(t, pos).Ok?
  {
    BracketFrom(t, if t[pos] == CARET then pos + 1 else pos, 0, {}).value.0
  }

  /** All three bitmap forms accept exactly the set that is written, or its complement, and never NUL. */
  lemma BracketMeaning(t: seq<byte>, pos: nat, c: byte)
    requires Bracket(t, pos).Ok? && NulFree(t, pos, Bracket(t, pos).value.1)
    ensures Accepts(Bracket(t, pos).value.0, c) <==> c != 0 && (c in Written(t, pos) <==> t[pos] != CARET)
  {
    BracketChars(t, if t[pos] == CARET then pos + 1 else pos, 0, {});
  }

  /** The members of the chosen form fit in its bitmap. */
  lemma ClassFits(neg: bool, chars: set<int>)
    requires forall x <- chars :: 0 <= x < 256
    ensures ClassOf(neg, chars).Class?
    ensures forall x <- ClassOf(neg, chars).members :: 0 <= x < 8 * BitmapWidth(ClassOf(neg, chars).kind)
  {
  }

  // ----- interval bounds -----

  /** A bound is its decimal value, as far as a 32-bit int holds it. */
  lemma {:induction false} NumberValue(t: seq<byte>, start: nat, pos: nat, i: int)
    requires start <= pos <= |t| && i == Wrap32(Decimal(t, start, pos))
    requires Number(t, pos, i).Ok?
    ensures Number(t, pos, i).value.0 == Wrap32(Decimal(t, start, Number(t, pos, i).value.1))
    decreases |t| - pos
  {
    var v := Wrap32(10 * i + t[pos] - DIGIT0);
    WrapSum(10, Decimal(t, start, pos), t[pos] - DIGIT0);
    if !(t[pos + 1] == BACKSLASH || t[pos + 1] == COMMA) {
      NumberValue(t, start, pos + 1, v);
    }
  }

  lemma {:induction false} DecimalOfDigits(t: seq<byte>, start: nat, pos: nat, i: int)
    requires start <= pos <= |t| && Number(t, pos, i).Ok? && 0 <= Decimal(t, start, pos)
    ensures 0 <= Decimal(t, start, Number(t, pos, i).value.1)
    decreases |t| - pos
  {
    if !(t[pos + 1] == BACKSLASH || t[pos + 1] == COMMA) {
      DecimalOfDigits(t, start, pos + 1, Wrap32(10 * i + t[pos] - DIGIT0));
    }
  }

  /** What should become of a bound with this value: it is stored if it is below 255, and refused otherwise. */
  function RightBound(value: nat, p: nat): Result<(byte, nat)> {
    if value < 255 then Ok((value, p)) else Err(11)
  }

  /** As a 32-bit int, a number is too large for a bound when its low 32 bits are a positive int from 255 on. */
  lemma WrapTooLarge(value: nat)
    ensures value < 0x8000_0000 ==> Wrap32(value) == value
    ensures 255 <= Wrap32(value) <==> 255 <= value % 0x1_0000_0000 < 0x8000_0000
  {
  }

  /** A bound that is read as a number is stored as that number exactly when it is below 255, and it is treated as it
      should be exactly when it is below 255 or its low 32 bits are a positive int from 255 on. */
  lemma BoundIsExact(t: seq<byte>, pos: nat)
    requires Number(t, pos, 0).Ok?
    ensures var p, value := Number(t, pos, 0).value.1, Decimal(t, pos, Number(t, pos, 0).value.1);
            && 0 <= value
            && (Bound(t, pos) == Ok((value, p)) <==> value < 255)
            && (Bound(t, pos) == RightBound(value, p) <==> value < 255 || 255 <= value % 0x1_0000_0000 < 0x8000_0000)
  {
    NumberValue(t, pos, pos, 0);
    DecimalOfDigits(t, pos, pos, 0);
    WrapTooLarge(Decimal(t, pos, Number(t, pos, 0).value.1));
  }

  /** `\{4294967298\}` is accepted, and means `\{2\}`. */
  lemma BoundCanWrap()
    ensures Bounds([52, 50, 57, 52, 57, 54, 55, 50, 57, 56, BACKSLASH, RBRACE], 0) == Ok(([2, 2], 12))
  {
    var t: seq<byte> := [52, 50, 57, 52, 57, 54, 55, 50, 57, 56, BACKSLASH, RBRACE];
    assert Number(t, 9, 429496729) == Ok((2, 10));
    assert Number(t, 8, 42949672) == Ok((2, 10));
    assert Number(t, 7, 4294967) == Ok((2, 10));
    assert Number(t, 6, 429496) == Ok((2, 10));
    assert Number(t, 5, 42949) == Ok((2, 10));
    assert Number(t, 4, 4294) == Ok((2, 10));
    assert Number(t, 3, 429) == Ok((2, 10));
    assert Number(t, 2, 42) == Ok((2, 10));
    assert Number(t, 1, 4) == Ok((2, 10));
    assert Number(t, 0, 0) == Ok((2, 10));
  }

  // ----- every item of an accepted pattern -----

  /** Everything but one-character items and back references is never repeated, unless by an interval; the bounds of
      an interval come in ordered pairs; the members of a class fit its bitmap. */
  predicate WellMade(it: Item) {
    && (it.base.One? && it.base.atom.Class? ==>
          forall x <- it.base.atom.members :: 0 <= x < 8 * BitmapWidth(it.base.atom.kind))
    && (it.rep.Star? ==> !it.base.Bra? && !it.base.Ket?)
    && (it.rep.Interval? ==> |it.rep.bounds| >= 2 && (|it.rep.bounds| == 2 ==> GoodBounds(it.rep.bounds)))
  }

  lemma {:induction false} SuffixWellMade(t: seq<byte>, pos: nat, it: Item, eof: byte)
    requires pos <= |t| && WellMade(it) && Suffix(t, pos, it, eof).Ok?
    ensures WellMade(Suffix(t, pos, it, eof).value.0)
    ensures Suffix(t, pos, it, eof).value.0.base == it.base
    decreases |t| - pos
  {
    if pos == |t| || t[pos] == eof {
    } else if t[pos] == ASTERISK && Starrable(it) {
      SuffixWellMade(t, pos + 1, Starred(it), eof);
    } else if t[pos] == BACKSLASH && Peek(t, pos + 1) == LBRACE {
      var (b, next) := Bounds(t, pos + 2).value;
      SuffixWellMade(t, next, Ranged(it, b), eof);
    }
  }

  /** Nothing that `Primary` reads accepts NUL, when there is no NUL to read. */
  lemma PrimaryWellMade(t: seq<byte>, pos: nat, g: Groups, eof: byte)
    requires Primary(t, pos, g, eof).Ok?
    ensures var (b, next, _) := Primary(t, pos, g, eof).value;
      && WellMade(Item(b, Once))
      && (NulFree(t, pos, next) && b.One? ==> !Accepts(b.atom, 0))
  {
    if t[pos] == LBRACKET {
      var start := if t[pos + 1] == CARET then pos + 2 else pos + 1;
      BracketChars(t, start, 0, {});
      ClassFits(t[pos + 1] == CARET, BracketFrom(t, start, 0, {}).value.0);
      if NulFree(t, pos, Bracket(t, pos + 1).value.1) {
        BracketMeaning(t, pos + 1, 0);
      }
    }
  }

  /** `$` is only special where the pattern ends, so that nothing repeats it. */
  lemma DolStandsAlone(t: seq<byte>, pos: nat, g: Groups, eof: byte)
    requires Primary(t, pos, g, eof).Ok? && Primary(t, pos, g, eof).value.0.Dol?
    ensures var next := Primary(t, pos, g, eof).value.1;
            Suffix(t, next, Item(Dol, Once), eof) == Ok((Item(Dol, Once), next))
  {
  }

  ghost predicate AllWellMade(items: seq<Item>) {
    forall it <- items :: WellMade(it) && (it.base.Dol? ==> it.rep == Once)
  }

  ghost predicate NoneAcceptsNul(items: seq<Item>) {
    forall it <- items :: it.base.One? ==> !Accepts(it.base.atom, 0)
  }

  lemma {:induction false} ParsedWellMade(t: seq<byte>, pos: nat, g: Groups, eof: byte, sed: bool)
    requires ItemsFrom(t, pos, g, eof, sed).Ok?
    ensures var p := ItemsFrom(t, pos, g, eof, sed).value;
            AllWellMade(p.items) && (NulFree(t, pos, p.stop) ==> NoneAcceptsNul(p.items))
    decreases |t| - pos
  {
    if t[pos] != eof && t[pos] != NEWLINE {
      var (b, p, g') := Primary(t, pos, g, eof).value;
      PrimaryWellMade(t, pos, g, eof);
      SuffixWellMade(t, p, Item(b, Once), eof);
      if b.Dol? {
        DolStandsAlone(t, pos, g, eof);
      }
      ParsedWellMade(t, Suffix(t, p, Item(b, Once), eof).value.1, g', eof, sed);
    }
  }

  // ----- group discipline -----

  /** The marks are properly nested, groups are numbered in the order in which they open, every back reference is
      below the number of groups closed before it, and nothing is left open. */
  ghost predicate Nested(items: seq<Item>, g: Groups, end: Groups) {
    if items == [] then g == end && g.open == [] && g.nbra <= NBRA
    else
      match items[0].base
      case Bra(n) => n == g.nbra && Nested(items[1..], g.(open := g.open + [n], nbra := g.nbra + 1), end)
      case Ket(n) =>
        && g.open != [] && n == g.open[|g.open| - 1]
        && Nested(items[1..], g.(open := g.open[..|g.open| - 1], closed := g.closed + 1), end)
      case Back(n) => n < g.closed && Nested(items[1..], g, end)
      case _ => Nested(items[1..], g, end)
  }

  lemma {:induction false} ParsedNested(t: seq<byte>, pos: nat, g: Groups, eof: byte, sed: bool)
    requires ItemsFrom(t, pos, g, eof, sed).Ok? && g.nbra <= NBRA
    ensures var p := ItemsFrom(t, pos, g, eof, sed).value; Nested(p.items, g, p.groups)
    decreases |t| - pos
  {
    if t[pos] != eof && t[pos] != NEWLINE {
      var (b, p, g') := Primary(t, pos, g, eof).value;
      PrimaryWellMade(t, pos, g, eof);
      SuffixWellMade(t, p, Item(b, Once), eof);
      ParsedNested(t, Suffix(t, p, Item(b, Once), eof).value.1, g', eof, sed);
    }
  }

  /** How many of the items open, or close, group `g`. */
  function CountBra(items: seq<Item>, g: group): nat {
    if items == [] then 0 else (if items[0].base == Bra(g) then 1 else 0) + CountBra(items[1..], g)
  }

  function CountKet(items: seq<Item>, g: group): nat {
    if items == [] then 0 else (if items[0].base == Ket(g) then 1 else 0) + CountKet(items[1..], g)
  }

  /** The groups open at a point are distinct, and they and the closed ones are all that were opened. */
  ghost predicate Tidy(g: Groups) {
    && (forall i, j :: 0 <= i < j < |g.open| ==> g.open[i] != g.open[j])
    && (forall i :: 0 <= i < |g.open| ==> g.open[i] < g.nbra)
    && g.closed + |g.open| == g.nbra
  }

  lemma TidyPush(g: Groups)
    requires Tidy(g) && g.nbra < NBRA
    ensures Tidy(g.(open := g.open + [g.nbra], nbra := g.nbra + 1))
  {
  }

  lemma TidyPop(g: Groups)
    requires Tidy(g) && g.open != []
    ensures Tidy(g.(open := g.open[..|g.open| - 1], closed := g.closed + 1))
    ensures g.open[|g.open| - 1] !in g.open[..|g.open| - 1]
    ensures forall n :: n in g.open <==> n in g.open[..|g.open| - 1] || n == g.open[|g.open| - 1]
  {
    assert g.open == g.open[..|g.open| - 1] + [g.open[|g.open| - 1]];
  }

  /** Each group below the final `nbra` that is not open yet is opened once; each that is open, or gets
      opened, is closed once. */
  lemma {:induction false} OpenedAndClosedOnce(items: seq<Item>, g: Groups, end: Groups, n: group)
    requires Nested(items, g, end) && Tidy(g)
    ensures g.nbra <= end.nbra <= NBRA
    ensures CountBra(items, n) == if g.nbra <= n < end.nbra then 1 else 0
    ensures CountKet(items, n) == if n in g.open || g.nbra <= n < end.nbra then 1 else 0
    decreases |items|
  {
    if items != [] {
      match items[0].base
      case Bra(m) =>
        TidyPush(g);
        OpenedAndClosedOnce(items[1..], g.(open := g.open + [m], nbra := g.nbra + 1), end, n);
      case Ket(m) =>
        TidyPop(g);
        OpenedAndClosedOnce(items[1..], g.(open := g.open[..|g.open| - 1], closed := g.closed + 1), end, n);
      case _ => OpenedAndClosedOnce(items[1..], g, end, n);
    }
  }

  // ----- which back references name a closed group -----

  /** No back reference stands inside the group that it names. `open` are the groups around the first item. */
  ghost predicate NoSelfReference(items: seq<Item>, open: seq<group>) {
    items == [] ||
    match items[0].base
    case Bra(n) => NoSelfReference(items[1..], open + [n])
    case Ket(n) => open != [] ==> NoSelfReference(items[1..], open[..|open| - 1])
    case Back(n) => n !in open && NoSelfReference(items[1..], open)
    case _ => NoSelfReference(items[1..], open)
  }

  ghost function OpenSet(g: Groups): set<group> {
    set n: group | n in g.open
  }

  ghost function ClosedSet(g: Groups): set<group> {
    set n: group | 0 <= n < NBRA && n < g.nbra && n !in g.open
  }

  lemma SetsPush(g: Groups)
    requires Tidy(g) && g.nbra < NBRA
    ensures var g' := g.(open := g.open + [g.nbra], nbra := g.nbra + 1);
            OpenSet(g') == OpenSet(g) + {g.nbra} && ClosedSet(g') == ClosedSet(g) && g.nbra !in OpenSet(g) + ClosedSet(g)
  {
  }

  lemma SetsPop(g: Groups)
    requires Tidy(g) && g.open != [] && g.nbra <= NBRA
    ensures var n, g' := g.open[|g.open| - 1], g.(open := g.open[..|g.open| - 1], closed := g.closed + 1);
            OpenSet(g') == OpenSet(g) - {n} && ClosedSet(g') == ClosedSet(g) + {n}
  {
    TidyPop(g);
  }

  /** `compile` compares a back reference only with the number of closed groups. In an accepted pattern all of them
      name closed groups if and only if none stands inside the group it names. */
  lemma {:induction false} ScopedIffNoSelfReference(items: seq<Item>, g: Groups, end: Groups)
    requires Nested(items, g, end) && Tidy(g) && g.nbra <= NBRA
    ensures Scoped(items, OpenSet(g), ClosedSet(g)) <==> NoSelfReference(items, g.open)
    decreases |items|
  {
    if items != [] {
      match items[0].base
      case Bra(n) =>
        TidyPush(g);
        var g' := g.(open := g.open + [n], nbra := g.nbra + 1);
        SetsPush(g);
        ScopedIffNoSelfReference(items[1..], g', end);
      case Ket(n) =>
        TidyPop(g);
        var g' := g.(open := g.open[..|g.open| - 1], closed := g.closed + 1);
        SetsPop(g);
        ScopedIffNoSelfReference(items[1..], g', end);
      case _ => ScopedIffNoSelfReference(items[1..], g, end);
    }
  }

  /** A group is closed after it was opened: in every prefix, marks that close it do not outnumber those that open it. */
  lemma {:induction false} ClosedAfterOpened(items: seq<Item>, g: Groups, end: Groups, n: group, k: nat)
    requires Nested(items, g, end) && Tidy(g) && k <= |items|
    ensures CountKet(items[..k], n) <= CountBra(items[..k], n) + (if n in g.open then 1 else 0)
    decreases |items|
  {
    if k != 0 {
      assert items[..k][1..] == items[1..][..k - 1];
      match items[0].base
      case Bra(m) =>
        TidyPush(g);
        ClosedAfterOpened(items[1..], g.(open := g.open + [m], nbra := g.nbra + 1), end, n, k - 1);
      case Ket(m) =>
        TidyPop(g);
        ClosedAfterOpened(items[1..], g.(open := g.open[..|g.open| - 1], closed := g.closed + 1), end, n, k - 1);
      case _ => ClosedAfterOpened(items[1..], g, end, n, k - 1);
    }
  }
}
