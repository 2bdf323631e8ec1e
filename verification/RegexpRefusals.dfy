/** Which texts `compile` refuses, and with which error: what is wrong may stand behind any pieces that are right. */
module RegexpRefusals {
  import opened Bytes
  import opened Numbers
  import opened RegexpCode
  import opened RegexpPattern
  import opened RegexpElements
  import opened RegexpWritten

  // ----- what can be wrong -----

  predicate AllDigits(ds: seq<byte>) {
    ds != [] && forall k :: 0 <= k < |ds| ==> '0' as int <= ds[k] <= '9' as int
  }

  function Value(ds: seq<byte>): int {
    Decimal(ds, 0, |ds|)
  }

  /** What is wrong with an interval whose text begins at `pos`, behind the brace. */
  datatype BadCounts =
    | NoNumber                                           // something else than a digit
    | TooLarge(m: seq<byte>)                             // a number from 255 on
    | ThreeNumbers(m: seq<byte>, n: seq<byte>)           // a second comma
    | NoBrace(m: seq<byte>, c: byte)                     // a backslash and no closing brace behind it
    | Backwards(m: seq<byte>, n: seq<byte>)              // bounds in the wrong order

  ghost predicate CountsFail(t: seq<byte>, pos: nat, bad: BadCounts) {
    match bad
    case NoNumber => pos < |t| && !('0' as int <= t[pos] <= '9' as int)
    case TooLarge(m) =>
      && AllDigits(m) && 255 <= Value(m) < 0x8000_0000
      && (StandsAt(t, pos, m + ['\\' as int]) || StandsAt(t, pos, m + [',' as int]))
    case ThreeNumbers(m, n) => GoodNumber(m) && GoodNumber(n) && StandsAt(t, pos, m + ([',' as int] + (n + [',' as int])))
    case NoBrace(m, c) => GoodNumber(m) && c != '}' as int && StandsAt(t, pos, m + ['\\' as int, c])
    case Backwards(m, n) =>
      GoodNumber(m) && GoodNumber(n) && Value(n) < Value(m) && StandsAt(t, pos, m + ([',' as int] + (n + ['\\' as int, '}' as int])))
  }

  function CountsError(bad: BadCounts): int {
    match bad
    case NoNumber => 16
    case TooLarge(_) => 11
    case ThreeNumbers(_, _) => 44
    case NoBrace(_, _) => 45
    case Backwards(_, _) => 46
  }

  /** What is wrong where a piece should begin. */
  datatype Fault =
    | Stray                                              // a closing mark without an open group
    | TenthGroup
    | BrokenLine                                         // a newline behind a backslash
    | EarlyReference(digit: byte)                        // a reference to a group that is not closed yet
    | OpenBracket(es: seq<Element>, c: byte)             // a NUL or a newline between brackets
    | OpenGroup                                          // a group that is still open at the end
    | NoDelimiter                                        // a newline, where only the delimiter ends a pattern
    | BadInterval(p: Piece, stars: nat, bad: BadCounts)

  ghost predicate Fails(t: seq<byte>, pos: nat, g: Groups, eof: byte, sed: bool, f: Fault) {
    match f
    case Stray => '\\' as int != eof && StandsAt(t, pos, ['\\' as int, ')' as int]) && g.open == []
    case TenthGroup => '\\' as int != eof && StandsAt(t, pos, ['\\' as int, '(' as int]) && g.nbra == 9
    case BrokenLine => '\\' as int != eof && StandsAt(t, pos, ['\\' as int, '\n' as int])
    case EarlyReference(d) =>
      '\\' as int != eof && StandsAt(t, pos, ['\\' as int, d]) && '1' as int <= d <= '9' as int && g.closed < d - '0' as int
    case OpenBracket(es, c) =>
      && '[' as int != eof && (c == 0 || c == '\n' as int) && GoodElements(es) && (es != [] ==> es[0] != Lone('^' as int))
      && StandsAt(t, pos, ['[' as int] + (ElementsText(es) + [c]))
    case OpenGroup => pos < |t| && (t[pos] == eof || (t[pos] == '\n' as int && !sed)) && g.open != []
    case NoDelimiter => pos < |t| && t[pos] == '\n' as int != eof && sed
    case BadInterval(p, stars, bad) =>
      && GoodPiece(p, g, eof) && IsNoEnd(p) && (0 < stars ==> '*' as int != eof && !p.Open? && !p.Close?) && '\\' as int != eof
      && StandsAt(t, pos, PieceText(p) + (StarsText(stars) + ['\\' as int, '{' as int]))
      && CountsFail(t, pos + |PieceText(p)| + stars + 2, bad)
  }

  predicate IsNoEnd(p: Piece) {
    !p.End?
  }

  function ErrorOf(f: Fault): int {
    match f
    case Stray => 42
    case TenthGroup => 43
    case BrokenLine => 36
    case EarlyReference(_) => 25
    case OpenBracket(_, _) => 49
    case OpenGroup => 42
    case NoDelimiter => 36
    case BadInterval(_, _, bad) => CountsError(bad)
  }

  // ----- intervals -----

  lemma LargeBound(t: seq<byte>, pos: nat, ds: seq<byte>, c: byte)
    requires AllDigits(ds) && 255 <= Value(ds) < 0x8000_0000 && StandsAt(t, pos, ds + [c]) && c in {BACKSLASH, COMMA}
    ensures Bound(t, pos) == Err(11)
  {
    StandsSplit(t, pos, ds, [c]);
    assert t[pos + |ds| + 0] == [c][0];
    NumberRead(t, pos, ds, 0);
    assert Wrap32(0) == 0 && Wrap32(Value(ds)) == Value(ds);
  }

  /** A number and what follows it. */
  lemma BoundAnd(t: seq<byte>, pos: nat, ds: seq<byte>, rest: seq<byte>)
    requires GoodNumber(ds) && rest != [] && rest[0] in {BACKSLASH, COMMA} && StandsAt(t, pos, ds + rest)
    ensures Bound(t, pos) == Ok((Value(ds), pos + |ds|)) && StandsAt(t, pos + |ds|, rest) && t[pos + |ds|] == rest[0]
  {
    StandsSplit(t, pos, ds, rest);
    assert t[pos + |ds| + 0] == rest[0];
    BoundRead(t, pos, ds);
  }

  /** A comma and a second number. */
  lemma SecondBound(t: seq<byte>, pos: nat, m: seq<byte>, n: seq<byte>, rest: seq<byte>)
    requires GoodNumber(m) && GoodNumber(n) && rest != [] && rest[0] in {BACKSLASH, COMMA}
    requires StandsAt(t, pos, m + ([',' as int] + (n + rest)))
    ensures Bound(t, pos) == Ok((Value(m), pos + |m|)) && t[pos + |m|] == COMMA && t[pos + |m| + 1] != BACKSLASH
    ensures Bound(t, pos + |m| + 1) == Ok((Value(n), pos + |m| + 1 + |n|)) && t[pos + |m| + 1 + |n|] == rest[0]
    ensures StandsAt(t, pos + |m| + 1 + |n|, rest)
  {
    BoundAnd(t, pos, m, [',' as int] + (n + rest));
    StandsSplit(t, pos + |m|, [',' as int], n + rest);
    BoundAnd(t, pos + |m| + 1, n, rest);
    StandsSplit(t, pos + |m| + 1, n, rest);
    assert t[pos + |m| + 1 + 0] == n[0];
  }

  lemma CountsRefused(t: seq<byte>, pos: nat, bad: BadCounts)
    requires CountsFail(t, pos, bad)
    ensures Bounds(t, pos) == Err(CountsError(bad))
  {
    match bad
    case NoNumber =>
    case TooLarge(m) =>
      if StandsAt(t, pos, m + ['\\' as int]) {
        LargeBound(t, pos, m, '\\' as int);
      } else {
        LargeBound(t, pos, m, ',' as int);
      }
    case ThreeNumbers(m, n) => SecondBound(t, pos, m, n, [',' as int]);
    case NoBrace(m, c) =>
      var rest := ['\\' as int, c];
      BoundAnd(t, pos, m, rest);
      assert t[pos + |m| + 1] == rest[1];
    case Backwards(m, n) =>
      var rest := ['\\' as int, '}' as int];
      SecondBound(t, pos, m, n, rest);
      assert t[pos + |m| + 1 + |n| + 1] == rest[1];
  }

  lemma SuffixFails(t: seq<byte>, pos: nat, it: Item, eof: byte, bad: BadCounts)
    requires '\\' as int != eof && StandsAt(t, pos, ['\\' as int, '{' as int]) && CountsFail(t, pos + 2, bad)
    ensures Suffix(t, pos, it, eof) == Err(CountsError(bad))
  {
    var open := ['\\' as int, '{' as int];
    assert t[pos + 0] == open[0] && t[pos + 1] == open[1];
    CountsRefused(t, pos + 2, bad);
  }

  /** Stars and a bad interval. */
  lemma StarsAndFailure(t: seq<byte>, next: nat, stars: nat, it: Item, eof: byte, bad: BadCounts)
    requires '\\' as int != eof && (0 < stars ==> '*' as int != eof && Starrable(it))
    requires StandsAt(t, next, StarsText(stars)) && StandsAt(t, next + stars, ['\\' as int, '{' as int])
    requires CountsFail(t, next + stars + 2, bad)
    ensures Suffix(t, next, it, eof) == Err(CountsError(bad))
  {
    StarsRead(t, next, stars, it, eof);
    SuffixFails(t, next + stars, if 0 < stars then Starred(it) else it, eof, bad);
  }

  /** A bad interval behind a piece. */
  lemma IntervalFails(t: seq<byte>, pos: nat, p: Piece, g: Groups, eof: byte, sed: bool, stars: nat, bad: BadCounts)
    requires Fails(t, pos, g, eof, sed, BadInterval(p, stars, bad))
    ensures ItemsFrom(t, pos, g, eof, sed) == Err(CountsError(bad))
  {
    var open, next := ['\\' as int, '{' as int], pos + |PieceText(p)|;
    StandsSplit(t, pos, PieceText(p), StarsText(stars) + open);
    StandsSplit(t, next, StarsText(stars), open);
    BehindStars(t, next, stars, open);
    PieceRead(t, pos, p, g, eof);
    StarsAndFailure(t, next, stars, Item(BaseOf(p, g), Once), eof, bad);
    FinishFails(t, pos, next, BaseOf(p, g), g, Track(p, g), eof, sed, CountsError(bad));
  }

  lemma BehindStars(t: seq<byte>, next: nat, stars: nat, open: seq<byte>)
    requires StandsAt(t, next, StarsText(stars)) && StandsAt(t, next + stars, open) && open == ['\\' as int, '{' as int]
    ensures next < |t| && (t[next] == '*' as int || t[next] == '\\' as int)
    ensures stars == 0 ==> t[next] == '\\' as int
    ensures 0 < stars ==> t[next] == '*' as int
  {
    if 0 < stars {
      assert t[next + 0] == StarsText(stars)[0];
    } else {
      assert t[next + stars + 0] == open[0];
    }
  }

  lemma FinishFails(t: seq<byte>, pos: nat, next: nat, b: Base, g: Groups, g': Groups, eof: byte, sed: bool, code: int)
    requires pos < |t| && t[pos] != eof && t[pos] != NEWLINE && next <= |t|
    requires Primary(t, pos, g, eof) == Ok((b, next, g')) && Suffix(t, next, Item(b, Once), eof) == Err(code)
    ensures ItemsFrom(t, pos, g, eof, sed) == Err(code)
  {
  }

  // ----- brackets -----

  /** Elements that end in a NUL or a newline. */
  lemma {:induction false} ElementsFail(t: seq<byte>, pos: nat, es: seq<Element>, k: nat, c: byte)
    requires k <= |es| && GoodElements(es) && (c == 0 || c == '\n' as int)
    requires StandsAt(t, pos, ElementsText(es[k..]) + [c])
    ensures BracketFrom(t, pos, if k == 0 then 0 else es[k - 1].c, Listed(es, k)) == Err(49)
    decreases |es| - k
  {
    if k == |es| {
      assert ElementsText(es[k..]) + [c] == [c];
      assert t[pos + 0] == [c][0];
    } else {
      TextTail(es, k, [c]);
      StandsSplit(t, pos, ElementText(es[k]), ElementsText(es[k + 1..]) + [c]);
      ElementRead(t, pos, es, k);
      var next := pos + |ElementText(es[k])|;
      ElementsFail(t, next, es, k + 1, c);
      if k + 1 < |es| {
        NotClosed(t, next, es, k + 1, [c]);
      } else {
        assert ElementsText(es[k + 1..]) + [c] == [c];
        assert t[next + 0] == [c][0];
      }
    }
  }

  lemma BracketFails(t: seq<byte>, pos: nat, es: seq<Element>, c: byte)
    requires GoodElements(es) && (c == 0 || c == '\n' as int) && (es != [] ==> es[0] != Lone('^' as int))
    requires StandsAt(t, pos, ElementsText(es) + [c])
    ensures Bracket(t, pos) == Err(49)
  {
    var text := ElementsText(es) + [c];
    assert t[pos + 0] == text[0];
    if es != [] {
      assert GoodElement(es, 0);
      assert text[0] == ElementsText(es)[0] == es[0].c;
    }
    assert es[0..] == es && Listed(es, 0) == {};
    ElementsFail(t, pos, es, 0, c);
  }

  // ----- the whole pattern -----

  lemma FaultFails(t: seq<byte>, pos: nat, g: Groups, eof: byte, sed: bool, f: Fault)
    requires Fails(t, pos, g, eof, sed, f) && g.nbra <= 9
    ensures ItemsFrom(t, pos, g, eof, sed) == Err(ErrorOf(f))
  {
    match f
    case Stray => assert t[pos + 0] == ['\\' as int, ')' as int][0] && t[pos + 1] == ['\\' as int, ')' as int][1];
    case TenthGroup => assert t[pos + 0] == ['\\' as int, '(' as int][0] && t[pos + 1] == ['\\' as int, '(' as int][1];
    case BrokenLine => assert t[pos + 0] == ['\\' as int, '\n' as int][0] && t[pos + 1] == ['\\' as int, '\n' as int][1];
    case EarlyReference(d) => assert t[pos + 0] == ['\\' as int, d][0] && t[pos + 1] == ['\\' as int, d][1];
    case OpenBracket(es, c) =>
      StandsSplit(t, pos, ['[' as int], ElementsText(es) + [c]);
      assert t[pos + 0] == ['[' as int][0];
      BracketFails(t, pos + 1, es, c);
    case BadInterval(p, stars, bad) => IntervalFails(t, pos, p, g, eof, sed, stars, bad);
    case _ =>
  }

  /** A fault behind pieces that are right makes `compile` fail with its error. */
  lemma FaultRefused(t: seq<byte>, start: nat, anchored: bool, ws: seq<Written>, eof: byte, sed: bool, ends: bool, next: nat, f: Fault)
    requires BeginsAt(t, start, anchored, ws, eof, ends, next) && (ws != [] ==> EndsAt(t, next, ws, |ws| - 1, eof, ends))
    requires Fails(t, next, GroupsAt(ws, |ws|), eof, sed, f)
    ensures Pattern(t, start, eof, sed) == Err(ErrorOf(f))
  {
    NineGroups(ws, |ws|);
    FaultFails(t, next, GroupsAt(ws, |ws|), eof, sed, f);
    BeginningRead(t, start, anchored, ws, eof, sed, ends, next, ErrorOf(f));
  }

  lemma {:induction false} NineGroups(ws: seq<Written>, k: nat)
    requires k <= |ws|
    ensures GroupsAt(ws, k).nbra <= 9
    decreases k
  {
    if k != 0 {
      NineGroups(ws, k - 1);
    }
  }
}
