/**
 Patterns as they are written: a list of pieces, each with what repeats it, and the text it makes. `compile` reads the
 text of such a list piece by piece.
 */
module RegexpWritten {
  import opened Bytes
  import opened Numbers
  import opened RegexpCode
  import opened RegexpPattern
  import opened RegexpElements

  /** The numbers between `\{` and `\}`, digit by digit. */
  datatype Counts = Exactly(m: seq<byte>) | AtLeast(m: seq<byte>) | Between(m: seq<byte>, n: seq<byte>)

  /** One piece of a pattern. `Quoted` has a backslash before it, `End` is the `$` that matches the end of the subject. */
  datatype Piece =
    | Literal(c: byte)
    | Quoted(c: byte)
    | NewLine
    | AnyChar
    | OneOf(b: Brackets)
    | Open
    | Close
    | Ref(digit: byte)
    | End

  /** A piece, and what repeats it: stars, perhaps an interval, and more stars behind that. */
  datatype Written = Written(piece: Piece, stars: nat, counts: Option<Counts>, more: nat)

  // ----- the text -----

  function PieceText(p: Piece): seq<byte> {
    match p
    case Literal(c) => [c]
    case Quoted(c) => ['\\' as int, c]
    case NewLine => ['\\' as int, 'n' as int]
    case AnyChar => ['.' as int]
    case OneOf(b) => ['[' as int] + BracketsText(b)
    case Open => ['\\' as int, '(' as int]
    case Close => ['\\' as int, ')' as int]
    case Ref(d) => ['\\' as int, d]
    case End => ['$' as int]
  }

  function NumbersText(c: Counts): seq<byte> {
    match c
    case Exactly(m) => m
    case AtLeast(m) => m + [',' as int]
    case Between(m, n) => m + [',' as int] + n
  }

  function CountsText(c: Counts): seq<byte> {
    ['\\' as int, '{' as int] + (NumbersText(c) + ['\\' as int, '}' as int])
  }

  function StarsText(n: nat): (r: seq<byte>)
    ensures |r| == n
  {
    seq(n, _ => '*' as int)
  }

  function SuffixText(w: Written): seq<byte> {
    StarsText(w.stars) + (match w.counts case None => [] case Some(c) => CountsText(c) + StarsText(w.more))
  }

  function WrittenText(w: Written): seq<byte> {
    PieceText(w.piece) + SuffixText(w)
  }

  function Texts(ws: seq<Written>): (r: seq<seq<byte>>)
    ensures |r| == |ws|
  {
    seq(|ws|, k requires 0 <= k < |ws| => WrittenText(ws[k]))
  }

  function Joined(parts: seq<seq<byte>>): seq<byte> {
    if parts == [] then [] else parts[0] + Joined(parts[1..])
  }

  function TextOf(ws: seq<Written>): seq<byte> {
    Joined(Texts(ws))
  }

  // ----- when it is read as it is meant -----

  /** The groups behind a piece. */
  function Track(p: Piece, g: Groups): Groups {
    match p
    case Open => if g.nbra < NBRA then g.(open := g.open + [g.nbra], nbra := g.nbra + 1) else g
    case Close => if g.open != [] then g.(open := g.open[..|g.open| - 1], closed := g.closed + 1) else g
    case _ => g
  }

  /** The groups before piece `k`. */
  function GroupsAt(ws: seq<Written>, k: nat): Groups
    requires k <= |ws|
  {
    if k == 0 then NO_GROUPS else Track(ws[k - 1].piece, GroupsAt(ws, k - 1))
  }

  predicate GoodNumber(ds: seq<byte>) {
    ds != [] && (forall k :: 0 <= k < |ds| ==> '0' as int <= ds[k] <= '9' as int) && 0 <= Decimal(ds, 0, |ds|) < 255
  }

  predicate GoodCounts(c: Counts) {
    match c
    case Exactly(m) => GoodNumber(m)
    case AtLeast(m) => GoodNumber(m)
    case Between(m, n) => GoodNumber(m) && GoodNumber(n) && Decimal(m, 0, |m|) <= Decimal(n, 0, |n|)
  }

  /** A piece that can be written here: characters with a meaning of their own are quoted, at most nine groups are opened, a
      group is closed only when one is open, and a reference is to one of as many groups as were closed. */
  predicate GoodPiece(p: Piece, g: Groups, eof: byte) {
    match p
    case Literal(c) => c != eof && c !in {'\n' as int, '.' as int, '[' as int, '\\' as int}
    case Quoted(c) =>
      '\\' as int != eof && c !in {'\n' as int, 'n' as int, '(' as int, ')' as int} && !('1' as int <= c <= '9' as int)
    case NewLine => '\\' as int != eof
    case AnyChar => '.' as int != eof
    case OneOf(b) => '[' as int != eof && GoodBrackets(b)
    case Open => '\\' as int != eof && g.nbra < 9
    case Close => '\\' as int != eof && g.open != []
    case Ref(d) => '\\' as int != eof && '1' as int <= d <= '9' as int && d - '0' as int <= g.closed
    case End => '$' as int != eof
  }

  /** A star repeats no bare mark of a group, and nothing repeats the end. */
  predicate GoodSuffix(w: Written, eof: byte) {
    && (0 < w.stars || 0 < w.more ==> '*' as int != eof)
    && (if w.counts.Some? then '\\' as int != eof && GoodCounts(w.counts.value) else w.more == 0)
    && (w.piece.Open? || w.piece.Close? ==> w.stars == 0)
    && (w.piece.End? ==> w.stars == 0 && w.counts.None?)
  }

  predicate IsBare(w: Written) {
    w.stars == 0 && w.counts.None?
  }

  /** What piece `k` must not be mistaken for, given what comes before and after it: `ends` says that the pattern ends behind
      its last piece. */
  predicate GoodPlace(ws: seq<Written>, k: nat, ends: bool)
    requires k < |ws|
  {
    && (ws[k].piece == Literal('*' as int) ==> k == 0 || ((ws[k - 1].piece.Open? || ws[k - 1].piece.Close?) && IsBare(ws[k - 1])))
    && (ws[k].piece == Quoted('{' as int) ==> k == 0)
    && (ws[k].piece == Literal('$' as int) && k == |ws| - 1 && IsBare(ws[k]) ==> !ends)
    && (ws[k].piece.End? ==> k == |ws| - 1 && ends)
  }

  predicate GoodAt(ws: seq<Written>, k: nat, eof: byte, ends: bool)
    requires k < |ws|
  {
    GoodPiece(ws[k].piece, GroupsAt(ws, k), eof) && GoodSuffix(ws[k], eof) && GoodPlace(ws, k, ends)
  }

  predicate GoodPattern(ws: seq<Written>, eof: byte, ends: bool) {
    forall k :: 0 <= k < |ws| ==> GoodAt(ws, k, eof, ends)
  }

  // ----- what it is read as -----

  ghost function BaseOf(p: Piece, g: Groups): Base
    requires match p case Open => g.nbra < NBRA case Close => g.open != [] case Ref(d) => DIGIT0 < d <= DIGIT9 case _ => true
  {
    match p
    case Literal(c) => One(Chr(c))
    case Quoted(c) => One(Chr(c))
    case NewLine => One(Chr('\n' as int))
    case AnyChar => One(Dot)
    case OneOf(b) => One(ClassOf(b.neg, Characters(b)))
    case Open => Bra(g.nbra)
    case Close => Ket(g.open[|g.open| - 1])
    case Ref(d) => Back(d - '1' as int)
    case End => Dol
  }

  /** The bytes of an interval. */
  function BoundsOf(c: Counts): (r: seq<byte>)
    requires GoodCounts(c)
    ensures |r| == 2
  {
    match c
    case Exactly(m) => [Decimal(m, 0, |m|), Decimal(m, 0, |m|)]
    case AtLeast(m) => [Decimal(m, 0, |m|), 255]
    case Between(m, n) => [Decimal(m, 0, |m|), Decimal(n, 0, |n|)]
  }

  function RepeatOf(w: Written): Repeat
    requires w.counts.Some? ==> GoodCounts(w.counts.value)
  {
    if w.counts.Some? then Interval(BoundsOf(w.counts.value)) else if 0 < w.stars then Star else Once
  }

  ghost function ItemOf(ws: seq<Written>, k: nat, eof: byte, ends: bool): Item
    requires k < |ws| && GoodAt(ws, k, eof, ends)
  {
    Item(BaseOf(ws[k].piece, GroupsAt(ws, k)), RepeatOf(ws[k]))
  }

  ghost function ItemsOf(ws: seq<Written>, eof: byte, ends: bool): (r: seq<Item>)
    requires GoodPattern(ws, eof, ends)
    ensures |r| == |ws|
  {
    seq(|ws|, k requires 0 <= k < |ws| => ItemOf(ws, k, eof, ends))
  }

  // ----- numbers -----

  lemma {:induction false} NumberRead(t: seq<byte>, pos: nat, ds: seq<byte>, k: nat)
    requires k < |ds| && StandsAt(t, pos, ds) && pos + |ds| < |t| && t[pos + |ds|] in {BACKSLASH, COMMA}
    requires forall j :: 0 <= j < |ds| ==> IsDigit(ds[j])
    ensures Number(t, pos + k, Wrap32(Decimal(ds, 0, k))) == Ok((Wrap32(Decimal(ds, 0, |ds|)), pos + |ds|))
    decreases |ds| - k
  {
    assert t[pos + k] == ds[k];
    WrapSum(10, Decimal(ds, 0, k), ds[k] - DIGIT0);
    if k + 1 < |ds| {
      assert t[pos + (k + 1)] == ds[k + 1];
      NumberRead(t, pos, ds, k + 1);
    }
  }

  lemma BoundRead(t: seq<byte>, pos: nat, ds: seq<byte>)
    requires GoodNumber(ds) && StandsAt(t, pos, ds) && pos + |ds| < |t| && t[pos + |ds|] in {BACKSLASH, COMMA}
    ensures Bound(t, pos) == Ok((Decimal(ds, 0, |ds|), pos + |ds|))
  {
    NumberRead(t, pos, ds, 0);
    SmallWrap(Decimal(ds, 0, |ds|));
  }

  lemma SmallWrap(x: int)
    requires 0 <= x < 255
    ensures Wrap32(x) == x && x % 256 == x && Wrap32(0) == 0
  {
  }

  lemma FirstAt(t: seq<byte>, pos: nat, a: seq<byte>, b: seq<byte>)
    requires StandsAt(t, pos, a + b) && a != []
    ensures pos < |t| && t[pos] == a[0]
  {
    assert t[pos + 0] == (a + b)[0];
  }

  lemma CountsRead(t: seq<byte>, pos: nat, c: Counts)
    requires GoodCounts(c) && StandsAt(t, pos, NumbersText(c) + ['\\' as int, '}' as int])
    ensures Bounds(t, pos) == Ok((BoundsOf(c), pos + |NumbersText(c)| + 2))
  {
    var close, at := ['\\' as int, '}' as int], pos + |NumbersText(c)|;
    StandsSplit(t, pos, NumbersText(c), close);
    assert t[at + 0] == close[0] && t[at + 1] == close[1];
    match c
    case Exactly(m) => BoundRead(t, pos, m);
    case AtLeast(m) =>
      StandsSplit(t, pos, m, [',' as int]);
      assert t[pos + |m| + 0] == [',' as int][0];
      BoundRead(t, pos, m);
    case Between(m, n) =>
      StandsSplit(t, pos, m + [',' as int], n);
      StandsSplit(t, pos, m, [',' as int]);
      assert t[pos + |m| + 0] == [',' as int][0];
      assert t[pos + |m| + 1 + 0] == n[0];
      BoundRead(t, pos, m);
      BoundRead(t, pos + |m| + 1, n);
  }

  // ----- what repeats a piece -----

  /** Nothing at `p` repeats the item before it. */
  predicate NothingRepeats(t: seq<byte>, p: nat, it: Item, eof: byte) {
    && p <= |t|
    && (p == |t| || t[p] == eof || !((t[p] == '*' as int && Starrable(it)) || (t[p] == '\\' as int && Peek(t, p + 1) == '{' as int)))
  }

  lemma {:induction false} StarsRead(t: seq<byte>, pos: nat, n: nat, it: Item, eof: byte)
    requires StandsAt(t, pos, StarsText(n)) && (0 < n ==> '*' as int != eof && Starrable(it))
    ensures Suffix(t, pos, it, eof) == Suffix(t, pos + n, if 0 < n then Starred(it) else it, eof)
    decreases n
  {
    if n != 0 {
      assert StarsText(n) == ['*' as int] + StarsText(n - 1);
      StandsSplit(t, pos, ['*' as int], StarsText(n - 1));
      assert t[pos + 0] == ['*' as int][0];
      StarsRead(t, pos + 1, n - 1, Starred(it), eof);
      assert Starred(Starred(it)) == Starred(it);
    }
  }

  lemma CountsSuffix(t: seq<byte>, pos: nat, c: Counts, it: Item, eof: byte, next: nat, r: Result<(Item, nat)>)
    requires GoodCounts(c) && StandsAt(t, pos, CountsText(c)) && '\\' as int != eof && !it.rep.Interval?
    requires next == pos + |CountsText(c)| && r == Suffix(t, next, Item(it.base, Interval(BoundsOf(c))), eof)
    ensures Suffix(t, pos, it, eof) == r
  {
    var open, rest := ['\\' as int, '{' as int], NumbersText(c) + ['\\' as int, '}' as int];
    StandsSplit(t, pos, open, rest);
    assert t[pos + 0] == open[0] && t[pos + 1] == open[1];
    CountsRead(t, pos + 2, c);
    assert [] + BoundsOf(c) == BoundsOf(c);
  }

  /** An interval, and the stars behind it, which do nothing. */
  lemma IntervalRead(t: seq<byte>, pos: nat, c: Counts, more: nat, it: Item, eof: byte, next: nat, r: Result<(Item, nat)>)
    requires GoodCounts(c) && '\\' as int != eof && (0 < more ==> '*' as int != eof) && !it.rep.Interval?
    requires StandsAt(t, pos, CountsText(c) + StarsText(more)) && next == pos + |CountsText(c)| + more
    requires r == Suffix(t, next, Item(it.base, Interval(BoundsOf(c))), eof)
    ensures Suffix(t, pos, it, eof) == r
  {
    StandsSplit(t, pos, CountsText(c), StarsText(more));
    var mid := pos + |CountsText(c)|;
    StarsRead(t, mid, more, Item(it.base, Interval(BoundsOf(c))), eof);
    CountsSuffix(t, pos, c, it, eof, mid, r);
  }

  /** Stars, an interval, and more stars. */
  lemma StarsAndInterval(t: seq<byte>, pos: nat, stars: nat, c: Counts, more: nat, base: Base, eof: byte, next: nat,
                         r: Result<(Item, nat)>)
    requires GoodCounts(c) && '\\' as int != eof && (0 < stars || 0 < more ==> '*' as int != eof)
    requires base.Bra? || base.Ket? ==> stars == 0
    requires StandsAt(t, pos, StarsText(stars)) && StandsAt(t, pos + stars, CountsText(c) + StarsText(more))
    requires next == pos + stars + |CountsText(c)| + more && r == Suffix(t, next, Item(base, Interval(BoundsOf(c))), eof)
    ensures Suffix(t, pos, Item(base, Once), eof) == r
  {
    var it := if 0 < stars then Starred(Item(base, Once)) else Item(base, Once);
    IntervalRead(t, pos + stars, c, more, it, eof, next, r);
    StarsRead(t, pos, stars, Item(base, Once), eof);
  }

  lemma SuffixRead(t: seq<byte>, pos: nat, w: Written, base: Base, eof: byte, next: nat, r: Result<(Item, nat)>)
    requires GoodSuffix(w, eof) && StandsAt(t, pos, SuffixText(w)) && (base.Bra? || base.Ket? ==> w.stars == 0)
    requires next == pos + |SuffixText(w)| && r == Suffix(t, next, Item(base, RepeatOf(w)), eof)
    ensures Suffix(t, pos, Item(base, Once), eof) == r
  {
    match w.counts
    case None =>
      assert SuffixText(w) == StarsText(w.stars);
      StarsRead(t, pos, w.stars, Item(base, Once), eof);
    case Some(c) =>
      StandsSplit(t, pos, StarsText(w.stars), CountsText(c) + StarsText(w.more));
      StarsAndInterval(t, pos, w.stars, c, w.more, base, eof, next, r);
  }

  lemma SuffixEnds(t: seq<byte>, p: nat, it: Item, eof: byte)
    requires NothingRepeats(t, p, it, eof)
    ensures Suffix(t, p, it, eof) == Ok((it, p))
  {
  }

  // ----- one piece -----

  /** The `$` before the end of the pattern is special, and no other one is. */
  predicate DollarFits(t: seq<byte>, next: nat, p: Piece, eof: byte) {
    && (p == Literal('$' as int) ==> Peek(t, next) != eof && Peek(t, next) != '\n' as int)
    && (p.End? ==> Peek(t, next) == eof || Peek(t, next) == '\n' as int)
  }

  lemma PieceRead(t: seq<byte>, pos: nat, p: Piece, g: Groups, eof: byte)
    requires GoodPiece(p, g, eof) && StandsAt(t, pos, PieceText(p)) && DollarFits(t, pos + |PieceText(p)|, p, eof)
    ensures pos < |t| && t[pos] != eof && t[pos] != NEWLINE
    ensures Primary(t, pos, g, eof) == Ok((BaseOf(p, g), pos + |PieceText(p)|, Track(p, g)))
  {
    var e := PieceText(p);
    assert t[pos + 0] == e[0];
    match p
    case Literal(_) =>
    case AnyChar =>
    case End =>
    case OneOf(b) =>
      StandsSplit(t, pos, ['[' as int], BracketsText(b));
      BracketsRead(t, pos + 1, b);
    case _ => assert t[pos + 1] == e[1];
  }

  // ----- a whole pattern -----

  function Prepend(it: Item, r: Result<Parsed>): Result<Parsed> {
    match r case Ok(p) => Ok(Cons(it, p)) case Err(e) => Err(e)
  }

  /** A result behind several items. */
  function PrependAll(items: seq<Item>, r: Result<Parsed>): Result<Parsed> {
    match r case Ok(p) => Ok(p.(items := items + p.items)) case Err(e) => Err(e)
  }

  /** Results that are each an item in front of the next one. */
  ghost predicate InFront(results: seq<Result<Parsed>>, items: seq<Item>) {
    && |results| == |items| + 1
    && forall j {:trigger items[j]} :: 0 <= j < |items| ==> results[j] == Prepend(items[j], results[j + 1])
  }

  lemma FoldAll(results: seq<Result<Parsed>>, items: seq<Item>, first: Result<Parsed>, last: Result<Parsed>)
    requires InFront(results, items) && first == results[0] && last == results[|items|]
    ensures first == PrependAll(items, last)
  {
    Fold(results, items, 0);
    assert items[0..] == items;
  }

  lemma {:induction false} Fold(results: seq<Result<Parsed>>, items: seq<Item>, k: nat)
    requires InFront(results, items) && k <= |items|
    ensures results[k] == PrependAll(items[k..], results[|items|])
    decreases |items| - k
  {
    var last := results[|items|];
    if k == |items| {
      assert items[k..] == [] && (last.Ok? ==> [] + last.value.items == last.value.items);
    } else {
      Fold(results, items, k + 1);
      assert items[k..] == [items[k]] + items[k + 1..];
      assert last.Ok? ==> [items[k]] + (items[k + 1..] + last.value.items) == items[k..] + last.value.items;
    }
  }

  /** One piece with what repeats it. */
  lemma OneRead(t: seq<byte>, pos: nat, w: Written, g: Groups, eof: byte, sed: bool, next: nat, r: Result<Parsed>)
    requires GoodPiece(w.piece, g, eof) && GoodSuffix(w, eof) && StandsAt(t, pos, WrittenText(w))
    requires next == pos + |WrittenText(w)| && NothingRepeats(t, next, Item(BaseOf(w.piece, g), RepeatOf(w)), eof)
    requires DollarFits(t, pos + |PieceText(w.piece)|, w.piece, eof)
    requires r == ItemsFrom(t, next, Track(w.piece, g), eof, sed)
    ensures ItemsFrom(t, pos, g, eof, sed) == Prepend(Item(BaseOf(w.piece, g), RepeatOf(w)), r)
  {
    StandsSplit(t, pos, PieceText(w.piece), SuffixText(w));
    PieceRead(t, pos, w.piece, g, eof);
    WithSuffix(t, pos, pos + |PieceText(w.piece)|, w, BaseOf(w.piece, g), g, Track(w.piece, g), eof, sed, next, r);
  }

  lemma WithSuffix(t: seq<byte>, pos: nat, p: nat, w: Written, b: Base, g: Groups, g': Groups, eof: byte, sed: bool, next: nat,
                   r: Result<Parsed>)
    requires pos < |t| && t[pos] != eof && t[pos] != NEWLINE && Primary(t, pos, g, eof) == Ok((b, p, g'))
    requires GoodSuffix(w, eof) && StandsAt(t, p, SuffixText(w)) && next == p + |SuffixText(w)|
    requires (b.Bra? || b.Ket? ==> w.stars == 0) && NothingRepeats(t, next, Item(b, RepeatOf(w)), eof)
    requires r == ItemsFrom(t, next, g', eof, sed)
    ensures ItemsFrom(t, pos, g, eof, sed) == Prepend(Item(b, RepeatOf(w)), r)
  {
    var it := Item(b, RepeatOf(w));
    SuffixEnds(t, next, it, eof);
    SuffixRead(t, p, w, b, eof, next, Ok((it, next)));
    FinishIs(t, pos, p, b, g, g', eof, sed, it, next, r);
  }

  lemma FinishIs(t: seq<byte>, pos: nat, p: nat, b: Base, g: Groups, g': Groups, eof: byte, sed: bool, it: Item, next: nat,
                 r: Result<Parsed>)
    requires pos < |t| && t[pos] != eof && t[pos] != NEWLINE && p <= |t|
    requires Primary(t, pos, g, eof) == Ok((b, p, g')) && Suffix(t, p, Item(b, Once), eof) == Ok((it, next))
    requires r == ItemsFrom(t, next, g', eof, sed)
    ensures ItemsFrom(t, pos, g, eof, sed) == Prepend(it, r)
  {
  }

  /** The first character of a piece, and the one behind a backslash. */
  lemma HeadIs(t: seq<byte>, pos: nat, p: Piece, rest: seq<byte>, g: Groups, eof: byte)
    requires GoodPiece(p, g, eof) && StandsAt(t, pos, PieceText(p) + rest)
    ensures pos < |t| && t[pos] != eof && t[pos] != '\n' as int
    ensures t[pos] == '*' as int ==> p == Literal('*' as int)
    ensures t[pos] == '\\' as int ==> Peek(t, pos + 1) == '{' as int ==> p == Quoted('{' as int)
  {
    var e := PieceText(p) + rest;
    assert t[pos + 0] == e[0] == PieceText(p)[0];
    if 2 <= |PieceText(p)| {
      assert t[pos + 1] == e[1] == PieceText(p)[1];
    }
  }

  /** A piece stands between two places. */
  ghost predicate PieceAt(t: seq<byte>, at: nat, w: Written, next: nat) {
    StandsAt(t, at, WrittenText(w)) && next == at + |WrittenText(w)|
  }

  /** What the pattern goes on with does not repeat piece `k`. */
  lemma NextRepeatsNothing(t: seq<byte>, p: nat, ws: seq<Written>, k: nat, eof: byte, ends: bool)
    requires k + 1 < |ws| && GoodAt(ws, k, eof, ends) && GoodAt(ws, k + 1, eof, ends) && StandsAt(t, p, WrittenText(ws[k + 1]))
    ensures NothingRepeats(t, p, ItemOf(ws, k, eof, ends), eof)
    ensures p < |t| && t[p] != eof && t[p] != '\n' as int
  {
    HeadIs(t, p, ws[k + 1].piece, SuffixText(ws[k + 1]), GroupsAt(ws, k + 1), eof);
    BareMark(ws, k, eof, ends);
    HeadRepeatsNothing(t, p, ws[k + 1].piece, ItemOf(ws, k, eof, ends), eof);
  }

  lemma BareMark(ws: seq<Written>, k: nat, eof: byte, ends: bool)
    requires k + 1 < |ws| && GoodAt(ws, k, eof, ends) && GoodPlace(ws, k + 1, ends)
    ensures ws[k + 1].piece == Literal('*' as int) ==> !Starrable(ItemOf(ws, k, eof, ends))
    ensures ws[k + 1].piece != Quoted('{' as int)
  {
  }

  lemma HeadRepeatsNothing(t: seq<byte>, p: nat, next: Piece, it: Item, eof: byte)
    requires p < |t| && (t[p] == '*' as int ==> next == Literal('*' as int))
    requires t[p] == '\\' as int ==> Peek(t, p + 1) == '{' as int ==> next == Quoted('{' as int)
    requires (next == Literal('*' as int) ==> !Starrable(it)) && next != Quoted('{' as int)
    ensures NothingRepeats(t, p, it, eof)
  {
  }

  /** What stands behind the pattern does not repeat its last piece, `k`, and is its end or not as `ends` says. */
  ghost predicate EndsAt(t: seq<byte>, next: nat, ws: seq<Written>, k: nat, eof: byte, ends: bool)
    requires k < |ws| && GoodAt(ws, k, eof, ends)
  {
    && (ends <==> Peek(t, next) == eof || Peek(t, next) == '\n' as int)
    && NothingRepeats(t, next, ItemOf(ws, k, eof, ends), eof)
  }

  /** What follows a piece: its repetition, the next piece, or the end. */
  lemma DollarRead(t: seq<byte>, pos: nat, ws: seq<Written>, k: nat, eof: byte, ends: bool, next: nat)
    requires k < |ws| && GoodAt(ws, k, eof, ends) && PieceAt(t, pos, ws[k], next)
    requires if k == |ws| - 1 then ends <==> Peek(t, next) == eof || Peek(t, next) == '\n' as int
             else next < |t| && t[next] != eof && t[next] != '\n' as int
    ensures DollarFits(t, pos + |PieceText(ws[k].piece)|, ws[k].piece, eof)
  {
    var w := ws[k];
    StandsSplit(t, pos, PieceText(w.piece), SuffixText(w));
    var p := pos + |PieceText(w.piece)|;
    if IsBare(w) {
      assert SuffixText(w) == [];
    } else {
      assert t[p + 0] == SuffixText(w)[0];
      assert SuffixText(w)[0] == if 0 < w.stars then '*' as int else '\\' as int;
    }
  }

  /** Behind piece `k` comes another one, */
  lemma BehindInner(t: seq<byte>, pos: nat, ws: seq<Written>, k: nat, eof: byte, ends: bool, mid: nat)
    requires k + 1 < |ws| && GoodAt(ws, k, eof, ends) && GoodAt(ws, k + 1, eof, ends)
    requires PieceAt(t, pos, ws[k], mid) && StandsAt(t, mid, WrittenText(ws[k + 1]))
    ensures NothingRepeats(t, mid, ItemOf(ws, k, eof, ends), eof)
    ensures DollarFits(t, pos + |PieceText(ws[k].piece)|, ws[k].piece, eof)
  {
    NextRepeatsNothing(t, mid, ws, k, eof, ends);
    DollarRead(t, pos, ws, k, eof, ends, mid);
  }

  /** or what follows the pattern. */
  lemma BehindLast(t: seq<byte>, pos: nat, ws: seq<Written>, k: nat, eof: byte, ends: bool, mid: nat)
    requires k + 1 == |ws| && GoodAt(ws, k, eof, ends) && EndsAt(t, mid, ws, k, eof, ends) && PieceAt(t, pos, ws[k], mid)
    ensures NothingRepeats(t, mid, ItemOf(ws, k, eof, ends), eof)
    ensures DollarFits(t, pos + |PieceText(ws[k].piece)|, ws[k].piece, eof)
  {
    DollarRead(t, pos, ws, k, eof, ends, mid);
  }

  lemma StepRead(t: seq<byte>, pos: nat, ws: seq<Written>, k: nat, eof: byte, sed: bool, ends: bool, mid: nat, r: Result<Parsed>)
    requires k < |ws| && GoodAt(ws, k, eof, ends) && PieceAt(t, pos, ws[k], mid)
    requires NothingRepeats(t, mid, ItemOf(ws, k, eof, ends), eof)
    requires DollarFits(t, pos + |PieceText(ws[k].piece)|, ws[k].piece, eof)
    requires r == ItemsFrom(t, mid, GroupsAt(ws, k + 1), eof, sed)
    ensures ItemsFrom(t, pos, GroupsAt(ws, k), eof, sed) == Prepend(ItemOf(ws, k, eof, ends), r)
  {
    OneRead(t, pos, ws[k], GroupsAt(ws, k), eof, sed, mid, r);
  }

  /** One piece of the pattern, in front of the others. */
  lemma InnerRead(t: seq<byte>, pos: nat, ws: seq<Written>, k: nat, eof: byte, sed: bool, ends: bool, mid: nat, r: Result<Parsed>)
    requires k + 1 < |ws| && GoodAt(ws, k, eof, ends) && GoodAt(ws, k + 1, eof, ends)
    requires PieceAt(t, pos, ws[k], mid) && StandsAt(t, mid, WrittenText(ws[k + 1]))
    requires r == ItemsFrom(t, mid, GroupsAt(ws, k + 1), eof, sed)
    ensures ItemsFrom(t, pos, GroupsAt(ws, k), eof, sed) == Prepend(ItemOf(ws, k, eof, ends), r)
  {
    BehindInner(t, pos, ws, k, eof, ends, mid);
    StepRead(t, pos, ws, k, eof, sed, ends, mid, r);
  }

  lemma LastRead(t: seq<byte>, pos: nat, ws: seq<Written>, k: nat, eof: byte, sed: bool, ends: bool, mid: nat, r: Result<Parsed>)
    requires k + 1 == |ws| && GoodAt(ws, k, eof, ends) && EndsAt(t, mid, ws, k, eof, ends) && PieceAt(t, pos, ws[k], mid)
    requires r == ItemsFrom(t, mid, GroupsAt(ws, k + 1), eof, sed)
    ensures ItemsFrom(t, pos, GroupsAt(ws, k), eof, sed) == Prepend(ItemOf(ws, k, eof, ends), r)
  {
    BehindLast(t, pos, ws, k, eof, ends, mid);
    StepRead(t, pos, ws, k, eof, sed, ends, mid, r);
  }

  // ----- the places of the pieces -----

  /** Where each part begins, and where the last one ends. */
  function Places(parts: seq<seq<byte>>, pos: nat): (r: seq<nat>)
    ensures |r| == |parts| + 1 && r[0] == pos
  {
    if parts == [] then [pos] else [pos] + Places(parts[1..], pos + |parts[0]|)
  }

  lemma {:induction false} PartsStand(t: seq<byte>, pos: nat, parts: seq<seq<byte>>)
    requires StandsAt(t, pos, Joined(parts))
    ensures Places(parts, pos)[|parts|] == pos + |Joined(parts)|
    ensures forall k {:trigger parts[k]} :: 0 <= k < |parts| ==>
              StandsAt(t, Places(parts, pos)[k], parts[k]) && Places(parts, pos)[k + 1] == Places(parts, pos)[k] + |parts[k]|
    decreases |parts|
  {
    if parts != [] {
      StandsSplit(t, pos, parts[0], Joined(parts[1..]));
      var next, at := Places(parts[1..], pos + |parts[0]|), Places(parts, pos);
      PartsStand(t, pos + |parts[0]|, parts[1..]);
      forall k | 0 <= k < |parts|
        ensures StandsAt(t, at[k], parts[k]) && at[k + 1] == at[k] + |parts[k]|
      {
        if k != 0 {
          assert at[k] == next[k - 1] && at[k + 1] == next[k] && parts[k] == parts[1..][k - 1];
        }
      }
    }
  }

  /** The pieces stand at these places. */
  ghost predicate PlacedAt(t: seq<byte>, at: seq<nat>, ws: seq<Written>) {
    |at| == |ws| + 1 && forall k {:trigger ws[k]} :: 0 <= k < |ws| ==> PieceAt(t, at[k], ws[k], at[k + 1])
  }

  lemma PiecesPlaced(t: seq<byte>, pos: nat, ws: seq<Written>) returns (at: seq<nat>)
    requires StandsAt(t, pos, TextOf(ws))
    ensures PlacedAt(t, at, ws) && at[0] == pos && at[|ws|] == pos + |TextOf(ws)|
  {
    var parts := Texts(ws);
    PartsStand(t, pos, parts);
    at := Places(parts, pos);
    forall k | 0 <= k < |ws|
      ensures PieceAt(t, at[k], ws[k], at[k + 1])
    {
      assert StandsAt(t, at[k], parts[k]);
    }
  }

  /** What is read from each piece on. */
  ghost predicate ReadFrom(t: seq<byte>, at: seq<nat>, ws: seq<Written>, eof: byte, sed: bool, results: seq<Result<Parsed>>) {
    && |at| == |results| == |ws| + 1
    && forall k {:trigger results[k]} :: 0 <= k <= |ws| ==> results[k] == ItemsFrom(t, at[k], GroupsAt(ws, k), eof, sed)
  }

  lemma GoodPair(t: seq<byte>, at: seq<nat>, ws: seq<Written>, k: nat, eof: byte, ends: bool)
    requires k < |ws| && GoodPattern(ws, eof, ends) && PlacedAt(t, at, ws)
    ensures GoodAt(ws, k, eof, ends) && PieceAt(t, at[k], ws[k], at[k + 1])
    ensures k + 1 < |ws| ==> GoodAt(ws, k + 1, eof, ends) && StandsAt(t, at[k + 1], WrittenText(ws[k + 1]))
    ensures ItemsOf(ws, eof, ends)[k] == ItemOf(ws, k, eof, ends)
  {
    assert k + 1 < |ws| ==> PieceAt(t, at[k + 1], ws[k + 1], at[k + 2]);
  }

  lemma StepOrLast(t: seq<byte>, pos: nat, ws: seq<Written>, k: nat, eof: byte, sed: bool, ends: bool, mid: nat, r: Result<Parsed>)
    requires k < |ws| && GoodAt(ws, k, eof, ends) && PieceAt(t, pos, ws[k], mid)
    requires if k + 1 < |ws| then GoodAt(ws, k + 1, eof, ends) && StandsAt(t, mid, WrittenText(ws[k + 1]))
             else EndsAt(t, mid, ws, k, eof, ends)
    requires r == ItemsFrom(t, mid, GroupsAt(ws, k + 1), eof, sed)
    ensures ItemsFrom(t, pos, GroupsAt(ws, k), eof, sed) == Prepend(ItemOf(ws, k, eof, ends), r)
  {
    if k + 1 < |ws| {
      InnerRead(t, pos, ws, k, eof, sed, ends, mid, r);
    } else {
      LastRead(t, pos, ws, k, eof, sed, ends, mid, r);
    }
  }

  lemma ResultsStep(t: seq<byte>, pos: nat, mid: nat, ws: seq<Written>, k: nat, eof: byte, sed: bool, ends: bool,
                    r: Result<Parsed>, r': Result<Parsed>, it: Item)
    requires k < |ws| && GoodAt(ws, k, eof, ends) && PieceAt(t, pos, ws[k], mid) && it == ItemOf(ws, k, eof, ends)
    requires if k + 1 < |ws| then GoodAt(ws, k + 1, eof, ends) && StandsAt(t, mid, WrittenText(ws[k + 1]))
             else EndsAt(t, mid, ws, k, eof, ends)
    requires r == ItemsFrom(t, pos, GroupsAt(ws, k), eof, sed) && r' == ItemsFrom(t, mid, GroupsAt(ws, k + 1), eof, sed)
    ensures r == Prepend(it, r')
  {
    StepOrLast(t, pos, ws, k, eof, sed, ends, mid, r');
  }

  lemma LastEnds(t: seq<byte>, at: seq<nat>, ws: seq<Written>, k: nat, eof: byte, ends: bool)
    requires k < |ws| && |at| == |ws| + 1 && GoodAt(ws, |ws| - 1, eof, ends) && EndsAt(t, at[|ws|], ws, |ws| - 1, eof, ends)
    ensures k + 1 == |ws| ==> GoodAt(ws, k, eof, ends) && EndsAt(t, at[k + 1], ws, k, eof, ends)
  {
  }

  lemma InFrontAt(t: seq<byte>, at: seq<nat>, ws: seq<Written>, k: nat, eof: byte, sed: bool, ends: bool, r: Result<Parsed>,
                  r': Result<Parsed>, items: seq<Item>)
    requires k < |ws| && GoodPattern(ws, eof, ends) && PlacedAt(t, at, ws) && EndsAt(t, at[|ws|], ws, |ws| - 1, eof, ends)
    requires items == ItemsOf(ws, eof, ends)
    requires r == ItemsFrom(t, at[k], GroupsAt(ws, k), eof, sed) && r' == ItemsFrom(t, at[k + 1], GroupsAt(ws, k + 1), eof, sed)
    ensures r == Prepend(items[k], r')
  {
    var pos, mid, it := at[k], at[k + 1], items[k];
    GoodPair(t, at, ws, k, eof, ends);
    LastEnds(t, at, ws, k, eof, ends);
    ResultsStep(t, pos, mid, ws, k, eof, sed, ends, r, r', it);
  }

  lemma ResultsInFront(t: seq<byte>, at: seq<nat>, ws: seq<Written>, eof: byte, sed: bool, ends: bool,
                       results: seq<Result<Parsed>>, items: seq<Item>)
    requires ws != [] && GoodPattern(ws, eof, ends) && PlacedAt(t, at, ws) && EndsAt(t, at[|ws|], ws, |ws| - 1, eof, ends)
    requires ReadFrom(t, at, ws, eof, sed, results) && items == ItemsOf(ws, eof, ends)
    ensures InFront(results, items)
  {
    forall k {:trigger items[k]} | 0 <= k < |items|
      ensures results[k] == Prepend(items[k], results[k + 1])
    {
      InFrontAt(t, at, ws, k, eof, sed, ends, results[k], results[k + 1], items);
    }
  }

  ghost function Results(t: seq<byte>, at: seq<nat>, ws: seq<Written>, eof: byte, sed: bool): (r: seq<Result<Parsed>>)
    requires |at| == |ws| + 1
    ensures ReadFrom(t, at, ws, eof, sed, r)
  {
    seq(|ws| + 1, k requires 0 <= k <= |ws| => ItemsFrom(t, at[k], GroupsAt(ws, k), eof, sed))
  }

  lemma FirstAndLast(t: seq<byte>, at: seq<nat>, ws: seq<Written>, eof: byte, sed: bool, results: seq<Result<Parsed>>)
    requires ReadFrom(t, at, ws, eof, sed, results)
    ensures results[0] == ItemsFrom(t, at[0], NO_GROUPS, eof, sed)
    ensures results[|ws|] == ItemsFrom(t, at[|ws|], GroupsAt(ws, |ws|), eof, sed)
  {
  }

  /** The pieces, in front of whatever follows them. */
  lemma PiecesRead(t: seq<byte>, at: seq<nat>, ws: seq<Written>, eof: byte, sed: bool, ends: bool)
    requires ws != [] && GoodPattern(ws, eof, ends) && PlacedAt(t, at, ws) && EndsAt(t, at[|ws|], ws, |ws| - 1, eof, ends)
    ensures ItemsFrom(t, at[0], NO_GROUPS, eof, sed) ==
            PrependAll(ItemsOf(ws, eof, ends), ItemsFrom(t, at[|ws|], GroupsAt(ws, |ws|), eof, sed))
  {
    var results := Results(t, at, ws, eof, sed);
    ResultsInFront(t, at, ws, eof, sed, ends, results, ItemsOf(ws, eof, ends));
    FirstAndLast(t, at, ws, eof, sed, results);
    FoldAll(results, ItemsOf(ws, eof, ends), results[0], results[|ws|]);
  }

  // ----- a whole pattern -----

  /** The pattern `ws`, behind `^` if it is anchored, stands at `start`, and ends at `next`. */
  ghost predicate PatternAt(t: seq<byte>, start: nat, anchored: bool, ws: seq<Written>, eof: byte, sed: bool, next: nat) {
    var text := (if anchored then ['^' as int] else []) + TextOf(ws);
    && GoodPattern(ws, eof, true) && StandsAt(t, start, text) && next == start + |text|
    && next < |t| && (t[next] == eof || (t[next] == '\n' as int && !sed))
    && (!anchored ==> ws != [] && ws[0].piece != Literal('^' as int))
    && GroupsAt(ws, |ws|).open == []
  }

  lemma EndRepeatsNothing(t: seq<byte>, next: nat, it: Item, eof: byte)
    requires next < |t| && (t[next] == eof || t[next] == '\n' as int)
    ensures NothingRepeats(t, next, it, eof)
  {
  }

  /** The end of a pattern. */
  lemma EndRead(t: seq<byte>, next: nat, g: Groups, eof: byte, sed: bool)
    requires next < |t| && (t[next] == eof || (t[next] == '\n' as int && !sed)) && g.open == []
    ensures ItemsFrom(t, next, g, eof, sed) == Ok(Parsed([], g, next))
  {
  }

  lemma NoneBehind(items: seq<Item>, g: Groups, next: nat)
    ensures PrependAll(items, Ok(Parsed([], g, next))) == Ok(Parsed(items, g, next))
  {
    assert items + [] == items;
  }

  /** The pieces of a pattern, up to its end. */
  lemma AllRead(t: seq<byte>, at: seq<nat>, ws: seq<Written>, eof: byte, sed: bool)
    requires GoodPattern(ws, eof, true) && PlacedAt(t, at, ws) && at[|ws|] < |t|
    requires (t[at[|ws|]] == eof || (t[at[|ws|]] == '\n' as int && !sed)) && GroupsAt(ws, |ws|).open == []
    ensures ItemsFrom(t, at[0], NO_GROUPS, eof, sed) == Ok(Parsed(ItemsOf(ws, eof, true), GroupsAt(ws, |ws|), at[|ws|]))
  {
    EndRead(t, at[|ws|], GroupsAt(ws, |ws|), eof, sed);
    if ws != [] {
      assert GoodAt(ws, |ws| - 1, eof, true);
      EndRepeatsNothing(t, at[|ws|], ItemOf(ws, |ws| - 1, eof, true), eof);
      PiecesRead(t, at, ws, eof, sed, true);
      NoneBehind(ItemsOf(ws, eof, true), GroupsAt(ws, |ws|), at[|ws|]);
    }
  }

  lemma FirstIs(t: seq<byte>, start: nat, w: Written, g: Groups, eof: byte)
    requires GoodPiece(w.piece, g, eof) && StandsAt(t, start, WrittenText(w)) && w.piece != Literal('^' as int)
    ensures start < |t| && t[start] != '^' as int
  {
    FirstAt(t, start, PieceText(w.piece), SuffixText(w));
  }

  lemma FrontIs(t: seq<byte>, start: nat, anchored: bool, at: seq<nat>, ws: seq<Written>, eof: byte, ends: bool, front: seq<byte>)
    requires GoodPattern(ws, eof, ends) && front == (if anchored then ['^' as int] else [])
    requires StandsAt(t, start, front) && PlacedAt(t, at, ws) && at[0] == start + |front|
    requires !anchored ==> if ws == [] then Peek(t, start) != '^' as int else ws[0].piece != Literal('^' as int)
    ensures Peek(t, start) == '^' as int <==> anchored
  {
    if anchored {
      assert t[start + 0] == front[0];
    } else if ws != [] {
      assert GoodAt(ws, 0, eof, ends) && PieceAt(t, at[0], ws[0], at[1]);
      FirstIs(t, start, ws[0], GroupsAt(ws, 0), eof);
    }
  }

  /** Pieces that may begin a pattern stand at `start`, behind `^` if it is anchored, and go up to `next`. */
  ghost predicate BeginsAt(t: seq<byte>, start: nat, anchored: bool, ws: seq<Written>, eof: byte, ends: bool, next: nat) {
    var text := (if anchored then ['^' as int] else []) + TextOf(ws);
    && GoodPattern(ws, eof, ends) && StandsAt(t, start, text) && next == start + |text|
    && (!anchored ==> if ws == [] then Peek(t, start) != '^' as int else ws[0].piece != Literal('^' as int))
  }

  /** The places of the pieces of a pattern. */
  lemma PatternPlaced(t: seq<byte>, start: nat, anchored: bool, ws: seq<Written>, eof: byte, ends: bool, next: nat)
    returns (at: seq<nat>)
    requires BeginsAt(t, start, anchored, ws, eof, ends, next)
    ensures PlacedAt(t, at, ws) && at[0] == (if anchored then start + 1 else start) && at[|ws|] == next
    ensures Peek(t, start) == '^' as int <==> anchored
  {
    var front := if anchored then ['^' as int] else [];
    StandsSplit(t, start, front, TextOf(ws));
    at := PiecesPlaced(t, start + |front|, ws);
    FrontIs(t, start, anchored, at, ws, eof, ends, front);
  }

  lemma PatternFrom(t: seq<byte>, start: nat, anchored: bool, eof: byte, sed: bool, from: nat, r: Result<Parsed>)
    requires Peek(t, start) == '^' as int <==> anchored
    requires from == (if anchored then start + 1 else start) && r == ItemsFrom(t, from, NO_GROUPS, eof, sed)
    ensures Pattern(t, start, eof, sed) == r
  {
  }

  lemma PlacedRead(t: seq<byte>, at: seq<nat>, ws: seq<Written>, eof: byte, sed: bool, from: nat, next: nat)
    requires GoodPattern(ws, eof, true) && PlacedAt(t, at, ws) && at[0] == from && at[|ws|] == next < |t|
    requires (t[next] == eof || (t[next] == '\n' as int && !sed)) && GroupsAt(ws, |ws|).open == []
    ensures ItemsFrom(t, from, NO_GROUPS, eof, sed) == Ok(Parsed(ItemsOf(ws, eof, true), GroupsAt(ws, |ws|), next))
  {
    AllRead(t, at, ws, eof, sed);
  }

  /** The text of a pattern is read as its pieces. */
  lemma PatternRead(t: seq<byte>, start: nat, anchored: bool, ws: seq<Written>, eof: byte, sed: bool, next: nat)
    requires PatternAt(t, start, anchored, ws, eof, sed, next)
    ensures Peek(t, start) == '^' as int <==> anchored
    ensures Pattern(t, start, eof, sed) == Ok(Parsed(ItemsOf(ws, eof, true), GroupsAt(ws, |ws|), next))
  {
    var from := if anchored then start + 1 else start;
    var at := PatternPlaced(t, start, anchored, ws, eof, true, next);
    PlacedRead(t, at, ws, eof, sed, from, next);
    PatternFrom(t, start, anchored, eof, sed, from, Ok(Parsed(ItemsOf(ws, eof, true), GroupsAt(ws, |ws|), next)));
  }

  /** A pattern that begins with these pieces fails as what follows them does. */
  lemma BeginningRead(t: seq<byte>, start: nat, anchored: bool, ws: seq<Written>, eof: byte, sed: bool, ends: bool, next: nat,
                      code: int)
    requires BeginsAt(t, start, anchored, ws, eof, ends, next) && (ws != [] ==> EndsAt(t, next, ws, |ws| - 1, eof, ends))
    requires ItemsFrom(t, next, GroupsAt(ws, |ws|), eof, sed) == Err(code)
    ensures Pattern(t, start, eof, sed) == Err(code)
  {
    var from := if anchored then start + 1 else start;
    var at := PatternPlaced(t, start, anchored, ws, eof, ends, next);
    PlacedFails(t, at, ws, eof, sed, ends, from, next, code);
    PatternFrom(t, start, anchored, eof, sed, from, Err(code));
  }

  lemma PlacedFails(t: seq<byte>, at: seq<nat>, ws: seq<Written>, eof: byte, sed: bool, ends: bool, from: nat, next: nat, code: int)
    requires GoodPattern(ws, eof, ends) && PlacedAt(t, at, ws) && at[0] == from && at[|ws|] == next
    requires ws != [] ==> EndsAt(t, next, ws, |ws| - 1, eof, ends)
    requires ItemsFrom(t, next, GroupsAt(ws, |ws|), eof, sed) == Err(code)
    ensures ItemsFrom(t, from, NO_GROUPS, eof, sed) == Err(code)
  {
    if ws != [] {
      PiecesRead(t, at, ws, eof, sed, ends);
    }
  }
}
