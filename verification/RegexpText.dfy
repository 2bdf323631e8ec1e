/**
 What a written pattern matches, said of its pieces and the subject alone; and that a search with the compiled pattern
 finds just that.
 */
module RegexpText {
  import opened Bytes
  import opened Numbers
  import opened RegexpCode
  import opened RegexpPattern
  import opened RegexpPatternFacts
  import opened RegexpMeaning
  import opened RegexpGroups
  import opened RegexpElements
  import opened RegexpWritten
  import opened RegexpMarks
  import opened RegexpCompile
  import opened RegexpMatch
  import opened RegexpSearch

  // ----- the meaning of a piece -----

  /** A piece that stands for characters. */
  predicate IsCharacter(p: Piece) {
    !p.Open? && !p.Close? && !p.Ref? && !p.End?
  }

  ghost predicate Means(p: Piece, c: byte)
    requires IsCharacter(p)
  {
    match p
    case Literal(d) => c == d
    case Quoted(d) => c == d
    case NewLine => c == '\n' as int
    case AnyChar => c != 0
    case OneOf(b) => c != 0 && (Lists(b, c) <==> !b.neg)
  }

  predicate GoodIntervals(ws: seq<Written>) {
    forall k :: 0 <= k < |ws| ==> ws[k].counts.Some? ==> GoodCounts(ws[k].counts.value)
  }

  /** How often the piece may be repeated. An open interval ends 20000 above its lower bound. */
  predicate Permits(w: Written, n: int)
    requires w.counts.Some? ==> GoodCounts(w.counts.value)
  {
    match w.counts
    case None => 0 <= n && (w.stars != 0 || n == 1)
    case Some(Exactly(m)) => n == Decimal(m, 0, |m|)
    case Some(AtLeast(m)) => Decimal(m, 0, |m|) <= n <= Decimal(m, 0, |m|) + 20000
    case Some(Between(m, k)) => Decimal(m, 0, |m|) <= n <= Decimal(k, 0, |k|)
  }

  /** The stretch from `i` to `j` is a permitted number of characters of this piece. */
  ghost predicate Stretch(w: Written, s: seq<byte>, i: int, j: int)
    requires IsCharacter(w.piece) && (w.counts.Some? ==> GoodCounts(w.counts.value))
  {
    0 <= i <= j <= |s| && Permits(w, j - i) && forall q :: i <= q < j ==> Means(w.piece, s[q])
  }

  /** The cut points are in order. */
  ghost predicate Ordered(s: seq<byte>, cuts: seq<int>) {
    && (forall k :: 0 <= k < |cuts| ==> 0 <= cuts[k] <= |s|)
    && forall j, k :: 0 <= j <= k < |cuts| ==> cuts[j] <= cuts[k]
  }

  /** The stretch from `i` to `j` is the text of group `n`, between the cut points at its marks; a star allows any number
      of copies of it. The group is closed before place `k`. */
  ghost predicate Recalls(ws: seq<Written>, k: nat, n: int, s: seq<byte>, cuts: seq<int>, i: int, j: int)
    requires k < |ws| && |cuts| == |ws| + 1 && Ordered(s, cuts) && 0 <= i <= j <= |s|
  {
    exists o: nat, m: nat | m < k && Group(ws, n, o, m) ::
      if IsBare(ws[k]) then s[i..j] == s[cuts[o]..cuts[m]] else exists c: nat :: s[i..j] == Times(s[cuts[o]..cuts[m]], c)
  }

  /** Piece `k` takes the stretch between its two cut points. A repeated character stops short of `locs`, where that is
      also one of its ends. */
  ghost predicate Takes(ws: seq<Written>, k: nat, s: seq<byte>, cuts: seq<int>, locs: int)
    requires k < |ws| && |cuts| == |ws| + 1 && Ordered(s, cuts) && (ws[k].counts.Some? ==> GoodCounts(ws[k].counts.value))
  {
    var i, j := cuts[k], cuts[k + 1];
    match ws[k].piece
    case Open => i == j
    case Close => i == j
    case End => i == j == |s|
    case Ref(d) => Recalls(ws, k, d - '0' as int, s, cuts, i, j)
    case _ => Stretch(ws[k], s, i, j) && (IsBare(ws[k]) || !(j <= locs && Stretch(ws[k], s, i, locs)))
  }

  /** The pattern matches from `i` on, each piece between its two cut points. */
  ghost predicate Spells(ws: seq<Written>, s: seq<byte>, i: int, cuts: seq<int>, locs: int)
    requires GoodIntervals(ws)
  {
    && |cuts| == |ws| + 1 && cuts[0] == i && Ordered(s, cuts)
    && forall k {:trigger ws[k]} :: 0 <= k < |ws| ==> Takes(ws, k, s, cuts, locs)
  }

  // ----- pieces and items -----

  /** No interval repeats a mark or a reference. */
  predicate Runnable(w: Written) {
    w.counts.Some? ==> IsCharacter(w.piece)
  }

  lemma MeansAccepts(p: Piece, g: Groups, eof: byte, c: byte)
    requires IsCharacter(p) && GoodPiece(p, g, eof) && c != 0
    ensures BaseOf(p, g).One? && (Accepts(BaseOf(p, g).atom, c) <==> Means(p, c))
  {
    if p.OneOf? {
      assert c in Characters(p.b) <==> Lists(p.b, c);
    }
  }

  lemma LimitsPermit(w: Written, s: seq<byte>, n: int)
    requires (w.counts.Some? ==> GoodCounts(w.counts.value)) && 0 <= n <= |s|
    ensures Limits(RepeatOf(w), s).0 <= n <= Limits(RepeatOf(w), s).0 + Limits(RepeatOf(w), s).1 <==> Permits(w, n)
  {
  }

  lemma StretchRepeats(w: Written, g: Groups, eof: byte, s: seq<byte>, i: int, j: int)
    requires IsCharacter(w.piece) && GoodPiece(w.piece, g, eof) && (w.counts.Some? ==> GoodCounts(w.counts.value))
    requires forall q :: 0 <= q < |s| ==> s[q] != 0
    ensures BaseOf(w.piece, g).One?
    ensures Repeats(BaseOf(w.piece, g).atom, RepeatOf(w), s, i, j) <==> Stretch(w, s, i, j)
  {
    MeansAccepts(w.piece, g, eof, 1);
    if 0 <= i <= j <= |s| {
      LimitsPermit(w, s, j - i);
      var a := BaseOf(w.piece, g).atom;
      forall q | i <= q < j
        ensures Accepts(a, s[q]) <==> Means(w.piece, s[q])
      {
        MeansAccepts(w.piece, g, eof, s[q]);
      }
    }
  }

  /** Everything but references fits where the piece takes its stretch. */
  lemma PlainFits(ws: seq<Written>, k: nat, g: Groups, eof: byte, s: seq<byte>, env: Captures, cuts: seq<int>, locs: int)
    requires k < |ws| && |cuts| == |ws| + 1 && Ordered(s, cuts) && GoodPiece(ws[k].piece, g, eof) && GoodSuffix(ws[k], eof)
    requires Runnable(ws[k]) && !ws[k].piece.Ref? && forall q :: 0 <= q < |s| ==> s[q] != 0
    ensures Fits(Item(BaseOf(ws[k].piece, g), RepeatOf(ws[k])), s, env, locs, cuts[k], cuts[k + 1]) <==> Takes(ws, k, s, cuts, locs)
  {
    if IsCharacter(ws[k].piece) {
      StretchRepeats(ws[k], g, eof, s, cuts[k], cuts[k + 1]);
      StretchRepeats(ws[k], g, eof, s, cuts[k], locs);
    }
  }

  /** A reference fits where the piece takes its stretch, if the captures are the cut points at the marks. */
  lemma RefFits(ws: seq<Written>, k: nat, n: int, o: nat, m: nat, s: seq<byte>, env: Captures, cuts: seq<int>, locs: int)
    requires k < |ws| && |cuts| == |ws| + 1 && Ordered(s, cuts) && ws[k].piece.Ref? && ws[k].counts.None?
    requires 1 <= n <= NBRA && n == ws[k].piece.digit - '0' as int && m < k && Group(ws, n, o, m)
    requires env.starts[n - 1] == cuts[o] && env.ends[n - 1] == cuts[m]
    ensures Fits(Item(Back(n - 1), RepeatOf(ws[k])), s, env, locs, cuts[k], cuts[k + 1]) <==> Takes(ws, k, s, cuts, locs)
  {
    forall o': nat, m': nat | m' < k && Group(ws, n, o', m')
      ensures o' == o && m' == m
    {
      GroupOnce(ws, n, o, m, n, o', m');
    }
    assert Text(s, env, n - 1) == s[cuts[o]..cuts[m]];
  }

  // ----- references -----

  /** Every item knows its piece. */
  ghost predicate ItemsAre(ws: seq<Written>, eof: byte, items: seq<Item>) {
    && GoodPattern(ws, eof, true) && Tracked(ws) && items == ItemsOf(ws, eof, true)
    && (forall k :: 0 <= k < |ws| ==> Runnable(ws[k]))
    && NoSelfReference(items, []) && Scoped(items, {}, {})
  }

  lemma ItemAt(ws: seq<Written>, eof: byte, items: seq<Item>, k: nat)
    requires ItemsAre(ws, eof, items) && k < |ws|
    ensures GoodPiece(ws[k].piece, GroupsAt(ws, k), eof) && GoodSuffix(ws[k], eof) && Runnable(ws[k])
    ensures items[k] == Item(BaseOf(ws[k].piece, GroupsAt(ws, k)), RepeatOf(ws[k]))
  {
    assert GoodAt(ws, k, eof, true);
  }

  /** The items at the marks of a group carry its number. */
  lemma MarkItems(ws: seq<Written>, eof: byte, items: seq<Item>, n: int, o: nat, m: nat)
    requires ItemsAre(ws, eof, items) && Group(ws, n, o, m)
    ensures 1 <= n <= NBRA && items[o].base == Bra(n - 1) && items[m].base == Ket(n - 1)
  {
    GroupMarks(ws, n, o, m);
    ItemAt(ws, eof, items, o);
    ItemAt(ws, eof, items, m);
  }

  lemma {:induction false} ScopedPrefix(items: seq<Item>, k: nat, open: set<group>, closed: set<group>)
    requires k <= |items| && Scoped(items, open, closed)
    ensures Scoped(items[..k], open, closed)
    decreases k
  {
    if k != 0 {
      assert items[..k][1..] == items[1..][..k - 1];
      ScopedPrefix(items[1..], k - 1, OpenAfter(items[0], open), ClosedAfter(items[0], closed));
    }
  }

  /** Behind the marks of a group, the captures are the cut points at them. */
  lemma CapturedAt(ws: seq<Written>, eof: byte, items: seq<Item>, env: Captures, cuts: seq<int>, k: nat, n: int, o: nat, m: nat)
    requires ItemsAre(ws, eof, items) && Group(ws, n, o, m) && m < k <= |ws| && |cuts| == |ws| + 1
    ensures 1 <= n <= NBRA
    ensures CapturesAt(items, env, cuts, k).starts[n - 1] == cuts[o] && CapturesAt(items, env, cuts, k).ends[n - 1] == cuts[m]
  {
    MarkItems(ws, eof, items, n, o, m);
    ScopedPrefix(items, k, {}, {});
    var front, points := items[..k], cuts[..k + 1];
    CapturesAreCuts(front, env, points, {}, {}, o, n - 1);
    CapturesAreCuts(front, env, points, {}, {}, m, n - 1);
  }

  lemma {:induction false} ClosedCount(ws: seq<Written>, k: nat)
    requires k <= |ws| && Tracked(ws)
    ensures GroupsAt(ws, k).closed + |GroupsAt(ws, k).open| == GroupsAt(ws, k).nbra
    decreases k
  {
    if k != 0 {
      ClosedCount(ws, k - 1);
    }
  }

  lemma {:induction false} NoSelfAt(ws: seq<Written>, eof: byte, items: seq<Item>, k: nat)
    requires ItemsAre(ws, eof, items) && k <= |ws|
    ensures NoSelfReference(items[k..], GroupsAt(ws, k).open)
    decreases k
  {
    if k == 0 {
      assert items[0..] == items;
    } else {
      NoSelfAt(ws, eof, items, k - 1);
      ItemAt(ws, eof, items, k - 1);
      assert items[k - 1..][0] == items[k - 1] && items[k - 1..][1..] == items[k..];
    }
  }

  /** The group that a reference names was closed before it. */
  lemma RefIsClosed(ws: seq<Written>, eof: byte, items: seq<Item>, k: nat) returns (o: nat, m: nat)
    requires ItemsAre(ws, eof, items) && k < |ws| && ws[k].piece.Ref?
    ensures '1' as int <= ws[k].piece.digit <= '9' as int
    ensures m < k && Group(ws, ws[k].piece.digit - '0' as int, o, m)
  {
    ItemAt(ws, eof, items, k);
    NoSelfAt(ws, eof, items, k);
    ClosedCount(ws, k);
    assert items[k..][0] == items[k];
    o, m := ClosedBefore(ws, k, ws[k].piece.digit - '1' as int);
  }

  // ----- the meaning of a pattern -----

  ghost predicate NoNul(s: seq<byte>) {
    forall q :: 0 <= q < |s| ==> s[q] != 0
  }

  /** An item fits between two cut points exactly if its piece takes the stretch between them. */
  lemma FitsTakes(ws: seq<Written>, eof: byte, items: seq<Item>, s: seq<byte>, env: Captures, cuts: seq<int>, locs: int, k: nat)
    requires ItemsAre(ws, eof, items) && k < |ws| && |cuts| == |ws| + 1 && Ordered(s, cuts) && NoNul(s)
    ensures ws[k].counts.Some? ==> GoodCounts(ws[k].counts.value)
    ensures Fits(items[k], s, CapturesAt(items, env, cuts, k), locs, cuts[k], cuts[k + 1]) <==> Takes(ws, k, s, cuts, locs)
  {
    ItemAt(ws, eof, items, k);
    if ws[k].piece.Ref? {
      var o, m := RefIsClosed(ws, eof, items, k);
      var n := ws[k].piece.digit - '0' as int;
      CapturedAt(ws, eof, items, env, cuts, k, n, o, m);
      RefFits(ws, k, n, o, m, s, CapturesAt(items, env, cuts, k), cuts, locs);
    } else {
      PlainFits(ws, k, GroupsAt(ws, k), eof, s, CapturesAt(items, env, cuts, k), cuts, locs);
    }
  }

  predicate StepsOn(s: seq<byte>, cuts: seq<int>, k: nat)
    requires k + 1 < |cuts|
  {
    0 <= cuts[k] <= cuts[k + 1] <= |s|
  }

  /** Stretches that follow each other are in order. */
  lemma {:induction false} StretchesOrdered(s: seq<byte>, cuts: seq<int>, n: nat)
    requires n < |cuts| && 0 <= cuts[0] <= |s| && forall k: nat :: k + 1 < |cuts| ==> StepsOn(s, cuts, k)
    ensures forall k :: 0 <= k <= n ==> 0 <= cuts[k] <= cuts[n] <= |s|
    decreases n
  {
    if n != 0 {
      StretchesOrdered(s, cuts, n - 1);
      assert StepsOn(s, cuts, n - 1);
    }
  }

  lemma ParseOrdered(items: seq<Item>, s: seq<byte>, i: int, env: Captures, locs: int, cuts: seq<int>)
    requires 0 <= i <= |s| && IsParse(items, s, i, env, locs, cuts)
    ensures Ordered(s, cuts)
  {
    ParsePointwise(items, s, i, env, locs, cuts);
    forall k: nat | k + 1 < |cuts|
      ensures StepsOn(s, cuts, k)
    {
      assert Fits(items[k], s, CapturesAt(items, env, cuts, k), locs, cuts[k], cuts[k + 1]);
    }
    forall n | 0 <= n < |cuts|
      ensures forall k :: 0 <= k <= n ==> 0 <= cuts[k] <= cuts[n] <= |s|
    {
      StretchesOrdered(s, cuts, n);
    }
  }

  lemma CountsAreGood(ws: seq<Written>, eof: byte, items: seq<Item>)
    requires ItemsAre(ws, eof, items)
    ensures GoodIntervals(ws)
  {
    forall k | 0 <= k < |ws|
      ensures ws[k].counts.Some? ==> GoodCounts(ws[k].counts.value)
    {
      ItemAt(ws, eof, items, k);
    }
  }

  lemma ParseSpells(ws: seq<Written>, eof: byte, items: seq<Item>, s: seq<byte>, i: int, env: Captures, locs: int, cuts: seq<int>)
    requires ItemsAre(ws, eof, items) && NoNul(s) && 0 <= i <= |s| && IsParse(items, s, i, env, locs, cuts)
    requires GoodIntervals(ws)
    ensures Spells(ws, s, i, cuts, locs)
  {
    ParsePointwise(items, s, i, env, locs, cuts);
    ParseOrdered(items, s, i, env, locs, cuts);
    forall k | 0 <= k < |ws|
      ensures Takes(ws, k, s, cuts, locs)
    {
      FitsTakes(ws, eof, items, s, env, cuts, locs, k);
      assert Fits(items[k], s, CapturesAt(items, env, cuts, k), locs, cuts[k], cuts[k + 1]);
    }
  }

  lemma SpelledParses(ws: seq<Written>, eof: byte, items: seq<Item>, s: seq<byte>, i: int, env: Captures, locs: int, cuts: seq<int>)
    requires ItemsAre(ws, eof, items) && NoNul(s) && GoodIntervals(ws) && Spells(ws, s, i, cuts, locs)
    ensures IsParse(items, s, i, env, locs, cuts)
  {
    forall k | 0 <= k < |items|
      ensures Fits(items[k], s, CapturesAt(items, env, cuts, k), locs, cuts[k], cuts[k + 1])
    {
      FitsTakes(ws, eof, items, s, env, cuts, locs, k);
      assert Takes(ws, k, s, cuts, locs);
    }
    ParsePointwise(items, s, i, env, locs, cuts);
  }

  /** The cut points of a parse are those between which the pieces of the pattern take their stretches. */
  lemma SpellsIff(ws: seq<Written>, eof: byte, items: seq<Item>, s: seq<byte>, i: int, env: Captures, locs: int, cuts: seq<int>)
    requires ItemsAre(ws, eof, items) && NoNul(s) && 0 <= i <= |s|
    ensures GoodIntervals(ws)
    ensures IsParse(items, s, i, env, locs, cuts) <==> Spells(ws, s, i, cuts, locs)
  {
    CountsAreGood(ws, eof, items);
    if IsParse(items, s, i, env, locs, cuts) {
      ParseSpells(ws, eof, items, s, i, env, locs, cuts);
    } else if Spells(ws, s, i, cuts, locs) {
      SpelledParses(ws, eof, items, s, i, env, locs, cuts);
    }
  }

  // ----- the best match -----

  /** At the first cut point where they differ, `b` is further on. */
  ghost predicate Beaten(a: seq<int>, b: seq<int>) {
    |a| == |b| && exists k: nat :: k < |a| && a[..k] == b[..k] && a[k] < b[k]
  }

  lemma {:induction false} LexIs(a: seq<int>, b: seq<int>)
    requires |a| == |b| && LexLeq(a, b)
    ensures a == b || Beaten(a, b)
  {
    if a != [] {
      if a[0] < b[0] {
        assert a[..0] == b[..0];
      } else {
        LexIs(a[1..], b[1..]);
        if a[1..] == b[1..] {
          assert a == [a[0]] + a[1..] && b == [b[0]] + b[1..];
        } else {
          var k: nat :| k < |a[1..]| && a[1..][..k] == b[1..][..k] && a[1..][k] < b[1..][k];
          assert a[..k + 1] == [a[0]] + a[1..][..k] && b[..k + 1] == [b[0]] + b[1..][..k];
          assert a[k + 1] < b[k + 1];
        }
      }
    }
  }

  /** The match that takes as much as it can, piece by piece from the left. */
  ghost predicate Best(ws: seq<Written>, s: seq<byte>, i: int, cuts: seq<int>, locs: int)
    requires GoodIntervals(ws)
  {
    && Spells(ws, s, i, cuts, locs)
    && forall other :: Spells(ws, s, i, other, locs) ==> other == cuts || Beaten(other, cuts)
  }

  /** The captures are the cut points at the marks of each group. */
  ghost predicate Captured(ws: seq<Written>, cuts: seq<int>, env: Captures)
    requires |cuts| == |ws| + 1
  {
    forall n, o: nat, m: nat :: Group(ws, n, o, m) ==> 1 <= n <= NBRA && env.starts[n - 1] == cuts[o] && env.ends[n - 1] == cuts[m]
  }

  /** What a search for a written pattern reports: the best match at the first place that has one, or that there is none.
      Only a starred reference can keep it from coming back. */
  ghost predicate TextFound(v: Verdict, ws: seq<Written>, s: seq<byte>, p1: nat, anchored: bool, locs: int, loc1: int, loc2: int,
                            env: Captures)
    requires GoodIntervals(ws)
  {
    match v
    case Yes =>
      && p1 <= loc1 <= (if anchored then p1 else |s|)
      && (forall q, cuts :: p1 <= q < loc1 ==> !Spells(ws, s, q, cuts, locs))
      && exists cuts :: Best(ws, s, loc1, cuts, locs) && loc2 == cuts[|ws|] && Captured(ws, cuts, env)
    case No => forall q, cuts :: p1 <= q <= (if anchored then p1 else |s|) ==> !Spells(ws, s, q, cuts, locs)
    case Never => exists k: nat :: k < |ws| && ws[k].piece.Ref? && !IsBare(ws[k])
  }

  /** Nothing is spelled where the search passes. */
  lemma PassedSpells(ws: seq<Written>, eof: byte, items: seq<Item>, s: seq<byte>, q: int, env: Captures, locs: int, cuts: seq<int>)
    requires ItemsAre(ws, eof, items) && NoNul(s) && 0 <= q <= |s| && Passed(items, s, q, env, locs)
    ensures GoodIntervals(ws) && !Spells(ws, s, q, cuts, locs)
  {
    SpellsIff(ws, eof, items, s, q, env, locs, cuts);
  }

  lemma MatchIsBest(ws: seq<Written>, eof: byte, items: seq<Item>, s: seq<byte>, i: int, env: Captures, locs: int, cuts: seq<int>)
    requires ItemsAre(ws, eof, items) && NoNul(s) && 0 <= i <= |s| && IsMatch(items, s, i, env, locs, cuts)
    ensures GoodIntervals(ws) && Best(ws, s, i, cuts, locs) && Captured(ws, cuts, Final(items, env, cuts))
  {
    SpellsIff(ws, eof, items, s, i, env, locs, cuts);
    forall other | Spells(ws, s, i, other, locs)
      ensures other == cuts || Beaten(other, cuts)
    {
      SpellsIff(ws, eof, items, s, i, env, locs, other);
      LexIs(other, cuts);
    }
    forall n, o: nat, m: nat | Group(ws, n, o, m)
      ensures 1 <= n <= NBRA && Final(items, env, cuts).starts[n - 1] == cuts[o] && Final(items, env, cuts).ends[n - 1] == cuts[m]
    {
      CapturedAt(ws, eof, items, env, cuts, |ws|, n, o, m);
      assert items[..|ws|] == items && cuts[..|ws| + 1] == cuts;
    }
  }

  /** A pattern that can loop has a starred reference. */
  lemma {:induction false} LoopsAtReference(items: seq<Item>, open: set<group>, solid: set<group>) returns (k: nat)
    requires !Terminates(items, open, solid)
    ensures k < |items| && items[k].base.Back? && !items[k].rep.Once?
    decreases |items|
  {
    var it, rest := items[0], items[1..];
    if it.base.Back? && !it.rep.Once? {
      k := 0;
    } else {
      var solid' := if Consumes(it, solid) then solid + open else solid;
      var j;
      match it.base {
        case Bra(g) => j := LoopsAtReference(rest, open + {g}, solid - {g});
        case Ket(g) => j := LoopsAtReference(rest, open - {g}, solid);
        case _ => j := LoopsAtReference(rest, open, solid');
      }
      k := j + 1;
    }
  }

  lemma ReferenceAt(ws: seq<Written>, eof: byte, items: seq<Item>)
    requires ItemsAre(ws, eof, items) && !Terminates(items, {}, {})
    ensures exists k: nat :: k < |ws| && ws[k].piece.Ref? && !IsBare(ws[k])
  {
    var k := LoopsAtReference(items, {}, {});
    ItemAt(ws, eof, items, k);
    assert ws[k].piece.Ref? && !IsBare(ws[k]);
  }

  /** What is found by items is found by their pieces. */
  lemma FoundIsTextFound(v: Verdict, ws: seq<Written>, eof: byte, items: seq<Item>, s: seq<byte>, p1: nat, anchored: bool,
                         env: Captures, locs: int, loc1: int, loc2: int, env': Captures)
    requires ItemsAre(ws, eof, items) && NoNul(s) && p1 <= |s|
    requires Found(v, items, s, p1, anchored, env, locs, loc1, loc2, env')
    ensures GoodIntervals(ws) && TextFound(v, ws, s, p1, anchored, locs, loc1, loc2, env')
  {
    CountsAreGood(ws, eof, items);
    match v
    case Yes =>
      forall q, cuts | p1 <= q < loc1
        ensures !Spells(ws, s, q, cuts, locs)
      {
        PassedSpells(ws, eof, items, s, q, env, locs, cuts);
      }
      var cuts :| IsMatch(items, s, loc1, env, locs, cuts) && loc2 == cuts[|items|] && env' == Final(items, env, cuts);
      MatchIsBest(ws, eof, items, s, loc1, env, locs, cuts);
    case No =>
      forall q, cuts | p1 <= q <= (if anchored then p1 else |s|)
        ensures !Spells(ws, s, q, cuts, locs)
      {
        PassedSpells(ws, eof, items, s, q, env, locs, cuts);
      }
    case Never => ReferenceAt(ws, eof, items);
  }

  /** The items of a pattern that the header supports. */
  lemma SupportedItems(t: seq<byte>, start: nat, anchored: bool, ws: seq<Written>, eof: byte, sed: bool, next: nat)
    requires PatternAt(t, start, anchored, ws, eof, sed, next)
    requires Pattern(t, start, eof, sed).Ok? && Supported(t, start, Pattern(t, start, eof, sed).value)
    ensures ItemsAre(ws, eof, Pattern(t, start, eof, sed).value.items)
  {
    PatternRead(t, start, anchored, ws, eof, sed, next);
    GoodIsTracked(ws, eof, true);
    var p := Pattern(t, start, eof, sed).value;
    ParsedNested(t, if Peek(t, start) == CARET then start + 1 else start, NO_GROUPS, eof, sed);
    ScopedIffNoSelfReference(p.items, NO_GROUPS, p.groups);
    assert OpenSet(NO_GROUPS) == {} && ClosedSet(NO_GROUPS) == {};
    AllRunnable(ws, eof, p.items);
  }

  lemma AllRunnable(ws: seq<Written>, eof: byte, items: seq<Item>)
    requires GoodPattern(ws, eof, true) && items == ItemsOf(ws, eof, true) && Executable(items)
    ensures forall k :: 0 <= k < |ws| ==> Runnable(ws[k])
  {
    forall k | 0 <= k < |ws|
      ensures Runnable(ws[k])
    {
      assert GoodAt(ws, k, eof, true);
      assert items[k] == ItemOf(ws, k, eof, true) && items[k] in items;
    }
  }

  /** Compiles the text of a pattern, and searches the subject from `p1` on: the result is told by the written pattern and
      the subject alone. */
  method SearchText(c: Compiler, m: Matcher, t: seq<byte>, start: nat, buf: array<byte>, endbuf: nat, eof: byte, z: seq<byte>,
                    p1: nat, ghost anchored: bool, ghost ws: seq<Written>, ghost next: nat)
    returns (v: Verdict)
    requires m.Valid() && buf != m.braslist as object && buf != m.braelist as object
    requires start < |t| && t[start] != eof && t[start] != NEWLINE && 0 < endbuf < buf.Length
    requires PatternAt(t, start, anchored, ws, eof, c.sed, next)
    requires Pattern(t, start, eof, c.sed).Ok? && Supported(t, start, Pattern(t, start, eof, c.sed).value)
    requires |Encode(Pattern(t, start, eof, c.sed).value.items)| <= endbuf
    requires Terminated(z) && p1 < |z|
    modifies c, m, m.braslist, m.braelist, buf
    ensures m.Valid() && m.locs == old(m.locs) && GoodIntervals(ws)
    ensures TextFound(v, ws, Subject(z), p1, anchored, m.locs, m.loc1, m.loc2, m.Env())
  {
    ghost var env, sed := m.Env(), c.sed;
    PatternRead(t, start, anchored, ws, eof, sed, next);
    SupportedItems(t, start, anchored, ws, eof, sed, next);
    v := CompileAndStep(c, m, t, start, buf, endbuf, eof, z, p1);
    FoundIsTextFound(v, ws, eof, Pattern(t, start, eof, sed).value.items, Subject(z), p1, anchored, env, m.locs, m.loc1, m.loc2,
                     m.Env());
  }

  // ----- one character -----

  /** The byte code at `ep` lets a character pass: it is the operand, or anything but NUL, or its bit is set, or (for a
      negated bitmap) not set. */
  predicate Passes(code: seq<byte>, ep: nat, c: byte)
    requires ep < |code|
  {
    match code[ep]
    case 4 => ep + 1 < |code| && c == code[ep + 1]
    case 8 => c != 0
    case 12 => ep + 16 < |code| && c < 128 && Bit(code[ep + 1 + c / 8], c % 8)
    case 40 => ep + 16 < |code| && !(c < 128 && Bit(code[ep + 1 + c / 8], c % 8))
    case 16 => ep + 32 < |code| && Bit(code[ep + 1 + c / 8], c % 8)
    case _ => false
  }

  /** Executing one of the five one-character opcodes takes up the next character, or fails. */
  lemma OnePasses(z: seq<byte>, lp: nat, code: seq<byte>, ep: nat, items: seq<Item>, env: Captures, locs: int,
                  open: set<group>, closed: set<group>)
    requires Ready(z, lp, code, ep, items, open, closed) && code[ep] in {4, 8, 12, 16, 40}
    ensures items != [] && (Passes(code, ep, z[lp]) ==> lp < |Subject(z)|)
    ensures Run(items, Subject(z), lp, env, locs) ==
            if Passes(code, ep, z[lp]) then Run(items[1..], Subject(z), lp + 1, env, locs) else NoMatch
  {
    var next := DecodeHead(code, ep, items);
    DecodeOne(code, ep, items[0], next);
    TestsAgree(code, code[ep], ep + 1, z[lp]);
    assert NulSafe(items[0]);
  }

  /** The pattern `.` matches one character wherever there is one. */
  lemma DotMatches(v: Verdict, t: seq<byte>, start: nat, eof: byte, sed: bool, s: seq<byte>, p1: nat, env: Captures, locs: int,
                   loc1: int, loc2: int, env': Captures)
    requires start + 1 < |t| && t[start] == '.' as int && t[start + 1] == eof && eof != '.' as int && NoNul(s) && p1 < |s|
    requires Pattern(t, start, eof, sed).Ok? && Found(v, Pattern(t, start, eof, sed).value.items, s, p1, false, env, locs, loc1, loc2, env')
    ensures v == Yes && loc1 == p1 && loc2 == p1 + 1
  {
    var ws := [Written(AnyChar, 0, None, 0)];
    DotIsWritten(t, start, eof, sed, ws);
    var items := Pattern(t, start, eof, sed).value.items;
    FoundIsTextFound(v, ws, eof, items, s, p1, false, env, locs, loc1, loc2, env');
    assert Takes(ws, 0, s, [p1, p1 + 1], locs);
    assert Spells(ws, s, p1, [p1, p1 + 1], locs);
    if v == Yes {
      var cuts :| Best(ws, s, loc1, cuts, locs) && loc2 == cuts[|ws|] && Captured(ws, cuts, env');
      assert Takes(ws, 0, s, cuts, locs);
    }
  }

  lemma DotIsWritten(t: seq<byte>, start: nat, eof: byte, sed: bool, ws: seq<Written>)
    requires start + 1 < |t| && t[start] == '.' as int && t[start + 1] == eof && eof != '.' as int
    requires ws == [Written(AnyChar, 0, None, 0)] && Pattern(t, start, eof, sed).Ok?
    ensures ItemsAre(ws, eof, Pattern(t, start, eof, sed).value.items)
  {
    assert WrittenText(ws[0]) == ['.' as int];
    assert Texts(ws) == [['.' as int]] && Joined([['.' as int]][1..]) == [];
    assert TextOf(ws) == ['.' as int];
    assert GoodAt(ws, 0, eof, true);
    assert GroupsAt(ws, 1) == Track(AnyChar, GroupsAt(ws, 0));
    PatternRead(t, start, false, ws, eof, sed, start + 1);
    GoodIsTracked(ws, eof, true);
    var items := ItemsOf(ws, eof, true);
    assert items == [Item(One(Dot), Once)] && items[1..] == [];
    assert NoSelfReference(items[1..], []) && Scoped(items[1..], {}, {});
  }
}
