/**
 The shortest subject of a list of items: every item takes as little as it can. It has one parse only, which shows on
 the items alone what can happen on some subject.
 */
module RegexpMinimal {
  import opened Bytes
  import opened RegexpCode
  import opened RegexpMeaning
  import opened RegexpGroups

  /** Every group is opened at most once and then closed at most once, and a back reference names a group that is open
      or closed by then. */
  ghost predicate Grouped(items: seq<Item>, open: set<group>, closed: set<group>) {
    items == [] ||
    match items[0].base
    case Bra(g) => g !in open + closed && Grouped(items[1..], open + {g}, closed)
    case Ket(g) => g in open && Grouped(items[1..], open - {g}, closed + {g})
    case Back(g) => g in open + closed && Grouped(items[1..], open, closed)
    case _ => Grouped(items[1..], open, closed)
  }

  lemma {:induction false} ScopedIsGrouped(items: seq<Item>, open: set<group>, closed: set<group>)
    requires Scoped(items, open, closed)
    ensures Grouped(items, open, closed)
    decreases |items|
  {
    if items != [] {
      ScopedIsGrouped(items[1..], OpenAfter(items[0], open), ClosedAfter(items[0], closed));
    }
  }

  /** Every single character accepts something other than NUL. */
  ghost predicate Satisfiable(items: seq<Item>) {
    forall it <- items :: it.base.One? ==> exists c: byte :: c != 0 && Accepts(it.base.atom, c)
  }

  /** `$` stands at the end only. */
  ghost predicate DolLast(items: seq<Item>) {
    forall k :: 0 <= k < |items| - 1 ==> !items[k].base.Dol?
  }

  ghost function SomeChar(a: Atom): (c: byte)
    requires exists c: byte :: c != 0 && Accepts(a, c)
    ensures c != 0 && Accepts(a, c)
  {
    var c: byte :| c != 0 && Accepts(a, c);
    c
  }

  // ----- the subject -----

  /** The least text that an item takes after `s`. A back reference inside its own group is taken to be empty. */
  ghost function Piece(it: Item, s: seq<byte>, env: Captures, open: set<group>): seq<byte>
    requires Satisfiable([it])
  {
    match it.base
    case One(a) =>
      assert it in [it];
      seq(Limits(it.rep, s).0, _ => SomeChar(a))
    case Back(g) => if it.rep.Once? && g !in open && Holds(s, env, g) then Text(s, env, g) else []
    case _ => []
  }

  lemma SatisfiableParts(items: seq<Item>)
    requires items != [] && Satisfiable(items)
    ensures Satisfiable([items[0]]) && Satisfiable(items[1..])
  {
  }

  /** `s`, and the least texts of the items after it. */
  ghost function Fill(items: seq<Item>, s: seq<byte>, env: Captures, open: set<group>): (r: seq<byte>)
    requires Satisfiable(items)
    ensures s <= r
    decreases |items|
  {
    if items == [] then s
    else
      SatisfiableParts(items);
      Fill(items[1..], s + Piece(items[0], s, env, open), After(items[0], env, |s|), OpenAfter(items[0], open))
  }

  /** Where the pieces begin and end. */
  ghost function Cuts(items: seq<Item>, s: seq<byte>, env: Captures, open: set<group>): (r: seq<int>)
    requires Satisfiable(items)
    ensures |r| == |items| + 1 && r[0] == |s|
    decreases |items|
  {
    if items == [] then [|s|]
    else
      SatisfiableParts(items);
      [|s|] + Cuts(items[1..], s + Piece(items[0], s, env, open), After(items[0], env, |s|), OpenAfter(items[0], open))
  }

  lemma {:induction false} FillNoNul(items: seq<Item>, s: seq<byte>, env: Captures, open: set<group>)
    requires Satisfiable(items) && 0 !in s
    ensures 0 !in Fill(items, s, env, open)
    decreases |items|
  {
    if items != [] {
      SatisfiableParts(items);
      var piece := Piece(items[0], s, env, open);
      assert 0 !in piece;
      FillNoNul(items[1..], s + piece, After(items[0], env, |s|), OpenAfter(items[0], open));
    }
  }

  /** Whenever a back reference stands in its own group, the group's slots hold the empty text. */
  ghost predicate Quiet(items: seq<Item>, s: seq<byte>, env: Captures, open: set<group>)
    requires Satisfiable(items)
    decreases |items|
  {
    items == [] ||
    (SatisfiableParts(items);
     && (items[0].base.Back? && items[0].base.n in open ==> env.starts[items[0].base.n] == env.ends[items[0].base.n])
     && Quiet(items[1..], s + Piece(items[0], s, env, open), After(items[0], env, |s|), OpenAfter(items[0], open)))
  }

  /** What holds before the first item. */
  ghost predicate Standing(items: seq<Item>, s: seq<byte>, env: Captures, open: set<group>, closed: set<group>) {
    && open !! closed && Grouped(items, open, closed) && InOrder(env, |s|, open, closed)
    && Satisfiable(items) && DolLast(items)
  }

  lemma StandsOn(items: seq<Item>, s: seq<byte>, env: Captures, open: set<group>, closed: set<group>)
    requires items != [] && Standing(items, s, env, open, closed)
    ensures Satisfiable([items[0]])
    ensures var it := items[0];
      Standing(items[1..], s + Piece(it, s, env, open), After(it, env, |s|), OpenAfter(it, open), ClosedAfter(it, closed))
  {
    SatisfiableParts(items);
  }

  // ----- it has a parse -----

  /** The least text of an item fits it, wherever the subject goes on. */
  lemma PieceFits(it: Item, s: seq<byte>, env: Captures, open: set<group>, closed: set<group>, full: seq<byte>)
    requires Satisfiable([it]) && s + Piece(it, s, env, open) <= full && InOrder(env, |s|, open, closed)
    requires it.base.Dol? ==> full == s
    requires it.base.Back? ==> it.base.n in open + closed
    requires it.base.Back? && it.base.n in open ==> env.starts[it.base.n] == env.ends[it.base.n]
    ensures Fits(it, full, env, -1, |s|, |s + Piece(it, s, env, open)|)
  {
    var piece, j := Piece(it, s, env, open), |s + Piece(it, s, env, open)|;
    assert full[|s|..j] == piece;
    match it.base
    case One(a) =>
      assert it in [it];
      forall q | |s| <= q < j
        ensures Accepts(a, full[q])
      {
        assert full[q] == piece[q - |s|];
      }
    case Back(g) =>
      if it.rep.Once? {
        assert Text(full, env, g) == Text(s, env, g);
      } else {
        var none: nat := 0;
        assert full[|s|..j] == Times(Text(full, env, g), none);
      }
    case _ =>
  }

  lemma {:induction false} MinimalParses(items: seq<Item>, s: seq<byte>, env: Captures, open: set<group>, closed: set<group>,
                                         full: seq<byte>)
    requires Standing(items, s, env, open, closed) && Quiet(items, s, env, open) && full == Fill(items, s, env, open)
    ensures IsParse(items, full, |s|, env, -1, Cuts(items, s, env, open))
    ensures Cuts(items, s, env, open)[|items|] == |full|
    decreases |items|
  {
    if items != [] {
      StandsOn(items, s, env, open, closed);
      var it, rest := items[0], items[1..];
      var s', env' := s + Piece(it, s, env, open), After(it, env, |s|);
      if it.base.Dol? {
        assert rest == [];
      }
      PieceFits(it, s, env, open, closed, full);
      MinimalParses(rest, s', env', OpenAfter(it, open), ClosedAfter(it, closed), full);
    }
  }

  // ----- it has no other -----

  /** Another match is not behind, and no group of it is shorter. */
  ghost predicate Ahead(env: Captures, i: int, env': Captures, i': int, open: set<group>, closed: set<group>) {
    && i <= i'
    && (forall g: group :: g in open ==> i - env.starts[g] <= i' - env'.starts[g])
    && (forall g: group :: g in closed ==> env.ends[g] - env.starts[g] <= env'.ends[g] - env'.starts[g])
  }

  /** A piece is never shorter than the least text. */
  lemma PieceIsLeast(it: Item, s: seq<byte>, env: Captures, open: set<group>, closed: set<group>, full: seq<byte>,
                     env': Captures, i': int, j: int)
    requires Satisfiable([it]) && open !! closed && Ahead(env, |s|, env', i', open, closed)
    requires it.base.Back? ==> it.base.n in open + closed
    requires Fits(it, full, env', -1, i', j)
    ensures |Piece(it, s, env, open)| <= j - i'
  {
  }

  /** Every parse of the shortest subject has the same cuts. */
  lemma {:induction false} ParsesAreMinimal(items: seq<Item>, s: seq<byte>, env: Captures, open: set<group>, closed: set<group>,
                                            full: seq<byte>, env': Captures, i': int, other: seq<int>)
    requires Standing(items, s, env, open, closed) && full == Fill(items, s, env, open)
    requires Ahead(env, |s|, env', i', open, closed) && i' <= |full| && IsParse(items, full, i', env', -1, other)
    ensures i' == |s| && other == Cuts(items, s, env, open)
    decreases |items|
  {
    if items == [] {
      assert other == [i'];
    } else {
      StandsOn(items, s, env, open, closed);
      var it, rest := items[0], items[1..];
      var s', next := s + Piece(it, s, env, open), other[1];
      PieceIsLeast(it, s, env, open, closed, full, env', i', next);
      ParsesAreMinimal(rest, s', After(it, env, |s|), OpenAfter(it, open), ClosedAfter(it, closed), full,
                       After(it, env', i'), next, other[1..]);
      assert other == [i'] + other[1..];
    }
  }
}
