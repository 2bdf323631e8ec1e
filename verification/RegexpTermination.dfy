/** The check on the pattern alone that rules out endless loops is exact: a pattern that fails it loops on some subject. */
module RegexpTermination {
  import opened Bytes
  import opened RegexpCode
  import opened RegexpMeaning
  import opened RegexpGroups
  import opened RegexpMinimal

  /** In the shortest subject, the groups that have taken a character are exactly the solid ones. */
  ghost predicate Exact(env: Captures, i: int, open: set<group>, closed: set<group>, solid: set<group>) {
    && solid <= open + closed
    && forall g: group :: g in open + closed ==>
         (g in solid <==> env.starts[g] < (if g in open then i else env.ends[g]))
  }

  /** The solid groups after an item. */
  ghost function SolidAfter(it: Item, open: set<group>, solid: set<group>): set<group> {
    match it.base
    case Bra(g) => solid - {g}
    case Ket(_) => solid
    case _ => if Consumes(it, solid) then solid + open else solid
  }

  /** An item that is not where the check fails. */
  lemma ExactAfter(it: Item, s: seq<byte>, env: Captures, open: set<group>, closed: set<group>, solid: set<group>)
    requires Satisfiable([it]) && open !! closed && InOrder(env, |s|, open, closed) && Exact(env, |s|, open, closed, solid)
    requires it.base.Bra? ==> it.base.n !in open + closed
    requires it.base.Ket? ==> it.base.n in open
    requires it.base.Back? ==> it.base.n in closed
    ensures Exact(After(it, env, |s|), |s + Piece(it, s, env, open)|, OpenAfter(it, open), ClosedAfter(it, closed),
                  SolidAfter(it, open, solid))
  {
    assert Consumes(it, solid) <==> 0 < |Piece(it, s, env, open)|;
  }

  /** One item first. */
  lemma FillCons(all: seq<Item>, pre: seq<Item>, s: seq<byte>, env: Captures, open: set<group>)
    requires all != [] && pre == all[1..] && Satisfiable([all[0]]) && Satisfiable(pre)
    ensures Satisfiable(all)
    ensures var it := all[0];
      var s', env', open' := s + Piece(it, s, env, open), After(it, env, |s|), OpenAfter(it, open);
      && Fill(all, s, env, open) == Fill(pre, s', env', open')
      && Final(all, env, Cuts(all, s, env, open)) == Final(pre, env', Cuts(pre, s', env', open'))
  {
    assert forall it <- all :: it == all[0] || it in pre;
    var it := all[0];
    assert it in [it];
    var s', env', open' := s + Piece(it, s, env, open), After(it, env, |s|), OpenAfter(it, open);
    assert Cuts(all, s, env, open)[1..] == Cuts(pre, s', env', open');
  }

  /** The first item where the check fails: it is stuck on the shortest subject of the items before it. */
  lemma {:induction false} FindStuck(items: seq<Item>, s: seq<byte>, env: Captures, open: set<group>, closed: set<group>,
                                     solid: set<group>)
    returns (k: nat)
    requires Standing(items, s, env, open, closed) && Scoped(items, open, closed) && Exact(env, |s|, open, closed, solid)
    requires !Terminates(items, open, solid)
    ensures k < |items| && Satisfiable(items[..k])
    ensures var pre := items[..k];
      StuckHere(items[k], Fill(pre, s, env, open), Final(pre, env, Cuts(pre, s, env, open)))
    decreases |items|
  {
    var it, rest := items[0], items[1..];
    if it.base.Back? && !it.rep.Once? && it.base.n !in solid {
      k := 0;
      assert items[..k] == [];
    } else {
      StandsOn(items, s, env, open, closed);
      ExactAfter(it, s, env, open, closed, solid);
      var s', env' := s + Piece(it, s, env, open), After(it, env, |s|);
      var m := FindStuck(rest, s', env', OpenAfter(it, open), ClosedAfter(it, closed), SolidAfter(it, open, solid));
      k := m + 1;
      assert items[..k][0] == it && items[..k][1..] == rest[..m];
      FillCons(items[..k], rest[..m], s, env, open);
    }
  }

  /** The first items of a list stand as well as the list. */
  lemma {:induction false} PrefixStands(items: seq<Item>, s: seq<byte>, env: Captures, open: set<group>, closed: set<group>, k: nat)
    requires Standing(items, s, env, open, closed) && Scoped(items, open, closed) && k <= |items|
    ensures Standing(items[..k], s, env, open, closed) && Quiet(items[..k], s, env, open)
    decreases k
  {
    if k != 0 {
      StandsOn(items, s, env, open, closed);
      var it, rest := items[0], items[1..];
      assert items[..k][1..] == rest[..k - 1];
      PrefixStands(rest, s + Piece(it, s, env, open), After(it, env, |s|), OpenAfter(it, open), ClosedAfter(it, closed), k - 1);
    }
  }

  /** A parse of the first items, and a stuck item behind it. */
  lemma {:induction false} StuckBehind(items: seq<Item>, full: seq<byte>, i: int, env: Captures, cuts: seq<int>, k: nat)
    requires k < |items| && IsParse(items[..k], full, i, env, -1, cuts)
    requires StuckHere(items[k], full, Final(items[..k], env, cuts))
    ensures Stuck(items, full, i, env, -1, cuts)
    decreases k
  {
    if k != 0 {
      assert items[..k][1..] == items[1..][..k - 1];
      StuckBehind(items[1..], full, cuts[1], After(items[0], env, i), cuts[1..], k - 1);
    }
  }

  /** The first cuts of a parse are a parse of the first items. */
  lemma {:induction false} ParsePrefix(items: seq<Item>, full: seq<byte>, i: int, env: Captures, cuts: seq<int>, k: nat)
    requires k <= |items| && IsParse(items, full, i, env, -1, cuts)
    ensures IsParse(items[..k], full, i, env, -1, cuts[..k + 1])
    decreases k
  {
    if k != 0 {
      assert items[..k][1..] == items[1..][..k - 1] && cuts[..k + 1][1..] == cuts[1..][..k];
      ParsePrefix(items[1..], full, cuts[1], After(items[0], env, i), cuts[1..], k - 1);
    }
  }

  lemma {:induction false} LexReflexive(a: seq<int>)
    ensures LexLeq(a, a)
  {
    if a != [] {
      LexReflexive(a[1..]);
    }
  }

  /** A pattern that fails the check loops on a subject without NUL, whatever the captures were. */
  lemma LoopsSomewhere(items: seq<Item>, env: Captures) returns (s: seq<byte>)
    requires Scoped(items, {}, {}) && Satisfiable(items) && DolLast(items) && !Terminates(items, {}, {})
    ensures 0 !in s && Run(items, s, 0, env, -1) == Hangs
  {
    ScopedIsGrouped(items, {}, {});
    var k := FindStuck(items, [], env, {}, {}, {});
    var pre := items[..k];
    s := Fill(pre, [], env, {});
    var cuts := Cuts(pre, [], env, {});
    PrefixStands(items, [], env, {}, {}, k);
    FillNoNul(pre, [], env, {});
    MinimalParses(pre, [], env, {}, {}, s);
    StuckBehind(items, s, 0, env, cuts, k);
    forall other | IsParse(items, s, 0, env, -1, other)
      ensures LexLeq(other[..|cuts|], cuts)
    {
      ParsePrefix(items, s, 0, env, other, k);
      ParsesAreMinimal(pre, [], env, {}, {}, s, env, 0, other[..k + 1]);
      LexReflexive(cuts);
    }
    HangsIffLoops(items, s, 0, env, -1);
  }

  /** The check on the pattern is exact: it holds if and only if the matcher comes back from every subject. */
  lemma TerminationIsExact(items: seq<Item>, env: Captures)
    requires Scoped(items, {}, {}) && Satisfiable(items) && DolLast(items)
    ensures Terminates(items, {}, {}) <==>
            forall s: seq<byte>, i: nat :: 0 !in s && i <= |s| ==> !Run(items, s, i, env, -1).Hangs?
  {
    if Terminates(items, {}, {}) {
      forall s: seq<byte>, i: nat | 0 !in s && i <= |s|
        ensures !Run(items, s, i, env, -1).Hangs?
      {
        NeverHangs(items, s, i, env, -1, {}, {}, {});
      }
    } else {
      var s := LoopsSomewhere(items, env);
      assert Run(items, s, 0, env, -1).Hangs?;
    }
  }
}
