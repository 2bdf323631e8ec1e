/**
 The converse of why captures do not leak: in a pattern with a back reference inside the group that it names, they do.
 */
module RegexpLeaks {
  import opened Bytes
  import opened RegexpCode
  import opened RegexpMeaning
  import opened RegexpGroups
  import opened RegexpMinimal

  lemma {:induction false} GroupedOpens(items: seq<Item>, open: set<group>, closed: set<group>)
    requires Grouped(items, open, closed) && open !! closed
    ensures Opens(items) !! (open + closed)
    decreases |items|
  {
    if items != [] {
      GroupedOpens(items[1..], OpenAfter(items[0], open), ClosedAfter(items[0], closed));
    }
  }

  // ----- captures that make every such reference empty -----

  /** Where a group opens, its end slot already holds that position. */
  ghost predicate Foreseen(items: seq<Item>, s: seq<byte>, env: Captures, open: set<group>)
    requires Satisfiable(items)
    decreases |items|
  {
    items == [] ||
    (SatisfiableParts(items);
     && (items[0].base.Bra? ==> env.ends[items[0].base.n] == |s|)
     && Foreseen(items[1..], s + Piece(items[0], s, env, open), After(items[0], env, |s|), OpenAfter(items[0], open)))
  }

  /** There are such captures, which differ only in the slots of groups that will open. */
  lemma {:induction false} Foresee(items: seq<Item>, s: seq<byte>, env: Captures, open: set<group>, closed: set<group>)
    returns (ends: slots)
    requires Standing(items, s, env, open, closed)
    ensures forall g: group :: g !in Opens(items) ==> ends[g] == env.ends[g]
    ensures Foreseen(items, s, env.(ends := ends), open)
    decreases |items|
  {
    ends := env.ends;
    if items != [] {
      StandsOn(items, s, env, open, closed);
      GroupedOpens(items, open, closed);
      GroupedOpens(items[1..], OpenAfter(items[0], open), ClosedAfter(items[0], closed));
      var it, rest, i := items[0], items[1..], |s|;
      var open', closed' := OpenAfter(it, open), ClosedAfter(it, closed);
      match it.base
      case Bra(g) =>
        var env1 := env.(ends := env.ends[g := i]);
        assert s + Piece(it, s, env, open) == s;
        ends := Foresee(rest, s, After(it, env1, i), open', closed');
        assert After(it, env.(ends := ends), i) == After(it, env1, i).(ends := ends);
      case Ket(g) =>
        assert s + Piece(it, s, env, open) == s;
        var rest' := Foresee(rest, s, After(it, env, i), open', closed');
        ends := rest'[g := env.ends[g]];
        assert After(it, env.(ends := ends), i) == After(it, env, i).(ends := rest');
      case _ =>
        ends := Foresee(rest, s + Piece(it, s, env, open), env, open', closed');
        assert Piece(it, s, env.(ends := ends), open) == Piece(it, s, env, open);
    }
  }

  /** With them, a group's slots hold the empty text as long as it is open. */
  lemma {:induction false} ForeseenIsQuiet(items: seq<Item>, s: seq<byte>, env: Captures, open: set<group>, closed: set<group>)
    requires Standing(items, s, env, open, closed) && Foreseen(items, s, env, open)
    requires forall g: group :: g in open ==> env.starts[g] == env.ends[g]
    ensures Quiet(items, s, env, open)
    decreases |items|
  {
    if items != [] {
      StandsOn(items, s, env, open, closed);
      var it := items[0];
      ForeseenIsQuiet(items[1..], s + Piece(it, s, env, open), After(it, env, |s|), OpenAfter(it, open), ClosedAfter(it, closed));
    }
  }

  // ----- a reference inside its own group -----

  /** The groups that are open before item `k`. */
  ghost function OpenAt(items: seq<Item>, open: set<group>, k: nat): set<group>
    requires k <= |items|
    decreases k
  {
    if k == 0 then open else OpenAt(items[1..], OpenAfter(items[0], open), k - 1)
  }

  /** What a parse with these cuts has in the slots of a group that is open before item `k`. */
  lemma {:induction false} OpenSlots(items: seq<Item>, s: seq<byte>, a: Captures, b: Captures, open: set<group>, closed: set<group>,
                                     k: nat, g: group, full: seq<byte>)
    requires Standing(items, s, a, open, closed) && Foreseen(items, s, a, open)
    requires forall h: group :: h in open ==> a.starts[h] == a.ends[h] == b.starts[h]
    requires k < |items| && items[k] == Item(Back(g), Once) && g in OpenAt(items, open, k)
    requires b.ends[g] == a.ends[g] + 1
    ensures !IsParse(items, full, |s|, b, -1, Cuts(items, s, a, open))
    decreases k
  {
    StandsOn(items, s, a, open, closed);
    var it, rest := items[0], items[1..];
    var s', cuts := s + Piece(it, s, a, open), Cuts(items, s, a, open);
    var a', b', open', closed' := After(it, a, |s|), After(it, b, |s|), OpenAfter(it, open), ClosedAfter(it, closed);
    assert cuts[1..] == Cuts(rest, s', a', open');
    if k == 0 {
      assert Piece(it, s, a, open) == [] && cuts[1] == |s|;
      if Fits(it, full, b, -1, |s|, |s|) {
        assert |Text(full, b, g)| == 1;
      }
    } else {
      StaysOpen(rest, open', closed', k - 1, g);
      OpenSlots(rest, s', a', b', open', closed', k - 1, g, full);
    }
  }

  /** A group that is open later has not been closed before. */
  lemma {:induction false} StaysOpen(items: seq<Item>, open: set<group>, closed: set<group>, k: nat, g: group)
    requires Grouped(items, open, closed) && open !! closed && k <= |items| && g in OpenAt(items, open, k)
    ensures g !in closed
    decreases k
  {
    if k != 0 {
      StaysOpen(items[1..], OpenAfter(items[0], open), ClosedAfter(items[0], closed), k - 1, g);
    }
  }

  // ----- the subject is long enough -----

  lemma {:induction false} CutsAscend(items: seq<Item>, s: seq<byte>, env: Captures, open: set<group>, j: nat, m: nat)
    requires Satisfiable(items) && j <= m <= |items|
    ensures |s| <= Cuts(items, s, env, open)[j] <= Cuts(items, s, env, open)[m]
    decreases |items|
  {
    if m != 0 {
      SatisfiableParts(items);
      var it, rest := items[0], items[1..];
      var s', env', open' := s + Piece(it, s, env, open), After(it, env, |s|), OpenAfter(it, open);
      var tail := Cuts(rest, s', env', open');
      assert Cuts(items, s, env, open) == [|s|] + tail;
      CutsAscend(rest, s', env', open', if j == 0 then 0 else j - 1, m - 1);
    }
  }

  /** An item that must take a character takes one. */
  predicate TakesOne(it: Item) {
    it.base.One? && (match it.rep case Once => true case Star => false case Interval(b) => !GoodBounds(b) || 0 < b[0])
  }

  lemma {:induction false} CutsGrow(items: seq<Item>, s: seq<byte>, env: Captures, open: set<group>, m: nat)
    requires Satisfiable(items) && m < |items| && TakesOne(items[m])
    ensures Cuts(items, s, env, open)[m] < Cuts(items, s, env, open)[m + 1]
    decreases |items|
  {
    SatisfiableParts(items);
    var it := items[0];
    var s', env', open' := s + Piece(it, s, env, open), After(it, env, |s|), OpenAfter(it, open);
    assert Cuts(items, s, env, open)[1..] == Cuts(items[1..], s', env', open');
    if m != 0 {
      CutsGrow(items[1..], s', env', open', m - 1);
    }
  }

  lemma {:induction false} OpensHas(items: seq<Item>, j: nat, g: group)
    requires j < |items| && items[j].base == Bra(g)
    ensures g in Opens(items)
    decreases j
  {
    if j != 0 {
      OpensHas(items[1..], j - 1, g);
    }
  }

  /** The end slot of a group holds the position where it will open. */
  lemma {:induction false} EndForeseen(items: seq<Item>, s: seq<byte>, env: Captures, open: set<group>, closed: set<group>, j: nat,
                                       g: group)
    requires Standing(items, s, env, open, closed) && Foreseen(items, s, env, open)
    requires j < |items| && items[j].base == Bra(g)
    ensures env.ends[g] == Cuts(items, s, env, open)[j]
    decreases j
  {
    if j != 0 {
      StandsOn(items, s, env, open, closed);
      var it := items[0];
      var open', closed' := OpenAfter(it, open), ClosedAfter(it, closed);
      OpensHas(items[1..], j - 1, g);
      GroupedOpens(items[1..], open', closed');
      EndForeseen(items[1..], s + Piece(it, s, env, open), After(it, env, |s|), open', closed', j - 1, g);
    }
  }

  // ----- captures leak -----

  /** Without a starred back reference nothing is ever stuck. */
  lemma {:induction false} NeverStuck(items: seq<Item>, s: seq<byte>, i: int, env: Captures, locs: int, cuts: seq<int>)
    requires forall it <- items :: it.base.Back? ==> it.rep == Once
    ensures !Stuck(items, s, i, env, locs, cuts)
    decreases |items|
  {
    if items != [] && 1 < |cuts| {
      NeverStuck(items[1..], s, cuts[1], After(items[0], env, i), locs, cuts[1..]);
    }
  }

  lemma NoStarNoHang(items: seq<Item>, s: seq<byte>, i: nat, env: Captures)
    requires i <= |s| && forall it <- items :: it.base.Back? ==> it.rep == Once
    ensures !Run(items, s, i, env, -1).Hangs?
  {
    if Run(items, s, i, env, -1).Hangs? {
      HangsWhereStuck(items, s, i, env, -1);
      NeverStuck(items, s, i, env, -1, StuckTrace(items, s, i, env, -1));
    }
  }

  /** Item `k` refers to group `g`, which item `j` opens and which is still open, and item `m` behind that mark must take
      a character. */
  ghost predicate RefersToItself(items: seq<Item>, j: nat, k: nat, m: nat, g: group) {
    && k < |items| && items[k] == Item(Back(g), Once) && g in OpenAt(items, {}, k)
    && j < m < |items| && items[j].base == Bra(g) && TakesOne(items[m])
  }

  /** Two captures that give different outcomes, although they differ in one slot only, which the pattern itself writes:
      with `a` the reference is empty, with `b` it is one character long. */
  ghost predicate Leaks(items: seq<Item>, s: seq<byte>, a: Captures, b: Captures, g: group) {
    && 0 !in s && AgreeOutside(items, a, b)
    && 0 <= a.ends[g] < |s| && b == a.(ends := a.ends[g := a.ends[g] + 1])
    && Run(items, s, 0, a, -1).Matched? && Run(items, s, 0, b, -1) == NoMatch
  }

  lemma SelfReferencesLeak(items: seq<Item>, j: nat, k: nat, m: nat, g: group) returns (s: seq<byte>, a: Captures, b: Captures)
    requires Grouped(items, {}, {}) && Satisfiable(items) && DolLast(items) && g in Closes(items)
    requires (forall it <- items :: it.base.Back? ==> it.rep == Once) && RefersToItself(items, j, k, m, g)
    ensures Leaks(items, s, a, b, g)
  {
    var zero := Captures(seq(NBRA, _ => 0), seq(NBRA, _ => 0));
    var ends := Foresee(items, [], zero, {}, {});
    a := zero.(ends := ends);
    b := a.(ends := a.ends[g := a.ends[g] + 1]);
    s := Fill(items, [], a, {});
    ForeseenIsQuiet(items, [], a, {}, {});
    MinimalParses(items, [], a, {}, {}, s);
    FillNoNul(items, [], a, {});
    LongEnough(items, a, s, j, m, g);
    HasMatch(items, s, a, Cuts(items, [], a, {}));
    HasNoMatch(items, s, a, b, k, g);
  }

  lemma HasMatch(items: seq<Item>, s: seq<byte>, a: Captures, cuts: seq<int>)
    requires (forall it <- items :: it.base.Back? ==> it.rep == Once) && IsParse(items, s, 0, a, -1, cuts)
    ensures Run(items, s, 0, a, -1).Matched?
  {
    NoStarNoHang(items, s, 0, a);
    if Run(items, s, 0, a, -1) == NoMatch {
      RunFailsMeansNone(items, s, 0, a, -1, cuts);
    }
  }

  lemma HasNoMatch(items: seq<Item>, s: seq<byte>, a: Captures, b: Captures, k: nat, g: group)
    requires Standing(items, [], a, {}, {}) && Foreseen(items, [], a, {}) && s == Fill(items, [], a, {})
    requires forall it <- items :: it.base.Back? ==> it.rep == Once
    requires k < |items| && items[k] == Item(Back(g), Once) && g in OpenAt(items, {}, k) && b.ends[g] == a.ends[g] + 1
    ensures Run(items, s, 0, b, -1) == NoMatch
  {
    NoStarNoHang(items, s, 0, b);
    if Run(items, s, 0, b, -1).Matched? {
      RunFindsParse(items, s, 0, b, -1);
      ParsesAreMinimal(items, [], a, {}, {}, s, b, 0, Trace(items, s, 0, b, -1));
      OpenSlots(items, [], a, b, {}, {}, k, g, s);
    }
  }

  lemma LongEnough(items: seq<Item>, a: Captures, s: seq<byte>, j: nat, m: nat, g: group)
    requires Standing(items, [], a, {}, {}) && Foreseen(items, [], a, {}) && Cuts(items, [], a, {})[|items|] == |s|
    requires j < m < |items| && items[j].base == Bra(g) && TakesOne(items[m])
    ensures 0 <= a.ends[g] < |s|
  {
    EndForeseen(items, [], a, {}, {}, j, g);
    CutsAscend(items, [], a, {}, j, m);
    CutsGrow(items, [], a, {}, m);
    CutsAscend(items, [], a, {}, m + 1, |items|);
  }
}
