/** What the text of a pattern alone tells: on which patterns the matcher can loop, and in which captures leak. */
module RegexpPatternLimits {
  import opened Bytes
  import opened RegexpCode
  import opened RegexpPattern
  import opened RegexpPatternFacts
  import opened RegexpMeaning
  import opened RegexpGroups
  import opened RegexpMinimal
  import opened RegexpTermination
  import opened RegexpLeaks
  import opened RegexpSearch

  /** In every accepted pattern, a special `$` is the last item. */
  lemma {:induction false} ParsedDolLast(t: seq<byte>, pos: nat, g: Groups, eof: byte, sed: bool)
    requires ItemsFrom(t, pos, g, eof, sed).Ok?
    ensures DolLast(ItemsFrom(t, pos, g, eof, sed).value.items)
    decreases |t| - pos
  {
    if t[pos] != eof && t[pos] != NEWLINE {
      var (b, p, g') := Primary(t, pos, g, eof).value;
      var (it, next) := Suffix(t, p, Item(b, Once), eof).value;
      var items, rest := ItemsFrom(t, pos, g, eof, sed).value.items, ItemsFrom(t, next, g', eof, sed).value.items;
      assert items == [it] + rest;
      ParsedDolLast(t, next, g', eof, sed);
      PrimaryWellMade(t, pos, g, eof);
      SuffixWellMade(t, p, Item(b, Once), eof);
      if b.Dol? {
        DolStandsAlone(t, pos, g, eof);
        assert rest == [];
      }
    }
  }

  /** Nested marks and references to groups that have been opened. */
  lemma {:induction false} NestedIsGrouped(items: seq<Item>, g: Groups, end: Groups)
    requires Nested(items, g, end) && Tidy(g) && g.nbra <= NBRA
    ensures Grouped(items, OpenSet(g), ClosedSet(g))
    decreases |items|
  {
    if items != [] {
      match items[0].base
      case Bra(n) =>
        TidyPush(g);
        SetsPush(g);
        NestedIsGrouped(items[1..], g.(open := g.open + [n], nbra := g.nbra + 1), end);
      case Ket(n) =>
        TidyPop(g);
        SetsPop(g);
        NestedIsGrouped(items[1..], g.(open := g.open[..|g.open| - 1], closed := g.closed + 1), end);
      case _ => NestedIsGrouped(items[1..], g, end);
    }
  }

  lemma {:induction false} CountedIsClosed(items: seq<Item>, n: group)
    requires 0 < CountKet(items, n)
    ensures n in Closes(items)
  {
    if items[0].base != Ket(n) {
      CountedIsClosed(items[1..], n);
    }
  }

  lemma {:induction false} OpenedIsCounted(items: seq<Item>, n: group, j: nat)
    requires j < |items| && items[j].base == Bra(n)
    ensures 0 < CountBra(items, n)
    decreases j
  {
    if j != 0 {
      OpenedIsCounted(items[1..], n, j - 1);
    }
  }

  /** What both results need of an accepted pattern. */
  lemma PatternStands(t: seq<byte>, start: nat, eof: byte, sed: bool)
    requires Pattern(t, start, eof, sed).Ok?
    ensures var items := Pattern(t, start, eof, sed).value.items;
      && DolLast(items) && Grouped(items, {}, {})
      && forall j, n: group :: 0 <= j < |items| && items[j].base == Bra(n) ==> n in Closes(items)
  {
    var from := if Peek(t, start) == CARET then start + 1 else start;
    var p := Pattern(t, start, eof, sed).value;
    ParsedDolLast(t, from, NO_GROUPS, eof, sed);
    ParsedNested(t, from, NO_GROUPS, eof, sed);
    NestedIsGrouped(p.items, NO_GROUPS, p.groups);
    assert OpenSet(NO_GROUPS) == {} && ClosedSet(NO_GROUPS) == {};
    forall j, n: group | 0 <= j < |p.items| && p.items[j].base == Bra(n)
      ensures n in Closes(p.items)
    {
      OpenedIsCounted(p.items, n, j);
      OpenedAndClosedOnce(p.items, NO_GROUPS, p.groups, n);
      CountedIsClosed(p.items, n);
    }
  }

  /** A supported pattern whose characters can all be matched passes the check if and only if the matcher comes back
      from every subject. */
  lemma PatternTermination(t: seq<byte>, start: nat, eof: byte, sed: bool, env: Captures)
    requires Pattern(t, start, eof, sed).Ok? && Supported(t, start, Pattern(t, start, eof, sed).value)
    requires Satisfiable(Pattern(t, start, eof, sed).value.items)
    ensures var items := Pattern(t, start, eof, sed).value.items;
      Terminates(items, {}, {}) <==> forall s: seq<byte>, i: nat :: 0 !in s && i <= |s| ==> !Run(items, s, i, env, -1).Hangs?
  {
    var p := Pattern(t, start, eof, sed).value;
    PatternStands(t, start, eof, sed);
    ParsedNested(t, if Peek(t, start) == CARET then start + 1 else start, NO_GROUPS, eof, sed);
    ScopedIffNoSelfReference(p.items, NO_GROUPS, p.groups);
    assert OpenSet(NO_GROUPS) == {} && ClosedSet(NO_GROUPS) == {};
    TerminationIsExact(p.items, env);
  }

  /** In an accepted pattern without starred references, captures leak if a reference stands in its own group and some
      character must be taken behind the mark that opens it. */
  lemma PatternLeaks(t: seq<byte>, start: nat, eof: byte, sed: bool, j: nat, k: nat, m: nat, g: group)
    returns (s: seq<byte>, a: Captures, b: Captures)
    requires Pattern(t, start, eof, sed).Ok? && Satisfiable(Pattern(t, start, eof, sed).value.items)
    requires forall it <- Pattern(t, start, eof, sed).value.items :: it.base.Back? ==> it.rep == Once
    requires RefersToItself(Pattern(t, start, eof, sed).value.items, j, k, m, g)
    ensures Leaks(Pattern(t, start, eof, sed).value.items, s, a, b, g)
  {
    PatternStands(t, start, eof, sed);
    s, a, b := SelfReferencesLeak(Pattern(t, start, eof, sed).value.items, j, k, m, g);
  }

  /** A pattern that is not supported for such a reference has one. */
  lemma {:induction false} FindSelfReference(items: seq<Item>, g: Groups, end: Groups) returns (k: nat, n: group)
    requires Nested(items, g, end) && Tidy(g) && g.nbra <= NBRA && !NoSelfReference(items, g.open)
    ensures k < |items| && items[k].base == Back(n) && n in OpenAt(items, OpenSet(g), k)
    decreases |items|
  {
    match items[0].base
    case Bra(b) =>
      TidyPush(g);
      SetsPush(g);
      k, n := FindSelfReference(items[1..], g.(open := g.open + [b], nbra := g.nbra + 1), end);
      k := k + 1;
    case Ket(b) =>
      TidyPop(g);
      SetsPop(g);
      k, n := FindSelfReference(items[1..], g.(open := g.open[..|g.open| - 1], closed := g.closed + 1), end);
      k := k + 1;
    case Back(b) =>
      if b in g.open {
        k, n := 0, b;
      } else {
        k, n := FindSelfReference(items[1..], g, end);
        k := k + 1;
      }
    case _ =>
      k, n := FindSelfReference(items[1..], g, end);
      k := k + 1;
  }

  /** The mark that opened a group. */
  lemma {:induction false} FindMark(items: seq<Item>, open: set<group>, k: nat, n: group) returns (j: nat)
    requires k <= |items| && n !in open && n in OpenAt(items, open, k)
    ensures j < k && items[j].base == Bra(n)
    decreases k
  {
    if items[0].base == Bra(n) {
      j := 0;
    } else {
      j := FindMark(items[1..], OpenAfter(items[0], open), k - 1, n);
      j := j + 1;
    }
  }

  /** An accepted pattern that is not supported because of such a reference leaks, if it has no starred references and
      some character must be taken behind all its opening marks. */
  lemma UnsupportedLeaks(t: seq<byte>, start: nat, eof: byte, sed: bool, m: nat)
    returns (s: seq<byte>, a: Captures, b: Captures, g: group)
    requires Pattern(t, start, eof, sed).Ok? && Satisfiable(Pattern(t, start, eof, sed).value.items)
    requires var items := Pattern(t, start, eof, sed).value.items;
      && (forall it <- items :: it.base.Back? ==> it.rep == Once) && !NoSelfReference(items, [])
      && m < |items| && TakesOne(items[m]) && forall j :: 0 <= j < |items| && items[j].base.Bra? ==> j < m
    ensures Leaks(Pattern(t, start, eof, sed).value.items, s, a, b, g)
  {
    var p := Pattern(t, start, eof, sed).value;
    ParsedNested(t, if Peek(t, start) == CARET then start + 1 else start, NO_GROUPS, eof, sed);
    assert OpenSet(NO_GROUPS) == {};
    var k;
    k, g := FindSelfReference(p.items, NO_GROUPS, p.groups);
    var j := FindMark(p.items, {}, k, g);
    assert p.items[k] in p.items;
    s, a, b := PatternLeaks(t, start, eof, sed, j, k, m, g);
  }
}
