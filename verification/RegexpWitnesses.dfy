/** Two patterns that the compiler accepts and the matcher does not cope with. */
module RegexpWitnesses {
  import opened Bytes
  import opened RegexpCode
  import opened RegexpPattern
  import opened RegexpPatternFacts
  import opened RegexpMeaning
  import opened RegexpGroups
  import opened RegexpSearch

  /** An item, and what is left after everything that repeats it. */
  lemma ParseStep(t: seq<byte>, pos: nat, g: Groups, b: Base, next: nat, g': Groups, it: Item, after: nat, rest: Parsed)
    returns (p: Parsed)
    requires pos < next <= after < |t| && t[pos] != 0 && t[pos] != NEWLINE
    requires Primary(t, pos, g, 0) == Ok((b, next, g')) && Suffix(t, next, Item(b, Once), 0) == Ok((it, after))
    requires ItemsFrom(t, after, g', 0, false) == Ok(rest)
    ensures ItemsFrom(t, pos, g, 0, false) == Ok(p) && p.items == [it] + rest.items && p.stop == rest.stop
  {
    p := Cons(it, rest);
  }

  // ----- a back reference inside its own group -----

  const SELF_REFERENCE: seq<byte> := [92, 40, 92, 40, 97, 92, 41, 92, 49, 92, 41, 0]

  const SELF_ITEMS: seq<Item> :=
    [Item(Bra(0), Once), Item(Bra(1), Once), Item(One(Chr(97)), Once), Item(Ket(1), Once), Item(Back(0), Once), Item(Ket(0), Once)]

  lemma SelfReferenceTail(t: seq<byte>) returns (p: Parsed)
    requires t == SELF_REFERENCE
    ensures ItemsFrom(t, 5, Groups([0, 1], 2, 0), 0, false) == Ok(p) && p.items == SELF_ITEMS[3..]
  {
    var g0, g1, g2 := Groups([], 2, 2), Groups([0], 2, 1), Groups([0, 1], 2, 0);
    assert g1.open[..0] == g0.open && g2.open[..1] == g1.open;
    var p11 := Parsed([], g0, 11);
    assert ItemsFrom(t, 11, g0, 0, false) == Ok(p11);
    var p9 := ParseStep(t, 9, g1, Ket(0), 11, g0, Item(Ket(0), Once), 11, p11);
    var p7 := ParseStep(t, 7, g1, Back(0), 9, g1, Item(Back(0), Once), 9, p9);
    p := ParseStep(t, 5, g2, Ket(1), 7, g1, Item(Ket(1), Once), 7, p7);
  }

  lemma SelfReferenceMiddle(t: seq<byte>) returns (p: Parsed)
    requires t == SELF_REFERENCE
    ensures ItemsFrom(t, 2, Groups([0], 1, 0), 0, false) == Ok(p) && p.items == SELF_ITEMS[1..]
  {
    var g2, g3 := Groups([0, 1], 2, 0), Groups([0], 1, 0);
    assert g3.open + [1] == g2.open;
    var p5 := SelfReferenceTail(t);
    var p4 := ParseStep(t, 4, g2, One(Chr(97)), 5, g2, Item(One(Chr(97)), Once), 5, p5);
    p := ParseStep(t, 2, g3, Bra(1), 4, g2, Item(Bra(1), Once), 4, p4);
  }

  lemma SelfReferenceParsed(t: seq<byte>, g: Groups) returns (p: Parsed)
    requires t == SELF_REFERENCE && g == NO_GROUPS
    ensures ItemsFrom(t, 0, g, 0, false) == Ok(p) && p.items == SELF_ITEMS
  {
    assert g.open + [0] == [0];
    var p2 := SelfReferenceMiddle(t);
    p := ParseStep(t, 0, g, Bra(0), 2, Groups([0], 1, 0), Item(Bra(0), Once), 2, p2);
  }

  /** `\(\(a\)\1\)` is accepted although its back reference names the group around it. */
  lemma SelfReferenceIsAccepted(t: seq<byte>) returns (p: Parsed)
    requires t == SELF_REFERENCE
    ensures ItemsFrom(t, 0, NO_GROUPS, 0, false) == Ok(p) && p.items == SELF_ITEMS && !NoSelfReference(p.items, [])
  {
    p := SelfReferenceParsed(t, NO_GROUPS);
    SelfReferenceRefers(p.items);
  }

  lemma SelfReferenceRefers(items: seq<Item>)
    requires items == SELF_ITEMS
    ensures !NoSelfReference(items, [])
  {
    assert !NoSelfReference(items[4..], [0]);
    assert items[3..][1..] == items[4..] && [0, 1][..1] == [0] && !NoSelfReference(items[3..], [0, 1]);
    assert items[2..][1..] == items[3..] && !NoSelfReference(items[2..], [0, 1]);
    assert items[1..][1..] == items[2..] && [0] + [1] == [0, 1] && !NoSelfReference(items[1..], [0]);
    assert [] + [0] == [0];
  }

  /** Captures with `end` where group 0 ends. */
  function Ending(end: int): Captures {
    Captures(seq(NBRA, _ => 0), seq(NBRA, _ => 0)[0 := end])
  }

  /** What is left of the pattern on "aa", once `a` has been matched and group 1 is closed. */
  lemma BackToOpenGroup(rest: seq<Item>, s: seq<byte>, env: Captures)
    requires rest == [Item(Back(0), Once), Item(Ket(0), Once)] && s == [97, 97]
    requires env.starts[0] == 0 && 0 <= env.ends[0] <= 1
    ensures Run(rest, s, 1, env, -1) == Matched(1 + env.ends[0], env.(ends := env.ends[0 := 1 + env.ends[0]]))
  {
    var end := env.ends[0];
    var last := rest[1..];
    assert last == [Item(Ket(0), Once)] && last[1..] == [];
    assert Text(s, env, 0) == s[0..end];
    assert s[1..1 + end] == s[0..end];
    assert Run(last, s, 1 + end, env, -1) == Run(last[1..], s, 1 + end, env.(ends := env.ends[0 := 1 + end]), -1);
  }

  lemma SelfReferenceCloses(items: seq<Item>)
    requires items == SELF_ITEMS
    ensures 0 in Closes(items)
  {
    assert 0 in Closes(items[5..]);
    assert items[4..][1..] == items[5..] && 0 in Closes(items[4..]);
    assert items[3..][1..] == items[4..] && 0 in Closes(items[3..]);
    assert items[2..][1..] == items[3..] && 0 in Closes(items[2..]);
    assert items[1..][1..] == items[2..] && 0 in Closes(items[1..]);
  }

  lemma SelfReferenceMatch(items: seq<Item>, s: seq<byte>, end: int, env: Captures)
    requires items == SELF_ITEMS && s == [97, 97] && 0 <= end <= 1 && env == Ending(end)
    ensures Run(items, s, 0, env, -1).Matched? && Run(items, s, 0, env, -1).end == 1 + end
  {
    var env1 := env.(starts := env.starts[0 := 0]);
    var env2 := env1.(starts := env1.starts[1 := 0]);
    var env3 := env2.(ends := env2.ends[1 := 1]);
    assert items[1..][1..] == items[2..] && items[2..][1..] == items[3..] && items[3..][1..] == items[4..];
    BackToOpenGroup(items[4..], s, env3);
    assert Run(items[3..], s, 1, env2, -1) == Run(items[4..], s, 1, env3, -1);
    assert Run(items[2..], s, 0, env2, -1) == Run(items[3..], s, 1, env2, -1);
    assert Run(items[1..], s, 0, env1, -1) == Run(items[2..], s, 0, env2, -1);
  }

  /** The match of such a pattern depends on what an earlier search left in a slot that the pattern itself writes:
      captures leak. */
  lemma SelfReferenceLeaks(items: seq<Item>, s: seq<byte>)
    requires items == SELF_ITEMS && s == [97, 97]
    ensures AgreeOutside(items, Ending(0), Ending(1))
    ensures Run(items, s, 0, Ending(0), -1) != Run(items, s, 0, Ending(1), -1)
  {
    SelfReferenceCloses(items);
    SelfReferenceMatch(items, s, 0, Ending(0));
    SelfReferenceMatch(items, s, 1, Ending(1));
  }

  // ----- an endless loop -----

  const ENDLESS: seq<byte> := [92, 40, 97, 42, 92, 41, 98, 92, 49, 42, 0]

  const ENDLESS_ITEMS: seq<Item> :=
    [Item(Bra(0), Once), Item(One(Chr(97)), Star), Item(Ket(0), Once), Item(One(Chr(98)), Once), Item(Back(0), Star)]

  lemma EndlessTail(t: seq<byte>) returns (p: Parsed)
    requires t == ENDLESS
    ensures ItemsFrom(t, 4, Groups([0], 1, 0), 0, false) == Ok(p) && p.items == ENDLESS_ITEMS[2..] && p.stop == 10
  {
    var g0, g1 := Groups([], 1, 1), Groups([0], 1, 0);
    assert g1.open[..0] == g0.open;
    var p10 := Parsed([], g0, 10);
    assert ItemsFrom(t, 10, g0, 0, false) == Ok(p10);
    assert Suffix(t, 10, Item(Back(0), Star), 0) == Ok((Item(Back(0), Star), 10));
    var p7 := ParseStep(t, 7, g0, Back(0), 9, g0, Item(Back(0), Star), 10, p10);
    var p6 := ParseStep(t, 6, g0, One(Chr(98)), 7, g0, Item(One(Chr(98)), Once), 7, p7);
    p := ParseStep(t, 4, g1, Ket(0), 6, g0, Item(Ket(0), Once), 6, p6);
  }

  lemma EndlessMiddle(t: seq<byte>) returns (p: Parsed)
    requires t == ENDLESS
    ensures ItemsFrom(t, 2, Groups([0], 1, 0), 0, false) == Ok(p) && p.items == ENDLESS_ITEMS[1..] && p.stop == 10
  {
    var g1 := Groups([0], 1, 0);
    var p4 := EndlessTail(t);
    assert Suffix(t, 4, Item(One(Chr(97)), Star), 0) == Ok((Item(One(Chr(97)), Star), 4));
    p := ParseStep(t, 2, g1, One(Chr(97)), 3, g1, Item(One(Chr(97)), Star), 4, p4);
  }

  lemma EndlessParsed(t: seq<byte>, g: Groups) returns (p: Parsed)
    requires t == ENDLESS && g == NO_GROUPS
    ensures ItemsFrom(t, 0, g, 0, false) == Ok(p) && p.items == ENDLESS_ITEMS && p.stop == 10
  {
    assert g.open + [0] == [0];
    var p2 := EndlessMiddle(t);
    p := ParseStep(t, 0, g, Bra(0), 2, Groups([0], 1, 0), Item(Bra(0), Once), 2, p2);
  }

  lemma EndlessTailRefersOutside(items: seq<Item>)
    requires items == ENDLESS_ITEMS
    ensures NoSelfReference(items[3..], [])
  {
    assert NoSelfReference(items[5..], []);
    assert items[4..][1..] == items[5..] && NoSelfReference(items[4..], []);
    assert items[3..][1..] == items[4..];
  }

  lemma EndlessRefersOutside(items: seq<Item>)
    requires items == ENDLESS_ITEMS
    ensures NoSelfReference(items, [])
  {
    EndlessTailRefersOutside(items);
    var one: seq<group> := [0];
    assert items[2..][1..] == items[3..] && one[..0] == [] && NoSelfReference(items[2..], one);
    assert items[1..][1..] == items[2..] && NoSelfReference(items[1..], one);
    assert [] + [0] == one;
  }

  /** `\(a*\)b\1*` is a supported pattern. */
  lemma EndlessIsSupported(t: seq<byte>) returns (p: Parsed)
    requires t == ENDLESS
    ensures Pattern(t, 0, 0, false) == Ok(p) && p.items == ENDLESS_ITEMS && Supported(t, 0, p)
  {
    p := EndlessParsed(t, NO_GROUPS);
    EndlessRefersOutside(p.items);
    EndlessExecutable(t, p);
  }

  lemma EndlessExecutable(t: seq<byte>, p: Parsed)
    requires t == ENDLESS && p.items == ENDLESS_ITEMS && p.stop == 10
    ensures NulFree(t, 0, p.stop) && Executable(p.items)
  {
  }

  /** On "b", the group is empty, and the matcher never comes back, whatever the lists held. */
  lemma EndlessHangs(items: seq<Item>, s: seq<byte>, env: Captures)
    requires items == ENDLESS_ITEMS && s == [98]
    ensures Run(items, s, 0, env, -1) == Hangs && Loops(items, s, 0, env, -1)
  {
    var env1 := env.(starts := env.starts[0 := 0]);
    var env2 := env1.(ends := env1.ends[0 := 0]);
    assert items[1..][1..] == items[2..] && items[2..][1..] == items[3..] && items[3..][1..] == items[4..];
    assert Text(s, env2, 0) == [];
    assert Run(items[4..], s, 1, env2, -1) == Hangs;
    assert Run(items[3..], s, 0, env2, -1) == Run(items[4..], s, 1, env2, -1);
    assert Run(items[2..], s, 0, env1, -1) == Run(items[3..], s, 0, env2, -1);
    assert Scan(Chr(97), s, 0, 1) == 0;
    RunRepeated(items[1..], s, 0, env1, -1);
    HangsIffLoops(items, s, 0, env, -1);
  }
}
