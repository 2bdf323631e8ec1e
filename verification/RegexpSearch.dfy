/**
 The whole of <regexp.h>: what a search with a compiled pattern finds, stated on the text of the pattern
 and the subject alone.
 */
module RegexpSearch {
  import opened Bytes
  import opened RegexpCode
  import opened RegexpPattern
  import opened RegexpRoom
  import opened RegexpPatternFacts
  import opened RegexpMeaning
  import opened RegexpGroups
  import opened RegexpCompile
  import opened RegexpMatch

  // ----- parses, point by point -----

  /** The captures when the first `k` items have taken their pieces. */
  ghost function CapturesAt(items: seq<Item>, env: Captures, cuts: seq<int>, k: nat): Captures
    requires k <= |items| && |cuts| == |items| + 1
  {
    Final(items[..k], env, cuts[..k + 1])
  }

  /** A parse is a sequence of cut points such that every item fits the piece between its two. */
  lemma {:induction false} ParsePointwise(items: seq<Item>, s: seq<byte>, i: int, env: Captures, locs: int, cuts: seq<int>)
    requires |cuts| == |items| + 1 && cuts[0] == i
    ensures IsParse(items, s, i, env, locs, cuts) <==>
            forall k :: 0 <= k < |items| ==> Fits(items[k], s, CapturesAt(items, env, cuts, k), locs, cuts[k], cuts[k + 1])
    decreases |items|
  {
    if items != [] {
      var env', rest, tail := After(items[0], env, i), items[1..], cuts[1..];
      ParsePointwise(rest, s, cuts[1], env', locs, tail);
      assert CapturesAt(items, env, cuts, 0) == env;
      forall k | 0 < k < |items|
        ensures CapturesAt(items, env, cuts, k) == CapturesAt(rest, env', tail, k - 1)
      {
        assert items[..k][1..] == rest[..k - 1];
        assert cuts[..k + 1][1..] == tail[..k];
      }
      if IsParse(items, s, i, env, locs, cuts) {
        forall k | 0 <= k < |items|
          ensures Fits(items[k], s, CapturesAt(items, env, cuts, k), locs, cuts[k], cuts[k + 1])
        {
          if 0 < k {
            assert Fits(rest[k - 1], s, CapturesAt(rest, env', tail, k - 1), locs, tail[k - 1], tail[k]);
          }
        }
      }
      if forall k :: 0 <= k < |items| ==> Fits(items[k], s, CapturesAt(items, env, cuts, k), locs, cuts[k], cuts[k + 1]) {
        assert Fits(items[0], s, CapturesAt(items, env, cuts, 0), locs, cuts[0], cuts[1]);
        forall k | 0 <= k < |rest|
          ensures Fits(rest[k], s, CapturesAt(rest, env', tail, k), locs, tail[k], tail[k + 1])
        {
          assert Fits(items[k + 1], s, CapturesAt(items, env, cuts, k + 1), locs, cuts[k + 1], cuts[k + 2]);
        }
      }
    }
  }

  /** Slots that the items do not write keep what they had. */
  lemma {:induction false} FinalKeeps(items: seq<Item>, env: Captures, cuts: seq<int>, g: group)
    requires |cuts| == |items| + 1
    ensures g !in Opens(items) ==> Final(items, env, cuts).starts[g] == env.starts[g]
    ensures g !in Closes(items) ==> Final(items, env, cuts).ends[g] == env.ends[g]
    decreases |items|
  {
    if items != [] {
      FinalKeeps(items[1..], After(items[0], env, cuts[0]), cuts[1..], g);
    }
  }

  /** The captures of a match are the cut points at the marks of each group, and nothing else. */
  lemma {:induction false} CapturesAreCuts(items: seq<Item>, env: Captures, cuts: seq<int>, open: set<group>, closed: set<group>,
                                           k: nat, g: group)
    requires |cuts| == |items| + 1 && k < |items| && open !! closed && Scoped(items, open, closed)
    ensures items[k].base == Bra(g) ==> Final(items, env, cuts).starts[g] == cuts[k]
    ensures items[k].base == Ket(g) ==> Final(items, env, cuts).ends[g] == cuts[k]
    decreases |items|
  {
    var it, env' := items[0], After(items[0], env, cuts[0]);
    if k == 0 {
      ScopeAfter(items, Captures(seq(NBRA, _ => 0), seq(NBRA, _ => 0)), 0, 0, open, closed);
      ScopedWrites(items[1..], OpenAfter(it, open), ClosedAfter(it, closed));
      FinalKeeps(items[1..], env', cuts[1..], g);
    } else {
      ScopeAfter(items, Captures(seq(NBRA, _ => 0), seq(NBRA, _ => 0)), 0, 0, open, closed);
      CapturesAreCuts(items[1..], env', cuts[1..], OpenAfter(it, open), ClosedAfter(it, closed), k - 1, g);
    }
  }

  // ----- patterns that can be executed -----

  /** `advance` has a case for every opcode: no interval repeats a mark, a back reference or another interval. */
  predicate Executable(items: seq<Item>) {
    forall it <- items :: it.rep.Interval? ==> it.base.One? && |it.rep.bounds| == 2
  }

  /** The pattern is one that the header supports. */
  ghost predicate Supported(t: seq<byte>, start: nat, p: Parsed) {
    && NulFree(t, start, p.stop)
    && Executable(p.items)
    && NoSelfReference(p.items, [])
  }

  /** The code of a supported pattern decodes to its items, and meets everything that `advance` asks for. */
  lemma SupportedIsReady(t: seq<byte>, start: nat, eof: byte, sed: bool, code: seq<byte>, z: seq<byte>, p1: nat)
    requires Pattern(t, start, eof, sed).Ok? && Supported(t, start, Pattern(t, start, eof, sed).value)
    requires StandsAt(code, 0, Encode(Pattern(t, start, eof, sed).value.items))
    requires Terminated(z) && p1 < |z|
    ensures Ready(z, p1, code, 0, Pattern(t, start, eof, sed).value.items, {}, {})
  {
    var from := if Peek(t, start) == CARET then start + 1 else start;
    var p := Pattern(t, start, eof, sed).value;
    ParsedWellMade(t, from, NO_GROUPS, eof, sed);
    ParsedNested(t, from, NO_GROUPS, eof, sed);
    ScopedIffNoSelfReference(p.items, NO_GROUPS, p.groups);
    assert OpenSet(NO_GROUPS) == {} && ClosedSet(NO_GROUPS) == {};
    assert NulFree(t, from, p.stop);
    forall it | it in p.items
      ensures Decodable(it)
    {
      assert WellMade(it);
    }
    DecodeEncoded(code, 0, p.items);
  }

  // ----- the search -----

  /** Some stretch from `i` matches. */
  ghost predicate HasParse(items: seq<Item>, s: seq<byte>, i: int, env: Captures, locs: int) {
    exists cuts :: IsParse(items, s, i, env, locs, cuts)
  }

  /** `cuts` is the match: a parse from `i` that no other parse from `i` comes after. */
  ghost predicate IsMatch(items: seq<Item>, s: seq<byte>, i: int, env: Captures, locs: int, cuts: seq<int>) {
    && IsParse(items, s, i, env, locs, cuts)
    && forall other :: IsParse(items, s, i, env, locs, other) ==> LexLeq(other, cuts)
  }

  /** The pure matcher, restated without any search: it hangs exactly where the search loops, and elsewhere it finds
      the match exactly where there is a parse. */
  lemma RunMeans(items: seq<Item>, s: seq<byte>, i: nat, env: Captures, locs: int)
    requires i <= |s|
    ensures Run(items, s, i, env, locs).Hangs? <==> Loops(items, s, i, env, locs)
    ensures match Run(items, s, i, env, locs)
            case Matched(end, env') =>
              var cuts := Trace(items, s, i, env, locs);
              IsMatch(items, s, i, env, locs, cuts) && end == cuts[|items|] && env' == Final(items, env, cuts)
            case NoMatch => !HasParse(items, s, i, env, locs)
            case Hangs => exists cuts :: Stuck(items, s, i, env, locs, cuts) && NoneBeyond(items, s, i, env, locs, cuts)
  {
    HangsIffLoops(items, s, i, env, locs);
    match Run(items, s, i, env, locs)
    case Matched(_, _) =>
      RunFindsParse(items, s, i, env, locs);
      forall other | IsParse(items, s, i, env, locs, other)
        ensures LexLeq(other, Trace(items, s, i, env, locs))
      {
        RunFindsGreatest(items, s, i, env, locs, other);
      }
    case NoMatch =>
      forall cuts
        ensures !IsParse(items, s, i, env, locs, cuts)
      {
        RunFailsMeansNone(items, s, i, env, locs, cuts);
      }
    case Hangs =>
  }

  /** Nothing happens at a position: there is no parse, and the search for one ends. */
  ghost predicate Passed(items: seq<Item>, s: seq<byte>, q: int, env: Captures, locs: int) {
    !HasParse(items, s, q, env, locs) && !Loops(items, s, q, env, locs)
  }

  /** The result of compiling `t` and searching the subject with the code. The three cases exclude each other, so that
      each says exactly when the search has that result. */
  ghost predicate Found(v: Verdict, items: seq<Item>, s: seq<byte>, p1: nat, anchored: bool, env: Captures, locs: int,
                        loc1: int, loc2: int, env': Captures)
  {
    match v
    case Yes =>
      && p1 <= loc1 <= (if anchored then p1 else |s|)
      && (forall q :: p1 <= q < loc1 ==> Passed(items, s, q, env, locs))
      && !Loops(items, s, loc1, env, locs)
      && exists cuts :: IsMatch(items, s, loc1, env, locs, cuts) && loc2 == cuts[|items|] && env' == Final(items, env, cuts)
    case No =>
      forall q :: p1 <= q <= (if anchored then p1 else |s|) ==> Passed(items, s, q, env, locs)
    case Never =>
      && !Terminates(items, {}, {})
      && exists q :: p1 <= q <= (if anchored then p1 else |s|) && HangsAt(items, s, p1, q, env, locs)
  }

  /** The search loops at `q`, after passing every position before. */
  ghost predicate HangsAt(items: seq<Item>, s: seq<byte>, p1: nat, q: int, env: Captures, locs: int) {
    Loops(items, s, q, env, locs) && forall k :: p1 <= k < q ==> Passed(items, s, k, env, locs)
  }

  lemma {:induction false} LexAntisymmetric(a: seq<int>, b: seq<int>)
    requires |a| == |b| && LexLeq(a, b) && LexLeq(b, a)
    ensures a == b
  {
    if a != [] {
      LexAntisymmetric(a[1..], b[1..]);
      assert a == [a[0]] + a[1..] && b == [b[0]] + b[1..];
    }
  }

  /** A position that is not passed decides the search if all before it are. */
  ghost predicate Decides(items: seq<Item>, s: seq<byte>, p1: nat, q: int, env: Captures, locs: int) {
    && p1 <= q && !Passed(items, s, q, env, locs)
    && forall k :: p1 <= k < q ==> Passed(items, s, k, env, locs)
  }

  lemma OneDecides(items: seq<Item>, s: seq<byte>, p1: nat, q: int, r: int, env: Captures, locs: int)
    requires Decides(items, s, p1, q, env, locs) && Decides(items, s, p1, r, env, locs)
    ensures q == r
  {
    assert q < r ==> Passed(items, s, q, env, locs);
    assert r < q ==> Passed(items, s, r, env, locs);
  }

  /** What each result says of the position that decides. */
  lemma FoundDecides(v: Verdict, items: seq<Item>, s: seq<byte>, p1: nat, anchored: bool, env: Captures, locs: int,
                     loc1: int, loc2: int, env': Captures) returns (q: int)
    requires Found(v, items, s, p1, anchored, env, locs, loc1, loc2, env')
    ensures v == No ==> forall k :: p1 <= k <= (if anchored then p1 else |s|) ==> Passed(items, s, k, env, locs)
    ensures v != No ==> q <= (if anchored then p1 else |s|) && Decides(items, s, p1, q, env, locs)
    ensures v == Yes ==> q == loc1 && !Loops(items, s, q, env, locs)
    ensures v == Never ==> Loops(items, s, q, env, locs)
  {
    q := loc1;
    if v == Never {
      q :| p1 <= q <= (if anchored then p1 else |s|) && HangsAt(items, s, p1, q, env, locs);
    }
    if v == Yes {
      assert HasParse(items, s, q, env, locs);
    }
  }

  /** A pattern and a subject determine the result of the search: all three cases together are its exact meaning. */
  lemma FoundIsUnique(v: Verdict, w: Verdict, items: seq<Item>, s: seq<byte>, p1: nat, anchored: bool, env: Captures, locs: int,
                      loc1: int, loc2: int, env': Captures, loc1': int, loc2': int, env'': Captures)
    requires Found(v, items, s, p1, anchored, env, locs, loc1, loc2, env')
    requires Found(w, items, s, p1, anchored, env, locs, loc1', loc2', env'')
    ensures v == w && (v == Yes ==> loc1 == loc1' && loc2 == loc2' && env' == env'')
  {
    var q := FoundDecides(v, items, s, p1, anchored, env, locs, loc1, loc2, env');
    var r := FoundDecides(w, items, s, p1, anchored, env, locs, loc1', loc2', env'');
    if v != No && w != No {
      OneDecides(items, s, p1, q, r, env, locs);
    }
    if v == Yes && w == Yes {
      SameMatch(items, s, loc1, env, locs, loc2, env', loc2', env'');
    }
  }

  lemma SameMatch(items: seq<Item>, s: seq<byte>, i: int, env: Captures, locs: int, loc2: int, env': Captures,
                  loc2': int, env'': Captures)
    requires exists cuts :: IsMatch(items, s, i, env, locs, cuts) && loc2 == cuts[|items|] && env' == Final(items, env, cuts)
    requires exists cuts :: IsMatch(items, s, i, env, locs, cuts) && loc2' == cuts[|items|] && env'' == Final(items, env, cuts)
    ensures loc2 == loc2' && env' == env''
  {
    var a :| IsMatch(items, s, i, env, locs, a) && loc2 == a[|items|] && env' == Final(items, env, a);
    var b :| IsMatch(items, s, i, env, locs, b) && loc2' == b[|items|] && env'' == Final(items, env, b);
    LexAntisymmetric(a, b);
  }

  lemma PassedBefore(items: seq<Item>, s: seq<byte>, p1: nat, q: int, env: Captures, locs: int)
    requires NoneBefore(items, s, p1, q, env, locs) && q <= |s| + 1
    ensures forall k :: p1 <= k < q ==> Passed(items, s, k, env, locs)
  {
    forall k | p1 <= k < q
      ensures Passed(items, s, k, env, locs)
    {
      assert Run(items, s, k, env, locs) == NoMatch;
      RunMeans(items, s, k, env, locs);
    }
  }

  lemma FoundThere(items: seq<Item>, s: seq<byte>, p1: nat, loc1: nat, env: Captures, locs: int)
    requires loc1 <= |s| && NoneBefore(items, s, p1, loc1, env, locs) && Run(items, s, loc1, env, locs).Matched?
    ensures (forall k :: p1 <= k < loc1 ==> Passed(items, s, k, env, locs)) && !Loops(items, s, loc1, env, locs)
    ensures var cuts := Trace(items, s, loc1, env, locs);
      && IsMatch(items, s, loc1, env, locs, cuts)
      && Run(items, s, loc1, env, locs) == Matched(cuts[|items|], Final(items, env, cuts))
  {
    PassedBefore(items, s, p1, loc1, env, locs);
    RunMeans(items, s, loc1, env, locs);
  }

  lemma LoopsThere(items: seq<Item>, s: seq<byte>, p1: nat, q: nat, env: Captures, locs: int)
    requires q <= |s| && Scoped(items, {}, {})
    requires NoneBefore(items, s, p1, q, env, locs) && Run(items, s, q, env, locs) == Hangs
    ensures HangsAt(items, s, p1, q, env, locs) && !Terminates(items, {}, {})
  {
    PassedBefore(items, s, p1, q, env, locs);
    RunMeans(items, s, q, env, locs);
    if Terminates(items, {}, {}) {
      NeverHangs(items, s, q, env, locs, {}, {}, {});
    }
  }

  /** `step` on executable code. */
  method Search(m: Matcher, z: seq<byte>, p1: nat, code: seq<byte>, ghost items: seq<Item>) returns (v: Verdict)
    requires m.Valid() && Ready(z, p1, code, 0, items, {}, {})
    modifies m, m.braslist, m.braelist
    ensures m.Valid() && m.locs == old(m.locs)
    ensures Found(v, items, Subject(z), p1, old(m.circf), old(m.Env()), m.locs, m.loc1, m.loc2, m.Env())
  {
    ghost var s, env, locs := Subject(z), m.Env(), m.locs;
    v := m.Step(z, p1, code, items);
    ghost var last := if m.circf then p1 else |s|;
    match v
    case Yes => FoundThere(items, s, p1, m.loc1, env, locs);
    case No => PassedBefore(items, s, p1, last + 1, env, locs);
    case Never =>
      ghost var q: nat :| p1 <= q <= last && Run(items, s, q, env, locs) == Hangs && NoneBefore(items, s, p1, q, env, locs);
      LoopsThere(items, s, p1, q, env, locs);
      assert HangsAt(items, s, p1, q, env, locs);
  }

  /** Compiles a pattern into `buf`, and searches the subject from `p1` on. */
  method CompileAndStep(c: Compiler, m: Matcher, t: seq<byte>, start: nat, buf: array<byte>, endbuf: nat, eof: byte,
                        z: seq<byte>, p1: nat)
    returns (v: Verdict)
    requires m.Valid() && buf != m.braslist as object && buf != m.braelist as object
    requires start < |t| && t[start] != eof && t[start] != NEWLINE && 0 < endbuf < buf.Length
    requires Pattern(t, start, eof, c.sed).Ok? && Supported(t, start, Pattern(t, start, eof, c.sed).value)
    requires |Encode(Pattern(t, start, eof, c.sed).value.items)| <= endbuf
    requires Terminated(z) && p1 < |z|
    modifies c, m, m.braslist, m.braelist, buf
    ensures Found(v, Pattern(t, start, eof, old(c.sed)).value.items, Subject(z), p1, t[start] == CARET, old(m.Env()), m.locs,
                  m.loc1, m.loc2, m.Env())
    ensures m.locs == old(m.locs)
  {
    ghost var env, sed := m.Env(), c.sed;
    ghost var items := Pattern(t, start, eof, sed).value.items;
    RoomIsLength(t, if t[start] == CARET then start + 1 else start, NO_GROUPS, eof, sed);
    var r := c.Compile(t, start, buf, endbuf, eof);
    var code := buf[..];
    assert StandsAt(code, 0, Encode(items)) by {
      assert buf[..r.value] == Encode(items);
    }
    SupportedIsReady(t, start, eof, sed, code, z, p1);
    m.circf := c.circf;
    assert m.Env() == env;
    v := Search(m, z, p1, code, items);
  }
}
