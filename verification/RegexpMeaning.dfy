/**
 What a compiled pattern means, twice.

 `Run` is a pure backtracking matcher: it passes the captures along and takes the first success in
 greedy order. `IsParse` says, without any search, that a sequence of cut points splits a stretch of
 the subject into pieces that fit the items one by one. `RunFindsGreatest`, `RunFailsMeansNone` and
 `HangsIffLoops` connect the two: what `Run` finds is the greatest parse in lexicographic order, it
 fails only if there is none, and it hangs exactly if a stuck item comes before every parse.
 */
module RegexpMeaning {
  import opened Bytes
  import opened RegexpCode

  /** The members of a bracket expression, as its bitmap form stands for them. */
  predicate Accepts(a: Atom, c: byte) {
    match a
    case Chr(d) => c == d
    case Dot => c != 0
    case Class(Plain, m) => c < 128 && c in m
    case Class(Negated, m) => !(c < 128 && c in m)
    case Class(Wide, m) => c in m
  }

  type slots = q: seq<int> | |q| == NBRA witness seq(NBRA, _ => 0)

  /** `braslist` and `braelist`: where each group began and ended. */
  datatype Captures = Captures(starts: slots, ends: slots)

  /** The captures after an item that was entered at `i`. */
  function After(it: Item, env: Captures, i: int): Captures {
    match it.base
    case Bra(g) => env.(starts := env.starts[g := i])
    case Ket(g) => env.(ends := env.ends[g := i])
    case _ => env
  }

  /** The least number of repetitions, and how many more are allowed (`\{m,\}` allows 20000 more). */
  function Limits(r: Repeat, s: seq<byte>): (nat, nat) {
    match r
    case Once => (1, 0)
    case Star => (0, |s|)
    case Interval(b) =>
      if !GoodBounds(b) then (1, 0)
      else (b[0], if b[1] == 255 then 20000 else b[1] - b[0])
  }

  // ----- the declarative meaning -----

  ghost predicate AllAccepted(a: Atom, s: seq<byte>, i: int, j: int)
    requires 0 <= i <= j <= |s|
  {
    forall q :: i <= q < j ==> Accepts(a, s[q])
  }

  /** `s[i..j]` is a permitted number of characters that `a` accepts. */
  ghost predicate Repeats(a: Atom, r: Repeat, s: seq<byte>, i: int, j: int) {
    && 0 <= i <= j <= |s|
    && Limits(r, s).0 <= j - i <= Limits(r, s).0 + Limits(r, s).1
    && AllAccepted(a, s, i, j)
  }

  /** The text group `g` holds, if its two ends are in order. */
  predicate Holds(s: seq<byte>, env: Captures, g: group) {
    0 <= env.starts[g] <= env.ends[g] <= |s|
  }

  function Text(s: seq<byte>, env: Captures, g: group): seq<byte>
    requires Holds(s, env, g)
  {
    s[env.starts[g]..env.ends[g]]
  }

  /** `w` written `n` times. */
  function Times(w: seq<byte>, n: nat): seq<byte> {
    if n == 0 then [] else w + Times(w, n - 1)
  }

  /** The item can take up exactly `s[i..j]`. A repeated character stops short of `locs`: no stretch is
      taken if it could have been extended, or ends, at `locs`. */
  ghost predicate Fits(it: Item, s: seq<byte>, env: Captures, locs: int, i: int, j: int) {
    && 0 <= i <= j <= |s|
    && match it.base
       case One(a) =>
         && Repeats(a, it.rep, s, i, j)
         && (it.rep.Once? || !(j <= locs && Repeats(a, it.rep, s, i, locs)))
       case Back(g) =>
         && Holds(s, env, g)
         && (if it.rep.Once? then s[i..j] == Text(s, env, g)
             else exists n: nat :: s[i..j] == Times(Text(s, env, g), n))
       case Dol => i == j == |s|
       case _ => i == j
  }

  /** `cuts` splits a stretch that starts at `i` into pieces that fit the items in turn. */
  ghost predicate IsParse(items: seq<Item>, s: seq<byte>, i: int, env: Captures, locs: int, cuts: seq<int>) {
    && |cuts| == |items| + 1
    && cuts[0] == i
    && (items != [] ==>
          && Fits(items[0], s, env, locs, i, cuts[1])
          && IsParse(items[1..], s, cuts[1], After(items[0], env, i), locs, cuts[1..]))
  }

  /** The captures a parse leaves. */
  ghost function Final(items: seq<Item>, env: Captures, cuts: seq<int>): Captures
    requires |cuts| == |items| + 1
  {
    if items == [] then env else Final(items[1..], After(items[0], env, cuts[0]), cuts[1..])
  }

  ghost predicate LexLeq(a: seq<int>, b: seq<int>)
    requires |a| == |b|
  {
    a == [] || a[0] < b[0] || (a[0] == b[0] && LexLeq(a[1..], b[1..]))
  }

  // ----- the backtracking matcher -----

  /** `Hangs`: the search reached a starred back reference to an empty group, where `advance` loops forever. */
  datatype Outcome = Matched(end: int, env: Captures) | NoMatch | Hangs

  /** The end of the longest stretch from `i` that `a` accepts, at most `limit` characters long. */
  function Scan(a: Atom, s: seq<byte>, i: nat, limit: nat): (r: nat)
    requires i <= |s|
    ensures i <= r <= |s| && r - i <= limit
    decreases limit
  {
    if limit == 0 || i == |s| || !Accepts(a, s[i]) then i else Scan(a, s, i + 1, limit - 1)
  }

  /** The end of the longest run of copies of `w` from `i`. */
  function ScanCopies(w: seq<byte>, s: seq<byte>, i: nat): (r: nat)
    requires i <= |s| && w != []
    ensures i <= r <= |s|
    decreases |s| - i
  {
    if i + |w| <= |s| && s[i..i + |w|] == w then ScanCopies(w, s, i + |w|) else i
  }

  function Run(items: seq<Item>, s: seq<byte>, i: nat, env: Captures, locs: int): Outcome
    requires i <= |s|
    decreases |items|, 0, 0
  {
    if items == [] then Matched(i, env) else
    var it, rest := items[0], items[1..];
    match it.base
    case One(a) =>
      if it.rep.Once? then
        if i < |s| && Accepts(a, s[i]) then Run(rest, s, i + 1, env, locs) else NoMatch
      else
        var (low, more) := Limits(it.rep, s);
        var from := Scan(a, s, i, low);
        if from != i + low then NoMatch
        else
          var p := Pick(rest, s, from, Scan(a, s, from, more), 1, env, locs, locs);
          if p < 0 then NoMatch else Run(rest, s, p, env, locs)
    case Back(g) =>
      if !Holds(s, env, g) then NoMatch else
      var w := Text(s, env, g);
      if it.rep.Once? then
        if i + |w| <= |s| && s[i..i + |w|] == w then Run(rest, s, i + |w|, env, locs) else NoMatch
      else if w == [] then Hangs
      else
        var p := Pick(rest, s, i, ScanCopies(w, s, i), |w|, env, -1, locs);
        if p < 0 then NoMatch else Run(rest, s, p, env, locs)
    case Dol => if i == |s| then Run(rest, s, i, env, locs) else NoMatch
    case _ => Run(rest, s, i, After(it, env, i), locs)
  }

  /** The first of `p`, `p - step`, ... down to `from` where `rest` does not fail; -1 if there is none,
      or if `stop` is reached first. */
  function Pick(rest: seq<Item>, s: seq<byte>, from: nat, p: int, step: nat, env: Captures, stop: int, locs: int): (r: int)
    requires p <= |s| && 0 < step
    ensures r == -1 || (from <= r <= p && Run(rest, s, r, env, locs) != NoMatch)
    decreases |rest|, 1, if p < from then 0 else p - from + 1
  {
    if p < from || p == stop then -1
    else if Run(rest, s, p, env, locs) != NoMatch then p
    else Pick(rest, s, from, p - step, step, env, stop, locs)
  }

  /** The outcome of a repeated item, given the candidate that was picked. */
  function Resume(rest: seq<Item>, s: seq<byte>, p: int, env: Captures, locs: int): Outcome
    requires p <= |s|
  {
    if p < 0 then NoMatch else Run(rest, s, p, env, locs)
  }

  lemma RunRepeated(items: seq<Item>, s: seq<byte>, i: nat, env: Captures, locs: int)
    requires items != [] && i <= |s| && items[0].base.One? && !items[0].rep.Once?
    ensures var a, r := items[0].base.atom, items[0].rep;
            var from := Scan(a, s, i, Limits(r, s).0);
            Run(items, s, i, env, locs) ==
              if from != i + Limits(r, s).0 then NoMatch
              else Resume(items[1..], s, Pick(items[1..], s, from, Scan(a, s, from, Limits(r, s).1), 1, env, locs, locs), env, locs)
  {
  }

  lemma RunRepeatedCons(a: Atom, r: Repeat, rest: seq<Item>, s: seq<byte>, i: nat, env: Captures, locs: int, from: nat)
    requires i <= |s| && !r.Once? && from == Scan(a, s, i, Limits(r, s).0)
    ensures Run([Item(One(a), r)] + rest, s, i, env, locs) ==
            if from != i + Limits(r, s).0 then NoMatch
            else Resume(rest, s, Pick(rest, s, from, Scan(a, s, from, Limits(r, s).1), 1, env, locs, locs), env, locs)
  {
    var items := [Item(One(a), r)] + rest;
    assert items[1..] == rest;
    RunRepeated(items, s, i, env, locs);
  }

  // ----- the greedy scans are exhaustive -----

  lemma {:induction false} ScanIsLongest(a: Atom, s: seq<byte>, i: nat, limit: nat)
    requires i <= |s|
    ensures AllAccepted(a, s, i, Scan(a, s, i, limit))
    ensures forall j :: i <= j <= |s| && j - i <= limit && AllAccepted(a, s, i, j) ==> j <= Scan(a, s, i, limit)
    decreases limit
  {
    if limit == 0 || i == |s| || !Accepts(a, s[i]) {
    } else {
      ScanIsLongest(a, s, i + 1, limit - 1);
      forall j | i <= j <= |s| && j - i <= limit && AllAccepted(a, s, i, j)
        ensures j <= Scan(a, s, i, limit)
      {
        if i < j {
          assert AllAccepted(a, s, i + 1, j);
        }
      }
    }
  }

  /** The two scans of a repeated character find exactly the permitted stretches. */
  lemma RepeatedStretches(a: Atom, r: Repeat, s: seq<byte>, i: nat, j: int)
    requires i <= |s|
    ensures var low, more := Limits(r, s).0, Limits(r, s).1;
            var from := Scan(a, s, i, low);
            Repeats(a, r, s, i, j) <==> from == i + low && from <= j <= Scan(a, s, from, more)
  {
    var low, more := Limits(r, s).0, Limits(r, s).1;
    var from := Scan(a, s, i, low);
    ScanIsLongest(a, s, i, low);
    ScanIsLongest(a, s, from, more);
    if Repeats(a, r, s, i, j) {
      assert AllAccepted(a, s, i, i + low);
      assert AllAccepted(a, s, from, j);
    }
  }

  /** A stretch is `w` and `rest` if its two parts are. */
  lemma TwoParts(w: seq<byte>, rest: seq<byte>, s: seq<byte>, i: nat)
    requires i + |w| + |rest| <= |s|
    ensures s[i..i + |w + rest|] == w + rest <==> s[i..i + |w|] == w && s[i + |w|..i + |w| + |rest|] == rest
  {
    var t := s[i..i + |w + rest|];
    assert t[..|w|] == s[i..i + |w|] && t[|w|..] == s[i + |w|..i + |w| + |rest|];
    assert t == t[..|w|] + t[|w|..];
    assert (w + rest)[..|w|] == w && (w + rest)[|w|..] == rest;
  }

  /** `n` copies stand at `i` exactly if the scan reaches past them. */
  lemma {:induction false} CopiesReached(w: seq<byte>, s: seq<byte>, i: nat, n: nat)
    requires i <= |s| && w != []
    ensures var k := |Times(w, n)|; i + k <= |s| && s[i..i + k] == Times(w, n) <==> i + k <= ScanCopies(w, s, i)
    decreases n
  {
    if n != 0 {
      var rest := Times(w, n - 1);
      if i + |w| + |rest| <= |s| {
        TwoParts(w, rest, s, i);
      }
      if i + |w| <= |s| && s[i..i + |w|] == w {
        CopiesReached(w, s, i + |w|, n - 1);
      }
    }
  }

  lemma CopiesAre(w: seq<byte>, s: seq<byte>, i: nat, n: nat)
    requires i <= |s| && w != []
    ensures |Times(w, n)| == n * |w|
    ensures i + n * |w| <= |s| && s[i..i + n * |w|] == Times(w, n) <==> i + n * |w| <= ScanCopies(w, s, i)
  {
    TimesLength(w, n);
    CopiesReached(w, s, i, n);
  }

  lemma {:induction false} TimesLength(w: seq<byte>, n: nat)
    ensures |Times(w, n)| == n * |w|
  {
    if n != 0 {
      TimesLength(w, n - 1);
    }
  }

  lemma {:induction false} ScanCopiesCount(w: seq<byte>, s: seq<byte>, i: nat) returns (n: nat)
    requires i <= |s| && w != []
    ensures ScanCopies(w, s, i) == i + n * |w|
    decreases |s| - i
  {
    if i + |w| <= |s| && s[i..i + |w|] == w {
      var m := ScanCopiesCount(w, s, i + |w|);
      n := m + 1;
    } else {
      n := 0;
    }
  }

  // ----- the loop over candidates tries every one, longest first -----

  /** A candidate that comes before the chosen one, and before `stop`, was tried and failed. */
  lemma {:induction false} PickTried(rest: seq<Item>, s: seq<byte>, from: nat, p: int, step: nat, env: Captures, stop: int,
                                     locs: int, n: nat)
    requires p <= |s| && 0 < step && from <= p - n * step
    requires forall m: nat :: m <= n ==> p - m * step != stop
    ensures Pick(rest, s, from, p, step, env, stop, locs) < p - n * step ==>
              Run(rest, s, p - n * step, env, locs) == NoMatch
    decreases n
  {
    assert 0 * step == 0;
    assert p - 0 * step != stop;
    if n != 0 {
      assert step + (n - 1) * step == n * step;
      assert step <= n * step;
      if Run(rest, s, p, env, locs) == NoMatch {
        forall m: nat | m <= n - 1
          ensures p - step - m * step != stop
        {
          assert (m + 1) * step == step + m * step;
          assert p - (m + 1) * step != stop;
        }
        PickTried(rest, s, from, p - step, step, env, stop, locs, n - 1);
      }
    }
  }

  /** The chosen candidate is one of the list, and `stop` does not come before it. */
  lemma {:induction false} PickHit(rest: seq<Item>, s: seq<byte>, from: nat, p: int, step: nat, env: Captures, stop: int,
                                   locs: int)
    returns (n: nat)
    requires p <= |s| && 0 < step
    requires Pick(rest, s, from, p, step, env, stop, locs) != -1
    ensures Pick(rest, s, from, p, step, env, stop, locs) == p - n * step
    ensures Run(rest, s, p - n * step, env, locs) != NoMatch
    ensures step == 1 ==> !(p - n <= stop <= p)
    decreases if p < from then 0 else p - from + 1
  {
    if Run(rest, s, p, env, locs) != NoMatch {
      n := 0;
    } else {
      var m := PickHit(rest, s, from, p - step, step, env, stop, locs);
      n := m + 1;
      assert n * step == step + m * step;
    }
  }

  /** A starred back reference to a group that holds the empty text: here `advance` never leaves its first loop. */
  predicate StuckHere(it: Item, s: seq<byte>, env: Captures) {
    it.base.Back? && !it.rep.Once? && Holds(s, env, it.base.n) && Text(s, env, it.base.n) == []
  }

  /** `Run` gets past the first item, to a match or to an endless loop further on. */
  predicate GoesOn(items: seq<Item>, s: seq<byte>, i: nat, env: Captures, locs: int)
    requires i <= |s|
  {
    items != [] && !Run(items, s, i, env, locs).NoMatch? && !StuckHere(items[0], s, env)
  }

  /** Where the first item ends when `Run` gets past it. */
  ghost function Next(items: seq<Item>, s: seq<byte>, i: nat, env: Captures, locs: int): (r: nat)
    requires i <= |s| && GoesOn(items, s, i, env, locs)
    ensures i <= r <= |s|
    ensures Run(items, s, i, env, locs) == Run(items[1..], s, r, After(items[0], env, i), locs)
  {
    var it, rest := items[0], items[1..];
    match it.base
    case One(a) =>
      if it.rep.Once? then i + 1
      else
        var (low, more) := Limits(it.rep, s);
        var from := Scan(a, s, i, low);
        Pick(rest, s, from, Scan(a, s, from, more), 1, env, locs, locs)
    case Back(g) =>
      var w := Text(s, env, g);
      if it.rep.Once? then i + |w| else Pick(rest, s, i, ScanCopies(w, s, i), |w|, env, -1, locs)
    case _ => i
  }

  /** The cut points of the match that `Run` finds. */
  ghost function Trace(items: seq<Item>, s: seq<byte>, i: nat, env: Captures, locs: int): (r: seq<int>)
    requires i <= |s| && Run(items, s, i, env, locs).Matched?
    ensures |r| == |items| + 1 && r[0] == i
    decreases |items|
  {
    if items == [] then [i]
    else [i] + Trace(items[1..], s, Next(items, s, i, env, locs), After(items[0], env, i), locs)
  }

  /** The piece that `Run` gives to its first item fits. */
  lemma NextFits(items: seq<Item>, s: seq<byte>, i: nat, env: Captures, locs: int)
    requires i <= |s| && GoesOn(items, s, i, env, locs)
    ensures Fits(items[0], s, env, locs, i, Next(items, s, i, env, locs))
  {
    var it := items[0];
    if it.base.One? && !it.rep.Once? {
      NextFitsRepeated(items, s, i, env, locs);
    } else if it.base.Back? && !it.rep.Once? {
      NextFitsCopied(items, s, i, env, locs);
    }
  }

  lemma NextFitsRepeated(items: seq<Item>, s: seq<byte>, i: nat, env: Captures, locs: int)
    requires i <= |s| && GoesOn(items, s, i, env, locs)
    requires items[0].base.One? && !items[0].rep.Once?
    ensures Fits(items[0], s, env, locs, i, Next(items, s, i, env, locs))
  {
    var rest, j := items[1..], Next(items, s, i, env, locs);
    var a, r := items[0].base.atom, items[0].rep;
    var from := Scan(a, s, i, Limits(r, s).0);
    var n := PickHit(rest, s, from, Scan(a, s, from, Limits(r, s).1), 1, env, locs, locs);
    RepeatedStretches(a, r, s, i, j);
    RepeatedStretches(a, r, s, i, locs);
  }

  lemma NextFitsCopied(items: seq<Item>, s: seq<byte>, i: nat, env: Captures, locs: int)
    requires i <= |s| && GoesOn(items, s, i, env, locs)
    requires items[0].base.Back? && !items[0].rep.Once?
    ensures Fits(items[0], s, env, locs, i, Next(items, s, i, env, locs))
  {
    var rest, w := items[1..], Text(s, env, items[0].base.n);
    var n := PickHit(rest, s, i, ScanCopies(w, s, i), |w|, env, -1, locs);
    var m := FewerCopies(w, s, i, n, Next(items, s, i, env, locs));
  }

  /** A whole number of copies before the end of the longest run is a run of copies. */
  lemma FewerCopies(w: seq<byte>, s: seq<byte>, i: nat, n: nat, j: nat) returns (m: nat)
    requires i <= j <= |s| && w != [] && j == ScanCopies(w, s, i) - n * |w|
    ensures s[i..j] == Times(w, m)
  {
    var all := ScanCopiesCount(w, s, i);
    assert (all - n) * |w| == all * |w| - n * |w|;
    NonNegative(all - n, |w|);
    m := all - n;
    CopiesAre(w, s, i, m);
  }

  lemma NonNegative(k: int, n: nat)
    requires 0 < n && 0 <= k * n
    ensures 0 <= k
  {
  }

  /** A piece that fits the first item, and is longer than the one in the match, was tried and failed;
      when `Run` fails, so was every piece that fits. */
  lemma LongerFails(items: seq<Item>, s: seq<byte>, i: nat, env: Captures, locs: int, j: int)
    requires items != [] && i <= |s| && Fits(items[0], s, env, locs, i, j)
    requires Run(items, s, i, env, locs).NoMatch? || (GoesOn(items, s, i, env, locs) && Next(items, s, i, env, locs) < j)
    ensures Run(items[1..], s, j, After(items[0], env, i), locs).NoMatch?
  {
    var it := items[0];
    if it.base.One? && !it.rep.Once? {
      LongerFailsRepeated(items, s, i, env, locs, j);
    } else if it.base.Back? && !it.rep.Once? {
      LongerFailsCopied(items, s, i, env, locs, j);
    }
  }

  lemma LongerFailsRepeated(items: seq<Item>, s: seq<byte>, i: nat, env: Captures, locs: int, j: int)
    requires items != [] && i <= |s| && Fits(items[0], s, env, locs, i, j)
    requires items[0].base.One? && !items[0].rep.Once?
    requires Run(items, s, i, env, locs).NoMatch? || (GoesOn(items, s, i, env, locs) && Next(items, s, i, env, locs) < j)
    ensures Run(items[1..], s, j, env, locs).NoMatch?
  {
    var a, r := items[0].base.atom, items[0].rep;
    var from := Scan(a, s, i, Limits(r, s).0);
    var p := Scan(a, s, from, Limits(r, s).1);
    RepeatedStretches(a, r, s, i, j);
    RepeatedStretches(a, r, s, i, locs);
    PickTried(items[1..], s, from, p, 1, env, locs, locs, p - j);
  }

  lemma LongerFailsCopied(items: seq<Item>, s: seq<byte>, i: nat, env: Captures, locs: int, j: int)
    requires items != [] && i <= |s| && Fits(items[0], s, env, locs, i, j)
    requires items[0].base.Back? && !items[0].rep.Once?
    requires Run(items, s, i, env, locs).NoMatch? || (GoesOn(items, s, i, env, locs) && Next(items, s, i, env, locs) < j)
    ensures Run(items[1..], s, j, env, locs).NoMatch?
  {
    var w := Text(s, env, items[0].base.n);
    var p := ScanCopies(w, s, i);
    var n := StepsBack(w, s, i, j);
    PickTried(items[1..], s, i, p, |w|, env, -1, locs, n);
  }

  /** A stretch of copies ends a whole number of copies before the longest one. */
  lemma StepsBack(w: seq<byte>, s: seq<byte>, i: nat, j: nat) returns (n: nat)
    requires i <= j <= |s| && w != []
    requires exists n: nat :: s[i..j] == Times(w, n)
    ensures j == ScanCopies(w, s, i) - n * |w|
    ensures forall m: nat :: m <= n ==> ScanCopies(w, s, i) - m * |w| != -1
  {
    var k: nat :| s[i..j] == Times(w, k);
    CopiesAre(w, s, i, k);
    var m := ScanCopiesCount(w, s, i);
    var step := |w|;
    assert j == i + k * step && ScanCopies(w, s, i) == i + m * step;
    assert (m - k) * step == m * step - k * step;
    NonNegative(m - k, step);
    n := m - k;
    AllAbove(ScanCopies(w, s, i), step, n, i);
  }

  lemma AllAbove(p: int, step: nat, n: nat, from: nat)
    requires from <= p - n * step
    ensures forall m: nat :: m <= n ==> p - m * step != -1
  {
    forall m: nat | m <= n
      ensures p - m * step != -1
    {
      assert n * step == m * step + (n - m) * step;
    }
  }

  // ----- the main results -----

  /** When `Run` fails, nothing is a parse. */
  lemma {:induction false} RunFailsMeansNone(items: seq<Item>, s: seq<byte>, i: nat, env: Captures, locs: int, cuts: seq<int>)
    requires i <= |s| && Run(items, s, i, env, locs).NoMatch?
    ensures !IsParse(items, s, i, env, locs, cuts)
    decreases |items|
  {
    if IsParse(items, s, i, env, locs, cuts) && items != [] {
      LongerFails(items, s, i, env, locs, cuts[1]);
      RunFailsMeansNone(items[1..], s, cuts[1], After(items[0], env, i), locs, cuts[1..]);
    }
  }

  /** What `Run` finds is a parse, with its end and its captures. */
  lemma {:induction false} RunFindsParse(items: seq<Item>, s: seq<byte>, i: nat, env: Captures, locs: int)
    requires i <= |s| && Run(items, s, i, env, locs).Matched?
    ensures var cuts := Trace(items, s, i, env, locs);
            && IsParse(items, s, i, env, locs, cuts)
            && Run(items, s, i, env, locs) == Matched(cuts[|items|], Final(items, env, cuts))
    decreases |items|
  {
    var cuts := Trace(items, s, i, env, locs);
    if items != [] {
      NextFits(items, s, i, env, locs);
      var next, env' := Next(items, s, i, env, locs), After(items[0], env, i);
      RunFindsParse(items[1..], s, next, env', locs);
      assert cuts[1..] == Trace(items[1..], s, next, env', locs);
    }
  }

  /** No parse comes after the one that `Run` finds. */
  lemma {:induction false} RunFindsGreatest(items: seq<Item>, s: seq<byte>, i: nat, env: Captures, locs: int, other: seq<int>)
    requires i <= |s| && Run(items, s, i, env, locs).Matched?
    requires IsParse(items, s, i, env, locs, other)
    ensures LexLeq(other, Trace(items, s, i, env, locs))
    decreases |items|
  {
    var cuts := Trace(items, s, i, env, locs);
    if items != [] {
      var next, env' := Next(items, s, i, env, locs), After(items[0], env, i);
      assert cuts[1..] == Trace(items[1..], s, next, env', locs);
      if next < other[1] {
        LongerFails(items, s, i, env, locs, other[1]);
        RunFailsMeansNone(items[1..], s, other[1], env', locs, other[1..]);
      } else if next == other[1] {
        RunFindsGreatest(items[1..], s, next, env', locs, other[1..]);
      }
    } else {
      assert other == [i];
    }
  }

  // ----- endless loops -----

  /** `cuts` splits a stretch from `i` into pieces that fit the first items, and the item behind them is stuck. */
  ghost predicate Stuck(items: seq<Item>, s: seq<byte>, i: int, env: Captures, locs: int, cuts: seq<int>) {
    && 1 <= |cuts| <= |items| && cuts[0] == i
    && (if |cuts| == 1 then StuckHere(items[0], s, env)
        else
          && Fits(items[0], s, env, locs, i, cuts[1])
          && Stuck(items[1..], s, cuts[1], After(items[0], env, i), locs, cuts[1..]))
  }

  /** No parse comes after `cuts`, as far as that goes. */
  ghost predicate NoneBeyond(items: seq<Item>, s: seq<byte>, i: int, env: Captures, locs: int, cuts: seq<int>)
    requires |cuts| <= |items| + 1
  {
    forall other :: IsParse(items, s, i, env, locs, other) ==> LexLeq(other[..|cuts|], cuts)
  }

  /** The search comes to a stuck item before it comes to a parse. */
  ghost predicate Loops(items: seq<Item>, s: seq<byte>, i: int, env: Captures, locs: int) {
    exists cuts :: Stuck(items, s, i, env, locs, cuts) && NoneBeyond(items, s, i, env, locs, cuts)
  }

  /** The cut points up to the item where `Run` is stuck. */
  ghost function StuckTrace(items: seq<Item>, s: seq<byte>, i: nat, env: Captures, locs: int): (r: seq<int>)
    requires i <= |s| && Run(items, s, i, env, locs).Hangs?
    ensures 1 <= |r| <= |items| && r[0] == i
    decreases |items|
  {
    if StuckHere(items[0], s, env) then [i]
    else [i] + StuckTrace(items[1..], s, Next(items, s, i, env, locs), After(items[0], env, i), locs)
  }

  /** Where `Run` hangs, an item is stuck; */
  lemma {:induction false} HangsWhereStuck(items: seq<Item>, s: seq<byte>, i: nat, env: Captures, locs: int)
    requires i <= |s| && Run(items, s, i, env, locs).Hangs?
    ensures Stuck(items, s, i, env, locs, StuckTrace(items, s, i, env, locs))
    decreases |items|
  {
    if !StuckHere(items[0], s, env) {
      NextFits(items, s, i, env, locs);
      var next, env' := Next(items, s, i, env, locs), After(items[0], env, i);
      HangsWhereStuck(items[1..], s, next, env', locs);
      assert StuckTrace(items, s, i, env, locs)[1..] == StuckTrace(items[1..], s, next, env', locs);
    }
  }

  /** and no parse comes after that. */
  lemma {:induction false} HangsBeforeAnyParse(items: seq<Item>, s: seq<byte>, i: nat, env: Captures, locs: int, other: seq<int>)
    requires i <= |s| && Run(items, s, i, env, locs).Hangs? && IsParse(items, s, i, env, locs, other)
    ensures var cuts := StuckTrace(items, s, i, env, locs); LexLeq(other[..|cuts|], cuts)
    decreases |items|
  {
    var cuts := StuckTrace(items, s, i, env, locs);
    if StuckHere(items[0], s, env) {
      assert other[..1] == [i];
    } else {
      var next, env' := Next(items, s, i, env, locs), After(items[0], env, i);
      assert cuts[1..] == StuckTrace(items[1..], s, next, env', locs);
      assert other[..|cuts|][1..] == other[1..][..|cuts| - 1];
      if next < other[1] {
        LongerFails(items, s, i, env, locs, other[1]);
        RunFailsMeansNone(items[1..], s, other[1], env', locs, other[1..]);
      } else if next == other[1] {
        HangsBeforeAnyParse(items[1..], s, next, env', locs, other[1..]);
      }
    }
  }

  /** If the rest does not fail behind a piece that fits the first item, `Run` goes on at least that far. */
  lemma GoesAtLeastThere(items: seq<Item>, s: seq<byte>, i: nat, env: Captures, locs: int, j: int)
    requires items != [] && i <= |s| && Fits(items[0], s, env, locs, i, j) && !StuckHere(items[0], s, env)
    requires !Run(items[1..], s, j, After(items[0], env, i), locs).NoMatch?
    ensures GoesOn(items, s, i, env, locs) && j <= Next(items, s, i, env, locs)
  {
    if Run(items, s, i, env, locs).NoMatch? || Next(items, s, i, env, locs) < j {
      LongerFails(items, s, i, env, locs, j);
    }
  }

  /** Where an item is stuck, `Run` does not fail: it hangs, or it finds a match that comes before. */
  lemma {:induction false} StuckIsReached(items: seq<Item>, s: seq<byte>, i: nat, env: Captures, locs: int, cuts: seq<int>)
    requires i <= |s| && Stuck(items, s, i, env, locs, cuts)
    ensures !Run(items, s, i, env, locs).NoMatch?
    ensures Run(items, s, i, env, locs).Matched? ==> !LexLeq(Trace(items, s, i, env, locs)[..|cuts|], cuts)
    decreases |items|
  {
    if !StuckHere(items[0], s, env) {
      var env' := After(items[0], env, i);
      StuckIsReached(items[1..], s, cuts[1], env', locs, cuts[1..]);
      GoesAtLeastThere(items, s, i, env, locs, cuts[1]);
      if Run(items, s, i, env, locs).Matched? {
        var trace, next := Trace(items, s, i, env, locs), Next(items, s, i, env, locs);
        assert trace[1..] == Trace(items[1..], s, next, env', locs);
        assert trace[..|cuts|][1..] == trace[1..][..|cuts| - 1];
      }
    }
  }

  /** `Run` hangs if and only if the search comes to a stuck item before it comes to a parse. */
  lemma HangsIffLoops(items: seq<Item>, s: seq<byte>, i: nat, env: Captures, locs: int)
    requires i <= |s|
    ensures Run(items, s, i, env, locs).Hangs? <==> Loops(items, s, i, env, locs)
  {
    if Run(items, s, i, env, locs).Hangs? {
      var cuts := StuckTrace(items, s, i, env, locs);
      HangsWhereStuck(items, s, i, env, locs);
      forall other | IsParse(items, s, i, env, locs, other)
        ensures LexLeq(other[..|cuts|], cuts)
      {
        HangsBeforeAnyParse(items, s, i, env, locs, other);
      }
    }
    forall cuts | Stuck(items, s, i, env, locs, cuts) && NoneBeyond(items, s, i, env, locs, cuts)
      ensures Run(items, s, i, env, locs).Hangs?
    {
      StuckIsReached(items, s, i, env, locs, cuts);
      if Run(items, s, i, env, locs).Matched? {
        RunFindsParse(items, s, i, env, locs);
      }
    }
  }
}
