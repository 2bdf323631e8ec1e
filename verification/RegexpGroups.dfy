/**
 Groups, back references and captures: why the global, never restored capture lists of `advance`
 cannot leak from an attempt that failed into one that succeeds.
 */
module RegexpGroups {
  import opened Bytes
  import opened RegexpCode
  import opened RegexpMeaning

  /** Every group is opened at most once and then closed at most once, and a back reference only names
      a group that is closed by then. `open` and `closed` are the groups before the first item. */
  ghost predicate Scoped(items: seq<Item>, open: set<group>, closed: set<group>) {
    items == [] ||
    match items[0].base
    case Bra(g) => g !in open + closed && Scoped(items[1..], open + {g}, closed)
    case Ket(g) => g in open && Scoped(items[1..], open - {g}, closed + {g})
    case Back(g) => g in closed && Scoped(items[1..], open, closed)
    case _ => Scoped(items[1..], open, closed)
  }

  ghost function OpenAfter(it: Item, open: set<group>): set<group> {
    match it.base
    case Bra(g) => open + {g}
    case Ket(g) => open - {g}
    case _ => open
  }

  ghost function ClosedAfter(it: Item, closed: set<group>): set<group> {
    if it.base.Ket? then closed + {it.base.n} else closed
  }

  /** The slots of `braslist` that the items write. */
  ghost function Opens(items: seq<Item>): set<group> {
    if items == [] then {}
    else (if items[0].base.Bra? then {items[0].base.n} else {}) + Opens(items[1..])
  }

  /** The slots of `braelist` that the items write. */
  ghost function Closes(items: seq<Item>): set<group> {
    if items == [] then {}
    else (if items[0].base.Ket? then {items[0].base.n} else {}) + Closes(items[1..])
  }

  /** A slot that is in use is never written again. */
  lemma {:induction false} ScopedWrites(items: seq<Item>, open: set<group>, closed: set<group>)
    requires Scoped(items, open, closed) && open !! closed
    ensures Opens(items) !! (open + closed)
    ensures Closes(items) !! closed
    decreases |items|
  {
    if items != [] {
      match items[0].base
      case Bra(g) => ScopedWrites(items[1..], open + {g}, closed);
      case Ket(g) => ScopedWrites(items[1..], open - {g}, closed + {g});
      case _ => ScopedWrites(items[1..], open, closed);
    }
  }

  /** The two captures differ at most in slots that the items write. */
  ghost predicate AgreeOutside(items: seq<Item>, a: Captures, b: Captures) {
    && (forall g: group :: g !in Opens(items) ==> a.starts[g] == b.starts[g])
    && (forall g: group :: g !in Closes(items) ==> a.ends[g] == b.ends[g])
  }

  /** One item either writes a slot, the same way for both, or leaves them alone. */
  lemma AgreeAfter(items: seq<Item>, i: int, a: Captures, b: Captures)
    requires items != [] && AgreeOutside(items, a, b)
    ensures AgreeOutside(items[1..], After(items[0], a, i), After(items[0], b, i))
  {
  }

  /** Stale captures do not matter: a match gives the same result, the same end and the same final captures
      whatever an earlier attempt left in the slots that the items write. */
  lemma {:induction false} StaleIgnored(items: seq<Item>, s: seq<byte>, i: nat, a: Captures, b: Captures, locs: int,
                                        open: set<group>, closed: set<group>)
    requires i <= |s| && open !! closed && Scoped(items, open, closed) && AgreeOutside(items, a, b)
    ensures Run(items, s, i, a, locs) == Run(items, s, i, b, locs)
    decreases |items|, 1, 0
  {
    if items == [] {
      assert a.starts == b.starts && a.ends == b.ends;
    } else {
      var it, rest := items[0], items[1..];
      AgreeAfter(items, i, a, b);
      match it.base
      case One(x) =>
        if it.rep.Once? {
          if i < |s| {
            StaleIgnored(rest, s, i + 1, a, b, locs, open, closed);
          }
        } else {
          var (low, more) := Limits(it.rep, s);
          var from := Scan(x, s, i, low);
          var p := Scan(x, s, from, more);
          StalePick(rest, s, from, p, 1, a, b, locs, locs, open, closed);
        }
      case Back(g) => StaleBack(items, s, i, a, b, locs, open, closed);
      case Bra(g) => StaleIgnored(rest, s, i, After(it, a, i), After(it, b, i), locs, open + {g}, closed);
      case Ket(g) => StaleIgnored(rest, s, i, After(it, a, i), After(it, b, i), locs, open - {g}, closed + {g});
      case Dol => StaleIgnored(rest, s, i, a, b, locs, open, closed);
    }
  }

  lemma {:induction false} StaleBack(items: seq<Item>, s: seq<byte>, i: nat, a: Captures, b: Captures, locs: int,
                                     open: set<group>, closed: set<group>)
    requires items != [] && items[0].base.Back?
    requires i <= |s| && open !! closed && Scoped(items, open, closed) && AgreeOutside(items, a, b)
    ensures Run(items, s, i, a, locs) == Run(items, s, i, b, locs)
    decreases |items|, 0, 0
  {
    var it, rest, g := items[0], items[1..], items[0].base.n;
    ScopedWrites(items, open, closed);
    assert a.starts[g] == b.starts[g] && a.ends[g] == b.ends[g];
    if Holds(s, a, g) {
      var w := Text(s, a, g);
      if it.rep.Once? {
        if i + |w| <= |s| {
          StaleIgnored(rest, s, i + |w|, a, b, locs, open, closed);
        }
      } else if w != [] {
        StalePick(rest, s, i, ScanCopies(w, s, i), |w|, a, b, -1, locs, open, closed);
      }
    }
  }

  lemma {:induction false} StalePick(rest: seq<Item>, s: seq<byte>, from: nat, p: int, step: nat, a: Captures, b: Captures,
                                     stop: int, locs: int, open: set<group>, closed: set<group>)
    requires p <= |s| && 0 < step && open !! closed && Scoped(rest, open, closed) && AgreeOutside(rest, a, b)
    ensures Pick(rest, s, from, p, step, a, stop, locs) == Pick(rest, s, from, p, step, b, stop, locs)
    ensures var q := Pick(rest, s, from, p, step, a, stop, locs);
            q != -1 ==> Run(rest, s, q, a, locs) == Run(rest, s, q, b, locs)
    decreases |rest|, 2, if p < from then 0 else p - from + 1
  {
    if from <= p && p != stop {
      StaleIgnored(rest, s, p, a, b, locs, open, closed);
      StalePick(rest, s, from, p - step, step, a, b, stop, locs, open, closed);
    }
  }

  // ----- positions in use are in order -----

  /** Open groups began by `i`; closed ones began, ended, and ended by `i`. */
  ghost predicate InOrder(env: Captures, i: int, open: set<group>, closed: set<group>) {
    && (forall g: group :: g in open ==> 0 <= env.starts[g] <= i)
    && (forall g: group :: g in closed ==> 0 <= env.starts[g] <= env.ends[g] <= i)
  }

  // ----- termination -----

  /** The item takes at least one character whenever it fits, given that the `solid` groups are not empty. */
  predicate Consumes(it: Item, solid: set<group>) {
    match it.base
    case One(_) => (match it.rep case Once => true case Star => false case Interval(b) => !GoodBounds(b) || 0 < b[0])
    case Back(g) => it.rep.Once? && g in solid
    case _ => false
  }

  /** Every starred back reference names a group that always takes at least one character. `solid` are the
      groups, open or closed, that have taken one already. */
  ghost predicate Terminates(items: seq<Item>, open: set<group>, solid: set<group>) {
    items == [] ||
    var it, rest := items[0], items[1..];
    match it.base
    case Bra(g) => Terminates(rest, open + {g}, solid - {g})
    case Ket(g) => Terminates(rest, open - {g}, solid)
    case Back(g) =>
      && (!it.rep.Once? ==> g in solid)
      && Terminates(rest, open, if Consumes(it, solid) then solid + open else solid)
    case _ => Terminates(rest, open, if Consumes(it, solid) then solid + open else solid)
  }

  /** A solid group that is open began before `i`, one that is closed holds some text. */
  ghost predicate SolidAt(env: Captures, i: int, open: set<group>, solid: set<group>) {
    forall g: group :: g in solid ==> env.starts[g] < (if g in open then i else env.ends[g])
  }

  /** Moving on keeps everything in order, and taking a character makes every open group solid. */
  lemma Moved(env: Captures, i: int, j: int, open: set<group>, closed: set<group>, solid: set<group>)
    requires i <= j && InOrder(env, i, open, closed) && SolidAt(env, i, open, solid)
    ensures InOrder(env, j, open, closed) && SolidAt(env, j, open, solid)
    ensures i < j ==> SolidAt(env, j, open, solid + open)
  {
  }

  /** The state that the termination argument keeps. */
  ghost predicate Sound(items: seq<Item>, i: int, env: Captures, open: set<group>, closed: set<group>, solid: set<group>) {
    && open !! closed && Scoped(items, open, closed) && Terminates(items, open, solid)
    && solid <= open + closed && InOrder(env, i, open, closed) && SolidAt(env, i, open, solid)
  }

  /** Without a starred back reference to a group that may be empty, the matcher never loops forever. */
  lemma {:induction false} NeverHangs(items: seq<Item>, s: seq<byte>, i: nat, env: Captures, locs: int,
                                      open: set<group>, closed: set<group>, solid: set<group>)
    requires i <= |s| && Sound(items, i, env, open, closed, solid)
    ensures !Run(items, s, i, env, locs).Hangs?
    decreases |items|, 1
  {
    if items != [] {
      var it, rest := items[0], items[1..];
      match it.base
      case One(a) => NeverHangsOne(items, s, i, env, locs, open, closed, solid);
      case Back(g) => NeverHangsBack(items, s, i, env, locs, open, closed, solid);
      case Bra(g) => NeverHangs(rest, s, i, After(it, env, i), locs, open + {g}, closed, solid - {g});
      case Ket(g) => NeverHangs(rest, s, i, After(it, env, i), locs, open - {g}, closed + {g}, solid);
      case Dol => NeverHangs(rest, s, i, env, locs, open, closed, solid);
    }
  }

  /** Past an item that is no group mark, the state still holds. */
  lemma SoundAfter(items: seq<Item>, i: int, j: int, env: Captures, open: set<group>, closed: set<group>, solid: set<group>)
    requires Sound(items, i, env, open, closed, solid) && i <= j
    requires items != [] && !items[0].base.Bra? && !items[0].base.Ket?
    requires Consumes(items[0], solid) ==> i < j
    ensures Sound(items[1..], j, env, open, closed, if Consumes(items[0], solid) then solid + open else solid)
  {
    Moved(env, i, j, open, closed, solid);
  }

  lemma {:induction false} NeverHangsOne(items: seq<Item>, s: seq<byte>, i: nat, env: Captures, locs: int,
                                         open: set<group>, closed: set<group>, solid: set<group>)
    requires i <= |s| && Sound(items, i, env, open, closed, solid) && items != [] && items[0].base.One?
    ensures !Run(items, s, i, env, locs).Hangs?
    decreases |items|, 0
  {
    var it, rest := items[0], items[1..];
    var solid' := if Consumes(it, solid) then solid + open else solid;
    if it.rep.Once? {
      if i < |s| {
        SoundAfter(items, i, i + 1, env, open, closed, solid);
        NeverHangs(rest, s, i + 1, env, locs, open, closed, solid');
      }
    } else {
      var (low, more) := Limits(it.rep, s);
      var from := Scan(it.base.atom, s, i, low);
      var p := Pick(rest, s, from, Scan(it.base.atom, s, from, more), 1, env, locs, locs);
      if from == i + low && p != -1 {
        SoundAfter(items, i, p, env, open, closed, solid);
        NeverHangs(rest, s, p, env, locs, open, closed, solid');
      }
    }
  }

  lemma {:induction false} NeverHangsBack(items: seq<Item>, s: seq<byte>, i: nat, env: Captures, locs: int,
                                          open: set<group>, closed: set<group>, solid: set<group>)
    requires i <= |s| && Sound(items, i, env, open, closed, solid) && items != [] && items[0].base.Back?
    ensures !Run(items, s, i, env, locs).Hangs?
    decreases |items|, 0
  {
    var it, rest, g := items[0], items[1..], items[0].base.n;
    if Holds(s, env, g) {
      var w := Text(s, env, g);
      var solid' := if Consumes(it, solid) then solid + open else solid;
      assert g in solid ==> w != [];
      if it.rep.Once? {
        if i + |w| <= |s| {
          SoundAfter(items, i, i + |w|, env, open, closed, solid);
          NeverHangs(rest, s, i + |w|, env, locs, open, closed, solid');
        }
      } else {
        var p := Pick(rest, s, i, ScanCopies(w, s, i), |w|, env, -1, locs);
        if p != -1 {
          SoundAfter(items, i, p, env, open, closed, solid);
          NeverHangs(rest, s, p, env, locs, open, closed, solid');
        }
      }
    }
  }
}
