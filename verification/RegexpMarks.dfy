/**
 The groups of a written pattern: which marks belong together, told by counting and nesting alone; and that `compile`
 numbers them so.
 */
module RegexpMarks {
  import opened Bytes
  import opened RegexpCode
  import opened RegexpPattern
  import opened RegexpWritten

  /** How many groups are opened before place `k`. */
  function Opened(ws: seq<Written>, k: nat): nat
    requires k <= |ws|
  {
    if k == 0 then 0 else Opened(ws, k - 1) + if ws[k - 1].piece.Open? then 1 else 0
  }

  /** How deep place `k` is nested. */
  function Depth(ws: seq<Written>, k: nat): int
    requires k <= |ws|
  {
    if k == 0 then 0 else Depth(ws, k - 1) + if ws[k - 1].piece.Open? then 1 else if ws[k - 1].piece.Close? then -1 else 0
  }

  /** Everything from behind `o` up to `k` is nested deeper than `o`. */
  ghost predicate Deeper(ws: seq<Written>, o: nat, k: nat)
    requires o <= |ws| && k <= |ws|
  {
    forall x: nat :: o < x <= k ==> Depth(ws, x) > Depth(ws, o)
  }

  /** Group `n`, counted from 1 in the order of the opening marks, is opened at `o` and closed at `m`. */
  ghost predicate Group(ws: seq<Written>, n: int, o: nat, m: nat) {
    && o < m < |ws| && ws[o].piece.Open? && ws[m].piece.Close? && Opened(ws, o) == n - 1
    && Deeper(ws, o, m) && Depth(ws, m + 1) == Depth(ws, o)
  }

  /** The marks can be tracked: a ninth group is the last one, and only open groups are closed. */
  predicate Tracked(ws: seq<Written>) {
    forall k :: 0 <= k < |ws| ==>
      match ws[k].piece
      case Open => GroupsAt(ws, k).nbra < NBRA
      case Close => GroupsAt(ws, k).open != []
      case _ => true
  }

  lemma GoodIsTracked(ws: seq<Written>, eof: byte, ends: bool)
    requires GoodPattern(ws, eof, ends)
    ensures Tracked(ws)
  {
    forall k | 0 <= k < |ws|
      ensures match ws[k].piece
              case Open => GroupsAt(ws, k).nbra < NBRA
              case Close => GroupsAt(ws, k).open != []
              case _ => true
    {
      assert GoodAt(ws, k, eof, ends);
    }
  }

  /** The places of the groups that are open at `k`. */
  function OpenPlaces(ws: seq<Written>, k: nat): seq<nat>
    requires k <= |ws|
  {
    if k == 0 then []
    else
      var before := OpenPlaces(ws, k - 1);
      if ws[k - 1].piece.Open? then before + [k - 1]
      else if ws[k - 1].piece.Close? && before != [] then before[..|before| - 1]
      else before
  }

  /** A group that is open at `k`: its mark, its number, and its depth. */
  ghost predicate IsOpenAt(ws: seq<Written>, k: nat, i: nat, o: nat, g: int)
    requires k <= |ws|
  {
    o < k && ws[o].piece.Open? && Opened(ws, o) == g && Depth(ws, o) == i && Deeper(ws, o, k)
  }

  ghost predicate OpenAre(ws: seq<Written>, k: nat, places: seq<nat>, open: seq<group>)
    requires k <= |ws|
  {
    |places| == |open| == Depth(ws, k) && forall i {:trigger places[i]} :: 0 <= i < |places| ==> IsOpenAt(ws, k, i, places[i], open[i])
  }

  lemma DeeperNext(ws: seq<Written>, o: nat, k: nat)
    requires o <= k < |ws| && Deeper(ws, o, k) && Depth(ws, k + 1) > Depth(ws, o)
    ensures Deeper(ws, o, k + 1)
  {
  }

  lemma StillOpen(ws: seq<Written>, k: nat, i: nat, o: nat, g: int)
    requires k < |ws| && IsOpenAt(ws, k, i, o, g) && i < Depth(ws, k + 1)
    ensures IsOpenAt(ws, k + 1, i, o, g)
  {
    DeeperNext(ws, o, k);
  }

  lemma OpenNext(ws: seq<Written>, k: nat, places: seq<nat>, open: seq<group>, places': seq<nat>, open': seq<group>)
    requires k < |ws| && OpenAre(ws, k, places, open) && |places'| == |open'| == Depth(ws, k + 1)
    requires forall i {:trigger places'[i]} :: 0 <= i < |places'| ==>
               if i < |places| then places'[i] == places[i] && open'[i] == open[i] else ws[k].piece.Open? && i == Depth(ws, k) && places'[i] == k && open'[i] == Opened(ws, k)
    ensures OpenAre(ws, k + 1, places', open')
  {
    forall i | 0 <= i < |places'|
      ensures IsOpenAt(ws, k + 1, i, places'[i], open'[i])
    {
      if i < |places| {
        assert IsOpenAt(ws, k, i, places[i], open[i]);
        StillOpen(ws, k, i, places[i], open[i]);
      }
    }
  }

  /** `compile` tracks the open groups by number, in the order in which they were opened. */
  lemma {:induction false} GroupsAre(ws: seq<Written>, k: nat)
    requires k <= |ws| && Tracked(ws)
    ensures GroupsAt(ws, k).nbra == Opened(ws, k) && OpenAre(ws, k, OpenPlaces(ws, k), GroupsAt(ws, k).open)
    decreases k
  {
    if k != 0 {
      GroupsAre(ws, k - 1);
      OpenNext(ws, k - 1, OpenPlaces(ws, k - 1), GroupsAt(ws, k - 1).open, OpenPlaces(ws, k), GroupsAt(ws, k).open);
    }
  }

  /** The mark that a closing mark belongs to. */
  lemma ClosesGroup(ws: seq<Written>, m: nat) returns (o: nat)
    requires m < |ws| && Tracked(ws) && ws[m].piece.Close?
    ensures GroupsAt(ws, m).open != []
    ensures o < m && Group(ws, Opened(ws, o) + 1, o, m) && GroupsAt(ws, m).open[|GroupsAt(ws, m).open| - 1] == Opened(ws, o)
  {
    GroupsAre(ws, m);
    var places, open := OpenPlaces(ws, m), GroupsAt(ws, m).open;
    var top := |open| - 1;
    o := places[top];
    assert IsOpenAt(ws, m, top, places[top], open[top]);
  }

  lemma {:induction false} OpenedGrows(ws: seq<Written>, j: nat, k: nat)
    requires j <= k <= |ws|
    ensures Opened(ws, j) <= Opened(ws, k)
    decreases k
  {
    if j != k {
      OpenedGrows(ws, j, k - 1);
    }
  }

  /** A number belongs to one group, and so does a closing mark. */
  lemma GroupOnce(ws: seq<Written>, n: int, o: nat, m: nat, n': int, o': nat, m': nat)
    requires Group(ws, n, o, m) && Group(ws, n', o', m')
    ensures n == n' || m == m' ==> n == n' && o == o' && m == m'
  {
    if n == n' {
      if o < o' { OpenedGrows(ws, o + 1, o'); }
      if o' < o { OpenedGrows(ws, o' + 1, o); }
      assert o == o';
    }
  }

  /** The marks of a group carry its number, less one. */
  lemma GroupMarks(ws: seq<Written>, n: int, o: nat, m: nat)
    requires Tracked(ws) && Group(ws, n, o, m)
    ensures GroupsAt(ws, o).nbra == n - 1 < NBRA
    ensures GroupsAt(ws, m).open != [] && GroupsAt(ws, m).open[|GroupsAt(ws, m).open| - 1] == n - 1
  {
    GroupsAre(ws, o);
    var o' := ClosesGroup(ws, m);
    GroupOnce(ws, n, o, m, Opened(ws, o') + 1, o', m);
  }

  /** A group that was opened and is not open any more was closed. */
  lemma {:induction false} ClosedBefore(ws: seq<Written>, k: nat, g: group) returns (o: nat, m: nat)
    requires k <= |ws| && Tracked(ws) && g < GroupsAt(ws, k).nbra && g !in GroupsAt(ws, k).open
    ensures m < k && Group(ws, g + 1, o, m)
    decreases k
  {
    var before := GroupsAt(ws, k - 1);
    GroupsAre(ws, k - 1);
    if ws[k - 1].piece.Close? {
      var top := |before.open| - 1;
      assert before.open == before.open[..top] + [before.open[top]];
      if before.open[top] == g {
        m := k - 1;
        o := ClosesGroup(ws, m);
      } else {
        o, m := ClosedBefore(ws, k - 1, g);
      }
    } else {
      if ws[k - 1].piece.Open? {
        assert GroupsAt(ws, k).open == before.open + [before.nbra];
        assert GroupsAt(ws, k).open[|before.open|] == before.nbra;
      }
      o, m := ClosedBefore(ws, k - 1, g);
    }
  }
}
