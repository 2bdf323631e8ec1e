/**
 Bracket expressions as they are written: a list of elements, the text it makes, and the characters it stands for. The
 parse of a bracket expression accepts exactly the texts of such lists, and gives exactly their characters.
 */
module RegexpElements {
  import opened Bytes
  import opened RegexpCode
  import opened RegexpPattern
  import opened RegexpMeaning

  /** A character, or `-` and a character: everything from the character before it up to this one. The range `a-c` is
      the two elements `Lone(a)` and `Upto(c)`. */
  datatype Element = Lone(c: byte) | Upto(c: byte)

  /** What stands between the brackets: perhaps `^`, elements, perhaps a last `-` that stands for itself. */
  datatype Brackets = Brackets(neg: bool, elements: seq<Element>, dash: bool)

  function ElementText(e: Element): seq<byte> {
    match e
    case Lone(c) => [c]
    case Upto(c) => ['-' as int, c]
  }

  function ElementsText(es: seq<Element>): seq<byte> {
    if es == [] then [] else ElementText(es[0]) + ElementsText(es[1..])
  }

  function ClosingText(dash: bool): seq<byte> {
    if dash then ['-' as int, ']' as int] else [']' as int]
  }

  /** The text behind the opening bracket. */
  function BracketsText(b: Brackets): seq<byte> {
    (if b.neg then ['^' as int] else []) + (ElementsText(b.elements) + ClosingText(b.dash))
  }

  /** An element that can stand at place `k`. A `-` is a character of its own only where nothing, or NUL, comes before it,
      and `]` only in the first place. */
  predicate GoodElement(es: seq<Element>, k: nat)
    requires k < |es|
  {
    var last := if k == 0 then 0 else es[k - 1].c;
    match es[k]
    case Lone(c) => c != 0 && c != '\n' as int && (c == '-' as int ==> last == 0) && (c == ']' as int ==> k == 0)
    case Upto(c) => last != 0 && c != ']' as int
  }

  predicate GoodElements(es: seq<Element>) {
    forall k :: 0 <= k < |es| ==> GoodElement(es, k)
  }

  /** A bracket expression that is read as it is meant. */
  predicate GoodBrackets(b: Brackets) {
    && b.elements != [] && GoodElements(b.elements)
    && (b.dash ==> b.elements[|b.elements| - 1].c != 0)
    && (!b.neg ==> b.elements[0] != Lone('^' as int))
  }

  /** Element `k` stands for `c`: it is `c`, or the end of a range that contains `c`. */
  predicate StandsFor(es: seq<Element>, k: nat, c: int)
    requires k < |es|
  {
    es[k].c == c || (0 < k && es[k].Upto? && es[k - 1].c <= c <= es[k].c)
  }

  /** The characters that are written. */
  ghost predicate Lists(b: Brackets, c: int) {
    (exists k: nat :: k < |b.elements| && StandsFor(b.elements, k, c)) || (b.dash && c == '-' as int)
  }

  // ----- reading -----

  ghost predicate AmongFirst(es: seq<Element>, k: nat, c: int)
    requires k <= |es|
  {
    exists j: nat :: j < k && StandsFor(es, j, c)
  }

  /** The characters of the first `k` elements. */
  ghost function Listed(es: seq<Element>, k: nat): set<int>
    requires k <= |es|
  {
    set c | 0 <= c < 256 && AmongFirst(es, k, c)
  }

  lemma ListedNext(es: seq<Element>, k: nat)
    requires k < |es| && GoodElement(es, k)
    ensures Listed(es, k + 1) == Listed(es, k) +
            (match es[k] case Lone(c) => {c as int} case Upto(c) => Span(es[k - 1].c, c) + {c as int})
  {
    var more := match es[k] case Lone(c) => {c as int} case Upto(c) => Span(es[k - 1].c, c) + {c as int};
    forall c: int | 0 <= c < 256
      ensures c in Listed(es, k + 1) <==> c in Listed(es, k) || c in more
    {
      assert c in more <==> StandsFor(es, k, c);
      if c in Listed(es, k + 1) {
        var j: nat :| j < k + 1 && StandsFor(es, j, c);
        assert j < k ==> AmongFirst(es, k, c);
      }
      if c in Listed(es, k) {
        var j: nat :| j < k && StandsFor(es, j, c);
        assert AmongFirst(es, k + 1, c);
      }
    }
  }

  lemma TextTail(es: seq<Element>, k: nat, rest: seq<byte>)
    requires k < |es|
    ensures ElementsText(es[k..]) + rest == ElementText(es[k]) + (ElementsText(es[k + 1..]) + rest)
  {
    assert es[k..][0] == es[k] && es[k..][1..] == es[k + 1..];
  }

  /** The closing bracket, perhaps behind a last `-`. */
  lemma ClosingRead(t: seq<byte>, pos: nat, last: byte, acc: set<int>, dash: bool)
    requires StandsAt(t, pos, ClosingText(dash)) && (dash ==> last != 0)
    ensures BracketRest(t, pos, last, acc) == Ok((if dash then acc + {'-' as int} else acc, pos + |ClosingText(dash)|))
  {
    var e := ClosingText(dash);
    assert t[pos + 0] == e[0];
    if dash {
      assert t[pos + 1] == e[1];
    }
  }

  /** One element. */
  lemma ElementRead(t: seq<byte>, pos: nat, es: seq<Element>, k: nat)
    requires k < |es| && GoodElement(es, k) && StandsAt(t, pos, ElementText(es[k]))
    ensures BracketFrom(t, pos, if k == 0 then 0 else es[k - 1].c, Listed(es, k)) ==
            BracketRest(t, pos + |ElementText(es[k])|, es[k].c, Listed(es, k + 1))
  {
    var e := ElementText(es[k]);
    assert t[pos + 0] == e[0];
    ListedNext(es, k);
    if es[k].Upto? {
      assert t[pos + 1] == e[1];
      assert Listed(es, k) + Span(es[k - 1].c, es[k].c) + {es[k].c as int} == Listed(es, k + 1);
    }
  }

  /** Elements from place `k` on. */
  lemma {:induction false} ElementsRead(t: seq<byte>, pos: nat, es: seq<Element>, k: nat, dash: bool)
    requires k < |es| && GoodElements(es) && (dash ==> es[|es| - 1].c != 0)
    requires StandsAt(t, pos, ElementsText(es[k..]) + ClosingText(dash))
    ensures BracketFrom(t, pos, if k == 0 then 0 else es[k - 1].c, Listed(es, k)) ==
            Ok((if dash then Listed(es, |es|) + {'-' as int} else Listed(es, |es|),
                pos + |ElementsText(es[k..]) + ClosingText(dash)|))
    decreases |es| - k
  {
    var closing := ClosingText(dash);
    TextTail(es, k, closing);
    StandsSplit(t, pos, ElementText(es[k]), ElementsText(es[k + 1..]) + closing);
    ElementRead(t, pos, es, k);
    var next := pos + |ElementText(es[k])|;
    if k + 1 == |es| {
      assert ElementsText(es[k + 1..]) + closing == closing;
      ClosingRead(t, next, es[k].c, Listed(es, k + 1), dash);
    } else {
      NotClosed(t, next, es, k + 1, closing);
      ElementsRead(t, next, es, k + 1, dash);
    }
  }

  lemma NotClosed(t: seq<byte>, pos: nat, es: seq<Element>, k: nat, rest: seq<byte>)
    requires 0 < k < |es| && GoodElement(es, k) && StandsAt(t, pos, ElementsText(es[k..]) + rest)
    ensures pos < |t| && t[pos] != RBRACKET
  {
    TextTail(es, k, rest);
    var e := ElementsText(es[k..]) + rest;
    assert e[0] == ElementText(es[k])[0] && t[pos + 0] == e[0];
  }

  /** The characters of a bracket expression. */
  ghost function Characters(b: Brackets): set<int> {
    set c | 0 <= c < 256 && Lists(b, c)
  }

  /** The text of a bracket expression is read as its characters. */
  lemma BracketsRead(t: seq<byte>, pos: nat, b: Brackets)
    requires GoodBrackets(b) && StandsAt(t, pos, BracketsText(b))
    ensures Bracket(t, pos) == Ok((ClassOf(b.neg, Characters(b)), pos + |BracketsText(b)|))
  {
    var es, text := b.elements, ElementsText(b.elements) + ClosingText(b.dash);
    var from := if b.neg then pos + 1 else pos;
    StandsSplit(t, pos, if b.neg then ['^' as int] else [], text);
    assert StandsAt(t, from, text);
    assert es[0..] == es;
    assert Listed(es, 0) == {};
    ElementsRead(t, from, es, 0, b.dash);
    assert (if b.dash then Listed(es, |es|) + {'-' as int} else Listed(es, |es|)) == Characters(b);
    FirstChar(t, pos, b, text);
  }

  /** The first character says whether the expression is complemented. */
  lemma FirstChar(t: seq<byte>, pos: nat, b: Brackets, text: seq<byte>)
    requires GoodBrackets(b) && text == ElementsText(b.elements) + ClosingText(b.dash)
    requires StandsAt(t, pos, (if b.neg then ['^' as int] else []) + text)
    ensures pos < |t| && (t[pos] == CARET <==> b.neg)
  {
    var all, es := (if b.neg then ['^' as int] else []) + text, b.elements;
    assert t[pos + 0] == all[0];
    assert GoodElement(es, 0);
    if !b.neg {
      assert all[0] == text[0] == ElementsText(es)[0] == es[0].c;
    }
  }

  /** The class of a bracket expression accepts a character exactly if it is written, or, behind `^`, exactly if it is not. */
  lemma BracketsMean(t: seq<byte>, pos: nat, b: Brackets, c: byte)
    requires GoodBrackets(b) && StandsAt(t, pos, BracketsText(b)) && c != 0
    ensures Bracket(t, pos).Ok? && Bracket(t, pos).value.1 == pos + |BracketsText(b)|
    ensures Accepts(Bracket(t, pos).value.0, c) <==> (Lists(b, c) <==> !b.neg)
  {
    BracketsRead(t, pos, b);
    assert c in Characters(b) <==> Lists(b, c);
  }

  /** It never accepts NUL, if NUL is not written. */
  lemma BracketsRefuseNul(b: Brackets)
    requires GoodBrackets(b) && forall k :: 0 <= k < |b.elements| ==> b.elements[k].c != 0
    ensures !Accepts(ClassOf(b.neg, Characters(b)), 0)
  {
    assert !Lists(b, 0);
    assert 0 !in Characters(b);
  }

  // ----- every bracket expression is written so -----

  lemma {:induction false} ElementsSnoc(es: seq<Element>, e: Element)
    ensures ElementsText(es + [e]) == ElementsText(es) + ElementText(e)
  {
    if es == [] {
      assert es + [e] == [e] && [e][1..] == [];
      assert ElementsText([e]) == ElementText(e) + [];
    } else {
      assert (es + [e])[0] == es[0] && (es + [e])[1..] == es[1..] + [e];
      ElementsSnoc(es[1..], e);
    }
  }

  lemma StandsJoin(t: seq<byte>, pos: nat, a: seq<byte>, b: seq<byte>)
    requires StandsAt(t, pos, a) && StandsAt(t, pos + |a|, b)
    ensures StandsAt(t, pos, a + b)
  {
    forall k | 0 <= k < |a + b|
      ensures (a + b)[k] == t[pos + k]
    {
      if |a| <= k {
        assert b[k - |a|] == t[pos + |a| + (k - |a|)];
      }
    }
  }

  lemma GoodSnoc(es: seq<Element>, e: Element)
    requires GoodElements(es) && GoodElement(es + [e], |es|)
    ensures GoodElements(es + [e])
  {
    forall k | 0 <= k < |es + [e]|
      ensures GoodElement(es + [e], k)
    {
      if k < |es| {
        assert GoodElement(es, k);
      }
    }
  }

  function LastOf(es: seq<Element>): byte {
    if es == [] then 0 else es[|es| - 1].c
  }

  /** One more element is read behind `es`, or the last `-`. */
  lemma OneWritten(t: seq<byte>, start: nat, es: seq<Element>, acc: set<int>, pos: nat) returns (e: Element, acc': set<int>)
    requires GoodElements(es) && StandsAt(t, start, ElementsText(es)) && pos == start + |ElementsText(es)|
    requires BracketFrom(t, pos, LastOf(es), acc).Ok? && (es != [] ==> t[pos] != RBRACKET)
    requires !(t[pos] == MINUS && LastOf(es) != 0 && t[pos + 1] == RBRACKET)
    ensures GoodElements(es + [e]) && StandsAt(t, start, ElementsText(es + [e]))
    ensures pos < start + |ElementsText(es + [e])| <= |t|
    ensures BracketFrom(t, pos, LastOf(es), acc) == BracketRest(t, start + |ElementsText(es + [e])|, e.c, acc')
  {
    var last := LastOf(es);
    e := if t[pos] == MINUS && last != 0 then Upto(t[pos + 1]) else Lone(t[pos]);
    acc' := if e.Upto? then acc + Span(last, e.c) + {e.c as int} else acc + {e.c as int};
    GoodSnoc(es, e);
    ElementsSnoc(es, e);
    assert StandsAt(t, pos, ElementText(e));
    StandsJoin(t, start, ElementsText(es), ElementText(e));
  }

  lemma EndWritten(t: seq<byte>, start: nat, text: seq<byte>, pos: nat, dash: bool)
    requires StandsAt(t, start, text) && pos == start + |text| && pos + |ClosingText(dash)| <= |t|
    requires if dash then t[pos] == MINUS && t[pos + 1] == RBRACKET else t[pos] == RBRACKET
    ensures StandsAt(t, start, text + ClosingText(dash))
  {
    assert StandsAt(t, pos, ClosingText(dash));
    StandsJoin(t, start, text, ClosingText(dash));
  }

  /** What is read behind `es` goes on with elements, up to the closing bracket. */
  lemma {:induction false} ElementsWritten(t: seq<byte>, start: nat, es: seq<Element>, acc: set<int>, pos: nat)
    returns (all: seq<Element>, dash: bool)
    requires GoodElements(es) && StandsAt(t, start, ElementsText(es)) && pos == start + |ElementsText(es)|
    requires BracketFrom(t, pos, LastOf(es), acc).Ok? && (es != [] ==> t[pos] != RBRACKET)
    ensures all != [] && GoodElements(all) && (dash ==> LastOf(all) != 0)
    ensures StandsAt(t, start, ElementsText(all) + ClosingText(dash))
    ensures BracketFrom(t, pos, LastOf(es), acc).value.1 == start + |ElementsText(all) + ClosingText(dash)|
    decreases |t| - pos
  {
    if t[pos] == MINUS && LastOf(es) != 0 && t[pos + 1] == RBRACKET {
      all, dash := es, true;
      EndWritten(t, start, ElementsText(es), pos, true);
    } else {
      var e, acc' := OneWritten(t, start, es, acc, pos);
      var next := start + |ElementsText(es + [e])|;
      if t[next] == RBRACKET {
        all, dash := es + [e], false;
        EndWritten(t, start, ElementsText(all), next, false);
      } else {
        all, dash := ElementsWritten(t, start, es + [e], acc', next);
      }
    }
  }

  /** Every bracket expression that is accepted is written so. */
  lemma BracketIsWritten(t: seq<byte>, pos: nat) returns (b: Brackets)
    requires Bracket(t, pos).Ok?
    ensures GoodBrackets(b) && StandsAt(t, pos, BracketsText(b)) && Bracket(t, pos).value.1 == pos + |BracketsText(b)|
  {
    var neg := t[pos] == CARET;
    var from := if neg then pos + 1 else pos;
    var es, dash := ElementsWritten(t, from, [], {}, from);
    b := Brackets(neg, es, dash);
    var text := ElementsText(es) + ClosingText(dash);
    assert StandsAt(t, pos, if neg then ['^' as int] else []);
    StandsJoin(t, pos, if neg then ['^' as int] else [], text);
    assert GoodElement(es, 0);
    if !neg {
      assert text[0] == ElementsText(es)[0] == es[0].c;
      assert t[pos + 0] == text[0];
    }
  }
}
