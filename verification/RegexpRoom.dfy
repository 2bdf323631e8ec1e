/**
 How much room `compile` asks for: it checks the buffer once for each turn of its loop, and twice more for a bracket
 expression, so that a bad pattern can run out of room before its error is met.
 */
module RegexpRoom {
  import opened Bytes
  import opened RegexpCode
  import opened RegexpPattern

  /** A character above 127 is met among the elements from `pos` on, before they end or fail. */
  predicate ReadsHigh(t: seq<byte>, pos: nat, last: byte)
    decreases |t| - pos, 1
  {
    && pos < |t| && t[pos] != 0 && t[pos] != NEWLINE
    && (|| 128 <= t[pos]
        || (if t[pos] == MINUS && last != 0 then
              && pos + 1 < |t| && t[pos + 1] != RBRACKET
              && (128 <= t[pos + 1] || ReadsHighRest(t, pos + 2, t[pos + 1]))
            else ReadsHighRest(t, pos + 1, t[pos])))
  }

  predicate ReadsHighRest(t: seq<byte>, pos: nat, last: byte)
    decreases |t| - pos, 2
  {
    pos < |t| && t[pos] != RBRACKET && ReadsHigh(t, pos, last)
  }

  /** The room for a bracket expression whose text starts at `pos`. */
  function BracketRoom(t: seq<byte>, pos: nat): nat {
    if pos < |t| && ReadsHigh(t, if t[pos] == CARET then pos + 1 else pos, 0) then 34 else 18
  }

  /** The room that the turn of the loop at `pos` asks for, if it starts an item. */
  function TurnRoom(t: seq<byte>, pos: nat): nat {
    if pos < |t| && t[pos] == LBRACKET then BracketRoom(t, pos + 1) else 1
  }

  /** The room from here on, where an item may start. */
  function Room(t: seq<byte>, pos: nat, g: Groups, eof: byte): (r: nat)
    requires pos <= |t|
    ensures 0 < r
    decreases |t| - pos, 0
  {
    if pos == |t| || t[pos] == eof || t[pos] == NEWLINE then 1
    else match Primary(t, pos, g, eof)
         case Err(_) => TurnRoom(t, pos)
         case Ok((b, next, g')) => |EncodeItem(Item(b, Once))| + RoomAfter(t, next, Item(b, Once), g', eof)
  }

  /** The room from here on, behind the item `it`, which may still be repeated. */
  function RoomAfter(t: seq<byte>, pos: nat, it: Item, g: Groups, eof: byte): (r: nat)
    requires pos <= |t|
    ensures 0 < r
    decreases |t| - pos, 1
  {
    if pos == |t| || t[pos] == eof then Room(t, pos, g, eof)
    else if t[pos] == ASTERISK && Starrable(it) then RoomAfter(t, pos + 1, Starred(it), g, eof)
    else if t[pos] == BACKSLASH && Peek(t, pos + 1) == LBRACE then
      match Bounds(t, pos + 2)
      case Err(_) => 1
      case Ok((b, next)) => 2 + RoomAfter(t, next, Ranged(it, b), g, eof)
    else Room(t, pos, g, eof)
  }

  /** The room for a non-empty pattern. */
  function PatternRoom(t: seq<byte>, start: nat, eof: byte): nat
    requires start < |t|
  {
    Room(t, if t[start] == CARET then start + 1 else start, NO_GROUPS, eof)
  }

  // ----- the room of a good pattern is its code -----

  lemma HighAdded(acc: set<int>, lo: int, c: byte)
    requires c < 128
    ensures HasHigh(acc + Span(lo, c) + {c}) <==> HasHigh(acc)
    ensures HasHigh(acc + {c}) <==> HasHigh(acc)
  {
    if HasHigh(acc) {
      var x :| x in acc && 128 <= x;
      assert x in acc + Span(lo, c) + {c} && x in acc + {c};
    }
  }

  lemma {:induction false} ReadsHighMeans(t: seq<byte>, pos: nat, last: byte, acc: set<int>)
    requires BracketFrom(t, pos, last, acc).Ok?
    ensures HasHigh(BracketFrom(t, pos, last, acc).value.0) <==> HasHigh(acc) || ReadsHigh(t, pos, last)
    decreases |t| - pos, 1
  {
    var c, chars := t[pos], BracketFrom(t, pos, last, acc).value.0;
    if c == MINUS && last != 0 {
      var c2 := t[pos + 1];
      if c2 == RBRACKET {
        HighAdded(acc, 0, MINUS);
      } else if 128 <= c2 {
        assert c2 in chars;
      } else {
        HighAdded(acc, last, c2);
        ReadsHighRestMeans(t, pos + 2, c2, acc + Span(last, c2) + {c2});
      }
    } else if 128 <= c {
      assert c in chars;
    } else {
      HighAdded(acc, 0, c);
      ReadsHighRestMeans(t, pos + 1, c, acc + {c});
    }
  }

  lemma {:induction false} ReadsHighRestMeans(t: seq<byte>, pos: nat, last: byte, acc: set<int>)
    requires BracketRest(t, pos, last, acc).Ok?
    ensures HasHigh(BracketRest(t, pos, last, acc).value.0) <==> HasHigh(acc) || ReadsHighRest(t, pos, last)
    decreases |t| - pos, 2
  {
    if t[pos] != RBRACKET {
      ReadsHighMeans(t, pos, last, acc);
    }
  }

  /** A bracket expression needs one byte more than its code. */
  lemma BracketRoomIs(t: seq<byte>, pos: nat)
    requires Bracket(t, pos).Ok?
    ensures BracketRoom(t, pos) == |EncodeItem(Item(One(Bracket(t, pos).value.0), Once))| + 1
  {
    var from := if t[pos] == CARET then pos + 1 else pos;
    ReadsHighMeans(t, from, 0, {});
  }

  /** No turn needs more than the code of its item and one byte. */
  lemma TurnRoomIs(t: seq<byte>, pos: nat, g: Groups, eof: byte)
    requires Primary(t, pos, g, eof).Ok?
    ensures TurnRoom(t, pos) <= |EncodeItem(Item(Primary(t, pos, g, eof).value.0, Once))| + 1
  {
    if t[pos] == LBRACKET {
      BracketRoomIs(t, pos + 1);
    }
  }

  /** A pattern that parses needs exactly the room of its code and its end mark. */
  lemma {:induction false} RoomIsLength(t: seq<byte>, pos: nat, g: Groups, eof: byte, sed: bool)
    requires pos <= |t| && ItemsFrom(t, pos, g, eof, sed).Ok?
    ensures Room(t, pos, g, eof) == |Encode(ItemsFrom(t, pos, g, eof, sed).value.items)|
    decreases |t| - pos, 0
  {
    if t[pos] != eof && t[pos] != NEWLINE {
      var (b, next, g') := Primary(t, pos, g, eof).value;
      RoomAfterIsLength(t, next, Item(b, Once), g', eof, sed);
    }
  }

  lemma {:induction false} RoomAfterIsLength(t: seq<byte>, pos: nat, it: Item, g: Groups, eof: byte, sed: bool)
    requires pos <= |t| && Finish(t, pos, it, g, eof, sed).Ok?
    ensures |EncodeItem(it)| + RoomAfter(t, pos, it, g, eof) == |Encode(Finish(t, pos, it, g, eof, sed).value.items)|
    decreases |t| - pos, 1
  {
    if pos < |t| && t[pos] != eof && t[pos] == ASTERISK && Starrable(it) {
      RoomAfterIsLength(t, pos + 1, Starred(it), g, eof, sed);
    } else if pos < |t| && t[pos] != eof && t[pos] == BACKSLASH && Peek(t, pos + 1) == LBRACE {
      var (b, next) := Bounds(t, pos + 2).value;
      RoomAfterIsLength(t, next, Ranged(it, b), g, eof, sed);
    } else {
      var rest := ItemsFrom(t, pos, g, eof, sed).value;
      RoomIsLength(t, pos, g, eof, sed);
      EncodeCons(it, rest.items);
    }
  }
}
