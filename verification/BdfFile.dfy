/** What a BDF file is, said of its lines alone; `load_bdf` accepts exactly these files. */
module BdfFile {
  import opened Bytes
  import opened BdfText
  import opened BdfLines
  import opened BdfLoad

  // ----- the files that hold a font -----

  predicate Begins(lines: seq<string>, k: nat, word: string) {
    k < |lines| && word <= lines[k]
  }

  /** The line that starts a character has a name. */
  predicate Named(line: string) {
    "STARTCHAR" <= line && ScanWord(line[9..]).Some?
  }

  /** The lines from `k` up to `next` are a character that is not loaded: its encoding is -1. */
  ghost predicate IsIgnored(lines: seq<string>, k: nat, next: nat) {
    && k + 3 <= next <= |lines| && Named(lines[k]) && Encoding(lines[k + 1]) == Loaded(-1)
    && "ENDCHAR" <= lines[next - 1] && forall i :: k + 2 <= i < next - 1 ==> !("ENDCHAR" <= lines[i])
  }

  /** An ATTRIBUTES line has four hexadecimal digits behind blanks. */
  predicate GoodAttributes(line: string) {
    var digits := SkipBlanks(if |line| <= 11 then [] else line[11..]);
    4 <= |digits| && IsHex(digits[0]) && IsHex(digits[1]) && IsHex(digits[2]) && IsHex(digits[3])
  }

  /** Where the BITMAP line of the character at `k` should be. */
  function BitmapAt(lines: seq<string>, k: nat): nat {
    if Begins(lines, k + 5, "ATTRIBUTES") then k + 6 else k + 5
  }

  /** The lines from `k` on are the head of a character to be loaded: an encoding, and a box of `bw` by `bh`. */
  ghost predicate IsHead(lines: seq<string>, k: nat, bw: nat, bh: nat) {
    && BitmapAt(lines, k) < |lines| && Named(lines[k])
    && Encoding(lines[k + 1]).Loaded? && -1 != Encoding(lines[k + 1]).value <= 0xFFFF
    && Box(lines[k + 4]) == Loaded((bw, bh))
    && (BitmapAt(lines, k) == k + 6 ==> GoodAttributes(lines[k + 5]))
    && "BITMAP" <= lines[BitmapAt(lines, k)]
  }

  /** Between the BITMAP line at `at` and `next` there is a line for each row, and the end of the character. */
  ghost predicate IsBody(lines: seq<string>, at: nat, next: nat, g: Glyph) {
    && next <= |lines| && next == at + g.bh + 2 && |g.rows| == g.bh
    && (forall i :: 0 <= i < g.bh ==> RowOf(lines[at + 1 + i], g.bw) == Loaded(g.rows[i]))
    && "ENDCHAR" <= lines[next - 1]
  }

  /** The lines from `k` up to `next` are the glyph `g`. */
  ghost predicate IsDrawn(lines: seq<string>, k: nat, next: nat, g: Glyph) {
    IsHead(lines, k, g.bw, g.bh) && IsBody(lines, BitmapAt(lines, k), next, g)
  }

  ghost predicate IsChar(lines: seq<string>, k: nat, next: nat, c: Option<Glyph>) {
    match c
    case None => IsIgnored(lines, k, next)
    case Some(g) => IsDrawn(lines, k, next, g)
  }

  /** The characters that are loaded. */
  function Drawn(chars: seq<Option<Glyph>>): seq<Glyph> {
    if chars == [] then [] else IfDrawn(chars[0]) + Drawn(chars[1..])
  }

  function IfDrawn(c: Option<Glyph>): seq<Glyph> {
    match c case None => [] case Some(g) => [g]
  }

  /** Characters stand from each mark to the next. */
  ghost predicate AreChars(lines: seq<string>, marks: seq<nat>, chars: seq<Option<Glyph>>) {
    && |marks| == |chars| + 1
    && forall j {:trigger chars[j]} :: 0 <= j < |chars| ==> IsChar(lines, marks[j], marks[j + 1], chars[j])
  }

  /** The four lines a file begins with. */
  predicate IsTop(lines: seq<string>, name: string) {
    && Begins(lines, 0, "STARTFONT") && ScanWord(lines[0][9..]) == Some("2.1")
    && Begins(lines, 1, "FONT") && SkipSpace(lines[1][4..]) == name != []
    && Begins(lines, 2, "SIZE") && Begins(lines, 3, "FONTBOUNDINGBOX")
  }

  /** The CHARS line is at `c`: the fifth line, or the first behind the properties, as many as announced. */
  predicate CharsAt(lines: seq<string>, c: nat) {
    && c < |lines|
    && (c == 4 ||
        (&& 6 <= c && ScanField(lines[4], "STARTPROPERTIES") == Some(c - 6)
         && "ENDPROPERTIES" <= lines[c - 1] && forall i :: 5 <= i < c - 1 ==> !("ENDPROPERTIES" <= lines[i])))
  }

  /** What comes before the characters: the name of the font, and the number of characters in the line at `c`. */
  predicate IsHeader(lines: seq<string>, name: string, c: nat, n: int) {
    IsTop(lines, name) && CharsAt(lines, c) && ScanField(lines[c], "CHARS") == Some(n) && 0 < n
  }

  /** The characters are marked; one of them at least is loaded, and the font ends behind the last one. */
  ghost predicate AreAllChars(lines: seq<string>, marks: seq<nat>, chars: seq<Option<Glyph>>) {
    AreChars(lines, marks, chars) && Begins(lines, marks[|chars|], "ENDFONT") && Drawn(chars) != []
  }

  /** A font of this name with these characters, as many as announced. */
  ghost predicate IsFont(lines: seq<string>, name: string, marks: seq<nat>, chars: seq<Option<Glyph>>) {
    AreAllChars(lines, marks, chars) && 0 < marks[0] && IsHeader(lines, name, marks[0] - 1, |chars|)
  }

  ghost predicate HoldsFont(lines: seq<string>, name: string, glyphs: seq<Glyph>) {
    exists marks, chars :: IsFont(lines, name, marks, chars) && glyphs == Drawn(chars)
  }

  // ----- the reader among the lines -----

  /** The reader that has line `k` in its buffer. */
  function At(file: Listing, k: nat): Input
    requires k < |file.lines|
  {
    Input(file, k + 1, file.lines[k])
  }

  lemma AtNext(file: Listing, k: nat)
    requires k + 1 < |file.lines|
    ensures At(file, k).Next() == At(file, k + 1)
  {
  }

  // ----- a file that holds a font is accepted -----

  lemma {:induction false} RowsRead(file: Listing, k: nat, bw: nat, rows: seq<Row>)
    requires k + |rows| < |file.lines|
    requires forall i :: 0 <= i < |rows| ==> RowOf(file.lines[k + 1 + i], bw) == Loaded(rows[i])
    ensures Rows(At(file, k), bw, |rows|) == Loaded((rows, At(file, k + |rows|)))
    decreases |rows|
  {
    if rows != [] {
      AtNext(file, k);
      assert RowOf(file.lines[k + 1 + 0], bw) == Loaded(rows[0]);
      forall i | 0 <= i < |rows| - 1
        ensures RowOf(file.lines[k + 2 + i], bw) == Loaded(rows[1..][i])
      {
        assert RowOf(file.lines[k + 1 + (i + 1)], bw) == Loaded(rows[i + 1]);
      }
      RowsRead(file, k + 1, bw, rows[1..]);
      assert [rows[0]] + rows[1..] == rows;
    }
  }

  lemma {:induction false} EndFound(file: Listing, k: nat, end: nat)
    requires k < end < |file.lines| && "ENDCHAR" <= file.lines[end]
    requires forall i :: k < i < end ==> !("ENDCHAR" <= file.lines[i])
    ensures FindEnd(At(file, k)) == Some(At(file, end))
    decreases end - k
  {
    AtNext(file, k);
    if k + 1 != end {
      EndFound(file, k + 1, end);
    }
  }

  lemma AttributesRead(inp: Input)
    requires "ATTRIBUTES" <= inp.line
    ensures Attributes(inp).Loaded? <==> GoodAttributes(inp.line)
    ensures Attributes(inp).Loaded? ==> Attributes(inp).value == inp.Next()
  {
  }

  lemma FourLinesOn(file: Listing, k: nat)
    requires k + 5 < |file.lines|
    ensures At(file, k).Next() == At(file, k + 1) && At(file, k + 1).Next().Next().Next() == At(file, k + 4)
    ensures At(file, k + 4).Next() == At(file, k + 5)
    ensures k + 6 < |file.lines| ==> At(file, k + 5).Next() == At(file, k + 6)
  {
  }

  lemma BoxRead(file: Listing, k: nat, bw: nat, bh: nat)
    requires IsHead(file.lines, k, bw, bh)
    ensures BoxHead(At(file, k + 1)) == Loaded(Boxed(bw, bh, At(file, BitmapAt(file.lines, k))))
  {
    FourLinesOn(file, k);
    if "ATTRIBUTES" <= file.lines[k + 5] {
      AttributesRead(At(file, k + 5));
    }
  }

  lemma HeadRead(file: Listing, k: nat, bw: nat, bh: nat)
    requires IsHead(file.lines, k, bw, bh)
    ensures GlyphHead(At(file, k)) == Loaded(Boxed(bw, bh, At(file, BitmapAt(file.lines, k))))
  {
    FourLinesOn(file, k);
    BoxRead(file, k, bw, bh);
  }

  lemma DrawnRead(file: Listing, k: nat, at: nat, next: nat, g: Glyph)
    requires IsHead(file.lines, k, g.bw, g.bh) && at == BitmapAt(file.lines, k) && IsBody(file.lines, at, next, g)
    requires next < |file.lines|
    ensures OneGlyph(At(file, k)) == Loaded(([g], At(file, next)))
  {
    HeadRead(file, k, g.bw, g.bh);
    BodyRead(file, at, next, g);
    GlyphRead(At(file, k), g, At(file, at), At(file, next - 2));
  }

  /** The rows, and what comes after them. */
  lemma BodyRead(file: Listing, at: nat, next: nat, g: Glyph)
    requires IsBody(file.lines, at, next, g) && next < |file.lines|
    ensures Rows(At(file, at), g.bw, g.bh) == Loaded((g.rows, At(file, next - 2)))
    ensures "ENDCHAR" <= At(file, next - 2).Next().line && At(file, next - 2).Next().Next() == At(file, next)
  {
    RowsRead(file, at, g.bw, g.rows);
    EndRead(file, at + g.bh, next);
  }

  lemma EndRead(file: Listing, k: nat, next: nat)
    requires next == k + 2 && next < |file.lines| && "ENDCHAR" <= file.lines[next - 1]
    ensures "ENDCHAR" <= At(file, k).Next().line && At(file, k).Next().Next() == At(file, next)
  {
    AtNext(file, k);
    AtNext(file, k + 1);
  }

  lemma GlyphRead(inp: Input, g: Glyph, z: Input, e: Input)
    requires GlyphHead(inp) == Loaded(Boxed(g.bw, g.bh, z)) && Rows(z, g.bw, g.bh) == Loaded((g.rows, e))
    requires "ENDCHAR" <= e.Next().line
    ensures OneGlyph(inp) == Loaded(([g], e.Next().Next()))
  {
  }

  lemma IgnoredRead(file: Listing, k: nat, next: nat)
    requires IsIgnored(file.lines, k, next) && next < |file.lines|
    ensures OneGlyph(At(file, k)) == Loaded(([], At(file, next)))
  {
    AtNext(file, k);
    EndFound(file, k + 1, next - 1);
    AtNext(file, next - 1);
  }

  /** A line begins with one of two words that differ. */
  lemma OneWord(line: string, word: string, other: string, i: nat)
    requires word <= line && i < |word| && i < |other| && word[i] != other[i]
    ensures !(other <= line)
  {
    assert line[i] == word[i];
  }

  lemma GlyphsStep(inp: Input, one: seq<Glyph>, z: Input, n: int, more: seq<Glyph>)
    requires 0 < n && "STARTCHAR" <= inp.line && OneGlyph(inp) == Loaded((one, z)) && Glyphs(z, n - 1) == Loaded(more)
    ensures Glyphs(inp, n) == Loaded(one + more)
  {
  }

  lemma CharRead(file: Listing, k: nat, next: nat, c: Option<Glyph>)
    requires IsChar(file.lines, k, next, c) && next < |file.lines|
    ensures k < |file.lines| && "STARTCHAR" <= file.lines[k]
    ensures OneGlyph(At(file, k)) == Loaded((IfDrawn(c), At(file, next)))
  {
    match c
    case None => IgnoredRead(file, k, next);
    case Some(g) => DrawnRead(file, k, BitmapAt(file.lines, k), next, g);
  }

  lemma AreCharsTail(lines: seq<string>, marks: seq<nat>, chars: seq<Option<Glyph>>)
    requires AreChars(lines, marks, chars) && chars != []
    ensures IsChar(lines, marks[0], marks[1], chars[0]) && AreChars(lines, marks[1..], chars[1..])
  {
    forall j | 0 <= j < |chars| - 1
      ensures IsChar(lines, marks[1..][j], marks[1..][j + 1], chars[1..][j])
    {
      assert IsChar(lines, marks[j + 1], marks[j + 1 + 1], chars[j + 1]);
    }
  }

  lemma {:induction false} CharsRead(file: Listing, marks: seq<nat>, chars: seq<Option<Glyph>>, n: int)
    requires AreChars(file.lines, marks, chars) && n == |chars| && Begins(file.lines, marks[|chars|], "ENDFONT")
    ensures marks[0] < |file.lines| && Glyphs(At(file, marks[0]), n) == Loaded(Drawn(chars))
    decreases |chars|
  {
    if chars != [] {
      AreCharsTail(file.lines, marks, chars);
      CharsRead(file, marks[1..], chars[1..], n - 1);
      CharRead(file, marks[0], marks[1], chars[0]);
      GlyphsStep(At(file, marks[0]), IfDrawn(chars[0]), At(file, marks[1]), n, Drawn(chars[1..]));
    } else {
      OneWord(file.lines[marks[0]], "ENDFONT", "STARTCHAR", 0);
    }
  }

  lemma {:induction false} PropertiesSkipped(file: Listing, k: nat, n: nat)
    requires k + n < |file.lines| && "ENDPROPERTIES" <= file.lines[k + n]
    requires forall i :: k <= i < k + n ==> !("ENDPROPERTIES" <= file.lines[i])
    ensures SkipProperties(At(file, k), n) == (At(file, k + n), 0)
    decreases n
  {
    if n != 0 {
      AtNext(file, k);
      PropertiesSkipped(file, k + 1, n - 1);
    }
  }

  /** The reader before the first line. */
  function Before(file: Listing): Input {
    Input(file, 0, [])
  }

  lemma TopRead(file: Listing, name: string)
    requires IsTop(file.lines, name) && 4 < |file.lines|
    ensures Top(Before(file), name) == Loaded(At(file, 4))
  {
    assert Before(file).Next() == At(file, 0);
    FourLinesOnFrom(file, 0);
  }

  lemma FourLinesOnFrom(file: Listing, k: nat)
    requires k + 4 < |file.lines|
    ensures At(file, k).Next() == At(file, k + 1) && At(file, k + 1).Next() == At(file, k + 2)
    ensures At(file, k + 2).Next() == At(file, k + 3) && At(file, k + 3).Next() == At(file, k + 4)
  {
  }

  lemma PropertiesRead(file: Listing, c: nat)
    requires CharsAt(file.lines, c) && "CHARS" <= file.lines[c]
    ensures 4 < |file.lines| && Properties(At(file, 4)) == Loaded(At(file, c))
  {
    if c == 4 {
      OneWord(file.lines[4], "CHARS", "STARTPROPERTIES", 0);
    } else {
      AtNext(file, 4);
      PropertiesSkipped(file, 5, c - 6);
      AtNext(file, c - 1);
    }
  }

  lemma HeaderRead(file: Listing, name: string, c: nat, n: int, next: nat)
    requires IsHeader(file.lines, name, c, n) && next == c + 1 && next < |file.lines|
    ensures Header(Before(file), name) == Loaded((At(file, next), n))
  {
    TopRead(file, name);
    PropertiesRead(file, c);
    AtNext(file, c);
  }

  lemma FontFromIs(inp: Input, name: string, z: Input, n: int, glyphs: seq<Glyph>)
    requires Header(inp, name) == Loaded((z, n)) && Glyphs(z, n) == Loaded(glyphs) && glyphs != []
    ensures FontFrom(inp, name) == Loaded(glyphs)
  {
  }

  /** The lines of a font are accepted, and give its glyphs. */
  lemma FontRead(file: Listing, name: string, marks: seq<nat>, chars: seq<Option<Glyph>>)
    requires IsFont(file.lines, name, marks, chars)
    ensures FontFrom(Before(file), name) == Loaded(Drawn(chars))
  {
    PartsRead(file, name, marks, chars, marks[0] - 1, |chars|);
  }

  lemma PartsRead(file: Listing, name: string, marks: seq<nat>, chars: seq<Option<Glyph>>, c: nat, n: int)
    requires AreAllChars(file.lines, marks, chars) && c + 1 == marks[0] && n == |chars| && IsHeader(file.lines, name, c, n)
    ensures FontFrom(Before(file), name) == Loaded(Drawn(chars))
  {
    var first := c + 1;
    AllCharsRead(file, marks, chars, first, n);
    var z := At(file, first);
    assert Header(Before(file), name) == Loaded((z, n)) by {
      HeaderRead(file, name, c, n, first);
    }
    FontFromIs(Before(file), name, z, n, Drawn(chars));
  }

  lemma AllCharsRead(file: Listing, marks: seq<nat>, chars: seq<Option<Glyph>>, first: nat, n: int)
    requires AreAllChars(file.lines, marks, chars) && first == marks[0] && n == |chars|
    ensures first < |file.lines| && Glyphs(At(file, first), n) == Loaded(Drawn(chars)) && Drawn(chars) != []
  {
    CharsRead(file, marks, chars, n);
  }

  // ----- an accepted file holds a font -----

  /** The reader `n` lines on. */
  function Steps(inp: Input, n: nat): Input {
    if n == 0 then inp else Steps(inp, n - 1).Next()
  }

  /** The reader is at the end: reading on changes nothing. */
  predicate Past(inp: Input) {
    inp.Next() == inp
  }

  lemma {:induction false} StepsAre(file: Listing, k: nat, n: nat)
    requires k < |file.lines|
    ensures if k + n < |file.lines| then Steps(At(file, k), n) == At(file, k + n) else Past(Steps(At(file, k), n))
    decreases n
  {
    if n != 0 {
      StepsAre(file, k, n - 1);
    }
  }

  /** What is left in the buffer at the end is a line, or one that is skipped. */
  predicate GoodTail(file: Listing) {
    file.tail.Some? ==> Skipped(file.tail.value)
  }

  lemma {:induction false} TailSkipped(text: string, pos: nat)
    requires pos <= |text|
    ensures GoodTail(List(text, pos))
    decreases |text| - pos
  {
    var end := ChunkEnd(text, pos, pos + 79);
    if end != pos {
      TailSkipped(text, end);
    }
  }

  /** A line that begins with a word other than the one before it comes from the file. */
  lemma NextIsLine(file: Listing, k: nat, word: string, i: nat)
    requires k < |file.lines| && GoodTail(file) && word <= At(file, k).Next().line && !(word <= file.lines[k])
    requires i < |word| && i < 7 && word[i] != "COMMENT"[i]
    ensures k + 1 < |file.lines| && At(file, k).Next() == At(file, k + 1)
  {
    if k + 1 == |file.lines| && file.tail.Some? {
      OneWord(file.tail.value, word, "COMMENT", i);
    }
  }

  lemma RowsHead(inp: Input, bw: nat, bh: nat, rows: seq<Row>, e: Input)
    requires Rows(inp, bw, bh) == Loaded((rows, e)) && bh != 0
    ensures rows != [] && RowOf(inp.Next().line, bw) == Loaded(rows[0])
    ensures Rows(inp.Next(), bw, bh - 1) == Loaded((rows[1..], e))
  {
    var a := inp.Next();
    assert [RowOf(a.line, bw).value] + Rows(a, bw, bh - 1).value.0 == rows;
  }

  /** Rows are made of the lines that follow. */
  lemma {:induction false} RowsStep(inp: Input, bw: nat, bh: nat, rows: seq<Row>, e: Input)
    requires Rows(inp, bw, bh) == Loaded((rows, e))
    ensures |rows| == bh && e == Steps(inp, bh)
    ensures forall i :: 0 <= i < bh ==> RowOf(Steps(inp, i + 1).line, bw) == Loaded(rows[i])
    decreases bh
  {
    if bh != 0 {
      RowsHead(inp, bw, bh, rows, e);
      RowsStep(inp.Next(), bw, bh - 1, rows[1..], e);
      StepsOn(inp, bh - 1);
      forall i | 0 <= i < bh
        ensures RowOf(Steps(inp, i + 1).line, bw) == Loaded(rows[i])
      {
        StepsOn(inp, i);
        if i != 0 {
          assert RowOf(Steps(inp.Next(), i - 1 + 1).line, bw) == Loaded(rows[1..][i - 1]);
        }
      }
    }
  }

  lemma {:induction false} StepsOn(inp: Input, n: nat)
    ensures Steps(inp.Next(), n) == Steps(inp, n + 1)
    decreases n
  {
    if n != 0 {
      StepsOn(inp, n - 1);
    } else {
      assert Steps(inp, 1) == Steps(inp, 0).Next();
    }
  }

  /** The end of a character is no row. */
  lemma EndIsNoRow(line: string, bw: nat)
    requires "ENDCHAR" <= line
    ensures !RowOf(line, bw).Loaded?
  {
    var perrow := Min(HexPerRow(bw), |line| / 2);
    assert line[1] == "ENDCHAR"[1];
    assert HexByte(line, 2 * 0).None?;
    if HexBytes(line, perrow).Loaded? {
      HexBytesAre(line, perrow, 0);
    }
  }

  /** The first ENDCHAR line is found among the lines of the file. */
  lemma {:induction false} EndIsLine(file: Listing, k: nat, z: Input) returns (end: nat)
    requires k < |file.lines| && GoodTail(file) && !("ENDCHAR" <= file.lines[k]) && FindEnd(At(file, k)) == Some(z)
    ensures k < end < |file.lines| && z == At(file, end) && "ENDCHAR" <= file.lines[end]
    ensures forall i :: k < i < end ==> !("ENDCHAR" <= file.lines[i])
    decreases |file.lines| - k
  {
    var a := At(file, k).Next();
    if "ENDCHAR" <= a.line {
      NextIsLine(file, k, "ENDCHAR", 0);
      end := k + 1;
    } else {
      end := EndIsLine(file, k + 1, z);
    }
  }

  /** A line that a character may begin with, or the end of the font. */
  predicate GoesOn(line: string) {
    "STARTCHAR" <= line || "ENDFONT" <= line
  }

  lemma NextGoesOn(file: Listing, k: nat)
    requires k < |file.lines| && GoodTail(file) && GoesOn(At(file, k).Next().line) && "ENDCHAR" <= file.lines[k]
    ensures k + 1 < |file.lines| && At(file, k).Next() == At(file, k + 1)
  {
    OneWord(file.lines[k], "ENDCHAR", "STARTCHAR", 0);
    OneWord(file.lines[k], "ENDCHAR", "ENDFONT", 3);
    if "STARTCHAR" <= At(file, k).Next().line {
      NextIsLine(file, k, "STARTCHAR", 0);
    } else {
      NextIsLine(file, k, "ENDFONT", 0);
    }
  }

  /** An encoding follows the name. */
  lemma EncodingIsLine(file: Listing, k: nat)
    requires k < |file.lines| && GoodTail(file) && "STARTCHAR" <= file.lines[k] && Encoding(At(file, k).Next().line).Loaded?
    ensures k + 1 < |file.lines| && At(file, k).Next() == At(file, k + 1) && "ENCODING" <= file.lines[k + 1]
  {
    OneWord(file.lines[k], "STARTCHAR", "ENCODING", 0);
    NextIsLine(file, k, "ENCODING", 0);
  }

  /** A character that is not loaded. */
  lemma IgnoredIs(file: Listing, k: nat, z: Input) returns (next: nat)
    requires k < |file.lines| && GoodTail(file) && GlyphHead(At(file, k)) == Loaded(Ignored(z)) && GoesOn(z.line)
    ensures next < |file.lines| && z == At(file, next) && IsIgnored(file.lines, k, next)
  {
    EncodingIsLine(file, k);
    OneWord(file.lines[k + 1], "ENCODING", "ENDCHAR", 2);
    var end := EndIsLine(file, k + 1, FindEnd(At(file, k + 1)).value);
    NextGoesOn(file, end);
    next := end + 1;
  }

  /** The box stands three lines behind the encoding, and a line follows it. */
  lemma BoxIsLine(file: Listing, k: nat)
    requires k < |file.lines| && GoodTail(file)
    requires var b := At(file, k).Next().Next().Next(); "BBX" <= b.line && ("ATTRIBUTES" <= b.Next().line || "BITMAP" <= b.Next().line)
    ensures k + 4 < |file.lines| && At(file, k).Next().Next().Next() == At(file, k + 3)
    ensures At(file, k + 3).Next() == At(file, k + 4)
  {
    var b := At(file, k).Next().Next().Next();
    StepsAre(file, k, 3);
    assert Steps(At(file, k), 3) == b by {
      assert Steps(At(file, k), 1) == At(file, k).Next();
      assert Steps(At(file, k), 2) == At(file, k).Next().Next();
    }
    OneWord(b.line, "BBX", "ATTRIBUTES", 0);
    OneWord(b.line, "BBX", "BITMAP", 1);
    if "ATTRIBUTES" <= b.Next().line {
      NextIsLine(file, k + 3, "ATTRIBUTES", 0);
    } else {
      NextIsLine(file, k + 3, "BITMAP", 0);
    }
  }

  lemma BitmapIsLine(file: Listing, k: nat, z: Input)
    requires k < |file.lines| && GoodTail(file) && "ATTRIBUTES" <= file.lines[k] && At(file, k).Next() == z && "BITMAP" <= z.line
    ensures k + 1 < |file.lines| && z == At(file, k + 1)
  {
    OneWord(file.lines[k], "ATTRIBUTES", "BITMAP", 0);
    NextIsLine(file, k, "BITMAP", 0);
  }

  lemma AttributesAre(file: Listing, k: nat, z: Input)
    requires k < |file.lines| && GoodTail(file) && Attributes(At(file, k)) == Loaded(z) && "BITMAP" <= z.line
    ensures "ATTRIBUTES" <= file.lines[k] ==> GoodAttributes(file.lines[k]) && k + 1 < |file.lines| && z == At(file, k + 1)
    ensures !("ATTRIBUTES" <= file.lines[k]) ==> z == At(file, k)
  {
    if "ATTRIBUTES" <= file.lines[k] {
      AttributesRead(At(file, k));
      BitmapIsLine(file, k, z);
    }
  }

  /** From the encoding at `k + 1` to BITMAP. */
  lemma BoxHeadIs(file: Listing, k: nat, bw: nat, bh: nat, z: Input)
    requires k + 1 < |file.lines| && GoodTail(file) && BoxHead(At(file, k + 1)) == Loaded(Boxed(bw, bh, z))
    ensures BitmapAt(file.lines, k) < |file.lines| && z == At(file, BitmapAt(file.lines, k))
    ensures Box(file.lines[k + 4]) == Loaded((bw, bh)) && "BITMAP" <= z.line
    ensures BitmapAt(file.lines, k) == k + 6 ==> GoodAttributes(file.lines[k + 5])
  {
    BoxIsLine(file, k + 1);
    AttributesAre(file, k + 5, z);
  }

  lemma HeadIs(file: Listing, k: nat, bw: nat, bh: nat, z: Input)
    requires k < |file.lines| && GoodTail(file) && GlyphHead(At(file, k)) == Loaded(Boxed(bw, bh, z))
    ensures IsHead(file.lines, k, bw, bh) && z == At(file, BitmapAt(file.lines, k))
  {
    EncodingIsLine(file, k);
    BoxHeadIs(file, k, bw, bh, z);
  }

  /** The rows and the end of a character. */
  lemma BodyIs(file: Listing, at: nat, g: Glyph, e: Input, z: Input) returns (next: nat)
    requires at < |file.lines| && GoodTail(file) && "BITMAP" <= file.lines[at]
    requires Rows(At(file, at), g.bw, g.bh) == Loaded((g.rows, e)) && "ENDCHAR" <= e.Next().line && e.Next().Next() == z
    requires GoesOn(z.line)
    ensures next < |file.lines| && z == At(file, next) && IsBody(file.lines, at, next, g)
  {
    RowsStep(At(file, at), g.bw, g.bh, g.rows, e);
    LastRow(file, at, g, e);
    EndIs(file, at + g.bh, z);
    RowLines(file, at, g);
    next := at + g.bh + 2;
  }

  lemma EndIs(file: Listing, k: nat, z: Input)
    requires k < |file.lines| && GoodTail(file) && !("ENDCHAR" <= file.lines[k]) && "ENDCHAR" <= At(file, k).Next().line
    requires At(file, k).Next().Next() == z && GoesOn(z.line)
    ensures k + 2 < |file.lines| && z == At(file, k + 2) && "ENDCHAR" <= file.lines[k + 1]
  {
    NextIsLine(file, k, "ENDCHAR", 0);
    NextGoesOn(file, k + 1);
  }

  lemma RowLines(file: Listing, at: nat, g: Glyph)
    requires at + g.bh < |file.lines| && |g.rows| == g.bh
    requires forall i :: 0 <= i < g.bh ==> RowOf(Steps(At(file, at), i + 1).line, g.bw) == Loaded(g.rows[i])
    ensures forall i :: 0 <= i < g.bh ==> RowOf(file.lines[at + 1 + i], g.bw) == Loaded(g.rows[i])
  {
    forall i | 0 <= i < g.bh
      ensures RowOf(file.lines[at + 1 + i], g.bw) == Loaded(g.rows[i])
    {
      StepsAre(file, at, i + 1);
      assert RowOf(Steps(At(file, at), i + 1).line, g.bw) == Loaded(g.rows[i]);
    }
  }

  /** The last row, or the BITMAP line, is a line of the file, and not the end of the character. */
  lemma LastRow(file: Listing, at: nat, g: Glyph, e: Input)
    requires at < |file.lines| && "BITMAP" <= file.lines[at] && e == Steps(At(file, at), g.bh) && "ENDCHAR" <= e.Next().line
    requires |g.rows| == g.bh
    requires forall i :: 0 <= i < g.bh ==> RowOf(Steps(At(file, at), i + 1).line, g.bw) == Loaded(g.rows[i])
    ensures at + g.bh < |file.lines| && e == At(file, at + g.bh) && !("ENDCHAR" <= e.line)
  {
    StepsAre(file, at, g.bh);
    if g.bh == 0 {
      OneWord(file.lines[at], "BITMAP", "ENDCHAR", 0);
    } else {
      assert RowOf(Steps(At(file, at), g.bh - 1 + 1).line, g.bw) == Loaded(g.rows[g.bh - 1]);
      if "ENDCHAR" <= e.line {
        EndIsNoRow(e.line, g.bw);
      }
    }
  }

  lemma CharIs(file: Listing, k: nat, one: seq<Glyph>, z: Input) returns (next: nat, c: Option<Glyph>)
    requires k < |file.lines| && GoodTail(file) && OneGlyph(At(file, k)) == Loaded((one, z)) && GoesOn(z.line)
    ensures next < |file.lines| && z == At(file, next) && IsChar(file.lines, k, next, c) && one == IfDrawn(c)
  {
    match GlyphHead(At(file, k)).value
    case Ignored(y) =>
      next := IgnoredIs(file, k, z);
      c := None;
    case Boxed(bw, bh, y) =>
      var (rows, e) := Rows(y, bw, bh).value;
      HeadIs(file, k, bw, bh, y);
      RowsStep(y, bw, bh, rows, e);
      next := BodyIs(file, BitmapAt(file.lines, k), Glyph(bw, bh, rows), e, z);
      c := Some(Glyph(bw, bh, rows));
  }

  lemma GlyphsGoOn(inp: Input, n: int, glyphs: seq<Glyph>)
    requires Glyphs(inp, n) == Loaded(glyphs)
    ensures 0 <= n && GoesOn(inp.line)
    ensures n == 0 ==> glyphs == [] && "ENDFONT" <= inp.line
    ensures 0 < n ==> OneGlyph(inp).Loaded? && Glyphs(OneGlyph(inp).value.1, n - 1).Loaded?
                      && glyphs == OneGlyph(inp).value.0 + Glyphs(OneGlyph(inp).value.1, n - 1).value
  {
  }

  lemma AreCharsCons(lines: seq<string>, k: nat, c: Option<Glyph>, marks: seq<nat>, chars: seq<Option<Glyph>>)
    requires AreChars(lines, marks, chars) && IsChar(lines, k, marks[0], c)
    ensures AreChars(lines, [k] + marks, [c] + chars) && Drawn([c] + chars) == IfDrawn(c) + Drawn(chars)
  {
    var ms, cs := [k] + marks, [c] + chars;
    forall j | 0 <= j < |cs|
      ensures IsChar(lines, ms[j], ms[j + 1], cs[j])
    {
      if j != 0 {
        assert IsChar(lines, marks[j - 1], marks[j - 1 + 1], chars[j - 1]);
      }
    }
    assert cs[1..] == chars;
  }

  /** The characters that are read can be marked. */
  lemma {:induction false} CharsAre(file: Listing, k: nat, n: int, glyphs: seq<Glyph>) returns (marks: seq<nat>, chars: seq<Option<Glyph>>)
    requires k < |file.lines| && GoodTail(file) && Glyphs(At(file, k), n) == Loaded(glyphs)
    ensures |chars| == n && AreChars(file.lines, marks, chars) && marks[0] == k && Drawn(chars) == glyphs
    ensures Begins(file.lines, marks[|chars|], "ENDFONT")
    decreases n
  {
    GlyphsGoOn(At(file, k), n, glyphs);
    if n == 0 {
      marks, chars := [k], [];
    } else {
      var (one, z) := OneGlyph(At(file, k)).value;
      var more := Glyphs(z, n - 1).value;
      GlyphsGoOn(z, n - 1, more);
      var next, c := CharIs(file, k, one, z);
      var ms, cs := CharsAre(file, next, n - 1, more);
      AreCharsCons(file.lines, k, c, ms, cs);
      marks, chars := [k] + ms, [c] + cs;
    }
  }

  lemma {:induction false} SkipIs(inp: Input, n: int, z: Input)
    requires SkipProperties(inp, n) == (z, 0)
    ensures 0 <= n && z == Steps(inp, n) && forall i :: 0 <= i < n ==> !("ENDPROPERTIES" <= Steps(inp, i).line)
    decreases n
  {
    if 0 < n && !("ENDPROPERTIES" <= inp.line) {
      SkipIs(inp.Next(), n - 1, z);
      StepsOn(inp, n - 1);
      forall i | 0 < i < n
        ensures !("ENDPROPERTIES" <= Steps(inp, i).line)
      {
        StepsOn(inp, i - 1);
      }
    }
  }

  lemma FirstIsLine(file: Listing)
    requires GoodTail(file) && "STARTFONT" <= Before(file).Next().line
    ensures 0 < |file.lines| && Before(file).Next() == At(file, 0)
  {
    if file.lines == [] && file.tail.Some? {
      OneWord(file.tail.value, "STARTFONT", "COMMENT", 0);
    }
  }

  lemma TopIs(file: Listing, name: string, d: Input)
    requires GoodTail(file) && Top(Before(file), name) == Loaded(d) && ("STARTPROPERTIES" <= d.line || "CHARS" <= d.line)
    ensures IsTop(file.lines, name) && 4 < |file.lines| && d == At(file, 4)
  {
    FirstIsLine(file);
    OneWord(file.lines[0], "STARTFONT", "FONT", 0);
    NextIsLine(file, 0, "FONT", 0);
    OneWord(file.lines[1], "FONT", "SIZE", 0);
    NextIsLine(file, 1, "SIZE", 0);
    OneWord(file.lines[2], "SIZE", "FONTBOUNDINGBOX", 0);
    NextIsLine(file, 2, "FONTBOUNDINGBOX", 0);
    OneWord(file.lines[3], "FONTBOUNDINGBOX", "STARTPROPERTIES", 0);
    OneWord(file.lines[3], "FONTBOUNDINGBOX", "CHARS", 0);
    if "CHARS" <= d.line {
      NextIsLine(file, 3, "CHARS", 1);
    } else {
      NextIsLine(file, 3, "STARTPROPERTIES", 0);
    }
  }

  /** The lines that are skipped, when as many are as announced. */
  lemma SkippedLines(file: Listing, n: int, e: Input)
    requires 4 < |file.lines| && GoodTail(file) && SkipProperties(At(file, 4).Next(), n) == (e, 0)
    requires "ENDPROPERTIES" <= e.line && "CHARS" <= e.Next().line
    ensures 0 <= n && n + 6 < |file.lines| && e == At(file, n + 5) && e.Next() == At(file, n + 6)
    ensures forall i :: 5 <= i < n + 5 ==> !("ENDPROPERTIES" <= file.lines[i])
  {
    SkipIs(At(file, 4).Next(), n, e);
    StepsOn(At(file, 4), n);
    StepsAre(file, 4, n + 1);
    OneWord(e.line, "ENDPROPERTIES", "CHARS", 0);
    NextIsLine(file, n + 5, "CHARS", 1);
    forall i | 5 <= i < n + 5
      ensures !("ENDPROPERTIES" <= file.lines[i])
    {
      StepsOn(At(file, 4), i - 5);
      StepsAre(file, 4, i - 4);
    }
  }

  /** Properties, as many as announced, and CHARS behind them. */
  lemma PropertiesAre(file: Listing, z: Input) returns (c: nat)
    requires 4 < |file.lines| && GoodTail(file) && Properties(At(file, 4)) == Loaded(z) && "CHARS" <= z.line
    ensures CharsAt(file.lines, c) && z == At(file, c)
  {
    c := 4;
    if "STARTPROPERTIES" <= file.lines[4] {
      var n := ScanField(file.lines[4], "STARTPROPERTIES").value;
      SkippedLines(file, n, SkipProperties(At(file, 4).Next(), n).0);
      c := n + 6;
    }
  }

  lemma HeaderIs(file: Listing, name: string, z: Input, n: int) returns (c: nat)
    requires GoodTail(file) && Header(Before(file), name) == Loaded((z, n)) && GoesOn(z.line)
    ensures c + 1 < |file.lines| && IsHeader(file.lines, name, c, n) && z == At(file, c + 1)
  {
    var d := Top(Before(file), name).value;
    var e := Properties(d).value;
    TopIs(file, name, d);
    c := PropertiesAre(file, e);
    OneWord(file.lines[c], "CHARS", "STARTCHAR", 0);
    OneWord(file.lines[c], "CHARS", "ENDFONT", 0);
    if "STARTCHAR" <= z.line {
      NextIsLine(file, c, "STARTCHAR", 0);
    } else {
      NextIsLine(file, c, "ENDFONT", 0);
    }
  }

  lemma LinesAreFont(file: Listing, name: string, glyphs: seq<Glyph>)
    requires GoodTail(file) && FontFrom(Before(file), name) == Loaded(glyphs)
    ensures HoldsFont(file.lines, name, glyphs)
  {
    var (z, n) := Header(Before(file), name).value;
    GlyphsGoOn(z, n, glyphs);
    var c := HeaderIs(file, name, z, n);
    var marks, chars := CharsAre(file, c + 1, n, glyphs);
    assert IsFont(file.lines, name, marks, chars);
  }

  lemma HeldIsRead(file: Listing, name: string, glyphs: seq<Glyph>)
    requires HoldsFont(file.lines, name, glyphs)
    ensures FontFrom(Before(file), name) == Loaded(glyphs)
  {
    var marks, chars :| IsFont(file.lines, name, marks, chars) && glyphs == Drawn(chars);
    FontRead(file, name, marks, chars);
  }

  lemma FileIff(file: Listing, name: string, glyphs: seq<Glyph>)
    requires GoodTail(file)
    ensures FontFrom(Before(file), name) == Loaded(glyphs) <==> HoldsFont(file.lines, name, glyphs)
  {
    if HoldsFont(file.lines, name, glyphs) {
      HeldIsRead(file, name, glyphs);
    } else if FontFrom(Before(file), name) == Loaded(glyphs) {
      LinesAreFont(file, name, glyphs);
    }
  }

  /** `load_bdf` finds these glyphs exactly if the lines of the file are a font of this name with these glyphs. */
  lemma FontIff(text: string, name: string, glyphs: seq<Glyph>)
    ensures Font(text, name) == Loaded(glyphs) <==> HoldsFont(List(text, 0).lines, name, glyphs)
  {
    TailSkipped(text, 0);
    FileIff(List(text, 0), name, glyphs);
  }

  /** The lines of the text are a font of this name with these glyphs. */
  ghost predicate FileHolds(text: string, name: string, glyphs: seq<Glyph>) {
    HoldsFont(List(text, 0).lines, name, glyphs)
  }

  ghost predicate IsFontFile(text: string, name: string) {
    exists glyphs :: FileHolds(text, name, glyphs)
  }

  /** A font file is accepted, and it holds one font. */
  lemma FontFile(text: string, name: string)
    ensures Font(text, name).Loaded? <==> IsFontFile(text, name)
    ensures forall glyphs :: FileHolds(text, name, glyphs) ==> Font(text, name) == Loaded(glyphs)
  {
    forall glyphs
      ensures Font(text, name) == Loaded(glyphs) <==> FileHolds(text, name, glyphs)
    {
      FontIff(text, name, glyphs);
    }
    if Font(text, name).Loaded? {
      assert FileHolds(text, name, Font(text, name).value);
    }
  }
}
