/** `load_bdf` undoes `output_bdf`: which fonts come back, and what comes back of them. */
module BdfRoundTrip {
  import opened Bytes
  import opened BdfText
  import opened BdfLines
  import opened BdfLoad
  import opened BdfFile
  import opened BdfPrint
  import opened BdfReadBack
  import BdfLoader

  // ----- rows that spell bytes -----

  /** The row is a byte in two hexadecimal digits, capital or small. */
  predicate RowSays(line: string, b: byte) {
    |line| == 2 && HexByte(line, 0) == Some(b)
  }

  /** The rows are the bytes of the bitmap, one by one. */
  predicate Spells(rows: seq<string>, bitmap: seq<byte>) {
    |rows| == |bitmap| && forall i :: 0 <= i < |bitmap| ==> RowSays(rows[i], bitmap[i])
  }

  /** A row for each byte, in these sixteen digits. */
  function DigitLines(bitmap: seq<byte>, digits: string): (r: seq<string>)
    requires |digits| == 16
    ensures |r| == |bitmap|
  {
    seq(|bitmap|, i requires 0 <= i < |bitmap| => [digits[bitmap[i] / 16], digits[bitmap[i] % 16]])
  }

  /** What is printed are small digits, and these spell the bitmap, */
  lemma SmallSpell(bitmap: seq<byte>)
    ensures HexLines(bitmap) == DigitLines(bitmap, "0123456789abcdef") && Spells(HexLines(bitmap), bitmap)
  {
    forall i | 0 <= i < |bitmap|
      ensures HexLines(bitmap)[i] == DigitLines(bitmap, "0123456789abcdef")[i] && RowSays(HexLines(bitmap)[i], bitmap[i])
    {
      SmallDigit(bitmap[i] / 16);
      SmallDigit(bitmap[i] % 16);
      HexByteBack(bitmap[i]);
    }
  }

  /** but so do capital ones. */
  lemma CapitalsSpell(bitmap: seq<byte>)
    ensures Spells(DigitLines(bitmap, "0123456789ABCDEF"), bitmap)
  {
    forall i | 0 <= i < |bitmap|
      ensures RowSays(DigitLines(bitmap, "0123456789ABCDEF")[i], bitmap[i])
    {
      HexDigitsAre(bitmap[i] / 16);
      HexDigitsAre(bitmap[i] % 16);
    }
  }

  lemma SpelledPlain(line: string, b: byte)
    requires RowSays(line, b)
    ensures Plain(line)
  {
    PlainLine(line);
  }

  /** What becomes of a row that was printed as one byte, in a font of width `bw`. */
  function RowBack(b: byte, bw: nat): Row {
    Row([if bw <= 8 then Masked(b, bw) else b] + Zeros(if 1 < BytesPerRow(bw) then BytesPerRow(bw) - 1 else 0))
  }

  lemma OneHexByte(line: string, b: byte, n: nat)
    requires n == 1 && HexByte(line, 0) == Some(b)
    ensures HexBytes(line, n) == Loaded([b])
  {
    assert HexBytes(line, n - 1) == Loaded([]) && [] + [b] == [b];
  }

  lemma CutIsBack(line: string, b: byte, bw: nat)
    requires RowSays(line, b)
    ensures Cut(line, bw) == Loaded([if bw <= 8 then Masked(b, bw) else b])
  {
    var perrow := Min(HexPerRow(bw), |line| / 2);
    OneHexByte(line, b, perrow);
    assert [b][..perrow - 1] + [Masked(b, bw)] == [Masked(b, bw)];
  }

  /** A row that is printed as one byte is read as that byte, cut at the width and padded to it. */
  lemma RowIsBack(line: string, b: byte, bw: nat)
    requires RowSays(line, b)
    ensures RowOf(line, bw) == Loaded(RowBack(b, bw))
  {
    CutIsBack(line, b, bw);
  }

  /** The rows that come back of these bytes. */
  function RowsBack(bytes: seq<byte>, bw: nat): (r: seq<Row>)
    ensures |r| == |bytes|
  {
    if bytes == [] then [] else [RowBack(bytes[0], bw)] + RowsBack(bytes[1..], bw)
  }

  lemma {:induction false} RowsSpelled(rows: seq<string>, bytes: seq<byte>, bw: nat)
    requires Spells(rows, bytes)
    ensures Loadable(rows, bw) && RowsOf(rows, bw) == RowsBack(bytes, bw)
    decreases |bytes|
  {
    if bytes != [] {
      RowIsBack(rows[0], bytes[0], bw);
      RowsSpelled(rows[1..], bytes[1..], bw);
      forall i | 0 < i < |rows|
        ensures RowOf(rows[i], bw) == Loaded(RowsBack(bytes, bw)[i])
      {
        assert RowsOf(rows[1..], bw)[i - 1] == RowOf(rows[1..][i - 1], bw).value;
        assert RowOf(rows[1..][i - 1], bw).Loaded?;
      }
    }
  }

  /** The glyph that comes back for character `c`, and all glyphs. */
  function GlyphBack(f: FontInfo, bitmap: seq<byte>, c: nat): Glyph
    requires Sized(f, bitmap) && c < f.nchars
  {
    Glyph(f.width, f.height, RowsBack(Chunk(f, bitmap, c), f.width))
  }

  function GlyphsBack(f: FontInfo, bitmap: seq<byte>): (r: seq<Glyph>)
    requires Sized(f, bitmap)
    ensures |r| == f.nchars
  {
    seq(f.nchars, c requires 0 <= c < f.nchars => GlyphBack(f, bitmap, c))
  }

  lemma ChunkSpelled(f: FontInfo, rows: seq<string>, bitmap: seq<byte>, c: nat)
    requires Sized(f, bitmap) && Sized(f, rows) && Spells(rows, bitmap) && c < f.nchars
    ensures Spells(Chunk(f, rows, c), Chunk(f, bitmap, c))
  {
    TimesFits(c, f.nchars, f.height);
    var p := Times(c, f.height);
    forall i | 0 <= i < f.height
      ensures RowSays(Chunk(f, rows, c)[i], Chunk(f, bitmap, c)[i])
    {
      assert RowSays(rows[p + i], bitmap[p + i]);
    }
  }

  lemma GlyphsSpelled(f: FontInfo, rows: seq<string>, bitmap: seq<byte>)
    requires Sized(f, bitmap) && Spells(rows, bitmap)
    ensures Loadable(rows, f.width) && GlyphsOf(f, rows) == GlyphsBack(f, bitmap)
  {
    RowsSpelled(rows, bitmap, f.width);
    forall c | 0 <= c < f.nchars
      ensures GlyphOf(f, rows, c) == GlyphBack(f, bitmap, c)
    {
      ChunkSpelled(f, rows, bitmap, c);
      RowsSpelled(Chunk(f, rows, c), Chunk(f, bitmap, c), f.width);
    }
  }

  // ----- the lines of a font are read as its glyphs -----

  /** A file of this form is loaded, whatever its rows are, if they can be. */
  lemma TextBack(f: FontInfo, rows: seq<string>)
    requires Sized(f, rows) && AllPlain(rows) && Loadable(rows, f.width)
    requires |f.name| <= 9 && GoodName(f.name) && f.nchars != 0
    ensures Font(Join(FontText(f, rows)), f.name) == Loaded(GlyphsOf(f, rows))
  {
    var lines := FontText(f, rows);
    FontPlain(f, rows);
    ListJoined(lines);
    TextDescribes(f, rows);
    DescribedIsFont(lines, f, rows);
    FontIff(Join(lines), f.name, GlyphsOf(f, rows));
  }

  lemma SpelledAllPlain(rows: seq<string>, bitmap: seq<byte>)
    requires Spells(rows, bitmap)
    ensures AllPlain(rows)
  {
    forall i | 0 <= i < |rows|
      ensures Plain(rows[i])
    {
      SpelledPlain(rows[i], bitmap[i]);
    }
  }

  /** A printed file is loaded as the glyphs that were printed, in small or capital letters. */
  lemma FontBack(f: FontInfo, rows: seq<string>, bitmap: seq<byte>)
    requires Sized(f, bitmap) && Spells(rows, bitmap) && |f.name| <= 9 && GoodName(f.name) && f.nchars != 0
    ensures Font(Join(FontText(f, rows)), f.name) == Loaded(GlyphsBack(f, bitmap))
  {
    SpelledAllPlain(rows, bitmap);
    GlyphsSpelled(f, rows, bitmap);
    TextBack(f, rows);
  }

  // ----- the bitmap -----

  lemma {:induction false} RowsBackAppend(a: seq<byte>, b: seq<byte>, bw: nat)
    ensures RowsBack(a + b, bw) == RowsBack(a, bw) + RowsBack(b, bw)
  {
    if a == [] {
      assert a + b == b;
    } else {
      assert (a + b)[0] == a[0] && (a + b)[1..] == a[1..] + b;
      RowsBackAppend(a[1..], b, bw);
    }
  }

  lemma {:induction false} FlatAppend(a: seq<Row>, b: seq<Row>)
    ensures Flat(a + b) == Flat(a) + Flat(b)
  {
    if a == [] {
      assert a + b == b;
    } else {
      assert (a + b)[0] == a[0] && (a + b)[1..] == a[1..] + b;
      FlatAppend(a[1..], b);
    }
  }

  /** What comes back of a bitmap: every byte as a row of its own. */
  function Restored(bitmap: seq<byte>, bw: nat): seq<byte> {
    Flat(RowsBack(bitmap, bw))
  }

  lemma RestoredAppend(a: seq<byte>, b: seq<byte>, bw: nat)
    ensures Restored(a + b, bw) == Restored(a, bw) + Restored(b, bw)
  {
    RowsBackAppend(a, b, bw);
    FlatAppend(RowsBack(a, bw), RowsBack(b, bw));
  }

  lemma {:induction false} PixelsBack(f: FontInfo, bitmap: seq<byte>, c: nat)
    requires Sized(f, bitmap) && c <= f.nchars
    ensures Times(c, f.height) <= |bitmap|
    ensures Pixels(GlyphsBack(f, bitmap)[..c]) == Restored(bitmap[..Times(c, f.height)], f.width)
    decreases c
  {
    if c != 0 {
      PixelsBack(f, bitmap, c - 1);
      TimesFits(c - 1, f.nchars, f.height);
      var glyphs, p := GlyphsBack(f, bitmap), Times(c - 1, f.height);
      assert glyphs[..c] == glyphs[..c - 1] + [GlyphBack(f, bitmap, c - 1)];
      BdfLoader.PixelsAppend(glyphs[..c - 1], [GlyphBack(f, bitmap, c - 1)]);
      BdfLoader.PixelsOfOne(GlyphBack(f, bitmap, c - 1));
      assert bitmap[..p + f.height] == bitmap[..p] + Chunk(f, bitmap, c - 1);
      RestoredAppend(bitmap[..p], Chunk(f, bitmap, c - 1), f.width);
    }
  }

  /** A font whose rows fit the one byte that is printed for each: no bit beyond the width. */
  predicate Printable(bitmap: seq<byte>, bw: nat) {
    bw == 0 || bitmap == [] || (bw <= 8 && forall b <- bitmap :: Masked(b, bw) == b)
  }

  lemma {:induction false} RestoredLength(bitmap: seq<byte>, bw: nat)
    ensures |Restored(bitmap, bw)| >= |bitmap| && (8 < bw && bitmap != [] ==> |Restored(bitmap, bw)| > |bitmap|)
  {
    if bitmap != [] {
      RestoredLength(bitmap[1..], bw);
    }
  }

  lemma {:induction false} RestoredNarrow(bitmap: seq<byte>, bw: nat)
    requires bw <= 8
    ensures Restored(bitmap, bw) == seq(|bitmap|, i requires 0 <= i < |bitmap| => Masked(bitmap[i], bw))
  {
    if bitmap != [] {
      assert RowBack(bitmap[0], bw).bytes == [Masked(bitmap[0], bw)];
      RestoredNarrow(bitmap[1..], bw);
    }
  }

  lemma RestoredIff(bitmap: seq<byte>, bw: nat)
    ensures Restored(bitmap, bw) == bitmap <==> Printable(bitmap, bw)
  {
    RestoredLength(bitmap, bw);
    if bw <= 8 {
      RestoredNarrow(bitmap, bw);
      if Restored(bitmap, bw) == bitmap {
        forall b | b in bitmap
          ensures Masked(b, bw) == b
        {
          var i :| 0 <= i < |bitmap| && bitmap[i] == b;
          assert Restored(bitmap, bw)[i] == Masked(bitmap[i], bw);
        }
      }
    }
  }

  // ----- names that cannot be read back -----

  /** Where the first newline of `name` is, or its end. */
  function LineEnd(name: string, from: nat): (j: nat)
    requires from <= |name|
    ensures from <= j <= |name| && (forall i :: from <= i < j ==> name[i] != '\n') && (j < |name| ==> name[j] == '\n')
    decreases |name| - from
  {
    if from == |name| || name[from] == '\n' then from else LineEnd(name, from + 1)
  }

  lemma SkipSpaceShort(s: string)
    requires s != [] && IsSpace(s[0])
    ensures |SkipSpace(s)| <= |s| - 1
  {
    assert |SkipSpace(s[1..])| <= |s[1..]|;
  }

  /** What is read of a FONT line whose name ends at `j`. */
  function NameLine(name: string, j: nat): string
    requires j <= |name|
  {
    Strip("FONT " + name[..j] + "\n")
  }

  /** Only a good name is read back as it was printed. */
  lemma NameBackOnly(name: string, j: nat)
    requires j == LineEnd(name, 0) && !GoodName(name)
    ensures !Skipped(NameLine(name, j))
    ensures var line := NameLine(name, j); 4 <= |line| && (SkipSpace(line[4..]) == [] || SkipSpace(line[4..]) != name)
  {
    var l, cut := NameLine(name, j), if 0 < j && name[j - 1] == '\r' then j - 1 else j;
    var s := "FONT " + name[..j] + "\n";
    assert s[|s| - 1] == '\n' && s[..|s| - 1] == "FONT " + name[..j];
    assert l == "FONT " + name[..cut];
    var rest := " " + name[..cut];
    assert l[4..] == rest;
    SkipSpaceShort(rest);
  }

  /** The line that ends at the first newline of the name. */
  lemma NameCut(text: string, pos: nat, name: string, j: nat)
    requires LineAt(text, pos, FontLine(name)) && j == LineEnd(name, 0)
    ensures pos + 5 + j < |text| && text[pos + 5 + j] == '\n' && forall i :: pos <= i < pos + 5 + j ==> text[i] != '\n'
    ensures text[pos..pos + 5 + j + 1] == "FONT " + name[..j] + "\n"
  {
    var l := FontLine(name);
    assert forall i :: 5 <= i < |l| ==> l[i] == name[i - 5];
    assert forall i :: 0 <= i < 5 ==> l[i] == "FONT "[i] != '\n';
    assert j < |name| ==> text[pos + (5 + j)] == l[5 + j] == name[j];
    assert j == |name| ==> |l| == 5 + j;
    forall i | pos <= i < pos + 5 + j
      ensures text[i] == l[i - pos] != '\n'
    {
      assert text[pos + (i - pos)] == l[i - pos];
    }
  }

  /** Where a FONT line stands, a cut one is listed. */
  lemma NameListed(text: string, pos: nat, name: string, j: nat)
    requires LineAt(text, pos, FontLine(name)) && |name| <= 9 && j == LineEnd(name, 0) && !Skipped(NameLine(name, j))
    ensures List(text, pos).lines != [] && List(text, pos).lines[0] == NameLine(name, j)
  {
    NameCut(text, pos, name, j);
    ChunkIsLine(text, pos, pos + 5 + j, pos + 79);
    ListStep(text, pos, pos + 5 + j + 1, NameLine(name, j));
  }

  /** The two lines a printed file begins with. */
  lemma FirstLines(f: FontInfo, rows: seq<string>, text: string)
    requires Sized(f, rows) && text == Join(FontText(f, rows))
    ensures LineAt(text, 0, "STARTFONT 2.1") && LineAt(text, 14, FontLine(f.name))
  {
    var lines := FontText(f, rows);
    assert lines[0] == "STARTFONT 2.1" && lines[1] == FontLine(f.name);
    assert [] + text == text;
    JoinedLines(text, [], lines);
    assert LinesAt(text, 0, lines) && LinesAt(text, 14, lines[1..]);
    assert lines[1..][0] == lines[1];
  }

  lemma FirstTwo(all: Listing, l: string, rest: Listing, second: string)
    requires all == Listing([l] + rest.lines, rest.tail) && rest.lines != [] && rest.lines[0] == second
    ensures 2 <= |all.lines| && all.lines[0] == l && all.lines[1] == second
  {
  }

  lemma FirstListed(text: string, pos: nat, l: string, next: nat, name: string, j: nat)
    requires Plain(l) && LineAt(text, pos, l) && next == pos + |l| + 1 && LineAt(text, next, FontLine(name))
    requires |name| <= 9 && j == LineEnd(name, 0) && !Skipped(NameLine(name, j))
    ensures var lines := List(text, pos).lines; 2 <= |lines| && lines[0] == l && lines[1] == NameLine(name, j)
  {
    ListLine(text, pos, l);
    NameListed(text, next, name, j);
    FirstTwo(List(text, pos), l, List(text, next), NameLine(name, j));
  }

  lemma BadNameListed(f: FontInfo, rows: seq<string>, text: string, j: nat, l: string)
    requires Sized(f, rows) && |f.name| <= 9 && text == Join(FontText(f, rows)) && l == "STARTFONT 2.1"
    requires j == LineEnd(f.name, 0) && !Skipped(NameLine(f.name, j))
    ensures var lines := List(text, 0).lines; 2 <= |lines| && lines[1] == NameLine(f.name, j)
  {
    FirstLines(f, rows, text);
    PlainLine(l);
    FirstListed(text, 0, l, 14, f.name, j);
  }

  lemma BadTop(lines: seq<string>, name: string, line: string)
    requires 2 <= |lines| && lines[1] == line && 4 <= |line| && (SkipSpace(line[4..]) == [] || SkipSpace(line[4..]) != name)
    ensures !IsTop(lines, name)
  {
  }

  /** Without that no glyphs are found. */
  lemma NoFont(text: string, name: string)
    requires forall glyphs :: !HoldsFont(List(text, 0).lines, name, glyphs)
    ensures !Font(text, name).Loaded?
  {
    if Font(text, name).Loaded? {
      FontIff(text, name, Font(text, name).value);
    }
  }

  lemma BadNameRefused(f: FontInfo, rows: seq<string>)
    requires Sized(f, rows) && |f.name| <= 9 && !GoodName(f.name)
    ensures !Font(Join(FontText(f, rows)), f.name).Loaded?
  {
    var text, j := Join(FontText(f, rows)), LineEnd(f.name, 0);
    NameBackOnly(f.name, j);
    BadNameListed(f, rows, text, j, "STARTFONT 2.1");
    BadTop(List(text, 0).lines, f.name, NameLine(f.name, j));
    NoFont(text, f.name);
  }

  // ----- the round trip -----

  lemma NoCharacters(lines: seq<string>, f: FontInfo, glyphs: seq<Glyph>)
    requires DescribesFont(lines, f) && f.nchars == 0
    ensures !HoldsFont(lines, f.name, glyphs)
  {
    if HoldsFont(lines, f.name, glyphs) {
      var marks, chars :| IsFont(lines, f.name, marks, chars) && glyphs == Drawn(chars);
      FieldSaid(lines[4], "STARTPROPERTIES", 3);
      FieldSaid(lines[9], "CHARS", 0);
      OneWord(lines[4], "STARTPROPERTIES", "CHARS", 0);
    }
  }

  lemma EmptyRefused(f: FontInfo, rows: seq<string>)
    requires Sized(f, rows) && AllPlain(rows) && |f.name| <= 9 && GoodName(f.name) && f.nchars == 0
    ensures !Font(Join(FontText(f, rows)), f.name).Loaded?
  {
    var lines := FontText(f, rows);
    FontPlain(f, rows);
    ListJoined(lines);
    TextDescribes(f, rows);
    forall glyphs
      ensures !HoldsFont(lines, f.name, glyphs)
    {
      NoCharacters(lines, f, glyphs);
    }
    NoFont(Join(lines), f.name);
  }

  /** `load_bdf` accepts what `output_bdf` prints exactly if there is a character and the name can be read back. */
  lemma AcceptedIff(f: FontInfo, rows: seq<string>, bitmap: seq<byte>)
    requires Sized(f, bitmap) && Spells(rows, bitmap) && |f.name| <= 9
    ensures Font(Join(FontText(f, rows)), f.name).Loaded? <==> f.nchars != 0 && GoodName(f.name)
  {
    if !GoodName(f.name) {
      BadNameRefused(f, rows);
    } else if f.nchars == 0 {
      SpelledAllPlain(rows, bitmap);
      EmptyRefused(f, rows);
    } else {
      FontBack(f, rows, bitmap);
    }
  }

  /** What comes back is the bitmap exactly if every row fits the byte that is printed for it, whether the rows are
      written in small or in capital letters. */
  lemma RoundTrip(f: FontInfo, rows: seq<string>, bitmap: seq<byte>)
    requires Sized(f, bitmap) && Spells(rows, bitmap) && |f.name| <= 9 && GoodName(f.name) && f.nchars != 0
    ensures var font := Font(Join(FontText(f, rows)), f.name);
      && font.Loaded? && |font.value| == f.nchars && Pixels(font.value) == Restored(bitmap, f.width)
      && (Pixels(font.value) == bitmap <==> Printable(bitmap, f.width))
  {
    FontBack(f, rows, bitmap);
    PixelsBack(f, bitmap, f.nchars);
    assert GlyphsBack(f, bitmap)[..f.nchars] == GlyphsBack(f, bitmap) && bitmap[..|bitmap|] == bitmap;
    RestoredIff(bitmap, f.width);
  }

  /** `load_bdf` on a file that is printed with these rows: the same bitmap comes of all rows that spell it, in small or
      in capital letters. */
  method LoadText(text: string, f: FontInfo, ghost rows: seq<string>, ghost bitmap: seq<byte>) returns (r: Load<seq<byte>>)
    requires Sized(f, bitmap) && Spells(rows, bitmap) && |f.name| <= 9 && text == Join(FontText(f, rows))
    ensures r.Loaded? <==> f.nchars != 0 && GoodName(f.name)
    ensures r.Loaded? ==> r.value == Restored(bitmap, f.width) && (r.value == bitmap <==> Printable(bitmap, f.width))
    ensures r.Loaded? && f.width == 8 ==> r.value == bitmap
  {
    r := BdfLoader.LoadBdf(text, f.name);
    AcceptedIff(f, rows, bitmap);
    if r.Loaded? {
      RoundTrip(f, rows, bitmap);
    }
  }

  /** The text is lines that describe the font, with a row for each byte of the bitmap, in small digits. */
  ghost predicate Prints(text: string, f: FontInfo, bitmap: seq<byte>)
    requires Sized(f, bitmap)
  {
    exists lines :: text == Join(lines) && Describes(lines, f, DigitLines(bitmap, "0123456789abcdef"))
  }

  /** `output_bdf`, and `load_bdf` on what it printed. */
  method PrintAndLoad(bitmap: seq<byte>, f: FontInfo) returns (text: string, r: Load<seq<byte>>)
    requires |bitmap| == f.nchars * f.height && |f.name| <= 9
    ensures Sized(f, bitmap) && Prints(text, f, bitmap)
    ensures r.Loaded? <==> f.nchars != 0 && GoodName(f.name)
    ensures r.Loaded? ==> (r.value == bitmap <==> Printable(bitmap, f.width))
    ensures r.Loaded? && f.width == 8 ==> r.value == bitmap
  {
    text := OutputBdf(bitmap, f);
    SmallSpell(bitmap);
    TextDescribes(f, HexLines(bitmap));
    r := LoadText(text, f, HexLines(bitmap), bitmap);
  }
}
