/** What stands in the lines that `output_bdf` prints, read independently of how they are printed; and that such lines are a
    font to `load_bdf`. */
module BdfReadBack {
  import opened Bytes
  import opened Numbers
  import opened BdfText
  import opened BdfLines
  import opened BdfLoad
  import opened BdfFile
  import opened BdfPrint

  // ----- every printed line is read as it was printed -----

  predicate Inline(s: string) {
    forall i :: 0 <= i < |s| ==> s[i] != '\n' && s[i] != '\r'
  }

  lemma PlainLine(l: string)
    requires Inline(l) && 1 < |l| <= 78 && (l[0] != 'C' || l[1] != 'O')
    ensures Plain(l)
  {
  }

  lemma {:induction false} DecLength(n: nat, k: nat)
    requires 0 < k && n < Pow10(k)
    ensures |PrintDec(n)| <= k
    decreases k
  {
    if 10 <= n {
      DecLength(n / 10, k - 1);
    }
  }

  /** A number of 32 bits takes at most ten digits. */
  lemma DecPlain(n: nat)
    requires n < 0x1_0000_0000
    ensures 0 < |PrintDec(n)| <= 10 && Inline(PrintDec(n))
  {
    assert Pow10(5) == 100_000;
    assert Pow10(10) == 10_000_000_000;
    DecLength(n, 10);
    assert forall i :: 0 <= i < |PrintDec(n)| ==> PrintDec(n)[i] in PrintDec(n);
  }

  lemma NumPlain(n: nat, rest: string)
    requires n < 0x1_0000_0000 && Inline(rest)
    ensures Inline(Num(n, rest)) && |Num(n, rest)| <= 11 + |rest|
  {
    DecPlain(n);
  }

  lemma FieldPlain(lit: string, n: nat, rest: string)
    requires Inline(lit) && 1 < |lit| <= 15 && (lit[0] != 'C' || lit[1] != 'O')
    requires n < 0x1_0000_0000 && Inline(rest) && |rest| <= 40
    ensures Plain(lit + Num(n, rest))
  {
    NumPlain(n, rest);
    PlainLine(lit + Num(n, rest));
  }

  lemma IntPlain(n: ushort)
    ensures Inline(" " + PrintInt(-(n as int))) && |" " + PrintInt(-(n as int))| <= 12
  {
    DecPlain(n);
  }

  lemma BoxLinePlain(lit: string, f: FontInfo)
    requires Inline(lit) && 1 < |lit| <= 15 && lit[0] != 'C'
    ensures Plain(BoxLine(lit, f))
  {
    var d := " " + PrintInt(-(f.descent as int));
    IntPlain(f.descent);
    NumPlain(0, d);
    NumPlain(f.height, Num(0, d));
    FieldPlain(lit, f.width, Num(f.height, Num(0, d)));
  }

  predicate AllPlain(lines: seq<string>) {
    forall i :: 0 <= i < |lines| ==> Plain(lines[i])
  }

  lemma HeightPlain(f: FontInfo)
    ensures Plain(SizeLines(f)[0])
  {
    FieldPlain("SIZE", f.height, " 75 75");
  }

  lemma BoundsPlain(f: FontInfo)
    ensures Plain(SizeLines(f)[1])
  {
    BoxLinePlain("FONTBOUNDINGBOX", f);
  }

  lemma DescentPlain(f: FontInfo)
    ensures Plain(SizeLines(f)[2]) && Plain(SizeLines(f)[3])
  {
    FieldPlain("STARTPROPERTIES", 3, []);
    FieldPlain("FONT_DESCENT", f.descent, []);
  }

  lemma AscentPlain(f: FontInfo)
    ensures Plain(SizeLines(f)[4])
  {
    FieldPlain("FONT_ASCENT", Ascent(f), []);
  }

  lemma EndPlain(f: FontInfo)
    ensures Plain(SizeLines(f)[5]) && Plain(SizeLines(f)[6])
  {
    FieldPlain("DEFAULT_CHAR", 0, []);
    PlainLine("ENDPROPERTIES");
  }

  lemma SizeLinesPlain(f: FontInfo)
    ensures AllPlain(SizeLines(f))
  {
    HeightPlain(f);
    BoundsPlain(f);
    DescentPlain(f);
    AscentPlain(f);
    EndPlain(f);
  }

  /** A name that the FONT line can carry: at most nine characters by its type, and read back as it stands. */
  predicate GoodName(name: string) {
    name != [] && !IsSpace(name[0]) && name[|name| - 1] != '\r' && forall i :: 0 <= i < |name| ==> name[i] != '\n'
  }

  lemma NamePlain(name: string)
    requires GoodName(name) && |name| <= 9
    ensures Plain(FontLine(name))
  {
    var l := FontLine(name);
    assert l[0] == 'F' && l[|l| - 1] == name[|name| - 1] && forall i :: 5 <= i < |l| ==> l[i] == name[i - 5];
  }

  lemma HeaderPlain(f: FontInfo)
    requires GoodName(f.name) && |f.name| <= 9
    ensures AllPlain(HeaderLines(f))
  {
    SizeLinesPlain(f);
    PlainLine("STARTFONT 2.1");
    NamePlain(f.name);
    FieldPlain("CHARS", f.nchars, []);
  }

  lemma WidthPlain(f: FontInfo)
    ensures Plain("DWIDTH" + Num(f.width, " 0")) && Plain(BoxLine("BBX", f))
  {
    FieldPlain("DWIDTH", f.width, " 0");
    BoxLinePlain("BBX", f);
  }

  lemma CharTopPlain(f: FontInfo, c: ushort)
    ensures AllPlain(CharTop(f, c))
  {
    FieldPlain("ENCODING", c, []);
    PlainLine("SWIDTH 666 0");
    WidthPlain(f);
    PlainLine("BITMAP");
  }

  lemma CharLinesPlain(f: FontInfo, c: ushort, rows: seq<string>)
    requires AllPlain(rows)
    ensures AllPlain(CharLines(f, c, rows))
  {
    CharTopPlain(f, c);
    PlainLine(CharLine(c));
    PlainLine("ENDCHAR");
  }

  lemma PlainAppend(a: seq<string>, b: seq<string>)
    requires AllPlain(a) && AllPlain(b)
    ensures AllPlain(a + b)
  {
  }

  lemma {:induction false} ConcatPlain(parts: seq<seq<string>>)
    requires forall i :: 0 <= i < |parts| ==> AllPlain(parts[i])
    ensures AllPlain(Concat(parts))
  {
    if parts != [] {
      ConcatPlain(parts[1..]);
      PlainAppend(parts[0], Concat(parts[1..]));
    }
  }

  /** Every line of a font is read as it was written, if the rows are. */
  lemma FontPlain(f: FontInfo, rows: seq<string>)
    requires Sized(f, rows) && GoodName(f.name) && |f.name| <= 9 && AllPlain(rows)
    ensures AllPlain(FontText(f, rows))
  {
    HeaderPlain(f);
    var parts := Parts(f, rows);
    forall c | 0 <= c < |parts|
      ensures AllPlain(parts[c])
    {
      TimesFits(c, f.nchars, f.height);
      assert forall i :: 0 <= i < f.height ==> Chunk(f, rows, c)[i] == rows[Times(c, f.height) + i];
      CharLinesPlain(f, c, Chunk(f, rows, c));
    }
    ConcatPlain(parts);
    PlainLine("ENDFONT");
  }

  // ----- what a font says -----

  /** `s` is these numbers, and nothing more. */
  predicate Scans(s: string, ns: seq<int>)
    decreases |ns|
  {
    if ns == [] then s == ""
    else ScanInt(s).Some? && ScanInt(s).value.0 == ns[0] && Scans(ScanInt(s).value.1, ns[1..])
  }

  /** The line is a keyword and these numbers. */
  predicate Says(line: string, word: string, ns: seq<int>) {
    word <= line && Scans(line[|word|..], ns)
  }

  /** The line that starts character `c` names it by its number, in four small hexadecimal digits. */
  predicate NamesChar(line: string, c: ushort) {
    var digits := "0123456789abcdef";
    && |line| == 15 && "STARTCHAR C" <= line
    && line[11] == digits[c / 0x1000] && line[12] == digits[c / 0x100 % 16] && line[13] == digits[c / 0x10 % 16]
    && line[14] == digits[c % 16]
  }

  /** These lines stand from place `k` on. */
  predicate Holds(lines: seq<string>, k: nat, part: seq<string>) {
    k + |part| <= |lines| && forall i :: 0 <= i < |part| ==> lines[k + i] == part[i]
  }

  /** The lines from `k` on say that character `c` has these rows in a box of the font's size, with the descent below. */
  predicate DescribesChar(lines: seq<string>, k: nat, f: FontInfo, c: ushort, rows: seq<string>) {
    && |rows| == f.height && k + 7 + f.height <= |lines|
    && NamesChar(lines[k], c) && Says(lines[k + 1], "ENCODING", [c])
    && Says(lines[k + 2], "SWIDTH", [666, 0]) && Says(lines[k + 3], "DWIDTH", [f.width, 0])
    && Says(lines[k + 4], "BBX", [f.width, f.height, 0, -(f.descent as int)]) && lines[k + 5] == "BITMAP"
    && Holds(lines, k + 6, rows) && lines[k + 6 + f.height] == "ENDCHAR"
  }

  /** The lines before the characters. */
  predicate DescribesFont(lines: seq<string>, f: FontInfo) {
    && 10 < |lines| && lines[0] == "STARTFONT 2.1" && lines[1] == "FONT " + f.name
    && Says(lines[2], "SIZE", [f.height, 75, 75])
    && Says(lines[3], "FONTBOUNDINGBOX", [f.width, f.height, 0, -(f.descent as int)])
    && Says(lines[4], "STARTPROPERTIES", [3]) && Says(lines[5], "FONT_DESCENT", [f.descent])
    && Says(lines[6], "FONT_ASCENT", [(f.height - f.descent) % 0x1_0000_0000]) && Says(lines[7], "DEFAULT_CHAR", [0])
    && lines[8] == "ENDPROPERTIES" && Says(lines[9], "CHARS", [f.nchars])
  }

  /** Where character `c` begins. */
  function CharAt(f: FontInfo, c: nat): nat {
    10 + Times(c, 7 + f.height)
  }

  /** All lines: the font, each character with its rows, and the end. */
  predicate Describes(lines: seq<string>, f: FontInfo, rows: seq<string>)
    requires Sized(f, rows)
  {
    && DescribesFont(lines, f)
    && |lines| == CharAt(f, f.nchars) + 1 && lines[CharAt(f, f.nchars)] == "ENDFONT"
    && forall c :: 0 <= c < f.nchars ==> DescribesChar(lines, CharAt(f, c), f, c, Chunk(f, rows, c))
  }

  // ----- what is scanned from a line -----

  /** A number before a blank or the end. */
  lemma NumBack(n: nat, rest: string)
    requires rest == [] || rest[0] == ' '
    ensures ScanInt(Num(n, rest)) == Some((n, rest))
  {
    assert Num(n, rest) == " " + (PrintDec(n) + rest);
    ScanAfterSpace(PrintDec(n) + rest);
    ScanPrintedNat(n, rest);
  }

  /** One more number in front. */
  lemma ScansNum(n: nat, rest: string, ns: seq<int>)
    requires (rest == [] || rest[0] == ' ') && Scans(rest, ns)
    ensures Scans(Num(n, rest), [n] + ns)
  {
    NumBack(n, rest);
    assert ([n] + ns)[1..] == ns;
  }

  lemma ScansInt(n: int)
    ensures Scans(" " + PrintInt(n), [n])
  {
    ScanAfterSpace(PrintInt(n));
    ScanPrintedInt(n, []);
    assert PrintInt(n) + [] == PrintInt(n);
    assert [n][1..] == [];
  }

  lemma SaysIs(word: string, rest: string, ns: seq<int>)
    requires Scans(rest, ns)
    ensures Says(word + rest, word, ns)
  {
    assert (word + rest)[|word|..] == rest;
  }

  lemma FieldSays(word: string, n: nat)
    ensures Says(word + Num(n, []), word, [n])
  {
    ScansNum(n, [], []);
    assert [n] + [] == [n as int];
    SaysIs(word, Num(n, []), [n]);
  }

  /** Two numbers of which the second is a text. */
  lemma PairSays(word: string, n: nat, rest: string, m: int)
    requires rest != [] && rest[0] == ' ' && Scans(rest, [m])
    ensures Says(word + Num(n, rest), word, [n, m])
  {
    ScansNum(n, rest, [m]);
    assert [n] + [m] == [n as int, m];
    SaysIs(word, Num(n, rest), [n, m]);
  }

  lemma BoxSays(word: string, f: FontInfo)
    ensures Says(BoxLine(word, f), word, [f.width, f.height, 0, -(f.descent as int)])
  {
    var d := -(f.descent as int);
    var last := " " + PrintInt(d);
    ScansInt(d);
    ScansNum(0, last, [d]);
    ScansNum(f.height, Num(0, last), [0] + [d]);
    ScansNum(f.width, Num(f.height, Num(0, last)), [f.height] + ([0] + [d]));
    assert [f.width] + ([f.height] + ([0] + [d])) == [f.width as int, f.height, 0, d];
    SaysIs(word, Num(f.width, Num(f.height, Num(0, last))), [f.width, f.height, 0, d]);
  }

  lemma SizeSays(f: FontInfo)
    ensures Says("SIZE" + Num(f.height, " 75 75"), "SIZE", [f.height, 75, 75])
  {
    var tail := Num(75, []);
    assert PrintDec(75) == PrintDec(7) + "5" == "75";
    assert " 75 75" == Num(75, tail);
    ScansNum(75, [], []);
    ScansNum(75, tail, [75] + []);
    ScansNum(f.height, " 75 75", [75] + ([75] + []));
    assert [f.height] + ([75] + ([75] + [])) == [f.height as int, 75, 75];
    SaysIs("SIZE", Num(f.height, " 75 75"), [f.height, 75, 75]);
  }

  lemma WidthSays(f: FontInfo)
    ensures Says("SWIDTH 666 0", "SWIDTH", [666, 0]) && Says("DWIDTH" + Num(f.width, " 0"), "DWIDTH", [f.width, 0])
  {
    assert " 0" == Num(0, []);
    ScansNum(0, [], []);
    assert [0] + [] == [0 as int];
    assert PrintDec(66) == PrintDec(6) + "6" == "66";
    assert PrintDec(666) == PrintDec(66) + "6" == "666";
    assert "SWIDTH 666 0" == "SWIDTH" + Num(666, " 0");
    PairSays("SWIDTH", 666, " 0", 0);
    PairSays("DWIDTH", f.width, " 0", 0);
  }

  lemma NameSays(c: ushort)
    ensures NamesChar(CharLine(c), c)
  {
    var line, digits := CharLine(c), PrintHex4(c);
    assert line[11..] == digits;
    assert line[11] == digits[0] && line[12] == digits[1] && line[13] == digits[2] && line[14] == digits[3];
    SmallDigit(c / 0x1000);
    SmallDigit(c / 0x100 % 16);
    SmallDigit(c / 0x10 % 16);
    SmallDigit(c % 16);
  }

  lemma SmallDigit(d: nat)
    requires d < 16
    ensures HexDigit(d) == "0123456789abcdef"[d]
  {
  }

  // ----- what is printed says so -----

  lemma HoldsParts(lines: seq<string>, k: nat, a: seq<string>, b: seq<string>)
    requires Holds(lines, k, a + b)
    ensures Holds(lines, k, a) && Holds(lines, k + |a|, b)
  {
    forall i | 0 <= i < |a|
      ensures lines[k + i] == a[i]
    {
      assert lines[k + i] == (a + b)[i];
    }
    forall i | 0 <= i < |b|
      ensures lines[k + |a| + i] == b[i]
    {
      assert lines[k + (|a| + i)] == (a + b)[|a| + i];
    }
  }

  /** The lines of a character, one by one. */
  lemma CharLinesAt(lines: seq<string>, k: nat, first: string, top: seq<string>, rows: seq<string>, last: string)
    requires |top| == 5 && Holds(lines, k, [first] + top + rows + [last])
    ensures k + 7 + |rows| <= |lines| && lines[k] == first && lines[k + 1] == top[0] && lines[k + 2] == top[1]
    ensures lines[k + 3] == top[2] && lines[k + 4] == top[3] && lines[k + 5] == top[4]
    ensures Holds(lines, k + 6, rows) && lines[k + 6 + |rows|] == last
  {
    HoldsParts(lines, k, [first] + top + rows, [last]);
    HoldsParts(lines, k, [first] + top, rows);
    HoldsParts(lines, k, [first], top);
    assert lines[k + 0] == [first][0] && lines[k + 1 + 0] == top[0] && lines[k + 1 + 1] == top[1] && lines[k + 1 + 2] == top[2];
    assert lines[k + 1 + 3] == top[3] && lines[k + 1 + 4] == top[4] && lines[k + (6 + |rows|) + 0] == [last][0];
  }

  /** What the lines before the rows of character `c` say. */
  predicate TopIs(top: seq<string>, f: FontInfo, c: ushort) {
    && |top| == 5 && Says(top[0], "ENCODING", [c]) && Says(top[1], "SWIDTH", [666, 0]) && Says(top[2], "DWIDTH", [f.width, 0])
    && Says(top[3], "BBX", [f.width, f.height, 0, -(f.descent as int)]) && top[4] == "BITMAP"
  }

  lemma TopSays(f: FontInfo, c: ushort)
    ensures TopIs(CharTop(f, c), f, c)
  {
    FieldSays("ENCODING", c);
    WidthSays(f);
    BoxSays("BBX", f);
  }

  lemma LinesDescribe(lines: seq<string>, k: nat, f: FontInfo, c: ushort, rows: seq<string>, first: string, top: seq<string>)
    requires NamesChar(first, c) && TopIs(top, f, c) && |rows| == f.height
    requires Holds(lines, k, [first] + top + rows + ["ENDCHAR"])
    ensures DescribesChar(lines, k, f, c, rows)
  {
    CharLinesAt(lines, k, first, top, rows, "ENDCHAR");
  }

  lemma CharDescribed(lines: seq<string>, k: nat, f: FontInfo, c: ushort, rows: seq<string>)
    requires |rows| == f.height && Holds(lines, k, CharLines(f, c, rows))
    ensures DescribesChar(lines, k, f, c, rows)
  {
    NameSays(c);
    TopSays(f, c);
    LinesDescribe(lines, k, f, c, rows, CharLine(c), CharTop(f, c));
  }

  /** Each part stands where it should, when all have the same length. */
  lemma {:induction false} ConcatHolds(lines: seq<string>, k: nat, parts: seq<seq<string>>, step: nat, i: nat)
    requires Holds(lines, k, Concat(parts)) && i < |parts| && forall j :: 0 <= j < |parts| ==> |parts[j]| == step
    ensures Holds(lines, k + Times(i, step), parts[i])
    decreases i
  {
    HoldsParts(lines, k, parts[0], Concat(parts[1..]));
    if i != 0 {
      ConcatHolds(lines, k + step, parts[1..], step, i - 1);
    }
  }

  lemma {:induction false} ConcatLength(parts: seq<seq<string>>, step: nat)
    requires forall j :: 0 <= j < |parts| ==> |parts[j]| == step
    ensures |Concat(parts)| == Times(|parts|, step)
  {
    if parts != [] {
      ConcatLength(parts[1..], step);
    }
  }

  lemma SizesSay(f: FontInfo)
    ensures Says(SizeLines(f)[0], "SIZE", [f.height, 75, 75])
    ensures Says(SizeLines(f)[1], "FONTBOUNDINGBOX", [f.width, f.height, 0, -(f.descent as int)])
    ensures Says(SizeLines(f)[2], "STARTPROPERTIES", [3]) && Says(SizeLines(f)[3], "FONT_DESCENT", [f.descent])
  {
    SizeSays(f);
    BoxSays("FONTBOUNDINGBOX", f);
    FieldSays("STARTPROPERTIES", 3);
    FieldSays("FONT_DESCENT", f.descent);
  }

  lemma AscentSays(f: FontInfo)
    ensures Says(SizeLines(f)[4], "FONT_ASCENT", [(f.height - f.descent) % 0x1_0000_0000])
    ensures Says(SizeLines(f)[5], "DEFAULT_CHAR", [0])
  {
    assert Ascent(f) == (f.height - f.descent) % 0x1_0000_0000;
    FieldSays("FONT_ASCENT", Ascent(f));
    FieldSays("DEFAULT_CHAR", 0);
  }

  lemma HeaderDescribed(lines: seq<string>, f: FontInfo, header: seq<string>)
    requires header == HeaderLines(f) && Holds(lines, 0, header) && 10 < |lines|
    ensures DescribesFont(lines, f)
  {
    SizesSay(f);
    AscentSays(f);
    FieldSays("CHARS", f.nchars);
    HeaderLinesAt(lines, "STARTFONT 2.1", FontLine(f.name), SizeLines(f), "CHARS" + Num(f.nchars, []));
  }

  lemma HeaderLinesAt(lines: seq<string>, first: string, second: string, sizes: seq<string>, last: string)
    requires |sizes| == 7 && Holds(lines, 0, [first, second] + sizes + [last])
    ensures 10 <= |lines| && lines[0] == first && lines[1] == second && lines[9] == last
    ensures lines[2] == sizes[0] && lines[3] == sizes[1] && lines[4] == sizes[2] && lines[5] == sizes[3]
    ensures lines[6] == sizes[4] && lines[7] == sizes[5] && lines[8] == sizes[6]
  {
    HoldsParts(lines, 0, [first, second] + sizes, [last]);
    HoldsParts(lines, 0, [first, second], sizes);
    assert lines[0 + 0] == [first, second][0] && lines[0 + 1] == [first, second][1] && lines[9 + 0] == [last][0];
    SevenLinesOf(lines, 2, sizes);
  }

  lemma SevenLinesOf(lines: seq<string>, k: nat, part: seq<string>)
    requires Holds(lines, k, part) && |part| == 7
    ensures lines[k] == part[0] && lines[k + 1] == part[1] && lines[k + 2] == part[2] && lines[k + 3] == part[3]
    ensures lines[k + 4] == part[4] && lines[k + 5] == part[5] && lines[k + 6] == part[6]
  {
    assert lines[k + 0] == part[0];
  }

  lemma PartLengths(f: FontInfo, rows: seq<string>, parts: seq<seq<string>>)
    requires Sized(f, rows) && parts == Parts(f, rows)
    ensures forall c :: 0 <= c < |parts| ==> |parts[c]| == 7 + f.height
  {
    forall c | 0 <= c < |parts|
      ensures |parts[c]| == 7 + f.height
    {
      assert parts[c] == CharLines(f, c, Chunk(f, rows, c));
    }
  }

  lemma SectionsAt(header: seq<string>, all: seq<string>, end: string, lines: seq<string>)
    requires lines == header + all + [end]
    ensures Holds(lines, 0, header) && Holds(lines, |header|, all) && lines[|header| + |all|] == end
  {
    assert Holds(lines, 0, header + all);
    HoldsParts(lines, 0, header, all);
  }

  lemma PartDescribed(lines: seq<string>, f: FontInfo, rows: seq<string>, parts: seq<seq<string>>, c: nat)
    requires Sized(f, rows) && parts == Parts(f, rows) && c < f.nchars && Holds(lines, 10, Concat(parts))
    ensures DescribesChar(lines, CharAt(f, c), f, c, Chunk(f, rows, c))
  {
    PartLengths(f, rows, parts);
    ConcatHolds(lines, 10, parts, 7 + f.height, c);
    assert parts[c] == CharLines(f, c, Chunk(f, rows, c));
    CharDescribed(lines, CharAt(f, c), f, c, Chunk(f, rows, c));
  }

  lemma EndDescribed(f: FontInfo, rows: seq<string>, lines: seq<string>, header: seq<string>, parts: seq<seq<string>>, end: string)
    requires Sized(f, rows) && parts == Parts(f, rows) && |header| == 10 && lines == header + Concat(parts) + [end]
    ensures Holds(lines, 0, header) && Holds(lines, 10, Concat(parts))
    ensures |lines| == CharAt(f, f.nchars) + 1 && lines[CharAt(f, f.nchars)] == end
  {
    PartLengths(f, rows, parts);
    ConcatLength(parts, 7 + f.height);
    SectionsAt(header, Concat(parts), end, lines);
  }

  /** The lines that `output_bdf` prints say what the font is, whatever its rows are. */
  lemma TextDescribes(f: FontInfo, rows: seq<string>)
    requires Sized(f, rows)
    ensures Describes(FontText(f, rows), f, rows)
  {
    var lines, header := FontText(f, rows), HeaderLines(f);
    EndDescribed(f, rows, lines, header, Parts(f, rows), "ENDFONT");
    HeaderDescribed(lines, f, header);
    forall c | 0 <= c < f.nchars
      ensures DescribesChar(lines, CharAt(f, c), f, c, Chunk(f, rows, c))
    {
      PartDescribed(lines, f, rows, Parts(f, rows), c);
    }
  }

  // ----- what says so is a font -----

  lemma ScansHead(s: string, n: int, ns: seq<int>)
    requires Scans(s, [n] + ns)
    ensures ScanInt(s).Some? && ScanInt(s).value.0 == n && Scans(ScanInt(s).value.1, ns)
  {
    assert ([n] + ns)[1..] == ns;
  }

  lemma ScansPair(s: string, n: int, m: int)
    requires Scans(s, [n, m])
    ensures ScanInt(s).Some? && ScanInt(s).value.0 == n && Scans(ScanInt(s).value.1, [m])
  {
    assert [n, m] == [n] + [m];
    ScansHead(s, n, [m]);
  }

  lemma ScansOne(s: string, n: int)
    requires Scans(s, [n])
    ensures ScanInt(s) == Some((n, ""))
  {
    assert [n] == [n] + [];
    ScansHead(s, n, []);
  }

  /** One number behind the keyword. */
  lemma EncodingSaid(line: string, n: int)
    requires Says(line, "ENCODING", [n])
    ensures Encoding(line) == if n < -1 then Fatal(EncodingRange) else Loaded(n)
  {
    ScansOne(line[8..], n);
    assert ScanInt("").None?;
  }

  /** With two numbers, the second one counts where the first one is -1. */
  lemma TwoEncodingsSaid(line: string, n: int, m: int)
    requires Says(line, "ENCODING", [n, m])
    ensures Encoding(line) == if n < -1 || m < -1 then Fatal(EncodingRange) else Loaded(if n == -1 then m else n)
  {
    ScansPair(line[8..], n, m);
    ScansOne(ScanInt(line[8..]).value.1, m);
  }

  lemma BoxSaid(line: string, w: int, h: int, l: int, b: int)
    requires Says(line, "BBX", [w, h, l, b])
    ensures Box(line) == if w < 0 || h < 0 then Fatal(NegativeBox) else Loaded((w, h))
  {
    var s := line[3..];
    assert [w, h, l, b] == [w] + [h, l, b] && [h, l, b] == [h] + [l, b];
    ScansHead(s, w, [h, l, b]);
    ScansHead(ScanInt(s).value.1, h, [l, b]);
    ScansPair(ScanInt(ScanInt(s).value.1).value.1, l, b);
    ScansOne(ScanInt(ScanInt(ScanInt(s).value.1).value.1).value.1, b);
  }

  lemma FieldSaid(line: string, word: string, n: int)
    requires Says(line, word, [n])
    ensures ScanField(line, word) == Some(n)
  {
    ScansOne(line[|word|..], n);
  }

  /** Every row can be loaded in a font of width `bw`. */
  ghost predicate Loadable(rows: seq<string>, bw: nat) {
    forall i :: 0 <= i < |rows| ==> RowOf(rows[i], bw).Loaded?
  }

  function RowsOf(rows: seq<string>, bw: nat): (r: seq<Row>)
    requires Loadable(rows, bw)
    ensures |r| == |rows|
  {
    seq(|rows|, i requires 0 <= i < |rows| => RowOf(rows[i], bw).value)
  }

  lemma ChunkLoadable(f: FontInfo, rows: seq<string>, c: nat)
    requires Sized(f, rows) && c < f.nchars && Loadable(rows, f.width)
    ensures Loadable(Chunk(f, rows, c), f.width)
  {
    TimesFits(c, f.nchars, f.height);
    forall i | 0 <= i < f.height
      ensures RowOf(Chunk(f, rows, c)[i], f.width).Loaded?
    {
      assert Chunk(f, rows, c)[i] == rows[Times(c, f.height) + i];
    }
  }

  /** The glyph of character `c`, and all glyphs. */
  function GlyphOf(f: FontInfo, rows: seq<string>, c: nat): Glyph
    requires Sized(f, rows) && c < f.nchars && Loadable(rows, f.width)
  {
    ChunkLoadable(f, rows, c);
    Glyph(f.width, f.height, RowsOf(Chunk(f, rows, c), f.width))
  }

  function GlyphsOf(f: FontInfo, rows: seq<string>): (r: seq<Glyph>)
    requires Sized(f, rows) && Loadable(rows, f.width)
    ensures |r| == f.nchars
  {
    seq(f.nchars, c requires 0 <= c < f.nchars => GlyphOf(f, rows, c))
  }

  lemma NamedIs(line: string, c: ushort)
    requires NamesChar(line, c)
    ensures Named(line)
  {
    var s := line[9..];
    assert line[9] == "STARTCHAR C"[9] && line[10] == "STARTCHAR C"[10];
    assert SkipSpace(s) == SkipSpace(s[1..]) == s[1..];
    assert forall i :: 0 <= i < 9 ==> line[i] == "STARTCHAR C"[i] == "STARTCHAR"[i];
  }

  lemma DescribedHead(lines: seq<string>, k: nat, f: FontInfo, c: ushort, rows: seq<string>)
    requires DescribesChar(lines, k, f, c, rows)
    ensures BitmapAt(lines, k) == k + 5 && IsHead(lines, k, f.width, f.height)
  {
    NamedIs(lines[k], c);
    EncodingSaid(lines[k + 1], c);
    BoxSaid(lines[k + 4], f.width, f.height, 0, -(f.descent as int));
    OneWord(lines[k + 5], "BITMAP", "ATTRIBUTES", 0);
  }

  lemma DescribedBody(lines: seq<string>, at: nat, first: nat, next: nat, rows: seq<string>, g: Glyph)
    requires Loadable(rows, g.bw) && g.rows == RowsOf(rows, g.bw) && |rows| == g.bh && first == at + 1
    requires next == at + g.bh + 2 && next <= |lines| && Holds(lines, first, rows) && lines[next - 1] == "ENDCHAR"
    ensures IsBody(lines, at, next, g)
  {
    forall i | 0 <= i < g.bh
      ensures RowOf(lines[at + 1 + i], g.bw) == Loaded(g.rows[i])
    {
      assert lines[first + i] == rows[i] && RowOf(rows[i], g.bw).Loaded?;
    }
  }

  lemma DescribedEnd(lines: seq<string>, k: nat, f: FontInfo, c: ushort, rows: seq<string>, next: nat)
    requires DescribesChar(lines, k, f, c, rows) && next == k + 7 + f.height
    ensures |rows| == f.height && next <= |lines| && lines[next - 1] == "ENDCHAR" && Holds(lines, k + 6, rows)
  {
  }

  lemma DrawnIs(lines: seq<string>, k: nat, next: nat, g: Glyph)
    requires BitmapAt(lines, k) == k + 5 && IsHead(lines, k, g.bw, g.bh) && IsBody(lines, k + 5, next, g)
    ensures IsDrawn(lines, k, next, g)
  {
  }

  lemma DescribedChar(lines: seq<string>, f: FontInfo, c: ushort, rows: seq<string>, k: nat, next: nat)
    requires Loadable(rows, f.width) && DescribesChar(lines, k, f, c, rows) && next == k + 7 + f.height
    ensures IsDrawn(lines, k, next, Glyph(f.width, f.height, RowsOf(rows, f.width)))
  {
    var g := Glyph(f.width, f.height, RowsOf(rows, f.width));
    DescribedHead(lines, k, f, c, rows);
    DescribedEnd(lines, k, f, c, rows, next);
    DescribedBody(lines, k + 5, k + 6, next, rows, g);
    DrawnIs(lines, k, next, g);
  }

  lemma StartBack()
    ensures "STARTFONT" <= "STARTFONT 2.1" && ScanWord("STARTFONT 2.1"[9..]) == Some("2.1")
  {
    assert "STARTFONT 2.1"[9..] == " 2.1";
    assert SkipSpace(" 2.1") == "2.1";
    assert Word("2.1") == "2.1" by {
      assert Word("1") == "1";
      assert Word(".1") == ".1";
    }
  }

  lemma FontNameBack(name: string)
    requires GoodName(name)
    ensures "FONT" <= FontLine(name) && SkipSpace(FontLine(name)[4..]) == name
  {
    assert FontLine(name)[4..] == " " + name;
    assert (" " + name)[1..] == name;
  }

  lemma DescribedTop(lines: seq<string>, f: FontInfo)
    requires DescribesFont(lines, f) && GoodName(f.name)
    ensures IsTop(lines, f.name)
  {
    StartBack();
    FontNameBack(f.name);
  }

  lemma DescribedCharsAt(lines: seq<string>, f: FontInfo)
    requires DescribesFont(lines, f)
    ensures CharsAt(lines, 9)
  {
    FieldSaid(lines[4], "STARTPROPERTIES", 3);
    OneWord(lines[5], "FONT_DESCENT", "ENDPROPERTIES", 0);
    OneWord(lines[6], "FONT_ASCENT", "ENDPROPERTIES", 0);
    OneWord(lines[7], "DEFAULT_CHAR", "ENDPROPERTIES", 0);
  }

  lemma DescribedHeader(lines: seq<string>, f: FontInfo)
    requires DescribesFont(lines, f) && GoodName(f.name) && f.nchars != 0
    ensures IsHeader(lines, f.name, 9, f.nchars)
  {
    DescribedTop(lines, f);
    DescribedCharsAt(lines, f);
    FieldSaid(lines[9], "CHARS", f.nchars);
  }

  function Somes(glyphs: seq<Glyph>): (r: seq<Option<Glyph>>)
    ensures |r| == |glyphs|
  {
    if glyphs == [] then [] else [Some(glyphs[0])] + Somes(glyphs[1..])
  }

  lemma {:induction false} SomesAre(glyphs: seq<Glyph>)
    ensures Drawn(Somes(glyphs)) == glyphs
    ensures forall i :: 0 <= i < |glyphs| ==> Somes(glyphs)[i] == Some(glyphs[i])
  {
    if glyphs != [] {
      SomesAre(glyphs[1..]);
      assert Somes(glyphs)[1..] == Somes(glyphs[1..]);
    }
  }

  function MarksOf(f: FontInfo): (r: seq<nat>)
    ensures |r| == f.nchars + 1
  {
    seq(f.nchars + 1, c requires 0 <= c => CharAt(f, c))
  }

  lemma NextAt(f: FontInfo, c: nat)
    ensures CharAt(f, c + 1) == CharAt(f, c) + 7 + f.height
  {
  }

  lemma CharIsDrawn(lines: seq<string>, f: FontInfo, rows: seq<string>, c: nat)
    requires Sized(f, rows) && Loadable(rows, f.width) && c < f.nchars
    requires DescribesChar(lines, CharAt(f, c), f, c, Chunk(f, rows, c))
    ensures IsChar(lines, CharAt(f, c), CharAt(f, c + 1), Some(GlyphOf(f, rows, c)))
  {
    ChunkLoadable(f, rows, c);
    NextAt(f, c);
    DescribedChar(lines, f, c, Chunk(f, rows, c), CharAt(f, c), CharAt(f, c + 1));
  }

  lemma DescribedChars(lines: seq<string>, f: FontInfo, rows: seq<string>, marks: seq<nat>, chars: seq<Option<Glyph>>)
    requires Sized(f, rows) && Loadable(rows, f.width) && |marks| == f.nchars + 1 && |chars| == f.nchars
    requires forall c :: 0 <= c < f.nchars ==> DescribesChar(lines, CharAt(f, c), f, c, Chunk(f, rows, c))
    requires forall c :: 0 <= c <= f.nchars ==> marks[c] == CharAt(f, c)
    requires forall c :: 0 <= c < f.nchars ==> chars[c] == Some(GlyphOf(f, rows, c))
    ensures AreChars(lines, marks, chars)
  {
    forall c | 0 <= c < f.nchars
      ensures IsChar(lines, marks[c], marks[c + 1], chars[c])
    {
      CharIsDrawn(lines, f, rows, c);
    }
  }

  lemma AllDescribed(lines: seq<string>, f: FontInfo, rows: seq<string>)
    requires Sized(f, rows) && Loadable(rows, f.width) && Describes(lines, f, rows)
    ensures AreChars(lines, MarksOf(f), Somes(GlyphsOf(f, rows))) && Drawn(Somes(GlyphsOf(f, rows))) == GlyphsOf(f, rows)
    ensures MarksOf(f)[0] == 10 && Begins(lines, MarksOf(f)[f.nchars], "ENDFONT")
  {
    SomesAre(GlyphsOf(f, rows));
    DescribedChars(lines, f, rows, MarksOf(f), Somes(GlyphsOf(f, rows)));
  }

  lemma HoldsIs(lines: seq<string>, name: string, marks: seq<nat>, chars: seq<Option<Glyph>>, glyphs: seq<Glyph>)
    requires AreChars(lines, marks, chars) && Drawn(chars) == glyphs && glyphs != [] && marks[0] == 10
    requires Begins(lines, marks[|chars|], "ENDFONT") && IsHeader(lines, name, 9, |chars|)
    ensures HoldsFont(lines, name, glyphs)
  {
    assert IsFont(lines, name, marks, chars);
  }

  /** Lines that describe a font with rows that can be loaded hold that font. */
  lemma DescribedIsFont(lines: seq<string>, f: FontInfo, rows: seq<string>)
    requires Sized(f, rows) && Loadable(rows, f.width) && Describes(lines, f, rows) && GoodName(f.name) && f.nchars != 0
    ensures HoldsFont(lines, f.name, GlyphsOf(f, rows))
  {
    AllDescribed(lines, f, rows);
    DescribedHeader(lines, f);
    HoldsIs(lines, f.name, MarksOf(f), Somes(GlyphsOf(f, rows)), GlyphsOf(f, rows));
  }
}
