/** What a BDF file means to `load_bdf` of loadfont. The glyph pad is 1, as in every call. */
module BdfLoad {
  import opened Bytes
  import opened BdfText
  import opened BdfLines

  datatype Reason =
    | BadStartFont | BadFont | WrongFont | NoSize | NoBox | BadProperties | NoEndProperties | TooFewProperties
    | NoChars | BadChars | InvalidChars | BadName | BadEncoding | EncodingRange | EncodingMax | BadBbx | NegativeBox
    | BadHex | NoBitmap | OddRow | NoEndChar | TooFewChars | TooManyChars | NoEndFont | NoGlyphs

  /** A value, a call of `cfatal`, or a loop that never ends because the file does. */
  datatype Load<+T> = Loaded(value: T) | Fatal(reason: Reason) | Hangs {
    predicate IsFailure() { !Loaded? }
    function PropagateFailure<U>(): Load<U> requires IsFailure() { if Hangs? then Hangs else Fatal(reason) }
    function Extract(): T requires Loaded? { value }
  }

  const MAXENCODING := 0xFFFF

  // ----- the header -----

  /** The loop over properties: stops at ENDPROPERTIES or when `n` lines have gone by. */
  function SkipProperties(inp: Input, n: int): (r: (Input, int))
    decreases if n < 0 then 0 else n
  {
    if 0 < n && !("ENDPROPERTIES" <= inp.line) then SkipProperties(inp.Next(), n - 1) else (inp, n)
  }

  /** `sscanf(line, "lit %d", &n)`. */
  function ScanField(line: string, lit: string): Option<int> {
    match After(line, lit)
    case None => None
    case Some(rest) =>
      match ScanInt(rest)
      case None => None
      case Some((n, _)) => Some(n)
  }

  function Properties(inp: Input): (r: Load<Input>)
  {
    if "STARTPROPERTIES" <= inp.line then
      match ScanField(inp.line, "STARTPROPERTIES")
      case None => Fatal(BadProperties)
      case Some(n) =>
        var (z, left) := SkipProperties(inp.Next(), n);
        if !("ENDPROPERTIES" <= z.line) then Fatal(NoEndProperties)
        else if left != 0 then Fatal(TooFewProperties)
        else Loaded(z.Next())
    else if "CHARS" <= inp.line then Loaded(inp)
    else Fatal(NoChars)
  }

  /** The four lines every file starts with; the reader at the fifth. */
  function Top(inp: Input, name: string): (r: Load<Input>)
  {
    var a := inp.Next();
    var start := After(a.line, "STARTFONT");
    if start.None? || ScanWord(start.value) != Some("2.1") then Fatal(BadStartFont) else
    var b := a.Next();
    var font := After(b.line, "FONT");
    if font.None? || SkipSpace(font.value) == [] then Fatal(BadFont)
    else if SkipSpace(font.value) != name then Fatal(WrongFont) else
    var c := b.Next();
    if !("SIZE" <= c.line) then Fatal(NoSize) else
    var d := c.Next();
    if !("FONTBOUNDINGBOX" <= d.line) then Fatal(NoBox) else Loaded(d.Next())
  }

  /** The lines up to CHARS: the number of glyphs that follow, and the reader at the first of them. */
  function Header(inp: Input, name: string): (r: Load<(Input, int)>)
  {
    var d :- Top(inp, name);
    var e :- Properties(d);
    match ScanField(e.line, "CHARS")
    case None => Fatal(BadChars)
    case Some(n) => if n < 1 then Fatal(InvalidChars) else Loaded((e.Next(), n))
  }

  // ----- a glyph -----

  /** The lines of a character that is not loaded, up to ENDCHAR. */
  function FindEnd(inp: Input): (r: Option<Input>)
    decreases if inp.AtEnd() then 0 else |inp.file.lines| - inp.read
  {
    var z := inp.Next();
    if "ENDCHAR" <= z.line then Some(z)
    else if inp.AtEnd() then None
    else FindEnd(z)
  }

  /** `sscanf(line, "ENCODING %d %d", ...)`, and what the source makes of one or two numbers. */
  function Encoding(line: string): Load<int> {
    match After(line, "ENCODING")
    case None => Fatal(BadEncoding)
    case Some(rest) =>
      match ScanInt(rest)
      case None => Fatal(BadEncoding)
      case Some((enc, rest2)) =>
        var second := ScanInt(rest2);
        if enc < -1 || (second.Some? && second.value.0 < -1) then Fatal(EncodingRange)
        else if second.Some? && enc == -1 then Loaded(second.value.0)
        else Loaded(enc)
  }

  /** The width and height of `sscanf(line, "BBX %d %d %d %d", ...)`. */
  function Box(line: string): Load<(nat, nat)> {
    var s := After(line, "BBX");
    if s.None? then Fatal(BadBbx) else
    var w := ScanInt(s.value);
    if w.None? then Fatal(BadBbx) else
    var h := ScanInt(w.value.1);
    if h.None? then Fatal(BadBbx) else
    var l := ScanInt(h.value.1);
    if l.None? then Fatal(BadBbx)
    else if ScanInt(l.value.1).None? then Fatal(BadBbx)
    else if h.value.0 < 0 || w.value.0 < 0 then Fatal(NegativeBox)
    else Loaded((w.value.0, h.value.0))
  }

  function SkipBlanks(s: string): string {
    if s != [] && (s[0] == ' ' || s[0] == '\t') then SkipBlanks(s[1..]) else s
  }

  /** The optional ATTRIBUTES line: two hex bytes, whose value is not used. */
  function Attributes(inp: Input): (r: Load<Input>)
  {
    if !("ATTRIBUTES" <= inp.line) then Loaded(inp) else
    var p := SkipBlanks(if |inp.line| <= 11 then [] else inp.line[11..]);
    if HexByte(p, 0).None? || HexByte(p, 2).None? then Fatal(BadHex) else Loaded(inp.Next())
  }

  /** What comes before the rows of a character: it is to be ignored, or has a box of `bw` by `bh`. */
  datatype Head = Ignored(next: Input) | Boxed(bw: nat, bh: nat, next: Input)

  /** From behind the encoding to BITMAP. */
  function BoxHead(inp: Input): (r: Load<Head>)
  {
    var b := inp.Next().Next().Next();
    var box :- Box(b.line);
    var c :- Attributes(b.Next());
    if !("BITMAP" <= c.line) then Fatal(NoBitmap) else Loaded(Boxed(box.0, box.1, c))
  }

  function GlyphHead(inp: Input): (r: Load<Head>)
  {
    var name := After(inp.line, "STARTCHAR");
    if name.None? || ScanWord(name.value).None? then Fatal(BadName) else
    var a := inp.Next();
    var enc :- Encoding(a.line);
    if enc == -1 then
      match FindEnd(a)
      case None => Hangs
      case Some(z) => Loaded(Ignored(z.Next()))
    else if MAXENCODING < enc then Fatal(EncodingMax)
    else BoxHead(a)
  }

  // ----- rows -----

  /** The pixels of a row, eight to a byte. */
  datatype Row = Row(bytes: seq<byte>)

  function BytesPerRow(bw: nat): nat { (bw + 7) / 8 }

  /** The least number of bytes with room for the width. */
  lemma BytesPerRowLeast(bw: nat)
    ensures bw <= 8 * BytesPerRow(bw) < bw + 8
  {
  }

  function HexPerRow(bw: nat): nat { if BytesPerRow(bw) == 0 then 1 else BytesPerRow(bw) }

  function Min(a: nat, b: nat): nat { if a < b then a else b }

  /** The first `n` pairs of characters. */
  function HexBytes(line: string, n: nat): (r: Load<seq<byte>>)
    ensures r.Loaded? ==> |r.value| == n
    decreases n
  {
    if n == 0 then Loaded([])
    else
      var front :- HexBytes(line, n - 1);
      match HexByte(line, 2 * (n - 1))
      case None => Fatal(BadHex)
      case Some(b) => Loaded(front + [b])
  }

  /** `b` with its lowest `k` bits cleared. */
  function ClearLow(b: nat, k: nat): (r: nat)
    ensures r <= b
  {
    if k == 0 then b else 2 * ClearLow(b / 2, k - 1)
  }

  /** `b & ~(0xff >> (bw & 7))`: the bits of a row's last byte that lie within the width. */
  function Masked(b: byte, bw: nat): byte {
    if bw % 8 == 0 then b else ClearLow(b, 8 - bw % 8)
  }

  /** The bytes a line has for a row, at most as many as the width takes, cut at the width. */
  function Cut(line: string, bw: nat): (r: Load<seq<byte>>)
    ensures r.Loaded? ==> |r.value| == Min(HexPerRow(bw), |line| / 2)
  {
    var t, hexperrow := |line| / 2, HexPerRow(bw);
    var perrow := Min(hexperrow, t);
    var bytes :- HexBytes(line, perrow);
    if 0 < perrow && hexperrow <= t then Loaded(bytes[..perrow - 1] + [Masked(bytes[perrow - 1], bw)]) else Loaded(bytes)
  }

  /** The bytes of one row, padded with zeroes to what the width takes. */
  function RowOf(line: string, bw: nat): Load<Row> {
    if |line| % 2 == 1 then Fatal(OddRow) else
    var bytes :- Cut(line, bw);
    Loaded(Row(bytes + Zeros(if |bytes| < BytesPerRow(bw) then BytesPerRow(bw) - |bytes| else 0)))
  }

  function Rows(inp: Input, bw: nat, bh: nat): (r: Load<(seq<Row>, Input)>)
    decreases bh
  {
    if bh == 0 then Loaded(([], inp)) else
    var a := inp.Next();
    var row :- RowOf(a.line, bw);
    var (rest, z) :- Rows(a, bw, bh - 1);
    Loaded(([row] + rest, z))
  }

  // ----- the font -----

  datatype Glyph = Glyph(bw: nat, bh: nat, rows: seq<Row>)

  function Flat(rows: seq<Row>): seq<byte> {
    if rows == [] then [] else rows[0].bytes + Flat(rows[1..])
  }

  function Pixels(glyphs: seq<Glyph>): seq<byte> {
    if glyphs == [] then [] else Flat(glyphs[0].rows) + Pixels(glyphs[1..])
  }

  /** The character at `inp`, if it is one to load, and the reader behind it. */
  function OneGlyph(inp: Input): (r: Load<(seq<Glyph>, Input)>)
  {
    var head :- GlyphHead(inp);
    match head
    case Ignored(z) => Loaded(([], z))
    case Boxed(bw, bh, z) =>
      var (rows, e) :- Rows(z, bw, bh);
      var f := e.Next();
      if "ENDCHAR" <= f.line then Loaded(([Glyph(bw, bh, rows)], f.Next())) else Fatal(NoEndChar)
  }

  /** The loaded glyphs from `inp` on, when `n` characters are still expected. */
  function Glyphs(inp: Input, n: int): Load<seq<Glyph>>
    decreases if n < 0 then 0 else n
  {
    if 0 < n && "STARTCHAR" <= inp.line then
      var (one, z) :- OneGlyph(inp);
      var more :- Glyphs(z, n - 1);
      Loaded(one + more)
    else if n != 0 then Fatal(TooFewChars)
    else if "STARTCHAR" <= inp.line then Fatal(TooManyChars)
    else if !("ENDFONT" <= inp.line) then Fatal(NoEndFont)
    else Loaded([])
  }

  function FontFrom(inp: Input, name: string): Load<seq<Glyph>> {
    var (z, n) :- Header(inp, name);
    var glyphs :- Glyphs(z, n);
    if glyphs == [] then Fatal(NoGlyphs) else Loaded(glyphs)
  }

  /** The reader before the first line. */
  function Start(text: string): Input {
    Input(List(text, 0), 0, [])
  }

  /** The glyphs that `load_bdf` finds in a file. */
  function Font(text: string, name: string): Load<seq<Glyph>> {
    FontFrom(Start(text), name)
  }

  // ----- accounting -----

  lemma {:induction false} ClearedBits(b: nat, k: nat, j: nat)
    ensures Bit(ClearLow(b, k), j) == (k <= j && Bit(b, j))
    decreases j
  {
    if k != 0 {
      assert ClearLow(b, k) / 2 == ClearLow(b / 2, k - 1);
      if j != 0 {
        ClearedBits(b / 2, k - 1, j - 1);
      }
    }
  }

  lemma {:induction false} ZeroBits(j: nat)
    ensures !Bit(0, j)
    decreases j
  {
    if j != 0 {
      ZeroBits(j - 1);
    }
  }

  /** Pixel `j` of a row, counted from the left. */
  predicate Pixel(row: Row, j: nat)
    requires j / 8 < |row.bytes|
  {
    Bit(row.bytes[j / 8], 7 - j % 8)
  }

  /** As many bytes as the width takes, and nothing set beyond the width. */
  predicate Clean(row: Row, bw: nat) {
    |row.bytes| == BytesPerRow(bw) && forall j: nat | bw <= j < 8 * |row.bytes| :: !Pixel(row, j)
  }

  /** How many bytes a row takes; one too many for a glyph of no width whose line is not empty. */
  lemma RowLength(line: string, bw: nat)
    requires RowOf(line, bw).Loaded?
    ensures |RowOf(line, bw).value.bytes| == BytesPerRow(bw) <==> 0 < bw || line == []
  {
  }

  /** Such a row: "00" in a glyph of no width takes a byte. */
  lemma NoWidthTakesOne(line: string, bw: nat)
    requires line == "00" && bw == 0
    ensures RowOf(line, bw) == Loaded(Row([0])) && BytesPerRow(bw) == 0
  {
    var perrow := Min(HexPerRow(bw), |line| / 2);
    assert HexByte(line, 2 * (perrow - 1)) == Some(0);
    assert HexBytes(line, perrow - 1) == Loaded([]) && [] + [0] == [0];
    var bytes: seq<byte> := [0];
    assert HexBytes(line, perrow) == Loaded(bytes);
    assert bytes[..perrow - 1] + [Masked(bytes[perrow - 1], bw)] == bytes;
    assert bytes + Zeros(0) == bytes;
  }

  /** A byte of a row is what the line says, cut at the width, or zero where the line is too short. */
  lemma RowByte(line: string, bw: nat, k: nat)
    requires 0 < bw && RowOf(line, bw).Loaded? && k < BytesPerRow(bw)
    ensures |RowOf(line, bw).value.bytes| == BytesPerRow(bw)
    ensures match HexByte(line, 2 * k)
      case None => RowOf(line, bw).value.bytes[k] == 0
      case Some(b) => RowOf(line, bw).value.bytes[k] == if k == BytesPerRow(bw) - 1 then Masked(b, bw) else b
  {
    var perrow := Min(HexPerRow(bw), |line| / 2);
    if k < perrow {
      HexBytesAre(line, perrow, k);
    }
  }

  /** A pixel is set when it lies within the width and the line says so. */
  lemma RowPixel(line: string, bw: nat, j: nat)
    requires 0 < bw && RowOf(line, bw).Loaded? && j < 8 * BytesPerRow(bw)
    ensures |RowOf(line, bw).value.bytes| == BytesPerRow(bw)
    ensures Pixel(RowOf(line, bw).value, j)
        <==> j < bw && HexByte(line, 2 * (j / 8)).Some? && Bit(HexByte(line, 2 * (j / 8)).value, 7 - j % 8)
  {
    var k, i := j / 8, 7 - j % 8;
    RowByte(line, bw, k);
    ZeroBits(i);
    if HexByte(line, 2 * k).Some? && k == BytesPerRow(bw) - 1 && bw % 8 != 0 {
      ClearedBits(HexByte(line, 2 * k).value, 8 - bw % 8, i);
    }
  }

  lemma {:induction false} HexBytesAre(line: string, n: nat, k: nat)
    requires HexBytes(line, n).Loaded? && k < n
    ensures HexByte(line, 2 * k) == Some(HexBytes(line, n).value[k])
    decreases n
  {
    if k < n - 1 {
      HexBytesAre(line, n - 1, k);
    }
  }

  lemma RowIsClean(line: string, bw: nat)
    requires 0 < bw && RowOf(line, bw).Loaded?
    ensures Clean(RowOf(line, bw).value, bw)
  {
    RowLength(line, bw);
    forall j: nat | bw <= j < 8 * BytesPerRow(bw)
      ensures !Pixel(RowOf(line, bw).value, j)
    {
      RowPixel(line, bw, j);
    }
  }

  /** A glyph has as many rows as its box is high, and they are clean if it has a width. */
  predicate WellFormed(g: Glyph) {
    |g.rows| == g.bh && (0 < g.bw ==> forall i :: 0 <= i < g.bh ==> Clean(g.rows[i], g.bw))
  }

  /** Row `i` is made from the `i`-th line that follows. */
  lemma {:induction false} RowsAre(inp: Input, bw: nat, bh: nat, i: nat) returns (line: string)
    requires Rows(inp, bw, bh).Loaded?
    ensures |Rows(inp, bw, bh).value.0| == bh
    ensures i < bh ==> Loaded(Rows(inp, bw, bh).value.0[i]) == RowOf(line, bw)
    decreases bh
  {
    if bh != 0 {
      var a := inp.Next();
      line := RowsAre(a, bw, bh - 1, if i == 0 then 0 else i - 1);
      var row, rest := RowOf(a.line, bw).value, Rows(a, bw, bh - 1).value.0;
      assert Rows(inp, bw, bh).value.0 == [row] + rest;
      if i == 0 {
        line := a.line;
      }
    } else {
      line := [];
    }
  }

  lemma RowsAreClean(inp: Input, bw: nat, bh: nat)
    requires Rows(inp, bw, bh).Loaded?
    ensures WellFormed(Glyph(bw, bh, Rows(inp, bw, bh).value.0))
  {
    var rows := Rows(inp, bw, bh).value.0;
    var _ := RowsAre(inp, bw, bh, 0);
    forall i | 0 < bw && 0 <= i < bh
      ensures Clean(rows[i], bw)
    {
      var line := RowsAre(inp, bw, bh, i);
      RowIsClean(line, bw);
    }
  }

  lemma {:induction false} GlyphsAreWellFormed(inp: Input, n: int)
    requires Glyphs(inp, n).Loaded?
    ensures forall g <- Glyphs(inp, n).value :: WellFormed(g)
    decreases n
  {
    if 0 < n {
      var (one, z) := OneGlyph(inp).value;
      var head := GlyphHead(inp).value;
      if head.Boxed? {
        RowsAreClean(head.next, head.bw, head.bh);
      }
      GlyphsAreWellFormed(z, n - 1);
    }
  }

  /** The sum of `bh * ceil(bw / 8)`. */
  function Room(glyphs: seq<Glyph>): nat {
    if glyphs == [] then 0 else glyphs[0].bh * BytesPerRow(glyphs[0].bw) + Room(glyphs[1..])
  }

  lemma {:induction false} FlatLength(rows: seq<Row>, w: nat)
    requires forall i :: 0 <= i < |rows| ==> |rows[i].bytes| == w
    ensures |Flat(rows)| == |rows| * w
  {
    if rows != [] {
      FlatLength(rows[1..], w);
      assert |rows| * w == w + (|rows| - 1) * w;
    }
  }

  lemma {:induction false} PixelsLength(glyphs: seq<Glyph>)
    requires forall g <- glyphs :: 0 < g.bw && WellFormed(g)
    ensures |Pixels(glyphs)| == Room(glyphs)
  {
    if glyphs != [] {
      assert WellFormed(glyphs[0]);
      FlatLength(glyphs[0].rows, BytesPerRow(glyphs[0].bw));
      PixelsLength(glyphs[1..]);
    }
  }

  /** Of every accepted file whose glyphs have a width, the bytes are accounted for, and no row has a stray bit. */
  lemma FontIsAccounted(text: string, name: string)
    requires Font(text, name).Loaded?
    ensures var glyphs := Font(text, name).value;
      && (forall g <- glyphs :: WellFormed(g))
      && ((forall g <- glyphs :: 0 < g.bw) ==> |Pixels(glyphs)| == Room(glyphs))
  {
    var (inp, n) := Header(Start(text), name).value;
    GlyphsAreWellFormed(inp, n);
    if forall g <- Font(text, name).value :: 0 < g.bw {
      PixelsLength(Font(text, name).value);
    }
  }
}
