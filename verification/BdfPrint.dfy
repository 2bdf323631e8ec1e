/** `output_bdf` of loadfont: the lines of the file it prints, and the loops that print them. */
module BdfPrint {
  import opened Bytes
  import opened BdfText
  import opened BdfLines

  /** What both directions use of a `font_t`. */
  datatype FontInfo = FontInfo(name: string, width: ushort, height: ushort, descent: ushort, nchars: ushort)

  /** A blank, `%u`, and what follows. */
  function Num(n: nat, rest: string): string {
    " " + PrintDec(n) + rest
  }

  /** `%u %u 0 %d` of the box. */
  function BoxLine(lit: string, f: FontInfo): string {
    lit + Num(f.width, Num(f.height, Num(0, " " + PrintInt(-(f.descent as int)))))
  }

  function FontLine(name: string): string {
    "FONT " + name
  }

  /** The ascent; `%u` takes a negative one modulo 2^32. */
  function Ascent(f: FontInfo): (r: nat)
    ensures r < 0x1_0000_0000
  {
    if f.descent <= f.height then f.height - f.descent else 0x1_0000_0000 + f.height - f.descent
  }

  /** The lines between the name of the font and the number of characters. */
  function SizeLines(f: FontInfo): seq<string> {
    [ "SIZE" + Num(f.height, " 75 75"),
      BoxLine("FONTBOUNDINGBOX", f),
      "STARTPROPERTIES" + Num(3, []),
      "FONT_DESCENT" + Num(f.descent, []),
      "FONT_ASCENT" + Num(Ascent(f), []),
      "DEFAULT_CHAR" + Num(0, []),
      "ENDPROPERTIES"]
  }

  function HeaderLines(f: FontInfo): seq<string> {
    ["STARTFONT 2.1", FontLine(f.name)] + SizeLines(f) + ["CHARS" + Num(f.nchars, [])]
  }

  /** The lines of character `c` before its rows, the first one apart. */
  function CharTop(f: FontInfo, c: ushort): seq<string> {
    [ "ENCODING" + Num(c, []),
      "SWIDTH 666 0",
      "DWIDTH" + Num(f.width, " 0"),
      BoxLine("BBX", f),
      "BITMAP"]
  }

  function CharLine(c: ushort): string {
    "STARTCHAR C" + PrintHex4(c)
  }

  /** One line for each byte. */
  function HexLines(bytes: seq<byte>): (r: seq<string>)
    ensures |r| == |bytes|
  {
    seq(|bytes|, i requires 0 <= i < |bytes| => PrintHexByte(bytes[i]))
  }

  function CharLines(f: FontInfo, c: ushort, rows: seq<string>): seq<string> {
    [CharLine(c)] + CharTop(f, c) + rows + ["ENDCHAR"]
  }

  /** `n * h`, as the loops count it. */
  function Times(n: nat, h: nat): nat {
    if n == 0 then 0 else h + Times(n - 1, h)
  }

  lemma {:induction false} TimesIs(n: nat, h: nat)
    ensures Times(n, h) == n * h
  {
    if n != 0 {
      TimesIs(n - 1, h);
    }
  }

  lemma {:induction false} TimesFits(c: nat, n: nat, h: nat)
    requires c < n
    ensures Times(c, h) + h <= Times(n, h)
    decreases n
  {
    if c < n - 1 {
      TimesFits(c, n - 1, h);
    }
  }

  /** A font has `height` bytes, or rows, for each character. */
  predicate Sized<T>(f: FontInfo, items: seq<T>) {
    |items| == Times(f.nchars, f.height)
  }

  /** Those of character `c`. */
  function Chunk<T>(f: FontInfo, items: seq<T>, c: nat): (r: seq<T>)
    requires Sized(f, items) && c < f.nchars
    ensures |r| == f.height
  {
    TimesFits(c, f.nchars, f.height);
    items[Times(c, f.height)..Times(c, f.height) + f.height]
  }

  /** The lines of each character. */
  function Parts(f: FontInfo, rows: seq<string>): (r: seq<seq<string>>)
    requires Sized(f, rows)
    ensures |r| == f.nchars
  {
    seq(f.nchars, c requires 0 <= c < f.nchars => CharLines(f, c, Chunk(f, rows, c)))
  }

  function Concat(parts: seq<seq<string>>): seq<string> {
    if parts == [] then [] else parts[0] + Concat(parts[1..])
  }

  lemma {:induction false} ConcatSnoc(parts: seq<seq<string>>, part: seq<string>)
    ensures Concat(parts + [part]) == Concat(parts) + part
  {
    if parts == [] {
      assert parts + [part] == [part] && Concat([part][1..]) == [];
    } else {
      assert (parts + [part])[1..] == parts[1..] + [part];
      ConcatSnoc(parts[1..], part);
    }
  }

  /** The lines of a font with these rows. */
  function FontText(f: FontInfo, rows: seq<string>): seq<string>
    requires Sized(f, rows)
  {
    HeaderLines(f) + Concat(Parts(f, rows)) + ["ENDFONT"]
  }

  function FontLines(f: FontInfo, bitmap: seq<byte>): seq<string>
    requires Sized(f, bitmap)
  {
    FontText(f, HexLines(bitmap))
  }

  // ----- the printer -----

  lemma JoinSnoc(a: seq<string>, l: string)
    ensures Join(a + [l]) == Join(a) + (l + "\n")
  {
    JoinAppend(a, [l]);
    assert Join([l][1..]) == [];
    assert Join([l]) == l + "\n";
  }

  lemma JoinStep(parts: seq<seq<string>>, c: nat)
    requires c < |parts|
    ensures Join(Concat(parts[..c + 1])) == Join(Concat(parts[..c])) + Join(parts[c])
  {
    assert parts[..c + 1] == parts[..c] + [parts[c]];
    ConcatSnoc(parts[..c], parts[c]);
    JoinAppend(Concat(parts[..c]), parts[c]);
  }

  /** The inner loop: `height` rows from `p` on. */
  method PrintRows(bitmap: seq<byte>, p: nat, height: nat) returns (out: string)
    requires p + height <= |bitmap|
    ensures out == Join(HexLines(bitmap[p..p + height]))
  {
    out := [];
    var i, q := height, p;
    while i != 0
      invariant 0 <= i <= height && q == p + height - i
      invariant out == Join(HexLines(bitmap[p..q]))
    {
      assert HexLines(bitmap[p..q + 1]) == HexLines(bitmap[p..q]) + [PrintHexByte(bitmap[q])];
      JoinSnoc(HexLines(bitmap[p..q]), PrintHexByte(bitmap[q]));
      out := out + (PrintHexByte(bitmap[q]) + "\n");
      i, q := i - 1, q + 1;
    }
  }

  /** One character. */
  method PrintChar(f: FontInfo, c: ushort, bitmap: seq<byte>, p: nat) returns (out: string)
    requires p + f.height <= |bitmap|
    ensures out == Join(CharLines(f, c, HexLines(bitmap[p..p + f.height])))
  {
    var rows := PrintRows(bitmap, p, f.height);
    ghost var top, hex := [CharLine(c)] + CharTop(f, c), HexLines(bitmap[p..p + f.height]);
    JoinAppend(top, hex);
    JoinSnoc(top + hex, "ENDCHAR");
    out := Join([CharLine(c)] + CharTop(f, c)) + rows + ("ENDCHAR" + "\n");
  }

  lemma PartPrinted(f: FontInfo, bitmap: seq<byte>, c: ushort, p: nat)
    requires Sized(f, bitmap) && c < f.nchars && p == Times(c, f.height)
    ensures p + f.height <= |bitmap|
    ensures Parts(f, HexLines(bitmap))[c] == CharLines(f, c, HexLines(bitmap[p..p + f.height]))
  {
    TimesFits(c, f.nchars, f.height);
    assert Chunk(f, HexLines(bitmap), c) == HexLines(bitmap[p..p + f.height]);
  }

  /** The outer loop. */
  method PrintChars(bitmap: seq<byte>, f: FontInfo) returns (out: string)
    requires Sized(f, bitmap)
    ensures out == Join(Concat(Parts(f, HexLines(bitmap))))
  {
    ghost var parts := Parts(f, HexLines(bitmap));
    out := [];
    var c, p := 0, 0;
    while c < f.nchars
      invariant 0 <= c <= f.nchars && p == Times(c, f.height)
      invariant out == Join(Concat(parts[..c]))
    {
      PartPrinted(f, bitmap, c, p);
      JoinStep(parts, c);
      var printed := PrintChar(f, c, bitmap, p);
      out := out + printed;
      c, p := c + 1, p + f.height;
    }
    assert parts[..c] == parts;
  }

  /** `output_bdf`. */
  method OutputBdf(bitmap: seq<byte>, f: FontInfo) returns (out: string)
    requires |bitmap| == f.nchars * f.height
    ensures Sized(f, bitmap) && out == Join(FontLines(f, bitmap))
  {
    TimesIs(f.nchars, f.height);
    var chars := PrintChars(bitmap, f);
    ghost var all := Concat(Parts(f, HexLines(bitmap)));
    JoinAppend(HeaderLines(f), all);
    JoinSnoc(HeaderLines(f) + all, "ENDFONT");
    out := Join(HeaderLines(f)) + chars + ("ENDFONT" + "\n");
  }
}
