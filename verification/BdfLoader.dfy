/**
 `load_bdf` of loadfont as it works: a line buffer that moves through the file, and a byte buffer that grows as rows
 are stored in it. Each method is proved to find what the functions of BdfLoad say the file holds.
 */
module BdfLoader {
  import opened Bytes
  import opened BdfText
  import opened BdfLines
  import opened BdfLoad
  import BdfFile

  /** `hexbyte`. */
  method ReadHexByte(s: string, from: nat) returns (r: Option<byte>)
    ensures r == HexByte(s, from)
  {
    var b: nat, i: nat := 0, 0;
    while i < 2
      invariant i <= 2
      invariant i == 0 ==> b == 0
      invariant i >= 1 ==> from < |s| && IsHex(s[from])
      invariant i == 1 ==> b == HexValue(s[from])
      invariant i == 2 ==> from + 1 < |s| && IsHex(s[from + 1]) && b == 16 * HexValue(s[from]) + HexValue(s[from + 1])
    {
      if |s| <= from + i || !IsHex(s[from + i]) {
        return None;
      }
      b := 16 * b + HexValue(s[from + i]);
      i := i + 1;
    }
    return Some(b);
  }

  class Loader {
    const text: string
    var pos: nat
    var line: string
    var pGl: array<byte>
    var used: nat
    ghost const file: Listing
    ghost var read: nat

    ghost predicate Valid()
      reads this
    {
      pos <= |text| && Follows(List(text, pos), In()) && used <= pGl.Length && 0 < pGl.Length
    }

    /** Where the reader stands. */
    ghost function In(): Input
      reads this
    {
      Input(file, read, line)
    }

    /** What has been stored. */
    ghost function Contents(): seq<byte>
      requires Valid()
      reads this, pGl
    {
      pGl[..used]
    }

    constructor (text: string)
      ensures Valid() && this.text == text && In() == Start(text) && Contents() == [] && fresh(pGl)
    {
      this.text, pos, line, used := text, 0, [], 0;
      file, read := List(text, 0), 0;
      pGl := new byte[1024];
    }

    /** `getline`. */
    method GetLine()
      requires Valid()
      modifies this`pos, this`line, this`read
      ensures Valid() && In() == old(In()).Next() && old(pos) <= pos && (old(pos) < |text| ==> old(pos) < pos)
    {
      ghost var was := In();
      var end := ChunkEnd(text, pos, pos + 79);
      while end != pos
        invariant pos <= |text| && end == ChunkEnd(text, pos, pos + 79) && old(pos) <= pos && read == old(read)
        invariant pos == old(pos) ==> In() == was
        invariant Follows(List(text, pos), In()) && In().Next() == was.Next()
        decreases |text| - pos
      {
        FollowChunk(text, pos, end, In());
        line, pos := Strip(text[pos..end]), end;
        if !Skipped(line) {
          read := read + 1;
          return;
        }
        end := ChunkEnd(text, pos, pos + 79);
      }
      FollowEnd(In());
    }

    // ----- the header -----

    method SkipPropertyLines(n: int) returns (left: int)
      requires Valid()
      modifies this`pos, this`line, this`read
      ensures Valid() && (In(), left) == SkipProperties(old(In()), n)
    {
      left := n;
      while 0 < left && !("ENDPROPERTIES" <= line)
        invariant Valid()
        invariant SkipProperties(In(), left) == SkipProperties(old(In()), n)
      {
        GetLine();
        left := left - 1;
      }
    }

    /** `STARTPROPERTIES` to `ENDPROPERTIES`, which may be missing altogether. */
    method LoadProperties() returns (r: Load<()>)
      requires Valid()
      modifies this`pos, this`line, this`read
      ensures Valid()
      ensures Properties(old(In())) == if r.Loaded? then Loaded(In()) else r.PropagateFailure()
    {
      if "STARTPROPERTIES" <= line {
        var n := ScanField(line, "STARTPROPERTIES");
        if n.None? {
          return Fatal(BadProperties);
        }
        GetLine();
        var left := SkipPropertyLines(n.value);
        if !("ENDPROPERTIES" <= line) {
          return Fatal(NoEndProperties);
        }
        if left != 0 {
          return Fatal(TooFewProperties);
        }
        GetLine();
      } else if !("CHARS" <= line) {
        return Fatal(NoChars);
      }
      return Loaded(());
    }

    /** The four lines every file starts with. */
    method LoadTop(name: string) returns (r: Load<()>)
      requires Valid()
      modifies this`pos, this`line, this`read
      ensures Valid()
      ensures Top(old(In()), name) == if r.Loaded? then Loaded(In()) else r.PropagateFailure()
    {
      GetLine();
      var start := After(line, "STARTFONT");
      if start.None? || ScanWord(start.value) != Some("2.1") {
        return Fatal(BadStartFont);
      }
      GetLine();
      var font := After(line, "FONT");
      if font.None? || SkipSpace(font.value) == [] {
        return Fatal(BadFont);
      }
      if SkipSpace(font.value) != name {
        return Fatal(WrongFont);
      }
      GetLine();
      if !("SIZE" <= line) {
        return Fatal(NoSize);
      }
      GetLine();
      if !("FONTBOUNDINGBOX" <= line) {
        return Fatal(NoBox);
      }
      GetLine();
      return Loaded(());
    }

    method LoadHeader(name: string) returns (r: Load<int>)
      requires Valid()
      modifies this`pos, this`line, this`read
      ensures Valid()
      ensures Header(old(In()), name) == if r.Loaded? then Loaded((In(), r.value)) else r.PropagateFailure()
    {
      var top := LoadTop(name);
      if top.IsFailure() {
        return top.PropagateFailure();
      }
      var props := LoadProperties();
      if props.IsFailure() {
        return props.PropagateFailure();
      }
      var n := ScanField(line, "CHARS");
      if n.None? {
        return Fatal(BadChars);
      }
      if n.value < 1 {
        return Fatal(InvalidChars);
      }
      GetLine();
      return Loaded(n.value);
    }

    // ----- a glyph -----

    /** The loop to the ENDCHAR of an ignored character; false when it would not end. */
    method SkipCharacter() returns (ok: bool)
      requires Valid()
      modifies this`pos, this`line, this`read
      ensures Valid()
      ensures FindEnd(old(In())) == if ok then Some(In()) else None
    {
      ghost var start := In();
      while true
        invariant Valid() && FindEnd(In()) == FindEnd(start)
        decreases |text| - pos
      {
        var at := pos;
        GetLine();
        if "ENDCHAR" <= line {
          return true;
        }
        if at == |text| {
          return false;
        }
      }
    }

    method LoadAttributes() returns (r: Load<()>)
      requires Valid()
      modifies this`pos, this`line, this`read
      ensures Valid()
      ensures Attributes(old(In())) == if r.Loaded? then Loaded(In()) else r.PropagateFailure()
    {
      if "ATTRIBUTES" <= line {
        var p := SkipBlanks(if |line| <= 11 then [] else line[11..]);
        var high := ReadHexByte(p, 0);
        var low := ReadHexByte(p, 2);
        if high.None? || low.None? {
          return Fatal(BadHex);
        }
        GetLine();
      }
      return Loaded(());
    }

    /** The lines of a character from behind its encoding to BITMAP; the box. */
    method LoadBox() returns (r: Load<(nat, nat)>)
      requires Valid()
      modifies this`pos, this`line, this`read
      ensures Valid()
      ensures BoxHead(old(In())) == if r.Loaded? then Loaded(Boxed(r.value.0, r.value.1, In())) else r.PropagateFailure()
    {
      GetLine();
      GetLine();
      GetLine();
      var box := Box(line);
      if box.IsFailure() {
        return box.PropagateFailure();
      }
      GetLine();
      var attributes := LoadAttributes();
      if attributes.IsFailure() {
        return attributes.PropagateFailure();
      }
      if !("BITMAP" <= line) {
        return Fatal(NoBitmap);
      }
      return Loaded(box.value);
    }

    /** The lines before the rows; no box if the character is ignored. */
    method LoadHead() returns (r: Load<Option<(nat, nat)>>)
      requires Valid()
      modifies this`pos, this`line, this`read
      ensures Valid()
      ensures GlyphHead(old(In())) ==
              if r.IsFailure() then r.PropagateFailure()
              else if r.value.None? then Loaded(Ignored(In()))
              else Loaded(Boxed(r.value.value.0, r.value.value.1, In()))
    {
      var name := After(line, "STARTCHAR");
      if name.None? || ScanWord(name.value).None? {
        return Fatal(BadName);
      }
      GetLine();
      var enc := Encoding(line);
      if enc.IsFailure() {
        return enc.PropagateFailure();
      }
      if enc.value == -1 {
        var ok := SkipCharacter();
        if !ok {
          return Hangs;
        }
        GetLine();
        return Loaded(None);
      }
      if MAXENCODING < enc.value {
        return Fatal(EncodingMax);
      }
      var box := LoadBox();
      if box.IsFailure() {
        return box.PropagateFailure();
      }
      return Loaded(Some(box.value));
    }

    // ----- rows -----

    /** Makes room for a row, keeping what is stored. */
    method Reserve(bytesperrow: nat)
      requires Valid()
      modifies this`pGl
      ensures Valid() && Contents() == old(Contents()) && used + bytesperrow < pGl.Length
      ensures pGl == old(pGl) || fresh(pGl)
    {
      if pGl.Length <= used + bytesperrow {
        var small, bigger := pGl, new byte[2 * (used + bytesperrow)];
        var i := 0;
        while i < used
          invariant 0 <= i <= used && forall k :: 0 <= k < i ==> bigger[k] == small[k]
        {
          bigger[i] := small[i];
          i := i + 1;
        }
        pGl := bigger;
      }
    }

    method Store(b: byte)
      requires Valid() && used < pGl.Length
      modifies this`used, pGl
      ensures Valid() && Contents() == old(Contents()) + [b] && used == old(used) + 1
    {
      pGl[used] := b;
      used := used + 1;
    }

    /** The first `perrow` bytes of the line. */
    method StoreHex(perrow: nat) returns (r: Load<()>)
      requires Valid() && used + perrow <= pGl.Length
      modifies this`used, pGl
      ensures Valid()
      ensures r.IsFailure() ==> HexBytes(line, perrow) == r.PropagateFailure()
      ensures r.Loaded? ==> HexBytes(line, perrow).Loaded? && Contents() == old(Contents()) + HexBytes(line, perrow).value
      ensures r.Loaded? ==> used == old(used) + perrow
    {
      ghost var was := Contents();
      var ix := 0;
      while ix < perrow
        invariant 0 <= ix <= perrow && Valid() && used == old(used) + ix
        invariant HexBytes(line, ix).Loaded? && Contents() == was + HexBytes(line, ix).value
      {
        var b := ReadHexByte(line, 2 * ix);
        if b.None? {
          HexBytesFail(line, ix, perrow);
          return Fatal(BadHex);
        }
        Store(b.value);
        ix := ix + 1;
      }
      return Loaded(());
    }

    /** Clears what the last stored byte has beyond the width. */
    method CutLast(bw: nat)
      requires Valid() && 0 < used
      modifies pGl
      ensures Valid() && Contents() == old(Contents())[..used - 1] + [Masked(old(pGl[used - 1]), bw)]
    {
      if bw % 8 != 0 {
        pGl[used - 1] := Masked(pGl[used - 1], bw);
      }
    }

    method StoreZeros(n: nat)
      requires Valid() && used + n <= pGl.Length
      modifies this`used, pGl
      ensures Valid() && Contents() == old(Contents()) + Zeros(n)
    {
      ghost var was := Contents();
      var ix := 0;
      while ix < n
        invariant 0 <= ix <= n && Valid() && used == old(used) + ix && Contents() == was + Zeros(ix)
      {
        Store(0);
        ix := ix + 1;
      }
    }

    /** The bytes the line has for a row. */
    method StoreCut(bw: nat) returns (r: Load<()>)
      requires Valid() && used + HexPerRow(bw) <= pGl.Length
      modifies this`used, pGl
      ensures Valid()
      ensures r.IsFailure() ==> Cut(line, bw) == r.PropagateFailure()
      ensures r.Loaded? ==> Cut(line, bw).Loaded? && Contents() == old(Contents()) + Cut(line, bw).value
    {
      var t, hexperrow := |line| / 2, HexPerRow(bw);
      ghost var was := Contents();
      var perrow := Min(hexperrow, t);
      r := StoreHex(perrow);
      if r.Loaded? && 0 < perrow && hexperrow <= t {
        ghost var bytes := HexBytes(line, perrow).value;
        assert pGl[used - 1] == Contents()[used - 1] == bytes[perrow - 1];
        assert (was + bytes)[..|was| + perrow - 1] == was + bytes[..perrow - 1];
        CutLast(bw);
      }
    }

    /** One row of a glyph, from the line buffer into the byte buffer. */
    method LoadRow(bw: nat) returns (r: Load<()>)
      requires Valid()
      modifies this`pGl, this`used, pGl
      ensures Valid() && (pGl == old(pGl) || fresh(pGl))
      ensures r.IsFailure() ==> RowOf(line, bw) == r.PropagateFailure()
      ensures r.Loaded? ==> RowOf(line, bw).Loaded? && Contents() == old(Contents()) + RowOf(line, bw).value.bytes
    {
      if |line| % 2 == 1 {
        return Fatal(OddRow);
      }
      var bytesperrow := BytesPerRow(bw);
      Reserve(bytesperrow);
      r := StoreCut(bw);
      if r.Loaded? {
        var perrow := Min(HexPerRow(bw), |line| / 2);
        StoreZeros(if perrow < bytesperrow then bytesperrow - perrow else 0);
      }
    }

    /** The next of the rows, of which `left` remain; `done` and `was` say what came before. */
    method NextRow(bw: nat, ghost left: nat, ghost was: seq<byte>, ghost done: seq<Row>)
      returns (r: Load<()>, ghost done': seq<Row>)
      requires Valid() && 0 < left && Contents() == was + Flat(done)
      modifies this, pGl
      ensures Valid() && (pGl == old(pGl) || fresh(pGl))
      ensures r.IsFailure() ==> Rows(old(In()), bw, left) == r.PropagateFailure()
      ensures r.Loaded? ==> Contents() == was + Flat(done')
      ensures r.Loaded? ==> Behind(done, Rows(old(In()), bw, left)) == Behind(done', Rows(In(), bw, left - 1))
    {
      ghost var start, before := In(), Contents();
      GetLine();
      r := LoadRow(bw);
      done' := RowsAdvance(start, bw, left, was, done, before, Contents());
    }

    /** The loop over the rows of a glyph. */
    method StoreRows(bw: nat, bh: nat, ghost was: seq<byte>, ghost whole: Load<(seq<Row>, Input)>)
      returns (r: Load<()>, ghost done: seq<Row>, ghost left: nat)
      requires Valid() && was == Contents() && whole == Rows(In(), bw, bh)
      modifies this, pGl
      ensures Valid() && (pGl == old(pGl) || fresh(pGl))
      ensures r.IsFailure() ==> whole == r.PropagateFailure()
      ensures r.Loaded? ==> Contents() == was + Flat(done) && left == 0 && whole == Behind(done, Rows(In(), bw, left))
    {
      done, left := [], bh;
      BehindNone(whole);
      assert was + Flat(done) == was;
      var row := 0;
      while row < bh
        invariant 0 <= row <= bh && Valid() && (pGl == old(pGl) || fresh(pGl))
        invariant Contents() == was + Flat(done)
        invariant left == bh - row && whole == Behind(done, Rows(In(), bw, left))
      {
        r, done := NextRow(bw, left, was, done);
        if r.IsFailure() {
          return;
        }
        row, left := row + 1, left - 1;
      }
      return Loaded(()), done, left;
    }

    method LoadRows(bw: nat, bh: nat) returns (r: Load<()>)
      requires Valid()
      modifies this, pGl
      ensures Valid() && (pGl == old(pGl) || fresh(pGl))
      ensures r.IsFailure() ==> Rows(old(In()), bw, bh) == r.PropagateFailure()
      ensures r.Loaded? ==> Rows(old(In()), bw, bh).Loaded? && Rows(old(In()), bw, bh).value.1 == In()
                            && Contents() == old(Contents()) + Flat(Rows(old(In()), bw, bh).value.0)
    {
      ghost var done, left;
      r, done, left := StoreRows(bw, bh, Contents(), Rows(In(), bw, bh));
      if r.Loaded? {
        BehindEnd(done, In(), bw, left);
      }
    }

    /** One character; true if it was loaded and not ignored. */
    method LoadGlyph() returns (r: Load<bool>)
      requires Valid()
      modifies this, pGl
      ensures Valid() && (pGl == old(pGl) || fresh(pGl))
      ensures r.IsFailure() ==> OneGlyph(old(In())) == r.PropagateFailure()
      ensures r.Loaded? ==> OneGlyph(old(In())).Loaded? && OneGlyph(old(In())).value.1 == In()
                            && Contents() == old(Contents()) + Pixels(OneGlyph(old(In())).value.0)
                            && |OneGlyph(old(In())).value.0| == if r.value then 1 else 0
    {
      var head := LoadHead();
      if head.IsFailure() {
        return head.PropagateFailure();
      }
      if head.value.None? {
        return Loaded(false);
      }
      var (bw, bh) := head.value.value;
      ghost var start := In();
      var rows := LoadRows(bw, bh);
      if rows.IsFailure() {
        return rows.PropagateFailure();
      }
      GetLine();
      if !("ENDCHAR" <= line) {
        return Fatal(NoEndChar);
      }
      GetLine();
      PixelsOfOne(Glyph(bw, bh, Rows(start, bw, bh).value.0));
      return Loaded(true);
    }

    /** The next of the characters, of which `left` remain. */
    method NextGlyph(left: int, ghost was: seq<byte>, ghost done: seq<Glyph>)
      returns (r: Load<bool>, ghost done': seq<Glyph>)
      requires Valid() && 0 < left && "STARTCHAR" <= line && Contents() == was + Pixels(done)
      modifies this, pGl
      ensures Valid() && (pGl == old(pGl) || fresh(pGl))
      ensures r.IsFailure() ==> Glyphs(old(In()), left) == r.PropagateFailure()
      ensures r.Loaded? ==> Contents() == was + Pixels(done') && |done'| == |done| + if r.value then 1 else 0
      ensures r.Loaded? ==> GlyphsBehind(done, Glyphs(old(In()), left)) == GlyphsBehind(done', Glyphs(In(), left - 1))
    {
      ghost var start, before := In(), Contents();
      r := LoadGlyph();
      done' := GlyphsAdvance(start, left, was, done, before, Contents());
    }

    /** The loop over the characters: how many are still missing, and how many were loaded. */
    method LoadCharacters(n: int, ghost was: seq<byte>) returns (r: Load<(int, nat)>, ghost done: seq<Glyph>)
      requires Valid() && was == Contents()
      modifies this, pGl
      ensures Valid() && (pGl == old(pGl) || fresh(pGl))
      ensures r.IsFailure() ==> Glyphs(old(In()), n) == r.PropagateFailure()
      ensures r.Loaded? ==> Contents() == was + Pixels(done) && r.value.1 == |done|
      ensures r.Loaded? ==> Glyphs(old(In()), n) == GlyphsBehind(done, Glyphs(In(), r.value.0))
      ensures r.Loaded? ==> r.value.0 <= 0 || !("STARTCHAR" <= line)
    {
      ghost var whole := Glyphs(In(), n);
      done := [];
      GlyphsBehindNone(whole);
      assert was + Pixels(done) == was;
      var left, nGl := n, 0;
      while 0 < left && "STARTCHAR" <= line
        invariant Valid() && (pGl == old(pGl) || fresh(pGl))
        invariant Contents() == was + Pixels(done) && nGl == |done|
        invariant whole == GlyphsBehind(done, Glyphs(In(), left))
      {
        var one: Load<bool>;
        one, done := NextGlyph(left, was, done);
        if one.IsFailure() {
          return one.PropagateFailure(), done;
        }
        nGl, left := if one.value then nGl + 1 else nGl, left - 1;
      }
      return Loaded((left, nGl)), done;
    }

    /** All characters, up to ENDFONT; how many were loaded. */
    method LoadGlyphs(n: int) returns (r: Load<nat>)
      requires Valid()
      modifies this, pGl
      ensures Valid() && (pGl == old(pGl) || fresh(pGl))
      ensures r.IsFailure() ==> Glyphs(old(In()), n) == r.PropagateFailure()
      ensures r.Loaded? ==> Glyphs(old(In()), n).Loaded? && r.value == |Glyphs(old(In()), n).value|
                            && Contents() == old(Contents()) + Pixels(Glyphs(old(In()), n).value)
    {
      var chars, done := LoadCharacters(n, Contents());
      if chars.IsFailure() {
        return chars.PropagateFailure();
      }
      var (left, nGl) := chars.value;
      if left != 0 {
        return Fatal(TooFewChars);
      }
      if "STARTCHAR" <= line {
        return Fatal(TooManyChars);
      }
      if !("ENDFONT" <= line) {
        return Fatal(NoEndFont);
      }
      assert done + [] == done;
      return Loaded(nGl);
    }

    /** The whole file, from its first line on. */
    method LoadFont(name: string) returns (r: Load<()>)
      requires Valid()
      modifies this, pGl
      ensures Valid()
      ensures r.IsFailure() ==> FontFrom(old(In()), name) == r.PropagateFailure()
      ensures r.Loaded? ==> FontFrom(old(In()), name).Loaded?
                            && Contents() == old(Contents()) + Pixels(FontFrom(old(In()), name).value)
    {
      var n := LoadHeader(name);
      if n.IsFailure() {
        return n.PropagateFailure();
      }
      var nGl := LoadGlyphs(n.value);
      if nGl.IsFailure() {
        return nGl.PropagateFailure();
      }
      if nGl.value == 0 {
        return Fatal(NoGlyphs);
      }
      return Loaded(());
    }
  }

  /** `load_bdf`: it accepts exactly the files that hold a font, and what it sends to the console is the bitmap. */
  method LoadBdf(text: string, name: string) returns (r: Load<seq<byte>>)
    ensures r.IsFailure() ==> Font(text, name) == r.PropagateFailure()
    ensures r.Loaded? ==> Font(text, name).Loaded? && r.value == Pixels(Font(text, name).value)
    ensures r.Loaded? <==> BdfFile.IsFontFile(text, name)
    ensures forall glyphs :: BdfFile.FileHolds(text, name, glyphs) ==> r == Loaded(Pixels(glyphs))
  {
    var loader := new Loader(text);
    ghost var font := FontFrom(loader.In(), name);
    assert font == Font(text, name);
    BdfFile.FontFile(text, name);
    var done := loader.LoadFont(name);
    if done.IsFailure() {
      return done.PropagateFailure();
    }
    assert [] + Pixels(font.value) == Pixels(font.value);
    return Loaded(loader.pGl[..loader.used]);
  }

  // ----- what the loops carry along -----

  /** The listing of what is left of the file fits the state of the reader. */
  ghost predicate Follows(left: Listing, inp: Input) {
    && inp.read <= |inp.file.lines| && left.lines == inp.file.lines[inp.read..]
    && (left.tail == inp.file.tail || (left == Listing([], None) && inp.file.tail == Some(inp.line)))
  }

  lemma FollowLine(left: Listing, rest: Listing, inp: Input, l: string)
    requires Follows(left, inp) && left == Listing([l] + rest.lines, rest.tail)
    ensures inp.Next() == Input(inp.file, inp.read + 1, l) && Follows(rest, inp.Next())
  {
    assert left.lines[0] == l && left.lines[1..] == rest.lines;
    assert inp.file.lines[inp.read..][1..] == inp.file.lines[inp.read + 1..];
  }

  lemma FollowSkip(left: Listing, rest: Listing, inp: Input, l: string)
    requires Follows(left, inp) && left == if rest == Listing([], None) then Listing([], Some(l)) else rest
    ensures Follows(rest, inp.(line := l)) && inp.(line := l).Next() == inp.Next()
  {
  }

  /** One `fgets`. */
  lemma FollowChunk(text: string, pos: nat, end: nat, inp: Input)
    requires pos <= |text| && Follows(List(text, pos), inp) && end == ChunkEnd(text, pos, pos + 79) != pos
    ensures var l := Strip(text[pos..end]);
      && (!Skipped(l) ==> inp.Next() == Input(inp.file, inp.read + 1, l) && Follows(List(text, end), inp.Next()))
      && (Skipped(l) ==> Follows(List(text, end), inp.(line := l)) && inp.(line := l).Next() == inp.Next())
  {
    var l := Strip(text[pos..end]);
    if Skipped(l) {
      FollowSkip(List(text, pos), List(text, end), inp, l);
    } else {
      FollowLine(List(text, pos), List(text, end), inp, l);
    }
  }

  lemma FollowEnd(inp: Input)
    requires Follows(Listing([], None), inp)
    ensures inp.Next() == inp
  {
  }

  /** Rows that come behind those that are done. */
  ghost function Behind(done: seq<Row>, r: Load<(seq<Row>, Input)>): Load<(seq<Row>, Input)> {
    if r.Loaded? then Loaded((done + r.value.0, r.value.1)) else r
  }

  ghost function GlyphsBehind(done: seq<Glyph>, r: Load<seq<Glyph>>): Load<seq<Glyph>> {
    if r.Loaded? then Loaded(done + r.value) else r
  }

  lemma BehindNone(r: Load<(seq<Row>, Input)>)
    ensures Behind([], r) == r
  {
    if r.Loaded? {
      assert [] + r.value.0 == r.value.0;
    }
  }

  lemma GlyphsBehindNone(r: Load<seq<Glyph>>)
    ensures GlyphsBehind([], r) == r
  {
    if r.Loaded? {
      assert [] + r.value == r.value;
    }
  }

  lemma BehindEnd(done: seq<Row>, inp: Input, bw: nat, left: nat)
    requires left == 0
    ensures Behind(done, Rows(inp, bw, left)) == Loaded((done, inp))
  {
    assert done + [] == done;
  }

  lemma BehindStep(done: seq<Row>, row: Row, r: Load<(seq<Row>, Input)>)
    ensures Behind(done, Behind([row], r)) == Behind(done + [row], r)
  {
    if r.Loaded? {
      assert done + ([row] + r.value.0) == done + [row] + r.value.0;
    }
  }

  lemma GlyphsBehindStep(done: seq<Glyph>, one: seq<Glyph>, r: Load<seq<Glyph>>)
    ensures GlyphsBehind(done, GlyphsBehind(one, r)) == GlyphsBehind(done + one, r)
  {
    if r.Loaded? {
      assert done + (one + r.value) == done + one + r.value;
    }
  }

  lemma RowsUnfold(inp: Input, bw: nat, bh: nat)
    requires 0 < bh
    ensures var a := inp.Next();
      Rows(inp, bw, bh) == if RowOf(a.line, bw).IsFailure() then RowOf(a.line, bw).PropagateFailure()
                           else Behind([RowOf(a.line, bw).value], Rows(a, bw, bh - 1))
  {
  }

  lemma GlyphsUnfold(inp: Input, n: int)
    requires 0 < n && "STARTCHAR" <= inp.line
    ensures Glyphs(inp, n) == if OneGlyph(inp).IsFailure() then OneGlyph(inp).PropagateFailure()
                              else GlyphsBehind(OneGlyph(inp).value.0, Glyphs(OneGlyph(inp).value.1, n - 1))
  {
  }

  /** One row more. */
  lemma RowsAdvance(inp: Input, bw: nat, left: nat, was: seq<byte>, done: seq<Row>, before: seq<byte>, after: seq<byte>)
    returns (done': seq<Row>)
    requires 0 < left && before == was + Flat(done)
    ensures var a := inp.Next(); var row := RowOf(a.line, bw);
      && (row.IsFailure() ==> Rows(inp, bw, left) == row.PropagateFailure())
      && (row.Loaded? && after == before + row.value.bytes ==> after == was + Flat(done'))
      && (row.Loaded? ==> Behind(done, Rows(inp, bw, left)) == Behind(done', Rows(a, bw, left - 1)))
  {
    RowsUnfold(inp, bw, left);
    var row := RowOf(inp.Next().line, bw);
    done' := done;
    if row.Loaded? {
      done' := done + [row.value];
      FlatSnoc(done, row.value);
      BehindStep(done, row.value, Rows(inp.Next(), bw, left - 1));
      Regroup(was, Flat(done), row.value.bytes);
    }
  }

  /** One character more. */
  lemma GlyphsAdvance(inp: Input, left: int, was: seq<byte>, done: seq<Glyph>, before: seq<byte>, after: seq<byte>)
    returns (done': seq<Glyph>)
    requires 0 < left && "STARTCHAR" <= inp.line && before == was + Pixels(done)
    ensures var one := OneGlyph(inp);
      && (one.IsFailure() ==> Glyphs(inp, left) == one.PropagateFailure())
      && (one.Loaded? && after == before + Pixels(one.value.0) ==> after == was + Pixels(done'))
      && (one.Loaded? ==> GlyphsBehind(done, Glyphs(inp, left)) == GlyphsBehind(done', Glyphs(one.value.1, left - 1)))
      && (one.Loaded? ==> |done'| == |done| + |one.value.0|)
  {
    GlyphsUnfold(inp, left);
    var one := OneGlyph(inp);
    done' := done;
    if one.Loaded? {
      done' := done + one.value.0;
      PixelsAppend(done, one.value.0);
      GlyphsBehindStep(done, one.value.0, Glyphs(one.value.1, left - 1));
      Regroup(was, Pixels(done), Pixels(one.value.0));
    }
  }

  lemma Regroup(a: seq<byte>, b: seq<byte>, c: seq<byte>)
    ensures a + b + c == a + (b + c)
  {
  }

  lemma {:induction false} HexBytesFail(line: string, k: nat, n: nat)
    requires k < n && HexBytes(line, k).Loaded? && HexByte(line, 2 * k).None?
    ensures HexBytes(line, n) == Fatal(BadHex)
    decreases n
  {
    if k < n - 1 {
      HexBytesFail(line, k, n - 1);
    }
  }

  lemma {:induction false} FlatSnoc(rows: seq<Row>, row: Row)
    ensures Flat(rows + [row]) == Flat(rows) + row.bytes
  {
    if rows == [] {
      assert rows + [row] == [row] && [row][1..] == [];
      assert Flat([row][1..]) == [];
    } else {
      assert (rows + [row])[1..] == rows[1..] + [row];
      FlatSnoc(rows[1..], row);
    }
  }

  lemma PixelsOfOne(g: Glyph)
    ensures Pixels([g]) == Flat(g.rows)
  {
    assert Pixels([g][1..]) == [];
  }

  lemma {:induction false} PixelsAppend(a: seq<Glyph>, b: seq<Glyph>)
    ensures Pixels(a + b) == Pixels(a) + Pixels(b)
  {
    if a == [] {
      assert a + b == b;
    } else {
      assert (a + b)[0] == a[0] && (a + b)[1..] == a[1..] + b;
      PixelsAppend(a[1..], b);
    }
  }
}
