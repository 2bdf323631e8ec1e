/** The lines of a BDF file, as `getline` of loadfont hands them out. */
module BdfLines {
  import opened Bytes
  import opened BdfText

  /** Where `fgets` stops: after a newline, at `stop`, or at the end of the file. */
  function ChunkEnd(text: string, pos: nat, stop: nat): (end: nat)
    requires pos <= |text|
    ensures pos <= end <= |text| && (pos < |text| && pos < stop ==> pos < end)
    decreases |text| - pos
  {
    if pos == |text| || pos >= stop then pos
    else if text[pos] == '\n' then pos + 1
    else ChunkEnd(text, pos + 1, stop)
  }

  /** A line without its newline, and without a carriage return before that. */
  function Strip(s: string): string {
    var a := if s != [] && s[|s| - 1] == '\n' then s[..|s| - 1] else s;
    if a != [] && a[|a| - 1] == '\r' then a[..|a| - 1] else a
  }

  predicate Skipped(line: string) {
    line == [] || "COMMENT" <= line
  }

  /** The lines that `getline` will hand out, and the one it skips last, if none comes after that. */
  datatype Listing = Listing(lines: seq<string>, tail: Option<string>)

  /** The file from `pos` on, read by `fgets(s, 80, fp)`. */
  function List(text: string, pos: nat): Listing
    requires pos <= |text|
    decreases |text| - pos
  {
    var end := ChunkEnd(text, pos, pos + 79);
    if end == pos then Listing([], None)
    else
      var line, rest := Strip(text[pos..end]), List(text, end);
      if !Skipped(line) then Listing([line] + rest.lines, rest.tail)
      else if rest == Listing([], None) then Listing([], Some(line))
      else rest
  }

  /** The state of the reader: the listing of the file, how many of its lines have been read, and the line buffer. */
  datatype Input = Input(file: Listing, read: nat, line: string) {

    /** `getline`. At the end of the file the buffer keeps what it had. */
    function Next(): (r: Input)
      ensures r.file == file
    {
      if read < |file.lines| then Input(file, read + 1, file.lines[read])
      else if file.tail.Some? then Input(file, read, file.tail.value)
      else this
    }

    predicate AtEnd() { |file.lines| <= read }
  }

  /** A line that comes through `getline` unchanged. */
  predicate Plain(l: string) {
    && 0 < |l| <= 78 && (forall i :: 0 <= i < |l| ==> l[i] != '\n')
    && l[|l| - 1] != '\r' && !Skipped(l)
  }

  /** The text at `pos` is `l` and a newline. */
  predicate LineAt(text: string, pos: nat, l: string) {
    pos + |l| < |text| && text[pos + |l|] == '\n' && forall i :: 0 <= i < |l| ==> text[pos + i] == l[i]
  }

  lemma {:induction false} ChunkIsLine(text: string, pos: nat, nl: nat, stop: nat)
    requires pos <= nl < |text| && nl < stop && text[nl] == '\n'
    requires forall i :: pos <= i < nl ==> text[i] != '\n'
    ensures ChunkEnd(text, pos, stop) == nl + 1
    decreases nl - pos
  {
    if pos != nl {
      ChunkIsLine(text, pos + 1, nl, stop);
    }
  }

  lemma ListStep(text: string, pos: nat, end: nat, l: string)
    requires pos < end <= |text| && ChunkEnd(text, pos, pos + 79) == end && Strip(text[pos..end]) == l && !Skipped(l)
    ensures List(text, pos) == Listing([l] + List(text, end).lines, List(text, end).tail)
  {
  }

  /** A plain line is listed as it stands. */
  lemma ListLine(text: string, pos: nat, l: string)
    requires Plain(l) && LineAt(text, pos, l)
    ensures List(text, pos) == Listing([l] + List(text, pos + |l| + 1).lines, List(text, pos + |l| + 1).tail)
  {
    forall i | pos <= i < pos + |l|
      ensures text[i] != '\n'
    {
      assert text[pos + (i - pos)] == l[i - pos];
    }
    ChunkIsLine(text, pos, pos + |l|, pos + 79);
    var s := text[pos..pos + |l| + 1];
    assert s[|l|] == '\n' && s[..|l|] == l;
    assert Strip(s) == l;
    ListStep(text, pos, pos + |l| + 1, l);
  }

  /** Text that is one line after another. */
  function Join(lines: seq<string>): string {
    if lines == [] then [] else lines[0] + "\n" + Join(lines[1..])
  }

  lemma {:induction false} JoinAppend(a: seq<string>, b: seq<string>)
    ensures Join(a + b) == Join(a) + Join(b)
  {
    if a == [] {
      assert a + b == b;
    } else {
      assert (a + b)[0] == a[0] && (a + b)[1..] == a[1..] + b;
      JoinAppend(a[1..], b);
    }
  }

  /** The text from `pos` on is these lines. */
  predicate LinesAt(text: string, pos: nat, lines: seq<string>)
    decreases |lines|
  {
    if lines == [] then pos == |text|
    else LineAt(text, pos, lines[0]) && LinesAt(text, pos + |lines[0]| + 1, lines[1..])
  }

  /** A line, between what comes before it and what comes after it. */
  lemma LineBetween(before: string, l: string, rest: string)
    ensures before + (l + "\n" + rest) == before + l + "\n" + rest
    ensures LineAt(before + l + "\n" + rest, |before|, l)
  {
  }

  lemma {:induction false} JoinedLines(text: string, before: string, lines: seq<string>)
    requires text == before + Join(lines)
    ensures LinesAt(text, |before|, lines)
    decreases |lines|
  {
    if lines != [] {
      LineBetween(before, lines[0], Join(lines[1..]));
      JoinedLines(text, before + lines[0] + "\n", lines[1..]);
    }
  }

  lemma {:induction false} ListLines(text: string, pos: nat, lines: seq<string>)
    requires LinesAt(text, pos, lines) && pos <= |text| && forall i :: 0 <= i < |lines| ==> Plain(lines[i])
    ensures List(text, pos) == Listing(lines, None)
    decreases |lines|
  {
    if lines != [] {
      ListLine(text, pos, lines[0]);
      ListLines(text, pos + |lines[0]| + 1, lines[1..]);
    }
  }

  lemma ListJoinedFrom(text: string, pos: nat, lines: seq<string>)
    requires pos == 0 && text == Join(lines) && forall i :: 0 <= i < |lines| ==> Plain(lines[i])
    ensures List(text, pos) == Listing(lines, None)
  {
    var before: string := [];
    assert text == before + Join(lines);
    JoinedLines(text, before, lines);
    ListLines(text, pos, lines);
  }

  /** Text made of plain lines is read back as those lines. */
  lemma ListJoined(lines: seq<string>)
    requires forall i :: 0 <= i < |lines| ==> Plain(lines[i])
    ensures List(Join(lines), 0) == Listing(lines, None)
  {
    ListJoinedFrom(Join(lines), 0, lines);
  }

  // ----- any lines -----

  /** A line that one `fgets` reads. */
  predicate Short(l: string) {
    |l| <= 78 && forall i :: 0 <= i < |l| ==> l[i] != '\n'
  }

  function WithoutReturn(l: string): string {
    if l != "" && l[|l| - 1] == '\r' then l[..|l| - 1] else l
  }

  /** A line that is neither empty nor a comment, less its carriage return. */
  function KeptLine(l: string): seq<string> {
    var kept := WithoutReturn(l);
    if kept == "" || "COMMENT" <= kept then [] else [kept]
  }

  function Kept(lines: seq<string>): seq<string> {
    if lines == [] then [] else KeptLine(lines[0]) + Kept(lines[1..])
  }

  lemma StripIs(s: string, l: string)
    requires s == l + "\n"
    ensures Strip(s) == WithoutReturn(l)
  {
    assert s[|s| - 1] == '\n' && s[..|s| - 1] == l;
  }

  lemma ChunkListed(text: string, pos: nat, end: nat, l: string)
    requires pos < end <= |text| && ChunkEnd(text, pos, pos + 79) == end && Strip(text[pos..end]) == l
    ensures List(text, pos).lines == (if Skipped(l) then [] else [l]) + List(text, end).lines
  {
    assert [] + List(text, end).lines == List(text, end).lines;
  }

  lemma ListShort(text: string, pos: nat, l: string)
    requires Short(l) && LineAt(text, pos, l)
    ensures List(text, pos).lines == KeptLine(l) + List(text, pos + |l| + 1).lines
  {
    ShortChunk(text, pos, l);
    StripIs(text[pos..pos + |l| + 1], l);
    ChunkListed(text, pos, pos + |l| + 1, WithoutReturn(l));
  }

  lemma ShortChunk(text: string, pos: nat, l: string)
    requires Short(l) && LineAt(text, pos, l)
    ensures ChunkEnd(text, pos, pos + 79) == pos + |l| + 1 && text[pos..pos + |l| + 1] == l + "\n"
  {
    forall i | pos <= i < pos + |l|
      ensures text[i] != '\n'
    {
      assert text[pos + (i - pos)] == l[i - pos];
    }
    ChunkIsLine(text, pos, pos + |l|, pos + 79);
  }

  lemma {:induction false} ListAll(text: string, pos: nat, lines: seq<string>)
    requires LinesAt(text, pos, lines) && pos <= |text| && forall i :: 0 <= i < |lines| ==> Short(lines[i])
    ensures List(text, pos).lines == Kept(lines)
    decreases |lines|
  {
    if lines != [] {
      ListShort(text, pos, lines[0]);
      ListAll(text, pos + |lines[0]| + 1, lines[1..]);
    }
  }

  /** `getline` hands out the lines of a text that are neither empty nor comments. */
  lemma LinesKept(lines: seq<string>)
    requires forall i :: 0 <= i < |lines| ==> Short(lines[i])
    ensures List(Join(lines), 0).lines == Kept(lines)
  {
    var before: string := [];
    assert Join(lines) == before + Join(lines);
    JoinedLines(Join(lines), before, lines);
    ListAll(Join(lines), |before|, lines);
  }

  lemma {:induction false} ChunkIsLong(text: string, pos: nat, stop: nat)
    requires pos <= stop <= |text| && forall i :: pos <= i < stop ==> text[i] != '\n'
    ensures ChunkEnd(text, pos, stop) == stop
    decreases stop - pos
  {
    if pos != stop {
      ChunkIsLong(text, pos + 1, stop);
    }
  }

  /** A longer line is cut after 79 characters: what follows them is the next line. */
  lemma LongLineCut(text: string, pos: nat)
    requires pos + 79 <= |text| && forall i :: pos <= i < pos + 79 ==> text[i] != '\n'
    requires !("COMMENT" <= text[pos..pos + 79]) && text[pos + 78] != '\r'
    ensures List(text, pos).lines == [text[pos..pos + 79]] + List(text, pos + 79).lines
  {
    ChunkIsLong(text, pos, pos + 79);
    var s := text[pos..pos + 79];
    assert s[|s| - 1] == text[pos + 78];
    assert Strip(s) == s;
    ChunkListed(text, pos, pos + 79, s);
  }
}
