/** The text side of loadfont: numbers as `printf` writes them and `sscanf` reads them, and `getline`. */
module BdfText {
  import opened Bytes

  // ----- numbers -----

  /** `%u`. */
  function PrintDec(n: nat): (r: string)
    ensures r != [] && forall c <- r :: '0' <= c <= '9'
  {
    (if n < 10 then [] else PrintDec(n / 10)) + [('0' as int + n % 10) as char]
  }

  /** `%d`. */
  function PrintInt(n: int): (r: string)
    ensures r != []
  {
    if n < 0 then "-" + PrintDec(-n) else PrintDec(n)
  }

  function HexDigit(d: nat): char
    requires d < 16
  {
    if d < 10 then ('0' as int + d) as char else ('a' as int + d - 10) as char
  }

  /** `%.2x` of a byte. */
  function PrintHexByte(b: byte): (r: string)
    ensures |r| == 2
  {
    [HexDigit(b / 16), HexDigit(b % 16)]
  }

  /** `%.4x` of a short. */
  function PrintHex4(n: nat): (r: string)
    requires n < 0x1_0000
    ensures |r| == 4
  {
    [HexDigit(n / 0x1000), HexDigit(n / 0x100 % 16), HexDigit(n / 16 % 16), HexDigit(n % 16)]
  }

  /** `isspace`: a blank, or one of the characters from tab to carriage return. */
  predicate IsSpace(c: char) {
    c == ' ' || '\t' <= c <= '\r'
  }

  predicate IsDigit(c: char) {
    '0' <= c <= '9'
  }

  function DigitValue(c: char): nat
    requires IsDigit(c)
  {
    c as int - '0' as int
  }

  /** What is left of `s` after white space. */
  function SkipSpace(s: string): (r: string)
    ensures |r| <= |s| && (r != [] ==> !IsSpace(r[0]))
  {
    if s != [] && IsSpace(s[0]) then SkipSpace(s[1..]) else s
  }

  /** The digits at the start of `s`, added to `acc`, and what follows them. */
  function ScanDigits(s: string, acc: nat): (r: (nat, string))
    ensures |r.1| <= |s|
  {
    if s != [] && IsDigit(s[0]) then ScanDigits(s[1..], 10 * acc + DigitValue(s[0])) else (acc, s)
  }

  /** `%d`: white space, a sign, digits. */
  function ScanInt(s: string): Option<(int, string)> {
    var t := SkipSpace(s);
    var signed := t != [] && (t[0] == '-' || t[0] == '+');
    var u := if signed then t[1..] else t;
    if u == [] || !IsDigit(u[0]) then None
    else
      var n: int := ScanDigits(u, 0).0;
      Some((if signed && t[0] == '-' then -n else n, ScanDigits(u, 0).1))
  }

  /** `%s`: white space, then everything up to the next. */
  function ScanWord(s: string): Option<string> {
    var w := Word(SkipSpace(s));
    if w == [] then None else Some(w)
  }

  function Word(s: string): string {
    if s != [] && !IsSpace(s[0]) then [s[0]] + Word(s[1..]) else []
  }

  /** What follows `lit` in `s`, if `s` begins with it. */
  function After(s: string, lit: string): Option<string> {
    if lit <= s then Some(s[|lit|..]) else None
  }

  /** Scanning stops where the digits do. */
  lemma {:induction false} ScanAppend(ds: string, rest: string, acc: nat)
    requires (forall i :: 0 <= i < |ds| ==> IsDigit(ds[i])) && (rest == [] || !IsDigit(rest[0]))
    ensures ScanDigits(ds + rest, acc) == (ScanDigits(ds, acc).0, rest)
    decreases |ds|
  {
    if ds == [] {
      assert ds + rest == rest;
    } else {
      assert (ds + rest)[1..] == ds[1..] + rest;
      ScanAppend(ds[1..], rest, 10 * acc + DigitValue(ds[0]));
    }
  }

  /** One more digit at the end. */
  lemma {:induction false} ScanSnoc(ds: string, c: char, acc: nat)
    requires (forall i :: 0 <= i < |ds| ==> IsDigit(ds[i])) && IsDigit(c)
    ensures ScanDigits(ds + [c], acc).0 == 10 * ScanDigits(ds, acc).0 + DigitValue(c)
    decreases |ds|
  {
    if ds == [] {
      assert ds + [c] == [c];
      assert ScanDigits([c][1..], 10 * acc + DigitValue(c)).0 == 10 * acc + DigitValue(c);
    } else {
      assert (ds + [c])[1..] == ds[1..] + [c];
      ScanSnoc(ds[1..], c, 10 * acc + DigitValue(ds[0]));
    }
  }

  /** Scanning what was printed gives the number back. */
  lemma {:induction false} ScanValue(n: nat)
    ensures ScanDigits(PrintDec(n), 0).0 == n
    decreases n
  {
    var c := ('0' as int + n % 10) as char;
    if n < 10 {
      assert PrintDec(n) == [c];
      assert ScanDigits([c][1..], n).0 == n;
    } else {
      ScanValue(n / 10);
      assert forall i :: 0 <= i < |PrintDec(n / 10)| ==> PrintDec(n / 10)[i] in PrintDec(n / 10);
      ScanSnoc(PrintDec(n / 10), c, 0);
    }
  }

  lemma ScanPrinted(n: nat, rest: string)
    requires rest == [] || !IsDigit(rest[0])
    ensures ScanDigits(PrintDec(n) + rest, 0) == (n, rest)
    ensures IsDigit(PrintDec(n)[0])
  {
    var ds := PrintDec(n);
    assert forall i :: 0 <= i < |ds| ==> ds[i] in ds;
    ScanAppend(ds, rest, 0);
    ScanValue(n);
  }

  /** `%d` reads back what `%u` or `%d` wrote. */
  lemma ScanPrintedNat(n: nat, rest: string)
    requires rest == [] || !IsDigit(rest[0])
    ensures ScanInt(PrintDec(n) + rest) == Some((n, rest))
  {
    ScanPrinted(n, rest);
    var s := PrintDec(n) + rest;
    assert s[0] == PrintDec(n)[0];
  }

  lemma ScanPrintedNegative(n: nat, rest: string)
    requires rest == [] || !IsDigit(rest[0])
    ensures ScanInt("-" + PrintDec(n) + rest) == Some((-(n as int), rest))
  {
    ScanPrinted(n, rest);
    var s, u := "-" + PrintDec(n) + rest, PrintDec(n) + rest;
    assert s[0] == '-' && s[1..] == u && u[0] == PrintDec(n)[0];
  }

  lemma ScanPrintedInt(n: int, rest: string)
    requires rest == [] || !IsDigit(rest[0])
    ensures ScanInt(PrintInt(n) + rest) == Some((n, rest))
  {
    if n < 0 {
      ScanPrintedNegative(-n, rest);
    } else {
      ScanPrintedNat(n, rest);
    }
  }

  /** White space before a number does not matter. */
  lemma ScanAfterSpace(s: string)
    ensures ScanInt(" " + s) == ScanInt(s)
  {
    assert (" " + s)[1..] == s;
  }

  // ----- hexadecimal rows -----

  predicate IsHex(c: char) {
    '0' <= c <= '9' || 'A' <= c <= 'F' || 'a' <= c <= 'f'
  }

  function HexValue(c: char): (r: nat)
    requires IsHex(c)
    ensures r < 16
  {
    if '0' <= c <= '9' then c as int - '0' as int
    else if 'A' <= c <= 'F' then 10 + (c as int - 'A' as int)
    else 10 + (c as int - 'a' as int)
  }

  /** The hexadecimal digits are the sixteen capital or small ones, in this order, and no other character is one. */
  lemma HexDigitsAre(d: nat)
    requires d < 16
    ensures IsHex("0123456789ABCDEF"[d]) && HexValue("0123456789ABCDEF"[d]) == d
    ensures IsHex("0123456789abcdef"[d]) && HexValue("0123456789abcdef"[d]) == d
  {
  }

  lemma OnlyHexDigits(c: char)
    ensures IsHex(c) <==> c in "0123456789ABCDEF" || c in "0123456789abcdef"
  {
    if IsHex(c) {
      assert c == if c <= 'F' then "0123456789ABCDEF"[HexValue(c)] else "0123456789abcdef"[HexValue(c)];
    }
  }

  /** `hexbyte` on the two characters at `i`; past the end it finds the terminator, which is no hex digit. */
  function HexByte(s: string, i: nat): Option<byte> {
    if i + 2 <= |s| && IsHex(s[i]) && IsHex(s[i + 1]) then Some(16 * HexValue(s[i]) + HexValue(s[i + 1])) else None
  }

  /** `hexbyte` reads back what `%.2x` wrote. */
  lemma HexByteBack(b: byte)
    ensures HexByte(PrintHexByte(b), 0) == Some(b)
  {
  }
}
