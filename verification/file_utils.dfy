/** The byte-representation encoders of `utils/fileUtils.ts`: a hex dump, a
    binary-digit dump and a Python `bytes` literal of a buffer, each bounded by
    a byte limit. Each encoder is paired with a decoder that reads its output
    back, and the round trip is proved. */
module FileUtils {
  import opened Wrappers
  import opened Text

  /** One element of a `Uint8Array`. */
  type Byte = b: int | 0 <= b < 256

  const HexLimit: int := 512
  const BinaryLimit: int := 256
  const PythonLimit: nat := 2000

  /** How many bytes a dump with `limit` renders: `Math.min(bytes.length, limit)`
      iterations of `for (i = 0; i < length; i++)`, none when that is negative. */
  function Shown(len: nat, limit: int): (n: nat)
    ensures n <= len
    ensures limit <= 0 ==> n == 0
    ensures limit > 0 ==> n <= limit
    ensures limit > 0 ==> n == len || n == limit
    ensures limit > 0 && n < len ==> n == limit
  {
    if limit <= 0 then 0 else if len < limit then len else limit
  }

  // ---------------------------------------------------------------------
  // Rendering one byte
  // ---------------------------------------------------------------------

  predicate IsUpperHexDigit(c: char) {
    '0' <= c <= '9' || 'A' <= c <= 'F'
  }

  predicate IsLowerHexDigit(c: char) {
    '0' <= c <= '9' || 'a' <= c <= 'f'
  }

  /** `byte.toString(radix).padStart(width, '0')` */
  function PaddedDigits(b: Byte, base: nat, width: nat): string
    requires 2 <= base <= 36
  {
    PadStart(ToRadix(b, base), width, '0')
  }

  /** A byte padded to `width` digits, where `base^width` exceeds every byte,
      takes exactly `width` digits and still reads back as the byte. */
  lemma PaddedDigitsValue(b: Byte, base: nat, width: nat)
    requires 2 <= base <= 36 && 1 <= width
    requires Pow(base, width) >= 256
    ensures |PaddedDigits(b, base, width)| == width
    ensures ParseRadix(PaddedDigits(b, base, width), base) == Some(b)
  {
    var t := ToRadix(b, base);
    RadixLength(b, base, width);
    RadixRoundTrip(b, base);
    ValueOfLeadingZeros(width - |t|, t, base);
    PadWithZeros(t, width);
  }

  lemma PadWithZeros(t: string, width: nat)
    requires |t| <= width
    ensures PadStart(t, width, '0') == Repeat('0', width - |t|) + t
  {
    if |t| == width {
      assert Repeat('0', 0) + t == t;
    }
  }

  /** A cell of the hex dump: `byte.toString(16).padStart(2, '0').toUpperCase()`. */
  function HexCell(b: Byte): string {
    ToUpper(PaddedDigits(b, 16, 2))
  }

  /** A cell of the binary dump: `byte.toString(2).padStart(8, '0')`. */
  function BinaryCell(b: Byte): string {
    PaddedDigits(b, 2, 8)
  }

  /** One escape of the Python literal: a backslash, `x`, then
      `byte.toString(16).padStart(2, '0')`. */
  function PyEscape(b: Byte): string {
    "\\x" + PaddedDigits(b, 16, 2)
  }

  /** Reads a cell of exactly `width` digits in `base` back as a byte. */
  function ParseCell(c: string, width: nat, base: nat): Option<Byte> {
    if |c| == width then
      match ParseRadix(c, base)
      case Some(v) => if v < 256 then Some(v) else None
      case None => None
    else None
  }

  /** The upper-case hex digit for `d`. */
  function UpperHexDigit(d: nat): (c: char)
    requires d < 16
    ensures IsUpperHexDigit(c) && DigitValue(c) == d
  {
    if d < 10 then (48 + d) as char else (55 + d) as char
  }

  lemma LowerHexDigit(d: nat)
    requires d < 16
    ensures IsLowerHexDigit(DigitChar(d))
  {
  }

  /** `toString(16).padStart(2, '0')` of a byte is its high nibble's digit, then its low nibble's. */
  lemma PaddedHexDigits(b: Byte)
    ensures PaddedDigits(b, 16, 2) == [DigitChar(b / 16), DigitChar(b % 16)]
  {
    if b >= 16 {
      assert ToRadix(b, 16) == ToRadix(b / 16, 16) + [DigitChar(b % 16)];
    }
  }

  /** A hex cell is the upper-case digit of the high nibble, then of the low nibble. */
  lemma HexCellNibbles(b: Byte)
    ensures HexCell(b) == [UpperHexDigit(b / 16), UpperHexDigit(b % 16)]
  {
    PaddedHexDigits(b);
    var hi, lo := DigitChar(b / 16), DigitChar(b % 16);
    assert PaddedDigits(b, 16, 2) == [hi, lo];
    UpperPair(hi, lo);
    UpperDigit(b / 16);
    UpperDigit(b % 16);
  }

  lemma UpperPair(hi: char, lo: char)
    ensures ToUpper([hi, lo]) == [UpperChar(hi), UpperChar(lo)]
  {
  }

  lemma UpperDigit(d: nat)
    requires d < 16
    ensures UpperChar(DigitChar(d)) == UpperHexDigit(d)
  {
  }

  /** A Python escape is a backslash, `x`, then the lower-case digits of both nibbles. */
  lemma PyEscapeNibbles(b: Byte)
    ensures PyEscape(b) == ['\\', 'x', DigitChar(b / 16), DigitChar(b % 16)]
  {
    PaddedHexDigits(b);
    var hi, lo := DigitChar(b / 16), DigitChar(b % 16);
    assert PaddedDigits(b, 16, 2) == [hi, lo];
    EscapePair(hi, lo);
  }

  lemma EscapePair(hi: char, lo: char)
    ensures "\\x" + [hi, lo] == ['\\', 'x', hi, lo]
  {
  }

  /** Two digits holding a byte's high and low nibble read back as the byte. */
  lemma ParseNibbles(x: char, y: char, b: Byte)
    requires DigitValue(x) == b / 16 && DigitValue(y) == b % 16
    ensures ParseCell([x, y], 2, 16) == Some(b)
  {
    ValueOfSnoc([], x, 16);
    assert [] + [x] == [x];
    ValueOfSnoc([x], y, 16);
    assert [x] + [y] == [x, y];
  }

  /** A hex cell is two upper-case hex digits that read back as the byte. */
  lemma HexCellShape(b: Byte)
    ensures |HexCell(b)| == 2
    ensures IsUpperHexDigit(HexCell(b)[0]) && IsUpperHexDigit(HexCell(b)[1])
    ensures ParseCell(HexCell(b), 2, 16) == Some(b)
  {
    HexCellNibbles(b);
    ParseNibbles(UpperHexDigit(b / 16), UpperHexDigit(b % 16), b);
  }

  /** A Python escape is a backslash, `x` and two lower-case hex digits that
      read back as the byte. */
  lemma PyEscapeShape(b: Byte)
    ensures |PyEscape(b)| == 4
    ensures PyEscape(b)[0] == '\\' && PyEscape(b)[1] == 'x'
    ensures IsLowerHexDigit(PyEscape(b)[2]) && IsLowerHexDigit(PyEscape(b)[3])
    ensures ParseCell(PyEscape(b)[2..], 2, 16) == Some(b)
  {
    var hi, lo := DigitChar(b / 16), DigitChar(b % 16);
    PyEscapeNibbles(b);
    assert PyEscape(b)[2..] == [hi, lo];
    LowerHexDigit(b / 16);
    LowerHexDigit(b % 16);
    ParseNibbles(hi, lo, b);
  }

  /** A binary cell is eight binary digits that read back as the byte. */
  lemma BinaryCellShape(b: Byte)
    ensures |BinaryCell(b)| == 8
    ensures forall i :: 0 <= i < 8 ==> BinaryCell(b)[i] == '0' || BinaryCell(b)[i] == '1'
    ensures ParseCell(BinaryCell(b), 8, 2) == Some(b)
  {
    var p := BinaryCell(b);
    PowTwoEight();
    PaddedDigitsValue(b, 2, 8);
    forall i | 0 <= i < 8
      ensures p[i] == '0' || p[i] == '1'
    {
      BinaryDigit(p[i]);
    }
  }

  lemma PowTwoEight()
    ensures Pow(2, 8) == 256
  {
  }

  lemma BinaryDigit(c: char)
    requires 0 <= DigitValue(c) < 2
    ensures c == '0' || c == '1'
  {
  }

  // ---------------------------------------------------------------------
  // Cells and dumps
  // ---------------------------------------------------------------------

  /** The cells a rendering loop produces, one per byte, in order. */
  function Cells(bs: seq<Byte>, render: Byte -> string): (r: seq<string>)
    ensures |r| == |bs|
  {
    if |bs| == 0 then [] else [render(bs[0])] + Cells(bs[1..], render)
  }

  /** Cell `i` renders byte `i`. */
  lemma {:induction false} CellsIndex(bs: seq<Byte>, render: Byte -> string)
    ensures forall i :: 0 <= i < |bs| ==> Cells(bs, render)[i] == render(bs[i])
  {
    if |bs| > 0 {
      CellsIndex(bs[1..], render);
    }
  }

  /** The text a rendering loop accumulates before its final `trim()`:
      every cell followed by one space. */
  function Spaced(xs: seq<string>): string {
    if |xs| == 0 then "" else xs[0] + " " + Spaced(xs[1..])
  }

  lemma {:induction false} SpacedIsJoin(xs: seq<string>)
    requires |xs| >= 1
    ensures Spaced(xs) == Join(xs, ' ') + " "
  {
    if |xs| > 1 {
      SpacedIsJoin(xs[1..]);
      assert Spaced(xs[1..]) == Join(xs[1..], ' ') + " ";
    } else {
      assert Spaced(xs[1..]) == "";
    }
  }

  lemma {:induction false} JoinEnds(xs: seq<string>, sep: char)
    requires |xs| >= 1
    requires forall k :: 0 <= k < |xs| ==> |xs[k]| > 0
    ensures |Join(xs, sep)| > 0
    ensures Join(xs, sep)[0] == xs[0][0]
    ensures Join(xs, sep)[|Join(xs, sep)| - 1] == xs[|xs| - 1][|xs[|xs| - 1]| - 1]
  {
    if |xs| > 1 {
      JoinEnds(xs[1..], sep);
    }
  }

  lemma {:induction false} SpacedSnoc(xs: seq<string>, x: string)
    ensures Spaced(xs + [x]) == Spaced(xs) + x + " "
  {
    if |xs| == 0 {
      assert xs + [x] == [x];
      assert Spaced([x]) == x + " " + Spaced([]);
    } else {
      assert (xs + [x])[1..] == xs[1..] + [x];
      SpacedSnoc(xs[1..], x);
      assert Spaced(xs + [x]) == xs[0] + " " + (Spaced(xs[1..]) + x + " ");
    }
  }

  lemma {:induction false} CellsSnoc(bs: seq<Byte>, b: Byte, render: Byte -> string)
    ensures Cells(bs + [b], render) == Cells(bs, render) + [render(b)]
  {
    if |bs| == 0 {
      assert bs + [b] == [b];
    } else {
      assert (bs + [b])[1..] == bs[1..] + [b];
      CellsSnoc(bs[1..], b, render);
    }
  }

  /** One more turn of a rendering loop appends the next cell and a space. */
  lemma SpacedCellsSnoc(buffer: seq<Byte>, i: nat, render: Byte -> string)
    requires i < |buffer|
    ensures Spaced(Cells(buffer[..i + 1], render)) == Spaced(Cells(buffer[..i], render)) + render(buffer[i]) + " "
  {
    assert buffer[..i + 1] == buffer[..i] + [buffer[i]];
    CellsSnoc(buffer[..i], buffer[i], render);
    SpacedSnoc(Cells(buffer[..i], render), render(buffer[i]));
  }

  /** Trimming the accumulated text removes exactly the last space, leaving
      the cells joined by single spaces. */
  lemma TrimSpaced(xs: seq<string>)
    requires forall k :: 0 <= k < |xs| ==> |xs[k]| > 0 && NoWhitespace(xs[k])
    ensures Trim(Spaced(xs)) == Join(xs, ' ')
  {
    if |xs| > 0 {
      SpacedIsJoin(xs);
      JoinEnds(xs, ' ');
      var last := xs[|xs| - 1];
      assert !IsWhitespace(last[|last| - 1]);
      assert !IsWhitespace(xs[0][0]);
      TrimTrailingSpace(Join(xs, ' '));
    }
  }

  /** A string whose ends are not whitespace loses just the one space put after it. */
  lemma TrimTrailingSpace(j: string)
    requires |j| > 0 && !IsWhitespace(j[0]) && !IsWhitespace(j[|j| - 1])
    ensures Trim(j + " ") == j
  {
    var js := j + " ";
    assert js[0] == j[0];
    assert TrimStart(js) == js;
    assert js[..|js| - 1] == j;
    assert TrimEnd(js) == TrimEnd(j);
    assert TrimEnd(j) == j;
  }

  /** Reads every piece as a cell; fails if any piece is not one. */
  function ParseCells(xs: seq<string>, width: nat, base: nat): Option<seq<Byte>> {
    if |xs| == 0 then Some([])
    else match (ParseCell(xs[0], width, base), ParseCells(xs[1..], width, base))
      case (Some(b), Some(bs)) => Some([b] + bs)
      case _ => None
  }

  lemma {:induction false} ParseCellsOfCells(bs: seq<Byte>, render: Byte -> string, width: nat, base: nat)
    requires forall b: Byte :: ParseCell(render(b), width, base) == Some(b)
    ensures ParseCells(Cells(bs, render), width, base) == Some(bs)
  {
    if |bs| > 0 {
      ParseCellsOfCells(bs[1..], render, width, base);
      assert Cells(bs, render)[1..] == Cells(bs[1..], render);
      assert bs == [bs[0]] + bs[1..];
    }
  }

  /** Reads a dump back: split on single spaces and read every piece as a cell;
      the empty dump holds no bytes. */
  function DecodeDump(s: string, width: nat, base: nat): Option<seq<Byte>> {
    if s == "" then Some([]) else ParseCells(Split(s, ' '), width, base)
  }

  /** Trimming the spaced cells leaves them joined by single spaces. */
  lemma DumpTrim(bs: seq<Byte>, render: Byte -> string)
    requires forall b: Byte :: |render(b)| > 0 && NoWhitespace(render(b))
    ensures Trim(Spaced(Cells(bs, render))) == Join(Cells(bs, render), ' ')
  {
    CellsIndex(bs, render);
    TrimSpaced(Cells(bs, render));
  }

  /** A dump of `n` cells of one width `w` has length `(w + 1) * n - 1`. */
  lemma DumpLength(bs: seq<Byte>, render: Byte -> string, width: nat)
    requires forall b: Byte :: |render(b)| == width
    ensures |Join(Cells(bs, render), ' ')| == if |bs| == 0 then 0 else (width + 1) * |bs| - 1
  {
    if |bs| > 0 {
      CellsIndex(bs, render);
      JoinLength(Cells(bs, render), ' ', width);
    }
  }

  /** A dump of cells that hold no space and read back decodes to the bytes rendered. */
  lemma DumpDecode(bs: seq<Byte>, render: Byte -> string, width: nat, base: nat)
    requires width >= 1
    requires forall b: Byte :: |render(b)| == width && ' ' !in render(b)
    requires forall b: Byte :: ParseCell(render(b), width, base) == Some(b)
    ensures DecodeDump(Join(Cells(bs, render), ' '), width, base) == Some(bs)
  {
    var xs := Cells(bs, render);
    ParseCellsOfCells(bs, render, width, base);
    if |bs| > 0 {
      DumpLength(bs, render, width);
      assert (width + 1) * |bs| - 1 > 0;
      CellsIndex(bs, render);
      SplitJoin(xs, ' ');
    }
  }

  lemma HexCellsReadable()
    ensures forall b: Byte :: |HexCell(b)| == 2 && NoWhitespace(HexCell(b))
    ensures forall b: Byte :: ParseCell(HexCell(b), 2, 16) == Some(b)
    ensures forall b: Byte :: ' ' !in HexCell(b)
  {
    forall b: Byte
      ensures |HexCell(b)| == 2 && NoWhitespace(HexCell(b))
      ensures ParseCell(HexCell(b), 2, 16) == Some(b)
      ensures ' ' !in HexCell(b)
    {
      HexCellReadable(b);
    }
  }

  /** No pair of upper-case hex digits is blank. */
  lemma HexPairNotBlank(c: string)
    requires |c| == 2 && IsUpperHexDigit(c[0]) && IsUpperHexDigit(c[1])
    ensures NoWhitespace(c) && ' ' !in c
  {
    assert c == [c[0], c[1]];
  }

  lemma HexCellReadable(b: Byte)
    ensures |HexCell(b)| == 2 && NoWhitespace(HexCell(b))
    ensures ParseCell(HexCell(b), 2, 16) == Some(b)
    ensures ' ' !in HexCell(b)
  {
    HexCellShape(b);
    HexPairNotBlank(HexCell(b));
  }

  lemma BinaryCellsReadable()
    ensures forall b: Byte :: |BinaryCell(b)| == 8 && NoWhitespace(BinaryCell(b))
    ensures forall b: Byte :: ParseCell(BinaryCell(b), 8, 2) == Some(b)
    ensures forall b: Byte :: ' ' !in BinaryCell(b)
  {
    forall b: Byte
      ensures |BinaryCell(b)| == 8 && NoWhitespace(BinaryCell(b))
      ensures ParseCell(BinaryCell(b), 8, 2) == Some(b)
      ensures ' ' !in BinaryCell(b)
    {
      BinaryCellReadable(b);
    }
  }

  lemma BinaryCellReadable(b: Byte)
    ensures |BinaryCell(b)| == 8 && NoWhitespace(BinaryCell(b))
    ensures ParseCell(BinaryCell(b), 8, 2) == Some(b)
    ensures ' ' !in BinaryCell(b)
  {
    BinaryCellShape(b);
    BinaryDigitsNotBlank(BinaryCell(b));
  }

  /** No binary digit is blank. */
  lemma BinaryDigitsNotBlank(c: string)
    requires forall i :: 0 <= i < |c| ==> c[i] == '0' || c[i] == '1'
    ensures NoWhitespace(c) && ' ' !in c
  {
  }

  /** The text `bufferToHex(buffer, limit)` returns: the first `Shown` bytes as upper-case hex
      pairs joined by single spaces, with nothing after the last pair (in
      particular no mark that bytes were left out). */
  function HexDump(buffer: seq<Byte>, limit: int): (r: string)
    ensures |r| == if Shown(|buffer|, limit) == 0 then 0 else 3 * Shown(|buffer|, limit) - 1
  {
    HexDumpLength(buffer[..Shown(|buffer|, limit)]);
    Join(Cells(buffer[..Shown(|buffer|, limit)], HexCell), ' ')
  }

  /** `bufferToHex(buffer, limit)` as written: append every cell shown and a space,
      then trim the accumulated text. */
  method BufferToHex(buffer: seq<Byte>, limit: int) returns (hex: string)
    ensures hex == HexDump(buffer, limit)
  {
    var length := Shown(|buffer|, limit);
    hex := "";
    for i := 0 to length
      invariant hex == Spaced(Cells(buffer[..i], HexCell))
    {
      SpacedCellsSnoc(buffer, i, HexCell);
      hex := hex + HexCell(buffer[i]) + " ";
    }
    HexDumpTrim(buffer[..length]);
    hex := Trim(hex);
  }

  /** The trimmed hex text is the cells joined by single spaces. */
  lemma HexDumpTrim(shown: seq<Byte>)
    ensures Trim(Spaced(Cells(shown, HexCell))) == Join(Cells(shown, HexCell), ' ')
  {
    HexCellsReadable();
    DumpTrim(shown, HexCell);
  }

  /** The hex text of `n` bytes has `3n - 1` characters. */
  lemma HexDumpLength(shown: seq<Byte>)
    ensures |Join(Cells(shown, HexCell), ' ')| == if |shown| == 0 then 0 else 3 * |shown| - 1
  {
    HexCellsReadable();
    DumpLength(shown, HexCell, 2);
  }

  /** Hex round trip: splitting the dump on spaces and reading every pair gives
      back the rendered prefix of the buffer. */
  lemma HexDumpRoundTrip(buffer: seq<Byte>, limit: int)
    ensures DecodeDump(HexDump(buffer, limit), 2, 16) == Some(buffer[..Shown(|buffer|, limit)])
  {
    HexCellsReadable();
    DumpDecode(buffer[..Shown(|buffer|, limit)], HexCell, 2, 16);
  }

  /** Every byte shown is two upper-case hex digits, followed by a single space
      unless it is the last one. */
  lemma HexDumpLayout(buffer: seq<Byte>, limit: int, k: nat)
    requires k < Shown(|buffer|, limit)
    ensures 3 * k + 2 <= |HexDump(buffer, limit)|
    ensures HexDump(buffer, limit)[3 * k..3 * k + 2] == HexCell(buffer[k])
    ensures IsUpperHexDigit(HexDump(buffer, limit)[3 * k])
    ensures IsUpperHexDigit(HexDump(buffer, limit)[3 * k + 1])
    ensures k + 1 < Shown(|buffer|, limit) ==> HexDump(buffer, limit)[3 * k + 2] == ' '
  {
    var shown := buffer[..Shown(|buffer|, limit)];
    assert shown[k] == buffer[k];
    HexJoinLayout(shown, k);
  }

  /** Hex cell `k` of the joined cells sits at offset `3k`. */
  lemma HexJoinLayout(bs: seq<Byte>, k: nat)
    requires k < |bs|
    ensures 3 * k + 2 <= |Join(Cells(bs, HexCell), ' ')|
    ensures Join(Cells(bs, HexCell), ' ')[3 * k..3 * k + 2] == HexCell(bs[k])
    ensures IsUpperHexDigit(Join(Cells(bs, HexCell), ' ')[3 * k])
    ensures IsUpperHexDigit(Join(Cells(bs, HexCell), ' ')[3 * k + 1])
    ensures k + 1 < |bs| ==> 3 * k + 2 < |Join(Cells(bs, HexCell), ' ')|
                             && Join(Cells(bs, HexCell), ' ')[3 * k + 2] == ' '
  {
    HexCellsWidth(bs);
    JoinLayout(Cells(bs, HexCell), ' ', 2, k, 3 * k);
    CellAt(bs, HexCell, k);
    HexPairAt(Join(Cells(bs, HexCell), ' '), 3 * k, bs[k]);
  }

  /** Where the hex cell of `b` sits, two upper-case hex digits sit. */
  lemma HexPairAt(d: string, o: nat, b: Byte)
    requires o + 2 <= |d| && d[o..o + 2] == HexCell(b)
    ensures IsUpperHexDigit(d[o]) && IsUpperHexDigit(d[o + 1])
  {
    HexCellShape(b);
    assert d[o] == d[o..o + 2][0] && d[o + 1] == d[o..o + 2][1];
  }

  lemma CellAt(bs: seq<Byte>, render: Byte -> string, k: nat)
    requires k < |bs|
    ensures Cells(bs, render)[k] == render(bs[k])
  {
    CellsIndex(bs, render);
  }

  lemma HexCellsWidth(bs: seq<Byte>)
    ensures forall j :: 0 <= j < |bs| ==> |Cells(bs, HexCell)[j]| == 2
  {
    CellsIndex(bs, HexCell);
    forall j | 0 <= j < |bs|
      ensures |Cells(bs, HexCell)[j]| == 2
    {
      HexCellShape(bs[j]);
    }
  }

  /** Piece `k` of a join of width-`w` pieces sits at offset `o = (w + 1) * k`. */
  lemma {:induction false} JoinLayout(xs: seq<string>, sep: char, w: nat, k: nat, o: nat)
    requires forall j :: 0 <= j < |xs| ==> |xs[j]| == w
    requires k < |xs| && o == (w + 1) * k
    ensures o + w <= |Join(xs, sep)|
    ensures Join(xs, sep)[o..o + w] == xs[k]
    ensures k + 1 < |xs| ==> o + w < |Join(xs, sep)| && Join(xs, sep)[o + w] == sep
  {
    if |xs| > 1 {
      var head := xs[0] + [sep];
      var rest := Join(xs[1..], sep);
      assert Join(xs, sep) == head + rest;
      if k > 0 {
        MulStep(w + 1, k);
        JoinLayout(xs[1..], sep, w, k - 1, o - (w + 1));
        SliceAfter(head, rest, o - (w + 1), w);
      } else {
        SliceBefore(xs[0], sep, rest);
      }
    } else {
      assert xs[0][0..w] == xs[0];
    }
  }

  lemma MulStep(m: nat, k: nat)
    requires k >= 1
    ensures m * k == m * (k - 1) + m
  {
  }

  /** The piece in front of a separator. */
  lemma SliceBefore(a: string, sep: char, rest: string)
    ensures (a + [sep] + rest)[0..|a|] == a
    ensures (a + [sep] + rest)[|a|] == sep
  {
  }

  /** A slice of `b` is found `|a|` further on in `a + b`. */
  lemma SliceAfter(a: string, b: string, o: nat, w: nat)
    requires o + w <= |b|
    ensures (a + b)[|a| + o..|a| + o + w] == b[o..o + w]
    ensures o + w < |b| ==> (a + b)[|a| + o + w] == b[o + w]
  {
  }

  /** The text `bufferToBinaryString(buffer, limit)` returns: the first `Shown` bytes as eight
      binary digits each, joined by single spaces. */
  function BinaryDump(buffer: seq<Byte>, limit: int): (r: string)
    ensures |r| == if Shown(|buffer|, limit) == 0 then 0 else 9 * Shown(|buffer|, limit) - 1
  {
    BinaryDumpLength(buffer[..Shown(|buffer|, limit)]);
    Join(Cells(buffer[..Shown(|buffer|, limit)], BinaryCell), ' ')
  }

  /** `bufferToBinaryString(buffer, limit)` as written: append every cell shown and a space,
      then trim the accumulated text. */
  method BufferToBinary(buffer: seq<Byte>, limit: int) returns (binary: string)
    ensures binary == BinaryDump(buffer, limit)
  {
    var length := Shown(|buffer|, limit);
    binary := "";
    for i := 0 to length
      invariant binary == Spaced(Cells(buffer[..i], BinaryCell))
    {
      SpacedCellsSnoc(buffer, i, BinaryCell);
      binary := binary + BinaryCell(buffer[i]) + " ";
    }
    BinaryDumpTrim(buffer[..length]);
    binary := Trim(binary);
  }

  /** The trimmed binary text is the cells joined by single spaces. */
  lemma BinaryDumpTrim(shown: seq<Byte>)
    ensures Trim(Spaced(Cells(shown, BinaryCell))) == Join(Cells(shown, BinaryCell), ' ')
  {
    BinaryCellsReadable();
    DumpTrim(shown, BinaryCell);
  }

  /** The binary text of `n` bytes has `9n - 1` characters. */
  lemma BinaryDumpLength(shown: seq<Byte>)
    ensures |Join(Cells(shown, BinaryCell), ' ')| == if |shown| == 0 then 0 else 9 * |shown| - 1
  {
    BinaryCellsReadable();
    DumpLength(shown, BinaryCell, 8);
  }

  /** Binary round trip: splitting on spaces and reading every octet gives back
      the rendered prefix of the buffer. */
  lemma BinaryDumpRoundTrip(buffer: seq<Byte>, limit: int)
    ensures DecodeDump(BinaryDump(buffer, limit), 8, 2) == Some(buffer[..Shown(|buffer|, limit)])
  {
    BinaryCellsReadable();
    DumpDecode(buffer[..Shown(|buffer|, limit)], BinaryCell, 8, 2);
  }

  /** A dump of no more bytes than the limit renders all of them. */
  lemma BinaryDumpWhole(bs: seq<Byte>, limit: int)
    requires |bs| <= limit
    ensures BinaryDump(bs, limit) == Join(Cells(bs, BinaryCell), ' ')
  {
    ShownWhole(bs, limit);
  }

  /** A buffer no longer than the limit is shown whole. */
  lemma ShownWhole(bs: seq<Byte>, limit: int)
    requires |bs| <= limit
    ensures bs[..Shown(|bs|, limit)] == bs
  {
  }

  /** The empty buffer dumps to nothing; the lowest and highest byte to eight
      equal digits. */
  lemma BinaryDumpExtremes()
    ensures BinaryDump([], BinaryLimit) == ""
    ensures BinaryDump([0x00], BinaryLimit) == "00000000"
    ensures BinaryDump([0xFF], BinaryLimit) == "11111111"
  {
    BinaryDumpWhole([0x00], BinaryLimit);
    BinaryDumpWhole([0xFF], BinaryLimit);
    BinaryCellExtremes();
  }

  lemma BinaryCellExtremes()
    ensures BinaryCell(0x00) == "00000000"
    ensures BinaryCell(0xFF) == "11111111"
  {
    assert Repeat('0', 7) == "0000000";
    assert ToRadix(255, 2) == "11111111";
  }

  // ---------------------------------------------------------------------
  // The Python bytes literal
  // ---------------------------------------------------------------------

  const PyHeader := "file_data = b'"

  function Escapes(bs: seq<Byte>): (r: string)
    ensures |r| == 4 * |bs|
  {
    if |bs| == 0 then "" else PyEscapeShape(bs[0]); PyEscape(bs[0]) + Escapes(bs[1..])
  }

  /** The comment appended when bytes were left out: the count shown and the
      count given, in decimal. */
  function TruncationNote(shown: nat, total: nat): string {
    "\n# ... truncated (showing " + ToRadix(shown, 10) + " of " + ToRadix(total, 10) + " bytes)"
  }

  /** What follows the closing quote: the note when bytes were left out, else nothing. */
  function PythonTail(total: nat): string {
    if total > PythonLimit then TruncationNote(Shown(total, PythonLimit), total) else ""
  }

  /** The literal line for the bytes processed: header, escapes, closing quote. */
  function PyLiteral(bs: seq<Byte>): (r: string)
    ensures |r| == |PyHeader| + 4 * |bs| + 1
    ensures r[..|PyHeader|] == PyHeader
    ensures r[|PyHeader|..] == Escapes(bs) + "'"
  {
    var e := Escapes(bs);
    assert (PyHeader + e + "'")[..|PyHeader|] == PyHeader;
    assert (PyHeader + e + "'")[|PyHeader|..] == e + "'";
    PyHeader + e + "'"
  }

  /** `bufferToPythonBytes(buffer)`: a `file_data = b'...'` line of escapes for at
      most the first 2000 bytes, and a comment naming both counts when more
      bytes were given. */
  function PythonBytes(buffer: seq<Byte>): (r: string)
    ensures |r| == |PyHeader| + 4 * Shown(|buffer|, PythonLimit) + 1 + |PythonTail(|buffer|)|
    ensures r[..|PyHeader|] == PyHeader
    ensures r[|PyHeader|..] == Escapes(buffer[..Shown(|buffer|, PythonLimit)]) + "'" + PythonTail(|buffer|)
  {
    var shown := buffer[..Shown(|buffer|, PythonLimit)];
    var literal := PyLiteral(shown);
    if |buffer| > PythonLimit then
      var note := TruncationNote(Shown(|buffer|, PythonLimit), |buffer|);
      AppendAfterHeader(literal, note);
      literal + note
    else
      assert |buffer| <= PythonLimit;
      literal
  }

  lemma AppendAfterHeader(lit: string, note: string)
    requires |lit| >= |PyHeader|
    ensures (lit + note)[..|PyHeader|] == lit[..|PyHeader|]
    ensures (lit + note)[|PyHeader|..] == lit[|PyHeader|..] + note
  {
  }

  /** Reads escapes `\xNN` from the front of `t` for as long as they occur,
      returning the bytes read and the text after them. */
  function DecodeEscapes(t: string): (seq<Byte>, string)
    decreases |t|
  {
    if |t| >= 4 && t[0] == '\\' && t[1] == 'x' && ParseCell(t[2..4], 2, 16).Some? then
      var more := DecodeEscapes(t[4..]);
      ([ParseCell(t[2..4], 2, 16).value] + more.0, more.1)
    else ([], t)
  }

  lemma {:induction false} DecodeEscapesRoundTrip(bs: seq<Byte>, tail: string)
    requires |tail| > 0 && tail[0] != '\\'
    ensures DecodeEscapes(Escapes(bs) + tail) == (bs, tail)
  {
    if |bs| == 0 {
      assert Escapes(bs) + tail == tail;
    } else {
      var rest := Escapes(bs[1..]) + tail;
      EscapesThen(bs, tail);
      DecodeEscapesRoundTrip(bs[1..], tail);
      DecodeOneEscape(bs[0], rest);
      HeadThenRest(bs);
    }
  }

  lemma HeadThenRest(bs: seq<Byte>)
    requires |bs| > 0
    ensures [bs[0]] + bs[1..] == bs
  {
  }

  lemma EscapesThen(bs: seq<Byte>, tail: string)
    requires |bs| > 0
    ensures Escapes(bs) + tail == PyEscape(bs[0]) + (Escapes(bs[1..]) + tail)
  {
    var e := PyEscape(bs[0]);
    var m := Escapes(bs[1..]);
    assert Escapes(bs) == e + m;
    Associative(e, m, tail);
  }

  lemma Associative(a: string, b: string, c: string)
    ensures (a + b) + c == a + (b + c)
  {
  }

  /** One escape in front of `rest` is read as its byte, then `rest` is read. */
  lemma DecodeOneEscape(b: Byte, rest: string)
    ensures DecodeEscapes(PyEscape(b) + rest)
              == ([b] + DecodeEscapes(rest).0, DecodeEscapes(rest).1)
  {
    var e := PyEscape(b);
    var t := e + rest;
    PyEscapeShape(b);
    assert t[2..4] == e[2..];
    assert t[4..] == rest;
  }

  /** Reads a literal written by `PythonBytes`: the header, the escapes and the
      closing quote; yields the bytes and whatever text follows the quote. */
  function DecodePythonBytes(s: string): Option<(seq<Byte>, string)> {
    if |s| >= |PyHeader| && s[..|PyHeader|] == PyHeader then
      var body := DecodeEscapes(s[|PyHeader|..]);
      if |body.1| > 0 && body.1[0] == '\'' then Some((body.0, body.1[1..])) else None
    else None
  }

  /** Python literal round trip: the escapes decode to the first
      min(|buffer|, 2000) bytes in order, and what follows the closing quote is
      the truncation comment exactly when more than 2000 bytes were given. */
  lemma PythonBytesRoundTrip(buffer: seq<Byte>)
    ensures DecodePythonBytes(PythonBytes(buffer))
              == Some((buffer[..Shown(|buffer|, PythonLimit)], PythonTail(|buffer|)))
  {
    var r := PythonBytes(buffer);
    DecodeLiteral(r, buffer[..Shown(|buffer|, PythonLimit)], PythonTail(|buffer|));
  }

  /** A header, the escapes of `bs`, a quote and then `tail` read back as `bs` and `tail`. */
  lemma DecodeLiteral(s: string, bs: seq<Byte>, tail: string)
    requires |s| >= |PyHeader| && s[..|PyHeader|] == PyHeader
    requires s[|PyHeader|..] == Escapes(bs) + "'" + tail
    ensures DecodePythonBytes(s) == Some((bs, tail))
  {
    EscapesThenQuote(bs, tail);
    QuoteThenTail(tail);
  }

  /** The escapes of `bs` before a quote read back as `bs`, stopping at the quote. */
  lemma EscapesThenQuote(bs: seq<Byte>, tail: string)
    ensures DecodeEscapes(Escapes(bs) + "'" + tail) == (bs, "'" + tail)
  {
    assert Escapes(bs) + "'" + tail == Escapes(bs) + ("'" + tail);
    DecodeEscapesRoundTrip(bs, "'" + tail);
  }

  lemma QuoteThenTail(tail: string)
    ensures |"'" + tail| > 0 && ("'" + tail)[0] == '\''
    ensures ("'" + tail)[1..] == tail
  {
  }

  /** Exactly 2000 bytes carry no comment; 2001 bytes carry
      "showing 2000 of 2001 bytes". */
  lemma PythonTruncationBoundary(exact: seq<Byte>, over: seq<Byte>)
    requires |exact| == 2000 && |over| == 2001
    ensures PythonBytes(exact) == PyLiteral(exact)
    ensures PythonBytes(over) == PyLiteral(over[..2000]) + "\n# ... truncated (showing 2000 of 2001 bytes)"
  {
    assert exact[..2000] == exact;
    TruncationNoteText();
  }

  /** The comment for 2001 bytes, written out. */
  lemma TruncationNoteText()
    ensures TruncationNote(2000, 2001) == "\n# ... truncated (showing 2000 of 2001 bytes)"
  {
    assert ToRadix(2000, 10) == "2000";
    assert ToRadix(2001, 10) == "2001";
  }

  lemma JoinFour(a: string, b: string, c: string, d: string, sep: char)
    ensures Join([a, b, c, d], sep) == a + [sep] + b + [sep] + c + [sep] + d
  {
    assert [a, b, c, d][1..] == [b, c, d];
    assert [b, c, d][1..] == [c, d];
    assert [c, d][1..] == [d];
    assert Join([d], sep) == d;
    assert Join([c, d], sep) == c + [sep] + d;
    assert Join([b, c, d], sep) == b + [sep] + (c + [sep] + d);
    assert Join([a, b, c, d], sep) == a + [sep] + (b + [sep] + (c + [sep] + d));
  }

  /** The four bytes of the text "Hell". */
  predicate IsHell(bs: seq<Byte>) {
    |bs| == 4 && bs[0] == 0x48 && bs[1] == 0x65 && bs[2] == 0x6C && bs[3] == 0x6C
  }

  lemma HexCellsOfHell(bs: seq<Byte>)
    requires IsHell(bs)
    ensures Cells(bs, HexCell) == ["48", "65", "6C", "6C"]
  {
    CellsFour(bs, HexCell);
    HexCellIs(bs[0], "48");
    HexCellIs(bs[1], "65");
    HexCellIs(bs[2], "6C");
    HexCellIs(bs[3], "6C");
  }

  lemma CellsFour(bs: seq<Byte>, render: Byte -> string)
    requires |bs| == 4
    ensures Cells(bs, render) == [render(bs[0]), render(bs[1]), render(bs[2]), render(bs[3])]
  {
    CellsIndex(bs, render);
  }

  /** The hex cell of `b` is the two characters `s` that spell it. */
  lemma HexCellIs(b: Byte, s: string)
    requires |s| == 2 && s[0] == UpperHexDigit(b / 16) && s[1] == UpperHexDigit(b % 16)
    ensures HexCell(b) == s
  {
    HexCellNibbles(b);
    assert s == [s[0], s[1]];
  }

  /** The dump depends only on the bytes shown: the bytes past the limit
      leave no trace, not even a mark that they were left out. */
  lemma HexDumpPrefix(buffer: seq<Byte>, limit: int)
    ensures HexDump(buffer, limit) == HexDump(buffer[..Shown(|buffer|, limit)], limit)
    ensures HexDump(buffer, limit) == Join(Cells(buffer[..Shown(|buffer|, limit)], HexCell), ' ')
  {
    var shown := buffer[..Shown(|buffer|, limit)];
    if limit > 0 {
      HexDumpWhole(shown, limit);
    }
  }

  lemma HexDumpWhole(bs: seq<Byte>, limit: int)
    requires |bs| <= limit
    ensures HexDump(bs, limit) == Join(Cells(bs, HexCell), ' ')
  {
    ShownWhole(bs, limit);
  }

  lemma JoinOfHell()
    ensures Join(["48", "65", "6C", "6C"], ' ') == "48 65 6C 6C"
  {
    JoinFour("48", "65", "6C", "6C", ' ');
  }

  /** The four-byte example "Hell": hex dump. */
  lemma HexDumpExample(bs: seq<Byte>)
    requires IsHell(bs)
    ensures HexDump(bs, HexLimit) == "48 65 6C 6C"
  {
    HexDumpWhole(bs, HexLimit);
    HexCellsOfHell(bs);
    JoinOfHell();
  }

  lemma EscapesOfHell(bs: seq<Byte>)
    requires IsHell(bs)
    ensures Escapes(bs) == "\\x48" + ("\\x65" + ("\\x6c" + "\\x6c"))
  {
    EscapesQuad(bs);
    EscapeOfH(bs[0]);
    EscapeOfE(bs[1]);
    EscapeOfL(bs[2]);
  }

  lemma EscapesQuad(bs: seq<Byte>)
    requires |bs| == 4
    ensures Escapes(bs) == PyEscape(bs[0]) + (PyEscape(bs[1]) + (PyEscape(bs[2]) + PyEscape(bs[3])))
  {
    EscapesTriple(bs[1..]);
  }

  lemma EscapesTriple(bs: seq<Byte>)
    requires |bs| == 3
    ensures Escapes(bs) == PyEscape(bs[0]) + (PyEscape(bs[1]) + PyEscape(bs[2]))
  {
    EscapesPair(bs[1..]);
  }

  lemma EscapesPair(bs: seq<Byte>)
    requires |bs| == 2
    ensures Escapes(bs) == PyEscape(bs[0]) + PyEscape(bs[1])
  {
    assert Escapes(bs[1..]) == PyEscape(bs[1]) + Escapes([]);
  }

  // One escape per lemma: three in one context exceed the resource budget.
  lemma EscapeOfH(b: Byte)
    requires b == 0x48
    ensures PyEscape(b) == "\\x48"
  {
    EscapeIs(b, "\\x48");
  }

  lemma EscapeOfE(b: Byte)
    requires b == 0x65
    ensures PyEscape(b) == "\\x65"
  {
    EscapeIs(b, "\\x65");
  }

  lemma EscapeOfL(b: Byte)
    requires b == 0x6C
    ensures PyEscape(b) == "\\x6c"
  {
    EscapeIs(b, "\\x6c");
  }

  /** The escape of `b` is the four characters `s` that spell it. */
  lemma EscapeIs(b: Byte, s: string)
    requires |s| == 4 && s[0] == '\\' && s[1] == 'x'
    requires s[2] == DigitChar(b / 16) && s[3] == DigitChar(b % 16)
    ensures PyEscape(b) == s
  {
    var hi, lo := DigitChar(b / 16), DigitChar(b % 16);
    PyEscapeNibbles(b);
    assert PyEscape(b) == ['\\', 'x', hi, lo];
    FourChars(s);
  }

  lemma FourChars(s: string)
    requires |s| == 4
    ensures s == [s[0], s[1], s[2], s[3]]
  {
  }

  /** No more than 2000 bytes: the literal alone, with no comment after it. */
  lemma PythonBytesShort(buffer: seq<Byte>)
    requires |buffer| <= PythonLimit
    ensures PythonBytes(buffer) == PyLiteral(buffer)
  {
    var n := Shown(|buffer|, PythonLimit);
    assert buffer[..n] == buffer;
    assert PythonTail(|buffer|) == "";
  }

  /** More than 2000 bytes: the literal of the first 2000, then the comment
      naming 2000 and the full count; otherwise the literal of all the bytes. */
  lemma PythonTruncation(buffer: seq<Byte>)
    ensures |buffer| > PythonLimit ==>
              PythonBytes(buffer) == PyLiteral(buffer[..PythonLimit]) + TruncationNote(PythonLimit, |buffer|)
    ensures |buffer| <= PythonLimit ==> PythonBytes(buffer) == PyLiteral(buffer)
  {
    if |buffer| <= PythonLimit {
      PythonBytesShort(buffer);
    }
  }

  /** The comment names its two counts in decimal, where they can be read back. */
  lemma TruncationNoteCounts(shown: nat, total: nat)
    ensures var pre := "\n# ... truncated (showing ";
            var a := ToRadix(shown, 10);
            var note := TruncationNote(shown, total);
            |pre| + |a| <= |note| && ParseRadix(note[|pre|..|pre| + |a|], 10) == Some(shown)
    ensures var o := |"\n# ... truncated (showing "| + |ToRadix(shown, 10)| + |" of "|;
            var b := ToRadix(total, 10);
            var note := TruncationNote(shown, total);
            o + |b| <= |note| && ParseRadix(note[o..o + |b|], 10) == Some(total)
  {
    var pre := "\n# ... truncated (showing ";
    var a := ToRadix(shown, 10);
    var b := ToRadix(total, 10);
    var note := TruncationNote(shown, total);
    var o := |pre| + |a| + |" of "|;
    assert note == pre + a + " of " + b + " bytes)";
    assert note[|pre|..|pre| + |a|] == a;
    assert note[o..o + |b|] == b;
    RadixRoundTrip(shown, 10);
    RadixRoundTrip(total, 10);
  }

  /** The four-byte example "Hell": Python literal, with no truncation comment. */
  lemma PythonBytesExample(bs: seq<Byte>)
    requires IsHell(bs)
    ensures PythonBytes(bs) == PyHeader + ("\\x48" + ("\\x65" + ("\\x6c" + "\\x6c"))) + "'"
  {
    PythonBytesShort(bs);
    EscapesOfHell(bs);
    assert PyLiteral(bs) == PyHeader + Escapes(bs) + "'";
  }
}
