/** One line of the screen: a location, sixteen bytes in one of five formats, and their characters. */
module RowPrinter {
  import opened Words
  import Hex

  const BUFWIDE := 16
  /** Capacity of the array the line is printed into. */
  const OUTLINE := 80

  predicate IsFormat(k: int) { k == 1 || k == 2 || k == 4 || k == 8 || k == 16 }

  // ----- what a row says ----------------------------------------------------

  /** A `k`-byte number centred in the 3k columns that every format gives it. */
  function Cell(k: nat, value: nat): string {
    Hex.Spaces(k / 2) + Hex.Print(value, 2 * k) + Hex.Spaces(k - k / 2)
  }

  function Cells(k: nat, bs: seq<byte>): string
    requires k > 0
  {
    if |bs| < k then "" else Cell(k, LittleEndian(bs[..k])) + Cells(k, bs[k..])
  }

  /** Printable ASCII stands for itself, every other byte for a dot. */
  function Shown(b: byte): char {
    if ' ' as int <= b <= '~' as int then b as char else '.'
  }

  function Characters(bs: seq<byte>): string {
    if bs == [] then "" else Characters(bs[..|bs| - 1]) + [Shown(bs[|bs| - 1])]
  }

  function Label(location: nat): string { Hex.Print(location, 13) + " " }

  function Row(k: nat, location: nat, bs: seq<byte>): string
    requires k > 0
  {
    Label(location) + Cells(k, bs) + Characters(bs)
  }

  /** `n` bytes are a whole number of `k`-byte cells. */
  ghost predicate Fills(k: nat, n: nat)
    requires k > 0
  {
    n == 0 || (n >= k && Fills(k, n - k))
  }

  lemma FormatsFillRows(k: nat)
    requires IsFormat(k)
    ensures Fills(k, BUFWIDE)
  {
    var n := 0;
    while n < BUFWIDE
      invariant n % k == 0 && n <= BUFWIDE && Fills(k, n)
    {
      n := n + k;
    }
  }

  // ----- reading a row back -------------------------------------------------

  function ParseCells(k: nat, s: string): seq<byte>
    requires k > 0
  {
    if |s| < 3 * k then []
    else Bytes(Hex.ValueOf(s[k / 2..k / 2 + 2 * k]), k) + ParseCells(k, s[3 * k..])
  }

  /** The address and the bytes a 16-byte row of format `k` stands for. */
  function ParseRow(k: nat, row: string): (nat, seq<byte>)
    requires k > 0 && |row| >= 65
  {
    (Hex.ValueOf(row[..|row| - 65]), ParseCells(k, row[|row| - 64..|row| - 16]))
  }

  lemma CellLength(k: nat, bs: seq<byte>)
    requires k > 0 && |bs| == k
    ensures |Hex.Print(LittleEndian(bs), 2 * k)| == 2 * k
    ensures |Cell(k, LittleEndian(bs))| == 3 * k
  {
    BytesOfLittleEndian(bs);
    Pow256IsPow16(k);
    Hex.PrintLength(LittleEndian(bs), 2 * k);
  }

  lemma {:induction false} CellsLength(k: nat, bs: seq<byte>)
    requires k > 0 && Fills(k, |bs|)
    ensures |Cells(k, bs)| == 3 * |bs|
    decreases |bs|
  {
    if bs != [] {
      CellLength(k, bs[..k]);
      CellsLength(k, bs[k..]);
    }
  }

  /** The first cell reads back as its bytes. */
  lemma ParseFirstCell(k: nat, head: seq<byte>, rest: string)
    requires k > 0 && |head| == k
    ensures ParseCells(k, Cell(k, LittleEndian(head)) + rest) == head + ParseCells(k, rest)
  {
    var value := LittleEndian(head);
    CellLength(k, head);
    CellDigits(k, value, rest);
    Hex.PrintRoundTrip(value, 2 * k);
    BytesOfLittleEndian(head);
  }

  /** Every format spends three columns a byte, and its numbers read back as the bytes. */
  lemma {:induction false} CellsRoundTrip(k: nat, bs: seq<byte>)
    requires k > 0 && Fills(k, |bs|)
    ensures |Cells(k, bs)| == 3 * |bs|
    ensures ParseCells(k, Cells(k, bs)) == bs
    decreases |bs|
  {
    CellsLength(k, bs);
    if bs == [] {
    } else {
      CellsStep(k, bs);
      calc {
        ParseCells(k, Cells(k, bs));
        ParseCells(k, Cell(k, LittleEndian(bs[..k])) + Cells(k, bs[k..]));
        { ParseFirstCell(k, bs[..k], Cells(k, bs[k..])); }
        bs[..k] + ParseCells(k, Cells(k, bs[k..]));
        { CellsRoundTrip(k, bs[k..]); }
        bs[..k] + bs[k..];
        bs;
      }
    }
  }

  lemma CellsStep(k: nat, bs: seq<byte>)
    requires k > 0 && Fills(k, |bs|) && bs != []
    ensures k <= |bs| && Fills(k, |bs| - k)
    ensures Cells(k, bs) == Cell(k, LittleEndian(bs[..k])) + Cells(k, bs[k..])
  {
  }

  /** Where a cell in front of `rest` keeps its digits. */
  lemma CellDigits(k: nat, value: nat, rest: string)
    requires |Hex.Print(value, 2 * k)| == 2 * k
    ensures var s := Cell(k, value) + rest;
      && |s| == 3 * k + |rest|
      && s[k / 2..k / 2 + 2 * k] == Hex.Print(value, 2 * k)
      && s[3 * k..] == rest
  {
    Middle(Hex.Spaces(k / 2), Hex.Print(value, 2 * k), Hex.Spaces(k - k / 2) + rest);
    assert Cell(k, value) + rest == Hex.Spaces(k / 2) + Hex.Print(value, 2 * k) + (Hex.Spaces(k - k / 2) + rest);
  }

  lemma Middle<T>(a: seq<T>, b: seq<T>, c: seq<T>)
    ensures (a + b + c)[..|a|] == a
    ensures (a + b + c)[|a|..|a| + |b|] == b
    ensures (a + b + c)[|a| + |b|..] == c
  {
  }

  lemma {:induction false} CharactersLength(bs: seq<byte>)
    ensures |Characters(bs)| == |bs|
  {
    if bs != [] { CharactersLength(bs[..|bs| - 1]); }
  }

  lemma {:induction false} CharacterAt(bs: seq<byte>, j: nat)
    requires j < |bs|
    ensures |Characters(bs)| == |bs|
    ensures Characters(bs)[j] == if 0x20 <= bs[j] <= 0x7E then bs[j] as char else '.'
  {
    CharactersLength(bs);
    CharactersLength(bs[..|bs| - 1]);
    if j < |bs| - 1 { CharacterAt(bs[..|bs| - 1], j); }
  }

  /** The last sixteen columns show the printable bytes as they are and dots for the others. */
  ghost predicate ShowsCharacters(row: string, bs: seq<byte>)
    requires |row| >= |bs|
  {
    forall j :: 0 <= j < |bs| ==> row[|row| - |bs| + j] == if 0x20 <= bs[j] <= 0x7E then bs[j] as char else '.'
  }

  lemma RowCharacters(k: nat, location: nat, bs: seq<byte>)
    requires k > 0
    ensures |Row(k, location, bs)| >= |bs| && ShowsCharacters(Row(k, location, bs), bs)
  {
    CharactersLength(bs);
    forall j | 0 <= j < |bs|
      ensures Characters(bs)[j] == if 0x20 <= bs[j] <= 0x7E then bs[j] as char else '.'
    {
      CharacterAt(bs, j);
    }
    Behind(Label(location) + Cells(k, bs), Characters(bs));
  }

  lemma Behind(front: string, chars: string)
    ensures forall j :: 0 <= j < |chars| ==> (front + chars)[|front + chars| - |chars| + j] == chars[j]
  {
  }

  lemma {:induction false} CellsJoin(k: nat, a: seq<byte>, b: seq<byte>)
    requires k > 0 && Fills(k, |a|)
    ensures Cells(k, a + b) == Cells(k, a) + Cells(k, b)
    decreases |a|
  {
    if a == [] {
      assert a + b == b;
    } else {
      CellsJoin(k, a[k..], b);
      assert (a + b)[..k] == a[..k] && (a + b)[k..] == a[k..] + b;
      Hex.Associative(Cell(k, LittleEndian(a[..k])), Cells(k, a[k..]), Cells(k, b));
    }
  }

  lemma Suffix<T>(s: seq<T>, at: nat, k: nat)
    requires at + k <= |s|
    ensures s == s[..at] + s[at..] && s[at..][..k] == s[at..at + k] && s[at..][k..] == s[at + k..]
  {
  }

  /** The cell of the bytes at `at`, with what stands before and behind it. */
  lemma CellAt(k: nat, bs: seq<byte>, at: nat)
    requires k > 0 && Fills(k, at) && at + k <= |bs|
    ensures |Cells(k, bs[..at])| == 3 * at
    ensures Cells(k, bs) == Cells(k, bs[..at]) + Cell(k, LittleEndian(bs[at..at + k])) + Cells(k, bs[at + k..])
  {
    var rest := bs[at..];
    CellsLength(k, bs[..at]);
    Suffix(bs, at, k);
    CellsJoin(k, bs[..at], rest);
    Hex.Associative(Cells(k, bs[..at]), Cell(k, LittleEndian(rest[..k])), Cells(k, rest[k..]));
  }

  lemma {:induction false} MultipleFills(k: nat, at: nat)
    requires IsFormat(k) && at % k == 0
    ensures Fills(k, at)
  {
    if at > 0 {
      OneLess(k, at);
      MultipleFills(k, at - k);
    }
  }

  lemma OneLess(k: nat, at: nat)
    requires IsFormat(k) && at % k == 0 && at > 0
    ensures at >= k && (at - k) % k == 0
  {
    if k == 1 {
    } else if k == 2 {
    } else if k == 4 {
    } else if k == 8 {
    } else {
    }
  }

  /** A row around the cell of the bytes at `at`. */
  lemma RowAround(k: nat, location: nat, bs: seq<byte>, at: nat) returns (before: string, behind: string)
    requires IsFormat(k) && |bs| == BUFWIDE && Fills(k, at) && at + k <= BUFWIDE
    ensures |before| == 3 * at && |Cell(k, LittleEndian(bs[at..at + k]))| == 3 * k
    ensures Row(k, location, bs)
         == Label(location) + (before + Cell(k, LittleEndian(bs[at..at + k])) + behind) + Characters(bs)
    ensures |Row(k, location, bs)| == |Label(location)| + 64 >= 78
  {
    CellAt(k, bs, at);
    CellLength(k, bs[at..at + k]);
    RowLength(k, location, bs);
    before, behind := Cells(k, bs[..at]), Cells(k, bs[at + k..]);
  }

  lemma RowCell(k: nat, location: nat, bs: seq<byte>, at: nat)
    requires IsFormat(k) && |bs| == BUFWIDE && Fills(k, at) && at + k <= BUFWIDE
    ensures var row, cell := Row(k, location, bs), Cell(k, LittleEndian(bs[at..at + k]));
      |cell| == 3 * k && |row| >= 78 && row[|row| - 64 + 3 * at..|row| - 64 + 3 * at + |cell|] == cell
  {
    var before, behind := RowAround(k, location, bs, at);
    var row := Row(k, location, bs);
    RowColumns(Label(location), before, Cell(k, LittleEndian(bs[at..at + k])), behind, Characters(bs), row,
               |row| - 64 + 3 * at);
  }

  /** Where format `k` puts the element at byte `at` of a row: the 2k digits of its little-endian value, in the
      middle of columns 3k wide. */
  lemma RowElement(k: nat, location: nat, bs: seq<byte>, at: nat)
    requires IsFormat(k) && |bs| == BUFWIDE && at % k == 0 && at + k <= BUFWIDE
    ensures |Hex.Print(LittleEndian(bs[at..at + k]), 2 * k)| == 2 * k && |Row(k, location, bs)| >= 78
    ensures var row, digits := Row(k, location, bs), Hex.Print(LittleEndian(bs[at..at + k]), 2 * k);
      row[|row| - 64 + 3 * at..|row| - 64 + 3 * at + 3 * k] == Hex.Spaces(k / 2) + digits + Hex.Spaces(k - k / 2)
  {
    MultipleFills(k, at);
    CellLength(k, bs[at..at + k]);
    RowCell(k, location, bs, at);
  }

  lemma RowLength(k: nat, location: nat, bs: seq<byte>)
    requires IsFormat(k) && |bs| == BUFWIDE
    ensures |Row(k, location, bs)| == |Label(location)| + 64 >= 78
  {
    FormatsFillRows(k);
    CellsLength(k, bs);
    CharactersLength(bs);
    Hex.PrintLength(location, 13);
  }

  lemma RowColumns(address: string, before: string, cell: string, behind: string, chars: string, row: string,
                   column: nat)
    requires row == address + (before + cell + behind) + chars && column == |address| + |before|
    ensures row[column..column + |cell|] == cell
  {
    assert row == (address + before) + cell + (behind + chars);
    Middle(address + before, cell, behind + chars);
  }

  /** The printer has an inverse, whatever the format, the address and the bytes. */
  lemma RowRoundTrip(k: nat, location: nat, bs: seq<byte>)
    requires IsFormat(k) && |bs| == BUFWIDE
    ensures |Row(k, location, bs)| == |Hex.Print(location, 13)| + 65 >= 78
    ensures ParseRow(k, Row(k, location, bs)) == (location, bs)
  {
    FormatsFillRows(k);
    CellsRoundTrip(k, bs);
    CharactersLength(bs);
    Hex.PrintRoundTrip(location, 13);
    Hex.PrintLength(location, 13);
    ParseParts(k, Hex.Print(location, 13), Cells(k, bs), Characters(bs));
  }

  lemma ParseParts(k: nat, digits: string, cells: string, chars: string)
    requires k > 0 && |cells| == 48 && |chars| == 16
    ensures var row := digits + " " + cells + chars;
      |row| == |digits| + 65 && ParseRow(k, row) == (Hex.ValueOf(digits), ParseCells(k, cells))
  {
    RowParts(digits, cells, chars);
  }

  /** A text that is a row reads back as its address and bytes, and shows them as characters. */
  lemma RowText(k: nat, location: nat, bs: seq<byte>, text: string)
    requires IsFormat(k) && |bs| == BUFWIDE && text == Row(k, location, bs)
    ensures |text| >= 78 && ParseRow(k, text) == (location, bs) && ShowsCharacters(text, bs)
  {
    RowRoundTrip(k, location, bs);
    RowCharacters(k, location, bs);
  }

  lemma RowParts(digits: string, cells: string, chars: string)
    requires |cells| == 48 && |chars| == 16
    ensures var row := digits + " " + cells + chars;
      && |row| == |digits| + 65
      && row[..|row| - 65] == digits
      && row[|row| - 64..|row| - 16] == cells
  {
  }

  /** Rows of equal format are equal only when they show the same bytes at the same address. */
  lemma RowInjective(k: nat, l1: nat, b1: seq<byte>, l2: nat, b2: seq<byte>)
    requires IsFormat(k) && |b1| == |b2| == BUFWIDE
    ensures Row(k, l1, b1) == Row(k, l2, b2) <==> l1 == l2 && b1 == b2
  {
    RowRoundTrip(k, l1, b1);
    RowRoundTrip(k, l2, b2);
  }

  /** The five formats of the same bytes read back alike. */
  lemma FormatsAgree(k: nat, m: nat, location: nat, bs: seq<byte>)
    requires IsFormat(k) && IsFormat(m) && |bs| == BUFWIDE
    ensures |Row(k, location, bs)| == |Row(m, location, bs)| >= 78
    ensures ParseRow(k, Row(k, location, bs)) == ParseRow(m, Row(m, location, bs))
  {
    RowRoundTrip(k, location, bs);
    RowRoundTrip(m, location, bs);
  }

  /** A row has 78 characters exactly below 2^52, and fits its array with a NUL exactly below 2^56. */
  lemma RowWidth(k: nat, location: nat, bs: seq<byte>)
    requires IsFormat(k) && |bs| == BUFWIDE
    ensures |Row(k, location, bs)| == 78 <==> location < 0x10_0000_0000_0000
    ensures |Row(k, location, bs)| < OUTLINE <==> location < 0x100_0000_0000_0000
  {
    RowRoundTrip(k, location, bs);
    Hex.PrintLength(location, 13);
    Pow16Values();
    if location >= 0x10_0000_0000_0000 {
      Hex.PrintWider(location, 13, 14);
      Hex.PrintLength(location, 14);
    }
  }

  // ----- the printing code --------------------------------------------------

  /** `sprintf` at an offset of the line: the text, then a NUL. */
  method Sprintf(outline: array<char>, at: nat, text: string) returns (n: nat)
    requires at + |text| < outline.Length
    modifies outline
    ensures n == |text|
    ensures outline[..at + n] == old(outline[..at]) + text
    ensures outline[at + n] == '\0'
  {
    forall j | 0 <= j < |text| {
      outline[at + j] := text[j];
    }
    outline[at + |text|] := '\0';
    n := |text|;
    assert outline[..at] == old(outline[..at]);
    assert outline[..at + n] == outline[..at] + outline[at..at + n];
    assert outline[at..at + n] == text;
  }

  lemma {:induction false} CellsAppend(k: nat, a: seq<byte>, b: seq<byte>)
    requires k > 0 && Fills(k, |a|) && |b| == k
    ensures Cells(k, a + b) == Cells(k, a) + Cell(k, LittleEndian(b))
    decreases |a|
  {
    if a == [] {
      assert a + b == b && b[..k] == b && b[k..] == [];
    } else {
      CellsAppend(k, a[k..], b);
      assert (a + b)[..k] == a[..k] && (a + b)[k..] == a[k..] + b;
      Hex.Associative(Cell(k, LittleEndian(a[..k])), Cells(k, a[k..]), Cell(k, LittleEndian(b)));
    }
  }

  /** The `k`-byte element at byte offset `at`, as a typed pointer reads it. */
  function Element(bs: seq<byte>, k: nat, at: nat): nat
    requires at + k <= |bs|
  {
    LittleEndian(bs[at..at + k])
  }

  lemma {:induction false} FillsRoom(k: nat, a: nat, b: nat)
    requires k > 0 && Fills(k, a) && Fills(k, b) && a < b
    ensures a + k <= b && Fills(k, a + k)
  {
    if a > 0 { FillsRoom(k, a - k, b - k); }
  }

  /** Two quadwords printed high one first are one octaword. */
  lemma OctawordDigits(bs: seq<byte>)
    requires |bs| == 16
    ensures Hex.Print(Element(bs, 8, 8), 16) + Hex.Print(Element(bs, 8, 0), 16) == Hex.Print(LittleEndian(bs), 32)
  {
    var low, high := bs[0..8], bs[8..16];
    assert bs == low + high;
    LittleEndianSplit(low, high);
    BytesOfLittleEndian(low);
    Pow256IsPow16(8);
    JoinHalves(LittleEndian(bs), LittleEndian(high), LittleEndian(low));
  }

  lemma JoinHalves(n: nat, high: nat, low: nat)
    requires low < Pow16(16) && n == low + Pow16(16) * high
    ensures Hex.Print(high, 16) + Hex.Print(low, 16) == Hex.Print(n, 32)
  {
    assert n == high * Pow16(16) + low;
    Hex.JoinedProduct(high, low, 16);
    Hex.PrintJoin(n, high, low, 16, 16);
  }

  lemma SpaceLiterals()
    ensures Hex.Spaces(0) == "" && Hex.Spaces(1) == " " && Hex.Spaces(2) == "  "
    ensures Hex.Spaces(4) == "    " && Hex.Spaces(8) == "     " + "   " && Hex.Spaces(8) == "   " + "     "
  {
  }

  /** The column text of one element in each format that prints its elements in a loop. */
  function ElementText(k: nat, digits: string): string
    requires k in {1, 2, 4, 8}
  {
    match k
    case 1 => digits + " "
    case 2 => " " + digits + " "
    case 4 => "  " + digits + "  "
    case 8 => "    " + digits + "    "
  }

  lemma ElementTextIsCell(k: nat, value: nat)
    requires k in {1, 2, 4, 8}
    ensures ElementText(k, Hex.Print(value, 2 * k)) == Cell(k, value)
  {
    SpaceLiterals();
    Centred(k, Hex.Print(value, 2 * k));
  }

  lemma Centred(k: nat, digits: string)
    requires k in {1, 2, 4, 8}
    ensures ElementText(k, digits) == Hex.Spaces(k / 2) + digits + Hex.Spaces(k - k / 2)
  {
    SpaceLiterals();
    if k == 1 {
      assert Hex.Spaces(0) + digits == digits;
    } else if k == 2 {
      assert k / 2 == 1 && k - k / 2 == 1;
    } else if k == 4 {
      assert k / 2 == 2 && k - k / 2 == 2;
    } else {
      assert k / 2 == 4 && k - k / 2 == 4;
    }
  }

  /** The loop of the byte, word, doubleword and quadword formats. */
  method DrawElements(k: nat, bs: seq<byte>, outline: array<char>, start: nat) returns (linelen: nat)
    requires k in {1, 2, 4, 8} && |bs| == BUFWIDE
    requires start + 48 < outline.Length
    modifies outline
    ensures linelen == start + 48
    ensures outline[..linelen] == old(outline[..start]) + Cells(k, bs)
  {
    ghost var before := outline[..start];
    FormatsFillRows(k);
    linelen := start;
    var at := 0;
    while at < BUFWIDE
      invariant at <= BUFWIDE && Fills(k, at)
      invariant linelen == start + 3 * at
      invariant outline[..linelen] == before + Cells(k, bs[..at])
    {
      NextElement(k, bs, at);
      var n := DrawElement(k, Element(bs, k, at), outline, linelen, before, Cells(k, bs[..at]));
      assert outline[..linelen + n] == before + Cells(k, bs[..at + k]);
      linelen := linelen + n;
      at := at + k;
    }
    assert bs[..at] == bs;
  }

  /** One call of `sprintf` in that loop, after the text `before + cells`. */
  method DrawElement(k: nat, value: nat, outline: array<char>, at: nat, ghost before: string, ghost cells: string)
    returns (n: nat)
    requires k in {1, 2, 4, 8} && |Cell(k, value)| == 3 * k
    requires at + 3 * k < outline.Length && outline[..at] == before + cells
    modifies outline
    ensures n == 3 * k
    ensures outline[..at + n] == before + (cells + Cell(k, value))
  {
    ElementTextIsCell(k, value);
    n := Sprintf(outline, at, ElementText(k, Hex.Print(value, 2 * k)));
    Hex.Associative(before, cells, Cell(k, value));
  }

  /** The octaword format: both quadwords, the high one first. */
  method DrawOctaword(bs: seq<byte>, outline: array<char>, start: nat) returns (linelen: nat)
    requires |bs| == BUFWIDE && start + 48 < outline.Length
    modifies outline
    ensures linelen == start + 48
    ensures outline[..linelen] == old(outline[..start]) + Cell(16, LittleEndian(bs))
  {
    OctawordDigits(bs);
    CellLength(16, bs);
    ghost var before := outline[..start];
    var q1, q0 := Hex.Print(Element(bs, 8, 8), 16), Hex.Print(Element(bs, 8, 0), 16);
    var n := Sprintf(outline, start, "     ");
    linelen := start + n;
    n := Sprintf(outline, linelen, "   " + q1 + q0 + "   ");
    linelen := linelen + n;
    n := Sprintf(outline, linelen, "     ");
    linelen := linelen + n;
    OctawordPadding(before, q1, q0);
  }

  lemma OctawordPadding(before: string, q1: string, q0: string)
    ensures before + "     " + ("   " + q1 + q0 + "   ") + "     "
         == before + (Hex.Spaces(8) + (q1 + q0) + Hex.Spaces(8))
  {
    SpaceLiterals();
  }

  lemma NextElement(k: nat, bs: seq<byte>, at: nat)
    requires IsFormat(k) && |bs| == BUFWIDE && at < BUFWIDE && Fills(k, at)
    ensures at + k <= BUFWIDE && Fills(k, at + k)
    ensures Cells(k, bs[..at + k]) == Cells(k, bs[..at]) + Cell(k, Element(bs, k, at))
    ensures |Cell(k, Element(bs, k, at))| == 3 * k
  {
    FormatsFillRows(k);
    FillsRoom(k, at, BUFWIDE);
    CellsAppend(k, bs[..at], bs[at..at + k]);
    CellLength(k, bs[at..at + k]);
    assert bs[..at] + bs[at..at + k] == bs[..at + k];
  }

  /** The loop over the character column. */
  method DrawCharacters(bs: seq<byte>, outline: array<char>, start: nat) returns (linelen: nat)
    requires |bs| == BUFWIDE && start + BUFWIDE < outline.Length
    modifies outline
    ensures linelen == start + BUFWIDE && outline[linelen] == '\0'
    ensures outline[..linelen] == old(outline[..start]) + Characters(bs)
  {
    ghost var before := outline[..start];
    linelen := start;
    var j := 0;
    while j < BUFWIDE
      invariant 0 <= j <= BUFWIDE && linelen == start + j
      invariant outline[..linelen] == before + Characters(bs[..j])
      invariant j > 0 ==> outline[linelen] == '\0'
    {
      // The source's `char` is signed: bytes from 0x80 on compare as negative.
      var ch: int := bs[j];
      if ch >= 0x80 { ch := ch - 0x100; }
      if ch < 0x20 || ch > 0x7E { ch := '.' as int; }
      var n := Sprintf(outline, linelen, [ch as char]);
      NextCharacter(bs, j);
      Hex.Associative(before, Characters(bs[..j]), [Shown(bs[j])]);
      linelen := linelen + n;
      j := j + 1;
    }
    assert bs[..j] == bs;
  }

  /** Prints the location, the sixteen bytes of row `i` of `buffer` in the chosen format, and their characters. */
  method DrawRow(k: nat, location: nat, buffer: array<byte>, i: nat, outline: array<char>) returns (linelen: nat)
    requires IsFormat(k) && location < 0x100_0000_0000_0000
    requires buffer.Length == 256 && i < 16 && outline.Length == OUTLINE
    modifies outline
    ensures CString(outline[..]) == Row(k, location, buffer[i * BUFWIDE..i * BUFWIDE + BUFWIDE])
  {
    var bs := buffer[i * BUFWIDE..i * BUFWIDE + BUFWIDE];
    RowWidth(k, location, bs);
    RowRoundTrip(k, location, bs);
    linelen := Sprintf(outline, 0, Hex.Print(location, 13) + " ");
    assert outline[..linelen] == Label(location);
    if k == 16 {
      OneCell(bs);
      linelen := DrawOctaword(bs, outline, linelen);
    } else {
      linelen := DrawElements(k, bs, outline, linelen);
    }
    assert outline[..linelen] == Label(location) + Cells(k, bs);
    linelen := DrawCharacters(bs, outline, linelen);
    RowHasNoNul(k, location, bs);
    CStringOf(outline[..], Row(k, location, bs));
  }

  lemma OneCell(bs: seq<byte>)
    requires |bs| == 16
    ensures Cells(16, bs) == Cell(16, LittleEndian(bs))
  {
    assert bs[..16] == bs && Cells(16, bs[16..]) == "";
  }

  lemma NextCharacter(bs: seq<byte>, j: nat)
    requires j < |bs|
    ensures Characters(bs[..j + 1]) == Characters(bs[..j]) + [Shown(bs[j])]
  {
    assert bs[..j + 1][..j] == bs[..j];
  }

  // ----- the line is a proper C string --------------------------------------

  lemma {:induction false} CellsHaveNoNul(k: nat, bs: seq<byte>)
    requires k > 0
    ensures '\0' !in Cells(k, bs)
    decreases |bs|
  {
    if |bs| >= k {
      CellsHaveNoNul(k, bs[k..]);
      Hex.PrintRoundTrip(LittleEndian(bs[..k]), 2 * k);
      Hex.DigitsHaveNoNul(Hex.Print(LittleEndian(bs[..k]), 2 * k));
    }
  }

  lemma {:induction false} CharactersHaveNoNul(bs: seq<byte>)
    ensures '\0' !in Characters(bs)
  {
    if bs != [] { CharactersHaveNoNul(bs[..|bs| - 1]); }
  }

  lemma RowHasNoNul(k: nat, location: nat, bs: seq<byte>)
    requires k > 0
    ensures '\0' !in Row(k, location, bs)
  {
    CellsHaveNoNul(k, bs);
    CharactersHaveNoNul(bs);
    Hex.PrintRoundTrip(location, 13);
    Hex.DigitsHaveNoNul(Hex.Print(location, 13));
  }
}
