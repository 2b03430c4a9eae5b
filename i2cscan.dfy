/** The I2C bus scan of the i2cscan sample: a grid of the 7-bit address space,
    8 rows of 16 cells, in which each address is shown as reserved (never
    probed), present (the probe was acknowledged) or absent.  The bus is
    abstracted by its responder set: `IsDeviceExisting(a)` acknowledges
    exactly when `a in responders`. */
module I2cScan {
  import opened Seqs

  datatype Option<T> = None | Some(value: T)

  /** Addresses the scan skips: 0x00-0x03 and 0x78-0x7F. */
  predicate IsReserved(address: int) {
    address >= 0x78 || 0x03 >= address
  }

  /** One hexadecimal digit, as printf's `%X` (upper) or `%x` (lower) writes it. */
  function HexDigit(d: int, upper: bool): (c: char)
    requires 0 <= d < 16
  {
    if d < 10 then ('0' as int + d) as char
    else if upper then ('A' as int + d - 10) as char
    else ('a' as int + d - 10) as char
  }

  /** The value of a hexadecimal digit of either case. */
  function DigitValue(c: char): Option<int> {
    if '0' <= c <= '9' then Some(c as int - '0' as int)
    else if 'A' <= c <= 'F' then Some(c as int - 'A' as int + 10)
    else if 'a' <= c <= 'f' then Some(c as int - 'a' as int + 10)
    else None
  }

  /** printf's `%2X` / `%2x` of a value below 0x100: right-aligned in a field
      of two characters, padded on the left with a space (not a zero). */
  function Hex2(n: int, upper: bool): (s: string)
    requires 0 <= n < 0x100
    ensures |s| == 2
  {
    if n < 16 then [' ', HexDigit(n, upper)]
    else [HexDigit(n / 16, upper), HexDigit(n % 16, upper)]
  }

  /** Reads back a two-character `%2X` field. */
  function ParseHex2(s: string): Option<int> {
    if |s| != 2 then None
    else
      match (s[0], DigitValue(s[1]))
      case (' ', Some(lo)) => Some(lo)
      case (c, Some(lo)) =>
        (match DigitValue(c)
         case Some(hi) => if hi == 0 then None else Some(16 * hi + lo)
         case None => None)
      case (_, None) => None
  }

  lemma Hex2RoundTrip(n: int, upper: bool)
    requires 0 <= n < 0x100
    ensures ParseHex2(Hex2(n, upper)) == Some(n)
  {
    if n >= 16 {
      assert DigitValue(HexDigit(n / 16, upper)) == Some(n / 16);
      assert DigitValue(HexDigit(n % 16, upper)) == Some(n % 16);
    }
  }

  /** How the scan classifies one address. */
  datatype Class = Reserved | Present(address: int) | Absent

  function Classify(address: int, present: bool): Class {
    if IsReserved(address) then Reserved
    else if present then Present(address)
    else Absent
  }

  /** The three characters printed for one address: `"   "` when reserved,
      `" %2X"` when the device acknowledged, `" --"` otherwise. */
  function Cell(address: int, present: bool): (s: string)
    requires 0 <= address < 0x80
    ensures |s| == 3
  {
    if IsReserved(address) then "   "
    else if present then [' '] + Hex2(address, true)
    else " --"
  }

  /** Reads back a cell of the grid. */
  function ParseCell(s: string): Option<Class> {
    if s == "   " then Some(Reserved)
    else if s == " --" then Some(Absent)
    else if |s| == 3 && s[0] == ' ' then
      match ParseHex2(s[1..])
      case Some(a) => Some(Present(a))
      case None => None
    else None
  }

  /** A cell can be read back: the grid shows exactly the classification. */
  lemma CellRoundTrip(address: int, present: bool)
    requires 0 <= address < 0x80
    ensures ParseCell(Cell(address, present)) == Some(Classify(address, present))
  {
    if !IsReserved(address) && present {
      var s := Cell(address, present);
      assert s[1..] == Hex2(address, true);
      Hex2RoundTrip(address, true);
      if address < 16 {
        assert s[2] != '-';
      } else {
        assert s[1] == HexDigit(address / 16, true) && address / 16 != 0;
      }
    }
  }

  /** A present address in 0x04-0x0F is printed with two leading spaces. */
  lemma SmallAddressPadding(address: int)
    requires 4 <= address < 16
    ensures Cell(address, true) == "  " + [HexDigit(address, true)]
    ensures Cell(address, true) != " 0" + [HexDigit(address, true)]
  {
    assert Cell(address, true) == [' '] + [' ', HexDigit(address, true)];
    assert Cell(address, true)[1] == ' ';
  }

  const Title: string := "\n            Probing I2C devices \n"

  /** The labels of the first n columns, " 00 01 ..." as printed by the header. */
  function Labels(n: nat): string
    requires n <= 16
  {
    if n == 0 then "" else Labels(n - 1) + [' ', '0', HexDigit(n - 1, true)]
  }

  /** The column-label line and the separator line, as printed. */
  const ColumnLabels: string := "   |" + " 00 01 02 03" + " 04 05 06 07" + " 08 09 0A 0B" + " 0C 0D 0E 0F" + "\n"
  const Separator: string := "---+" + "------------------------" + "------------------------" + "\n"

  /** The fixed header printed before the first row. */
  function Header(): string {
    Title + ColumnLabels + Separator
  }

  /** The column-label line is made of the labels " 00" .. " 0F". */
  lemma ColumnLabelsSpelled()
    ensures ColumnLabels == "   |" + Labels(16) + "\n"
  {
    var p1, p2, p3, p4 := " 00 01 02 03", " 04 05 06 07", " 08 09 0A 0B", " 0C 0D 0E 0F";
    assert Labels(4) == p1 by { LabelsGroup(0, p1); }
    assert Labels(8) == p1 + p2 by { LabelsGroup(4, p2); }
    assert Labels(12) == p1 + p2 + p3 by { LabelsGroup(8, p3); }
    assert Labels(16) == p1 + p2 + p3 + p4 by { LabelsGroup(12, p4); }
    assert "   |" + (p1 + p2 + p3 + p4) == "   |" + p1 + p2 + p3 + p4 by {
      AppendAssoc("   |", p1, p2);
      AppendAssoc("   |", p1 + p2, p3);
      AppendAssoc("   |", p1 + p2 + p3, p4);
    }
  }

  /** Four consecutive column labels, starting at column n. */
  lemma LabelsGroup(n: nat, group: string)
    requires n <= 12 && n % 4 == 0
    requires group == [' ', '0', HexDigit(n, true), ' ', '0', HexDigit(n + 1, true),
                       ' ', '0', HexDigit(n + 2, true), ' ', '0', HexDigit(n + 3, true)]
    ensures Labels(n + 4) == Labels(n) + group
  {
    var d0, d1, d2, d3 := [' ', '0', HexDigit(n, true)], [' ', '0', HexDigit(n + 1, true)],
                          [' ', '0', HexDigit(n + 2, true)], [' ', '0', HexDigit(n + 3, true)];
    assert group == d0 + d1 + d2 + d3;
    assert Labels(n + 2) == Labels(n) + d0 + d1;
    assert Labels(n + 4) == Labels(n + 2) + d2 + d3;
  }

  lemma {:induction false} LabelsLayout(n: nat, col: int)
    requires n <= 16 && 0 <= col < n
    ensures |Labels(n)| == 3 * n
    ensures Labels(n)[3 * col .. 3 * col + 3] == [' ', '0', HexDigit(col, true)]
  {
    if col < n - 1 {
      LabelsLayout(n - 1, col);
    } else if n > 1 {
      LabelsLayout(n - 1, 0);
    }
  }

  /** The label printed above column `col` names the low nibble of that column's addresses. */
  lemma ColumnLabelAt(col: int)
    requires 0 <= col < 16
    ensures |ColumnLabels| == 4 + 3 * 16 + 1
    ensures ColumnLabels[4 + 3 * col .. 7 + 3 * col] == [' ', '0', HexDigit(col, true)]
  {
    ColumnLabelsSpelled();
    LabelsLayout(16, col);
    assert ColumnLabels[4 + 3 * col .. 7 + 3 * col] == Labels(16)[3 * col .. 3 * col + 3];
  }

  /** `printf("%2x |", raw)`. */
  function RowPrefix(raw: int): (s: string)
    requires 0 <= raw < 0x100
    ensures |s| == 4
  {
    Hex2(raw, false) + " |"
  }

  /** The cells of addresses raw .. raw + n - 1, in column order. */
  function Cells(raw: int, n: nat, responders: set<int>): string
    requires 0 <= raw && raw + n <= 0x80
  {
    if n == 0 then ""
    else Cells(raw, n - 1, responders) + Cell(raw + n - 1, raw + n - 1 in responders)
  }

  /** One printed row: its prefix, sixteen cells and the newline. */
  function RowLine(raw: int, responders: set<int>): string
    requires 0 <= raw && raw + 16 <= 0x80
  {
    RowPrefix(raw) + Cells(raw, 16, responders) + "\n"
  }

  /** The first `rows` rows of the grid. */
  function Rows(rows: nat, responders: set<int>): string
    requires rows <= 8
  {
    if rows == 0 then ""
    else Rows(rows - 1, responders) + RowLine(16 * (rows - 1), responders)
  }

  /** Everything `I2cSearch` prints. */
  function Report(responders: set<int>): string {
    Header() + Rows(8, responders)
  }

  /** The probes issued while the addresses 0 .. n - 1 are visited, in order. */
  function Probes(n: nat): seq<int>
    requires n <= 0x80
  {
    if n == 0 then []
    else Probes(n - 1) + (if IsReserved(n - 1) then [] else [n - 1])
  }

  /** The probes issued while the addresses lo .. n - 1 are visited, in order. */
  function ProbesFrom(lo: nat, n: nat): seq<int>
    requires lo <= n <= 0x80
    decreases n - lo
  {
    if n == lo then []
    else ProbesFrom(lo, n - 1) + (if IsReserved(n - 1) then [] else [n - 1])
  }

  /** The probe log up to n is the log up to lo followed by the probes of lo .. n - 1. */
  lemma {:induction false} ProbesSplit(lo: nat, n: nat)
    requires lo <= n <= 0x80
    ensures Probes(n) == Probes(lo) + ProbesFrom(lo, n)
    decreases n - lo
  {
    if n == lo {
      AppendEmpty(Probes(lo));
    } else {
      ProbesSplit(lo, n - 1);
      var last := if IsReserved(n - 1) then [] else [n - 1];
      assert Probes(n) == Probes(n - 1) + last;
      assert ProbesFrom(lo, n) == ProbesFrom(lo, n - 1) + last;
      AppendAssoc(Probes(lo), ProbesFrom(lo, n - 1), last);
    }
  }

  /** The bus scan: the fixed header, then the rows printed by `ScanRows`.
      `probes` logs the addresses handed to `IsDeviceExisting`, in call order. */
  method I2cSearch(responders: set<int>) returns (out: string, probes: seq<int>)
    ensures out == Report(responders)
    ensures probes == Probes(0x80)
  {
    out, probes := ScanRows(responders, Header());
  }

  /** The row loop over raw = 0, 16, ..., 112, each row printed by `ScanRow`,
      appended to what was printed before it. */
  method ScanRows(responders: set<int>, printed: string) returns (out: string, probes: seq<int>)
    ensures out == printed + Rows(8, responders)
    ensures probes == Probes(0x80)
  {
    out := printed;
    probes := [];
    var raw := 0;
    ghost var row := 0;
    AppendEmpty(out);
    while raw < 128
      invariant 0 <= row <= 8 && raw == 16 * row
      invariant out == printed + Rows(row, responders)
      invariant probes == Probes(raw)
    {
      out, probes := ScanRow(raw, responders, out, probes);
      AppendAssoc(printed, Rows(row, responders), RowLine(raw, responders));
      ProbesSplit(raw, raw + 16);
      raw := raw + 16;
      row := row + 1;
    }
  }

  /** Visiting column `col` of row `raw` adds that address's cell, and its
      probe unless it is reserved. */
  lemma ColumnStep(raw: int, col: int, responders: set<int>)
    requires 0 <= raw && 0 <= col && raw + col < 0x80
    ensures Cells(raw, col + 1, responders) == Cells(raw, col, responders) + Cell(raw + col, raw + col in responders)
    ensures ProbesFrom(raw, raw + col + 1) == ProbesFrom(raw, raw + col) + (if IsReserved(raw + col) then [] else [raw + col])
  {
  }

  /** The body of the row loop: prints the row prefix, then for col = 0..15
      the cell of address raw + col, probing it unless it is reserved, then
      the newline. */
  method ScanRow(raw: int, responders: set<int>, printed: string, probed: seq<int>)
    returns (out: string, probes: seq<int>)
    requires 0 <= raw <= 0x70 && raw % 16 == 0
    ensures out == printed + RowLine(raw, responders)
    ensures probes == probed + ProbesFrom(raw, raw + 16)
  {
    var start := printed + RowPrefix(raw);
    out := start;
    probes := probed;
    var col := 0;
    AppendEmpty(start);
    AppendEmpty(probed);
    while col < 16
      invariant 0 <= col <= 16
      invariant out == start + Cells(raw, col, responders)
      invariant probes == probed + ProbesFrom(raw, raw + col)
    {
      var address := raw + col;
      var cell: string;
      if address >= 0x78 || 0x03 >= address {
        cell := "   ";
      } else {
        probes := probes + [address];
        var acknowledged := address in responders;
        if acknowledged {
          cell := [' '] + Hex2(address, true);
        } else {
          cell := " --";
        }
      }
      ColumnStep(raw, col, responders);
      assert cell == Cell(address, address in responders);
      assert probes == probed + ProbesFrom(raw, raw + col + 1) by {
        AppendAssoc(probed, ProbesFrom(raw, raw + col), if IsReserved(address) then [] else [address]);
      }
      assert out + cell == start + Cells(raw, col + 1, responders) by {
        AppendAssoc(start, Cells(raw, col, responders), cell);
      }
      out := out + cell;
      col := col + 1;
    }
    assert out + "\n" == printed + RowLine(raw, responders) by {
      assert RowLine(raw, responders) == RowPrefix(raw) + Cells(raw, 16, responders) + "\n";
      AppendAssoc(printed, RowPrefix(raw), Cells(raw, 16, responders));
      AppendAssoc(printed, RowPrefix(raw) + Cells(raw, 16, responders), "\n");
    }
    out := out + "\n";
  }

  // ---------------------------------------------------------------------------
  // Probes

  /** The probes issued so far are exactly the non-reserved addresses below n, ascending. */
  lemma {:induction false} ProbesUpTo(n: nat)
    requires n <= 0x80
    ensures var hi := if n < 0x78 then n else 0x78;
            var count := if hi < 4 then 0 else hi - 4;
            Probes(n) == seq(count, i => i + 4)
  {
    if n > 0 {
      ProbesUpTo(n - 1);
    }
  }

  /** Every address 0x04-0x77 is probed exactly once, in strictly increasing
      order, and no reserved address is probed. */
  lemma ProbeOrder()
    ensures |Probes(0x80)| == 0x74
    ensures forall i, j :: 0 <= i < j < |Probes(0x80)| ==> Probes(0x80)[i] < Probes(0x80)[j]
    ensures forall a :: a in Probes(0x80) <==> 4 <= a < 0x78
    ensures forall a :: IsReserved(a) ==> a !in Probes(0x80)
  {
    ProbesUpTo(0x80);
    var p := Probes(0x80);
    forall a | 4 <= a < 0x78 ensures a in p {
      assert p[a - 4] == a;
    }
  }

  // ---------------------------------------------------------------------------
  // Layout of the report

  lemma {:induction false} CellsLayout(raw: int, n: nat, responders: set<int>, col: int)
    requires 0 <= raw && raw + n <= 0x80
    requires 0 <= col < n
    ensures |Cells(raw, n, responders)| == 3 * n
    ensures Cells(raw, n, responders)[3 * col .. 3 * col + 3] == Cell(raw + col, raw + col in responders)
  {
    var prev, last := Cells(raw, n - 1, responders), Cell(raw + n - 1, raw + n - 1 in responders);
    assert Cells(raw, n, responders) == prev + last;
    if col < n - 1 {
      CellsLayout(raw, n - 1, responders, col);
      SliceOfPrefix(prev, last, 3 * col, 3 * col + 3);
    } else {
      if n > 1 {
        CellsLayout(raw, n - 1, responders, 0);
      }
      SliceOfAppend(prev, last, 0, 3);
    }
  }

  /** Every row line is 52 characters and a newline; cell `col` sits at column 4 + 3 * col. */
  lemma RowLineLayout(raw: int, responders: set<int>, col: int)
    requires 0 <= raw && raw + 16 <= 0x80
    requires 0 <= col < 16
    ensures |RowLine(raw, responders)| == 4 + 16 * 3 + 1
    ensures RowLine(raw, responders)[..4] == Hex2(raw, false) + " |"
    ensures RowLine(raw, responders)[4 + 16 * 3] == '\n'
    ensures RowLine(raw, responders)[4 + 3 * col .. 7 + 3 * col] == Cell(raw + col, raw + col in responders)
  {
    var cells := Cells(raw, 16, responders);
    CellsLayout(raw, 16, responders, col);
    var line := RowLine(raw, responders);
    assert line == RowPrefix(raw) + cells + "\n";
    assert line[4 + 3 * col .. 7 + 3 * col] == cells[3 * col .. 3 * col + 3];
  }

  lemma {:induction false} RowsLayout(rows: nat, responders: set<int>, row: int)
    requires rows <= 8
    requires 0 <= row < rows
    ensures |Rows(rows, responders)| == 53 * rows
    ensures Rows(rows, responders)[53 * row .. 53 * row + 53] == RowLine(16 * row, responders)
  {
    var prev, line := Rows(rows - 1, responders), RowLine(16 * (rows - 1), responders);
    RowLineLayout(16 * (rows - 1), responders, 0);
    if row < rows - 1 {
      RowsLayout(rows - 1, responders, row);
    } else if rows > 1 {
      RowsLayout(rows - 1, responders, 0);
    }
    assert Rows(rows, responders) == prev + line;
    AppendRow(prev, line, rows - 1, row);
  }

  /** Appending a 53-character line to k such lines adds line k and keeps the others. */
  lemma AppendRow(prev: string, line: string, k: nat, j: int)
    requires |prev| == 53 * k && |line| == 53 && 0 <= j <= k
    ensures |prev + line| == 53 * (k + 1)
    ensures (prev + line)[53 * j .. 53 * j + 53] == if j < k then prev[53 * j .. 53 * j + 53] else line
  {
    if j < k {
      SliceOfPrefix(prev, line, 53 * j, 53 * j + 53);
    } else {
      SliceOfAppend(prev, line, 0, 53);
    }
  }


  /** Where address `a`'s cell lies in the report. */
  function CellOffset(a: int): int {
    |Header()| + 53 * (a / 16) + 4 + 3 * (a % 16)
  }

  /** The report is the fixed header followed by exactly eight row lines; row k
      starts with the address 16 * k in `%2x` and " |" and ends with a newline. */
  lemma ReportRows(responders: set<int>, row: int)
    requires 0 <= row < 8
    ensures |Header()| == 34 + 53 + 53
    ensures |Report(responders)| == |Header()| + 8 * 53
    ensures Report(responders)[..|Header()|] == Header()
    ensures Report(responders)[|Header()| + 53 * row .. |Header()| + 53 * row + 4] == Hex2(16 * row, false) + " |"
    ensures Report(responders)[|Header()| + 53 * row + 52] == '\n'
  {
    var h, rows := Header(), Rows(8, responders);
    GridRowAt(responders, 8, row);
    SliceOfAppend(h, rows, 53 * row, 53 * row + 4);
    assert (h + rows)[|h| + 53 * row + 52] == rows[53 * row + 52];
  }

  /** In a grid of n rows, row `row` starts with its `%2x` prefix and ends with
      a newline. */
  lemma GridRowAt(responders: set<int>, n: nat, row: int)
    requires n <= 8 && 0 <= row < n
    ensures |Rows(n, responders)| == 53 * n
    ensures Rows(n, responders)[53 * row .. 53 * row + 4] == Hex2(16 * row, false) + " |"
    ensures Rows(n, responders)[53 * row + 52] == '\n'
  {
    var rows, line := Rows(n, responders), RowLine(16 * row, responders);
    assert |rows| == 53 * n && rows[53 * row .. 53 * row + 53] == line by {
      RowsLayout(n, responders, row);
    }
    assert line[..4] == Hex2(16 * row, false) + " |" && line[52] == '\n' by {
      RowLineLayout(16 * row, responders, 0);
    }
    assert rows[53 * row .. 53 * row + 4] == line[..4] by {
      SliceOfSlice(rows, 53 * row, 53 * row + 53, 0, 4);
    }
    assert rows[53 * row + 52] == line[52];
  }


  /** In a grid of n rows, the cell in row `row`, column `col` is that of
      address 16 * row + col. */
  lemma GridCellAt(responders: set<int>, n: nat, row: int, col: int)
    requires n <= 8 && 0 <= row < n && 0 <= col < 16
    ensures |Rows(n, responders)| == 53 * n
    ensures Rows(n, responders)[53 * row + 4 + 3 * col .. 53 * row + 7 + 3 * col]
            == Cell(16 * row + col, 16 * row + col in responders)
  {
    RowsLayout(n, responders, row);
    RowLineLayout(16 * row, responders, col);
    CellOfLine(Rows(n, responders), RowLine(16 * row, responders), n, row, col);
  }

  /** The cell at column `col` of line `row` of a text made of n 53-character lines. */
  lemma CellOfLine(text: string, line: string, n: nat, row: int, col: int)
    requires |text| == 53 * n && 0 <= row < n && 0 <= col < 16
    requires text[53 * row .. 53 * row + 53] == line
    ensures text[53 * row + 4 + 3 * col .. 53 * row + 7 + 3 * col] == line[4 + 3 * col .. 7 + 3 * col]
  {
    SliceOfSlice(text, 53 * row, 53 * row + 53, 4 + 3 * col, 7 + 3 * col);
  }


  /** Address `a`'s cell lies in the grid at row a / 16, column a % 16. */
  lemma RowsCellAt(responders: set<int>, a: int)
    requires 0 <= a < 0x80
    ensures |Rows(8, responders)| == 53 * 8
    ensures 53 * (a / 16) + 4 + 3 * (a % 16) + 3 <= 53 * 8
    ensures Rows(8, responders)[53 * (a / 16) + 4 + 3 * (a % 16) .. 53 * (a / 16) + 7 + 3 * (a % 16)]
            == Cell(a, a in responders)
  {
    GridCellAt(responders, 8, a / 16, a % 16);
    assert 16 * (a / 16) + a % 16 == a;
  }

  /** Every address 0..127 is rendered at its own row and column as its cell. */
  lemma ReportCellAt(responders: set<int>, a: int)
    requires 0 <= a < 0x80
    ensures 0 <= CellOffset(a) && CellOffset(a) + 3 <= |Report(responders)|
    ensures Report(responders)[CellOffset(a) .. CellOffset(a) + 3] == Cell(a, a in responders)
  {
    var o := 53 * (a / 16) + 4 + 3 * (a % 16);
    RowsCellAt(responders, a);
    SliceOfAppend(Header(), Rows(8, responders), o, o + 3);
  }

  /** Reading the report back gives every address's classification. */
  lemma ReportDecodes(responders: set<int>, a: int)
    requires 0 <= a < 0x80
    ensures 0 <= CellOffset(a) && CellOffset(a) + 3 <= |Report(responders)|
    ensures ParseCell(Report(responders)[CellOffset(a) .. CellOffset(a) + 3]) == Some(Classify(a, a in responders))
  {
    ReportCellAt(responders, a);
    CellRoundTrip(a, a in responders);
  }

  /** Responders agree on every address the scan probes. */
  predicate SameOnProbed(r1: set<int>, r2: set<int>) {
    forall a :: 4 <= a < 0x78 ==> (a in r1 <==> a in r2)
  }

  lemma {:induction false} CellsDependOnProbed(raw: int, n: nat, r1: set<int>, r2: set<int>)
    requires 0 <= raw && raw + n <= 0x80
    requires SameOnProbed(r1, r2)
    ensures Cells(raw, n, r1) == Cells(raw, n, r2)
  {
    if n > 0 {
      CellsDependOnProbed(raw, n - 1, r1, r2);
    }
  }

  lemma {:induction false} RowsDependOnProbed(rows: nat, r1: set<int>, r2: set<int>)
    requires rows <= 8
    requires SameOnProbed(r1, r2)
    ensures Rows(rows, r1) == Rows(rows, r2)
  {
    if rows > 0 {
      RowsDependOnProbed(rows - 1, r1, r2);
      CellsDependOnProbed(16 * (rows - 1), 16, r1, r2);
    }
  }

  /** The report depends on the bus only through which probed addresses
      acknowledge, and determines them: two buses give the same report exactly
      when they agree on every address 0x04-0x77. */
  lemma ReportDeterminesResponders(r1: set<int>, r2: set<int>)
    ensures Report(r1) == Report(r2) <==> SameOnProbed(r1, r2)
  {
    if SameOnProbed(r1, r2) {
      RowsDependOnProbed(8, r1, r2);
    }
    if Report(r1) == Report(r2) {
      forall a | 4 <= a < 0x78 ensures a in r1 <==> a in r2 {
        ReportDecodes(r1, a);
        ReportDecodes(r2, a);
      }
    }
  }

  /** With no device on the bus every probed cell reads " --" and every reserved one "   ". */
  lemma EmptyBusReport(responders: set<int>, a: int)
    requires responders == {}
    requires 0 <= a < 0x80
    ensures CellOffset(a) + 3 <= |Report(responders)|
    ensures !IsReserved(a) ==> Report(responders)[CellOffset(a) .. CellOffset(a) + 3] == " --"
    ensures IsReserved(a) ==> Report(responders)[CellOffset(a) .. CellOffset(a) + 3] == "   "
  {
    ReportCellAt(responders, a);
  }

  /** A bus with devices at 0x38 and 0x50 only. */
  lemma TwoDeviceReport(responders: set<int>, a: int)
    requires responders == {0x38, 0x50}
    requires 0 <= a < 0x80
    ensures CellOffset(a) + 3 <= |Report(responders)|
    ensures a == 0x38 ==> Report(responders)[CellOffset(a) .. CellOffset(a) + 3] == " 38"
    ensures a == 0x50 ==> Report(responders)[CellOffset(a) .. CellOffset(a) + 3] == " 50"
    ensures !IsReserved(a) && a != 0x38 && a != 0x50 ==> Report(responders)[CellOffset(a) .. CellOffset(a) + 3] == " --"
    ensures IsReserved(a) ==> Report(responders)[CellOffset(a) .. CellOffset(a) + 3] == "   "
  {
    ReportCellAt(responders, a);
    if a == 0x38 {
      assert Hex2(0x38, true) == "38";
    } else if a == 0x50 {
      assert Hex2(0x50, true) == "50";
    } else {
      assert a !in responders;
    }
  }
}
