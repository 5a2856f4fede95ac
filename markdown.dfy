/** `generate_markdown_table`: the rows become a pipe-delimited table under
    a fixed header line and a `---` separator line, one line per row. Each
    cell is Python's `str()` of the row's value for that header. Printing
    the table is outside the model: the method returns the text. */
module Markdown {
  import opened PyStrings
  import opened Extraction
  import opened Batch

  /** The seven column headers, in table order. */
  const HEADERS: seq<string> := ["Email", "Purchase Order Number", "Part Number", "Quantity",
                                 "Shipping/Transaction Number", "Source", "Type of Email"]

  /** `[x] * n`: the list holding `x` `n` times. */
  function Repeat(x: string, n: nat): (r: seq<string>)
    ensures |r| == n && forall k :: 0 <= k < n ==> r[k] == x
  {
    if n == 0 then [] else Repeat(x, n - 1) + [x]
  }

  /** A decimal digit character. */
  predicate IsDigit(c: char)
  {
    '0' <= c <= '9'
  }

  /** The number a string of decimal digits denotes. */
  function DecimalValue(s: string): nat
    requires forall k :: 0 <= k < |s| ==> IsDigit(s[k])
  {
    if s == [] then 0
    else
      assert IsDigit(s[|s| - 1]);
      DecimalValue(s[..|s| - 1]) * 10 + (s[|s| - 1] as int - '0' as int)
  }

  /** `str(n)` for a non-negative integer: its decimal digits, without
      leading zeros. */
  function NatToString(n: nat): (s: string)
    ensures s != [] && forall k :: 0 <= k < |s| ==> IsDigit(s[k])
    ensures |s| > 1 ==> s[0] != '0'
    ensures DecimalValue(s) == n
  {
    var digit := ['0' + (n % 10) as char];
    if n < 10 then digit
    else
      var front := NatToString(n / 10);
      assert (front + digit)[..|front|] == front;
      front + digit
  }

  /** `str(n)` for any integer. */
  function IntToString(n: int): (s: string)
    ensures s != []
    ensures n >= 0 ==> (forall k :: 0 <= k < |s| ==> IsDigit(s[k]))
                       && DecimalValue(s) == n && (|s| > 1 ==> s[0] != '0')
    ensures n < 0 ==> |s| >= 2 && s[0] == '-' && (forall k :: 1 <= k < |s| ==> IsDigit(s[k]))
                      && DecimalValue(s[1..]) == -n && (|s| > 2 ==> s[1] != '0')
  {
    if n < 0 then "-" + NatToString(-n) else NatToString(n)
  }

  /** `str(v)` for a value of a row. */
  function Show(v: Value): string
  {
    match v
    case Str(s) => s
    case Int(n) => IntToString(n)
    case Other(text) => text
  }

  /** `row[h]`: the value a row holds under header `h`. */
  function Column(r: Row, h: string): Value
    requires h in HEADERS
  {
    if h == "Email" then Int(r.email)
    else if h == "Purchase Order Number" then r.purchaseOrder
    else if h == "Part Number" then r.partNumber
    else if h == "Quantity" then r.quantity
    else if h == "Shipping/Transaction Number" then r.trackingNumber
    else if h == "Source" then r.source
    else r.typeOfEmail
  }

  /** `[str(row[h]) for h in headers]`. */
  function Cells(r: Row): seq<string>
  {
    seq(|HEADERS|, k requires 0 <= k < |HEADERS| => Show(Column(r, HEADERS[k])))
  }

  /** The cells of a row are its index in decimal and then the string forms
      of its six shipment columns, in header order. */
  lemma CellsInHeaderOrder(r: Row)
    ensures Cells(r) == [NatToString(r.email), Show(r.purchaseOrder), Show(r.partNumber),
                         Show(r.quantity), Show(r.trackingNumber), Show(r.source), Show(r.typeOfEmail)]
  {
  }

  /** One line of the table: `"| " + " | ".join(cells) + " |\n"`. */
  function Line(cells: seq<string>): string
  {
    "| " + Join(cells, " | ") + " |\n"
  }

  /** The cell lists of the rows, one per row, in order. */
  function CellRows(rows: seq<Row>): (table: seq<seq<string>>)
    ensures |table| == |rows| && forall k :: 0 <= k < |rows| ==> table[k] == Cells(rows[k])
  {
    seq(|rows|, k requires 0 <= k < |rows| => Cells(rows[k]))
  }

  /** The lines of a table with header cells `headers` and body `rows`: the
      header line, a `---` separator line with one cell per header, then one
      line per body row. */
  function FormatLines(headers: seq<string>, rows: seq<seq<string>>): (lines: seq<string>)
    ensures |lines| == |rows| + 2
    ensures lines[0] == Line(headers) && lines[1] == Line(Repeat("---", |headers|))
    ensures forall k :: 0 <= k < |rows| ==> lines[k + 2] == Line(rows[k])
  {
    [Line(headers), Line(Repeat("---", |headers|))] + seq(|rows|, k requires 0 <= k < |rows| => Line(rows[k]))
  }

  /** The lines joined end to end. */
  function Concat(lines: seq<string>): string
  {
    if lines == [] then []
    else Concat(lines[..|lines| - 1]) + lines[|lines| - 1]
  }

  /** The text of the table for `rows`. */
  function Table(rows: seq<Row>): string
  {
    Concat(FormatLines(HEADERS, CellRows(rows)))
  }

  /** `generate_markdown_table`: the list of cell lists headed by the
      headers, then its text. */
  method GenerateMarkdownTable(data: seq<Row>) returns (markdownTable: string)
    ensures markdownTable == Table(data)
  {
    var headers := HEADERS;
    var table := [headers];
    for i := 0 to |data|
      invariant table == [headers] + CellRows(data[..i])
    {
      assert CellRows(data[..i + 1]) == CellRows(data[..i]) + [Cells(data[i])];
      table := table + [Cells(data[i])];
    }
    assert data[..|data|] == data;
    markdownTable := FormatTable(headers, table[1..]);
  }

  /** The formatting half of `generate_markdown_table`: the header line, the
      separator line, then one line per body row, appended in turn. */
  method FormatTable(headers: seq<string>, rows: seq<seq<string>>) returns (text: string)
    ensures text == Concat(FormatLines(headers, rows))
  {
    ghost var lines := FormatLines(headers, rows);
    text := Line(headers);
    ConcatSnoc(lines, 0);
    text := text + Line(Repeat("---", |headers|));
    ConcatSnoc(lines, 1);
    for j := 0 to |rows|
      invariant text == Concat(lines[..j + 2])
    {
      text := text + Line(rows[j]);
      ConcatSnoc(lines, j + 2);
    }
    assert lines[..|rows| + 2] == lines;
  }

  /** One more row of data adds its line at the end of the table and
      leaves the text before it as it was. */
  lemma TableSnoc(data: seq<Row>, r: Row)
    ensures Table(data + [r]) == Table(data) + Line(Cells(r))
  {
    var lines := FormatLines(HEADERS, CellRows(data + [r]));
    var before := FormatLines(HEADERS, CellRows(data));
    assert lines[..|lines| - 1] == before;
  }

  /** Joining one more line appends it. */
  lemma ConcatSnoc(lines: seq<string>, j: nat)
    requires j < |lines|
    ensures Concat(lines[..j + 1]) == Concat(lines[..j]) + lines[j]
  {
    assert lines[..j + 1][..j] == lines[..j];
  }

  /** The number of occurrences of `c` in `s`. */
  function Count(s: string, c: char): nat
  {
    if s == [] then 0
    else Count(s[..|s| - 1], c) + (if s[|s| - 1] == c then 1 else 0)
  }

  lemma {:induction false} CountAppend(a: string, b: string, c: char)
    ensures Count(a + b, c) == Count(a, c) + Count(b, c)
    decreases |b|
  {
    if b != [] {
      var b' := b[..|b| - 1];
      assert (a + b)[..|a + b| - 1] == a + b';
      CountAppend(a, b', c);
    } else {
      assert a + b == a;
    }
  }

  /** Joining cells free of `c` gives no `c` when the separator holds none,
      and one `c` between each two cells when it holds one. */
  lemma {:induction false} CountJoin(cells: seq<string>, sep: string, c: char)
    requires |cells| >= 1
    requires forall k :: 0 <= k < |cells| ==> Count(cells[k], c) == 0
    ensures Count(sep, c) == 0 ==> Count(Join(cells, sep), c) == 0
    ensures Count(sep, c) == 1 ==> Count(Join(cells, sep), c) == |cells| - 1
    decreases |cells|
  {
    if |cells| > 1 {
      var rest := Join(cells[1..], sep);
      CountJoin(cells[1..], sep, c);
      CountAppend(cells[0], sep, c);
      CountAppend(cells[0] + sep, rest, c);
      assert Join(cells, sep) == cells[0] + sep + rest;
      assert |cells[1..]| == |cells| - 1;
    }
  }

  /** A line whose cells hold no newline holds exactly one, at its end; a
      line whose cells hold no `|` holds one more `|` than it has cells. */
  lemma LineCounts(cells: seq<string>)
    requires |cells| >= 1
    ensures (forall k :: 0 <= k < |cells| ==> Count(cells[k], '\n') == 0) ==> Count(Line(cells), '\n') == 1
    ensures (forall k :: 0 <= k < |cells| ==> Count(cells[k], '|') == 0) ==> Count(Line(cells), '|') == |cells| + 1
    ensures Line(cells)[|Line(cells)| - 1] == '\n'
  {
    var body := Join(cells, " | ");
    assert " | "[..2] == " |" && " |"[..1] == " " && " "[..0] == [];
    assert Count(" | ", '\n') == 0 && Count(" | ", '|') == 1;
    CountAppend("| ", body, '\n');
    CountAppend("| " + body, " |\n", '\n');
    CountAppend("| ", body, '|');
    CountAppend("| " + body, " |\n", '|');
    if forall k :: 0 <= k < |cells| ==> Count(cells[k], '\n') == 0 {
      CountJoin(cells, " | ", '\n');
    }
    if forall k :: 0 <= k < |cells| ==> Count(cells[k], '|') == 0 {
      CountJoin(cells, " | ", '|');
    }
  }

  /** Joining lines that each hold one `c` gives as many `c` as lines. */
  lemma {:induction false} CountConcat(lines: seq<string>, c: char)
    requires forall k :: 0 <= k < |lines| ==> Count(lines[k], c) == 1
    ensures Count(Concat(lines), c) == |lines|
    decreases |lines|
  {
    if lines != [] {
      var n := |lines| - 1;
      CountConcat(lines[..n], c);
      CountAppend(Concat(lines[..n]), lines[n], c);
    }
  }

  /** A string without `c` counts no `c`. */
  lemma {:induction false} CountAbsent(s: string, c: char)
    requires forall k :: 0 <= k < |s| ==> s[k] != c
    ensures Count(s, c) == 0
    decreases |s|
  {
    if s != [] {
      CountAbsent(s[..|s| - 1], c);
    }
  }

  /** No cell holds a newline. */
  ghost predicate NoNewline(cells: seq<string>)
  {
    forall m :: 0 <= m < |cells| ==> Count(cells[m], '\n') == 0
  }

  /** None of the row's values prints with a newline. */
  ghost predicate SingleLine(r: Row)
  {
    forall v :: v in [r.purchaseOrder, r.partNumber, r.quantity, r.trackingNumber, r.source, r.typeOfEmail]
      ==> Count(Show(v), '\n') == 0
  }

  /** A table whose cells hold no newline has exactly one newline per line:
      `len(rows) + 2` in all. */
  lemma FormatNewlines(headers: seq<string>, rows: seq<seq<string>>)
    requires |headers| >= 1 && NoNewline(headers)
    requires forall r :: 0 <= r < |rows| ==> |rows[r]| >= 1 && NoNewline(rows[r])
    ensures Count(Concat(FormatLines(headers, rows)), '\n') == |rows| + 2
  {
    var lines := FormatLines(headers, rows);
    forall k | 0 <= k < |lines| ensures Count(lines[k], '\n') == 1 {
      if k == 0 {
        LineCounts(headers);
      } else if k == 1 {
        var dashes := Repeat("---", |headers|);
        CountAbsent("---", '\n');
        assert NoNewline(dashes);
        LineCounts(dashes);
      } else {
        LineCounts(rows[k - 2]);
      }
    }
    CountConcat(lines, '\n');
  }

  /** The cells of a row whose values print without newlines hold none. */
  lemma RowCellsSingleLine(r: Row)
    requires SingleLine(r)
    ensures NoNewline(Cells(r))
  {
    var cells := Cells(r);
    CellsInHeaderOrder(r);
    CountAbsent(NatToString(r.email), '\n');
    forall m | 1 <= m < |cells| ensures Count(cells[m], '\n') == 0 {
      assert cells[m] in [Show(r.purchaseOrder), Show(r.partNumber), Show(r.quantity),
                          Show(r.trackingNumber), Show(r.source), Show(r.typeOfEmail)];
    }
  }

  /** No header holds a newline. */
  lemma HeaderCellsSingleLine()
    ensures NoNewline(HEADERS)
  {
    forall m | 0 <= m < |HEADERS| ensures Count(HEADERS[m], '\n') == 0 {
      var h := HEADERS[m];
      assert '\n' !in h;
      CountAbsent(h, '\n');
    }
  }

  /** When no value prints with a newline, the table text holds exactly
      `len(data) + 2` newlines, one closing each of its lines. */
  lemma TableNewlines(rows: seq<Row>)
    requires forall k :: 0 <= k < |rows| ==> SingleLine(rows[k])
    ensures Count(Table(rows), '\n') == |rows| + 2
  {
    var table := CellRows(rows);
    HeaderCellsSingleLine();
    forall r | 0 <= r < |table| ensures |table[r]| >= 1 && NoNewline(table[r]) {
      RowCellsSingleLine(rows[r]);
    }
    FormatNewlines(HEADERS, table);
  }
}
