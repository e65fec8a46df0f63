/** The CSV export of the admin view: a literal header row, then one row per
    entry with every cell quoted in the style of RFC 4180, section 2, rules 5
    to 7 (fields enclosed in double quotes, an embedded quote doubled). A small
    reader for that format states the round trip. */
module Csv {
  import opened Option
  import opened Text
  import opened Feedback

  const HeaderFields: seq<string> := ["id", "timestamp", "name", "email", "topic", "message"]

  /** `header.join(",")`. */
  function HeaderLine(): string {
    Join(HeaderFields, ',')
  }

  /** The header row spelled out: `id,timestamp,name,email,topic,message`.
      It is written as a concatenation of the column names and commas, which
      denotes the same string as the one literal; the solver compares the
      short pieces step by step far more cheaply than one long literal. */
  lemma HeaderLiteral()
    ensures HeaderLine() == "id" + "," + "timestamp" + "," + "name" + "," + "email" + "," + "topic" + "," + "message"
  {
    var h := HeaderFields;
    assert Join(h[5..], ',') == "message";
    var j4 := Join(h[4..], ',');
    assert j4 == "topic" + "," + "message" by { assert h[4..][1..] == h[5..] && h[4..][0] == "topic"; }
    var j3 := Join(h[3..], ',');
    assert j3 == "email" + "," + j4 by { assert h[3..][1..] == h[4..]; }
    var j2 := Join(h[2..], ',');
    assert j2 == "name" + "," + j3 by { assert h[2..][1..] == h[3..]; }
    var j1 := Join(h[1..], ',');
    assert j1 == "timestamp" + "," + j2 by { assert h[1..][1..] == h[2..]; }
  }

  /** `safe(v)`: the value (the empty string when absent) with every newline
      replaced by a space, character for character. */
  function Safe(v: Option<string>): (r: string)
    ensures |r| == |v.GetOr("")|
    ensures '\n' !in r
    ensures v.None? ==> r == ""
    ensures forall i :: 0 <= i < |r| ==> r[i] == (if v.GetOr("")[i] == '\n' then ' ' else v.GetOr("")[i])
  {
    ReplaceChar(v.GetOr(""), '\n', ' ')
  }

  function DigitChar(d: nat): char
    requires d < 10
  {
    ('0' as int + d) as char
  }

  predicate IsDigit(c: char) {
    '0' <= c <= '9'
  }

  /** `String(n)` for a natural number: its decimal digits, most significant first. */
  function Decimal(n: nat): (r: string)
    ensures |r| >= 1
    ensures forall i :: 0 <= i < |r| ==> IsDigit(r[i])
    ensures r[0] == '0' ==> n == 0
    decreases n
  {
    if n < 10 then [DigitChar(n)] else Decimal(n / 10) + [DigitChar(n % 10)]
  }

  function DigitValue(c: char): nat
    requires IsDigit(c)
  {
    c as int - '0' as int
  }

  /** The number a string of decimal digits denotes. */
  function DigitsValue(s: string): nat
    requires forall i :: 0 <= i < |s| ==> IsDigit(s[i])
    decreases |s|
  {
    if s == [] then 0 else DigitsValue(s[..|s| - 1]) * 10 + DigitValue(s[|s| - 1])
  }

  /** Reading the decimal form back gives the number. */
  lemma {:induction false} DecimalValue(n: nat)
    ensures DigitsValue(Decimal(n)) == n
    decreases n
  {
    if n >= 10 {
      DecimalValue(n / 10);
      var r := Decimal(n);
      assert r[..|r| - 1] == Decimal(n / 10);
    }
  }

  /** `String(e.id ?? "")`. */
  function IdText(id: Option<nat>): string {
    match id
    case None => ""
    case Some(n) => Decimal(n)
  }

  /** The six cells of an entry's row, before quoting: `id` and `ts` as they
      are, the four text fields through `safe`. */
  function Cells(e: Entry): (r: seq<string>)
    ensures |r| == |HeaderFields|
  {
    [IdText(e.id), e.ts.GetOr(""), Safe(e.name), Safe(e.email), Safe(e.topic), Safe(e.message)]
  }

  /** `s.replaceAll('"', '""')`. */
  function Escape(s: string): (r: string)
    ensures |r| >= |s|
    ensures '"' !in s ==> r == s
    decreases |s|
  {
    if s == [] then [] else (if s[0] == '"' then "\"\"" else [s[0]]) + Escape(s[1..])
  }

  /** A cell as written: enclosed in double quotes, with inner quotes doubled. */
  function QuoteCell(s: string): string {
    "\"" + Escape(s) + "\""
  }

  function QuoteAll(cells: seq<string>): (r: seq<string>)
    ensures |r| == |cells|
    ensures forall k :: 0 <= k < |cells| ==> r[k] == QuoteCell(cells[k])
  {
    seq(|cells|, k requires 0 <= k < |cells| => QuoteCell(cells[k]))
  }

  /** One data row. */
  function Row(e: Entry): string {
    Join(QuoteAll(Cells(e)), ',')
  }

  function Rows(entries: seq<Entry>): (r: seq<string>)
    ensures |r| == |entries|
    ensures forall k :: 0 <= k < |entries| ==> r[k] == Row(entries[k])
  {
    seq(|entries|, k requires 0 <= k < |entries| => Row(entries[k]))
  }

  /** The `csv` memo: the header line and the rows, joined by newlines. The
      text starts with the header line, followed by a newline when there is
      at least one entry. */
  function Export(entries: seq<Entry>): (r: string)
    ensures |HeaderLine()| <= |r| && r[..|HeaderLine()|] == HeaderLine()
    ensures entries != [] ==> |HeaderLine()| < |r| && r[|HeaderLine()|] == '\n'
  {
    var lines := [HeaderLine()] + Rows(entries);
    assert lines[0] == HeaderLine();
    assert |lines| > 1 ==> Join(lines, '\n') == HeaderLine() + ['\n'] + Join(lines[1..], '\n');
    Join(lines, '\n')
  }

  // A reader for the exported text.

  /** Reads the inside of a quoted cell (after its opening quote): a doubled
      quote stands for one quote, a single quote closes the cell. Returns the
      cell's value and the text after the closing quote. */
  function ReadQuoted(t: string): (r: Option<(string, string)>)
    ensures r.Some? ==> |r.value.1| < |t|
    decreases |t|
  {
    if t == [] then None
    else if t[0] == '"' then
      if |t| >= 2 && t[1] == '"' then
        match ReadQuoted(t[2..])
        case None => None
        case Some((v, rest)) => Some(("\"" + v, rest))
      else Some(("", t[1..]))
    else
      match ReadQuoted(t[1..])
      case None => None
      case Some((v, rest)) => Some(([t[0]] + v, rest))
  }

  /** Reads a line of quoted cells separated by commas. */
  function ReadCells(t: string): Option<seq<string>>
    decreases |t|
  {
    if t == [] || t[0] != '"' then None
    else
      match ReadQuoted(t[1..])
      case None => None
      case Some((v, rest)) =>
        if rest == [] then Some([v])
        else if rest[0] != ',' then None
        else
          match ReadCells(rest[1..])
          case None => None
          case Some(vs) => Some([v] + vs)
  }

  function ReadRows(lines: seq<string>): Option<seq<seq<string>>>
    decreases |lines|
  {
    if lines == [] then Some([])
    else
      match ReadCells(lines[0])
      case None => None
      case Some(cells) =>
        match ReadRows(lines[1..])
        case None => None
        case Some(rows) => Some([cells] + rows)
  }

  /** Reads an export: the header line, then one data row per further line. */
  function Read(text: string): Option<seq<seq<string>>> {
    var lines := Split(text, '\n');
    if lines[0] != HeaderLine() then None else ReadRows(lines[1..])
  }

  /** Un-doubling the inside of a quoted cell recovers the original string,
      and the reader stops right after the closing quote. */
  lemma {:induction false} ReadQuotedCell(s: string, rest: string)
    requires rest == [] || rest[0] != '"'
    ensures ReadQuoted(Escape(s) + "\"" + rest) == Some((s, rest))
    decreases |s|
  {
    var t := Escape(s) + "\"" + rest;
    if s == [] {
      assert t == "\"" + rest;
      assert t[1..] == rest;
    } else {
      ReadQuotedCell(s[1..], rest);
      var tail := Escape(s[1..]) + "\"" + rest;
      if s[0] == '"' {
        assert t == "\"\"" + tail;
        assert t[2..] == tail;
        assert "\"" + s[1..] == s;
      } else {
        assert t == [s[0]] + tail;
        assert t[1..] == tail;
        assert [s[0]] + s[1..] == s;
      }
    }
  }

  /** Reading a row of quoted cells gives the cells back. */
  lemma {:induction false} ReadRow(cells: seq<string>)
    requires |cells| >= 1
    ensures ReadCells(Join(QuoteAll(cells), ',')) == Some(cells)
    decreases |cells|
  {
    var q := QuoteAll(cells);
    var line := Join(q, ',');
    if |cells| == 1 {
      assert line == "\"" + (Escape(cells[0]) + "\"" + []);
      assert line[0] == '"' && line[1..] == Escape(cells[0]) + "\"" + [];
      ReadQuotedCell(cells[0], []);
      assert cells == [cells[0]];
    } else {
      var more := Join(q[1..], ',');
      assert q[1..] == QuoteAll(cells[1..]);
      assert line == "\"" + (Escape(cells[0]) + "\"" + ([','] + more));
      assert line[1..] == Escape(cells[0]) + "\"" + ([','] + more);
      ReadQuotedCell(cells[0], [','] + more);
      assert ([','] + more)[1..] == more;
      ReadRow(cells[1..]);
      assert [cells[0]] + cells[1..] == cells;
    }
  }

  lemma {:induction false} EscapeAvoids(s: string, c: char)
    requires c != '"' && c !in s
    ensures c !in Escape(s)
    decreases |s|
  {
    if s != [] {
      EscapeAvoids(s[1..], c);
    }
  }

  predicate TimestampOneLine(e: Entry) {
    '\n' !in e.ts.GetOr("")
  }

  /** A row is one line when its timestamp is. */
  lemma RowOneLine(e: Entry)
    requires TimestampOneLine(e)
    ensures '\n' !in Row(e)
  {
    var cells := Cells(e);
    forall k | 0 <= k < |cells| ensures '\n' !in QuoteAll(cells)[k] {
      assert '\n' !in cells[k];
      EscapeAvoids(cells[k], '\n');
    }
    JoinAvoids(QuoteAll(cells), ',', '\n');
  }

  /** When no timestamp holds a newline, the export has exactly one line per
      entry after the literal header line. */
  lemma ExportLines(entries: seq<Entry>)
    requires forall k :: 0 <= k < |entries| ==> TimestampOneLine(entries[k])
    ensures Split(Export(entries), '\n') == [HeaderLine()] + Rows(entries)
    ensures |Split(Export(entries), '\n')| == 1 + |entries|
    ensures Split(Export(entries), '\n')[0] == HeaderLine()
  {
    var lines := [HeaderLine()] + Rows(entries);
    HeaderLiteral();
    forall k | 0 <= k < |lines| ensures '\n' !in lines[k] {
      if k > 0 {
        RowOneLine(entries[k - 1]);
      }
    }
    SplitJoin(lines, '\n');
  }

  /** An empty collection exports as the header line alone. */
  lemma ExportEmpty()
    ensures Export([]) == HeaderLine()
  {
    assert [HeaderLine()] + Rows([]) == [HeaderLine()];
  }

  /** The cells of every entry, in collection order. */
  function CellRows(entries: seq<Entry>): (r: seq<seq<string>>)
    ensures |r| == |entries|
    ensures forall k :: 0 <= k < |entries| ==> r[k] == Cells(entries[k])
  {
    seq(|entries|, k requires 0 <= k < |entries| => Cells(entries[k]))
  }

  lemma {:induction false} ReadAllRows(entries: seq<Entry>)
    ensures ReadRows(Rows(entries)) == Some(CellRows(entries))
    decreases |entries|
  {
    if entries != [] {
      ReadRow(Cells(entries[0]));
      assert Rows(entries)[0] == Join(QuoteAll(Cells(entries[0])), ',');
      assert Rows(entries)[1..] == Rows(entries[1..]);
      ReadAllRows(entries[1..]);
      assert CellRows(entries) == [Cells(entries[0])] + CellRows(entries[1..]);
    } else {
      assert Rows(entries) == [];
      assert CellRows(entries) == [];
    }
  }

  /** Reading an export back gives every entry's cells, in collection order,
      provided no timestamp holds a newline. */
  lemma ExportRoundTrip(entries: seq<Entry>)
    requires forall k :: 0 <= k < |entries| ==> TimestampOneLine(entries[k])
    ensures Read(Export(entries)) == Some(CellRows(entries))
  {
    ExportLines(entries);
    var lines := Split(Export(entries), '\n');
    assert lines[1..] == Rows(entries);
    ReadAllRows(entries);
  }

  /** A two-line message without quotes is exported as one quoted cell, its
      newline turned into a space. */
  lemma TwoLineMessageCell(a: string, b: string)
    requires '\n' !in a && '\n' !in b && '"' !in a && '"' !in b
    ensures QuoteCell(Safe(Some(a + "\n" + b))) == "\"" + a + " " + b + "\""
  {
    var s := Safe(Some(a + "\n" + b));
    assert s == a + " " + b;
  }
}
