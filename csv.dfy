/** The lenient CSV tokenizer `parseCSV` (script.js:10-52), a variant of the
    format of section 2 of RFC 4180: a doubled quote inside quotes is one
    literal quote, separators inside quotes stay in the cell, and `\r\n`, a
    bare `\r` and a bare `\n` each end a row. */
module Csv {

  type Row = seq<string>

  /** The tokenizer's loop variables other than the position: whether it is
      inside quotes, the cell being read, the row being read and the rows
      finished so far. */
  datatype Scan = Scan(inQuotes: bool, cur: string, row: Row, rows: seq<Row>)

  const Start := Scan(false, "", [], [])

  predicate IsBreak(c: char) {
    c == '\n' || c == '\r'
  }

  /** After the loop: the last cell is kept if it is non-empty or the text
      ended inside quotes, and the last row is kept if it is non-empty. */
  function Finish(s: Scan): seq<Row> {
    var row := if |s.cur| > 0 || s.inQuotes then s.row + [s.cur] else s.row;
    if |row| > 0 then s.rows + [row] else s.rows
  }

  /** The rows the loop produces from the remaining text `t` in state `s`;
      one step of the loop per case. */
  function Run(t: string, s: Scan): (rows: seq<Row>)
    ensures |s.rows| <= |rows| && rows[..|s.rows|] == s.rows
    decreases |t|
  {
    if t == [] then Finish(s)
    else if t[0] == '"' then
      if s.inQuotes && |t| > 1 && t[1] == '"' then
        Run(t[2..], s.(cur := s.cur + ['"']))
      else
        Run(t[1..], s.(inQuotes := !s.inQuotes))
    else if !s.inQuotes && t[0] == ',' then
      Run(t[1..], s.(cur := "", row := s.row + [s.cur]))
    else if !s.inQuotes && IsBreak(t[0]) then
      var rest := if t[0] == '\r' && |t| > 1 && t[1] == '\n' then t[2..] else t[1..];
      Run(rest, Scan(false, "", [], s.rows + [s.row + [s.cur]]))
    else
      Run(t[1..], s.(cur := s.cur + [t[0]]))
  }

  /** What `parseCSV(text)` returns: no row it returns is empty. */
  function Parse(text: string): (rows: seq<Row>)
    ensures forall r :: r in rows ==> |r| > 0
  {
    RunRowsNonEmpty(text, Start);
    Run(text, Start)
  }

  // Single steps of the loop, stated once so that longer proofs need not
  // unfold Run themselves.

  lemma StepComma(rest: string, s: Scan)
    requires !s.inQuotes
    ensures Run("," + rest, s) == Run(rest, s.(cur := "", row := s.row + [s.cur]))
  {
    assert ("," + rest)[1..] == rest;
  }

  lemma StepNewline(rest: string, s: Scan)
    requires !s.inQuotes
    ensures Run("\n" + rest, s) == Run(rest, Scan(false, "", [], s.rows + [s.row + [s.cur]]))
  {
    assert ("\n" + rest)[1..] == rest;
  }

  lemma StepQuote(rest: string, s: Scan)
    requires !s.inQuotes || rest == [] || rest[0] != '"'
    ensures Run("\"" + rest, s) == Run(rest, s.(inQuotes := !s.inQuotes))
  {
    assert ("\"" + rest)[1..] == rest;
  }

  lemma StepDoubledQuote(rest: string, s: Scan)
    requires s.inQuotes
    ensures Run("\"\"" + rest, s) == Run(rest, s.(cur := s.cur + ['"']))
  {
    assert ("\"\"" + rest)[2..] == rest;
  }

  lemma StepChar(c: char, rest: string, s: Scan)
    requires c != '"'
    requires s.inQuotes || (c != ',' && !IsBreak(c))
    ensures Run([c] + rest, s) == Run(rest, s.(cur := s.cur + [c]))
  {
    assert ([c] + rest)[1..] == rest;
  }

  /** `parseCSV` as the source writes it: one pass with an index. */
  method ParseCsv(text: string) returns (rows: seq<Row>)
    ensures rows == Parse(text)
    ensures forall r :: r in rows ==> |r| > 0
  {
    rows := [];
    var cur := "";
    var row: Row := [];
    var i := 0;
    var inQuotes := false;
    while i < |text|
      invariant 0 <= i <= |text|
      invariant Run(text[i..], Scan(inQuotes, cur, row, rows)) == Parse(text)
      invariant forall r :: r in rows ==> |r| > 0
    {
      var ch := text[i];
      assert text[i..][0] == ch && text[i..][1..] == text[i + 1..];
      if ch == '"' {
        if inQuotes && i + 1 < |text| && text[i + 1] == '"' {
          assert text[i..][2..] == text[i + 2..];
          cur := cur + ['"'];
          i := i + 2;
          continue;
        }
        inQuotes := !inQuotes;
        i := i + 1;
        continue;
      }
      if !inQuotes && (ch == ',' || ch == '\n' || ch == '\r') {
        row := row + [cur];
        cur := "";
        if ch == ',' {
          i := i + 1;
          continue;
        }
        if ch == '\r' && i + 1 < |text| && text[i + 1] == '\n' {
          assert text[i..][2..] == text[i + 2..];
          i := i + 1;
        }
        rows := rows + [row];
        row := [];
        i := i + 1;
        continue;
      }
      cur := cur + [ch];
      i := i + 1;
    }
    if |cur| > 0 || inQuotes {
      row := row + [cur];
    }
    if |row| > 0 {
      rows := rows + [row];
    }
  }

  // ---------------------------------------------------------------------
  // Shape: every returned row has at least one cell.

  lemma {:induction false} RunRowsNonEmpty(t: string, s: Scan)
    requires forall r :: r in s.rows ==> |r| > 0
    ensures forall r :: r in Run(t, s) ==> |r| > 0
    decreases |t|
  {
    if t == [] {
    } else if t[0] == '"' {
      if s.inQuotes && |t| > 1 && t[1] == '"' {
        RunRowsNonEmpty(t[2..], s.(cur := s.cur + ['"']));
      } else {
        RunRowsNonEmpty(t[1..], s.(inQuotes := !s.inQuotes));
      }
    } else if !s.inQuotes && t[0] == ',' {
      RunRowsNonEmpty(t[1..], s.(cur := "", row := s.row + [s.cur]));
    } else if !s.inQuotes && IsBreak(t[0]) {
      var rest := if t[0] == '\r' && |t| > 1 && t[1] == '\n' then t[2..] else t[1..];
      RunRowsNonEmpty(rest, Scan(false, "", [], s.rows + [s.row + [s.cur]]));
    } else {
      RunRowsNonEmpty(t[1..], s.(cur := s.cur + [t[0]]));
    }
  }

  // ---------------------------------------------------------------------
  // Round trip for text without quotes and carriage returns.

  /** Text without quotes and carriage returns. */
  predicate Plain(t: string) {
    forall k :: 0 <= k < |t| ==> t[k] != '"' && t[k] != '\r'
  }

  /** Cells joined by commas. */
  function Join(cells: Row): string {
    if |cells| == 0 then ""
    else if |cells| == 1 then cells[0]
    else Join(cells[..|cells| - 1]) + "," + cells[|cells| - 1]
  }

  /** Each row written as its cells joined by commas, followed by `\n`. */
  function Serialize(rows: seq<Row>): string {
    if rows == [] then ""
    else Serialize(rows[..|rows| - 1]) + Join(rows[|rows| - 1]) + "\n"
  }

  lemma FrontLast<T>(xs: seq<T>)
    requires xs != []
    ensures xs[..|xs| - 1] + [xs[|xs| - 1]] == xs
  {
  }

  lemma SerializeSnoc(rows: seq<Row>, r: Row)
    ensures Serialize(rows + [r]) == Serialize(rows) + Join(r) + "\n"
  {
    assert (rows + [r])[..|rows|] == rows;
  }

  lemma JoinSnoc(cells: Row, c: string)
    requires cells != []
    ensures Join(cells + [c]) == Join(cells) + "," + c
  {
    assert (cells + [c])[..|cells|] == cells;
  }

  lemma JoinExtendLast(cells: Row, c: string, ch: char)
    ensures Join(cells + [c + [ch]]) == Join(cells + [c]) + [ch]
  {
    if cells != [] {
      JoinSnoc(cells, c);
      JoinSnoc(cells, c + [ch]);
    }
  }

  /** The rows still to come from plain text `t` serialize back to `t`,
      after what is already finished and what is pending in `s`. */
  lemma {:induction false} RunPlainRoundTrip(t: string, s: Scan)
    requires Plain(t) && !s.inQuotes
    requires t != [] ==> t[|t| - 1] == '\n'
    requires t == [] ==> s.row == [] && s.cur == ""
    ensures Serialize(Run(t, s)) == Serialize(s.rows) + Join(s.row + [s.cur]) + t
    decreases |t|, 1
  {
    if t == [] {
      assert Run(t, s) == s.rows;
    } else if t[0] == ',' {
      PlainComma(t, s);
    } else if t[0] == '\n' {
      PlainNewline(t, s);
    } else {
      PlainOther(t, s);
    }
  }

  /** The rest of plain text after its first character is plain too. */
  lemma PlainTail(t: string)
    requires Plain(t) && t != [] && t[|t| - 1] == '\n'
    ensures Plain(t[1..]) && (t[1..] != [] ==> t[1..][|t[1..]| - 1] == '\n')
  {
    assert forall k :: 0 <= k < |t[1..]| ==> t[1..][k] == t[k + 1];
  }

  /** Moving the first character of `t` to the end of the current line. */
  lemma Regroup(done: string, line: string, x: string, rest: string, t: string)
    requires t == x + rest
    ensures done + (line + x) + rest == done + line + t
    ensures done + line + x + "" + rest == done + line + t
  {
  }

  lemma {:induction false} PlainComma(t: string, s: Scan)
    requires Plain(t) && !s.inQuotes && t != [] && t[|t| - 1] == '\n' && t[0] == ','
    ensures Serialize(Run(t, s)) == Serialize(s.rows) + Join(s.row + [s.cur]) + t
    decreases |t|, 0
  {
    var rest := t[1..];
    var done := Serialize(s.rows);
    var line := Join(s.row + [s.cur]);
    var s' := s.(cur := "", row := s.row + [s.cur]);
    assert Run(t, s) == Run(rest, s') by {
      assert t == "," + rest;
      StepComma(rest, s);
    }
    PlainTail(t);
    RunPlainRoundTrip(rest, s');
    assert Join(s'.row + [s'.cur]) == line + "," by { JoinSnoc(s.row + [s.cur], ""); }
    Regroup(done, line, ",", rest, t);
  }

  lemma {:induction false} PlainNewline(t: string, s: Scan)
    requires Plain(t) && !s.inQuotes && t != [] && t[|t| - 1] == '\n' && t[0] == '\n'
    ensures Serialize(Run(t, s)) == Serialize(s.rows) + Join(s.row + [s.cur]) + t
    decreases |t|, 0
  {
    var rest := t[1..];
    var done := Serialize(s.rows);
    var line := Join(s.row + [s.cur]);
    var r := s.row + [s.cur];
    var s' := Scan(false, "", [], s.rows + [r]);
    assert Run(t, s) == Run(rest, s') by {
      assert t == "\n" + rest;
      StepNewline(rest, s);
    }
    PlainTail(t);
    RunPlainRoundTrip(rest, s');
    assert Serialize(s'.rows) == done + line + "\n" by { SerializeSnoc(s.rows, r); }
    assert Join(s'.row + [s'.cur]) == "" by { assert s'.row + [s'.cur] == [""]; }
    Regroup(done, line, "\n", rest, t);
  }

  lemma {:induction false} PlainOther(t: string, s: Scan)
    requires Plain(t) && !s.inQuotes && t != [] && t[|t| - 1] == '\n'
    requires t[0] != ',' && t[0] != '\n'
    ensures Serialize(Run(t, s)) == Serialize(s.rows) + Join(s.row + [s.cur]) + t
    decreases |t|, 0
  {
    var c := t[0];
    var rest := t[1..];
    var done := Serialize(s.rows);
    var line := Join(s.row + [s.cur]);
    var s' := s.(cur := s.cur + [c]);
    assert Run(t, s) == Run(rest, s') by {
      assert t == [c] + rest;
      StepChar(c, rest, s);
    }
    PlainTail(t);
    RunPlainRoundTrip(rest, s');
    assert Join(s'.row + [s'.cur]) == line + [c] by { JoinExtendLast(s.row, s.cur, c); }
    Regroup(done, line, [c], rest, t);
  }

  /** Quote-free, CR-free text that is empty or ends in `\n` is reproduced
      by writing each parsed row as its cells joined by `,` plus `\n`. */
  lemma PlainRoundTrip(text: string)
    requires Plain(text)
    requires text == [] || text[|text| - 1] == '\n'
    ensures Serialize(Parse(text)) == text
  {
    RunPlainRoundTrip(text, Start);
  }

  /** A cell read from quote-free text holds no separator. */
  predicate FieldFree(c: string) {
    forall k :: 0 <= k < |c| ==> c[k] != ',' && c[k] != '\n' && c[k] != '\r' && c[k] != '"'
  }

  predicate CellsFieldFree(row: Row) {
    forall c :: c in row ==> FieldFree(c)
  }

  predicate RowsFieldFree(rows: seq<Row>) {
    forall r :: r in rows ==> CellsFieldFree(r)
  }

  lemma {:induction false} RunPlainCells(t: string, s: Scan)
    requires Plain(t) && !s.inQuotes
    requires FieldFree(s.cur) && CellsFieldFree(s.row) && RowsFieldFree(s.rows)
    ensures RowsFieldFree(Run(t, s))
    decreases |t|
  {
    if t == [] {
    } else if t[0] == ',' {
      RunPlainCells(t[1..], s.(cur := "", row := s.row + [s.cur]));
    } else if t[0] == '\n' {
      RunPlainCells(t[1..], Scan(false, "", [], s.rows + [s.row + [s.cur]]));
    } else {
      RunPlainCells(t[1..], s.(cur := s.cur + [t[0]]));
    }
  }

  /** On quote-free, CR-free text no cell holds a comma or a line break, so
      with PlainRoundTrip the parse is the naive split on `\n` and `,`. */
  lemma PlainCellsFieldFree(text: string)
    requires Plain(text)
    ensures RowsFieldFree(Parse(text))
  {
    RunPlainCells(text, Start);
  }

  lemma {:induction false} JoinCons(cells: Row)
    requires |cells| >= 2
    ensures Join(cells) == cells[0] + "," + Join(cells[1..])
    decreases |cells|
  {
    var n := |cells| - 1;
    if |cells| > 2 {
      JoinCons(cells[..n]);
      assert cells[..n][1..] == cells[1..][..n - 1];
      assert cells[..n][0] == cells[0];
    } else {
      assert cells[1..] == [cells[1]];
    }
  }

  /** A cell without separators or quotes is read as it stands. */
  lemma {:induction false} ReadPlainCell(c: string, rest: string, s: Scan)
    requires FieldFree(c) && !s.inQuotes
    ensures Run(c + rest, s) == Run(rest, s.(cur := s.cur + c))
    decreases |c|
  {
    if c == [] {
      assert c + rest == rest && s.cur + c == s.cur;
    } else {
      assert (c + rest)[0] == c[0] && (c + rest)[1..] == c[1..] + rest;
      ReadPlainCell(c[1..], rest, s.(cur := s.cur + [c[0]]));
      assert s.cur + [c[0]] + c[1..] == s.cur + c;
    }
  }

  /** A line of separator-free cells joined by `,` and ended by `\n` adds
      exactly that row. */
  lemma {:induction false} ReadPlainRow(r: Row, rest: string, s: Scan)
    requires |r| > 0 && CellsFieldFree(r)
    requires !s.inQuotes && s.cur == ""
    ensures Run(Join(r) + "\n" + rest, s) == Run(rest, Scan(false, "", [], s.rows + [s.row + r]))
    decreases |r|
  {
    var s1 := s.(cur := r[0]);
    if |r| == 1 {
      var u := "\n" + rest;
      assert Run(Join(r) + "\n" + rest, s) == Run(u, s1) by {
        assert Join(r) + "\n" + rest == r[0] + u;
        assert r[0] in r;
        ReadPlainCell(r[0], u, s);
        assert "" + r[0] == r[0];
      }
      StepNewline(rest, s1);
      assert s.row + [r[0]] == s.row + r;
    } else {
      var tail := Join(r[1..]) + "\n" + rest;
      var u := "," + tail;
      assert Run(Join(r) + "\n" + rest, s) == Run(u, s1) by {
        JoinCons(r);
        assert Join(r) + "\n" + rest == r[0] + u;
        assert r[0] in r;
        ReadPlainCell(r[0], u, s);
        assert "" + r[0] == r[0];
      }
      StepComma(tail, s1);
      assert Run(tail, s1.(cur := "", row := s.row + [r[0]])) == Run(rest, Scan(false, "", [], s.rows + [s.row + r])) by {
        assert CellsFieldFree(r[1..]) by {
          assert forall c :: c in r[1..] ==> c in r;
        }
        ReadPlainRow(r[1..], rest, s.(cur := "", row := s.row + [r[0]]));
        assert s.row + [r[0]] + r[1..] == s.row + r;
      }
    }
  }

  lemma {:induction false} ReadPlainRows(rows: seq<Row>, rest: string, s: Scan)
    requires forall r :: r in rows ==> |r| > 0 && CellsFieldFree(r)
    requires !s.inQuotes && s.cur == "" && s.row == []
    ensures Run(Serialize(rows) + rest, s) == Run(rest, s.(rows := s.rows + rows))
    decreases |rows|
  {
    if rows == [] {
      assert Serialize(rows) + rest == rest && s.rows + rows == s.rows;
    } else {
      var n := |rows| - 1;
      var front := rows[..n];
      var last := rows[n];
      var u := Join(last) + "\n" + rest;
      var s1 := s.(rows := s.rows + front);
      assert Run(Serialize(rows) + rest, s) == Run(u, s1) by {
        assert Serialize(rows) + rest == Serialize(front) + u;
        assert forall r :: r in front ==> r in rows;
        ReadPlainRows(front, u, s);
      }
      assert last in rows;
      ReadLastPlainRow(front, last, rest, s);
      FrontLast(rows);
    }
  }

  lemma ReadLastPlainRow(front: seq<Row>, last: Row, rest: string, s: Scan)
    requires |last| > 0 && CellsFieldFree(last)
    requires !s.inQuotes && s.cur == "" && s.row == []
    ensures Run(Join(last) + "\n" + rest, s.(rows := s.rows + front)) ==
            Run(rest, s.(rows := s.rows + (front + [last])))
  {
    ReadPlainRow(last, rest, s.(rows := s.rows + front));
    assert [] + last == last;
    assert s.rows + front + [last] == s.rows + (front + [last]);
  }

  /** The other direction of PlainRoundTrip: a table of non-empty rows whose
      cells hold no separator or quote, written out, parses back to itself. */
  lemma PlainTableRoundTrip(rows: seq<Row>)
    requires forall r :: r in rows ==> |r| > 0 && CellsFieldFree(r)
    ensures Parse(Serialize(rows)) == rows
  {
    ReadPlainRows(rows, "", Start);
    assert Serialize(rows) + "" == Serialize(rows);
    assert Run("", Start.(rows := rows)) == rows;
  }

  // ---------------------------------------------------------------------
  // Quoted cells: the escaping of section 2 of RFC 4180 is read back exactly.

  /** Every quote doubled. */
  function Escape(c: string): string {
    if c == [] then ""
    else (if c[0] == '"' then "\"\"" else [c[0]]) + Escape(c[1..])
  }

  /** A cell written between quotes with its quotes doubled. */
  function Quote(c: string): string {
    "\"" + Escape(c) + "\""
  }

  /** A row of quoted cells separated by `,` and ended by `\n`. */
  function EncodeRow(r: Row): string {
    if |r| == 0 then "\n"
    else if |r| == 1 then Quote(r[0]) + "\n"
    else Quote(r[0]) + "," + EncodeRow(r[1..])
  }

  function Encode(rows: seq<Row>): string {
    if rows == [] then "" else EncodeRow(rows[0]) + Encode(rows[1..])
  }

  /** Escaping works character by character. */
  lemma {:induction false} EscapeConcat(a: string, b: string)
    ensures Escape(a + b) == Escape(a) + Escape(b)
    decreases |a|
  {
    if a == [] {
      assert a + b == b;
    } else {
      assert (a + b)[0] == a[0] && (a + b)[1..] == a[1..] + b;
      EscapeConcat(a[1..], b);
    }
  }

  /** Text without quotes is its own escape. */
  lemma {:induction false} EscapeQuoteFree(c: string)
    requires QuoteFree(c)
    ensures Escape(c) == c
    decreases |c|
  {
    if c != [] {
      assert QuoteFree(c[1..]) by {
        assert forall k :: 0 <= k < |c[1..]| ==> c[1..][k] == c[k + 1];
      }
      EscapeQuoteFree(c[1..]);
      assert [c[0]] + c[1..] == c;
    }
  }

  /** Inside quotes, an escaped cell and its closing quote add the cell's
      text to the current cell and leave the quotes, provided no quote
      follows the closing one. */
  lemma {:induction false} ReadEscaped(c: string, rest: string, s: Scan)
    requires s.inQuotes
    requires rest == [] || rest[0] != '"'
    ensures Run(Escape(c) + "\"" + rest, s) == Run(rest, s.(inQuotes := false, cur := s.cur + c))
    decreases |c|
  {
    if c == [] {
      assert Escape(c) + "\"" + rest == "\"" + rest;
      StepQuote(rest, s);
      assert s.cur + c == s.cur;
    } else {
      var t' := Escape(c[1..]) + "\"" + rest;
      var s' := s.(cur := s.cur + [c[0]]);
      assert Run(Escape(c) + "\"" + rest, s) == Run(t', s') by {
        if c[0] == '"' {
          assert Escape(c) + "\"" + rest == "\"\"" + t';
          StepDoubledQuote(t', s);
        } else {
          assert Escape(c) + "\"" + rest == [c[0]] + t';
          StepChar(c[0], t', s);
        }
      }
      ReadEscaped(c[1..], rest, s');
      assert s.cur + [c[0]] + c[1..] == s.cur + c;
    }
  }

  lemma ReadQuoted(c: string, rest: string, s: Scan)
    requires !s.inQuotes && s.cur == ""
    requires rest == [] || rest[0] != '"'
    ensures Run(Quote(c) + rest, s) == Run(rest, s.(cur := c))
  {
    var t := Quote(c) + rest;
    assert t == "\"" + (Escape(c) + "\"" + rest);
    assert t[0] == '"' && t[1..] == Escape(c) + "\"" + rest;
    ReadEscaped(c, rest, s.(inQuotes := true));
    assert s.(inQuotes := true).(inQuotes := false, cur := "" + c) == s.(cur := c);
  }

  /** A non-empty encoded row adds exactly that row. */
  lemma {:induction false} ReadRow(r: Row, rest: string, s: Scan)
    requires |r| > 0 && !s.inQuotes && s.cur == ""
    ensures Run(EncodeRow(r) + rest, s) == Run(rest, Scan(false, "", [], s.rows + [s.row + r]))
    decreases |r|
  {
    var s1 := s.(cur := r[0]);
    if |r| == 1 {
      var u := "\n" + rest;
      assert Run(EncodeRow(r) + rest, s) == Run(u, s1) by {
        assert EncodeRow(r) + rest == Quote(r[0]) + u;
        ReadQuoted(r[0], u, s);
      }
      StepNewline(rest, s1);
      assert s.row + [r[0]] == s.row + r;
    } else {
      var tail := EncodeRow(r[1..]) + rest;
      var u := "," + tail;
      assert Run(EncodeRow(r) + rest, s) == Run(u, s1) by {
        assert EncodeRow(r) + rest == Quote(r[0]) + u;
        ReadQuoted(r[0], u, s);
      }
      StepComma(tail, s1);
      ReadRow(r[1..], rest, s.(cur := "", row := s.row + [r[0]]));
      assert s.row + [r[0]] + r[1..] == s.row + r;
    }
  }

  lemma {:induction false} ReadRows(rows: seq<Row>, s: Scan)
    requires forall r :: r in rows ==> |r| > 0
    requires !s.inQuotes && s.cur == "" && s.row == []
    ensures Run(Encode(rows), s) == s.rows + rows
    decreases |rows|
  {
    if rows == [] {
      assert Run("", s) == s.rows;
    } else {
      assert Encode(rows) == EncodeRow(rows[0]) + Encode(rows[1..]);
      ReadRow(rows[0], Encode(rows[1..]), s);
      assert s.row + rows[0] == rows[0];
      ReadRows(rows[1..], Scan(false, "", [], s.rows + [rows[0]]));
      assert s.rows + [rows[0]] + rows[1..] == s.rows + rows;
    }
  }

  /** Any table whose rows are all non-empty, written with every cell quoted
      and escaped, parses back to itself: commas, line breaks and quotes
      inside quoted cells are kept. */
  lemma QuotedRoundTrip(rows: seq<Row>)
    requires forall r :: r in rows ==> |r| > 0
    ensures Parse(Encode(rows)) == rows
  {
    ReadRows(rows, Start);
  }

  // ---------------------------------------------------------------------
  // Line breaks and the end of the input.

  predicate QuoteFree(t: string) {
    forall k :: 0 <= k < |t| ==> t[k] != '"'
  }

  /** Every `\r\n` and every bare `\r` outside quotes replaced by `\n`;
      `inQuotes` is the quote parity before `t`, and text inside quotes is
      kept as it is. */
  function UnifyBreaksFrom(t: string, inQuotes: bool): string
    decreases |t|
  {
    if t == [] then ""
    else if t[0] == '"' then "\"" + UnifyBreaksFrom(t[1..], !inQuotes)
    else if !inQuotes && t[0] == '\r' then
      "\n" + UnifyBreaksFrom(if |t| > 1 && t[1] == '\n' then t[2..] else t[1..], false)
    else [t[0]] + UnifyBreaksFrom(t[1..], inQuotes)
  }

  function UnifyBreaks(t: string): string {
    UnifyBreaksFrom(t, false)
  }

  /** Unifying keeps the first character a quote exactly when it was one. */
  lemma UnifyHead(t: string, inQuotes: bool)
    ensures t == [] <==> UnifyBreaksFrom(t, inQuotes) == []
    ensures t != [] ==> (UnifyBreaksFrom(t, inQuotes)[0] == '"' <==> t[0] == '"')
  {
  }

  /** Quote-free text has no `\r` left once unified. */
  lemma {:induction false} UnifyBreaksNoCR(t: string)
    requires QuoteFree(t)
    ensures forall k :: 0 <= k < |UnifyBreaks(t)| ==> UnifyBreaks(t)[k] != '\r'
    decreases |t|
  {
    if t != [] {
      var rest := if t[0] == '\r' && |t| > 1 && t[1] == '\n' then t[2..] else t[1..];
      assert QuoteFree(rest) by {
        assert forall k :: 0 <= k < |rest| ==> rest[k] == t[k + |t| - |rest|];
      }
      UnifyBreaksNoCR(rest);
      if t[0] == '\r' {
        assert UnifyBreaks(t) == "\n" + UnifyBreaks(rest);
      } else {
        assert rest == t[1..];
        assert UnifyBreaks(t) == [t[0]] + UnifyBreaks(rest);
      }
    }
  }

  /** Every `\r` in `u` lies inside quotes, the quote parity starting at
      `inQuotes` and toggling at each `"`. */
  predicate CRsQuoted(u: string, inQuotes: bool)
    decreases |u|
  {
    u == [] ||
    ((u[0] != '\r' || inQuotes) &&
     CRsQuoted(u[1..], if u[0] == '"' then !inQuotes else inQuotes))
  }

  /** For any text, quoted cells included, every `\r` left once unified
      is inside quotes. */
  lemma {:induction false} UnifyLeavesQuotedCR(t: string, inQuotes: bool)
    ensures CRsQuoted(UnifyBreaksFrom(t, inQuotes), inQuotes)
    decreases |t|
  {
    if t != [] {
      var u := UnifyBreaksFrom(t, inQuotes);
      if t[0] == '"' {
        UnifyLeavesQuotedCR(t[1..], !inQuotes);
        assert u[0] == '"' && u[1..] == UnifyBreaksFrom(t[1..], !inQuotes);
      } else if !inQuotes && t[0] == '\r' {
        var rest := if |t| > 1 && t[1] == '\n' then t[2..] else t[1..];
        UnifyLeavesQuotedCR(rest, false);
        assert u[0] == '\n' && u[1..] == UnifyBreaksFrom(rest, false);
      } else {
        UnifyLeavesQuotedCR(t[1..], inQuotes);
        assert u[0] == t[0] && u[1..] == UnifyBreaksFrom(t[1..], inQuotes);
      }
    }
  }

  lemma {:induction false} RunUnifyBreaks(t: string, s: Scan)
    ensures Run(UnifyBreaksFrom(t, s.inQuotes), s) == Run(t, s)
    decreases |t|
  {
    if t != [] {
      var q := s.inQuotes;
      var c := t[0];
      if c == '"' && q && |t| > 1 && t[1] == '"' {
        var s' := s.(cur := s.cur + ['"']);
        var rest := UnifyBreaksFrom(t[2..], q);
        assert UnifyBreaksFrom(t, q) == "\"\"" + rest by {
          assert t[1..][0] == '"' && t[1..][1..] == t[2..];
        }
        StepDoubledQuote(rest, s);
        RunUnifyBreaks(t[2..], s');
      } else if c == '"' {
        var rest := UnifyBreaksFrom(t[1..], !q);
        assert UnifyBreaksFrom(t, q) == "\"" + rest;
        UnifyHead(t[1..], !q);
        StepQuote(rest, s);
        RunUnifyBreaks(t[1..], s.(inQuotes := !q));
      } else if !q && c == '\r' {
        var after := if |t| > 1 && t[1] == '\n' then t[2..] else t[1..];
        var rest := UnifyBreaksFrom(after, false);
        assert UnifyBreaksFrom(t, q) == "\n" + rest;
        StepNewline(rest, s);
        RunUnifyBreaks(after, Scan(false, "", [], s.rows + [s.row + [s.cur]]));
      } else if !q && c == ',' {
        var rest := UnifyBreaksFrom(t[1..], q);
        assert UnifyBreaksFrom(t, q) == "," + rest;
        StepComma(rest, s);
        RunUnifyBreaks(t[1..], s.(cur := "", row := s.row + [s.cur]));
      } else if !q && c == '\n' {
        var rest := UnifyBreaksFrom(t[1..], q);
        assert UnifyBreaksFrom(t, q) == "\n" + rest;
        StepNewline(rest, s);
        RunUnifyBreaks(t[1..], Scan(false, "", [], s.rows + [s.row + [s.cur]]));
      } else {
        var rest := UnifyBreaksFrom(t[1..], q);
        assert UnifyBreaksFrom(t, q) == [c] + rest;
        StepChar(c, rest, s);
        RunUnifyBreaks(t[1..], s.(cur := s.cur + [c]));
      }
    }
  }

  /** Outside quotes, `\r\n`, a bare `\r` and `\n` each end exactly one row:
      replacing the first two by `\n` outside quotes does not change the
      parse, whatever quoted cells the text holds. */
  lemma LineBreaksEquivalent(text: string)
    ensures Parse(text) == Parse(UnifyBreaks(text))
  {
    RunUnifyBreaks(text, Start);
  }

  /** The loop variables once the loop has consumed all of `t`. */
  function Final(t: string, s: Scan): Scan
    decreases |t|
  {
    if t == [] then s
    else if t[0] == '"' then
      if s.inQuotes && |t| > 1 && t[1] == '"' then
        Final(t[2..], s.(cur := s.cur + ['"']))
      else
        Final(t[1..], s.(inQuotes := !s.inQuotes))
    else if !s.inQuotes && t[0] == ',' then
      Final(t[1..], s.(cur := "", row := s.row + [s.cur]))
    else if !s.inQuotes && IsBreak(t[0]) then
      var rest := if t[0] == '\r' && |t| > 1 && t[1] == '\n' then t[2..] else t[1..];
      Final(rest, Scan(false, "", [], s.rows + [s.row + [s.cur]]))
    else
      Final(t[1..], s.(cur := s.cur + [t[0]]))
  }

  /** Neither a doubled quote nor a `\r\n` is split between `t` and `u`. */
  predicate CleanCut(t: string, u: string) {
    t == [] || u == [] ||
    ((t[|t| - 1] != '"' || u[0] != '"') && (t[|t| - 1] != '\r' || u[0] != '\n'))
  }

  /** Reading `t + u` is reading `t` and then carrying on with `u` from the
      state `t` left, when no two-character token straddles the cut. */
  lemma {:induction false} RunAppend(t: string, u: string, s: Scan)
    requires CleanCut(t, u)
    ensures Run(t + u, s) == Run(u, Final(t, s))
    decreases |t|
  {
    if t == [] {
      assert t + u == u;
    } else {
      var v := t + u;
      assert v[0] == t[0] && v[1..] == t[1..] + u;
      assert CleanCut(t[1..], u) by {
        if t[1..] != [] { assert t[1..][|t[1..]| - 1] == t[|t| - 1]; }
      }
      if |t| > 1 {
        assert v[1] == t[1] && v[2..] == t[2..] + u;
        assert CleanCut(t[2..], u) by {
          if t[2..] != [] { assert t[2..][|t[2..]| - 1] == t[|t| - 1]; }
        }
      } else if u != [] {
        assert v[1] == u[0] && v[1..] == u;
      }
      if t[0] == '"' {
        if s.inQuotes && |t| > 1 && t[1] == '"' {
          RunAppend(t[2..], u, s.(cur := s.cur + ['"']));
        } else {
          RunAppend(t[1..], u, s.(inQuotes := !s.inQuotes));
        }
      } else if !s.inQuotes && t[0] == ',' {
        RunAppend(t[1..], u, s.(cur := "", row := s.row + [s.cur]));
      } else if !s.inQuotes && IsBreak(t[0]) {
        var s' := Scan(false, "", [], s.rows + [s.row + [s.cur]]);
        if t[0] == '\r' && |t| > 1 && t[1] == '\n' {
          RunAppend(t[2..], u, s');
        } else {
          RunAppend(t[1..], u, s');
        }
      } else {
        RunAppend(t[1..], u, s.(cur := s.cur + [t[0]]));
      }
    }
  }

  /** The rows are those the loop finished plus what the end of input adds. */
  lemma RunIsFinish(t: string, s: Scan)
    ensures Run(t, s) == Finish(Final(t, s))
  {
    RunAppend(t, [], s);
    assert t + [] == t;
  }

  /** A text whose last character is `\r` ends either inside quotes or with
      an empty current cell. */
  lemma {:induction false} FinalAfterCR(t: string, s: Scan)
    requires t != [] && t[|t| - 1] == '\r'
    ensures Final(t, s).inQuotes || Final(t, s).cur == ""
    decreases |t|
  {
    if |t| > 1 {
      assert t[1..][|t[1..]| - 1] == '\r';
      if |t| > 2 { assert t[2..][|t[2..]| - 1] == '\r'; }
      if t[0] == '"' {
        if s.inQuotes && t[1] == '"' {
          FinalAfterCR(t[2..], s.(cur := s.cur + ['"']));
        } else {
          FinalAfterCR(t[1..], s.(inQuotes := !s.inQuotes));
        }
      } else if !s.inQuotes && t[0] == ',' {
        FinalAfterCR(t[1..], s.(cur := "", row := s.row + [s.cur]));
      } else if !s.inQuotes && IsBreak(t[0]) {
        var s' := Scan(false, "", [], s.rows + [s.row + [s.cur]]);
        if t[0] == '\r' && t[1] == '\n' {
          FinalAfterCR(t[2..], s');
        } else {
          FinalAfterCR(t[1..], s');
        }
      } else {
        FinalAfterCR(t[1..], s.(cur := s.cur + [t[0]]));
      }
    } else {
      assert t[1..] == [];
    }
  }

  /** A single `,`, `\n` or `\r` after a text that ends outside quotes with a
      non-empty cell adds no empty cell and no empty row: `a,`, `a\n` and
      `"a,b"\r` parse as `a` and `"a,b"`. */
  lemma TrailingSeparatorAddsNothing(text: string, sep: char)
    requires sep == ',' || IsBreak(sep)
    requires !Final(text, Start).inQuotes && Final(text, Start).cur != ""
    ensures Parse(text + [sep]) == Parse(text)
  {
    var f := Final(text, Start);
    if text != [] && text[|text| - 1] == '\r' {
      FinalAfterCR(text, Start);
    }
    RunAppend(text, [sep], Start);
    RunIsFinish(text, Start);
    assert [sep][1..] == [];
    assert Run([sep], f) == f.rows + [f.row + [f.cur]];
  }

  /** At the end of the input the pending cell is kept when it is non-empty
      or the input ended inside quotes, and dropped otherwise; the pending
      row is then kept exactly when it is non-empty. */
  lemma EndOfInput(text: string)
    ensures var f := Final(text, Start);
      (f.inQuotes || f.cur != "" ==> Parse(text) == f.rows + [f.row + [f.cur]]) &&
      (!f.inQuotes && f.cur == "" && f.row != [] ==> Parse(text) == f.rows + [f.row]) &&
      (!f.inQuotes && f.cur == "" && f.row == [] ==> Parse(text) == f.rows)
  {
    RunIsFinish(text, Start);
  }

  lemma SayHiPieces()
    ensures "say " + "\"" + "hi" + "\"" == "say \"hi\""
    ensures "\"" + ("say " + ("\"" + "\"") + "hi" + ("\"" + "\"")) + "\"" == "\"say \"\"hi\"\"\""
  {
  }

  lemma QuoteSayHiExample()
    ensures Quote("say \"hi\"") == "\"say \"\"hi\"\"\""
  {
    var q := "\"";
    var say := "say ";
    var hi := "hi";
    assert Escape(say + q + hi + q) == say + (q + q) + hi + (q + q) by {
      assert Escape(q) == q + q by { assert q[1..] == ""; }
      EscapeQuoteFree(say);
      EscapeQuoteFree(hi);
      EscapeConcat(say, q);
      EscapeConcat(say + q, hi);
      EscapeConcat(say + q + hi, q);
    }
    SayHiPieces();
    assert Quote(say + q + hi + q) == q + (say + (q + q) + hi + (q + q)) + q;
  }

  lemma EscapedQuoteExample()
    ensures Parse("\"say \"\"hi\"\"\"") == [["say \"hi\""]]
  {
    var c := "say \"hi\"";
    assert Run(Quote(c), Start) == Run("", Start.(cur := c)) by {
      QuoteSayHiExample();
      ReadQuoted(c, "", Start);
      assert Quote(c) + "" == Quote(c);
    }
    assert Run("", Start.(cur := c)) == [[c]] by {
      assert [] + [c] == [c];
      assert [] + [[c]] == [[c]];
    }
    QuoteSayHiExample();
  }

  lemma QuoteBcExample()
    ensures Quote("b,c") == "\"b,c\""
  {
    assert Escape("c") == "c" && Escape(",c") == ",c" && Escape("b,c") == "b,c";
  }

  lemma QuotedCommaExample()
    ensures Parse("a,\"b,c\",d") == [["a", "b,c", "d"]]
  {
    var q := Quote("b,c");
    var t1 := "," + (q + ",d");
    var sa := Scan(false, "a", [], []);
    var s1 := Scan(false, "", ["a"], []);
    assert Run(['a'] + t1, Start) == Run(t1, sa) by {
      StepChar('a', t1, Start);
      assert [] + "a" == "a";
    }
    assert Run(t1, sa) == Run(q + ",d", s1) by {
      StepComma(q + ",d", sa);
      assert [] + ["a"] == ["a"];
    }
    assert Run(q + ",d", s1) == Run(",d", s1.(cur := "b,c")) by {
      ReadQuoted("b,c", ",d", s1);
    }
    QuotedCommaLastCell();
    QuoteBcExample();
    QuotedCommaPieces();
  }

  /** The last cell of the example, after the quoted one. */
  lemma QuotedCommaLastCell()
    ensures Run(",d", Scan(false, "b,c", ["a"], [])) == [["a", "b,c", "d"]]
  {
    var s2 := Scan(false, "", ["a", "b,c"], []);
    assert Run(",d", Scan(false, "b,c", ["a"], [])) == Run("d", s2) by {
      StepComma("d", Scan(false, "b,c", ["a"], []));
      assert ",d" == "," + "d";
      assert ["a"] + ["b,c"] == ["a", "b,c"];
    }
    assert Run("d", s2) == Run("", s2.(cur := "d")) by {
      StepChar('d', "", s2);
      assert "d" == ['d'] + "" && "" + ['d'] == "d";
    }
    assert Run("", s2.(cur := "d")) == [["a", "b,c", "d"]] by {
      assert ["a", "b,c"] + ["d"] == ["a", "b,c", "d"];
      assert [] + [["a", "b,c", "d"]] == [["a", "b,c", "d"]];
    }
  }

  lemma QuotedCommaPieces()
    ensures ['a'] + ("," + ("\"b,c\"" + ",d")) == "a,\"b,c\",d"
  {
  }

  /** `a,` at the end of the input yields one row with one cell. */
  lemma TrailingCommaExample()
    ensures Parse("a,") == [["a"]]
  {
    assert "a"[1..] == "" && [] + "a" == "a";
    assert Final("a", Start) == Final("", Scan(false, [] + "a", [], []));
    TrailingSeparatorAddsNothing("a", ',');
    assert "a" + [','] == "a,";
    assert Run("a", Start) == Run("", Scan(false, [] + "a", [], []));
    assert [] + "a" == "a";
    var row: Row := [] + ["a"];
    assert row == ["a"];
    assert Run("", Scan(false, "a", [], [])) == [] + [row];
  }

  /** An unclosed quote keeps an empty last cell; a closed empty one does not. */
  lemma QuoteAtEndExamples()
    ensures Parse("\"") == [[""]]
    ensures Parse("\"\"") == []
  {
    assert "\""[1..] == "";
    assert Run("\"", Start) == Run("", Start.(inQuotes := true));
    var row: Row := [] + [""];
    assert row == [""];
    assert Run("", Start.(inQuotes := true)) == [] + [row];
    assert "\"\""[1..] == "\"";
    assert Run("\"\"", Start) == Run("\"", Start.(inQuotes := true));
    assert Run("\"", Start.(inQuotes := true)) == Run("", Start);
  }
}
