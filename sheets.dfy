/** The synchronous part of `loadSheets` (script.js:64-91) and
    `normalizeHeader` (script.js:54-56): from the CSV text to the product
    table keyed by name. */
module Sheets {
  import opened Wrappers
  import opened Text
  import Csv

  /** One product: normalized header name to trimmed cell value. */
  type Record = map<string, string>

  /** Product key (the name, title or first-column value) to its record. */
  type Table = map<string, Record>

  /** `normalizeHeader`: trimmed and lower-cased. */
  function NormalizeHeader(h: string): (r: string)
    ensures NoEdgeSpace(r) && NoUpper(r)
    ensures |r| <= |h|
  {
    var t := Trim(h);
    assert NoEdgeSpace(ToLower(t)) by {
      if t != [] {
        assert ToLower(t)[0] == LowerChar(t[0]);
        assert ToLower(t)[|t| - 1] == LowerChar(t[|t| - 1]);
      }
    }
    ToLower(t)
  }

  /** Normalizing a normalized header changes nothing. */
  lemma NormalizeHeaderIdempotent(h: string)
    ensures NormalizeHeader(NormalizeHeader(h)) == NormalizeHeader(h)
  {
    var r := NormalizeHeader(h);
    TrimOfTrimmed(r);
    ToLowerOfLower(r);
  }

  /** The header row mapped through `normalizeHeader` into a new sequence:
      every header comes out trimmed and lower-cased. */
  function NormalizeHeaders(raw: seq<string>): (headers: seq<string>)
    ensures |headers| == |raw|
    ensures forall k :: 0 <= k < |raw| ==> headers[k] == NormalizeHeader(raw[k])
    ensures forall k :: 0 <= k < |headers| ==> NoEdgeSpace(headers[k]) && NoUpper(headers[k])
  {
    seq(|raw|, k requires 0 <= k < |raw| => NormalizeHeader(raw[k]))
  }

  /** The key column: `name` if present, else `title`, else the first
      header; none when there is no header at all. */
  function KeyColumn(headers: seq<string>): (k: Option<string>)
    ensures k.Some? <==> |headers| > 0
    ensures k.Some? ==> k.value in headers
    ensures "name" in headers ==> k == Some("name")
    ensures "name" !in headers && "title" in headers ==> k == Some("title")
    ensures "name" !in headers && "title" !in headers && |headers| > 0 ==> k == Some(headers[0])
  {
    if "name" in headers then Some("name")
    else if "title" in headers then Some("title")
    else if |headers| > 0 then Some(headers[0])
    else None
  }

  /** The cell at `idx` once the row is padded with `''` up to the header
      count. */
  function CellAt(cells: seq<string>, idx: nat): string {
    if idx < |cells| then cells[idx] else ""
  }

  /** The record built by assigning, header by header from left to right,
      the trimmed cell to the header's name (a repeated header keeps its
      last column). */
  function RecordOf(headers: seq<string>, cells: seq<string>): (rec: Record)
    ensures forall h :: h in rec <==> h in headers
    ensures forall h :: h in rec ==> NoEdgeSpace(rec[h])
    decreases |headers|
  {
    if |headers| == 0 then map[]
    else
      var n := |headers| - 1;
      RecordOf(headers[..n], cells)[headers[n] := Trim(CellAt(cells, n))]
  }

  /** The value of a field is the trimmed cell under the field's last
      column, `''` if the row is too short. */
  lemma {:induction false} RecordField(headers: seq<string>, cells: seq<string>, idx: nat)
    requires idx < |headers|
    requires forall j :: idx < j < |headers| ==> headers[j] != headers[idx]
    ensures RecordOf(headers, cells)[headers[idx]] == Trim(CellAt(cells, idx))
    decreases |headers|
  {
    var n := |headers| - 1;
    var v := Trim(CellAt(cells, n));
    assert RecordOf(headers, cells) == RecordOf(headers[..n], cells)[headers[n] := v];
    if idx < n {
      assert headers[..n][idx] == headers[idx];
      assert headers[idx] != headers[n];
      RecordField(headers[..n], cells, idx);
    }
  }

  /** Cells beyond the header count are ignored and missing ones read as `''`:
      two rows that agree once padded and cut to the header count give the
      same record. */
  lemma {:induction false} RecordIgnoresExtraCells(headers: seq<string>, c1: seq<string>, c2: seq<string>)
    requires forall idx: nat :: idx < |headers| ==> CellAt(c1, idx) == CellAt(c2, idx)
    ensures RecordOf(headers, c1) == RecordOf(headers, c2)
    decreases |headers|
  {
    if |headers| > 0 {
      var n := |headers| - 1;
      RecordIgnoresExtraCells(headers[..n], c1, c2);
    }
  }

  /** The key value of a row; `''` (falsy) when there is no key column. */
  function RowKey(headers: seq<string>, cells: seq<string>): string {
    match KeyColumn(headers)
    case None => ""
    case Some(k) => RecordOf(headers, cells)[k]
  }

  /** What a data row contributes: its key and its record. */
  type Entry = (string, Record)

  function Entries(headers: seq<string>, body: seq<seq<string>>): (es: seq<Entry>)
    ensures |es| == |body|
    ensures forall j :: 0 <= j < |body| ==> es[j] == (RowKey(headers, body[j]), RecordOf(headers, body[j]))
  {
    seq(|body|, j requires 0 <= j < |body| => (RowKey(headers, body[j]), RecordOf(headers, body[j])))
  }

  function EntryKeys(es: seq<Entry>): (ks: seq<string>)
    ensures |ks| == |es| && forall j :: 0 <= j < |es| ==> ks[j] == es[j].0
  {
    seq(|es|, j requires 0 <= j < |es| => es[j].0)
  }

  /** `data[key] = obj` for each entry in order, skipping empty keys. */
  function Collect(es: seq<Entry>): (t: Table)
    ensures forall k :: k in t ==> k != ""
  {
    if es == [] then map[]
    else
      var n := |es| - 1;
      var t := Collect(es[..n]);
      if es[n].0 != "" then t[es[n].0 := es[n].1] else t
  }

  /** The position of the last occurrence of `key`, or -1. */
  function LastIndexOf(ks: seq<string>, key: string): (r: int)
    ensures -1 <= r < |ks|
    ensures r == -1 <==> key !in ks
    ensures r >= 0 ==> ks[r] == key && forall j :: r < j < |ks| ==> ks[j] != key
  {
    if ks == [] then -1
    else if ks[|ks| - 1] == key then |ks| - 1
    else LastIndexOf(ks[..|ks| - 1], key)
  }

  /** A key is in the collected table exactly when some entry has it as its
      non-empty key, and its record is that of the LAST such entry. */
  lemma {:induction false} CollectLookup(es: seq<Entry>, key: string)
    ensures key in Collect(es) <==> key != "" && key in EntryKeys(es)
    ensures key in Collect(es) ==> Collect(es)[key] == es[LastIndexOf(EntryKeys(es), key)].1
    decreases |es|
  {
    if es != [] {
      var n := |es| - 1;
      var ks := EntryKeys(es);
      var ks' := EntryKeys(es[..n]);
      assert ks' == ks[..n];
      assert ks == ks' + [ks[n]];
      CollectLookup(es[..n], key);
      if ks[n] != key {
        assert LastIndexOf(ks, key) == LastIndexOf(ks', key);
        assert key in ks <==> key in ks';
        if key in Collect(es[..n]) {
          assert es[..n][LastIndexOf(ks', key)] == es[LastIndexOf(ks', key)];
        }
      }
    }
  }

  /** The table after the data rows have been visited in order: a row with
      an empty key is skipped, a row with a key already present replaces the
      earlier record. */
  function BuildTable(headers: seq<string>, body: seq<seq<string>>): (t: Table)
    ensures forall k :: k in t ==> k != ""
    ensures body == [] ==> t == map[]
  {
    Collect(Entries(headers, body))
  }

  /** The key of every data row, in order. */
  function RowKeys(headers: seq<string>, body: seq<seq<string>>): (ks: seq<string>)
    ensures |ks| == |body|
    ensures forall j :: 0 <= j < |body| ==> ks[j] == RowKey(headers, body[j])
  {
    EntryKeys(Entries(headers, body))
  }

  /** A key is in the table exactly when some data row has it as its
      non-empty key, and its record is built from the LAST such row. */
  lemma TableLookup(headers: seq<string>, body: seq<seq<string>>, key: string)
    ensures key in BuildTable(headers, body) <==> key != "" && key in RowKeys(headers, body)
    ensures key in BuildTable(headers, body) ==>
      BuildTable(headers, body)[key] == RecordOf(headers, body[LastIndexOf(RowKeys(headers, body), key)])
  {
    CollectLookup(Entries(headers, body), key);
  }

  /** Of several rows with the same non-empty key, the table holds the
      record of the last one. */
  lemma LaterRowWins(headers: seq<string>, body: seq<seq<string>>, j: nat)
    requires j < |body| && RowKey(headers, body[j]) != ""
    requires forall m :: j < m < |body| ==> RowKey(headers, body[m]) != RowKey(headers, body[j])
    ensures RowKey(headers, body[j]) in BuildTable(headers, body)
    ensures BuildTable(headers, body)[RowKey(headers, body[j])] == RecordOf(headers, body[j])
  {
    var key := RowKey(headers, body[j]);
    var ks := RowKeys(headers, body);
    TableLookup(headers, body, key);
    assert ks[j] == key;
    assert LastIndexOf(ks, key) == j;
  }

  /** Every record has exactly the normalized headers as fields, and no
      table key is empty or has a space at either end. */
  lemma TableShape(headers: seq<string>, body: seq<seq<string>>)
    ensures forall k :: k in BuildTable(headers, body) ==> k != "" && NoEdgeSpace(k)
    ensures forall k, h :: k in BuildTable(headers, body) ==>
      (h in BuildTable(headers, body)[k] <==> h in headers)
  {
    forall k | k in BuildTable(headers, body)
      ensures k != "" && NoEdgeSpace(k)
      ensures forall h :: h in BuildTable(headers, body)[k] <==> h in headers
    {
      TableLookup(headers, body, k);
    }
  }

  /** A row whose key is empty or only spaces adds nothing: no table key is
      blank. */
  lemma BlankKeyDropped(headers: seq<string>, body: seq<seq<string>>, key: string)
    requires AllSpace(key)
    ensures key !in BuildTable(headers, body)
  {
    TableShape(headers, body);
  }

  // ---------------------------------------------------------------------
  // The builder as the source runs it, and the loader around it.

  lemma BuildTableSnoc(headers: seq<string>, body: seq<seq<string>>, n: nat)
    requires n < |body|
    ensures BuildTable(headers, body[..n + 1]) ==
      var t := BuildTable(headers, body[..n]);
      var key := RowKey(headers, body[n]);
      if key != "" then t[key := RecordOf(headers, body[n])] else t
  {
    var es := Entries(headers, body[..n + 1]);
    assert es[..n] == Entries(headers, body[..n]);
  }

  lemma RecordOfSnoc(headers: seq<string>, cells: seq<string>, idx: nat)
    requires idx < |headers|
    ensures RecordOf(headers[..idx + 1], cells) ==
      RecordOf(headers[..idx], cells)[headers[idx] := Trim(CellAt(cells, idx))]
  {
    assert headers[..idx + 1][..idx] == headers[..idx];
  }

  /** The row with empty cells appended until it has `width` cells; a row
      that is already long enough is left as it is. */
  method PadRow(r: seq<string>, width: nat) returns (padded: seq<string>)
    ensures |padded| == if |r| < width then width else |r|
    ensures padded[..|r|] == r
    ensures forall k :: |r| <= k < |padded| ==> padded[k] == ""
  {
    padded := r;
    while |padded| < width
      invariant |r| <= |padded| <= if |r| < width then width else |r|
      invariant padded[..|r|] == r
      invariant forall k :: |r| <= k < |padded| ==> padded[k] == ""
    {
      padded := padded + [""];
    }
  }

  /** The inner loop over the headers: the record of one padded row. */
  method BuildRecord(headers: seq<string>, r: seq<string>) returns (obj: Record)
    ensures obj == RecordOf(headers, r)
  {
    obj := map[];
    var idx := 0;
    while idx < |headers|
      invariant 0 <= idx <= |headers|
      invariant obj == RecordOf(headers[..idx], r)
    {
      RecordOfSnoc(headers, r, idx);
      obj := obj[headers[idx] := if idx < |r| then Trim(r[idx]) else ""];
      idx := idx + 1;
    }
    assert headers[..idx] == headers;
  }

  /** The `rows.forEach` loop of the loader: pad each row, build its record
      and store it under its key unless the key is empty. Also returns
      `Object.keys(data).length`. */
  method FillTable(headers: seq<string>, body: seq<seq<string>>) returns (data: Table, count: nat)
    ensures data == BuildTable(headers, body)
    ensures count == |data|
  {
    var keyColumn := KeyColumn(headers);
    data := map[];
    var n := 0;
    while n < |body|
      invariant 0 <= n <= |body|
      invariant data == BuildTable(headers, body[..n])
    {
      var r := PadRow(body[n], |headers|);
      var obj := BuildRecord(headers, r);
      assert forall idx: nat :: CellAt(r, idx) == CellAt(body[n], idx) by {
        forall idx: nat ensures CellAt(r, idx) == CellAt(body[n], idx) {
          if idx < |body[n]| { assert r[..|body[n]|][idx] == r[idx]; }
        }
      }
      RecordIgnoresExtraCells(headers, r, body[n]);
      var key := if keyColumn.Some? then obj[keyColumn.value] else "";
      BuildTableSnoc(headers, body, n);
      if key != "" {
        data := data[key := obj];
      }
      n := n + 1;
    }
    assert body[..n] == body;
    count := |data|;
  }

  /** Why a load leaves the table as it was: the request failed or the
      response was not ok, the body was blank, or no row was parsed. */
  datatype LoadError = NetworkError | EmptyCsv | NoRows

  /** The table a response yields, or why it yields none. `None` stands for
      a failed `fetch` or a response that is not ok. */
  function Ingest(response: Option<string>): (r: Result<Table, LoadError>)
    ensures response == None ==> r == Failure(NetworkError)
    ensures response.Some? && AllSpace(response.value) ==> r == Failure(EmptyCsv)
    ensures response.Some? && !AllSpace(response.value) && |Csv.Parse(response.value)| == 0 ==>
      r == Failure(NoRows)
    ensures response.Some? && !AllSpace(response.value) && |Csv.Parse(response.value)| > 0 ==>
      r == Success(BuildTable(NormalizeHeaders(Csv.Parse(response.value)[0]), Csv.Parse(response.value)[1..]))
    ensures r.Success? ==> response.Some? && |Csv.Parse(response.value)| > 0
    ensures r.Success? ==> forall k, h :: k in r.value ==>
      k != "" && (h in r.value[k] <==> h in NormalizeHeaders(Csv.Parse(response.value)[0]))
  {
    match response
    case None => Failure(NetworkError)
    case Some(text) =>
      TrimEmptyIffAllSpace(text);
      if Trim(text) == "" then Failure(EmptyCsv)
      else
        var rows := Csv.Parse(text);
        if |rows| == 0 then Failure(NoRows)
        else
          var headers := NormalizeHeaders(rows[0]);
          TableShape(headers, rows[1..]);
          Success(BuildTable(headers, rows[1..]))
  }

  /** A sheet with a header row and no data row loads as an empty table. */
  lemma HeaderOnlySheet(text: string)
    requires !AllSpace(text) && |Csv.Parse(text)| == 1
    ensures Ingest(Some(text)) == Success(map[])
  {
    assert Csv.Parse(text)[1..] == [];
  }

  /** Text that is not blank but parses to no row, such as a lone `""`,
      fails with `No rows parsed`. */
  lemma NoRowsExample()
    ensures Ingest(Some("\"\"")) == Failure(NoRows)
  {
    Csv.QuoteAtEndExamples();
    assert !IsSpace("\"\""[0]);
  }

  /** The page-wide `productsData` and the loader that replaces it. */
  class Store {
    var productsData: Table

    constructor ()
      ensures productsData == map[]
    {
      productsData := map[];
    }

    /** The `.then` continuation of `loadSheets` with the `.catch` that
        swallows its errors: on success the table is replaced as a whole and
        the record count (the `sheets:loaded` payload) is returned; on any
        failure the table is left as it was. */
    method Load(response: Option<string>) returns (outcome: Result<nat, LoadError>)
      modifies this
      ensures Ingest(response).Success? ==>
        productsData == Ingest(response).value && outcome == Success(|productsData|)
      ensures Ingest(response).Failure? ==>
        productsData == old(productsData) && outcome == Failure(Ingest(response).error)
    {
      if response.None? {
        return Failure(NetworkError);
      }
      var csvText := response.value;
      if Trim(csvText) == "" {
        return Failure(EmptyCsv);
      }
      var rows := Csv.ParseCsv(csvText);
      if |rows| == 0 {
        return Failure(NoRows);
      }
      var rawHeaders := rows[0];
      rows := rows[1..];
      var headers := NormalizeHeaders(rawHeaders);
      var data, count := FillTable(headers, rows);
      productsData := data;
      outcome := Success(count);
    }
  }

  predicate LowerWord(h: string) {
    h == [] || ('a' <= h[0] <= 'z' && LowerWord(h[1..]))
  }

  lemma {:induction false} NormalizedStays(h: string)
    requires LowerWord(h)
    ensures NormalizeHeader(h) == h
    decreases |h|
  {
    if h != [] {
      NormalizedStays(h[1..]);
      assert NoUpper(h) by {
        forall k | 0 <= k < |h| ensures !IsUpper(h[k]) {
          if k > 0 { assert h[k] == h[1..][k - 1]; }
        }
      }
      TrimOfTrimmed(h);
      ToLowerOfLower(h);
    }
  }

  lemma JoinThree(a: string, b: string, c: string)
    ensures Csv.Join([a, b, c]) == a + "," + b + "," + c
  {
    assert [a, b, c][..2] == [a, b];
    assert [a, b][..1] == [a];
    assert Csv.Join([a, b]) == a + "," + b;
  }

  lemma SerializeTwo(x: Csv.Row, y: Csv.Row)
    ensures Csv.Serialize([x, y]) == Csv.Join(x) + "\n" + (Csv.Join(y) + "\n")
  {
    assert [x, y][..1] == [x];
    assert [x][..0] == [];
    assert Csv.Serialize([x]) == Csv.Join(x) + "\n";
  }

  /** A sheet with a header line and one product line. */
  const SampleSheet := "name,description,price\n" + "Apple,Fresh fruit,1.50\n"

  lemma ExampleSerialize()
    ensures Csv.Serialize([["name", "description", "price"], ["Apple", "Fresh fruit", "1.50"]]) == SampleSheet
  {
    JoinThree("name", "description", "price");
    JoinThree("Apple", "Fresh fruit", "1.50");
    SerializeTwo(["name", "description", "price"], ["Apple", "Fresh fruit", "1.50"]);
    HeaderLine();
    ProductLine();
  }

  lemma HeaderLine()
    ensures "name" + "," + "description" + "," + "price" + "\n" == "name,description,price\n"
  {
  }

  lemma ProductLine()
    ensures "Apple" + "," + "Fresh fruit" + "," + "1.50" + "\n" == "Apple,Fresh fruit,1.50\n"
  {
  }

  lemma ExampleFieldFree()
    ensures Csv.CellsFieldFree(["name", "description", "price"])
    ensures Csv.CellsFieldFree(["Apple", "Fresh fruit", "1.50"])
  {
    assert Csv.FieldFree("name") && Csv.FieldFree("description") && Csv.FieldFree("price") by {
      assert Csv.FieldFree("name");
      assert Csv.FieldFree("description");
      assert Csv.FieldFree("price");
    }
    assert Csv.FieldFree("Apple") && Csv.FieldFree("Fresh fruit") && Csv.FieldFree("1.50") by {
      assert Csv.FieldFree("Apple");
      assert Csv.FieldFree("Fresh fruit");
      assert Csv.FieldFree("1.50");
    }
  }

  lemma ExampleParse()
    ensures Csv.Parse(SampleSheet) ==
      [["name", "description", "price"], ["Apple", "Fresh fruit", "1.50"]]
  {
    ExampleSerialize();
    ExampleFieldFree();
    Csv.PlainTableRoundTrip([["name", "description", "price"], ["Apple", "Fresh fruit", "1.50"]]);
  }

  lemma ExampleHeaderName()
    ensures NormalizeHeader("name") == "name"
  {
    NormalizedStays("name");
  }

  lemma ExampleHeaderDescription()
    ensures NormalizeHeader("description") == "description"
  {
    NormalizedStays("description");
  }

  lemma ExampleHeaderPrice()
    ensures NormalizeHeader("price") == "price"
  {
    NormalizedStays("price");
  }

  lemma ExampleHeaders()
    ensures NormalizeHeaders(["name", "description", "price"]) == ["name", "description", "price"]
  {
    ExampleHeaderName();
    ExampleHeaderDescription();
    ExampleHeaderPrice();
  }

  /** A three-column row whose cells need no trimming. */
  lemma RecordThree(a: string, b: string, c: string, x: string, y: string, z: string)
    requires NoEdgeSpace(x) && NoEdgeSpace(y) && NoEdgeSpace(z)
    ensures RecordOf([a, b, c], [x, y, z]) == map[a := x, b := y, c := z]
  {
    var cells := [x, y, z];
    TrimOfTrimmed(x);
    TrimOfTrimmed(y);
    TrimOfTrimmed(z);
    assert RecordOf([a], cells) == map[a := x] by {
      assert [a][..0] == [];
    }
    assert RecordOf([a, b], cells) == map[a := x][b := y] by {
      assert [a, b][..1] == [a];
    }
    assert [a, b, c][..2] == [a, b];
  }

  /** A single data row with a non-empty key gives a one-entry table. */
  lemma TableOfOneRow(headers: seq<string>, row: seq<string>)
    requires RowKey(headers, row) != ""
    ensures BuildTable(headers, [row]) == map[RowKey(headers, row) := RecordOf(headers, row)]
  {
    var es := Entries(headers, [row]);
    assert es == [(RowKey(headers, row), RecordOf(headers, row))];
    assert es[..0] == [];
    assert Collect(es) == Collect(es[..0])[es[0].0 := es[0].1];
  }

  lemma ExampleRecord()
    ensures RecordOf(["name", "description", "price"], ["Apple", "Fresh fruit", "1.50"]) ==
      map["name" := "Apple", "description" := "Fresh fruit", "price" := "1.50"]
  {
    assert NoEdgeSpace("Apple") && NoEdgeSpace("Fresh fruit") && NoEdgeSpace("1.50");
    RecordThree("name", "description", "price", "Apple", "Fresh fruit", "1.50");
  }

  lemma ExampleTable()
    ensures BuildTable(["name", "description", "price"], [["Apple", "Fresh fruit", "1.50"]]) ==
      map["Apple" := map["name" := "Apple", "description" := "Fresh fruit", "price" := "1.50"]]
  {
    var header: seq<string> := ["name", "description", "price"];
    var row := ["Apple", "Fresh fruit", "1.50"];
    ExampleRecord();
    assert KeyColumn(header) == Some("name");
    assert RowKey(header, row) == "Apple";
    TableOfOneRow(header, row);
  }

  /** A two-line sheet with a `name` column yields one product keyed by its
      name, with every column as a field. */
  lemma OneProductExample()
    ensures Ingest(Some(SampleSheet)) ==
      Success(map["Apple" := map["name" := "Apple", "description" := "Fresh fruit", "price" := "1.50"]])
  {
    var text := SampleSheet;
    ExampleParse();
    ExampleHeaders();
    ExampleTable();
    TrimEmptyIffAllSpace(text);
    assert !IsSpace(text[0]);
    var rows := Csv.Parse(text);
    assert rows[1..] == [["Apple", "Fresh fruit", "1.50"]];
  }
}
