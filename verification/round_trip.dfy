/** Converting CSV to JSON and back: what survives and what does not. The JSON text in
    between is not modelled; `json.dump` followed by `json.load` is taken to give back the
    same documents. */
module RoundTrip {
  import opened Wrappers
  import opened Decimal
  import opened Values
  import opened Dicts
  import opened Coercion
  import opened Formats
  import CsvToJson
  import JsonToCsv

  /** Each cell of the table as it is written back: the text of its coerced value. */
  function RenderedRows(t: Table, ff: FloatFormat): seq<seq<string>>
    requires CsvToJson.Rectangular(t)
  {
    seq(|t.rows|, i requires 0 <= i < |t.rows| =>
      seq(|t.header|, c requires 0 <= c < |t.header| => Render(Coerce(t.rows[i][c], ff), ff)))
  }

  /** One converted record lays out as its own cells, each rendered from its coerced value. */
  lemma {:induction false} RowRoundTrip(t: Table, ff: FloatFormat, i: nat)
    requires CsvToJson.Rectangular(t) && Distinct(t.header) && i < |t.rows|
    ensures CsvToJson.Convert(t, ff).Success?
    ensures JsonToCsv.LayoutRow(t.header, JObject(CsvToJson.Convert(t, ff).value[i]), ff, i)
              == Success(RenderedRows(t, ff)[i])
  {
    var doc := CsvToJson.Convert(t, ff).value[i];
    CsvToJson.DocumentOfDistinctHeader(t, ff, i);
    var r := JsonToCsv.LayoutRow(t.header, JObject(doc), ff, i);
    assert r.Success?;
    forall c | 0 <= c < |t.header|
      ensures r.value[c] == RenderedRows(t, ff)[i][c]
    {
      LookupEntry(doc, c);
    }
    assert r.value == RenderedRows(t, ff)[i];
  }

  /** A rectangular table with at least one record and distinct column names comes back
      with the same header, the same number of records in the same order, and every cell
      replaced by the text of its coerced value. */
  lemma {:induction false} CsvJsonCsv(t: Table, ff: FloatFormat)
    requires CsvToJson.Rectangular(t) && Distinct(t.header) && |t.rows| > 0
    ensures CsvToJson.Convert(t, ff).Success?
    ensures JsonToCsv.Convert(ToJson(CsvToJson.Convert(t, ff).value), ff)
              == Success(Table(t.header, RenderedRows(t, ff)))
  {
    var docs := CsvToJson.Convert(t, ff).value;
    var j := ToJson(docs);
    CsvToJson.DocumentOfDistinctHeader(t, ff, 0);
    assert JsonToCsv.FieldNames(j.items) == Success(t.header);
    forall i | 0 <= i < |j.items|
      ensures JsonToCsv.LayoutRow(t.header, j.items[i], ff, i) == Success(RenderedRows(t, ff)[i])
    {
      RowRoundTrip(t, ff, i);
    }
    var r := JsonToCsv.Convert(j, ff);
    assert r.Success?;
    assert r.value.rows == RenderedRows(t, ff);
  }

  /** When every cell is a canonical numeral or text that `float()` rejects, the round
      trip reproduces the table exactly. */
  lemma {:induction false} CsvJsonCsvExact(t: Table, ff: FloatFormat)
    requires CsvToJson.Rectangular(t) && Distinct(t.header) && |t.rows| > 0
    requires forall i, c :: 0 <= i < |t.rows| && 0 <= c < |t.header| ==>
               Canonical(t.rows[i][c]) || (!IsDigitString(t.rows[i][c]) && !ff.accepts(t.rows[i][c]))
    ensures JsonToCsv.Convert(ToJson(CsvToJson.Convert(t, ff).value), ff) == Success(t)
  {
    CsvJsonCsv(t, ff);
    RenderedRowsExact(t, ff);
  }

  /** Cells that are canonical numerals or text `float()` rejects are written back as read. */
  lemma RenderedRowsExact(t: Table, ff: FloatFormat)
    requires CsvToJson.Rectangular(t)
    requires forall i, c :: 0 <= i < |t.rows| && 0 <= c < |t.header| ==>
               Canonical(t.rows[i][c]) || (!IsDigitString(t.rows[i][c]) && !ff.accepts(t.rows[i][c]))
    ensures RenderedRows(t, ff) == t.rows
  {
    forall i | 0 <= i < |t.rows| ensures RenderedRows(t, ff)[i] == t.rows[i] {
      forall c | 0 <= c < |t.header| ensures RenderedRows(t, ff)[i][c] == t.rows[i][c] {
        RenderCoerce(t.rows[i][c], ff);
      }
    }
  }

  /** A header-only table converts to an empty array, and an empty array converts back to
      a table with no header at all: the column names do not survive. */
  lemma HeaderOnlyLosesHeader(header: seq<string>, ff: FloatFormat)
    ensures CsvToJson.Convert(Table(header, []), ff) == Success([])
    ensures JsonToCsv.Convert(ToJson([]), ff) == Success(Table([], []))
  {
  }
}
