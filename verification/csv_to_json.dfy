/** `convert_csv_to_json` without its file handling: every CSV record becomes one JSON
    object whose values have been typed by `convert_value`. */
module CsvToJson {
  import opened Wrappers
  import opened Values
  import opened Dicts
  import opened Coercion
  import opened Formats

  /** Every record has exactly one cell per header column. */
  predicate Rectangular(t: Table) {
    forall i :: 0 <= i < |t.rows| ==> |t.rows[i]| == |t.header|
  }

  /** The record `DictReader` yields for a row: `dict(zip(header, cells))`. */
  function ReadRecord(header: seq<string>, cells: seq<string>): (r: Dict<string>)
    requires |cells| == |header|
    ensures DistinctKeys(r)
    ensures forall k :: k in Keys(r) <==> k in header
    ensures Distinct(header) ==> r == Zip(header, cells)
  {
    assert Distinct(header) ==> ZipDict(header, cells) == Zip(header, cells) by {
      if Distinct(header) { ZipDictDistinct(header, cells); }
    }
    ZipDict(header, cells)
  }

  /** The loop over `row.items()`: each value replaced in place by its coercion. */
  function CoerceRecord(record: Dict<string>, ff: FloatFormat): (r: Document)
    ensures Keys(r) == Keys(record)
    ensures forall k :: Lookup(r, k).Some? <==> Lookup(record, k).Some?
    ensures forall k :: Lookup(record, k).Some? ==> Lookup(r, k) == Some(Coerce(Lookup(record, k).value, ff))
  {
    forall k ensures Lookup(MapValues(record, s => Coerce(s, ff)), k).Some? <==> Lookup(record, k).Some?
      ensures Lookup(record, k).Some? ==>
                Lookup(MapValues(record, s => Coerce(s, ff)), k) == Some(Coerce(Lookup(record, k).value, ff))
    {
      LookupMapValues(record, s => Coerce(s, ff), k);
    }
    MapValues(record, s => Coerce(s, ff))
  }

  /** Reads every record and coerces its values. A record shorter or longer than the header
      leaves `None` or a list among its values, on which `convert_value` raises, so the
      first such record ends the run before anything is written. */
  function Convert(t: Table, ff: FloatFormat): (r: Result<seq<Document>, Failure>)
    ensures r.Success? <==> Rectangular(t)
    ensures r.Success? ==> |r.value| == |t.rows|
    ensures r.Success? ==> forall i :: 0 <= i < |t.rows| ==>
              |t.rows[i]| == |t.header| && r.value[i] == CoerceRecord(ReadRecord(t.header, t.rows[i]), ff)
    ensures r.Failure? ==> r.error.RaggedRow? && r.error.index < |t.rows|
    ensures r.Failure? ==> |t.rows[r.error.index]| != |t.header|
    ensures r.Failure? ==> forall i :: 0 <= i < r.error.index ==> |t.rows[i]| == |t.header|
    decreases |t.rows|
  {
    if |t.rows| == 0 then Success([])
    else if |t.rows[0]| != |t.header| then Failure(RaggedRow(0))
    else
      var rest := Table(t.header, t.rows[1..]);
      match Convert(rest, ff)
      case Success(docs) => Success([CoerceRecord(ReadRecord(t.header, t.rows[0]), ff)] + docs)
      case Failure(e) => Failure(RaggedRow(e.index + 1))
  }

  /** Each document holds exactly the record's keys, and under each key the coercion of the
      cell of the last column with that name. */
  lemma DocumentContents(t: Table, ff: FloatFormat, i: nat, c: nat)
    requires Convert(t, ff).Success? && i < |t.rows| && c < |t.header|
    requires forall c' :: c < c' < |t.header| ==> t.header[c'] != t.header[c]
    ensures DistinctKeys(Convert(t, ff).value[i])
    ensures forall k :: k in Keys(Convert(t, ff).value[i]) <==> k in t.header
    ensures Lookup(Convert(t, ff).value[i], t.header[c]) == Some(Coerce(t.rows[i][c], ff))
  {
    var record := ReadRecord(t.header, t.rows[i]);
    ZipDictLookup(t.header, t.rows[i], c);
    LookupMapValues(record, s => Coerce(s, ff), t.header[c]);
  }

  /** A header zipped positionally with the coercions of a record's cells. */
  function TypedRecord(header: seq<string>, cells: seq<string>, ff: FloatFormat): Document
    requires |cells| == |header|
  {
    seq(|header|, c requires 0 <= c < |header| => (header[c], Coerce(cells[c], ff)))
  }

  /** With a header of distinct names, document `i` is the header zipped with the
      coerced cells of record `i`, in column order. */
  lemma DocumentOfDistinctHeader(t: Table, ff: FloatFormat, i: nat)
    requires Convert(t, ff).Success? && i < |t.rows| && Distinct(t.header)
    ensures Keys(Convert(t, ff).value[i]) == t.header
    ensures Convert(t, ff).value[i] == TypedRecord(t.header, t.rows[i], ff)
  {
  }

  /** One positional document per record, in record order. */
  function TypedRecords(t: Table, ff: FloatFormat): seq<Document>
    requires Rectangular(t)
  {
    seq(|t.rows|, i requires 0 <= i < |t.rows| => TypedRecord(t.header, t.rows[i], ff))
  }

  /** With a header of distinct names, converting a rectangular table gives exactly the
      header zipped with each record's coerced cells, one document per record in order. */
  lemma ConvertOfDistinctHeader(t: Table, ff: FloatFormat)
    requires Rectangular(t) && Distinct(t.header)
    ensures Convert(t, ff) == Success(TypedRecords(t, ff))
  {
    forall i | 0 <= i < |t.rows|
      ensures Convert(t, ff).value[i] == TypedRecords(t, ff)[i]
    {
      DocumentOfDistinctHeader(t, ff, i);
    }
    assert Convert(t, ff).value == TypedRecords(t, ff);
  }
}
