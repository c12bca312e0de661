/** `convert_json_to_csv` without its file handling: the header comes from the first
    object, and `csv.DictWriter` lays out every object as one row in header order. */
module JsonToCsv {
  import opened Wrappers
  import opened Decimal
  import opened Values
  import opened Dicts
  import opened Formats

  /** `list(data[0].keys()) if data else []`; an element that is not an object raises here,
      before the output file is opened. */
  function FieldNames(items: seq<Json>): (r: Result<seq<string>, Failure>)
    ensures r.Success? <==> |items| == 0 || items[0].JObject?
    ensures r.Success? && |items| == 0 ==> r.value == []
    ensures r.Success? && |items| > 0 ==> r.value == Keys(items[0].fields)
    ensures r.Failure? ==> r.error == NotAnObject(0)
  {
    if |items| == 0 then Success([])
    else if items[0].JObject? then Success(Keys(items[0].fields))
    else Failure(NotAnObject(0))
  }

  /** The cell written for a header key: the value's text, or the writer's default
      `restval` (the empty string) when the object lacks the key. */
  function CellText(v: Option<Value>, ff: FloatFormat): (r: string)
    ensures v.None? ==> r == ""
    ensures v.Some? && v.value.Str? ==> r == v.value.s
    ensures v.Some? && v.value.Int? && v.value.i >= 0 ==> Canonical(r) && DigitsValue(r) == v.value.i
    ensures v.Some? && v.value.Int? && v.value.i < 0 ==>
              |r| > 1 && r[0] == '-' && Canonical(r[1..]) && DigitsValue(r[1..]) == -v.value.i
    ensures v.Some? && v.value.Float? ==> r == ff.show(v.value.text)
  {
    match v
    case None => ""
    case Some(x) => Render(x, ff)
  }

  /** How `DictWriter` (default `extrasaction='raise'`, `restval=''`) turns array element
      `index` into a row: it must be an object whose keys all lie in the header, and the
      cells follow the header order. */
  function LayoutRow(names: seq<string>, item: Json, ff: FloatFormat, index: nat): (r: Result<seq<string>, Failure>)
    ensures r.Success? <==> item.JObject? && forall k :: k in Keys(item.fields) ==> k in names
    ensures r.Success? ==> |r.value| == |names|
    ensures r.Success? ==> forall c :: 0 <= c < |names| ==>
              r.value[c] == CellText(Lookup(item.fields, names[c]), ff)
    ensures r.Failure? && !item.JObject? ==> r.error == NotAnObject(index)
    ensures r.Failure? && item.JObject? ==> r.error.ExtraKeys? && r.error.index == index
    ensures r.Failure? && item.JObject? ==>
              r.error.keys != {} && forall k :: k in r.error.keys <==> k in Keys(item.fields) && k !in names
  {
    if !item.JObject? then Failure(NotAnObject(index))
    else
      var extra := set k | k in Keys(item.fields) && k !in names;
      if extra != {} then Failure(ExtraKeys(index, extra))
      else
        assert forall k :: k in Keys(item.fields) ==> k in names by {
          forall k | k in Keys(item.fields) ensures k in names {
            assert k !in extra;
          }
        }
        Success(seq(|names|, c requires 0 <= c < |names| => CellText(Lookup(item.fields, names[c]), ff)))
  }

  /** The rows `writerows` has written and the failure it stopped with, if any. */
  datatype Written = Written(rows: seq<seq<string>>, stop: Option<Failure>)

  /** `writer.writerows(data)`: elements are laid out and written one at a time, so the
      rows before the first failing element reach the file and nothing after it does. */
  function WriteRows(names: seq<string>, items: seq<Json>, ff: FloatFormat, base: nat): (w: Written)
    ensures |w.rows| <= |items|
    ensures w.stop.None? <==> |w.rows| == |items|
    ensures forall i :: 0 <= i < |w.rows| ==> LayoutRow(names, items[i], ff, base + i) == Success(w.rows[i])
    ensures w.stop.Some? ==> LayoutRow(names, items[|w.rows|], ff, base + |w.rows|) == Failure(w.stop.value)
    decreases |items|
  {
    if |items| == 0 then Written([], None)
    else
      match LayoutRow(names, items[0], ff, base)
      case Failure(e) => Written([], Some(e))
      case Success(row) =>
        var rest := WriteRows(names, items[1..], ff, base + 1);
        Written([row] + rest.rows, rest.stop)
  }

  /** The table written for a loaded JSON value, or the failure that ends the run. */
  function Convert(j: Json, ff: FloatFormat): (r: Result<Table, Failure>)
    ensures !j.JArray? ==> r == Failure(NotAnArray)
    ensures j.JArray? && |j.items| == 0 ==> r == Success(Table([], []))
    ensures r.Success? <==>
              && j.JArray?
              && FieldNames(j.items).Success?
              && forall i :: 0 <= i < |j.items| ==> LayoutRow(FieldNames(j.items).value, j.items[i], ff, i).Success?
    ensures r.Success? ==> r.value.header == FieldNames(j.items).value && |r.value.rows| == |j.items|
    ensures r.Success? ==> forall i :: 0 <= i < |j.items| ==>
              LayoutRow(r.value.header, j.items[i], ff, i) == Success(r.value.rows[i])
    ensures j.JArray? && |j.items| > 0 && !j.items[0].JObject? ==> r == Failure(NotAnObject(0))
    ensures j.JArray? && FieldNames(j.items).Success? && r.Failure? ==>
              && !r.error.NotAnArray?
              && !r.error.RaggedRow?
              && r.error.index < |j.items|
              && LayoutRow(FieldNames(j.items).value, j.items[r.error.index], ff, r.error.index) == Failure(r.error)
              && forall i :: 0 <= i < r.error.index ==> LayoutRow(FieldNames(j.items).value, j.items[i], ff, i).Success?
  {
    if !j.JArray? then Failure(NotAnArray)
    else
      match FieldNames(j.items)
      case Failure(e) => Failure(e)
      case Success(names) =>
        var w := WriteRows(names, j.items, ff, 0);
        if w.stop.Some? then Failure(w.stop.value) else Success(Table(names, w.rows))
  }

  /** The CSV lines that reach the output file, header first; `None` when the file is never
      opened. The shape checks come first: a non-array top level or a first element that is not
      an object writes nothing, while a later bad element leaves the header and the rows before it. */
  function Output(j: Json, ff: FloatFormat): (out: Option<seq<seq<string>>>)
    ensures out.None? <==> !j.JArray? || (|j.items| > 0 && !j.items[0].JObject?)
    ensures out.None? ==> Convert(j, ff).Failure?
    ensures Convert(j, ff).Success? ==>
              out == Some([Convert(j, ff).value.header] + Convert(j, ff).value.rows)
    ensures out.Some? ==> |out.value| >= 1 && out.value[0] == FieldNames(j.items).value
    ensures out.Some? ==> |out.value| <= |j.items| + 1 && forall i :: 1 <= i < |out.value| ==>
              LayoutRow(out.value[0], j.items[i - 1], ff, i - 1) == Success(out.value[i])
    ensures out.Some? && Convert(j, ff).Failure? ==>
              !Convert(j, ff).error.NotAnArray? && Convert(j, ff).error.index == |out.value| - 1
  {
    if !j.JArray? then None
    else
      match FieldNames(j.items)
      case Failure(_) => None
      case Success(names) => Some([names] + WriteRows(names, j.items, ff, 0).rows)
  }
}
