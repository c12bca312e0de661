/** Concrete conversions: the coercion examples, a missing key, and a small table taken
    through both directions. */
module Examples {
  import opened Wrappers
  import opened Decimal
  import opened Values
  import opened Dicts
  import opened Coercion
  import opened Formats
  import CsvToJson
  import JsonToCsv
  import RoundTrip

  /** "42" is an integer, "-42" a float, "3.14" a float, "abc" and "" stay text. */
  lemma CoercionExamples(ff: FloatFormat)
    requires FloatSyntaxFacts(ff) && ff.accepts("3.14") && !ff.accepts("abc")
    ensures Coerce("42", ff) == Int(42)
    ensures Coerce("-42", ff) == Float("-42")
    ensures Coerce("3.14", ff) == Float("3.14")
    ensures Coerce("abc", ff) == Str("abc")
    ensures Coerce("", ff) == Str("")
  {
    assert IsDigitString("42") && "42"[..1] == "4" && "4"[..0] == "";
    assert DigitsValue("4") == 4;
    assert "-42" == ['-'] + "42";
    SignedNeverInt('-', "42", ff);
    assert !IsDigit("3.14"[1]) && !IsDigit("abc"[0]);
  }

  /** An object lacking a header key is padded with an empty cell rather than rejected. */
  lemma MissingKeyPadded(ff: FloatFormat)
    ensures JsonToCsv.Convert(JArray([JObject([("a", Int(1)), ("b", Int(2))]), JObject([("a", Int(3))])]), ff)
              == Success(Table(["a", "b"], [["1", "2"], ["3", ""]]))
  {
    var j := JArray([JObject([("a", Int(1)), ("b", Int(2))]), JObject([("a", Int(3))])]);
    var r := JsonToCsv.Convert(j, ff);
    assert Keys(j.items[0].fields) == ["a", "b"];
    assert Keys(j.items[1].fields) == ["a"];
    assert ShowInt(1) == "1" && ShowInt(2) == "2" && ShowInt(3) == "3";
    assert Lookup(j.items[1].fields, "b") == None;
    assert Lookup(j.items[0].fields, "a") == Some(Int(1));
    assert Lookup(j.items[0].fields, "b") == Some(Int(2));
    assert Lookup(j.items[1].fields, "a") == Some(Int(3));
    var row0 := JsonToCsv.LayoutRow(["a", "b"], j.items[0], ff, 0);
    var row1 := JsonToCsv.LayoutRow(["a", "b"], j.items[1], ff, 1);
    assert row0.Success? && row0.value[0] == "1" && row0.value[1] == "2";
    assert row0.value == ["1", "2"];
    assert row1.Success? && row1.value[0] == "3" && row1.value[1] == "";
    assert row1.value == ["3", ""];
    assert r.Success? && r.value.header == ["a", "b"];
    assert r.value.rows[0] == ["1", "2"] && r.value.rows[1] == ["3", ""];
    assert r.value.rows == [["1", "2"], ["3", ""]];
  }

  /** A repeated header name keeps only its last column: the record for `a,a` over `1,x`
      holds `a` once, with the text "x", and the "1" is never written back. */
  lemma DuplicateHeaderKeepsLastCell(ff: FloatFormat)
    requires !ff.accepts("x")
    ensures CsvToJson.Convert(Table(["a", "a"], [["1", "x"]]), ff) == Success([[("a", Str("x"))]])
  {
    var t := Table(["a", "a"], [["1", "x"]]);
    assert CsvToJson.Rectangular(t);
    assert !IsDigit("x"[0]);
    assert Coerce("x", ff) == Str("x");
    var record := CsvToJson.ReadRecord(t.header, t.rows[0]);
    assert record == [("a", "x")] by {
      assert ["a", "a"][..1] == ["a"] && ["1", "x"][..1] == ["1"];
      assert ZipDict(["a"], ["1"]) == [("a", "1")] by {
        assert ["a"][..0] == [] && ["1"][..0] == [];
      }
    }
    var doc := CsvToJson.CoerceRecord(record, ff);
    assert Keys(record) == ["a"] && Lookup(record, "a") == Some("x");
    assert |doc| == 1 && doc[0].0 == "a" by { assert Keys(doc) == ["a"]; }
    assert Lookup(doc, "a") == Some(doc[0].1);
    assert doc == [("a", Str("x"))];
    var r := CsvToJson.Convert(t, ff);
    assert r.Success? && |r.value| == 1 && r.value[0] == doc;
    assert r.value == [doc];
  }

  /** Writing the document for `a,a` over `1,x` back gives one column `a` holding "x". */
  lemma DuplicateHeaderWrittenBack(ff: FloatFormat)
    ensures JsonToCsv.Convert(ToJson([[("a", Str("x"))]]), ff) == Success(Table(["a"], [["x"]]))
  {
    var j := ToJson([[("a", Str("x"))]]);
    assert Keys(j.items[0].fields) == ["a"];
    assert JsonToCsv.FieldNames(j.items) == Success(["a"]);
    assert Lookup(j.items[0].fields, "a") == Some(Str("x"));
    var row := JsonToCsv.LayoutRow(["a"], j.items[0], ff, 0);
    assert row.Success? && row.value[0] == "x";
    assert row.value == ["x"];
    var r := JsonToCsv.Convert(j, ff);
    assert r.Success? && r.value.rows[0] == ["x"];
    assert r.value.rows == [["x"]];
  }

  /** An object with a key outside the header stops the run at that element, after the
      header and the earlier rows have been written. */
  lemma ExtraKeyRejected(ff: FloatFormat)
    ensures JsonToCsv.Convert(JArray([JObject([("a", Int(1))]), JObject([("a", Int(3)), ("c", Str("x"))])]), ff)
              == Failure(ExtraKeys(1, {"c"}))
    ensures JsonToCsv.Output(JArray([JObject([("a", Int(1))]), JObject([("a", Int(3)), ("c", Str("x"))])]), ff)
              == Some([["a"], ["1"]])
  {
    var j := JArray([JObject([("a", Int(1))]), JObject([("a", Int(3)), ("c", Str("x"))])]);
    assert Keys(j.items[0].fields) == ["a"];
    assert Keys(j.items[1].fields) == ["a", "c"];
    assert ShowInt(1) == "1";
    assert Lookup(j.items[0].fields, "a") == Some(Int(1));
    var row0 := JsonToCsv.LayoutRow(["a"], j.items[0], ff, 0);
    assert row0.Success? && row0.value[0] == "1";
    assert row0.value == ["1"];
    var r := JsonToCsv.LayoutRow(["a"], j.items[1], ff, 1);
    assert "c" in Keys(j.items[1].fields) && "c" !in ["a"];
    assert r.Failure?;
    assert r.error.keys == {"c"};
    var out := JsonToCsv.Output(j, ff);
    assert JsonToCsv.Convert(j, ff) == Failure(ExtraKeys(1, {"c"}));
    assert out.Some? && |out.value| == 2 && out.value[0] == ["a"] && out.value[1] == ["1"];
    assert out.value == [["a"], ["1"]];
  }

  /** The name/age/score table. */
  const Scores := Table(["name", "age", "score"], [["Alice", "30", "9.5"], ["Bob", "25", "8"]])

  /** How each cell of the first record is typed. */
  lemma ScoresCellsFirst(ff: FloatFormat)
    requires !ff.accepts("Alice") && ff.accepts("9.5")
    ensures Coerce("Alice", ff) == Str("Alice") && Coerce("30", ff) == Int(30)
    ensures Coerce("9.5", ff) == Float("9.5")
  {
    assert !IsDigit("Alice"[0]) && !IsDigit("9.5"[1]);
    assert ShowNat(30) == "30";
    CoerceNumeral(30, ff);
  }

  /** How each cell of the second record is typed. */
  lemma ScoresCellsSecond(ff: FloatFormat)
    requires !ff.accepts("Bob")
    ensures Coerce("Bob", ff) == Str("Bob") && Coerce("25", ff) == Int(25) && Coerce("8", ff) == Int(8)
  {
    assert !IsDigit("Bob"[0]);
    assert ShowNat(25) == "25";
    CoerceNumeral(25, ff);
    assert ShowNat(8) == "8";
    CoerceNumeral(8, ff);
  }

  lemma ScoresFirstDocument(ff: FloatFormat)
    requires !ff.accepts("Alice") && ff.accepts("9.5")
    ensures CsvToJson.TypedRecord(Scores.header, Scores.rows[0], ff)
              == [("name", Str("Alice")), ("age", Int(30)), ("score", Float("9.5"))]
  {
    ScoresCellsFirst(ff);
  }

  lemma ScoresSecondDocument(ff: FloatFormat)
    requires !ff.accepts("Bob")
    ensures CsvToJson.TypedRecord(Scores.header, Scores.rows[1], ff)
              == [("name", Str("Bob")), ("age", Int(25)), ("score", Int(8))]
  {
    ScoresCellsSecond(ff);
  }

  /** The two documents of the table, record by record. */
  lemma ScoresDocuments(ff: FloatFormat)
    requires !ff.accepts("Alice") && !ff.accepts("Bob") && ff.accepts("9.5")
    ensures CsvToJson.TypedRecords(Scores, ff)
              == [[("name", Str("Alice")), ("age", Int(30)), ("score", Float("9.5"))],
                  [("name", Str("Bob")), ("age", Int(25)), ("score", Int(8))]]
  {
    assert CsvToJson.Rectangular(Scores);
    var docs := CsvToJson.TypedRecords(Scores, ff);
    ScoresFirstDocument(ff);
    ScoresSecondDocument(ff);
    assert docs == [docs[0], docs[1]];
  }

  /** Ages and the whole score become integers, the fractional score a float, names stay text. */
  lemma ScoresToJson(ff: FloatFormat)
    requires !ff.accepts("Alice") && !ff.accepts("Bob") && ff.accepts("9.5")
    ensures CsvToJson.Convert(Scores, ff)
              == Success([[("name", Str("Alice")), ("age", Int(30)), ("score", Float("9.5"))],
                          [("name", Str("Bob")), ("age", Int(25)), ("score", Int(8))]])
  {
    assert CsvToJson.Rectangular(Scores) && Distinct(Scores.header);
    CsvToJson.ConvertOfDistinctHeader(Scores, ff);
    ScoresDocuments(ff);
  }

  /** Each cell of the table is written back as it was read. */
  lemma ScoresCellsWrittenBack(ff: FloatFormat)
    requires !ff.accepts("Alice") && !ff.accepts("Bob") && ff.show("9.5") == "9.5"
    ensures Render(Coerce("Alice", ff), ff) == "Alice" && Render(Coerce("Bob", ff), ff) == "Bob"
    ensures Render(Coerce("9.5", ff), ff) == "9.5"
    ensures Render(Coerce("30", ff), ff) == "30" && Render(Coerce("25", ff), ff) == "25"
    ensures Render(Coerce("8", ff), ff) == "8"
  {
    assert !IsDigit("Alice"[0]) && !IsDigit("Bob"[0]) && !IsDigit("9.5"[1]);
    RenderCoerce("9.5", ff);
    assert Canonical("30") && Canonical("25") && Canonical("8");
    RenderCoerce("30", ff);
    RenderCoerce("25", ff);
    RenderCoerce("8", ff);
  }

  /** Every record is written back as it was read, provided `str()` writes the float read
      from "9.5" as "9.5". */
  lemma ScoresRendered(ff: FloatFormat)
    requires !ff.accepts("Alice") && !ff.accepts("Bob") && ff.show("9.5") == "9.5"
    ensures RoundTrip.RenderedRows(Scores, ff) == Scores.rows
  {
    ScoresCellsWrittenBack(ff);
    var rendered := RoundTrip.RenderedRows(Scores, ff);
    assert rendered[0] == Scores.rows[0];
    assert rendered[1] == Scores.rows[1];
  }

  /** Converting the documents back gives the same table. */
  lemma ScoresRoundTrip(ff: FloatFormat)
    requires !ff.accepts("Alice") && !ff.accepts("Bob") && ff.show("9.5") == "9.5"
    ensures JsonToCsv.Convert(ToJson(CsvToJson.Convert(Scores, ff).value), ff) == Success(Scores)
  {
    assert Distinct(Scores.header);
    RoundTrip.CsvJsonCsv(Scores, ff);
    ScoresRendered(ff);
  }
}
