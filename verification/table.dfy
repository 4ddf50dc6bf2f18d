/** The worksheet a parsed JSON payload becomes (jsontoexcel.py:79-107).

    A top-level object is one record, a top-level array is a list of
    records, anything else is rejected. Every record is flattened with an
    empty prefix and the default separator; the header line is the key list
    of the FIRST flattened record, and every record becomes one row holding
    its value under each header, or an empty string where it has none. Keys
    that only later records carry never reach the sheet. */
module Table {
  import opened Wrappers
  import opened JsonValue
  import opened OrderedDict
  import opened FlattenJson

  /** The value written for a header the record does not have. */
  const Missing: Json := JStr("")

  datatype Table = Table(headers: seq<string>, rows: seq<seq<Json>>)

  /** What a parsed payload turns into: rejected for its shape, rejected for
      holding no record, or a table. */
  datatype Tabulated = BadShape | NoRecords | Tabled(table: Table)

  /** The records of a payload: an object is a single record, an array
      lists them, a scalar has none to offer. */
  function ExtractRecords(data: Json): (r: Option<seq<Json>>)
    ensures r.None? <==> data.IsScalar()
    ensures r.Some? && data.JObj? ==> r.value == [data]
    ensures r.Some? && data.JArr? ==> r.value == data.elems
  {
    match data
    case JObj(_) => Some([data])
    case JArr(elems) => Some(elems)
    case _ => None
  }

  /** Each record flattened as the conversion does it: no prefix, `_`. */
  function FlattenAll(records: seq<Json>): seq<Record>
  {
    seq(|records|, j requires 0 <= j < |records| => Flatten(records[j], "", DefaultSep))
  }

  /** The cell a record contributes under one header. */
  function Cell(rec: Record, header: string): Json
  {
    Lookup(rec, header).GetOr(Missing)
  }

  /** One row: the record's entry for each header, `Missing` where the
      record lacks the header. */
  function Row(rec: Record, headers: seq<string>): (r: seq<Json>)
    ensures |r| == |headers|
    ensures forall i :: 0 <= i < |headers| ==>
      if headers[i] in Keys(rec) then (headers[i], r[i]) in rec else r[i] == Missing
  {
    if |headers| == 0 then []
    else [Cell(rec, headers[0])] + Row(rec, headers[1..])
  }

  /** Header line from the first record, one row per record. */
  function Project(flat: seq<Record>): Table
    requires |flat| > 0
  {
    var headers := Keys(flat[0]);
    Table(headers, seq(|flat|, j requires 0 <= j < |flat| => Row(flat[j], headers)))
  }

  /** The whole path from a parsed payload to a table or a rejection. */
  function Tabulate(data: Json): Tabulated
  {
    match ExtractRecords(data)
    case None => BadShape
    case Some(records) =>
      if |records| == 0 then NoRecords else Tabled(Project(FlattenAll(records)))
  }

  /** The lines appended to the worksheet: the headers, then the rows. */
  function Worksheet(t: Table): seq<seq<Json>>
  {
    [seq(|t.headers|, i requires 0 <= i < |t.headers| => JStr(t.headers[i]))] + t.rows
  }

  /** Which payloads are rejected and how many rows the rest produce. */
  lemma TabulateOutcome(data: Json)
    ensures Tabulate(data).BadShape? <==> data.IsScalar()
    ensures Tabulate(data).NoRecords? <==> data == JArr([])
    ensures data.JObj? ==> Tabulate(data).Tabled? && |Tabulate(data).table.rows| == 1
    ensures data.JArr? && data.elems != [] ==>
      Tabulate(data).Tabled? && |Tabulate(data).table.rows| == |data.elems|
  {
  }

  /** The headers are the distinct leaf paths of the first record, in the
      order of their first appearance. */
  lemma TabulateHeaders(data: Json)
    requires Tabulate(data).Tabled?
    ensures var first := ExtractRecords(data).value[0];
      Tabulate(data).table.headers == Dedup(Keys(Leaves(first, "", DefaultSep)))
    ensures Distinct(Tabulate(data).table.headers)
  {
    var first := ExtractRecords(data).value[0];
    FlattenContents(first, "", DefaultSep);
  }

  /** Every cell, against the reference list of leaves: row `j` holds, under
      header `h`, the last leaf of record `j` whose path is `h`, and
      `Missing` when record `j` has no such leaf. */
  lemma TabulateCells(data: Json)
    requires Tabulate(data).Tabled?
    ensures var records := ExtractRecords(data).value;
      var t := Tabulate(data).table;
      |t.rows| == |records| &&
      forall j, i :: 0 <= j < |records| && 0 <= i < |t.headers| ==>
        |t.rows[j]| == |t.headers| &&
        t.rows[j][i] == LastValue(Leaves(records[j], "", DefaultSep), t.headers[i]).GetOr(Missing)
  {
    var records := ExtractRecords(data).value;
    var t := Tabulate(data).table;
    forall j, i | 0 <= j < |records| && 0 <= i < |t.headers|
      ensures t.rows[j][i] == LastValue(Leaves(records[j], "", DefaultSep), t.headers[i]).GetOr(Missing)
    {
      FlattenContents(records[j], "", DefaultSep);
      RowCells(Flatten(records[j], "", DefaultSep), t.headers, i);
    }
  }

  lemma {:induction false} RowCells(rec: Record, headers: seq<string>, i: nat)
    requires i < |headers|
    ensures Row(rec, headers)[i] == Cell(rec, headers[i])
    decreases i
  {
    if i > 0 {
      var m := i - 1;
      RowCells(rec, headers[1..], m);
    }
  }

  /** The first row is the first record's flattened values in order: no
      cell of it is a filler. */
  lemma FirstRowIsFirstRecord(data: Json)
    requires Tabulate(data).Tabled?
    ensures Tabulate(data).table.rows[0] == Values(Flatten(ExtractRecords(data).value[0], "", DefaultSep))
  {
    var first := ExtractRecords(data).value[0];
    var rec := Flatten(first, "", DefaultSep);
    FlattenContents(first, "", DefaultSep);
    assert Tabulate(data).table.rows[0] == Row(rec, Keys(rec));
    RowOfOwnKeys(rec);
  }

  /** A record without repeated keys, projected on its own keys, gives its
      values in order. */
  lemma RowOfOwnKeys(rec: Record)
    requires Distinct(Keys(rec))
    ensures Row(rec, Keys(rec)) == Values(rec)
  {
    var row := Row(rec, Keys(rec));
    forall i | 0 <= i < |row|
      ensures row[i] == Values(rec)[i]
    {
      RowCells(rec, Keys(rec), i);
      LookupAt(rec, i);
    }
  }

  /** Only the first record chooses the headers: every header is a leaf path
      of the first record, and a path that only other records have is no
      header, so its values reach no cell. */
  lemma TabulateDropsLaterKeys(data: Json)
    requires Tabulate(data).Tabled?
    ensures var records := ExtractRecords(data).value;
      var t := Tabulate(data).table;
      && (forall h :: h in t.headers <==> h in Keys(Leaves(records[0], "", DefaultSep)))
      && (forall j, k ::
            (0 <= j < |records| && k in Keys(Leaves(records[j], "", DefaultSep)) &&
             k !in Keys(Leaves(records[0], "", DefaultSep))) ==> k !in t.headers)
  {
    TabulateHeaders(data);
  }

  /** A row depends on a record only through its entries under the headers:
      keys outside the header line are ignored. */
  lemma RowIgnoresOtherKeys(a: Record, b: Record, headers: seq<string>)
    requires forall h :: h in headers ==> Lookup(a, h) == Lookup(b, h)
    ensures Row(a, headers) == Row(b, headers)
  {
    forall i | 0 <= i < |headers|
      ensures Row(a, headers)[i] == Row(b, headers)[i]
    {
      RowCells(a, headers, i);
      RowCells(b, headers, i);
    }
  }

  /** The worksheet of a table is rectangular: one line more than there
      are records, the header line first, and one cell per header on every
      line. */
  lemma TabulatedSheet(data: Json)
    requires Tabulate(data).Tabled?
    ensures var t := Tabulate(data).table;
      && |Worksheet(t)| == |ExtractRecords(data).value| + 1
      && (forall line :: line in Worksheet(t) ==> |line| == |t.headers|)
      && (forall i :: 0 <= i < |t.headers| ==> Worksheet(t)[0][i] == JStr(t.headers[i]))
  {
  }

  /** `{}` is one record with no leaves: an empty header line and an empty row. */
  lemma EmptyObjectExample()
    ensures Tabulate(JObj([])) == Tabled(Table([], [[]]))
  {
    assert Flatten(JObj([]), "", DefaultSep) == [];
  }

  /** `[1, 2]`: scalar records flatten to the empty path. */
  lemma ScalarRecordsExample()
    ensures Tabulate(JArr([JNum(1), JNum(2)])) == Tabled(Table([""], [[JNum(1)], [JNum(2)]]))
  {
    var flat := FlattenAll([JNum(1), JNum(2)]);
    assert flat[0] == [("", JNum(1))];
    assert flat[1] == [("", JNum(2))];
    assert Keys(flat[0]) == [""];
    assert Row(flat[0], [""]) == [JNum(1)];
    assert Row(flat[1], [""]) == [JNum(2)];
  }

  /** `[{"a": 1, "b": 2}, {"b": 3, "c": 4}]`: the second row is padded under
      `a`, and `c` is dropped. */
  lemma SparseRecordsExample()
    ensures Tabulate(JArr([JObj([("a", JNum(1)), ("b", JNum(2))]), JObj([("b", JNum(3)), ("c", JNum(4))])]))
         == Tabled(Table(["a", "b"], [[JNum(1), JNum(2)], [JStr(""), JNum(3)]]))
  {
    SparseFlat();
    SparseRows();
    var f0: Record := [("a", JNum(1)), ("b", JNum(2))];
    var f1: Record := [("b", JNum(3)), ("c", JNum(4))];
    var t := Project([f0, f1]);
    assert t.rows == [Row(f0, ["a", "b"]), Row(f1, ["a", "b"])];
  }

  lemma SparseFlat()
    ensures FlattenAll([JObj([("a", JNum(1)), ("b", JNum(2))]), JObj([("b", JNum(3)), ("c", JNum(4))])])
         == [[("a", JNum(1)), ("b", JNum(2))], [("b", JNum(3)), ("c", JNum(4))]]
  {
    TwoMemberFlatten("a", JNum(1), "b", JNum(2));
    TwoMemberFlatten("b", JNum(3), "c", JNum(4));
  }

  lemma SparseRows()
    ensures var f0: Record := [("a", JNum(1)), ("b", JNum(2))];
      Keys(f0) == ["a", "b"] && Row(f0, ["a", "b"]) == [JNum(1), JNum(2)]
    ensures Row([("b", JNum(3)), ("c", JNum(4))], ["a", "b"]) == [JStr(""), JNum(3)]
  {
    var f0: Record := [("a", JNum(1)), ("b", JNum(2))];
    var f1: Record := [("b", JNum(3)), ("c", JNum(4))];
    assert Keys(f0) == ["a", "b"];
    assert Row(f0, ["a", "b"]) == [JNum(1), JNum(2)];
    assert Row(f1, ["a", "b"]) == [JStr(""), JNum(3)];
  }

  lemma TwoMemberFlatten(k0: string, v0: Json, k1: string, v1: Json)
    requires k0 != "" && k1 != "" && k0 != k1
    requires v0.IsScalar() && v1.IsScalar()
    ensures Flatten(JObj([(k0, v0), (k1, v1)]), "", DefaultSep) == [(k0, v0), (k1, v1)]
  {
    var d := JObj([(k0, v0), (k1, v1)]);
    assert MemberKey("", DefaultSep, k0) == k0;
    assert MemberKey("", DefaultSep, k1) == k1;
    MemberStep(d, 1, "", DefaultSep);
    MemberStep(d, 2, "", DefaultSep);
    var leaves := [(k0, v0), (k1, v1)];
    assert Leaves(d, "", DefaultSep) == leaves;
    assert Keys(leaves) == [k0, k1];
    FlattenWithoutCollisions(d, "", DefaultSep);
  }
}
