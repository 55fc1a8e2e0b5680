/** The first sortable table: a header built from the column configuration, a body with one
    row per data item, and `sort(field, order)`, which sorts a copy of the data by one column,
    replaces the data with it and moves the order marker to that column. The comparator and
    `sortData` are shared word for word by the later table versions, which import them. */
module SortableTableV1 {
  import opened Common
  import opened SortEngine

  /** A field of a data row. A field the row does not have reads as undefined. */
  datatype Cell = Num(n: int) | Text(s: string) | Undefined

  type Row = map<string, Cell>

  /** A header configuration entry. `sortable` and `sortType` may be absent from it. */
  datatype Column = Column(id: string, title: string, sortable: Option<bool>, sortType: Option<string>, hasTemplate: bool)

  /** `row[id]`. */
  function Field(row: Row, id: string): Cell {
    if id in row then row[id] else Undefined
  }

  /** `headerConfig.find(column => column.id === field)`, as an index. */
  function FindColumn(headers: seq<Column>, field: string): (k: Option<nat>)
    ensures k.Some? ==> k.value < |headers| && headers[k.value].id == field
    ensures k.Some? ==> forall j :: 0 <= j < k.value ==> headers[j].id != field
    ensures k.None? ==> forall j :: 0 <= j < |headers| ==> headers[j].id != field
  {
    if headers == [] then None
    else if headers[0].id == field then Some(0)
    else match FindColumn(headers[1..], field)
      case Some(k) => Some(k + 1)
      case None => None
  }

  /** `{ asc: 1, desc: -1 }[order]`; any other order reads as undefined. */
  function OrderSign(orderValue: string): (sign: Option<int>)
    ensures sign.Some? <==> orderValue == "asc" || orderValue == "desc"
    ensures sign.Some? ==> sign.value == if orderValue == "asc" then 1 else -1
  {
    if orderValue == "asc" then Some(1)
    else if orderValue == "desc" then Some(-1)
    else None
  }

  /** How a missing sort type appears in the error message. */
  function TypeName(sortType: Option<string>): string {
    match sortType
    case Some(name) => name
    case None => "undefined"
  }

  /** `String(cell)`, the argument `localeCompare` actually compares with. */
  function ToText(c: Cell): string {
    match c
    case Text(s) => s
    case Num(n) => IntToString(n)
    case Undefined => "undefined"
  }

  /** The comparator of `sortData` on the two fields. A 'number' difference that is not a
      number (a field that is not numeric, or an undefined order) is NaN, which
      `Array.prototype.sort` treats as 0; a 'string' comparison calls `localeCompare` on the
      first field, which throws unless it is a string; any other sort type throws. */
  function CompareCells(sortType: Option<string>, a: Cell, b: Cell, sign: Option<int>, locale: Locale): (r: Result<int, JsError>)
    ensures r.Failure? <==> sortType != Some("number") && (sortType != Some("string") || !a.Text?)
    ensures r.Failure? && sortType != Some("string") ==> r.error == UnknownSortingType(TypeName(sortType))
    ensures r.Failure? && sortType == Some("string") ==> r.error == TypeError
    ensures sign.None? && r.Success? ==> r.value == 0
  {
    match sortType
    case Some("number") =>
      if a.Num? && b.Num? && sign.Some? then Success(sign.value * (a.n - b.n)) else Success(0)
    case Some("string") =>
      if !a.Text? then Failure(TypeError)
      else if sign.Some? then Success(sign.value * locale(a.s, ToText(b)))
      else Success(0)
    case _ => Failure(UnknownSortingType(TypeName(sortType)))
  }

  function CompareRows(sortType: Option<string>, field: string, sign: Option<int>, locale: Locale): Comparator<Row> {
    (a, b) => CompareCells(sortType, Field(a, field), Field(b, field), sign, locale)
  }

  /** `sortData(field, order)`: the column is looked up first (destructuring the missing
      column throws), then a copy of the data is sorted by it. */
  function SortData(data: seq<Row>, headers: seq<Column>, field: string, orderValue: string, locale: Locale): Result<seq<Row>, JsError> {
    match FindColumn(headers, field)
    case None => Failure(TypeError)
    case Some(k) => InsertionSort(data, CompareRows(headers[k].sortType, field, OrderSign(orderValue), locale))
  }

  /** The source's `sortData`: the rows are copied into a new array, which is sorted in place. */
  method SortRows(data: seq<Row>, headers: seq<Column>, field: string, orderValue: string, locale: Locale) returns (r: Result<seq<Row>, JsError>)
    ensures r == SortData(data, headers, field, orderValue, locale)
  {
    var column := FindColumn(headers, field);
    if column.None? {
      return Failure(TypeError);
    }
    var copy := new Row[|data|](i requires 0 <= i < |data| => data[i]);
    assert copy[..] == data;
    var thrown := SortInPlace(copy, CompareRows(headers[column.value].sortType, field, OrderSign(orderValue), locale));
    r := if thrown.None? then Success(copy[..]) else Failure(thrown.value);
  }

  /** The sorted rows are the data rows, reordered. */
  lemma SortDataPermutes(data: seq<Row>, headers: seq<Column>, field: string, orderValue: string, locale: Locale)
    requires SortData(data, headers, field, orderValue, locale).Success?
    ensures multiset(SortData(data, headers, field, orderValue, locale).value) == multiset(data)
  {
    var k := FindColumn(headers, field).value;
    InsertionSortPermutes(data, CompareRows(headers[k].sortType, field, OrderSign(orderValue), locale));
  }

  /** A field without a header column throws, even before any row is compared. */
  lemma SortDataUnknownColumn(data: seq<Row>, headers: seq<Column>, field: string, orderValue: string, locale: Locale)
    requires forall j :: 0 <= j < |headers| ==> headers[j].id != field
    ensures SortData(data, headers, field, orderValue, locale) == Failure(TypeError)
  {
  }

  /** A column whose sort type is neither 'number' nor 'string' throws "Unknown sorting type"
      as soon as two rows are compared; fewer rows come back as they are. */
  lemma SortDataUnknownType(data: seq<Row>, headers: seq<Column>, field: string, orderValue: string, locale: Locale, k: nat)
    requires FindColumn(headers, field) == Some(k)
    requires headers[k].sortType != Some("number") && headers[k].sortType != Some("string")
    ensures SortData(data, headers, field, orderValue, locale) ==
      if |data| < 2 then Success(data) else Failure(UnknownSortingType(TypeName(headers[k].sortType)))
  {
    var cmp := CompareRows(headers[k].sortType, field, OrderSign(orderValue), locale);
    InsertionSortAlwaysThrows(data, cmp, UnknownSortingType(TypeName(headers[k].sortType)));
  }

  /** Every row holds a string in the field. */
  predicate AllText(data: seq<Row>, field: string) {
    forall i :: 0 <= i < |data| ==> Field(data[i], field).Text?
  }

  /** Every row holds a number in the field. */
  predicate AllNum(data: seq<Row>, field: string) {
    forall i :: 0 <= i < |data| ==> Field(data[i], field).Num?
  }

  /** An order other than 'asc' and 'desc' makes every comparison 0, so the rows keep their
      order (for a string column, provided no comparison throws). */
  lemma SortDataUnknownOrderKeeps(data: seq<Row>, headers: seq<Column>, field: string, orderValue: string, locale: Locale, k: nat)
    requires FindColumn(headers, field) == Some(k)
    requires orderValue != "asc" && orderValue != "desc"
    requires headers[k].sortType == Some("number") || (headers[k].sortType == Some("string") && AllText(data, field))
    ensures SortData(data, headers, field, orderValue, locale) == Success(data)
  {
    var cmp := CompareRows(headers[k].sortType, field, OrderSign(orderValue), locale);
    forall a, b | a in data && b in data ensures cmp(a, b) == Success(0) {
      var i :| 0 <= i < |data| && data[i] == a;
    }
    InsertionSortAllEqual(data, cmp);
  }

  /** The number in a numeric field. */
  function NumKey(row: Row, field: string): int {
    match Field(row, field)
    case Num(n) => n
    case _ => 0
  }

  /** Neighbour-by-neighbour order is order between any two positions. */
  lemma {:induction false} ChainOrdered(keys: seq<int>)
    requires forall i :: 0 < i < |keys| ==> keys[i - 1] <= keys[i]
    ensures forall i, j :: 0 <= i <= j < |keys| ==> keys[i] <= keys[j]
    decreases |keys|
  {
    if keys != [] {
      var init := keys[..|keys| - 1];
      ChainOrdered(init);
      forall i, j | 0 <= i <= j < |keys| ensures keys[i] <= keys[j] {
        if j == |keys| - 1 && i < j {
          assert init[i] <= init[j - 1];
        } else if i < j {
          assert init[i] <= init[j];
        }
      }
    }
  }

  /** A 'number' column: 'asc' gives rows non-decreasing in the field, 'desc' non-increasing. */
  lemma SortDataNumbersOrdered(data: seq<Row>, headers: seq<Column>, field: string, orderValue: string, locale: Locale, k: nat)
    requires FindColumn(headers, field) == Some(k) && headers[k].sortType == Some("number")
    requires orderValue == "asc" || orderValue == "desc"
    requires AllNum(data, field)
    ensures SortData(data, headers, field, orderValue, locale).Success?
    ensures var r := SortData(data, headers, field, orderValue, locale).value;
      orderValue == "asc" ==> forall i, j :: 0 <= i <= j < |r| ==> NumKey(r[i], field) <= NumKey(r[j], field)
    ensures var r := SortData(data, headers, field, orderValue, locale).value;
      orderValue == "desc" ==> forall i, j :: 0 <= i <= j < |r| ==> NumKey(r[i], field) >= NumKey(r[j], field)
  {
    var cmp := CompareRows(Some("number"), field, OrderSign(orderValue), locale);
    forall a | a in data ensures Field(a, field).Num? {
      var i :| 0 <= i < |data| && data[i] == a;
    }
    InsertionSortOrdered(data, cmp);
    var r := InsertionSort(data, cmp).value;
    var keys := seq(|r|, i requires 0 <= i < |r| =>
      if orderValue == "asc" then NumKey(r[i], field) else -NumKey(r[i], field));
    forall i | 0 < i < |r| ensures keys[i - 1] <= keys[i] {
      SortedElementsFromInput(data, cmp, r[i - 1]);
      SortedElementsFromInput(data, cmp, r[i]);
      assert NotAfter(r[i - 1], r[i], cmp);
    }
    ChainOrdered(keys);
    forall i, j | 0 <= i <= j < |r|
      ensures orderValue == "asc" ==> NumKey(r[i], field) <= NumKey(r[j], field)
      ensures orderValue == "desc" ==> NumKey(r[i], field) >= NumKey(r[j], field)
    {
      assert keys[i] <= keys[j];
    }
  }

  /** A 'string' column of strings, with a consistent locale: neighbours are in
      `localeCompare` order for 'asc' and in the opposite order for 'desc'. */
  lemma SortDataStringsOrdered(data: seq<Row>, headers: seq<Column>, field: string, orderValue: string, locale: Locale, k: nat)
    requires FindColumn(headers, field) == Some(k) && headers[k].sortType == Some("string")
    requires orderValue == "asc" || orderValue == "desc"
    requires AllText(data, field) && LocaleAntisymmetric(locale)
    ensures SortData(data, headers, field, orderValue, locale).Success?
    ensures var r := SortData(data, headers, field, orderValue, locale).value;
      forall i :: 0 < i < |r| ==>
        var c := locale(ToText(Field(r[i - 1], field)), ToText(Field(r[i], field)));
        if orderValue == "asc" then c <= 0 else c >= 0
  {
    var cmp := CompareRows(Some("string"), field, OrderSign(orderValue), locale);
    forall a | a in data ensures Field(a, field).Text? {
      var i :| 0 <= i < |data| && data[i] == a;
    }
    forall a, b | a in data && b in data && cmp(a, b).Success? && cmp(a, b).value > 0
      ensures cmp(b, a).Success? && cmp(b, a).value <= 0
    {
      var sa, sb := Field(a, field).s, Field(b, field).s;
      assert locale(sa, sb) > 0 <==> locale(sb, sa) < 0;
      assert locale(sb, sa) > 0 <==> locale(sa, sb) < 0;
    }
    InsertionSortOrdered(data, cmp);
    var r := InsertionSort(data, cmp).value;
    forall i | 0 < i < |r| ensures
      var c := locale(ToText(Field(r[i - 1], field)), ToText(Field(r[i], field)));
      if orderValue == "asc" then c <= 0 else c >= 0
    {
      SortedElementsFromInput(data, cmp, r[i - 1]);
      SortedElementsFromInput(data, cmp, r[i]);
      assert NotAfter(r[i - 1], r[i], cmp);
    }
  }

  /** The markers `setArrow(field, order)` leaves: '' on every column but the first whose id
      is `field`, which carries `order`. */
  function Arrows(headers: seq<Column>, field: string, orderValue: string): (m: seq<Option<string>>)
    ensures |m| == |headers|
  {
    seq(|headers|, i requires 0 <= i < |headers| => Some(if FindColumn(headers, field) == Some(i) then orderValue else ""))
  }

  /** The marker sits on the sorted column alone: the first column with that id. */
  lemma ArrowsMarkSortedColumn(headers: seq<Column>, field: string, orderValue: string, k: nat)
    requires k < |headers| && headers[k].id == field
    requires forall j :: 0 <= j < k ==> headers[j].id != field
    ensures Arrows(headers, field, orderValue)[k] == Some(orderValue)
    ensures forall i :: 0 <= i < |headers| && i != k ==> Arrows(headers, field, orderValue)[i] == Some("")
  {
    var found := FindColumn(headers, field);
    assert found.Some? && found.value <= k;
  }

  /** A body cell: the column's template applied to the field, or the field itself. */
  datatype CellView = Templated(columnId: string, value: Cell) | Plain(value: Cell)

  /** `getRowCells(row)`: one cell per header column, in configuration order. */
  function RowCells(row: Row, headers: seq<Column>): (cells: seq<CellView>)
    ensures |cells| == |headers|
    ensures forall j :: 0 <= j < |headers| ==>
      cells[j].value == Field(row, headers[j].id) && (cells[j].Templated? <==> headers[j].hasTemplate)
  {
    if headers == [] then []
    else
      var c := headers[0];
      [if c.hasTemplate then Templated(c.id, Field(row, c.id)) else Plain(Field(row, c.id))] + RowCells(row, headers[1..])
  }

  /** `getTableRows()`: one body row per data item, in data order. */
  function BodyRows(data: seq<Row>, headers: seq<Column>): (rows: seq<seq<CellView>>)
    ensures |rows| == |data|
    ensures forall i :: 0 <= i < |data| ==> rows[i] == RowCells(data[i], headers)
  {
    if data == [] then [] else [RowCells(data[0], headers)] + BodyRows(data[1..], headers)
  }

  class SortableTable {
    const headers: seq<Column>
    var data: seq<Row>
    /** `dataset.order` of each header cell; absent until the first `setArrow`. */
    var markers: seq<Option<string>>

    ghost predicate Valid()
      reads this
    {
      |markers| == |headers|
    }

    constructor(headers: seq<Column>, data: seq<Row>)
      ensures Valid() && this.headers == headers && this.data == data
      ensures forall i :: 0 <= i < |markers| ==> markers[i].None?
    {
      this.headers := headers;
      this.data := data;
      markers := seq(|headers|, _ => None);
    }

    /** `setArrow(field, order)`: every marker is cleared, then the first column with id
        `field` gets `order`; when there is none, `sortedColumn` is null and writing to it
        throws. */
    method SetArrow(field: string, orderValue: string) returns (thrown: Option<JsError>)
      requires Valid()
      modifies this
      ensures Valid() && data == old(data)
      ensures thrown.None? ==> markers == Arrows(headers, field, orderValue)
      ensures thrown.Some? <==> FindColumn(headers, field).None?
      ensures thrown.Some? ==> thrown.value == TypeError && forall i :: 0 <= i < |markers| ==> markers[i] == Some("")
    {
      var i := 0;
      while i < |markers|
        invariant 0 <= i <= |markers| == |headers|
        invariant forall j :: 0 <= j < i ==> markers[j] == Some("")
        invariant data == old(data)
      {
        markers := markers[i := Some("")];
        i := i + 1;
      }
      var column := FindColumn(headers, field);
      if column.None? {
        return Some(TypeError);
      }
      markers := markers[column.value := Some(orderValue)];
      thrown := None;
    }

    /** `sort(field, order)`: the data is replaced by the sorted copy and the marker moved;
        when `sortData` throws, nothing changes. */
    method Sort(field: string, orderValue: string, locale: Locale) returns (thrown: Option<JsError>)
      requires Valid()
      modifies this
      ensures Valid()
      ensures SortData(old(data), headers, field, orderValue, locale).Failure? ==>
        thrown == Some(SortData(old(data), headers, field, orderValue, locale).error) &&
        data == old(data) && markers == old(markers)
      ensures SortData(old(data), headers, field, orderValue, locale).Success? ==>
        thrown.None? && data == SortData(old(data), headers, field, orderValue, locale).value &&
        markers == Arrows(headers, field, orderValue)
    {
      var sorted := SortRows(data, headers, field, orderValue, locale);
      if sorted.Failure? {
        return Some(sorted.error);
      }
      data := sorted.value;
      thrown := SetArrow(field, orderValue);
    }
  }
}
