/** The second sortable table: clicking a header cell toggles that column's order marker and
    sorts the data on the client (sorting is always local in this version). The comparator
    and `sortData` are those of the first version. */
module SortableTableV2 {
  import opened Common
  import V1 = SortableTableV1

  type Row = V1.Row

  /** The order a click moves a column to: 'desc' and 'asc' alternate, an unsorted column
      ('') goes to 'desc', and any other marker goes back to ''. */
  function NextOrder(order: string): (next: string)
    ensures next == "" || next == "asc" || next == "desc"
    ensures next == "" <==> order != "" && order != "asc" && order != "desc"
  {
    if order == "desc" then "asc"
    else if order == "asc" then "desc"
    else if order == "" then "desc"
    else ""
  }

  /** `getOrderValue(elem, target)`: the next order of `elem`, or '' when it is not the
      target column. */
  function GetOrderValue(elemId: string, elemOrder: string, target: string): (order: string)
    ensures elemId != target ==> order == ""
    ensures elemId == target ==> order == NextOrder(elemOrder)
  {
    if elemId == target then NextOrder(elemOrder) else ""
  }

  /** Two clicks on a sorted column bring its order back; the first click on an unsorted
      column sorts it descending, and every later click flips the order. */
  lemma NextOrderAlternates(order: string)
    ensures order == "asc" || order == "desc" ==> NextOrder(order) != order && NextOrder(NextOrder(order)) == order
    ensures NextOrder("") == "desc" && NextOrder(NextOrder("")) == "asc"
  {
  }

  /** The `sorted` option: a column id and an order, either of which may be absent. */
  datatype Sorted = Sorted(id: Option<string>, order: Option<string>)

  /** The `data-order` the header template writes for a column: the configured order for the
      configured column (an absent order prints as "undefined"), '' for the others. */
  function InitialMarker(column: V1.Column, sorted: Sorted): string {
    if sorted.id == Some(column.id) then (match sorted.order case Some(o) => o case None => "undefined")
    else ""
  }

  /** The markers after a click on a column with id `id`: every column with that id shows the
      new order, every other column shows ''. */
  function ClickMarkers(headers: seq<V1.Column>, id: string, order: string): (m: seq<string>)
    ensures |m| == |headers|
    ensures forall j :: 0 <= j < |headers| ==> m[j] == if headers[j].id == id then order else ""
  {
    seq(|headers|, j requires 0 <= j < |headers| => if headers[j].id == id then order else "")
  }

  class SortableTable {
    const headers: seq<V1.Column>
    var data: seq<Row>
    var sorted: Sorted
    /** `dataset.order` of each header cell. */
    var markers: seq<string>

    ghost predicate Valid()
      reads this
    {
      |markers| == |headers|
    }

    /** The fields and the header markers; `render`'s initial sort is `Render`. */
    constructor(headers: seq<V1.Column>, data: seq<Row>, sorted: Sorted)
      ensures Valid() && this.headers == headers && this.data == data && this.sorted == sorted
      ensures forall i :: 0 <= i < |headers| ==> markers[i] == InitialMarker(headers[i], sorted)
    {
      this.headers := headers;
      this.data := data;
      this.sorted := sorted;
      markers := seq(|headers|, i requires 0 <= i < |headers| => InitialMarker(headers[i], sorted));
    }

    /** The end of `render`: with a non-empty `sorted.id` the data is sorted, by the given
        order or, when none is given, by `sort`'s default 'asc'. */
    method Render(locale: Locale) returns (thrown: Option<JsError>)
      requires Valid()
      modifies this
      ensures Valid() && sorted == old(sorted) && markers == old(markers)
      ensures (sorted.id.None? || sorted.id.value == "") ==> data == old(data) && thrown.None?
      ensures sorted.id.Some? && sorted.id.value != "" ==>
        var r := V1.SortData(old(data), headers, sorted.id.value,
          match sorted.order case Some(o) => o case None => "asc", locale);
        if r.Success? then data == r.value && thrown.None? else data == old(data) && thrown == Some(r.error)
    {
      thrown := None;
      if sorted.id.Some? && sorted.id.value != "" {
        var order := match sorted.order case Some(o) => o case None => "asc";
        thrown := Sort(sorted.id.value, order, locale);
      }
    }

    /** `sort` → `sortOnClient`: the data is replaced by the sorted copy. */
    method Sort(field: string, orderValue: string, locale: Locale) returns (thrown: Option<JsError>)
      requires Valid()
      modifies this
      ensures Valid() && sorted == old(sorted) && markers == old(markers)
      ensures var r := V1.SortData(old(data), headers, field, orderValue, locale);
        if r.Success? then data == r.value && thrown.None? else data == old(data) && thrown == Some(r.error)
    {
      var r := V1.SortRows(data, headers, field, orderValue, locale);
      if r.Failure? {
        return Some(r.error);
      }
      data := r.value;
      thrown := None;
    }

    /** `handleClick(cell)` on header cell `i`. A cell whose sortable flag is false is ignored.
        Otherwise the new order is read from the first column with the clicked id, every
        column's marker is rewritten, `sorted` records the click, and the data is sorted; a
        sort that throws leaves the markers and `sorted` already updated. */
    method HandleClick(i: nat, locale: Locale) returns (thrown: Option<JsError>)
      requires Valid() && i < |headers|
      modifies this
      ensures Valid()
      ensures headers[i].sortable == Some(false) ==>
        thrown.None? && data == old(data) && sorted == old(sorted) && markers == old(markers)
      ensures headers[i].sortable != Some(false) ==>
        var id := headers[i].id;
        var k := V1.FindColumn(headers, id).value;
        var order := GetOrderValue(headers[k].id, old(markers)[k], id);
        var r := V1.SortData(old(data), headers, id, order, locale);
        markers == ClickMarkers(headers, id, order) &&
        sorted == Sorted(Some(id), Some(order)) &&
        if r.Success? then data == r.value && thrown.None? else data == old(data) && thrown == Some(r.error)
    {
      if headers[i].sortable == Some(false) {
        return None;
      }
      var id := headers[i].id;
      var k := V1.FindColumn(headers, id).value;
      var order := GetOrderValue(headers[k].id, markers[k], id);
      var j := 0;
      while j < |markers|
        invariant 0 <= j <= |markers| == |headers|
        invariant forall l :: 0 <= l < j ==> markers[l] == if headers[l].id == id then order else ""
        invariant data == old(data)
      {
        markers := markers[j := if headers[j].id == id then order else ""];
        j := j + 1;
      }
      sorted := Sorted(Some(id), Some(order));
      thrown := Sort(id, order, locale);
    }
  }
}
