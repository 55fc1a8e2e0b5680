/** The third sortable table: the data comes from the server a page at a time. The query
    (`searchParams`) names the sort column, the order and the window `[_start, _end)` of rows;
    a header click starts over from the first window, and scrolling near the bottom asks for
    the next window and appends it. Requests are asynchronous: each one is a pending load
    that later resolves with a page or fails, in any order. */
module SortableTableV3 {
  import opened Common
  import V1 = SortableTableV1
  import V2 = SortableTableV2

  type Row = V1.Row

  /** The options object of the constructor; every entry may be absent. */
  datatype Options = Options(sortedId: Option<string>, sortedOrder: Option<string>, step: Option<int>, isSortLocally: Option<bool>)

  /** The query sent with each request. */
  datatype SearchParams = SearchParams(sort: string, order: string, start: int, end: int)

  /** What a response is for: the first page of `render`, a page appended by a scroll to the
      rows there were when the scroll happened, or a server-sorted first page after a click. */
  datatype LoadKind = Initial | Append(base: seq<Row>) | Replace

  /** A request in flight, with the query it was sent with. */
  datatype Load = Load(kind: LoadKind, params: SearchParams)

  /** `headersConfig.find(cell => cell.sortable)`, as an index. */
  function FirstSortable(headers: seq<V1.Column>): (k: Option<nat>)
    ensures k.Some? ==> k.value < |headers| && headers[k.value].sortable == Some(true)
    ensures k.Some? ==> forall j :: 0 <= j < k.value ==> headers[j].sortable != Some(true)
    ensures k.None? ==> forall j :: 0 <= j < |headers| ==> headers[j].sortable != Some(true)
  {
    if headers == [] then None
    else if headers[0].sortable == Some(true) then Some(0)
    else match FirstSortable(headers[1..])
      case Some(k) => Some(k + 1)
      case None => None
  }

  /** The default sort field: the configured id, or else the id of the first sortable column;
      with neither, reading `.id` of undefined throws. */
  function DefaultField(headers: seq<V1.Column>, sortedId: Option<string>): (r: Result<string, JsError>)
    ensures sortedId.Some? ==> r == Success(sortedId.value)
    ensures sortedId.None? && r.Success? ==>
      exists k :: 0 <= k < |headers| && headers[k].sortable == Some(true) && headers[k].id == r.value &&
        forall j :: 0 <= j < k ==> headers[j].sortable != Some(true)
    ensures r.Failure? <==> sortedId.None? && forall j :: 0 <= j < |headers| ==> headers[j].sortable != Some(true)
  {
    match sortedId
    case Some(id) => Success(id)
    case None =>
      match FirstSortable(headers)
      case Some(k) => Success(headers[k].id)
      case None => Failure(TypeError)
  }

  /** A header marker in the template: the query's order on the query's column, '' elsewhere. */
  function InitialMarkers(headers: seq<V1.Column>, params: SearchParams): (m: seq<string>)
    ensures |m| == |headers|
  {
    seq(|headers|, i requires 0 <= i < |headers| => if headers[i].id == params.sort then params.order else "")
  }

  class SortableTable {
    const headers: seq<V1.Column>
    const step: int
    const isSortLocally: bool
    var data: seq<Row>
    var sorted: (string, string)
    var searchParams: SearchParams
    var isLoading: bool
    /** `dataset.order` of each header cell. */
    var markers: seq<string>
    /** The requests sent and not yet answered. */
    var pending: seq<Load>

    /** The paging window is always `step` rows wide, in the current query and in every
        request in flight. */
    ghost predicate Valid()
      reads this
    {
      |markers| == |headers| &&
      searchParams.end - searchParams.start == step &&
      forall i :: 0 <= i < |pending| ==> pending[i].params.end - pending[i].params.start == step
    }

    /** The constructor and the synchronous part of `render`: the defaults are resolved
        (construction throws when they cannot be), the first window is `[0, step)`, and the
        first page is requested, which sets `isLoading`. */
    constructor(headers: seq<V1.Column>, options: Options)
      requires DefaultField(headers, options.sortedId).Success?
      ensures Valid() && this.headers == headers
      ensures var field := DefaultField(headers, options.sortedId).value;
        var order := OrElse(options.sortedOrder, "asc");
        step == OrElse(options.step, 30) && isSortLocally == OrElse(options.isSortLocally, false) &&
        sorted == (field, order) &&
        searchParams == SearchParams(field, order, 0, step) &&
        markers == InitialMarkers(headers, searchParams) &&
        data == [] && isLoading && pending == [Load(Initial, searchParams)]
    {
      this.headers := headers;
      var field := DefaultField(headers, options.sortedId).value;
      var order := OrElse(options.sortedOrder, "asc");
      var step := OrElse(options.step, 30);
      this.step := step;
      isSortLocally := OrElse(options.isSortLocally, false);
      sorted := (field, order);
      searchParams := SearchParams(field, order, 0, step);
      markers := InitialMarkers(headers, SearchParams(field, order, 0, step));
      data := [];
      isLoading := true;
      pending := [Load(Initial, SearchParams(field, order, 0, step))];
    }

    /** `loadData()` up to its `await`: the query is sent and `isLoading` is set. */
    method StartLoad(kind: LoadKind)
      requires Valid()
      modifies this
      ensures Valid() && isLoading && pending == old(pending) + [Load(kind, searchParams)]
      ensures data == old(data) && sorted == old(sorted) && searchParams == old(searchParams) && markers == old(markers)
    {
      pending := pending + [Load(kind, searchParams)];
      isLoading := true;
    }

    /** The response to request `i` arrives with `page`: `isLoading` is cleared and the page
        becomes the data, after the rows there were at scroll time for a scroll load. The first
        page is sorted on the client by the current query when sorting is local. */
    method Resolve(i: nat, page: seq<Row>, locale: Locale) returns (thrown: Option<JsError>)
      requires Valid() && i < |pending|
      modifies this
      ensures Valid() && !isLoading && pending == old(pending[..i] + pending[i + 1..])
      ensures sorted == old(sorted) && searchParams == old(searchParams) && markers == old(markers)
      ensures old(pending[i].kind).Append? ==> data == old(pending[i].kind).base + page && thrown.None?
      ensures old(pending[i].kind).Replace? ==> data == page && thrown.None?
      ensures old(pending[i].kind).Initial? && !isSortLocally ==> data == page && thrown.None?
      ensures old(pending[i].kind).Initial? && isSortLocally ==>
        var r := V1.SortData(page, headers, searchParams.sort, searchParams.order, locale);
        if r.Success? then data == r.value && thrown.None? else data == page && thrown == Some(r.error)
    {
      var load := pending[i];
      pending := pending[..i] + pending[i + 1..];
      isLoading := false;
      thrown := None;
      match load.kind
      case Append(base) =>
        data := base + page;
      case Replace =>
        data := page;
      case Initial =>
        data := page;
        if isSortLocally {
          var r := V1.SortRows(data, headers, searchParams.sort, searchParams.order, locale);
          if r.Failure? {
            return Some(r.error);
          }
          data := r.value;
        }
    }

    /** Request `i` is rejected: the promise rejects before `isLoading` is cleared, so the
        flag stays as it was and the data is untouched. */
    method Reject(i: nat)
      requires Valid() && i < |pending|
      modifies this
      ensures Valid() && pending == old(pending[..i] + pending[i + 1..])
      ensures isLoading == old(isLoading) && data == old(data)
      ensures sorted == old(sorted) && searchParams == old(searchParams) && markers == old(markers)
    {
      pending := pending[..i] + pending[i + 1..];
    }

    /** `handleScroll()`, given whether the page is scrolled past the loading limit. Nothing
        happens while a load is running; otherwise the window moves on by `step` and the next
        page is requested, to be appended to the rows there are now. */
    method HandleScroll(nearBottom: bool)
      requires Valid()
      modifies this
      ensures Valid()
      ensures !nearBottom || old(isLoading) ==>
        data == old(data) && searchParams == old(searchParams) && pending == old(pending) && isLoading == old(isLoading)
      ensures nearBottom && !old(isLoading) ==>
        searchParams == old(searchParams).(start := old(searchParams.start) + step, end := old(searchParams.end) + step) &&
        isLoading && data == old(data) && pending == old(pending) + [Load(Append(old(data)), searchParams)]
      ensures sorted == old(sorted) && markers == old(markers)
    {
      if nearBottom && !isLoading {
        searchParams := searchParams.(start := searchParams.start + step, end := searchParams.end + step);
        StartLoad(Append(data));
      }
    }

    /** `handleClick(event)`, given the header cell the pointer went down in, if any. Only a
        cell whose sortable flag is true reacts: its order is toggled, all other markers are
        cleared, the query restarts at the first window with the new sort, and the data is
        sorted locally or requested from the server. */
    method HandleClick(cell: Option<nat>, locale: Locale) returns (thrown: Option<JsError>)
      requires Valid() && (cell.Some? ==> cell.value < |headers|)
      modifies this
      ensures Valid()
      ensures cell.None? || headers[cell.value].sortable != Some(true) ==>
        thrown.None? && data == old(data) && sorted == old(sorted) && searchParams == old(searchParams) &&
        markers == old(markers) && pending == old(pending) && isLoading == old(isLoading)
      ensures cell.Some? && headers[cell.value].sortable == Some(true) ==>
        var c := cell.value;
        var id := headers[c].id;
        var order := V2.NextOrder(old(markers)[c]);
        markers == seq(|headers|, j requires 0 <= j < |headers| => if j == c then order else "") &&
        searchParams == SearchParams(id, order, 0, step) &&
        sorted == (id, order) &&
        (isSortLocally ==>
          var r := V1.SortData(old(data), headers, id, order, locale);
          pending == old(pending) && isLoading == old(isLoading) &&
          if r.Success? then data == r.value && thrown.None? else data == old(data) && thrown == Some(r.error)) &&
        (!isSortLocally ==>
          data == old(data) && thrown.None? && isLoading && pending == old(pending) + [Load(Replace, searchParams)])
    {
      if cell.None? || headers[cell.value].sortable != Some(true) {
        return None;
      }
      var c := cell.value;
      var id := headers[c].id;
      var order := V2.NextOrder(markers[c]);
      var j := 0;
      while j < |markers|
        invariant 0 <= j <= |markers| == |headers|
        invariant forall l :: 0 <= l < j ==> markers[l] == ""
        invariant data == old(data) && pending == old(pending) && isLoading == old(isLoading)
        invariant searchParams == old(searchParams)
      {
        markers := markers[j := ""];
        j := j + 1;
      }
      markers := markers[c := order];
      searchParams := SearchParams(id, order, 0, step);
      sorted := (id, order);
      thrown := None;
      if isSortLocally {
        var r := V1.SortRows(data, headers, id, order, locale);
        if r.Failure? {
          return Some(r.error);
        }
        data := r.value;
      } else {
        StartLoad(Replace);
      }
    }
  }
}
