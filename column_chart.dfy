/** The column chart: a title (`Total` and the `label` property), a header value and one column per
    data point, each column as tall as its share of the largest point (out of 50) with that
    share as a percentage in its tooltip. Without data the chart shows its loading skeleton. The rendered element is
    described by its parts, not by its markup. */
module ColumnChart {
  import opened Common

  /** The properties the chart is constructed with; absent ones are `undefined`. `labelText`
      is the `label` property (`label` is a keyword here). */
  datatype Props = Props(data: Option<seq<int>>, labelText: Option<string>, value: Option<int>,
    link: Option<string>, formatHeading: Option<int -> string>)

  datatype Column = Column(height: int, tooltip: string)

  /** What `render` builds: whether the element has the `column-chart_loading` class, the
      text of the title, the header text and the columns. */
  datatype Element = Element(loading: bool, title: string, header: string, columns: seq<Column>)

  /** `Math.max(...data)` for a non-empty array. */
  function MaxOf(s: seq<int>): (m: int)
    requires |s| > 0
    ensures m in s && forall x :: x in s ==> x <= m
  {
    if |s| == 1 then s[0]
    else
      var rest := MaxOf(s[1..]);
      assert forall x :: x in s ==> x == s[0] || x in s[1..];
      if s[0] >= rest then s[0] else rest
  }

  /** `x.toFixed(0)`: the nearest integer, halves rounding away from zero, with a minus sign
      for a negative `x` (even one that rounds to zero). */
  function ToFixed0(x: real): string {
    if x < 0.0 then "-" + NatToString((-x + 0.5).Floor) else NatToString((x + 0.5).Floor)
  }

  /** One column: its height is the value's share of `max` out of the chart height 50,
      rounded down, and its tooltip the share in whole percent. */
  function ColumnOf(value: int, max: int): Column
    requires max != 0
  {
    Column(((value * 50) as real / max as real).Floor, ToFixed0(value as real / max as real * 100.0) + "%")
  }

  /** Whether the columns can be computed: with data whose largest point is 0 the shares
      are not numbers. */
  predicate Scalable(data: seq<int>) {
    |data| == 0 || MaxOf(data) != 0
  }

  /** The `columns` getter: one column per data point, in order. */
  function Columns(data: seq<int>): (columns: seq<Column>)
    requires Scalable(data)
    ensures |columns| == |data|
  {
    if |data| == 0 then [] else
    var max := MaxOf(data);
    seq(|data|, i requires 0 <= i < |data| => ColumnOf(data[i], max))
  }

  /** Dividing by a positive number keeps the order. */
  lemma DivideMonotone(x: real, y: real, m: real)
    requires x <= y && m > 0.0
    ensures x / m <= y / m
  {
    assert (y / m - x / m) * m == y - x;
  }

  /** A share of itself is whole: `m * k / m == k`. */
  lemma Cancel(m: real, k: real)
    requires m != 0.0
    ensures m * k / m == k
  {
  }

  /** A column for a value between 0 and a positive maximum is between 0 and 50 high. */
  lemma ColumnOfBounded(v: int, max: int)
    requires 0 <= v <= max && max > 0
    ensures 0 <= ColumnOf(v, max).height <= 50
  {
    var share := (v * 50) as real / max as real;
    DivideMonotone(0.0, (v * 50) as real, max as real);
    DivideMonotone((v * 50) as real, (max * 50) as real, max as real);
    assert (max * 50) as real == max as real * 50.0;
    Cancel(max as real, 50.0);
    assert 0.0 <= share <= 50.0;
    assert ColumnOf(v, max).height == share.Floor;
  }

  /** For data that are not negative, every column is between 0 and 50 high. */
  lemma ColumnHeightsBounded(data: seq<int>, i: int)
    requires Scalable(data) && 0 <= i < |data|
    requires forall x :: x in data ==> x >= 0
    ensures 0 <= Columns(data)[i].height <= 50
  {
    var max := MaxOf(data);
    assert data[i] in data;
    assert Columns(data)[i] == ColumnOf(data[i], max);
    ColumnOfBounded(data[i], max);
  }

  lemma HundredText()
    ensures ToFixed0(100.0) == "100"
  {
    assert NatToString(1) == "1";
    assert NatToString(10) == NatToString(1) + "0";
    assert NatToString(100) == NatToString(10) + "0";
  }

  /** A column for the maximum itself is full. */
  lemma ColumnOfMax(max: int)
    requires max != 0
    ensures ColumnOf(max, max) == Column(50, "100%")
  {
    assert (max * 50) as real == max as real * 50.0;
    Cancel(max as real, 50.0);
    Cancel(max as real, 1.0);
    assert max as real / max as real * 100.0 == 100.0;
    HundredText();
  }

  /** The largest data point fills the chart: height 50 and tooltip `100%`. */
  lemma TallestColumnFull(data: seq<int>, i: int)
    requires Scalable(data) && 0 <= i < |data| && data[i] == MaxOf(data)
    ensures Columns(data)[i] == Column(50, "100%")
  {
    assert Columns(data)[i] == ColumnOf(data[i], MaxOf(data));
    ColumnOfMax(MaxOf(data));
  }

  /** With a positive maximum, a larger data point never gets a shorter column. */
  lemma ColumnsMonotone(data: seq<int>, i: int, j: int)
    requires Scalable(data) && 0 <= i < |data| && 0 <= j < |data| && data[i] <= data[j]
    requires MaxOf(data) > 0
    ensures Columns(data)[i].height <= Columns(data)[j].height
  {
    DivideMonotone((data[i] * 50) as real, (data[j] * 50) as real, MaxOf(data) as real);
  }

  /** The JavaScript `x || null` on an optional value: a falsy value counts as absent. */
  function Truthy(o: Option<string>): Option<string> {
    if o.Some? && o.value != "" then o else None
  }

  function TruthyNumber(o: Option<int>): Option<int> {
    if o.Some? && o.value != 0 then o else None
  }

  /** `getValue()`: the value through `formatHeading` when there is one, else as it is. */
  function HeadingValue(value: int, formatHeading: Option<int -> string>): (text: string) {
    match formatHeading
    case Some(format) => format(value)
    case None => IntToString(value)
  }

  /** The header: `value && getValue()`, so a missing value is printed as `null`. */
  function Header(value: Option<int>, formatHeading: Option<int -> string>): (text: string)
    ensures value.None? ==> text == "null"
    ensures value.Some? ==> text == HeadingValue(value.value, formatHeading)
  {
    match value
    case None => "null"
    case Some(v) => HeadingValue(v, formatHeading)
  }

  class ColumnChart {
    const chartHeight: int
    /** Whether the chart was given properties at all. */
    const hasData: bool
    var data: Option<seq<int>>
    const labelText: Option<string>
    const value: Option<int>
    const link: Option<string>
    const formatHeading: Option<int -> string>
    /** `this.element`; `None` once destroyed or removed. */
    var element: Option<Element>

    /** The element `render` builds from the chart's fields: the loading class unless
        properties and non-empty data were given, and the columns whenever there are data. */
    function Render(): (e: Element)
      requires data.Some? ==> Scalable(data.value)
      reads this
    {
      var hasColumns := data.Some? && |data.value| > 0;
      Element(!(hasData && hasColumns), "Total " + OrElse(labelText, ""), Header(value, formatHeading),
        if hasColumns then Columns(data.value) else [])
    }

    /** The constructor: every property is read with `|| null`, so an empty label or link
        and a value of 0 count as absent, and the element is rendered at once. */
    constructor(props: Option<Props>)
      requires props.Some? && props.value.data.Some? ==> Scalable(props.value.data.value)
      ensures chartHeight == 50 && hasData == props.Some?
      ensures data == (if props.Some? then props.value.data else None)
      ensures value == (if props.Some? then TruthyNumber(props.value.value) else None)
      ensures labelText == (if props.Some? then Truthy(props.value.labelText) else None)
      ensures link == (if props.Some? then Truthy(props.value.link) else None)
      ensures formatHeading == (if props.Some? then props.value.formatHeading else None)
      ensures element == Some(Render())
    {
      chartHeight := 50;
      hasData := props.Some?;
      data := if props.Some? then props.value.data else None;
      labelText := if props.Some? then Truthy(props.value.labelText) else None;
      value := if props.Some? then TruthyNumber(props.value.value) else None;
      link := if props.Some? then Truthy(props.value.link) else None;
      formatHeading := if props.Some? then props.value.formatHeading else None;
      new;
      element := Some(Render());
    }

    /** `update(data)`: the data are replaced and the element rendered again. */
    method Update(newData: Option<seq<int>>)
      requires newData.Some? ==> Scalable(newData.value)
      modifies this
      ensures data == newData && element == Some(Render())
    {
      data := newData;
      element := Some(Render());
    }

    /** `destroy()` and `remove()`: the element is dropped. */
    method Destroy()
      modifies this
      ensures element == None && data == old(data)
    {
      element := None;
    }
  }

  /** The loading class and the columns agree for a chart given properties: it is loading
      exactly when it draws no column. A chart built without properties stays loading even
      after `update` gives it data. */
  lemma LoadingExactlyWithoutColumns(hasData: bool, data: Option<seq<int>>, labelText: Option<string>,
      value: Option<int>, formatHeading: Option<int -> string>)
    requires data.Some? ==> Scalable(data.value)
    ensures var hasColumns := data.Some? && |data.value| > 0;
      var e := Element(!(hasData && hasColumns), "Total " + OrElse(labelText, ""), Header(value, formatHeading),
        if hasColumns then Columns(data.value) else []);
      (hasData ==> (e.loading <==> e.columns == [])) && (!hasData ==> e.loading) &&
      |e.columns| == (if data.Some? then |data.value| else 0)
  {
  }

  /** A value of 0 is read with `|| null`, so the header of a chart whose value is 0 shows
      `null`. */
  lemma ZeroValueShowsNull(formatHeading: Option<int -> string>)
    ensures Header(TruthyNumber(Some(0)), formatHeading) == "null"
  {
  }
}
