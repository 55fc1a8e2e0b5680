/** The double slider: two thumbs on a track choose a range `[from, to]` inside `[min, max]`.
    Each thumb's position is an offset in percent from its own end of the track (the left
    thumb's `left`, the right thumb's `right`), the progress bar between them carries the same
    two offsets, and the labels show the values the offsets stand for. Offsets are numbers
    here; the `'…%'` strings they are written as and read back with `parseFloat` carry them
    unchanged. */
module DoubleSlider {
  import opened Common

  /** `Math.round(x)`: the nearest integer, halves rounding up. */
  function Round(x: real): (n: int)
    ensures x - 0.5 < n as real <= x + 0.5
  {
    (x + 0.5).Floor
  }

  lemma RoundMonotone(x: real, y: real)
    requires x <= y
    ensures Round(x) <= Round(y)
  {
  }

  /** The offsets `update` gives the thumbs and the progress bar for a selection, in whole
      percent: the distance of `from` above `min` and of `to` below `max`, as shares of the
      range, rounded down. */
  function UpdateOffsets(min: int, max: int, from: int, to: int): (offsets: (int, int))
    requires min != max
  {
    var rangeTotal := (max - min) as real;
    (((from - min) as real / rangeTotal * 100.0).Floor, ((max - to) as real / rangeTotal * 100.0).Floor)
  }

  lemma DivideNonNegative(p: real, q: real, r: real)
    requires 0.0 <= p <= q && r > 0.0
    ensures 0.0 <= p / r * 100.0 <= q / r * 100.0
  {
  }

  lemma DivideSum(p: real, q: real, r: real)
    requires r > 0.0
    ensures p / r * 100.0 + q / r * 100.0 == (p + q) / r * 100.0
  {
  }

  /** For a selection inside the range, both offsets are between 0 and 100 and together at
      most 100, and an end of the range puts its thumb at the end of the track. */
  lemma UpdateOffsetsInRange(min: int, max: int, from: int, to: int)
    requires min < max && min <= from <= to <= max
    ensures var (left, right) := UpdateOffsets(min, max, from, to);
      0 <= left && 0 <= right && left + right <= 100
    ensures from == min ==> UpdateOffsets(min, max, from, to).0 == 0
    ensures to == max ==> UpdateOffsets(min, max, from, to).1 == 0
  {
    var r := (max - min) as real;
    var p, q := (from - min) as real, (max - to) as real;
    DivideNonNegative(p, r, r);
    DivideNonNegative(q, r, r);
    DivideSum(p, q, r);
    DivideNonNegative(p + q, r, r);
    assert r / r * 100.0 == 100.0;
  }

  /** `getValue()`: the values the thumb offsets stand for, rounded to integers. */
  function GetValue(min: int, max: int, left: real, right: real): (value: (int, int)) {
    (FromValue(min, left, (max - min) as real), ToValue(max, right, (max - min) as real))
  }

  /** The value `left` percent of `rangeTotal` above `min`. */
  function FromValue(min: int, left: real, rangeTotal: real): int {
    Round(min as real + left * 0.01 * rangeTotal)
  }

  /** The value `right` percent of `rangeTotal` below `max`. */
  function ToValue(max: int, right: real, rangeTotal: real): int {
    Round(max as real - right * 0.01 * rangeTotal)
  }

  /** A thumb at the end of the track stands for the end of the range. */
  lemma GetValueEnds(min: int, max: int, left: real, right: real)
    ensures left == 0.0 ==> GetValue(min, max, left, right).0 == min
    ensures right == 0.0 ==> GetValue(min, max, left, right).1 == max
  {
  }

  lemma ScaleMonotone(x: real, y: real, c: real)
    requires x <= y && c >= 0.0
    ensures x * c <= y * c
  {
  }

  /** While the offsets do not overlap, the reported `from` is never above `to`. */
  lemma GetValueOrdered(min: int, max: int, left: real, right: real)
    requires min < max && left + right <= 100.0
    ensures GetValue(min, max, left, right).0 <= GetValue(min, max, left, right).1
  {
    var r := (max - min) as real;
    ScaleMonotone((left + right) * 0.01, 1.0, r);
    assert min as real + left * 0.01 * r <= max as real - right * 0.01 * r;
    RoundMonotone(min as real + left * 0.01 * r, max as real - right * 0.01 * r);
  }

  /** In exact arithmetic, with a range of exactly 100 every percent is one unit, so the
      values read back from the offsets are the selection itself. Offsets in the program are
      floating-point numbers, for which this does not hold. */
  lemma HundredRangeExact(min: int, from: int, to: int)
    ensures var (left, right) := UpdateOffsets(min, min + 100, from, to);
      GetValue(min, min + 100, left as real, right as real) == (from, to)
  {
    WholePercent(from - min);
    WholePercent(min + 100 - to);
    assert FromValue(min, (from - min) as real, 100.0) == from;
    assert ToValue(min + 100, (min + 100 - to) as real, 100.0) == to;
  }

  lemma WholePercent(k: int)
    ensures (k as real / 100.0 * 100.0).Floor == k
    ensures k as real * 0.01 * 100.0 == k as real
  {
    assert k as real / 100.0 * 100.0 == k as real;
  }

  /** One offset read back: `offset` is `part` (a distance inside the range `r`) in whole
      percent of `r`, rounded down, so the distance it gives back is at most `part` and less
      than one percent of the range below it. */
  lemma ReadBack(part: real, r: real, offset: int)
    requires r > 0.0 && offset == (part / r * 100.0).Floor
    ensures offset as real * 0.01 * r <= part
    ensures part - r / 100.0 < offset as real * 0.01 * r
  {
    var share := part / r * 100.0;
    assert share * 0.01 * r == part;
    assert offset as real * 0.01 <= share * 0.01;
    ScaleMonotone(offset as real * 0.01, share * 0.01, r);
    assert offset as real * 0.01 * r <= part;
    var d := offset as real - (share - 1.0);
    assert d > 0.0;
    assert d * 0.01 * r > 0.0;
    assert offset as real == d + share - 1.0;
    assert (d + share - 1.0) * 0.01 * r == d * 0.01 * r + share * 0.01 * r - 0.01 * r;
    assert 0.01 * r == r / 100.0;
    assert offset as real * 0.01 * r == (d + share - 1.0) * 0.01 * r;
    assert offset as real * 0.01 * r == d * 0.01 * r + part - r / 100.0;
  }

  /** The `from` value read back from its whole-percent offset. */
  lemma FromReadBack(min: int, from: int, r: real, left: int)
    requires r > 0.0 && left == ((from - min) as real / r * 100.0).Floor
    ensures FromValue(min, left as real, r) <= from
    ensures from as real - (r / 100.0 + 0.5) < FromValue(min, left as real, r) as real
  {
    ReadBack((from - min) as real, r, left);
    RoundMonotone(min as real + left as real * 0.01 * r, from as real);
  }

  /** The `to` value read back from its whole-percent offset. */
  lemma ToReadBack(max: int, to: int, r: real, right: int)
    requires r > 0.0 && right == ((max - to) as real / r * 100.0).Floor
    ensures to <= ToValue(max, right as real, r)
    ensures (ToValue(max, right as real, r) as real) < to as real + (r / 100.0 + 0.5)
  {
    ReadBack((max - to) as real, r, right);
    RoundMonotone(to as real, max as real - right as real * 0.01 * r);
  }

  /** Reading a selection back through the whole-percent offsets loses less than one percent
      of the range (and half a unit to rounding), towards the inside of the selection. */
  lemma UpdateThenGetValue(min: int, max: int, from: int, to: int)
    requires min < max
    ensures var (left, right) := UpdateOffsets(min, max, from, to);
      var (f, t) := GetValue(min, max, left as real, right as real);
      var slack := (max - min) as real / 100.0 + 0.5;
      f <= from && from as real - slack < f as real &&
      to <= t && t as real < to as real + slack
  {
    var r := (max - min) as real;
    var (left, right) := UpdateOffsets(min, max, from, to);
    FromReadBack(min, from, r, left);
    ToReadBack(max, to, r, right);
  }

  /** The new offset of a dragged thumb, from the pointer's position as a share of the track
      (`raw`) and the other thumb's offset: a negative share is raised to 0, the share is
      turned into percent, and an offset that would overlap the other thumb is cut back so
      that the two add up to 100. */
  function ClampOffset(raw: real, other: real): (offset: real)
    ensures offset + other <= 100.0
    ensures other <= 100.0 ==> 0.0 <= offset
    ensures offset <= (if raw < 0.0 then 0.0 else raw) * 100.0
    ensures 0.0 <= raw && raw * 100.0 + other <= 100.0 ==> offset == raw * 100.0
    ensures offset < (if raw < 0.0 then 0.0 else raw) * 100.0 ==> offset == 100.0 - other
  {
    var offset := (if raw < 0.0 then 0.0 else raw) * 100.0;
    if offset + other > 100.0 then 100.0 - other else offset
  }

  datatype Thumb = LeftThumb | RightThumb

  /** The options object of the constructor; every entry may be absent. */
  datatype Options = Options(min: Option<int>, max: Option<int>, formatValue: Option<int -> string>,
    selected: Option<(int, int)>)

  /** The default `formatValue`: a dollar sign before the number. */
  function Dollars(value: int): string {
    "$" + IntToString(value)
  }

  class DoubleSlider {
    const min: int
    const max: int
    const formatValue: int -> string
    var selected: (int, int)
    /** `thumbLeft.style.left` and `thumbRight.style.right`, in percent. */
    var thumbLeft: real
    var thumbRight: real
    /** `progress.style.left` and `progress.style.right`, in percent. */
    var progressLeft: real
    var progressRight: real
    /** The contents of the `from` and `to` labels. */
    var fromLabel: string
    var toLabel: string
    var dragging: Option<Thumb>
    var shiftX: real
    /** Whether the element has the `range-slider_dragging` class. */
    var draggingClass: bool
    /** Whether the pointer-move and pointer-up listeners are attached. */
    var listening: bool
    /** The details of the `range-select` events dispatched so far. */
    var events: seq<(int, int)>
    /** Whether the element is in the page; the caller inserts it. */
    var attached: bool

    /** The progress bar always has the thumbs' offsets, and the listeners are only attached
        once a thumb has been grabbed. */
    ghost predicate Valid()
      reads this
    {
      min != max && progressLeft == thumbLeft && progressRight == thumbRight &&
      (listening ==> dragging.Some?)
    }

    /** The thumbs are on the track and do not overlap. */
    ghost predicate OnTrack()
      reads this
    {
      0.0 <= thumbLeft && 0.0 <= thumbRight && thumbLeft + thumbRight <= 100.0
    }

    /** The constructor and `render`: the defaults are resolved (the selection defaults to
        the whole range), the labels show the selection and `update` places the thumbs. A
        range of zero width divides by zero and is not modelled. */
    constructor(options: Options)
      requires OrElse(options.min, 100) != OrElse(options.max, 200)
      ensures Valid() && dragging.None? && !listening && !draggingClass && events == [] && !attached
      ensures min == OrElse(options.min, 100) && max == OrElse(options.max, 200)
      ensures formatValue == OrElse(options.formatValue, Dollars)
      ensures selected == OrElse(options.selected, (min, max))
      ensures fromLabel == formatValue(selected.0) && toLabel == formatValue(selected.1)
      ensures (thumbLeft, thumbRight) == (UpdateOffsets(min, max, selected.0, selected.1).0 as real,
        UpdateOffsets(min, max, selected.0, selected.1).1 as real)
      ensures min < max && min <= selected.0 <= selected.1 <= max ==> OnTrack()
    {
      var lo := OrElse(options.min, 100);
      var hi := OrElse(options.max, 200);
      min, max := lo, hi;
      formatValue := OrElse(options.formatValue, Dollars);
      selected := OrElse(options.selected, (lo, hi));
      fromLabel := OrElse(options.formatValue, Dollars)(OrElse(options.selected, (lo, hi)).0);
      toLabel := OrElse(options.formatValue, Dollars)(OrElse(options.selected, (lo, hi)).1);
      var (left, right) := UpdateOffsets(lo, hi, OrElse(options.selected, (lo, hi)).0, OrElse(options.selected, (lo, hi)).1);
      thumbLeft, progressLeft := left as real, left as real;
      thumbRight, progressRight := right as real, right as real;
      dragging, shiftX, draggingClass, listening, events := None, 0.0, false, false, [];
      attached := false;
      if lo < hi && lo <= OrElse(options.selected, (lo, hi)).0 <= OrElse(options.selected, (lo, hi)).1 <= hi {
        UpdateOffsetsInRange(lo, hi, OrElse(options.selected, (lo, hi)).0, OrElse(options.selected, (lo, hi)).1);
      }
    }

    /** `update()`: the thumbs and the progress bar get the whole-percent offsets of the
        selection. */
    method Update()
      requires Valid()
      modifies this
      ensures Valid() && (thumbLeft, thumbRight) == (UpdateOffsets(min, max, selected.0, selected.1).0 as real,
        UpdateOffsets(min, max, selected.0, selected.1).1 as real)
      ensures min < max && min <= selected.0 <= selected.1 <= max ==> OnTrack()
      ensures selected == old(selected) && fromLabel == old(fromLabel) && toLabel == old(toLabel)
      ensures dragging == old(dragging) && listening == old(listening) && events == old(events)
      ensures shiftX == old(shiftX) && draggingClass == old(draggingClass) && attached == old(attached)
    {
      var (left, right) := UpdateOffsets(min, max, selected.0, selected.1);
      progressLeft, progressRight := left as real, right as real;
      thumbLeft, thumbRight := left as real, right as real;
      if min < max && min <= selected.0 <= selected.1 <= max {
        UpdateOffsetsInRange(min, max, selected.0, selected.1);
      }
    }

    /** `thumbPointerDownHandler`, given the grabbed thumb and the pointer's distance to the
        thumb's inner edge. */
    method PointerDown(thumb: Thumb, shift: real)
      requires Valid()
      modifies this
      ensures Valid() && dragging == Some(thumb) && shiftX == shift && draggingClass && listening
      ensures thumbLeft == old(thumbLeft) && thumbRight == old(thumbRight) && OnTrack() == old(OnTrack())
      ensures fromLabel == old(fromLabel) && toLabel == old(toLabel) && events == old(events)
      ensures selected == old(selected) && attached == old(attached)
    {
      shiftX := shift;
      dragging := Some(thumb);
      draggingClass := true;
      listening := true;
    }

    /** `pointerMoveHandler`, given the pointer's x and the track's left, right and width. The
        dragged thumb follows the pointer within the track, never past the other thumb; the
        progress bar follows it, and its label shows the new value. The other thumb stays. */
    method PointerMove(clientX: real, innerLeft: real, innerRight: real, width: real)
      requires Valid() && listening && width > 0.0
      modifies this
      ensures Valid() && listening && dragging == old(dragging) && events == old(events)
      ensures dragging == Some(LeftThumb) ==>
        thumbLeft == ClampOffset((clientX - innerLeft + shiftX) / width, old(thumbRight)) &&
        thumbRight == old(thumbRight) && toLabel == old(toLabel) &&
        fromLabel == formatValue(GetValue(min, max, thumbLeft, thumbRight).0)
      ensures dragging == Some(RightThumb) ==>
        thumbRight == ClampOffset((innerRight - clientX - shiftX) / width, old(thumbLeft)) &&
        thumbLeft == old(thumbLeft) && fromLabel == old(fromLabel) &&
        toLabel == formatValue(GetValue(min, max, thumbLeft, thumbRight).1)
      ensures old(OnTrack()) ==> OnTrack()
      ensures selected == old(selected) && shiftX == old(shiftX) && draggingClass == old(draggingClass)
      ensures attached == old(attached)
      ensures dragging.None? ==>
        thumbLeft == old(thumbLeft) && thumbRight == old(thumbRight) &&
        fromLabel == old(fromLabel) && toLabel == old(toLabel)
    {
      if dragging == Some(LeftThumb) {
        var newLeft := (clientX - innerLeft + shiftX) / width;
        if newLeft < 0.0 {
          newLeft := 0.0;
        }
        newLeft := newLeft * 100.0;
        var right := thumbRight;
        if newLeft + right > 100.0 {
          newLeft := 100.0 - right;
        }
        thumbLeft, progressLeft := newLeft, newLeft;
        fromLabel := formatValue(GetValue(min, max, thumbLeft, thumbRight).0);
      }
      if dragging == Some(RightThumb) {
        var newRight := (innerRight - clientX - shiftX) / width;
        if newRight < 0.0 {
          newRight := 0.0;
        }
        newRight := newRight * 100.0;
        var left := thumbLeft;
        if left + newRight > 100.0 {
          newRight := 100.0 - left;
        }
        thumbRight, progressRight := newRight, newRight;
        toLabel := formatValue(GetValue(min, max, thumbLeft, thumbRight).1);
      }
    }

    /** `pointerUpHandler`: the dragging class and the listeners are removed and a
        `range-select` event carries the current values. The grabbed thumb stays recorded. */
    method PointerUp()
      requires Valid() && listening
      modifies this
      ensures Valid() && !listening && !draggingClass && dragging == old(dragging)
      ensures events == old(events) + [GetValue(min, max, thumbLeft, thumbRight)]
      ensures thumbLeft == old(thumbLeft) && thumbRight == old(thumbRight)
      ensures fromLabel == old(fromLabel) && toLabel == old(toLabel)
      ensures OnTrack() && min < max ==> events[|events| - 1].0 <= events[|events| - 1].1
      ensures selected == old(selected) && shiftX == old(shiftX) && attached == old(attached)
    {
      draggingClass := false;
      listening := false;
      events := events + [GetValue(min, max, thumbLeft, thumbRight)];
      if OnTrack() && min < max {
        GetValueOrdered(min, max, thumbLeft, thumbRight);
      }
    }

    /** `remove()`: the element leaves the page. */
    method Remove()
      requires Valid()
      modifies this
      ensures Valid() && !attached && listening == old(listening) && events == old(events)
      ensures thumbLeft == old(thumbLeft) && thumbRight == old(thumbRight)
      ensures fromLabel == old(fromLabel) && toLabel == old(toLabel) && selected == old(selected)
      ensures dragging == old(dragging) && draggingClass == old(draggingClass) && shiftX == old(shiftX)
    {
      attached := false;
    }

    /** `destroy()` as written: it removes the element, but unregisters the document
        listeners under names the slider never registered, so a drag in progress keeps its
        pointer-move and pointer-up listeners. */
    method DestroyAsWritten()
      requires Valid()
      modifies this
      ensures Valid() && !attached && listening == old(listening) && events == old(events)
      ensures thumbLeft == old(thumbLeft) && thumbRight == old(thumbRight)
      ensures fromLabel == old(fromLabel) && toLabel == old(toLabel) && selected == old(selected)
      ensures dragging == old(dragging) && draggingClass == old(draggingClass) && shiftX == old(shiftX)
    {
      Remove();
    }

    /** `destroy()` as intended: the element is removed and the listeners are gone. */
    method Destroy()
      requires Valid()
      modifies this
      ensures Valid() && !attached && !listening && events == old(events)
      ensures thumbLeft == old(thumbLeft) && thumbRight == old(thumbRight)
      ensures fromLabel == old(fromLabel) && toLabel == old(toLabel) && selected == old(selected)
      ensures dragging == old(dragging) && draggingClass == old(draggingClass) && shiftX == old(shiftX)
    {
      Remove();
      listening := false;
    }
  }

  /** A slider destroyed in the middle of a drag still listens to the document's pointer
      moves and pointer-ups. */
  method DestroyAsWrittenKeepsListening() returns (slider: DoubleSlider)
    ensures slider.listening && !slider.attached
  {
    slider := new DoubleSlider(Options(None, None, None, None));
    slider.PointerDown(LeftThumb, 0.0);
    slider.DestroyAsWritten();
  }

  /** With the intended `destroy`, the same drag leaves no listener behind. */
  method DestroyStopsListening() returns (slider: DoubleSlider)
    ensures !slider.listening && !slider.attached
  {
    slider := new DoubleSlider(Options(None, None, None, None));
    slider.PointerDown(LeftThumb, 0.0);
    slider.Destroy();
  }
}
