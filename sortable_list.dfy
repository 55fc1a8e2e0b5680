/** The sortable list: a `<ul>` of items, each of which can be deleted by its delete handle
    or dragged by its grab handle. While an item is dragged it sits at the front of the list
    (absolutely positioned under the pointer) and a placeholder marks the slot it will drop
    into; the placeholder steps up or down past its neighbours as the pointer moves, and the
    drop puts the item into the placeholder's slot. The children of the list are a sequence of
    nodes; the geometry that decides each step is given as booleans. */
module SortableList {
  import opened Common

  /** A child of the list: the item rendered for the `id`-th entry of `items`, or the
      placeholder. */
  datatype Node = Item(id: nat) | Placeholder

  /** DOM nodes are distinct: a node is in at most one place. */
  predicate Distinct(s: seq<Node>) {
    forall i, j :: 0 <= i < j < |s| ==> s[i] != s[j]
  }

  /** The position of `x` among the children. */
  function IndexOf(s: seq<Node>, x: Node): (k: Option<nat>)
    ensures k.Some? ==> k.value < |s| && s[k.value] == x
    ensures k.Some? ==> forall j :: 0 <= j < k.value ==> s[j] != x
    ensures k.None? <==> x !in s
  {
    if s == [] then None
    else if s[0] == x then Some(0)
    else match IndexOf(s[1..], x)
      case Some(k) => Some(k + 1)
      case None => None
  }

  /** `x.remove()`: `x` leaves the list; a node that is not in it stays out. */
  function Detach(s: seq<Node>, x: Node): (r: seq<Node>)
    ensures x in s ==> |r| == |s| - 1
    ensures x !in s ==> r == s
  {
    match IndexOf(s, x)
    case Some(i) => s[..i] + s[i + 1..]
    case None => s
  }

  /** `anchor.before(x)` for a node `x` not in the list. */
  function InsertBefore(s: seq<Node>, x: Node, anchor: Node): (r: seq<Node>)
    requires anchor in s
    ensures |r| == |s| + 1
  {
    var i := IndexOf(s, anchor).value;
    s[..i] + [x] + s[i..]
  }

  /** `anchor.after(x)` for a node `x` not in the list. */
  function InsertAfter(s: seq<Node>, x: Node, anchor: Node): (r: seq<Node>)
    requires anchor in s
    ensures |r| == |s| + 1
  {
    var i := IndexOf(s, anchor).value;
    s[..i + 1] + [x] + s[i + 1..]
  }

  /** The ids of the items among the children, in document order. */
  function Items(s: seq<Node>): (ids: seq<nat>)
    ensures |ids| <= |s|
  {
    if s == [] then []
    else (if s[0].Item? then [s[0].id] else []) + Items(s[1..])
  }

  lemma {:induction false} ItemsAppend(a: seq<Node>, b: seq<Node>)
    ensures Items(a + b) == Items(a) + Items(b)
    decreases |a|
  {
    if a == [] {
      assert a + b == b;
    } else {
      var head := if a[0].Item? then [a[0].id] else [];
      assert (a + b)[0] == a[0];
      assert (a + b)[1..] == a[1..] + b;
      assert Items(a + b) == head + Items(a[1..] + b);
      ItemsAppend(a[1..], b);
      assert Items(a) == head + Items(a[1..]);
    }
  }

  /** The list `getList` renders: one item per entry, in the order of the entries. */
  function Rendered(n: nat): (s: seq<Node>)
    ensures |s| == n && Distinct(s)
    ensures forall i :: 0 <= i < n ==> s[i] == Item(i)
  {
    seq(n, i requires 0 <= i < n => Item(i))
  }

  /** The rendered items are the entries' ids in order. */
  lemma {:induction false} RenderedItems(n: nat)
    ensures Items(Rendered(n)) == seq(n, i requires 0 <= i < n => i)
    decreases n
  {
    if n > 0 {
      RenderedItems(n - 1);
      assert Rendered(n) == Rendered(n - 1) + [Item(n - 1)];
      ItemsAppend(Rendered(n - 1), [Item(n - 1)]);
      assert Items([Item(n - 1)]) == [n - 1];
    }
  }

  /** The children once a drag of the item at `t` has started: the item first, the
      placeholder in its former slot, everything else in place. */
  function StartDrag(s: seq<Node>, t: nat): (r: seq<Node>)
    requires t < |s|
    ensures |r| == |s| + 1 && r[0] == s[t] && r[t + 1] == Placeholder
  {
    [s[t]] + s[..t] + [Placeholder] + s[t + 1..]
  }

  /** The placeholder at `p` steps up past its previous sibling. */
  function StepUp(s: seq<Node>, p: nat): (r: seq<Node>)
    requires 0 < p < |s|
    ensures |r| == |s| && r[p - 1] == s[p] && r[p] == s[p - 1]
  {
    s[..p - 1] + [s[p], s[p - 1]] + s[p + 1..]
  }

  /** The placeholder at `p` steps down past its next sibling. */
  function StepDown(s: seq<Node>, p: nat): (r: seq<Node>)
    requires p + 1 < |s|
    ensures |r| == |s| && r[p] == s[p + 1] && r[p + 1] == s[p]
  {
    s[..p] + [s[p + 1], s[p]] + s[p + 2..]
  }

  /** The drop: the item at `k` takes the slot of the placeholder at `p`. */
  function Dropped(s: seq<Node>, k: nat, p: nat): (r: seq<Node>)
    requires k < |s| && p < |s| && k != p
    ensures |r| == |s| - 1
  {
    if k < p then s[..k] + s[k + 1..p] + [s[k]] + s[p + 1..]
    else s[..p] + [s[k]] + s[p + 1..k] + s[k + 1..]
  }

  /** Ending a drag at once puts the list back as it was. */
  lemma DropAfterStart(s: seq<Node>, t: nat)
    requires t < |s|
    ensures Dropped(StartDrag(s, t), 0, t + 1) == s
  {
    var r := StartDrag(s, t);
    assert r[1..t + 1] == s[..t];
    assert r[t + 2..] == s[t + 1..];
  }

  lemma ItemsOne(x: Node)
    ensures Items([x]) == if x.Item? then [x.id] else []
  {
    assert [x][1..] == [];
  }

  lemma ItemsSkipPlaceholder(r: seq<Node>)
    ensures Items([Placeholder] + r) == Items(r)
  {
    assert ([Placeholder] + r)[1..] == r;
  }

  lemma ItemsThree(a: seq<Node>, b: seq<Node>, c: seq<Node>)
    ensures Items(a + b + c) == Items(a) + Items(b) + Items(c)
  {
    ItemsAppend(a + b, c);
    ItemsAppend(a, b);
  }

  /** Starting a drag keeps every item, with the dragged one moved to the front. */
  lemma StartDragItems(s: seq<Node>, t: nat)
    requires t < |s| && s[t].Item?
    ensures Items(StartDrag(s, t)) == [s[t].id] + Items(s[..t]) + Items(s[t + 1..])
    ensures multiset(StartDrag(s, t)) == multiset(s) + multiset{Placeholder}
  {
    var x, a, b := s[t], s[..t], s[t + 1..];
    assert s == a + [x] + b;
    assert StartDrag(s, t) == [x] + a + ([Placeholder] + b);
    ItemsOne(x);
    ItemsOne(Placeholder);
    ItemsAppend([Placeholder], b);
    ItemsThree([x], a, [Placeholder] + b);
    ItemsThree(a, [x], b);
    var ia, ib := Items(a), Items(b);
    assert Items([Placeholder] + b) == ib;
    assert Items(StartDrag(s, t)) == [x.id] + ia + ib;
    assert multiset(StartDrag(s, t)) == multiset([x] + a + [Placeholder] + b);
  }

  /** Removing the node at `t` keeps the other items in their order. */
  lemma RemoveItems(s: seq<Node>, t: nat)
    requires t < |s| && s[t].Item?
    ensures Items(s[..t] + s[t + 1..]) == Items(s[..t]) + Items(s[t + 1..])
    ensures Items(s) == Items(s[..t]) + [s[t].id] + Items(s[t + 1..])
  {
    var x, a, b := s[t], s[..t], s[t + 1..];
    assert s == a + [x] + b;
    ItemsAppend(a, b);
    ItemsOne(x);
    ItemsThree(a, [x], b);
  }

  /** Swapping the placeholder with a neighbour leaves the items exactly as they were. */
  lemma ItemsCons(x: Node, rest: seq<Node>)
    ensures Items([x] + rest) == (if x.Item? then [x.id] else []) + Items(rest)
  {
    assert ([x] + rest)[1..] == rest;
  }

  lemma {:induction false} SwapPlaceholderItems(s: seq<Node>, p: nat)
    requires p + 1 < |s| && (s[p] == Placeholder || s[p + 1] == Placeholder)
    ensures Items(s[..p] + [s[p + 1], s[p]] + s[p + 2..]) == Items(s)
    decreases p
  {
    var r := s[..p] + [s[p + 1], s[p]] + s[p + 2..];
    if p == 0 {
      var x, y, b := s[0], s[1], s[2..];
      assert r == [y] + ([x] + b);
      assert s == [x] + ([y] + b);
      ItemsCons(y, [x] + b);
      ItemsCons(x, b);
      ItemsCons(x, [y] + b);
      ItemsCons(y, b);
    } else {
      var t := s[1..];
      SwapPlaceholderItems(t, p - 1);
      var rt := t[..p - 1] + [t[p], t[p - 1]] + t[p + 1..];
      assert r == [s[0]] + rt;
      assert s == [s[0]] + t;
      ItemsCons(s[0], rt);
      ItemsCons(s[0], t);
    }
  }

  /** A swap of neighbours keeps the nodes. */
  lemma SwapNodes(s: seq<Node>, p: nat)
    requires p + 1 < |s|
    ensures multiset(s[..p] + [s[p + 1], s[p]] + s[p + 2..]) == multiset(s)
  {
    var a, x, y, b := s[..p], s[p], s[p + 1], s[p + 2..];
    assert s == a + [x, y] + b;
    assert multiset([x, y]) == multiset([y, x]);
  }

  /** The nodes of a list cut into five pieces. */
  lemma MultisetFive(a: seq<Node>, x: Node, b: seq<Node>, y: Node, c: seq<Node>)
    ensures multiset(a + [x] + b + [y] + c) == multiset(a) + multiset(b) + multiset(c) + multiset{x, y}
  {
  }

  /** The drop keeps every node but the placeholder. */
  lemma DroppedNodes(s: seq<Node>, k: nat, p: nat)
    requires k < |s| && p < |s| && k != p
    ensures multiset(Dropped(s, k, p)) == multiset(s) - multiset{s[p]}
  {
    if k < p {
      DroppedForwardNodes(s, k, p);
    } else {
      DroppedBackwardNodes(s, k, p);
    }
  }

  lemma DroppedForwardNodes(s: seq<Node>, k: nat, p: nat)
    requires k < p < |s|
    ensures multiset(Dropped(s, k, p)) == multiset(s) - multiset{s[p]}
  {
    var a, x, b, y, c := s[..k], s[k], s[k + 1..p], s[p], s[p + 1..];
    assert s[..p] == a + [x] + b;
    assert s == s[..p] + [y] + c;
    MultisetFive(a, x, b, y, c);
    MultisetFive(a, x, b, x, c);
    assert Dropped(s, k, p) == a + b + [x] + c;
    assert multiset(a + b + [x] + c) == multiset(a) + multiset(b) + multiset(c) + multiset{x};
  }

  lemma DroppedBackwardNodes(s: seq<Node>, k: nat, p: nat)
    requires p < k < |s|
    ensures multiset(Dropped(s, k, p)) == multiset(s) - multiset{s[p]}
  {
    var a, y, b, x, c := s[..p], s[p], s[p + 1..k], s[k], s[k + 1..];
    assert s[..k] == a + [y] + b;
    assert s == s[..k] + [x] + c;
    MultisetFive(a, y, b, x, c);
    assert Dropped(s, k, p) == a + [x] + b + c;
    assert multiset(a + [x] + b + c) == multiset(a) + multiset(b) + multiset(c) + multiset{x};
  }

  lemma IndexOfDistinct(s: seq<Node>, i: nat)
    requires Distinct(s) && i < |s|
    ensures IndexOf(s, s[i]) == Some(i)
  {
  }

  /** Removing the node at `i` of a list of distinct nodes. */
  lemma DetachAt(s: seq<Node>, i: nat)
    requires Distinct(s) && i < |s|
    ensures Detach(s, s[i]) == s[..i] + s[i + 1..]
    ensures Distinct(s[..i] + s[i + 1..]) && s[i] !in s[..i] + s[i + 1..]
  {
    IndexOfDistinct(s, i);
    var r := s[..i] + s[i + 1..];
    forall a, b | 0 <= a < b < |r| ensures r[a] != r[b] {
      var a', b' := if a < i then a else a + 1, if b < i then b else b + 1;
      assert r[a] == s[a'] && r[b] == s[b'];
    }
    forall j | 0 <= j < |r| ensures r[j] != s[i] {
      assert r[j] == s[if j < i then j else j + 1];
    }
  }

  lemma DistinctInsert(s: seq<Node>, i: nat, x: Node)
    requires Distinct(s) && i <= |s| && x !in s
    ensures Distinct(s[..i] + [x] + s[i..])
  {
    var r := s[..i] + [x] + s[i..];
    forall a, b | 0 <= a < b < |r| ensures r[a] != r[b] {
      if a != i && b != i {
        var a', b' := if a < i then a else a - 1, if b < i then b else b - 1;
        assert r[a] == s[a'] && r[b] == s[b'];
      } else if a == i {
        assert r[b] == s[b - 1];
      } else {
        assert r[a] == s[a];
      }
    }
  }

  /** Inserting a new node after the node at `i`. */
  lemma InsertAfterAt(s: seq<Node>, i: nat, x: Node)
    requires Distinct(s) && i < |s| && x !in s
    ensures InsertAfter(s, x, s[i]) == s[..i + 1] + [x] + s[i + 1..]
    ensures Distinct(s[..i + 1] + [x] + s[i + 1..])
  {
    IndexOfDistinct(s, i);
    DistinctInsert(s, i + 1, x);
  }

  /** Inserting a new node before the node at `i`. */
  lemma InsertBeforeAt(s: seq<Node>, i: nat, x: Node)
    requires Distinct(s) && i < |s| && x !in s
    ensures InsertBefore(s, x, s[i]) == s[..i] + [x] + s[i..]
    ensures Distinct(s[..i] + [x] + s[i..])
  {
    IndexOfDistinct(s, i);
    DistinctInsert(s, i, x);
  }

  /** The calls of a drag start, `item.after(placeholder)` and then `list.prepend(item)`,
      amount to `StartDrag`. */
  lemma StartDragSteps(s: seq<Node>, t: nat)
    requires Distinct(s) && t < |s| && Placeholder !in s
    ensures var r := InsertAfter(s, Placeholder, s[t]);
      Distinct(r) && s[t] in r && [s[t]] + Detach(r, s[t]) == StartDrag(s, t)
    ensures Distinct(StartDrag(s, t))
  {
    var r := s[..t + 1] + [Placeholder] + s[t + 1..];
    assert InsertAfter(s, Placeholder, s[t]) == r && Distinct(r) by {
      InsertAfterAt(s, t, Placeholder);
    }
    assert r[t] == s[t];
    var d := r[..t] + r[t + 1..];
    assert Detach(r, s[t]) == d && Distinct(d) && s[t] !in d by {
      DetachAt(r, t);
    }
    assert d == s[..t] + [Placeholder] + s[t + 1..];
    assert Distinct([s[t]] + d) by {
      DistinctInsert(d, 0, s[t]);
      assert [s[t]] + d == d[..0] + [s[t]] + d[0..];
    }
  }

  /** `previous.before(placeholder)` with the placeholder at `p` is one step up. */
  lemma StepUpSteps(s: seq<Node>, p: nat)
    requires Distinct(s) && 0 < p < |s| && s[p] == Placeholder
    ensures var d := Detach(s, Placeholder);
      s[p - 1] in d && InsertBefore(d, Placeholder, s[p - 1]) == StepUp(s, p) && Distinct(StepUp(s, p))
  {
    DetachAt(s, p);
    var d := s[..p] + s[p + 1..];
    assert d[p - 1] == s[p - 1];
    InsertBeforeAt(d, p - 1, Placeholder);
    assert d[..p - 1] + [Placeholder] + d[p - 1..] == StepUp(s, p);
  }

  /** `next.after(placeholder)` with the placeholder at `p` is one step down. */
  lemma StepDownSteps(s: seq<Node>, p: nat)
    requires Distinct(s) && p + 1 < |s| && s[p] == Placeholder
    ensures var d := Detach(s, Placeholder);
      s[p + 1] in d && InsertAfter(d, Placeholder, s[p + 1]) == StepDown(s, p) && Distinct(StepDown(s, p))
  {
    DetachAt(s, p);
    var d := s[..p] + s[p + 1..];
    assert d[p] == s[p + 1];
    InsertAfterAt(d, p, Placeholder);
    assert d[..p + 1] == s[..p] + [s[p + 1]];
    assert d[p + 1..] == s[p + 2..];
    assert d[..p + 1] + [Placeholder] + d[p + 1..] == StepDown(s, p);
  }

  /** Where the placeholder is once the dragged item has left the list. */
  lemma DroppedSplice(s: seq<Node>, k: nat, p: nat)
    requires k < |s| && p < |s| && k != p
    ensures var d := s[..k] + s[k + 1..];
      var q := if k < p then p - 1 else p;
      q < |d| && d[q] == s[p] && d[..q] + [s[k]] + d[q + 1..] == Dropped(s, k, p)
  {
    var d := s[..k] + s[k + 1..];
    if k < p {
      assert d[..p - 1] == s[..k] + s[k + 1..p];
      assert d[p..] == s[p + 1..];
    } else {
      assert d[..p] == s[..p];
      assert d[p + 1..] == s[p + 1..k] + s[k + 1..];
    }
  }

  /** `placeholder.after(x)` and then `placeholder.remove()`: `x` takes the placeholder's
      slot. */
  lemma ReplacePlaceholder(d: seq<Node>, q: nat, x: Node)
    requires Distinct(d) && q < |d| && d[q] == Placeholder && x !in d
    ensures Distinct(InsertAfter(d, x, Placeholder))
    ensures Detach(InsertAfter(d, x, Placeholder), Placeholder) == d[..q] + [x] + d[q + 1..]
    ensures Distinct(d[..q] + [x] + d[q + 1..])
  {
    InsertAfterAt(d, q, x);
    var r := d[..q + 1] + [x] + d[q + 1..];
    assert r[q] == Placeholder;
    DetachAt(r, q);
    assert r[..q] + r[q + 1..] == d[..q] + [x] + d[q + 1..];
  }

  /** `placeholder.after(item)` and `placeholder.remove()` amount to `Dropped`. */
  lemma DropSteps(s: seq<Node>, k: nat, p: nat)
    requires Distinct(s) && k < |s| && p < |s| && s[p] == Placeholder && s[k].Item?
    ensures Placeholder in Detach(s, s[k]) && s[k] !in Detach(s, s[k])
    ensures Distinct(InsertAfter(Detach(s, s[k]), s[k], Placeholder))
    ensures Detach(InsertAfter(Detach(s, s[k]), s[k], Placeholder), Placeholder) == Dropped(s, k, p)
    ensures Distinct(Dropped(s, k, p))
  {
    DetachAt(s, k);
    DroppedSplice(s, k, p);
    var d := s[..k] + s[k + 1..];
    var q := if k < p then p - 1 else p;
    ReplacePlaceholder(d, q, s[k]);
  }

  /** Where the placeholder at `p` ends up when the pointer is close to the previous
      sibling (`up`) and/or to the next sibling (`down`): a step down wins over a step up,
      and a step towards a missing sibling does not happen. */
  function MovedPlaceholder(s: seq<Node>, p: nat, up: bool, down: bool): (r: seq<Node>)
    requires p < |s|
    ensures |r| == |s|
  {
    if down && p + 1 < |s| then StepDown(s, p)
    else if up && p > 0 then StepUp(s, p)
    else s
  }

  /** Moving the placeholder changes neither the items nor their order. */
  lemma MovedPlaceholderKeeps(s: seq<Node>, p: nat, up: bool, down: bool)
    requires Distinct(s) && p < |s| && s[p] == Placeholder
    ensures Items(MovedPlaceholder(s, p, up, down)) == Items(s)
    ensures multiset(MovedPlaceholder(s, p, up, down)) == multiset(s)
    ensures Distinct(MovedPlaceholder(s, p, up, down))
  {
    if down && p + 1 < |s| {
      StepDownSteps(s, p);
      SwapPlaceholderItems(s, p);
      SwapNodes(s, p);
    } else if up && p > 0 {
      StepUpSteps(s, p);
      SwapPlaceholderItems(s, p - 1);
      SwapNodes(s, p - 1);
    }
  }

  lemma SameNodesIn(s: seq<Node>, r: seq<Node>, x: Node)
    requires multiset(s) == multiset(r) && x in s
    ensures x in r
  {
    assert x in multiset(s);
  }

  /** The calls of `movePlaceholder`, with both siblings read first, amount to
      `MovedPlaceholder`. */
  lemma MoveSteps(s: seq<Node>, p: nat, up: bool, down: bool)
    requires Distinct(s) && p < |s| && s[p] == Placeholder
    ensures up && p > 0 ==> s[p - 1] in Detach(s, Placeholder)
    ensures var u := if up && p > 0 then InsertBefore(Detach(s, Placeholder), Placeholder, s[p - 1]) else s;
      Placeholder in u && (down && p + 1 < |s| ==> s[p + 1] in Detach(u, Placeholder)) &&
      (if down && p + 1 < |s| then InsertAfter(Detach(u, Placeholder), Placeholder, s[p + 1]) else u) ==
        MovedPlaceholder(s, p, up, down)
  {
    if up && p > 0 {
      StepUpSteps(s, p);
      assert StepUp(s, p)[p - 1] == Placeholder;
      if down && p + 1 < |s| {
        DownAfterUp(s, p);
      }
    } else if down && p + 1 < |s| {
      StepDownSteps(s, p);
    }
  }

  class SortableList {
    /** The children of the list element. */
    var nodes: seq<Node>
    /** The item of the last drag (`this.item`). */
    var item: Option<nat>
    /** Whether the pointer-move and pointer-up listeners are attached. */
    var dragging: bool

    /** The nodes are distinct; outside a drag there is no placeholder, and during one the
        dragged item is in the list. */
    ghost predicate Valid()
      reads this
    {
      Distinct(nodes) &&
      (!dragging ==> Placeholder !in nodes) &&
      (dragging ==> item.Some? && Item(item.value) in nodes)
    }

    /** The constructor and `render`: one item per entry, in order. */
    constructor(count: nat)
      ensures Valid() && !dragging && item.None?
      ensures nodes == Rendered(count)
    {
      nodes := Rendered(count);
      item := None;
      dragging := false;
    }

    /** `handlePointerDown`, given the index of the item the pointer went down in (if any) and
        whether the target is inside its delete handle and inside its grab handle. The delete
        handle removes the item; the grab handle starts a drag. A second pointer going down
        during a drag is not modelled. */
    method PointerDown(at: Option<nat>, onDelete: bool, onGrab: bool)
      requires Valid() && !dragging && (at.Some? ==> at.value < |nodes|)
      modifies this
      ensures Valid()
      ensures at.None? || (!onDelete && !onGrab) ==>
        nodes == old(nodes) && item == old(item) && !dragging
      ensures at.Some? && onDelete && !onGrab ==>
        var t := at.value;
        nodes == old(nodes[..t] + nodes[t + 1..]) && item == old(item) && !dragging &&
        Items(nodes) == old(Items(nodes[..t]) + Items(nodes[t + 1..]))
      ensures at.Some? && onGrab && !onDelete ==>
        var t := at.value;
        nodes == StartDrag(old(nodes), t) && item == Some(old(nodes[t]).id) && dragging &&
        Items(nodes) == old([nodes[t].id] + Items(nodes[..t]) + Items(nodes[t + 1..])) &&
        multiset(nodes) == old(multiset(nodes)) + multiset{Placeholder}
      ensures at.Some? && onGrab && onDelete ==>
        var t := at.value;
        nodes == old([nodes[t]] + nodes[..t] + nodes[t + 1..]) && item == Some(old(nodes[t]).id) && dragging
    {
      if at.None? {
        return;
      }
      var t := at.value;
      var node := nodes[t];
      if onDelete {
        RemoveAt(t);
      }
      if onGrab {
        if onDelete {
          BeginDrag(node, None);
        } else {
          BeginDrag(node, Some(t));
        }
      }
    }

    /** `item.remove()` for the item at `t`. */
    method RemoveAt(t: nat)
      requires Valid() && !dragging && t < |nodes|
      modifies this
      ensures Valid() && !dragging && item == old(item)
      ensures nodes == old(nodes[..t] + nodes[t + 1..]) && old(nodes[t]) !in nodes
      ensures Items(nodes) == old(Items(nodes[..t]) + Items(nodes[t + 1..]))
    {
      ghost var s := nodes;
      assert s[t].Item?;
      DetachAt(s, t);
      RemoveItems(s, t);
      nodes := Detach(nodes, nodes[t]);
    }

    /** The drag start for `node`, which is at `t` or, after a delete, no longer in the list:
        the placeholder goes after the item, and the item is moved to the front. */
    method BeginDrag(node: Node, t: Option<nat>)
      requires Valid() && !dragging && node.Item?
      requires t.Some? ==> t.value < |nodes| && nodes[t.value] == node
      requires t.None? ==> node !in nodes
      modifies this
      ensures Valid() && dragging && item == Some(node.id)
      ensures t.None? ==> nodes == [node] + old(nodes)
      ensures t.Some? ==>
        nodes == StartDrag(old(nodes), t.value) &&
        Items(nodes) == old([node.id] + Items(nodes[..t.value]) + Items(nodes[t.value + 1..])) &&
        multiset(nodes) == old(multiset(nodes)) + multiset{Placeholder}
    {
      item := Some(node.id);
      if node in nodes {
        StartDragSteps(nodes, t.value);
        StartDragItems(nodes, t.value);
        nodes := InsertAfter(nodes, Placeholder, node);
      } else {
        DistinctInsert(nodes, 0, node);
        assert [node] + nodes == nodes[..0] + [node] + nodes[0..];
      }
      nodes := [node] + Detach(nodes, node);
      dragging := true;
    }

    /** `movePlaceholder`, given whether the pointer is close enough to the previous sibling
        (`up`) and to the next sibling (`down`). Both siblings are read before either move, and
        a missing sibling compares as NaN, so there is no move that way. When both moves happen
        the second one undoes the first and goes one step further. The `before` and `after`
        calls are applied as the move they amount to (`MoveSteps`). */
    method PointerMove(up: bool, down: bool)
      requires Valid() && dragging
      modifies this
      ensures Valid() && dragging && item == old(item)
      ensures Items(nodes) == old(Items(nodes)) && multiset(nodes) == old(multiset(nodes))
      ensures old(IndexOf(nodes, Placeholder)).None? ==> nodes == old(nodes)
      ensures old(IndexOf(nodes, Placeholder)).Some? ==>
        nodes == MovedPlaceholder(old(nodes), old(IndexOf(nodes, Placeholder)).value, up, down)
    {
      var cur := nodes;
      var at := IndexOf(cur, Placeholder);
      if at.None? {
        return;
      }
      var p := at.value;
      var moved := MovedPlaceholder(cur, p, up, down);
      MovedPlaceholderKeeps(cur, p, up, down);
      SameNodesIn(cur, moved, Item(item.value));
      nodes := moved;
    }

    /** `handlePointerUp`: the item goes right after the placeholder and the placeholder is
        removed, so the item takes the placeholder's slot. The listeners are removed;
        `this.item` is kept. */
    method PointerUp()
      requires Valid() && dragging
      modifies this
      ensures Valid() && !dragging && item == old(item) && Placeholder !in nodes
      ensures multiset(nodes) == old(multiset(nodes)) - multiset{Placeholder}
      ensures old(IndexOf(nodes, Placeholder)).None? ==> nodes == old(nodes)
      ensures old(IndexOf(nodes, Placeholder)).Some? ==>
        nodes == Dropped(old(nodes), old(IndexOf(nodes, Item(item.value))).value, old(IndexOf(nodes, Placeholder)).value)
    {
      var node := Item(item.value);
      var at := IndexOf(nodes, Placeholder);
      if at.Some? {
        var p := at.value;
        var k := IndexOf(nodes, node).value;
        DropSteps(nodes, k, p);
        DroppedNodes(nodes, k, p);
        nodes := InsertAfter(Detach(nodes, node), node, Placeholder);
        nodes := Detach(nodes, Placeholder);
      }
      dragging := false;
    }
  }

  /** Swapping two neighbours keeps the nodes distinct. */
  lemma SwapDistinct(s: seq<Node>, p: nat)
    requires Distinct(s) && p + 1 < |s|
    ensures Distinct(s[..p] + [s[p + 1], s[p]] + s[p + 2..])
  {
    var r := s[..p] + [s[p + 1], s[p]] + s[p + 2..];
    forall a, b | 0 <= a < b < |r| ensures r[a] != r[b] {
      var a' := if a == p then p + 1 else if a == p + 1 then p else a;
      var b' := if b == p then p + 1 else if b == p + 1 then p else b;
      assert r[a] == s[a'] && r[b] == s[b'];
    }
  }

  /** Taking the placeholder out again after a step up leaves the list without it. */
  lemma StepUpDetached(s: seq<Node>, p: nat)
    requires 0 < p < |s|
    ensures StepUp(s, p)[..p - 1] + StepUp(s, p)[p..] == s[..p] + s[p + 1..]
  {
    var u := StepUp(s, p);
    assert u[..p - 1] == s[..p - 1];
    assert u[p..] == [s[p - 1]] + s[p + 1..];
    assert s[..p] == s[..p - 1] + [s[p - 1]];
  }

  /** After the step up, the next sibling read before it is two places on from the
      placeholder, so moving the placeholder after it is a step down from the old list. */
  lemma DownAfterUp(s: seq<Node>, p: nat)
    requires Distinct(s) && 0 < p && p + 1 < |s| && s[p] == Placeholder
    ensures Distinct(StepUp(s, p)) && s[p + 1] in Detach(StepUp(s, p), Placeholder)
    ensures InsertAfter(Detach(StepUp(s, p), Placeholder), Placeholder, s[p + 1]) == StepDown(s, p)
  {
    var u := StepUp(s, p);
    assert Distinct(u) by {
      SwapDistinct(s, p - 1);
      assert u == s[..p - 1] + [s[p], s[p - 1]] + s[p + 1..];
    }
    assert Detach(u, Placeholder) == s[..p] + s[p + 1..] by {
      assert u[p - 1] == Placeholder;
      DetachAt(u, p - 1);
      StepUpDetached(s, p);
    }
    PlaceAfterNext(s, p);
  }

  /** With the placeholder at `p` taken out, putting it after the node that followed it is a
      step down. */
  lemma PlaceAfterNext(s: seq<Node>, p: nat)
    requires Distinct(s) && p + 1 < |s| && s[p] == Placeholder
    ensures var d := s[..p] + s[p + 1..];
      s[p + 1] in d && InsertAfter(d, Placeholder, s[p + 1]) == StepDown(s, p)
  {
    var d := s[..p] + s[p + 1..];
    DetachAt(s, p);
    assert d[p] == s[p + 1];
    InsertAfterAt(d, p, Placeholder);
    assert d[..p + 1] == s[..p] + [s[p + 1]];
    assert d[p + 1..] == s[p + 2..];
  }
}
