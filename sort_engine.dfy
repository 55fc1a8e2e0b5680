/** The engine side of `Array.prototype.sort` and `Array.prototype.reverse`, which every
    sorting widget calls with its own comparator. The sort is modelled as a stable
    insertion sort whose comparator may throw: the first throwing comparison aborts the
    sort and the exception propagates, as in JavaScript. */
module SortEngine {
  import opened Common

  /** A JavaScript compare function: negative, zero or positive, or an exception. */
  type Comparator<-T> = (T, T) -> Result<int, JsError>

  /** Appends `tail` to a successful result; an exception passes through. */
  function Then<T>(r: Result<seq<T>, JsError>, tail: seq<T>): Result<seq<T>, JsError> {
    match r
    case Success(v) => Success(v + tail)
    case Failure(e) => Failure(e)
  }

  lemma ThenThen<T>(r: Result<seq<T>, JsError>, t: seq<T>, u: seq<T>)
    ensures Then(Then(r, t), u) == Then(r, t + u)
  {
    if r.Success? {
      assert r.value + t + u == r.value + (t + u);
    }
  }

  /** Inserts `x` into `s` from the right: `x` moves left past every element that compares
      greater than it, and stops at the first one that does not. */
  function Insert<T>(s: seq<T>, x: T, cmp: Comparator<T>): Result<seq<T>, JsError>
    decreases |s|
  {
    if s == [] then Success([x])
    else
      var last := s[|s| - 1];
      match cmp(last, x)
      case Failure(e) => Failure(e)
      case Success(c) =>
        if c <= 0 then Success(s + [x])
        else Then(Insert(s[..|s| - 1], x, cmp), [last])
  }

  /** Inserting adds exactly the one element. */
  lemma {:induction false} InsertPermutes<T>(s: seq<T>, x: T, cmp: Comparator<T>)
    requires Insert(s, x, cmp).Success?
    ensures multiset(Insert(s, x, cmp).value) == multiset(s) + multiset{x}
    decreases |s|
  {
    if s != [] && cmp(s[|s| - 1], x).value > 0 {
      InsertPermutes(s[..|s| - 1], x, cmp);
      assert s == s[..|s| - 1] + [s[|s| - 1]];
    }
  }

  /** The order `Array.prototype.sort` leaves the elements in (or the exception it throws). */
  function InsertionSort<T>(s: seq<T>, cmp: Comparator<T>): Result<seq<T>, JsError>
    decreases |s|
  {
    if s == [] then Success([])
    else
      match InsertionSort(s[..|s| - 1], cmp)
      case Failure(e) => Failure(e)
      case Success(p) => Insert(p, s[|s| - 1], cmp)
  }

  /** A sort that finishes returns a permutation of its input. */
  lemma {:induction false} InsertionSortPermutes<T>(s: seq<T>, cmp: Comparator<T>)
    requires InsertionSort(s, cmp).Success?
    ensures multiset(InsertionSort(s, cmp).value) == multiset(s)
    decreases |s|
  {
    if s != [] {
      InsertionSortPermutes(s[..|s| - 1], cmp);
      InsertPermutes(InsertionSort(s[..|s| - 1], cmp).value, s[|s| - 1], cmp);
      assert s == s[..|s| - 1] + [s[|s| - 1]];
    }
  }

  /** Every neighbouring pair is in comparator order. */
  ghost predicate AdjacentOrdered<T>(r: seq<T>, cmp: Comparator<T>) {
    forall i :: 0 < i < |r| ==> NotAfter(r[i - 1], r[i], cmp)
  }

  /** `a` may stay in front of `b`: the comparison succeeds and is not positive. */
  predicate NotAfter<T>(a: T, b: T, cmp: Comparator<T>) {
    cmp(a, b).Success? && cmp(a, b).value <= 0
  }

  /** The comparator never throws on elements of `s`. */
  ghost predicate NeverThrowsOn<T>(s: seq<T>, cmp: Comparator<T>) {
    forall a, b :: a in s && b in s ==> cmp(a, b).Success?
  }

  /** On elements of `s`, a comparison that says "greater" is not contradicted by the
      reversed comparison (the sign antisymmetry JavaScript asks of a compare function). */
  ghost predicate AntisymmetricOn<T>(s: seq<T>, cmp: Comparator<T>) {
    forall a, b :: a in s && b in s && cmp(a, b).Success? && cmp(a, b).value > 0 ==>
      cmp(b, a).Success? && cmp(b, a).value <= 0
  }

  /** Elements of a successful sort are elements of the input. */
  lemma SortedElementsFromInput<T>(s: seq<T>, cmp: Comparator<T>, a: T)
    requires InsertionSort(s, cmp).Success? && a in InsertionSort(s, cmp).value
    ensures a in s
  {
    InsertionSortPermutes(s, cmp);
    assert a in multiset(InsertionSort(s, cmp).value);
  }

  lemma {:induction false} InsertSucceeds<T>(p: seq<T>, x: T, cmp: Comparator<T>)
    requires forall a :: a in p ==> cmp(a, x).Success?
    ensures Insert(p, x, cmp).Success?
    decreases |p|
  {
    if p != [] {
      var last := p[|p| - 1];
      assert last in p;
      if cmp(last, x).value > 0 {
        forall a | a in p[..|p| - 1] ensures cmp(a, x).Success? {
          assert a in p;
        }
        InsertSucceeds(p[..|p| - 1], x, cmp);
      }
    }
  }

  /** A comparator that never throws on the input lets the sort finish. */
  lemma {:induction false} InsertionSortSucceeds<T>(s: seq<T>, cmp: Comparator<T>)
    requires NeverThrowsOn(s, cmp)
    ensures InsertionSort(s, cmp).Success?
    decreases |s|
  {
    if s != [] {
      var init, x := s[..|s| - 1], s[|s| - 1];
      assert NeverThrowsOn(init, cmp) by {
        forall a, b | a in init && b in init ensures cmp(a, b).Success? {
          assert a in s && b in s;
        }
      }
      InsertionSortSucceeds(init, cmp);
      var p := InsertionSort(init, cmp).value;
      forall a | a in p ensures cmp(a, x).Success? {
        SortedElementsFromInput(init, cmp, a);
        assert a in s;
      }
      InsertSucceeds(p, x, cmp);
    }
  }

  lemma {:induction false} InsertOrdered<T>(p: seq<T>, x: T, cmp: Comparator<T>)
    requires AdjacentOrdered(p, cmp)
    requires forall a :: a in p ==> cmp(a, x).Success? && cmp(x, a).Success?
    requires forall a :: a in p && cmp(a, x).value > 0 ==> cmp(x, a).value <= 0
    ensures Insert(p, x, cmp).Success?
    ensures AdjacentOrdered(Insert(p, x, cmp).value, cmp)
    ensures var r := Insert(p, x, cmp).value;
      |r| == |p| + 1 && (r[|r| - 1] == x || (p != [] && r[|r| - 1] == p[|p| - 1]))
    decreases |p|
  {
    if p != [] {
      var init, last := p[..|p| - 1], p[|p| - 1];
      assert last in p;
      if cmp(last, x).value > 0 {
        assert AdjacentOrdered(init, cmp) by {
          forall i | 0 < i < |init| ensures NotAfter(init[i - 1], init[i], cmp) {
            assert init[i - 1] == p[i - 1] && init[i] == p[i];
          }
        }
        forall a | a in init ensures cmp(a, x).Success? && cmp(x, a).Success? {
          assert a in p;
        }
        InsertOrdered(init, x, cmp);
        var q := Insert(init, x, cmp).value;
        var r := q + [last];
        assert Insert(p, x, cmp).value == r;
        forall i | 0 < i < |r| ensures NotAfter(r[i - 1], r[i], cmp) {
          if i < |q| {
            assert r[i - 1] == q[i - 1] && r[i] == q[i];
          } else if q[|q| - 1] == x {
            assert cmp(x, last).value <= 0;
          } else {
            assert init != [] && q[|q| - 1] == init[|init| - 1] == p[|p| - 2];
          }
        }
      }
    }
  }

  /** With a comparator that does not contradict itself on the input, the sort leaves
      every neighbouring pair in comparator order. */
  lemma {:induction false} InsertionSortOrdered<T>(s: seq<T>, cmp: Comparator<T>)
    requires NeverThrowsOn(s, cmp) && AntisymmetricOn(s, cmp)
    ensures InsertionSort(s, cmp).Success?
    ensures AdjacentOrdered(InsertionSort(s, cmp).value, cmp)
    decreases |s|
  {
    InsertionSortSucceeds(s, cmp);
    if s != [] {
      var init, x := s[..|s| - 1], s[|s| - 1];
      assert x in s;
      assert NeverThrowsOn(init, cmp) && AntisymmetricOn(init, cmp) by {
        forall a | a in init ensures a in s { }
      }
      InsertionSortOrdered(init, cmp);
      var p := InsertionSort(init, cmp).value;
      forall a | a in p ensures a in s {
        SortedElementsFromInput(init, cmp, a);
      }
      InsertOrdered(p, x, cmp);
    }
  }

  /** A comparator that always answers 0 leaves the input as it is (the sort is stable). */
  lemma {:induction false} InsertionSortAllEqual<T>(s: seq<T>, cmp: Comparator<T>)
    requires forall a, b :: a in s && b in s ==> cmp(a, b) == Success(0)
    ensures InsertionSort(s, cmp) == Success(s)
    decreases |s|
  {
    if s != [] {
      var init, x := s[..|s| - 1], s[|s| - 1];
      assert x in s;
      forall a, b | a in init && b in init ensures cmp(a, b) == Success(0) {
        assert a in s && b in s;
      }
      InsertionSortAllEqual(init, cmp);
      if init != [] {
        assert init[|init| - 1] in s;
      }
      assert s == init + [x];
    }
  }

  /** A comparator that always throws `e` makes the sort throw `e` as soon as there are two
      elements to compare; shorter inputs are returned without a comparison. */
  lemma {:induction false} InsertionSortAlwaysThrows<T>(s: seq<T>, cmp: Comparator<T>, e: JsError)
    requires forall a, b :: a in s && b in s ==> cmp(a, b) == Failure(e)
    ensures InsertionSort(s, cmp) == if |s| < 2 then Success(s) else Failure(e)
    decreases |s|
  {
    if |s| == 1 {
      assert s == [s[0]];
    } else if |s| >= 2 {
      var init := s[..|s| - 1];
      forall a, b | a in init && b in init ensures cmp(a, b) == Failure(e) {
        assert a in s && b in s;
      }
      InsertionSortAlwaysThrows(init, cmp, e);
      if |init| == 1 {
        assert init[0] in s && s[|s| - 1] in s;
      }
    }
  }

  /** Some element of `s` is in class `cls` and some is not. */
  predicate Mixed<T>(s: seq<T>, cls: T -> bool) {
    exists i, j :: 0 <= i < |s| && 0 <= j < |s| && cls(s[i]) && !cls(s[j])
  }

  /** Outside a mixed sequence every element is in the class of the first. */
  lemma UniformWhenNotMixed<T>(s: seq<T>, cls: T -> bool)
    requires s != [] && !Mixed(s, cls)
    ensures forall a :: a in s ==> cls(a) == cls(s[0])
  {
    forall a | a in s ensures cls(a) == cls(s[0]) {
      var k :| 0 <= k < |s| && s[k] == a;
      assert !(cls(s[0]) && !cls(s[k])) && !(cls(s[k]) && !cls(s[0]));
    }
  }

  lemma NotMixedWhenUniform<T>(s: seq<T>, cls: T -> bool, c: bool)
    requires forall a :: a in s ==> cls(a) == c
    ensures !Mixed(s, cls)
  {
    forall i, j | 0 <= i < |s| && 0 <= j < |s| ensures !(cls(s[i]) && !cls(s[j])) {
      assert s[i] in s && s[j] in s;
    }
  }

  /** Appending `x` to a uniform, non-empty prefix whose sort succeeds: the sort of the whole
      throws exactly when `x` is in the other class. */
  lemma LastJoinsUniform<T>(init: seq<T>, x: T, cmp: Comparator<T>, cls: T -> bool, c: bool)
    requires init != [] && InsertionSort(init, cmp).Success?
    requires forall a :: a in init ==> cls(a) == c
    requires forall a :: a in init ==> (cmp(a, x).Failure? <==> cls(a) != cls(x))
    ensures Insert(InsertionSort(init, cmp).value, x, cmp).Failure? <==> cls(x) != c
  {
    var p := InsertionSort(init, cmp).value;
    InsertionSortPermutes(init, cmp);
    assert p != [] by { assert |multiset(p)| == |multiset(init)|; }
    forall a | a in p ensures a in init {
      SortedElementsFromInput(init, cmp, a);
    }
    if cls(x) != c {
      assert p[|p| - 1] in init;
    } else {
      InsertSucceeds(p, x, cmp);
    }
  }

  /** When the comparator throws exactly on pairs that straddle a two-way partition of the
      elements, the sort throws exactly when the input straddles it. Any comparison sort
      behaves so, because it must compare two final neighbours from different classes. */
  lemma {:induction false} InsertionSortThrowsIffMixed<T>(s: seq<T>, cmp: Comparator<T>, cls: T -> bool)
    requires forall a, b :: a in s && b in s ==> (cmp(a, b).Failure? <==> cls(a) != cls(b))
    ensures InsertionSort(s, cmp).Failure? <==> Mixed(s, cls)
    decreases |s|
  {
    if s != [] {
      var init, x := s[..|s| - 1], s[|s| - 1];
      assert x in s;
      forall a, b | a in init && b in init ensures (cmp(a, b).Failure? <==> cls(a) != cls(b)) {
        assert a in s && b in s;
      }
      InsertionSortThrowsIffMixed(init, cmp, cls);
      if Mixed(init, cls) {
        var i, j :| 0 <= i < |init| && 0 <= j < |init| && cls(init[i]) && !cls(init[j]);
        assert s[i] == init[i] && s[j] == init[j];
      } else if init == [] {
        assert s == [x];
        NotMixedWhenUniform(s, cls, cls(x));
      } else {
        var c := cls(init[0]);
        UniformWhenNotMixed(init, cls);
        forall a | a in init ensures (cmp(a, x).Failure? <==> cls(a) != cls(x)) {
          assert a in s;
        }
        LastJoinsUniform(init, x, cmp, cls, c);
        if cls(x) != c {
          assert s[0] == init[0];
          assert Mixed(s, cls) by {
            if c { assert cls(s[0]) && !cls(s[|s| - 1]); } else { assert cls(s[|s| - 1]) && !cls(s[0]); }
          }
        } else {
          forall a | a in s ensures cls(a) == c {
            if a != x { var k :| 0 <= k < |s| && s[k] == a; assert init[k] == a; }
          }
          NotMixedWhenUniform(s, cls, c);
        }
      }
    }
  }

  /** `Array.prototype.sort` on `a`: sorts in place, or reports the exception the
      comparator threw (the array is then left partly sorted, and nothing reads it). */
  method SortInPlace<T>(a: array<T>, cmp: Comparator<T>) returns (thrown: Option<JsError>)
    modifies a
    ensures InsertionSort(old(a[..]), cmp) ==
      if thrown.None? then Success(a[..]) else Failure(thrown.value)
  {
    ghost var s := a[..];
    thrown := None;
    var i := 0;
    while i < a.Length
      invariant 0 <= i <= a.Length
      invariant InsertionSort(s[..i], cmp) == Success(a[..i])
      invariant a[i..] == s[i..] && thrown.None?
    {
      SortStep(s, i, a[..i], cmp);
      assert a[i] == s[i] by { assert a[i] == a[i..][0]; }
      assert a[i + 1..] == s[i + 1..] by { assert a[i + 1..] == a[i..][1..]; }
      thrown := InsertAt(a, i, cmp);
      if thrown.Some? {
        assert InsertionSort(s[..i + 1], cmp) == Failure(thrown.value);
        PrefixFailure(s, i + 1, cmp);
        return;
      }
      assert a[i + 1..] == s[i + 1..];
      i := i + 1;
    }
    assert s[..a.Length] == s && a[..a.Length] == a[..];
  }

  lemma SortStep<T>(s: seq<T>, i: nat, sorted: seq<T>, cmp: Comparator<T>)
    requires i < |s| && InsertionSort(s[..i], cmp) == Success(sorted)
    ensures InsertionSort(s[..i + 1], cmp) == Insert(sorted, s[i], cmp)
  {
    assert s[..i + 1][..i] == s[..i];
  }

  /** Where the insertion stops: `x` goes right after `p[..j]` when `p[j - 1]` (if any)
      does not compare greater. */
  lemma InsertStops<T>(p: seq<T>, j: nat, x: T, cmp: Comparator<T>)
    requires j <= |p| && (j > 0 ==> cmp(p[j - 1], x).Success? && cmp(p[j - 1], x).value <= 0)
    ensures Insert(p[..j], x, cmp) == Success(p[..j] + [x])
  {
    if j > 0 {
      assert p[..j][j - 1] == p[j - 1];
    } else {
      assert p[..j] == [] && p[..j] + [x] == [x];
    }
  }

  /** A comparison that throws makes the insertion throw. */
  lemma InsertThrows<T>(p: seq<T>, j: nat, x: T, cmp: Comparator<T>)
    requires 0 < j <= |p| && cmp(p[j - 1], x).Failure?
    ensures Insert(p[..j], x, cmp) == Failure(cmp(p[j - 1], x).error)
  {
    assert p[..j][j - 1] == p[j - 1];
  }

  /** One step left: `x` passes `p[j - 1]`, which moves to the front of the tail. */
  lemma InsertStepBack<T>(p: seq<T>, j: nat, x: T, cmp: Comparator<T>)
    requires 0 < j <= |p| && cmp(p[j - 1], x).Success? && cmp(p[j - 1], x).value > 0
    ensures Then(Insert(p[..j], x, cmp), p[j..]) == Then(Insert(p[..j - 1], x, cmp), p[j - 1..])
  {
    assert p[..j][..j - 1] == p[..j - 1];
    assert p[..j][j - 1] == p[j - 1];
    assert p[j - 1..] == [p[j - 1]] + p[j..];
    ThenThen(Insert(p[..j - 1], x, cmp), [p[j - 1]], p[j..]);
  }

  /** When every element of `p[j..]` compares greater than `x`, the insertion carries `x`
      past all of them. */
  lemma {:induction false} InsertPasses<T>(p: seq<T>, j: nat, x: T, cmp: Comparator<T>)
    requires j <= |p|
    requires forall k :: j <= k < |p| ==> cmp(p[k], x).Success? && cmp(p[k], x).value > 0
    ensures Insert(p, x, cmp) == Then(Insert(p[..j], x, cmp), p[j..])
    decreases |p| - j
  {
    if j == |p| {
      assert p[..j] == p && p[j..] == [];
      if Insert(p, x, cmp).Success? {
        assert Insert(p, x, cmp).value + [] == Insert(p, x, cmp).value;
      }
    } else {
      InsertPasses(p, j + 1, x, cmp);
      InsertStepBack(p, j + 1, x, cmp);
    }
  }

  /** The inner loop of one insertion pass: shifts right every element of `a[..i]`, from
      the end, that compares greater than `x`, and stops at the first that does not (or
      throws). Returns the gap `j` the shifting left. */
  method ShiftPast<T>(a: array<T>, i: nat, x: T, cmp: Comparator<T>) returns (j: nat, thrown: Option<JsError>)
    requires i < a.Length
    modifies a
    ensures j <= i
    ensures forall k :: 0 <= k < j ==> a[k] == old(a[k])
    ensures forall k :: j < k <= i ==> a[k] == old(a[k - 1])
    ensures forall k :: i < k < a.Length ==> a[k] == old(a[k])
    ensures forall k :: j <= k < i ==> cmp(old(a[k]), x).Success? && cmp(old(a[k]), x).value > 0
    ensures thrown.Some? ==> j > 0 && cmp(old(a[j - 1]), x) == Failure(thrown.value)
    ensures thrown.None? ==> j == 0 || (cmp(old(a[j - 1]), x).Success? && cmp(old(a[j - 1]), x).value <= 0)
  {
    j := i;
    while j > 0
      invariant 0 <= j <= i
      invariant forall k :: 0 <= k < j ==> a[k] == old(a[k])
      invariant forall k :: j < k <= i ==> a[k] == old(a[k - 1])
      invariant forall k :: i < k < a.Length ==> a[k] == old(a[k])
      invariant forall k :: j <= k < i ==> cmp(old(a[k]), x).Success? && cmp(old(a[k]), x).value > 0
    {
      var c := cmp(a[j - 1], x);
      if c.Failure? {
        return j, Some(c.error);
      }
      if c.value <= 0 {
        return j, None;
      }
      a[j] := a[j - 1];
      j := j - 1;
    }
    return j, None;
  }

  /** One pass of the insertion sort: moves `a[i]` left into the sorted prefix `a[..i]`. */
  method InsertAt<T>(a: array<T>, i: nat, cmp: Comparator<T>) returns (thrown: Option<JsError>)
    requires i < a.Length
    modifies a
    ensures a[i + 1..] == old(a[i + 1..])
    ensures Insert(old(a[..i]), old(a[i]), cmp) ==
      if thrown.None? then Success(a[..i + 1]) else Failure(thrown.value)
  {
    ghost var p := a[..i];
    var x := a[i];
    var j;
    j, thrown := ShiftPast(a, i, x, cmp);
    assert a[i + 1..] == old(a[i + 1..]);
    if thrown.Some? {
      assert cmp(p[j - 1], x) == Failure(thrown.value);
      InsertPasses(p, j, x, cmp);
      InsertThrows(p, j, x, cmp);
      return;
    }
    assert Insert(p, x, cmp) == Success(p[..j] + [x] + p[j..]) by {
      InsertPasses(p, j, x, cmp);
      InsertStops(p, j, x, cmp);
    }
    a[j] := x;
    assert a[..i + 1] == p[..j] + [x] + p[j..] by {
      ghost var r := p[..j] + [x] + p[j..];
      forall k | 0 <= k <= i
        ensures a[k] == r[k]
      {
        if k > j {
          assert r[k] == p[j..][k - j - 1] == p[k - 1];
        }
      }
    }
  }

  /** Once a prefix of the input makes the sort throw, the whole input does. */
  lemma {:induction false} PrefixFailure<T>(s: seq<T>, k: nat, cmp: Comparator<T>)
    requires k <= |s| && InsertionSort(s[..k], cmp).Failure?
    ensures InsertionSort(s, cmp) == InsertionSort(s[..k], cmp)
    decreases |s| - k
  {
    if k < |s| {
      assert s[..k + 1][..k] == s[..k];
      PrefixFailure(s, k + 1, cmp);
    } else {
      assert s[..k] == s;
    }
  }

  /** The elements of `s` in the opposite order. */
  function Reversed<T>(s: seq<T>): (r: seq<T>)
    ensures |r| == |s|
    ensures forall i :: 0 <= i < |s| ==> r[i] == s[|s| - 1 - i]
  {
    if s == [] then [] else [s[|s| - 1]] + Reversed(s[..|s| - 1])
  }

  /** Reversing twice gives back the input. */
  lemma ReversedTwice<T>(s: seq<T>)
    ensures Reversed(Reversed(s)) == s
  {
  }

  /** Reversing keeps the same elements. */
  lemma {:induction false} ReversedPermutes<T>(s: seq<T>)
    ensures multiset(Reversed(s)) == multiset(s)
    decreases |s|
  {
    if s != [] {
      ReversedPermutes(s[..|s| - 1]);
      assert s == s[..|s| - 1] + [s[|s| - 1]];
    }
  }

  /** `Array.prototype.reverse` on `a`. */
  method ReverseInPlace<T>(a: array<T>)
    modifies a
    ensures a[..] == Reversed(old(a[..]))
  {
    var lo, hi := 0, a.Length - 1;
    while lo < hi
      invariant 0 <= lo <= a.Length && hi == a.Length - 1 - lo && lo <= hi + 2
      invariant forall k :: 0 <= k < lo ==> a[k] == old(a[a.Length - 1 - k]) && a[a.Length - 1 - k] == old(a[k])
      invariant forall k :: lo <= k <= hi ==> a[k] == old(a[k])
    {
      a[lo], a[hi] := a[hi], a[lo];
      lo, hi := lo + 1, hi - 1;
    }
  }
}
