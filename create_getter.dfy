/** `createGetter(path)`: splits the path on '.' once and returns a getter that walks that
    segment list through nested objects, consuming the list with `shift` as it goes. The list
    lives in the closure, so it is shared by every call of the same getter. */
module CreateGetter {
  import opened Common

  /** The JavaScript values a getter meets. An object is the map of its own properties. */
  datatype JsValue =
    | Undefined
    | Null
    | Num(n: int)
    | Bool(b: bool)
    | Str(s: string)
    | Obj(props: map<string, JsValue>)

  /** The index a property key names on a string of length `n`: the key is the decimal
      text of a number below `n`. */
  function KeyIndex(key: string, n: nat): (r: Option<nat>)
    ensures r.Some? ==> r.value < n && NatToString(r.value) == key
    ensures r.None? ==> forall i :: 0 <= i < n ==> NatToString(i) != key
  {
    if n == 0 then None
    else match KeyIndex(key, n - 1)
      case Some(i) => Some(i)
      case None => if NatToString(n - 1) == key then Some(n - 1) else None
  }

  /** `value[key]`: a TypeError on undefined and null; the own property or undefined on an
      object; `length` and the one-character strings at the indices on a string; undefined
      on the other primitives. */
  function Get(value: JsValue, key: string): (r: Result<JsValue, JsError>)
    ensures r.Failure? <==> value.Undefined? || value.Null?
    ensures value.Obj? && key in value.props ==> r == Success(value.props[key])
    ensures value.Obj? && key !in value.props ==> r == Success(Undefined)
    ensures value.Str? && key == "length" ==> r == Success(Num(|value.s|))
    ensures forall i :: value.Str? && 0 <= i < |value.s| && key == NatToString(i) ==>
      r == Success(Str([value.s[i]]))
    ensures value.Str? && !HasOwn(value, key).value ==> r == Success(Undefined)
  {
    match value
    case Undefined => Failure(TypeError)
    case Null => Failure(TypeError)
    case Obj(props) => Success(if key in props then props[key] else Undefined)
    case Str(s) =>
      if key == "length" then
        forall i | 0 <= i < |s| ensures NatToString(i) != key {
          NatToStringDigits(i);
          assert NatToString(i)[0] != key[0];
        }
        Success(Num(|s|))
      else
        (match KeyIndex(key, |s|)
         case Some(i) =>
           forall j | 0 <= j < |s| && key == NatToString(j) ensures j == i {
             NatToStringInjective(i, j);
           }
           Success(Str([s[i]]))
         case None => Success(Undefined))
    case _ => Success(Undefined)
  }

  /** `value.hasOwnProperty(key)`: a TypeError on undefined and null; an object owns its
      keys, a string owns `length` and its indices, and the other primitives own nothing. */
  function HasOwn(value: JsValue, key: string): (r: Result<bool, JsError>)
    ensures r.Failure? <==> value.Undefined? || value.Null?
    ensures value.Obj? ==> (r == Success(true) <==> key in value.props)
    ensures value.Str? ==>
      (r == Success(true) <==> key == "length" || exists i :: 0 <= i < |value.s| && key == NatToString(i))
    ensures value.Num? || value.Bool? ==> r == Success(false)
  {
    match value
    case Undefined => Failure(TypeError)
    case Null => Failure(TypeError)
    case Obj(props) => Success(key in props)
    case Str(s) =>
      var at := KeyIndex(key, |s|);
      assert at.Some? ==> NatToString(at.value) == key;
      Success(key == "length" || at.Some?)
    case _ => Success(false)
  }

  /** The decimal text of a number has only digits. */
  lemma {:induction false} NatToStringDigits(n: nat)
    ensures |NatToString(n)| >= 1
    ensures forall k :: 0 <= k < |NatToString(n)| ==> '0' <= NatToString(n)[k] <= '9'
    decreases n
  {
    if n >= 10 {
      NatToStringDigits(n / 10);
    }
  }

  /** Different numbers have different decimal texts. */
  lemma {:induction false} NatToStringInjective(a: nat, b: nat)
    requires NatToString(a) == NatToString(b)
    ensures a == b
    decreases a
  {
    NatToStringDigits(a / 10);
    NatToStringDigits(b / 10);
    if a >= 10 && b >= 10 {
      var sa, sb := NatToString(a), NatToString(b);
      assert sa[|sa| - 1] == sb[|sb| - 1];
      assert DigitChar(a % 10) == DigitChar(b % 10);
      assert sa[..|sa| - 1] == sb[..|sb| - 1];
      assert NatToString(a / 10) == NatToString(b / 10);
      NatToStringInjective(a / 10, b / 10);
    }
  }

  /** `path.split('.')`: the pieces between the dots, always at least one. */
  function Split(path: string): (segs: seq<string>)
    ensures |segs| >= 1
    ensures forall i :: 0 <= i < |segs| ==> '.' !in segs[i]
  {
    if path == [] then [""]
    else
      var rest := Split(path[1..]);
      if path[0] == '.' then [""] + rest else [[path[0]] + rest[0]] + rest[1..]
  }

  /** `segs.join('.')`. */
  function Join(segs: seq<string>): string
    requires |segs| >= 1
  {
    if |segs| == 1 then segs[0] else segs[0] + "." + Join(segs[1..])
  }

  /** Joining the split path gives the path back. */
  lemma {:induction false} JoinSplit(path: string)
    ensures Join(Split(path)) == path
  {
    if path != [] {
      JoinSplit(path[1..]);
      var rest := Split(path[1..]);
      if path[0] == '.' {
        assert Split(path)[1..] == rest;
      } else {
        if |rest| == 1 {
          assert Join(Split(path)) == [path[0]] + rest[0];
        } else {
          assert Split(path)[1..] == rest[1..];
          assert Join(Split(path)) == [path[0]] + rest[0] + "." + Join(rest[1..]);
          assert Join(rest) == rest[0] + "." + Join(rest[1..]);
        }
        assert path == [path[0]] + path[1..];
      }
    }
  }

  /** Splitting a join of dot-free segments gives the segments back. */
  lemma {:induction false} SplitJoin(segs: seq<string>)
    requires |segs| >= 1
    requires forall i :: 0 <= i < |segs| ==> '.' !in segs[i]
    ensures Split(Join(segs)) == segs
    decreases |Join(segs)|
  {
    var s := Join(segs);
    if |segs| == 1 {
      SplitNoDot(segs[0]);
    } else {
      var tail := segs[1..];
      SplitJoin(tail);
      SplitPrefix(segs[0], Join(tail));
    }
  }

  /** A dot-free path is a single segment. */
  lemma {:induction false} SplitNoDot(path: string)
    requires '.' !in path
    ensures Split(path) == [path]
  {
    if path != [] {
      SplitNoDot(path[1..]);
      assert path == [path[0]] + path[1..];
    }
  }

  /** A dot-free `head` followed by a dot adds `head` in front of the split of the rest. */
  lemma {:induction false} SplitPrefix(head: string, rest: string)
    requires '.' !in head
    ensures Split(head + "." + rest) == [head] + Split(rest)
    decreases |head|
  {
    var p := head + "." + rest;
    if head == [] {
      assert p == "." + rest;
      assert p[1..] == rest;
    } else {
      assert p[1..] == head[1..] + "." + rest;
      SplitPrefix(head[1..], rest);
      assert head == [head[0]] + head[1..];
    }
  }

  /** A suffix of the tail of a list is a suffix of the list. */
  lemma TailSuffix(props: seq<string>, rest: seq<string>)
    requires |props| >= 1 && |rest| <= |props| - 1 && rest == props[1..][|props| - 1 - |rest|..]
    ensures rest == props[|props| - |rest|..]
  {
  }

  /** One call of the getter on `value` with the shared list `props`: the result and what is
      left of the list. `shift` runs before the property is read, so a read that throws has
      already consumed its segment; `hasOwnProperty` throws before any `shift`. An empty list
      shifts `undefined`, which reads the property named "undefined". */
  function Walk(props: seq<string>, value: JsValue): (out: (Result<JsValue, JsError>, seq<string>))
    ensures |out.1| <= |props| && out.1 == props[|props| - |out.1|..]
    ensures props != [] && out.0.Success? ==> |out.1| < |props|
    ensures props == [] ==> out.1 == []
    decreases |props|
  {
    if |props| > 1 then
      match HasOwn(value, props[0])
      case Failure(e) => (Failure(e), props)
      case Success(own) =>
        if own then
          var out := Walk(props[1..], Get(value, props[0]).value);
          TailSuffix(props, out.1);
          out
        else (Get(value, props[0]), props[1..])
    else if props == [] then (Get(value, "undefined"), [])
    else (Get(value, props[0]), [])
  }

  /** The value reached by following `path` through own properties, if every step finds a
      value that owns that key. */
  function At(value: JsValue, path: seq<string>): Option<JsValue>
    decreases |path|
  {
    if path == [] then Some(value)
    else if HasOwn(value, path[0]) == Success(true) then At(Get(value, path[0]).value, path[1..])
    else None
  }

  /** When the path up to the last segment leads to `holder`, the first call reads the last
      segment of `holder` and uses up the whole list. */
  lemma {:induction false} WalkFollowsPath(segs: seq<string>, value: JsValue, holder: JsValue)
    requires |segs| >= 1 && At(value, segs[..|segs| - 1]) == Some(holder)
    ensures Walk(segs, value) == (Get(holder, segs[|segs| - 1]), [])
    decreases |segs|
  {
    if |segs| > 1 {
      assert segs[1..][..|segs| - 2] == segs[..|segs| - 1][1..];
      WalkFollowsPath(segs[1..], Get(value, segs[0]).value, holder);
    }
  }

  /** A non-final segment missing from the object reached so far stops the descent: the call
      returns undefined without throwing and leaves the later segments in the list. */
  lemma {:induction false} WalkStopsAtMissingKey(segs: seq<string>, value: JsValue, k: nat, holder: map<string, JsValue>)
    requires k + 1 < |segs| && At(value, segs[..k]) == Some(Obj(holder)) && segs[k] !in holder
    ensures Walk(segs, value) == (Success(Undefined), segs[k + 1..])
    decreases k
  {
    if k > 0 {
      assert segs[1..][..k - 1] == segs[..k][1..];
      WalkStopsAtMissingKey(segs[1..], Get(value, segs[0]).value, k - 1, holder);
      assert segs[1..][k..] == segs[k + 1..];
    }
  }

  /** Descending through a present key whose value is undefined or null throws a TypeError. */
  lemma {:induction false} WalkThrowsThroughNullish(segs: seq<string>, value: JsValue, k: nat, holder: map<string, JsValue>)
    requires k + 1 < |segs| && At(value, segs[..k]) == Some(Obj(holder))
    requires segs[k] in holder && (holder[segs[k]].Undefined? || holder[segs[k]].Null?)
    ensures Walk(segs, value).0 == Failure(TypeError)
    decreases k
  {
    if k > 0 {
      assert segs[1..][..k - 1] == segs[..k][1..];
      WalkThrowsThroughNullish(segs[1..], Get(value, segs[0]).value, k - 1, holder);
    }
  }

  /** A string owns its `length`, so `'a.length'` reads it and `'a.length.x'` goes on to
      read `x` of a number. */
  lemma WalkStringLength()
    ensures Walk(["a", "length"], Obj(map["a" := Str("abc")])) == (Success(Num(3)), [])
    ensures Walk(["a", "length", "x"], Obj(map["a" := Str("abc")])) == (Success(Undefined), [])
  {
    var o := Obj(map["a" := Str("abc")]);
    assert HasOwn(o, "a") == Success(true) && Get(o, "a") == Success(Str("abc"));
    assert HasOwn(Str("abc"), "length") == Success(true) && Get(Str("abc"), "length") == Success(Num(3));
    assert ["a", "length"][1..] == ["length"];
    assert ["a", "length", "x"][1..] == ["length", "x"] && ["length", "x"][1..] == ["x"];
  }

  /** A string owns its indices, so `'a.0'` reads the first character. */
  lemma WalkStringIndex()
    ensures Walk(["a", "0"], Obj(map["a" := Str("xyz")])) == (Success(Str("x")), [])
  {
    var o := Obj(map["a" := Str("xyz")]);
    assert HasOwn(o, "a") == Success(true) && Get(o, "a") == Success(Str("xyz"));
    assert NatToString(0) == "0";
    assert Get(Str("xyz"), "0") == Success(Str("x"));
    assert ["a", "0"][1..] == ["0"];
  }

  /** A dot-free path reads that one property. */
  lemma SingleSegment(path: string, value: JsValue)
    requires '.' !in path
    ensures Walk(Split(path), value) == (Get(value, path), [])
  {
    SplitNoDot(path);
  }

  /** The list is shared: once a lookup has followed the whole path, the next call on any
      value reads the property named "undefined" of it. */
  lemma SecondCallReadsUndefined(path: string, first: JsValue, holder: JsValue, second: JsValue)
    requires At(first, Split(path)[..|Split(path)| - 1]) == Some(holder)
    ensures Walk(Split(path), first).1 == []
    ensures Walk(Walk(Split(path), first).1, second) == (Get(second, "undefined"), [])
  {
    WalkFollowsPath(Split(path), first, holder);
  }

  /** The getter `createGetter` returns, with the segment list it closes over. */
  class Getter {
    var props: seq<string>

    /** `createGetter(path)`: the path is split once, here. */
    constructor(path: string)
      ensures props == Split(path)
    {
      props := Split(path);
    }

    /** `getValue(object)`: one call, consuming segments of the shared list. */
    method GetValue(value: JsValue) returns (r: Result<JsValue, JsError>)
      modifies this
      ensures (r, props) == Walk(old(props), value)
      decreases |props|
    {
      if |props| > 1 {
        var own := HasOwn(value, props[0]);
        if own.Failure? {
          return Failure(own.error);
        }
        var key := props[0];
        props := props[1..];
        if own.value {
          var next := Get(value, key).value;
          r := GetValue(next);
        } else {
          r := Get(value, key);
        }
      } else {
        var key := if props == [] then "undefined" else props[0];
        props := if props == [] then [] else props[1..];
        r := Get(value, key);
      }
    }
  }
}
