/** `sortStrings(arr, param = 'asc')`: copies the array, sorts the copy with a three-rule
    comparator and reverses it for 'desc'. */
module SortStrings {
  import opened Common
  import opened SortEngine

  predicate IsUpper(c: char) {
    'A' <= c <= 'Z' || 'А' <= c <= 'Я' || c == 'Ё'
  }

  /** `toLowerCase` of one character, for the Latin and Cyrillic alphabets. */
  function Lower(c: char): (l: char)
    ensures IsUpper(c) ==> l != c && l > c
    ensures !IsUpper(c) ==> l == c
    ensures (c as int < 128) == (l as int < 128)
  {
    if 'A' <= c <= 'Z' || 'А' <= c <= 'Я' then (c as int + 32) as char
    else if c == 'Ё' then 'ё'
    else c
  }

  /** Two different characters with the same lower case: one of them is the upper case one. */
  lemma SameLowerOneUpper(x: char, y: char)
    requires x != y && Lower(x) == Lower(y)
    ensures IsUpper(x) != IsUpper(y)
  {
  }

  /** The comparator. `a[0]` of an empty string is undefined, and calling `toLowerCase` on it
      throws; `codePointAt(0)` of an empty string is undefined, and comparing it with 128 is
      false. */
  function CompareStrings(a: string, b: string, locale: Locale): (r: Result<int, JsError>)
    ensures r.Failure? <==> (a == []) != (b == [])
    ensures r.Failure? ==> r.error == TypeError
    ensures a == [] && b == [] ==> r == Success(locale(a, b))
  {
    if a == [] && b == [] then Success(locale(a, b))
    else if a == [] || b == [] then Failure(TypeError)
    else if a[0] != b[0] && Lower(a[0]) == Lower(b[0]) then
      Success(if a[0] > b[0] then 1 else -1)
    else if a[0] as int < 128 && b[0] as int > 128 then Success(1)
    else if a[0] as int > 128 && b[0] as int < 128 then Success(-1)
    else Success(locale(a, b))
  }

  function Compare(locale: Locale): Comparator<string> {
    (a, b) => CompareStrings(a, b, locale)
  }

  /** What `sortStrings` returns, or the exception it throws. */
  function SortStringsResult(arr: seq<string>, param: string, locale: Locale): Result<seq<string>, JsError> {
    match InsertionSort(arr, Compare(locale))
    case Failure(e) => Failure(e)
    case Success(s) => Success(if param == "desc" then Reversed(s) else s)
  }

  /** The source: a fresh copy is sorted in place, then reversed for 'desc'; `arr` is read
      only. */
  method SortStrings(arr: array<string>, param: string, locale: Locale) returns (sorted: array<string>, thrown: Option<JsError>)
    ensures fresh(sorted)
    ensures SortStringsResult(arr[..], param, locale) ==
      if thrown.None? then Success(sorted[..]) else Failure(thrown.value)
  {
    sorted := new string[arr.Length];
    forall i | 0 <= i < arr.Length {
      sorted[i] := arr[i];
    }
    assert sorted[..] == arr[..];
    thrown := SortInPlace(sorted, Compare(locale));
    if thrown.None? && param == "desc" {
      ReverseInPlace(sorted);
    }
  }

  /** The result holds exactly the input strings. */
  lemma SortStringsPermutes(arr: seq<string>, param: string, locale: Locale)
    requires SortStringsResult(arr, param, locale).Success?
    ensures multiset(SortStringsResult(arr, param, locale).value) == multiset(arr)
  {
    InsertionSortPermutes(arr, Compare(locale));
    var s := InsertionSort(arr, Compare(locale)).value;
    ReversedPermutes(s);
  }

  /** 'desc' gives exactly the reverse of 'asc', and any other parameter gives 'asc'. */
  lemma DescReversesAsc(arr: seq<string>, param: string, locale: Locale)
    ensures SortStringsResult(arr, "desc", locale).Success? <==> SortStringsResult(arr, "asc", locale).Success?
    ensures SortStringsResult(arr, "desc", locale).Success? ==>
      SortStringsResult(arr, "desc", locale).value == Reversed(SortStringsResult(arr, "asc", locale).value) &&
      SortStringsResult(arr, "asc", locale).value == Reversed(SortStringsResult(arr, "desc", locale).value)
    ensures param != "desc" ==> SortStringsResult(arr, param, locale) == SortStringsResult(arr, "asc", locale)
  {
    if SortStringsResult(arr, "asc", locale).Success? {
      ReversedTwice(SortStringsResult(arr, "asc", locale).value);
    }
  }

  predicate IsEmpty(s: string) {
    s == []
  }

  /** The sort throws exactly when the array holds both an empty and a non-empty string. */
  lemma SortStringsThrowsIffEmptyMixed(arr: seq<string>, param: string, locale: Locale)
    ensures SortStringsResult(arr, param, locale).Failure? <==> Mixed(arr, IsEmpty)
  {
    InsertionSortThrowsIffMixed(arr, Compare(locale), IsEmpty);
  }

  /** First characters differing only in case are ordered by code, which puts the upper case
      one first, before any other rule is consulted. */
  lemma UpperCaseFirst(a: string, b: string, locale: Locale)
    requires a != [] && b != [] && a[0] != b[0] && Lower(a[0]) == Lower(b[0])
    ensures CompareStrings(a, b, locale) == Success(if IsUpper(a[0]) then -1 else 1)
  {
    SameLowerOneUpper(a[0], b[0]);
  }

  /** A string starting above code 128 sorts before one starting below 128, whatever the
      locale says. */
  lemma HighCodeBeforeAscii(a: string, b: string, locale: Locale)
    requires a != [] && b != [] && a[0] as int > 128 && b[0] as int < 128
    ensures CompareStrings(a, b, locale) == Success(-1)
    ensures CompareStrings(b, a, locale) == Success(1)
  {
    assert Lower(a[0]) != Lower(b[0]);
  }

  /** When no case rule and no code rule applies, the comparator is `localeCompare`. */
  lemma DefersToLocale(a: string, b: string, locale: Locale)
    requires a != [] && b != []
    requires a[0] == b[0] || Lower(a[0]) != Lower(b[0])
    requires !(a[0] as int < 128 && b[0] as int > 128) && !(a[0] as int > 128 && b[0] as int < 128)
    ensures CompareStrings(a, b, locale) == Success(locale(a, b))
  {
  }

  /** Without an empty string among non-empty ones, no comparison throws. */
  lemma CompareNeverThrows(arr: seq<string>, locale: Locale)
    requires !Mixed(arr, IsEmpty)
    ensures NeverThrowsOn(arr, Compare(locale))
  {
    forall a, b | a in arr && b in arr ensures Compare(locale)(a, b).Success? {
      var i :| 0 <= i < |arr| && arr[i] == a;
      var j :| 0 <= j < |arr| && arr[j] == b;
      assert !(IsEmpty(arr[i]) && !IsEmpty(arr[j]));
      assert !(IsEmpty(arr[j]) && !IsEmpty(arr[i]));
    }
  }

  /** An antisymmetric locale makes the comparator antisymmetric. */
  lemma CompareAntisymmetric(arr: seq<string>, locale: Locale)
    requires LocaleAntisymmetric(locale)
    ensures AntisymmetricOn(arr, Compare(locale))
  {
    var cmp := Compare(locale);
    forall a, b | a in arr && b in arr && cmp(a, b).Success? && cmp(a, b).value > 0
      ensures cmp(b, a).Success? && cmp(b, a).value <= 0
    {
      if a != [] && b != [] && (a[0] == b[0] || Lower(a[0]) != Lower(b[0])) {
        assert locale(a, b) > 0 ==> locale(b, a) < 0;
      }
    }
  }

  /** Reversing a sequence ordered pair by pair orders it the opposite way. */
  lemma ReversedOpposite(s: seq<string>, cmp: Comparator<string>)
    requires AdjacentOrdered(s, cmp)
    ensures var d := Reversed(s);
      forall i :: 0 < i < |d| ==> NotAfter(d[i], d[i - 1], cmp)
  {
    var d := Reversed(s);
    forall i | 0 < i < |d| ensures NotAfter(d[i], d[i - 1], cmp) {
      var k := |s| - i;
      assert d[i] == s[k - 1] && d[i - 1] == s[k];
    }
  }

  /** With an antisymmetric locale and no empty string among non-empty ones, the comparator is
      antisymmetric too, so the 'asc' result is ordered pair by pair and 'desc' the opposite. */
  lemma SortStringsOrdered(arr: seq<string>, locale: Locale)
    requires LocaleAntisymmetric(locale) && !Mixed(arr, IsEmpty)
    ensures SortStringsResult(arr, "asc", locale).Success?
    ensures AdjacentOrdered(SortStringsResult(arr, "asc", locale).value, Compare(locale))
    ensures var d := SortStringsResult(arr, "desc", locale).value;
      forall i :: 0 < i < |d| ==> NotAfter(d[i], d[i - 1], Compare(locale))
  {
    CompareNeverThrows(arr, locale);
    CompareAntisymmetric(arr, locale);
    InsertionSortOrdered(arr, Compare(locale));
    ReversedOpposite(InsertionSort(arr, Compare(locale)).value, Compare(locale));
  }
}
