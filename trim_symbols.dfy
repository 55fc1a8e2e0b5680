/** `trimSymbols(string, size)`: every run of identical consecutive characters is cut
    down to at most `size` characters. */
module TrimSymbols {
  import opened Common

  /** How many identical characters end at position `i` (the character itself included). */
  function RunLength(s: string, i: nat): (n: nat)
    requires i < |s|
    ensures 1 <= n <= i + 1
  {
    if i > 0 && s[i - 1] == s[i] then RunLength(s, i - 1) + 1 else 1
  }

  /** A run length only looks backwards, so it is the same in any longer string. */
  lemma {:induction false} RunLengthInPrefix(s: string, k: nat, i: nat)
    requires i < k <= |s|
    ensures RunLength(s[..k], i) == RunLength(s, i)
  {
    if i > 0 && s[i - 1] == s[i] {
      RunLengthInPrefix(s, k, i - 1);
    }
  }

  /** The trimmed string for a positive `size`: a character is kept when it is at most the
      `size`-th of its run. */
  function Trimmed(s: string, size: int): string
  {
    if s == [] then []
    else Trimmed(s[..|s| - 1], size) + (if RunLength(s, |s| - 1) <= size then [s[|s| - 1]] else [])
  }

  /** What `trimSymbols` returns: nothing for `size <= 0`, the input for an omitted `size`. */
  function TrimSymbolsResult(s: string, size: Option<int>): string {
    match size
    case None => s
    case Some(n) => if n <= 0 then [] else Trimmed(s, n)
  }

  /** The source's loop: `length` counts the current run and a character is pushed while
      the count does not exceed `size`. */
  method TrimSymbols(s: string, size: Option<int>) returns (r: string)
    ensures r == TrimSymbolsResult(s, size)
    ensures size.Some? && size.value <= 0 ==> r == []
    ensures size.None? ==> r == s
  {
    if size.Some? && size.value <= 0 {
      return [];
    }
    if size.None? {
      return s;   // `string.split('').join('')` rebuilds the same string
    }
    var n := size.value;
    var newChars: seq<char> := [];
    var length := 0;
    var key := 0;
    while key < |s|
      invariant 0 <= key <= |s|
      invariant newChars == Trimmed(s[..key], n)
      invariant key > 0 ==> length == RunLength(s, key - 1)
    {
      assert s[..key + 1][..key] == s[..key];
      RunLengthInPrefix(s, key + 1, key);
      if key > 0 && s[key - 1] == s[key] {
        length := length + 1;
        if length <= n {
          newChars := newChars + [s[key]];
        }
      } else {
        length := 1;
        if length <= n {
          newChars := newChars + [s[key]];
        }
      }
      key := key + 1;
    }
    assert s[..|s|] == s;
    return newChars;
  }

  /** The characters of `s` at the positions `keep` marks, in order: a subsequence of `s`. */
  function Select(s: string, keep: seq<bool>): (r: string)
    requires |keep| == |s|
    ensures |r| <= |s|
  {
    if s == [] then []
    else Select(s[..|s| - 1], keep[..|s| - 1]) + (if keep[|s| - 1] then [s[|s| - 1]] else [])
  }

  /** Position `i` survives trimming when it is at most the `size`-th character of its run. */
  function KeptPositions(s: string, size: int): (keep: seq<bool>)
    ensures |keep| == |s|
  {
    seq(|s|, i requires 0 <= i < |s| => RunLength(s, i) <= size)
  }

  /** The output is the subsequence of the input made of the characters that are at most
      the `size`-th of their run; in particular it is never longer than the input. */
  lemma {:induction false} TrimmedSelectsKept(s: string, size: int)
    ensures Trimmed(s, size) == Select(s, KeptPositions(s, size))
    ensures |Trimmed(s, size)| <= |s|
    decreases |s|
  {
    if s != [] {
      var init := s[..|s| - 1];
      TrimmedSelectsKept(init, size);
      assert KeptPositions(s, size)[..|s| - 1] == KeptPositions(init, size) by {
        forall i | 0 <= i < |init| ensures KeptPositions(s, size)[i] == KeptPositions(init, size)[i] {
          RunLengthInPrefix(s, |s| - 1, i);
        }
      }
    }
  }

  /** For a positive size, the output ends with the input's last character, and its last
      run is the input's last run cut to `size`. */
  lemma {:induction false} TrimmedLastRun(s: string, size: int)
    requires size >= 1 && s != []
    ensures var r := Trimmed(s, size);
      r != [] && r[|r| - 1] == s[|s| - 1] &&
      RunLength(r, |r| - 1) == Min(RunLength(s, |s| - 1), size)
    decreases |s|
  {
    var init, c := s[..|s| - 1], s[|s| - 1];
    if |s| > 1 && s[|s| - 2] == c {
      TrimmedLastRun(init, size);
      RunLengthInPrefix(s, |s| - 1, |s| - 2);
      var q := Trimmed(init, size);
      assert RunLength(s, |s| - 1) == RunLength(init, |init| - 1) + 1;
      if RunLength(s, |s| - 1) <= size {
        var r := q + [c];
        assert Trimmed(s, size) == r;
        RunLengthInPrefix(r, |q|, |q| - 1);
        assert r[..|q|] == q;
        assert r[|r| - 2] == q[|q| - 1] == c == r[|r| - 1];
        assert RunLength(r, |r| - 1) == RunLength(q, |q| - 1) + 1;
      } else {
        assert Trimmed(s, size) == q;
      }
    } else {
      var q := Trimmed(init, size);
      var r := q + [c];
      if init != [] {
        TrimmedLastRun(init, size);
      }
    }
  }

  /** No run in `s` is longer than `size`. */
  predicate RunsAtMost(s: string, size: int) {
    forall i :: 0 <= i < |s| ==> RunLength(s, i) <= size
  }

  /** For a positive size, the output never holds more than `size` identical characters
      in a row. */
  lemma {:induction false} TrimmedRunsBounded(s: string, size: int)
    requires size >= 1
    ensures RunsAtMost(Trimmed(s, size), size)
    decreases |s|
  {
    if s != [] {
      var init := s[..|s| - 1];
      var q := Trimmed(init, size);
      TrimmedRunsBounded(init, size);
      if RunLength(s, |s| - 1) <= size {
        var r := q + [s[|s| - 1]];
        assert Trimmed(s, size) == r;
        TrimmedLastRun(s, size);
        forall i | 0 <= i < |r| ensures RunLength(r, i) <= size {
          if i < |q| {
            RunLengthInPrefix(r, |q|, i);
            assert r[..|q|] == q;
          }
        }
      } else {
        assert Trimmed(s, size) == q;
      }
    }
  }

  /** When no run is longer than `size`, trimming returns the input unchanged. */
  lemma {:induction false} TrimmedUnchanged(s: string, size: int)
    requires RunsAtMost(s, size)
    ensures Trimmed(s, size) == s
    decreases |s|
  {
    if s != [] {
      var init := s[..|s| - 1];
      forall i | 0 <= i < |init| ensures RunLength(init, i) <= size {
        RunLengthInPrefix(s, |s| - 1, i);
      }
      TrimmedUnchanged(init, size);
      assert s == init + [s[|s| - 1]];
    }
  }

  /** Trimming twice with the same size gives the same as trimming once. */
  lemma TrimSymbolsIdempotent(s: string, size: Option<int>)
    requires size.Some? ==> size.value >= 1
    ensures TrimSymbolsResult(TrimSymbolsResult(s, size), size) == TrimSymbolsResult(s, size)
  {
    if size.Some? {
      TrimmedRunsBounded(s, size.value);
      TrimmedUnchanged(Trimmed(s, size.value), size.value);
    }
  }

  /** A run of `count` copies of `ch`. */
  datatype Run = Run(ch: char, count: nat)

  function Repeat(c: char, n: nat): (r: string)
    ensures |r| == n
  {
    if n == 0 then [] else Repeat(c, n - 1) + [c]
  }

  /** The string a list of runs spells out. */
  function Expand(runs: seq<Run>): string {
    if runs == [] then [] else Expand(runs[..|runs| - 1]) + Repeat(runs[|runs| - 1].ch, runs[|runs| - 1].count)
  }

  /** Maximal runs: none is empty and neighbouring runs have different characters. */
  predicate MaximalRuns(runs: seq<Run>) {
    (forall i :: 0 <= i < |runs| ==> runs[i].count >= 1) &&
    (forall i :: 0 < i < |runs| ==> runs[i - 1].ch != runs[i].ch)
  }

  /** Every run cut to `size`. */
  function CapRuns(runs: seq<Run>, size: nat): (r: seq<Run>)
    ensures |r| == |runs|
    ensures forall i :: 0 <= i < |runs| ==> r[i] == Run(runs[i].ch, Min(runs[i].count, size))
  {
    if runs == [] then [] else CapRuns(runs[..|runs| - 1], size) + [Run(runs[|runs| - 1].ch, Min(runs[|runs| - 1].count, size))]
  }

  /** The `n` characters of a new run are all kept while they do not exceed `size`. */
  lemma {:induction false} TrimmedAppendRun(x: string, c: char, n: nat, size: int)
    requires size >= 1
    requires x == [] || x[|x| - 1] != c
    ensures Trimmed(x + Repeat(c, n), size) == Trimmed(x, size) + Repeat(c, Min(n, size))
    decreases n
  {
    if n == 0 {
      assert x + Repeat(c, 0) == x;
    } else {
      var u := x + Repeat(c, n - 1);
      assert x + Repeat(c, n) == u + [c];
      RunLengthOfRun(x, c, n);
      TrimmedAppendRun(x, c, n - 1, size);
      TrimmedRunStep(u, c, n, size, Trimmed(x, size));
    }
  }

  /** One more character of the current run: it is kept while the run is at most `size`. */
  lemma TrimmedRunStep(u: string, c: char, n: nat, size: int, tx: string)
    requires n >= 1 && size >= 1
    requires RunLength(u + [c], |u|) == n
    requires Trimmed(u, size) == tx + Repeat(c, Min(n - 1, size))
    ensures Trimmed(u + [c], size) == tx + Repeat(c, Min(n, size))
  {
    TrimmedSnoc(u, c, size);
    RepeatGrow(c, n, size);
  }

  lemma RepeatGrow(c: char, n: nat, size: int)
    requires n >= 1 && size >= 1
    ensures Repeat(c, Min(n - 1, size)) + (if n <= size then [c] else []) == Repeat(c, Min(n, size))
  {
  }

  lemma TrimmedSnoc(u: string, c: char, size: int)
    ensures Trimmed(u + [c], size) ==
      Trimmed(u, size) + (if RunLength(u + [c], |u|) <= size then [c] else [])
  {
    assert (u + [c])[..|u|] == u;
  }

  lemma {:induction false} RunLengthOfRun(x: string, c: char, n: nat)
    requires n >= 1
    requires x == [] || x[|x| - 1] != c
    ensures RunLength(x + Repeat(c, n), |x| + n - 1) == n
    decreases n
  {
    var t := x + Repeat(c, n);
    if n > 1 {
      RunLengthOfRun(x, c, n - 1);
      RunLengthInPrefix(t, |x| + n - 1, |x| + n - 2);
      assert t[..|x| + n - 1] == x + Repeat(c, n - 1);
    }
  }

  /** Each maximal run of `n` identical characters becomes a run of `min(n, size)` of
      them, and the runs stay in order. */
  lemma {:induction false} TrimmedCapsEveryRun(runs: seq<Run>, size: nat)
    requires size >= 1 && MaximalRuns(runs)
    ensures Trimmed(Expand(runs), size) == Expand(CapRuns(runs, size))
    decreases |runs|
  {
    if runs != [] {
      var init, last := runs[..|runs| - 1], runs[|runs| - 1];
      assert MaximalRuns(init);
      TrimmedCapsEveryRun(init, size);
      var x := Expand(init);
      if init != [] {
        var prev := init[|init| - 1];
        assert x == Expand(init[..|init| - 1]) + Repeat(prev.ch, prev.count);
        assert x[|x| - 1] == prev.ch;
      }
      TrimmedAppendRun(x, last.ch, last.count, size);
      assert CapRuns(runs, size)[..|runs| - 1] == CapRuns(init, size);
    }
  }
}
