/** Python's `text.split(sep)[-1]`: the piece of a string after the last separator. */
module Segments {

  /** The text after the last occurrence of `sep` in `s`, or all of `s` when
      `sep` does not occur in it. The three postconditions pin the result
      down: it is a suffix of `s`, it holds no separator, and it is either
      the whole of `s` or directly preceded by a separator. */
  function LastSegment(s: string, sep: char): (r: string)
    ensures |r| <= |s| && r == s[|s| - |r|..]
    ensures sep !in r
    ensures |r| == |s| || s[|s| - |r| - 1] == sep
    decreases |s|
  {
    if |s| == 0 then ""
    else if s[|s| - 1] == sep then ""
    else
      var r := LastSegment(s[..|s| - 1], sep) + [s[|s| - 1]];
      assert s[|s| - |r|..] == s[..|s| - 1][|s| - |r|..] + [s[|s| - 1]];
      r
  }

  /** Splitting undoes joining: the last segment of `a + sep + b` is `b`
      whenever `b` holds no separator. */
  lemma {:induction false} LastSegmentAfterJoin(a: string, sep: char, b: string)
    requires sep !in b
    ensures LastSegment(a + [sep] + b, sep) == b
    decreases |b|
  {
    var s := a + [sep] + b;
    if b != [] {
      var init := b[..|b| - 1];
      assert sep !in init by { assert forall c :: c in init ==> c in b; }
      LastSegmentAfterJoin(a, sep, init);
      assert s[..|s| - 1] == a + [sep] + init;
      assert s[|s| - 1] == b[|b| - 1] != sep;
      assert init + [b[|b| - 1]] == b;
    }
  }

  /** A string without a separator is its own last segment. */
  lemma LastSegmentWithoutSeparator(s: string, sep: char)
    requires sep !in s
    ensures LastSegment(s, sep) == s
  {
  }
}
