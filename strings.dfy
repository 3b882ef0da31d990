/** Splitting a string at a separator character and joining a list of strings
    with one; used for the space-joined scope and for the `&`-separated
    form-urlencoded text. */
module Strings {

  /** True when `c` occurs nowhere in `s`. */
  predicate Free(s: string, c: char)
  {
    forall i :: 0 <= i < |s| ==> s[i] != c
  }

  /** The pieces of `s` between occurrences of `sep`; never empty (an empty
      string is one empty piece). */
  function Split(s: string, sep: char): (r: seq<string>)
    ensures |r| > 0
    decreases |s|
  {
    if |s| == 0 then [""]
    else
      var rest := Split(s[1..], sep);
      if s[0] == sep then [""] + rest
      else [[s[0]] + rest[0]] + rest[1..]
  }

  /** The strings of `parts`, with one `sep` between neighbours. */
  function Join(parts: seq<string>, sep: char): string
    decreases |parts|
  {
    if |parts| == 0 then ""
    else if |parts| == 1 then parts[0]
    else parts[0] + [sep] + Join(parts[1..], sep)
  }

  /** `s` cut at its first `sep`: the text before it, and the text after it
      (empty when there is no `sep`). */
  function SplitOnce(s: string, sep: char): (r: (string, string))
    decreases |s|
  {
    if |s| == 0 then ("", "")
    else if s[0] == sep then ("", s[1..])
    else
      var (a, b) := SplitOnce(s[1..], sep);
      ([s[0]] + a, b)
  }

  /** A piece free of `sep` is returned whole by Split. */
  lemma {:induction false} SplitFree(x: string, sep: char)
    requires Free(x, sep)
    ensures Split(x, sep) == [x]
    decreases |x|
  {
    if |x| > 0 {
      SplitFree(x[1..], sep);
      assert [x[0]] + x[1..] == x;
    }
  }

  /** Split peels off a leading piece free of `sep`. */
  lemma {:induction false} SplitPrefix(x: string, sep: char, t: string)
    requires Free(x, sep)
    ensures Split(x + [sep] + t, sep) == [x] + Split(t, sep)
    decreases |x|
  {
    var s := x + [sep] + t;
    if |x| == 0 {
      assert s[1..] == t;
    } else {
      assert s[1..] == x[1..] + [sep] + t;
      SplitPrefix(x[1..], sep, t);
      assert [x[0]] + x[1..] == x;
    }
  }

  /** Splitting undoes joining, for a non-empty list of pieces free of the
      separator. */
  lemma {:induction false} SplitJoin(parts: seq<string>, sep: char)
    requires |parts| > 0
    requires forall i :: 0 <= i < |parts| ==> Free(parts[i], sep)
    ensures Split(Join(parts, sep), sep) == parts
    decreases |parts|
  {
    if |parts| == 1 {
      SplitFree(parts[0], sep);
    } else {
      SplitPrefix(parts[0], sep, Join(parts[1..], sep));
      SplitJoin(parts[1..], sep);
      assert [parts[0]] + parts[1..] == parts;
    }
  }

  /** SplitOnce finds the first `sep` after a prefix free of it. */
  lemma {:induction false} SplitOnceAt(x: string, sep: char, y: string)
    requires Free(x, sep)
    ensures SplitOnce(x + [sep] + y, sep) == (x, y)
    decreases |x|
  {
    var s := x + [sep] + y;
    if |x| == 0 {
      assert s[1..] == y;
    } else {
      assert s[1..] == x[1..] + [sep] + y;
      SplitOnceAt(x[1..], sep, y);
      assert [x[0]] + x[1..] == x;
    }
  }
}
