/** Splitting a text at the first or the last occurrence of a separator, as
    the parsers of the two renderings need. */
module Strings {
  import opened Wrappers

  /** Splits at the first occurrence of `sep`. */
  function SplitAtFirst(s: string, sep: char): (r: Option<(string, string)>)
    ensures r.Some? ==> s == r.value.0 + [sep] + r.value.1 && sep !in r.value.0
    ensures r.None? ==> sep !in s
  {
    if |s| == 0 then None
    else if s[0] == sep then Some(([], s[1..]))
    else
      match SplitAtFirst(s[1..], sep)
      case None => None
      case Some(parts) => Some(([s[0]] + parts.0, parts.1))
  }

  lemma {:induction false} SplitAtFirstOfJoin(a: string, sep: char, b: string)
    requires sep !in a
    ensures SplitAtFirst(a + [sep] + b, sep) == Some((a, b))
  {
    var s := a + [sep] + b;
    if |a| == 0 {
      assert s[1..] == b;
    } else {
      assert s[1..] == a[1..] + [sep] + b;
      SplitAtFirstOfJoin(a[1..], sep, b);
      assert [a[0]] + a[1..] == a;
    }
  }

  /** Splits at the last occurrence of `sep`. */
  function SplitAtLast(s: string, sep: char): (r: Option<(string, string)>)
    ensures r.Some? ==> s == r.value.0 + [sep] + r.value.1 && sep !in r.value.1
    ensures r.None? ==> sep !in s
  {
    if |s| == 0 then None
    else if s[|s| - 1] == sep then Some((s[..|s| - 1], []))
    else
      match SplitAtLast(s[..|s| - 1], sep)
      case None => None
      case Some(parts) => Some((parts.0, parts.1 + [s[|s| - 1]]))
  }

  lemma {:induction false} SplitAtLastOfJoin(a: string, sep: char, b: string)
    requires sep !in b
    ensures SplitAtLast(a + [sep] + b, sep) == Some((a, b))
  {
    var s := a + [sep] + b;
    if |b| == 0 {
      assert s[..|s| - 1] == a;
    } else {
      var b' := b[..|b| - 1];
      assert s[..|s| - 1] == a + [sep] + b';
      SplitAtLastOfJoin(a, sep, b');
      assert b' + [b[|b| - 1]] == b;
    }
  }
}
