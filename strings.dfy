/**
 * The Python `str` operations the product extractor relies on, over `seq<char>`:
 * `strip`, `split` on one character, `join`, and the `<` ordering `sorted` uses.
 */
module Strings {

  /** The characters for which Python's `str.isspace()` holds; `str.strip()` with no
      argument removes these. */
  const Whitespace: set<char> := {
    '\t', '\n', '\U{0B}', '\U{0C}', '\r', '\U{1C}', '\U{1D}', '\U{1E}', '\U{1F}', ' ',
    '\U{85}', '\U{A0}', '\U{1680}',
    '\U{2000}', '\U{2001}', '\U{2002}', '\U{2003}', '\U{2004}', '\U{2005}',
    '\U{2006}', '\U{2007}', '\U{2008}', '\U{2009}', '\U{200A}',
    '\U{2028}', '\U{2029}', '\U{202F}', '\U{205F}', '\U{3000}'
  }

  /** Every character of `s` is in `cs`. */
  predicate AllIn(s: string, cs: set<char>)
  {
    forall i :: 0 <= i < |s| ==> s[i] in cs
  }

  /** `s.lstrip(cs)`: drops characters of `cs` from the front for as long as there are any. */
  function StripLeft(s: string, cs: set<char>): (r: string)
    ensures |r| <= |s|
  {
    if |s| > 0 && s[0] in cs then StripLeft(s[1..], cs) else s
  }

  /** `s.rstrip(cs)`: drops characters of `cs` from the back for as long as there are any. */
  function StripRight(s: string, cs: set<char>): (r: string)
    ensures |r| <= |s|
  {
    if |s| > 0 && s[|s| - 1] in cs then StripRight(s[..|s| - 1], cs) else s
  }

  /** `s.strip(cs)`; `Strip(s, Whitespace)` is `s.strip()`. */
  function Strip(s: string, cs: set<char>): (r: string)
    ensures |r| <= |s|
  {
    StripRight(StripLeft(s, cs), cs)
  }

  /** `StripLeft` leaves the longest suffix that does not start with a `cs` character,
      and what it drops is all `cs` characters. */
  lemma {:induction false} StripLeftSlice(s: string, cs: set<char>)
    ensures var r := StripLeft(s, cs);
            r == s[|s| - |r|..] && AllIn(s[..|s| - |r|], cs) && (r == [] || r[0] !in cs)
  {
    if |s| > 0 && s[0] in cs {
      StripLeftSlice(s[1..], cs);
      var r := StripLeft(s, cs);
      var k := |s| - |r|;
      assert s[1..][k - 1..] == s[k..];
      assert s[..k] == [s[0]] + s[1..][..k - 1];
    } else {
      assert s[..0] == [];
    }
  }

  /** `StripRight` leaves the longest prefix that does not end with a `cs` character,
      and what it drops is all `cs` characters. */
  lemma {:induction false} StripRightSlice(s: string, cs: set<char>)
    ensures var r := StripRight(s, cs);
            r == s[..|r|] && AllIn(s[|r|..], cs) && (r == [] || r[|r| - 1] !in cs)
  {
    if |s| > 0 && s[|s| - 1] in cs {
      var t := s[..|s| - 1];
      StripRightSlice(t, cs);
      var r := StripRight(s, cs);
      assert t[..|r|] == s[..|r|];
      assert s[|r|..] == t[|r|..] + [s[|s| - 1]];
    } else {
      assert s[|s|..] == [];
    }
  }

  /** What `Strip` removes is a run of `cs` characters at each end, and nothing else:
      what is left neither starts nor ends with a `cs` character. */
  lemma StripSlice(s: string, cs: set<char>) returns (i: nat, j: nat)
    ensures i <= j <= |s| && Strip(s, cs) == s[i..j]
    ensures AllIn(s[..i], cs) && AllIn(s[j..], cs)
    ensures Strip(s, cs) == [] || (Strip(s, cs)[0] !in cs && Strip(s, cs)[|Strip(s, cs)| - 1] !in cs)
  {
    var l := StripLeft(s, cs);
    StripLeftSlice(s, cs);
    StripRightSlice(l, cs);
    i := |s| - |l|;
    j := i + |StripRight(l, cs)|;
    assert s[j..] == l[j - i..];
  }

  /** A string with no `cs` character at either end is left alone. */
  lemma StripTrimmed(s: string, cs: set<char>)
    requires s == [] || (s[0] !in cs && s[|s| - 1] !in cs)
    ensures Strip(s, cs) == s
  {
  }

  lemma StripIdempotent(s: string, cs: set<char>)
    ensures Strip(Strip(s, cs), cs) == Strip(s, cs)
  {
    var i, j := StripSlice(s, cs);
    StripTrimmed(Strip(s, cs), cs);
  }

  lemma {:induction false} StripLeftPrefix(w: string, x: string, cs: set<char>)
    requires AllIn(w, cs)
    ensures StripLeft(w + x, cs) == StripLeft(x, cs)
  {
    if |w| > 0 {
      assert (w + x)[1..] == w[1..] + x;
      StripLeftPrefix(w[1..], x, cs);
    } else {
      assert w + x == x;
    }
  }

  lemma {:induction false} StripRightSuffix(x: string, w: string, cs: set<char>)
    requires AllIn(w, cs)
    ensures StripRight(x + w, cs) == StripRight(x, cs)
    decreases |w|
  {
    if |w| > 0 {
      assert (x + w)[..|x + w| - 1] == x + w[..|w| - 1];
      StripRightSuffix(x, w[..|w| - 1], cs);
    } else {
      assert x + w == x;
    }
  }

  lemma {:induction false} StripLeftSuffix(x: string, w: string, cs: set<char>)
    requires AllIn(w, cs)
    ensures StripLeft(x + w, cs) == if StripLeft(x, cs) == [] then [] else StripLeft(x, cs) + w
  {
    if |x| == 0 {
      assert x + w == w;
      StripLeftPrefix(w, [], cs);
      assert w + [] == w;
    } else if x[0] in cs {
      assert (x + w)[1..] == x[1..] + w;
      StripLeftSuffix(x[1..], w, cs);
    }
  }

  /** Characters of `cs` in front of a string do not change what `Strip` leaves. */
  lemma StripPrefixIgnored(w: string, x: string, cs: set<char>)
    requires AllIn(w, cs)
    ensures Strip(w + x, cs) == Strip(x, cs)
  {
    StripLeftPrefix(w, x, cs);
  }

  /** Characters of `cs` after a string do not change what `Strip` leaves. */
  lemma StripSuffixIgnored(x: string, w: string, cs: set<char>)
    requires AllIn(w, cs)
    ensures Strip(x + w, cs) == Strip(x, cs)
  {
    StripLeftSuffix(x, w, cs);
    if StripLeft(x, cs) != [] {
      StripRightSuffix(StripLeft(x, cs), w, cs);
    }
  }

  /** No character of `s` is `c`. */
  predicate Lacks(s: string, c: char)
  {
    forall i :: 0 <= i < |s| ==> s[i] != c
  }

  /** Characters of `cs` on both sides of a string do not change what `Strip` leaves. */
  lemma StripIgnoresAround(w1: string, x: string, w2: string, cs: set<char>)
    requires AllIn(w1, cs) && AllIn(w2, cs)
    ensures Strip(w1 + x + w2, cs) == Strip(x, cs)
  {
    assert w1 + x + w2 == w1 + (x + w2);
    StripPrefixIgnored(w1, x + w2, cs);
    StripSuffixIgnored(x, w2, cs);
  }

  /** The number of occurrences of `c` in `s`. */
  function Count(s: string, c: char): (n: nat)
    ensures n <= |s|
  {
    if |s| == 0 then 0 else (if s[0] == c then 1 else 0) + Count(s[1..], c)
  }

  lemma {:induction false} CountZero(s: string, c: char)
    ensures Count(s, c) == 0 <==> Lacks(s, c)
  {
    if |s| > 0 {
      CountZero(s[1..], c);
      assert Lacks(s, c) <==> s[0] != c && Lacks(s[1..], c);
    }
  }

  lemma {:induction false} CountConcat(a: string, b: string, c: char)
    ensures Count(a + b, c) == Count(a, c) + Count(b, c)
  {
    if |a| == 0 {
      assert a + b == b;
    } else {
      assert (a + b)[1..] == a[1..] + b;
      CountConcat(a[1..], b, c);
    }
  }

  /** `s.find(c)`, with `|s|` for "not found". */
  function IndexOf(s: string, c: char): (k: nat)
    ensures k <= |s|
    ensures k < |s| ==> s[k] == c
    ensures Lacks(s[..k], c)
  {
    if |s| == 0 || s[0] == c then 0 else 1 + IndexOf(s[1..], c)
  }

  /** `s.split(sep)` for a one-character separator: never empty. */
  function Split(s: string, sep: char): (parts: seq<string>)
    ensures |parts| >= 1
    decreases |s|
  {
    var k := IndexOf(s, sep);
    if k == |s| then [s] else [s[..k]] + Split(s[k + 1..], sep)
  }

  /** `sep.join(xs)`. */
  function Join(xs: seq<string>, sep: string): (s: string)
  {
    if |xs| == 0 then "" else if |xs| == 1 then xs[0] else xs[0] + sep + Join(xs[1..], sep)
  }

  /** `s.split(sep)` has one more part than `s` has separators. */
  lemma {:induction false} SplitCount(s: string, sep: char)
    ensures |Split(s, sep)| == Count(s, sep) + 1
    decreases |s|
  {
    var k := IndexOf(s, sep);
    CountZero(s[..k], sep);
    if k < |s| {
      SplitAt(s, k);
      CountConcat(s[..k] + [sep], s[k + 1..], sep);
      CountConcat(s[..k], [sep], sep);
      SplitCount(s[k + 1..], sep);
    } else {
      assert s[..k] == s;
    }
  }

  /** Cutting a string around one of its positions. */
  lemma SplitAt(s: string, k: nat)
    requires k < |s|
    ensures s == s[..k] + [s[k]] + s[k + 1..]
  {
    assert s == s[..k] + s[k..];
    assert s[k..] == [s[k]] + s[k + 1..];
  }

  lemma JoinCons(x: string, xs: seq<string>, sep: string)
    requires |xs| >= 1
    ensures Join([x] + xs, sep) == x + sep + Join(xs, sep)
  {
    assert ([x] + xs)[1..] == xs;
  }

  /** Joining the parts of a split with the separator gives back the string. */
  lemma {:induction false} JoinSplit(s: string, sep: char)
    ensures Join(Split(s, sep), [sep]) == s
    decreases |s|
  {
    var k := IndexOf(s, sep);
    if k < |s| {
      var rest := Split(s[k + 1..], sep);
      JoinSplit(s[k + 1..], sep);
      JoinCons(s[..k], rest, [sep]);
      SplitAt(s, k);
    }
  }

  /** A separator-free head followed by the separator is the first part of a split. */
  lemma SplitHead(w: string, t: string, sep: char)
    requires Lacks(w, sep)
    ensures Split(w + [sep] + t, sep) == [w] + Split(t, sep)
  {
    var s := w + [sep] + t;
    IndexAfterFree(w, [sep] + t, sep);
    assert s == w + ([sep] + t);
    assert s[..|w|] == w;
    assert s[|w| + 1..] == t;
  }

  /** Splitting a join of separator-free parts gives back the parts. */
  lemma {:induction false} SplitJoin(xs: seq<string>, sep: char)
    requires |xs| >= 1
    requires forall i :: 0 <= i < |xs| ==> Lacks(xs[i], sep)
    ensures Split(Join(xs, [sep]), sep) == xs
  {
    if |xs| == 1 {
      assert IndexOf(xs[0], sep) == |xs[0]|;
    } else {
      assert xs == [xs[0]] + xs[1..];
      JoinCons(xs[0], xs[1..], [sep]);
      SplitHead(xs[0], Join(xs[1..], [sep]), sep);
      SplitJoin(xs[1..], sep);
    }
  }

  lemma {:induction false} IndexAfterFree(w: string, t: string, c: char)
    requires Lacks(w, c)
    ensures IndexOf(w + t, c) == |w| + IndexOf(t, c)
  {
    if |w| == 0 {
      assert w + t == t;
    } else {
      assert (w + t)[0] == w[0];
      assert (w + t)[1..] == w[1..] + t;
      IndexAfterFree(w[1..], t, c);
    }
  }

  lemma {:induction false} IndexBefore(t: string, w: string, c: char)
    requires IndexOf(t, c) < |t|
    ensures IndexOf(t + w, c) == IndexOf(t, c)
  {
    if t[0] != c {
      assert (t + w)[1..] == t[1..] + w;
      IndexBefore(t[1..], w, c);
    }
  }

  lemma SplitPrefixFound(w: string, t: string, sep: char)
    requires Lacks(w, sep) && IndexOf(t, sep) < |t|
    ensures Split(w + t, sep) == [w + Split(t, sep)[0]] + Split(t, sep)[1..]
  {
    var k := IndexOf(t, sep);
    var head, rest := t[..k], t[k + 1..];
    var r := Split(rest, sep);
    assert Split(t, sep) == [head] + r by {
      assert t == head + [sep] + rest;
      SplitHead(head, rest, sep);
    }
    assert Split(w + t, sep) == [w + head] + r by {
      assert Lacks(w + head, sep);
      assert w + t == (w + head) + [sep] + rest;
      SplitHead(w + head, rest, sep);
    }
    assert ([head] + r)[1..] == r;
  }

  lemma SplitPrefixNone(w: string, t: string, sep: char)
    requires Lacks(w, sep) && IndexOf(t, sep) == |t|
    ensures Split(w + t, sep) == [w + t]
  {
    IndexAfterFree(w, t, sep);
  }

  /** Separator-free text in front of a string joins the first part of its split. */
  lemma SplitPrefix(w: string, t: string, sep: char)
    requires Lacks(w, sep)
    ensures Split(w + t, sep) == [w + Split(t, sep)[0]] + Split(t, sep)[1..]
  {
    if IndexOf(t, sep) < |t| {
      SplitPrefixFound(w, t, sep);
    } else {
      SplitPrefixNone(w, t, sep);
    }
  }

  /** Separator-free text after a string joins the last part of its split. */
  lemma {:induction false} SplitSuffix(t: string, w: string, sep: char)
    requires Lacks(w, sep)
    ensures var p := Split(t, sep);
            Split(t + w, sep) == p[..|p| - 1] + [p[|p| - 1] + w]
    decreases |t|
  {
    var k := IndexOf(t, sep);
    if k < |t| {
      IndexBefore(t, w, sep);
      assert (t + w)[..k] == t[..k];
      assert (t + w)[k + 1..] == t[k + 1..] + w;
      SplitSuffix(t[k + 1..], w, sep);
    } else {
      IndexAfterFree(t, w, sep);
      assert IndexOf(w, sep) == |w|;
    }
  }

  /** A string made only of `cs` characters holds no character outside `cs`. */
  lemma CountOutside(s: string, cs: set<char>, c: char)
    requires AllIn(s, cs) && c !in cs
    ensures Count(s, c) == 0
  {
    CountZero(s, c);
  }

  /** Stripping `cs` does not remove any character outside `cs`. */
  lemma StripKeepsCount(s: string, cs: set<char>, c: char)
    requires c !in cs
    ensures Count(Strip(s, cs), c) == Count(s, c)
  {
    var i, j := StripSlice(s, cs);
    assert s == s[..i] + s[i..j] + s[j..];
    CountConcat(s[..i] + s[i..j], s[j..], c);
    CountConcat(s[..i], s[i..j], c);
    CountOutside(s[..i], cs, c);
    CountOutside(s[j..], cs, c);
  }

  /** Separator-free text around a string joins the first and the last part of its split. */
  lemma SplitAround(w1: string, m: string, w2: string, sep: char)
    requires Lacks(w1, sep) && Lacks(w2, sep)
    ensures var p, q := Split(m, sep), Split(w1 + m + w2, sep);
            |q| == |p| &&
            forall k :: 0 <= k < |p| ==>
              q[k] == (if k == 0 then w1 else "") + p[k] + (if k == |p| - 1 then w2 else "")
  {
    assert w1 + m + w2 == w1 + (m + w2);
    SplitPrefix(w1, m + w2, sep);
    SplitSuffix(m, w2, sep);
  }

  /** Stripping `cs` off a whole string before splitting it changes only what stripping
      each part removes anyway: the parts come out the same once each is stripped. */
  lemma SplitOfStripped(s: string, cs: set<char>, sep: char)
    requires sep !in cs
    ensures var p, q := Split(Strip(s, cs), sep), Split(s, sep);
            |p| == |q| && forall k :: 0 <= k < |p| ==> Strip(p[k], cs) == Strip(q[k], cs)
  {
    var i, j := StripSlice(s, cs);
    var w1, m, w2 := s[..i], s[i..j], s[j..];
    assert s == w1 + m + w2;
    CountOutside(w1, cs, sep);
    CountZero(w1, sep);
    CountOutside(w2, cs, sep);
    CountZero(w2, sep);
    SplitAround(w1, m, w2, sep);
    var p := Split(m, sep);
    var q := Split(s, sep);
    forall k | 0 <= k < |p|
      ensures Strip(p[k], cs) == Strip(q[k], cs)
    {
      var a: string := if k == 0 then w1 else "";
      var b: string := if k == |p| - 1 then w2 else "";
      StripIgnoresAround(a, p[k], b, cs);
    }
  }

  /** Python's `a < b` on `str`: code point by code point, a proper prefix first. */
  predicate Less(a: string, b: string)
  {
    if |a| == 0 then |b| > 0
    else |b| > 0 && (a[0] < b[0] || (a[0] == b[0] && Less(a[1..], b[1..])))
  }

  lemma {:induction false} LessIrreflexive(a: string)
    ensures !Less(a, a)
  {
    if |a| > 0 {
      LessIrreflexive(a[1..]);
    }
  }

  lemma {:induction false} LessTransitive(a: string, b: string, c: string)
    requires Less(a, b) && Less(b, c)
    ensures Less(a, c)
  {
    if |a| > 0 && a[0] == b[0] && b[0] == c[0] {
      LessTransitive(a[1..], b[1..], c[1..]);
    }
  }

  lemma LessAsymmetric(a: string, b: string)
    requires Less(a, b)
    ensures !Less(b, a)
  {
    if Less(b, a) {
      LessTransitive(a, b, a);
      LessIrreflexive(a);
    }
  }

  lemma {:induction false} LessTotal(a: string, b: string)
    requires a != b
    ensures Less(a, b) || Less(b, a)
  {
    if |a| > 0 && |b| > 0 && a[0] == b[0] {
      assert a == [a[0]] + a[1..] && b == [b[0]] + b[1..];
      LessTotal(a[1..], b[1..]);
    }
  }
}
