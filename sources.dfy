/**
 * `format_sources`: each document's source through a fallback chain, each
 * distinct value once, in ascending order, joined by ", ".
 */
module Sources {
  import opened Strings
  import opened Documents

  /** The metadata value under `key` counts only when it is present and not empty:
      `metadata.get(key) or ...` falls through on a missing key and on "". */
  predicate HasValue(metadata: map<string, string>, key: string)
  {
    key in metadata && metadata[key] != ""
  }

  /** `metadata.get("source") or metadata.get("file_path") or "unknown"`: never empty, and
      always the first of the two that has a value, or "unknown" when neither has. */
  function SourceOf(d: Document): (r: string)
    ensures r != ""
    ensures HasValue(d.metadata, "source") ==> r == d.metadata["source"]
    ensures !HasValue(d.metadata, "source") && HasValue(d.metadata, "file_path") ==> r == d.metadata["file_path"]
    ensures !HasValue(d.metadata, "source") && !HasValue(d.metadata, "file_path") ==> r == "unknown"
  {
    if HasValue(d.metadata, "source") then d.metadata["source"]
    else if HasValue(d.metadata, "file_path") then d.metadata["file_path"]
    else "unknown"
  }

  /** The sources of the documents, in order, duplicates kept. */
  function SourceList(ctx: seq<Document>): (r: seq<string>)
    ensures |r| == |ctx|
    ensures forall i :: 0 <= i < |ctx| ==> r[i] == SourceOf(ctx[i])
  {
    if |ctx| == 0 then [] else [SourceOf(ctx[0])] + SourceList(ctx[1..])
  }

  /** The distinct values of `xs`. */
  function Elements(xs: seq<string>): set<string>
  {
    set i | 0 <= i < |xs| :: xs[i]
  }

  /** Ascending in `str` order with no value twice. */
  predicate StrictlySorted(xs: seq<string>)
  {
    forall i, j :: 0 <= i < j < |xs| ==> Less(xs[i], xs[j])
  }

  /** Puts `x` into its place in a strictly sorted list, unless it is there already. */
  function Insert(x: string, xs: seq<string>): (r: seq<string>)
    requires StrictlySorted(xs)
    ensures StrictlySorted(r)
    ensures Elements(r) == Elements(xs) + {x}
  {
    if |xs| == 0 then
      assert [x][0] == x;
      [x]
    else if x == xs[0] then
      assert xs[0] in Elements(xs);
      xs
    else if Less(x, xs[0]) then
      InsertFront(x, xs);
      [x] + xs
    else
      var rest := Insert(x, xs[1..]);
      InsertAfter(x, xs, rest);
      [xs[0]] + rest
  }

  /** A value below the head of a strictly sorted list may go in front of it. */
  lemma InsertFront(x: string, xs: seq<string>)
    requires StrictlySorted(xs) && |xs| > 0 && Less(x, xs[0])
    ensures StrictlySorted([x] + xs)
    ensures Elements([x] + xs) == Elements(xs) + {x}
  {
    var r := [x] + xs;
    forall i, j | 0 <= i < j < |r| ensures Less(r[i], r[j]) {
      if i == 0 && j > 1 {
        LessTransitive(x, xs[0], xs[j - 1]);
      }
    }
    ElementsCons(x, xs);
  }

  /** A value above the head, put into the tail, leaves the head in front. */
  lemma InsertAfter(x: string, xs: seq<string>, rest: seq<string>)
    requires StrictlySorted(xs) && |xs| > 0 && x != xs[0] && !Less(x, xs[0])
    requires StrictlySorted(rest) && Elements(rest) == Elements(xs[1..]) + {x}
    ensures StrictlySorted([xs[0]] + rest)
    ensures Elements([xs[0]] + rest) == Elements(xs) + {x}
  {
    LessTotal(x, xs[0]);
    var r := [xs[0]] + rest;
    forall j | 0 <= j < |rest| ensures Less(xs[0], rest[j]) {
      assert rest[j] in Elements(rest);
      if rest[j] != x {
        var k :| 0 <= k < |xs[1..]| && xs[1..][k] == rest[j];
        assert xs[k + 1] == rest[j];
      }
    }
    forall i, j | 0 <= i < j < |r| ensures Less(r[i], r[j]) {
      if i == 0 {
        assert r[j] == rest[j - 1];
      } else {
        assert r[i] == rest[i - 1] && r[j] == rest[j - 1];
      }
    }
    ElementsCons(xs[0], rest);
    ElementsCons(xs[0], xs[1..]);
    assert [xs[0]] + xs[1..] == xs;
  }

  lemma ElementsCons(x: string, xs: seq<string>)
    ensures Elements([x] + xs) == {x} + Elements(xs)
  {
    var r := [x] + xs;
    forall y | y in Elements(r) ensures y in {x} + Elements(xs) {
      var i :| 0 <= i < |r| && r[i] == y;
      if i > 0 {
        assert xs[i - 1] == y;
      }
    }
    forall y | y in Elements(xs) ensures y in Elements(r) {
      var i :| 0 <= i < |xs| && xs[i] == y;
      assert r[i + 1] == y;
    }
    assert r[0] == x;
  }

  /** `sorted(set(xs))`: the distinct values in ascending order. */
  function SortedSet(xs: seq<string>): (r: seq<string>)
    ensures StrictlySorted(r)
    ensures Elements(r) == Elements(xs)
  {
    if |xs| == 0 then []
    else
      var init := xs[..|xs| - 1];
      ElementsSnoc(init, xs[|xs| - 1]);
      Insert(xs[|xs| - 1], SortedSet(init))
  }

  lemma ElementsSnoc(init: seq<string>, x: string)
    ensures Elements(init + [x]) == Elements(init) + {x}
  {
    var r := init + [x];
    forall y | y in Elements(r) ensures y in Elements(init) + {x} {
      var i :| 0 <= i < |r| && r[i] == y;
      if i < |init| {
        assert init[i] == y;
      }
    }
    forall y | y in Elements(init) ensures y in Elements(r) {
      var i :| 0 <= i < |init| && init[i] == y;
      assert r[i] == y;
    }
    assert r[|init|] == x;
  }

  /** `format_sources(ctx)`. */
  function FormatSources(ctx: seq<Document>): string
  {
    Join(SortedSet(SourceList(ctx)), ", ")
  }

  /** The head of a strictly sorted list is below every later value. */
  lemma HeadIsLeast(xs: seq<string>, y: string)
    requires StrictlySorted(xs) && |xs| > 0 && y in Elements(xs) && y != xs[0]
    ensures Less(xs[0], y)
  {
    var k :| 0 <= k < |xs| && xs[k] == y;
  }

  /** A strictly sorted list holds each of its values once. */
  lemma SortedDistinct(xs: seq<string>)
    requires StrictlySorted(xs)
    ensures forall i, j :: 0 <= i < j < |xs| ==> xs[i] != xs[j]
  {
    forall i, j | 0 <= i < j < |xs| ensures xs[i] != xs[j] {
      LessIrreflexive(xs[i]);
    }
  }

  /** Dropping the head of a strictly sorted list drops just that value. */
  lemma TailElements(xs: seq<string>)
    requires StrictlySorted(xs) && |xs| > 0
    ensures Elements(xs[1..]) == Elements(xs) - {xs[0]}
  {
    ElementsCons(xs[0], xs[1..]);
    assert [xs[0]] + xs[1..] == xs;
    SortedDistinct(xs);
  }

  /** There is only one strictly sorted list of a given set of values, so `sorted(set(xs))`
      depends on nothing but which values occur. */
  lemma {:induction false} SortedUnique(a: seq<string>, b: seq<string>)
    requires StrictlySorted(a) && StrictlySorted(b) && Elements(a) == Elements(b)
    ensures a == b
    decreases |a|
  {
    SortedCount(a);
    SortedCount(b);
    if |a| > 0 {
      assert a[0] in Elements(b);
      assert b[0] in Elements(a);
      if a[0] != b[0] {
        HeadIsLeast(a, b[0]);
        HeadIsLeast(b, a[0]);
        LessAsymmetric(a[0], b[0]);
      }
      TailElements(a);
      TailElements(b);
      assert StrictlySorted(a[1..]) && StrictlySorted(b[1..]);
      SortedUnique(a[1..], b[1..]);
      assert a == [a[0]] + a[1..] && b == [b[0]] + b[1..];
    }
  }

  /** `SortedSet(xs)` is the one list that is strictly sorted and holds the values of `xs`. */
  lemma SortedSetIff(xs: seq<string>, r: seq<string>)
    ensures r == SortedSet(xs) <==> StrictlySorted(r) && Elements(r) == Elements(xs)
  {
    if StrictlySorted(r) && Elements(r) == Elements(xs) {
      SortedUnique(r, SortedSet(xs));
    }
  }

  /** Each distinct value appears exactly once: as many entries as distinct values. */
  lemma {:induction false} SortedSetSize(xs: seq<string>)
    ensures |SortedSet(xs)| == |Elements(xs)|
  {
    SortedCount(SortedSet(xs));
  }

  lemma {:induction false} SortedCount(r: seq<string>)
    requires StrictlySorted(r)
    ensures |Elements(r)| == |r|
  {
    if |r| > 0 {
      TailElements(r);
      assert StrictlySorted(r[1..]);
      SortedCount(r[1..]);
      assert r[0] in Elements(r);
    }
  }

  /** The output depends only on which sources occur, not on their order or repetition. */
  lemma FormatSourcesOrderFree(ctx1: seq<Document>, ctx2: seq<Document>)
    requires Elements(SourceList(ctx1)) == Elements(SourceList(ctx2))
    ensures FormatSources(ctx1) == FormatSources(ctx2)
  {
    SortedUnique(SortedSet(SourceList(ctx1)), SortedSet(SourceList(ctx2)));
  }

  /** Joining a list that starts with a non-empty string gives a non-empty string. */
  lemma JoinNonEmpty(xs: seq<string>, sep: string)
    requires |xs| > 0 && xs[0] != ""
    ensures Join(xs, sep) != ""
  {
  }

  /** The output is empty exactly when there are no documents: every source is non-empty. */
  lemma FormatSourcesEmpty(ctx: seq<Document>)
    ensures FormatSources(ctx) == "" <==> |ctx| == 0
  {
    var r := SortedSet(SourceList(ctx));
    if |ctx| > 0 {
      assert SourceList(ctx)[0] in Elements(SourceList(ctx));
      assert |r| > 0;
      assert r[0] in Elements(SourceList(ctx));
      var k :| 0 <= k < |ctx| && SourceList(ctx)[k] == r[0];
      JoinNonEmpty(r, ", ");
    } else {
      assert Elements(SourceList(ctx)) == {};
      SortedSetIff(SourceList(ctx), []);
    }
  }

  /** The fallback chain: "source" first, then "file_path", an empty value counting as missing. */
  lemma ExampleFallbacks()
    ensures SourceOf(Document("", map["source" := "a.csv", "file_path" := "b.txt"])) == "a.csv"
    ensures SourceOf(Document("", map["source" := "", "file_path" := "b.txt"])) == "b.txt"
    ensures SourceOf(Document("", map["file_path" := ""])) == "unknown"
    ensures SourceOf(Document("", map[])) == "unknown"
  {
    assert !HasValue(map["source" := "", "file_path" := "b.txt"], "source");
    assert !HasValue(map["file_path" := ""], "source");
  }

  lemma SourcesOfExample(a: Document, b: Document)
    requires a == Document("x", map["source" := "a.csv"]) && b == Document("y", map["source" := "b.csv"])
    ensures SourceList([b, a, a]) == ["b.csv", "a.csv", "a.csv"]
  {
  }

  lemma ElementsOfExample()
    ensures Elements(["b.csv", "a.csv", "a.csv"]) == {"a.csv", "b.csv"}
    ensures Elements(["a.csv", "b.csv"]) == {"a.csv", "b.csv"}
  {
    var l, m := ["b.csv", "a.csv", "a.csv"], ["a.csv", "b.csv"];
    assert l[0] == "b.csv" && l[1] == "a.csv";
    assert m[0] == "a.csv" && m[1] == "b.csv";
  }

  /** Two documents from "b.csv" and "a.csv", one of them twice, give "a.csv, b.csv". */
  lemma ExampleFormat(a: Document, b: Document)
    requires a == Document("x", map["source" := "a.csv"]) && b == Document("y", map["source" := "b.csv"])
    ensures FormatSources([b, a, a]) == "a.csv, b.csv"
  {
    SourcesOfExample(a, b);
    ElementsOfExample();
    assert Less("a.csv", "b.csv");
    SortedSetIff(["b.csv", "a.csv", "a.csv"], ["a.csv", "b.csv"]);
    assert Join(["a.csv", "b.csv"], ", ") == "a.csv, b.csv";
  }
}
