/**
 * `extract_product_info`: each retrieved fragment that reads as
 * "name, category, price, discount, source" becomes one product record,
 * filed under the product's name in encounter order.
 */
module Extraction {
  import opened Wrappers
  import opened Strings
  import opened Numbers
  import opened Discount
  import opened Documents

  /** The dictionary the source appends for each accepted fragment. */
  datatype ProductRecord = ProductRecord(
    category: string,
    price: real,
    discount: string,
    discountedPrice: real,
    source: string)

  /** An accepted fragment: the product name and the record filed under it. */
  datatype Entry = Entry(product: string, record: ProductRecord)

  predicate IsPriceChar(c: char)
  {
    IsDigit(c) || c == '.'
  }

  /** `re.sub(r"[^\d.]", "", raw)`: keeps the digits and dots, in order. */
  function CleanPrice(raw: string): (clean: string)
    ensures DecimalChars(clean) && |clean| <= |raw|
  {
    if |raw| == 0 then ""
    else (if IsPriceChar(raw[0]) then [raw[0]] else "") + CleanPrice(raw[1..])
  }

  /** Cleaning keeps every digit and dot as often as it occurs and drops everything else. */
  lemma {:induction false} CleanPriceCounts(raw: string, c: char)
    ensures Count(CleanPrice(raw), c) == if IsPriceChar(c) then Count(raw, c) else 0
  {
    if |raw| > 0 {
      var head := if IsPriceChar(raw[0]) then [raw[0]] else "";
      CleanPriceCounts(raw[1..], c);
      CountConcat(head, CleanPrice(raw[1..]), c);
    }
  }

  /** Cleaning works piece by piece. */
  lemma {:induction false} CleanPriceConcat(a: string, b: string)
    ensures CleanPrice(a + b) == CleanPrice(a) + CleanPrice(b)
  {
    if |a| == 0 {
      assert a + b == b;
    } else {
      var head := if IsPriceChar(a[0]) then [a[0]] else "";
      assert (a + b)[0] == a[0];
      assert (a + b)[1..] == a[1..] + b;
      assert CleanPrice(a + b) == head + CleanPrice(a[1..] + b);
      CleanPriceConcat(a[1..], b);
      assert head + (CleanPrice(a[1..]) + CleanPrice(b)) == (head + CleanPrice(a[1..])) + CleanPrice(b);
    }
  }

  /** A string of digits and dots is already clean, and only such a string is. */
  lemma {:induction false} CleanPriceFixed(raw: string)
    ensures CleanPrice(raw) == raw <==> DecimalChars(raw)
  {
    if |raw| > 0 {
      CleanPriceFixed(raw[1..]);
      if !IsPriceChar(raw[0]) {
        assert |CleanPrice(raw)| < |raw|;
      }
    }
  }

  /** Cleaning twice is cleaning once. */
  lemma CleanPriceIdempotent(raw: string)
    ensures CleanPrice(CleanPrice(raw)) == CleanPrice(raw)
  {
    CleanPriceFixed(CleanPrice(raw));
  }

  /** The price of a fragment: `float()` of the cleaned text, None where it raises. */
  function ParsePrice(raw: string): Option<real>
  {
    ParseFloat(CleanPrice(raw))
  }

  /** The price is read exactly when the cleaned text is a decimal (so not empty, not
      "." alone, not with two dots), and it is never negative. */
  lemma ParsePriceDefined(raw: string)
    ensures ParsePrice(raw).Some? <==> IsUnsignedDecimal(CleanPrice(raw))
    ensures ParsePrice(raw).Some? ==> ParsePrice(raw).value >= 0.0
  {
    ParseFloatOfDecimalChars(CleanPrice(raw));
  }

  /** `[p.strip() for p in parts]`. */
  function StripEach(parts: seq<string>): (r: seq<string>)
    ensures |r| == |parts|
    ensures forall i :: 0 <= i < |parts| ==> r[i] == Strip(parts[i], Whitespace)
  {
    if |parts| == 0 then [] else [Strip(parts[0], Whitespace)] + StripEach(parts[1..])
  }

  /** The trimmed fields of a fragment: trim the text, split it on ',', trim each part. */
  function Parts(text: string): seq<string>
  {
    StripEach(Split(Strip(text, Whitespace), ','))
  }

  /** The record a fragment gives, or None when it is skipped: fewer than five parts,
      or a price that cannot be read. Parts after the fifth are not looked at. */
  function ParseFragment(text: string): Option<Entry>
  {
    var parts := Parts(text);
    if |parts| < 5 then None
    else
      match ParsePrice(parts[2])
      case None => None
      case Some(price) =>
        Some(Entry(parts[0], ProductRecord(parts[1], price, parts[3],
          CalculateDiscountedPrice(price, parts[3]), parts[4])))
  }

  /** Trimming the whole text first changes nothing once every part is trimmed:
      the fields are the trimmed parts of the text split on ','. */
  lemma PartsIgnoreOuterStrip(text: string)
    ensures Parts(text) == StripEach(Split(text, ','))
  {
    assert ',' !in Whitespace;
    SplitOfStripped(text, Whitespace, ',');
  }

  /** A fragment has one more field than it has commas. */
  lemma PartsCount(text: string)
    ensures |Parts(text)| == Count(text, ',') + 1
  {
    assert ',' !in Whitespace;
    SplitCount(Strip(text, Whitespace), ',');
    StripKeepsCount(text, Whitespace, ',');
  }

  /** A fragment with fewer than four commas is skipped. */
  lemma FewFieldsSkipped(text: string)
    requires Count(text, ',') < 4
    ensures ParseFragment(text).None?
  {
    PartsCount(text);
  }

  /** A fragment is accepted exactly when it has at least five fields (four commas)
      and its third field, cleaned, is a decimal; the price it records is then not negative. */
  lemma FragmentAccepted(text: string)
    ensures |Parts(text)| >= 5 <==> Count(text, ',') >= 4
    ensures ParseFragment(text).Some? <==>
      |Parts(text)| >= 5 && IsUnsignedDecimal(CleanPrice(Parts(text)[2]))
    ensures ParseFragment(text).Some? ==> ParseFragment(text).value.record.price >= 0.0
  {
    PartsCount(text);
    if |Parts(text)| >= 5 {
      ParsePriceDefined(Parts(text)[2]);
    }
  }

  /** The fields of a row written with `", ".join`-style commas are its trimmed cells. */
  lemma PartsOfRow(cells: seq<string>)
    requires |cells| >= 1
    requires forall i :: 0 <= i < |cells| ==> Lacks(cells[i], ',')
    ensures Parts(Join(cells, ",")) == StripEach(cells)
  {
    PartsIgnoreOuterStrip(Join(cells, ","));
    SplitJoin(cells, ',');
  }

  /** An accepted row files its first trimmed cell as the name and the next four,
      trimmed, as category, price, discount and source; cells after the fifth are ignored. */
  lemma FragmentOfRow(cells: seq<string>, price: real)
    requires |cells| >= 5
    requires forall i :: 0 <= i < |cells| ==> Lacks(cells[i], ',')
    requires ParsePrice(Strip(cells[2], Whitespace)) == Some(price)
    ensures var name, category, discount, source :=
              Strip(cells[0], Whitespace), Strip(cells[1], Whitespace),
              Strip(cells[3], Whitespace), Strip(cells[4], Whitespace);
            ParseFragment(Join(cells, ",")) == Some(Entry(name, ProductRecord(
              category, price, discount, CalculateDiscountedPrice(price, discount), source)))
  {
    PartsOfRow(cells);
  }

  /** A row whose third cell has no readable price is skipped. */
  lemma RowWithoutPriceSkipped(cells: seq<string>)
    requires |cells| >= 5
    requires forall i :: 0 <= i < |cells| ==> Lacks(cells[i], ',')
    requires ParsePrice(Strip(cells[2], Whitespace)).None?
    ensures ParseFragment(Join(cells, ",")).None?
  {
    PartsOfRow(cells);
  }

  /** What one document contributes: its entry, or nothing when it is skipped. */
  function EntryOf(d: Document): (r: seq<Entry>)
    ensures |r| <= 1
  {
    match ParseFragment(d.pageContent)
    case Some(e) => [e]
    case None => []
  }

  /** The entries of the documents in the order they are read, skipped ones left out. */
  function Accepted(ctx: seq<Document>): (entries: seq<Entry>)
    ensures |entries| <= |ctx|
  {
    if |ctx| == 0 then [] else Accepted(ctx[..|ctx| - 1]) + EntryOf(ctx[|ctx| - 1])
  }

  /** The records filed under `name`, in the order their entries come. */
  function RecordsOf(entries: seq<Entry>, name: string): seq<ProductRecord>
  {
    if |entries| == 0 then []
    else
      var last := entries[|entries| - 1];
      RecordsOf(entries[..|entries| - 1], name) + (if last.product == name then [last.record] else [])
  }

  /** The product names the entries file records under. */
  function Names(entries: seq<Entry>): set<string>
  {
    set i | 0 <= i < |entries| :: entries[i].product
  }

  /** `results` files exactly the records of `entries`: one key per name, and under
      each key that name's records in order. */
  predicate Files(results: map<string, seq<ProductRecord>>, entries: seq<Entry>)
  {
    results.Keys == Names(entries) &&
    forall name :: name in results ==> results[name] == RecordsOf(entries, name)
  }

  /** `extract_product_info(ctx)`: for each document, trim its text, split it on ',',
      trim every part; with at least five parts, clean and read the price, skipping
      the document when that fails, and append the record under the product's name. */
  method ExtractProductInfo(ctx: seq<Document>) returns (results: map<string, seq<ProductRecord>>)
    ensures results.Keys == Names(Accepted(ctx))
    ensures forall name :: name in results ==> results[name] == RecordsOf(Accepted(ctx), name)
  {
    results := map[];
    for i := 0 to |ctx|
      invariant Files(results, Accepted(ctx[..i]))
    {
      var text := Strip(ctx[i].pageContent, Whitespace);
      var parts := StripEach(Split(text, ','));
      FragmentSteps(ctx[i].pageContent, parts);
      if |parts| >= 5 {
        var product, category, rawPrice, discount, source := parts[0], parts[1], parts[2], parts[3], parts[4];
        var parsed := ParseFloat(CleanPrice(rawPrice));
        if parsed.None? {
          SkippedStep(ctx, i);
          continue;
        }
        var price := parsed.value;
        var discountedPrice := CalculateDiscountedPrice(price, discount);
        var record := ProductRecord(category, price, discount, discountedPrice, source);
        AcceptedStep(ctx, i, Entry(product, record));
        FileStep(results, Accepted(ctx[..i]), Entry(product, record));
        var prior := if product in results then results[product] else [];
        results := results[product := prior + [record]];
      } else {
        SkippedStep(ctx, i);
      }
    }
    assert ctx[..|ctx|] == ctx;
  }

  /** The steps the loop takes on one document decide its entry as `ParseFragment` does. */
  lemma FragmentSteps(text: string, parts: seq<string>)
    requires parts == StripEach(Split(Strip(text, Whitespace), ','))
    ensures |parts| < 5 ==> ParseFragment(text).None?
    ensures |parts| >= 5 && ParseFloat(CleanPrice(parts[2])).None? ==> ParseFragment(text).None?
    ensures |parts| >= 5 && ParseFloat(CleanPrice(parts[2])).Some? ==>
      var price := ParseFloat(CleanPrice(parts[2])).value;
      ParseFragment(text) == Some(Entry(parts[0], ProductRecord(parts[1], price, parts[3],
        CalculateDiscountedPrice(price, parts[3]), parts[4])))
  {
  }

  /** Appending an entry's record under its name files one more entry. */
  lemma FileStep(results: map<string, seq<ProductRecord>>, entries: seq<Entry>, e: Entry)
    requires Files(results, entries)
    ensures var prior := if e.product in results then results[e.product] else [];
            Files(results[e.product := prior + [e.record]], entries + [e])
  {
    EntryAdded(entries, e);
    if e.product !in results {
      assert e.product !in Names(entries);
      NamelessHasNoRecords(entries, e.product);
    }
  }

  /** A name no entry carries has no records. */
  lemma {:induction false} NamelessHasNoRecords(entries: seq<Entry>, name: string)
    requires name !in Names(entries)
    ensures RecordsOf(entries, name) == []
  {
    if |entries| > 0 {
      var init := entries[..|entries| - 1];
      assert entries[|entries| - 1].product in Names(entries);
      assert Names(init) <= Names(entries) by {
        forall i | 0 <= i < |init| ensures init[i].product in Names(entries) {
          assert init[i] == entries[i];
        }
      }
      NamelessHasNoRecords(init, name);
    }
  }

  /** A document that gives an entry adds it after the entries read before it. */
  lemma AcceptedStep(ctx: seq<Document>, i: nat, e: Entry)
    requires i < |ctx| && ParseFragment(ctx[i].pageContent) == Some(e)
    ensures Accepted(ctx[..i + 1]) == Accepted(ctx[..i]) + [e]
  {
    var a := ctx[..i + 1];
    assert a[..i] == ctx[..i] && a[i] == ctx[i];
    assert EntryOf(ctx[i]) == [e];
    assert Accepted(a) == Accepted(a[..i]) + EntryOf(a[i]);
  }

  /** A skipped document adds nothing. */
  lemma SkippedStep(ctx: seq<Document>, i: nat)
    requires i < |ctx| && ParseFragment(ctx[i].pageContent).None?
    ensures Accepted(ctx[..i + 1]) == Accepted(ctx[..i])
  {
    assert ctx[..i + 1][..i] == ctx[..i];
    assert Accepted(ctx[..i]) + [] == Accepted(ctx[..i]);
  }

  /** One more entry adds its name and appends its record under that name only. */
  lemma EntryAdded(entries: seq<Entry>, e: Entry)
    ensures Names(entries + [e]) == Names(entries) + {e.product}
    ensures forall name ::
      RecordsOf(entries + [e], name) == RecordsOf(entries, name) + (if e.product == name then [e.record] else [])
  {
    var all := entries + [e];
    assert all[..|all| - 1] == entries;
    assert forall i :: 0 <= i < |entries| ==> all[i] == entries[i];
    assert all[|entries|] == e;
  }

  /** A name is a key exactly when at least one record is filed under it. */
  lemma {:induction false} NamesHaveRecords(entries: seq<Entry>, name: string)
    ensures name in Names(entries) <==> RecordsOf(entries, name) != []
  {
    if |entries| > 0 {
      var init, last := entries[..|entries| - 1], entries[|entries| - 1];
      assert entries == init + [last];
      EntryAdded(init, last);
      NamesHaveRecords(init, name);
    }
  }

  /** Reading more documents after some others keeps the entries already read, in order. */
  lemma {:induction false} AcceptedConcat(a: seq<Document>, b: seq<Document>)
    ensures Accepted(a + b) == Accepted(a) + Accepted(b)
    decreases |b|
  {
    if |b| == 0 {
      assert a + b == a;
    } else {
      var init := b[..|b| - 1];
      assert (a + b)[..|a + b| - 1] == a + init;
      assert (a + b)[|a + b| - 1] == b[|b| - 1];
      AcceptedConcat(a, init);
    }
  }

  /** The records under a name, for entries read in two runs, are the first run's
      followed by the second's. */
  lemma {:induction false} RecordsOfConcat(x: seq<Entry>, y: seq<Entry>, name: string)
    ensures RecordsOf(x + y, name) == RecordsOf(x, name) + RecordsOf(y, name)
    decreases |y|
  {
    if |y| == 0 {
      assert x + y == x;
    } else {
      var init := y[..|y| - 1];
      assert (x + y)[..|x + y| - 1] == x + init;
      assert (x + y)[|x + y| - 1] == y[|y| - 1];
      RecordsOfConcat(x, init, name);
    }
  }

  /** Records are never overwritten: what the first documents file under a name stays
      at the front of that name's list after any further documents. */
  lemma EncounterOrder(a: seq<Document>, b: seq<Document>, name: string)
    ensures RecordsOf(Accepted(a + b), name) ==
      RecordsOf(Accepted(a), name) + RecordsOf(Accepted(b), name)
  {
    AcceptedConcat(a, b);
    RecordsOfConcat(Accepted(a), Accepted(b), name);
  }

  /** A skipped document (too few fields, or an unreadable price) changes nothing. */
  lemma SkippedDocument(ctx: seq<Document>, d: Document)
    requires ParseFragment(d.pageContent).None?
    ensures Accepted(ctx + [d]) == Accepted(ctx)
  {
    AcceptedConcat(ctx, [d]);
    assert Accepted([d]) == Accepted([]) + EntryOf(d);
    assert Accepted(ctx) + [] == Accepted(ctx);
  }

  /** An accepted document appends exactly one record, under its own name, and leaves
      every other name's records as they were. */
  lemma AcceptedDocument(ctx: seq<Document>, d: Document, e: Entry)
    requires ParseFragment(d.pageContent) == Some(e)
    ensures Names(Accepted(ctx + [d])) == Names(Accepted(ctx)) + {e.product}
    ensures RecordsOf(Accepted(ctx + [d]), e.product) == RecordsOf(Accepted(ctx), e.product) + [e.record]
    ensures forall name :: name != e.product ==>
      RecordsOf(Accepted(ctx + [d]), name) == RecordsOf(Accepted(ctx), name)
  {
    AcceptedConcat(ctx, [d]);
    assert Accepted([d]) == Accepted([]) + EntryOf(d);
    EntryAdded(Accepted(ctx), e);
  }

  /** An entry that is read comes from some document that gives it. */
  lemma {:induction false} AcceptedFromDocument(ctx: seq<Document>, e: Entry)
    requires e in Accepted(ctx)
    ensures exists i :: 0 <= i < |ctx| && ParseFragment(ctx[i].pageContent) == Some(e)
  {
    var n := |ctx| - 1;
    var init := ctx[..n];
    assert Accepted(ctx) == Accepted(init) + EntryOf(ctx[n]);
    if e in Accepted(init) {
      AcceptedFromDocument(init, e);
      var i :| 0 <= i < |init| && ParseFragment(init[i].pageContent) == Some(e);
      assert init[i] == ctx[i];
    } else {
      assert ParseFragment(ctx[n].pageContent) == Some(e);
    }
  }

  /** The entry a document gives is read. */
  lemma {:induction false} DocumentAccepted(ctx: seq<Document>, i: nat, e: Entry)
    requires i < |ctx| && e in EntryOf(ctx[i])
    ensures e in Accepted(ctx)
  {
    var n := |ctx| - 1;
    var init := ctx[..n];
    assert Accepted(ctx) == Accepted(init) + EntryOf(ctx[n]);
    var a, t := Accepted(init), EntryOf(ctx[n]);
    if i < n {
      assert init[i] == ctx[i];
      DocumentAccepted(init, i, e);
      assert e in a;
    } else {
      assert i == n;
    }
    assert e in a + t;
  }

  /** An entry is read exactly when some document gives it. */
  lemma AcceptedMembers(ctx: seq<Document>, e: Entry)
    ensures e in Accepted(ctx) <==>
      exists i :: 0 <= i < |ctx| && ParseFragment(ctx[i].pageContent) == Some(e)
  {
    if e in Accepted(ctx) {
      AcceptedFromDocument(ctx, e);
    }
    if exists i :: 0 <= i < |ctx| && ParseFragment(ctx[i].pageContent) == Some(e) {
      var i :| 0 <= i < |ctx| && ParseFragment(ctx[i].pageContent) == Some(e);
      assert e in EntryOf(ctx[i]);
      DocumentAccepted(ctx, i, e);
    }
  }

  /** A record is filed under a name exactly when the entries hold that name with it. */
  lemma {:induction false} RecordsOfMembers(entries: seq<Entry>, name: string, r: ProductRecord)
    ensures r in RecordsOf(entries, name) <==> Entry(name, r) in entries
  {
    if |entries| > 0 {
      var init, last := entries[..|entries| - 1], entries[|entries| - 1];
      assert entries == init + [last];
      RecordsOfMembers(init, name, r);
    }
  }

  /** Every filed record comes from a document that gives it, and every document that
      gives a record has it filed under its name. */
  lemma RecordsFromDocuments(ctx: seq<Document>, name: string, r: ProductRecord)
    ensures r in RecordsOf(Accepted(ctx), name) <==>
      exists i :: 0 <= i < |ctx| && ParseFragment(ctx[i].pageContent) == Some(Entry(name, r))
  {
    RecordsOfMembers(Accepted(ctx), name, r);
    AcceptedMembers(ctx, Entry(name, r));
  }
}
