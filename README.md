# Product extraction helpers of the dataset assistant, in Dafny

The assistant answers questions from a product catalogue. It retrieves text fragments
(LangChain `Document`s) and post-processes them with three helpers in `utils.py`. This
project models those three helpers and proves what they promise.

- `calculate_discounted_price(price, discount)` reads a discount written as `"20%"`,
  `"20"` or `"0.2"`. It takes that discount off the price and rounds to cents. When
  the discount cannot be read, it returns the price unchanged. This is module
  `Discount` (`discount.dfy`).
- `extract_product_info(ctx)` turns every fragment of the form
  `name, category, price, discount, source` into a record. It files each record under
  the product's name, in the order the fragments come. This is module `Extraction`
  (`extraction.dfy`), with worked fragments in `ExtractionExamples`
  (`extraction_examples.dfy`). The loop is a `method` over a `map` that it reassigns,
  and its invariant ties the map to a specification:
  - `Accepted(ctx)` lists, in order, the entries of the fragments the loop keeps;
  - `RecordsOf(entries, name)` lists the records filed under one name.

  The method's postcondition says the map has exactly the names of `Accepted(ctx)` as
  keys, and exactly `RecordsOf(Accepted(ctx), name)` under each key. Lemmas then prove
  what the source promises about that specification: encounter order, never
  overwriting, skipped fragments, and where every record comes from.
- `format_sources(ctx)` gives the document's source through a fallback chain:
  `"source"`, then `"file_path"`, then `"unknown"`. It keeps each distinct value once,
  sorts them and joins them with `", "`. This is module `Sources` (`sources.dfy`).

Python's own operations are modelled in supporting modules:
- `Strings` (`strings.dfy`): `str.strip`, `split` on one character, `join`, and the
  code-point order `sorted` uses.
- `Numbers` (`numbers.dfy`): `float()` on plain decimals and `round(x, 2)`. `float()`
  skips fewer characters around a number than `strip()` removes. CPython turns the
  Unicode spaces above U+007F into `' '` and then skips only ASCII whitespace, so the
  separators U+001C to U+001F are rejected by `float()` although `str.isspace()` holds
  for them (`Numbers.FloatWhitespace`, `Discount.ExampleFileSeparator`).
- `Documents` and `Wrappers`: the document type and `Option`. `Option` stands where
  the source relies on `float()` raising.

Prices are exact reals. `round(x, 2)` is the nearest hundredth on the exact value,
with ties going to the even hundredth, as Python's rounding does.

### Where the code does something a reader might not expect

The model follows the code in all three cases.
- **Discount "1".** One might read `"1"` as a 1% discount, so that 100 becomes 99.
  In the code, only values strictly above 1 are divided by 100. So `"1"` is an
  ordinary fraction: 1.0, or the whole price. `Discount.DiscountOfOne` and
  `Discount.ExampleOne` prove that the price becomes 0.
- **Thousands separator.** One might expect a price such as `"$1,200.50"` to read
  as 1200.50. That holds for the price cleaner on its own
  (`ExtractionExamples.ThousandsCleaned`). Inside a fragment, however, the text is
  split at every `,` before the price is cleaned, so the comma moves every later
  field along by one. In `ExtractionExamples.ExampleSeparator`, the fragment
  `"Lamp, Home, $1,200.50, 10%, shop.csv"` gets:
  - price 1;
  - discount `"200.50"`, which is a percentage of 200.5;
  - discounted price -1;
  - source `"10%"`.
- **Negative discounts.** The docstring at utils.py:63 lists only three discount
  forms, all positive. In the code, a negative discount such as `"-10"` is not
  above 1. So it is used as the fraction -10, and the price rises eleven-fold
  (`Discount.ExampleNegative`).

## Model

| member | source | states |
|---|---|---|
| Discount.DiscountText | utils.py:65-68 | Definition: with a '%' anywhere, the discount with its end '%' characters stripped; otherwise the discount itself. |
| Discount.DiscountNumber | utils.py:65-68 | Definition: `float()` of `DiscountText`; its readability is stated by `Discount.UnreadableKeepsPrice`. |
| Discount.DiscountFraction | utils.py:64-70 | Definition of the fraction taken off: the number over 100 with a '%' or above 1, else the number itself; its cases are stated by `Discount.PercentAround`, `Discount.PercentSignOptionalAboveOne` and `Discount.FractionUpToOne`. |
| Discount.ApplyFraction | utils.py:71 | Definition: `round(price - price * fraction, 2)`; see `Discount.ApplyFractionNearest`. |
| Discount.CalculateDiscountedPrice | utils.py:62-73 | Definition of `calculate_discounted_price`; its results are stated by `Discount.DiscountedPriceNearest`, `Discount.UnreadableKeepsPrice` and `Discount.DiscountedWithinPrice`. |
| Discount.DiscountedPriceNearest | utils.py:62-71 | For a readable discount with fraction `f`, the result is a whole number of cents. It is at most half a cent away from `price - price * f`. |
| Discount.ApplyFractionNearest | utils.py:71 | `round(price - price * fraction, 2)` is a whole number of cents within half a cent of the exact value. |
| Discount.UnreadableKeepsPrice | utils.py:64-73 | A discount is unreadable exactly when, after its end '%' characters (if it holds a '%') and then the whitespace `float()` skips are stripped, what is left is not a signed decimal. An unreadable discount returns the price unchanged, whatever the price. |
| Discount.PercentAround | utils.py:65-66 | One or more '%' at either end of a '%'-free number (`"%20"`, `"20%%"`) make the fraction that number over 100. |
| Discount.PercentSuffix | utils.py:65-66 | Writing '%' after a '%'-free number makes the fraction that number over 100. |
| Discount.PercentSignOptionalAboveOne | utils.py:65-70 | Above 1, `"n%"` and `"n"` give the same fraction, n/100. |
| Discount.FractionUpToOne | utils.py:65-70 | Up to 1, `"n"` is the fraction n itself, while `"n%"` is n/100. |
| Discount.FractionBounds | utils.py:64-70 | A discount is readable exactly when its number is. A number from 0 to 100 gives a fraction from 0 to 1. |
| Discount.DiscountedWithinPrice | utils.py:62-71 | With a price that is not negative and a fraction from 0 to 1, the result lies between 0 and the rounded price. |
| Discount.DiscountOfOne | utils.py:67-71 | A plain discount that reads as exactly 1 is the fraction 1, so the result is 0. |
| Discount.ExampleTwentyPercent | utils.py:63-66 | `"20%"` takes 100 to 80. |
| Discount.ExampleTwenty | utils.py:63-70 | `"20"` takes 100 to 80. |
| Discount.ExampleFraction | utils.py:63-70 | `"0.2"` takes 100 to 80. |
| Discount.ExampleOne | utils.py:67-71 | `"1"` takes 100 to 0. |
| Discount.ExampleWord | utils.py:72-73 | `"abc"` leaves 100 unchanged. |
| Discount.ExampleNegative | utils.py:67-71 | `"-10"` takes 100 to 1100. |
| Discount.ExampleHalfPercent | utils.py:65-66 | `"0.5%"` is the fraction 0.005. |
| Discount.ExampleFileSeparator | utils.py:65-66 | `"20"`, U+001C and `"%"`: `strip('%')` leaves U+001C, which `float()` does not skip, so 100 stays 100. |
| Discount.ExampleInnerPercent | utils.py:65-73 | `strip('%')` removes '%' only at the ends, so `"2%0"` cannot be read and 100 stays 100. |
| Numbers.ParseFloat | utils.py:66-68 | Definition of `float()` on plain decimals; its domain is stated by `Numbers.ParseFloatDefined`. |
| Numbers.ParseFloatDefined | utils.py:66-68 | `float()` reads a text exactly when, once the whitespace it skips is stripped, the rest is an unsigned decimal with at most one leading '+' or '-'. |
| Numbers.ParseSignedDefined | utils.py:66-68 | A text with its whitespace gone is read exactly when it is an unsigned decimal with at most one leading sign. |
| Numbers.ParseUnsignedDefined | utils.py:66-68 | An unsigned number is read exactly when it has only digits and at most one dot, with at least one digit. |
| Numbers.ParseFloatOfDecimalChars | utils.py:84 | `float()` of digits and dots reads them as an unsigned decimal, is defined exactly when they form one, and is never negative. |
| Numbers.ParseFloatIgnoresWhitespace | utils.py:68 | Whitespace that `float()` skips (ASCII whitespace and the Unicode spaces above U+007F, not U+001C to U+001F), added around a number, does not change what it reads. |
| Numbers.ReadInteger | utils.py:68 | `float()` reads a run of digits as its integer value. |
| Numbers.ReadUnsignedDecimal | utils.py:84 | Digits, a dot and digits are a decimal, read as the whole part plus the fraction. |
| Numbers.ReadDecimal | utils.py:84 | `float()` reads digits, a dot and digits as the whole part plus the fraction. |
| Numbers.ReadTenths | utils.py:68 | `"0.d"` reads as d/10. |
| Numbers.Round2 | utils.py:71 | Definition of `round(x, 2)`: the nearest hundredth, a tie going to the even one; see `Numbers.Round2Nearest`. |
| Numbers.Round2Nearest | utils.py:71 | `round(x, 2)` is a whole number of hundredths, at most half a hundredth from `x`. |
| Numbers.Round2Exact | utils.py:71 | Rounding leaves a whole number of hundredths unchanged. |
| Numbers.Round2Monotone | utils.py:71 | Rounding preserves order. |
| Numbers.Round2Between | utils.py:71 | A value from 0 to `p` rounds to a value from 0 to the rounded `p`. |
| Strings.Strip | utils.py:66 | `s.strip(cs)`: the result is no longer than `s`; see `Strings.StripSlice`. |
| Strings.StripSlice | utils.py:79 | `strip()` leaves a contiguous slice. It removes only whitespace from both ends, and what it leaves neither starts nor ends with whitespace. |
| Strings.StripIdempotent | utils.py:79-80 | Stripping twice is stripping once. |
| Strings.StripIgnoresAround | utils.py:79 | Whitespace added on both sides does not change the stripped text. |
| Strings.Split | utils.py:80 | `s.split(sep)`: there is always at least one part; see `Strings.SplitCount`, `Strings.JoinSplit`. |
| Strings.Join | utils.py:100 | Definition of `sep.join(xs)`; see `Strings.JoinSplit`, `Strings.SplitJoin`. |
| Strings.SplitCount | utils.py:80-81 | `split(",")` gives one more part than there are commas. |
| Strings.JoinSplit | utils.py:80 | Joining the parts of a split with the separator gives back the text. |
| Strings.SplitJoin | utils.py:80 | Splitting a join of separator-free parts gives back the parts. |
| Strings.SplitOfStripped | utils.py:79-80 | Removing whitespace before the split gives as many parts, each the same once trimmed. |
| Strings.Less | utils.py:100 | Definition of `<` on strings, by code point; see `Strings.LessTotal`, `Strings.LessTransitive`, `Strings.LessAsymmetric`. |
| Strings.LessTotal | utils.py:100 | Any two distinct strings are ordered one way or the other. |
| Strings.LessTransitive | utils.py:100 | The string order is transitive. |
| Strings.LessAsymmetric | utils.py:100 | No two strings are each below the other. |
| Extraction.CleanPrice | utils.py:84 | The cleaned price holds only digits and dots, and is no longer than the raw text. |
| Extraction.CleanPriceCounts | utils.py:84 | Cleaning keeps every digit and dot as often as it occurs, and drops every other character. |
| Extraction.CleanPriceConcat | utils.py:84 | Cleaning works piece by piece. |
| Extraction.CleanPriceFixed | utils.py:84 | A text is unchanged by cleaning exactly when it holds only digits and dots. |
| Extraction.CleanPriceIdempotent | utils.py:84 | Cleaning twice is cleaning once. |
| Extraction.ParsePrice | utils.py:84 | Definition: `float(re.sub(r"[^\d.]", "", price))`; see `Extraction.ParsePriceDefined`. |
| Extraction.ParsePriceDefined | utils.py:83-86 | The price is read exactly when the cleaned text is a decimal, and it is never negative. |
| Extraction.StripEach | utils.py:80 | Each part is trimmed and stays in the same position, and the number of parts is kept. |
| Extraction.Parts | utils.py:79-80 | Definition of the fields of a fragment; see `Extraction.StripEach`, `Extraction.PartsCount`. |
| Extraction.ParseFragment | utils.py:79-94 | Definition of one loop iteration's result: None when skipped, else the product name and its record; see `Extraction.FragmentAccepted`, `Extraction.FragmentOfRow`. |
| Extraction.PartsIgnoreOuterStrip | utils.py:79-80 | Trimming the whole text first does not change the trimmed fields. |
| Extraction.PartsCount | utils.py:79-81 | A fragment has one field more than it has commas. |
| Extraction.FewFieldsSkipped | utils.py:81 | A fragment with fewer than four commas is skipped. |
| Extraction.FragmentAccepted | utils.py:79-86 | A fragment has at least five fields exactly when it has at least four commas. It is accepted exactly when it has at least five fields and its third field, once cleaned, is a decimal. Its price is then not negative. |
| Extraction.PartsOfRow | utils.py:79-80 | The fields of comma-free cells joined with ',' are the trimmed cells. |
| Extraction.FragmentOfRow | utils.py:80-94 | A row's cells 1 to 5 become name, category, price, discount and source, with the discounted price computed from that price and discount. Later cells are ignored. |
| Extraction.RowWithoutPriceSkipped | utils.py:83-86 | A row whose third cell has no readable price is skipped. |
| Extraction.ExtractProductInfo | utils.py:75-95 | The result's keys are the names of the accepted fragments. Each key holds exactly that name's records, in document order. |
| Extraction.EntryOf | utils.py:81-94 | One document contributes at most one record. |
| Extraction.FileStep | utils.py:88-94 | `setdefault(product, []).append(record)` keeps the dictionary equal to the entries read so far plus the new one. |
| Extraction.EntryAdded | utils.py:88-94 | One more entry adds its name and appends its record under that name only. |
| Extraction.NamelessHasNoRecords | utils.py:88 | A name that no entry carries has no records (the fresh list of `setdefault`). |
| Extraction.NamesHaveRecords | utils.py:88-94 | A name is a key exactly when at least one record is filed under it. |
| Extraction.AcceptedConcat | utils.py:78-94 | Reading more documents keeps the entries already read, in order. |
| Extraction.RecordsOfConcat | utils.py:88-94 | The records under a name for two runs of entries are the first run's followed by the second's. |
| Extraction.EncounterOrder | utils.py:78-94 | Records are never overwritten: the records from earlier documents stay, in order, ahead of the later ones. |
| Extraction.SkippedDocument | utils.py:81-86 | A skipped document changes nothing. |
| Extraction.AcceptedDocument | utils.py:87-94 | An accepted document appends exactly one record, under its own name, and leaves every other name's records unchanged. |
| Extraction.AcceptedFromDocument | utils.py:78-94 | Every entry read comes from some document that gives it. |
| Extraction.DocumentAccepted | utils.py:78-94 | The entry any document gives is read. |
| Extraction.AcceptedMembers | utils.py:78-94 | An entry is read exactly when some document gives it. |
| Extraction.RecordsOfMembers | utils.py:88-94 | A record is filed under a name exactly when the entries hold that name with that record. |
| Extraction.RecordsFromDocuments | utils.py:75-95 | Every filed record comes from a document that gives it, and every such document has its record filed. |
| ExtractionExamples.DollarPrice | utils.py:84 | `"$" + whole + "." + frac` reads as the whole part plus the fraction. |
| ExtractionExamples.ThousandsCleaned | utils.py:84 | The cleaner on its own drops the '$' and a thousands separator. |
| ExtractionExamples.SpacedRow | utils.py:79-94 | A fragment of five cells separated by ", " files them as name, category, price, discount and source. |
| ExtractionExamples.ExampleWidget | utils.py:75-94 | `"Widget, Tools, $50.00, 10%, catalog.csv"` files a Tools record priced 50, discounted to 45, under "Widget". |
| ExtractionExamples.SeparatorRow | utils.py:80-94 | A price written with a thousands separator is cut at its ',', which moves every later field along by one. |
| ExtractionExamples.RoundTieToEven | utils.py:71 | 1 - 2.005 = -1.005 rounds to -1, the even neighbour. |
| ExtractionExamples.ExampleSeparator | utils.py:80-94 | `"Lamp, Home, $1,200.50, 10%, shop.csv"` gives price 1, discount `"200.50"`, discounted price -1 and source `"10%"`. |
| Sources.SourceOf | utils.py:99 | The source is never empty. It is `"source"` when that has a value, otherwise `"file_path"` when that has one, otherwise `"unknown"`. |
| Sources.SourceList | utils.py:99 | One source per document, in document order. |
| Sources.Insert | utils.py:100 | Inserting into a strictly sorted list keeps it strictly sorted and adds exactly the new value. |
| Sources.SortedSet | utils.py:100 | `sorted(set(xs))` is strictly ascending and holds exactly the values of `xs`. |
| Sources.SortedUnique | utils.py:100 | Only one strictly sorted list holds a given set of values. |
| Sources.SortedSetIff | utils.py:100 | A list is `sorted(set(xs))` exactly when it is strictly sorted and holds the values of `xs`. |
| Sources.SortedSetSize | utils.py:100 | The output has as many entries as there are distinct values. |
| Sources.SortedDistinct | utils.py:100 | No value appears twice. |
| Sources.FormatSources | utils.py:97-100 | Definition of `format_sources`; see `Sources.FormatSourcesOrderFree`, `Sources.FormatSourcesEmpty`, `Sources.ExampleFormat`. |
| Sources.FormatSourcesOrderFree | utils.py:97-100 | The output depends only on which sources occur, not on their order or repetition. |
| Sources.FormatSourcesEmpty | utils.py:97-100 | The output is empty exactly when there are no documents. |
| Sources.ExampleFallbacks | utils.py:99 | An empty `"source"` falls through to `"file_path"`, and with neither the source is `"unknown"`. |
| Sources.ExampleFormat | utils.py:97-100 | Sources `b.csv, a.csv, a.csv` format as `"a.csv, b.csv"`. |

## Left out

- `main.py` and `logger.py` are not part of this model.
- utils.py:1-60 is not part of this model: loading the dataset, building the vector store and the retrieval chain are I/O, and calls into LangChain and Groq.
- Numbers.ParseFloat: reads only optional surrounding whitespace (the characters of `Numbers.FloatWhitespace`), one optional sign, and ASCII digits with at most one '.'. Exponents, `inf`/`nan`, underscores and non-ASCII digits are left out, and the model treats those discounts as unreadable.
- Extraction.CleanPrice: keeps ASCII digits only, whereas Python's `\d` also keeps other Unicode decimal digits.
- Numbers.ParseFloat: reads any number of digits exactly, so a price or discount of about 310 digits, which CPython reads as `inf` (and for which `inf - inf * f` is `nan`), gets a finite value here; float overflow is not modelled.
- Numbers.Round2: works on exact reals and not on IEEE doubles, so binary representation error is not modelled. For example, the double computed for 1 - 2.005 lies just above -1.005 and also rounds to -1. A tie that is exact only on paper could round differently.
- Discount.CalculateDiscountedPrice: the discount is always a string, so only `float()` failures reach the `except` branch; other exceptions, such as a non-string discount, are not modelled.
- Extraction.ExtractProductInfo: the result is a `map`, so the insertion order of the dictionary's keys is not modelled. The order of the records under each key is modelled.
- Extraction.ExtractProductInfo: the input list is an immutable sequence of values, so aliasing and mutation of documents during the loop are not modelled.
- Sources.SourceOf: metadata values are strings. A missing key and `""` both fall through `or`, but `None`, numbers and other non-string values are not modelled.
