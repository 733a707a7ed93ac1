# funds-explorer-scraper in Dafny

A model of the data path of the Funds Explorer ranking scraper (`index.js`):

- the callback given to `page.evaluate` builds one object per body row of the ranking table. It copies each body cell under the heading of its column, and the `try`/`catch` around the scrape turns every exception into `undefined`;
- `toModel` turns such an object into a fund record with the fields `code`, `category`, `price`, `liquidity`, `pvpa` and `dy`;
- `toNum` and `percent` normalise Brazilian-formatted figures. The placeholder "N/A" gives 0. Thousands dots are deleted and decimal commas become dots. `percent` also deletes the first `%` and the first space, and the result goes through `parseFloat`, divided by one hundred for `percent`;
- `run` stops when the scrape returned `undefined` and otherwise maps every scraped row through `toModel`.

| module | what it models |
|---|---|
| `Wrappers` | `Option` stands for a value or `undefined`; `Result` stands for a value or a thrown error |
| `JsString` | `String.prototype.trim`, the global-regex `replace` and the first-occurrence string-pattern `replace` |
| `JsNumber` | `parseFloat` as a longest-prefix scanner returning an exact decimal, NaN or a signed infinity, and the `/ 100` |
| `Normalizer` | `toNum` and `percent` |
| `TableExtractor` | the `page.evaluate` callback (a method with a `for` loop over a map) and its `try`/`catch` |
| `RowMapper` | `toModel` |
| `Pipeline` | the mapping step of `run`, and what scrape plus mapping give together |
| `EndToEnd` | one two-row ranking page run through the whole path |

Numbers are exact. `Decimal(m, e)` stands for `m * 10^e`, and dividing by one hundred lowers `e` by two. The model therefore shows exactly which value the code computes, for example 0.0875 for "8,75%", rather than its nearest double.

Behaviour of `index.js` that is easy to miss:

- `percent` deletes only the first `%` and the first space, because `replace` is called with a string pattern; a second `%` or space stays in the text (`Normalizer.PercentCleanCount`).
- A body row with fewer cells than there are headings makes reading `row.cells[i].textContent` throw; the `catch` swallows it, the whole scrape is `undefined`, and `run` stops before mapping (`Pipeline.ShortRowNotScraped`).
- A row missing a numeric heading makes `toModel` throw a `TypeError` from `undefined.trim()`, which nothing catches (`Pipeline.MissingPriceColumnCrashes`).
- Both normalisers return 0 for the placeholder "N/A" with any white space around it, and every other text gives the parse of its cleaned form; a plain "0" therefore also gives 0 (`Normalizer.SentinelPadded`, `Normalizer.ZeroNotOnlySentinel`).
- P/VPA goes through `percent` and is therefore divided by one hundred, like the dividend yield (`RowMapper.PriceToBookDividedBy100`).

## Model

| member | source | states |
|---|---|---|
| JsString.TrimStart | index.js:61 | the result is the suffix of the input after its leading ECMAScript white space, and it starts with a character that is not white space |
| JsString.TrimEnd | index.js:61 | the result is the prefix before the trailing white space, and it ends with a character that is not white space |
| JsString.Trim | index.js:61 | `trim` leaves no white space at either end and introduces no character |
| JsString.TrimIsSlice | index.js:61 | `trim` keeps one contiguous slice of its input, and everything cut off before and after that slice is white space |
| JsString.TrimSurrounded | index.js:61 | `trim` of white space, a text and more white space gives back the text exactly, when that text has no white space at its ends |
| JsString.TrimKeepsLast | index.js:61 | a text ending in a character other than white space still ends in it after `trim` |
| JsString.RemoveAll | index.js:64 | the global `replace(/\./g, '')` keeps every character except the deleted one, with its count set to zero |
| JsString.ReplaceAll | index.js:65 | the global `replace(/,/g, '.')` keeps the length and rewrites exactly the positions holding the pattern character |
| JsString.IndexOf | index.js:75-76 | the result is the position of the first occurrence, with no occurrence before it |
| JsString.RemoveFirst | index.js:75-76 | the string-pattern `replace(c, '')` shortens the text by one exactly when `c` occurs, and otherwise changes nothing |
| JsString.RemoveFirstCounts | index.js:75-76 | deleting the first occurrence lowers the count of `c` by one (when `c` occurs) and keeps every other count |
| JsString.RemoveFirstSplit | index.js:75-76 | in `pre + c + post`, with no `c` in `pre`, exactly the `c` after `pre` is deleted |
| JsString.IndexOfAt | index.js:75-76 | a position holding `c` with no `c` before it is the one `replace` finds |
| JsNumber.DigitRun | index.js:63-66 | the scanned digit prefix is all digits and is followed by a non-digit or the end |
| JsNumber.ParseFloatNaN | index.js:63-66 | `parseFloat` gives NaN if and only if no digit, dot-digit or `Infinity` starts after the white space and the sign |
| JsNumber.ParseFloatPrefix | index.js:63-66 | leading white space and a minus sign are consumed before the literal is read |
| JsNumber.ParseFixedPoint | index.js:63-66 | white space, an optional minus sign and `a.b` parse to the integer `ab` times ten to the minus the length of `b`, negated for the sign, whatever text that cannot continue the literal follows |
| JsNumber.ParseInteger | index.js:63-66 | a digit run followed by non-literal text parses to its integer value |
| JsNumber.UnsignedNaN | index.js:63-66 | after the sign, no literal start means NaN, and a literal start means a number |
| JsNumber.Div100 | index.js:77 | `/ 100` keeps NaN and the infinities, and a finite result times one hundred is the input's real value |
| JsNumber.ScaleDown | index.js:77 | lowering the decimal exponent by two divides the real value by one hundred |
| Normalizer.CleanIsCharMap | index.js:63-65 | deleting every dot and then turning every comma into a dot is the same as one left-to-right character map. Commas turned into dots are not deleted afterwards |
| Normalizer.CleanCounts | index.js:63-65 | the cleaned length is the original length minus the dots; the cleaned dots are the original commas; no comma is left; every other character keeps its count |
| Normalizer.MapCharsAppend | index.js:63-65 | the character map distributes over concatenation |
| Normalizer.PercentCleanMultiset | index.js:72-76 | `percent`'s chain removes one `%` and one space, at most, from the cleaned text |
| Normalizer.PercentCleanCount | index.js:72-76 | after `percent`'s chain, every `%` and space beyond the first survives, dots are the original commas, and all other counts stay as they were |
| Normalizer.PercentIsToNumOver100 | index.js:60-77 | without `%` or space, `percent(s)` is `toNum(s) / 100`, NaN included, and both are 0 on the placeholder |
| Normalizer.PercentSign | index.js:69-77 | `percent(x + "%")` is never the placeholder case. It is the parse of `x` cleaned, divided by one hundred, which is `toNum(x) / 100` unless `x` is the placeholder |
| Normalizer.EndsInPercent | index.js:70 | a text ending in `%` never takes the placeholder branch |
| Normalizer.SentinelPadded | index.js:61-70 | "N/A" with any white space around it is the placeholder, and both normalisers give exactly 0 |
| Normalizer.ZeroNotOnlySentinel | index.js:61-66 | "0" is not the placeholder, yet `toNum("0")` is 0 |
| Normalizer.LowerCaseIsNaN | index.js:61-77 | the placeholder test is case-sensitive: "n/a" gives NaN from both normalisers |
| Normalizer.NoLiteralIsNaN | index.js:63-66 | a text whose first character cannot start a literal parses to NaN |
| Normalizer.NoLetterN | index.js:61 | a text without the letter N is never the placeholder |
| Normalizer.MapCharsGrouped | index.js:64 | thousands-grouped digits clean to the digits without separators |
| Normalizer.CleanLocale | index.js:63-65 | `g1.g2...,b` cleans to the plain literal `g1g2....b` |
| Normalizer.LocaleNotSentinel | index.js:61 | a locale-formatted number has neither `%` nor space and is not the placeholder |
| Normalizer.ToNumLocale | index.js:60-67 | `toNum("g1.g2...,b")` is exactly the integer `g1g2...b` times ten to the minus the length of `b` |
| Normalizer.PercentLocale | index.js:69-78 | `percent("g1.g2...,b%")` is exactly the integer `g1g2...b` times ten to the minus (the length of `b` plus two) |
| Normalizer.ToNumThousands | index.js:60-67 | `toNum("1.234,56")` is exactly 1234.56 |
| Normalizer.ToNumMillion | index.js:60-67 | `toNum("1.000.000,00")` is exactly one million |
| Normalizer.PercentDividendYield | index.js:69-78 | `percent("8,75%")` is exactly 0.0875 |
| Normalizer.PercentPriceToBook | index.js:55-78 | `percent("1,02")` is exactly 0.0102, so a P/VPA ratio is divided by one hundred |
| Normalizer.WorkedRealValues | index.js:60-78 | the worked decimals denote 1234.56, 1000000, 0.0875 and 0.0102 as reals |
| TableExtractor.LastIndex | index.js:33-35 | the index is the last column carrying the heading |
| TableExtractor.RecordStep | index.js:33-34 | one turn of the `for` loop sets `fund[columns[i]]` to cell `i` of the record of the columns before it |
| TableExtractor.PairRow | index.js:30-38 | the loop yields nothing exactly when the row has fewer cells than there are columns, and otherwise the record of the row |
| TableExtractor.Records | index.js:30-38 | `rows.map(...)` gives one record per body row, in order, each built from its own row |
| TableExtractor.Extract | index.js:24-46 | the callback with its `try`/`catch` returns exactly what `Scrape` specifies |
| TableExtractor.RecordKeys | index.js:31-35 | the record's keys are exactly the headings |
| TableExtractor.RecordLastWriteWins | index.js:33-35 | under each heading the record holds the cell of the last column bearing it |
| TableExtractor.RecordDistinctLabels | index.js:33-35 | with distinct headings the record has one entry per column, and each holds its column's cell |
| TableExtractor.DistinctCardinality | index.js:33-35 | distinct headings form a set as large as the heading list |
| TableExtractor.ExtraCellsIgnored | index.js:33-34 | cells to the right of the last column are never read |
| TableExtractor.ScrapeOneRecordPerRow | index.js:30-40 | a successful scrape has one record per body row, in body-row order |
| TableExtractor.ScrapeFails | index.js:20-46 | the scrape is `undefined` exactly when the page does not load, there is no header row or a body row is short |
| TableExtractor.ScrapeEmptyBody | index.js:28-40 | a table without body rows scrapes to an empty list, which is not a failure |
| RowMapper.Missing | index.js:53-56 | only absent headings are listed and every absent heading is listed; the first entry is the first absent heading in evaluation order, the one `toModel` throws on |
| RowMapper.ToModel | index.js:49-58 | `toModel` throws exactly when a numeric heading is absent, naming the first one in evaluation order. Otherwise `code` and `category` are copied, `price` and `liquidity` come from `toNum`, and `pvpa` and `dy` from `percent` |
| RowMapper.MissingNumeric | index.js:53-56 | which heading `toModel` throws on, one case per evaluation step |
| RowMapper.PriceToBookDividedBy100 | index.js:55-78 | when the P/VPA cell has no `%` or space and is not the placeholder, it is mapped to `toNum(cell) / 100` |
| RowMapper.SentinelRow | index.js:49-70 | a row whose four figures read "N/A" maps to four zeros, with code and category copied |
| Pipeline.MapAll | index.js:13 | `map` with a throwing callback either returns a pointwise image of the whole list or reports the first element it throws on, all earlier elements having mapped |
| Pipeline.Run | index.js:5-14 | `run` stops exactly when the scrape is `undefined`; an empty scrape maps to an empty list; otherwise it maps every row in order or crashes on the first row missing a numeric heading |
| Pipeline.RecordMaps | index.js:30-58 | a record built under a header with all four numeric headings maps, with price and yield from the last such column |
| Pipeline.ScrapedTableMaps | index.js:5-58 | a loaded table with every numeric heading and no short row gives one fund per body row, priced from that row's price cell |
| Pipeline.RunMapsAll | index.js:13 | when every row maps, `run` keeps all of them, in order |
| Pipeline.MissingPriceColumnCrashes | index.js:13-53 | without the price heading, `run` throws on the first row, naming the price heading |
| Pipeline.ShortRowNotScraped | index.js:8-43 | a body row shorter than the header stops `run` before any mapping |
| EndToEnd.HeaderDistinct | index.js:51-56 | the six headings are pairwise different |
| EndToEnd.RowUnderHeader | index.js:30-58 | a six-cell row under the six headings maps cell by cell |
| EndToEnd.PageScrape | index.js:24-41 | the two-row page scrapes to its two records |
| EndToEnd.RowFigures | index.js:53-78 | "100,50", "1.000.000,00", "1,02" and "8,75%" give 100.50, 1000000, 0.0102 and 0.0875 |
| EndToEnd.PlaceholderFigures | index.js:61-70 | "N/A" gives 0 from both normalisers |
| EndToEnd.PageRun | index.js:5-58 | `run` on the page yields ABCD11 (100.50, 1000000, 0.0102, 0.0875) and WXYZ11 (category "N/A", four zeros), in that order |

## Left out

- Browser I/O: launching Puppeteer, opening the page, waiting for the table and closing the browser. Whether the page loaded is an input (`None` when it did not), and the table arrives as cell texts.
- `console.log` calls: they produce output only.
- The unhandled promise rejection: a `toModel` exception is recorded as `Crashed(row, heading)`, since nothing in the file catches it.
- `run` computes the mapped list and discards it. The model returns it, so that its contents can be stated.
- IEEE-754 doubles: `parseFloat` and `/ 100` are exact decimals. Rounding, overflow to infinity for huge exponents, and negative zero are not modelled.
- JavaScript objects as maps: a heading such as `__proto__` would not become an ordinary key. Headings are plain map keys here.
- Other DOM failures: only a missing header row and a short body row are modelled, as the errors they raise. Cell texts are taken as given.
- Persistence, scheduling and concurrent runs: no such code is present in `index.js`.
