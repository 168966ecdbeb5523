# Rental listing filter

This project models the listing filter of a single-page rentals viewer. The page
loads a grid of text cells from a spreadsheet. The first row holds column
headings and is dropped. Each remaining row is read by column position:
2 is the price, 4 the title, 5 the address, 6 the bedrooms and 7 the bathrooms.

A row is shown when all of these hold:

- the lower-cased search text occurs in the lower-cased title or address;
- its price lies between the minimum and maximum price, both inclusive;
- it has at least the chosen number of bedrooms and bathrooms.

The price is read by deleting every non-digit of the price cell and reading the
remaining digits as a decimal number (0 when none remain). Bedrooms and
bathrooms are read with `parseInt`, defaulting to 0. The four numeric inputs
pass through a normaliser that strips leading zeros and turns an input that is
empty after stripping (such as `"000"`) into `"0"`.

The model is pure, like the code it follows:

- `wrappers.dfy`: the `Option` type used for cells that may be absent.
- `seqs.dfy`: `Array.prototype.filter` as `Seqs.Filter`, and the subsequence order.
- `text.dfy`: the string operations. These are digit removal, decimal reading
  and rendering, `parseInt` on a digit prefix, ASCII lower-casing, `includes`
  and the leading-zero normaliser.
- `listing.dfy`: rows, the row predicate `Listing.Keep`, the header drop,
  `Listing.FilteredRows` and the properties of the filter.

A cell is `Option<string>`. `None` stands for a missing cell or an index past
the end of the row. The request at src/googlesheet.js:21 names no render
option, so the values endpoint returns every cell as its formatted text; a
non-string cell does not arise, and the model reads one as absent. Thresholds are plain integers
held in a `Listing.Filters` value.

## Model

| member | source | states |
|---|---|---|
| `Listing.DropHeader` | src/googlesheet.js:43 | the data rows are the grid without its first row: one fewer row (none for an empty grid), row i being grid row i+1 |
| `Listing.CellText` | src/googlesheet.js:52-54 | a present cell reads as its own text; an absent cell, or an index past the end of the row, reads as the empty string |
| `Listing.Price` | src/googlesheet.js:54-56 | a row without a price cell has price 0; a price cell of plain digits reads as the number it denotes |
| `Listing.Beds` | src/googlesheet.js:58 | a bedroom cell that does not start with a digit (including an absent one) reads as 0; one of plain digits reads as its number |
| `Listing.Baths` | src/googlesheet.js:59 | a bathroom cell that does not start with a digit (including an absent one) reads as 0; one of plain digits reads as its number |
| `Listing.MatchesSearch` | src/googlesheet.js:52-64 | the empty search matches every row; a matching search is no longer than the title or the address (the full match rule is `Listing.MatchesSearchOccurs`) |
| `Listing.MatchesSearchOccurs` | src/googlesheet.js:52-64 | a row matches the search exactly when the lower-cased search text occurs at some position of the lower-cased title or of the lower-cased address |
| `Listing.Keep` | src/googlesheet.js:63-69 | an inverted price range keeps no row; a positive bedroom or bathroom threshold hides a row missing that cell (the full rule is `Listing.KeepExactly`) |
| `Listing.KeepExactly` | src/googlesheet.js:61-69 | a row is shown exactly when the search text occurs, up to case, in its title or address, its price lies in the inclusive range, and its bedroom and bathroom counts reach the thresholds |
| `Listing.SearchHides` | src/googlesheet.js:61-69 | a row whose title and address both lack the search text (up to case) is hidden whatever the thresholds |
| `Text.KeepDigits` | src/googlesheet.js:55 | after cleaning only digits remain; the result is empty exactly when the input has no digit; a digit string is left unchanged |
| `Text.KeepDigitsKeepsDigits` | src/googlesheet.js:55 | cleaning keeps every digit, in order (a subsequence of the input) and as many times as it occurs |
| `Text.ParseDecimal` | src/googlesheet.js:56 | a digit string of length k denotes a natural number below 10^k; the empty string denotes 0 |
| `Text.ShowDecimal` | src/googlesheet.js:56 | the rendering of n is a non-empty digit string with no leading zero (unless it is "0") that reads back as n |
| `Text.ShowParseDecimal` | src/googlesheet.js:56 | reading then rendering reproduces every digit string without a leading zero |
| `Text.ParseDecimalZero` | src/googlesheet.js:56 | a digit string reads as 0 exactly when all its digits are '0' |
| `Text.ParseDecimalAppend` | src/googlesheet.js:56 | the value of a+b is value(a)·10^len(b) + value(b) |
| `Text.LeadingDigits` | src/googlesheet.js:58-59 | the longest leading run of digits: a prefix, all digits, followed by the end or a non-digit |
| `Text.ParseIntPrefix` | src/googlesheet.js:58-59 | text that does not start with a digit reads as 0 (NaN defaulted to 0); a digit string is read whole |
| `Text.ParseIntPrefixOfShown` | src/googlesheet.js:58-59 | `parseInt` reads back any rendered number followed by text that does not start with a digit |
| `Text.ToLower` | src/googlesheet.js:52-53 | lower-casing keeps the length and maps each character through ASCII case folding |
| `Text.CaseChangeIsInvisible` | src/googlesheet.js:52-53 | two strings lower-case alike exactly when they have the same length and differ only in the case of ASCII letters |
| `Text.ToLowerIdempotent` | src/googlesheet.js:61 | a lower-cased string has no upper-case letter and lower-casing it again changes nothing |
| `Text.KeepDigitsIgnoresCase` | src/googlesheet.js:55 | strings equal up to case clean to the same digits |
| `Text.LeadingDigitsIgnoreCase` | src/googlesheet.js:58-59 | strings equal up to case have the same leading digits |
| `Text.Includes` | src/googlesheet.js:64 | `includes` holds exactly when the needle occurs at some position of the string |
| `Text.IncludesEmpty` | src/googlesheet.js:64 | every string includes the empty string |
| `Text.IncludedInEmpty` | src/googlesheet.js:52-53 | the empty string (a missing title or address) includes only the empty string |
| `Text.IncludesTransitive` | src/googlesheet.js:64 | an occurrence of an occurrence is an occurrence |
| `Text.StripLeadingZeros` | src/googlesheet.js:47 | the result is a suffix of the input, everything removed is '0', and it does not start with '0' |
| `Text.NormalizeNumberInput` | src/googlesheet.js:47 | the stored value is non-empty and starts with '0' only if it is exactly "0"; it is "0" exactly when the input is all zeros (or empty); otherwise it is the input with only leading '0's removed |
| `Text.NormalizeIdempotent` | src/googlesheet.js:47 | normalising twice is normalising once |
| `Text.NormalizeAllZeros` | src/googlesheet.js:47 | "000" and "" both become "0" |
| `Text.NormalizeNonDigitInputs` | src/googlesheet.js:47 | only leading zeros go: "0.5" becomes ".5", while "-05" and "1e3" are kept as typed |
| `Text.NormalizePreservesValue` | src/googlesheet.js:45-49 | on a digit string the normaliser does not change the number the string denotes |
| `Text.NormalizeIsCanonical` | src/googlesheet.js:45-49 | on a digit string the normaliser gives the canonical (shortest) rendering of its number |
| `Seqs.Filter` | src/googlesheet.js:51 | the output is no longer than the input and every element of it satisfies the predicate |
| `Seqs.FilterMembers` | src/googlesheet.js:51 | an element is in the filter's output exactly when it is in the input and satisfies the predicate |
| `Seqs.FilterIsSubsequence` | src/googlesheet.js:51 | the filter's output is a subsequence of its input (original order) |
| `Seqs.FilterCounts` | src/googlesheet.js:51 | every occurrence of a kept element is kept and every occurrence of a rejected one dropped |
| `Seqs.FilterIdempotent` | src/googlesheet.js:51 | filtering the output again with the same predicate returns it unchanged |
| `Seqs.FilterMonotone` | src/googlesheet.js:51 | a predicate that implies another keeps a subsequence of what the other keeps |
| `Listing.FilteredRows` | src/googlesheet.js:51-70 | the shown rows are a subsequence of the data rows; a data row is shown exactly when it passes the predicate, as often as it occurs |
| `Listing.PriceZero` | src/googlesheet.js:54-56 | the price is 0 exactly when the price cell has no digit other than '0' (absent, no digits, or only zeros) |
| `Listing.NoPriceExcluded` | src/googlesheet.js:54-65 | a row whose price cell is absent or has no digit has price 0 and is hidden whenever the minimum price is positive |
| `Listing.WeeklyRentPrice` | src/googlesheet.js:54-56 | "$1,200/wk" reads as 1200 |
| `Listing.CentsPrice` | src/googlesheet.js:55-56 | "$9.50" reads as 950: the decimal point is dropped, not respected |
| `Listing.NoTextMatchesOnlyEmptySearch` | src/googlesheet.js:52-64 | a row with neither title nor address matches the search exactly when the search is empty |
| `Listing.NumbersIgnoreCase` | src/googlesheet.js:54-59 | rows equal up to case have the same price, bedrooms and bathrooms |
| `Listing.KeepIgnoresCase` | src/googlesheet.js:52-69 | changing the case of the search text or of any cell never changes whether a row is shown (with `Text.CaseChangeIsInvisible`, "up to case" means differing only in the case of letters) |
| `Listing.BoundsInclusive` | src/googlesheet.js:65-68 | a matching row whose price equals both price bounds and whose counts equal the thresholds is shown |
| `Listing.ListingExample` | src/googlesheet.js:63-69 | a "$1,200/wk", 2-bed, 1-bath row passes [1200, 1200] with thresholds 2 and 1, and fails when a bound moves by one dollar or one bedroom |
| `Listing.InitialFiltersKeep` | src/googlesheet.js:9-13 | with the starting filters a row is shown exactly when its price is at most 1000000 and it has at least 1 bedroom and 1 bathroom |
| `Listing.KeepMonotone` | src/googlesheet.js:63-69 | a row that passes stricter filters passes looser ones |
| `Listing.TighterShowsSubsequence` | src/googlesheet.js:51-70 | raising the minimum price, bedrooms or bathrooms, lowering the maximum price, or extending the search shows a subsequence of what was shown before |
| `Listing.RefilterUnchanged` | src/googlesheet.js:51-70 | filtering the shown rows again with the same filters returns them unchanged |

## Left out

- The fetch (src/googlesheet.js:15-38): the URL, the API key from the environment, logging and JSON decoding. This is network I/O against a third-party API. The grid is a parameter of `Listing.FilteredRows`.
- React state and the loading and error screens (src/googlesheet.js:6-13, 40-41, 48). The filter values are a `Listing.Filters` parameter. Only their starting values are kept, as `Listing.InitialFilters`.
- The card markup and style objects (src/googlesheet.js:72-357). These are presentation only.
- Text.ParseIntPrefix: reads only an unsigned run of leading decimal digits. JavaScript's `parseInt` without a radix also skips leading whitespace, reads a sign and reads a `0x` prefix as hexadecimal, so " 3", "-1" and "0x2" give 3, -1 and 2 there but 0 here.
- Listing.Beds: a cell is text or absent. A numeric cell, which the formatted-value response does not produce, would be read by `parseInt(3)` as 3 but is read here as absent, giving 0. The same holds for `Listing.Baths`.
- Text.ParseDecimal: numbers are unbounded. JavaScript numbers lose precision beyond 2^53, which a price string of 16 or more digits can exceed.
- Text.ToLower: folds only ASCII 'A'..'Z'. JavaScript's `toLowerCase` follows Unicode.
- Listing.Filters: thresholds are integers. In the page, the normaliser stores strings, and the comparison with the price converts them to numbers. That conversion is not modelled. `Text.NormalizePreservesValue` shows that the normaliser does not change the number a digit string denotes.
- Listing.MatchesSearch: a title or address cell that is present but not a string is treated as absent. In JavaScript, `toLowerCase` would throw on such a value.
