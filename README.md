# B.E.N.I.T.O page helpers, in Dafny

B.E.N.I.T.O is a one-page Next.js site that charts the Facebook advertising
spend of the 2024 Mexican presidential candidates. The page reads a CSV
file, hands it to a CSV parser, and shows the rows as a bar chart and a pie
chart. Its own logic sits in `pages/index.js`, and this project models the following
parts of it:

- `formatNumber`: the text of a number with `,` thousands separators. It
  is used on the axis ticks and in both tooltips. It is modelled as the
  global regex replace it actually performs, `\B(?=(\d{3})+(?!\d))` → `,`,
  stated over any string (modules `Separators` and `NumberFormat`). The
  integer text it starts from is modelled as JavaScript's `toString`
  (module `Decimal`).
- the two cleaning callbacks given to the CSV parser. `transformHeader`
  trims every header. `transform` trims only the cells of the `Page name`
  column. Both rest on `String.prototype.trim` and its whitespace set
  (module `Columns`).
- the pie chart's name token `name.split(" ")[0]` and its slice fills
  `COLORS[index % COLORS.length]` (module `PieChart`).

Everything here is pure: the source keeps no state of its own in these parts.

Files: `text.dfy`, `decimal.dfy`, `separators.dfy`, `number_format.dfy`,
`columns.dfy`, `pie_chart.dfy`.

## Model

| member | source | states |
|---|---|---|
| Decimal.NatToString | pages/index.js:24 | `n.toString()` of a non-negative integer is a canonical numeral: non-empty, only digits, no leading zero; it is "0" exactly for 0 |
| Decimal.IntToString | pages/index.js:24 | `x.toString()` of a negative integer is a minus sign followed by the canonical numeral of a non-zero magnitude |
| Decimal.ParseDigits | pages/index.js:24 | the value read from a digit string is below 10 to the power of its length |
| Decimal.ParseNatToString | pages/index.js:24 | reading the rendered numeral back gives the number |
| Decimal.NatToStringParse | pages/index.js:24 | rendering the value of any canonical numeral gives that numeral back (the other direction of the round trip) |
| Decimal.ParseIntToString | pages/index.js:24 | rendering and reading back signed integers are inverse to each other |
| Decimal.DigitCount | pages/index.js:24 | the numeral of n has at most k digits exactly when n < 10^k |
| Text.Count | pages/index.js:24 | the number of occurrences of a character is zero exactly when it does not occur (used for the commas of line 24 and the spaces of line 121) |
| Text.CountAppend | pages/index.js:24 | the count of a concatenation is the sum of the counts |
| Separators.IsWordChar | pages/index.js:24 | definition: `\w` without the `u` and `i` flags, the characters A-Z, a-z, 0-9 and `_` |
| Separators.NotWordBoundary | pages/index.js:24 | definition: `\B` at a position, where both neighbours are word characters or neither is, a side beyond the text counting as no word character |
| Separators.DigitGroupsAhead | pages/index.js:24 | definition: the lookahead `(?=(\d{3})+(?!\d))`, where some k >= 1 groups of three digits are followed by a non-digit or the end (the greedy repetition backtracks to any such k) |
| Separators.SeparatorAt | pages/index.js:24 | definition: the whole pattern, the empty match `\B` together with the lookahead, at a position |
| Separators.InsertFrom | pages/index.js:24 | definition: the global replace with "," of an empty-matching pattern, which tries every position from 0 to the length in turn and writes "," before each matching position |
| Separators.InsertSeparators | pages/index.js:24 | the regex replace only inserts commas: the input's characters, its own commas included, stay in order, and every added character is ","; so with the commas taken out both sides agree, and the result is longer by the commas gained |
| Separators.CommasInserted | pages/index.js:24 | definition: one text is another with commas inserted, every character of the other kept in order and every extra character a "," |
| Separators.CommasInsertedKeeps | pages/index.js:24 | inserting commas keeps the text without its commas, and lengthens it by exactly the commas gained |
| Separators.InsertFromInsertsCommas | pages/index.js:24 | the replace from any position is the rest of the text with commas inserted |
| Separators.DigitGroupsAheadOnDigits | pages/index.js:24 | on a digit string, `(?=(\d{3})+(?!\d))` holds exactly when the number of digits ahead is a positive multiple of three |
| Separators.SeparatorAtOnDigits | pages/index.js:24 | on a digit string of length L, the whole pattern matches before position i exactly when 0 < i < L and L - i is a multiple of three |
| Separators.SeparatorAtAfterPrefix | pages/index.js:24 | a match at a position depends only on the character before it and the text after it |
| Separators.InsertFromAfterPrefix | pages/index.js:24 | a prefix in front of a text leaves the replace unchanged after the text's first character |
| NumberFormat.FormatNumber | pages/index.js:23-25 | taking the commas out of `formatNumber(x)` gives `x.toString()`; the digits are in thousands groups, behind the minus sign when x < 0 |
| NumberFormat.LeadLength | pages/index.js:24 | the first group has one to three digits, and the digits after it are a multiple of three; the first group is all of the digits only when there are at most three |
| NumberFormat.InsertFromLead | pages/index.js:24 | no separator is written before the end of the first group |
| NumberFormat.InsideLead | pages/index.js:24 | inside the first group the number of digits ahead is never a multiple of three, so the pattern does not match there |
| NumberFormat.InsertFromPlain | pages/index.js:24 | where the pattern matches nowhere in a stretch, the replace copies that stretch unchanged |
| NumberFormat.InsertFromGroup | pages/index.js:24 | where a multiple of three digits is still ahead, the replace writes a comma and then the next three digits |
| NumberFormat.InsertFromTail | pages/index.js:24 | from such a position the output is groups ",ddd", with one comma per three digits |
| NumberFormat.GroupThenTail | pages/index.js:24 | a group ",ddd" in front of grouped text keeps it grouped and adds exactly one comma |
| NumberFormat.GroupedDigits | pages/index.js:24 | on a numeral, the replace gives a first group of one to three digits, then groups of exactly three digits, with (L - 1) / 3 commas |
| NumberFormat.LeadThenTail | pages/index.js:24 | on a numeral, the replace leaves the first group untouched and writes the rest as ",ddd" groups with (L - 1) / 3 commas |
| NumberFormat.LeadBeforeGroups | pages/index.js:24 | one to three digits in front of ",ddd" groups are grouped digits, with no extra comma |
| NumberFormat.MinusSignInsert | pages/index.js:24 | no separator is written at the minus sign or between the sign and the first digit |
| NumberFormat.TailGroupCommas | pages/index.js:24 | in the ",ddd" groups, the commas are exactly at every fourth position |
| NumberFormat.GroupedCommas | pages/index.js:24 | in grouped digits, a character is a comma exactly when its distance from the end is a multiple of four; there is no leading, trailing or doubled comma |
| NumberFormat.CommaCount | pages/index.js:24 | `formatNumber(n)` has (L - 1) / 3 commas and is L + (L - 1) / 3 characters long |
| NumberFormat.SmallNumbersUnchanged | pages/index.js:24 | `formatNumber(n)` equals `n.toString()` exactly when n < 1000, and it contains a comma exactly when n >= 1000 |
| NumberFormat.ParseFormatted | pages/index.js:23-25 | with its commas taken out, the formatted text reads back as the number |
| NumberFormat.FormatNumberInjective | pages/index.js:23-25 | different numbers never get the same text |
| NumberFormat.NegativeFormat | pages/index.js:23-25 | a negative number is formatted as a minus sign in front of the formatted magnitude, so the sign is never split from the digits |
| Columns.IsWhitespace | pages/index.js:56 | definition: the characters `trim()` removes, ECMAScript's WhiteSpace (tab, vertical tab, form feed, space, no-break space, byte order mark, the Unicode space separators) and LineTerminator (line feed, carriage return, line and paragraph separator) |
| Columns.TrimStart | pages/index.js:56 | the result is a suffix of the input; what was cut off is whitespace; the result does not start with whitespace |
| Columns.TrimEnd | pages/index.js:56 | the result is a prefix of the input; what was cut off is whitespace; the result does not end with whitespace |
| Columns.Trim | pages/index.js:56 | the result is the input with a whitespace run cut off each end, and neither end of the result is whitespace |
| Columns.CutBothEnds | pages/index.js:56 | cutting whitespace off the front and then off the back leaves a trimmed middle of the input |
| Columns.TrimStartOf | pages/index.js:56 | trimStart removes a whitespace run and stops at the first other character |
| Columns.TrimEndOf | pages/index.js:56 | trimEnd removes a whitespace run and stops at the last other character |
| Columns.TrimOf | pages/index.js:56 | trimming a middle between two whitespace runs gives that middle, when the middle does not start or end with whitespace |
| Columns.TrimmedAtUnique | pages/index.js:56 | any cut with these properties is Trim's result, so the contract determines trimming |
| Columns.TrimIdempotent | pages/index.js:56 | trimming twice is trimming once |
| Columns.PaddedTrimmedAt | pages/index.js:56 | extra whitespace around a string is removed together with the string's own |
| Columns.TrimPadding | pages/index.js:56 | whitespace added around a string does not change its trim |
| Columns.TransformHeader | pages/index.js:56 | a header is kept up to the whitespace around it, and what is left neither starts nor ends with whitespace |
| Columns.TransformValue | pages/index.js:57-62 | a "Page name" cell is trimmed; a cell of any other column comes back unchanged; a cell that changes belongs to "Page name" and has whitespace at one end |
| Columns.TransformHeaderIdempotent | pages/index.js:56 | cleaning a header that is already clean changes nothing |
| Columns.PaddedPageNameHeader | pages/index.js:56-59 | a header of "Page name" with whitespace around it is cleaned to "Page name", so its cells are trimmed |
| Columns.TransformValueIdempotent | pages/index.js:57-62 | cleaning a cell twice is cleaning it once, in any column |
| PieChart.JoinStart | pages/index.js:121 | a join starts with the first piece, followed by a space when there are more pieces |
| PieChart.JoinFront | pages/index.js:121 | a character put in front of the first piece ends up in front of the joined text |
| PieChart.JoinEmptyPiece | pages/index.js:121 | an empty piece in front of the pieces puts a space in front of their join |
| PieChart.JoinPiece | pages/index.js:121 | a non-space character in front of the first piece keeps the pieces space-free and stands in front of their join |
| PieChart.Split | pages/index.js:121 | `split(" ")` gives at least one piece; no piece holds a space; there is one more piece than there are spaces (counted by Text.Count); joining the pieces with spaces gives back the input |
| PieChart.SplitFront | pages/index.js:121 | a leading space opens a new empty piece; any other leading character joins the first piece |
| PieChart.SplitJoin | pages/index.js:121 | splitting space-free pieces that were joined gives the pieces back |
| PieChart.FirstToken | pages/index.js:121 | the label token is a prefix of the name and has no space; the name has a space right after it, or ends there; a name without a space is its own token |
| PieChart.FirstTokenUnique | pages/index.js:121 | any prefix with no space that ends at a space or at the end of the name is the token |
| PieChart.SliceColor | pages/index.js:21 | a slice colour is always one of the three palette entries, and the first three slices take them in order |
| PieChart.CellFills | pages/index.js:127-129 | one fill per row; every fill is a palette entry; the first three follow the palette order; fills repeat with period three |
| PieChart.SliceColorPeriodic | pages/index.js:128 | colour(index + 3) == colour(index) |
| PieChart.NeighbourSlicesDiffer | pages/index.js:128 | neighbouring slices never share a colour, and any three neighbouring slices use all three colours |

## Left out

- `Papa.parse` itself (pages/index.js:52-63) is not part of this model. The CSV parsing library's tokenising, `dynamicTyping` number coercion and `skipEmptyLines` handling are its own code, and that code is not available here. Only the two callbacks the page hands it are modelled.
- React state and effects (`useState`, `useEffect`, the `setParsedData`/`setFilteredData` calls) and the `console.log` line: these are UI framework plumbing.
- All recharts and MUI markup, including `CustomTooltip` apart from its use of `formatNumber`: these are presentation only.
- The percentage half of the pie label, `(percent * 100).toFixed(0)`: this is floating-point rounding of a value the charting library computes.
- `getStaticProps`: a file read from disk, which is I/O.
- NumberFormat.FormatNumber: defined on integers only. `toString` of a fractional number, and the commas the regex would then put into the fraction, are not modelled. The page formats whole peso amounts and ad counts.
- Decimal.IntToString: always gives plain digits. JavaScript switches to exponent notation from 10^21, and loses integer precision above 2^53. Both are far beyond the values on the page.
- Strings are modelled as sequences of Unicode scalar values, while JavaScript counts UTF-16 code units. The modelled operations only look at characters from the Basic Multilingual Plane (digits, comma, space, the whitespace set), so their results are the same.
