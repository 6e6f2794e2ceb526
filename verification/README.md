# Receipt generator: a Dafny model of the row formatter

`receipt_gen.py` reads an expense spreadsheet and, for every row whose type
is "Expense" and whose date is present, fills a receipt template by
replacing a fixed list of placeholders (`[CATEGORY]`, `[DATE]`, …,
`[ADDRESS]`) one after the other with the row's cells and with generated
values: a random time of day, a random reference, random digit strings, a
transaction id built from the date, the business name, the four card
characters before the last one (`card[-5:-1]`) and the geocoded business
address.

This project models that core in Dafny:

- `PyStr` (`pystr.dfy`): Python's `str.replace` (left to right,
  non-overlapping, including the empty-pattern case), `str.count`, slicing
  with negative and out-of-range bounds, and zero-padded two-digit numbers.
- `RandomTokens` (`random_tokens.dfy`): `generate_random_time`,
  `generate_random_reference`, `generate_random_number` and
  `generate_transaction_id`. Every `randint` draw is an input of the model,
  restricted to the range `randint` can return.
- `Labels` (`labels.dfy`): `get_business_info`, `get_card_info`, the
  choice of the place name in `get_address` and its search text (the place
  name with "around CT/NY" appended, without a space), and the
  line-wrapping replace of `get_formatted_address`.
- `Formatter` (`formatter.dfy`): `format_data` — the row filter, the chain
  of twenty replacements per row, the exceptions a malformed row raises and
  the order of the output.

Spreadsheet cells are `Option<string>`: `None` is an empty cell, and
`str(None)` is the text "None". Everything one qualifying row consumes from
outside — the random draws, the three money strings and the geocoder — is
bundled in a `RowDraws` value, one per row. The exceptions are values:
`IndexError` for a row too short for the filter or the formatter,
`TypeError` for an empty total (`None / 1.0635`) or an empty card cell
(`None[-5:-1]`).

Facts about the code worth keeping in mind:

- `generate_transaction_id` of an eight-character date such as "03/15/24"
  has 16 characters (2 + 2 + 2 + 10); `RandomTokens.TransactionIdExample`
  states it.
- The replacements are not independent of their order: a cell whose text is
  a placeholder replaced later is itself replaced
  (`Formatter.FormatRowRewritesCellText`).
- The comment on `get_business_info` says the name is preferred, but the
  code returns the description first; the model follows the code.

## Model

| member | source | states |
|---|---|---|
| PyStr.ReplaceLength | receipt_gen.py:106-126 | each replacement changes the length by the number of occurrences times the length difference of pattern and replacement |
| PyStr.CountZeroIffAbsent | receipt_gen.py:106-126 | `str.count` is zero exactly when the pattern does not occur in the text |
| PyStr.ReplaceAbsent | receipt_gen.py:106-126 | a placeholder that does not occur leaves the template unchanged |
| PyStr.ReplaceWhole | receipt_gen.py:106-126 | a text that is exactly the placeholder becomes the replacement |
| PyStr.ReplacePairPointwise | receipt_gen.py:94 | replacing a two-character pair by one with the same first character keeps the length and changes exactly the second character of each pair |
| PyStr.SliceBound | receipt_gen.py:64 | a Python slice bound is normalised: negatives count from the end, out-of-range bounds are clamped |
| PyStr.Pad2 | receipt_gen.py:30 | `{:02d}` of a number below 100 is two digits whose value is the number |
| RandomTokens.RandomTime | receipt_gen.py:27-30 | the time is "HH:MM": five characters, a colon in the middle, digits elsewhere, reading back as the drawn hour and minute |
| RandomTokens.RandomTimeRange | receipt_gen.py:27-30 | the hour read back lies in 7..18 and the minute in 0..59 |
| RandomTokens.RandomNumber | receipt_gen.py:41-45 | the number has one digit per draw, each the drawn digit |
| RandomTokens.RandomReference | receipt_gen.py:32-39 | the reference has seven characters: two capital letters with the drawn codes, then five drawn digits |
| RandomTokens.TransactionId | receipt_gen.py:47-51 | the id is `date[-2:] + date[:2] + date[3:5]` followed by ten drawn digits, for any date length |
| RandomTokens.TransactionIdOfDate | receipt_gen.py:47-51 | an eight-character "MM/DD/YY" date gives a 16-character id: year, month, day, ten digits |
| RandomTokens.TransactionIdExample | receipt_gen.py:47-51 | "03/15/24" gives an id of 16 characters beginning "240315" |
| Labels.GetBusinessInfo | receipt_gen.py:53-61 | a non-empty description wins, then a non-empty name, then "Business Name"; the result is never empty |
| Labels.BusinessInfoExamples | receipt_gen.py:53-61 | the precedence on empty, missing and filled name and description cells |
| Labels.GetCardInfo | receipt_gen.py:63-64 | the result is `card[-5:-1]`: the four characters before the last one, or fewer for a card shorter than five |
| Labels.CardInfoExample | receipt_gen.py:63-64 | "1234567890" gives "6789" |
| Labels.PlaceName | receipt_gen.py:67-71 | the place name is the longer of name and description, the description on a tie |
| Labels.WrapAddressShape | receipt_gen.py:92-95 | wrapping keeps the length, turns exactly the spaces that follow a comma into line breaks, and leaves no ", " |
| Labels.NoCommaSpaceAfterWrap | receipt_gen.py:94 | after the rewrite no ", " remains |
| Labels.WrapJoinedParts | receipt_gen.py:94 | an address made of comma-free parts joined by ", " becomes the same parts joined by ",\n" |
| Labels.WrapAddressRoundTrip | receipt_gen.py:94 | an address without ",\n" is recovered by replacing ",\n" back with ", " |
| Formatter.FormatRow | receipt_gen.py:105-126 | a qualifying row fails exactly when it has fewer than ten cells (IndexError) or an empty card or total cell (TypeError) |
| Formatter.RowStep | receipt_gen.py:104-127 | one iteration appends nothing for a non-qualifying row and one text for a qualifying one, or raises IndexError when the filter reads a missing cell |
| Formatter.QualifyingIndices | receipt_gen.py:105 | the qualifying positions, strictly increasing, and all of them |
| Formatter.QualifyingCount | receipt_gen.py:105 | there are as many qualifying positions as rows that qualify |
| Formatter.RunRowsSucceeds | receipt_gen.py:104-128 | the loop completes exactly when no iteration raises |
| Formatter.RunRowsFirstError | receipt_gen.py:104-128 | an aborted loop carries the exception of the first iteration that raised |
| Formatter.RunRowsEmits | receipt_gen.py:104-128 | the loop's output lists the texts of the emitting iterations, in order |
| Formatter.FormatDataSucceeds | receipt_gen.py:102-128 | `format_data` returns exactly when every row's filter can be read and every qualifying row can be formatted |
| Formatter.FormatDataSelects | receipt_gen.py:102-128 | the output has one text per qualifying row, in row order, each that row's formatted text |
| Formatter.FormatDataFirstError | receipt_gen.py:102-128 | an exception of `format_data` is that of the first failing row |
| Formatter.ApplyAllAbsent | receipt_gen.py:106-126 | a template in which no placeholder occurs passes the chain unchanged |
| Formatter.ApplyAllSingle | receipt_gen.py:106-126 | a template that is one placeholder becomes its value when no later placeholder occurs in that value |
| Formatter.ApplyAllRelay | receipt_gen.py:106-108 | when the first value is a later placeholder, the first placeholder is carried on to that later value |
| Formatter.TokenInfix | receipt_gen.py:106-126 | one placeholder occurs in another only when they are equal |
| Formatter.TokensApart | receipt_gen.py:106-126 | no placeholder of the list occurs inside a different one |
| Formatter.NoTokenIn | receipt_gen.py:106-126 | no placeholder occurs in a text without "[" |
| Formatter.FormatRowPlainTemplate | receipt_gen.py:106-126 | a template without placeholders is returned unchanged for every formattable row |
| Formatter.FormatRowSingleToken | receipt_gen.py:106-126 | the template "[X]" yields the value of X when no later placeholder occurs in it |
| Formatter.FormatRowCard | receipt_gen.py:125 | the template "[CARD]" yields `card[-5:-1]` |
| Formatter.FormatRowTime | receipt_gen.py:118 | the template "[TIME]" yields the drawn time of day |
| Formatter.FormatRowRewritesCellText | receipt_gen.py:106-108 | a category cell reading "[TYPE]" turns "[CATEGORY]" into "Expense": replacements see earlier replacements' output |

## Left out

- `read_config` and `read_xlsx`: file I/O; the template and the rows are inputs.
- `create_receipt_image`, `main` and the command-line entry: image drawing and directory handling.
- `get_address` beyond the choice of the place name and of the search text: the URL encoding, the HTTP request, the JSON status handling and the fallback texts are folded into the geocoder, a function from search text to address supplied per row.
- `total_no_tax` and the `{:.2f}` formatting of `[AMOUNT]`, `[TAX]` and `[TOTAL]`: floating-point arithmetic; the three strings are supplied per row.
- `randint`: its distribution is not modelled; each draw is an input restricted to the range `randint` returns.
- The `print` calls: console output only.
- Cells holding numbers or dates: every cell is text or empty. Where the program passes a cell through `str()` this loses nothing; the truthiness of a numeric zero and the TypeError of a non-numeric total are not modelled.
- Formatter.FormatData: the draws are indexed by row, whereas the program draws only while formatting a qualifying row; the outputs are the same when the unused draws are ignored.
- Formatter.FormatRow: an empty card cell and an empty total both raise TypeError, but at different lines; the model records the kind of exception, not the line.
- Formatter.FormatRow: the card cell (line 125) and the name and description cells handed to `get_business_info` (line 124) are used raw, not through `str()`. A numeric card cell raises TypeError when sliced, and a truthy numeric name or description makes `replace` raise TypeError; since cells are text here, the model returns a text in both cases.
- Formatter.FormatDataSucceeds: the geocoder is total, so its "exactly when" holds only for an address lookup that never raises. The program also aborts when `requests.get` fails (line 80), when a 200 reply is not JSON (line 82), and when the status is "OK" but no candidate is listed (lines 84-85).
