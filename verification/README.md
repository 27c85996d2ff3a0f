# list_deleted_open, modelled in Dafny

`list_deleted_open.py` finds files that have been deleted but are still held
open. It runs `lsof +L1 <path>` and reads the listing. It keeps the rows whose
link count is 0 and whose name carries lsof's `(deleted)` marker, provided
the size is at least the `--minsize` threshold (default `500G`). It prints
those rows largest first.

This project models the part of the tool that decides things:

- `parse_size` turns the threshold text into a byte count. It strips and
  upper-cases the text, walks the unit table `"" K M G T`, then applies
  `float()` and `int()`.
- `parse_lsof` splits each row with `str.split(None, 9)`, reads the size and
  link columns with `int()`, applies the filter and builds the record.
- `main` sorts the records by size, descending, with Python's stable sort.
  When no record is kept, it prints the "no deleted-but-open files" message
  instead.

Modules, in dependency order:

- `outcomes.dfy` (`Outcomes`): `Option` and `Result`.
- `text.dfy` (`Text`): Python's whitespace set and `str.strip`, ASCII
  `str.upper`, `endswith`, and `in` on strings.
- `fields.dfy` (`Fields`): `str.split(None, maxsplit)`. `Unsplit` is its
  inverse: it lays fields out between whitespace gaps.
- `numerals.dfy` (`Numerals`): `int()` on a column and `float()` on a size.
  A float is modelled as an exact decimal. `int(x * factor)` is truncation
  toward zero.
- `size.dfy` (`SizeParse`): `parse_size` as written (`ParseSize`) and as
  intended (`ParseSizeIntended`). See Findings.
- `lsof.dfy` (`Lsof`): the record, the verdict on one row (`ParseLine`), and
  `parse_lsof`.
- `report.dfy` (`Report`): the stable size-descending sort, the listing, and
  the run from `--minsize` text and lsof lines to the listing.

Everything is a pure function. The lsof output is a parameter: the tool's
lines, one string each.

## Model

| member | source | states |
|---|---|---|
| Text.Strip | list_deleted_open.py:33 | `str.strip()`; its own contract gives the shape (no longer than the input, no whitespace at either end), and Text.StripSlice states that the result is the input minus its leading and trailing whitespace |
| Text.StripSlice | list_deleted_open.py:33 | `strip()` gives the slice of the input that is left once its leading and trailing whitespace is removed: everything outside the slice is whitespace, and the slice neither starts nor ends with whitespace |
| Text.StripPadded | list_deleted_open.py:33 | any whitespace added around a text does not change what `strip()` gives |
| Text.UpperStrip | list_deleted_open.py:33 | `strip().upper()` is `upper().strip()`: upper-casing touches no whitespace |
| Fields.Split | list_deleted_open.py:56 | `str.split(None, maxsplit)`; it has no contract of its own and is specified by Fields.SplitUnsplit, Fields.SplitShape and Fields.SplitAtMost |
| Fields.SplitUnsplit | list_deleted_open.py:56 | a row built from fields and whitespace gaps is split back into exactly those fields; this includes a last field that keeps inner and trailing whitespace |
| Fields.SplitShape | list_deleted_open.py:56 | every row is such a layout of the fields split returns, so the fields plus the skipped whitespace rebuild the row |
| Fields.SplitAtMost | list_deleted_open.py:56-57 | `split(None, 9)` yields at most ten fields, so the `len(parts) < 10` test leaves exactly ten |
| Numerals.ParseInt | list_deleted_open.py:61-62 | when `int()` succeeds, the text holds no information separator (U+001C..U+001F) and the stripped text is an optional sign then digits; a negative result has a minus sign |
| Numerals.SeparatorRefused | list_deleted_open.py:61-62 | `int()` and `float()` refuse any text holding one of U+001C..U+001F, which `str.isspace()` counts as whitespace but the numeric parsers neither skip nor accept |
| Numerals.ParseIntOfDigits | list_deleted_open.py:61-62 | `int()` of an optional sign and digits is the signed number those digits denote |
| Numerals.ParseIntFormatInt | list_deleted_open.py:61-62 | `int(str(i)) == i` for every integer |
| Numerals.ParseDecimal | list_deleted_open.py:36 | `float()` as an exact decimal; it has no contract of its own and is specified by Numerals.ParseDecimalAccepts, Numerals.ParseDecimalOfParts, Numerals.ParseDecimalOfWhole and Numerals.SeparatorRefused |
| Numerals.ParseDecimalAccepts | list_deleted_open.py:36 | when `float()` succeeds, the text holds no information separator and the stripped text is digits with at most one dot and a sign only in front; it holds at least one digit, and the sign decides negativity |
| Numerals.ParseDecimalOfParts | list_deleted_open.py:36 | `float()` of sign, digits, dot, digits is the exact decimal those digits denote |
| Numerals.ParseDecimalOfWhole | list_deleted_open.py:36 | `float()` of a signed digit run is that whole number |
| Numerals.Truncate | list_deleted_open.py:37 | `int(x * factor)`; it has no contract of its own and is specified by Numerals.TruncateBounds and Numerals.TruncateWhole |
| Numerals.TruncateBounds | list_deleted_open.py:37 | `int(num * factor)` has the magnitude of the floor of the exact product and the sign of the number |
| Numerals.TruncateWhole | list_deleted_open.py:37 | a whole number of units converts exactly: n times the factor |
| SizeParse.FirstEntryIsFirst | list_deleted_open.py:34-35 | the table walk, in table order, picks the first entry whose suffix ends the text and whose test applies; it picks nothing exactly when no entry applies |
| SizeParse.UnitPowers | list_deleted_open.py:32 | the K, M, G and T factors are 1024 to the powers 1, 2, 3 and 4 |
| SizeParse.FirstEntryUnits | list_deleted_open.py:34-35 | when the bare entry does not apply, the last letter alone picks K, M, G or T, or no entry |
| SizeParse.DispatchBare | list_deleted_open.py:35-36 | when the bare entry applies, the whole text goes to `float()` with factor 1 |
| SizeParse.DispatchUnit | list_deleted_open.py:35-36 | otherwise a final unit letter sends the text before it to `float()` with that unit's factor |
| SizeParse.DispatchInvalid | list_deleted_open.py:34-38 | when neither the bare entry nor a final unit letter applies, the walk chooses no entry, which `Convert` turns into "Invalid size" |
| SizeParse.ParseSize | list_deleted_open.py:30-38 | `parse_size` as written; it has no contract of its own and is specified by SizeParse.ParseSizeCases and the lemmas after it |
| SizeParse.ParseSizeCases | list_deleted_open.py:30-38 | `parse_size` as written, case by case: bare entry, unit letter, or invalid size |
| SizeParse.ParseSizeIntended | list_deleted_open.py:30-38 | the corrected `parse_size`; it has no contract of its own and is specified by SizeParse.ParseSizeIntendedCases and the lemmas after it |
| SizeParse.ParseSizeIntendedCases | list_deleted_open.py:30-38 | corrected `parse_size`: digits alone are bytes; a final unit letter scales the number before it; anything else is invalid |
| SizeParse.ParseSizeIgnoresPaddingAndCase | list_deleted_open.py:33 | both readings ignore surrounding whitespace and letter case |
| SizeParse.Scaled | list_deleted_open.py:36-37 | `int(float(num) * factor)`, or the error `float()` raises; it has no contract of its own and is specified by SizeParse.ScaledBytes, SizeParse.ScaledUnits and SizeParse.NotANumberAtEnd |
| SizeParse.ScaledBytes | list_deleted_open.py:36-37 | a digit run converted with factor 1 is the number it denotes |
| SizeParse.ScaledUnits | list_deleted_open.py:36-37 | a digit run converted with a factor is the number times the factor |
| SizeParse.ParseSizeIntendedScales | list_deleted_open.py:32-37 | corrected `parse_size` of digits plus K/M/G/T is the number times that power of 1024 |
| SizeParse.ParseSizeIntendedBytes | list_deleted_open.py:35-37 | corrected `parse_size` of a digit run, even one digit, is that many bytes |
| SizeParse.ParseSizeRejectsUnitSuffix | list_deleted_open.py:35-36 | as written, every whole number followed by a unit letter fails in `float()` |
| SizeParse.ParseSizeRejectsOneDigit | list_deleted_open.py:35-38 | as written, a one-digit byte count is an "Invalid size" |
| SizeParse.DefaultMinSize | list_deleted_open.py:35-37 | the default `500G` fails as written; corrected, it reads as 536870912000 bytes |
| SizeParse.ParseSizeFraction | list_deleted_open.py:35-37 | both readings take `2.5G`-style amounts as the exact amount times the unit, truncated to whole bytes |
| SizeParse.IntendedAgrees | list_deleted_open.py:35 | the two readings agree on every text where the two bare-entry tests agree |
| Lsof.ParseLine | list_deleted_open.py:56-81 | one pass of the loop body of `parse_lsof`; it has no contract of its own and is specified by Lsof.ParseLineSound and Lsof.ParseLineOfRow |
| Lsof.ParseLineSound | list_deleted_open.py:55-81 | a row is kept if and only if it splits into ten columns, `int()` reads its size and a link count of 0, its name holds the `(deleted)` marker and its size is at least the minimum; the kept record is those columns, with size and link count read by `int()` |
| Lsof.ParseLineOfRow | list_deleted_open.py:56-81 | a row printed from a record, with any spacing, is read back as that record and filtered: not deleted, below threshold, or kept |
| Lsof.ParseLsof | list_deleted_open.py:51-82 | fewer than two lines give nothing; at most one record per line after the header; every record is deleted and large enough |
| Lsof.Collect | list_deleted_open.py:55-81 | the loop of `parse_lsof` over the rows after the header; it has no contract of its own and is specified by Lsof.CollectBounds, Lsof.CollectAppend and Lsof.CollectMembers |
| Lsof.CollectBounds | list_deleted_open.py:55-69 | the loop keeps at most one record per row, each passing the filter |
| Lsof.CollectAppend | list_deleted_open.py:55-81 | the loop handles rows one at a time: two stretches of rows give their records one after the other |
| Lsof.CollectMembers | list_deleted_open.py:55-81 | a record is collected if and only if some row gives it |
| Lsof.ParseLsofMembers | list_deleted_open.py:51-82 | `parse_lsof` holds a record if and only if some line after the header gives it |
| Lsof.HeaderIgnored | list_deleted_open.py:55 | the first line is skipped, whatever it says |
| Lsof.ParseLsofAppend | list_deleted_open.py:55-81 | more lines after a listing add their records at the end, in order |
| Report.InsertCount | list_deleted_open.py:97 | insertion adds the record and loses nothing |
| Report.InsertSorted | list_deleted_open.py:97 | insertion keeps the list sorted largest first |
| Report.InsertStable | list_deleted_open.py:97 | insertion puts a record after those of equal size and reorders no size |
| Report.SortBySizeDesc | list_deleted_open.py:97 | the result is a permutation, sorted largest first, with equal sizes in their original order |
| Report.StableSortUnique | list_deleted_open.py:97 | two size-descending lists with the same records of each size in the same order are equal, so every stable sort gives SortBySizeDesc's result |
| Report.NoneKept | list_deleted_open.py:93-95 | `parse_lsof` is empty if and only if no line after the header is kept |
| Report.Report | list_deleted_open.py:91-97 | "no matches" if and only if no row is kept; otherwise a non-empty, sorted, stable permutation of the kept records |
| Report.Run | list_deleted_open.py:89-97 | the run fails if and only if the (corrected) threshold fails to parse; otherwise it lists "no matches" if and only if no line after the header is kept, and else exactly the kept records, as a permutation of `parse_lsof`'s result, sorted largest first with equal sizes in listing order; every listed record has 0 links and meets the threshold |

## Left out

- `run_lsof` (lines 40-49) spawns lsof. Its output lines are a parameter of `Report.Report` and `Report.Run`.
- `parse_args` (lines 9-21) is left out: it is argument parsing.
- `sizeof_fmt` and the printing of the table (lines 23-28, 99-113) are left out.
- The root warning (lines 85-86) only writes to stderr and is left out.
- The "no matches" message and `sys.exit(0)` (lines 93-95) are the `NoMatches` listing.
- An uncaught `ValueError` from `parse_size` ends the tool. `Report.Run` gives `Err` exactly when the corrected `parse_size` fails; a text that only the code as written refuses, such as `500G`, gives `Ok` there (see the last line of this section).
- Python's float is binary floating point. `SizeParse.Scaled` multiplies exactly and truncates. The two can differ by one byte, or in the last digits of very large values.
- `SizeParse.Scaled` raises no `OverflowError`. A numeral too long for a float (over about 308 digits) gives `inf`, and `int()` then raises; the model gives the exact product.
- `Numerals.ParseDecimal` does not accept exponents (`1e3`), `inf`, `nan`, or `_` between digits, all of which `float()` accepts. `Numerals.ParseInt` does not accept `_` between digits either.
- Numerals.ParseInt: no limit on the number of digits. Since Python 3.11, `int()` refuses more than 4300 digits by default (the limit can be changed at run time), so such a row would be skipped at line 63-64 where the model keeps it; `str(i)` refuses such values too, so `Numerals.ParseIntFormatInt` holds for all integers only without the limit.
- Both conversions accept only ASCII digits. Python's `isdigit`, `int` and `float` also accept other Unicode decimal digits.
- `Text.Upper` maps only ASCII letters. Python's `upper()` maps all letters, and some map to two characters (`ß` to `SS`).
- The help text's examples `100M` and `2T`, and the default `500G` (lines 18-19), all fail with the code as written (see Findings).
- `Report.Run` reads the threshold with the corrected `parse_size` (`SizeParse.ParseSizeIntended`). With the code as written, the default `500G` stops the tool before lsof's lines are read (`SizeParse.DefaultMinSize`).

## Findings

| source | as written | input that shows it | evidently intended | confidence | as-written member | corrected member |
|---|---|---|---|---|---|---|
| list_deleted_open.py:35 | the bare-bytes entry `""` is chosen when `s[:-1].isdigit()`, but line 36 converts the whole `s`. Digits plus a unit letter are taken as bytes, and `float()` fails on the letter. A single digit has an empty `s[:-1]`, so it falls through to "Invalid size" | `"500G"` (the default `--minsize`), `"100M"`, `"1K"` raise `ValueError` from `float()`; `"5"` raises "Invalid size: 5" | the bare entry applies only when the whole text is digits, so `"500G"` is 536870912000 bytes and `"5"` is 5 bytes | not executed | SizeParse.ParseSizeRejectsUnitSuffix | SizeParse.ParseSizeIntendedScales |
