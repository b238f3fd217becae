# mykgutils, modelled in Dafny

`mykgutils` is a small Python module of console and text helpers:

- `fclrprint` prints text in one of six terminal colours.
- `slugify` turns a title into a URL slug.
- `get_num_of_files_in_dir` counts the files with a given extension.
- `bytes_to_human` and `seconds_to_human` render sizes and durations.
- `column_num2str` names spreadsheet columns.

This project models the parts of these helpers that compute something. It proves what each promises.

| file | module | models |
|---|---|---|
| `wrappers.dfy` | `Wrappers` | `Option`, for results that can fail |
| `decimal.dfy` | `Decimal` | `str(n)`, `"%d"` and `"%02d"` of integers; a digit parser reads back the digits of each, after the sign for negative numbers |
| `colors.dfy` | `ColorPrint` | `COLOR_MAP_DICT` and the escaped text `fclrprint` builds |
| `slugify.dfy` | `Slugs` | `slugify`, as a method that reassigns the string once per step, and the pipeline as a function |
| `file_count.dfy` | `FileCount` | the counting loop of `get_num_of_files_in_dir`, over a given list of names |
| `byte_units.dfy` | `ByteUnits` | the unit-selection loop of `bytes_to_human`, over exact reals |
| `durations.dfy` | `Durations` | `seconds_to_human`: truncation, `timedelta` normalisation, `str(timedelta)` and `zfill(8)` |
| `columns.dfy` | `ColumnNames` | `column_num2str`, as a loop, with the bijective base-26 decoder as its inverse |

Loops in the source are methods with loop invariants in the model:

- `ColumnNum2Str` has the `while n > 0` loop.
- `Slugify` has the loop over the separators.
- `CountFiles` has the loop over the listing.
- `SelectUnit` has the loop with `break`.

Each method is proved against a specification function. The function's properties are proved as lemmas.

`column_num2str` has no error path: for `n <= 0` its loop never runs and it returns `""`. `ColumnNum2Str` states this.

## Model

| member | source | states |
|---|---|---|
| ColorPrint.ColorCode | mykgutils.py:9-16 | The colour is the map entry of the colour name when there is one, and yellow (93) otherwise. It is always one of the six codes, each of two digits. |
| ColorPrint.Colored | mykgutils.py:23-26 | The printed text is ESC `[`, two digits that parse to the colour code, `m`, the text unchanged, then the reset escape ESC `[0m`. It is 9 characters longer than the text. |
| ColorPrint.UncolorColored | mykgutils.py:26 | From the printed text, both the colour code and the original text can be read back. |
| ColorPrint.ColoredDeterminesCode | mykgutils.py:23-26 | Two colour names that print a text the same way select the same colour code. |
| ColorPrint.Examples | mykgutils.py:20-26 | "ok" in green is `ESC[92mokESC[0m`. With the default colour, or with an unknown colour name, it is the yellow rendering `ESC[93m…`. |
| Decimal.NatToStr | mykgutils.py:26 | `'%s' % color`: at least one decimal digit, no leading zero except for 0 itself, and a single digit exactly below 10. |
| Decimal.ParseNatToStr | mykgutils.py:26 | `'%s' % color` renders the code as decimal digits that parse back to the code. |
| Decimal.IntToStr | mykgutils.py:70 | The `"%d"` of the day count in `str(timedelta)`: a leading `-` exactly for negative numbers, then decimal digits that parse back to the magnitude. |
| Decimal.Pad2 | mykgutils.py:70 | The `"%02d"` of minutes and seconds in `str(timedelta)`: exactly two digits that parse back to the number. They are the digits of `str(n)` from 10 on, and a `0` followed by the single digit below 10. |
| Slugs.Lower | mykgutils.py:33 | `s.lower()` keeps the length and leaves no capital letter. |
| Slugs.Replace | mykgutils.py:35 | `s.replace(a, b)` for single characters keeps the length and leaves no `a` when `a != b`. The same function models lines 37 and 40. |
| Slugs.ReplaceEach | mykgutils.py:34-35 | The separator loop keeps the length. `ReplaceEachAt` gives its result pointwise. |
| Slugs.DeleteNonWord | mykgutils.py:36 | `rx_sub('\W', '', s)` never lengthens the text. `DeleteNonWordChars` and `DeleteNonWordOfWords` say what it keeps. |
| Slugs.CollapseSpaces | mykgutils.py:38 | `rx_sub('\s+', ' ', s)` never lengthens the text. `CollapseShape` and `CollapseOfSpaced` give its shape. |
| Slugs.Strip | mykgutils.py:39 | `s.strip()` never lengthens the text, and its result neither starts nor ends with whitespace. |
| Slugs.Slug | mykgutils.py:33-41 | The whole pipeline, one step per source line. The slug is never longer than the input. |
| Slugs.Slugify | mykgutils.py:29-41 | The loop over the four separators and the five later reassignments compute the pipeline `Slug`. The result is a well-formed slug and keeps exactly the lowercase letters and digits of the lowercased input. |
| Slugs.ReplaceEachAt | mykgutils.py:34-35 | After the separator loop, each character is `_` if it was a separator. Otherwise it is unchanged. The length is unchanged. |
| Slugs.DeleteNonWordChars | mykgutils.py:36 | Every character left after removing `\W` is a word character that was in the string. |
| Slugs.DeleteNonWordOfWords | mykgutils.py:36 | Removing `\W` leaves a string of word characters as it is. |
| Slugs.CollapseShape | mykgutils.py:38 | Collapsing `\s+` in letters, digits and whitespace leaves letters, digits and single spaces, never two spaces in a row. A leading space comes only from leading whitespace. |
| Slugs.CollapseOfSpaced | mykgutils.py:38 | Text with only single spaces is unchanged by the collapse. |
| Slugs.StripShape | mykgutils.py:39 | `strip()` of single-spaced text is single-spaced, and neither starts nor ends with a space. |
| Slugs.StripOfSpaced | mykgutils.py:39 | `strip()` leaves text without outer spaces unchanged. |
| Slugs.SlugIsSlug | mykgutils.py:33-41 | Every result contains only lowercase letters, digits and `-`. That rules out `_` and whitespace. It never starts or ends with `-` and never holds `--`. |
| Slugs.WordsShape | mykgutils.py:33-36 | After lowercasing, the separator loop and the removal of `\W`, only lowercase letters, digits and `_` are left. |
| Slugs.SlugOfWords | mykgutils.py:37-40 | The last four steps turn a string of lowercase letters, digits and `_` into a well-formed slug. |
| Slugs.SlugOfSlug | mykgutils.py:33-41 | A well-formed slug is its own slug. |
| Slugs.SlugIdempotent | mykgutils.py:29-41 | `slugify(slugify(s)) == slugify(s)`. |
| Slugs.KeepAlnumReplaceEach | mykgutils.py:34-35 | Replacing separators by `_` keeps the letters and digits, in order. |
| Slugs.KeepAlnumDeleteNonWord | mykgutils.py:36 | Removing `\W` keeps the letters and digits, in order. |
| Slugs.KeepAlnumReplace | mykgutils.py:37 | Replacing `_` by a space keeps the letters and digits, in order. The same holds at line 40, replacing a space by `-`. |
| Slugs.KeepAlnumCollapse | mykgutils.py:38 | Collapsing whitespace keeps the letters and digits, in order. |
| Slugs.KeepAlnumSkipSpaces | mykgutils.py:39 | Dropping leading whitespace keeps the letters and digits. |
| Slugs.KeepAlnumTrimEnd | mykgutils.py:39 | Dropping trailing whitespace keeps the letters and digits. |
| Slugs.SlugKeepsAlnum | mykgutils.py:33-41 | The slug keeps exactly the lowercase letters and digits of the lowercased input, in their order. Everything else is dropped or becomes a `-` between them. |
| FileCount.EndsWith | mykgutils.py:48 | `name.endswith(suffix)`: the last `len(suffix)` characters of the name are the suffix. Every name ends with `""`. |
| FileCount.CountFiles | mykgutils.py:43-50 | The counter ends at the number of names that end with the extension, which is at most the number of names. It is the number of names exactly when all of them match, and 0 exactly when none does. |
| FileCount.MatchingCounts | mykgutils.py:47-49 | The names counted are exactly the listed names that end with the extension, each as often as the listing holds it. |
| FileCount.AllMatch | mykgutils.py:46-50 | Every name counts if and only if every name ends with the extension. |
| FileCount.NoneMatch | mykgutils.py:46-50 | No name counts if and only if no name ends with the extension. |
| ByteUnits.Shrink | mykgutils.py:63-64 | The size after `k` rounds of `size /= 1024`. For a non-negative size it stays between 0 and the size. |
| ByteUnits.AsWritten | mykgutils.py:62-64 | The loop's exit state: every earlier unit left at least 1024. Below 1024, the value printed is the value in unit `k`. Otherwise `k` is `Y` and the value has been divided nine times. |
| ByteUnits.SelectUnit | mykgutils.py:59-65 | The loop stops at the first unit whose value is below 1024 and returns that value. When no unit's value is below 1024, it stops at `Y` with the value divided nine times. The suffix is the unit letter and `B`. |
| ByteUnits.ShrinkBelow1024 | mykgutils.py:63-64 | The value after `k` divisions is below 1024 exactly when the size is below `1024 ** (k+1)`. |
| ByteUnits.ShrinkScaled | mykgutils.py:64 | The value after `k` divisions, taken `k` times by 1024, is the size. |
| ByteUnits.AsWrittenIndex | mykgutils.py:62-64 | The unit chosen is the least `k` in 0..8 with `size < 1024 ** (k+1)`, or `Y`. Every chosen unit but bytes is at most the size. |
| ByteUnits.AsWrittenBelowYotta | mykgutils.py:62-65 | Below `1024 ** 9` the printed value is below 1024 and, in the printed unit, is exactly the size. |
| ByteUnits.AsWrittenBeyondYotta | mykgutils.py:62-65 | From `1024 ** 9` on, the printed unit is `Y`, but the printed value counts units of `1024 ** 9`. |
| ByteUnits.YottaOffByOne | mykgutils.py:62-65 | At exactly `1024 ** 9` bytes the loop prints 1 `Y`, which stands for `1024 ** 8` bytes. The intended choice is 1024 `Y`. |
| ByteUnits.IntendedIndex | mykgutils.py:62-63 | The corrected search stops at the first unit whose value is below 1024, or at `Y`. |
| ByteUnits.IntendedUnitExact | mykgutils.py:62-65 | With the correction, the printed value in the printed unit is always exactly the size. |
| ByteUnits.IntendedUnitBelow | mykgutils.py:62-65 | With the correction, the value is below 1024 for every size below `1024 ** 9`, and the unit never exceeds the size. |
| ByteUnits.AgreeBelowYotta | mykgutils.py:62-65 | Below `1024 ** 9` the loop as written and the corrected choice give the same value and unit. |
| ByteUnits.Examples | mykgutils.py:59-65 | 0 bytes are `0` with no prefix. 1024 and 1536 bytes are `1` and `1.5` in `k`. |
| Durations.Trunc | mykgutils.py:70 | `int(seconds)` truncates toward zero. The magnitude drops by less than 1 and the sign is kept. |
| Durations.Normalize | mykgutils.py:70 | `timedelta` splits the seconds into whole days and a remainder of `0..86399` seconds that add up to the total. |
| Durations.NormalizeUnique | mykgutils.py:70 | That split is the only one with the remainder in range. |
| Durations.Plural | mykgutils.py:70 | `day` takes no `s` exactly for 1 and -1 days. |
| Durations.Clock | mykgutils.py:70 | `"%d:%02d:%02d"` of `timedelta`'s hours, minutes and seconds, taken with `divmod` as `timedelta` does. It has 7 characters below ten hours and 8 from then on, with colons 6 and 3 characters from the end. |
| Durations.TimedeltaStr | mykgutils.py:70 | `str(timedelta)`: it ends with the clock, and it has at most 8 characters exactly when the day count is 0. |
| Durations.ZFill | mykgutils.py:70 | `zfill(8)` pads to at least 8 characters with zeros on the left, after a leading sign, and changes nothing else. |
| Durations.SecondsToHuman | mykgutils.py:67-70 | The call fails (`OverflowError`) exactly when the day count exceeds 999999999 in magnitude. |
| Durations.TruncatesFirst | mykgutils.py:70 | The fraction of the input plays no role. |
| Durations.WithinADay | mykgutils.py:70 | For `0 <= t < 86400` the result is `HH:MM:SS`, where `HH = t/3600`, `MM = t%3600/60` and `SS = t%60`, each two digits. |
| Durations.WithinADayRoundTrip | mykgutils.py:67-70 | For `0 <= x < 86400` the result has 8 characters, with digits and colons in place, and its three fields add back up to `int(x)` seconds. |
| Durations.DaysForm | mykgutils.py:70 | From one day on, the result is `D day(s), H:MM:SS` and is not zero-filled. |
| Durations.NegativeForm | mykgutils.py:70 | Negative totals render as `-D day(s), H:MM:SS`: the negative floor day count, then the clock of the seconds after it. |
| Durations.OverflowBound | mykgutils.py:70 | The call fails exactly for totals below `-999999999` days or from `1000000000` days on. |
| Durations.Example65 | mykgutils.py:67-70 | `seconds_to_human(65)` is `"00:01:05"`. |
| Durations.Example3661 | mykgutils.py:67-70 | `seconds_to_human(3661)` is `"01:01:01"`. |
| ColumnNames.Letter | mykgutils.py:100 | `chr(65 + remainder)` is a capital letter whose bijective base-26 digit value is `remainder + 1`. |
| ColumnNames.ColumnNum2Str | mykgutils.py:94-101 | The `divmod` loop computes `Encode(n)`. For `n <= 0` that is `""`. For `n >= 1` it is a non-empty string of `A`..`Z` that decodes back to `n`. |
| ColumnNames.Encode | mykgutils.py:97-101 | The name consists only of capital letters, and is non-empty exactly for positive numbers. |
| ColumnNames.DecodeEncode | mykgutils.py:97-101 | Reading the name as bijective base 26 (`A` = 1 … `Z` = 26, most significant letter first) gives the number back. |
| ColumnNames.EncodeDecode | mykgutils.py:97-101 | Every string of capital letters is the name of the column it decodes to, so the naming is onto. |
| ColumnNames.EncodeInjective | mykgutils.py:97-101 | Different positive numbers get different names. |
| ColumnNames.Examples | mykgutils.py:94-101 | 1 is `A`, 26 is `Z`, 27 is `AA`, 52 is `AZ` and 703 is `AAA`. |

## Left out

- `download_file` is not modelled. It does a network request, file writes, wall-clock timing and float rate arithmetic, and redraws the console.
- `get_num_of_lines_in_file` is not modelled. It delegates to the external `wc -l` command.
- `listdir` in `get_num_of_files_in_dir` is filesystem I/O. The listing is the `names` parameter of `FileCount.CountFiles`.
- `print` in `fclrprint` is console I/O. `ColorPrint.Colored` is the string passed to `print`, which adds a newline when it writes it.
- `ByteUnits.SelectUnit` returns the value, the unit index and the suffix. The `'{size:.{decimal_places}f}'` rendering of the value is float formatting and is not modelled.
- `ByteUnits.SelectUnit` divides exact reals, where Python divides binary floats. Rounding, `inf` and `nan` are not modelled.
- `ByteUnits.SelectUnit` always returns a value. In Python, `size /= 1024` on an integer whose quotient exceeds the float range (for example `bytes_to_human(10**400)`) raises `OverflowError: integer division result too large for a float`. That error path is not modelled.
- `Durations.SecondsToHuman` takes an exact real. The `OverflowError` and `ValueError` that `int()` raises for `inf` and `nan` floats are not modelled. Non-numeric arguments are not modelled either.
- `Slugs.Slugify` uses ASCII character classes. `lower()` lowercases only `A`..`Z`, `\w` is ASCII letters, digits and `_`, and `\s` is the ASCII whitespace. Python applies the Unicode classes. Once `\W` is removed, the only whitespace left is the space that replaced `_`, so the choice of whitespace class does not change the result.
- `Slugs.Slug` has no lemma for the docstring example `"[Some] _ Article's Title--"` → `"some-articles-title"`. Evaluating the recursive stages on a 26-character literal is beyond what the verifier does within its limits. The general results `SlugIsSlug`, `SlugKeepsAlnum` and `SlugIdempotent` cover the example's shape.
- `setup.py` is packaging metadata and is not modelled.

## Findings

| source | as written | input that shows it | evidently intended | confidence | as-written member | corrected member |
|---|---|---|---|---|---|---|
| mykgutils.py:62-65 | The loop divides before it moves to the next unit. When the table is used up, the value has been divided nine times but is labelled with the ninth unit `Y` (`1024 ** 8`). | `bytes_to_human(1024 ** 9)` gives `1.00YB`. That is `1024 ** 8` bytes, for a size 1024 times larger. | `1024.00YB`: the value in the unit printed, so the size is `value * 1024 ** 8` | medium, not executed | ByteUnits.YottaOffByOne | ByteUnits.IntendedUnitExact |
