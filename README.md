# Frontmatter header converter, modelled in Dafny

`convert-frontmatter-header.py` migrates the YAML header ("frontmatter") of
MDX blog posts from an old key convention to a new one. The script does four
things for each file:

1. The **extractor** cuts the document into the header text and the body.
   It uses the anchored, non-greedy pattern `^---\n(.*?)\n---\n(.*)`.
2. The **field mapper** builds the new header:
   - `title` becomes `str(title)`;
   - `summary` becomes `description`, as `str(summary)`;
   - `date` becomes `publishDate`, reformatted to `DD Mon YYYY` by the date conversion;
   - `tags` is copied;
   - `draft` is copied when it is truthy;
   - every other key is dropped.
3. The **serializer** writes one `key: value` line per item.
4. The **reassembly** puts the new header back between `---` delimiters in
   front of the unchanged body. The directory driver counts the files it
   converted.

The model has six modules:

| module | content |
|---|---|
| `Values` | header values, Python's dict lookup, truthiness and `str()` |
| `Extractor` | `parse_mdx_frontmatter`, with the regular expression written out as string operations |
| `DateFormat` | `convert_date_format`: `Z` replacement, a recogniser for ISO dates, `strftime("%d %b %Y")` |
| `Mapper` | `convert_frontmatter`, as a pure construction of the new item sequence |
| `Serializer` | `frontmatter_to_yaml`, as a method with a loop over the items |
| `Converter` | `convert_mdx_file` and `convert_directory` |

The foreign pieces are parameters:

- `yaml.safe_load` is `load: string -> YamlResult`. It gives a parse error, a null document or a mapping.
- The two uses of `yaml.dump` are the fields of `YamlDump`.
- A file is a `FileInput`: the text read (none when opening or decoding fails) and whether writing it back succeeds.

Two behaviours of the code deserve a note:

- **Re-running on converted output is not a no-op.** The second run drops `description` and `publishDate`, because `summary` and `date` are no longer there. It keeps `title`, `tags` and a truthy `draft`. `Mapper.Reconvert` states exactly this. `Mapper.SecondRunIsFixpoint` shows that from the second run on nothing changes.
- **Numeric offsets without a colon are accepted.** `datetime.fromisoformat` reads `-0800` from Python 3.11 on, and the docstring of `convert_date_format` gives `2023-03-22T00:00:00-0800` as its input format.

## Model

| member | source | states |
|---|---|---|
| Values.Lookup | src/content/post/convert-frontmatter-header.py:51-52 | `k in d` then `d[k]`: a value is found exactly when some item has the key, and it is the value of such an item |
| Values.LookupAppend | src/content/post/convert-frontmatter-header.py:48-70 | a dict built by appending new keys answers a lookup from the first part when the key is there, otherwise from the appended part |
| Values.Truthy | src/content/post/convert-frontmatter-header.py:67 | Python truthiness: an empty string or list, `False`, `0` and `None` are false; `Mapper.MapperKeys` and `Mapper.MapperLookup` state that `draft` is copied exactly when it is truthy |
| Values.Stringify | src/content/post/convert-frontmatter-header.py:52-56 | `str()` of a value: a string is itself, booleans are `True`/`False`, null is `None`; a float or other scalar is the text it carries; an int is its decimal text (a `-` before the magnitude when negative, no leading zero), which spells the number back; a list is bracketed, `[]` when empty and `['x']` for one element |
| Values.NatText | src/content/post/convert-frontmatter-header.py:52-56 | the decimal text of a natural number is non-empty, all digits, spells the number back, and starts with `0` only for zero |
| Values.IntText | src/content/post/convert-frontmatter-header.py:52-56 | `str()` of an int starts with `-` exactly when it is negative; the digits after the sign spell the magnitude with no leading zero |
| Values.StringifyCons | src/content/post/convert-frontmatter-header.py:52-56 | `str()` of a list of strings: the first element single-quoted, then `", "` and the rest element by element, inside one pair of brackets |
| Extractor.SplitFrontmatter | src/content/post/convert-frontmatter-header.py:13-14 | `re.match` of the pattern: a match is the content cut as `---\n`, header, `\n---\n`, rest; `Extractor.SplitIff` states the converse and which cut is taken |
| Extractor.FindClosing | src/content/post/convert-frontmatter-header.py:13-14 | the non-greedy search: the closing `\n---\n` found is the first one at or after the start, and none is reported only when there is none |
| Extractor.ParseMdxFrontmatter | src/content/post/convert-frontmatter-header.py:7-27 | no match gives no header and the whole content; a header that loads gives the loaded document (a mapping or null) with the text after the closing delimiter; a returned header always comes with that text |
| Extractor.MatchIff | src/content/post/convert-frontmatter-header.py:13-17 | the pattern matches exactly when the content opens with `---\n` and has a `\n---\n` at or after index 4 |
| Extractor.NoMatchLeavesContent | src/content/post/convert-frontmatter-header.py:13-17 | without the opening delimiter or a later closing one, the result is no header and the original content unchanged |
| Extractor.SplitIff | src/content/post/convert-frontmatter-header.py:13-20 | the split is `(header, rest)` exactly when `content == "---\n" + header + "\n---\n" + rest` and no closing delimiter starts inside the header (both directions) |
| Extractor.HeaderHasNoClosing | src/content/post/convert-frontmatter-header.py:13-20 | the extracted header never contains `\n---\n` |
| Extractor.BadYamlIsNoFrontmatter | src/content/post/convert-frontmatter-header.py:22-27 | a YAML error or a null document gives no header; after a YAML error the body is the whole content, after a null document the matched remainder |
| DateFormat.Digits | src/content/post/convert-frontmatter-header.py:38 | zero-padded decimal field of a fixed width: exactly `w` characters, all digits |
| DateFormat.NumDigits | src/content/post/convert-frontmatter-header.py:38 | reading back a padded number that fits its width gives the number |
| DateFormat.DigitsNum | src/content/post/convert-frontmatter-header.py:36 | re-padding the value of a digit string at its own width gives the string back, leading zeros included |
| DateFormat.NumTwo | src/content/post/convert-frontmatter-header.py:36 | a two-digit field is worth ten times its first digit plus its second |
| DateFormat.ClockOk | src/content/post/convert-frontmatter-header.py:36 | the clock shapes `fromisoformat` accepts here: `HH`, `HH:MM`, `HH:MM:SS` or `HH:MM:SS.f`, so 2, 5, 8 or 10 to 15 characters; `DateFormat.FractionClock` and `DateFormat.ClockChars` state the rest |
| DateFormat.OffsetOk | src/content/post/convert-frontmatter-header.py:36 | the offset is absent, `±HHMM` or `±HH:MM`: 0, 5 or 6 characters; `DateFormat.OffsetHasNoZ` states it holds no `Z` |
| DateFormat.TimeSuffixOk | src/content/post/convert-frontmatter-header.py:36 | what may follow the date: nothing, or a separator, a clock and an offset, at most 22 characters; `DateFormat.SuffixOk` states that every accepted clock and offset combine |
| DateFormat.OffsetHasNoZ | src/content/post/convert-frontmatter-header.py:36 | an accepted offset holds no `Z`, so the replacement leaves it alone |
| DateFormat.ParseIso | src/content/post/convert-frontmatter-header.py:36 | `fromisoformat` accepts only valid calendar dates (year 1..9999, day within the month, leap years), needs `-` at positions 4 and 7 and an accepted time suffix after the day, and takes year, month and day from the digit fields `YYYY-MM-DD` |
| DateFormat.ParseIsoShape | src/content/post/convert-frontmatter-header.py:36 | the converse of `DateFormat.ParseIsoText`: a text that parses is exactly the ISO form of its date followed by an accepted suffix |
| DateFormat.ParseIsoText | src/content/post/convert-frontmatter-header.py:36 | any valid date written as `YYYY-MM-DD`, with or without an accepted time and offset suffix, parses back to that date |
| DateFormat.IsoText | src/content/post/convert-frontmatter-header.py:36 | the ISO form of a date is ten characters: four digits, `-`, two digits, `-`, two digits |
| DateFormat.FormatDate | src/content/post/convert-frontmatter-header.py:38 | `strftime("%d %b %Y")` is eleven characters with spaces at positions 2 and 6 |
| DateFormat.FormatDateFields | src/content/post/convert-frontmatter-header.py:38 | the formatted text reads back to the date: the first two digits are the day, the last four the year, and the middle is the month's abbreviation from the table |
| DateFormat.ReplaceZ | src/content/post/convert-frontmatter-header.py:36 | `replace("Z", "+00:00")` never shortens the text; `DateFormat.ReplaceZRemovesZ`, `DateFormat.ReplaceZKeeps` and `DateFormat.ReplaceZAppend` state what it does |
| DateFormat.ReplaceZRemovesZ | src/content/post/convert-frontmatter-header.py:36 | after `replace("Z", "+00:00")` no `Z` is left |
| DateFormat.ReplaceZKeeps | src/content/post/convert-frontmatter-header.py:36 | a text without `Z` is not changed by the replacement |
| DateFormat.ReplaceZAppend | src/content/post/convert-frontmatter-header.py:36 | the replacement works piece by piece: replacing in `a + b` is replacing in `a` followed by replacing in `b` |
| DateFormat.ConvertDateString | src/content/post/convert-frontmatter-header.py:32-41 | on a string the result is either the input unchanged or an eleven-character `DD Mon YYYY` date; `DateFormat.UnparseableUnchanged` and `DateFormat.ParsedReformatted` say which |
| DateFormat.ConvertDate | src/content/post/convert-frontmatter-header.py:30-41 | a string is converted by `DateFormat.ConvertDateString`; a non-string value has no `replace`, so the `AttributeError` is caught and the value comes back unchanged |
| DateFormat.UnparseableUnchanged | src/content/post/convert-frontmatter-header.py:39-41 | a date text that does not parse after the `Z` replacement is returned exactly as given |
| DateFormat.ParsedReformatted | src/content/post/convert-frontmatter-header.py:36-38 | a date that parses is rewritten from its own fields: day digits, the month's abbreviation, year digits |
| DateFormat.DateTimeConverted | src/content/post/convert-frontmatter-header.py:34-38 | a valid date, `T`, an accepted clock and an accepted offset (possibly none) convert to the formatted date; the offset is not applied |
| DateFormat.FractionClock | src/content/post/convert-frontmatter-header.py:36 | after `HH:MM:SS`, a `.` and a fraction are accepted exactly when the fraction has one to six digits |
| DateFormat.SuffixOk | src/content/post/convert-frontmatter-header.py:36 | `T`, an accepted clock and an accepted offset form an accepted suffix |
| DateFormat.ExampleOffsetDate | src/content/post/convert-frontmatter-header.py:32-38 | `2023-03-22T00:00:00-0800` becomes `22 Mar 2023` |
| DateFormat.ExampleMicroseconds | src/content/post/convert-frontmatter-header.py:34-38 | `2023-03-22T00:00:00.123456` (six fraction digits) becomes `22 Mar 2023` |
| DateFormat.ExampleNotADate | src/content/post/convert-frontmatter-header.py:39-41 | `not-a-date` passes through unchanged |
| DateFormat.ExampleBadSuffix | src/content/post/convert-frontmatter-header.py:36-41 | `2023-03-22 garbage` passes through unchanged: the date is valid but the rest is not a time |
| DateFormat.ZuluSuffix | src/content/post/convert-frontmatter-header.py:36-38 | a date-time ending in `Z` is read as the `+00:00` offset and formatted, not left as it was |
| DateFormat.ClockChars | src/content/post/convert-frontmatter-header.py:36 | an accepted clock part is made of digits, `:` and `.` only |
| Mapper.ConvertFrontmatter | src/content/post/convert-frontmatter-header.py:44-70 | the new header holds only new-schema keys, in insertion order title, description, publishDate, tags, draft, each at most once |
| Mapper.MapperLookup | src/content/post/convert-frontmatter-header.py:51-68 | under each key the new header holds exactly the reference value: `str(title)`, `str(summary)`, the converted `date`, `tags` unchanged, `draft` only when truthy, nothing else |
| Mapper.MapperKeys | src/content/post/convert-frontmatter-header.py:48-70 | each new key is present exactly when its source key is (`draft` also needs a truthy value); no key outside the schema is ever present |
| Mapper.ExamplePublishDate | src/content/post/convert-frontmatter-header.py:58-59 | end to end through the mapper: a `date` of `2023-03-22T00:00:00-0800` gives a `publishDate` of `22 Mar 2023`, the conversion the docstring of `convert_date_format` describes |
| Mapper.DroppedKeys | src/content/post/convert-frontmatter-header.py:48-70 | `layout`, `summary` and `date` never appear in the new header |
| Mapper.FullHeaderOrder | src/content/post/convert-frontmatter-header.py:51-68 | a header with all five source keys (truthy draft) maps to exactly five items in the order title, description, publishDate, tags, draft |
| Mapper.RankNames | src/content/post/convert-frontmatter-header.py:51-68 | a key has a position in the insertion order exactly when it is one of the five new keys, and that position names it |
| Mapper.InsertKeepsOrder | src/content/post/convert-frontmatter-header.py:51-68 | each conditional insert of a later key keeps the header ordered and inside the schema |
| Mapper.OrderedUnique | src/content/post/convert-frontmatter-header.py:48-70 | two ordered new-schema headers that agree on every key are the same sequence |
| Mapper.Reconvert | src/content/post/convert-frontmatter-header.py:44-70 | running the mapper on its own output keeps title, tags and draft and drops description and publishDate |
| Mapper.SecondRunIsFixpoint | src/content/post/convert-frontmatter-header.py:44-70 | from the second run on, the mapper returns its input unchanged |
| Serializer.RenderLine | src/content/post/convert-frontmatter-header.py:80-91 | the line of one item: a string as `key: "value"`, a list and any other value through the two `yaml.dump` renderings; `Serializer.LineStartsWithKey` and `Serializer.StringVerbatim` state its shape |
| Serializer.Serialize | src/content/post/convert-frontmatter-header.py:93 | the rendered lines joined by `\n`; `Serializer.SerializedLines` states that it reads back line by line |
| Serializer.Lines | src/content/post/convert-frontmatter-header.py:80-91 | one line per item, in the header's order, each the rendering of its item |
| Serializer.FrontmatterToYaml | src/content/post/convert-frontmatter-header.py:73-93 | the loop's result is the rendered lines of the items, in order, joined by `\n` |
| Serializer.SplitJoin | src/content/post/convert-frontmatter-header.py:93 | splitting the joined text at `\n` gives the lines back when none holds a newline |
| Serializer.JoinSplit | src/content/post/convert-frontmatter-header.py:93 | joining the pieces of a split at `\n` gives the text back |
| Serializer.SerializedLines | src/content/post/convert-frontmatter-header.py:78-93 | read line by line, the serialized header is exactly one line per item in order, when no rendered item holds a newline |
| Serializer.LineStartsWithKey | src/content/post/convert-frontmatter-header.py:80-91 | every line starts with its key followed by `: ` |
| Serializer.StringVerbatim | src/content/post/convert-frontmatter-header.py:81-83 | a string value sits between double quotes exactly as given, with no escaping |
| Converter.Reassemble | src/content/post/convert-frontmatter-header.py:115 | the new document is the header text and the body plus the nine delimiter characters |
| Converter.ConvertedContent | src/content/post/convert-frontmatter-header.py:104-115 | what a document becomes; `Converter.NoFrontmatterNotConverted` states when it is nothing and `Converter.ConvertedKeepsBody` what it is otherwise |
| Converter.Written | src/content/post/convert-frontmatter-header.py:100-125 | what is written back to a file: the converted content, only when the file was read and could be written; `Converter.ConvertMdxFile` returns it |
| Converter.ConvertMdxFile | src/content/post/convert-frontmatter-header.py:96-129 | `True` exactly when something is written; what is written is the converted content, and only when the file was read, had a header and could be written |
| Converter.NoFrontmatterNotConverted | src/content/post/convert-frontmatter-header.py:104-108 | nothing is produced exactly when there is no match, the header is not valid YAML, or it loads as null |
| Converter.ConvertedKeepsBody | src/content/post/convert-frontmatter-header.py:104-115 | a converted document is the original with only its header replaced by the serialized new header; the text after the closing delimiter is kept verbatim |
| Converter.WindowInHeader | src/content/post/convert-frontmatter-header.py:115 | a delimiter-sized window inside the new header sees the same text in the new document |
| Converter.WindowAcrossEnd | src/content/post/convert-frontmatter-header.py:115 | no closing delimiter starts in the last three characters of the header |
| Converter.ReassembleSplits | src/content/post/convert-frontmatter-header.py:115 | extracting from a reassembled document gives back exactly its header and body if and only if the header text (with its newline) holds no `\n---\n` |
| Converter.ConvertedReadsBack | src/content/post/convert-frontmatter-header.py:104-115 | the converter's output reads back as the header it serialized and the body it kept, when that header holds no closing delimiter |
| Converter.Outcomes | src/content/post/convert-frontmatter-header.py:144-146 | one success flag per file, in order, each the flag `convert_mdx_file` returns |
| Converter.CountTrue | src/content/post/convert-frontmatter-header.py:143-146 | the success count never exceeds the number of files processed |
| Converter.CountStep | src/content/post/convert-frontmatter-header.py:145-146 | each further file adds one to the count exactly when it succeeds |
| Converter.CountAll | src/content/post/convert-frontmatter-header.py:143-148 | the count equals the number of flags exactly when every flag is true |
| Converter.CountNone | src/content/post/convert-frontmatter-header.py:143-148 | the count is zero exactly when no flag is true |
| Converter.SuccessCountBounds | src/content/post/convert-frontmatter-header.py:143-148 | the reported count is at most the number of files; it equals it exactly when every file converts, and is zero exactly when none does |
| Converter.ConvertDirectory | src/content/post/convert-frontmatter-header.py:139-148 | no files gives the early exit; otherwise the loop reports the number of converted files out of the number of files |

## Left out

- File I/O, the glob that lists the files, and every `print`. A file is reduced to the text read (or a read failure) and a flag saying whether the write succeeds. The report is returned instead of printed.
- The YAML grammar of `yaml.safe_load`. It is the parameter `load`, and a mapping is a sequence of items in insertion order. `Values.Lookup` answers with the first item holding a key, whereas PyYAML keeps the last value of a repeated key; the two agree on mappings whose keys are distinct, which is what `load` is expected to return.
  - A document that is a list or a scalar rather than a mapping is not modelled. The mapper's `in` tests would then behave differently, or raise.
  - Unquoted dates that PyYAML loads as `datetime` objects are not modelled. On those, `.replace("Z", "+00:00")` raises a `TypeError` that only the broad `except` of `convert_mdx_file` catches.
  - Lists holding anything but strings are not modelled.
- The text `yaml.dump` produces for lists and non-string scalars. Both renderings are the opaque fields of `YamlDump`, so no line for those values is stated verbatim.
- The full grammar of `datetime.fromisoformat`. The recogniser accepts `YYYY-MM-DD`, optionally followed by any one separator character, a clock (`HH`, `HH:MM`, `HH:MM:SS`, `HH:MM:SS.f` with 1 to 6 fraction digits) and an offset (`±HH:MM` or `±HHMM`). It rejects everything else, including:
  - basic (undashed) and week dates;
  - offsets of hours only or with seconds;
  - fractions of more than six digits, which Python 3.11 truncates;
  - `,` as the fraction separator;
  - basic (colon-free) clocks such as `HHMMSS`.
- Python versions before 3.11, whose `fromisoformat` rejects `-0800`.
- The locale dependence of `%b`: the C-locale abbreviations are used.
- The platform dependence of `%Y` for years below 1000: the year is always padded to four digits.
- Values.Stringify: the `str()` of a list is exact only for elements that hold no quote, backslash, newline, tab or other non-printable character. For those, Python's `repr` escapes the character or switches to double quotes, and the model does not. The `str()` of a float or other scalar is carried in the value rather than computed.
- DateFormat.FormatDate: the contract states the shape; the reading back of the day, month and year is in DateFormat.FormatDateFields.
- Converter.ConvertDirectory: does not return the texts written to the individual files; Converter.ConvertMdxFile states what each file receives.
- The optional `output_path` argument of `convert_mdx_file`. The model always writes back to the file it read, as `convert_directory` does.
- Exceptions inside `convert_mdx_file` other than a failed read, a missing header or a failed write.
- The `__main__` demonstration block.
