# ETL cleaning rules of the health-care case study, in Dafny

`etl.py` extracts a spreadsheet of health-care records into a pandas DataFrame,
cleans three columns and replaces a SQL Server table with the result. This project
models the cleaning part:

- `encoding_transformation`, the mojibake repair (`Cleaning.RepairEncoding`): each
  character is re-encoded as one ISO-8859-1 byte, the bytes are decoded as strict
  UTF-8 (RFC 3629, sections 3 and 4), the text is decomposed (NFKD, Unicode
  Standard Annex #15), every non-ASCII character is dropped, and the result is
  lower-cased and capitalised. The byte codecs live in `Codecs`, the decomposition
  table in `Nfkd`, ASCII casing and filtering in `Ascii`.
- `gender_transformation` (`Cleaning.NormalizeGender`): `"1"` and `"male"` become
  `"Male"`, `"2"` and `"fema"` become `"Female"`, after lower-casing; everything else
  becomes `"Not known"`.
- The `'%Y-%m-%d'` rendering of the dates `pd.to_datetime` produces (`Dates`), with
  a reader for that format as its inverse.
- The DataFrame (`Frame.DataFrame`, a class whose `columns` map the methods
  reassign), the three column steps `transformation_dates`,
  `transformation_encoding`, `transformation_gender`, and `transform`, which chains
  them on the same object. Python raises exceptions; the model returns
  `Results.Error` values: `EncodeError`/`DecodeError` with the position Python
  reports, `DateParseError`, and `MissingColumn` for the `KeyError` of `df[col]`.

Every step of `transform` rewrites the caller's DataFrame in place, so when a later
step fails the earlier columns stay rewritten; `Frame.DataFrame.Transform` states
exactly which state each failure leaves. A step that fails leaves its own column as
it was, because pandas raises before the assignment.

The accepted inputs of the repair are characterised exactly
(`Cleaning.RepairAcceptsExactlyMojibake`): it succeeds on a string if and only if
the string is the Latin-1 reading of the UTF-8 bytes of some text. The UTF-8 decoder
is proved to accept exactly the encodings of strings (`Codecs.Utf8RoundTrip`,
`Codecs.Utf8DecodeInverse`).

Each step rewrites and returns the DataFrame it was given, and the model follows
this; the first cell that cannot be repaired aborts the step.

## Model

| member | source | states |
|---|---|---|
| `Cleaning.RepairEncoding` | etl.py:15-27 | a success is pure ASCII and capitalised (no lower-case letter first, no upper-case letter after); it fails with EncodeError exactly when some character is above U+00FF, at the first such index; every other failure is a DecodeError |
| `Cleaning.RepairOfMojibake` | etl.py:23-26 | the Latin-1 reading of the UTF-8 bytes of any text t repairs to t decomposed, stripped to ASCII, lower-cased and capitalised |
| `Cleaning.RepairAcceptsExactlyMojibake` | etl.py:23 | the repair succeeds if and only if its input is the Latin-1 reading of the UTF-8 encoding of some string |
| `Cleaning.AsciiIsOwnMojibake` | etl.py:23 | on ASCII text the Latin-1 encode followed by UTF-8 decode is the identity |
| `Cleaning.RepairOfAscii` | etl.py:23-26 | on ASCII input the result is the input lower-cased then capitalised |
| `Cleaning.RepairIdempotent` | etl.py:23-26 | repairing a repaired value gives it back unchanged |
| `Cleaning.ArizonaMojibake` | etl.py:19 | "ArizÃ³na" is the Latin-1 reading of the UTF-8 bytes of "Arizóna" (C3 B3 for ó) |
| `Cleaning.ArizonaDecomposed` | etl.py:24 | NFKD turns "Arizóna" into "Arizo" + U+0301 + "na" |
| `Cleaning.ArizonaFiltered` | etl.py:25 | the ASCII filter drops the combining U+0301 |
| `Cleaning.ArizonaSkeleton` | etl.py:24-26 | decomposing, filtering and recasing "Arizóna" gives "Arizona" |
| `Cleaning.RepairArizona` | etl.py:19-21 | the docstring example: "ArizÃ³na" is repaired to "Arizona" |
| `Cleaning.AcuteOMojibake` | etl.py:19 | ó is C3 B3 in UTF-8, read as "Ã³" in Latin-1 |
| `Cleaning.DropsCombiningAcute` | etl.py:25 | the ASCII filter drops a leading U+0301 and keeps what follows |
| `Cleaning.EllipsisMojibake` | etl.py:23 | the ellipsis U+2026 is E2 80 A6 in UTF-8, read as "â", U+0080, "¦" in Latin-1 |
| `Cleaning.EllipsisSkeleton` | etl.py:24-26 | with the decomposition table stopping at U+00FF, nothing of the ellipsis survives decomposing, filtering and recasing |
| `Cleaning.EllipsisRepairsToEmpty` | etl.py:23-26 | the Latin-1 mojibake of the ellipsis repairs to the empty string in the model (Python gives "..."; see Left out) |
| `Cleaning.RepairRejects` | etl.py:23 | a lone C3 and the overlong C0 AF fail to decode at 0; a character above U+00FF fails to encode at its index |
| `Cleaning.RepairRejectsCleanAccent` | etl.py:23 | already-correct "Arizóna" fails to decode at byte 4, because F3 opens a four-byte sequence that 'n' does not continue |
| `Codecs.AsciiPrefixKeepsDecodeError` | etl.py:23 | bytes below 0x80 in front of an ill-formed sequence do not change the reported error or its position |
| `Cleaning.NormalizeGender` | etl.py:29-48 | never fails and returns exactly one of "Male", "Female", "Not known" |
| `Cleaning.LowerMatches` | etl.py:42 | for a word without upper-case letters, lower-casing a string yields the word exactly when, at each position, the string has the word's character or the upper-case form of its lower-case letter |
| `Cleaning.GenderClassification` | etl.py:42-48 | "Male" if and only if the input is "1" or "male" in any letter case, "Female" if and only if it is "2" or "fema" in any letter case, "Not known" for every other input |
| `Cleaning.GenderRecognisedExamples` | etl.py:42-46 | "MALE", "Male", "1" give "Male"; "FEMA", "Fema", "2" give "Female" |
| `Cleaning.GenderUnrecognisedExamples` | etl.py:32-48 | the ISO/IEC 5218 codes "0" and "9", "", "female" and "unknown" give "Not known" |
| `Codecs.Latin1EncodeFrom` | etl.py:23 | succeeds exactly when every character is at most U+00FF, giving one byte per character equal to its code; otherwise fails at the first character above U+00FF |
| `Codecs.Latin1Encode` | etl.py:23 | `.encode('ISO-8859-1')`: succeeds exactly when every character is at most U+00FF, giving one byte per character equal to its code; otherwise an EncodeError at the first character above U+00FF |
| `Codecs.Latin1DecodeConcat` | etl.py:23 | Latin-1 decoding works byte by byte (distributes over concatenation) |
| `Codecs.Latin1RoundTrip` | etl.py:23 | encoding to Latin-1 undoes decoding from it, for every byte string |
| `Codecs.Latin1EncodeInverse` | etl.py:23 | decoding from Latin-1 undoes a successful encoding |
| `Codecs.DecodeHead` | etl.py:23 | a well-formed RFC 3629 sequence at the head of the bytes is decoded with the length its lead byte announces; ill-formed heads (C0, C1, F5-FF, stray continuation bytes, overlongs, surrogates, values above U+10FFFF, truncation) are refused |
| `Codecs.Utf8DecodeFrom` | etl.py:23 | a failure is a DecodeError at a byte position inside the input; `Codecs.DecodeErrorAtFirstIllFormed` and `Codecs.FirstIllFormedIsReported` pin that position down |
| `Codecs.Utf8Decode` | etl.py:23 | `.decode()` (strict UTF-8): a success is a text whose UTF-8 encoding is the input; a failure is a DecodeError at the start of the first ill-formed sequence: the bytes before it decode and no well-formed sequence starts there |
| `Codecs.DecodeErrorAtFirstIllFormed` | etl.py:23 | a DecodeError at index i means the bytes before i decode and no well-formed sequence starts at i, which is where Python's `UnicodeDecodeError.start` points |
| `Codecs.FirstIllFormedIsReported` | etl.py:23 | conversely, when the bytes before j decode and no well-formed sequence starts at j, decoding fails with a DecodeError at j |
| `Codecs.EncodedPrefixKeepsDecodeError` | etl.py:23 | the encoding of any text in front of bytes whose decoding fails leaves that error and its position unchanged |
| `Codecs.DecodablePrefixGrows` | etl.py:23 | a well-formed head sequence followed by bytes that decode forms a prefix that decodes |
| `Codecs.DecodeConsError` | etl.py:23 | an encoded character in front of bytes whose decoding fails leaves the error as it is |
| `Codecs.Utf8EncodeConcat` | etl.py:23 | UTF-8 encoding works character by character (distributes over concatenation) |
| `Codecs.DecodeStep` | etl.py:23 | a successful decoding starts with the character of the head sequence, and the rest of the bytes decodes to the rest of the text |
| `Codecs.DecodeAsciiByte` | etl.py:23 | a byte below 0x80 decodes to the character with that code, and decoding continues with the next byte |
| `Codecs.DecodeCons` | etl.py:23 | an encoded character in front of bytes that decode to t decodes to that character followed by t |
| `Codecs.DecodeHeadEncodeChar` | etl.py:23 | the decoder reads back the character of every encoded sequence, whatever follows it |
| `Codecs.EncodeCharDecodeHead` | etl.py:23 | every well-formed sequence is the encoding of the character decoded from it |
| `Codecs.TwoByteSequence` | etl.py:23 | a well-formed two-byte sequence is the encoding of the character decoded from it |
| `Codecs.ThreeByteSequence` | etl.py:23 | a well-formed three-byte sequence is the encoding of the character decoded from it |
| `Codecs.FourByteSequence` | etl.py:23 | a well-formed four-byte sequence is the encoding of the character decoded from it |
| `Codecs.Utf8RoundTrip` | etl.py:23 | strict UTF-8 decoding undoes UTF-8 encoding, for every string |
| `Codecs.Utf8DecodeInverse` | etl.py:23 | UTF-8 encoding undoes a successful decoding, for every byte string |
| `Codecs.Utf8DecodeFailsIffIllFormed` | etl.py:23 | decoding fails exactly on byte strings that are the encoding of no string |
| `Nfkd.Decompose` | etl.py:24 | ASCII characters decompose to themselves; every decomposition is non-empty; characters above U+00FF are kept as they are (see Left out) |
| `Nfkd.Normalize` | etl.py:24 | `ud.normalize('NFKD', s)`: the result is never shorter than the input, and NFKD is the identity on ASCII text |
| `Nfkd.NormalizeConcat` | etl.py:24 | the decomposition works character by character (distributes over concatenation) |
| `Nfkd.AcuteODecomposes` | etl.py:24 | ó decomposes to o followed by the combining acute accent U+0301 |
| `Ascii.AsciiOnly` | etl.py:25 | the `errors='ignore'` ASCII encoding drops every non-ASCII character and keeps the rest in order: the result is ASCII, no longer than the input, and as long only when the input is all ASCII, so a single non-ASCII character goes to nothing |
| `Ascii.AsciiOnlyOfAscii` | etl.py:25 | the ASCII filter leaves ASCII text unchanged |
| `Ascii.AsciiOnlyConcat` | etl.py:25 | the ASCII filter distributes over concatenation |
| `Ascii.Lower` | etl.py:42 | `str.lower` on ASCII (also used at etl.py:26): one character per input character, each lower-cased, so no upper-case letter remains |
| `Ascii.Capitalize` | etl.py:26 | `str.capitalize` on ASCII: same length, no lower-case letter first and no upper-case letter after, and the same letters up to case (equal once lower-cased) |
| `Ascii.LowerIdempotent` | etl.py:26 | lower-casing twice is lower-casing once |
| `Ascii.CapitalizeLowerShape` | etl.py:26 | lower-then-capitalise yields capitalised text of the same length, ASCII when the input is |
| `Ascii.CapitalizedFixpoint` | etl.py:26 | capitalised text is unchanged by lower-then-capitalise |
| `Dates.FormatDate` | etl.py:58 | the rendering is 10 characters, '-' at indices 4 and 7, digits elsewhere, and its digit groups read as the year, the month (01-12) and the day |
| `Dates.ValueOfDigits` | etl.py:58 | zero-padded digits read back as the number they render |
| `Dates.DigitsOfValue` | etl.py:58 | every digit string is the zero-padded rendering of its value |
| `Dates.ParseFormattedDate` | etl.py:58 | a rendered date reads back as the same date |
| `Dates.FormatParsedDate` | etl.py:58 | a string that reads as a date is exactly that date's rendering |
| `Dates.FormatInjective` | etl.py:57-58 | two dates render to the same string if and only if they are the same date |
| `Dates.FormatExample` | etl.py:58 | 3 May 2021 renders as "2021-05-03" |
| `Frame.RepairColumn` | etl.py:63 | the column repairs if and only if every cell does, and then cell i is the repair of cell i |
| `Frame.RepairColumnFirstError` | etl.py:63 | a failing column fails with the error of its first failing cell from the top |
| `Frame.ApplyGender` | etl.py:50-53 | fails only on a missing column; keeps the column names, the row count and every other column; cell i becomes the gender label of old cell i |
| `Frame.ApplyRepair` | etl.py:61-64 | fails on a missing column or when some cell cannot be repaired, and then with the error of the first such cell from the top, as pandas raises it; keeps the column names, the row count and every other column; cell i becomes the repair of old cell i |
| `Frame.ApplyDates` | etl.py:55-59 | fails on a missing column or when the parser rejects the column; keeps the column names, the row count and every other column; cell i reads back as the date parsed for row i |
| `Frame.DataFrame.constructor` | etl.py:67-68 | the extracted DataFrame: every column has one cell per row |
| `Frame.DataFrame.TransformGender` | etl.py:50-53 | the new columns are those of ApplyGender, or unchanged on failure; the row count is kept |
| `Frame.DataFrame.TransformEncoding` | etl.py:61-64 | the new columns are those of ApplyRepair, or unchanged on failure; the row count is kept |
| `Frame.DataFrame.TransformDates` | etl.py:55-59 | the new columns are those of ApplyDates, or unchanged on failure; the row count is kept |
| `Frame.DataFrame.Transform` | etl.py:70-76 | dates on day_of_birthday, then repair on state, then gender on gender, on the same DataFrame; the first failure stops the chain and leaves the earlier steps' columns rewritten; the row count is kept |
| `Frame.ExampleDatesStep` | etl.py:55-59 | a date column reading "2021-05-03", parsed as 3 May 2021, re-renders to the same text |
| `Frame.FormattedColumnIsKept` | etl.py:57-58 | a column that already holds the "%Y-%m-%d" text of the dates it reads as comes back unchanged: the date step is idempotent when the parser reads each rendered date back as that date |
| `Frame.ExampleEncodingStep` | etl.py:61-64 | the state "ArizÃ³na" becomes "Arizona" and nothing else changes |
| `Frame.ExampleGenderStep` | etl.py:50-53 | the gender code "1" becomes "Male" and nothing else changes |
| `Frame.EndToEndExample` | etl.py:70-76 | the row ("2021-05-03", "ArizÃ³na", "1") comes out of transform as ("2021-05-03", "Arizona", "Male") |

## Left out

- `extract` (etl.py:67-68) reads an Excel file through pandas: file I/O. `Frame.DataFrame.constructor` stands for its result.
- `load` (etl.py:78-84): the SQLAlchemy engine, the `TRUNCATE TABLE` statement, `to_sql` in batches of 5000 and the `conn_str` environment variable are database I/O.
- `run`, the logging set-up, the log messages of each step and `load_dotenv` (etl.py:9-12, 51, 56, 62, 87-102): orchestration and environment plumbing.
- `pd.to_datetime` (etl.py:57) is the parameter `parse` of type `Frame.DateParser`: a column-level partial function, since pandas infers one format for the whole column. The model assumes (`Frame.IsDateParser`) that a successful parse gives one valid date per cell.
- Frame.ApplyDates: does not model missing values; pandas turns them into NaT and renders NaT as NaN, while the model's parser either dates every cell or fails.
- Dates.IsValidDate: the Timestamp range 1677-09-21 to 2262-04-11 is what pandas can hold; times of day and time zones are not modelled, as '%Y-%m-%d' drops them.
- `str(s)` coercion of non-string cells (etl.py:23, 42), such as NaN becoming "nan": every cell is a string in this model.
- Nfkd.Decompose: the table covers the Latin-1 Supplement U+00A0-U+00FF and leaves every other character as it is, although the UTF-8 decoding inside the repair can produce any character. Every character above U+00FF whose compatibility decomposition contains ASCII therefore loses that ASCII in the model, while Python keeps it: letters with marks from Latin Extended-A and beyond (ő, U+0151, is o + U+030B; Š, U+0160, is S + U+030C, so the mojibake of "Škoda" repairs to "Koda" here and to "Skoda" in Python), the ellipsis U+2026 ("..."; its Latin-1 mojibake, "â", U+0080, "¦", repairs to "" here and to "..." in Python, `Cleaning.EllipsisRepairsToEmpty`), the trade mark sign U+2122 ("TM"), the ligatures U+FB00-U+FB06 ("ff", "fi", ...), the full-width forms U+FF01-U+FF5E and the other compatibility characters. The reordering of combining marks that NFKD also does is left out: it never moves an ASCII character, and only ASCII characters survive the repair.
- Cleaning.RepairEncoding: Python's full Unicode `lower` and `capitalize` are modelled on ASCII only; they run after the ASCII filter, where the two agree. Python capitalises with title case, which is upper case on ASCII.
- Cleaning.NormalizeGender: `str.lower` is modelled on ASCII only. The only non-ASCII characters whose Unicode lower case is ASCII lower to `k` or `i` followed by a combining mark, and neither letter occurs in "1", "male", "2" or "fema", so the labels agree with Python's; this is argued here, not proved.
- `Results.Error` keeps the start position of an encode or decode error; Python's exceptions also carry an end position and a reason text.
- The DataFrame's index, column order and column dtypes are not modelled: `Frame.Columns` maps each column name to its cells.
