# ChatScribe core in Dafny

ChatScribe turns a plain-text chat export into structured records. Its core has two parts:

- **Format inference** (`auto_generate_pattern`). It reads the first `lines_to_sample` physical lines of the file. It keeps each line stripped of surrounding whitespace and drops the blank ones. Then it walks a fixed table of four candidate formats in priority order:
  - `bracket_datetime_user`
  - `date_time_dash_user`
  - `bracket_timestamp_user`
  - `timestamp_dash_user`

  It returns the capture expression and column names of the first candidate that passes two tests. Its shape test must match the first sample line, and its capture expression must match more than 90% of the sample. When no candidate qualifies, the sample is empty, or the file cannot be read, it returns "nothing".
- **Record extraction** (`parse_chat_with_pattern`). It reads every line of the file and strips it. It skips blank lines and lines the pattern does not match. Each matching line becomes a dict: the column names zipped with the captured groups, every value stripped. The records come out in file order.

The model has six modules:

- `Text` (`text.dfy`): Python's argument-less `str.strip()`, over the full `str.isspace()` character set.
- `Records` (`records.dfy`): a dict with its keys in insertion order; `dict(zip(columns, groups))`; the in-place value-stripping loop.
- `Formats` (`formats.dfy`):
  - the candidate table, with the source's regular-expression texts verbatim;
  - the regular-expression engine, as a parameter;
  - the chat file, as seen by the two functions.
- `Inference` (`inference.dfy`): the sampling loop, the match-counting loop and the selection loop as methods. Each method is proved equal to a specification function, and the promised properties are proved about those functions.
- `Gather` (`gather.dfy`): the laws of a loop that appends what each element contributes. They are stated for any element type and any step.
- `Parsing` (`parsing.dfy`): the extraction loop as a method proved equal to a specification function, plus the properties of that function.

The regular-expression engine is a parameter `engine(pattern, line)`. It returns `None` when the pattern does not match at the start of the line and `Some(groups)` when it does. A `Regex` carries the pattern's source text and its number of capture groups. Lemmas that need the engine to return one group per capture group assume `Sound(engine)`. No property of the engine beyond that is used.

A file is one of three things:
- `NotFound`: opening it raises `FileNotFoundError`.
- `OpenFails`: opening it raises anything else.
- `Opened(lines, failsAfter)`: the lines it yields before reading stops. `failsAfter` says whether reading on past them raises, for instance on a decoding error, rather than reaching the end of the file.

## Model

| member | source | states |
|---|---|---|
| `Text.StripIsStripped` | models/auto_generate_pattern.py:21 | a stripped line has no whitespace at either end |
| `Text.Strip` | models/parse_chat_with_pattern.py:17 | `str.strip()` never lengthens a line; what it returns is pinned down by the two lemmas beside it |
| `Text.StripRemovesOnlyEnds` | models/parse_chat_with_pattern.py:17 | `strip()` returns the infix that starts after the leading whitespace; what it drops on either side is all whitespace |
| `Text.StripEmptyIffAllSpace` | models/parse_chat_with_pattern.py:17-19 | a line strips to the empty string exactly when it is all whitespace |
| `Text.StripKeepsStripped` | models/parse_chat_with_pattern.py:29-31 | stripping an already stripped value leaves it unchanged, so stripping twice is stripping once |
| `Records.DictZip` | models/parse_chat_with_pattern.py:26 | `dict(zip(columns, groups))` is a well-formed dict: keys listed once, and the listed keys are exactly the mapped ones |
| `Records.Put` | models/parse_chat_with_pattern.py:26 | one dict assignment `d[k] = v`: an existing key keeps its place and takes the new value, a new key goes last (its keys are characterised by `ZipIntoKeys` and `ZipIntoAppends`) |
| `Records.ZipInto` | models/parse_chat_with_pattern.py:26 | the insertion loop inside `dict(zip(...))`, pair by pair until the shorter side ends (characterised by the three `ZipInto` lemmas) |
| `Records.PutKeepsValid` | models/parse_chat_with_pattern.py:26 | an assignment keeps the dict invariant: keys listed once, listed keys are the mapped ones |
| `Records.ZipIntoKeepsValid` | models/parse_chat_with_pattern.py:26 | inserting all the zipped pairs keeps the dict invariant |
| `Records.ZipIntoKeys` | models/parse_chat_with_pattern.py:26 | zipping adds exactly the first min(len(columns), len(groups)) column names as keys (zip truncates at the shorter side); every other key keeps its value |
| `Records.ZipIntoLastWins` | models/parse_chat_with_pattern.py:26 | a repeated column name holds the group paired with its last occurrence |
| `Records.ZipIntoAppends` | models/parse_chat_with_pattern.py:26 | new, distinct column names are appended as keys in column order |
| `Records.DictZipPositional` | models/parse_chat_with_pattern.py:26 | with distinct column names, the keys are the first min(len(columns), len(groups)) columns in order, and column i maps to group i |
| `Records.Cleaned` | models/parse_chat_with_pattern.py:29-31 | cleaning keeps the record a well-formed dict with the same keys in the same order |
| `Records.CleanedValuesStripped` | models/parse_chat_with_pattern.py:29-31 | after cleaning, no value has whitespace at either end |
| `Records.StripValues` | models/parse_chat_with_pattern.py:29-31 | the in-place loop over `record.items()` replaces each key's value by its strip and changes nothing else |
| `Records.MakeRecord` | models/parse_chat_with_pattern.py:26-31 | the record one matching line produces: the zipped dict, then cleaned (its properties are `DictZipPositional`, `Cleaned` and `CleanedValuesStripped`) |
| `Formats.Rank` | models/auto_generate_pattern.py:39-75 | every format has a position in the priority table |
| `Formats.TableWellFormed` | models/auto_generate_pattern.py:39-75 | each format has one distinct column name per capture group; the table `PatternsToTry`, in its insertion order, holds each of the four formats exactly once |
| `Formats.ChosenIdentifiesFormat` | models/auto_generate_pattern.py:39-75 | no two formats return the same (pattern, columns) pair, so the result names its format |
| `Formats.Format.Test` | models/auto_generate_pattern.py:39-75 | the shape-test expression of each table entry, verbatim, with no capture group |
| `Formats.Format.Capture` | models/auto_generate_pattern.py:39-75 | the capture expression of each table entry, verbatim, with its group count (4, 4, 3, 3) |
| `Formats.Format.Columns` | models/auto_generate_pattern.py:39-75 | the column names of each table entry |
| `Inference.NonBlank` | models/auto_generate_pattern.py:20-23 | the sample is no longer than the window read, and every sample line is non-empty and stripped |
| `Inference.Kept` | models/auto_generate_pattern.py:21-23 | what one window line adds to the sample: its strip, or nothing when that is empty |
| `Inference.NonBlankIsGathered` | models/auto_generate_pattern.py:19-23 | the sample is the window's lines' contributions appended in window order |
| `Inference.NonBlankKeepsLinesWithText` | models/auto_generate_pattern.py:19-23 | the sample is exactly the strips of the window lines whose strip is non-empty: the k-th sample line is the strip of the k-th such window line, and no such line is missed |
| `Inference.NonBlankOfBlankLines` | models/auto_generate_pattern.py:20-23 | a window of whitespace-only lines gives an empty sample |
| `Inference.Sample` | models/auto_generate_pattern.py:17-29 | a sample, when there is one, has at most `lines_to_sample` lines (none when that is zero or less), each non-empty and stripped |
| `Inference.MatchCount` | models/auto_generate_pattern.py:84-87 | `match_count` never exceeds the sample size |
| `Inference.Consistent` | models/auto_generate_pattern.py:90 | `match_count / len(sample_lines) > 0.9`, as the exact comparison `10 * m > 9 * n` |
| `Inference.Qualifies` | models/auto_generate_pattern.py:80-90 | a format qualifies when its shape test matches the first sample line and its capture expression matches more than 90% of the sample |
| `Inference.FirstQualifying` | models/auto_generate_pattern.py:78-96 | the index returned qualifies and no earlier one does; no index is returned exactly when no entry qualifies |
| `Inference.Inferred` | models/auto_generate_pattern.py:17-98 | the value `auto_generate_pattern` returns: nothing on an open or read failure or an empty sample, otherwise the first qualifying format's capture expression and columns (properties in the lemmas below) |
| `Inference.CollectSample` | models/auto_generate_pattern.py:17-29 | the sampling loop, `readline()` returning "" at end of file, yields exactly `Sample`, and `None` when a read raises |
| `Inference.CountMatches` | models/auto_generate_pattern.py:84-87 | the counting loop returns `MatchCount` |
| `Inference.SelectFormat` | models/auto_generate_pattern.py:78-98 | the selection loop returns the first qualifying format's capture pattern and columns, and nothing exactly when none qualifies |
| `Inference.AutoGeneratePattern` | models/auto_generate_pattern.py:17-98 | the whole function returns `Inferred`, the first qualifying format of the sample or nothing |
| `Inference.EmptySampleYieldsNothing` | models/auto_generate_pattern.py:31-33 | an empty sample gives nothing, whatever the engine says |
| `Inference.AllBlankFileYieldsNothing` | models/auto_generate_pattern.py:17-33 | a file whose lines are all whitespace finds no format, for any sample size and any engine |
| `Inference.NoLinesToSample` | models/auto_generate_pattern.py:20 | `lines_to_sample <= 0` reads nothing and finds nothing |
| `Inference.ReadFailureLooksLikeNoFormat` | models/auto_generate_pattern.py:24-29 | a missing file, a file that cannot be opened, or a read error inside the window all give the "nothing found" answer |
| `Inference.OnlyTheWindowIsRead` | models/auto_generate_pattern.py:19-23 | lines beyond the first `lines_to_sample`, and failures past them, do not affect the answer |
| `Inference.InferredIsFirstQualifying` | models/auto_generate_pattern.py:77-93 | on a non-empty sample, format i is the answer if and only if it qualifies and no earlier format does |
| `Inference.NothingFoundIffNoneQualifies` | models/auto_generate_pattern.py:78-98 | on a non-empty sample, nothing is found if and only if no format qualifies |
| `Inference.ShapeTestGates` | models/auto_generate_pattern.py:80 | a format whose shape test rejects the first sample line is never chosen |
| `Inference.ThresholdIsStrict` | models/auto_generate_pattern.py:90 | on a 20-line sample, 18 matches (exactly 90%) are rejected and 19 are accepted |
| `Inference.SingleLineSample` | models/auto_generate_pattern.py:84-90 | a one-line sample qualifies a format exactly when both its shape test and its capture expression match that line |
| `Inference.EarlierFormatWins` | models/auto_generate_pattern.py:77-93 | when a format qualifies, the answer is that format or an earlier one |
| `Inference.ChosenArity` | models/auto_generate_pattern.py:41-74 | a found pattern comes with one distinct column name per capture group: four or three |
| `Parsing.LineRecords` | models/parse_chat_with_pattern.py:17-33 | a line adds at most one record, and adds one exactly when it is non-blank after stripping and the pattern matches it |
| `Parsing.ParseChatWithPattern` | models/parse_chat_with_pattern.py:12-40 | the extraction loop returns `Parsed`: no records when the file cannot be opened; when a read fails part-way, the records gathered so far |
| `Parsing.Yields` | models/parse_chat_with_pattern.py:17-23 | a line yields a record when its strip is non-empty and the pattern matches the stripped line |
| `Parsing.Extracted` | models/parse_chat_with_pattern.py:16-33 | the records of a run of lines: each line's record, if it yields one, in line order (properties in the lemmas below) |
| `Parsing.LinesRead` | models/parse_chat_with_pattern.py:14-16 | the lines the `for line in file` loop sees: none when the file cannot be opened |
| `Parsing.Parsed` | models/parse_chat_with_pattern.py:12-40 | the list `parse_chat_with_pattern` returns, including after a failed open or a failed read |
| `Parsing.ExtractedStep` | models/parse_chat_with_pattern.py:16-33 | one more line appends its record when it yields one, and nothing otherwise |
| `Parsing.ExtractedConcat` | models/parse_chat_with_pattern.py:16-33 | the records of two stretches of lines are the records of the first followed by those of the second |
| `Parsing.RecordsOfYieldingLines` | models/parse_chat_with_pattern.py:16-33 | the k-th record is the record of the k-th line that yields one |
| `Parsing.RecordsFollowInputOrder` | models/parse_chat_with_pattern.py:16-33 | records correspond one-to-one, in increasing line order, to exactly the lines that yield a record |
| `Parsing.AtMostOneRecordPerLine` | models/parse_chat_with_pattern.py:16-33 | there are never more records than lines |
| `Parsing.NoiseLinesAreSkipped` | models/parse_chat_with_pattern.py:21-23 | of five lines where the first, third and fifth match, the result is exactly their three records in order |
| `Parsing.SkippedLineContributesNothing` | models/parse_chat_with_pattern.py:18-23 | removing a line that yields no record, from anywhere in the file, leaves the result unchanged |
| `Parsing.BlankLineYieldsNothing` | models/parse_chat_with_pattern.py:17-19 | an all-whitespace line never yields a record |
| `Parsing.RecordsAreClean` | models/parse_chat_with_pattern.py:26-31 | every record is a well-formed dict whose values have no whitespace at either end |
| `Parsing.RecordsAreComplete` | models/parse_chat_with_pattern.py:26 | with an engine that returns one group per capture group and distinct columns matching the group count, every record has all the columns as keys, in column order |
| `Parsing.RecordPairsColumnsWithGroups` | models/parse_chat_with_pattern.py:26-31 | in a record, column i holds the i-th captured group, stripped, up to the shorter of columns and groups |
| `Parsing.ReadFailures` | models/parse_chat_with_pattern.py:35-40 | a missing or unopenable file gives no records; a read that fails part-way keeps every record gathered before the failure |

Some behaviours of the code that a caller might not expect, each stated by a lemma:

- **Read failure during extraction.** An exception while reading lines is caught, and the records gathered so far are returned (`models/parse_chat_with_pattern.py:35-40`, `Parsing.ReadFailures`).
- **Unopenable file during extraction.** A missing or unopenable file gives an empty list, which looks the same as a file with no matching lines (`Parsing.ReadFailures`).
- **Unreadable file during inference.** A missing file, an unopenable file and a read error inside the sampled window all give `(None, None)`, the same answer as "no format found" (`Inference.ReadFailureLooksLikeNoFormat`).
- **Sample size.** Any integer is accepted for `lines_to_sample`; zero or less reads nothing and finds nothing (`Inference.NoLinesToSample`).
- **Overlapping formats.** A line such as `10/5/23, 14:02 - Alice: Hello there` passes the shape test of `date_time_dash_user` (`models/auto_generate_pattern.py:51`), which is tried before `timestamp_dash_user`. A sample of such lines is therefore taken by `date_time_dash_user`, with columns Date, Time, User and Message (`Inference.EarlierFormatWins`).

## Left out

- The web endpoint in `main.py` is not part of this model: the FastAPI upload handler that rejects non-`.txt` names with HTTP 400, copies the upload to a temporary file, calls the two functions, raises HTTP 400 when no pattern is found (inside its `try`, so the generic handler turns it into HTTP 500) or HTTP 500 on other errors, and deletes the temporary file. Neither are the progress and error messages the two functions print.
- Regular-expression matching is not modelled. The engine is a parameter, and only the group-count property `Sound` is ever assumed of it. Which concrete lines each pattern text matches is therefore not proved.
- Opening, decoding (UTF-8) and splitting the file into lines are abstracted into `ChatFile`: `lines` are the lines the file yields before reading stops and `failsAfter` says whether the next read raises. Where in the byte stream a decoding error sits, and how buffered decoding moves the point at which it is raised, is not modelled; a file whose first decoded chunk is malformed is simply `Opened([], true)`.
- `Inference.Consistent` compares `match_count / len(sample_lines) > 0.9` in exact arithmetic, as `10 * m > 9 * n`. The source uses floating-point division. The two agree unless the sample has around 10^15 lines.
- The `isinstance(value, str)` test in the cleanup loop is left out. The modelled engine always returns strings for groups, which holds for the four table patterns: none of them has an optional group.
- The default `lines_to_sample = 20` is a caller-side default. `AutoGeneratePattern` takes the value explicitly.
- Any exception other than a read failure inside the extraction loop is not modelled; no step of the modelled loop can raise.
- Both functions are deterministic by construction, being functions of the file contents and the engine. No lemma states this separately.
