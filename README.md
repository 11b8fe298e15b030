# sebex configuration formats: the line-oriented text format

sebex keeps some of its configuration in small files in the workspace's meta
directory (`Context.current().meta_path`). `sebex/config/format.py` gives each
persisted document a format: JSON, YAML, or a plain "lines" format. Each format has its own file extension. This project
models the lines format (`LinesFormat`) and proves what it promises:

- `load` reads a text stream line by line. It strips every line with Python's
  `str.strip()` and keeps the stripped lines that are not empty and do not start with
  the comment marker `#`, in their original order.
- `dump` refuses anything that is not a list. Otherwise it appends every entry,
  stripped and terminated by `'\n'`: one entry per line when no stripped entry
  contains a `'\n'`.

Three modules in two files cover the Python primitives the format is built on and
the format itself:

- `Text` (`text.dfy`) models `str.strip()`, `str.startswith` and iteration over a
  text stream. Stripping uses the fixed set of characters for which `str.isspace`
  holds. Iterating cuts the text after every `'\n'`, and each line keeps its
  terminator.
- `Formats` and `LinesFormat` (`format.dfy`) hold the three formats with their
  extensions, and `load` and `dump` of the lines format. `Dump` is a function that
  returns the text `dump` appends, or the error it raises. `DumpTo` is the same
  operation on a stream object (`TextStream`), written with the `writelines` loop.
  It appends to the stream and leaves the stream as it was when it refuses the data.

The proved properties:

- Every loaded entry is non-empty and stripped, is not a comment, and holds no `'\n'`.
- The loaded entries are exactly the stripped lines that pass the filter, at strictly
  increasing positions.
- Filtering distributes over concatenation and is idempotent.
- Loading a text cut at a line boundary gives the entries of the first part followed
  by those of the second.
- `dump` writes one line per entry, when no stripped entry contains a `'\n'`.
- Round trip: entries that can be stored come back unchanged through `dump` and
  `load`, and `load(dump(load(text))) == load(text)`.

## Model

| member | source | states |
|---|---|---|
| `Text.Whitespace` | sebex/config/format.py:66 | the characters for which `str.isspace` holds, which `strip()` with no argument removes |
| `Text.IsSpace` | sebex/config/format.py:66 | `str.isspace` on one character |
| `Text.IsSpaceIsTableMembership` | sebex/config/format.py:66 | `str.isspace` holds for a character exactly when it is one of the `Whitespace` characters |
| `Text.NewlineIsSpace` | sebex/config/format.py:66 | the line terminator `'\n'` is among the characters `strip()` removes |
| `Text.TrimStart` | sebex/config/format.py:66 | dropping leading whitespace never lengthens the line, and the result does not start with whitespace |
| `Text.TrimStartAt` | sebex/config/format.py:66 | what remains after dropping leading whitespace is the tail of the line: its k-th character is the line's character at the same distance from the end |
| `Text.TrimStartDrops` | sebex/config/format.py:66 | every character dropped before what remains is whitespace |
| `Text.TrimEnd` | sebex/config/format.py:66 | dropping trailing whitespace never lengthens the line, the result does not end with whitespace, and it still does not start with whitespace if the line did not |
| `Text.TrimEndAt` | sebex/config/format.py:66 | what remains after dropping trailing whitespace is the head of the line, character for character |
| `Text.TrimEndDrops` | sebex/config/format.py:66 | every character dropped after what remains is whitespace |
| `Text.Strip` | sebex/config/format.py:66 | `strip()` returns a text with no whitespace at either end that is no longer than the line |
| `Text.StripAt` | sebex/config/format.py:66 | the k-th character `strip()` keeps is the line's character at offset `StripOffset` + k |
| `Text.StripDropsTrailAt` | sebex/config/format.py:66 | every character after what `strip()` keeps is whitespace |
| `Text.StripIsSlice` | sebex/config/format.py:66 | `strip()` returns the slice of the line that starts after its leading whitespace, and everything cut off on either side is whitespace |
| `Text.StripAddsNothing` | sebex/config/format.py:66 | a character that is not in the line is not in its stripped form |
| `Text.TrimStartPrepend` | sebex/config/format.py:66 | whitespace put in front of a text does not change what dropping leading whitespace returns |
| `Text.TrimStartAllSpace` | sebex/config/format.py:66 | a text made only of whitespace loses all of it |
| `Text.TrimStartAppend` | sebex/config/format.py:66 | whitespace appended to a text is kept by dropping leading whitespace, unless the whole text was whitespace |
| `Text.TrimEndAppend` | sebex/config/format.py:66 | whitespace appended to a text does not change what dropping trailing whitespace returns |
| `Text.StripUnique` | sebex/config/format.py:66 | stripping a stripped text surrounded by any whitespace gives that text back, so the contract of `Strip` fixes its result |
| `Text.StripFixedPoint` | sebex/config/format.py:66 | stripping is idempotent, and a text equals its stripped form exactly when neither of its ends is whitespace |
| `Text.StripTrailing` | sebex/config/format.py:73 | a stripped entry followed by whitespace, such as the `'\n'` that `dump` adds, strips back to the entry |
| `Text.StripIgnoresTrailingSpace` | sebex/config/format.py:66 | appending whitespace to a line does not change its stripped form |
| `Text.StartsWith` | sebex/config/format.py:67 | `str.startswith` |
| `Text.StartsWithOneChar` | sebex/config/format.py:67 | a text starts with a one-character prefix exactly when it is non-empty and that character comes first |
| `Text.Concat` | sebex/config/format.py:73 | the text that writing the lines one after another appends |
| `Text.FileLines` | sebex/config/format.py:66 | iterating the stream yields lines that concatenate to the text; each is non-empty and holds `'\n'` only as its last character, and every line but the last ends in `'\n'` |
| `Text.FileLinesUnique` | sebex/config/format.py:66 | any sequence of lines with those properties is exactly what iterating its concatenation yields |
| `Text.FileLinesOfOneLine` | sebex/config/format.py:66 | a text with no `'\n'`, followed by one, is iterated as a single line |
| `Text.ConcatAppend` | sebex/config/format.py:73 | writing two runs of lines one after the other writes their texts one after the other |
| `Text.FileLinesAppend` | sebex/config/format.py:66 | a text that ends at a line boundary yields its own lines, then the lines of whatever follows it |
| `Text.TerminatedTextLines` | sebex/config/format.py:66 | every line of a text that ends in `'\n'` ends in `'\n'` |
| `Formats.Format.Ext` | sebex/config/format.py:31-63 | the extension of each format (`.json`, `.yaml`, `.txt`) is a dot followed by lower-case letters |
| `Formats.ExtDistinguishesKinds` | sebex/config/format.py:31-63 | two formats share an extension exactly when they are of the same kind; the YAML "autogenerated" flag does not change it |
| `LinesFormat.Comment` | sebex/config/format.py:60 | the comment marker `#` |
| `LinesFormat.IsComment` | sebex/config/format.py:67 | `line.startswith(self.COMMENT)` |
| `LinesFormat.IsCommentIsHash` | sebex/config/format.py:60-67 | a line is a comment exactly when its first character is `#` |
| `LinesFormat.Kept` | sebex/config/format.py:67 | the comprehension's filter `line and not line.startswith(self.COMMENT)` |
| `LinesFormat.KeptIsNonEmptyNotHash` | sebex/config/format.py:60-67 | a line passes the filter exactly when it is non-empty and does not begin with `#` |
| `LinesFormat.StripAll` | sebex/config/format.py:66 | the generator yields one line per stream line, each with no whitespace at either end |
| `LinesFormat.Select` | sebex/config/format.py:67 | the comprehension's output is no longer than its input, holds only lines of the input, and holds only non-empty lines that do not start with `#` |
| `LinesFormat.Load` | sebex/config/format.py:65-67 | every entry `load` returns is non-empty, does not start with `#`, has no whitespace at either end and contains no `'\n'` |
| `LinesFormat.StrippedLinesHaveNoNewline` | sebex/config/format.py:66 | no stripped line of a stream holds a `'\n'` |
| `LinesFormat.StrippedLineHasNoNewline` | sebex/config/format.py:66 | stripping a line of the stream removes its only possible `'\n'` |
| `LinesFormat.SelectAppend` | sebex/config/format.py:67 | filtering distributes over concatenation, so kept lines keep their order |
| `LinesFormat.SelectOne` | sebex/config/format.py:67 | a single line is kept exactly when it is non-empty and not a comment |
| `LinesFormat.SelectMembership` | sebex/config/format.py:67 | a line is in the output exactly when it is in the input and passes the filter |
| `LinesFormat.SelectAllKept` | sebex/config/format.py:67 | input lines that all pass the filter come through unchanged |
| `LinesFormat.SelectIdempotent` | sebex/config/format.py:67 | filtering the filtered lines again changes nothing |
| `LinesFormat.KeptIndicesAreKeptPositions` | sebex/config/format.py:67 | the kept positions are positions of the input in strictly increasing order, and a position is kept exactly when its line is non-empty and not a comment |
| `LinesFormat.SelectAtKeptIndices` | sebex/config/format.py:67 | the comprehension's i-th output is the input line at the i-th kept position |
| `LinesFormat.SelectIsKeptSubsequence` | sebex/config/format.py:67 | the output is the input taken at strictly increasing positions, and a position is taken exactly when its line passes the filter (no reordering, no duplicates, nothing kept that should go) |
| `LinesFormat.LoadKeepsLines` | sebex/config/format.py:65-67 | `load` returns the stripped stream lines at exactly the positions whose stripped form is non-empty and does not start with `#`, in stream order |
| `LinesFormat.LoadEntriesAreStripped` | sebex/config/format.py:66-67 | every entry `load` returns equals its own stripped form |
| `LinesFormat.LoadOneLine` | sebex/config/format.py:60-67 | a single terminated line loads to its stripped form, or to nothing when that form is empty or starts with the comment marker |
| `LinesFormat.LoadAppend` | sebex/config/format.py:65-67 | a text cut at a line boundary loads to the entries of its first part followed by those of its second |
| `LinesFormat.Data` | sebex/config/format.py:70 | the value handed to `dump`: a list of entries, or anything for which `isinstance(data, list)` fails |
| `LinesFormat.NotAListMessage` | sebex/config/format.py:71 | the text of the exception `dump` raises for data that is not a list |
| `LinesFormat.DumpLine` | sebex/config/format.py:73 | the f-string's line is a text with no whitespace at either end followed by `'\n'`, and strips back to the stripped entry; it is a single stream line when the stripped entry holds no `'\n'` |
| `LinesFormat.WrittenLines` | sebex/config/format.py:73 | the generator yields one line per entry, in order, each a text with no whitespace at either end followed by `'\n'`, stripping back to the stripped entry |
| `LinesFormat.Dump` | sebex/config/format.py:69-73 | `dump` fails exactly when the data is not a list, and then with the source's message; otherwise the text it writes is empty or ends in `'\n'`, with at least one character per entry |
| `LinesFormat.TerminatedLines` | sebex/config/format.py:73 | lines that each end in `'\n'` join to a text that is empty or ends in `'\n'`, with at least one character per line |
| `LinesFormat.StripAllAppend` | sebex/config/format.py:66 | stripping the lines of two runs of lines is stripping each run |
| `LinesFormat.DumpWritesOneLinePerEntry` | sebex/config/format.py:73 | when no entry holds an inner `'\n'`, the written text is exactly `len(data)` lines, the i-th being the stripped i-th entry and its `'\n'` |
| `LinesFormat.LoadAfterDump` | sebex/config/format.py:65-73 | when no stripped entry contains a `'\n'`, loading what `dump` wrote gives the stripped entries that are neither empty nor comments, in order |
| `LinesFormat.LoadDumpRoundTrip` | sebex/config/format.py:65-73 | entries that are stripped, non-empty, not comments and free of `'\n'` come back unchanged through `dump` then `load` |
| `LinesFormat.LoadDumpLoad` | sebex/config/format.py:65-73 | dumping what `load` returned and loading it again gives the same entries |
| `LinesFormat.TextStream` | sebex/config/format.py:65-73 | the text stream `fp`, holding the text written to it |
| `LinesFormat.TextStream.constructor` | sebex/config/format.py:69 | a stream starts out holding the text given to it |
| `LinesFormat.TextStream.WriteLines` | sebex/config/format.py:73 | `writelines` appends the lines to the stream one after another, in order |
| `LinesFormat.DumpTo` | sebex/config/format.py:69-73 | on a stream, non-list data is refused with the error and nothing is written; a list appends exactly the text `Dump` gives |

## Left out

- `JsonFormat.load`/`dump` and `YamlFormat.load`/`dump` (sebex/config/format.py:35-39, 49-56) are thin wrappers over the `json` and `yaml` libraries, which are not part of this model. That includes the header line that YAML writes for generated files.
- `Format.full_path` (sebex/config/format.py:25-28) is left out. It depends on the process-wide `Context.current()` and on the suffix rules of `pathlib`.
- `str(entry)` in `dump` is not modelled. Entries are modelled as strings, so the text form of other kinds of entries is left out.
- `isinstance(data, list)` is modelled by the two-case `Data` value. Every kind of list, subclasses included, is `List`, and every other value is `NotAList`.
- `load` is modelled on the text that remains in the stream. Reading advances the stream's position, and that is not modelled.
- `load` cuts lines only at `'\n'`. `open()` turns a lone `'\r'` into a line break in universal-newline mode. How `fp` was opened depends on the caller, which is not part of this model. A `'\r'` at either end of a line is stripped anyway.
- A stream opened in text mode writes every `'\n'` as `os.linesep` and reads it back as `'\n'`. The model works on the text as `load` and `dump` see it, so that translation is not modelled.
- Failures of the stream itself (I/O errors, encoding errors) are not modelled.
- The command-line entry point (`sebex/__main__.py`), console logging (`sebex/log.py`) and language detection (`sebex/analysis/language/__init__.py`) are not part of this model. They are filesystem probes, console output and command-line wiring.
- The release planner, version model and dependents graph (`sebex.release`, `sebex.analysis`) are separate components. This model covers only `sebex/config/format.py`.
