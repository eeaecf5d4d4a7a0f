# fstab reader, modelled in Dafny

This project models `fstab-rust`, a small library that reads `/etc/fstab` into a list of
entries. The model covers all of its logic in `src/lib.rs`:

- **Types.** `Device` has five variants: `UUID=`, `LABEL=`, `PARTUUID=`, `PARTLABEL=`, or a plain
  mount point. `Fstab` is one entry: device, dir, type, options, dump and fsck. `ErrorType` and
  `Error` are the error types.
- **`parse_device`.** It classifies the first field of a line by its prefix.
- **Reading one line.** The line is trimmed. Blank lines and `#` comments are skipped. The rest
  is split on whitespace:
  - the first four tokens are required, and each missing one fails with `FieldNotExist(i)`;
  - options are split on `,`;
  - dump and fsck are optional `usize` numbers, and dump is reduced to `dump > 0`;
  - a seventh token fails with `TooManyFields(line)`.
- **`open_fstab`.** It opens the file, reads every line in order, and stops at the first error.
  On error it returns no partial list.

The model has four modules:

| module | file | what it holds |
|---|---|---|
| `Wrappers` | `wrappers.dfy` | `Option` and `Result` |
| `Text` | `text.dfy` | the standard string operations the reader relies on |
| `Numbers` | `numbers.dfy` | `usize::from_str` on a 64-bit target |
| `Fstab` | `fstab.dfy` | the library itself |

How the pieces of `Fstab` fit together:

- **One line.** `ParseLine` builds an entry from a line's tokens. `ParseDataLine` applies it to a
  trimmed line.
- **Specification of the read.** A file's result is `ParseAll(DataLines(lines))`:
  - `DataLines` keeps the trimmed lines that are neither blank nor comments;
  - `ParseAll` collects their entries, or returns the first error.
- **The loop.** The read loop is the method `ReadFstab`. It is proved equal to that specification.
- **The entry point.** `OpenFstab` is `open_fstab`. The file system is a function parameter.

The behaviour of `parse_device` on `PARTUUID=` and `PARTLABEL=` is modelled as written. It
strips only the first five and six characters, the lengths of `UUID=` and `LABEL=`. So
`PARTUUID=abc` becomes `PartUuid("UID=abc")` and `PARTLABEL=abc` becomes
`PartLabel("BEL=abc")` (lemma `PartPrefixPayload`). `DeviceField` is the exact inverse of this
classification: it puts back the characters that were dropped.

## Model

| member | source | states |
|---|---|---|
| Fstab.ParseDevice | src/lib.rs:93-105 | `UUID=` and `LABEL=` are stripped. A field starting `PARTUUID=` or `PARTLABEL=` loses only its first 5 or 6 characters. A field with none of the four prefixes is a `MountPoint`, unchanged. The result always satisfies `WellFormedDevice`. |
| Fstab.DeviceFieldOfParse | src/lib.rs:93-105 | Classifying a field loses nothing: the characters dropped plus the payload rebuild the original field. |
| Fstab.ParseDeviceOfField | src/lib.rs:93-105 | A device survives being written out and classified again exactly when `parse_device` could have produced it (both directions). |
| Fstab.PartPrefixPayload | src/lib.rs:98-101 | The payload of `PARTUUID=x` is `UID=x` and that of `PARTLABEL=x` is `BEL=x`. |
| Fstab.ParseLine | src/lib.rs:125-159 | Failing with `FieldNotExist(n)`, where `n` is the number of tokens, happens exactly when there are fewer than four tokens. An entry comes only from 4 to 6 tokens. |
| Fstab.OptionalNumber | src/lib.rs:147-155 | A missing dump or fsck field reads as `0`, which gives the defaults `false` and `0`. A field that parses is within `usize`. `Empty` is reported only for an empty token. |
| Fstab.ParseLineMeaning | src/lib.rs:125-159 | With fewer than four tokens, the error is `FieldNotExist` of the first missing index. A line gives an entry exactly when it has 4 to 6 tokens and its dump and fsck, where present, parse. The entry's device, dir, type and options come from tokens 0-3, with options split on `,`. Dump is `parsed value > 0`, or `false` when missing. Fsck is the parsed value, or `0` when missing. A bad dump is reported first, then a bad fsck, both as `NumParseError`, and only then `TooManyFields(line)` for a seventh token. |
| Fstab.ParseDataLine | src/lib.rs:125-159 | A trimmed line gives an entry only when `split_whitespace` yields 4 to 6 tokens. |
| Fstab.DataLineHasDevice | src/lib.rs:125-129 | A trimmed, non-empty line never fails with `FieldNotExist(0)`. |
| Fstab.NeverFieldZeroMissing | src/lib.rs:119-129 | No file ever fails with `FieldNotExist(0)`: lines that reach the tokenizer are non-blank and trimmed. |
| Fstab.IsSkipped | src/lib.rs:122-124 | A trimmed line that is not skipped is non-empty and does not start with `#`. |
| Fstab.DataLines | src/lib.rs:119-124 | Filtering out unreadable, blank and comment lines never yields more lines than the file has. |
| Fstab.DataLinesAreData | src/lib.rs:119-124 | No line that is parsed is blank or a comment, and none has whitespace at either end. There are never more of them than lines in the file. |
| Fstab.DataLinesAppend | src/lib.rs:119-124 | The lines kept from two runs of lines are the lines kept from each run, in order. |
| Fstab.SkippedLineIsNotData | src/lib.rs:120-124 | A line contributes nothing exactly when it could not be read, or is blank or a comment after trimming. |
| Fstab.SkippedLineChangesNothing | src/lib.rs:120-124 | Inserting such a line anywhere in a file leaves the lines that are parsed, and so the result, unchanged. |
| Fstab.CollectMeaning | src/lib.rs:117-162 | Reading succeeds exactly when every data line parses, and then gives one entry per line in file order. Otherwise the error is that of the first line that fails; every line before it parses. |
| Fstab.Collect | src/lib.rs:117-162 | A successful read gives exactly one entry per data line. |
| Fstab.ParseAll | src/lib.rs:117-162 | Reading a file's data lines: a success holds exactly one entry per data line. |
| Fstab.CollectAppend | src/lib.rs:117-162 | Reading two runs of data lines one after the other: the first error wins, otherwise the entry lists are concatenated. |
| Fstab.CollectSnoc | src/lib.rs:126-159 | One more data line after a run that parsed either appends its entry or ends the read with its error. |
| Fstab.CollectStops | src/lib.rs:127-158 | Once a data line has failed, the lines after it do not change the result. |
| Fstab.ReadSkipped | src/lib.rs:120-124 | An unreadable, blank or comment line leaves the lines read so far unchanged. |
| Fstab.ReadData | src/lib.rs:121-125 | Any other line, trimmed, is added to the data lines. |
| Fstab.ReadFails | src/lib.rs:127-158 | When the lines up to `i` fail, the whole file fails with the same error. |
| Fstab.ReadFstab | src/lib.rs:117-162 | The loop returns exactly `ParseAll(DataLines(lines))`: entries in order, or the first line's error with no partial list. |
| Fstab.OpenFstab | src/lib.rs:107-113 | Opens the given path, or `/etc/fstab` when there is none. A failed open gives `FstabNotExist` with the reason. Otherwise the result is that of reading the file's lines. |
| Fstab.TokensLine | src/lib.rs:121-125 | Six whitespace-free tokens, joined with single spaces and not starting with `#`, form one data line that tokenizes back to those six tokens. |
| Fstab.EntryFields | src/lib.rs:126-156 | The six fields of an entry, written as text, parse back to the entry, with dump reduced to `dump > 0`. |
| Fstab.ParseLineRoundTrip | src/lib.rs:119-159 | Write an entry on one line: its device field, dir, type, options joined with `,`, and dump and fsck in decimal. Reading the line back gives the entry, with dump reduced to `dump > 0`. Required: the fields hold no whitespace, the device field does not start with `#`, and the numbers fit in a `usize`. |
| Text.IsSpaceAscii | src/lib.rs:121-125 | On ASCII, the whitespace that `trim` and `split_whitespace` use is space, tab, line feed, vertical tab, form feed and carriage return. The comment marker `#` and the option separator `,` are not whitespace. |
| Text.TrimStart | src/lib.rs:121 | The result is a suffix of the input. Everything dropped is whitespace, and the result does not start with whitespace. |
| Text.TrimEnd | src/lib.rs:121 | The result is a prefix of the input. Everything dropped is whitespace, and the result does not end with whitespace. |
| Text.Trim | src/lib.rs:121 | The result is empty exactly when the line is all whitespace. Otherwise it starts and ends with a non-whitespace character. |
| Text.TrimIsSlice | src/lib.rs:121 | The trimmed line is a slice of the line with only whitespace on either side. |
| Text.TrimIdempotent | src/lib.rs:121 | Trimming twice is trimming once. |
| Text.TrimOfTrimmed | src/lib.rs:121 | A line with no whitespace at either end is its own trim. |
| Text.Word | src/lib.rs:125 | The longest whitespace-free prefix, followed by whitespace or the end of the line. |
| Text.SplitWhitespace | src/lib.rs:125 | Every token is non-empty and holds no whitespace. |
| Text.SplitWhitespaceKeepsText | src/lib.rs:125 | Concatenated, the tokens are exactly the non-whitespace characters of the line, in order. |
| Text.SplitWhitespaceSkipsSpace | src/lib.rs:125 | Whitespace of any length before the text produces no token and changes no token. |
| Text.SplitWhitespaceSeparated | src/lib.rs:125 | A word, then a run of whitespace of any length (tabs or aligned columns), then the rest: the word is the first token and the rest is tokenized on its own. |
| Text.SplitWhitespaceWord | src/lib.rs:125 | A word followed by whitespace, or by nothing, is the first token. |
| Text.SplitWhitespaceJoin | src/lib.rs:125 | Whitespace-free tokens joined with single spaces tokenize back to the same tokens. |
| Text.Split | src/lib.rs:140-146 | There is one more option than there are commas, and no option contains a comma. |
| Text.JoinSplit | src/lib.rs:140-146 | Joining the options with `,` gives the field back. |
| Text.SplitJoin | src/lib.rs:140-146 | Comma-free options joined with `,` split back into the same options. |
| Text.SplitPrefix | src/lib.rs:144 | Splitting `p + t`, where `p` holds no separator, glues `p` onto the first piece of `t`. |
| Numbers.Accumulate | src/lib.rs:147-155 | The digit loop of `usize` parsing. A success stays within `usize`, and a failure is never `Empty`. |
| Numbers.ParseUsize | src/lib.rs:147-155 | A success is at most `usize::MAX`. The error is `Empty` exactly for the empty text. |
| Numbers.Unsigned | src/lib.rs:147-155 | `parse::<usize>` drops a leading `+` whenever something follows it, and only then; any other text is left unchanged. |
| Numbers.ParsePlus | src/lib.rs:147-155 | A leading `+` is accepted: `+t` parses exactly as `t` does, value or error, whenever `t` is non-empty and does not start with another `+`. |
| Numbers.AccumulateDigits | src/lib.rs:147-155 | The digit loop succeeds exactly when the rest are digits and the whole numeral fits in a `usize`, and then it returns the numeral's value. |
| Numbers.ParseUsizeValue | src/lib.rs:147-155 | A field parses exactly when, after at most one leading `+`, it is a non-empty decimal numeral no larger than `usize::MAX`. The result is the numeral's value (both directions). |
| Numbers.ParseShowNat | src/lib.rs:147-155 | Every `usize` written in decimal parses back to itself. |
| Numbers.ShowNat | src/lib.rs:147-155 | The decimal text of `n` is a non-empty run of digits whose value is `n`. |
| Numbers.DecimalValueGrows | src/lib.rs:147-155 | Appending digits to a numeral never makes it smaller. |

## Left out

- File input and output. Opening a file is the parameter `open` of `OpenFstab`. It yields a file's lines, already split at line ends (`BufRead::lines` drops `\n` and `\r\n`), or the reason the open failed.
- Fstab.OpenFstab: `FstabNotExist` carries whatever reason `open` reports. The standard library's wording of I/O errors is not modelled.
- Lines that fail to read. The model represents such a line as `None` and skips it, as the `if let Ok(l)` does. A reader that keeps failing forever is not modelled.
- Fstab.ErrorType: `NumParseError` carries the kind of integer error (`Empty`, `InvalidDigit`, `PosOverflow`), not the standard library's text describing it.
- The `Display`, `From` and `std::error::Error` implementations. They only format or convert errors.
- The `read_default_fstab` test. It reads the machine's real `/etc/fstab`.
- Numbers.ParseUsize: a lone `+` or `-` gives `InvalidDigit`, as current Rust releases do. Older releases reported `Empty` for a lone `+`, so `Empty` here means exactly the empty text.
- Numbers.ParseUsize: `usize` is taken to be 64 bits wide. The range check uses `usize::MAX` = 2^64 - 1.
- Fstab.ParseDevice: the incomplete stripping of `PARTUUID=` and `PARTLABEL=` is modelled as written, not corrected. `PartPrefixPayload` states its effect.
