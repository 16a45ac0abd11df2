# wincursorgen config parsing, modelled in Dafny

wincursorgen turns an xcursorgen-style config into Windows cursors. Each
config line is `<size> <xhot> <yhot> <image> [<delay ms>]`: a line with a
delay is one frame of an animated cursor, and a line without one is a static
cursor. This project models the part of the program that reads configs and
assembles animations:

- `outcomes.dfy` (`Outcomes`): `Option`, `Result` and `Run`. A `Run` records
  how a Rust call ends when it can stop the whole process: it returns, it calls
  `exit(code)`, it panics, or the runtime aborts on stack overflow.
- `formatting.dfy` (`Formatting`): `eprintln!("{}", e)` for the line errors of
  the two line-by-line readers. A `Display` impl is its format string, a list of
  literal text, the error's count, and `{}` of `self`. Writing `self` runs the
  impl again one stack frame deeper, and the stack has a finite depth.
- `lexing.dfy` (`Lexing`): the pieces of Rust's standard library the parsers
  use. That means `str::split` and `str::splitn` with a character predicate,
  `char::is_whitespace` and `str::parse` for `u8` and `u16`. It also has joining
  with spaces, the inverse of splitting.
- `config.dfy` (`Config`): the `config` module of `src/lib.rs`.
  - `CursorInformation::parse` and the `scan!` macro it uses.
  - `convert_to_jiffies`.
  - The `parse_config` loop, which folds records into a map from cursor size to
    a static cursor or a list of frames and counts lines in a `u8`. It appears
    as the method `ParseConfig` and as its specification `ParsedConfig`.
  - A reference description `Expected` of what that map holds, read directly
    off the list of records.
- `cursor.dfy` (`Cursor`): `generate_ani`. Its header and frames are derived
  from an animation's records. `generate_cur` is a parameter, because it reads
  and decodes image files.
- `collecting.dfy` (`Collecting`): the loop shared by the two line-by-line
  readers. It parses each line and pushes the value, stopping at the first
  failure. The line parser and the way an error value is reported are
  parameters.
- `processing.dfy` (`Processing`): `src/processing.rs`, that is
  `CursorInfo::from`, `parse_number` and the line loop of `parse_config_file`.
- `cursor_config_parsing.dfy` (`CursorConfigParsing`):
  `src/cursor_config_parsing.rs`. That is `parse_config_line` as written and
  corrected, `get_number_from_chunk`, and the line loop of `parse_config_file`.

A config is given as its sequence of lines. A file with no bytes has no
lines, so "the file is empty" is the empty sequence. The loops that mutate
state are methods proved equal to a specification function:
`Config.ParseConfig`, `Processing.ParseConfigFile` and
`CursorConfigParsing.ParseConfigFile`. Each method models the loop as the code
is written. The specification functions also take the corrected variants as
parameters, so that the lemmas can compare the code as written with what it
evidently means.

Three behaviours of the code are easy to misread, and the model keeps each:

- `convert_to_jiffies` (src/lib.rs:324-326) truncates, so 100 ms becomes 6
  jiffies: the quotient 100 / 16.6666 lies just above 6.
- A frame whose size already holds a static cursor is dropped
  (src/lib.rs:218-224). It does not replace the static cursor, and the line
  counter still advances for it.
- A frame's delay is converted to jiffies when its line is parsed
  (src/lib.rs:310-319), not when the animation is assembled.

## Model

| member | source | states |
|---|---|---|
| Lexing.Split | src/lib.rs:265 | `split` never yields an empty list, and no piece contains a separator |
| Lexing.SplitConcat | src/processing.rs:117 | a separator character cuts the split into the split of the text before it followed by the split of the text after it |
| Lexing.SplitJoin | src/lib.rs:265 | splitting pieces joined by single spaces gives back the pieces, when none contains a separator |
| Lexing.JoinSplit | src/processing.rs:117 | joining the chunks of `split(' ')` with single spaces gives back the line: no character is lost |
| Lexing.SplitN | src/cursor_config_parsing.rs:72 | `splitn(n, ..)` yields between 1 and n pieces; all but the last are separator-free, and the last is too when there are fewer than n |
| Lexing.SplitNConcat | src/cursor_config_parsing.rs:72 | a separator-free word followed by a separator is the first piece of `splitn`, and the rest is split into one piece fewer |
| Lexing.JoinSplitN | src/cursor_config_parsing.rs:72 | joining the chunks of `splitn(n, ' ')` with single spaces gives back the line |
| Lexing.AsciiWhitespace | src/lib.rs:276 | on ASCII, `char::is_whitespace` holds of exactly tab, line feed, vertical tab, form feed, carriage return and space |
| Lexing.ParseUnsigned | src/lib.rs:266 | `str::parse` of an unsigned type: the empty string fails, a parsed value is within the type's range, a token that parses holds no whitespace, and its digits spell the value once an optional `+` and leading zeros are dropped |
| Lexing.ParseDigits | src/lib.rs:266 | conversely, every non-empty run of digits whose value is in range parses to that value, with or without a leading `+` |
| Lexing.ParseLeadingZeros | src/lib.rs:266 | a value's decimal spelling after any number of leading zeros, with or without `+`, parses to that value (`007` is 7) |
| Lexing.StripZerosDecimal | src/lib.rs:266 | a non-empty string of digits denotes the number whose decimal spelling is those digits without their leading zeros |
| Lexing.ParseDecimal | src/lib.rs:266 | every in-range value is read back from its decimal spelling, with or without a leading `+` |
| Formatting.FormatEnds | src/processing.rs:154-158 | a `Display` that writes `self` with `{}` never produces its text, however deep the stack; one that does not always produces the text of its pieces |
| Formatting.PrintEnds | src/cursor_config_parsing.rs:119-123 | `eprintln!` of an error aborts the process exactly when its `Display` writes `self`, and otherwise returns |
| Formatting.ErrorDisplayEnds | src/processing.rs:154-158 | as written, printing a line error aborts whatever the stack size; the intended impl prints the prefix, the count message, the count and a full stop, and returns |
| Collecting.Gather | src/processing.rs:55-68 | a loop that gets through holds one value per line |
| Collecting.ReportAndExit | src/processing.rs:63-66 | printing an error value and then calling `exit(1)` never returns, and once the printing returns the process exits with code 1 |
| Collecting.GatherReturns | src/processing.rs:55-68 | the line loop gets through exactly when every line parses, and then holds one value per line, in line order |
| Collecting.GatherEnds | src/processing.rs:55-68 | the loop returns, or ends the process as some line's parser ended it, or as reporting some line's error value and exiting does |
| Collecting.GatherFirstFailure | src/cursor_config_parsing.rs:53-66 | the first line that does not parse decides how the loop ends: by reporting its error value and exiting, or as its parser ended the process |
| Collecting.GatherStops | src/cursor_config_parsing.rs:53-66 | once the loop has stopped the process, later lines change nothing |
| Collecting.GatherStep | src/cursor_config_parsing.rs:53-66 | one more iteration: a parsed line pushes its value, an error value is reported and then exits with 1 unless reporting ended the process first, and a parser that stopped the process stops it the same way |
| Config.ConvertToJiffies | src/lib.rs:324-326 | the number of jiffies never exceeds the milliseconds, and 0 ms is 0 jiffies |
| Config.JiffiesExamples | src/lib.rs:324-326 | 100 ms is 6 jiffies and 0 ms is none |
| Config.Scan | src/lib.rs:263-276 | each of the five values is there exactly when its word exists and, for a number, is a `u16`; it is then that word's value, and the image is the fourth word verbatim |
| Config.Parse | src/lib.rs:274-320 | a parsed line has at least four words, its image is the fourth word and holds no whitespace, and a static cursor has delay 0 |
| Config.ParseSpec | src/lib.rs:274-320 | each of NoCursorSize, NoHotspotX and NoHotspotY arises exactly when its word is the first of the three numbers that is missing or not a `u16`; NoCursorImage arises exactly when there are exactly three words, all `u16`s; a parsed line has the three numbers and the fourth word verbatim, is a frame iff a fifth word is a `u16`, and then has that delay converted to jiffies, else delay 0 |
| Config.WordsOfRender | src/lib.rs:263-268 | the words `scan!` reads from a well-formed line are the fields it was written from |
| Config.ParseRender | src/lib.rs:274-320 | every well-formed line is read back: the numbers, the image name verbatim, and frame-ness from the presence of the delay, which comes back in jiffies |
| Config.ParseRenderWords | src/lib.rs:279-319 | the checks and the record built from the words of a well-formed line |
| Config.ParseLeadingWhitespace | src/lib.rs:264-282 | leading whitespace makes the first word empty, so the line has no cursor size |
| Config.ParseIgnoresExtraWords | src/lib.rs:263-276 | words after the fifth are never looked at |
| Config.ParseBadDelayIsStatic | src/lib.rs:299-308 | a fifth word that is not a `u16` leaves the line a static cursor with delay 0 |
| Config.ParseStaticExample | src/lib.rs:299-308 | `32 1 2 img.png` is a static 32-pixel cursor with hotspot (1, 2) |
| Config.ParseFrameExample | src/lib.rs:310-319 | `32 1 2 img.png 100` is a frame with a delay of 6 jiffies |
| Config.ParseMissingImageExample | src/lib.rs:294-297 | `32 1 2` has no cursor image |
| Config.Insert | src/lib.rs:201-229 | one record only touches its own size. A frame of a new size starts the list `[ci]`, and a frame of a size with a list is appended to it. A static record replaces whatever was there. A frame whose size holds a static cursor leaves the map unchanged. The `continue` is taken iff the record is a frame and its size does not hold a static cursor |
| Config.InsertRecord | src/lib.rs:201-229 | the `match` arm on a parsed record computes exactly `Insert`'s new map and whether `continue` is taken |
| Config.AggregateIsExpected | src/lib.rs:190-238 | after all records, each size maps to the last static cursor of that size if there is one, else to all frames of that size in file order, else to nothing |
| Config.ExpectedShape | src/lib.rs:169-172 | every entry of the map is a static cursor of its size or a non-empty list of frames of its size |
| Config.InsertAppends | src/lib.rs:205-224 | the `continue` is taken exactly when the record is a frame and no static cursor of its size came before |
| Config.Counted | src/lib.rs:237 | the lines that advance the counter are at most all lines |
| Config.CountedStatics | src/lib.rs:227-237 | every static line advances the counter |
| Config.Advance | src/lib.rs:193-237 | one loop body never exits or aborts; it gives an error value exactly for a line that does not parse, tagged with the current line number; it panics only when the counter is at 255; otherwise the counter stays or moves up by one |
| Config.Feed | src/lib.rs:189-238 | the loop never exits or aborts, and every error it returns names a line |
| Config.ParseConfig | src/lib.rs:175-254 | the loop that mutates the map and the `u8` counter returns exactly `ParsedConfig` of the lines |
| Config.FeedStep | src/lib.rs:190-237 | one more line runs one more loop body while the loop is running |
| Config.FeedStops | src/lib.rs:234 | once the loop has stopped, later lines change nothing |
| Config.FeedOk | src/lib.rs:189-238 | the loop gets through iff every line parses and fewer than 255 lines advanced the counter; it then holds the aggregate of the records and a counter of 1 + the lines that were not appended as frames |
| Config.FeedError | src/lib.rs:234 | an error stops at a line that does not parse, after lines that all did, and reports 1 + the earlier lines that were not appended as frames |
| Config.FeedLineNumber | src/lib.rs:237 | the counter moves up by at most one per line, so only a run of at least 255 lines can overflow it |
| Config.ParsedConfig | src/lib.rs:175-254 | reading an opened config never exits or aborts, and a successful read has at least one line |
| Config.ParsedConfigEmpty | src/lib.rs:184-186 | ConfigEmpty is returned exactly for an empty file |
| Config.ParsedConfigGroups | src/lib.rs:175-254 | a successful parse means every line parsed and no overflow, and the map holds exactly what `Expected` reads off the records |
| Config.ParsedConfigSucceeds | src/lib.rs:175-254 | a non-empty config whose lines all parse, without overflowing the counter, yields the aggregate of its records |
| Config.FirstBadLine | src/lib.rs:234 | the first line that does not parse is reported with its error and the counter's value at that line |
| Config.ParsedConfigError | src/lib.rs:234 | an `OnLine(n, e)` result names a line that gives `e`, after lines that all parse, with `n` = 1 + the earlier lines that were not appended as frames |
| Config.OverflowPanics | src/lib.rs:237 | once 255 parsed lines have advanced the `u8` counter, the increment overflows and panics |
| Config.ShortConfigNeverPanics | src/lib.rs:189-237 | a config of fewer than 255 lines never overflows the counter |
| Config.LongStaticConfigPanics | src/lib.rs:227-237 | 255 static lines overflow the counter |
| Config.AggregateFrames | src/lib.rs:205-222 | two frames of one size form the list of both, in order, and neither advances the counter |
| Config.AggregateStaticOverwrites | src/lib.rs:227-228 | a static cursor replaces the frames of its size before it |
| Config.AggregateFrameAfterStatic | src/lib.rs:218-229 | a frame after a static cursor of its size is dropped, and the counter advances for it |
| Cursor.AsU32 | src/lib.rs:383-384 | `as u32` keeps every count below 2^32 |
| Cursor.GenerateFrames | src/lib.rs:376-379 | generated frames are one per record |
| Cursor.GenerateFramesReturns | src/lib.rs:376-379 | the frames are generated exactly when every `generate_cur` call returns, and then frame i is the image of record i |
| Cursor.GenerateFramesFirstFailure | src/lib.rs:376-379 | the first `generate_cur` call that does not return decides how the process ends |
| Cursor.GenerateAni | src/lib.rs:373-391 | an empty animation panics; a built ANI has one frame per record, width and height equal to the size, and the first record's delay as frame rate |
| Cursor.GenerateAniReturns | src/lib.rs:373-391 | the ANI is built exactly for a non-empty animation whose frames all generate. Frame and step counts are the record count as `u32`, width and height are the size, the frame rate is the first record's delay, and there is one frame per record, in order |
| Cursor.GenerateAniEmpty | src/lib.rs:374 | an empty animation panics at `first().unwrap()` |
| Cursor.GenerateAniFirstFailure | src/lib.rs:373-391 | a non-empty animation stops the process as its first failing frame does |
| Cursor.ConfigAnimationsArePlayable | src/lib.rs:373-391 | every frame list of a successfully parsed config is non-empty and holds only frames of its size, so `generate_ani` cannot hit the empty-list panic; a built ANI has that width and the first frame's delay |
| Processing.ParseNumber | src/processing.rs:136-144 | a chunk that is a `u16` gives its value, and its digits spell that value once an optional `+` and leading zeros are dropped; any other chunk exits with code 1 |
| Processing.ParseNumberDecimal | src/processing.rs:136-144 | every `u16` is read back from its decimal spelling, and an empty chunk exits |
| Processing.From | src/processing.rs:115-132 | `from` either returns or exits with code 1 |
| Processing.FromSpec | src/processing.rs:115-132 | an error value iff fewer than four chunks, carrying their count; exit iff one of the first three chunks is not a `u16`; otherwise those numbers and the fourth chunk |
| Processing.FromRender | src/processing.rs:115-132 | every line written as four space-separated fields is read back, for any image name without a space |
| Processing.FromIgnoresExtraChunks | src/processing.rs:117-129 | chunks after the fourth are never looked at |
| Processing.FromDocExample | src/processing.rs:75-90 | `32 1 2 32-cursor-image.png` is read as size 32, hotspot (1, 2) and that image |
| Processing.FromDocExampleExtraChunk | src/processing.rs:91-107 | the same line with ` AbraCadabra` appended gives the same result |
| Processing.FromDocExampleShort | src/processing.rs:108-122 | `32 1 2` is the error value WrongChunksCount(3) |
| Processing.ParsedConfigFile | src/processing.rs:44-70 | an empty file exits with code 1, and a read that gets through holds one value per line |
| Processing.ParseConfigFile | src/processing.rs:44-70 | the loop as written, pushing onto `infos` and printing a line error with the self-formatting `Display`, ends exactly as `ParsedConfigFile` of the lines with that `Display` |
| Processing.ParsedConfigFileFirstFailure | src/processing.rs:55-68 | the first line `from` does not read decides the outcome: as written, an error value aborts and a bad number exits with 1; with the intended `Display` both exit with 1 |
| Processing.ShortConfigAborts | src/processing.rs:61-66 | the config `32 1 2` aborts as written, and exits with 1 with the intended `Display` |
| Processing.ParsedConfigFileEnds | src/processing.rs:44-70 | a read returns, exits with 1, or aborts; it aborts only when the `Display` writes `self` and some line is an error value |
| Processing.ParsedConfigFileExits | src/processing.rs:44-70 | with the intended `Display`, every failure of the read exits with code 1 |
| Processing.ParsedConfigFileItems | src/processing.rs:55-70 | a read succeeds iff the file is non-empty and every line parses, and then holds each line's `CursorInfo` in file order |
| CursorConfigParsing.GetNumberFromChunk | src/cursor_config_parsing.rs:89-97 | a chunk that is a `u8` gives its value, and its digits spell that value once an optional `+` and leading zeros are dropped; any other chunk exits with code 1 |
| CursorConfigParsing.GetNumberFromChunkDecimal | src/cursor_config_parsing.rs:89-97 | every `u8` is read back from its decimal spelling, with or without `+`; the empty chunk and 256 exit |
| CursorConfigParsing.ParseConfigLineAsWritten | src/cursor_config_parsing.rs:71-86 | as written, a line returns, panics or exits with code 1 |
| CursorConfigParsing.GuardValue | src/cursor_config_parsing.rs:74 | `!len == 4` on a 64-bit length holds of exactly one length, 2^64 - 5 |
| CursorConfigParsing.GuardNeverHolds | src/cursor_config_parsing.rs:74 | `!len == 4` holds of no length from 0 to 4 |
| CursorConfigParsing.AsWrittenIsBuild | src/cursor_config_parsing.rs:71-86 | as written, every line goes on to the struct literal |
| CursorConfigParsing.BuildConfig | src/cursor_config_parsing.rs:78-85 | the struct literal, evaluated field by field, can only return an `Ok` value |
| CursorConfigParsing.AsWrittenNeverErrs | src/cursor_config_parsing.rs:71-86 | the guard never fires, so `WrongChunksCount` is never returned; a line of fewer than four chunks panics or exits instead |
| CursorConfigParsing.ShortChunksStop | src/cursor_config_parsing.rs:78-83 | with fewer than four chunks the struct literal panics (at the first missing `chunks[k]`) exactly when every chunk there is a `u8`, and otherwise exits with 1 |
| CursorConfigParsing.AsWrittenAgrees | src/cursor_config_parsing.rs:71-86 | on a line of four chunks the code as written and the corrected guard agree |
| CursorConfigParsing.AsWrittenPanicsOnShortLine | src/cursor_config_parsing.rs:74-82 | `1 2 3` panics at `chunks[3]` as written, and is WrongChunksCount(3) with the corrected guard |
| CursorConfigParsing.ChunksOfThree | src/cursor_config_parsing.rs:72 | three space-free words joined by two spaces are three chunks |
| CursorConfigParsing.ParseConfigLine | src/cursor_config_parsing.rs:71-86 | the corrected parser either returns or exits with code 1; it never panics |
| CursorConfigParsing.ParseConfigLineSpec | src/cursor_config_parsing.rs:71-86 | an error value iff fewer than four chunks; exit iff one of the three numbers is not a `u8`; otherwise those numbers, and the image is the rest of the line after three spaces |
| CursorConfigParsing.ParseConfigLineRender | src/cursor_config_parsing.rs:72-83 | every line written as three numbers and an image name is read back, even when the name holds spaces or is empty |
| CursorConfigParsing.ParsedConfigFile | src/cursor_config_parsing.rs:42-68 | an empty file exits with code 1, and a read that gets through holds one value per line |
| CursorConfigParsing.ParseConfigFile | src/cursor_config_parsing.rs:42-68 | the loop as written, with the dead guard and the self-formatting `Display`, ends exactly as `ParsedConfigFile` of the lines with those two |
| CursorConfigParsing.ParsedConfigFileAsWrittenEnds | src/cursor_config_parsing.rs:53-66 | as written, a read never aborts: it returns, exits with code 1, or panics |
| CursorConfigParsing.ShortConfigPanics | src/cursor_config_parsing.rs:53-66 | the config `1 2 3` panics as written; with only the guard corrected it aborts while printing the error; with the `Display` corrected too it exits with 1 |
| CursorConfigParsing.ParsedConfigFileExits | src/cursor_config_parsing.rs:42-68 | with the corrected guard and the intended `Display`, every failure of the read exits with code 1 |
| CursorConfigParsing.ParsedConfigFileItems | src/cursor_config_parsing.rs:53-68 | for any line parser and `Display`, a read succeeds iff the file is non-empty and every line parses, and then holds each line's `CursorConfig` in file order |

## Left out

- Command-line handling is not part of this model. That covers
  `cli::Arguments::parse`, `src/args.rs`, `src/arguments.rs`, and the
  file-system checks they make.
- `src/main.rs` is not part of this model. It opens and creates files and
  writes the icons.
- Opening the config file and its error branches are left out, and so are the
  `fill_buf` error treated as an empty file and the `line.expect` read failures.
  They are I/O; the model starts from the file's lines.
- `generate_cur`: reading the PNG, setting the hotspot and encoding the icon are
  foreign-crate I/O. It is a function parameter, and the path is kept as its
  parts (`ImagePath`).
- What `eprintln!` writes to stderr is output. The text of a line error's
  `Display` is modelled, because producing it can abort the process. The other
  messages are not, and only the way the process ends is.
- `HashMap` iteration order is unspecified; the map is a Dafny `map`.
- ConvertToJiffies: uses exact division by the `f32` value of `JIFFY`
  (8738098 / 2^19), truncated. The rounding of the `f32` quotient is not
  modelled.
- Config.Advance: `line_number += 1` is modelled with Rust's overflow checks
  (a panic at 255 + 1). The wrap to 0 of a build without them is not modelled.
- `usize` lengths are unbounded naturals in `Processing`. In
  `CursorConfigParsing` they are bounded by 2^64 only where the bitwise NOT
  needs it.
- `char::is_whitespace` is the fixed list of Unicode White_Space code points;
  no other Unicode data is used.
- The `Display` impl of the unused `WrongChunksCount` struct
  (src/processing.rs:160-169, src/cursor_config_parsing.rs:108-117) is not
  modelled, since nothing formats that struct. It too writes `self` with `{}`.
  Its message, with the count in place of `self`, is the intended text in
  `Formatting.ErrorDisplayIntended`.
- The stack depth is a parameter of the readers. Only how many frames it
  holds matters, and no size is assumed.

## Findings

| source | as written | input that shows it | evidently intended | confidence | as-written member | corrected member |
|---|---|---|---|---|---|---|
| src/processing.rs:154-158 | `Display for ParseConfigLineError` writes `self` with `{}`, so it calls itself without end | the config line `32 1 2`, which `from` turns into WrongChunksCount(3); printing it overflows the stack and the process aborts | print the message and exit with code 1 | high, not executed | Processing.ShortConfigAborts | Processing.ParsedConfigFileExits |
| src/cursor_config_parsing.rs:74-76 | `!chunks.len() == 4` compares the bitwise NOT of the length with 4, which no length up to 4 meets | the line `1 2 3`: the guard lets it through and `chunks[3]` panics | `chunks.len() != 4`, giving WrongChunksCount(3) | high, not executed | CursorConfigParsing.AsWrittenPanicsOnShortLine | CursorConfigParsing.ParseConfigLineSpec |
| src/cursor_config_parsing.rs:119-123 | `Display for ParseConfigLineError` writes `self` with `{}`; the dead guard hides this, since no error value reaches it | once the guard is corrected, the line `1 2 3` gives an error value whose printing overflows the stack | print the message and exit with code 1 | high, not executed | CursorConfigParsing.ShortConfigPanics | CursorConfigParsing.ParsedConfigFileExits |
