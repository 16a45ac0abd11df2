/** src/cursor_config_parsing.rs: a line-by-line config reader. A line is
    `size xoffset yoffset image` with `u8` numbers; it is cut at the first
    three single spaces, so the image name is the rest of the line, spaces
    included. Any problem ends the process. */
module CursorConfigParsing {
  import opened Outcomes
  import opened Lexing
  import opened Collecting
  import opened Formatting

  datatype CursorConfig = CursorConfig(cursorSize: u8, cursorOffsetX: u8, cursorOffsetY: u8, cursorImage: string)

  datatype ParseConfigLineError = WrongChunksCount(count: usize)

  /** `get_number_from_chunk`: a chunk that is not a `u8` ends the process
      with code 1; a chunk that is one spells its value, up to a `+` and
      leading zeros. */
  function GetNumberFromChunk(chunk: string): (r: Run<u8>)
    ensures r.Returned? <==> ParseU8(chunk).Some?
    ensures r.Returned? ==> Some(r.value) == ParseU8(chunk)
    ensures r.Returned? ==> Decimal(r.value) == StripZeros(Unsigned(chunk))
    ensures !r.Returned? ==> r == Exited(1)
  {
    match ParseU8(chunk)
    case Some(v) => Returned(v)
    case None => Exited(1)
  }

  /** Every `u8` is read back from its decimal spelling, with or without a
      `+`; the empty chunk and 256 are not `u8`s. */
  lemma GetNumberFromChunkDecimal(n: u8)
    ensures GetNumberFromChunk(Decimal(n)) == Returned(n)
    ensures GetNumberFromChunk("+" + Decimal(n)) == Returned(n)
    ensures GetNumberFromChunk("") == Exited(1)
    ensures GetNumberFromChunk(Decimal(U8_MAX + 1)) == Exited(1)
  {
    ParseDecimal(n, U8_MAX);
    DecimalValue(U8_MAX + 1);
  }

  /** `line.splitn(4, ' ')`: at most four chunks, the last one the rest of
      the line */
  function Chunks(line: string): seq<string> {
    SplitN(line, 4, IsSpace)
  }

  /** `chunks[k]`: indexing past the end panics. */
  function Index(chunks: seq<string>, k: nat): Run<string> {
    if k < |chunks| then Returned(chunks[k]) else Panicked
  }

  /** `parse_config_line` as written. The guard reads `!chunks.len() == 4`,
      which Rust groups as `(!chunks.len()) == 4`: the bitwise NOT of a 64-bit
      `usize`. */
  function ParseConfigLineAsWritten(line: string): (r: Run<Result<CursorConfig, ParseConfigLineError>>)
    ensures r.Returned? || r == Panicked || r == Exited(1)
  {
    var chunks := Chunks(line);
    if !(|chunks| as bv64) == 4 then Returned(Err(WrongChunksCount(|chunks|)))
    else BuildConfig(chunks)
  }

  /** The guard holds of exactly one 64-bit length, 2^64 - 5. */
  lemma GuardValue(len: bv64)
    ensures !len == 4 <==> len == 0xFFFF_FFFF_FFFF_FFFB
  {
  }

  /** The guard holds of none of the lengths up to 4 that `splitn(4, ..)` can
      produce. */
  lemma GuardNeverHolds(n: nat)
    requires n <= 4
    ensures !(n as bv64) != 4
  {
    if n == 0 {
    } else if n == 1 {
    } else if n == 2 {
    } else if n == 3 {
    }
  }

  /** So the code as written always goes on to build the config. */
  lemma AsWrittenIsBuild(line: string)
    ensures ParseConfigLineAsWritten(line) == BuildConfig(Chunks(line))
  {
    GuardNeverHolds(|Chunks(line)|);
  }

  /** The struct literal of `parse_config_line`: the fields are built in
      order, each chunk indexed and then parsed, and the image chunk last. */
  function BuildConfig(chunks: seq<string>): (r: Run<Result<CursorConfig, ParseConfigLineError>>)
    ensures r.Returned? ==> r.value.Ok?
    ensures r.Returned? || r == Panicked || r == Exited(1)
  {
    var chunk0 :- Index(chunks, 0);
    var size :- GetNumberFromChunk(chunk0);
    var chunk1 :- Index(chunks, 1);
    var offsetX :- GetNumberFromChunk(chunk1);
    var chunk2 :- Index(chunks, 2);
    var offsetY :- GetNumberFromChunk(chunk2);
    var image :- Index(chunks, 3);
    Returned(Ok(CursorConfig(size, offsetX, offsetY, image)))
  }

  /** The guard never fires: a line never gives the error value, and a line of
      fewer than four chunks ends the process instead, by a panic at the first
      missing chunk unless a number before it is already malformed. */
  lemma AsWrittenNeverErrs(line: string)
    ensures var r := ParseConfigLineAsWritten(line);
      && !(r.Returned? && r.value.Err?)
      && (r.Returned? || r == Panicked || r == Exited(1))
      && (|Chunks(line)| < 4 ==> r == Panicked || r == Exited(1))
  {
    var c := Chunks(line);
    AsWrittenIsBuild(line);
    if |c| < 4 {
      ShortChunksStop(c);
    }
  }

  /** With fewer than four chunks the struct literal panics at the first
      missing `chunks[k]` when every chunk before it is a `u8`, and otherwise
      exits with 1 at the first chunk that is not. */
  lemma ShortChunksStop(chunks: seq<string>)
    requires |chunks| < 4
    ensures BuildConfig(chunks) ==
              if forall k :: 0 <= k < |chunks| ==> ParseU8(chunks[k]).Some? then Panicked else Exited(1)
  {
    if |chunks| == 0 {
    } else if |chunks| == 1 {
    } else if |chunks| == 2 {
    } else {
    }
  }

  /** Apart from the guard, the code as written is the corrected parser: on
      every line of four chunks the two agree. */
  lemma AsWrittenAgrees(line: string)
    requires |Chunks(line)| == 4
    ensures ParseConfigLineAsWritten(line) == ParseConfigLine(line)
  {
    AsWrittenIsBuild(line);
  }

  /** A line with only three chunks panics at `chunks[3]` instead of giving
      `WrongChunksCount(3)`. The line is a parameter fixed by `requires`, so
      that where the lemma is used the literal is not unfolded through
      `splitn`. */
  lemma AsWrittenPanicsOnShortLine(line: string)
    requires line == "1 2 3"
    ensures ParseConfigLineAsWritten(line) == Panicked
    ensures ParseConfigLine(line) == Returned(Err(WrongChunksCount(3)))
  {
    ShortLineChunks(line);
    DecimalExamples();
    assert Decimal(3) == "3";
    ParseDecimal(1, U8_MAX);
    ParseDecimal(2, U8_MAX);
  }

  lemma ShortLineChunks(line: string)
    requires line == "1 2 3"
    ensures Chunks(line) == ["1", "2", "3"]
  {
    assert line == "1" + " " + "2" + " " + "3";
    ChunksOfThree("1", "2", "3");
  }

  /** Three words and two spaces are three chunks. */
  lemma ChunksOfThree(a: string, b: string, c: string)
    requires SepFree(a, IsSpace) && SepFree(b, IsSpace) && SepFree(c, IsSpace)
    ensures Chunks(a + " " + b + " " + c) == [a, b, c]
  {
    var tail := b + [' '] + c;
    assert a + " " + b + " " + c == a + [' '] + tail;
    SplitNConcat(a, ' ', tail, 4, IsSpace);
    SplitNConcat(b, ' ', c, 3, IsSpace);
    SplitNSepFree(c, 2, IsSpace);
  }

  /** `parse_config_line` with the guard the code evidently means,
      `chunks.len() != 4`. */
  function ParseConfigLine(line: string): (r: Run<Result<CursorConfig, ParseConfigLineError>>)
    ensures r.Returned? || r == Exited(1)
  {
    var chunks := Chunks(line);
    if |chunks| != 4 then Returned(Err(WrongChunksCount(|chunks|)))
    else
      var size :- GetNumberFromChunk(chunks[0]);
      var offsetX :- GetNumberFromChunk(chunks[1]);
      var offsetY :- GetNumberFromChunk(chunks[2]);
      Returned(Ok(CursorConfig(size, offsetX, offsetY, chunks[3])))
  }

  /** What the corrected `parse_config_line` checks, in terms of the chunks:
      an error value exactly when there are fewer than four, an exit exactly
      when one of the three numbers is not a `u8`, and otherwise the numbers
      and the image, which with the numbers and three spaces make up the whole
      line. */
  lemma ParseConfigLineSpec(line: string)
    ensures var c, r := Chunks(line), ParseConfigLine(line);
      && (r == Returned(Err(WrongChunksCount(|c|))) <==> |c| < 4)
      && (r == Exited(1) <==>
            |c| == 4 && (ParseU8(c[0]).None? || ParseU8(c[1]).None? || ParseU8(c[2]).None?))
      && (r.Returned? && r.value.Ok? ==>
            && |c| == 4
            && Some(r.value.value.cursorSize) == ParseU8(c[0])
            && Some(r.value.value.cursorOffsetX) == ParseU8(c[1])
            && Some(r.value.value.cursorOffsetY) == ParseU8(c[2])
            && line == c[0] + " " + c[1] + " " + c[2] + " " + r.value.value.cursorImage)
  {
    var c := Chunks(line);
    if |c| == 4 {
      JoinSplitN(line, 4);
      JoinFour(c[0], c[1], c[2], c[3]);
      assert c == [c[0], c[1], c[2], c[3]];
    }
  }

  /** A line written as the format describes it is read back exactly, for
      every image name, even one with spaces or an empty one. */
  lemma ParseConfigLineRender(size: u8, offsetX: u8, offsetY: u8, image: string)
    ensures ParseConfigLine(Decimal(size) + " " + Decimal(offsetX) + " " + Decimal(offsetY) + " " + image)
         == Returned(Ok(CursorConfig(size, offsetX, offsetY, image)))
  {
    var a, b, c := Decimal(size), Decimal(offsetX), Decimal(offsetY);
    DigitsAreNotSeparators(a);
    DigitsAreNotSeparators(b);
    DigitsAreNotSeparators(c);
    var tail2 := c + [' '] + image;
    var tail1 := b + [' '] + tail2;
    var line := a + [' '] + tail1;
    assert a + " " + b + " " + c + " " + image == line;
    SplitNConcat(a, ' ', tail1, 4, IsSpace);
    SplitNConcat(b, ' ', tail2, 3, IsSpace);
    SplitNConcat(c, ' ', image, 2, IsSpace);
    assert Chunks(line) == [a, b, c, image];
    ParseDecimal(size, U8_MAX);
    ParseDecimal(offsetX, U8_MAX);
    ParseDecimal(offsetY, U8_MAX);
  }

  /** `eprintln!("{}", e)` for a line error whose `Display` is `display`,
      with `stack` frames to spend on formatting */
  function PrintError(display: seq<Piece>, stack: nat): ParseConfigLineError -> Run<()> {
    (e: ParseConfigLineError) => Print(display, e.count, stack)
  }

  /** What `parse_config_file` does once the file is open, with `parseLine` for
      `parse_config_line` and line errors printed with `display`: an empty file
      ends the process with code 1; otherwise each line is parsed in order and
      the loop stops the process at the first failure. As written these are
      `ParseConfigLineAsWritten` and `ErrorDisplay`. */
  function ParsedConfigFile(parseLine: string -> Run<Result<CursorConfig, ParseConfigLineError>>,
                            lines: seq<string>, display: seq<Piece>, stack: nat): (r: Run<seq<CursorConfig>>)
    ensures lines == [] ==> r == Exited(1)
    ensures r.Returned? ==> |r.value| == |lines|
  {
    if lines == [] then Exited(1) else Gather(Map(parseLine, lines), PrintError(display, stack))
  }

  /** `parse_config_file` after the file is opened, as written. */
  method ParseConfigFile(lines: seq<string>, stack: nat) returns (r: Run<seq<CursorConfig>>)
    ensures r == ParsedConfigFile(ParseConfigLineAsWritten, lines, ErrorDisplay, stack)
  {
    if lines == [] {
      return Exited(1);
    }
    ghost var report := PrintError(ErrorDisplay, stack);
    ghost var results := Map(ParseConfigLineAsWritten, lines);
    var configs: seq<CursorConfig> := [];
    for i := 0 to |lines|
      invariant Gather(results[..i], report) == Returned(configs)
    {
      GatherStep(results, report, i);
      GatherStops(results, report, i + 1);
      assert results[..|lines|] == results;
      MapAt(ParseConfigLineAsWritten, lines, i);
      var res :- ParseConfigLineAsWritten(lines[i]);
      match res {
        case Ok(config) =>
          configs := configs + [config];
        case Err(e) =>
          var printed :- Print(ErrorDisplay, e.count, stack);
          return Exited(1);
      }
    }
    assert results[..|lines|] == results;
    return Returned(configs);
  }

  /** As written, a read never aborts, since no error value ever reaches the
      self-formatting `Display`: it returns, exits with code 1 (an empty file
      or a number that is not a `u8`), or panics (a line of fewer than four
      chunks). */
  lemma ParsedConfigFileAsWrittenEnds(lines: seq<string>, stack: nat)
    ensures var r := ParsedConfigFile(ParseConfigLineAsWritten, lines, ErrorDisplay, stack);
      r.Returned? || r == Exited(1) || r == Panicked
  {
    var results := Map(ParseConfigLineAsWritten, lines);
    forall i | 0 <= i < |lines|
      ensures results[i].Returned? || results[i] == Panicked || results[i] == Exited(1)
      ensures !(results[i].Returned? && results[i].value.Err?)
    {
      MapAt(ParseConfigLineAsWritten, lines, i);
      AsWrittenNeverErrs(lines[i]);
    }
    GatherEnds(results, PrintError(ErrorDisplay, stack));
  }

  /** A config whose only line has three chunks: the code as written panics;
      with only the guard corrected, printing the error aborts; with the
      `Display` corrected too, the process exits with 1 after printing it. */
  lemma ShortConfigPanics(lines: seq<string>, stack: nat)
    requires lines == ["1 2 3"]
    ensures ParsedConfigFile(ParseConfigLineAsWritten, lines, ErrorDisplay, stack) == Panicked
    ensures ParsedConfigFile(ParseConfigLine, lines, ErrorDisplay, stack) == Aborted
    ensures ParsedConfigFile(ParseConfigLine, lines, ErrorDisplayIntended, stack) == Exited(1)
  {
    AsWrittenPanicsOnShortLine(lines[0]);
    ErrorDisplayEnds(3, stack);
    MapAt(ParseConfigLine, lines, 0);
    MapAt(ParseConfigLineAsWritten, lines, 0);
    GatherFirstFailure(Map(ParseConfigLine, lines), PrintError(ErrorDisplay, stack), 0);
    GatherFirstFailure(Map(ParseConfigLine, lines), PrintError(ErrorDisplayIntended, stack), 0);
    GatherFirstFailure(Map(ParseConfigLineAsWritten, lines), PrintError(ErrorDisplay, stack), 0);
  }

  /** With the guard and the `Display` corrected, every failure ends the
      process with code 1: no panic and no abort. */
  lemma ParsedConfigFileExits(lines: seq<string>, stack: nat)
    ensures var r := ParsedConfigFile(ParseConfigLine, lines, ErrorDisplayIntended, stack);
      r.Returned? || r == Exited(1)
  {
    var results := Map(ParseConfigLine, lines);
    forall i | 0 <= i < |lines| ensures results[i].Returned? || results[i] == Exited(1) {
      MapAt(ParseConfigLine, lines, i);
    }
    forall e: ParseConfigLineError ensures PrintError(ErrorDisplayIntended, stack)(e) == Returned(()) {
      ErrorDisplayEnds(e.count, stack);
    }
    GatherEnds(results, PrintError(ErrorDisplayIntended, stack));
  }

  /** Whichever line parser and `Display`: a config read successfully has one
      entry per line, each the line's `CursorConfig`; conversely a non-empty
      config whose lines all parse is read. */
  lemma ParsedConfigFileItems(parseLine: string -> Run<Result<CursorConfig, ParseConfigLineError>>,
                              lines: seq<string>, display: seq<Piece>, stack: nat)
    ensures ParsedConfigFile(parseLine, lines, display, stack).Returned? <==>
              lines != [] && forall i :: 0 <= i < |lines| ==> Parsed(parseLine(lines[i]))
    ensures ParsedConfigFile(parseLine, lines, display, stack).Returned? ==>
              forall i :: 0 <= i < |lines| ==>
                parseLine(lines[i]) == Returned(Ok(ParsedConfigFile(parseLine, lines, display, stack).value[i]))
  {
    var results := Map(parseLine, lines);
    forall i | 0 <= i < |lines| ensures results[i] == parseLine(lines[i]) {
      MapAt(parseLine, lines, i);
    }
    GatherReturns(results, PrintError(display, stack));
  }
}
