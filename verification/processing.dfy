/** src/processing.rs: a line-by-line config reader. A line is `size xhot yhot image`
    separated by single spaces; a whole config is read line by line into a
    list of `CursorInfo`, and any problem ends the process with exit code 1. */
module Processing {
  import opened Outcomes
  import opened Lexing
  import opened Collecting
  import opened Formatting

  datatype CursorInfo = CursorInfo(size: u16, hotspotX: u16, hotspotY: u16, image: string)

  datatype ParseConfigLineError = WrongChunksCount(count: nat)

  /** `parse_number`: a chunk that is not a `u16` ends the process with code 1;
      a chunk that is one spells its value, up to a `+` and leading zeros. */
  function ParseNumber(part: string): (r: Run<u16>)
    ensures r.Returned? <==> ParseU16(part).Some?
    ensures r.Returned? ==> Some(r.value) == ParseU16(part)
    ensures r.Returned? ==> Decimal(r.value) == StripZeros(Unsigned(part))
    ensures !r.Returned? ==> r == Exited(1)
  {
    match ParseU16(part)
    case Some(v) => Returned(v)
    case None => Exited(1)
  }

  /** Every `u16` is read back from its decimal spelling; an empty chunk (two
      spaces in a row) is not a number. */
  lemma ParseNumberDecimal(n: u16)
    ensures ParseNumber(Decimal(n)) == Returned(n)
    ensures ParseNumber("") == Exited(1)
  {
    ParseDecimal(n, U16_MAX);
  }

  /** The chunks `from` reads: the line split on every single space */
  function Chunks(params: string): seq<string> {
    Split(params, IsSpace)
  }

  /** `CursorInfo::from`. Fewer than four chunks is an error value; otherwise the
      first three chunks are parsed in order by `parse_number`, which may end the
      process, and the fourth is the image name. Further chunks are ignored. */
  function From(params: string): (r: Run<Result<CursorInfo, ParseConfigLineError>>)
    ensures r.Returned? || r == Exited(1)
  {
    var chunks := Chunks(params);
    if |chunks| < 4 then Returned(Err(WrongChunksCount(|chunks|)))
    else
      var size :- ParseNumber(chunks[0]);
      var hotspotX :- ParseNumber(chunks[1]);
      var hotspotY :- ParseNumber(chunks[2]);
      Returned(Ok(CursorInfo(size, hotspotX, hotspotY, chunks[3])))
  }

  /** What `from` checks, in terms of the chunks of the line. */
  lemma FromSpec(params: string)
    ensures var c, r := Chunks(params), From(params);
      && (r == Returned(Err(WrongChunksCount(|c|))) <==> |c| < 4)
      && (r == Exited(1) <==>
            |c| >= 4 && (ParseU16(c[0]).None? || ParseU16(c[1]).None? || ParseU16(c[2]).None?))
      && (r.Returned? && r.value.Ok? ==>
            && |c| >= 4
            && Some(r.value.value.size) == ParseU16(c[0])
            && Some(r.value.value.hotspotX) == ParseU16(c[1])
            && Some(r.value.value.hotspotY) == ParseU16(c[2])
            && r.value.value.image == c[3])
  {
  }

  /** A line written as the format describes it is read back exactly, for any
      image name without a space. */
  lemma FromRender(size: u16, hotspotX: u16, hotspotY: u16, image: string)
    requires SepFree(image, IsSpace)
    ensures From(Join([Decimal(size), Decimal(hotspotX), Decimal(hotspotY), image]))
         == Returned(Ok(CursorInfo(size, hotspotX, hotspotY, image)))
  {
    var pieces := [Decimal(size), Decimal(hotspotX), Decimal(hotspotY), image];
    forall i | 0 <= i < 3 ensures SepFree(pieces[i], IsSpace) {
      DigitsAreNotSeparators(pieces[i]);
    }
    SplitJoin(pieces, IsSpace);
    ParseDecimal(size, U16_MAX);
    ParseDecimal(hotspotX, U16_MAX);
    ParseDecimal(hotspotY, U16_MAX);
  }

  /** Chunks after the fourth are never looked at. */
  lemma FromIgnoresExtraChunks(params: string, rest: string)
    requires |Chunks(params)| >= 4
    ensures From(params + " " + rest) == From(params)
  {
    SplitConcat(params, ' ', rest, IsSpace);
    assert params + " " + rest == params + [' '] + rest;
    var c, c' := Chunks(params), Chunks(params + " " + rest);
    assert forall i :: 0 <= i < 4 ==> c'[i] == c[i];
  }

  /** The first example of the documentation of `from`. */
  lemma FromDocExample(params: string)
    requires params == "32 1 2 32-cursor-image.png"
    ensures From(params) == Returned(Ok(CursorInfo(32, 1, 2, "32-cursor-image.png")))
  {
    DocExampleLine(params);
    DocExampleImage("32-cursor-image.png");
    FromRender(32, 1, 2, "32-cursor-image.png");
  }

  /** The second example: a fifth chunk changes nothing. */
  lemma FromDocExampleExtraChunk(params: string)
    requires params == "32 1 2 32-cursor-image.png AbraCadabra"
    ensures From(params) == Returned(Ok(CursorInfo(32, 1, 2, "32-cursor-image.png")))
  {
    var line := params[..26];
    assert line == "32 1 2 32-cursor-image.png";
    assert params == line + " " + "AbraCadabra";
    FromDocExample(line);
    FromSpec(line);
    FromIgnoresExtraChunks(line, "AbraCadabra");
  }

  /** The documented line spelled out from its parts. Like the examples above,
      it takes the line as a parameter fixed by `requires`, so that where it is
      used the literal is not unfolded through the splitting functions. */
  lemma DocExampleLine(line: string)
    requires line == "32 1 2 32-cursor-image.png"
    ensures line == Join([Decimal(32), Decimal(1), Decimal(2), "32-cursor-image.png"])
  {
    DecimalExamples();
    JoinFour("32", "1", "2", "32-cursor-image.png");
  }

  lemma DocExampleImage(image: string)
    requires image == "32-cursor-image.png"
    ensures SepFree(image, IsSpace)
  {
  }

  /** The third example: three chunks are an error value. */
  lemma FromDocExampleShort(params: string)
    requires params == "32 1 2"
    ensures From(params) == Returned(Err(WrongChunksCount(3)))
  {
    var pieces := ["32", "1", "2"];
    forall i | 0 <= i < 3 ensures SepFree(pieces[i], IsSpace) {
      assert AllDigits(pieces[i]);
      DigitsAreNotSeparators(pieces[i]);
    }
    SplitJoin(pieces, IsSpace);
    assert params == Join(pieces);
  }

  /** `eprintln!("{}", e)` for a line error whose `Display` is `display`,
      with `stack` frames to spend on formatting */
  function PrintError(display: seq<Piece>, stack: nat): ParseConfigLineError -> Run<()> {
    (e: ParseConfigLineError) => Print(display, e.count, stack)
  }

  /** What `parse_config_file` does once the file is open, when line errors are
      printed with `display`: an empty file ends the process with code 1;
      otherwise each line goes through `from`, and the loop collects the
      values, ending the process at the first failure. As written, `display`
      is `ErrorDisplay`. */
  function ParsedConfigFile(lines: seq<string>, display: seq<Piece>, stack: nat): (r: Run<seq<CursorInfo>>)
    ensures lines == [] ==> r == Exited(1)
    ensures r.Returned? ==> |r.value| == |lines|
  {
    if lines == [] then Exited(1) else Gather(Map(From, lines), PrintError(display, stack))
  }

  /** `parse_config_file` after the file is opened, as written. */
  method ParseConfigFile(lines: seq<string>, stack: nat) returns (r: Run<seq<CursorInfo>>)
    ensures r == ParsedConfigFile(lines, ErrorDisplay, stack)
  {
    if lines == [] {
      return Exited(1);
    }
    ghost var report := PrintError(ErrorDisplay, stack);
    ghost var results := Map(From, lines);
    var infos: seq<CursorInfo> := [];
    for i := 0 to |lines|
      invariant Gather(results[..i], report) == Returned(infos)
    {
      GatherStep(results, report, i);
      GatherStops(results, report, i + 1);
      assert results[..|lines|] == results;
      MapAt(From, lines, i);
      var res :- From(lines[i]);
      match res {
        case Ok(info) =>
          infos := infos + [info];
        case Err(e) =>
          var printed :- Print(ErrorDisplay, e.count, stack);
          return Exited(1);
      }
    }
    assert results[..|lines|] == results;
    return Returned(infos);
  }

  /** The first line that `from` does not read decides how the read ends: a
      number that is not a `u16` exits with code 1, and an error value aborts
      the process as written, while the intended `Display` prints it and
      exits with code 1. */
  lemma ParsedConfigFileFirstFailure(lines: seq<string>, k: nat, stack: nat)
    requires k < |lines| && !Parsed(From(lines[k]))
    requires forall i :: 0 <= i < k ==> Parsed(From(lines[i]))
    ensures ParsedConfigFile(lines, ErrorDisplay, stack) == if From(lines[k]).Returned? then Aborted else Exited(1)
    ensures ParsedConfigFile(lines, ErrorDisplayIntended, stack) == Exited(1)
  {
    var results := Map(From, lines);
    forall i | 0 <= i <= k ensures results[i] == From(lines[i]) {
      MapAt(From, lines, i);
    }
    if From(lines[k]).Returned? {
      ErrorDisplayEnds(From(lines[k]).value.error.count, stack);
    }
    GatherFirstFailure(results, PrintError(ErrorDisplay, stack), k);
    GatherFirstFailure(results, PrintError(ErrorDisplayIntended, stack), k);
  }

  /** The line `32 1 2` of the documentation, alone in a config: as written the
      process aborts while printing the error; intended, it exits with 1. */
  lemma ShortConfigAborts(lines: seq<string>, stack: nat)
    requires lines == ["32 1 2"]
    ensures ParsedConfigFile(lines, ErrorDisplay, stack) == Aborted
    ensures ParsedConfigFile(lines, ErrorDisplayIntended, stack) == Exited(1)
  {
    FromDocExampleShort(lines[0]);
    ParsedConfigFileFirstFailure(lines, 0, stack);
  }

  /** As written, a read ends in one of three ways: it returns, it exits with
      code 1 (an empty file, or a number that is not a `u16`), or it aborts,
      and it aborts only on a line that `from` turns into an error value. With
      the intended `Display` it never aborts. */
  lemma ParsedConfigFileEnds(lines: seq<string>, display: seq<Piece>, stack: nat)
    ensures var r := ParsedConfigFile(lines, display, stack);
      && (r.Returned? || r == Exited(1) || r == Aborted)
      && (r == Aborted ==>
            SelfArg in display && exists i :: 0 <= i < |lines| && From(lines[i]).Returned? && From(lines[i]).value.Err?)
  {
    var results := Map(From, lines);
    var report := PrintError(display, stack);
    forall i | 0 <= i < |lines| ensures results[i] == From(lines[i]) {
      MapAt(From, lines, i);
    }
    forall e: ParseConfigLineError ensures report(e) == if SelfArg in display then Aborted else Returned(()) {
      PrintEnds(display, e.count, stack);
    }
    GatherEnds(results, report);
  }

  /** With the intended `Display` every failure of the read exits with code 1. */
  lemma ParsedConfigFileExits(lines: seq<string>, stack: nat)
    ensures ParsedConfigFile(lines, ErrorDisplayIntended, stack).Returned?
         || ParsedConfigFile(lines, ErrorDisplayIntended, stack) == Exited(1)
  {
    IntendedText(0);
    ParsedConfigFileEnds(lines, ErrorDisplayIntended, stack);
  }

  /** A config read successfully has one entry per line, each the line's
      `CursorInfo`; conversely a non-empty config whose lines all parse is read. */
  lemma ParsedConfigFileItems(lines: seq<string>, display: seq<Piece>, stack: nat)
    ensures ParsedConfigFile(lines, display, stack).Returned? <==>
              lines != [] && forall i :: 0 <= i < |lines| ==> Parsed(From(lines[i]))
    ensures ParsedConfigFile(lines, display, stack).Returned? ==>
              forall i :: 0 <= i < |lines| ==> From(lines[i]) == Returned(Ok(ParsedConfigFile(lines, display, stack).value[i]))
  {
    var results := Map(From, lines);
    forall i | 0 <= i < |lines| ensures results[i] == From(lines[i]) {
      MapAt(From, lines, i);
    }
    GatherReturns(results, PrintError(display, stack));
  }
}
