/** The `config` module of src/lib.rs: a config line becomes a
    `CursorInformation` (a static cursor or one animation frame), and a whole
    config becomes a map from cursor size to either one static cursor or the
    list of frames of that size. A config is given as its lines, in order. */
module Config {
  import opened Outcomes
  import opened Lexing

  datatype CursorInformation = CursorInformation(
    isFrame: bool,
    size: u16,
    hotspot: (u16, u16),
    image: string,
    /** in jiffies for a frame, 0 for a static cursor */
    delay: u16)

  datatype ConfigLineParsingError = NoCursorSize | NoHotspotX | NoHotspotY | NoCursorImage

  datatype ConfigParsingError = OnLine(line: u8, error: ConfigLineParsingError) | ConfigEmpty

  datatype ConfigResult = Cursors(frames: seq<CursorInformation>) | Cursor(cursor: CursorInformation)

  type Groups = map<u16, ConfigResult>

  /** `JIFFY`, the `f32` nearest to 16.6666, is exactly JIFFY_SCALED / 2^19. */
  const JIFFY_SCALED: nat := 8738098
  const JIFFY_SCALE: nat := 0x8_0000

  /** `convert_to_jiffies`: milliseconds divided by `JIFFY`, truncated. */
  function ConvertToJiffies(ms: u16): (jiffies: u16)
    ensures jiffies <= ms
    ensures ms == 0 ==> jiffies == 0
  {
    assert ms * JIFFY_SCALE <= ms * JIFFY_SCALED;
    ms * JIFFY_SCALE / JIFFY_SCALED
  }

  /** The words `scan!` reads, split on `char::is_whitespace` */
  function Words(line: string): seq<string> {
    Split(line, IsWhitespace)
  }

  /** The five values `scan!(line, char::is_whitespace, u16, u16, u16, String, u16)`
      yields: word `i` if there is one, parsed to its type; a `String` always parses. */
  datatype Scanned = Scanned(
    size: Option<u16>,
    xhot: Option<u16>,
    yhot: Option<u16>,
    image: Option<string>,
    msDelay: Option<u16>)

  function Word(words: seq<string>, i: nat): Option<string> {
    if i < |words| then Some(words[i]) else None
  }

  function AndThenU16(word: Option<string>): Option<u16> {
    match word
    case None => None
    case Some(w) => ParseU16(w)
  }

  function Scan(words: seq<string>): (r: Scanned)
    ensures r.size.Some? <==> |words| > 0 && ParseU16(words[0]).Some?
    ensures r.xhot.Some? <==> |words| > 1 && ParseU16(words[1]).Some?
    ensures r.yhot.Some? <==> |words| > 2 && ParseU16(words[2]).Some?
    ensures r.image.Some? <==> |words| > 3
    ensures r.msDelay.Some? <==> |words| > 4 && ParseU16(words[4]).Some?
    ensures r.size.Some? ==> r.size == ParseU16(words[0])
    ensures r.xhot.Some? ==> r.xhot == ParseU16(words[1])
    ensures r.yhot.Some? ==> r.yhot == ParseU16(words[2])
    ensures r.image.Some? ==> r.image.value == words[3]
    ensures r.msDelay.Some? ==> r.msDelay == ParseU16(words[4])
  {
    Scanned(AndThenU16(Word(words, 0)), AndThenU16(Word(words, 1)), AndThenU16(Word(words, 2)),
            Word(words, 3), AndThenU16(Word(words, 4)))
  }

  /** `CursorInformation::parse`. The first three words must be `u16`s and a
      fourth word must exist; the first requirement that fails names the error.
      A fifth word that is a `u16` makes the line a frame, whose delay is stored
      in jiffies; otherwise the line is a static cursor with delay 0. */
  function Parse(line: string): (r: Result<CursorInformation, ConfigLineParsingError>)
    ensures r.Ok? ==> |Words(line)| >= 4 && r.value.image == Words(line)[3]
    ensures r.Ok? ==> SepFree(r.value.image, IsWhitespace)
    ensures r.Ok? && !r.value.isFrame ==> r.value.delay == 0
  {
    ParseWords(Words(line))
  }

  function ParseWords(words: seq<string>): Result<CursorInformation, ConfigLineParsingError> {
    var scanned := Scan(words);
    if scanned.size.None? then Err(NoCursorSize)
    else if scanned.xhot.None? then Err(NoHotspotX)
    else if scanned.yhot.None? then Err(NoHotspotY)
    else if scanned.image.None? then Err(NoCursorImage)
    else
      var hotspot := (scanned.xhot.value, scanned.yhot.value);
      if scanned.msDelay.None? then
        Ok(CursorInformation(false, scanned.size.value, hotspot, scanned.image.value, 0))
      else
        Ok(CursorInformation(true, scanned.size.value, hotspot, scanned.image.value,
                             ConvertToJiffies(scanned.msDelay.value)))
  }

  /** What `Parse` checks, in terms of the words of the line. */
  lemma ParseSpec(line: string)
    ensures var w, r := Words(line), Parse(line);
      && (r == Err(NoCursorSize) <==> ParseU16(w[0]).None?)
      && (r == Err(NoHotspotX) <==> ParseU16(w[0]).Some? && (|w| < 2 || ParseU16(w[1]).None?))
      && (r == Err(NoHotspotY) <==>
            ParseU16(w[0]).Some? && |w| >= 2 && ParseU16(w[1]).Some? && (|w| < 3 || ParseU16(w[2]).None?))
      && (r == Err(NoCursorImage) <==>
            |w| == 3 && ParseU16(w[0]).Some? && ParseU16(w[1]).Some? && ParseU16(w[2]).Some?)
    ensures var w, r := Words(line), Parse(line);
      r.Ok? ==>
        && |w| >= 4
        && Some(r.value.size) == ParseU16(w[0])
        && Some(r.value.hotspot.0) == ParseU16(w[1])
        && Some(r.value.hotspot.1) == ParseU16(w[2])
        && r.value.image == w[3]
        && (r.value.isFrame <==> |w| >= 5 && ParseU16(w[4]).Some?)
        && (!r.value.isFrame ==> r.value.delay == 0)
        && (r.value.isFrame ==> r.value.delay == ConvertToJiffies(ParseU16(w[4]).value) <= ParseU16(w[4]).value)
  {
  }

  /** A config line written the way the format describes it:
      `<size> <xhot> <yhot> <image> [<delay ms>]`. */
  function Render(size: u16, xhot: u16, yhot: u16, image: string, msDelay: Option<u16>): string {
    Join(RenderWords(size, xhot, yhot, image, msDelay))
  }

  function RenderWords(size: u16, xhot: u16, yhot: u16, image: string, msDelay: Option<u16>): seq<string> {
    [Decimal(size), Decimal(xhot), Decimal(yhot), image]
    + (if msDelay.Some? then [Decimal(msDelay.value)] else [])
  }

  /** Parsing reads back every well-formed line: the numbers, the image name
      verbatim, and frame-ness from the presence of the delay, which comes back
      converted to jiffies. */
  lemma ParseRender(size: u16, xhot: u16, yhot: u16, image: string, msDelay: Option<u16>)
    requires SepFree(image, IsWhitespace)
    ensures Parse(Render(size, xhot, yhot, image, msDelay))
         == Ok(CursorInformation(msDelay.Some?, size, (xhot, yhot), image,
                                 if msDelay.Some? then ConvertToJiffies(msDelay.value) else 0))
  {
    WordsOfRender(size, xhot, yhot, image, msDelay);
    ParseRenderWords(size, xhot, yhot, image, msDelay);
  }

  lemma WordsOfRender(size: u16, xhot: u16, yhot: u16, image: string, msDelay: Option<u16>)
    requires SepFree(image, IsWhitespace)
    ensures Words(Render(size, xhot, yhot, image, msDelay)) == RenderWords(size, xhot, yhot, image, msDelay)
  {
    var pieces := RenderWords(size, xhot, yhot, image, msDelay);
    forall i | 0 <= i < |pieces| ensures SepFree(pieces[i], IsWhitespace) {
      if i != 3 {
        DigitsAreNotSeparators(pieces[i]);
      }
    }
    SplitJoin(pieces, IsWhitespace);
  }

  lemma ParseRenderWords(size: u16, xhot: u16, yhot: u16, image: string, msDelay: Option<u16>)
    ensures ParseWords(RenderWords(size, xhot, yhot, image, msDelay))
         == Ok(CursorInformation(msDelay.Some?, size, (xhot, yhot), image,
                                 if msDelay.Some? then ConvertToJiffies(msDelay.value) else 0))
  {
    ParseDecimal(size, U16_MAX);
    ParseDecimal(xhot, U16_MAX);
    ParseDecimal(yhot, U16_MAX);
    if msDelay.Some? {
      ParseDecimal(msDelay.value, U16_MAX);
    }
  }

  /** Leading whitespace makes the first word empty, and an empty word is not a size. */
  lemma ParseLeadingWhitespace(line: string)
    requires line != [] && IsWhitespace(line[0])
    ensures Parse(line) == Err(NoCursorSize)
  {
    assert Words(line)[0] == [];
  }

  /** Words after the fifth are never looked at. */
  lemma ParseIgnoresExtraWords(line: string, c: char, rest: string)
    requires |Words(line)| >= 5 && IsWhitespace(c)
    ensures Parse(line + [c] + rest) == Parse(line)
  {
    SplitConcat(line, c, rest, IsWhitespace);
    var w, w' := Words(line), Words(line + [c] + rest);
    assert forall i :: 0 <= i < 5 ==> w'[i] == w[i];
  }

  /** A fifth word that is not a `u16` is taken for "no delay": the line is static. */
  lemma ParseBadDelayIsStatic(size: u16, xhot: u16, yhot: u16, image: string, delay: string)
    requires SepFree(image, IsWhitespace) && SepFree(delay, IsWhitespace)
    requires ParseU16(delay).None?
    ensures Parse(Join([Decimal(size), Decimal(xhot), Decimal(yhot), image, delay]))
         == Ok(CursorInformation(false, size, (xhot, yhot), image, 0))
  {
    var pieces := [Decimal(size), Decimal(xhot), Decimal(yhot), image, delay];
    forall i | 0 <= i < 3 ensures SepFree(pieces[i], IsWhitespace) {
      DigitsAreNotSeparators(pieces[i]);
    }
    SplitJoin(pieces, IsWhitespace);
    ParseDecimal(size, U16_MAX);
    ParseDecimal(xhot, U16_MAX);
    ParseDecimal(yhot, U16_MAX);
  }

  /** A four-word line is a static cursor. This example and the ones below
      take the line as a parameter fixed by `requires` rather than as a
      literal inside `ensures`, so that where a lemma is used the literal is
      not unfolded through the splitting functions. */
  lemma ParseStaticExample(line: string)
    requires line == "32 1 2 img.png"
    ensures Parse(line) == Ok(CursorInformation(false, 32, (1, 2), "img.png", 0))
  {
    RenderStaticExample(line);
    ParseRender(32, 1, 2, "img.png", None);
  }

  /** A fifth word makes a frame; 100 ms is 6 jiffies of 16.6666 ms, truncated. */
  lemma ParseFrameExample(line: string)
    requires line == "32 1 2 img.png 100"
    ensures Parse(line) == Ok(CursorInformation(true, 32, (1, 2), "img.png", 6))
  {
    RenderFrameExample(line);
    ParseRender(32, 1, 2, "img.png", Some(100));
    JiffiesExamples();
  }

  /** 100 ms is 6 jiffies of 16.6666 ms, truncated, and 0 ms is none. */
  lemma JiffiesExamples()
    ensures ConvertToJiffies(100) == 6 && ConvertToJiffies(0) == 0
  {
  }

  lemma RenderStaticExample(line: string)
    requires line == "32 1 2 img.png"
    ensures line == Render(32, 1, 2, "img.png", None)
  {
    DecimalExamples();
    JoinFour("32", "1", "2", "img.png");
    assert RenderWords(32, 1, 2, "img.png", None) == ["32", "1", "2", "img.png"];
  }

  lemma RenderFrameExample(line: string)
    requires line == "32 1 2 img.png 100"
    ensures line == Render(32, 1, 2, "img.png", Some(100))
  {
    DecimalExamples();
    var four := ["32", "1", "2", "img.png"];
    JoinFour("32", "1", "2", "img.png");
    JoinAppend(four, "100");
    assert RenderWords(32, 1, 2, "img.png", Some(100)) == four + ["100"];
  }

  /** Three numbers without an image name */
  lemma ParseMissingImageExample(line: string)
    requires line == "32 1 2"
    ensures Parse(line) == Err(NoCursorImage)
  {
    MissingImageWords(line);
    DecimalExamples();
    ParseDecimal(32, U16_MAX);
    ParseDecimal(1, U16_MAX);
    ParseDecimal(2, U16_MAX);
  }

  lemma MissingImageWords(line: string)
    requires line == "32 1 2"
    ensures Words(line) == ["32", "1", "2"]
  {
    var pieces := ["32", "1", "2"];
    forall i | 0 <= i < 3 ensures SepFree(pieces[i], IsWhitespace) {
      assert AllDigits(pieces[i]);
      DigitsAreNotSeparators(pieces[i]);
    }
    SplitJoin(pieces, IsWhitespace);
    assert line == Join(pieces);
  }

  /** One pass of the loop body of `parse_config` for a parsed record: the new
      map, and whether the record was pushed onto a frame list (the `continue`
      that skips the line counter). A frame whose size holds a static cursor
      matches neither push nor the static insert: it is dropped. */
  function Insert(groups: Groups, ci: CursorInformation): (r: (Groups, bool))
    ensures forall size :: size != ci.size ==> Lookup(r.0, size) == Lookup(groups, size)
    ensures r.1 <==> ci.isFrame && !(ci.size in groups && groups[ci.size].Cursor?)
    ensures ci.isFrame && ci.size !in groups ==> Lookup(r.0, ci.size) == Some(Cursors([ci]))
    ensures ci.isFrame && ci.size in groups && groups[ci.size].Cursors? ==>
              Lookup(r.0, ci.size) == Some(Cursors(groups[ci.size].frames + [ci]))
    ensures ci.isFrame && ci.size in groups && groups[ci.size].Cursor? ==> r.0 == groups
    ensures !ci.isFrame ==> Lookup(r.0, ci.size) == Some(Cursor(ci))
  {
    if ci.size !in groups && ci.isFrame then
      (groups[ci.size := Cursors([ci])], true)
    else if ci.size in groups && ci.isFrame && groups[ci.size].Cursors? then
      (groups[ci.size := Cursors(groups[ci.size].frames + [ci])], true)
    else if !ci.isFrame then
      (groups[ci.size := Cursor(ci)], false)
    else
      (groups, false)
  }

  function Lookup(groups: Groups, size: u16): Option<ConfigResult> {
    if size in groups then Some(groups[size]) else None
  }

  /** The map after feeding `recs` through `Insert` in order, from an empty map */
  function Aggregate(recs: seq<CursorInformation>): Groups {
    if recs == [] then map[] else Insert(Aggregate(recs[..|recs| - 1]), recs[|recs| - 1]).0
  }

  /** The last static cursor of the given size, if any */
  function LastStatic(recs: seq<CursorInformation>, size: u16): (r: Option<CursorInformation>)
    ensures r.Some? ==> !r.value.isFrame && r.value.size == size
  {
    if recs == [] then None
    else
      var ci := recs[|recs| - 1];
      if !ci.isFrame && ci.size == size then Some(ci) else LastStatic(recs[..|recs| - 1], size)
  }

  /** All frames of the given size, in order */
  function FramesOf(recs: seq<CursorInformation>, size: u16): (r: seq<CursorInformation>)
    ensures forall i :: 0 <= i < |r| ==> r[i].isFrame && r[i].size == size
  {
    if recs == [] then []
    else
      var ci := recs[|recs| - 1];
      FramesOf(recs[..|recs| - 1], size) + (if ci.isFrame && ci.size == size then [ci] else [])
  }

  /** What a config's map holds for `size`, read off the record list directly:
      the last static cursor of that size if there is one (a static overwrites
      the frames before it and blocks the frames after it); otherwise all
      frames of that size in file order; otherwise nothing. */
  function Expected(recs: seq<CursorInformation>, size: u16): Option<ConfigResult> {
    match LastStatic(recs, size)
    case Some(c) => Some(Cursor(c))
    case None =>
      var frames := FramesOf(recs, size);
      if frames == [] then None else Some(Cursors(frames))
  }

  lemma {:induction false} AggregateIsExpected(recs: seq<CursorInformation>)
    ensures forall size :: Lookup(Aggregate(recs), size) == Expected(recs, size)
  {
    if recs != [] {
      var prefix, ci := recs[..|recs| - 1], recs[|recs| - 1];
      AggregateIsExpected(prefix);
      var before := Aggregate(prefix);
      assert Aggregate(recs) == Insert(before, ci).0;
      forall size ensures Lookup(Aggregate(recs), size) == Expected(recs, size) {
        assert Lookup(before, size) == Expected(prefix, size);
        if size != ci.size {
          assert LastStatic(recs, size) == LastStatic(prefix, size);
          assert FramesOf(recs, size) == FramesOf(prefix, size);
          assert Expected(recs, size) == Expected(prefix, size);
          assert Lookup(Aggregate(recs), size) == Lookup(before, size);
        } else if !ci.isFrame {
          assert LastStatic(recs, size) == Some(ci);
          assert Expected(recs, size) == Some(Cursor(ci));
          assert Lookup(Aggregate(recs), size) == Some(Cursor(ci));
        } else {
          assert LastStatic(recs, size) == LastStatic(prefix, size);
          assert FramesOf(recs, size) == FramesOf(prefix, size) + [ci];
          if LastStatic(prefix, size).Some? {
            assert Aggregate(recs) == before;
          } else if FramesOf(prefix, size) == [] {
            assert size !in before;
            assert Lookup(Aggregate(recs), size) == Some(Cursors([ci]));
            assert FramesOf(recs, size) == [ci];
          } else {
            assert before[size] == Cursors(FramesOf(prefix, size));
            assert Lookup(Aggregate(recs), size) == Some(Cursors(FramesOf(prefix, size) + [ci]));
          }
        }
      }
    }
  }

  /** Every entry of a config's map is well formed: a static cursor of that
      size, or a non-empty list of frames of that size. */
  lemma ExpectedShape(recs: seq<CursorInformation>, size: u16)
    ensures match Expected(recs, size)
      case None => true
      case Some(Cursor(c)) => !c.isFrame && c.size == size
      case Some(Cursors(frames)) =>
        |frames| >= 1 && forall i :: 0 <= i < |frames| ==> frames[i].isFrame && frames[i].size == size
  {
  }

  /** Whether a record following `recs` is pushed onto a frame list */
  predicate Appends(recs: seq<CursorInformation>, ci: CursorInformation) {
    ci.isFrame && LastStatic(recs, ci.size).None?
  }

  lemma InsertAppends(recs: seq<CursorInformation>, ci: CursorInformation)
    ensures Insert(Aggregate(recs), ci).1 == Appends(recs, ci)
  {
    AggregateIsExpected(recs);
    assert Lookup(Aggregate(recs), ci.size) == Expected(recs, ci.size);
  }

  /** How many records were not pushed onto a frame list: the lines counted
      by `line_number` */
  function Counted(recs: seq<CursorInformation>): (n: nat)
    ensures n <= |recs|
  {
    if recs == [] then 0
    else Counted(recs[..|recs| - 1]) + (if Appends(recs[..|recs| - 1], recs[|recs| - 1]) then 0 else 1)
  }

  /** Static records always advance the counter. */
  lemma {:induction false} CountedStatics(recs: seq<CursorInformation>)
    requires forall i :: 0 <= i < |recs| ==> !recs[i].isFrame
    ensures Counted(recs) == |recs|
  {
    if recs != [] {
      CountedStatics(recs[..|recs| - 1]);
    }
  }

  type Parsed = Result<CursorInformation, ConfigLineParsingError>

  /** The parse result of every line, in order */
  function ParseAll(lines: seq<string>): (parsed: seq<Parsed>)
    ensures |parsed| == |lines|
  {
    seq(|lines|, i requires 0 <= i < |lines| => Parse(lines[i]))
  }

  predicate AllOk(parsed: seq<Parsed>) {
    forall i :: 0 <= i < |parsed| ==> parsed[i].Ok?
  }

  function Values(parsed: seq<Parsed>): (recs: seq<CursorInformation>)
    requires AllOk(parsed)
    ensures |recs| == |parsed| && forall i :: 0 <= i < |parsed| ==> Ok(recs[i]) == parsed[i]
  {
    seq(|parsed|, i requires 0 <= i < |parsed| && AllOk(parsed) => parsed[i].value)
  }

  /** The state of the `parse_config` loop between lines */
  datatype Progress = Progress(groups: Groups, lineNumber: u8)

  /** One iteration of the `parse_config` loop, given the line's parse result.
      `line_number += 1` on a `u8` panics on overflow, as it does with Rust's
      overflow checks. */
  function Advance(p: Progress, parsed: Parsed): (r: Run<Result<Progress, ConfigParsingError>>)
    ensures !r.Exited? && !r.Aborted?
    ensures r.Returned? && r.value.Err? <==> parsed.Err?
    ensures r.Returned? && r.value.Err? ==> r.value.error == OnLine(p.lineNumber, parsed.error)
    ensures r == Panicked ==> p.lineNumber == U8_MAX
    ensures Running(r) ==> r.value.value.lineNumber - p.lineNumber in {0, 1}
  {
    match parsed
    case Err(e) => Returned(Err(OnLine(p.lineNumber, e)))
    case Ok(ci) =>
      var (groups, appended) := Insert(p.groups, ci);
      if appended then Returned(Ok(Progress(groups, p.lineNumber)))
      else if p.lineNumber == U8_MAX then Panicked
      else Returned(Ok(Progress(groups, p.lineNumber + 1)))
  }

  /** The `parse_config` loop run over the parse results of the lines, stopping
      at the first line that does not leave it running */
  function Feed(parsed: seq<Parsed>): (r: Run<Result<Progress, ConfigParsingError>>)
    ensures !r.Exited? && !r.Aborted?
    ensures r.Returned? && r.value.Err? ==> r.value.error.OnLine?
  {
    if parsed == [] then Returned(Ok(Progress(map[], 1)))
    else
      var before := Feed(parsed[..|parsed| - 1]);
      if before.Returned? && before.value.Ok? then Advance(before.value.value, parsed[|parsed| - 1])
      else before
  }

  predicate Running(r: Run<Result<Progress, ConfigParsingError>>) {
    r.Returned? && r.value.Ok?
  }

  /** What `parse_config` returns, given the parse results of the config's
      lines in order (an empty file has no lines) */
  function Conclude(parsed: seq<Parsed>): Run<Result<Groups, ConfigParsingError>> {
    if parsed == [] then Returned(Err(ConfigEmpty))
    else
      match Feed(parsed)
      case Returned(Ok(p)) => Returned(Ok(p.groups))
      case Returned(Err(e)) => Returned(Err(e))
      case Exited(code) => Exited(code)
      case Panicked => Panicked
      case Aborted => Aborted
  }

  /** What `parse_config` returns for a config with the given lines */
  function ParsedConfig(lines: seq<string>): (r: Run<Result<Groups, ConfigParsingError>>)
    ensures !r.Exited? && !r.Aborted?
    ensures r.Returned? && r.value.Ok? ==> lines != []
  {
    Conclude(ParseAll(lines))
  }

  /** `parse_config` after the file is opened. */
  method ParseConfig(lines: seq<string>) returns (r: Run<Result<Groups, ConfigParsingError>>)
    ensures r == ParsedConfig(lines)
  {
    if lines == [] {
      return Returned(Err(ConfigEmpty));
    }
    ghost var parsed := ParseAll(lines);
    var result: Groups := map[];
    var lineNumber: u8 := 1;
    for i := 0 to |lines|
      invariant Feed(parsed[..i]) == Returned(Ok(Progress(result, lineNumber)))
    {
      FeedStep(parsed, i);
      ghost var before := Progress(result, lineNumber);
      var res := Parse(lines[i]);
      assert parsed[i] == res;
      match res {
        case Err(error) =>
          assert Feed(parsed[..i + 1]) == Returned(Err(OnLine(lineNumber, error)));
          FeedStops(parsed, i + 1);
          assert parsed[..|lines|] == parsed;
          return Returned(Err(OnLine(lineNumber, error)));
        case Ok(ci) =>
          var appended;
          result, appended := InsertRecord(result, ci);
          if appended {
            continue;
          }
      }
      if lineNumber == U8_MAX {
        assert Feed(parsed[..i + 1]) == Panicked;
        FeedStops(parsed, i + 1);
        assert parsed[..|lines|] == parsed;
        return Panicked;
      }
      lineNumber := lineNumber + 1;
    }
    assert parsed[..|lines|] == parsed;
    return Returned(Ok(result));
  }

  /** The body of the `match` on a parsed record in `parse_config`: push a
      frame onto its size's list (creating the list), or store a static
      cursor. `appended` is true on the paths that end in `continue`. */
  method InsertRecord(groups: Groups, ci: CursorInformation) returns (result: Groups, appended: bool)
    ensures (result, appended) == Insert(groups, ci)
  {
    result := groups;
    if ci.size !in result && ci.isFrame {
      result := result[ci.size := Cursors([])];
      result := result[ci.size := Cursors(result[ci.size].frames + [ci])];
      assert [] + [ci] == [ci];
      assert result == groups[ci.size := Cursors([ci])];
      return result, true;
    } else if ci.size in result && ci.isFrame {
      if result[ci.size].Cursors? {
        result := result[ci.size := Cursors(result[ci.size].frames + [ci])];
        return result, true;
      }
    }
    if !ci.isFrame {
      result := result[ci.size := Cursor(ci)];
    }
    return result, false;
  }

  /** One more line runs one more `Advance` while the loop is running. */
  lemma FeedStep(parsed: seq<Parsed>, i: nat)
    requires i < |parsed|
    ensures Running(Feed(parsed[..i])) ==> Feed(parsed[..i + 1]) == Advance(Feed(parsed[..i]).value.value, parsed[i])
  {
    assert parsed[..i + 1][..i] == parsed[..i];
  }

  /** Once the loop has stopped, later lines change nothing. */
  lemma {:induction false} FeedStops(parsed: seq<Parsed>, k: nat)
    requires k <= |parsed| && !Running(Feed(parsed[..k]))
    ensures Feed(parsed) == Feed(parsed[..k])
    decreases |parsed|
  {
    if k < |parsed| {
      var prefix := parsed[..|parsed| - 1];
      assert prefix[..k] == parsed[..k];
      FeedStops(prefix, k);
    } else {
      assert parsed[..k] == parsed;
    }
  }

  /** The loop gets through all lines exactly when each parses and the counter
      never has to pass 255; it then holds the aggregate of the records and
      1 + the number of records that were not pushed onto a frame list. */
  lemma FeedOk(parsed: seq<Parsed>)
    ensures Running(Feed(parsed)) <==> AllOk(parsed) && Counted(Values(parsed)) < 255
    ensures AllOk(parsed) && Counted(Values(parsed)) < 255 ==>
              Feed(parsed) == Returned(Ok(Progress(Aggregate(Values(parsed)), 1 + Counted(Values(parsed)))))
  {
    FeedRuns(parsed);
    FeedRunsOnlyIfOk(parsed);
  }

  lemma {:induction false} FeedRuns(parsed: seq<Parsed>)
    ensures AllOk(parsed) && Counted(Values(parsed)) < 255 ==>
              Feed(parsed) == Returned(Ok(Progress(Aggregate(Values(parsed)), 1 + Counted(Values(parsed)))))
  {
    if parsed != [] && AllOk(parsed) && Counted(Values(parsed)) < 255 {
      ValuesStep(parsed);
      FeedRuns(parsed[..|parsed| - 1]);
    }
  }

  lemma {:induction false} FeedRunsOnlyIfOk(parsed: seq<Parsed>)
    ensures Running(Feed(parsed)) ==> AllOk(parsed) && Counted(Values(parsed)) < 255
  {
    if parsed != [] && Running(Feed(parsed)) {
      var prefix := parsed[..|parsed| - 1];
      assert Running(Feed(prefix));
      FeedRunsOnlyIfOk(prefix);
      FeedRuns(prefix);
      assert AllOk(parsed) by {
        assert forall i :: 0 <= i < |prefix| ==> prefix[i] == parsed[i];
      }
      ValuesStep(parsed);
    }
  }

  /** The records of one more parsed line: how the counter and the map move */
  lemma ValuesStep(parsed: seq<Parsed>)
    requires parsed != [] && AllOk(parsed)
    ensures var before, ci := Values(parsed[..|parsed| - 1]), parsed[|parsed| - 1].value;
      && Counted(Values(parsed)) == Counted(before) + (if Appends(before, ci) then 0 else 1)
      && Aggregate(Values(parsed)) == Insert(Aggregate(before), ci).0
      && Insert(Aggregate(before), ci).1 == Appends(before, ci)
  {
    var recs := Values(parsed);
    var before, ci := Values(parsed[..|parsed| - 1]), parsed[|parsed| - 1].value;
    assert before == recs[..|recs| - 1];
    InsertAppends(before, ci);
  }

  /** A run that stops with an error stopped at a line that does not parse,
      after lines that all did; the line number it reports is 1 + the number of
      earlier lines that were not pushed onto a frame list. */
  lemma {:induction false} FeedError(parsed: seq<Parsed>, n: u8, e: ConfigLineParsingError) returns (k: nat)
    requires Feed(parsed) == Returned(Err(OnLine(n, e)))
    ensures k < |parsed| && AllOk(parsed[..k]) && Counted(Values(parsed[..k])) < 255
    ensures parsed[k] == Err(e) && n == 1 + Counted(Values(parsed[..k]))
  {
    var prefix := parsed[..|parsed| - 1];
    if Running(Feed(prefix)) {
      k := |parsed| - 1;
      assert parsed[..k] == prefix;
      FeedOk(prefix);
    } else {
      k := FeedError(prefix, n, e);
      assert prefix[..k] == parsed[..k] && prefix[k] == parsed[k];
    }
  }

  /** The counter only ever moves up by one per line. */
  lemma {:induction false} FeedLineNumber(parsed: seq<Parsed>)
    ensures Running(Feed(parsed)) ==> Feed(parsed).value.value.lineNumber <= 1 + |parsed|
    ensures Feed(parsed).Panicked? ==> |parsed| >= 255
  {
    if parsed != [] {
      FeedLineNumber(parsed[..|parsed| - 1]);
    }
  }

  /** An empty config is reported as such, and only an empty one. */
  lemma ParsedConfigEmpty(lines: seq<string>)
    ensures ParsedConfig(lines) == Returned(Err(ConfigEmpty)) <==> lines == []
  {
    var parsed := ParseAll(lines);
    assert parsed != [] ==> Feed(parsed).Panicked? || Feed(parsed).value.Ok? || Feed(parsed).value.error.OnLine?;
  }

  /** A successful parse holds, for each size, exactly what `Expected` reads
      off the records of the lines. */
  lemma ParsedConfigGroups(lines: seq<string>, groups: Groups)
    requires ParsedConfig(lines) == Returned(Ok(groups))
    ensures AllOk(ParseAll(lines)) && Counted(Values(ParseAll(lines))) < 255
    ensures forall size :: Lookup(groups, size) == Expected(Values(ParseAll(lines)), size)
  {
    ConcludeGroups(ParseAll(lines), groups);
  }

  lemma ConcludeGroups(parsed: seq<Parsed>, groups: Groups)
    requires Conclude(parsed) == Returned(Ok(groups))
    ensures AllOk(parsed) && Counted(Values(parsed)) < 255
    ensures forall size :: Lookup(groups, size) == Expected(Values(parsed), size)
  {
    FeedOk(parsed);
    AggregateIsExpected(Values(parsed));
  }

  /** Conversely, a non-empty config whose lines all parse, and which does not
      overflow the counter, is parsed into the aggregate of its records. */
  lemma ParsedConfigSucceeds(lines: seq<string>)
    requires lines != [] && AllOk(ParseAll(lines)) && Counted(Values(ParseAll(lines))) < 255
    ensures ParsedConfig(lines) == Returned(Ok(Aggregate(Values(ParseAll(lines)))))
  {
    ConcludeSucceeds(ParseAll(lines));
  }

  lemma ConcludeSucceeds(parsed: seq<Parsed>)
    requires parsed != [] && AllOk(parsed) && Counted(Values(parsed)) < 255
    ensures Conclude(parsed) == Returned(Ok(Aggregate(Values(parsed))))
  {
    FeedOk(parsed);
  }

  /** The first line that does not parse aborts the run, reported with the
      counter's value at that line, provided the counter has not overflowed. */
  lemma FirstBadLine(lines: seq<string>, k: nat)
    requires k < |lines| && AllOk(ParseAll(lines[..k])) && Counted(Values(ParseAll(lines[..k]))) < 255
    requires Parse(lines[k]).Err?
    ensures ParsedConfig(lines) == Returned(Err(OnLine(1 + Counted(Values(ParseAll(lines[..k]))), Parse(lines[k]).error)))
  {
    assert ParseAll(lines[..k]) == ParseAll(lines)[..k];
    ConcludeFirstError(ParseAll(lines), k);
  }

  lemma ConcludeFirstError(parsed: seq<Parsed>, k: nat)
    requires k < |parsed| && AllOk(parsed[..k]) && Counted(Values(parsed[..k])) < 255 && parsed[k].Err?
    ensures Conclude(parsed) == Returned(Err(OnLine(1 + Counted(Values(parsed[..k])), parsed[k].error)))
  {
    var n := 1 + Counted(Values(parsed[..k]));
    FeedOk(parsed[..k]);
    assert parsed[..k + 1][..k] == parsed[..k];
    var e := parsed[k].error;
    var p := Progress(Aggregate(Values(parsed[..k])), n);
    assert Feed(parsed[..k]) == Returned(Ok(p));
    assert parsed[..k + 1][k] == Err(e);
    assert Feed(parsed[..k + 1]) == Advance(p, Err(e));
    FeedStops(parsed, k + 1);
  }

  /** An error run names a line that does not parse, after lines that all did. */
  lemma ParsedConfigError(lines: seq<string>, n: u8, e: ConfigLineParsingError) returns (k: nat)
    requires ParsedConfig(lines) == Returned(Err(OnLine(n, e)))
    ensures k < |lines| && AllOk(ParseAll(lines[..k])) && Counted(Values(ParseAll(lines[..k]))) < 255
    ensures Parse(lines[k]) == Err(e) && n == 1 + Counted(Values(ParseAll(lines[..k])))
  {
    k := ConcludeError(ParseAll(lines), n, e);
    assert ParseAll(lines[..k]) == ParseAll(lines)[..k];
  }

  lemma ConcludeError(parsed: seq<Parsed>, n: u8, e: ConfigLineParsingError) returns (k: nat)
    requires Conclude(parsed) == Returned(Err(OnLine(n, e)))
    ensures k < |parsed| && AllOk(parsed[..k]) && Counted(Values(parsed[..k])) < 255
    ensures parsed[k] == Err(e) && n == 1 + Counted(Values(parsed[..k]))
  {
    k := FeedError(parsed, n, e);
  }

  /** Once 255 parsed lines have advanced the `u8` counter, the increment after
      the last of them overflows. */
  lemma OverflowPanics(lines: seq<string>, k: nat)
    requires 1 <= k <= |lines| && AllOk(ParseAll(lines[..k])) && Counted(Values(ParseAll(lines[..k]))) >= 255
    ensures ParsedConfig(lines) == Panicked
  {
    assert ParseAll(lines[..k]) == ParseAll(lines)[..k];
    ConcludeOverflow(ParseAll(lines), k);
  }

  lemma ConcludeOverflow(parsed: seq<Parsed>, k: nat)
    requires 1 <= k <= |parsed| && AllOk(parsed[..k]) && Counted(Values(parsed[..k])) >= 255
    ensures Conclude(parsed) == Panicked
  {
    FeedOk(parsed[..k]);
    if Feed(parsed[..k]).Returned? {
      var e := Feed(parsed[..k]).value.error;
      var j := FeedError(parsed[..k], e.line, e.error);
    }
    FeedStops(parsed, k);
  }

  /** Fewer than 255 lines can never overflow the counter. */
  lemma ShortConfigNeverPanics(lines: seq<string>)
    requires |lines| < 255
    ensures ParsedConfig(lines) != Panicked
  {
    FeedLineNumber(ParseAll(lines));
  }

  /** 255 static lines are enough to overflow the counter. */
  lemma LongStaticConfigPanics(line: string)
    requires Parse(line).Ok? && !Parse(line).value.isFrame
    ensures ParsedConfig(seq(255, _ => line)) == Panicked
  {
    var lines := seq(255, _ => line);
    var parsed := ParseAll(lines);
    assert AllOk(parsed);
    CountedStatics(Values(parsed));
    assert lines[..255] == lines;
    OverflowPanics(lines, 255);
  }

  /** Frames of one size are collected in file order. */
  lemma AggregateFrames(f1: CursorInformation, f2: CursorInformation)
    requires f1.isFrame && f2.isFrame && f1.size == f2.size
    ensures Lookup(Aggregate([f1, f2]), f1.size) == Some(Cursors([f1, f2]))
    ensures Counted([f1, f2]) == 0
  {
    assert [f1, f2][..1] == [f1] && [f1][..0] == [];
    var one := Aggregate([f1]);
    assert one == Insert(Aggregate([]), f1).0;
    assert one == map[f1.size := Cursors([f1])];
    assert Aggregate([f1, f2]) == Insert(one, f2).0;
    assert [f1] + [f2] == [f1, f2];
    assert Appends([], f1) && Appends([f1], f2);
  }

  /** A static cursor replaces the frames of its size before it. */
  lemma AggregateStaticOverwrites(f1: CursorInformation, f2: CursorInformation, s: CursorInformation)
    requires f1.isFrame && f2.isFrame && !s.isFrame && f1.size == f2.size == s.size
    ensures Lookup(Aggregate([f1, f2, s]), s.size) == Some(Cursor(s))
    ensures Counted([f1, f2, s]) == 1
  {
    assert [f1, f2, s][..2] == [f1, f2];
    AggregateFrames(f1, f2);
    assert Aggregate([f1, f2, s]) == Insert(Aggregate([f1, f2]), s).0;
    assert !Appends([f1, f2], s);
  }

  /** A frame after a static cursor of its size is dropped, and counted. */
  lemma AggregateFrameAfterStatic(s: CursorInformation, f: CursorInformation)
    requires f.isFrame && !s.isFrame && f.size == s.size
    ensures Aggregate([s, f]) == map[s.size := Cursor(s)]
    ensures Counted([s, f]) == 2
  {
    assert [s, f][..1] == [s] && [s][..0] == [];
    var one := Aggregate([s]);
    assert one == Insert(Aggregate([]), s).0;
    assert one == map[s.size := Cursor(s)];
    assert Aggregate([s, f]) == Insert(one, f).0;
    assert LastStatic([s], f.size) == Some(s);
    assert !Appends([], s) && !Appends([s], f);
  }
}
