/** `eprintln!("{}", e)` for the line errors of src/processing.rs and
    src/cursor_config_parsing.rs. Their `Display` impls are a single `write!`
    whose format string is modelled as a list of pieces: literal text, the
    error's count, or `{}` of `self`, which runs the same `Display` again one
    stack frame deeper. */
module Formatting {
  import opened Outcomes
  import opened Lexing

  datatype Piece = Lit(text: string) | Count | SelfArg

  const LinePrefix := "Error while parsing config's line: "
  const CountMessage := "Invalid count of config line arguments, must be 4, got "

  /** `Display for ParseConfigLineError` as written: a prefix, then `self` */
  const ErrorDisplay: seq<Piece> := [Lit(LinePrefix), SelfArg]

  /** The message the impl evidently means: the prefix, then the text of the
      one variant with its count */
  const ErrorDisplayIntended: seq<Piece> :=
    [Lit(LinePrefix), Lit(CountMessage), Count, Lit(".")]

  /** The text `pieces` writes, where `display` is the whole impl (what `{}` of
      `self` runs again) and `depth` the stack frames left; `None` when the
      stack runs out before the text is complete. */
  function Write(display: seq<Piece>, pieces: seq<Piece>, count: nat, depth: nat): Option<string>
    decreases depth, |pieces|
  {
    if pieces == [] then Some([])
    else
      var first := match pieces[0]
        case Lit(text) => Some(text)
        case Count => Some(Decimal(count))
        case SelfArg => if depth == 0 then None else Write(display, display, count, depth - 1);
      match first
      case None => None
      case Some(text) =>
        match Write(display, pieces[1..], count, depth)
        case None => None
        case Some(rest) => Some(text + rest)
  }

  /** `format!("{}", e)` with `stack` frames to spend */
  function Format(display: seq<Piece>, count: nat, stack: nat): Option<string> {
    Write(display, display, count, stack)
  }

  /** The text of pieces that do not format `self` */
  function Text(pieces: seq<Piece>, count: nat): string
    requires SelfArg !in pieces
  {
    if pieces == [] then []
    else
      var first := match pieces[0]
        case Lit(text) => text
        case Count => Decimal(count)
        case SelfArg => [];
      first + Text(pieces[1..], count)
  }

  /** `eprintln!("{}", e)`: it returns once the message is written, and the
      runtime aborts the process when formatting overflows the stack. */
  function Print(display: seq<Piece>, count: nat, stack: nat): Run<()> {
    match Format(display, count, stack)
    case None => Aborted
    case Some(_) => Returned(())
  }

  lemma {:induction false} WriteRunsOut(display: seq<Piece>, pieces: seq<Piece>, count: nat, depth: nat)
    requires SelfArg in display && SelfArg in pieces
    ensures Write(display, pieces, count, depth) == None
    decreases depth, |pieces|
  {
    if pieces[0] == SelfArg {
      if depth > 0 {
        WriteRunsOut(display, display, count, depth - 1);
      }
    } else {
      assert SelfArg in pieces[1..];
      WriteRunsOut(display, pieces[1..], count, depth);
    }
  }

  lemma {:induction false} WriteText(display: seq<Piece>, pieces: seq<Piece>, count: nat, depth: nat)
    requires SelfArg !in pieces
    ensures Write(display, pieces, count, depth) == Some(Text(pieces, count))
    decreases |pieces|
  {
    if pieces != [] {
      assert SelfArg !in pieces[1..];
      WriteText(display, pieces[1..], count, depth);
    }
  }

  /** A `Display` that formats `self` with `{}` never produces its text,
      however deep the stack; one that does not always does, on any stack. */
  lemma FormatEnds(display: seq<Piece>, count: nat, stack: nat)
    ensures SelfArg in display ==> Format(display, count, stack) == None
    ensures SelfArg !in display ==> Format(display, count, stack) == Some(Text(display, count))
  {
    if SelfArg in display {
      WriteRunsOut(display, display, count, stack);
    } else {
      WriteText(display, display, count, stack);
    }
  }

  /** Printing an error aborts exactly when its `Display` formats `self`. */
  lemma PrintEnds(display: seq<Piece>, count: nat, stack: nat)
    ensures Print(display, count, stack) == if SelfArg in display then Aborted else Returned(())
  {
    FormatEnds(display, count, stack);
  }

  /** As written, printing a line error aborts the process whatever the stack
      size; the intended impl prints its message with the count. */
  lemma ErrorDisplayEnds(count: nat, stack: nat)
    ensures Print(ErrorDisplay, count, stack) == Aborted
    ensures Format(ErrorDisplayIntended, count, stack)
         == Some(LinePrefix + CountMessage + Decimal(count) + ".")
    ensures Print(ErrorDisplayIntended, count, stack) == Returned(())
  {
    assert ErrorDisplay[1] == SelfArg;
    PrintEnds(ErrorDisplay, count, stack);
    IntendedText(count);
    FormatEnds(ErrorDisplayIntended, count, stack);
    PrintEnds(ErrorDisplayIntended, count, stack);
  }

  lemma IntendedText(count: nat)
    ensures SelfArg !in ErrorDisplayIntended
    ensures Text(ErrorDisplayIntended, count)
         == LinePrefix + CountMessage + Decimal(count) + "."
  {
    var d := ErrorDisplayIntended;
    var digits := Decimal(count);
    assert d[1..][1..][1..][1..] == [];
    assert Text(d[1..][1..][1..], count) == ".";
    assert Text(d[1..][1..], count) == digits + ".";
    assert Text(d[1..], count) == CountMessage + (digits + ".");
    assert CountMessage + (digits + ".") == CountMessage + digits + ".";
    Regroup(LinePrefix, CountMessage, digits, ".");
  }
}
