/** The parts of Rust's standard library that the config parsers rely on:
    `str::split` with a character predicate, `str::splitn`, `char::is_whitespace`
    and `str::parse` for unsigned integer types. */
module Lexing {
  import opened Outcomes

  type u8 = x: nat | x < 0x100
  type u16 = x: nat | x < 0x1_0000
  type u32 = x: nat | x < 0x1_0000_0000
  /** `usize` on a 64-bit target */
  type usize = x: nat | x < 0x1_0000_0000_0000_0000

  const U8_MAX: nat := 0xFF
  const U16_MAX: nat := 0xFFFF

  /** `char::is_whitespace`: the characters with the Unicode White_Space property */
  predicate IsWhitespace(c: char) {
    var n := c as int;
    || 0x09 <= n <= 0x0D
    || n == 0x20 || n == 0x85 || n == 0xA0 || n == 0x1680
    || 0x2000 <= n <= 0x200A
    || n == 0x2028 || n == 0x2029 || n == 0x202F || n == 0x205F || n == 0x3000
  }

  /** On ASCII, `is_whitespace` holds of exactly tab, line feed, vertical tab,
      form feed, carriage return and space. */
  lemma AsciiWhitespace(c: char)
    requires c as int < 0x80
    ensures IsWhitespace(c) <==> c as int in {0x09, 0x0A, 0x0B, 0x0C, 0x0D, 0x20}
  {
  }

  /** The single-character pattern `' '` */
  predicate IsSpace(c: char) {
    c == ' '
  }

  predicate SepFree(s: string, isSep: char -> bool) {
    forall j :: 0 <= j < |s| ==> !isSep(s[j])
  }

  /** `s.split(isSep)`: the pieces between separators; `n` separators give
      `n + 1` pieces, so the result is never empty and pieces may be empty. */
  function Split(s: string, isSep: char -> bool): (pieces: seq<string>)
    ensures |pieces| >= 1
    ensures forall i :: 0 <= i < |pieces| ==> SepFree(pieces[i], isSep)
  {
    if s == [] then [[]]
    else
      var rest := Split(s[1..], isSep);
      if isSep(s[0]) then [[]] + rest
      else
        assert SepFree(rest[0], isSep);
        [[s[0]] + rest[0]] + rest[1..]
  }

  /** `s.splitn(n, isSep)`: like `Split`, but the `n`-th piece is the rest of
      `s`, separators included. */
  function SplitN(s: string, n: nat, isSep: char -> bool): (pieces: seq<string>)
    requires n >= 1
    ensures 1 <= |pieces| <= n
    ensures forall i :: 0 <= i < |pieces| - 1 ==> SepFree(pieces[i], isSep)
    ensures |pieces| < n ==> SepFree(pieces[|pieces| - 1], isSep)
  {
    if n == 1 then [s]
    else if s == [] then [[]]
    else if isSep(s[0]) then [[]] + SplitN(s[1..], n - 1, isSep)
    else
      var rest := SplitN(s[1..], n, isSep);
      assert |rest| < n || |rest| > 1 ==> SepFree(rest[0], isSep);
      [[s[0]] + rest[0]] + rest[1..]
  }

  /** Pieces joined with single spaces: the inverse of splitting on `' '` */
  function Join(pieces: seq<string>): string
    requires |pieces| >= 1
  {
    if |pieces| == 1 then pieces[0] else pieces[0] + " " + Join(pieces[1..])
  }

  /** Four pieces joined: the shape of a config line */
  lemma JoinFour(a: string, b: string, c: string, d: string)
    ensures Join([a, b, c, d]) == a + " " + b + " " + c + " " + d
  {
    var pieces := [a, b, c, d];
    assert pieces[1..][1..][1..] == [d];
    assert Join(pieces[1..][1..]) == c + " " + d;
  }

  /** A piece added at the end is joined after one more space. */
  lemma {:induction false} JoinAppend(pieces: seq<string>, last: string)
    requires |pieces| >= 1
    ensures Join(pieces + [last]) == Join(pieces) + " " + last
  {
    if |pieces| > 1 {
      JoinAppend(pieces[1..], last);
      assert (pieces + [last])[1..] == pieces[1..] + [last];
    } else {
      assert (pieces + [last])[1..] == [last];
    }
  }

  lemma {:induction false} SplitSepFree(a: string, isSep: char -> bool)
    requires SepFree(a, isSep)
    ensures Split(a, isSep) == [a]
  {
    if a != [] {
      assert !isSep(a[0]);
      SplitSepFree(a[1..], isSep);
      assert [a[0]] + a[1..] == a;
    }
  }

  /** A separator character cuts the split in two independent halves. */
  lemma {:induction false} SplitConcat(a: string, c: char, b: string, isSep: char -> bool)
    requires isSep(c)
    ensures Split(a + [c] + b, isSep) == Split(a, isSep) + Split(b, isSep)
  {
    if a == [] {
      assert a + [c] + b == [c] + b;
      assert ([c] + b)[1..] == b;
    } else {
      assert (a + [c] + b)[1..] == a[1..] + [c] + b;
      SplitConcat(a[1..], c, b, isSep);
    }
  }

  /** Splitting undoes joining, for any separator predicate that holds of `' '`,
      when no piece contains a separator. */
  lemma {:induction false} SplitJoin(pieces: seq<string>, isSep: char -> bool)
    requires |pieces| >= 1 && isSep(' ')
    requires forall i :: 0 <= i < |pieces| ==> SepFree(pieces[i], isSep)
    ensures Split(Join(pieces), isSep) == pieces
  {
    SplitSepFree(pieces[0], isSep);
    if |pieces| > 1 {
      SplitJoin(pieces[1..], isSep);
      SplitConcat(pieces[0], ' ', Join(pieces[1..]), isSep);
      assert pieces[0] + " " + Join(pieces[1..]) == pieces[0] + [' '] + Join(pieces[1..]);
      assert [pieces[0]] + pieces[1..] == pieces;
    }
  }

  /** Joining undoes splitting on `' '`: no character of the line is lost. */
  lemma {:induction false} JoinSplit(s: string)
    ensures Join(Split(s, IsSpace)) == s
  {
    if s != [] {
      var rest := Split(s[1..], IsSpace);
      JoinSplit(s[1..]);
      if IsSpace(s[0]) {
        assert Split(s, IsSpace) == [[]] + rest;
        assert ([[]] + rest)[1..] == rest;
      } else {
        JoinPrepend([s[0]], rest);
      }
    }
  }

  /** Joining undoes `splitn` on `' '` as well. */
  lemma {:induction false} JoinSplitN(s: string, n: nat)
    requires n >= 1
    ensures Join(SplitN(s, n, IsSpace)) == s
  {
    if n > 1 && s != [] {
      if IsSpace(s[0]) {
        var rest := SplitN(s[1..], n - 1, IsSpace);
        JoinSplitN(s[1..], n - 1);
        assert SplitN(s, n, IsSpace) == [[]] + rest;
        assert ([[]] + rest)[1..] == rest;
      } else {
        JoinSplitN(s[1..], n);
        JoinPrepend([s[0]], SplitN(s[1..], n, IsSpace));
      }
    }
  }

  /** Text glued to the front of the first piece comes first in the join. */
  lemma JoinPrepend(front: string, pieces: seq<string>)
    requires |pieces| >= 1
    ensures Join([front + pieces[0]] + pieces[1..]) == front + Join(pieces)
  {
    if |pieces| > 1 {
      var tail := Join(pieces[1..]);
      JoinCons(front + pieces[0], pieces[1..]);
      JoinCons(pieces[0], pieces[1..]);
      assert [pieces[0]] + pieces[1..] == pieces;
      Regroup(front, pieces[0], " ", tail);
    }
  }

  lemma Regroup(a: string, b: string, c: string, d: string)
    ensures a + b + c + d == a + (b + c + d)
  {
  }

  lemma JoinCons(first: string, rest: seq<string>)
    requires |rest| >= 1
    ensures Join([first] + rest) == first + " " + Join(rest)
  {
    assert ([first] + rest)[1..] == rest;
  }

  /** A piece without a separator is not split by `splitn` either. */
  lemma {:induction false} SplitNSepFree(a: string, n: nat, isSep: char -> bool)
    requires n >= 1 && SepFree(a, isSep)
    ensures SplitN(a, n, isSep) == [a]
  {
    if n > 1 && a != [] {
      assert !isSep(a[0]);
      SplitNSepFree(a[1..], n, isSep);
      assert [a[0]] + a[1..] == a;
    }
  }

  /** A leading separator-free word followed by a separator is the first piece
      of `splitn`, and the rest is split into one piece fewer. */
  lemma {:induction false} SplitNConcat(a: string, c: char, b: string, n: nat, isSep: char -> bool)
    requires n >= 2 && isSep(c) && SepFree(a, isSep)
    ensures SplitN(a + [c] + b, n, isSep) == [a] + SplitN(b, n - 1, isSep)
  {
    if a == [] {
      assert a + [c] + b == [c] + b;
      assert ([c] + b)[1..] == b;
    } else {
      assert !isSep(a[0]) && (a + [c] + b)[0] == a[0];
      assert (a + [c] + b)[1..] == a[1..] + [c] + b;
      SplitNConcat(a[1..], c, b, n, isSep);
      assert [a[0]] + a[1..] == a;
    }
  }

  predicate IsDigit(c: char) {
    '0' <= c <= '9'
  }

  predicate AllDigits(s: string) {
    forall i :: 0 <= i < |s| ==> IsDigit(s[i])
  }

  /** The number a string of decimal digits denotes (leading zeros allowed) */
  function DigitsValue(s: string): nat
    requires AllDigits(s)
  {
    if s == [] then 0 else 10 * DigitsValue(s[..|s| - 1]) + (s[|s| - 1] as int - '0' as int)
  }

  function DigitChar(d: nat): (c: char)
    requires d < 10
    ensures IsDigit(c) && c as int - '0' as int == d
  {
    (('0' as int) + d) as char
  }

  /** The shortest decimal spelling of `n`, as `to_string` writes it */
  function Decimal(n: nat): (s: string)
    ensures |s| >= 1 && AllDigits(s)
  {
    if n < 10 then [DigitChar(n)] else Decimal(n / 10) + [DigitChar(n % 10)]
  }

  lemma {:induction false} DecimalValue(n: nat)
    ensures DigitsValue(Decimal(n)) == n
  {
    if n >= 10 {
      var s := Decimal(n);
      DecimalValue(n / 10);
      assert s[..|s| - 1] == Decimal(n / 10);
    }
  }

  /** The spellings the examples in the documentation use */
  lemma DecimalExamples()
    ensures Decimal(32) == "32" && Decimal(1) == "1" && Decimal(2) == "2" && Decimal(100) == "100"
  {
    assert Decimal(10) == "10";
  }

  lemma DigitsAreNotSeparators(s: string)
    requires AllDigits(s)
    ensures SepFree(s, IsWhitespace) && SepFree(s, IsSpace)
  {
  }

  /** `str::parse` for an unsigned type whose largest value is `max`: an
      optional `+`, then one or more ASCII digits whose value fits the type.
      Anything else, the empty string included, is an error. */
  function ParseUnsigned(tok: string, max: nat): (r: Option<nat>)
    ensures tok == [] ==> r == None
    ensures r.Some? ==> r.value <= max
    ensures r.Some? ==> SepFree(tok, IsWhitespace)
    ensures r.Some? ==> Decimal(r.value) == StripZeros(Unsigned(tok))
  {
    var digits := Unsigned(tok);
    if digits != [] && AllDigits(digits) && DigitsValue(digits) <= max then
      assert tok == digits || tok == ['+'] + digits;
      StripZerosDecimal(digits);
      Some(DigitsValue(digits))
    else
      None
  }

  /** `tok` without its optional leading `+` */
  function Unsigned(tok: string): string {
    if |tok| > 0 && tok[0] == '+' then tok[1..] else tok
  }

  /** Digits without their leading zeros; a lone zero stays */
  function StripZeros(s: string): string {
    if |s| > 1 && s[0] == '0' then StripZeros(s[1..]) else s
  }

  /** Digits denote the number whose decimal spelling they are, once their
      leading zeros are dropped. */
  lemma {:induction false} StripZerosDecimal(s: string)
    requires s != [] && AllDigits(s)
    ensures Decimal(DigitsValue(s)) == StripZeros(s)
  {
    if |s| > 1 && s[0] == '0' {
      StripZerosDecimal(s[1..]);
      LeadingZero(s[1..]);
      assert ['0'] + s[1..] == s;
    } else {
      DecimalOfDigits(s);
    }
  }

  lemma {:induction false} LeadingZero(s: string)
    requires AllDigits(s)
    ensures AllDigits(['0'] + s) && DigitsValue(['0'] + s) == DigitsValue(s)
  {
    if s != [] {
      var p := s[..|s| - 1];
      LeadingZero(p);
      assert (['0'] + s)[..|s|] == ['0'] + p;
    }
  }

  lemma {:induction false} LeadingDigitPositive(s: string)
    requires s != [] && AllDigits(s) && s[0] != '0'
    ensures DigitsValue(s) >= 1
  {
    if |s| > 1 {
      LeadingDigitPositive(s[..|s| - 1]);
    }
  }

  lemma {:induction false} DecimalOfDigits(s: string)
    requires s != [] && AllDigits(s) && (|s| == 1 || s[0] != '0')
    ensures Decimal(DigitsValue(s)) == s
  {
    var v := DigitsValue(s);
    var d := s[|s| - 1] as int - '0' as int;
    assert DigitChar(d) == s[|s| - 1];
    if |s| > 1 {
      var p := s[..|s| - 1];
      DecimalOfDigits(p);
      LeadingDigitPositive(p);
      assert v / 10 == DigitsValue(p) && v % 10 == d;
      assert s == p + [s[|s| - 1]];
    }
  }

  /** Every value in range is read back from its decimal spelling, with or
      without a leading `+`. */
  lemma ParseDecimal(n: nat, max: nat)
    requires n <= max
    ensures ParseUnsigned(Decimal(n), max) == Some(n)
    ensures ParseUnsigned("+" + Decimal(n), max) == Some(n)
  {
    DecimalValue(n);
    assert ("+" + Decimal(n))[1..] == Decimal(n);
  }

  /** Conversely, every optional `+` followed by digits whose value is in
      range parses to that value. */
  lemma ParseDigits(s: string, max: nat)
    requires s != [] && AllDigits(s) && DigitsValue(s) <= max
    ensures ParseUnsigned(s, max) == Some(DigitsValue(s))
    ensures ParseUnsigned("+" + s, max) == Some(DigitsValue(s))
  {
    assert ("+" + s)[1..] == s;
  }

  /** `k` zero digits */
  function Zeros(k: nat): (s: string)
    ensures |s| == k && AllDigits(s)
  {
    if k == 0 then [] else ['0'] + Zeros(k - 1)
  }

  /** Leading zeros do not change the value of a string of digits. */
  lemma {:induction false} ZerosValue(k: nat, s: string)
    requires AllDigits(s)
    ensures AllDigits(Zeros(k) + s) && DigitsValue(Zeros(k) + s) == DigitsValue(s)
  {
    if k > 0 {
      ZerosValue(k - 1, s);
      var t := Zeros(k - 1) + s;
      LeadingZero(t);
      assert ['0'] + t == Zeros(k) + s;
    } else {
      assert Zeros(k) + s == s;
    }
  }

  /** Every value in range is read back from its decimal spelling after any
      number of leading zeros, with or without a leading `+`, as "007" is 7. */
  lemma ParseLeadingZeros(k: nat, n: nat, max: nat)
    requires n <= max
    ensures ParseUnsigned(Zeros(k) + Decimal(n), max) == Some(n)
    ensures ParseUnsigned("+" + (Zeros(k) + Decimal(n)), max) == Some(n)
  {
    var s := Zeros(k) + Decimal(n);
    ZerosValue(k, Decimal(n));
    DecimalValue(n);
    ParseDigits(s, max);
  }

  /** `str::parse::<u16>` */
  function ParseU16(tok: string): Option<u16> {
    match ParseUnsigned(tok, U16_MAX)
    case Some(v) => Some(v)
    case None => None
  }

  /** `str::parse::<u8>` */
  function ParseU8(tok: string): Option<u8> {
    match ParseUnsigned(tok, U8_MAX)
    case Some(v) => Some(v)
    case None => None
  }
}
