/** Decimal text and the integers behind it, at a fixed number of places. */
module Decimal {
  import opened Basics

  const MAX_DECIMAL_PLACES := 9

  /** 2^53 - 1 */
  const MAX_SAFE_INTEGER := 9_007_199_254_740_991

  predicate IsSafe(n: int) {
    -MAX_SAFE_INTEGER <= n <= MAX_SAFE_INTEGER
  }

  datatype ScaledError = BadScale | NotANumber | TooManyPlaces | TooLarge | NotAnInteger

  datatype Result<T> = Ok(value: T) | Err(error: ScaledError)

  // ---- Text -------------------------------------------------------------------------------------

  /** The characters `trim` removes. */
  predicate IsSpace(c: char) {
    || '\t' <= c <= '\r' || c == ' ' || c == '\U{a0}' || c == '\U{1680}'
    || '\U{2000}' <= c <= '\U{200a}' || c in {'\U{2028}', '\U{2029}', '\U{202f}', '\U{205f}', '\U{3000}', '\U{feff}'}
  }

  function TrimStart(s: string): (r: string)
    ensures r == [] || !IsSpace(r[0])
    ensures |r| <= |s| && r == s[|s| - |r|..]
  {
    if s != [] && IsSpace(s[0]) then TrimStart(s[1..]) else s
  }

  function TrimEnd(s: string): (r: string)
    ensures r == [] || !IsSpace(r[|r| - 1])
    ensures |r| <= |s| && r == s[..|r|]
  {
    if s != [] && IsSpace(s[|s| - 1]) then TrimEnd(s[..|s| - 1]) else s
  }

  predicate IsTrimmed(s: string) {
    s == [] || (!IsSpace(s[0]) && !IsSpace(s[|s| - 1]))
  }

  function Trim(s: string): (r: string)
    ensures IsTrimmed(r)
    ensures IsTrimmed(s) ==> r == s
  {
    TrimEnd(TrimStart(s))
  }

  ghost predicate AllSpaces(s: string) {
    forall i | 0 <= i < |s| :: IsSpace(s[i])
  }

  lemma SpaceInFront(c: char, s: string)
    requires IsSpace(c) && AllSpaces(s)
    ensures AllSpaces([c] + s) && AllSpaces(s + [c])
  {
  }

  lemma NoSpaces()
    ensures AllSpaces([])
  {
  }

  lemma TrimOneSpace(s: string)
    ensures s != [] && IsSpace(s[0]) ==> TrimStart(s) == TrimStart(s[1..])
    ensures s == [] || !IsSpace(s[0]) ==> TrimStart(s) == s
    ensures s != [] && IsSpace(s[|s| - 1]) ==> TrimEnd(s) == TrimEnd(s[..|s| - 1])
    ensures s == [] || !IsSpace(s[|s| - 1]) ==> TrimEnd(s) == s
  {
    hide IsSpace;
  }

  lemma Reassociate(a: string, b: string, c: string)
    ensures a + (b + c) == (a + b) + c
  {
  }

  lemma {:induction false} StartIsSpaces(s: string) returns (before: string)
    ensures s == before + TrimStart(s) && AllSpaces(before)
  {
    hide IsSpace, TrimStart, TrimEnd, AllSpaces;
    before := [];
    NoSpaces();
    TrimOneSpace(s);
    if s != [] && IsSpace(s[0]) {
      var rest := StartIsSpaces(s[1..]);
      SpaceInFront(s[0], rest);
      before := [s[0]] + rest;
      Reassociate([s[0]], rest, TrimStart(s));
      assert s == [s[0]] + s[1..];
    }
  }

  lemma {:induction false} EndIsSpaces(s: string) returns (after: string)
    ensures s == TrimEnd(s) + after && AllSpaces(after)
  {
    hide IsSpace, TrimStart, TrimEnd, AllSpaces;
    after := [];
    NoSpaces();
    TrimOneSpace(s);
    var n := |s| - 1;
    if s != [] && IsSpace(s[n]) {
      var front, c := s[..n], s[n];
      assert s == front + [c];
      hide *;
      var rest := EndIsSpaces(front);
      SpaceInFront(c, rest);
      OneMoreSpace(front, c, TrimEnd(front), rest);
      after := rest + [c];
    }
  }

  lemma OneMoreSpace(front: string, c: char, trimmed: string, rest: string)
    requires front == trimmed + rest
    ensures front + [c] == trimmed + (rest + [c])
  {
  }

  /** Trimming takes spaces off both ends and nothing else. */
  lemma TrimTakesSpaces(s: string) returns (before: string, after: string)
    ensures s == before + Trim(s) + after && AllSpaces(before) && AllSpaces(after)
  {
    hide TrimStart, TrimEnd, IsSpace, IsTrimmed, AllSpaces;
    before := StartIsSpaces(s);
    after := EndIsSpaces(TrimStart(s));
    Reassociate(before, Trim(s), after);
  }

  /** The characters that count as spaces, by code point. */
  lemma SpacesAre(c: char)
    ensures IsSpace(c)
       <==> c as int in {0x09, 0x0a, 0x0b, 0x0c, 0x0d, 0x20, 0xa0, 0x1680, 0x2000, 0x2001, 0x2002, 0x2003, 0x2004,
                         0x2005, 0x2006, 0x2007, 0x2008, 0x2009, 0x200a, 0x2028, 0x2029, 0x202f, 0x205f, 0x3000, 0xfeff}
  {
  }

  // ---- Digits -----------------------------------------------------------------------------------

  predicate IsDigit(c: char) {
    '0' <= c <= '9'
  }

  ghost predicate Digits(s: string) {
    forall i | 0 <= i < |s| :: IsDigit(s[i])
  }

  function DigitValue(c: char): int {
    c as int - '0' as int
  }

  function DigitChar(n: nat): (c: char)
    requires n < 10
    ensures IsDigit(c) && DigitValue(c) == n
  {
    ('0' as int + n) as char
  }

  /** The number a string of digits denotes. */
  function Num(s: string): int {
    if s == [] then 0 else 10 * Num(s[..|s| - 1]) + DigitValue(s[|s| - 1])
  }

  /** The digits of a number, with no leading zero. */
  function Str(n: nat): (s: string)
    ensures s != [] && Digits(s)
  {
    if n < 10 then [DigitChar(n)] else Str(n / 10) + [DigitChar(n % 10)]
  }

  function Zeros(n: nat): (s: string)
    ensures |s| == n && forall i | 0 <= i < n :: s[i] == '0'
  {
    seq(n, i => '0')
  }

  function PadStart(s: string, n: nat): (r: string)
    ensures |r| == if |s| < n then n else |s|
  {
    if |s| < n then Zeros(n - |s|) + s else s
  }

  function PadEnd(s: string, n: nat): (r: string)
    ensures |r| == if |s| < n then n else |s|
  {
    if |s| < n then s + Zeros(n - |s|) else s
  }

  function Pow10(n: nat): (p: nat)
    ensures p >= 1
  {
    if n == 0 then 1 else 10 * Pow10(n - 1)
  }

  lemma {:induction false} NumOfConcat(a: string, b: string)
    ensures Num(a + b) == Num(a) * Pow10(|b|) + Num(b)
  {
    if b == [] {
      assert a + b == a;
    } else {
      var n := |b| - 1;
      assert (a + b)[..|a + b| - 1] == a + b[..n];
      NumOfConcat(a, b[..n]);
      assert Num(a) * Pow10(|b|) == 10 * (Num(a) * Pow10(n));
    }
  }

  lemma {:induction false} NumOfZeros(n: nat)
    ensures Num(Zeros(n)) == 0
  {
    if n > 0 {
      assert Zeros(n)[..n - 1] == Zeros(n - 1);
      NumOfZeros(n - 1);
    }
  }

  lemma NumOfPadded(s: string, n: nat)
    ensures Num(PadStart(s, n)) == Num(s)
    ensures |s| <= n ==> Num(PadEnd(s, n)) == Num(s) * Pow10(n - |s|)
  {
    if |s| < n {
      hide Num;
      NumOfZeros(n - |s|);
      NumOfConcat(Zeros(n - |s|), s);
      NumOfConcat(s, Zeros(n - |s|));
    }
  }

  lemma {:induction false} NumIsNatural(s: string)
    requires Digits(s)
    ensures Num(s) >= 0
  {
    if s != [] { NumIsNatural(s[..|s| - 1]); }
  }

  lemma {:induction false} NumOfStr(n: nat)
    ensures Num(Str(n)) == n
  {
    if n >= 10 { NumOfStr(n / 10); }
  }

  /** Printing a number gives back its digits unless they began with a needless zero. */
  lemma {:induction false} StrOfNum(s: string)
    requires Digits(s) && s != [] && (s[0] != '0' || |s| == 1)
    ensures Num(s) >= 0 && Str(Num(s)) == s
    ensures s[0] != '0' ==> Num(s) > 0
  {
    NumIsNatural(s);
    var n := |s| - 1;
    if n == 0 {
      assert s == [s[0]];
    } else {
      assert s[..n][0] == s[0];
      StrOfNum(s[..n]);
      assert s == s[..n] + [DigitChar(DigitValue(s[n]))];
    }
  }

  lemma {:induction false} StrHasNoLeadingZero(n: nat)
    ensures Str(n)[0] != '0' || n == 0
  {
    if n >= 10 { StrHasNoLeadingZero(n / 10); }
  }

  // ---- The pattern both parsers share -----------------------------------------------------------

  /** An optional minus, one or more digits, and optionally a point and one or more digits. */
  datatype Numeral = Numeral(negative: bool, whole: string, fraction: string) {
    ghost predicate WellFormed() {
      Digits(whole) && whole != [] && Digits(fraction)
    }

    function Text(): string {
      if negative then "-" + Unsigned(whole, fraction) else Unsigned(whole, fraction)
    }
  }

  function Unsigned(whole: string, fraction: string): string {
    whole + (if fraction == [] then "" else "." + fraction)
  }

  /** How many digits the string begins with. */
  function DigitSpan(s: string): (n: nat)
    ensures n <= |s| && Digits(s[..n]) && (n < |s| ==> !IsDigit(s[n]))
  {
    if s == [] || !IsDigit(s[0]) then 0
    else
      var n := DigitSpan(s[1..]);
      assert s[..n + 1] == [s[0]] + s[1..][..n];
      n + 1
  }

  function MatchUnsigned(s: string, negative: bool): Option<Numeral> {
    var n := DigitSpan(s);
    var rest := s[n..];
    if n == 0 then None
    else if rest == [] then Some(Numeral(negative, s[..n], ""))
    else if rest[0] == '.' && |rest| > 1 && DigitSpan(rest[1..]) == |rest| - 1 then
      Some(Numeral(negative, s[..n], rest[1..]))
    else None
  }

  function Match(s: string): Option<Numeral> {
    if s != [] && s[0] == '-' then MatchUnsigned(s[1..], true) else MatchUnsigned(s, false)
  }

  lemma {:induction false} SpanIsForced(a: string, b: string)
    requires Digits(a) && (b == [] || !IsDigit(b[0]))
    ensures DigitSpan(a + b) == |a|
  {
    if a == [] {
      assert a + b == b;
    } else {
      SpanIsForced(a[1..], b);
      assert (a + b)[1..] == a[1..] + b;
    }
  }

  lemma UnsignedSound(s: string, negative: bool)
    requires MatchUnsigned(s, negative).Some?
    ensures var m := MatchUnsigned(s, negative).value;
            m.WellFormed() && m.negative == negative && Unsigned(m.whole, m.fraction) == s
  {
    var n := DigitSpan(s);
    var rest := s[n..];
    hide Digits, IsDigit;
    assert s == s[..n] + rest;
    if rest == [] {
      assert s[..n] == s;
      assert Digits("") by { EmptyDigits(); }
    } else {
      var fraction := rest[1..];
      assert fraction[..|fraction|] == fraction;
      assert rest == "." + fraction;
    }
  }

  lemma EmptyDigits()
    ensures Digits("")
  {
  }

  lemma MatchSound(s: string)
    requires Match(s).Some?
    ensures Match(s).value.WellFormed() && Match(s).value.Text() == s
  {
    hide MatchUnsigned, Unsigned, Digits;
    if s != [] && s[0] == '-' {
      UnsignedSound(s[1..], true);
      assert s == "-" + s[1..];
    } else {
      UnsignedSound(s, false);
    }
  }

  lemma UnsignedComplete(m: Numeral)
    requires m.WellFormed()
    ensures MatchUnsigned(Unsigned(m.whole, m.fraction), m.negative) == Some(m)
  {
    var tail := if m.fraction == [] then "" else "." + m.fraction;
    var s := m.whole + tail;
    SpanIsForced(m.whole, tail);
    SpanIsForced(m.fraction, "");
    hide Digits;
    assert m.fraction + "" == m.fraction;
    assert s[..|m.whole|] == m.whole && s[|m.whole|..] == tail;
    assert m.fraction != [] ==> tail[1..] == m.fraction;
  }

  /** A string matches in one way at most: the pattern and the text determine each other. */
  lemma MatchComplete(m: Numeral)
    requires m.WellFormed()
    ensures Match(m.Text()) == Some(m)
  {
    UnsignedComplete(m);
    var s := Unsigned(m.whole, m.fraction);
    assert s[0] == m.whole[0];
    hide Unsigned, MatchUnsigned;
    assert ("-" + s)[1..] == s;
  }

  lemma NumeralsAreTrimmed(m: Numeral)
    requires m.WellFormed()
    ensures IsTrimmed(m.Text())
  {
    var s := m.Text();
    assert s[0] == '-' || s[0] == m.whole[0];
    assert s[|s| - 1] == if m.fraction == [] then m.whole[|m.whole| - 1] else m.fraction[|m.fraction| - 1];
  }

  // ---- Parsing and printing ---------------------------------------------------------------------

  function FromDecimalString(value: string, decimalPlaces: int): Result<int> {
    if !(0 <= decimalPlaces <= MAX_DECIMAL_PLACES) then Err(BadScale)
    else
      match Match(Trim(value))
      case None => Err(NotANumber)
      case Some(m) =>
        if |m.fraction| > decimalPlaces then Err(TooManyPlaces)
        else
          var scaled := Num(m.whole + PadEnd(m.fraction, decimalPlaces));
          if !IsSafe(scaled) then Err(TooLarge)
          else Ok(if m.negative && scaled != 0 then -scaled else scaled)
  }

  function Abs(n: int): nat {
    if n < 0 then -n else n
  }

  /** The numeral that shows `value` at `decimalPlaces`. */
  function Shown(value: int, decimalPlaces: nat): (m: Numeral)
    ensures m.whole != [] && |m.fraction| == decimalPlaces
  {
    var digits := PadStart(Str(Abs(value)), decimalPlaces + 1);
    var n := |digits| - decimalPlaces;
    Numeral(value < 0, digits[..n], digits[n..])
  }

  function ToDecimalString(value: int, decimalPlaces: int): Result<string> {
    if !(0 <= decimalPlaces <= MAX_DECIMAL_PLACES) then Err(BadScale)
    else if !IsSafe(value) then Err(NotAnInteger)
    else Ok(Shown(value, decimalPlaces).Text())
  }

  /** Pounds and pence: one hundred minor units to the major. */
  function FromMajor(value: string): Result<int> {
    match Match(Trim(value))
    case None => Err(NotANumber)
    case Some(m) =>
      if |m.fraction| > 2 then Err(TooManyPlaces)
      else
        var padded := PadEnd(m.fraction, 2);
        var minor := Num(m.whole) * 100 + Num(padded);
        var amount := if m.negative then -minor else minor;
        if IsSafe(amount) then Ok(amount) else Err(TooLarge)
  }

  function ToMajorString(amount: int): string {
    var abs := Abs(amount);
    (if amount < 0 then "-" else "") + Str(abs / 100) + "." + PadStart(Str(abs % 100), 2)
  }

  // ---- Round trips ------------------------------------------------------------------------------

  lemma PadKeepsDigits(s: string, n: nat)
    requires Digits(s)
    ensures Digits(PadStart(s, n)) && Digits(PadEnd(s, n))
  {
  }

  lemma DigitsConcat(a: string, b: string)
    requires Digits(a) && Digits(b)
    ensures Digits(a + b)
  {
  }

  lemma DigitsSlice(s: string, n: nat)
    requires Digits(s) && n <= |s|
    ensures Digits(s[..n]) && Digits(s[n..])
  {
  }

  lemma ShownIsWellFormed(value: int, decimalPlaces: nat)
    ensures var m := Shown(value, decimalPlaces);
            m.WellFormed() && m.negative == (value < 0) && Num(m.whole + m.fraction) == Abs(value)
  {
    hide Num, Str, PadStart, PadEnd, Digits;
    var s := Str(Abs(value));
    PadKeepsDigits(s, decimalPlaces + 1);
    NumOfPadded(s, decimalPlaces + 1);
    NumOfStr(Abs(value));
    var m, digits := Shown(value, decimalPlaces), PadStart(s, decimalPlaces + 1);
    assert m.whole + m.fraction == digits;
    DigitsSlice(digits, |m.whole|);
  }

  lemma ShownReads(value: int, decimalPlaces: nat)
    ensures var m := Shown(value, decimalPlaces);
            m.WellFormed() && m.negative == (value < 0) && Scaled(m, decimalPlaces) == Abs(value)
            && Match(Trim(m.Text())) == Some(m)
  {
    var m := Shown(value, decimalPlaces);
    ShownIsWellFormed(value, decimalPlaces);
    assert PadEnd(m.fraction, decimalPlaces) == m.fraction;
    hide Match, Trim, IsTrimmed, Digits, Num, Shown;
    NumeralsAreTrimmed(m);
    MatchComplete(m);
  }

  /** What a well-formed numeral denotes at a scale. */
  ghost function Scaled(m: Numeral, decimalPlaces: nat): (n: int)
    requires m.WellFormed()
    ensures n >= 0
  {
    PadKeepsDigits(m.fraction, decimalPlaces);
    DigitsConcat(m.whole, PadEnd(m.fraction, decimalPlaces));
    NumIsNatural(m.whole + PadEnd(m.fraction, decimalPlaces));
    Num(m.whole + PadEnd(m.fraction, decimalPlaces))
  }

  /** What text holding a numeral reads as. */
  lemma ReadsAs(value: string, m: Numeral, decimalPlaces: nat)
    requires Match(Trim(value)) == Some(m) && m.WellFormed()
    requires decimalPlaces <= MAX_DECIMAL_PLACES && |m.fraction| <= decimalPlaces
    ensures FromDecimalString(value, decimalPlaces)
         == if !IsSafe(Scaled(m, decimalPlaces)) then Err(TooLarge)
            else Ok(if m.negative then -Scaled(m, decimalPlaces) else Scaled(m, decimalPlaces))
  {
    hide Match, Trim, Num, Digits, PadEnd, IsSafe;
  }

  lemma Accepted(value: string, decimalPlaces: int) returns (m: Numeral)
    requires FromDecimalString(value, decimalPlaces).Ok?
    ensures 0 <= decimalPlaces <= MAX_DECIMAL_PLACES
    ensures Match(Trim(value)) == Some(m) && m.WellFormed() && |m.fraction| <= decimalPlaces
    ensures IsSafe(Scaled(m, decimalPlaces))
    ensures FromDecimalString(value, decimalPlaces).value
         == if m.negative then -Scaled(m, decimalPlaces) else Scaled(m, decimalPlaces)
  {
    hide Match, Trim, Num, Digits, PadEnd, Scaled;
    m := Match(Trim(value)).value;
    MatchSound(Trim(value));
    ReadsAs(value, m, decimalPlaces);
  }

  lemma TrimmedReadsAlike(value: string, decimalPlaces: int)
    ensures FromDecimalString(Trim(value), decimalPlaces) == FromDecimalString(value, decimalPlaces)
  {
    hide Trim, IsTrimmed, Match, Num, PadEnd;
    assert Trim(Trim(value)) == Trim(value);
  }

  lemma UnmatchedIsRefused(typed: string, decimalPlaces: int)
    requires IsTrimmed(typed) && (typed == "" || Match(typed).None?)
    ensures FromDecimalString(typed, decimalPlaces).Err?
  {
    assert Match("").None?;
    hide Match, Trim, Num, PadEnd;
  }

  /** Every safe integer survives being printed and read, at every scale. */
  lemma PrintThenParse(value: int, decimalPlaces: int)
    requires 0 <= decimalPlaces <= MAX_DECIMAL_PLACES && IsSafe(value)
    ensures ToDecimalString(value, decimalPlaces).Ok?
    ensures FromDecimalString(ToDecimalString(value, decimalPlaces).value, decimalPlaces) == Ok(value)
  {
    hide Match, Trim, Digits, Num, Shown, Scaled, FromDecimalString;
    var m := Shown(value, decimalPlaces);
    ShownReads(value, decimalPlaces);
    ReadsAs(m.Text(), m, decimalPlaces);
  }

  /** A number is printed exactly at a scale from 0 to 9 and within the safe integers, the scale asked first. */
  lemma WhenADecimalIsPrinted(value: int, decimalPlaces: int)
    ensures ToDecimalString(value, decimalPlaces) == Err(BadScale) <==> !(0 <= decimalPlaces <= 9)
    ensures ToDecimalString(value, decimalPlaces) == Err(NotAnInteger)
       <==> 0 <= decimalPlaces <= 9 && !(-9_007_199_254_740_991 <= value <= 9_007_199_254_740_991)
    ensures ToDecimalString(value, decimalPlaces).Ok?
       <==> 0 <= decimalPlaces <= 9 && -9_007_199_254_740_991 <= value <= 9_007_199_254_740_991
  {
    hide Shown;
  }

  /** The one way the system itself would have written the number. */
  ghost predicate Canonical(m: Numeral, decimalPlaces: nat) {
    && m.WellFormed() && |m.fraction| == decimalPlaces
    && (m.whole[0] != '0' || |m.whole| == 1)
    && (m.negative ==> Num(m.whole + m.fraction) != 0)
  }

  lemma PaddedStrHasFewZeros(n: nat, width: nat)
    requires width >= 1
    ensures var digits := PadStart(Str(n), width);
            |digits| == width || digits[0] != '0'
  {
    StrHasNoLeadingZero(n);
  }

  lemma ShownIsCanonical(value: int, decimalPlaces: nat)
    ensures Canonical(Shown(value, decimalPlaces), decimalPlaces)
  {
    ShownIsWellFormed(value, decimalPlaces);
    PaddedStrHasFewZeros(Abs(value), decimalPlaces + 1);
  }

  /** Leading zeros are only there to fill the width. */
  lemma {:induction false} StrOfPadded(s: string, width: nat)
    requires Digits(s) && |s| >= width >= 1 && (|s| == width || s[0] != '0')
    ensures Num(s) >= 0 && PadStart(Str(Num(s)), width) == s
  {
    NumIsNatural(s);
    if s[0] != '0' || |s| == 1 {
      StrOfNum(s);
    } else {
      hide Num, Str, PadStart;
      DropZero(s);
      StrOfPadded(s[1..], width - 1);
      OneMoreZero(Str(Num(s)), width);
      assert s == "0" + s[1..];
    }
  }

  lemma OneMoreZero(s: string, width: nat)
    requires width >= 1 && |PadStart(s, width - 1)| == width - 1
    ensures PadStart(s, width) == "0" + PadStart(s, width - 1)
  {
    var zeros := Zeros(width - 1 - |s|);
    assert Zeros(width - |s|) == "0" + zeros;
    hide Zeros;
    assert ("0" + zeros) + s == "0" + (zeros + s);
    assert [] + s == s;
  }

  lemma DropZero(s: string)
    requires s != [] && s[0] == '0'
    ensures Num(s[1..]) == Num(s)
  {
    assert s == [s[0]] + s[1..];
    NumOfConcat([s[0]], s[1..]);
    assert Num([s[0]]) == 0;
  }

  lemma CanonicalIsShown(m: Numeral, decimalPlaces: nat)
    requires Canonical(m, decimalPlaces)
    ensures Shown(if m.negative then -Scaled(m, decimalPlaces) else Scaled(m, decimalPlaces), decimalPlaces) == m
  {
    var digits := m.whole + m.fraction;
    assert PadEnd(m.fraction, decimalPlaces) == m.fraction;
    DigitsConcat(m.whole, m.fraction);
    StrOfPadded(digits, decimalPlaces + 1);
    hide Num, Digits, Str, PadStart;
    assert digits[..|m.whole|] == m.whole && digits[|m.whole|..] == m.fraction;
  }

  /** Printing what was read gives the typed text back exactly when it was typed canonically. */
  lemma ParseThenPrint(value: string, decimalPlaces: int)
    requires FromDecimalString(value, decimalPlaces).Ok?
    ensures IsSafe(FromDecimalString(value, decimalPlaces).value)
    ensures ToDecimalString(FromDecimalString(value, decimalPlaces).value, decimalPlaces) == Ok(Trim(value))
       <==> Canonical(Match(Trim(value)).value, decimalPlaces)
  {
    hide *;
    var m := Accepted(value, decimalPlaces);
    var v := FromDecimalString(value, decimalPlaces).value;
    SafeEitherWay(Scaled(m, decimalPlaces));
    PrintsAs(v, decimalPlaces);
    var shown := Shown(v, decimalPlaces);
    if shown.Text() == Trim(value) {
      ShownIsCanonical(v, decimalPlaces);
      ShownReads(v, decimalPlaces);
      MatchComplete(shown);
    }
    if Canonical(m, decimalPlaces) {
      CanonicalIsShown(m, decimalPlaces);
      MatchSound(Trim(value));
    }
  }

  lemma SafeEitherWay(n: int)
    requires IsSafe(n)
    ensures IsSafe(-n)
  {
  }

  lemma PrintsAs(value: int, decimalPlaces: int)
    requires 0 <= decimalPlaces <= MAX_DECIMAL_PLACES && IsSafe(value)
    ensures ToDecimalString(value, decimalPlaces) == Ok(Shown(value, decimalPlaces).Text())
  {
  }

  /** Whatever was typed, storing, showing and reading it again changes nothing. */
  lemma StoredValueIsAFixedPoint(value: string, decimalPlaces: int)
    requires FromDecimalString(value, decimalPlaces).Ok?
    ensures var v := FromDecimalString(value, decimalPlaces).value;
            var shown := ToDecimalString(v, decimalPlaces);
            shown.Ok? && FromDecimalString(shown.value, decimalPlaces) == Ok(v)
  {
    ParseThenPrint(value, decimalPlaces);
    PrintThenParse(FromDecimalString(value, decimalPlaces).value, decimalPlaces);
  }

  /** The integer read is the number written, counted in units of the last place. */
  lemma ReadsTheNumberWritten(value: string, decimalPlaces: int) returns (m: Numeral)
    requires FromDecimalString(value, decimalPlaces).Ok?
    ensures 0 <= decimalPlaces <= 9 && m.WellFormed() && Trim(value) == m.Text() && |m.fraction| <= decimalPlaces
    ensures var v, written := FromDecimalString(value, decimalPlaces).value, Num(m.whole + m.fraction);
            && -9_007_199_254_740_991 <= v <= 9_007_199_254_740_991
            && v == (if m.negative then -written else written) * Pow10(decimalPlaces - |m.fraction|)
  {
    hide Match, Trim, Num, Digits, FromDecimalString;
    m := Accepted(value, decimalPlaces);
    MatchSound(Trim(value));
    ScaledIsPadded(m, decimalPlaces);
    Opposite(Num(m.whole + m.fraction), Pow10(decimalPlaces - |m.fraction|));
  }

  lemma ScaledIsPadded(m: Numeral, decimalPlaces: nat)
    requires m.WellFormed() && |m.fraction| <= decimalPlaces
    ensures Scaled(m, decimalPlaces) == Num(m.whole + m.fraction) * Pow10(decimalPlaces - |m.fraction|)
  {
    hide Num, Digits;
    var zeros := Zeros(decimalPlaces - |m.fraction|);
    assert PadEnd(m.fraction, decimalPlaces) == m.fraction + zeros;
    assert m.whole + (m.fraction + zeros) == (m.whole + m.fraction) + zeros;
    NumOfConcat(m.whole + m.fraction, zeros);
    NumOfZeros(decimalPlaces - |m.fraction|);
  }

  /** And every refusal has its reason: a scale out of range, text that is no numeral, too many places, or a
      number past the safe integers. */
  lemma WhyADecimalIsRefused(value: string, decimalPlaces: int, m: Numeral)
    ensures FromDecimalString(value, decimalPlaces) == Err(BadScale) <==> !(0 <= decimalPlaces <= 9)
    ensures 0 <= decimalPlaces <= 9 && m.WellFormed() && Trim(value) == m.Text() ==>
              && (FromDecimalString(value, decimalPlaces) == Err(TooManyPlaces) <==> |m.fraction| > decimalPlaces)
              && (FromDecimalString(value, decimalPlaces) == Err(TooLarge)
                  <==> |m.fraction| <= decimalPlaces
                       && Num(m.whole + m.fraction) * Pow10(decimalPlaces - |m.fraction|) > 9_007_199_254_740_991)
              && FromDecimalString(value, decimalPlaces) != Err(NotANumber)
    ensures FromDecimalString(value, decimalPlaces) == Err(NotANumber) ==> !(m.WellFormed() && Trim(value) == m.Text())
  {
    hide Trim, Num, Digits, Match;
    if 0 <= decimalPlaces <= 9 && m.WellFormed() && Trim(value) == m.Text() {
      MatchComplete(m);
      if |m.fraction| <= decimalPlaces {
        ScaledIsPadded(m, decimalPlaces);
        ReadsAs(value, m, decimalPlaces);
      }
    }
  }

  /** The money parser and the scaled parser are one parser at two places. */
  lemma ParsersAgree(value: string)
    ensures FromMajor(value) == FromDecimalString(value, 2)
  {
    var t := Trim(value);
    hide Trim, Match, Num, Digits;
    if Match(t).Some? && |Match(t).value.fraction| <= 2 {
      var m := Match(t).value;
      MatchSound(t);
      ReadsAs(value, m, 2);
      NumOfConcat(m.whole, PadEnd(m.fraction, 2));
      assert Pow10(2) == 100;
    }
  }

  /** So are the two printers. */
  lemma PrintersAgree(amount: int)
    requires IsSafe(amount)
    ensures ToDecimalString(amount, 2) == Ok(ToMajorString(amount))
  {
    var n := Abs(amount);
    LastTwo(n);
    hide PadStart, Str;
    var digits, whole, pence := PadStart(Str(n), 3), Str(n / 100), PadStart(Str(n % 100), 2);
    assert digits[..|digits| - 2] == whole && digits[|digits| - 2..] == pence;
    assert Shown(amount, 2) == Numeral(amount < 0, whole, pence);
    assert ToMajorString(amount) == (if amount < 0 then "-" else "") + whole + "." + pence;
    assert whole + "." + pence == whole + ("." + pence);
    assert "-" + whole + "." + pence == "-" + (whole + ("." + pence));
    assert "" + whole + "." + pence == whole + ("." + pence);
  }

  lemma TwoDigits(n: nat)
    requires n < 100
    ensures PadStart(Str(n), 2) == [DigitChar(n / 10), DigitChar(n % 10)]
  {
    if n < 10 {
      assert Zeros(1) == [DigitChar(0)];
    }
  }

  lemma DropTwoDigits(n: nat)
    requires n >= 100
    ensures Str(n) == Str(n / 100) + [DigitChar(n % 100 / 10), DigitChar(n % 100 % 10)]
  {
    TensAndUnits(n);
    assert Str(n) == Str(n / 10) + [DigitChar(n % 10)];
    assert Str(n / 10) == Str(n / 10 / 10) + [DigitChar(n / 10 % 10)];
  }

  lemma TensAndUnits(n: nat)
    ensures n / 10 / 10 == n / 100 && n / 10 % 10 == n % 100 / 10 && n % 10 == n % 100 % 10
  {
  }

  lemma LastTwo(n: nat)
    ensures PadStart(Str(n), 3) == Str(n / 100) + PadStart(Str(n % 100), 2)
    ensures |PadStart(Str(n % 100), 2)| == 2
  {
    TwoDigits(n % 100);
    if n >= 100 {
      DropTwoDigits(n);
      hide Str;
    } else {
      assert |Str(n)| <= 2;
      hide Str;
      assert Str(0) == "0" by { ZeroDigits(); }
      OneMoreZero(Str(n), 3);
    }
  }

  lemma ZeroDigits()
    ensures Str(0) == "0"
  {
  }

  /** Reading at more places multiplies by the matching power of ten. */
  lemma RescaleKeepsTheNumber(value: string, decimalPlaces: nat, more: nat)
    requires FromDecimalString(value, decimalPlaces).Ok?
    requires FromDecimalString(value, decimalPlaces + more).Ok?
    ensures FromDecimalString(value, decimalPlaces + more).value
         == FromDecimalString(value, decimalPlaces).value * Pow10(more)
  {
    hide *;
    var m := Accepted(value, decimalPlaces);
    var m' := Accepted(value, decimalPlaces + more);
    ScaledAtMorePlaces(m, decimalPlaces, more);
    Opposite(Scaled(m, decimalPlaces), Pow10(more));
  }

  lemma ScaledAtMorePlaces(m: Numeral, decimalPlaces: nat, more: nat)
    requires m.WellFormed() && |m.fraction| <= decimalPlaces
    ensures Scaled(m, decimalPlaces + more) == Scaled(m, decimalPlaces) * Pow10(more)
  {
    hide Num, Digits;
    var few, many := PadEnd(m.fraction, decimalPlaces), PadEnd(m.fraction, decimalPlaces + more);
    assert many == few + Zeros(more);
    assert m.whole + many == (m.whole + few) + Zeros(more);
    NumOfConcat(m.whole + few, Zeros(more));
    NumOfZeros(more);
  }
}
