/**
 * The parts of Go's `strconv` package the loader relies on:
 * `ParseInt(s, 10, 64)` (through `ParseUint(s, 10, 64)`), and the
 * renderings `FormatInt(n, 10)` and `FormatBool` used to state round trips.
 * Go's fixed-width unsigned arithmetic is written out on unbounded naturals:
 * every accumulator stays at or below 2^64 - 1, and the one place Go detects
 * wrap-around (`n1 < n`) is the test `n1 > MaxUint64`.
 */
module Strconv {
  import opened Wrappers

  newtype int64 = x: int | -0x8000_0000_0000_0000 <= x < 0x8000_0000_0000_0000

  const MaxUint64: nat := 0xFFFF_FFFF_FFFF_FFFF
  /** Go's `cutoff` for base 10: the smallest accumulator whose product by 10 overflows. */
  const Cutoff: nat := MaxUint64 / 10 + 1

  /** The `Err` field of Go's `*NumError`. */
  datatype NumError = ErrSyntax | ErrRange

  predicate IsDigit(c: char) {
    '0' <= c <= '9'
  }

  predicate AllDigits(s: string) {
    forall i :: 0 <= i < |s| ==> IsDigit(s[i])
  }

  function DigitValue(c: char): nat
    requires IsDigit(c)
  {
    (c as int) - ('0' as int)
  }

  function DigitChar(d: nat): char
    requires d < 10
  {
    (('0' as int) + d) as char
  }

  predicate InInt64(x: int) {
    -0x8000_0000_0000_0000 <= x < 0x8000_0000_0000_0000
  }

  // ---------------------------------------------------------------------
  // Reference meaning of a decimal literal

  /** The positional value of a digit string, most significant digit first. */
  function DigitsValue(s: string): nat
    requires AllDigits(s)
  {
    if s == [] then 0 else DigitsValue(s[..|s| - 1]) * 10 + DigitValue(s[|s| - 1])
  }

  /** `s` without one leading sign character. */
  function Unsigned(s: string): string {
    if s != [] && (s[0] == '+' || s[0] == '-') then s[1..] else s
  }

  /** An optional `+` or `-` followed by one or more ASCII digits. */
  predicate IsDecimal(s: string) {
    Unsigned(s) != [] && AllDigits(Unsigned(s))
  }

  function DecimalValue(s: string): int
    requires IsDecimal(s)
  {
    if s[0] == '-' then -(DigitsValue(Unsigned(s)) as int) else DigitsValue(Unsigned(s))
  }

  // ---------------------------------------------------------------------
  // strconv.ParseUint(s, 10, 64) and strconv.ParseInt(s, 10, 64)

  /** The digit loop of `ParseUint`, continuing from accumulator `n`: a
      non-digit is a syntax error, and so is `_` since the base is not 0;
      an accumulator at or above the cutoff, or a sum above 2^64 - 1, is a
      range error. */
  function ParseUintFrom(s: string, n: nat): (r: Result<nat, NumError>)
    requires n <= MaxUint64
    ensures r.Ok? ==> n <= r.value <= MaxUint64
    decreases |s|
  {
    if s == [] then Ok(n)
    else if !IsDigit(s[0]) then Err(ErrSyntax)
    else if n >= Cutoff then Err(ErrRange)
    else
      var n1 := n * 10 + DigitValue(s[0]);
      if n1 > MaxUint64 then Err(ErrRange) else ParseUintFrom(s[1..], n1)
  }

  /** `strconv.ParseUint(s, 10, 64)`: accepts exactly the non-empty digit
      strings whose value is at most 2^64 - 1, and returns that value. */
  function ParseUint(s: string): (r: Result<nat, NumError>)
    ensures r.Ok? <==> s != [] && AllDigits(s) && DigitsValue(s) <= MaxUint64
    ensures r.Ok? ==> r.value == DigitsValue(s)
  {
    if s == [] then Err(ErrSyntax)
    else
      ParseUintFromAgrees(s, 0);
      if AllDigits(s) then
        AccumulateIsDigitsValue(s);
        ParseUintFrom(s, 0)
      else
        ParseUintFrom(s, 0)
  }

  /** `strconv.ParseInt(s, 10, 64)`: accepts exactly an optional sign
      followed by decimal digits whose value lies in the int64 range, and
      returns that value; everything else, overflow included, is an error.
      Go goes on after a range error from `ParseUint` with the accumulator
      at 2^64 - 1, which then fails the int64 cutoff test, so every error
      of `ParseUint` is passed on. */
  function ParseInt(s: string): (r: Result<int64, NumError>)
    ensures r.Ok? <==> IsDecimal(s) && InInt64(DecimalValue(s))
    ensures r.Ok? ==> r.value as int == DecimalValue(s)
  {
    if s == [] then Err(ErrSyntax)
    else
      var neg := s[0] == '-';
      match ParseUint(Unsigned(s))
      case Err(e) => Err(e)
      case Ok(un) =>
        if !neg && un >= 0x8000_0000_0000_0000 then Err(ErrRange)
        else if neg && un > 0x8000_0000_0000_0000 then Err(ErrRange)
        else if neg then Ok((-(un as int)) as int64)
        else Ok(un as int64)
  }

  // ---------------------------------------------------------------------
  // The parser agrees with the reference meaning

  /** The digit loop without any bound: the value of `s` read after `n`. */
  function Accumulate(n: nat, s: string): nat
    requires AllDigits(s)
    decreases |s|
  {
    if s == [] then n else Accumulate(n * 10 + DigitValue(s[0]), s[1..])
  }

  lemma {:induction false} AccumulateGrows(n: nat, s: string)
    requires AllDigits(s)
    ensures Accumulate(n, s) >= n
    ensures s != [] ==> Accumulate(n, s) >= n * 10
    decreases |s|
  {
    if s != [] {
      AccumulateGrows(n * 10 + DigitValue(s[0]), s[1..]);
    }
  }

  lemma {:induction false} AccumulateSnoc(n: nat, s: string, c: char)
    requires AllDigits(s) && IsDigit(c)
    ensures AllDigits(s + [c])
    ensures Accumulate(n, s + [c]) == Accumulate(n, s) * 10 + DigitValue(c)
    decreases |s|
  {
    if s != [] {
      assert (s + [c])[1..] == s[1..] + [c];
      AccumulateSnoc(n * 10 + DigitValue(s[0]), s[1..], c);
    }
  }

  /** Reading digits left to right from zero gives their positional value. */
  lemma {:induction false} AccumulateIsDigitsValue(s: string)
    requires AllDigits(s)
    ensures Accumulate(0, s) == DigitsValue(s)
    decreases |s|
  {
    if s != [] {
      var init := s[..|s| - 1];
      AccumulateIsDigitsValue(init);
      AccumulateSnoc(0, init, s[|s| - 1]);
      assert init + [s[|s| - 1]] == s;
    }
  }

  /** The bounded digit loop succeeds exactly when the text is all digits
      and its unbounded value fits in 64 bits, and then yields that value. */
  lemma {:induction false} ParseUintFromAgrees(s: string, n: nat)
    requires n <= MaxUint64
    ensures ParseUintFrom(s, n).Ok? <==> AllDigits(s) && Accumulate(n, s) <= MaxUint64
    ensures ParseUintFrom(s, n).Ok? ==> ParseUintFrom(s, n).value == Accumulate(n, s)
    decreases |s|
  {
    if s != [] && IsDigit(s[0]) {
      var n1 := n * 10 + DigitValue(s[0]);
      var allDigits := AllDigits(s);
      assert allDigits <==> AllDigits(s[1..]) by {
        if AllDigits(s[1..]) {
          assert forall i :: 1 <= i < |s| ==> s[i] == s[1..][i - 1];
        }
      }
      if allDigits {
        AccumulateGrows(n, s);
        AccumulateGrows(n1, s[1..]);
      }
      if n < Cutoff && n1 <= MaxUint64 {
        ParseUintFromAgrees(s[1..], n1);
      }
    } else if s != [] {
      assert !AllDigits(s);
    }
  }

  // ---------------------------------------------------------------------
  // Renderings and round trips

  /** `strconv.FormatUint(m, 10)`: digits without leading zeros. */
  function FormatUint(m: nat): (r: string)
    ensures r != [] && AllDigits(r)
    ensures r[0] != '0' || m == 0
  {
    if m < 10 then [DigitChar(m)] else FormatUint(m / 10) + [DigitChar(m % 10)]
  }

  /** `strconv.FormatInt(n, 10)`. */
  function FormatInt(n: int64): string {
    if n < 0 then "-" + FormatUint(-(n as int)) else FormatUint(n as int)
  }

  /** `strconv.FormatBool`. */
  function FormatBool(b: bool): string {
    if b then "true" else "false"
  }

  lemma {:induction false} FormatUintValue(m: nat)
    ensures DigitsValue(FormatUint(m)) == m
    decreases m
  {
    if m >= 10 {
      FormatUintValue(m / 10);
      var r := FormatUint(m);
      assert r[..|r| - 1] == FormatUint(m / 10);
    }
  }

  /** The decimal rendering of an int64 is a decimal literal denoting it. */
  lemma FormatIntIsDecimal(n: int64)
    ensures IsDecimal(FormatInt(n))
    ensures DecimalValue(FormatInt(n)) == n as int
  {
    var s := FormatInt(n);
    if n < 0 {
      var m: nat := -(n as int);
      assert s == "-" + FormatUint(m);
      assert Unsigned(s) == FormatUint(m);
      FormatUintValue(m);
    } else {
      var m: nat := n as int;
      assert s == FormatUint(m);
      assert s[0] != '+' && s[0] != '-';
      FormatUintValue(m);
    }
  }

  /** Parsing the rendering of any int64 gives it back. */
  lemma ParseFormatInt(n: int64)
    ensures ParseInt(FormatInt(n)) == Ok(n)
  {
    FormatIntIsDecimal(n);
  }
}
