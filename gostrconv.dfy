/**
 * `strconv.Atoi` for Go's 64-bit `int`: an optional sign followed by one or
 * more ASCII decimal digits, with syntax and range errors.
 */
module GoStrconv {
  import opened Results

  /** The two reasons `strconv.Atoi` fails: `strconv.ErrSyntax` and `strconv.ErrRange`. */
  datatype NumError = ErrSyntax | ErrRange

  const MinInt: int := -0x8000_0000_0000_0000
  const MaxInt: int := 0x7FFF_FFFF_FFFF_FFFF
  const MaxUint64: int := 0xFFFF_FFFF_FFFF_FFFF
  /** The smallest accumulator for which `n * 10` overflows a `uint64`. */
  const Cutoff: int := MaxUint64 / 10 + 1

  predicate IsDigit(c: char)
  {
    '0' <= c <= '9'
  }

  function DigitValue(c: char): nat
    requires IsDigit(c)
  {
    c as int - '0' as int
  }

  function DigitChar(d: nat): (c: char)
    requires d < 10
    ensures IsDigit(c) && DigitValue(c) == d
  {
    ('0' as int + d) as char
  }

  predicate AllDigits(s: string)
  {
    forall i | 0 <= i < |s| :: IsDigit(s[i])
  }

  // ---------------------------------------------------- reference meaning

  /** The number a string of decimal digits denotes, read from the right. */
  function DigitsValue(ds: string): nat
    requires AllDigits(ds)
  {
    if ds == [] then 0 else DigitsValue(ds[..|ds| - 1]) * 10 + DigitValue(ds[|ds| - 1])
  }

  /** The text after an optional leading sign. */
  function Unsigned(s: string): string
  {
    if s != [] && (s[0] == '+' || s[0] == '-') then s[1..] else s
  }

  /** A decimal integer literal: an optional '+' or '-' and then one or more digits. */
  predicate IsIntLiteral(s: string)
  {
    Unsigned(s) != [] && AllDigits(Unsigned(s))
  }

  /** The integer a literal denotes, whatever its size. */
  function LiteralValue(s: string): int
    requires IsIntLiteral(s)
  {
    if s[0] == '-' then -(DigitsValue(Unsigned(s)) as int) else DigitsValue(Unsigned(s))
  }

  /** The shortest decimal form of `n` (what `strconv.Itoa` writes). */
  function FormatNat(n: nat): (s: string)
    ensures s != [] && AllDigits(s)
  {
    (if n < 10 then [] else FormatNat(n / 10)) + [DigitChar(n % 10)]
  }

  function FormatInt(n: int): string
  {
    if n < 0 then "-" + FormatNat(-n) else FormatNat(n)
  }

  // ------------------------------------------------------ Go's algorithm

  /**
   * The digit loop of `strconv.ParseUint(s, 10, 64)` from accumulator `n`:
   * a non-digit is a syntax error, and an accumulator that would pass the
   * `uint64` maximum stops the loop with a range error at once.
   */
  function ParseUintFrom(n: nat, s: string): (r: Result<nat, NumError>)
    requires n <= MaxUint64
    decreases |s|
    ensures r.Success? ==> AllDigits(s) && n <= r.value <= MaxUint64
  {
    if s == [] then Success(n)
    else if !IsDigit(s[0]) then Failure(ErrSyntax)
    else if n >= Cutoff then Failure(ErrRange)
    else
      var n1 := n * 10 + DigitValue(s[0]);
      if n1 > MaxUint64 then Failure(ErrRange)
      else ParseUintFrom(n1, s[1..])
  }

  /**
   * `strconv.Atoi(s)` on a 64-bit platform, following `ParseInt(s, 10, 0)`:
   * strip one sign, parse the digits as a `uint64`, then check the `int`
   * range (the magnitude may reach 2^63 only when negative). The short-input
   * fast path of `Atoi` gives the same answers and is not written separately.
   */
  function Atoi(s: string): (r: Result<int, NumError>)
    ensures r.Success? ==> IsIntLiteral(s) && MinInt <= r.value <= MaxInt
  {
    if s == [] then Failure(ErrSyntax)
    else
      var neg := s[0] == '-';
      var digits := Unsigned(s);
      if digits == [] then Failure(ErrSyntax)
      else match ParseUintFrom(0, digits)
        case Failure(e) => Failure(e)
        case Success(un) =>
          if !neg && un >= 0x8000_0000_0000_0000 then Failure(ErrRange)
          else if neg && un > 0x8000_0000_0000_0000 then Failure(ErrRange)
          else Success(if neg then -(un as int) else un as int)
  }

  // ------------------------------------------------------------- lemmas

  /** Appending digits never makes the value smaller. */
  lemma {:induction false} DigitsValueGrows(a: string, b: string)
    requires AllDigits(a) && AllDigits(b)
    ensures AllDigits(a + b) && DigitsValue(a + b) >= DigitsValue(a)
  {
    assert AllDigits(a + b);
    if b != [] {
      var b' := b[..|b| - 1];
      assert (a + b)[..|a + b| - 1] == a + b';
      DigitsValueGrows(a, b');
    } else {
      assert a + b == a;
    }
  }

  /** One more digit on the right multiplies by ten and adds it. */
  lemma DigitsValueSnoc(p: string, c: char)
    requires AllDigits(p) && IsDigit(c)
    ensures AllDigits(p + [c]) && DigitsValue(p + [c]) == DigitsValue(p) * 10 + DigitValue(c)
  {
    assert (p + [c])[..|p|] == p;
  }

  /**
   * Go's digit loop computes `DigitsValue`: started on the value of the
   * digits already read, it yields the value of all of them, a range error
   * exactly when that value passes the `uint64` maximum, and an error of
   * some kind whenever a non-digit follows.
   */
  lemma {:induction false} ParseUintFromDigits(p: string, d: string)
    requires AllDigits(p) && DigitsValue(p) <= MaxUint64
    decreases |d|
    ensures var r := ParseUintFrom(DigitsValue(p), d);
      && (AllDigits(d) ==> AllDigits(p + d))
      && (AllDigits(d) && DigitsValue(p + d) <= MaxUint64 ==> r == Success(DigitsValue(p + d)))
      && (AllDigits(d) && DigitsValue(p + d) > MaxUint64 ==> r == Failure(ErrRange))
      && (!AllDigits(d) ==> r.Failure?)
  {
    if d == [] {
      assert p + d == p;
    } else if IsDigit(d[0]) {
      var p' := p + [d[0]];
      DigitsValueSnoc(p, d[0]);
      assert p' + d[1..] == p + d;
      if AllDigits(d) {
        assert AllDigits(d[1..]);
        DigitsValueGrows(p', d[1..]);
      } else {
        assert !AllDigits(d[1..]);
      }
      if DigitsValue(p) < Cutoff && DigitsValue(p') <= MaxUint64 {
        ParseUintFromDigits(p', d[1..]);
      }
    }
  }

  /**
   * Atoi accepts exactly the decimal literals whose value fits a 64-bit
   * `int`, and returns that value; a literal outside the range is a range
   * error, and anything else (the empty string, a lone sign, a stray
   * character) is an error.
   */
  lemma AtoiMatchesLiteral(s: string)
    ensures Atoi(s).Success? <==> IsIntLiteral(s) && MinInt <= LiteralValue(s) <= MaxInt
    ensures Atoi(s).Success? ==> Atoi(s).value == LiteralValue(s)
    ensures IsIntLiteral(s) && Atoi(s).Failure? ==> Atoi(s).error == ErrRange
  {
    if Unsigned(s) != [] {
      ParseUintFromDigits([], Unsigned(s));
      assert [] + Unsigned(s) == Unsigned(s);
    }
  }

  /** The empty string, what `Get` yields for an absent key, is a syntax error. */
  lemma AtoiEmpty()
    ensures Atoi("") == Failure(ErrSyntax)
  {
  }

  /** Reading the digits `FormatNat` writes gives the number back. */
  lemma {:induction false} FormatNatValue(n: nat)
    ensures DigitsValue(FormatNat(n)) == n
  {
    var s := FormatNat(n);
    var c := DigitChar(n % 10);
    var p := if n < 10 then [] else FormatNat(n / 10);
    assert s == p + [c];
    DigitsValueSnoc(p, c);
    if n >= 10 {
      FormatNatValue(n / 10);
    }
  }

  /** Round trip: Atoi reads back every `int` written in decimal, and refuses every larger magnitude. */
  lemma AtoiFormatInt(n: int)
    ensures IsIntLiteral(FormatInt(n)) && LiteralValue(FormatInt(n)) == n
    ensures MinInt <= n <= MaxInt ==> Atoi(FormatInt(n)) == Success(n)
    ensures !(MinInt <= n <= MaxInt) ==> Atoi(FormatInt(n)) == Failure(ErrRange)
  {
    var s := FormatInt(n);
    if n < 0 {
      FormatNatValue(-n);
      assert Unsigned(s) == FormatNat(-n);
    } else {
      FormatNatValue(n);
      assert Unsigned(s) == FormatNat(n);
    }
    AtoiMatchesLiteral(s);
  }
}
