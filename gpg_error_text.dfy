/**
  Error values transmitted as decimal text. The header keeps the highest
  bit of an error value clear so that a value printed by a careless
  caller as a signed integer never shows a minus sign. Here the printing
  is `%d` applied to the value read as a 32-bit signed integer, and the
  receiving side reads a plain run of decimal digits.
 */
module GpgErrorText {
  import opened GpgError
  import opened GpgErrorProperties

  datatype Option<T> = None | Some(value: T)

  predicate IsDigit(ch: char)
  {
    '0' <= ch <= '9'
  }

  predicate AllDigits(t: string)
  {
    forall i :: 0 <= i < |t| ==> IsDigit(t[i])
  }

  function DigitChar(d: nat): (ch: char)
    requires d < 10
    ensures IsDigit(ch) && ch as int - '0' as int == d
  {
    ['0', '1', '2', '3', '4', '5', '6', '7', '8', '9'][d]
  }

  /** The decimal digits of `n`, most significant first, with no leading
      zero (0 itself is "0"). */
  function Decimal(n: nat): (t: string)
    ensures |t| >= 1 && AllDigits(t)
    ensures |t| > 1 ==> t[0] != '0'
  {
    if n < 10 then [DigitChar(n)] else Decimal(n / 10) + [DigitChar(n % 10)]
  }

  /** The number a run of decimal digits denotes. */
  function DigitsValue(t: string): (n: nat)
    requires AllDigits(t)
  {
    if t == [] then 0
    else DigitsValue(t[..|t| - 1]) * 10 + (t[|t| - 1] as int - '0' as int)
  }

  /** What `%d` writes for an integer. */
  function IntText(x: int): (t: string)
    ensures |t| >= 1
    ensures t[0] == '-' <==> x < 0
  {
    if x < 0 then "-" + Decimal(-x) else Decimal(x)
  }

  /** What `printf("%d", err)` writes for an error value. */
  function SignedText(v: ErrorValue): (t: string)
  {
    IntText(AsSignedInt(v))
  }

  /** A receiver that accepts only a non-empty run of decimal digits. */
  function ReadNumber(t: string): (r: Option<nat>)
    ensures r.Some? <==> |t| >= 1 && AllDigits(t)
  {
    if |t| >= 1 && AllDigits(t) then Some(DigitsValue(t)) else None
  }

  /** Reading back the decimal digits of a number gives the number. */
  lemma {:induction false} DecimalRoundTrip(n: nat)
    ensures DigitsValue(Decimal(n)) == n
  {
    var t := Decimal(n);
    if n >= 10 {
      DecimalRoundTrip(n / 10);
      assert t[..|t| - 1] == Decimal(n / 10);
    }
  }

  /** The receiver reads the decimal text of every number back as that
      number. */
  lemma ReadDecimal(n: nat)
    ensures ReadNumber(Decimal(n)) == Some(n)
  {
    DecimalRoundTrip(n);
  }

  /** A text the receiver accepts and that has no leading zero is the
      decimal text of the number read from it. */
  lemma DecimalOfRead(t: string, n: nat)
    requires ReadNumber(t) == Some(n) && (|t| == 1 || t[0] != '0')
    ensures Decimal(n) == t
  {
    DigitsDecimal(t);
  }

  lemma {:induction false} DigitsDecimal(t: string)
    requires |t| >= 1 && AllDigits(t) && (|t| == 1 || t[0] != '0')
    ensures Decimal(DigitsValue(t)) == t
  {
    var p, d := t[..|t| - 1], t[|t| - 1] as int - '0' as int;
    assert DigitsValue(t) == DigitsValue(p) * 10 + d;
    if |t| == 1 {
      assert p == [];
      assert DigitChar(d) == t[0];
      assert [DigitChar(d)] == t;
    } else {
      assert AllDigits(p) by {
        forall i | 0 <= i < |p| ensures IsDigit(p[i]) { assert p[i] == t[i]; }
      }
      assert p[0] == t[0];
      DigitsDecimal(p);
      assert Decimal(0) == ['0'];
      assert DigitsValue(p) != 0;
      var n := DigitsValue(t);
      assert n / 10 == DigitsValue(p) && n % 10 == d;
      assert DigitChar(d) == t[|t| - 1];
      assert Decimal(n) == p + [t[|t| - 1]];
      assert p + [t[|t| - 1]] == t;
    }
  }

  /** The printed text starts with a minus sign exactly when the highest
      bit of the value is set. */
  lemma SignedTextNegativeIff(v: ErrorValue)
    ensures SignedText(v)[0] == '-' <==> v & HIGH_BIT != 0
  {
    SignedNonNegative(v);
    var x := AsSignedInt(v);
    assert SignedText(v)[0] == '-' <==> x < 0;
  }

  /** A value with the highest bit set would print with a minus sign, and
      the receiver would reject it. */
  lemma HighBitTextRejected(v: ErrorValue)
    requires v & HIGH_BIT != 0
    ensures ReadNumber(SignedText(v)) == None
  {
    SignedTextNegativeIff(v);
    assert !IsDigit(SignedText(v)[0]);
  }

  /** Every value `gpg_err_make` builds survives printing as a signed
      integer and reading back as a plain number. */
  lemma MakeTextRoundTrip(s: ErrorSource, c: ErrorCode)
    ensures ReadNumber(SignedText(ErrMake(s, c))) == Some(ErrMake(s, c) as int)
  {
    var v := ErrMake(s, c);
    MakeNeverNegative(s, c);
    DecimalRoundTrip(v as int);
  }
}
