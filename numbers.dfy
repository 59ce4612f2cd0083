/**
 * float() applied to the already-stripped value text of a line, over exact
 * reals: an optional sign, decimal digits with at most one decimal point
 * and at least one digit in all (so `1.` and `.5` are numbers, `.` is not),
 * and an optional exponent `e`/`E` with optional sign and at least one
 * digit.  Anything else is a conversion error.
 */
module Numbers {
  import opened Wrappers

  predicate IsDigit(c: char)
  {
    '0' <= c <= '9'
  }

  predicate AllDigits(s: string)
  {
    forall i :: 0 <= i < |s| ==> IsDigit(s[i])
  }

  /** Every character a literal accepted by ParseNumber may contain. */
  predicate IsNumberChar(c: char)
  {
    IsDigit(c) || c == '.' || c == '+' || c == '-' || c == 'e' || c == 'E'
  }

  /** Length of the longest all-digit prefix of s. */
  function DigitRun(s: string): (n: nat)
    ensures n <= |s| && AllDigits(s[..n])
    ensures n == |s| || !IsDigit(s[n])
  {
    if s != [] && IsDigit(s[0]) then
      assert s[..1 + DigitRun(s[1..])] == [s[0]] + s[1..][..DigitRun(s[1..])];
      1 + DigitRun(s[1..])
    else 0
  }

  /** The value of a decimal digit string, most significant digit first. */
  function DigitsValue(ds: string): nat
    requires AllDigits(ds)
  {
    if ds == [] then 0
    else 10 * DigitsValue(ds[..|ds| - 1]) + (ds[|ds| - 1] as int - '0' as int)
  }

  function Pow10(n: nat): (p: nat)
    ensures p >= 1
  {
    if n == 0 then 1 else 10 * Pow10(n - 1)
  }

  /** m * 10^e, exactly. */
  function Scale(m: nat, e: int): real
  {
    if e >= 0 then (m * Pow10(e)) as real else m as real / Pow10(-e) as real
  }

  /** The text after `e`/`E`: an optional sign and one or more digits. */
  function ParseExponent(s: string): Option<int>
  {
    var signed := s != [] && (s[0] == '+' || s[0] == '-');
    var ds := if signed then s[1..] else s;
    if ds != [] && DigitRun(ds) == |ds| then
      assert ds[..|ds|] == ds;
      var e: int := DigitsValue(ds);
      Some(if signed && s[0] == '-' then -e else e)
    else None
  }

  /** What follows the digits of the mantissa: nothing, or an exponent. */
  function ParseExponentPart(tail: string): Option<int>
  {
    if tail == [] then Some(0)
    else if tail[0] == 'e' || tail[0] == 'E' then ParseExponent(tail[1..])
    else None
  }

  /** The digits before and after the point, and the rest of the text. */
  function ParseMantissa(whole: string, frac: string, tail: string): Option<real>
    requires AllDigits(whole) && AllDigits(frac)
  {
    if whole == [] && frac == [] then None
    else
      match ParseExponentPart(tail)
      case None => None
      case Some(e) =>
        assert AllDigits(whole + frac);
        Some(Scale(DigitsValue(whole + frac), e - |frac|))
  }

  /** The whole-number digits have been read; rest starts with the point,
      if there is one. */
  function ParseFraction(whole: string, rest: string): Option<real>
    requires AllDigits(whole)
  {
    if rest != [] && rest[0] == '.' then
      var f := DigitRun(rest[1..]);
      ParseMantissa(whole, rest[1..][..f], rest[1..][f..])
    else ParseMantissa(whole, [], rest)
  }

  /** An unsigned decimal literal with an optional exponent. */
  function ParseUnsigned(s: string): Option<real>
  {
    var n := DigitRun(s);
    ParseFraction(s[..n], s[n..])
  }

  /** float(s) for a string that has already been stripped. */
  function ParseNumber(s: string): (r: Option<real>)
    ensures s == [] ==> r.None?
    ensures r.Some? ==> IsDigit(s[0]) || s[0] == '.' || s[0] == '+' || s[0] == '-'
  {
    if s != [] && (s[0] == '+' || s[0] == '-') then
      match ParseUnsigned(s[1..])
      case None => None
      case Some(v) => Some(if s[0] == '-' then -v else v)
    else ParseUnsigned(s)
  }

  lemma {:induction false} DigitRunOfDigits(ds: string, t: string)
    requires AllDigits(ds)
    requires t == [] || !IsDigit(t[0])
    ensures DigitRun(ds + t) == |ds|
  {
    if ds != [] {
      assert (ds + t)[1..] == ds[1..] + t;
      DigitRunOfDigits(ds[1..], t);
    } else {
      assert ds + t == t;
    }
  }

  /** Without a leading sign, float() reads the text as unsigned. */
  lemma NumberOfUnsigned(s: string)
    requires s == [] || (s[0] != '+' && s[0] != '-')
    ensures ParseNumber(s) == ParseUnsigned(s)
  {
  }

  /** A leading sign is read, and the rest as unsigned. */
  lemma NumberOfSigned(c: char, s: string)
    requires c == '+' || c == '-'
    ensures ParseNumber([c] + s) == match ParseUnsigned(s)
                                    case None => None
                                    case Some(v) => Some(if c == '-' then -v else v)
  {
    assert ([c] + s)[1..] == s;
  }

  /** A plain digit string is read as the integer it spells. */
  lemma ParseInteger(ds: string)
    requires ds != [] && AllDigits(ds)
    ensures ParseNumber(ds) == Some(DigitsValue(ds) as real)
  {
    UnsignedInteger(ds);
    assert !(ds[0] == '+' || ds[0] == '-');
    NumberOfUnsigned(ds);
  }

  lemma UnsignedInteger(ds: string)
    requires AllDigits(ds) && ds != []
    ensures ParseUnsigned(ds) == Some(DigitsValue(ds) as real)
  {
    DigitRunOfDigits(ds, []);
    assert ds + [] == ds;
    assert ds[..|ds|] == ds && ds[|ds|..] == [];
    assert ParseUnsigned(ds) == ParseFraction(ds, []) == ParseMantissa(ds, [], []);
    ScaleNegative(DigitsValue(ds + []), 0);
  }

  /** `<digits>.<digits>` is read as the digits with the point moved left by
      the number of fraction digits. */
  lemma ParseDecimal(ds: string, fs: string)
    requires ds != [] && AllDigits(ds) && AllDigits(fs)
    ensures ParseNumber(ds + "." + fs) == Some(DigitsValue(ds + fs) as real / Pow10(|fs|) as real)
  {
    UnsignedDecimal(ds, fs);
    var s := ds + "." + fs;
    assert s[0] == ds[0];
    assert !(s[0] == '+' || s[0] == '-');
    NumberOfUnsigned(s);
  }

  lemma UnsignedDecimal(ds: string, fs: string)
    requires AllDigits(ds) && AllDigits(fs)
    ensures ParseUnsigned(ds + "." + fs) == ParseMantissa(ds, fs, [])
    ensures ds != [] ==> ParseUnsigned(ds + "." + fs) == Some(DigitsValue(ds + fs) as real / Pow10(|fs|) as real)
  {
    var s := ds + "." + fs;
    assert s == ds + ("." + fs);
    DigitRunOfDigits(ds, "." + fs);
    assert s[..|ds|] == ds;
    assert s[|ds|..] == "." + fs;
    assert ParseUnsigned(s) == ParseFraction(ds, "." + fs);
    FractionOfDigits(ds, fs);
    assert AllDigits(ds + fs);
    ScaleNegative(DigitsValue(ds + fs), |fs|);
  }

  lemma FractionOfDigits(ds: string, fs: string)
    requires AllDigits(ds) && AllDigits(fs)
    ensures ParseFraction(ds, "." + fs) == ParseMantissa(ds, fs, [])
  {
    var rest := "." + fs;
    assert rest[1..] == fs;
    DigitRunOfDigits(fs, []);
    assert fs + [] == fs;
    assert fs[..|fs|] == fs && fs[|fs|..] == [];
  }

  lemma ScaleNegative(m: nat, n: nat)
    ensures Scale(m, 0 - n) == m as real / Pow10(n) as real
  {
    if n == 0 {
      assert Pow10(0) == 1;
    }
  }

  /** A leading minus sign negates. */
  lemma ParseNegative(s: string)
    requires s == [] || (s[0] != '+' && s[0] != '-')
    ensures ParseNumber("-" + s) == match ParseNumber(s)
                                    case None => None
                                    case Some(v) => Some(-v)
  {
    NumberOfUnsigned(s);
    NumberOfSigned('-', s);
    assert "-" + s == ['-'] + s;
  }

  /** A literal accepted by ParseNumber contains a digit and nothing but
      number characters: no whitespace, no colon, no letter except an
      exponent marker. */
  lemma ParseNumberAlphabet(s: string)
    requires ParseNumber(s).Some?
    ensures forall i :: 0 <= i < |s| ==> IsNumberChar(s[i])
    ensures exists i :: 0 <= i < |s| && IsDigit(s[i])
  {
    if s != [] && (s[0] == '+' || s[0] == '-') {
      ParseUnsignedAlphabet(s[1..]);
      assert forall i :: 1 <= i < |s| ==> s[i] == s[1..][i - 1];
    } else {
      ParseUnsignedAlphabet(s);
    }
  }

  lemma ParseUnsignedAlphabet(s: string)
    requires ParseUnsigned(s).Some?
    ensures forall i :: 0 <= i < |s| ==> IsNumberChar(s[i])
    ensures exists i :: 0 <= i < |s| && IsDigit(s[i])
  {
    var n := DigitRun(s);
    var rest := s[n..];
    ParseFractionAlphabet(s[..n], rest);
    forall i | 0 <= i < |s| ensures IsNumberChar(s[i]) {
      if i < n {
        assert s[i] == s[..n][i];
      } else {
        assert s[i] == rest[i - n];
      }
    }
    if n > 0 {
      assert IsDigit(s[..n][0]);
    } else {
      var j :| 0 <= j < |rest| && IsDigit(rest[j]);
      assert s[j] == rest[j];
    }
  }

  lemma ParseFractionAlphabet(whole: string, rest: string)
    requires AllDigits(whole)
    requires ParseFraction(whole, rest).Some?
    ensures forall i :: 0 <= i < |rest| ==> IsNumberChar(rest[i])
    ensures whole == [] ==> exists i :: 0 <= i < |rest| && IsDigit(rest[i])
  {
    if rest != [] && rest[0] == '.' {
      var r := rest[1..];
      var f := DigitRun(r);
      ParseMantissaAlphabet(whole, r[..f], r[f..]);
      assert r == r[..f] + r[f..];
      forall i | 0 <= i < |rest| ensures IsNumberChar(rest[i]) {
        if 1 <= i < 1 + f {
          assert rest[i] == r[..f][i - 1];
        } else if i >= 1 + f {
          assert rest[i] == r[f..][i - 1 - f];
        }
      }
      if whole == [] {
        assert rest[1] == r[..f][0];
      }
    } else {
      ParseMantissaAlphabet(whole, [], rest);
    }
  }

  lemma ParseMantissaAlphabet(whole: string, frac: string, tail: string)
    requires AllDigits(whole) && AllDigits(frac)
    requires ParseMantissa(whole, frac, tail).Some?
    ensures forall i :: 0 <= i < |tail| ==> IsNumberChar(tail[i])
    ensures whole != [] || frac != []
  {
    if tail != [] {
      var s := tail[1..];
      var signed := s != [] && (s[0] == '+' || s[0] == '-');
      var ds := if signed then s[1..] else s;
      assert AllDigits(ds) by { assert ds[..DigitRun(ds)] == ds; }
      forall i | 0 <= i < |tail| ensures IsNumberChar(tail[i]) {
        if i > 1 || (i == 1 && !signed) {
          assert tail[i] == ds[i - 1 - (if signed then 1 else 0)];
        }
      }
    }
  }

  /** `<digits>e<digits>`, with or without a sign after the `e`, is read
      as the digits times that power of ten.  This is how str.format writes
      large values, as in `1e+20`. */
  lemma ParseExponentUnsigned(ds: string, es: string)
    requires ds != [] && AllDigits(ds) && es != [] && AllDigits(es)
    ensures ParseNumber(ds + "e" + es) == Some((DigitsValue(ds) * Pow10(DigitsValue(es))) as real)
  {
    ExponentDigits(es);
    MantissaWithExponent(ds, es, DigitsValue(es));
  }

  lemma ParseExponentPlus(ds: string, es: string)
    requires ds != [] && AllDigits(ds) && es != [] && AllDigits(es)
    ensures ParseNumber(ds + "e+" + es) == Some((DigitsValue(ds) * Pow10(DigitsValue(es))) as real)
  {
    assert ds + "e+" + es == ds + "e" + (['+'] + es);
    ExponentSigned('+', es);
    MantissaWithExponent(ds, ['+'] + es, DigitsValue(es));
  }

  lemma ParseExponentMinus(ds: string, es: string)
    requires ds != [] && AllDigits(ds) && es != [] && AllDigits(es)
    ensures ParseNumber(ds + "e-" + es) == Some(DigitsValue(ds) as real / Pow10(DigitsValue(es)) as real)
  {
    assert ds + "e-" + es == ds + "e" + (['-'] + es);
    ExponentSigned('-', es);
    MantissaWithExponent(ds, ['-'] + es, 0 - DigitsValue(es));
    ScaleNegative(DigitsValue(ds), DigitsValue(es));
  }

  lemma ExponentSigned(c: char, es: string)
    requires (c == '+' || c == '-') && es != [] && AllDigits(es)
    ensures ParseExponent([c] + es) == Some(if c == '-' then 0 - DigitsValue(es) else DigitsValue(es))
  {
    var s := [c] + es;
    assert s[1..] == es;
    DigitRunOfDigits(es, []);
    assert es + [] == es;
    assert s != [] && (s[0] == '+' || s[0] == '-');
  }

  lemma ExponentDigits(es: string)
    requires es != [] && AllDigits(es)
    ensures ParseExponent(es) == Some(DigitsValue(es) as int)
  {
    DigitRunOfDigits(es, []);
    assert es + [] == es;
  }

  /** Integer digits followed by an exponent marker and its text x. */
  lemma MantissaWithExponent(ds: string, x: string, e: int)
    requires ds != [] && AllDigits(ds) && ParseExponent(x) == Some(e)
    ensures ParseNumber(ds + "e" + x) == Some(Scale(DigitsValue(ds), e))
  {
    var s := ds + "e" + x;
    var tail := "e" + x;
    assert s == ds + tail;
    DigitRunOfDigits(ds, tail);
    assert s[..|ds|] == ds && s[|ds|..] == tail;
    assert tail[1..] == x;
    assert ds + [] == ds;
    assert ParseUnsigned(s) == ParseMantissa(ds, [], tail);
    assert s[0] == ds[0];
    NumberOfUnsigned(s);
  }

  /** Texts float() rejects. */
  lemma ParseExampleRejected()
    ensures ParseNumber("") == None
    ensures ParseNumber(".") == None
    ensures ParseNumber("1e") == None
    ensures ParseNumber("abc") == None
  {
    assert DigitRun(".") == 0;
    assert "."[0..] == ".";
    assert "."[1..] == "";
    assert DigitRun("1e") == 1;
    assert "1e"[1..] == "e";
    assert "e"[1..] == "";
    assert DigitRun("abc") == 0;
  }
}
