/**
 * Base-10 integer literals as accepted by Go's big.Int.SetString(s, 10) and
 * strconv.ParseInt(s, 10, 64): an optional '+' or '-' sign followed by one or more
 * decimal digits, with nothing before or after (no spaces, no underscores, no prefix).
 * Also the inverse direction, big.Int.Text(10).
 */
module Decimal {
  import opened Wrappers

  predicate IsDigit(c: char) { '0' <= c <= '9' }

  function DigitValue(c: char): (d: nat)
    requires IsDigit(c)
    ensures d < 10
  {
    (c as int) - ('0' as int)
  }

  function DigitChar(d: nat): (c: char)
    requires d < 10
    ensures IsDigit(c) && DigitValue(c) == d
  {
    (('0' as int) + d) as char
  }

  predicate AllDigits(s: string) { forall i :: 0 <= i < |s| ==> IsDigit(s[i]) }

  predicate IsSign(c: char) { c == '+' || c == '-' }

  /** The accepted grammar: [+-]?[0-9]+ */
  predicate IsLiteral(s: string) {
    if |s| > 0 && IsSign(s[0]) then |s| > 1 && AllDigits(s[1..])
    else |s| > 0 && AllDigits(s)
  }

  /** The value of a digit string, most significant digit first. */
  function DigitsValue(s: string): nat
    requires AllDigits(s)
  {
    if s == [] then 0 else 10 * DigitsValue(s[..|s| - 1]) + DigitValue(s[|s| - 1])
  }

  /** The mathematical value a literal denotes. */
  function LiteralValue(s: string): int
    requires IsLiteral(s)
  {
    if s[0] == '-' then -(DigitsValue(s[1..]) as int)
    else if s[0] == '+' then DigitsValue(s[1..])
    else DigitsValue(s)
  }

  /** The digit scanner: consumes the whole string left to right, accumulating
      acc * 10 + digit, and fails on the first non-digit. */
  function ScanDigits(s: string, acc: nat): Option<nat>
  {
    if s == [] then Some(acc)
    else if IsDigit(s[0]) then ScanDigits(s[1..], acc * 10 + DigitValue(s[0]))
    else None
  }

  lemma {:induction false} ScanDigitsSucceeds(s: string, acc: nat)
    ensures ScanDigits(s, acc).Some? <==> AllDigits(s)
  {
    if s != [] {
      ScanDigitsSucceeds(s[1..], acc * 10 + (if IsDigit(s[0]) then DigitValue(s[0]) else 0));
      if !IsDigit(s[0]) {
        assert !AllDigits(s);
      } else {
        assert AllDigits(s) <==> AllDigits(s[1..]) by {
          if AllDigits(s[1..]) {
            forall i | 0 <= i < |s| ensures IsDigit(s[i]) {
              if i > 0 { assert s[i] == s[1..][i - 1]; }
            }
          }
        }
      }
    }
  }

  /** Scanning one more digit at the end multiplies the accumulated value by ten. */
  lemma {:induction false} ScanDigitsSnoc(s: string, c: char, acc: nat)
    requires AllDigits(s) && IsDigit(c)
    ensures ScanDigits(s, acc).Some? && ScanDigits(s + [c], acc) == Some(ScanDigits(s, acc).value * 10 + DigitValue(c))
  {
    ScanDigitsSucceeds(s, acc);
    if s == [] {
      assert s + [c] == [c];
    } else {
      assert (s + [c])[1..] == s[1..] + [c];
      assert AllDigits(s[1..]);
      ScanDigitsSnoc(s[1..], c, acc * 10 + DigitValue(s[0]));
    }
  }

  /** The scanner computes exactly the value DigitsValue assigns. */
  lemma {:induction false} ScanDigitsValue(s: string)
    requires AllDigits(s)
    ensures ScanDigits(s, 0) == Some(DigitsValue(s))
  {
    if s != [] {
      var p, c := s[..|s| - 1], s[|s| - 1];
      assert s == p + [c];
      assert AllDigits(p);
      ScanDigitsValue(p);
      ScanDigitsSnoc(p, c, 0);
    }
  }

  /** The parser behind both decoders: sign handling followed by the digit scanner. */
  function Parse(s: string): (r: Option<int>)
    ensures r.Some? <==> IsLiteral(s)
    ensures r.Some? ==> r.value == LiteralValue(s)
  {
    if |s| == 0 then None
    else
      var neg := s[0] == '-';
      var body := if IsSign(s[0]) then s[1..] else s;
      ScanDigitsSucceeds(body, 0);
      if |body| == 0 then None
      else
        match ScanDigits(body, 0)
        case None => None
        case Some(m) =>
          ScanDigitsValue(body);
          Some(if neg then -(m as int) else m)
  }

  /** big.Int.Text(10) for a non-negative value: shortest digit string, no sign. */
  function FormatNat(n: nat): (s: string)
    ensures |s| > 0 && AllDigits(s)
    ensures s[0] == '0' ==> n == 0 && s == "0"
  {
    if n < 10 then [DigitChar(n)] else FormatNat(n / 10) + [DigitChar(n % 10)]
  }

  /** big.Int.Text(10): a '-' for negative values, never a '+', no leading zeros. */
  function FormatInt(n: int): (s: string)
    ensures |s| > 0 && (s[0] == '-' <==> n < 0)
    ensures n >= 0 ==> AllDigits(s)
    ensures n < 0 ==> AllDigits(s[1..])
  {
    if n < 0 then "-" + FormatNat(-n) else FormatNat(n)
  }

  /** The literals big.Int.Text(10) can produce. */
  predicate IsCanonical(s: string) {
    if |s| > 0 && s[0] == '-' then |s| > 1 && AllDigits(s[1..]) && s[1] != '0'
    else |s| > 0 && AllDigits(s) && (s[0] == '0' ==> s == "0")
  }

  lemma {:induction false} FormatNatValue(n: nat)
    ensures DigitsValue(FormatNat(n)) == n
  {
    var s := FormatNat(n);
    if n >= 10 {
      FormatNatValue(n / 10);
      assert s[..|s| - 1] == FormatNat(n / 10);
    }
  }

  lemma {:induction false} LeadingNonZeroPositive(s: string)
    requires |s| > 0 && AllDigits(s) && s[0] != '0'
    ensures DigitsValue(s) > 0
  {
    if |s| > 1 {
      LeadingNonZeroPositive(s[..|s| - 1]);
    }
  }

  /** A digit string without a superfluous leading zero is what FormatNat prints for its value. */
  lemma {:induction false} FormatNatOfDigits(s: string)
    requires |s| > 0 && AllDigits(s) && (s[0] == '0' ==> s == "0")
    ensures FormatNat(DigitsValue(s)) == s
  {
    var p, c := s[..|s| - 1], s[|s| - 1];
    if |s| == 1 {
      assert DigitsValue(s) == DigitValue(c) by { assert DigitsValue(p) == 0; }
    } else {
      assert p[0] == s[0];
      LeadingNonZeroPositive(p);
      FormatNatOfDigits(p);
      var v := DigitsValue(s);
      assert v / 10 == DigitsValue(p) && v % 10 == DigitValue(c);
      assert s == p + [c];
    }
  }

  /** Formatting then parsing gives the value back, at any magnitude. */
  lemma ParseFormat(n: int)
    ensures IsCanonical(FormatInt(n))
    ensures Parse(FormatInt(n)) == Some(n)
  {
    var s := FormatInt(n);
    if n < 0 {
      FormatNatValue(-n);
      assert s[1..] == FormatNat(-n);
    } else {
      FormatNatValue(n);
    }
  }

  /** Parsing a canonical literal then formatting gives the literal back. */
  lemma FormatParse(s: string)
    requires IsCanonical(s)
    ensures Parse(s).Some? && FormatInt(Parse(s).value) == s
  {
    if s[0] == '-' {
      FormatNatOfDigits(s[1..]);
      LeadingNonZeroPositive(s[1..]);
      assert s == "-" + s[1..];
    } else {
      FormatNatOfDigits(s);
    }
  }
}
