/** Decimal text as Python renders integers (`str(n)`) and two-decimal fixed-point numbers
    (`f"{x:.2f}"` and `f"{x:+.2f}"`), together with parsers that invert each rendering. */
module Text {
  import opened Wrappers

  /** The character of decimal digit `d`. */
  function DigitChar(d: nat): (c: char)
    requires d < 10
    ensures '0' <= c <= '9'
    ensures c as int - '0' as int == d
  {
    ('0' as int + d) as char
  }

  /** The value of a decimal digit character. */
  function DigitValue(c: char): (d: nat)
    requires '0' <= c <= '9'
    ensures d < 10 && DigitChar(d) == c
  {
    c as int - '0' as int
  }

  predicate IsDigits(s: string)
  {
    forall i :: 0 <= i < |s| ==> '0' <= s[i] <= '9'
  }

  /** The shape of `str(n)` for a natural `n`: at least one digit and no leading zero. */
  predicate IsCanonical(s: string)
  {
    && |s| > 0
    && IsDigits(s)
    && (s[0] == '0' ==> |s| == 1)
  }

  /** `str(n)`: the shortest decimal representation of `n`. */
  function Decimal(n: nat): (s: string)
    ensures IsCanonical(s)
    ensures |s| == 1 <==> n < 10
    ensures s[0] == '0' <==> n == 0
    decreases n
  {
    if n < 10 then [DigitChar(n)] else Decimal(n / 10) + [DigitChar(n % 10)]
  }

  /** The value of a string of decimal digits, the most significant first. */
  function ParseDecimal(s: string): nat
    requires IsDigits(s)
    decreases |s|
  {
    if |s| == 0 then 0
    else ParseDecimal(s[..|s| - 1]) * 10 + DigitValue(s[|s| - 1])
  }

  /** Parsing the rendering of `n` gives back `n`. */
  lemma {:induction false} ParseDecimalOfDecimal(n: nat)
    ensures ParseDecimal(Decimal(n)) == n
    decreases n
  {
    if n >= 10 {
      var s := Decimal(n);
      assert s[..|s| - 1] == Decimal(n / 10);
      ParseDecimalOfDecimal(n / 10);
    }
  }

  /** A digit string that does not start with `0` denotes a positive number. */
  lemma {:induction false} ParseDecimalPositive(s: string)
    requires |s| > 0 && IsDigits(s) && s[0] != '0'
    ensures ParseDecimal(s) >= 1
    decreases |s|
  {
    if |s| > 1 {
      ParseDecimalPositive(s[..|s| - 1]);
    }
  }

  /** Rendering the value of a canonical digit string gives back the string. */
  lemma {:induction false} DecimalOfParseDecimal(s: string)
    requires IsCanonical(s)
    ensures Decimal(ParseDecimal(s)) == s
    decreases |s|
  {
    if |s| > 1 {
      var p := s[..|s| - 1];
      assert p[0] == s[0];
      ParseDecimalPositive(p);
      DecimalOfParseDecimal(p);
      var n := ParseDecimal(s);
      assert n / 10 == ParseDecimal(p) && n % 10 == DigitValue(s[|s| - 1]);
      assert s == p + [s[|s| - 1]];
    }
  }

  /** Distinct numbers have distinct renderings. */
  lemma DecimalInjective(m: nat, n: nat)
    ensures Decimal(m) == Decimal(n) <==> m == n
  {
    if Decimal(m) == Decimal(n) {
      ParseDecimalOfDecimal(m);
      ParseDecimalOfDecimal(n);
    }
  }

  /** `f"{v / 100:.2f}"` for an integer count `v` of hundredths: the integer part, a point,
      and the hundredths as exactly two digits. */
  function FixedTwo(v: nat): (s: string)
    ensures |s| >= 4 && s[|s| - 3] == '.'
    ensures IsCanonical(s[..|s| - 3])
    ensures IsDigits(s[|s| - 2..])
  {
    var s := Decimal(v / 100) + "." + [DigitChar(v % 100 / 10), DigitChar(v % 10)];
    assert s[..|s| - 3] == Decimal(v / 100);
    s
  }

  /** Reads a two-decimal fixed-point text back into its count of hundredths. */
  function ParseFixedTwo(s: string): (r: Option<nat>)
    ensures r.Some? ==> |s| >= 4 && s[|s| - 3] == '.'
  {
    if |s| >= 4 && s[|s| - 3] == '.' && IsCanonical(s[..|s| - 3]) && IsDigits(s[|s| - 2..]) then
      Some(ParseDecimal(s[..|s| - 3]) * 100
           + DigitValue(s[|s| - 2]) * 10 + DigitValue(s[|s| - 1]))
    else
      None
  }

  /** The two-decimal rendering of `v` is read back as `v`. */
  lemma ParseFixedTwoOfFixedTwo(v: nat)
    ensures ParseFixedTwo(FixedTwo(v)) == Some(v)
  {
    var s := FixedTwo(v);
    assert s[..|s| - 3] == Decimal(v / 100);
    ParseDecimalOfDecimal(v / 100);
  }

  /** Splitting `n * 100 + d1 * 10 + d0` at the hundreds and tens gives back its parts. */
  lemma HundredthsParts(n: nat, d1: nat, d0: nat)
    requires d1 < 10 && d0 < 10
    ensures var v := n * 100 + d1 * 10 + d0;
            v / 100 == n && v % 100 / 10 == d1 && v % 10 == d0
  {
  }

  /** Whatever text is read as `v` is exactly the two-decimal rendering of `v`. */
  lemma FixedTwoOfParseFixedTwo(s: string, v: nat)
    requires ParseFixedTwo(s) == Some(v)
    ensures FixedTwo(v) == s
  {
    var ip := s[..|s| - 3];
    var d1, d0 := DigitValue(s[|s| - 2]), DigitValue(s[|s| - 1]);
    HundredthsParts(ParseDecimal(ip), d1, d0);
    DecimalOfParseDecimal(ip);
    assert s == ip + "." + [s[|s| - 2], s[|s| - 1]];
  }

  /** Distinct counts of hundredths have distinct two-decimal renderings. */
  lemma FixedTwoInjective(u: nat, v: nat)
    ensures FixedTwo(u) == FixedTwo(v) <==> u == v
  {
    if FixedTwo(u) == FixedTwo(v) {
      ParseFixedTwoOfFixedTwo(u);
      ParseFixedTwoOfFixedTwo(v);
    }
  }

  /** `f"{c / 100:+.2f}"` for an integer count `c` of hundredths: the sign is always written,
      `+` for zero and positive values and `-` for negative ones. */
  function SignedFixedTwo(c: int): (s: string)
    ensures |s| >= 5
    ensures s[0] == '+' <==> c >= 0
    ensures s[0] == '-' <==> c < 0
    ensures s[1..] == FixedTwo(if c < 0 then -c else c)
  {
    (if c < 0 then "-" else "+") + FixedTwo(if c < 0 then -c else c)
  }

  /** Reads a signed two-decimal text back into its count of hundredths. */
  function ParseSignedFixedTwo(s: string): (r: Option<int>)
  {
    if |s| >= 1 && (s[0] == '+' || s[0] == '-') then
      match ParseFixedTwo(s[1..])
      case None => None
      case Some(m) =>
        var c: int := if s[0] == '-' then -(m as int) else m;
        Some(c)
    else
      None
  }

  /** The signed rendering of `c` is read back as `c`. */
  lemma ParseSignedOfSigned(c: int)
    ensures ParseSignedFixedTwo(SignedFixedTwo(c)) == Some(c)
  {
    ParseFixedTwoOfFixedTwo(if c < 0 then -c else c);
  }

  /** Whatever signed text is read as `c`, other than the negative zero `-0.00` that the
      renderer never writes, is exactly the signed rendering of `c`. */
  lemma SignedOfParseSigned(s: string, c: int)
    requires ParseSignedFixedTwo(s) == Some(c)
    requires !(s[0] == '-' && c == 0)
    ensures SignedFixedTwo(c) == s
  {
    var t := s[1..];
    var m := ParseFixedTwo(t).value;
    FixedTwoOfParseFixedTwo(t, m);
    var a: nat := if c < 0 then -c else c;
    assert a == m;
    assert SignedFixedTwo(c) == [s[0]] + FixedTwo(a);
    assert s == [s[0]] + t;
  }
}
