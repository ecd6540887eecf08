/**
 Fixed-point rendering of the numbers the controller sends.

 The controller formats every axis value and the feed speed with two
 digits after the decimal point and a '.' separator whatever the host
 locale. The model keeps such a value as a whole number of hundredths,
 so 105.00 is 10500 and -55.00 is -5500; rounding of arbitrary binary
 floating-point values is not modelled. Parsing is the partner of
 rendering: every rendered value parses back to itself.
 */
module FixedPoint {
  import opened Wrappers

  predicate IsDigit(ch: char) {
    '0' <= ch <= '9'
  }

  predicate AllDigits(s: string) {
    forall i :: 0 <= i < |s| ==> IsDigit(s[i])
  }

  function DigitValue(ch: char): (d: nat)
    requires IsDigit(ch)
    ensures d < 10
  {
    ch as int - '0' as int
  }

  function DigitChar(d: nat): (ch: char)
    requires d < 10
    ensures IsDigit(ch) && DigitValue(ch) == d
  {
    ('0' as int + d) as char
  }

  /** The decimal value of a string of digits, most significant first. */
  function DigitsValue(s: string): nat
    requires AllDigits(s)
  {
    if |s| == 0 then 0 else DigitsValue(s[..|s| - 1]) * 10 + DigitValue(s[|s| - 1])
  }

  /** The shortest decimal numeral of n: no leading zero unless n is 0. */
  function Digits(n: nat): (s: string)
    ensures |s| >= 1 && AllDigits(s)
    ensures s[0] != '0' || |s| == 1
    ensures DigitsValue(s) == n
    decreases n
  {
    if n < 10 then [DigitChar(n)]
    else
      var s := Digits(n / 10) + [DigitChar(n % 10)];
      assert s[..|s| - 1] == Digits(n / 10);
      s
  }

  /** A whole part as "%.2f" writes it: at least one digit, and no leading zero unless it is "0". */
  predicate NoLeadingZero(w: string) {
    |w| >= 1 && (w[0] != '0' || |w| == 1)
  }

  /** The shape of an unsigned "%.2f" numeral: a whole part, a '.', and two digits. */
  predicate IsUnsigned2(u: string) {
    && |u| >= 4 && AllDigits(u[..|u| - 3]) && NoLeadingZero(u[..|u| - 3])
    && u[|u| - 3] == '.' && IsDigit(u[|u| - 2]) && IsDigit(u[|u| - 1])
  }

  /** The numeral of a non-negative number of hundredths: "<whole>.<dd>". */
  function Unsigned2(m: nat): (s: string)
    ensures IsUnsigned2(s)
    ensures DigitsValue(s[..|s| - 3]) * 100 + DigitValue(s[|s| - 2]) * 10 + DigitValue(s[|s| - 1]) == m
  {
    var whole := Digits(m / 100);
    var s := whole + "." + [DigitChar(m % 100 / 10), DigitChar(m % 10)];
    assert s[..|s| - 3] == whole;
    HundredthsSplit(m);
    s
  }

  /** A number of hundredths is its whole part, its tenths digit and its hundredths digit. */
  lemma HundredthsSplit(m: nat)
    ensures (m / 100) * 100 + (m % 100 / 10) * 10 + m % 10 == m
  {
    var q, r := m / 100, m % 100;
    var t, u := r / 10, r % 10;
    assert m == q * 100 + r;
    assert r == t * 10 + u;
    assert m == (q * 10 + t) * 10 + u;
    LastDigitUnique(m, q * 10 + t, u);
  }

  /** Writing m as k tens plus a digit u pins u down as m's last digit. */
  lemma LastDigitUnique(m: int, k: int, u: int)
    requires m == k * 10 + u && 0 <= u < 10
    ensures m % 10 == u
  {
  }

  /**
   A value in hundredths rendered as Java's "%.2f" renders it under the
   root locale: an optional minus sign, the whole part, a '.', and
   exactly two fraction digits.
   */
  function Fixed2(v: int): (s: string)
    ensures |s| >= 4 && s[|s| - 3] == '.' && IsDigit(s[|s| - 2]) && IsDigit(s[|s| - 1])
    ensures (s[0] == '-') <==> v < 0
    ensures forall i :: 0 <= i < |s| ==> s[i] == '-' || s[i] == '.' || IsDigit(s[i])
    ensures IsUnsigned2(if v < 0 then s[1..] else s)
  {
    if v < 0 then
      var u := Unsigned2(-v);
      assert ("-" + u)[1..] == u;
      "-" + u
    else Unsigned2(v)
  }

  /** Reads back "<digits>.<d><d>" as a number of hundredths. */
  function ParseUnsigned2(t: string): (r: Option<nat>)
    ensures r.Some? ==> |t| >= 4 && t[|t| - 3] == '.'
  {
    if |t| >= 4 && t[|t| - 3] == '.' && IsDigit(t[|t| - 2]) && IsDigit(t[|t| - 1])
       && AllDigits(t[..|t| - 3])
    then Some(DigitsValue(t[..|t| - 3]) * 100 + DigitValue(t[|t| - 2]) * 10 + DigitValue(t[|t| - 1]))
    else None
  }

  /** Reads back an optionally signed fixed-point numeral with two decimals. */
  function ParseFixed2(t: string): Option<int>
  {
    if |t| >= 1 && t[0] == '-' then
      var m :- ParseUnsigned2(t[1..]);
      Some(0 - m as int)
    else
      var m :- ParseUnsigned2(t);
      Some(m as int)
  }

  /** Rendering then parsing gives the value back. */
  lemma Fixed2RoundTrip(v: int)
    ensures ParseFixed2(Fixed2(v)) == Some(v)
  {
    if v < 0 {
      var u := Unsigned2(-v);
      assert ("-" + u)[1..] == u;
    } else {
      var u := Unsigned2(v);
      assert u[0] != '-';
    }
  }

  /** Distinct values are rendered as distinct strings. */
  lemma Fixed2Injective(v: int, w: int)
    ensures Fixed2(v) == Fixed2(w) ==> v == w
  {
    Fixed2RoundTrip(v);
    Fixed2RoundTrip(w);
  }

  /**
   The numeral is pinned down by its contract: any text that parses to v,
   starts with '-' exactly when v is negative, and has the unsigned
   "%.2f" shape after the sign is Fixed2(v) itself.
   */
  lemma Fixed2Unique(t: string, v: int)
    requires ParseFixed2(t) == Some(v)
    requires (|t| >= 1 && t[0] == '-') <==> v < 0
    requires IsUnsigned2(if v < 0 then t[1..] else t)
    ensures t == Fixed2(v)
  {
    if v < 0 {
      var m := ParseUnsigned2(t[1..]).value;
      assert v == 0 - m as int;
      SignedUnique(t, m);
      Fixed2Negative(v, m);
    } else {
      Unsigned2Unique(t);
      assert ParseUnsigned2(t).value == v;
    }
  }

  /** A '-' followed by an unsigned numeral of m is "-" and the rendering of m. */
  lemma SignedUnique(t: string, m: nat)
    requires |t| >= 1 && t[0] == '-' && IsUnsigned2(t[1..]) && ParseUnsigned2(t[1..]) == Some(m)
    ensures t == "-" + Unsigned2(m)
  {
    Unsigned2Unique(t[1..]);
    assert t == "-" + t[1..];
  }

  /** One more digit on the right of a positive number's numeral. */
  lemma DigitsSnoc(n: nat, d: nat)
    requires 1 <= n && d < 10
    ensures Digits(n * 10 + d) == Digits(n) + [DigitChar(d)]
  {
    DivModDigit(n, d);
  }

  /** A whole, non-negative number n of units renders as n's digits and ".00". */
  lemma Fixed2Whole(n: nat, whole: string)
    requires Digits(n) == whole
    ensures Fixed2(n * 100) == whole + ".00"
  {
    DivModHundred(n, 0);
    assert [DigitChar(0), DigitChar(0)] == "00";
  }

  lemma Fixed2Negative(v: int, m: nat)
    requires v < 0 && m == -v
    ensures Fixed2(v) == "-" + Unsigned2(m)
  {
  }

  /** An unsigned numeral of the "%.2f" shape is the rendering of the value it parses to. */
  lemma Unsigned2Unique(u: string)
    requires IsUnsigned2(u)
    ensures ParseUnsigned2(u).Some? && Unsigned2(ParseUnsigned2(u).value) == u
  {
    var w := u[..|u| - 3];
    var q := DigitsValue(w);
    var t, e := DigitValue(u[|u| - 2]), DigitValue(u[|u| - 1]);
    var m := q * 100 + t * 10 + e;
    assert ParseUnsigned2(u) == Some(m);
    DivModDigit(t, e);
    DivModHundred(q, t * 10 + e);
    DivModDigit(q * 10 + t, e);
    assert m == (q * 10 + t) * 10 + e;
    DigitsOfValue(w);
    DigitCharOfValue(u[|u| - 2]);
    DigitCharOfValue(u[|u| - 1]);
    assert u == w + "." + [u[|u| - 2], u[|u| - 1]];
  }

  /** A canonical digit string is the numeral of its own value. */
  lemma {:induction false} DigitsOfValue(w: string)
    requires AllDigits(w) && NoLeadingZero(w)
    ensures Digits(DigitsValue(w)) == w
    decreases |w|
  {
    var last := w[|w| - 1];
    DigitCharOfValue(last);
    if |w| == 1 {
      assert DigitsValue(w) == DigitValue(last) by {
        assert DigitsValue(w[..0]) == 0;
      }
      assert w == [last];
    } else {
      var w' := w[..|w| - 1];
      assert w'[0] == w[0];
      DigitsValuePositive(w');
      DigitsOfValue(w');
      DivModDigit(DigitsValue(w'), DigitValue(last));
      assert w == w' + [last];
    }
  }

  /** A digit string with a non-zero first digit has a positive value. */
  lemma {:induction false} DigitsValuePositive(w: string)
    requires AllDigits(w) && |w| >= 1 && w[0] != '0'
    ensures DigitsValue(w) >= 1
    decreases |w|
  {
    if |w| > 1 {
      var w' := w[..|w| - 1];
      assert w'[0] == w[0];
      DigitsValuePositive(w');
    } else {
      assert DigitsValue(w[..0]) == 0;
    }
  }

  lemma DigitCharOfValue(ch: char)
    requires IsDigit(ch)
    ensures DigitChar(DigitValue(ch)) == ch
  {
  }

  /** Dividing a * 10 + d by ten, for a digit d, gives a with remainder d. */
  lemma DivModDigit(a: int, d: int)
    requires 0 <= d < 10
    ensures (a * 10 + d) / 10 == a && (a * 10 + d) % 10 == d
  {
  }

  /** Dividing q * 100 + r by a hundred, for 0 <= r < 100, gives q with remainder r. */
  lemma DivModHundred(q: int, r: int)
    requires 0 <= r < 100
    ensures (q * 100 + r) / 100 == q && (q * 100 + r) % 100 == r
  {
  }
}
