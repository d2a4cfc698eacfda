/** Text ordering and fixed-width decimal fields.

    SQLite compares TEXT values with its BINARY collation: byte by byte, the
    shorter string first when one is a prefix of the other. On UTF-8 text that
    is the order of code points, which is `LexLess` below. */
module Text {

  /** Strict lexicographic order on strings (SQLite's BINARY collation). */
  predicate LexLess(a: string, b: string)
  {
    if |a| == 0 then |b| > 0
    else if |b| == 0 then false
    else if a[0] != b[0] then a[0] < b[0]
    else LexLess(a[1..], b[1..])
  }

  predicate LexLe(a: string, b: string)
  {
    a == b || LexLess(a, b)
  }

  lemma {:induction false} LexLessIrreflexive(a: string)
    ensures !LexLess(a, a)
  {
    if |a| > 0 {
      LexLessIrreflexive(a[1..]);
    }
  }

  lemma {:induction false} LexLessAsymmetric(a: string, b: string)
    ensures LexLess(a, b) ==> !LexLess(b, a)
  {
    if |a| > 0 && |b| > 0 && a[0] == b[0] {
      LexLessAsymmetric(a[1..], b[1..]);
    }
  }

  lemma {:induction false} LexLessTransitive(a: string, b: string, c: string)
    requires LexLess(a, b) && LexLess(b, c)
    ensures LexLess(a, c)
  {
    if |a| > 0 && a[0] == b[0] && b[0] == c[0] {
      LexLessTransitive(a[1..], b[1..], c[1..]);
    }
  }

  lemma LexLeTransitive(a: string, b: string, c: string)
    requires LexLe(a, b) && LexLe(b, c)
    ensures LexLe(a, c)
  {
    if a != b && b != c {
      LexLessTransitive(a, b, c);
    }
  }

  /** Two different strings are always ordered one way or the other. */
  lemma {:induction false} LexTotal(a: string, b: string)
    ensures a == b || LexLess(a, b) || LexLess(b, a)
  {
    if |a| > 0 && |b| > 0 && a[0] == b[0] {
      LexTotal(a[1..], b[1..]);
      if a[1..] == b[1..] {
        assert a == [a[0]] + a[1..] && b == [b[0]] + b[1..];
      }
    }
  }

  /** Comparing two strings that start with prefixes of the same length
      compares the prefixes first and the rest only on a tie. */
  lemma {:induction false} LexConcat(p: string, s: string, q: string, u: string)
    requires |p| == |q|
    ensures LexLess(p + s, q + u) == (LexLess(p, q) || (p == q && LexLess(s, u)))
  {
    if |p| == 0 {
      assert p + s == s && q + u == u;
    } else {
      assert (p + s)[0] == p[0] && (q + u)[0] == q[0];
      assert (p + s)[1..] == p[1..] + s && (q + u)[1..] == q[1..] + u;
      LexConcat(p[1..], s, q[1..], u);
      if p[0] == q[0] && p[1..] == q[1..] {
        assert p == [p[0]] + p[1..] && q == [q[0]] + q[1..];
      }
      if p == q {
        LexLessIrreflexive(p);
      }
    }
  }

  // ---------------------------------------------------------------------
  // Zero-padded decimal fields, as written by `strftime('%Y')`, `%m`, `%d`.

  function Pow10(w: nat): (r: nat)
    ensures r >= 1
  {
    if w == 0 then 1 else 10 * Pow10(w - 1)
  }

  predicate IsDigit(c: char)
  {
    '0' <= c <= '9'
  }

  predicate AllDigits(s: string)
  {
    forall i :: 0 <= i < |s| ==> IsDigit(s[i])
  }

  function DigitChar(v: nat): (c: char)
    requires v < 10
    ensures IsDigit(c) && c as int - '0' as int == v
  {
    ('0' as int + v) as char
  }

  /** `n` written in decimal with exactly `w` digits, zero-padded on the left. */
  function Digits(n: nat, w: nat): (s: string)
    requires n < Pow10(w)
    ensures |s| == w && AllDigits(s)
  {
    if w == 0 then []
    else
      assert n / 10 < Pow10(w - 1);
      Digits(n / 10, w - 1) + [DigitChar(n % 10)]
  }

  /** The number a string of decimal digits denotes. */
  function ParseDigits(s: string): (n: nat)
    requires AllDigits(s)
    ensures n < Pow10(|s|)
  {
    if s == [] then 0
    else 10 * ParseDigits(s[..|s| - 1]) + (s[|s| - 1] as int - '0' as int)
  }

  lemma {:induction false} ParseDigitsOfDigits(n: nat, w: nat)
    requires n < Pow10(w)
    ensures ParseDigits(Digits(n, w)) == n
  {
    if w > 0 {
      assert n / 10 < Pow10(w - 1);
      var s := Digits(n, w);
      assert s[..w - 1] == Digits(n / 10, w - 1);
      ParseDigitsOfDigits(n / 10, w - 1);
    }
  }

  lemma {:induction false} DigitsOfParseDigits(s: string)
    requires AllDigits(s)
    ensures Digits(ParseDigits(s), |s|) == s
  {
    if s != [] {
      var n := ParseDigits(s);
      var init := s[..|s| - 1];
      assert n / 10 == ParseDigits(init) && n % 10 == s[|s| - 1] as int - '0' as int;
      DigitsOfParseDigits(init);
      assert s == init + [s[|s| - 1]];
    }
  }

  lemma DigitsInjective(a: nat, b: nat, w: nat)
    requires a < Pow10(w) && b < Pow10(w)
    ensures Digits(a, w) == Digits(b, w) <==> a == b
  {
    ParseDigitsOfDigits(a, w);
    ParseDigitsOfDigits(b, w);
  }

  /** Fixed-width decimal fields sort as text exactly as their numbers do. */
  lemma {:induction false} DigitsOrder(a: nat, b: nat, w: nat)
    requires a < Pow10(w) && b < Pow10(w)
    ensures LexLess(Digits(a, w), Digits(b, w)) <==> a < b
  {
    if w == 0 {
    } else {
      assert a / 10 < Pow10(w - 1) && b / 10 < Pow10(w - 1);
      var pa, pb := Digits(a / 10, w - 1), Digits(b / 10, w - 1);
      var ca, cb := [DigitChar(a % 10)], [DigitChar(b % 10)];
      LexConcat(pa, ca, pb, cb);
      DigitsOrder(a / 10, b / 10, w - 1);
      DigitsInjective(a / 10, b / 10, w - 1);
      assert LexLess(ca, cb) <==> a % 10 < b % 10;
      assert a == 10 * (a / 10) + a % 10 && b == 10 * (b / 10) + b % 10;
    }
  }
}
