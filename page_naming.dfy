/**
 * File names of rendered pages: `<stem>_page_<NNNN>.<format>`, where NNNN
 * is the 1-based page number formatted with `{:04d}`. The padding is what
 * makes the order of file names the order of pages.
 */
module PageNaming {
  import opened Strings

  predicate IsDigit(c: char)
  {
    '0' <= c <= '9'
  }

  predicate AllDigits(s: string)
  {
    forall i :: 0 <= i < |s| ==> IsDigit(s[i])
  }

  function DigitChar(d: nat): (c: char)
    requires d < 10
    ensures IsDigit(c)
  {
    ('0' as int + d) as char
  }

  function DigitValue(c: char): int
  {
    c as int - '0' as int
  }

  function Pow10(k: nat): nat
  {
    if k == 0 then 1 else 10 * Pow10(k - 1)
  }

  /** `str(n)` for a non-negative integer: its decimal digits, most significant first. */
  function Decimal(n: nat): (r: string)
    ensures |r| >= 1 && AllDigits(r)
  {
    if n < 10 then [DigitChar(n)] else Decimal(n / 10) + [DigitChar(n % 10)]
  }

  /** The number a string of decimal digits denotes, leading zeros allowed. */
  function Value(s: string): int
  {
    if s == [] then 0 else 10 * Value(s[..|s| - 1]) + DigitValue(s[|s| - 1])
  }

  function Zeros(k: nat): (r: string)
    ensures |r| == k && AllDigits(r)
  {
    seq(k, _ => '0')
  }

  /** `f"{n:04d}"` for `n >= 0`: zero-padded to at least four digits. */
  function Pad4(n: nat): (r: string)
    ensures |r| >= 4 && AllDigits(r)
  {
    var d := Decimal(n);
    if |d| < 4 then Zeros(4 - |d|) + d else d
  }

  /** The name `convert_page_to_image` gives the image of 0-based page `pageNum`. */
  function PageFileName(stem: string, pageNum: nat, format: string): string
  {
    stem + "_page_" + Pad4(pageNum + 1) + "." + format
  }

  lemma {:induction false} DecimalValue(n: nat)
    ensures Value(Decimal(n)) == n
  {
    if n >= 10 {
      DecimalValue(n / 10);
      var d := Decimal(n / 10) + [DigitChar(n % 10)];
      assert d[..|d| - 1] == Decimal(n / 10);
    }
  }

  lemma {:induction false} ZerosValue(k: nat)
    ensures Value(Zeros(k)) == 0
  {
    if k > 0 {
      assert Zeros(k)[..k - 1] == Zeros(k - 1);
      ZerosValue(k - 1);
    }
  }

  /** Leading zeros do not change the value of a digit string. */
  lemma {:induction false} LeadingZerosValue(k: nat, s: string)
    ensures Value(Zeros(k) + s) == Value(s)
  {
    if s == [] {
      assert Zeros(k) + s == Zeros(k);
      ZerosValue(k);
    } else {
      assert (Zeros(k) + s)[..|Zeros(k) + s| - 1] == Zeros(k) + s[..|s| - 1];
      LeadingZerosValue(k, s[..|s| - 1]);
    }
  }

  /** The padded digits read back as the page number: the padding loses nothing. */
  lemma Pad4Value(n: nat)
    ensures Value(Pad4(n)) == n
  {
    DecimalValue(n);
    var d := Decimal(n);
    if |d| < 4 {
      LeadingZerosValue(4 - |d|, d);
    }
  }

  lemma {:induction false} DecimalLength(n: nat, k: nat)
    requires 1 <= k && n < Pow10(k)
    ensures |Decimal(n)| <= k
  {
    if n >= 10 {
      assert Pow10(1) == 10;
      DecimalLength(n / 10, k - 1);
    }
  }

  /** A one-digit page number gets three leading zeros. */
  lemma Pad4OneDigit(n: nat)
    requires n < 10
    ensures Pad4(n) == "000" + [DigitChar(n)]
  {
    assert Zeros(3) == "000";
  }

  /** Page numbers below 10000 are padded to exactly four digits. */
  lemma Pad4Length(n: nat)
    requires n < 10000
    ensures |Pad4(n)| == 4
  {
    assert Pow10(4) == 10000;
    DecimalLength(n, 4);
  }

  /** Appending one character to strings of equal length: the earlier strings decide, then the new character. */
  lemma {:induction false} LexLessSnoc(x: string, y: string, a: char, b: char)
    requires |x| == |y|
    ensures LexLess(x + [a], y + [b]) <==> LexLess(x, y) || (x == y && a < b)
  {
    if |x| > 0 {
      assert (x + [a])[1..] == x[1..] + [a];
      assert (y + [b])[1..] == y[1..] + [b];
      LexLessSnoc(x[1..], y[1..], a, b);
      if x[0] == y[0] && x[1..] == y[1..] {
        assert x == y;
      }
    }
  }

  /** On digit strings of one length, string order is numeric order. */
  lemma {:induction false} DigitsOrder(x: string, y: string)
    requires |x| == |y| && AllDigits(x) && AllDigits(y)
    ensures LexLess(x, y) <==> Value(x) < Value(y)
    decreases |x|
  {
    if |x| > 0 {
      var x', y' := x[..|x| - 1], y[..|y| - 1];
      var a, b := x[|x| - 1], y[|y| - 1];
      assert x == x' + [a] && y == y' + [b];
      LexLessSnoc(x', y', a, b);
      DigitsOrder(x', y');
      DigitsOrder(y', x');
      LexLessTotal(x', y');
      assert 0 <= DigitValue(a) <= 9 && 0 <= DigitValue(b) <= 9;
    }
  }

  /** Padded numbers below 10000 sort as strings exactly as they sort as numbers. */
  lemma Pad4Order(n: nat, m: nat)
    requires n < 10000 && m < 10000
    ensures LexLess(Pad4(n), Pad4(m)) <==> n < m
  {
    Pad4Length(n);
    Pad4Length(m);
    Pad4Value(n);
    Pad4Value(m);
    DigitsOrder(Pad4(n), Pad4(m));
  }

  /** Distinct pages get distinct file names, however many pages there are. */
  lemma PageFileNameInjective(stem: string, format: string, p: nat, q: nat)
    requires PageFileName(stem, p, format) == PageFileName(stem, q, format)
    ensures p == q
  {
    NumberPartInjective(stem + "_page_", Pad4(p + 1), Pad4(q + 1), ".", format);
    Pad4Injective(p + 1, q + 1);
  }

  /** Padding is one-to-one: the padded digits read back as the number. */
  lemma Pad4Injective(n: nat, m: nat)
    requires Pad4(n) == Pad4(m)
    ensures n == m
  {
    Pad4Value(n);
    Pad4Value(m);
  }

  /** A name with a fixed prefix and suffix determines its middle part. */
  lemma NumberPartInjective(prefix: string, x: string, y: string, dot: string, ext: string)
    requires prefix + x + dot + ext == prefix + y + dot + ext
    ensures x == y
  {
    CancelSuffix(prefix + x + dot, prefix + y + dot, ext);
    CancelSuffix(prefix + x, prefix + y, dot);
    CancelPrefix(prefix, x, y);
  }

  lemma CancelPrefix(a: string, x: string, y: string)
    requires a + x == a + y
    ensures x == y
  {
    assert x == (a + x)[|a|..];
    assert y == (a + y)[|a|..];
  }

  lemma CancelSuffix(x: string, y: string, b: string)
    requires x + b == y + b
    ensures x == y
  {
    assert |x| == |y|;
    assert x == (x + b)[..|x|];
    assert y == (y + b)[..|y|];
  }

  /**
   * For 0-based pages below 9999 (page numbers 1 to 9999), the order of the
   * file names under Python's string comparison is the order of the pages.
   */
  lemma PageFileNameOrder(stem: string, format: string, p: nat, q: nat)
    requires p < 9999 && q < 9999
    ensures LexLess(PageFileName(stem, p, format), PageFileName(stem, q, format)) <==> p < q
  {
    var prefix, suffix := stem + "_page_", "." + format;
    var x, y := Pad4(p + 1), Pad4(q + 1);
    assert PageFileName(stem, p, format) == prefix + (x + suffix);
    assert PageFileName(stem, q, format) == prefix + (y + suffix);
    LexLessCommonPrefix(prefix, x + suffix, y + suffix);
    Pad4Length(p + 1);
    Pad4Length(q + 1);
    Pad4Order(p + 1, q + 1);
    if p != q {
      Pad4Value(p + 1);
      Pad4Value(q + 1);
      LexLessFirstDifference(x, y, suffix, suffix);
    } else {
      LexLessIrreflexive(PageFileName(stem, p, format));
    }
  }

  /**
   * The bound is needed: the file of page 10000 sorts before the file of
   * page 9999, because "10000" < "9999" as strings.
   */
  lemma PageFileNameOrderBreaksAt10000(stem: string, format: string)
    ensures LexLess(PageFileName(stem, 9999, format), PageFileName(stem, 9998, format))
  {
    var prefix := stem + "_page_";
    var x, y := Pad4(10000), Pad4(9999);
    assert x[0] == '1' && y[0] == '9';
    assert PageFileName(stem, 9999, format) == prefix + (x + "." + format);
    assert PageFileName(stem, 9998, format) == prefix + (y + "." + format);
    LexLessCommonPrefix(prefix, x + "." + format, y + "." + format);
  }
}
