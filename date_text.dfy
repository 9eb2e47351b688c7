/**
 * The `YYYY-MM-DD` text the scheduler stores and compares: the `full-date`
 * form of section 5.6 of RFC 3339, written by `strftime("%Y-%m-%d")` and
 * read by `strptime(..., "%Y-%m-%d")`.
 */
module DateText {
  import opened Wrappers
  import opened Calendar

  predicate IsDigit(c: char) {
    '0' <= c <= '9'
  }

  function DigitChar(n: int): (c: char)
    requires 0 <= n <= 9
    ensures IsDigit(c)
  {
    ('0' as int + n) as char
  }

  function DigitValue(c: char): (n: int)
    requires IsDigit(c)
    ensures 0 <= n <= 9
  {
    c as int - '0' as int
  }

  /** Two decimal digits, zero-padded. */
  function Pad2(n: int): (s: string)
    requires 0 <= n < 100
    ensures |s| == 2 && IsDigit(s[0]) && IsDigit(s[1])
  {
    [DigitChar(n / 10), DigitChar(n % 10)]
  }

  /** Four decimal digits, zero-padded. */
  function Pad4(n: int): (s: string)
    requires 0 <= n < 10000
    ensures |s| == 4
  {
    Pad2(n / 100) + Pad2(n % 100)
  }

  function Format(d: Date): (s: string)
    requires ValidDate(d)
    ensures |s| == 10 && IsDateShape(s)
  {
    Pad4(d.year) + "-" + Pad2(d.month) + "-" + Pad2(d.day)
  }

  predicate IsDateShape(s: string) {
    && |s| == 10
    && s[4] == '-' && s[7] == '-'
    && IsDigit(s[0]) && IsDigit(s[1]) && IsDigit(s[2]) && IsDigit(s[3])
    && IsDigit(s[5]) && IsDigit(s[6]) && IsDigit(s[8]) && IsDigit(s[9])
  }

  function Number2(a: char, b: char): int
    requires IsDigit(a) && IsDigit(b)
  {
    10 * DigitValue(a) + DigitValue(b)
  }

  /** Reads canonical `YYYY-MM-DD` text; anything else, or an impossible date, is None. */
  function Parse(s: string): (r: Option<Date>)
    ensures r.Some? ==> IsDateShape(s) && ValidDate(r.value)
    ensures r.Some? ==> r.value.year == 1000 * DigitValue(s[0]) + 100 * DigitValue(s[1]) + 10 * DigitValue(s[2]) + DigitValue(s[3])
    ensures r.Some? ==> r.value.month == 10 * DigitValue(s[5]) + DigitValue(s[6]) && r.value.day == 10 * DigitValue(s[8]) + DigitValue(s[9])
  {
    if !IsDateShape(s) then None
    else
      var d := Date(100 * Number2(s[0], s[1]) + Number2(s[2], s[3]),
                    Number2(s[5], s[6]), Number2(s[8], s[9]));
      if ValidDate(d) then Some(d) else None
  }

  /** Python's `str` comparison `s < t`: lexicographic by character, a proper prefix first. */
  predicate LexLess(s: string, t: string)
    ensures LexLess(s, t) ==> s != t
  {
    if |s| == 0 then |t| != 0
    else if |t| == 0 then false
    else s[0] < t[0] || (s[0] == t[0] && LexLess(s[1..], t[1..]))
  }

  /** String `<` is a strict total order: asymmetric, transitive, and any two distinct strings compare. */
  lemma {:induction false} LexStrictOrder(s: string, t: string, u: string)
    ensures LexLess(s, t) ==> !LexLess(t, s)
    ensures s != t ==> LexLess(s, t) || LexLess(t, s)
    ensures LexLess(s, t) && LexLess(t, u) ==> LexLess(s, u)
  {
    if |s| > 0 && |t| > 0 && |u| > 0 {
      LexStrictOrder(s[1..], t[1..], u[1..]);
      if s != t && s[0] == t[0] {
        assert s == [s[0]] + s[1..] && t == [t[0]] + t[1..];
      }
    } else if |s| > 0 && |t| > 0 {
      LexStrictOrder(s[1..], t[1..], s[1..]);
      if s != t && s[0] == t[0] {
        assert s == [s[0]] + s[1..] && t == [t[0]] + t[1..];
      }
    }
  }

  lemma Pad2Inverse(n: int)
    requires 0 <= n < 100
    ensures Number2(Pad2(n)[0], Pad2(n)[1]) == n
  {}

  /** Formatting a valid date and reading it back gives the same date. */
  lemma ParseFormat(d: Date)
    requires ValidDate(d)
    ensures Parse(Format(d)) == Some(d)
  {
    var s := Format(d);
    Pad2Inverse(d.year / 100);
    Pad2Inverse(d.year % 100);
    Pad2Inverse(d.month);
    Pad2Inverse(d.day);
    assert s[0..2] == Pad2(d.year / 100);
    assert s[2..4] == Pad2(d.year % 100);
    assert s[5..7] == Pad2(d.month);
    assert s[8..10] == Pad2(d.day);
  }

  lemma Pad2OfDigits(a: char, b: char)
    requires IsDigit(a) && IsDigit(b)
    ensures Pad2(Number2(a, b)) == [a, b]
  {}

  lemma Pad4OfDigits(a: char, b: char, c: char, d: char)
    requires IsDigit(a) && IsDigit(b) && IsDigit(c) && IsDigit(d)
    ensures 0 <= 100 * Number2(a, b) + Number2(c, d) < 10000
    ensures Pad4(100 * Number2(a, b) + Number2(c, d)) == [a, b, c, d]
  {
    var n := 100 * Number2(a, b) + Number2(c, d);
    assert n / 100 == Number2(a, b) && n % 100 == Number2(c, d);
    Pad2OfDigits(a, b);
    Pad2OfDigits(c, d);
  }

  /** Text that reads as a date is exactly that date's canonical form. */
  lemma FormatParse(s: string)
    requires Parse(s).Some?
    ensures Format(Parse(s).value) == s
  {
    var d := Parse(s).value;
    Pad4OfDigits(s[0], s[1], s[2], s[3]);
    Pad2OfDigits(s[5], s[6]);
    Pad2OfDigits(s[8], s[9]);
    assert Format(d) == [s[0], s[1], s[2], s[3]] + "-" + [s[5], s[6]] + "-" + [s[8], s[9]];
  }

  /** Distinct valid dates have distinct texts. */
  lemma FormatInjective(a: Date, b: Date)
    requires ValidDate(a) && ValidDate(b)
    ensures Format(a) == Format(b) <==> a == b
  {
    if Format(a) == Format(b) {
      ParseFormat(a);
      ParseFormat(b);
    }
  }

  lemma {:induction false} LexConcat(a: string, s: string, b: string, t: string)
    requires |a| == |b|
    ensures LexLess(a + s, b + t) <==> LexLess(a, b) || (a == b && LexLess(s, t))
  {
    if |a| > 0 {
      assert (a + s)[1..] == a[1..] + s;
      assert (b + t)[1..] == b[1..] + t;
      LexConcat(a[1..], s, b[1..], t);
      if a[0] == b[0] && a[1..] == b[1..] {
        assert a == [a[0]] + a[1..] && b == [b[0]] + b[1..];
      }
    } else {
      assert a + s == s && b + t == t;
    }
  }

  lemma Pad2Order(x: int, y: int)
    requires 0 <= x < 100 && 0 <= y < 100
    ensures LexLess(Pad2(x), Pad2(y)) <==> x < y
    ensures Pad2(x) == Pad2(y) <==> x == y
  {
    var p, q := Pad2(x), Pad2(y);
    assert p[1..][1..] == [] && q[1..][1..] == [];
    assert LexLess(p[1..], q[1..]) <==> p[1] < q[1];
    assert LexLess(p, q) <==> p[0] < q[0] || (p[0] == q[0] && p[1] < q[1]);
    assert p[0] < q[0] <==> x / 10 < y / 10;
    assert p[1] < q[1] <==> x % 10 < y % 10;
    if p == q {
      assert p[0] == q[0] && p[1] == q[1];
    }
  }

  lemma Pad4Order(x: int, y: int)
    requires 0 <= x < 10000 && 0 <= y < 10000
    ensures LexLess(Pad4(x), Pad4(y)) <==> x < y
    ensures Pad4(x) == Pad4(y) <==> x == y
  {
    LexConcat(Pad2(x / 100), Pad2(x % 100), Pad2(y / 100), Pad2(y % 100));
    Pad2Order(x / 100, y / 100);
    Pad2Order(x % 100, y % 100);
    if Pad4(x) == Pad4(y) {
      assert Pad4(x)[..2] == Pad2(x / 100) && Pad4(y)[..2] == Pad2(y / 100);
      assert Pad4(x)[2..] == Pad2(x % 100) && Pad4(y)[2..] == Pad2(y % 100);
    }
  }

  /** Comparing the texts as strings is comparing the dates chronologically. */
  lemma FormatOrder(a: Date, b: Date)
    requires ValidDate(a) && ValidDate(b)
    ensures LexLess(Format(a), Format(b)) <==> DateBefore(a, b)
  {
    var ra := "-" + Pad2(a.month) + "-" + Pad2(a.day);
    var rb := "-" + Pad2(b.month) + "-" + Pad2(b.day);
    assert Format(a) == Pad4(a.year) + ra;
    assert Format(b) == Pad4(b.year) + rb;
    LexConcat(Pad4(a.year), ra, Pad4(b.year), rb);
    Pad4Order(a.year, b.year);
    var ma := Pad2(a.month) + "-" + Pad2(a.day);
    var mb := Pad2(b.month) + "-" + Pad2(b.day);
    assert ra == "-" + ma && rb == "-" + mb;
    LexConcat("-", ma, "-", mb);
    assert !LexLess("-", "-");
    LexConcat(Pad2(a.month), "-" + Pad2(a.day), Pad2(b.month), "-" + Pad2(b.day));
    assert ma == Pad2(a.month) + ("-" + Pad2(a.day));
    assert mb == Pad2(b.month) + ("-" + Pad2(b.day));
    Pad2Order(a.month, b.month);
    LexConcat("-", Pad2(a.day), "-", Pad2(b.day));
    Pad2Order(a.day, b.day);
  }

  /**
   * The scheduler sorts by the text `x['next_revision']`; for valid dates
   * that order, and text equality, are exactly the order and equality of
   * day numbers.
   */
  lemma TextOrderIsDayOrder(a: Date, b: Date)
    requires ValidDate(a) && ValidDate(b)
    ensures LexLess(Format(a), Format(b)) <==> ToOrdinal(a) < ToOrdinal(b)
    ensures Format(a) == Format(b) <==> ToOrdinal(a) == ToOrdinal(b)
  {
    FormatOrder(a, b);
    OrdinalOrder(a, b);
    FormatInjective(a, b);
  }

  /** The day number of text the engine reads as a date; None when it does not read. */
  function ParseDay(s: string): Option<Day> {
    match Parse(s)
    case None => None
    case Some(d) => Some(ToOrdinal(d))
  }

  /** The stored text of a valid date reads back to that date's day number. */
  lemma ParseDayFormat(d: Date)
    requires ValidDate(d)
    ensures ParseDay(Format(d)) == Some(ToOrdinal(d))
  {
    ParseFormat(d);
  }

  /** Text that reads as a day number is the canonical text of the date with that number. */
  lemma ParseDayCanonical(s: string)
    requires ParseDay(s).Some?
    ensures exists d :: ValidDate(d) && Format(d) == s && ToOrdinal(d) == ParseDay(s).value
  {
    var d := Parse(s).value;
    FormatParse(s);
    assert ValidDate(d) && Format(d) == s && ToOrdinal(d) == ParseDay(s).value;
  }

  /** Two texts that read to the same day number are the same text. */
  lemma ParseDayInjective(s: string, t: string)
    requires ParseDay(s).Some? && ParseDay(t).Some?
    ensures ParseDay(s) == ParseDay(t) <==> s == t
  {
    if ParseDay(s) == ParseDay(t) {
      OrdinalOrder(Parse(s).value, Parse(t).value);
      FormatParse(s);
      FormatParse(t);
    }
  }
}
