/** `date.fromisoformat` on strict `YYYY-MM-DD` strings (the `full-date` production of
    section 5.6 of RFC 3339), its inverse `date.isoformat`, and how the string order of such
    strings agrees with the order of the dates they denote. */
module IsoDates {
  import opened Wrappers
  import opened Dates
  import Strings

  predicate IsDigit(c: char)
  {
    '0' <= c <= '9'
  }

  function DigitValue(c: char): (v: int)
    requires IsDigit(c)
  {
    c as int - '0' as int
  }

  function DigitChar(v: int): (c: char)
    requires 0 <= v <= 9
  {
    ('0' as int + v) as char
  }

  predicate AllDigits(s: string)
  {
    forall i :: 0 <= i < |s| ==> IsDigit(s[i])
  }

  function Pow10(n: nat): (p: nat)
    ensures p >= 1
  {
    if n == 0 then 1 else 10 * Pow10(n - 1)
  }

  lemma MulMonotone(a: int, b: int, p: int)
    requires a <= b && p >= 0
    ensures a * p <= b * p
  {
  }

  lemma {:induction false} DivModUnique(d: int, r: int, p: int)
    requires p > 0 && 0 <= r < p
    ensures (d * p + r) / p == d && (d * p + r) % p == r
  {
    var n := d * p + r;
    var q := n / p;
    assert q * p + n % p == d * p + r;
    if q > d {
      MulMonotone(d + 1, q, p);
    } else if q < d {
      MulMonotone(q + 1, d, p);
    }
  }

  lemma DivMod(n: nat, p: nat)
    requires p > 0
    ensures n == (n / p) * p + n % p && 0 <= n % p < p
  {
  }

  /** The value of a decimal numeral, most significant digit first. */
  function DecimalValue(s: string): (n: nat)
    requires AllDigits(s)
    ensures n < Pow10(|s|)
  {
    if s == [] then 0
    else
      var p := Pow10(|s| - 1);
      MulMonotone(DigitValue(s[0]), 9, p);
      DigitValue(s[0]) * p + DecimalValue(s[1..])
  }

  /** Prefixing a digit `d` to a numeral adds `d` times the place value of its position. */
  lemma DecimalValueCons(d: int, rest: string)
    requires 0 <= d <= 9 && AllDigits(rest)
    ensures AllDigits([DigitChar(d)] + rest)
    ensures DecimalValue([DigitChar(d)] + rest) == d * Pow10(|rest|) + DecimalValue(rest)
  {
    var s := [DigitChar(d)] + rest;
    assert s[1..] == rest && |s| - 1 == |rest|;
    assert DigitValue(s[0]) == d;
    assert AllDigits(s) by {
      forall i | 0 <= i < |s|
        ensures IsDigit(s[i])
      {
        if i > 0 {
          assert s[i] == rest[i - 1];
        }
      }
    }
    assert DecimalValue(s) == DigitValue(s[0]) * Pow10(|s| - 1) + DecimalValue(s[1..]);
  }

  /** Below `10 * p`, the quotient by `p` is a single digit. */
  lemma LeadingDigit(n: nat, p: nat)
    requires p > 0 && n < 10 * p
    ensures 0 <= n / p <= 9 && n % p < p && n == (n / p) * p + n % p
  {
    DivMod(n, p);
    if n / p >= 10 {
      MulMonotone(10, n / p, p);
    }
  }

  /** The numeral of `n` zero-padded to exactly `width` digits; reading it back gives `n`. */
  function Decimal(n: nat, width: nat): (s: string)
    requires n < Pow10(width)
    ensures |s| == width && AllDigits(s) && DecimalValue(s) == n
    decreases width
  {
    if width == 0 then ""
    else
      var p := Pow10(width - 1);
      LeadingDigit(n, p);
      var rest := Decimal(n % p, width - 1);
      DecimalValueCons(n / p, rest);
      [DigitChar(n / p)] + rest
  }

  /** Every digit string is the zero-padded numeral of its own value. */
  lemma {:induction false} DecimalOfValue(s: string)
    requires AllDigits(s)
    ensures Decimal(DecimalValue(s), |s|) == s
  {
    if s != [] {
      var p := Pow10(|s| - 1);
      DivModUnique(DigitValue(s[0]), DecimalValue(s[1..]), p);
      DecimalOfValue(s[1..]);
      assert s == [s[0]] + s[1..];
    }
  }

  /** A smaller leading digit gives a smaller number, whatever the lower digits are. */
  lemma LeadingDigitDecides(da: nat, ra: nat, db: nat, rb: nat, p: nat)
    requires da < db && ra < p && rb < p
    ensures da * p + ra < db * p + rb
  {
    MulMonotone(da + 1, db, p);
  }

  /** On digit strings of one length, string order is numeric order. */
  lemma {:induction false} DecimalOrder(a: string, b: string)
    requires AllDigits(a) && AllDigits(b) && |a| == |b|
    ensures Strings.Less(a, b) <==> DecimalValue(a) < DecimalValue(b)
  {
    if a != [] {
      var p := Pow10(|a| - 1);
      var da, db := DigitValue(a[0]), DigitValue(b[0]);
      var ra, rb := DecimalValue(a[1..]), DecimalValue(b[1..]);
      assert DecimalValue(a) == da * p + ra && ra < p;
      assert DecimalValue(b) == db * p + rb && rb < p;
      if a[0] < b[0] {
        assert Strings.Less(a, b);
        LeadingDigitDecides(da, ra, db, rb, p);
      } else if b[0] < a[0] {
        assert !Strings.Less(a, b);
        LeadingDigitDecides(db, rb, da, ra, p);
      } else {
        assert Strings.Less(a, b) == Strings.Less(a[1..], b[1..]);
        DecimalOrder(a[1..], b[1..]);
      }
    }
  }

  /** The shape `YYYY-MM-DD`: four, two and two ASCII digits joined by hyphens. */
  predicate IsFullDateSyntax(s: string)
  {
    |s| == 10 && AllDigits(s[..4]) && s[4] == '-' && AllDigits(s[5..7]) && s[7] == '-' && AllDigits(s[8..])
  }

  /** `date.isoformat()` of a valid date. */
  function FormatIsoDate(d: Date): (s: string)
    requires ValidDate(d)
    ensures IsFullDateSyntax(s)
  {
    var s := Decimal(d.year, 4) + "-" + Decimal(d.month, 2) + "-" + Decimal(d.day, 2);
    assert s[..4] == Decimal(d.year, 4) && s[5..7] == Decimal(d.month, 2) && s[8..] == Decimal(d.day, 2);
    s
  }

  /** `date.fromisoformat(s)`: `None` where Python raises `ValueError`.  A date it returns
      is valid; lemmas ParsedFormatsBack and ParseFormatted show that it accepts exactly the
      ISO forms of valid dates. */
  function ParseIsoDate(s: string): (r: Option<Date>)
    ensures r.Some? ==> ValidDate(r.value)
  {
    if IsFullDateSyntax(s) then
      var d := Date(DecimalValue(s[..4]), DecimalValue(s[5..7]), DecimalValue(s[8..]));
      if ValidDate(d) then Some(d) else None
    else
      None
  }

  /** A date that `date.fromisoformat` returns formats back to exactly the input string. */
  lemma ParsedFormatsBack(s: string)
    requires ParseIsoDate(s).Some?
    ensures FormatIsoDate(ParseIsoDate(s).value) == s
  {
    DecimalOfValue(s[..4]);
    DecimalOfValue(s[5..7]);
    DecimalOfValue(s[8..]);
    assert s == s[..4] + "-" + s[5..7] + "-" + s[8..];
  }

  lemma ParseFormatted(d: Date)
    requires ValidDate(d)
    ensures ParseIsoDate(FormatIsoDate(d)) == Some(d)
  {
    var s := FormatIsoDate(d);
    assert s[..4] == Decimal(d.year, 4) && s[5..7] == Decimal(d.month, 2) && s[8..] == Decimal(d.day, 2);
  }

  /** The `YYYY-MM-DD` string with the given fields. */
  function IsoJoin(y: string, m: string, d: string): (s: string)
    ensures |s| == |y| + |m| + |d| + 2
  {
    y + ("-" + (m + ("-" + d)))
  }

  /** Two ISO strings are equal exactly when their fields are. */
  lemma IsoJoinEquality(ya: string, ma: string, ca: string, yb: string, mb: string, cb: string)
    requires |ya| == |yb| == 4 && |ma| == |mb| == 2 && |ca| == |cb| == 2
    ensures IsoJoin(ya, ma, ca) == IsoJoin(yb, mb, cb) <==> ya == yb && ma == mb && ca == cb
  {
    var a, b := IsoJoin(ya, ma, ca), IsoJoin(yb, mb, cb);
    if a == b {
      assert ya == a[..4] == b[..4] == yb;
      assert ma == a[5..7] == b[5..7] == mb;
      assert ca == a[8..] == b[8..] == cb;
    }
  }

  /** Python's `<` on two ISO strings compares year, then month, then day field. */
  lemma IsoJoinLess(ya: string, ma: string, ca: string, yb: string, mb: string, cb: string)
    requires |ya| == |yb| == 4 && |ma| == |mb| == 2 && |ca| == |cb| == 2
    ensures Strings.Less(IsoJoin(ya, ma, ca), IsoJoin(yb, mb, cb)) <==>
      Strings.Less(ya, yb) || (ya == yb && (Strings.Less(ma, mb) || (ma == mb && Strings.Less(ca, cb))))
  {
    Strings.LessConcat(ya, "-" + (ma + ("-" + ca)), yb, "-" + (mb + ("-" + cb)));
    Strings.LessConcat("-", ma + ("-" + ca), "-", mb + ("-" + cb));
    Strings.LessConcat(ma, "-" + ca, mb, "-" + cb);
    Strings.LessConcat("-", ca, "-", cb);
    Strings.LessIrreflexive("-");
  }

  /** The ISO form of a valid date is the join of its zero-padded fields. */
  lemma FormatIsoDateParts(d: Date)
    requires ValidDate(d)
    ensures FormatIsoDate(d) == IsoJoin(Decimal(d.year, 4), Decimal(d.month, 2), Decimal(d.day, 2))
  {
  }

  /** The ISO form of a date identifies it, and Python's `<` on the ISO strings is the date
      order. Since every string ParseIsoDate accepts is the ISO form of its date, sorting
      such strings sorts the dates. */
  lemma FormatOrderIsDateOrder(d1: Date, d2: Date)
    requires ValidDate(d1) && ValidDate(d2)
    ensures FormatIsoDate(d1) == FormatIsoDate(d2) <==> d1 == d2
    ensures Strings.Less(FormatIsoDate(d1), FormatIsoDate(d2)) <==> Before(d1, d2)
  {
    var ya, yb := Decimal(d1.year, 4), Decimal(d2.year, 4);
    var ma, mb := Decimal(d1.month, 2), Decimal(d2.month, 2);
    var ca, cb := Decimal(d1.day, 2), Decimal(d2.day, 2);
    FormatIsoDateParts(d1);
    FormatIsoDateParts(d2);
    IsoJoinEquality(ya, ma, ca, yb, mb, cb);
    IsoJoinLess(ya, ma, ca, yb, mb, cb);
    DecimalOrder(ya, yb);
    DecimalOrder(ma, mb);
    DecimalOrder(ca, cb);
  }
}
