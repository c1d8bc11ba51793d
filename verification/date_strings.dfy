/** The date strings the views build and compare.

    Two formats occur.  The local form `${year}-${MM}-${DD}` is what the
    components assemble by hand: the year is `String(year)` (not padded), month
    and day are padded to two digits with `padStart(2, "0")`.  The ISO form is
    the date part of `toISOString()`: a four-digit year for years 0..9999 and a
    signed six-digit year otherwise.  For years 1000..9999 both are the ISO 8601
    extended calendar-date format YYYY-MM-DD (ISO 8601:2004, section 4.1.2.2). */
module DateStrings {
  import opened Wrappers
  import opened DateMath

  function Digit(k: int): (c: char)
    requires 0 <= k < 10
    ensures '0' <= c <= '9'
  {
    (48 + k) as char
  }

  predicate IsDigit(c: char)
  {
    '0' <= c <= '9'
  }

  predicate AllDigits(s: string)
  {
    forall i :: 0 <= i < |s| ==> IsDigit(s[i])
  }

  function DigitValue(c: char): int
    requires IsDigit(c)
  {
    c as int - 48
  }

  /** `String(n)` for a non-negative integer: decimal digits, no leading zeros. */
  function NatToString(n: nat): (s: string)
    ensures |s| >= 1 && AllDigits(s)
  {
    if n < 10 then [Digit(n)] else NatToString(n / 10) + [Digit(n % 10)]
  }

  /** `String(i)` for any integer. */
  function IntToString(i: int): (s: string)
    ensures |s| >= 1
  {
    if i < 0 then "-" + NatToString(-i) else NatToString(i)
  }

  /** `s.padStart(2, "0")`. */
  function PadStart2(s: string): (r: string)
    ensures |r| >= 2
  {
    if |s| >= 2 then s else if |s| == 1 then "0" + s else "00"
  }

  function Pow10(w: nat): (p: nat)
    ensures p >= 1
  {
    if w == 0 then 1 else 10 * Pow10(w - 1)
  }

  /** n written with exactly w digits (leading zeros); digits above w are dropped. */
  function FixedDigits(n: nat, w: nat): (s: string)
    ensures |s| == w && AllDigits(s)
  {
    if w == 0 then [] else FixedDigits(n / 10, w - 1) + [Digit(n % 10)]
  }

  /** Value of a digit string read left to right. */
  function DigitsValue(s: string): (v: nat)
    requires AllDigits(s)
  {
    if |s| == 0 then 0 else DigitsValue(s[..|s| - 1]) * 10 + DigitValue(s[|s| - 1])
  }

  /** The local date string `${y}-${pad(m + 1)}-${pad(d)}` with a 0-based month. */
  function LocalDateString(d: Ymd): string
  {
    IntToString(d.year) + "-" + PadStart2(IntToString(d.month + 1)) + "-" + PadStart2(IntToString(d.day))
  }

  /** The date part of `toISOString()` for a date whose fields are already in UTC. */
  function IsoDateString(d: Ymd): string
    requires ValidDate(d)
  {
    var year :=
      if 0 <= d.year <= 9999 then FixedDigits(d.year, 4)
      else (if d.year < 0 then "-" else "+") + FixedDigits(if d.year < 0 then -d.year else d.year, 6);
    year + "-" + FixedDigits(d.month + 1, 2) + "-" + FixedDigits(d.day, 2)
  }

  /** JavaScript `a < b` on strings: lexicographic order of the characters. */
  predicate LexLess(a: string, b: string)
    decreases |a|
  {
    if |a| == 0 then |b| > 0
    else if |b| == 0 then false
    else if a[0] != b[0] then a[0] < b[0]
    else LexLess(a[1..], b[1..])
  }

  lemma {:induction false} LexLessIrreflexive(a: string)
    ensures !LexLess(a, a)
    decreases |a|
  {
    if |a| > 0 {
      LexLessIrreflexive(a[1..]);
    }
  }

  lemma {:induction false} LexLessAsymmetric(a: string, b: string)
    ensures LexLess(a, b) ==> !LexLess(b, a)
    decreases |a|
  {
    if |a| > 0 && |b| > 0 && a[0] == b[0] {
      LexLessAsymmetric(a[1..], b[1..]);
    }
  }

  lemma {:induction false} LexLessTotal(a: string, b: string)
    ensures a == b || LexLess(a, b) || LexLess(b, a)
    decreases |a|
  {
    if |a| > 0 && |b| > 0 && a[0] == b[0] {
      LexLessTotal(a[1..], b[1..]);
      if a[1..] == b[1..] {
        assert a == [a[0]] + a[1..] && b == [b[0]] + b[1..];
      }
    }
  }

  lemma {:induction false} LexLessTransitive(a: string, b: string, c: string)
    requires LexLess(a, b) && LexLess(b, c)
    ensures LexLess(a, c)
    decreases |a|
  {
    if |a| > 0 && a[0] == b[0] && b[0] == c[0] {
      LexLessTransitive(a[1..], b[1..], c[1..]);
    }
  }

  /** Comparing two strings that start with prefixes of equal length compares
      the prefixes first and the rest only when the prefixes agree. */
  lemma {:induction false} LexLessConcat(p: string, s: string, q: string, t: string)
    requires |p| == |q|
    ensures LexLess(p + s, q + t) == (if p == q then LexLess(s, t) else LexLess(p, q))
    decreases |p|
  {
    if |p| == 0 {
      assert p + s == s && q + t == t;
    } else {
      assert (p + s)[0] == p[0] && (q + t)[0] == q[0];
      assert (p + s)[1..] == p[1..] + s;
      assert (q + t)[1..] == q[1..] + t;
      if p[0] == q[0] {
        LexLessConcat(p[1..], s, q[1..], t);
        assert p == [p[0]] + p[1..] && q == [q[0]] + q[1..];
        assert p == q <==> p[1..] == q[1..];
      } else {
        assert p != q;
      }
    }
  }

  lemma DivModTen(x: nat, y: nat)
    ensures x < y <==> x / 10 < y / 10 || (x / 10 == y / 10 && x % 10 < y % 10)
    ensures x == y <==> x / 10 == y / 10 && x % 10 == y % 10
  {
    assert x == 10 * (x / 10) + x % 10;
    assert y == 10 * (y / 10) + y % 10;
  }

  lemma PowBound(x: nat, w: nat)
    requires w > 0 && x < Pow10(w)
    ensures x / 10 < Pow10(w - 1)
  {
  }

  /** Fixed-width digit strings order like the numbers they write. */
  lemma {:induction false} FixedDigitsOrder(x: nat, y: nat, w: nat)
    requires x < Pow10(w) && y < Pow10(w)
    ensures LexLess(FixedDigits(x, w), FixedDigits(y, w)) <==> x < y
    ensures FixedDigits(x, w) == FixedDigits(y, w) <==> x == y
  {
    if w > 0 {
      PowBound(x, w);
      PowBound(y, w);
      FixedDigitsOrder(x / 10, y / 10, w - 1);
      LexLessIrreflexive(FixedDigits(x / 10, w - 1));
      LexLessConcat(FixedDigits(x / 10, w - 1), [Digit(x % 10)], FixedDigits(y / 10, w - 1), [Digit(y % 10)]);
      DivModTen(x, y);
      var px, py := FixedDigits(x / 10, w - 1), FixedDigits(y / 10, w - 1);
      if px + [Digit(x % 10)] == py + [Digit(y % 10)] {
        assert px == (px + [Digit(x % 10)])[..w - 1];
        assert py == (py + [Digit(y % 10)])[..w - 1];
        assert Digit(x % 10) == (px + [Digit(x % 10)])[w - 1];
      }
    } else {
      LexLessIrreflexive([]);
    }
  }

  lemma {:induction false} NatToStringWidth(n: nat, w: nat)
    requires 1 <= w && Pow10(w - 1) <= n < Pow10(w)
    ensures NatToString(n) == FixedDigits(n, w)
  {
    if w == 1 {
      assert n < 10;
      assert n / 10 == 0;
    } else {
      assert Pow10(w - 1) == 10 * Pow10(w - 2);
      assert n >= 10;
      assert Pow10(w - 2) <= n / 10;
      PowBound(n, w);
      NatToStringWidth(n / 10, w - 1);
    }
  }

  /** A four-digit year prints as four digits. */
  lemma FourDigitYear(y: nat)
    requires 1000 <= y <= 9999
    ensures NatToString(y) == FixedDigits(y, 4)
  {
    assert Pow10(3) == 1000 && Pow10(4) == 10000;
    NatToStringWidth(y, 4);
  }

  /** `String(n).padStart(2, "0")` is n in two digits for n < 100. */
  lemma PadTwoDigits(n: nat)
    requires n < 100
    ensures PadStart2(NatToString(n)) == FixedDigits(n, 2)
  {
    assert Pow10(1) == 10 && Pow10(2) == 100;
    if n < 10 {
      assert NatToString(n) == [Digit(n)];
      assert FixedDigits(0, 1) == [Digit(0)];
      assert FixedDigits(n, 2) == FixedDigits(0, 1) + [Digit(n)];
    } else {
      NatToStringWidth(n, 2);
    }
  }

  /** For four-digit years the hand-built local string is the ISO 8601 form. */
  lemma LocalIsIso(d: Ymd)
    requires ValidDate(d) && 1000 <= d.year <= 9999
    ensures LocalDateString(d) == IsoDateString(d)
    ensures LocalDateString(d) ==
      FixedDigits(d.year, 4) + "-" + FixedDigits(d.month + 1, 2) + "-" + FixedDigits(d.day, 2)
  {
    FourDigitYear(d.year);
    PadTwoDigits(d.month + 1);
    PadTwoDigits(d.day);
  }

  /** Strings of the shape Y-M-D with fixed field widths compare field by field. */
  lemma FieldsCompare(ya: string, ma: string, da: string, yb: string, mb: string, db: string)
    requires |ya| == |yb| && |ma| == |mb|
    ensures LexLess(ya + "-" + ma + "-" + da, yb + "-" + mb + "-" + db) ==
      if ya != yb then LexLess(ya, yb)
      else if ma != mb then LexLess(ma, mb)
      else LexLess(da, db)
  {
    var ra, rb := "-" + ma + "-" + da, "-" + mb + "-" + db;
    assert ya + "-" + ma + "-" + da == ya + ra;
    assert yb + "-" + mb + "-" + db == yb + rb;
    LexLessConcat(ya, ra, yb, rb);
    var ta, tb := ma + "-" + da, mb + "-" + db;
    assert ra == "-" + ta && rb == "-" + tb;
    LexLessConcat("-", ta, "-", tb);
    var ua, ub := "-" + da, "-" + db;
    assert ta == ma + ua && tb == mb + ub;
    LexLessConcat(ma, ua, mb, ub);
    LexLessConcat("-", da, "-", db);
  }

  lemma FieldsEqual(ya: string, ma: string, da: string, yb: string, mb: string, db: string)
    requires |ya| == |yb| == 4 && |ma| == |mb| == 2
    ensures ya + "-" + ma + "-" + da == yb + "-" + mb + "-" + db <==> ya == yb && ma == mb && da == db
  {
    var sa, sb := ya + "-" + ma + "-" + da, yb + "-" + mb + "-" + db;
    if sa == sb {
      assert ya == sa[..4] && yb == sb[..4];
      assert ma == sa[5..7] && mb == sb[5..7];
      assert da == sa[8..] && db == sb[8..];
    }
  }

  /** The four-digit form YYYY-MM-DD of a valid date with a year in 0..9999. */
  function FourDigitForm(d: Ymd): string
    requires ValidDate(d) && 0 <= d.year
  {
    FixedDigits(d.year, 4) + "-" + FixedDigits(d.month + 1, 2) + "-" + FixedDigits(d.day, 2)
  }

  lemma FourDigitFormOrder(a: Ymd, b: Ymd)
    requires ValidDate(a) && 0 <= a.year <= 9999
    requires ValidDate(b) && 0 <= b.year <= 9999
    ensures LexLess(FourDigitForm(a), FourDigitForm(b)) <==> YmdBefore(a, b)
    ensures FourDigitForm(a) == FourDigitForm(b) <==> a == b
  {
    assert Pow10(2) == 100 && Pow10(4) == 10000;
    var ya, ma, da := FixedDigits(a.year, 4), FixedDigits(a.month + 1, 2), FixedDigits(a.day, 2);
    var yb, mb, db := FixedDigits(b.year, 4), FixedDigits(b.month + 1, 2), FixedDigits(b.day, 2);
    FixedDigitsOrder(a.year, b.year, 4);
    FixedDigitsOrder(a.month + 1, b.month + 1, 2);
    FixedDigitsOrder(a.day, b.day, 2);
    FieldsOrder(ya, ma, da, yb, mb, db, a.year, a.month + 1, a.day, b.year, b.month + 1, b.day);
  }

  /** Y-M-D strings whose fields order like numbers order like the triples. */
  lemma FieldsOrder(ya: string, ma: string, da: string, yb: string, mb: string, db: string,
                    y1: int, m1: int, d1: int, y2: int, m2: int, d2: int)
    requires |ya| == |yb| == 4 && |ma| == |mb| == 2
    requires (LexLess(ya, yb) <==> y1 < y2) && (ya == yb <==> y1 == y2)
    requires (LexLess(ma, mb) <==> m1 < m2) && (ma == mb <==> m1 == m2)
    requires (LexLess(da, db) <==> d1 < d2) && (da == db <==> d1 == d2)
    ensures LexLess(ya + "-" + ma + "-" + da, yb + "-" + mb + "-" + db) <==>
      y1 < y2 || (y1 == y2 && m1 < m2) || (y1 == y2 && m1 == m2 && d1 < d2)
    ensures ya + "-" + ma + "-" + da == yb + "-" + mb + "-" + db <==> y1 == y2 && m1 == m2 && d1 == d2
  {
    FieldsCompare(ya, ma, da, yb, mb, db);
    FieldsEqual(ya, ma, da, yb, mb, db);
  }

  /** For valid dates with four-digit years, string order `<` is chronological
      order and string equality is date equality. */
  lemma LocalDateOrder(a: Ymd, b: Ymd)
    requires ValidDate(a) && 1000 <= a.year <= 9999
    requires ValidDate(b) && 1000 <= b.year <= 9999
    ensures LexLess(LocalDateString(a), LocalDateString(b)) <==> DayNumber(a) < DayNumber(b)
    ensures LocalDateString(a) == LocalDateString(b) <==> a == b
  {
    LocalIsIso(a);
    LocalIsIso(b);
    assert LocalDateString(a) == FourDigitForm(a);
    assert LocalDateString(b) == FourDigitForm(b);
    DayNumberOrder(a, b);
    FourDigitFormOrder(a, b);
  }

  /** `s.split("-")`. */
  function Split(s: string): (parts: seq<string>)
    ensures |parts| >= 1
  {
    if |s| == 0 then [""]
    else
      var rest := Split(s[1..]);
      if s[0] == '-' then [""] + rest else [[s[0]] + rest[0]] + rest[1..]
  }

  lemma {:induction false} SplitNoDash(a: string)
    requires '-' !in a
    ensures Split(a) == [a]
  {
    if |a| > 0 {
      SplitNoDash(a[1..]);
      assert a == [a[0]] + a[1..];
    }
  }

  lemma {:induction false} SplitAtDash(a: string, b: string)
    requires '-' !in a
    ensures Split(a + "-" + b) == [a] + Split(b)
  {
    if |a| == 0 {
      assert a + "-" + b == ['-'] + b;
      assert (['-'] + b)[1..] == b;
    } else {
      var s := a + "-" + b;
      assert s[0] == a[0];
      assert s[1..] == a[1..] + "-" + b;
      SplitAtDash(a[1..], b);
      assert a == [a[0]] + a[1..];
    }
  }

  lemma {:induction false} DigitsHaveNoDash(s: string)
    requires AllDigits(s)
    ensures '-' !in s
  {
  }

  /** A local date string with a non-negative year splits on "-" into its
      three fields. */
  lemma SplitLocalDate(d: Ymd)
    requires ValidDate(d) && 0 <= d.year
    ensures Split(LocalDateString(d)) ==
      [NatToString(d.year), PadStart2(NatToString(d.month + 1)), PadStart2(NatToString(d.day))]
  {
    var y, m, dd := NatToString(d.year), PadStart2(NatToString(d.month + 1)), PadStart2(NatToString(d.day));
    assert AllDigits(m) && AllDigits(dd);
    DigitsHaveNoDash(y);
    DigitsHaveNoDash(m);
    DigitsHaveNoDash(dd);
    assert LocalDateString(d) == y + "-" + (m + "-" + dd) by {
      assert IntToString(d.year) == y && IntToString(d.month + 1) == NatToString(d.month + 1);
      assert IntToString(d.day) == NatToString(d.day);
    }
    SplitAtDash(y, m + "-" + dd);
    SplitAtDash(m, dd);
    SplitNoDash(dd);
  }

  /** `Number(s)` for the strings a split date string yields: the empty string
      is 0, a digit string is its value, anything else is NaN (None). */
  function Number(s: string): Option<int>
  {
    if |s| == 0 then Some(0)
    else if AllDigits(s) then Some(DigitsValue(s))
    else None
  }

  lemma {:induction false} DigitsValueOfFixed(n: nat, w: nat)
    requires n < Pow10(w)
    ensures DigitsValue(FixedDigits(n, w)) == n
  {
    if w > 0 {
      var s := FixedDigits(n, w);
      assert s[..|s| - 1] == FixedDigits(n / 10, w - 1);
      PowBound(n, w);
      DigitsValueOfFixed(n / 10, w - 1);
      assert n == 10 * (n / 10) + n % 10;
    }
  }

  lemma {:induction false} NatToStringFixed(n: nat)
    ensures n < Pow10(|NatToString(n)|)
    ensures NatToString(n) == FixedDigits(n, |NatToString(n)|)
  {
    if n >= 10 {
      NatToStringFixed(n / 10);
    }
  }

  /** `Number(String(n))` is n, and so is `Number(String(n).padStart(2, "0"))`. */
  lemma NumberOfNatToString(n: nat)
    ensures Number(NatToString(n)) == Some(n)
    ensures n < 100 ==> Number(PadStart2(NatToString(n))) == Some(n)
  {
    NatToStringFixed(n);
    DigitsValueOfFixed(n, |NatToString(n)|);
    if n < 100 {
      PadTwoDigits(n);
      DigitsValueOfFixed(n, 2);
    }
  }

  /** `new Date(s + "T00:00:00")` for a date string s: the local midnight of
      the date when s is a well-formed, existing YYYY-MM-DD date, and an
      invalid date (None) otherwise. */
  function ParseIsoDate(s: string): (r: Option<int>)
    ensures r.Some? ==> exists d :: ValidDate(d) && 0 <= d.year <= 9999 && r.value == DayNumber(d)
  {
    if |s| == 10 && s[4] == '-' && s[7] == '-'
       && AllDigits(s[..4]) && AllDigits(s[5..7]) && AllDigits(s[8..])
    then
      var y, m, d := DigitsValue(s[..4]), DigitsValue(s[5..7]), DigitsValue(s[8..]);
      if 1 <= m <= 12 && 1 <= d <= DaysInMonth(y, m - 1) then
        FixedDigitsValueBound(s[..4]);
        assert ValidDate(Ymd(y, m - 1, d));
        Some(DayNumber(Ymd(y, m - 1, d)))
      else None
    else None
  }

  lemma {:induction false} FixedDigitsValueBound(s: string)
    requires AllDigits(s)
    ensures DigitsValue(s) < Pow10(|s|)
  {
    if |s| > 0 {
      FixedDigitsValueBound(s[..|s| - 1]);
    }
  }

  /** Parsing the ISO string of a valid date gives back that date's day number. */
  lemma ParseIsoRoundTrip(d: Ymd)
    requires ValidDate(d) && 0 <= d.year <= 9999
    ensures ParseIsoDate(IsoDateString(d)) == Some(DayNumber(d))
  {
    var y, m, dd := FixedDigits(d.year, 4), FixedDigits(d.month + 1, 2), FixedDigits(d.day, 2);
    var s := IsoDateString(d);
    assert s == y + "-" + m + "-" + dd;
    assert s[..4] == y && s[5..7] == m && s[8..] == dd;
    DigitsValueOfFixed(d.year, 4);
    DigitsValueOfFixed(d.month + 1, 2);
    DigitsValueOfFixed(d.day, 2);
  }
}
