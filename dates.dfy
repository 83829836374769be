/** The calendar date logic that both record managers share: the Gregorian
    leap-year rule, the days of each month, sscanf(s, "%d/%d/%d", ...), the
    character filter of is_valid_date, and "%0Nd" zero padding. */
module Dates {
  import opened Wrappers
  import opened CText

  /** is_leap_year. C's truncating % and Dafny's Euclidean % agree on whether
      the remainder is zero, so negative years need no special case. */
  predicate IsLeapYear(y: int): (leap: bool)
    ensures leap <==> y % 4 == 0 && (y % 100 != 0 || y % 400 == 0)
  {
    if y % 400 == 0 then true
    else if y % 100 == 0 then false
    else y % 4 == 0
  }

  /** The mdays computation of is_valid_date. */
  function DaysInMonth(m: int, y: int): (days: int)
    ensures 28 <= days <= 31
    ensures days == 29 <==> m == 2 && IsLeapYear(y)
    ensures days == 28 <==> m == 2 && !IsLeapYear(y)
  {
    if m == 2 then (if IsLeapYear(y) then 29 else 28)
    else if m == 4 || m == 6 || m == 9 || m == 11 then 30
    else 31
  }

  /** Reference table of month lengths, January first. */
  function MonthLengths(y: int): seq<int> {
    [31, if IsLeapYear(y) then 29 else 28, 31, 30, 31, 30, 31, 31, 30, 31, 30, 31]
  }

  lemma DaysInMonthIsTable(m: int, y: int)
    requires 1 <= m <= 12
    ensures DaysInMonth(m, y) == MonthLengths(y)[m - 1]
  {
  }

  function DigitValue(c: char): (d: nat)
    requires IsDigit(c)
    ensures d < 10
  {
    c as int - '0' as int
  }

  function DigitChar(d: nat): (c: char)
    requires d < 10
    ensures IsDigit(c) && DigitValue(c) == d
  {
    ('0' as int + d) as char
  }

  /** The decimal value of a digit string, most significant digit first. */
  function Value(ds: string): nat
    requires AllDigits(ds)
  {
    if ds == [] then 0 else Value(ds[..|ds| - 1]) * 10 + DigitValue(ds[|ds| - 1])
  }

  /** The value of a two-digit string, digit by digit. */
  lemma Value2(s: string)
    requires |s| == 2 && AllDigits(s)
    ensures Value(s) == DigitValue(s[0]) * 10 + DigitValue(s[1])
  {
    var p1 := s[..1];
    assert Value(p1) == DigitValue(s[0]) by {
      assert p1[..0] == [];
    }
    assert Value(s) == Value(p1) * 10 + DigitValue(s[1]);
  }

  /** The value of a four-digit string, digit by digit. */
  lemma Value4(s: string)
    requires |s| == 4 && AllDigits(s)
    ensures Value(s) == DigitValue(s[0]) * 1000 + DigitValue(s[1]) * 100 + DigitValue(s[2]) * 10 + DigitValue(s[3])
  {
    var p3, p2, p1 := s[..3], s[..2], s[..1];
    assert Value(p1) == DigitValue(s[0]) by {
      assert p1[..0] == [];
    }
    assert Value(p2) == Value(p1) * 10 + DigitValue(s[1]) by {
      assert p2[..1] == p1;
    }
    assert Value(p3) == Value(p2) * 10 + DigitValue(s[2]) by {
      assert p3[..2] == p2;
    }
    assert Value(s) == Value(p3) * 10 + DigitValue(s[3]);
  }

  /** printf's "%d" of a non-negative number. */
  function Decimal(n: nat): (ds: string)
    ensures |ds| >= 1 && AllDigits(ds) && Value(ds) == n
    ensures |ds| > 1 ==> ds[0] != '0'
  {
    if n < 10 then [DigitChar(n)]
    else
      var ds := Decimal(n / 10) + [DigitChar(n % 10)];
      assert ds[..|ds| - 1] == Decimal(n / 10);
      ds
  }

  function Pow10(w: nat): (p: nat)
    ensures p >= 1
  {
    if w == 0 then 1 else 10 * Pow10(w - 1)
  }

  /** A number below 10^w prints with at most w digits. */
  lemma {:induction false} DecimalLength(n: nat, w: nat)
    requires 1 <= w && n < Pow10(w)
    ensures |Decimal(n)| <= w
    decreases n
  {
    if n >= 10 {
      assert w > 1;
      DecimalLength(n / 10, w - 1);
    }
  }

  /** A digit string of length w holds a number below 10^w. */
  lemma {:induction false} ValueBound(ds: string)
    requires AllDigits(ds)
    ensures Value(ds) < Pow10(|ds|)
    decreases |ds|
  {
    if ds != [] {
      ValueBound(ds[..|ds| - 1]);
    }
  }

  /** A digit string is worth zero exactly when all its digits are '0'. */
  lemma {:induction false} ValueZero(ds: string)
    requires AllDigits(ds)
    ensures Value(ds) == 0 <==> forall i :: 0 <= i < |ds| ==> ds[i] == '0'
    decreases |ds|
  {
    if ds != [] {
      var front := ds[..|ds| - 1];
      ValueZero(front);
      assert forall i :: 0 <= i < |front| ==> front[i] == ds[i];
    }
  }

  function Zeros(k: nat): (z: string)
    ensures |z| == k && AllDigits(z)
  {
    seq(k, _ => '0')
  }

  lemma {:induction false} ValueOfZeros(k: nat)
    ensures Value(Zeros(k)) == 0
  {
    if k > 0 {
      assert Zeros(k)[..k - 1] == Zeros(k - 1);
      ValueOfZeros(k - 1);
    }
  }

  /** Leading zeros do not change the value. */
  lemma {:induction false} ValueLeadingZeros(k: nat, ds: string)
    requires AllDigits(ds)
    ensures AllDigits(Zeros(k) + ds) && Value(Zeros(k) + ds) == Value(ds)
    decreases |ds|
  {
    if ds == [] {
      assert Zeros(k) + ds == Zeros(k);
      ValueOfZeros(k);
    } else {
      var s := Zeros(k) + ds;
      assert s[..|s| - 1] == Zeros(k) + ds[..|ds| - 1];
      ValueLeadingZeros(k, ds[..|ds| - 1]);
    }
  }

  /** printf's "%0<width>d" of a non-negative number. */
  function ZeroPad(n: nat, width: nat): (ds: string)
    ensures AllDigits(ds) && Value(ds) == n
    ensures |ds| == if |Decimal(n)| < width then width else |Decimal(n)|
  {
    var d := Decimal(n);
    if |d| < width then
      ValueLeadingZeros(width - |d|, d);
      Zeros(width - |d|) + d
    else d
  }

  /** The result of one "%d" conversion and the input it leaves. */
  datatype Scanned = Scanned(value: int, rest: string)

  /** Length of the leading run of digits. */
  function DigitRun(s: string): (k: nat)
    ensures k <= |s| && AllDigits(s[..k])
    ensures k == |s| || !IsDigit(s[k])
  {
    if s != [] && IsDigit(s[0]) then
      var k := 1 + DigitRun(s[1..]);
      assert forall i :: 1 <= i < k ==> s[..k][i] == s[1..][..k - 1][i - 1];
      k
    else 0
  }

  /** The digits of a "%d" conversion once blanks and sign are consumed. */
  function ScanDigits(u: string): (r: Option<Scanned>)
    ensures r.Some? <==> u != [] && IsDigit(u[0])
  {
    var k := DigitRun(u);
    if k == 0 then None else Some(Scanned(Value(u[..k]), u[k..]))
  }

  /** One "%d" conversion of sscanf: skip isspace characters, an optional sign,
      then at least one digit. The value is the mathematical one. */
  function ScanInt(s: string): (r: Option<Scanned>)
  {
    var t := SkipSpaces(s);
    if t != [] && t[0] == '-' then
      match ScanDigits(t[1..])
      case None => None
      case Some(d) => Some(Scanned(-d.value, d.rest))
    else if t != [] && t[0] == '+' then ScanDigits(t[1..])
    else ScanDigits(t)
  }

  datatype Dmy = Dmy(day: int, month: int, year: int)

  /** A "%d" conversion followed by a literal '/'; the rest is what follows
      the slash. */
  function ScanIntSlash(s: string): (r: Option<Scanned>)
  {
    match ScanInt(s)
    case None => None
    case Some(n) =>
      if n.rest != [] && n.rest[0] == '/' then Some(Scanned(n.value, n.rest[1..])) else None
  }

  /** sscanf(s, "%d/%d/%d", &d, &m, &y) == 3; a '/' must follow each of the
      first two numbers at once, and what follows the third is ignored. */
  function ScanDate(s: string): Option<Dmy>
  {
    match ScanIntSlash(s)
    case None => None
    case Some(d) =>
      match ScanIntSlash(d.rest)
      case None => None
      case Some(m) =>
        match ScanInt(m.rest)
        case None => None
        case Some(y) => Some(Dmy(d.value, m.value, y.value))
  }

  /** The characters the final loop of is_valid_date lets through. */
  predicate DateChar(c: char) {
    IsDigit(c) || c == '/' || c == ' ' || c == '\t' || c == '\r' || c == '\n'
  }

  predicate DateChars(s: string) {
    forall i :: 0 <= i < |s| ==> DateChar(s[i])
  }

  /** The range checks of is_valid_date for a year range. */
  predicate InCalendar(date: Dmy, minYear: int, maxYear: int)
  {
    && minYear <= date.year <= maxYear
    && 1 <= date.month <= 12
    && 1 <= date.day <= DaysInMonth(date.month, date.year)
  }

  /** A date inside the calendar has a day 1..31, no 31st in a short month
      and a 29 February only in a leap year. */
  lemma InCalendarBounds(date: Dmy, minYear: int, maxYear: int)
    requires InCalendar(date, minYear, maxYear)
    ensures 1 <= date.day <= 31
    ensures date.day == 31 ==> date.month in {1, 3, 5, 7, 8, 10, 12}
    ensures date.month == 2 && date.day == 29 ==> IsLeapYear(date.year)
  {
  }

  /** "%02d/%02d/%04d". */
  function FormatDate(date: Dmy): string
    requires date.day >= 0 && date.month >= 0 && date.year >= 0
  {
    ZeroPad(date.day, 2) + "/" + ZeroPad(date.month, 2) + "/" + ZeroPad(date.year, 4)
  }

  /** Whitespace that the scanner skips and the character filter accepts. */
  predicate Blank(w: string) {
    forall i :: 0 <= i < |w| ==> w[i] == ' ' || w[i] == '\t' || w[i] == '\r' || w[i] == '\n'
  }

  lemma {:induction false} SkipBlank(w: string, s: string)
    requires Blank(w)
    requires s == [] || !IsSpace(s[0])
    ensures SkipSpaces(w + s) == s
    decreases |w|
  {
    if w != [] {
      assert (w + s)[1..] == w[1..] + s;
      SkipBlank(w[1..], s);
    } else {
      assert w + s == s;
    }
  }

  lemma {:induction false} DigitRunShape(a: string, rest: string)
    requires AllDigits(a)
    requires rest == [] || !IsDigit(rest[0])
    ensures DigitRun(a + rest) == |a|
    decreases |a|
  {
    if a == [] {
      assert a + rest == rest;
    } else {
      assert (a + rest)[1..] == a[1..] + rest;
      DigitRunShape(a[1..], rest);
    }
  }

  lemma ScanDigitsShape(a: string, rest: string)
    requires a != [] && AllDigits(a)
    requires rest == [] || !IsDigit(rest[0])
    ensures ScanDigits(a + rest) == Some(Scanned(Value(a), rest))
  {
    var s := a + rest;
    DigitRunShape(a, rest);
    assert s[..|a|] == a;
    assert s[|a|..] == rest;
  }

  /** A run of blanks, digits, then anything that does not start with a digit,
      scans as that number. */
  lemma ScanIntShape(s: string, w: string, a: string, rest: string)
    requires s == w + a + rest
    requires Blank(w)
    requires a != [] && AllDigits(a)
    requires rest == [] || !IsDigit(rest[0])
    ensures ScanInt(s) == Some(Scanned(Value(a), rest))
  {
    var u := a + rest;
    assert s == w + u;
    assert u[0] == a[0];
    SkipBlank(w, u);
    ScanIntUnsigned(s);
    ScanDigitsShape(a, rest);
  }

  lemma ScanIntSlashShape(s: string, w: string, a: string, rest: string)
    requires s == w + a + "/" + rest
    requires Blank(w)
    requires a != [] && AllDigits(a)
    ensures ScanIntSlash(s) == Some(Scanned(Value(a), rest))
  {
    var r := "/" + rest;
    assert s == w + a + r;
    ScanIntShape(s, w, a, r);
    assert r[1..] == rest;
  }

  /** The scanner accepts every string made of three fields: blanks then
      digits then '/', blanks then digits then '/', and blanks then digits then
      a tail that does not start with a digit. It reads the three numbers. */
  lemma ScanDateShape(s: string, w1: string, a: string, r1: string, w2: string, b: string, r2: string,
                      w3: string, c: string, t: string)
    requires s == w1 + a + "/" + r1 && r1 == w2 + b + "/" + r2 && r2 == w3 + c + t
    requires Blank(w1) && Blank(w2) && Blank(w3)
    requires a != [] && AllDigits(a) && b != [] && AllDigits(b) && c != [] && AllDigits(c)
    requires t == [] || !IsDigit(t[0])
    ensures ScanDate(s) == Some(Dmy(Value(a), Value(b), Value(c)))
  {
    ScanIntSlashShape(s, w1, a, r1);
    ScanIntSlashShape(r1, w2, b, r2);
    ScanIntShape(r2, w3, c, t);
  }

  lemma DateCharsSuffix(s: string, k: nat)
    requires DateChars(s) && k <= |s|
    ensures DateChars(s[k..])
  {
    assert forall i :: 0 <= i < |s| - k ==> s[k..][i] == s[k + i];
  }

  /** Without a sign, "%d" reads the digits after the leading whitespace. */
  lemma ScanIntUnsigned(s: string)
    requires SkipSpaces(s) == [] || (SkipSpaces(s)[0] != '-' && SkipSpaces(s)[0] != '+')
    ensures ScanInt(s) == ScanDigits(SkipSpaces(s))
  {
  }

  lemma ScanDigitsParts(u: string)
    requires ScanDigits(u).Some?
    ensures u == u[..DigitRun(u)] + ScanDigits(u).value.rest
    ensures ScanDigits(u).value.value == Value(u[..DigitRun(u)])
    ensures DigitRun(u) > 0
  {
    var k := DigitRun(u);
    assert u == u[..k] + u[k..];
  }

  /** The digits read are a non-empty prefix, the rest a proper suffix. */
  lemma {:induction false} ScanDigitsConsumes(u: string)
    requires ScanDigits(u).Some?
    ensures |ScanDigits(u).value.rest| < |u| && IsSuffix(ScanDigits(u).value.rest, u)
  {
    var k := DigitRun(u);
    assert ScanDigits(u).value.rest == u[k..];
  }

  /** What "%d" looks at once the blanks are skipped: the text after an
      optional sign. */
  function SignSkipped(t: string): string {
    if t != [] && (t[0] == '-' || t[0] == '+') then t[1..] else t
  }

  lemma {:induction false} ScanIntRest(s: string)
    ensures ScanInt(s).Some? <==> ScanDigits(SignSkipped(SkipSpaces(s))).Some?
    ensures ScanInt(s).Some? ==> ScanInt(s).value.rest == ScanDigits(SignSkipped(SkipSpaces(s))).value.rest
  {
  }

  lemma {:induction false} SignSkippedSuffix(s: string)
    ensures IsSuffix(SignSkipped(SkipSpaces(s)), s)
  {
  }

  /** A successful "%d" consumes at least one character and leaves a suffix
      of its input. */
  lemma {:induction false} ScanIntConsumes(s: string)
    requires ScanInt(s).Some?
    ensures |ScanInt(s).value.rest| < |s| && IsSuffix(ScanInt(s).value.rest, s)
  {
    var u := SignSkipped(SkipSpaces(s));
    ScanIntRest(s);
    SignSkippedSuffix(s);
    ScanDigitsConsumes(u);
    SuffixOfSuffix(s, u, ScanDigits(u).value.rest);
  }

  /** A successful "%d/" reads the same number as "%d" and consumes the
      slash after it. */
  lemma {:induction false} ScanIntSlashConsumes(s: string)
    requires ScanIntSlash(s).Some?
    ensures ScanInt(s).Some? && ScanIntSlash(s).value.value == ScanInt(s).value.value
    ensures |ScanIntSlash(s).value.rest| < |s| - 1 && IsSuffix(ScanIntSlash(s).value.rest, s)
  {
    var n := ScanInt(s).value;
    ScanIntConsumes(s);
    assert IsSuffix(n.rest[1..], n.rest);
    SuffixOfSuffix(s, n.rest, n.rest[1..]);
  }

  /** Within permitted text the whitespace the scanner skips is blank. */
  lemma SkippedIsBlank(s: string)
    requires DateChars(s)
    ensures Blank(s[..|s| - |SkipSpaces(s)|])
    ensures DateChars(SkipSpaces(s))
  {
    var j := |s| - |SkipSpaces(s)|;
    var w := s[..j];
    assert forall i :: 0 <= i < |w| ==> w[i] == s[i] && IsSpace(s[i]) && DateChar(s[i]);
    DateCharsSuffix(s, j);
  }

  /** Whatever "%d" reads from text of permitted characters is blanks and
      digits: the characters of is_valid_date exclude signs, \v and \f. */
  lemma {:induction false} ScanIntParts(s: string) returns (w: string, a: string)
    requires DateChars(s) && ScanInt(s).Some?
    ensures Blank(w) && a != [] && AllDigits(a)
    ensures s == w + a + ScanInt(s).value.rest
    ensures ScanInt(s).value.value == Value(a)
    ensures ScanInt(s).value.rest == [] || !IsDigit(ScanInt(s).value.rest[0])
    ensures DateChars(ScanInt(s).value.rest)
  {
    var t := SkipSpaces(s);
    w := s[..|s| - |t|];
    SkippedIsBlank(s);
    assert t != [] ==> DateChar(t[0]);
    ScanIntUnsigned(s);
    var k := DigitRun(t);
    a := t[..k];
    ScanDigitsParts(t);
    SplitAt(s, |w|);
    Assoc(w, a, t[k..]);
    DateCharsSuffix(t, k);
  }

  lemma SlashSplit(r: string)
    requires r != [] && r[0] == '/'
    ensures r == "/" + r[1..]
  {
  }

  /** One "%d/" step read from text of permitted characters. */
  lemma {:induction false} ScanIntSlashParts(s: string) returns (w: string, a: string, rest: string)
    requires DateChars(s) && ScanIntSlash(s).Some?
    ensures Blank(w) && a != [] && AllDigits(a)
    ensures s == w + a + "/" + rest
    ensures ScanIntSlash(s) == Some(Scanned(Value(a), rest))
    ensures DateChars(rest)
  {
    var x := ScanInt(s).value;
    w, a := ScanIntParts(s);
    rest := x.rest[1..];
    DateCharsSuffix(x.rest, 1);
    SlashSplit(x.rest);
    Assoc(w + a, "/", rest);
  }

  /** Conversely to ScanDateShape: every date the scanner reads from text of
      permitted characters comes from a string of that shape. */
  lemma {:induction false} ScanDateParts(s: string) returns (w1: string, a: string, r1: string, w2: string, b: string, r2: string,
                                          w3: string, c: string, t: string)
    requires DateChars(s) && ScanDate(s).Some?
    ensures s == w1 + a + "/" + r1 && r1 == w2 + b + "/" + r2 && r2 == w3 + c + t
    ensures Blank(w1) && Blank(w2) && Blank(w3)
    ensures a != [] && AllDigits(a) && b != [] && AllDigits(b) && c != [] && AllDigits(c)
    ensures (t == [] || !IsDigit(t[0])) && DateChars(t)
    ensures ScanDate(s) == Some(Dmy(Value(a), Value(b), Value(c)))
  {
    w1, a, r1 := ScanIntSlashParts(s);
    w2, b, r2 := ScanIntSlashParts(r1);
    w3, c := ScanIntParts(r2);
    t := ScanInt(r2).value.rest;
  }

  lemma BlankDateChars(w: string)
    requires Blank(w)
    ensures DateChars(w)
  {
  }

  lemma DigitsAreDateChars(ds: string)
    requires AllDigits(ds)
    ensures DateChars(ds)
  {
  }

  lemma DateCharsAppend(x: string, y: string)
    requires DateChars(x) && DateChars(y)
    ensures DateChars(x + y)
  {
    forall i | 0 <= i < |x + y| ensures DateChar((x + y)[i]) {
      if i >= |x| {
        assert (x + y)[i] == y[i - |x|];
      }
    }
  }

  /** A string of that shape passes the character filter when its tail does. */
  lemma ShapeDateChars(s: string, w1: string, a: string, r1: string, w2: string, b: string, r2: string,
                       w3: string, c: string, t: string)
    requires s == w1 + a + "/" + r1 && r1 == w2 + b + "/" + r2 && r2 == w3 + c + t
    requires Blank(w1) && Blank(w2) && Blank(w3)
    requires AllDigits(a) && AllDigits(b) && AllDigits(c) && DateChars(t)
    ensures DateChars(s)
  {
    BlankDateChars(w3);
    DigitsAreDateChars(c);
    DateCharsAppend(w3, c);
    DateCharsAppend(w3 + c, t);
    BlankDateChars(w2);
    DigitsAreDateChars(b);
    DateCharsAppend(w2, b);
    DateCharsAppend(w2 + b, "/");
    DateCharsAppend(w2 + b + "/", r2);
    BlankDateChars(w1);
    DigitsAreDateChars(a);
    DateCharsAppend(w1, a);
    DateCharsAppend(w1 + a, "/");
    DateCharsAppend(w1 + a + "/", r1);
  }

  /** The printed form of a date scans back to that date. */
  lemma FormatDateScans(date: Dmy)
    requires date.day >= 0 && date.month >= 0 && date.year >= 0
    ensures ScanDate(FormatDate(date)) == Some(date)
  {
    var a, b, c := ZeroPad(date.day, 2), ZeroPad(date.month, 2), ZeroPad(date.year, 4);
    var e: string := [];
    var r2 := c;
    var r1 := b + "/" + c;
    assert FormatDate(date) == e + a + "/" + r1;
    assert r1 == e + b + "/" + r2;
    assert r2 == e + c + e;
    ScanDateShape(FormatDate(date), e, a, r1, e, b, r2, e, c, e);
  }

  /** The printed form of a date passes the character filter. */
  lemma FormatDateChars(date: Dmy)
    requires date.day >= 0 && date.month >= 0 && date.year >= 0
    ensures DateChars(FormatDate(date))
  {
    var a, b, c := ZeroPad(date.day, 2), ZeroPad(date.month, 2), ZeroPad(date.year, 4);
    DigitsAreDateChars(a);
    DigitsAreDateChars(b);
    DigitsAreDateChars(c);
    DateCharsAppend(a, "/");
    DateCharsAppend(a + "/", b);
    DateCharsAppend(a + "/" + b, "/");
    DateCharsAppend(a + "/" + b + "/", c);
  }

  /** The DD/MM/YYYY layout: ten characters, '/' at positions 2 and 5 and
      digits everywhere else. */
  predicate DateShaped(s: string) {
    && |s| == 10 && s[2] == '/' && s[5] == '/'
    && forall i :: 0 <= i < 10 && i != 2 && i != 5 ==> IsDigit(s[i])
  }

  /** A day and month below 100 and a year below 10000 print as exactly
      DD/MM/YYYY. */
  lemma FormatDateShape(date: Dmy)
    requires 0 <= date.day < 100 && 0 <= date.month < 100 && 0 <= date.year < 10000
    ensures DateShaped(FormatDate(date))
  {
    DecimalLength(date.day, 2);
    DecimalLength(date.month, 2);
    DecimalLength(date.year, 4);
    var a, b, c := ZeroPad(date.day, 2), ZeroPad(date.month, 2), ZeroPad(date.year, 4);
    var s := FormatDate(date);
    assert s == a + "/" + b + "/" + c;
    forall i | 0 <= i < 10 && i != 2 && i != 5 ensures IsDigit(s[i]) {
      if i < 2 {
        assert s[i] == a[i];
      } else if i < 5 {
        assert s[i] == b[i - 3];
      } else {
        assert s[i] == c[i - 6];
      }
    }
  }
}
