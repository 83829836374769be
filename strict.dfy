/** The strict record manager (58_Project.c): fixed-format IDs and registration
    numbers, dates normalised to DD/MM/YYYY within 1990..2026, trimmed fields on
    load, and the add, update and delete steps on the record array. */
module Strict {
  import opened Wrappers
  import opened CText
  import opened Records
  import opened Csv
  import opened Dates

  const MaxRecords: nat := 1000
  /** Characters each column keeps (its buffer size less the terminator). */
  const IdMaxLen: nat := 16
  const CarRegMaxLen: nat := 13
  const OwnerMaxLen: nat := 40
  const DateMaxLen: nat := 14
  const MinYear: int := 1990
  const MaxYear: int := 2026

  // ---------------------------------------------------------------- validators

  /** is_valid_id: one uppercase letter, three digits, not all of them '0'. */
  predicate IsValidId(id: string): (ok: bool)
    ensures ok <==> |id| == 4 && IsUpper(id[0]) && AllDigits(id[1..]) && id[1..] != "000"
  {
    && |id| == 4
    && IsUpper(id[0])
    && IsDigit(id[1]) && IsDigit(id[2]) && IsDigit(id[3])
    && !(id[1] == '0' && id[2] == '0' && id[3] == '0')
  }

  /** is_valid_car_reg: three uppercase letters, four digits, not all of them '0'. */
  predicate IsValidCarReg(reg: string): (ok: bool)
    ensures ok <==>
      |reg| == 7 && (forall i :: 0 <= i < 3 ==> IsUpper(reg[i])) && AllDigits(reg[3..]) && reg[3..] != "0000"
  {
    && |reg| == 7
    && IsUpper(reg[0]) && IsUpper(reg[1]) && IsUpper(reg[2])
    && IsDigit(reg[3]) && IsDigit(reg[4]) && IsDigit(reg[5]) && IsDigit(reg[6])
    && !(reg[3] == '0' && reg[4] == '0' && reg[5] == '0' && reg[6] == '0')
  }

  /** The number part of an accepted ID is between 1 and 999, and every such
      number after any uppercase letter is accepted. */
  lemma IdNumber(id: string)
    ensures IsValidId(id) <==>
      |id| == 4 && IsUpper(id[0]) && AllDigits(id[1..]) && 1 <= Value(id[1..]) <= 999
  {
    if |id| == 4 && AllDigits(id[1..]) {
      ValueZero(id[1..]);
      ValueBound(id[1..]);
      assert id[1..] == "000" <==> forall i :: 0 <= i < 3 ==> id[1..][i] == '0';
    }
  }

  lemma IdFromNumber(letter: char, n: nat)
    requires IsUpper(letter) && 1 <= n <= 999
    ensures IsValidId([letter] + ZeroPad(n, 3))
    ensures Value(([letter] + ZeroPad(n, 3))[1..]) == n
  {
    DecimalLength(n, 3);
    var id := [letter] + ZeroPad(n, 3);
    assert id[1..] == ZeroPad(n, 3);
    IdNumber(id);
  }

  /** The number part of an accepted registration is between 1 and 9999. */
  lemma CarRegNumber(reg: string)
    ensures IsValidCarReg(reg) <==>
      && |reg| == 7 && (forall i :: 0 <= i < 3 ==> IsUpper(reg[i]))
      && AllDigits(reg[3..]) && 1 <= Value(reg[3..]) <= 9999
  {
    if |reg| == 7 && AllDigits(reg[3..]) {
      ValueZero(reg[3..]);
      ValueBound(reg[3..]);
      assert reg[3..] == "0000" <==> forall i :: 0 <= i < 4 ==> reg[3..][i] == '0';
    }
  }

  lemma CarRegFromNumber(letters: string, n: nat)
    requires |letters| == 3 && (forall i :: 0 <= i < 3 ==> IsUpper(letters[i])) && 1 <= n <= 9999
    ensures IsValidCarReg(letters + ZeroPad(n, 4))
    ensures Value((letters + ZeroPad(n, 4))[3..]) == n
  {
    DecimalLength(n, 4);
    var reg := letters + ZeroPad(n, 4);
    assert reg[3..] == ZeroPad(n, 4);
    assert forall i :: 0 <= i < 3 ==> reg[i] == letters[i];
    CarRegNumber(reg);
  }

  /** An accepted ID never equals an accepted registration, whatever the case. */
  lemma IdIsNeverCarReg(id: string, reg: string)
    requires IsValidId(id) && IsValidCarReg(reg)
    ensures !EqualsIgnoreCase(id, reg)
  {
    assert |Lower(id)| != |Lower(reg)|;
  }

  /** is_valid_owner_name, with this variant's limit of 40 characters. */
  predicate IsValidOwnerName(s: string) {
    IsOwnerName(s, OwnerMaxLen)
  }

  /** The longest name accepted has 40 letters; one more is refused. */
  lemma OwnerNameLongest()
    ensures IsValidOwnerName(seq(40, _ => 'A'))
    ensures !IsValidOwnerName(seq(41, _ => 'A'))
  {
    assert IsAlpha(seq(40, _ => 'A')[0]);
  }

  /** is_valid_date(s, normalized): None when it returns 0, otherwise the
      "%02d/%02d/%04d" text it writes to normalized. */
  function ValidateDate(s: string): (r: Option<string>)
    ensures r.Some? ==> |r.value| == 10 && r.value[2] == '/' && r.value[5] == '/'
    ensures r.Some? ==> forall i :: 0 <= i < 10 && i != 2 && i != 5 ==> IsDigit(r.value[i])
  {
    match ScanDate(s)
    case None => None
    case Some(date) =>
      if InCalendar(date, MinYear, MaxYear) && DateChars(s) then
        FormatDateShape(date);
        Some(FormatDate(date))
      else None
  }

  /** Every string of blanks, digits, '/', blanks, digits, '/', blanks, digits
      and a tail of permitted characters that does not start with a digit is
      accepted when the numbers form a calendar date of 1990..2026; the result
      is that date printed as DD/MM/YYYY. */
  lemma DateAccepted(s: string, w1: string, a: string, r1: string, w2: string, b: string, r2: string,
                     w3: string, c: string, t: string)
    requires s == w1 + a + "/" + r1 && r1 == w2 + b + "/" + r2 && r2 == w3 + c + t
    requires Blank(w1) && Blank(w2) && Blank(w3)
    requires a != [] && AllDigits(a) && b != [] && AllDigits(b) && c != [] && AllDigits(c)
    requires (t == [] || !IsDigit(t[0])) && DateChars(t)
    requires InCalendar(Dmy(Value(a), Value(b), Value(c)), MinYear, MaxYear)
    ensures ValidateDate(s) == Some(FormatDate(Dmy(Value(a), Value(b), Value(c))))
  {
    ScanDateShape(s, w1, a, r1, w2, b, r2, w3, c, t);
    ShapeDateChars(s, w1, a, r1, w2, b, r2, w3, c, t);
  }

  /** Conversely, every accepted string has that shape, and the result is its
      date printed as DD/MM/YYYY. */
  lemma {:induction false} DateAcceptedShape(s: string) returns (w1: string, a: string, r1: string, w2: string, b: string, r2: string,
                                               w3: string, c: string, t: string)
    requires ValidateDate(s).Some?
    ensures s == w1 + a + "/" + r1 && r1 == w2 + b + "/" + r2 && r2 == w3 + c + t
    ensures Blank(w1) && Blank(w2) && Blank(w3)
    ensures a != [] && AllDigits(a) && b != [] && AllDigits(b) && c != [] && AllDigits(c)
    ensures (t == [] || !IsDigit(t[0])) && DateChars(t)
    ensures InCalendar(Dmy(Value(a), Value(b), Value(c)), MinYear, MaxYear)
    ensures ValidateDate(s) == Some(FormatDate(Dmy(Value(a), Value(b), Value(c))))
  {
    assert ScanDate(s).Some? && DateChars(s);
    w1, a, r1, w2, b, r2, w3, c, t := ScanDateParts(s);
  }

  /** Normalising is idempotent: the normalised text is accepted and
      normalises to itself. */
  lemma DateIdempotent(s: string)
    requires ValidateDate(s).Some?
    ensures ValidateDate(ValidateDate(s).value) == ValidateDate(s)
  {
    var date := ScanDate(s).value;
    FormatDateScans(date);
    FormatDateChars(date);
  }

  /** A date in the form is_valid_date writes: some calendar date of
      1990..2026 printed as DD/MM/YYYY. */
  ghost predicate NormalDate(s: string) {
    exists date :: InCalendar(date, MinYear, MaxYear) && s == FormatDate(date)
  }

  /** The normalised texts are exactly the ones is_valid_date accepts
      unchanged. */
  lemma NormalDateAccepted(s: string)
    ensures NormalDate(s) <==> ValidateDate(s) == Some(s)
  {
    if NormalDate(s) {
      var date :| InCalendar(date, MinYear, MaxYear) && s == FormatDate(date);
      FormatDateScans(date);
      FormatDateChars(date);
    }
  }

  /** The leap rule at work: 29/02/2024 is accepted as it is. */
  lemma LeapDayAccepted()
    ensures ValidateDate("29/02/2024") == Some("29/02/2024")
  {
    var e: string := [];
    assert "29/02/2024" == e + "29" + "/" + "02/2024";
    assert "02/2024" == e + "02" + "/" + "2024";
    assert "2024" == e + "2024" + e;
    assert Value("29") == 29 by { Value2("29"); }
    assert Value("02") == 2 by { Value2("02"); }
    assert Value("2024") == 2024 by { Value4("2024"); }
    DateAccepted("29/02/2024", e, "29", "02/2024", e, "02", "2024", e, "2024", e);
    PrintLeapDay();
  }

  lemma PrintLeapDay()
    ensures FormatDate(Dmy(29, 2, 2024)) == "29/02/2024"
  {
    PrintTwoDigits(29);
    PrintOneDigit(2);
    PrintYear2024();
  }

  lemma PrintTwoDigits(n: nat)
    requires 10 <= n < 100
    ensures ZeroPad(n, 2) == [DigitChar(n / 10), DigitChar(n % 10)]
  {
    assert Decimal(n) == Decimal(n / 10) + [DigitChar(n % 10)];
  }

  lemma PrintOneDigit(n: nat)
    requires n < 10
    ensures ZeroPad(n, 2) == ['0', DigitChar(n)]
  {
    assert Decimal(n) == [DigitChar(n)];
    assert Zeros(1) == "0";
  }

  lemma PrintYear2024()
    ensures ZeroPad(2024, 4) == "2024"
  {
    assert Decimal(20) == Decimal(2) + [DigitChar(0)];
    assert Decimal(202) == Decimal(20) + [DigitChar(2)];
    assert Decimal(2024) == Decimal(202) + [DigitChar(4)];
  }

  /** 29 February is refused in a common year. */
  lemma LeapDayRefused()
    ensures ValidateDate("29/02/2023") == None
  {
    var e: string := [];
    assert "29/02/2023" == e + "29" + "/" + "02/2023";
    assert "02/2023" == e + "02" + "/" + "2023";
    assert "2023" == e + "2023" + e;
    assert Value("29") == 29 by { Value2("29"); }
    assert Value("02") == 2 by { Value2("02"); }
    assert Value("2023") == 2023 by { Value4("2023"); }
    ScanDateShape("29/02/2023", e, "29", "02/2023", e, "02", "2023", e, "2023", e);
  }

  /** What follows the year is ignored when its characters are permitted. */
  lemma TrailingTextIgnored()
    ensures ValidateDate("01/08/2025/99").Some?
  {
    var e: string := [];
    assert "01/08/2025/99" == e + "01" + "/" + "08/2025/99";
    assert "08/2025/99" == e + "08" + "/" + "2025/99";
    assert "2025/99" == e + "2025" + "/99";
    assert Value("01") == 1 by { Value2("01"); }
    assert Value("08") == 8 by { Value2("08"); }
    assert Value("2025") == 2025 by { Value4("2025"); }
    DateAccepted("01/08/2025/99", e, "01", "08/2025/99", e, "08", "2025/99", e, "2025", "/99");
  }

  // ---------------------------------------------------------------- trimming

  /** The trailing half of trim_whitespace: NUL-writing trailing isspace
      characters from the end. */
  function TrimRight(s: string): (r: string)
    ensures r <= s
    ensures r == [] || !IsSpace(r[|r| - 1])
    ensures forall i :: |r| <= i < |s| ==> IsSpace(s[i])
  {
    if s != [] && IsSpace(s[|s| - 1]) then TrimRight(s[..|s| - 1]) else s
  }

  /** No leading and no trailing isspace character. */
  predicate Trimmed(s: string) {
    s == [] || (!IsSpace(s[0]) && !IsSpace(s[|s| - 1]))
  }

  /** The text trim_whitespace leaves in its buffer. */
  function Trim(s: string): (r: string)
    ensures Trimmed(r) && |r| <= |s|
  {
    TrimRight(SkipSpaces(s))
  }

  lemma LeadIsSpace(s: string)
    ensures AllSpace(s[..|s| - |SkipSpaces(s)|])
  {
    var lead := s[..|s| - |SkipSpaces(s)|];
    assert forall i :: 0 <= i < |lead| ==> lead[i] == s[i];
  }

  lemma TrailIsSpace(u: string)
    ensures AllSpace(u[|TrimRight(u)|..])
  {
    var r := TrimRight(u);
    var trail := u[|r|..];
    assert forall i :: 0 <= i < |trail| ==> trail[i] == u[|r| + i];
  }

  /** Trimming removes a run of whitespace from each end and nothing else. */
  lemma {:induction false} TrimParts(s: string) returns (lead: string, trail: string)
    ensures s == lead + Trim(s) + trail
    ensures AllSpace(lead) && AllSpace(trail)
  {
    var u := SkipSpaces(s);
    var r := TrimRight(u);
    lead := s[..|s| - |u|];
    trail := u[|r|..];
    LeadIsSpace(s);
    TrailIsSpace(u);
    assert Trim(s) == r;
    Rejoined(s, u, r);
  }

  /** A suffix u of s and a prefix r of u cut s into three pieces. */
  lemma Rejoined<T>(s: seq<T>, u: seq<T>, r: seq<T>)
    requires |u| <= |s| && u == s[|s| - |u|..] && r <= u
    ensures s == s[..|s| - |u|] + r + u[|r|..]
  {
    assert u == r + u[|r|..] by {
      assert u[..|r|] == r;
      SplitAt(u, |r|);
    }
    SplitAt(s, |s| - |u|);
    Assoc(s[..|s| - |u|], r, u[|r|..]);
  }

  /** A string without edge whitespace is left as it is. */
  lemma {:induction false} TrimKeeps(s: string)
    requires Trimmed(s)
    ensures Trim(s) == s
  {
  }

  lemma TrimIdempotent(s: string)
    ensures Trim(Trim(s)) == Trim(s)
  {
    TrimKeeps(Trim(s));
  }

  /** `while (isspace(*start)) start++;` over buf[..len]: the number of
      leading whitespace characters. */
  method LeadingSpaces(buf: array<char>, len: nat) returns (start: nat)
    requires len <= buf.Length
    ensures start <= len
    ensures buf[start..len] == SkipSpaces(buf[..len])
  {
    ghost var s := buf[..len];
    start := 0;
    while start < len && IsSpace(buf[start])
      invariant 0 <= start <= len
      invariant SkipSpaces(s) == SkipSpaces(s[start..])
    {
      assert s[start..][1..] == s[start + 1..];
      start := start + 1;
    }
    assert s[start..] == buf[start..len];
    if start < len {
      assert s[start..][0] == buf[start];
    }
  }

  /** memmove(str, str + start, m + 1): the m characters at start and the
      terminator after them move to the front; a forward copy is safe because
      the destination lies before the source. */
  method MoveToFront(buf: array<char>, start: nat, m: nat)
    requires start + m < buf.Length
    modifies buf
    ensures buf[..] == old(buf[start..start + m + 1]) + old(buf[m + 1..])
  {
    ghost var b := buf[..];
    var i := 0;
    while i <= m
      invariant 0 <= i <= m + 1
      invariant forall k :: 0 <= k < i ==> buf[k] == b[start + k]
      invariant forall k :: i <= k < buf.Length ==> buf[k] == b[k]
    {
      buf[i] := buf[start + i];
      i := i + 1;
    }
    Spliced(buf[..], b[start..start + m + 1], b[m + 1..]);
  }

  /** `while (end >= str && isspace(*end)) *end-- = '\0';` on buf[..m]. */
  method ClearTrailing(buf: array<char>, m: nat) returns (end: nat)
    requires m <= buf.Length
    modifies buf
    ensures end == |TrimRight(old(buf[..m]))| <= m
    ensures buf[..] == TrimRight(old(buf[..m])) + Nuls(m - end) + old(buf[m..])
  {
    ghost var b := buf[..];
    ghost var u := buf[..m];
    SplitAt(b, m);
    assert b == u + Nuls(0) + b[m..];
    end := m;
    while end > 0 && IsSpace(buf[end - 1])
      invariant 0 <= end <= m
      invariant buf[..] == u[..end] + Nuls(m - end) + b[m..]
      invariant TrimRight(u[..end]) == TrimRight(u)
    {
      assert buf[end - 1] == u[end - 1] by {
        assert buf[end - 1] == buf[..][end - 1];
      }
      TrimRightStep(u, end);
      ClearStep(u, end, b[m..]);
      buf[end - 1] := '\0';
      end := end - 1;
    }
    if end > 0 {
      assert buf[end - 1] == u[end - 1] by {
        assert buf[end - 1] == buf[..][end - 1];
      }
    }
    TrimRightStop(u, end);
  }

  /** A trailing space of u[..end] is one that TrimRight drops. */
  lemma TrimRightStep(u: string, end: nat)
    requires 0 < end <= |u| && IsSpace(u[end - 1])
    ensures TrimRight(u[..end - 1]) == TrimRight(u[..end])
  {
    assert u[..end][..end - 1] == u[..end - 1];
  }

  /** TrimRight stops at the first non-space from the end. */
  lemma TrimRightStop(u: string, end: nat)
    requires end <= |u| && (end == 0 || !IsSpace(u[end - 1]))
    ensures TrimRight(u[..end]) == u[..end]
  {
  }

  /** Writing a NUL just before the cleared tail lengthens the tail by one. */
  lemma ClearStep(u: string, end: nat, rest: seq<char>)
    requires 0 < end <= |u|
    ensures (u[..end] + Nuls(|u| - end) + rest)[end - 1 := '\0'] == u[..end - 1] + Nuls(|u| - end + 1) + rest
  {
    var x := (u[..end] + Nuls(|u| - end) + rest)[end - 1 := '\0'];
    var y := u[..end - 1] + Nuls(|u| - end + 1) + rest;
    forall k | 0 <= k < |x| ensures x[k] == y[k] {
      if k < end - 1 {
        assert x[k] == u[k] == y[k];
      } else if k < |u| {
        assert x[k] == '\0' == y[k];
      } else {
        assert x[k] == rest[k - |u|] == y[k];
      }
    }
  }

  /** A sequence that agrees with x then y position by position is x + y. */
  lemma Spliced(s: seq<char>, x: seq<char>, y: seq<char>)
    requires |s| == |x| + |y|
    requires forall k :: 0 <= k < |x| ==> s[k] == x[k]
    requires forall k :: |x| <= k < |s| ==> s[k] == y[k - |x|]
    ensures s == x + y
  {
    assert forall k :: 0 <= k < |s| ==> s[k] == (x + y)[k];
  }

  function Nuls(k: nat): (z: string)
    ensures |z| == k && forall i :: 0 <= i < k ==> z[i] == '\0'
  {
    seq(k, _ => '\0')
  }

  /** The buffer trim_whitespace leaves behind when it held b[..len] and a
      terminator at b[len]: the trimmed text, NULs up to where the moved
      terminator landed, and the old bytes after that. */
  function TrimmedBuffer(b: seq<char>, len: nat): (r: seq<char>)
    requires len < |b|
    ensures |r| == |b|
  {
    Filled(Trim(b[..len]), |SkipSpaces(b[..len])|, b)
  }

  /** The text t, NULs up to and including index m, then b from m + 1 on. */
  function Filled(t: string, m: nat, b: seq<char>): (r: seq<char>)
    requires |t| <= m < |b|
    ensures |r| == |b|
  {
    t + Nuls(m + 1 - |t|) + b[m + 1..]
  }

  /** Read as a C string, the buffer then holds the trimmed text. */
  lemma TrimmedBufferReads(b: seq<char>, len: nat)
    requires len < |b|
    ensures TrimmedBuffer(b, len)[..|Trim(b[..len])|] == Trim(b[..len])
    ensures TrimmedBuffer(b, len)[|Trim(b[..len])|] == '\0'
  {
    var u := SkipSpaces(b[..len]);
    var t := TrimRight(u);
    assert Trim(b[..len]) == t;
    var r := TrimmedBuffer(b, len);
    assert r[..|t|] == t;
    assert r[|t|] == Nuls(|u| + 1 - |t|)[0];
  }

  /** trim_whitespace on a NUL-terminated buffer holding the C string
      buf[..len], so that len is its strlen. */
  method TrimWhitespace(buf: array<char>, len: nat) returns (newLen: nat)
    requires len < buf.Length && buf[len] == '\0' && CString(buf[..len])
    modifies buf
    ensures newLen == |Trim(old(buf[..len]))|
    ensures buf[..] == TrimmedBuffer(old(buf[..]), len)
  {
    ghost var b := buf[..];
    var start := LeadingSpaces(buf, len);
    var m := len - start;
    TrimmedBufferAt(b, len, start);
    MoveToFront(buf, start, m);
    ghost var moved := buf[..];
    newLen := ClearTrailing(buf, m);
    Reassembled(buf[..], moved, b, len, start, m, newLen);
  }

  /** The pieces trim_whitespace leaves in the buffer, put together: the
      trimmed text, the NULs written over trailing spaces, the terminator
      moved to len - start and the untouched rest. */
  lemma Reassembled(fin: seq<char>, moved: seq<char>, b: seq<char>, len: nat, start: nat, m: nat, newLen: nat)
    requires start <= len < |b| && b[len] == '\0' && m == len - start
    requires moved == b[start..len + 1] + b[m + 1..]
    requires newLen == |TrimRight(moved[..m])| <= m
    requires fin == TrimRight(moved[..m]) + Nuls(m - newLen) + moved[m..]
    ensures newLen == |TrimRight(b[start..len])|
    ensures fin == Filled(TrimRight(b[start..len]), m, b)
  {
    assert moved[..m] == b[start..len];
    assert moved[m..] == ['\0'] + b[m + 1..];
    assert Nuls(m - newLen) + ['\0'] == Nuls(m + 1 - newLen);
  }

  /** TrimmedBuffer when the leading blanks end at start. */
  lemma TrimmedBufferAt(b: seq<char>, len: nat, start: nat)
    requires start <= len < |b|
    requires b[start..len] == SkipSpaces(b[..len])
    ensures Trim(b[..len]) == TrimRight(b[start..len])
    ensures TrimmedBuffer(b, len) == Filled(TrimRight(b[start..len]), len - start, b)
  {
    var u := b[start..len];
    TrimmedBufferOf(b, len, u);
  }

  lemma TrimmedBufferOf(b: seq<char>, len: nat, u: string)
    requires len < |b| && u == SkipSpaces(b[..len])
    ensures Trim(b[..len]) == TrimRight(u)
    ensures TrimmedBuffer(b, len) == Filled(TrimRight(u), |u|, b)
  {
  }

  // ---------------------------------------------------------------- lookup

  /** The key equals the record's ID or its registration, ignoring case. */
  predicate KeyMatches(r: Record, key: string) {
    EqualsIgnoreCase(r.inspectionID, key) || EqualsIgnoreCase(r.carReg, key)
  }

  /** The first index from `from` on whose record matches the key. */
  predicate FirstMatchFrom(recs: seq<Record>, key: string, from: nat, i: int) {
    if i == -1 then forall k :: from <= k < |recs| ==> !KeyMatches(recs[k], key)
    else from <= i < |recs| && KeyMatches(recs[i], key) && forall k :: from <= k < i ==> !KeyMatches(recs[k], key)
  }

  /** The loop of find_by_id_or_reg from index i on: the ID is compared first,
      then the registration. */
  function FindFrom(recs: seq<Record>, key: string, i: nat): (r: int)
    requires i <= |recs|
    ensures FirstMatchFrom(recs, key, i, r)
    decreases |recs| - i
  {
    if i == |recs| then -1
    else if EqualsIgnoreCase(recs[i].inspectionID, key) then i
    else if EqualsIgnoreCase(recs[i].carReg, key) then i
    else FindFrom(recs, key, i + 1)
  }

  /** find_by_id_or_reg(arr, n, key) on recs == arr[..n]: the first record whose
      ID or registration equals the key ignoring case, or -1. */
  function FindByIdOrReg(recs: seq<Record>, key: string): (r: int)
    ensures -1 <= r < |recs|
    ensures FirstMatchFrom(recs, key, 0, r)
  {
    FindFrom(recs, key, 0)
  }

  /** find_case_insensitive: the same search with one combined test. */
  function FindCaseInsensitive(recs: seq<Record>, key: string): (r: int)
    ensures -1 <= r < |recs|
    ensures r == -1 <==> forall k :: 0 <= k < |recs| ==> !KeyMatches(recs[k], key)
    ensures r >= 0 ==> KeyMatches(recs[r], key) && forall k :: 0 <= k < r ==> !KeyMatches(recs[k], key)
    decreases |recs|
  {
    if recs == [] then -1
    else if KeyMatches(recs[0], key) then 0
    else
      var r := FindCaseInsensitive(recs[1..], key);
      if r == -1 then -1 else r + 1
  }

  /** The first match is unique, so both searches agree. */
  lemma FindersAgree(recs: seq<Record>, key: string)
    ensures FindByIdOrReg(recs, key) == FindCaseInsensitive(recs, key)
  {
  }

  /** A typed key copied into a NUL-terminated buffer and trimmed there by
      trim_whitespace; the buffer then reads as the trimmed key. */
  method TrimKey(key: string) returns (k: string)
    requires CString(key)
    ensures k == Trim(key)
  {
    var buf := new char[|key| + 1](i requires 0 <= i < |key| + 1 => if i < |key| then key[i] else '\0');
    ghost var b := buf[..];
    assert b[..|key|] == key;
    var len := TrimWhitespace(buf, |key|);
    TrimmedBufferReads(b, |key|);
    k := buf[..len];
  }

  // ---------------------------------------------------------------- search

  /** The records search_record shows for a key, in order: each one whose ID
      or registration equals the key, ignoring case. */
  function Shown(recs: seq<Record>, key: string): (ms: seq<Record>)
    ensures |ms| <= |recs|
  {
    if recs == [] then []
    else Shown(recs[..|recs| - 1], key) + (if KeyMatches(recs[|recs| - 1], key) then [recs[|recs| - 1]] else [])
  }

  /** search_record on arr[..n]: the key is trimmed in its buffer, then every
      record matching it is shown, and `found` counts them. With no records
      nothing is asked and nothing is shown. */
  method SearchRecord(arr: array<Record>, n: nat, key: string) returns (shown: seq<Record>, found: nat)
    requires n <= arr.Length && CString(key)
    ensures shown == Shown(arr[..n], Trim(key))
    ensures found == |shown|
  {
    if n == 0 {
      return [], 0;
    }
    var k := TrimKey(key);
    shown, found := [], 0;
    var i := 0;
    while i < n
      invariant 0 <= i <= n
      invariant shown == Shown(arr[..i], k) && found == |shown|
    {
      assert arr[..i + 1][..i] == arr[..i];
      if EqualsIgnoreCase(arr[i].inspectionID, k) || EqualsIgnoreCase(arr[i].carReg, k) {
        shown, found := shown + [arr[i]], found + 1;
      }
      i := i + 1;
    }
    assert arr[..n] == arr[..i];
  }

  /** Showing the records of a + b shows those of a, then those of b. */
  lemma {:induction false} ShownAppend(a: seq<Record>, b: seq<Record>, key: string)
    ensures Shown(a + b, key) == Shown(a, key) + Shown(b, key)
    decreases |b|
  {
    if b == [] {
      assert a + b == a;
    } else {
      assert (a + b)[..|a + b| - 1] == a + b[..|b| - 1];
      ShownAppend(a, b[..|b| - 1], key);
    }
  }

  /** A record is shown exactly when it is one of the records and matches. */
  lemma {:induction false} ShownMembers(recs: seq<Record>, key: string, r: Record)
    ensures r in Shown(recs, key) <==> r in recs && KeyMatches(r, key)
  {
    if recs != [] {
      var front := recs[..|recs| - 1];
      ShownMembers(front, key, r);
      assert recs == front + [recs[|recs| - 1]];
    }
  }

  /** "No matches found." exactly when the first-match lookup finds nothing. */
  lemma {:induction false} ShownNone(recs: seq<Record>, key: string)
    ensures Shown(recs, key) == [] <==> FindByIdOrReg(recs, key) == -1
  {
    if recs != [] {
      var front := recs[..|recs| - 1];
      ShownNone(front, key);
      assert forall i :: 0 <= i < |front| ==> front[i] == recs[i];
    }
  }

  /** The record the first-match lookup finds is the first record shown. */
  lemma {:induction false} FirstShownIsFound(recs: seq<Record>, key: string)
    requires FindByIdOrReg(recs, key) != -1
    ensures Shown(recs, key) != [] && Shown(recs, key)[0] == recs[FindByIdOrReg(recs, key)]
  {
    var i := FindByIdOrReg(recs, key);
    var front := recs[..i];
    assert recs == front + recs[i..];
    ShownAppend(front, recs[i..], key);
    ShownNone(front, key);
    FindInPrefixMiss(recs, i, key);
    assert recs[i..] == [recs[i]] + recs[i + 1..];
    ShownAppend([recs[i]], recs[i + 1..], key);
    assert Shown([recs[i]], key) == [recs[i]];
  }

  /** The first i records hold no match when the first match is at i. */
  lemma FindInPrefixMiss(recs: seq<Record>, i: nat, key: string)
    requires i <= |recs| && (FindByIdOrReg(recs, key) == -1 || i <= FindByIdOrReg(recs, key))
    ensures FindByIdOrReg(recs[..i], key) == -1
  {
    var p := recs[..i];
    assert forall k :: 0 <= k < i ==> p[k] == recs[k];
  }

  /** A key typed with white space before a trimmed ID still shows that
      record, since search_record trims the key first. */
  lemma PaddedKeyShown(recs: seq<Record>, i: nat, c: char)
    requires i < |recs| && IsSpace(c) && Trimmed(recs[i].inspectionID)
    ensures recs[i] in Shown(recs, Trim([c] + recs[i].inspectionID))
  {
    var id := recs[i].inspectionID;
    LeadingSpaceTrimmed(c, id);
    TrimKeeps(id);
    assert EqualsIgnoreCase(id, id) by { EqualsIgnoreCaseChars(id, id); }
    ShownMembers(recs, id, recs[i]);
  }

  /** For the samples: " I001" finds nothing by the first-match lookup, while
      search_record shows record I001. */
  lemma PaddedSampleKey()
    ensures FindByIdOrReg(Samples, [' '] + Samples[0].inspectionID) == -1
    ensures Samples[0] in Shown(Samples, Trim([' '] + Samples[0].inspectionID))
  {
    SampleLengths();
    NoMatchOfOtherLength(Samples, [' '] + Samples[0].inspectionID);
    SampleStorable0();
    PaddedKeyShown(Samples, 0, ' ');
  }

  /** A leading white-space character does not change the trimmed text. */
  lemma LeadingSpaceTrimmed(c: char, s: string)
    requires IsSpace(c)
    ensures Trim([c] + s) == Trim(s)
  {
    assert ([c] + s)[1..] == s;
  }

  // ---------------------------------------------------------------- load and save

  lemma TrimChars(s: string)
    ensures CharsWithin(Trim(s), s)
  {
    var lead, trail := TrimParts(s);
    forall c | c in Trim(s) ensures c in s {
      var i :| 0 <= i < |Trim(s)| && Trim(s)[i] == c;
      assert s[|lead| + i] == c;
    }
  }

  /** A column as load_all stores it: strncpy of the token's first `limit`
      characters into the field, then trim_whitespace on the field. */
  function Column(tok: string, limit: nat): (f: string)
    ensures |f| <= limit && Trimmed(f)
    ensures CharsWithin(f, tok)
    ensures |tok| <= limit ==> f == Trim(tok)
  {
    var t := Truncate(tok, limit);
    TrimChars(t);
    Trim(t)
  }

  /** A field load_all can produce: within its limit, no edge whitespace, and
      none of the separators ',' '\r' '\n'. */
  predicate CleanField(f: string, limit: nat) {
    |f| <= limit && Trimmed(f) && NoSeparator(f)
  }

  predicate Clean(r: Record) {
    && CleanField(r.inspectionID, IdMaxLen)
    && CleanField(r.carReg, CarRegMaxLen)
    && CleanField(r.owner, OwnerMaxLen)
    && CleanField(r.date, DateMaxLen)
  }

  /** A record save_all writes and load_all reads back unchanged: clean and
      with no empty field. */
  predicate Storable(r: Record) {
    Clean(r) && r.inspectionID != [] && r.carReg != [] && r.owner != [] && r.date != []
  }

  /** One line of load_all, already without its '\n': cut at the first '\r'
      and split by strtok on ','. A line with fewer than four tokens (an empty
      line has none) adds no record; tokens after the fourth are ignored. */
  function ParseLine(line: string): (r: Option<Record>)
    ensures r.Some? <==> |Tokens(CutAt(line, '\r'))| >= 4
  {
    var toks := Tokens(CutAt(line, '\r'));
    if |toks| < 4 then None
    else
      Some(Record(Column(toks[0], IdMaxLen), Column(toks[1], CarRegMaxLen),
                  Column(toks[2], OwnerMaxLen), Column(toks[3], DateMaxLen)))
  }

  /** A token of a line holds no separator. */
  lemma TokenSafe(line: string, tok: string)
    requires '\n' !in line
    requires tok in Tokens(CutAt(line, '\r'))
    ensures forall c :: c in tok ==> !IsSeparator(c)
  {
    var cut := CutAt(line, '\r');
    var toks := Tokens(cut);
    var k :| 0 <= k < |toks| && toks[k] == tok;
    assert CharsWithin(tok, cut) && ',' !in tok;
  }

  /** A column cut from a token without separators is clean. */
  lemma ColumnClean(tok: string, limit: nat)
    requires forall c :: c in tok ==> !IsSeparator(c)
    ensures CleanField(Column(tok, limit), limit)
  {
    var f := Column(tok, limit);
    forall i | 0 <= i < |f| ensures !IsSeparator(f[i]) {
      assert f[i] in f;
    }
  }

  /** Every record parsed from a line holds clean fields. */
  lemma ParseLineClean(line: string)
    requires '\n' !in line
    ensures ParseLine(line).Some? ==> Clean(ParseLine(line).value)
  {
    var toks := Tokens(CutAt(line, '\r'));
    if |toks| >= 4 {
      TokenSafe(line, toks[0]);
      TokenSafe(line, toks[1]);
      TokenSafe(line, toks[2]);
      TokenSafe(line, toks[3]);
      ColumnClean(toks[0], IdMaxLen);
      ColumnClean(toks[1], CarRegMaxLen);
      ColumnClean(toks[2], OwnerMaxLen);
      ColumnClean(toks[3], DateMaxLen);
    }
  }

  lemma LinesClean(lines: seq<string>)
    requires forall j :: 0 <= j < |lines| ==> '\n' !in lines[j]
    ensures forall j :: 0 <= j < |lines| && ParseLine(lines[j]).Some? ==> Clean(ParseLine(lines[j]).value)
  {
    forall j | 0 <= j < |lines| && ParseLine(lines[j]).Some? ensures Clean(ParseLine(lines[j]).value) {
      ParseLineClean(lines[j]);
    }
  }

  /** load_all(recs, max) on a file holding `text`: the records of its lines, in
      file order, stopping once max records are stored. */
  function Load(text: string, max: nat): (recs: seq<Record>)
    ensures |recs| <= max
    ensures forall i :: 0 <= i < |recs| ==> Clean(recs[i])
  {
    var lines := Lines(text);
    LinesClean(lines);
    CollectAll(lines, ParseLine, Clean);
    Truncate(Collect(lines, ParseLine), max)
  }

  /** The body of load_all's loop for line i into arr[count]: a line whose
      tokens run out part way still overwrites the leading fields of
      arr[count] before it is skipped. */
  method ReadLine(arr: array<Record>, count: nat, lines: seq<string>, i: nat, ghost opts: seq<Option<Record>>)
    returns (added: bool)
    requires count < arr.Length && i < |lines| && opts == ParseAll(lines, ParseLine)
    modifies arr
    ensures added <==> opts[i].Some?
    ensures added ==> arr[count] == opts[i].value
    ensures forall k :: 0 <= k < arr.Length && k != count ==> arr[k] == old(arr[k])
  {
    ParseAllAt(lines, ParseLine, i);
    var line := CutAt(lines[i], '\r');
    added := false;
    if line == [] {
      return;
    }
    var toks := Tokens(line);
    if |toks| < 1 {
      return;
    }
    arr[count] := arr[count].(inspectionID := Column(toks[0], IdMaxLen));
    if |toks| < 2 {
      return;
    }
    arr[count] := arr[count].(carReg := Column(toks[1], CarRegMaxLen));
    if |toks| < 3 {
      return;
    }
    arr[count] := arr[count].(owner := Column(toks[2], OwnerMaxLen));
    if |toks| < 4 {
      return;
    }
    arr[count] := arr[count].(date := Column(toks[3], DateMaxLen));
    added := true;
  }

  /** load_all over a file holding `text`, filling arr. */
  method LoadAll(text: string, arr: array<Record>, max: nat) returns (count: nat)
    requires max <= arr.Length
    modifies arr
    ensures count <= max
    ensures arr[..count] == Load(text, max)
    ensures forall k :: count < k < arr.Length ==> arr[k] == old(arr[k])
  {
    var lines := Lines(text);
    ghost var opts := ParseAll(lines, ParseLine);
    count := 0;
    var i := 0;
    while i < |lines| && count < max
      invariant 0 <= i <= |lines| && count <= max
      invariant arr[..count] == Somes(opts[..i])
      invariant forall k :: count < k < arr.Length ==> arr[k] == old(arr[k])
    {
      ghost var before := arr[..count];
      var added := ReadLine(arr, count, lines, i, opts);
      assert arr[..count] == before;
      SomesSnoc(opts, i);
      if added {
        assert arr[..count + 1] == before + [arr[count]];
        count := count + 1;
      }
      i := i + 1;
    }
    LoadStops(lines, ParseLine, opts, i, arr[..count], max);
  }

  /** Some character of f is not isspace. */
  predicate HasText(f: string) {
    exists i :: 0 <= i < |f| && !IsSpace(f[i])
  }

  /** Trimming leaves something exactly when the string is not all whitespace. */
  lemma TrimEmpty(s: string)
    ensures Trim(s) != [] <==> HasText(s)
  {
    var lead, trail := TrimParts(s);
    if Trim(s) != [] {
      assert s[|lead|] == Trim(s)[0];
    } else {
      assert s == lead + trail;
      forall i | 0 <= i < |s| ensures IsSpace(s[i]) {
        if i >= |lead| {
          assert s[i] == trail[i - |lead|];
        }
      }
    }
  }

  /** A field save_all writes so that load_all reads a field back: it fits
      its column, holds no separator and is not all whitespace. */
  predicate SavableField(f: string, limit: nat) {
    |f| <= limit && NoSeparator(f) && HasText(f)
  }

  predicate Savable(r: Record) {
    && SavableField(r.inspectionID, IdMaxLen)
    && SavableField(r.carReg, CarRegMaxLen)
    && SavableField(r.owner, OwnerMaxLen)
    && SavableField(r.date, DateMaxLen)
  }

  /** What load_all reads back of a saved record: each field trimmed. */
  function Reloaded(r: Record): Record {
    Record(Trim(r.inspectionID), Trim(r.carReg), Trim(r.owner), Trim(r.date))
  }

  /** A storable record is savable and reloads as itself. */
  lemma StorableReloads(r: Record)
    requires Storable(r)
    ensures Savable(r) && Reloaded(r) == r
  {
    TrimKeeps(r.inspectionID);
    TrimKeeps(r.carReg);
    TrimKeeps(r.owner);
    TrimKeeps(r.date);
  }

  /** A savable field is a non-empty string without separator characters. */
  lemma SavableFieldChars(f: string, limit: nat)
    requires SavableField(f, limit)
    ensures f != [] && ',' !in f && '\r' !in f && '\n' !in f
  {
    SeparatorFree(f);
  }

  lemma SavableNoLineBreak(r: Record)
    requires Savable(r)
    ensures NoLineBreak(r)
  {
    SavableFieldChars(r.inspectionID, IdMaxLen);
    SavableFieldChars(r.carReg, CarRegMaxLen);
    SavableFieldChars(r.owner, OwnerMaxLen);
    SavableFieldChars(r.date, DateMaxLen);
  }

  lemma SavableIsPlain(f: string, limit: nat)
    requires SavableField(f, limit)
    ensures PlainField(f) && Column(f, limit) == Trim(f)
  {
    SavableFieldChars(f, limit);
  }

  /** A saved line of a savable record parses back to its trimmed form. */
  lemma ParseSaved(r: Record)
    requires Savable(r)
    ensures ParseLine(FormatLine(r)) == Some(Reloaded(r))
  {
    SavableIsPlain(r.inspectionID, IdMaxLen);
    SavableIsPlain(r.carReg, CarRegMaxLen);
    SavableIsPlain(r.owner, OwnerMaxLen);
    SavableIsPlain(r.date, DateMaxLen);
    SavedTokens(r);
  }

  /** The records collected from the lines save_all wrote. */
  lemma CollectSaved(recs: seq<Record>)
    requires forall i :: 0 <= i < |recs| ==> Savable(recs[i])
    ensures Collect(Lines(SaveText(recs)), ParseLine) == seq(|recs|, i requires 0 <= i < |recs| => Reloaded(recs[i]))
  {
    var back := seq(|recs|, i requires 0 <= i < |recs| => Reloaded(recs[i]));
    forall i | 0 <= i < |recs|
      ensures NoLineBreak(recs[i]) && ParseLine(FormatLine(recs[i])) == Some(back[i])
    {
      SavableNoLineBreak(recs[i]);
      ParseSaved(recs[i]);
    }
    CollectOfSave(recs, ParseLine, back);
  }

  /** save_all then load_all gives back, in order, each record with its fields
      trimmed, when there are at most max of them and each is savable. */
  lemma SaveLoadTrims(recs: seq<Record>, max: nat)
    requires |recs| <= max
    requires forall i :: 0 <= i < |recs| ==> Savable(recs[i])
    ensures Load(SaveText(recs), max) == seq(|recs|, i requires 0 <= i < |recs| => Reloaded(recs[i]))
  {
    CollectSaved(recs);
  }

  /** save_all then load_all gives back the records when there are at most max
      of them and each is storable. */
  lemma SaveLoad(recs: seq<Record>, max: nat)
    requires |recs| <= max
    requires forall i :: 0 <= i < |recs| ==> Storable(recs[i])
    ensures Load(SaveText(recs), max) == recs
  {
    forall i | 0 <= i < |recs| ensures Savable(recs[i]) && Reloaded(recs[i]) == recs[i] {
      StorableReloads(recs[i]);
    }
    SaveLoadTrims(recs, max);
  }

  /** Loading what was saved from a load gives the same records, as long as no
      loaded field came out empty. */
  lemma LoadSaveLoad(text: string, max: nat)
    requires forall i :: 0 <= i < |Load(text, max)| ==> Storable(Load(text, max)[i])
    ensures Load(SaveText(Load(text, max)), max) == Load(text, max)
  {
    SaveLoad(Load(text, max), max);
  }

  /** A clean record with an empty field is saved as a line with fewer than four
      tokens: strtok skips the empty column, so the next load drops it. */
  lemma SavedBlankIsDropped(r: Record)
    requires Clean(r)
    requires r.inspectionID == [] || r.carReg == [] || r.owner == [] || r.date == []
    ensures ParseLine(FormatLine(r)) == None
    ensures Load(SaveText([r]), 1) == []
  {
    SeparatorFree(r.inspectionID);
    SeparatorFree(r.carReg);
    SeparatorFree(r.owner);
    SeparatorFree(r.date);
    SavedBlankLine(r);
    LinesOfSave([r]);
    var line := FormatLine(r);
    assert Lines(SaveText([r])) == [line];
    assert Collect([line], ParseLine) == [];
  }

  lemma SavedBlankLine(r: Record)
    requires ',' !in r.inspectionID && ',' !in r.carReg && ',' !in r.owner && ',' !in r.date
    requires '\r' !in r.inspectionID && '\r' !in r.carReg && '\r' !in r.owner && '\r' !in r.date
    requires r.inspectionID == [] || r.carReg == [] || r.owner == [] || r.date == []
    ensures ParseLine(FormatLine(r)) == None
  {
    var line := FormatLine(r);
    assert '\r' !in line;
    FormatLineIsJoin(r);
    TokensOfJoin(Fields(r));
    var k := if r.inspectionID == [] then 0 else if r.carReg == [] then 1 else if r.owner == [] then 2 else 3;
    NonEmptyDrops(Fields(r), k);
  }

  // ---------------------------------------------------------------- bootstrap

  /** The sample records one at a time: each field is short, trimmed and free
      of separators. One lemma per record keeps each proof about the literal
      strings small enough for the solver. */
  lemma SampleStorable0()
    ensures Storable(Samples[0])
  {
    var r := Samples[0];
    assert CleanField(r.owner, OwnerMaxLen);
  }

  lemma SampleStorable1()
    ensures Storable(Samples[1])
  {
    var r := Samples[1];
    assert CleanField(r.owner, OwnerMaxLen);
  }

  lemma SampleStorable2()
    ensures Storable(Samples[2])
  {
    var r := Samples[2];
    assert CleanField(r.owner, OwnerMaxLen);
  }

  lemma SampleStorable3()
    ensures Storable(Samples[3])
  {
    var r := Samples[3];
    assert CleanField(r.owner, OwnerMaxLen);
  }

  lemma SampleStorable4()
    ensures Storable(Samples[4])
  {
    var r := Samples[4];
    assert CleanField(r.owner, OwnerMaxLen);
  }

  lemma SampleStorable5()
    ensures Storable(Samples[5])
  {
    var r := Samples[5];
    assert CleanField(r.owner, OwnerMaxLen);
  }

  lemma SampleStorable6()
    ensures Storable(Samples[6])
  {
    var r := Samples[6];
    assert CleanField(r.owner, OwnerMaxLen);
  }

  lemma SampleStorable7()
    ensures Storable(Samples[7])
  {
    var r := Samples[7];
    assert CleanField(r.owner, OwnerMaxLen);
  }

  lemma SampleStorable8()
    ensures Storable(Samples[8])
  {
    var r := Samples[8];
    assert CleanField(r.owner, OwnerMaxLen);
  }

  lemma SampleStorable9()
    ensures Storable(Samples[9])
  {
    var r := Samples[9];
    assert CleanField(r.owner, OwnerMaxLen);
  }

  lemma SampleStorable10()
    ensures Storable(Samples[10])
  {
    var r := Samples[10];
    assert CleanField(r.owner, OwnerMaxLen);
  }

  lemma SampleStorable11()
    ensures Storable(Samples[11])
  {
    var r := Samples[11];
    assert CleanField(r.owner, OwnerMaxLen);
  }

  lemma SampleStorable12()
    ensures Storable(Samples[12])
  {
    var r := Samples[12];
    assert CleanField(r.owner, OwnerMaxLen);
  }

  lemma SampleStorable13()
    ensures Storable(Samples[13])
  {
    var r := Samples[13];
    assert CleanField(r.owner, OwnerMaxLen);
  }

  lemma SampleStorable14()
    ensures Storable(Samples[14])
  {
    var r := Samples[14];
    assert CleanField(r.owner, OwnerMaxLen);
  }

  lemma SampleStorable15()
    ensures Storable(Samples[15])
  {
    var r := Samples[15];
    assert CleanField(r.owner, OwnerMaxLen);
  }

  lemma SampleStorable16()
    ensures Storable(Samples[16])
  {
    var r := Samples[16];
    assert CleanField(r.owner, OwnerMaxLen);
  }

  lemma SampleStorable17()
    ensures Storable(Samples[17])
  {
    var r := Samples[17];
    assert CleanField(r.owner, OwnerMaxLen);
  }

  lemma SampleStorable18()
    ensures Storable(Samples[18])
  {
    var r := Samples[18];
    assert CleanField(r.owner, OwnerMaxLen);
  }

  lemma SampleStorable19()
    ensures Storable(Samples[19])
  {
    var r := Samples[19];
    assert CleanField(r.owner, OwnerMaxLen);
  }

  /** Every sample record survives a save and a load. */
  lemma SamplesStorable()
    ensures forall i :: 0 <= i < |Samples| ==> Storable(Samples[i])
  {
    forall i | 0 <= i < |Samples|
      ensures Storable(Samples[i])
    {
      if i == 0 { SampleStorable0(); }
      else if i == 1 { SampleStorable1(); }
      else if i == 2 { SampleStorable2(); }
      else if i == 3 { SampleStorable3(); }
      else if i == 4 { SampleStorable4(); }
      else if i == 5 { SampleStorable5(); }
      else if i == 6 { SampleStorable6(); }
      else if i == 7 { SampleStorable7(); }
      else if i == 8 { SampleStorable8(); }
      else if i == 9 { SampleStorable9(); }
      else if i == 10 { SampleStorable10(); }
      else if i == 11 { SampleStorable11(); }
      else if i == 12 { SampleStorable12(); }
      else if i == 13 { SampleStorable13(); }
      else if i == 14 { SampleStorable14(); }
      else if i == 15 { SampleStorable15(); }
      else if i == 16 { SampleStorable16(); }
      else if i == 17 { SampleStorable17(); }
      else if i == 18 { SampleStorable18(); }
      else { SampleStorable19(); }
    }
  }

  /** Keys of a length no ID and no registration has are found nowhere:
      case folding keeps lengths. */
  lemma NoMatchOfOtherLength(recs: seq<Record>, key: string)
    requires forall k :: 0 <= k < |recs| ==> |recs[k].inspectionID| != |key| && |recs[k].carReg| != |key|
    ensures FindByIdOrReg(recs, key) == -1
  {
    forall k | 0 <= k < |recs| ensures !KeyMatches(recs[k], key) {
      assert |Lower(recs[k].inspectionID)| != |Lower(key)|;
      assert |Lower(recs[k].carReg)| != |Lower(key)|;
    }
  }

  /** A match found before index m is found at the same place in the first m
      records, and a key found nowhere is not found there either. */
  lemma FindInPrefix(recs: seq<Record>, m: nat, key: string)
    requires m <= |recs| && FindByIdOrReg(recs, key) < m
    ensures FindByIdOrReg(recs[..m], key) == FindByIdOrReg(recs, key)
  {
    var p := recs[..m];
    assert forall k :: 0 <= k < m ==> p[k] == recs[k];
  }

  /** After a fresh start the tests search the first 16 samples, and a key
      the samples match before index 16, or nowhere, is found alike there. */
  lemma FreshFileFinds(key: string)
    requires FindByIdOrReg(Samples, key) < 16
    ensures FindByIdOrReg(LoadFile(None), key) == FindByIdOrReg(Samples, key)
  {
    FindInPrefix(Samples, 16, key);
  }

  /** The lookups unit_test_search makes in the sample records: "i002", an
      ID in the other case, is found at the second record. */
  lemma SampleFindsId()
    ensures FindByIdOrReg(Samples, "i002") == 1
    ensures FindByIdOrReg(LoadFile(None), "i002") == 1
  {
    assert Lower("I001") == "i001" && Lower("I002") == "i002" && Lower("i002") == "i002";
    assert |Lower("ABC1234")| == 7 && |Lower("XYZ5678")| == 7;
    assert !KeyMatches(Samples[0], "i002") && KeyMatches(Samples[1], "i002");
    FreshFileFinds("i002");
  }

  /** "xyz5678", a registration in the other case, is found at the second
      record. */
  lemma SampleFindsCarReg()
    ensures FindByIdOrReg(Samples, "xyz5678") == 1
    ensures FindByIdOrReg(LoadFile(None), "xyz5678") == 1
  {
    assert |Lower("I001")| == 4 && |Lower("I002")| == 4;
    assert Lower("ABC1234") == "abc1234" && Lower("XYZ5678") == "xyz5678" && Lower("xyz5678") == "xyz5678";
    assert !KeyMatches(Samples[0], "xyz5678") && KeyMatches(Samples[1], "xyz5678");
    FreshFileFinds("xyz5678");
  }

  /** "NONEXIST", the key unit_test_search expects to miss, is found in no
      sample record, since every sample ID has 4 characters and every sample
      registration 7. */
  lemma SampleMiss()
    ensures FindByIdOrReg(Samples, "NONEXIST") == -1
    ensures FindByIdOrReg(LoadFile(None), "NONEXIST") == -1
  {
    SampleLengths();
    NoMatchOfOtherLength(Samples, "NONEXIST");
    FreshFileFinds("NONEXIST");
  }

  lemma SampleLengths()
    ensures forall k :: 0 <= k < |Samples| ==> |Samples[k].inspectionID| == 4 && |Samples[k].carReg| == 7
  {
  }

  /** The text load_all reads after ensure_csv_has_sample as written: a file
      that exists is left alone; otherwise the loop `for (i = 0; i <
      ID_REG_MAX_LEN; ++i)` writes the first ID_REG_MAX_LEN (16) sample lines. */
  function BootstrapAsWritten(file: Option<string>): (text: string)
    ensures file.Some? ==> text == file.value
  {
    match file
    case Some(t) => t
    case None => SaveText(Samples[..IdMaxLen])
  }

  /** The sixteen-sample file loads 16 records, not the twenty the samples and
      the comment above them promise. */
  lemma BootstrapAsWrittenLoses4()
    ensures |Samples| == 20
    ensures Load(BootstrapAsWritten(None), MaxRecords) == Samples[..16]
  {
    SamplesStorable();
    SaveLoad(Samples[..16], MaxRecords);
  }

  /** ensure_csv_has_sample writing all twenty sample lines. */
  function Bootstrap(file: Option<string>): (text: string)
    ensures file.Some? ==> text == file.value
  {
    match file
    case Some(t) => t
    case None => SaveText(Samples)
  }

  /** A new file loads back exactly the twenty samples, in order. */
  lemma BootstrapLoadsSamples()
    ensures Load(Bootstrap(None), MaxRecords) == Samples
  {
    SamplesStorable();
    SaveLoad(Samples, MaxRecords);
  }

  /** load_all as the record manager calls it: ensure_csv_has_sample as
      written, then read. A missing file therefore loads the first 16 samples
      only. */
  function LoadFile(file: Option<string>): (recs: seq<Record>)
    ensures |recs| <= MaxRecords
    ensures file.Some? ==> recs == Load(file.value, MaxRecords)
    ensures file.None? ==> recs == Samples[..16]
  {
    if file.None? then
      BootstrapAsWrittenLoses4();
      Load(BootstrapAsWritten(file), MaxRecords)
    else Load(BootstrapAsWritten(file), MaxRecords)
  }
}
