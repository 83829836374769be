/** The lenient record manager (Final.c): IDs and registrations of 1..20
    letters and digits in either case, dates checked over 1880..2100 and
    stored as typed, fields stored untrimmed, lookups on lower-cased keys cut
    to 20 characters, and a substring search. */
module Lenient {
  import opened Wrappers
  import opened CText
  import opened Records
  import opened Csv
  import opened Dates

  const MaxRecords: nat := 1000
  /** Characters each column keeps (its buffer size less the terminator). */
  const IdRegMaxLen: nat := 20
  const OwnerMaxLen: nat := 60
  const DateMaxLen: nat := 10
  const MinYear: int := 1880
  const MaxYear: int := 2100

  // ---------------------------------------------------------------- validators

  /** The character loop of is_valid_id_or_reg: every character is a letter
      or a digit. */
  function AlnumRun(s: string): (ok: bool)
    ensures ok <==> forall i :: 0 <= i < |s| ==> IsAlnum(s[i])
  {
    if s == [] then true
    else if !IsAlnum(s[0]) then false
    else
      var ok := AlnumRun(s[1..]);
      assert forall i :: 1 <= i < |s| ==> s[i] == s[1..][i - 1];
      ok
  }

  /** is_valid_id_or_reg: 1..20 characters, each an ASCII letter of either
      case or a digit. */
  predicate IsValidIdOrReg(s: string): (ok: bool)
    ensures ok <==> 1 <= |s| <= IdRegMaxLen && forall i :: 0 <= i < |s| ==> IsAlnum(s[i])
  {
    s != [] && |s| <= IdRegMaxLen && AlnumRun(s)
  }

  /** is_valid_owner_name, with this variant's limit of 60 characters. */
  predicate IsValidOwnerName(s: string) {
    IsOwnerName(s, OwnerMaxLen)
  }

  /** The longest name accepted has 60 letters; one more is refused. */
  lemma OwnerNameLongest()
    ensures IsValidOwnerName(seq(60, _ => 'A'))
    ensures !IsValidOwnerName(seq(61, _ => 'A'))
  {
    assert IsAlpha(seq(60, _ => 'A')[0]);
  }

  /** is_valid_date: sscanf reads three numbers, they form a calendar date of
      1880..2100, and every character is a digit, '/' or blank. Nothing is
      written back. */
  predicate IsValidDate(s: string) {
    match ScanDate(s)
    case None => false
    case Some(date) => InCalendar(date, MinYear, MaxYear) && DateChars(s)
  }

  /** Every string of blanks, digits, '/', blanks, digits, '/', blanks, digits
      and a tail of permitted characters that does not start with a digit is
      accepted exactly when the numbers form a calendar date of 1880..2100. */
  lemma DateAccepted(s: string, w1: string, a: string, r1: string, w2: string, b: string, r2: string,
                     w3: string, c: string, t: string)
    requires s == w1 + a + "/" + r1 && r1 == w2 + b + "/" + r2 && r2 == w3 + c + t
    requires Blank(w1) && Blank(w2) && Blank(w3)
    requires a != [] && AllDigits(a) && b != [] && AllDigits(b) && c != [] && AllDigits(c)
    requires (t == [] || !IsDigit(t[0])) && DateChars(t)
    ensures IsValidDate(s) <==> InCalendar(Dmy(Value(a), Value(b), Value(c)), MinYear, MaxYear)
  {
    ScanDateShape(s, w1, a, r1, w2, b, r2, w3, c, t);
    ShapeDateChars(s, w1, a, r1, w2, b, r2, w3, c, t);
  }

  /** Conversely, every accepted string has that shape. */
  lemma {:induction false} DateAcceptedShape(s: string) returns (w1: string, a: string, r1: string, w2: string, b: string, r2: string,
                                               w3: string, c: string, t: string)
    requires IsValidDate(s)
    ensures s == w1 + a + "/" + r1 && r1 == w2 + b + "/" + r2 && r2 == w3 + c + t
    ensures Blank(w1) && Blank(w2) && Blank(w3)
    ensures a != [] && AllDigits(a) && b != [] && AllDigits(b) && c != [] && AllDigits(c)
    ensures (t == [] || !IsDigit(t[0])) && DateChars(t)
    ensures InCalendar(Dmy(Value(a), Value(b), Value(c)), MinYear, MaxYear)
  {
    w1, a, r1, w2, b, r2, w3, c, t := ScanDateParts(s);
  }

  /** An accepted date holds no comma, so it never splits a saved line. */
  lemma DateHasNoComma(s: string)
    requires IsValidDate(s)
    ensures s != [] && ',' !in s
  {
    assert DateChars(s);
  }

  /** The 400-year rule: 29/02/2000 is accepted. */
  lemma LeapDay2000Accepted()
    ensures IsValidDate("29/02/2000")
  {
    var e: string := [];
    assert "29/02/2000" == e + "29" + "/" + "02/2000";
    assert "02/2000" == e + "02" + "/" + "2000";
    assert "2000" == e + "2000" + e;
    ScanLeapDay2000();
    LeapDay2000Digits();
    ShapeDateChars("29/02/2000", e, "29", "02/2000", e, "02", "2000", e, "2000", e);
    February2000();
  }

  lemma ScanLeapDay2000()
    ensures ScanDate("29/02/2000") == Some(Dmy(29, 2, 2000))
  {
    var e: string := [];
    assert "29/02/2000" == e + "29" + "/" + "02/2000";
    assert "02/2000" == e + "02" + "/" + "2000";
    assert "2000" == e + "2000" + e;
    assert Value("29") == 29 by { Value2("29"); }
    assert Value("02") == 2 by { Value2("02"); }
    assert Value("2000") == 2000 by { Value4("2000"); }
    ScanDateShape("29/02/2000", e, "29", "02/2000", e, "02", "2000", e, "2000", e);
  }

  lemma LeapDay2000Digits()
    ensures AllDigits("29") && AllDigits("02") && AllDigits("2000")
  {
  }

  lemma February2000()
    ensures DaysInMonth(2, 2000) == 29
  {
    assert IsLeapYear(2000);
  }

  /** The 100-year rule: 29/02/2100, inside the year range, is refused. */
  lemma LeapDay2100Refused()
    ensures !IsValidDate("29/02/2100")
  {
    var e: string := [];
    assert "29/02/2100" == e + "29" + "/" + "02/2100";
    assert "02/2100" == e + "02" + "/" + "2100";
    assert "2100" == e + "2100" + e;
    assert Value("29") == 29 by { Value2("29"); }
    assert Value("02") == 2 by { Value2("02"); }
    assert Value("2100") == 2100 by { Value4("2100"); }
    ScanDateShape("29/02/2100", e, "29", "02/2100", e, "02", "2100", e, "2100", e);
    February2100();
  }

  lemma February2100()
    ensures DaysInMonth(2, 2100) == 28
  {
    assert !IsLeapYear(2100);
  }

  /** The date column keeps the first ten characters of an accepted date, and
      those need not form an accepted date: "01/01/02000" reads the year 2000,
      its first ten characters the year 200. */
  lemma StoredDateMayBeRefused()
    ensures IsValidDate("01/01/02000")
    ensures Truncate("01/01/02000", DateMaxLen) == "01/01/0200"
    ensures !IsValidDate("01/01/0200")
  {
    var e: string := [];
    assert "01/01/02000" == e + "01" + "/" + "01/02000";
    assert "01/02000" == e + "01" + "/" + "02000";
    assert "02000" == e + "02000" + e;
    assert "01/01/0200" == e + "01" + "/" + "01/0200";
    assert "01/0200" == e + "01" + "/" + "0200";
    assert "0200" == e + "0200" + e;
    assert Value("01") == 1 by { Value2("01"); }
    assert Value("0200") == 200 by { Value4("0200"); }
    assert Value("02000") == 2000 by {
      assert "02000"[..4] == "0200";
    }
    DateAccepted("01/01/02000", e, "01", "01/02000", e, "01", "02000", e, "02000", e);
    DateAccepted("01/01/0200", e, "01", "01/0200", e, "01", "0200", e, "0200", e);
  }

  // ---------------------------------------------------------------- lookup

  /** The form in which the lookups compare a key or a field: strncpy of its
      first 20 characters into a 21-character buffer, then to_lower_str. */
  function Key(s: string): string {
    Lower(Truncate(s, IdRegMaxLen))
  }

  /** Lower-casing twice is lower-casing once. */
  lemma LowerIdempotent(s: string)
    ensures Lower(Lower(s)) == Lower(s)
  {
    assert forall i :: 0 <= i < |s| ==> ToLower(ToLower(s[i])) == ToLower(s[i]);
  }

  /** The compared form ignores case and everything after the twentieth
      character. */
  lemma KeyIgnoresCaseAndTail(s: string)
    ensures Key(Lower(s)) == Key(s)
    ensures Key(Truncate(s, IdRegMaxLen)) == Key(s)
    ensures |Key(s)| <= IdRegMaxLen
  {
    var t := Truncate(s, IdRegMaxLen);
    assert Truncate(Lower(s), IdRegMaxLen) == Lower(t);
    LowerIdempotent(t);
  }

  /** The key equals the record's ID or its registration in compared form. */
  predicate KeyMatches(r: Record, key: string) {
    Key(r.inspectionID) == Key(key) || Key(r.carReg) == Key(key)
  }

  /** The first index from `from` on whose record matches the key. */
  predicate FirstMatchFrom(recs: seq<Record>, key: string, from: nat, i: int) {
    if i == -1 then forall k :: from <= k < |recs| ==> !KeyMatches(recs[k], key)
    else from <= i < |recs| && KeyMatches(recs[i], key) && forall k :: from <= k < i ==> !KeyMatches(recs[k], key)
  }

  /** The loop of find_by_id_or_reg from index i on: the ID is compared first,
      then the registration. */
  function FindFrom(recs: seq<Record>, key: string, i: nat): (r: int)
    requires i <= |recs|
    ensures FirstMatchFrom(recs, key, i, r)
    decreases |recs| - i
  {
    if i == |recs| then -1
    else if Key(recs[i].inspectionID) == Key(key) then i
    else if Key(recs[i].carReg) == Key(key) then i
    else FindFrom(recs, key, i + 1)
  }

  /** find_by_id_or_reg(arr, n, key) on recs == arr[..n]: the first record
      whose ID or registration equals the key in compared form, or -1. */
  function FindByIdOrReg(recs: seq<Record>, key: string): (r: int)
    ensures -1 <= r < |recs|
    ensures FirstMatchFrom(recs, key, 0, r)
  {
    FindFrom(recs, key, 0)
  }

  /** Keys with the same compared form are found at the same index. */
  lemma FindSameKey(recs: seq<Record>, k1: string, k2: string)
    requires Key(k1) == Key(k2)
    ensures FindByIdOrReg(recs, k1) == FindByIdOrReg(recs, k2)
  {
    var i1, i2 := FindByIdOrReg(recs, k1), FindByIdOrReg(recs, k2);
    assert forall k :: 0 <= k < |recs| ==> (KeyMatches(recs[k], k1) <==> KeyMatches(recs[k], k2));
  }

  /** Lookup ignores case and all but the first 20 characters of the key:
      find(k) == find(k[..20]). */
  lemma FindIgnoresCaseAndTail(recs: seq<Record>, key: string)
    ensures FindByIdOrReg(recs, Truncate(key, IdRegMaxLen)) == FindByIdOrReg(recs, key)
    ensures FindByIdOrReg(recs, Lower(key)) == FindByIdOrReg(recs, key)
  {
    KeyIgnoresCaseAndTail(key);
    FindSameKey(recs, Truncate(key, IdRegMaxLen), key);
    FindSameKey(recs, Lower(key), key);
  }

  /** to_lower_str on a NUL-terminated buffer holding a string of length len:
      every character before the terminator is lower-cased in place. */
  method ToLowerStr(buf: array<char>, len: nat)
    requires len < buf.Length && buf[len] == '\0' && CString(buf[..len])
    modifies buf
    ensures buf[..] == Lower(old(buf[..len])) + old(buf[len..])
  {
    ghost var b := buf[..];
    var p := 0;
    while buf[p] != '\0'
      invariant 0 <= p <= len
      invariant forall k :: 0 <= k < p ==> buf[k] == ToLower(b[k])
      invariant forall k :: p <= k < buf.Length ==> buf[k] == b[k]
      decreases len - p
    {
      buf[p] := ToLower(buf[p]);
      p := p + 1;
    }
    assert p == len;
    LoweredFront(buf[..], b, len);
  }

  lemma LoweredFront(fin: seq<char>, b: seq<char>, len: nat)
    requires len <= |b| == |fin|
    requires forall k :: 0 <= k < len ==> fin[k] == ToLower(b[k])
    requires forall k :: len <= k < |b| ==> fin[k] == b[k]
    ensures fin == Lower(b[..len]) + b[len..]
  {
    var x := Lower(b[..len]) + b[len..];
    forall k | 0 <= k < |fin| ensures fin[k] == x[k] {
      if k < len {
        assert x[k] == Lower(b[..len])[k];
      } else {
        assert x[k] == b[len..][k - len];
      }
    }
  }

  /** The copy-and-lower idiom of find_by_id_or_reg, search_record and
      delete_record: strncpy(dst, s, 20), dst[20] = '\0', to_lower_str(dst). */
  method LowerCopy(s: string) returns (k: string)
    requires CString(s)
    ensures k == Key(s)
  {
    var t := Truncate(s, IdRegMaxLen);
    var buf := new char[IdRegMaxLen + 1](i requires 0 <= i < IdRegMaxLen + 1 => if i < |t| then t[i] else '\0');
    assert buf[..|t|] == t;
    assert CString(t);
    ToLowerStr(buf, |t|);
    k := buf[..|t|];
  }

  // ---------------------------------------------------------------- search

  /** The test of search_record's loop: the ID or the registration, in
      compared form, contains the key in compared form (strstr). */
  predicate Hit(r: Record, key: string) {
    Occurs(Key(key), Key(r.inspectionID)) || Occurs(Key(key), Key(r.carReg))
  }

  /** The records search_record shows, in order. */
  function Matches(recs: seq<Record>, key: string): (ms: seq<Record>)
    ensures |ms| <= |recs|
  {
    if recs == [] then []
    else Matches(recs[..|recs| - 1], key) + (if Hit(recs[|recs| - 1], key) then [recs[|recs| - 1]] else [])
  }

  /** The matching loop of search_record on arr[..n]: each record whose
      compared ID or registration contains the compared key is shown, and
      `found` counts them. */
  method SearchRecord(arr: array<Record>, n: nat, key: string) returns (shown: seq<Record>, found: nat)
    requires n <= arr.Length && CString(key)
    requires forall k :: 0 <= k < n ==> CString(arr[k].inspectionID) && CString(arr[k].carReg)
    ensures shown == Matches(arr[..n], key)
    ensures found == |shown|
  {
    var lowerKey := LowerCopy(key);
    shown, found := [], 0;
    var i := 0;
    while i < n
      invariant 0 <= i <= n
      invariant shown == Matches(arr[..i], key) && found == |shown|
    {
      var lowerId := LowerCopy(arr[i].inspectionID);
      var lowerReg := LowerCopy(arr[i].carReg);
      assert arr[..i + 1][..i] == arr[..i];
      if Occurs(lowerKey, lowerId) || Occurs(lowerKey, lowerReg) {
        shown, found := shown + [arr[i]], found + 1;
      }
      i := i + 1;
    }
    assert arr[..n] == arr[..i];
  }

  /** Searching the records of a + b shows those of a, then those of b. */
  lemma {:induction false} MatchesAppend(a: seq<Record>, b: seq<Record>, key: string)
    ensures Matches(a + b, key) == Matches(a, key) + Matches(b, key)
    decreases |b|
  {
    if b == [] {
      assert a + b == a;
    } else {
      assert (a + b)[..|a + b| - 1] == a + b[..|b| - 1];
      MatchesAppend(a, b[..|b| - 1], key);
    }
  }

  /** A record is shown exactly when it is one of the records and it hits. */
  lemma {:induction false} MatchesMembers(recs: seq<Record>, key: string, r: Record)
    ensures r in Matches(recs, key) <==> r in recs && Hit(r, key)
  {
    if recs != [] {
      var front := recs[..|recs| - 1];
      MatchesMembers(front, key, r);
      assert recs == front + [recs[|recs| - 1]];
    }
  }

  /** Nothing is shown exactly when no record hits. */
  lemma {:induction false} MatchesNone(recs: seq<Record>, key: string)
    ensures Matches(recs, key) == [] <==> forall i :: 0 <= i < |recs| ==> !Hit(recs[i], key)
  {
    if recs != [] {
      var front := recs[..|recs| - 1];
      MatchesNone(front, key);
      assert forall i :: 0 <= i < |front| ==> front[i] == recs[i];
    }
  }

  /** An empty key is a substring of everything: every record is shown. */
  lemma {:induction false} EmptyKeyShowsAll(recs: seq<Record>)
    ensures Matches(recs, []) == recs
  {
    if recs != [] {
      var front := recs[..|recs| - 1];
      EmptyKeyShowsAll(front);
      assert Hit(recs[|recs| - 1], []);
    }
  }

  /** A record the exact lookup finds is also shown by the search. */
  lemma FoundIsShown(recs: seq<Record>, key: string)
    requires FindByIdOrReg(recs, key) != -1
    ensures recs[FindByIdOrReg(recs, key)] in Matches(recs, key)
  {
    var r := recs[FindByIdOrReg(recs, key)];
    assert Key(key) <= Key(r.inspectionID) || Key(key) <= Key(r.carReg);
    MatchesMembers(recs, key, r);
  }

  // ---------------------------------------------------------------- load and save

  /** A field load_all stores and save_all writes back unchanged: it fits its
      column, is not empty and holds no separator. */
  predicate SavableField(f: string, limit: nat) {
    0 < |f| <= limit && NoSeparator(f)
  }

  predicate Savable(r: Record) {
    && SavableField(r.inspectionID, IdRegMaxLen)
    && SavableField(r.carReg, IdRegMaxLen)
    && SavableField(r.owner, OwnerMaxLen)
    && SavableField(r.date, DateMaxLen)
  }

  /** One line of load_all, already without its '\n': cut at the first '\r'
      and split by strtok on ','. A line with fewer than four tokens adds no
      record; tokens after the fourth are ignored; each column keeps the
      first 20/20/60/10 characters of its token, untrimmed. */
  function ParseLine(line: string): (r: Option<Record>)
    ensures r.Some? <==> |Tokens(CutAt(line, '\r'))| >= 4
  {
    var toks := Tokens(CutAt(line, '\r'));
    if |toks| < 4 then None
    else
      Some(Record(Truncate(toks[0], IdRegMaxLen), Truncate(toks[1], IdRegMaxLen),
                  Truncate(toks[2], OwnerMaxLen), Truncate(toks[3], DateMaxLen)))
  }

  /** A token of a line, cut to a positive limit, is a savable field. */
  lemma TokenSavable(line: string, tok: string, limit: nat)
    requires '\n' !in line && limit > 0
    requires tok in Tokens(CutAt(line, '\r'))
    ensures SavableField(Truncate(tok, limit), limit)
  {
    var cut := CutAt(line, '\r');
    var toks := Tokens(cut);
    var k :| 0 <= k < |toks| && toks[k] == tok;
    assert CharsWithin(tok, cut) && ',' !in tok;
    var f := Truncate(tok, limit);
    forall i | 0 <= i < |f| ensures !IsSeparator(f[i]) {
      assert f[i] in tok;
    }
  }

  /** Every record parsed from a line is savable. */
  lemma ParseLineSavable(line: string)
    requires '\n' !in line
    ensures ParseLine(line).Some? ==> Savable(ParseLine(line).value)
  {
    var toks := Tokens(CutAt(line, '\r'));
    if |toks| >= 4 {
      TokenSavable(line, toks[0], IdRegMaxLen);
      TokenSavable(line, toks[1], IdRegMaxLen);
      TokenSavable(line, toks[2], OwnerMaxLen);
      TokenSavable(line, toks[3], DateMaxLen);
    }
  }

  lemma LinesSavable(lines: seq<string>)
    requires forall j :: 0 <= j < |lines| ==> '\n' !in lines[j]
    ensures forall j :: 0 <= j < |lines| && ParseLine(lines[j]).Some? ==> Savable(ParseLine(lines[j]).value)
  {
    forall j | 0 <= j < |lines| && ParseLine(lines[j]).Some? ensures Savable(ParseLine(lines[j]).value) {
      ParseLineSavable(lines[j]);
    }
  }

  /** load_all(recs, max) on a file holding `text`: the records of its lines,
      in file order, stopping once max records are stored. Every record it
      stores is savable. */
  function Load(text: string, max: nat): (recs: seq<Record>)
    ensures |recs| <= max
    ensures forall i :: 0 <= i < |recs| ==> Savable(recs[i])
  {
    var lines := Lines(text);
    LinesSavable(lines);
    CollectAll(lines, ParseLine, Savable);
    Truncate(Collect(lines, ParseLine), max)
  }

  /** The body of load_all's loop for line i into arr[count]: a line whose
      tokens run out part way still overwrites the leading fields of
      arr[count] before it is skipped. */
  method ReadLine(arr: array<Record>, count: nat, lines: seq<string>, i: nat, ghost opts: seq<Option<Record>>)
    returns (added: bool)
    requires count < arr.Length && i < |lines| && opts == ParseAll(lines, ParseLine)
    modifies arr
    ensures added <==> opts[i].Some?
    ensures added ==> arr[count] == opts[i].value
    ensures forall k :: 0 <= k < arr.Length && k != count ==> arr[k] == old(arr[k])
  {
    ParseAllAt(lines, ParseLine, i);
    var line := CutAt(lines[i], '\r');
    added := false;
    if line == [] {
      return;
    }
    var toks := Tokens(line);
    if |toks| < 1 {
      return;
    }
    arr[count] := arr[count].(inspectionID := Truncate(toks[0], IdRegMaxLen));
    if |toks| < 2 {
      return;
    }
    arr[count] := arr[count].(carReg := Truncate(toks[1], IdRegMaxLen));
    if |toks| < 3 {
      return;
    }
    arr[count] := arr[count].(owner := Truncate(toks[2], OwnerMaxLen));
    if |toks| < 4 {
      return;
    }
    arr[count] := arr[count].(date := Truncate(toks[3], DateMaxLen));
    added := true;
  }

  /** load_all over a file holding `text`, filling arr. */
  method LoadAll(text: string, arr: array<Record>, max: nat) returns (count: nat)
    requires max <= arr.Length
    modifies arr
    ensures count <= max
    ensures arr[..count] == Load(text, max)
    ensures forall k :: count < k < arr.Length ==> arr[k] == old(arr[k])
  {
    var lines := Lines(text);
    ghost var opts := ParseAll(lines, ParseLine);
    count := 0;
    var i := 0;
    while i < |lines| && count < max
      invariant 0 <= i <= |lines| && count <= max
      invariant arr[..count] == Somes(opts[..i])
      invariant forall k :: count < k < arr.Length ==> arr[k] == old(arr[k])
    {
      ghost var before := arr[..count];
      var added := ReadLine(arr, count, lines, i, opts);
      assert arr[..count] == before;
      SomesSnoc(opts, i);
      if added {
        assert arr[..count + 1] == before + [arr[count]];
        count := count + 1;
      }
      i := i + 1;
    }
    LoadStops(lines, ParseLine, opts, i, arr[..count], max);
  }

  lemma SavableIsPlain(f: string, limit: nat)
    requires SavableField(f, limit)
    ensures PlainField(f) && '\n' !in f && Truncate(f, limit) == f
  {
    SeparatorFree(f);
  }

  /** A saved line of a savable record parses back to the record. */
  lemma ParseSaved(r: Record)
    requires Savable(r)
    ensures NoLineBreak(r) && ParseLine(FormatLine(r)) == Some(r)
  {
    SavableIsPlain(r.inspectionID, IdRegMaxLen);
    SavableIsPlain(r.carReg, IdRegMaxLen);
    SavableIsPlain(r.owner, OwnerMaxLen);
    SavableIsPlain(r.date, DateMaxLen);
    SavedTokens(r);
  }

  /** save_all then load_all gives back the records when there are at most max
      of them and each is savable. */
  lemma SaveLoad(recs: seq<Record>, max: nat)
    requires |recs| <= max
    requires forall i :: 0 <= i < |recs| ==> Savable(recs[i])
    ensures Load(SaveText(recs), max) == recs
  {
    forall i | 0 <= i < |recs|
      ensures NoLineBreak(recs[i]) && ParseLine(FormatLine(recs[i])) == Some(recs[i])
    {
      ParseSaved(recs[i]);
    }
    CollectOfSave(recs, ParseLine, recs);
  }

  /** Saving what was loaded and loading it again gives the same records:
      unlike the trimming loader, nothing a load stores is lost by a save. */
  lemma LoadSaveLoad(text: string, max: nat)
    ensures Load(SaveText(Load(text, max)), max) == Load(text, max)
  {
    SaveLoad(Load(text, max), max);
  }

  // ---------------------------------------------------------------- bootstrap

  /** The sample records one at a time: each field is short, not empty and
      free of separators. One lemma per record keeps each proof about the
      literal strings small enough for the solver. */
  lemma SampleSavable0()
    ensures Savable(Samples[0])
  {
  }

  lemma SampleSavable1()
    ensures Savable(Samples[1])
  {
  }

  lemma SampleSavable2()
    ensures Savable(Samples[2])
  {
  }

  lemma SampleSavable3()
    ensures Savable(Samples[3])
  {
  }

  lemma SampleSavable4()
    ensures Savable(Samples[4])
  {
  }

  lemma SampleSavable5()
    ensures Savable(Samples[5])
  {
  }

  lemma SampleSavable6()
    ensures Savable(Samples[6])
  {
  }

  lemma SampleSavable7()
    ensures Savable(Samples[7])
  {
  }

  lemma SampleSavable8()
    ensures Savable(Samples[8])
  {
  }

  lemma SampleSavable9()
    ensures Savable(Samples[9])
  {
  }

  lemma SampleSavable10()
    ensures Savable(Samples[10])
  {
  }

  lemma SampleSavable11()
    ensures Savable(Samples[11])
  {
  }

  lemma SampleSavable12()
    ensures Savable(Samples[12])
  {
  }

  lemma SampleSavable13()
    ensures Savable(Samples[13])
  {
  }

  lemma SampleSavable14()
    ensures Savable(Samples[14])
  {
  }

  lemma SampleSavable15()
    ensures Savable(Samples[15])
  {
  }

  lemma SampleSavable16()
    ensures Savable(Samples[16])
  {
  }

  lemma SampleSavable17()
    ensures Savable(Samples[17])
  {
  }

  lemma SampleSavable18()
    ensures Savable(Samples[18])
  {
  }

  lemma SampleSavable19()
    ensures Savable(Samples[19])
  {
  }

  /** Every sample record is savable. */
  lemma SamplesSavable()
    ensures forall i :: 0 <= i < |Samples| ==> Savable(Samples[i])
  {
    SampleSavable0();
    SampleSavable1();
    SampleSavable2();
    SampleSavable3();
    SampleSavable4();
    SampleSavable5();
    SampleSavable6();
    SampleSavable7();
    SampleSavable8();
    SampleSavable9();
    SampleSavable10();
    SampleSavable11();
    SampleSavable12();
    SampleSavable13();
    SampleSavable14();
    SampleSavable15();
    SampleSavable16();
    SampleSavable17();
    SampleSavable18();
    SampleSavable19();
  }

  /** The text load_all reads after ensure_csv_has_sample: a file that exists
      is left alone; otherwise the loop `for (i = 0; i < ID_REG_MAX_LEN; ++i)`
      writes the first ID_REG_MAX_LEN (20) sample lines, which here are all of
      them. */
  function Bootstrap(file: Option<string>): (text: string)
    ensures file.Some? ==> text == file.value
  {
    match file
    case Some(t) => t
    case None => SaveText(Samples[..IdRegMaxLen])
  }

  /** A new file loads back exactly the twenty samples, in order. */
  lemma BootstrapLoadsSamples()
    ensures Load(Bootstrap(None), MaxRecords) == Samples
  {
    assert Samples[..IdRegMaxLen] == Samples;
    SamplesSavable();
    SaveLoad(Samples, MaxRecords);
  }

  /** load_all as the record manager calls it: bootstrap, then read. */
  function LoadFile(file: Option<string>): (recs: seq<Record>)
    ensures |recs| <= MaxRecords
    ensures forall i :: 0 <= i < |recs| ==> Savable(recs[i])
  {
    Load(Bootstrap(file), MaxRecords)
  }
}
