/** The persisted file format shared by both record managers: the file is read
    line by line with fgets, each line is cut at its first '\r' and split with
    strtok(line, ","); save_all writes "%s,%s,%s,%s\n" per record. The file is
    modelled as its text. */
module Csv {
  import opened Wrappers
  import opened Records
  import opened CText

  /** strchr(s, c) on a string that contains c: the index of its first c. */
  function IndexOf(s: string, c: char): (k: nat)
    requires c in s
    ensures k < |s| && s[k] == c && c !in s[..k]
  {
    if s[0] == c then 0 else 1 + IndexOf(s[1..], c)
  }

  /** `p = strchr(line, c); if (p) *p = '\0';`: the line up to its first c. */
  function CutAt(s: string, c: char): (r: string)
    ensures r <= s && c !in r
    ensures c !in s ==> r == s
    ensures c in s ==> |r| < |s| && s[|r|] == c
  {
    if c in s then s[..IndexOf(s, c)] else s
  }

  /** The lines that successive fgets calls return, each without its '\n'; a
      last line that has no '\n' is still returned. */
  function Lines(text: string): (ls: seq<string>)
    ensures forall i :: 0 <= i < |ls| ==> '\n' !in ls[i]
    decreases |text|
  {
    if text == [] then []
    else if '\n' !in text then [text]
    else
      var k := IndexOf(text, '\n');
      [text[..k]] + Lines(text[k + 1..])
  }

  /** The tokens that strtok(line, ",") and then strtok(NULL, ",") return. */
  function Tokens(s: string): (ts: seq<string>)
    ensures forall i :: 0 <= i < |ts| ==> ts[i] != [] && ',' !in ts[i]
    ensures forall i :: 0 <= i < |ts| ==> CharsWithin(ts[i], s)
    decreases |s|
  {
    if s == [] then []
    else if s[0] == ',' then Tokens(s[1..])
    else if ',' !in s then [s]
    else
      var k := IndexOf(s, ',');
      [s[..k]] + Tokens(s[k + 1..])
  }

  /** Reference definition: the pieces between commas, empty ones included. */
  function Split(s: string): (ps: seq<string>)
    ensures |ps| >= 1
    decreases |s|
  {
    if ',' !in s then [s]
    else
      var k := IndexOf(s, ',');
      [s[..k]] + Split(s[k + 1..])
  }

  /** The pieces joined with commas between them. */
  function Join(fields: seq<string>): string
  {
    if |fields| == 0 then []
    else if |fields| == 1 then fields[0]
    else fields[0] + "," + Join(fields[1..])
  }

  /** The non-empty strings of fs, in order. */
  function NonEmpty(fs: seq<string>): (r: seq<string>)
    ensures |r| <= |fs|
  {
    if fs == [] then []
    else (if fs[0] == [] then [] else [fs[0]]) + NonEmpty(fs[1..])
  }

  /** Strings that are all non-empty are kept as they are. */
  lemma {:induction false} NonEmptyKeeps(fs: seq<string>)
    requires forall i :: 0 <= i < |fs| ==> fs[i] != []
    ensures NonEmpty(fs) == fs
  {
    if fs != [] {
      NonEmptyKeeps(fs[1..]);
    }
  }

  /** Dropping an empty string shortens the list. */
  lemma {:induction false} NonEmptyDrops(fs: seq<string>, k: nat)
    requires k < |fs| && fs[k] == []
    ensures |NonEmpty(fs)| < |fs|
  {
    if k > 0 {
      NonEmptyDrops(fs[1..], k - 1);
    }
  }

  /** strtok drops the empty pieces: runs of commas separate like one comma, and
      leading or trailing commas are ignored. */
  lemma {:induction false} TokensAreNonEmptyPieces(s: string)
    ensures Tokens(s) == NonEmpty(Split(s))
    decreases |s|
  {
    if ',' !in s {
    } else {
      var k := IndexOf(s, ',');
      TokensAreNonEmptyPieces(s[k + 1..]);
      if s[0] == ',' {
        assert k == 0;
        assert s[1..] == s[k + 1..];
      }
    }
  }

  /** Splitting a comma-free prefix off at the comma that follows it. */
  lemma SplitCons(a: string, b: string)
    requires ',' !in a
    ensures Split(a + "," + b) == [a] + Split(b)
  {
    var s := a + "," + b;
    var k := IndexOf(s, ',');
    assert s[|a|] == ',';
    assert k == |a|;
    assert s[..k] == a;
    assert s[k + 1..] == b;
  }

  /** Split undoes Join for comma-free fields. */
  lemma {:induction false} SplitJoin(fields: seq<string>)
    requires |fields| >= 1
    requires forall i :: 0 <= i < |fields| ==> ',' !in fields[i]
    ensures Split(Join(fields)) == fields
  {
    if |fields| > 1 {
      SplitCons(fields[0], Join(fields[1..]));
      SplitJoin(fields[1..]);
    }
  }

  /** strtok on comma-joined, comma-free fields yields the non-empty ones. */
  lemma TokensOfJoin(fields: seq<string>)
    requires |fields| >= 1
    requires forall i :: 0 <= i < |fields| ==> ',' !in fields[i]
    ensures Tokens(Join(fields)) == NonEmpty(fields)
  {
    TokensAreNonEmptyPieces(Join(fields));
    SplitJoin(fields);
  }

  /** The text of one line that save_all writes, without its '\n'. */
  function FormatLine(r: Record): string {
    r.inspectionID + "," + r.carReg + "," + r.owner + "," + r.date
  }

  /** The four columns of a record, in file order. */
  function Fields(r: Record): seq<string> {
    [r.inspectionID, r.carReg, r.owner, r.date]
  }

  lemma FormatLineIsJoin(r: Record)
    ensures FormatLine(r) == Join(Fields(r))
  {
    var f := Fields(r);
    assert f[1..][1..][1..] == [r.date];
    assert Join(f[1..][1..]) == r.owner + "," + r.date;
    assert Join(f[1..]) == r.carReg + "," + (r.owner + "," + r.date);
  }

  /** The whole file save_all writes: one line per record, in order. */
  function SaveText(recs: seq<Record>): string
  {
    if recs == [] then [] else FormatLine(recs[0]) + "\n" + SaveText(recs[1..])
  }

  /** The characters that end a column or a line in the file. */
  predicate IsSeparator(c: char) {
    c == ',' || c == '\r' || c == '\n'
  }

  predicate NoSeparator(f: string) {
    forall i :: 0 <= i < |f| ==> !IsSeparator(f[i])
  }

  lemma SeparatorFree(f: string)
    requires NoSeparator(f)
    ensures ',' !in f && '\r' !in f && '\n' !in f
  {
    forall c | c in f ensures !IsSeparator(c) {
      var i :| 0 <= i < |f| && f[i] == c;
    }
  }

  /** No column of r holds a line break. */
  predicate NoLineBreak(r: Record) {
    '\n' !in r.inspectionID && '\n' !in r.carReg && '\n' !in r.owner && '\n' !in r.date
  }

  lemma LinesCons(l: string, rest: string)
    requires '\n' !in l
    ensures Lines(l + "\n" + rest) == [l] + Lines(rest)
  {
    var t := l + "\n" + rest;
    var k := IndexOf(t, '\n');
    assert t[|l|] == '\n';
    assert k == |l|;
    assert t[..k] == l;
    assert t[k + 1..] == rest;
  }

  /** A saved line holds a line break only where one of its columns does. */
  lemma NoBreakInLine(r: Record)
    requires NoLineBreak(r)
    ensures '\n' !in FormatLine(r)
  {
  }

  /** Reading back what save_all wrote gives one line per record, in order. */
  lemma LinesOfSave(recs: seq<Record>)
    requires forall i :: 0 <= i < |recs| ==> NoLineBreak(recs[i])
    ensures |Lines(SaveText(recs))| == |recs|
    ensures forall i :: 0 <= i < |recs| ==> Lines(SaveText(recs))[i] == FormatLine(recs[i])
  {
    SavedLines(recs);
    FormatLinesAt(recs);
  }

  /** The saved line of each record, in order. */
  function FormatLines(recs: seq<Record>): seq<string>
  {
    if recs == [] then [] else [FormatLine(recs[0])] + FormatLines(recs[1..])
  }

  lemma {:induction false} FormatLinesAt(recs: seq<Record>)
    ensures |FormatLines(recs)| == |recs|
    ensures forall i :: 0 <= i < |recs| ==> FormatLines(recs)[i] == FormatLine(recs[i])
  {
    if recs != [] {
      FormatLinesAt(recs[1..]);
      forall i | 1 <= i < |recs| ensures FormatLines(recs)[i] == FormatLine(recs[i]) {
        assert recs[1..][i - 1] == recs[i];
      }
    }
  }

  lemma {:induction false} SavedLines(recs: seq<Record>)
    requires forall i :: 0 <= i < |recs| ==> NoLineBreak(recs[i])
    ensures Lines(SaveText(recs)) == FormatLines(recs)
  {
    if recs != [] {
      var l := FormatLine(recs[0]);
      var rest := SaveText(recs[1..]);
      assert SaveText(recs) == l + "\n" + rest;
      NoBreakInLine(recs[0]);
      LinesCons(l, rest);
      TailNoBreak(recs);
      SavedLines(recs[1..]);
    }
  }

  lemma TailNoBreak(recs: seq<Record>)
    requires recs != [] && forall i :: 0 <= i < |recs| ==> NoLineBreak(recs[i])
    ensures forall i :: 0 <= i < |recs[1..]| ==> NoLineBreak(recs[1..][i])
  {
    forall i | 0 <= i < |recs[1..]| ensures NoLineBreak(recs[1..][i]) {
      assert recs[1..][i] == recs[i + 1];
    }
  }

  /** The load_all loop over lines: every line the parser accepts adds one
      record, in file order. */
  function Collect(lines: seq<string>, parse: string -> Option<Record>): (recs: seq<Record>)
    ensures |recs| <= |lines|
  {
    if lines == [] then []
    else
      Collect(lines[..|lines| - 1], parse) +
      (match parse(lines[|lines| - 1]) case Some(r) => [r] case None => [])
  }

  /** The records of the Some entries, in order. */
  function Somes(opts: seq<Option<Record>>): seq<Record>
  {
    if opts == [] then []
    else Somes(opts[..|opts| - 1]) + (match opts[|opts| - 1] case Some(r) => [r] case None => [])
  }

  /** Collecting depends only on what the parser makes of each line. */
  lemma {:induction false} CollectMatches(lines: seq<string>, parse: string -> Option<Record>, opts: seq<Option<Record>>)
    requires |lines| == |opts|
    requires forall i :: 0 <= i < |lines| ==> parse(lines[i]) == opts[i]
    ensures Collect(lines, parse) == Somes(opts)
  {
    if lines != [] {
      CollectMatches(lines[..|lines| - 1], parse, opts[..|opts| - 1]);
    }
  }

  /** Lines are parsed independently of one another. */
  lemma {:induction false} CollectAppend(a: seq<string>, b: seq<string>, parse: string -> Option<Record>)
    ensures Collect(a + b, parse) == Collect(a, parse) + Collect(b, parse)
    decreases |b|
  {
    if b != [] {
      assert (a + b)[..|a + b| - 1] == a + b[..|b| - 1];
      CollectAppend(a, b[..|b| - 1], parse);
    } else {
      assert a + b == a;
    }
  }

  /** Collecting the lines save_all wrote gives what the parser makes of each
      saved record, in order. */
  lemma CollectOfSave(recs: seq<Record>, parse: string -> Option<Record>, back: seq<Record>)
    requires |back| == |recs|
    requires forall i :: 0 <= i < |recs| ==> NoLineBreak(recs[i])
    requires forall i :: 0 <= i < |recs| ==> parse(FormatLine(recs[i])) == Some(back[i])
    ensures Collect(Lines(SaveText(recs)), parse) == back
  {
    LinesOfSave(recs);
    var lines := Lines(SaveText(recs));
    var opts := seq(|recs|, i requires 0 <= i < |recs| => Some(back[i]));
    forall i | 0 <= i < |lines| ensures parse(lines[i]) == opts[i] {
      assert lines[i] == FormatLine(recs[i]);
    }
    CollectMatches(lines, parse, opts);
    SomesOfAll(back);
  }

  /** A property every parsed line's record has holds for every collected
      record. */
  lemma {:induction false} CollectAll(lines: seq<string>, parse: string -> Option<Record>, P: Record -> bool)
    requires forall j :: 0 <= j < |lines| && parse(lines[j]).Some? ==> P(parse(lines[j]).value)
    ensures forall i :: 0 <= i < |Collect(lines, parse)| ==> P(Collect(lines, parse)[i])
  {
    if lines != [] {
      var front := lines[..|lines| - 1];
      assert forall j :: 0 <= j < |front| ==> front[j] == lines[j];
      CollectAll(front, parse, P);
    }
  }

  /** Keeping the records of one more entry. */
  lemma SomesSnoc(opts: seq<Option<Record>>, i: nat)
    requires i < |opts|
    ensures opts[i].None? ==> Somes(opts[..i + 1]) == Somes(opts[..i])
    ensures opts[i].Some? ==> Somes(opts[..i + 1]) == Somes(opts[..i]) + [opts[i].value]
  {
    assert opts[..i + 1][..i] == opts[..i];
  }

  lemma {:induction false} SomesAppend(a: seq<Option<Record>>, b: seq<Option<Record>>)
    ensures Somes(a + b) == Somes(a) + Somes(b)
    decreases |b|
  {
    if b != [] {
      assert (a + b)[..|a + b| - 1] == a + b[..|b| - 1];
      SomesAppend(a, b[..|b| - 1]);
    } else {
      assert a + b == a;
    }
  }

  /** When every entry is present, Somes gives back the records. */
  lemma {:induction false} SomesOfAll(recs: seq<Record>)
    ensures Somes(seq(|recs|, i requires 0 <= i < |recs| => Some(recs[i]))) == recs
  {
    if recs != [] {
      var opts := seq(|recs|, i requires 0 <= i < |recs| => Some(recs[i]));
      var front := recs[..|recs| - 1];
      assert opts[..|opts| - 1] == seq(|front|, i requires 0 <= i < |front| => Some(front[i]));
      SomesOfAll(front);
    }
  }

  /** A column the tokeniser keeps whole: not empty, no ',' and no '\r'. */
  predicate PlainField(f: string) {
    f != [] && ',' !in f && '\r' !in f
  }

  /** The tokens of a saved record's line are its four fields when each of
      them is plain. */
  lemma SavedTokens(r: Record)
    requires PlainField(r.inspectionID) && PlainField(r.carReg) && PlainField(r.owner) && PlainField(r.date)
    ensures Tokens(CutAt(FormatLine(r), '\r')) == Fields(r)
  {
    var line := FormatLine(r);
    assert '\r' !in line;
    FormatLineIsJoin(r);
    TokensOfJoin(Fields(r));
    NonEmptyKeeps(Fields(r));
  }

  /** What the load loop makes of each line, in file order. */
  function ParseAll(lines: seq<string>, parse: string -> Option<Record>): (opts: seq<Option<Record>>)
    ensures |opts| == |lines|
  {
    if lines == [] then [] else ParseAll(lines[..|lines| - 1], parse) + [parse(lines[|lines| - 1])]
  }

  lemma {:induction false} ParseAllAt(lines: seq<string>, parse: string -> Option<Record>, j: nat)
    requires j < |lines|
    ensures ParseAll(lines, parse)[j] == parse(lines[j])
  {
    if j < |lines| - 1 {
      var front := lines[..|lines| - 1];
      ParseAllAt(front, parse, j);
    }
  }

  lemma {:induction false} CollectIsParseAll(lines: seq<string>, parse: string -> Option<Record>)
    ensures Collect(lines, parse) == Somes(ParseAll(lines, parse))
  {
    if lines != [] {
      var front := lines[..|lines| - 1];
      CollectIsParseAll(front, parse);
      assert ParseAll(lines, parse)[..|lines| - 1] == ParseAll(front, parse);
    }
  }

  /** Where the loop `while (fgets(...) && count < max)` stops: at the end
      of the file, or with max records stored. */
  lemma LoadStops(lines: seq<string>, parse: string -> Option<Record>, opts: seq<Option<Record>>, i: nat,
                  acc: seq<Record>, max: nat)
    requires opts == ParseAll(lines, parse)
    requires i <= |opts| && |acc| <= max
    requires acc == Somes(opts[..i])
    requires i == |opts| || |acc| == max
    ensures acc == Truncate(Collect(lines, parse), max)
  {
    CollectIsParseAll(lines, parse);
    if i < |opts| {
      assert opts == opts[..i] + opts[i..];
      SomesAppend(opts[..i], opts[i..]);
    } else {
      assert opts[..i] == opts;
    }
  }
}
