/** The parts of the C library that both record managers rely on, for the
    "C" locale: the <ctype.h> classes, tolower, strcasecmp, the strncpy
    truncation idiom, strstr, and the isspace-skipping loop. */
module CText {

  /** isspace: space, \t, \n, \v, \f, \r. */
  predicate IsSpace(c: char) {
    c == ' ' || c == '\t' || c == '\n' || c == '\U{B}' || c == '\U{C}' || c == '\r'
  }

  predicate IsUpper(c: char) { 'A' <= c <= 'Z' }

  predicate IsLower(c: char) { 'a' <= c <= 'z' }

  predicate IsAlpha(c: char) { IsUpper(c) || IsLower(c) }

  predicate IsDigit(c: char) { '0' <= c <= '9' }

  predicate IsAlnum(c: char) { IsAlpha(c) || IsDigit(c) }

  /** A C string: no NUL inside it, so strlen is its length. */
  predicate CString(s: string) {
    '\0' !in s
  }

  predicate AllSpace(s: string) {
    forall i :: 0 <= i < |s| ==> IsSpace(s[i])
  }

  predicate AllDigits(s: string) {
    forall i :: 0 <= i < |s| ==> IsDigit(s[i])
  }

  /** Every character of t occurs in s. */
  predicate CharsWithin(t: string, s: string) {
    forall c :: c in t ==> c in s
  }

  /** tolower: a capital letter becomes its own small letter, 32 code
      points further on; every other character is left alone. */
  function ToLower(c: char): (r: char)
    ensures IsUpper(c) ==> IsLower(r)
    ensures !IsUpper(c) ==> r == c
  {
    if IsUpper(c) then (c as int + 32) as char else c
  }

  const Capitals := "ABCDEFGHIJKLMNOPQRSTUVWXYZ"
  const Smalls := "abcdefghijklmnopqrstuvwxyz"

  /** tolower agrees with the alphabet table: the k-th capital letter goes to
      the k-th small letter, and a small letter stays as it is. */
  lemma ToLowerTable(k: int)
    requires 0 <= k < 26
    ensures ToLower(Capitals[k]) == Smalls[k]
    ensures ToLower(Smalls[k]) == Smalls[k]
  {
  }

  /** Every capital letter is in the table. */
  lemma CapitalsComplete(c: char)
    requires IsUpper(c)
    ensures exists k :: 0 <= k < 26 && Capitals[k] == c
  {
    var k := c as int - 'A' as int;
    assert Capitals[k] == c;
  }

  /** The string with tolower applied to every character (to_lower_str). */
  function Lower(s: string): (r: string)
    ensures |r| == |s|
    ensures forall i :: 0 <= i < |s| ==> r[i] == ToLower(s[i])
  {
    seq(|s|, i requires 0 <= i < |s| => ToLower(s[i]))
  }

  /** Lower leaves a string alone exactly when it has no capital letter, and
      what it returns has none. */
  lemma {:induction false} LowerFixed(s: string)
    ensures Lower(s) == s <==> forall i :: 0 <= i < |s| ==> !IsUpper(s[i])
    ensures forall i :: 0 <= i < |s| ==> !IsUpper(Lower(s)[i])
  {
    if forall i :: 0 <= i < |s| ==> !IsUpper(s[i]) {
      SameElements(Lower(s), s);
    }
    if Lower(s) == s {
      forall i | 0 <= i < |s| ensures !IsUpper(s[i]) {
        assert Lower(s)[i] == ToLower(s[i]);
      }
    }
  }

  /** strcasecmp(a, b) == 0: same length and equal after tolower. */
  predicate EqualsIgnoreCase(a: string, b: string) {
    Lower(a) == Lower(b)
  }

  /** strcasecmp compares character by character: equal lengths, and each pair
      equal after tolower. */
  lemma {:induction false} EqualsIgnoreCaseChars(a: string, b: string)
    ensures EqualsIgnoreCase(a, b) <==>
      |a| == |b| && forall i :: 0 <= i < |a| ==> ToLower(a[i]) == ToLower(b[i])
  {
    if |a| == |b| && forall i :: 0 <= i < |a| ==> ToLower(a[i]) == ToLower(b[i]) {
      SameElements(Lower(a), Lower(b));
    }
    if EqualsIgnoreCase(a, b) {
      forall i | 0 <= i < |a| ensures ToLower(a[i]) == ToLower(b[i]) {
        assert Lower(a)[i] == Lower(b)[i];
      }
    }
  }

  /** A string matches itself with any of its letters in the other case, and
      a letter does not match a different letter. */
  lemma CaseVariants(s: string, i: int)
    requires 0 <= i < |s| && IsUpper(s[i])
    ensures EqualsIgnoreCase(s, s[i := ToLower(s[i])])
    ensures forall c :: IsLower(c) && c != ToLower(s[i]) ==> !EqualsIgnoreCase(s, s[i := c])
  {
    var t := s[i := ToLower(s[i])];
    EqualsIgnoreCaseChars(s, t);
    forall c | IsLower(c) && c != ToLower(s[i]) ensures !EqualsIgnoreCase(s, s[i := c]) {
      assert Lower(s[i := c])[i] == c;
      assert Lower(s)[i] == ToLower(s[i]);
    }
  }

  /** What strncpy(dst, src, n) followed by dst[n] = 0 leaves in dst. */
  function Truncate<T>(s: seq<T>, n: nat): (r: seq<T>)
    ensures |r| <= n && r <= s
    ensures |s| <= n ==> r == s
    ensures |s| > n ==> |r| == n
  {
    if |s| <= n then s else s[..n]
  }

  /** The loop `while (isspace(*p)) p++`: what is left after the leading
      whitespace. */
  function SkipSpaces(s: string): (r: string)
    ensures |r| <= |s| && r == s[|s| - |r|..]
    ensures r == [] || !IsSpace(r[0])
    ensures forall i :: 0 <= i < |s| - |r| ==> IsSpace(s[i])
  {
    if s != [] && IsSpace(s[0]) then SkipSpaces(s[1..]) else s
  }

  /** strstr(hay, needle) != NULL, scanned from the left. */
  predicate Occurs(needle: string, hay: string)
    decreases |hay|
  {
    needle <= hay || (hay != [] && Occurs(needle, hay[1..]))
  }

  /** The needle sits in the haystack at position i. */
  predicate WindowAt(needle: string, hay: string, i: int) {
    0 <= i <= |hay| - |needle| && hay[i..i + |needle|] == needle
  }

  /** strstr finds the needle exactly when some window of the haystack equals it. */
  lemma {:induction false} OccursAt(needle: string, hay: string)
    ensures Occurs(needle, hay) <==> exists i :: WindowAt(needle, hay, i)
    decreases |hay|
  {
    if needle <= hay {
      assert WindowAt(needle, hay, 0);
    } else if hay == [] {
    } else {
      OccursAt(needle, hay[1..]);
      if Occurs(needle, hay[1..]) {
        var i :| WindowAt(needle, hay[1..], i);
        WindowShift(needle, hay, i + 1);
      }
      if exists i :: WindowAt(needle, hay, i) {
        var i :| WindowAt(needle, hay, i);
        // i == 0 would make the needle a prefix, which this branch excludes
        if i > 0 {
          WindowShift(needle, hay, i);
        }
      }
    }
  }

  /** A window at i > 0 of hay is the window at i - 1 of its tail. */
  lemma WindowShift(needle: string, hay: string, i: int)
    requires 0 < i && hay != []
    ensures WindowAt(needle, hay, i) <==> WindowAt(needle, hay[1..], i - 1)
  {
    if i <= |hay| - |needle| {
      assert hay[1..][i - 1..i - 1 + |needle|] == hay[i..i + |needle|];
    }
  }

  /** The character loop of is_valid_owner_name (both record managers): every
      character is a letter or ' ', and the has_letter flag ends up set. */
  function LettersAndSpaces(s: string, hasLetter: bool): (ok: bool)
    ensures ok <==>
      (forall i :: 0 <= i < |s| ==> IsAlpha(s[i]) || s[i] == ' ') &&
      (hasLetter || exists i :: 0 <= i < |s| && IsAlpha(s[i]))
    decreases |s|
  {
    if s == [] then hasLetter
    else if IsAlpha(s[0]) then
      var ok := LettersAndSpaces(s[1..], true);
      assert forall i :: 1 <= i < |s| ==> s[i] == s[1..][i - 1];
      ok
    else if s[0] == ' ' then
      var ok := LettersAndSpaces(s[1..], hasLetter);
      assert forall i :: 1 <= i < |s| ==> s[i] == s[1..][i - 1];
      ok
    else false
  }

  /** is_valid_owner_name: 1..maxLen characters, letters and spaces only, at
      least one letter. */
  predicate IsOwnerName(s: string, maxLen: nat): (ok: bool)
    ensures ok <==>
      && 1 <= |s| <= maxLen
      && (forall i :: 0 <= i < |s| ==> IsAlpha(s[i]) || s[i] == ' ')
      && (exists i :: 0 <= i < |s| && IsAlpha(s[i]))
  {
    0 < |s| <= maxLen && LettersAndSpaces(s, false)
  }

  /** r is what is left of s once some prefix has been consumed. */
  predicate IsSuffix(r: string, s: string) {
    |r| <= |s| && r == s[|s| - |r|..]
  }

  lemma SuffixOfSuffix(s: string, u: string, r: string)
    requires IsSuffix(u, s) && IsSuffix(r, u)
    ensures IsSuffix(r, s)
  {
    assert forall i :: 0 <= i < |r| ==> r[i] == s[|s| - |r| + i];
  }

  /** A sequence is its prefix followed by the matching suffix. */
  lemma SplitAt<T>(s: seq<T>, k: nat)
    requires k <= |s|
    ensures s == s[..k] + s[k..]
  {
  }

  lemma SameElements<T>(a: seq<T>, b: seq<T>)
    requires |a| == |b| && forall i :: 0 <= i < |a| ==> a[i] == b[i]
    ensures a == b
  {
  }

  /** Where each element of a three-part concatenation comes from. */
  lemma ConcatAt<T>(x: seq<T>, y: seq<T>, z: seq<T>)
    ensures forall i :: 0 <= i < |x| ==> (x + y + z)[i] == x[i]
    ensures forall i :: |x| <= i < |x| + |y| ==> (x + y + z)[i] == y[i - |x|]
    ensures forall i :: |x| + |y| <= i < |x| + |y| + |z| ==> (x + y + z)[i] == z[i - |x| - |y|]
  {
  }

  lemma Assoc<T>(a: seq<T>, b: seq<T>, c: seq<T>)
    ensures a + (b + c) == a + b + c
  {
  }
}
