/** Python string semantics used by the corpus code: strip, lower, find/in,
    split on a separator, join, splitlines, and decimal formatting of numbers. */
module Text {

  /** Characters for which Python's str.isspace() holds; str.strip() with no
      argument removes exactly these from both ends. */
  predicate IsSpace(c: char) {
    c == ' ' || ('\t' <= c <= '\r') || ('\U{1c}' <= c <= '\U{1f}')
    || c == '\U{85}' || c == '\U{a0}' || c == '\U{1680}'
    || ('\U{2000}' <= c <= '\U{200a}') || c == '\U{2028}' || c == '\U{2029}'
    || c == '\U{202f}' || c == '\U{205f}' || c == '\U{3000}'
  }

  /** str.lstrip(): drop leading whitespace; the result is a suffix of s. */
  function LStrip(s: string): (r: string)
    ensures |r| <= |s|
    ensures r == [] || !IsSpace(r[0])
    ensures forall k :: 0 <= k < |s| - |r| ==> IsSpace(s[k])
  {
    if s != [] && IsSpace(s[0]) then LStrip(s[1..]) else s
  }

  /** str.rstrip(): drop trailing whitespace; the result is a prefix of s. */
  function RStrip(s: string): (r: string)
    ensures |r| <= |s|
    ensures r == [] || !IsSpace(r[|r| - 1])
    ensures forall k :: |r| <= k < |s| ==> IsSpace(s[k])
  {
    if s != [] && IsSpace(s[|s| - 1]) then RStrip(s[..|s| - 1]) else s
  }

  /** lstrip() leaves a suffix of its input. */
  lemma {:induction false} LStripSuffix(s: string)
    ensures LStrip(s) == s[|s| - |LStrip(s)|..]
  {
    if s != [] && IsSpace(s[0]) {
      LStripSuffix(s[1..]);
      assert s[1..][|s| - 1 - |LStrip(s)|..] == s[|s| - |LStrip(s)|..];
    }
  }

  /** rstrip() leaves a prefix of its input. */
  lemma {:induction false} RStripPrefix(s: string)
    ensures RStrip(s) == s[..|RStrip(s)|]
  {
    if s != [] && IsSpace(s[|s| - 1]) {
      RStripPrefix(s[..|s| - 1]);
      assert s[..|s| - 1][..|RStrip(s)|] == s[..|RStrip(s)|];
    }
  }

  /** str.strip(). */
  function Strip(s: string): string {
    RStrip(LStrip(s))
  }

  /** A string is blank when strip() leaves nothing (Python's `not s.strip()`). */
  predicate IsBlank(s: string) {
    Strip(s) == []
  }

  /** True when s has no whitespace at either end, so that strip() keeps it whole. */
  predicate IsTrimmed(s: string) {
    s == [] || (!IsSpace(s[0]) && !IsSpace(s[|s| - 1]))
  }

  lemma StripShape(s: string)
    ensures IsTrimmed(Strip(s))
    ensures exists i, j :: 0 <= i <= j <= |s| && Strip(s) == s[i..j]
    ensures Strip(s) == [] <==> forall k :: 0 <= k < |s| ==> IsSpace(s[k])
    ensures forall c :: c in Strip(s) ==> c in s
  {
    var l := LStrip(s);
    var r := RStrip(l);
    var i := |s| - |l|;
    LStripSuffix(s);
    RStripPrefix(l);
    assert r == s[i..i + |r|];
    if r != [] {
      assert r[0] == l[0];
    }
  }

  /** strip() leaves a trimmed string unchanged, and only a trimmed one. */
  lemma {:induction false} StripFixesTrimmed(s: string)
    ensures Strip(s) == s <==> IsTrimmed(s)
  {
    StripShape(s);
    if IsTrimmed(s) && s != [] {
      assert LStrip(s) == s;
      assert RStrip(s) == s;
    }
  }

  /** strip() is idempotent. */
  lemma StripIdempotent(s: string)
    ensures Strip(Strip(s)) == Strip(s)
  {
    StripShape(s);
    StripFixesTrimmed(Strip(s));
  }

  /** str.lower(), modelled character by character (ASCII letters only), so
      that it preserves length as the search code assumes. */
  function LowerChar(c: char): char {
    if 'A' <= c <= 'Z' then (c as int + 32) as char else c
  }

  function Lower(s: string): (r: string)
    ensures |r| == |s|
    ensures forall k :: 0 <= k < |s| ==> r[k] == LowerChar(s[k])
  {
    seq(|s|, k requires 0 <= k < |s| => LowerChar(s[k]))
  }

  lemma LowerSlice(s: string, i: nat, j: nat)
    requires i <= j <= |s|
    ensures Lower(s[i..j]) == Lower(s)[i..j]
  {
  }

  /** `pat` occurs in s at index k. */
  predicate OccursAt(s: string, pat: string, k: int) {
    0 <= k && k + |pat| <= |s| && s[k..k + |pat|] == pat
  }

  function IndexFrom(s: string, pat: string, i: nat): (r: int)
    requires i <= |s|
    ensures r == -1 || (i <= r && OccursAt(s, pat, r))
    ensures r == -1 ==> forall k :: i <= k ==> !OccursAt(s, pat, k)
    ensures r != -1 ==> forall k :: i <= k < r ==> !OccursAt(s, pat, k)
    decreases |s| - i
  {
    if i + |pat| > |s| then -1
    else if OccursAt(s, pat, i) then i
    else IndexFrom(s, pat, i + 1)
  }

  /** str.find(pat): the first index at which pat occurs, or -1. */
  function IndexOf(s: string, pat: string): (r: int)
    ensures r == -1 || OccursAt(s, pat, r)
    ensures r == -1 ==> forall k :: !OccursAt(s, pat, k)
    ensures r != -1 ==> forall k :: k < r ==> !OccursAt(s, pat, k)
  {
    IndexFrom(s, pat, 0)
  }

  /** Python's `pat in s`. */
  predicate Contains(s: string, pat: string) {
    IndexOf(s, pat) >= 0
  }

  /** The first occurrence determines IndexOf. */
  lemma IndexOfLeast(s: string, pat: string, r: int)
    requires OccursAt(s, pat, r)
    requires forall k :: 0 <= k < r ==> !OccursAt(s, pat, k)
    ensures IndexOf(s, pat) == r
  {
  }

  /** An occurrence inside a slice is an occurrence in the whole string. */
  lemma OccursInSlice(s: string, pat: string, i: nat, j: nat, k: int)
    requires i <= j <= |s|
    requires OccursAt(s[i..j], pat, k)
    ensures OccursAt(s, pat, i + k)
  {
    var t := s[i..j];
    assert forall m :: k <= m < k + |pat| ==> t[m] == s[i + m];
    assert s[i..j][k..k + |pat|] == s[i + k..i + k + |pat|];
  }

  /** A slice of a string that does not contain pat does not contain it either. */
  lemma NotContainsSlice(s: string, pat: string, i: nat, j: nat)
    requires i <= j <= |s|
    requires !Contains(s, pat)
    ensures !Contains(s[i..j], pat)
  {
    var k := IndexOf(s[i..j], pat);
    if k != -1 {
      OccursInSlice(s, pat, i, j, k);
    }
  }

  /** The first occurrence of pat in a is also the first in a + b. */
  lemma IndexOfExtend(a: string, b: string, pat: string)
    requires IndexOf(a, pat) != -1
    ensures IndexOf(a + b, pat) == IndexOf(a, pat)
  {
    var r := IndexOf(a, pat);
    assert (a + b)[r..r + |pat|] == a[r..r + |pat|];
    forall k | 0 <= k < r
      ensures !OccursAt(a + b, pat, k)
    {
      assert (a + b)[k..k + |pat|] == a[k..k + |pat|];
      assert !OccursAt(a, pat, k);
    }
    IndexOfLeast(a + b, pat, r);
  }

  /** Python's `c in s` for a one-character pattern. */
  lemma ContainsChar(s: string, c: char)
    ensures Contains(s, [c]) <==> c in s
  {
    if c in s {
      var k :| 0 <= k < |s| && s[k] == c;
      assert s[k..k + 1] == [c];
      assert OccursAt(s, [c], k);
    }
    var r := IndexOf(s, [c]);
    if r != -1 {
      assert s[r..r + 1][0] == s[r];
    }
  }

  /** A string without newline characters is followed cleanly by any run of
      newlines. */
  lemma NoNewlineSeparates(p: string, sep: string)
    requires '\n' !in p
    requires |sep| > 0 && forall k :: 0 <= k < |sep| ==> sep[k] == '\n'
    ensures SeparatesCleanly(p, sep)
  {
    forall k | 0 <= k && k + |sep| <= |p|
      ensures !OccursAt(p, sep, k)
    {
      assert p[k..k + |sep|][0] == p[k];
    }
    NewlinesSeparateCleanly(p, sep);
  }

  /** str.join: the parts with sep between consecutive ones. */
  function Join(parts: seq<string>, sep: string): (r: string)
    decreases |parts|
  {
    if |parts| == 0 then ""
    else if |parts| == 1 then parts[0]
    else parts[0] + sep + Join(parts[1..], sep)
  }

  /** str.split(sep) for a non-empty separator: cut at each occurrence,
      scanning from the left. */
  function Split(s: string, sep: string): (r: seq<string>)
    requires |sep| > 0
    ensures |r| >= 1
    decreases |s|
  {
    var i := IndexOf(s, sep);
    if i < 0 then [s] else [s[..i]] + Split(s[i + |sep|..], sep)
  }

  /** Joining the pieces of a split with the separator gives the string back. */
  lemma {:induction false} JoinSplit(s: string, sep: string)
    requires |sep| > 0
    ensures Join(Split(s, sep), sep) == s
    decreases |s|
  {
    var i := IndexOf(s, sep);
    if i >= 0 {
      var rest := s[i + |sep|..];
      JoinSplit(rest, sep);
      var tail := Split(rest, sep);
      assert Split(s, sep) == [s[..i]] + tail;
      assert Join([s[..i]] + tail, sep) == s[..i] + sep + Join(tail, sep) by {
        assert ([s[..i]] + tail)[1..] == tail;
      }
      assert s == s[..i] + sep + rest by {
        assert s[i..i + |sep|] == sep;
        assert s == s[..i] + s[i..i + |sep|] + rest;
      }
    }
  }

  /** No piece of a split contains the separator. */
  lemma {:induction false} SplitPiecesAvoidSep(s: string, sep: string)
    requires |sep| > 0
    ensures forall k :: 0 <= k < |Split(s, sep)| ==> !Contains(Split(s, sep)[k], sep)
    decreases |s|
  {
    var i := IndexOf(s, sep);
    if i >= 0 {
      SplitPiecesAvoidSep(s[i + |sep|..], sep);
      NoOccurrenceBeforeFirst(s, sep, i);
    }
  }

  lemma NoOccurrenceBeforeFirst(s: string, sep: string, i: int)
    requires |sep| > 0
    requires i == IndexOf(s, sep) && i >= 0
    ensures !Contains(s[..i], sep)
  {
    var k := IndexOf(s[..i], sep);
    if k != -1 {
      OccursInSlice(s, sep, 0, i, k);
    }
  }

  /** A part can be followed by sep without an earlier occurrence appearing. */
  predicate SeparatesCleanly(p: string, sep: string) {
    IndexOf(p + sep, sep) == |p|
  }

  /** Splitting a join gives the parts back when each part is followed cleanly
      by the separator. */
  lemma {:induction false} SplitJoin(parts: seq<string>, sep: string)
    requires |sep| > 0 && |parts| >= 1
    requires forall k :: 0 <= k < |parts| ==> SeparatesCleanly(parts[k], sep)
    ensures Split(Join(parts, sep), sep) == parts
  {
    var p := parts[0];
    if |parts| == 1 {
      SplitClean(p, sep);
    } else {
      var j := Join(parts[1..], sep);
      SplitFirstPiece(p, j, sep);
      assert Join(parts, sep) == p + sep + j;
      SplitJoin(parts[1..], sep);
    }
  }

  /** A piece that separates cleanly holds no separator, so it splits to itself. */
  lemma SplitClean(p: string, sep: string)
    requires |sep| > 0 && SeparatesCleanly(p, sep)
    ensures Split(p, sep) == [p]
  {
    forall k | 0 <= k && k + |sep| <= |p|
      ensures !OccursAt(p, sep, k)
    {
      assert (p + sep)[k..k + |sep|] == p[k..k + |sep|];
      assert !OccursAt(p + sep, sep, k);
    }
    assert IndexOf(p, sep) == -1;
  }

  /** Splitting p + sep + j cuts first right after p. */
  lemma SplitFirstPiece(p: string, j: string, sep: string)
    requires |sep| > 0 && SeparatesCleanly(p, sep)
    ensures Split(p + sep + j, sep) == [p] + Split(j, sep)
  {
    var s := p + sep + j;
    IndexOfExtend(p + sep, j, sep);
    assert IndexOf(s, sep) == |p|;
    assert s[..|p|] == p;
    assert s[|p| + |sep|..] == j;
  }

  /** The blank-line separator "\n\n" follows p cleanly when p holds no blank
      line and does not end in a newline. */
  lemma NewlinesSeparateCleanly(p: string, sep: string)
    requires |sep| > 0 && forall k :: 0 <= k < |sep| ==> sep[k] == '\n'
    requires !Contains(p, sep)
    requires p == [] || p[|p| - 1] != '\n'
    ensures SeparatesCleanly(p, sep)
  {
    forall k | 0 <= k < |p|
      ensures !OccursAt(p + sep, sep, k)
    {
      if k + |sep| <= |p| {
        assert (p + sep)[k..k + |sep|] == p[k..k + |sep|];
        assert !OccursAt(p, sep, k);
      } else {
        assert (p + sep)[k..k + |sep|][|p| - 1 - k] == p[|p| - 1];
      }
    }
    assert (p + sep)[|p|..|p| + |sep|] == sep;
    IndexOfLeast(p + sep, sep, |p|);
  }

  /** Characters at which Python's str.splitlines() breaks a line. */
  predicate IsLineBreak(c: char) {
    c == '\n' || c == '\r' || c == '\U{0b}' || c == '\U{0c}' || ('\U{1c}' <= c <= '\U{1e}')
    || c == '\U{85}' || c == '\U{2028}' || c == '\U{2029}'
  }

  function FirstBreak(s: string, i: nat): (r: nat)
    requires i <= |s|
    ensures i <= r <= |s|
    ensures r < |s| ==> IsLineBreak(s[r])
    ensures forall k :: i <= k < r ==> !IsLineBreak(s[k])
    decreases |s| - i
  {
    if i == |s| || IsLineBreak(s[i]) then i else FirstBreak(s, i + 1)
  }

  /** str.splitlines(): lines without their terminators; "\r\n" is one break,
      and a final terminator does not start an empty last line. */
  function SplitLines(s: string): (r: seq<string>)
    ensures forall k :: 0 <= k < |r| ==> forall c :: c in r[k] ==> !IsLineBreak(c)
    ensures s == [] <==> r == []
    decreases |s|
  {
    if s == [] then []
    else
      var i := FirstBreak(s, 0);
      if i == |s| then [s]
      else
        var w := if s[i] == '\r' && i + 1 < |s| && s[i + 1] == '\n' then 2 else 1;
        [s[..i]] + SplitLines(s[i + w..])
  }

  predicate StartsWith(s: string, prefix: string) {
    |prefix| <= |s| && s[..|prefix|] == prefix
  }

  predicate EndsWith(s: string, suffix: string) {
    |suffix| <= |s| && s[|s| - |suffix|..] == suffix
  }

  function DigitChar(d: nat): char
    requires d < 10
  {
    "0123456789"[d]
  }

  /** str(n) for a natural number. */
  function NatToString(n: nat): (r: string)
    ensures |r| >= 1
    ensures forall c :: c in r ==> '0' <= c <= '9'
  {
    if n < 10 then [DigitChar(n)] else NatToString(n / 10) + [DigitChar(n % 10)]
  }

  /** min() and max() of three counts. */
  function Min3(a: nat, b: nat, c: nat): (r: nat)
    ensures r <= a && r <= b && r <= c && (r == a || r == b || r == c)
  {
    if a <= b && a <= c then a else if b <= c then b else c
  }

  function Max3(a: nat, b: nat, c: nat): (r: nat)
    ensures r >= a && r >= b && r >= c && (r == a || r == b || r == c)
  {
    if a >= b && a >= c then a else if b >= c then b else c
  }

  /** Python's `a <= b` on str: code-point lexicographic order, a prefix first. */
  predicate LexLe(a: string, b: string)
    decreases |a|
  {
    a == [] || (b != [] && (a[0] < b[0] || (a[0] == b[0] && LexLe(a[1..], b[1..]))))
  }

  /** Any two strings are comparable. */
  lemma {:induction false} LexLeTotal(a: string, b: string)
    ensures LexLe(a, b) || LexLe(b, a)
    decreases |a|
  {
    if a != [] && b != [] && a[0] == b[0] {
      LexLeTotal(a[1..], b[1..]);
    }
  }

  lemma {:induction false} LexLeTrans(a: string, b: string, c: string)
    requires LexLe(a, b) && LexLe(b, c)
    ensures LexLe(a, c)
    decreases |a|
  {
    if a != [] && a[0] == b[0] && b[0] == c[0] {
      LexLeTrans(a[1..], b[1..], c[1..]);
    }
  }

  lemma {:induction false} LexLeAntisym(a: string, b: string)
    requires LexLe(a, b) && LexLe(b, a)
    ensures a == b
    decreases |a|
  {
    if a != [] {
      LexLeAntisym(a[1..], b[1..]);
      assert a == [a[0]] + a[1..];
      assert b == [b[0]] + b[1..];
    }
  }
}
