/** Option, the usual Some/None wrapper for the source's `None` results. */
module Wrappers {
  datatype Option<+T> = None | Some(value: T)
}

/**
 * The handful of Python `str` operations the scraper relies on, with the
 * semantics CPython gives them: `isspace`, `strip`, `split()`, `' '.join`,
 * `in`, `startswith`, `replace(p, "")` and `lower()`.
 */
module Text {
  import opened Wrappers

  /** `c.isspace()` in CPython: the ASCII whitespace, the information
      separators U+001C..U+001F, NEL, NBSP and the Unicode space separators. */
  predicate IsSpace(c: char) {
    c == ' ' || c == '\t' || c == '\n' || c == '\r' || c == '\U{0B}' || c == '\U{0C}'
    || ('\U{1C}' <= c <= '\U{1F}') || c == '\U{85}' || c == '\U{A0}' || c == '\U{1680}'
    || ('\U{2000}' <= c <= '\U{200A}') || c == '\U{2028}' || c == '\U{2029}'
    || c == '\U{202F}' || c == '\U{205F}' || c == '\U{3000}'
  }

  predicate IsDigit(c: char) {
    '0' <= c <= '9'
  }

  predicate AllDigits(s: string) {
    forall i :: 0 <= i < |s| ==> IsDigit(s[i])
  }

  predicate NoSpace(s: string) {
    forall i :: 0 <= i < |s| ==> !IsSpace(s[i])
  }

  /** Decimal value of a run of ASCII digits (as `int(s)`). */
  function DigitsValue(s: string): (n: nat)
    requires AllDigits(s)
    ensures |s| == 1 ==> n <= 9
    ensures |s| == 2 ==> n <= 99
    ensures |s| == 4 ==> n <= 9999
  {
    if s == [] then 0 else 10 * DigitsValue(s[..|s| - 1]) + (s[|s| - 1] as int - '0' as int)
  }

  /** `str(n)` for a natural number. */
  function Decimal(n: nat): (s: string)
    ensures |s| >= 1 && AllDigits(s)
    ensures DigitsValue(s) == n
    ensures |s| == 1 <==> n < 10
    ensures n < 100 ==> |s| <= 2
    ensures n < 10000 ==> |s| <= 4
    decreases n
  {
    var d := [(('0' as int) + n % 10) as char];
    if n < 10 then d
    else
      var hi := Decimal(n / 10);
      assert (hi + d)[..|hi + d| - 1] == hi;
      hi + d
  }

  /** Left-pads `Decimal(n)` with zeros to `width` characters (`%02d`, `%04d`). */
  function ZeroPad(n: nat, width: nat): (s: string)
    ensures |s| >= width && AllDigits(s)
    ensures DigitsValue(s) == n
    ensures |Decimal(n)| <= width ==> |s| == width
  {
    var d := Decimal(n);
    if |d| >= width then d else ZerosThen(width - |d|, d)
  }

  function ZerosThen(k: nat, d: string): (s: string)
    requires AllDigits(d)
    ensures |s| == k + |d| && AllDigits(s) && DigitsValue(s) == DigitsValue(d)
  {
    if k == 0 then d else
      var t := ZerosThen(k - 1, d);
      LeadingZero(t);
      "0" + t
  }

  lemma {:induction false} LeadingZero(t: string)
    requires AllDigits(t)
    ensures AllDigits("0" + t) && DigitsValue("0" + t) == DigitsValue(t)
  {
    if t != [] {
      var u := "0" + t;
      assert u[..|u| - 1] == "0" + t[..|t| - 1];
      LeadingZero(t[..|t| - 1]);
    }
  }

  // ---------------------------------------------------------------- strip

  /** `s.lstrip()`. */
  function LStrip(s: string): (r: string)
    ensures |r| <= |s| && r == s[|s| - |r|..]
    ensures r == [] || !IsSpace(r[0])
    ensures forall i :: 0 <= i < |s| - |r| ==> IsSpace(s[i])
  {
    if s == [] || !IsSpace(s[0]) then s else LStrip(s[1..])
  }

  /** `s.rstrip()`. */
  function RStrip(s: string): (r: string)
    ensures |r| <= |s| && r == s[..|r|]
    ensures r == [] || !IsSpace(r[|r| - 1])
    ensures forall i :: |r| <= i < |s| ==> IsSpace(s[i])
  {
    if s == [] || !IsSpace(s[|s| - 1]) then s else RStrip(s[..|s| - 1])
  }

  /** `s.strip()`: drops leading and trailing whitespace and nothing else. */
  function Strip(s: string): (r: string)
    ensures |r| <= |s|
    ensures r == [] || (!IsSpace(r[0]) && !IsSpace(r[|r| - 1]))
    ensures Visible(r) == Visible(s)
  {
    var l := LStrip(s);
    LStripVisible(s);
    RStripVisible(l);
    RStrip(l)
  }

  /** A string without surrounding whitespace is its own `strip()`. */
  lemma StripTrimmed(s: string)
    requires s == [] || (!IsSpace(s[0]) && !IsSpace(s[|s| - 1]))
    ensures Strip(s) == s
  {
  }

  // ---------------------------------------------------------------- split / join

  /** Number of leading characters of `s` that are not whitespace. */
  function WordLength(s: string): (n: nat)
    ensures n <= |s|
    ensures forall i :: 0 <= i < n ==> !IsSpace(s[i])
    ensures n == |s| || IsSpace(s[n])
  {
    if s == [] || IsSpace(s[0]) then 0 else 1 + WordLength(s[1..])
  }

  /** `s.split()` with no separator: the maximal runs of non-whitespace,
      left to right. */
  function Split(s: string): (words: seq<string>)
    decreases |s|
  {
    var t := LStrip(s);
    if t == [] then []
    else
      var n := WordLength(t);
      [t[..n]] + Split(t[n..])
  }

  /** Every word of the split is non-empty and holds no whitespace. */
  lemma {:induction false} SplitWords(s: string)
    ensures forall i :: 0 <= i < |Split(s)| ==> |Split(s)[i]| > 0 && NoSpace(Split(s)[i])
    decreases |s|
  {
    var t := LStrip(s);
    if t != [] {
      var n := WordLength(t);
      SplitWords(t[n..]);
      FirstWord(t, n);
      ConsWords(t[..n], Split(t[n..]));
    }
  }

  lemma FirstWord(t: string, n: nat)
    requires t != [] && !IsSpace(t[0]) && n == WordLength(t)
    ensures 0 < n && NoSpace(t[..n])
  {
  }

  lemma ConsWords(w: string, ws: seq<string>)
    requires |w| > 0 && NoSpace(w)
    requires forall i :: 0 <= i < |ws| ==> |ws[i]| > 0 && NoSpace(ws[i])
    ensures forall i :: 0 <= i < |[w] + ws| ==> |([w] + ws)[i]| > 0 && NoSpace(([w] + ws)[i])
  {
  }

  /** `sep.join(parts)`. */
  function Join(sep: string, parts: seq<string>): (r: string)
  {
    if parts == [] then ""
    else if |parts| == 1 then parts[0]
    else parts[0] + sep + Join(sep, parts[1..])
  }

  /** Joining one more part appends the separator and that part. */
  lemma {:induction false} JoinSnoc(sep: string, parts: seq<string>, last: string)
    requires |parts| > 0
    ensures Join(sep, parts + [last]) == Join(sep, parts) + sep + last
  {
    if |parts| > 1 {
      assert (parts + [last])[1..] == parts[1..] + [last];
      JoinSnoc(sep, parts[1..], last);
    }
  }

  /** Words joined by single spaces split back into the same words. */
  lemma {:induction false} SplitJoin(words: seq<string>)
    requires forall i :: 0 <= i < |words| ==> |words[i]| > 0 && NoSpace(words[i])
    ensures Split(Join(" ", words)) == words
  {
    if |words| == 1 {
      SplitWord(words[0]);
    } else if |words| > 1 {
      var rest := Join(" ", words[1..]);
      SplitJoin(words[1..]);
      assert Join(" ", words) == words[0] + ([' '] + rest);
      SplitCons(words[0], rest);
    }
  }

  /** The characters of `s` that are not whitespace, in order. */
  function Visible(s: string): (r: string)
    ensures NoSpace(r)
  {
    if s == [] then ""
    else if IsSpace(s[0]) then Visible(s[1..])
    else [s[0]] + Visible(s[1..])
  }

  function Concat(parts: seq<string>): string {
    if parts == [] then "" else parts[0] + Concat(parts[1..])
  }

  lemma {:induction false} VisibleAppend(a: string, b: string)
    ensures Visible(a + b) == Visible(a) + Visible(b)
  {
    if a == [] {
      assert a + b == b;
    } else {
      assert (a + b)[0] == a[0];
      assert (a + b)[1..] == a[1..] + b;
      VisibleAppend(a[1..], b);
    }
  }

  lemma {:induction false} VisibleOfSpaces(a: string)
    requires forall i :: 0 <= i < |a| ==> IsSpace(a[i])
    ensures Visible(a) == ""
  {
    if a != [] {
      VisibleOfSpaces(a[1..]);
    }
  }

  lemma {:induction false} VisibleOfWord(a: string)
    requires NoSpace(a)
    ensures Visible(a) == a
  {
    if a != [] {
      VisibleOfWord(a[1..]);
    }
  }

  /** Splitting loses exactly the whitespace: the words, put back together,
      are the visible characters of the input. */
  lemma {:induction false} SplitKeepsVisible(s: string)
    ensures Concat(Split(s)) == Visible(s)
    decreases |s|
  {
    var t := LStrip(s);
    LStripVisible(s);
    if t != [] {
      var n := WordLength(t);
      var w, rest := t[..n], t[n..];
      SplitKeepsVisible(rest);
      WordVisible(t, n);
      assert Split(s) == [w] + Split(rest);
      assert Concat([w] + Split(rest)) == w + Concat(Split(rest));
    }
  }

  lemma LStripVisible(s: string)
    ensures Visible(LStrip(s)) == Visible(s)
  {
    var t := LStrip(s);
    var k := |s| - |t|;
    var spaces := s[..k];
    assert s == spaces + t;
    assert forall i :: 0 <= i < |spaces| ==> IsSpace(spaces[i]);
    VisibleOfSpaces(spaces);
    VisibleAppend(spaces, t);
  }

  lemma RStripVisible(s: string)
    ensures Visible(RStrip(s)) == Visible(s)
  {
    var r := RStrip(s);
    var spaces := s[|r|..];
    assert s == r + spaces;
    assert forall i :: 0 <= i < |spaces| ==> IsSpace(spaces[i]);
    VisibleOfSpaces(spaces);
    VisibleAppend(r, spaces);
  }

  lemma WordVisible(t: string, n: nat)
    requires n <= |t| && NoSpace(t[..n])
    ensures Visible(t) == t[..n] + Visible(t[n..])
  {
    assert t == t[..n] + t[n..];
    VisibleAppend(t[..n], t[n..]);
    VisibleOfWord(t[..n]);
  }

  /** A word followed by whitespace (or by nothing) is the first element of
      the split. */
  lemma {:induction false} SplitOfWords(a: string, rest: string)
    requires |a| > 0 && NoSpace(a)
    requires rest == [] || IsSpace(rest[0])
    ensures Split(a + rest) == [a] + Split(rest)
  {
    var s := a + rest;
    assert LStrip(s) == s;
    WordLengthOf(a, rest);
    assert s[..|a|] == a && s[|a|..] == rest;
    var r := LStrip(rest);
    if r == [] {
      assert Split(rest) == [];
    }
  }

  lemma {:induction false} WordLengthOf(a: string, rest: string)
    requires NoSpace(a)
    requires rest == [] || IsSpace(rest[0])
    ensures WordLength(a + rest) == |a|
  {
    if a != [] {
      assert (a + rest)[1..] == a[1..] + rest;
      WordLengthOf(a[1..], rest);
    } else {
      assert a + rest == rest;
    }
  }

  /** Leading whitespace does not change the split. */
  lemma SplitLeadingSpace(c: char, rest: string)
    requires IsSpace(c)
    ensures Split([c] + rest) == Split(rest)
  {
    var s := [c] + rest;
    assert s[0] == c && s[1..] == rest;
    assert LStrip(s) == LStrip(rest);
    SplitOfStripped(s, rest);
  }

  /** The split only looks at the text after leading whitespace. */
  lemma SplitOfStripped(a: string, b: string)
    requires LStrip(a) == LStrip(b)
    ensures Split(a) == Split(b)
  {
  }

  /** A word and a space come off the front of the split as that word. */
  lemma SplitCons(a: string, rest: string)
    requires |a| > 0 && NoSpace(a)
    ensures Split(a + ([' '] + rest)) == [a] + Split(rest)
  {
    var r := [' '] + rest;
    assert r[0] == ' ';
    SplitOfWords(a, r);
    SplitLeadingSpace(' ', rest);
  }

  /** A single word is split into itself. */
  lemma SplitWord(a: string)
    requires |a| > 0 && NoSpace(a)
    ensures Split(a) == [a]
  {
    assert a + [] == a;
    SplitOfWords(a, []);
  }

  /** One trailing whitespace character is all `strip()` removes from a
      string whose ends are visible. */
  lemma StripTrailingSpace(s: string, c: char)
    requires |s| > 0 && !IsSpace(s[0]) && !IsSpace(s[|s| - 1]) && IsSpace(c)
    ensures Strip(s + [c]) == s
  {
    assert LStrip(s + [c]) == s + [c];
    assert (s + [c])[..|s|] == s;
  }

  // ---------------------------------------------------------------- substrings

  predicate OccursAt(s: string, p: string, i: int) {
    0 <= i && i + |p| <= |s| && s[i..i + |p|] == p
  }

  /** `p in s`. */
  predicate Contains(s: string, p: string) {
    exists i :: 0 <= i <= |s| - |p| && OccursAt(s, p, i)
  }

  /** `s.startswith(p)`. */
  predicate StartsWith(s: string, p: string) {
    OccursAt(s, p, 0)
  }

  /** `s.find(p)` as an option: the first index where `p` occurs. */
  function Find(s: string, p: string): (r: Option<nat>)
    ensures r.Some? ==> OccursAt(s, p, r.value) && forall j :: 0 <= j < r.value ==> !OccursAt(s, p, j)
    ensures r.None? ==> !Contains(s, p)
  {
    FindFrom(s, p, 0)
  }

  function FindFrom(s: string, p: string, k: nat): (r: Option<nat>)
    ensures r.Some? ==>
      (k <= r.value && OccursAt(s, p, r.value) && forall j :: k <= j < r.value ==> !OccursAt(s, p, j))
    ensures r.None? ==> forall j :: k <= j ==> !OccursAt(s, p, j)
    decreases |s| - k
  {
    if k + |p| > |s| then None
    else if s[k..k + |p|] == p then Some(k)
    else FindFrom(s, p, k + 1)
  }

  /** `s.replace(p, "")`: removes the occurrences of `p` found scanning left
      to right, each one resuming after the previous. */
  function RemoveAll(s: string, p: string): (r: string)
    requires |p| > 0
    ensures |r| <= |s|
    decreases |s|
  {
    if |s| < |p| then s
    else if s[..|p|] == p then RemoveAll(s[|p|..], p)
    else [s[0]] + RemoveAll(s[1..], p)
  }

  /** `replace` changes nothing when `p` does not occur. */
  lemma {:induction false} RemoveAllAbsent(s: string, p: string)
    requires |p| > 0 && !Contains(s, p)
    ensures RemoveAll(s, p) == s
    decreases |s|
  {
    if |s| >= |p| {
      assert !OccursAt(s, p, 0);
      forall i | OccursAt(s[1..], p, i) ensures OccursAt(s, p, i + 1) {
        assert s[1..][i..i + |p|] == s[i + 1..i + 1 + |p|];
      }
      RemoveAllAbsent(s[1..], p);
    }
  }

  /** A pattern that first occurs at the very end is the only one
      removed. */
  lemma {:induction false} RemoveAllTail(x: string, p: string)
    requires |p| > 0
    requires forall i :: 0 <= i < |x| ==> !OccursAt(x + p, p, i)
    ensures RemoveAll(x + p, p) == x
    decreases |x|
  {
    var s := x + p;
    if x == [] {
      assert s[..|p|] == p && s[|p|..] == [];
    } else {
      assert !OccursAt(s, p, 0);
      assert s[1..] == x[1..] + p;
      forall i | 0 <= i < |x[1..]| ensures !OccursAt(x[1..] + p, p, i) {
        assert !OccursAt(s, p, i + 1);
        if i + |p| <= |x[1..] + p| {
          assert (x[1..] + p)[i..i + |p|] == s[i + 1..i + 1 + |p|];
        }
      }
      RemoveAllTail(x[1..], p);
    }
  }

  /** `replace` with the empty string introduces no character: every
      character of the result comes from `s`. */
  lemma {:induction false} RemoveAllChars(s: string, p: string, c: char)
    requires |p| > 0
    ensures c in RemoveAll(s, p) ==> c in s
    decreases |s|
  {
    if |s| >= |p| {
      if s[..|p|] == p {
        RemoveAllChars(s[|p|..], p, c);
      } else {
        RemoveAllChars(s[1..], p, c);
      }
    }
  }

  // ---------------------------------------------------------------- lower

  /** `c.lower()` for the Latin and Cyrillic letters the scraper meets. */
  function LowerChar(c: char): char {
    if 'A' <= c <= 'Z' then (c as int + 32) as char
    else if 'А' <= c <= 'Я' then (c as int + 32) as char
    else if 'Ѐ' <= c <= 'Џ' then (c as int + 80) as char
    else if c == 'Ґ' then 'ґ'
    else c
  }

  /** `s.lower()`, character by character. */
  function Lower(s: string): (r: string)
    ensures |r| == |s|
    ensures forall i :: 0 <= i < |s| ==> r[i] == LowerChar(s[i])
  {
    if s == [] then "" else [LowerChar(s[0])] + Lower(s[1..])
  }

  /** ILIKE '%p%': a case-insensitive substring test. */
  predicate ContainsFolded(s: string, p: string) {
    Contains(Lower(s), Lower(p))
  }
}
