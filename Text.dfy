/** The parts of Python 2's `str` that the core relies on: whitespace, `strip`,
    `split(sep)`, `split()`, `sep.join`, `in`, `str(int)` and the ordering that
    `sorted` uses on strings. A character stands for one byte of a Python 2 `str`. */
module Text {

  /** The characters `str.strip()`, `str.split()` and the regex class `\s` treat as
      whitespace in Python 2 (no locale, no unicode flag). */
  predicate IsSpace(c: char) {
    c == ' ' || c == '\t' || c == '\n' || c == '\r' || c == '\U{000B}' || c == '\U{000C}'
  }

  predicate IsDigit(c: char) { '0' <= c <= '9' }

  predicate AllDigits(s: string) { forall k :: 0 <= k < |s| ==> IsDigit(s[k]) }

  predicate NoSpace(s: string) { forall k :: 0 <= k < |s| ==> !IsSpace(s[k]) }

  predicate AllSpace(s: string) { forall k :: 0 <= k < |s| ==> IsSpace(s[k]) }

  predicate StartsWith(s: string, p: string) { |p| <= |s| && s[..|p|] == p }

  predicate EndsWith(s: string, p: string) { |p| <= |s| && s[|s| - |p|..] == p }

  /** Taking the head off a concatenation whose first part is not empty. */
  lemma HeadOfAppend<T>(w: seq<T>, u: seq<T>)
    requires w != []
    ensures (w + u)[0] == w[0] && (w + u)[1..] == w[1..] + u
    ensures [w[0]] + (w[1..] + u) == w + u
  {
    assert [w[0]] + w[1..] == w;
  }

  /** The two parts of a concatenation, sliced back out. */
  lemma AppendSlices<T>(a: seq<T>, b: seq<T>)
    ensures (a + b)[..|a|] == a && (a + b)[|a|..] == b
  {
  }

  /** Concatenation regrouped. */
  lemma AppendAssoc<T>(a: seq<T>, b: seq<T>, c: seq<T>)
    ensures a + b + c == a + (b + c)
  {
  }

  /** Python's `p in s` for strings. */
  predicate IsInfix(p: string, s: string) {
    exists i :: 0 <= i <= |s| && StartsWith(s[i..], p)
  }

  /** The character classes of the regular expressions in the core. */
  datatype CharClass = Digits | DigitsOrDot

  predicate InClass(c: char, cls: CharClass) {
    match cls
    case Digits => IsDigit(c)
    case DigitsOrDot => IsDigit(c) || c == '.'
  }

  predicate AllInClass(s: string, cls: CharClass) {
    forall k :: 0 <= k < |s| ==> InClass(s[k], cls)
  }

  /** End of the longest run of `cls` characters starting at `i`. */
  function RunEnd(s: string, i: nat, cls: CharClass): (j: nat)
    requires i <= |s|
    ensures i <= j <= |s|
    ensures AllInClass(s[i..j], cls)
    ensures j == |s| || !InClass(s[j], cls)
    decreases |s| - i
  {
    if i == |s| || !InClass(s[i], cls) then i else RunEnd(s, i + 1, cls)
  }

  /** A run followed by a literal that cannot continue the run can end in one
      place only: where the longest run ends. This is why the core's patterns
      match the same text with or without backtracking. */
  lemma RunThenLiteral(s: string, i: nat, cls: CharClass, q: string, j: nat)
    requires i <= j <= |s|
    requires q != [] && !InClass(q[0], cls)
    requires AllInClass(s[i..j], cls) && StartsWith(s[j..], q)
    ensures j == RunEnd(s, i, cls)
  {
    var e := RunEnd(s, i, cls);
    forall k | i <= k < j ensures InClass(s[k], cls) {
      assert s[i..j][k - i] == s[k];
    }
    forall k | i <= k < e ensures InClass(s[k], cls) {
      assert s[i..e][k - i] == s[k];
    }
    assert j < |s| ==> s[j] == q[0] by {
      if j < |s| { assert s[j..][0] == s[j]; }
    }
  }

  /** How many whitespace characters `s` starts with. */
  function LeadingSpace(s: string): (n: nat)
    ensures n <= |s| && AllSpace(s[..n]) && (n == |s| || !IsSpace(s[n]))
  {
    if s != [] && IsSpace(s[0]) then
      var m := LeadingSpace(s[1..]);
      assert s[..m + 1] == [s[0]] + s[1..][..m];
      m + 1
    else 0
  }

  /** How many whitespace characters `s` ends with. */
  function TrailingSpace(s: string): (n: nat)
    ensures n <= |s| && AllSpace(s[|s| - n..]) && (n == |s| || !IsSpace(s[|s| - n - 1]))
  {
    if s != [] && IsSpace(s[|s| - 1]) then
      var t := s[..|s| - 1];
      var m := TrailingSpace(t);
      assert s[|s| - (m + 1)..] == t[|t| - m..] + [s[|s| - 1]];
      m + 1
    else 0
  }

  /** `s.lstrip()`. */
  function LStrip(s: string): (r: string)
    ensures |r| <= |s| && r == s[|s| - |r|..]
    ensures AllSpace(s[..|s| - |r|])
    ensures r == [] || !IsSpace(r[0])
  {
    s[LeadingSpace(s)..]
  }

  /** `s.rstrip()`. */
  function RStrip(s: string): (r: string)
    ensures |r| <= |s| && r == s[..|r|]
    ensures AllSpace(s[|r|..])
    ensures r == [] || !IsSpace(r[|r| - 1])
  {
    s[..|s| - TrailingSpace(s)]
  }

  /** `s.strip()`: drops the leading and the trailing whitespace and nothing else. */
  function Strip(s: string): (r: string)
    ensures var i := LeadingSpace(s);
      && i + |r| <= |s| && r == s[i..i + |r|] && AllSpace(s[i + |r|..])
    ensures r == [] || (!IsSpace(r[0]) && !IsSpace(r[|r| - 1]))
  {
    var i := LeadingSpace(s);
    var l := s[i..];
    var r := l[..|l| - TrailingSpace(l)];
    assert l[..|r|] == s[i..i + |r|];
    assert s[i + |r|..] == l[|r|..];
    assert r != [] ==> r[0] == l[0];
    r
  }

  /** `s.split(sep)` for a one-character separator: the pieces between separators,
      empty pieces included. */
  function Split(s: string, sep: char): (r: seq<string>)
    ensures |r| >= 1
    ensures forall k :: 0 <= k < |r| ==> sep !in r[k]
  {
    if s == [] then [""]
    else
      var rest := Split(s[1..], sep);
      if s[0] == sep then [""] + rest
      else [[s[0]] + rest[0]] + rest[1..]
  }

  /** `s.split(sep)` has one piece exactly when the separator does not occur. */
  lemma {:induction false} SplitSingle(s: string, sep: char)
    ensures |Split(s, sep)| == 1 <==> sep !in s
  {
    if s != [] {
      SplitSingle(s[1..], sep);
      assert s == [s[0]] + s[1..];
    }
  }

  /** `sep.join(xs)`. */
  function Join(xs: seq<string>, sep: string): string {
    if |xs| == 0 then "" else if |xs| == 1 then xs[0] else xs[0] + sep + Join(xs[1..], sep)
  }

  /** Joining two non-empty lists is joining each and putting one separator between. */
  lemma {:induction false} JoinAppend(xs: seq<string>, ys: seq<string>, sep: string)
    requires xs != [] && ys != []
    ensures Join(xs + ys, sep) == Join(xs, sep) + sep + Join(ys, sep)
  {
    if |xs| == 1 {
      assert (xs + ys)[1..] == ys;
    } else {
      assert (xs + ys)[1..] == xs[1..] + ys;
      JoinAppend(xs[1..], ys, sep);
    }
  }

  /** Splitting on a separator and joining the pieces back with it gives the input back. */
  lemma {:induction false} JoinSplit(s: string, sep: char)
    ensures Join(Split(s, sep), [sep]) == s
  {
    if s != [] {
      var rest := Split(s[1..], sep);
      JoinSplit(s[1..], sep);
      if s[0] == sep {
        assert ([""] + rest)[1..] == rest;
      } else if |rest| > 1 {
        assert ([[s[0]] + rest[0]] + rest[1..])[1..] == rest[1..];
      }
    }
  }

  /** End of the word (maximal run of non-whitespace) starting at `i`. */
  function WordEnd(s: string, i: nat): (j: nat)
    requires i <= |s|
    ensures i <= j <= |s|
    ensures NoSpace(s[i..j])
    ensures j == |s| || IsSpace(s[j])
    decreases |s| - i
  {
    if i == |s| || IsSpace(s[i]) then i else WordEnd(s, i + 1)
  }

  /** `s.split()` with no argument: the words, no empty strings. */
  function SplitWs(s: string): (r: seq<string>)
    ensures forall k :: 0 <= k < |r| ==> r[k] != [] && NoSpace(r[k])
    decreases |s|
  {
    if s == [] then []
    else if IsSpace(s[0]) then SplitWs(s[1..])
    else
      var j := WordEnd(s, 0);
      [s[..j]] + SplitWs(s[j..])
  }

  lemma SplitWsWord(w: string, rest: string)
    requires w != [] && NoSpace(w)
    requires rest == [] || IsSpace(rest[0])
    ensures SplitWs(w + rest) == [w] + SplitWs(rest)
  {
    var s := w + rest;
    var j := WordEnd(s, 0);
    forall k | 0 <= k < j ensures !IsSpace(s[k]) {
      assert s[0..j][k] == s[k];
    }
    assert forall k :: 0 <= k < |w| ==> s[k] == w[k];
    assert |w| < |s| ==> s[|w|] == rest[0];
    assert j == |w|;
    assert s[..j] == w && s[j..] == rest;
  }

  /** `s.split()` undoes `" ".join(words)` for non-empty words without whitespace. */
  lemma {:induction false} SplitWsJoin(words: seq<string>)
    requires forall k :: 0 <= k < |words| ==> words[k] != [] && NoSpace(words[k])
    ensures SplitWs(Join(words, " ")) == words
  {
    if |words| == 1 {
      SplitWsWord(words[0], "");
      assert words[0] + "" == words[0];
    } else if |words| > 1 {
      var tail := Join(words[1..], " ");
      SplitWsJoin(words[1..]);
      assert Join(words, " ") == words[0] + (" " + tail);
      SplitWsWord(words[0], " " + tail);
      assert (" " + tail)[1..] == tail;
    }
  }

  /** `s.replace(c, '')` for one character. */
  function RemoveChar(s: string, c: char): (r: string)
    ensures c !in r
    ensures forall x :: x != c ==> (x in r <==> x in s)
  {
    if s == [] then [] else (if s[0] == c then [] else [s[0]]) + RemoveChar(s[1..], c)
  }

  lemma {:induction false} RemoveCharAbsent(s: string, c: char)
    requires c !in s
    ensures RemoveChar(s, c) == s
  {
    if s != [] {
      RemoveCharAbsent(s[1..], c);
      assert [s[0]] + s[1..] == s;
    }
  }

  lemma RemoveCharCons(c: char, s: string, d: char)
    ensures RemoveChar([c] + s, d) == (if c == d then [] else [c]) + RemoveChar(s, d)
  {
    assert ([c] + s)[1..] == s;
  }

  function ToLowerChar(c: char): char {
    if 'A' <= c <= 'Z' then (c as int + 32) as char else c
  }

  function ToLower(s: string): (r: string)
    ensures |r| == |s| && forall k :: 0 <= k < |s| ==> r[k] == ToLowerChar(s[k])
  {
    if s == [] then [] else [ToLowerChar(s[0])] + ToLower(s[1..])
  }

  predicate NoCapitals(s: string) { forall k :: 0 <= k < |s| ==> !('A' <= s[k] <= 'Z') }

  /** Text without capitals is its own lower case. */
  lemma LowerFixed(s: string)
    requires NoCapitals(s)
    ensures ToLower(s) == s
  {
    assert forall k :: 0 <= k < |s| ==> ToLower(s)[k] == s[k];
  }

  /** `re.search(p, s, re.IGNORECASE)` for a pattern `p` without special characters. */
  predicate ContainsIgnoreCase(s: string, p: string) {
    IsInfix(ToLower(p), ToLower(s))
  }

  /** For a pattern without capitals, only the text needs lowering. */
  lemma IgnoreCaseOfLower(s: string, p: string)
    requires NoCapitals(p)
    ensures ContainsIgnoreCase(s, p) <==> IsInfix(p, ToLower(s))
  {
    LowerFixed(p);
  }

  function DigitChar(d: nat): char
    requires d < 10
  {
    ('0' as int + d) as char
  }

  function DigitValue(c: char): nat
    requires IsDigit(c)
  {
    c as int - '0' as int
  }

  /** `str(n)` for a non-negative integer. */
  function NatToString(n: nat): (r: string)
    ensures r != [] && AllDigits(r)
    ensures r[0] == '0' <==> n == 0
    ensures n == 0 ==> r == "0"
  {
    if n < 10 then [DigitChar(n)] else NatToString(n / 10) + [DigitChar(n % 10)]
  }

  /** `str(i)` for an integer: the decimal digits of its magnitude, without
      leading zeros, after a `-` when it is negative. */
  function IntToString(i: int): (r: string)
    ensures r != []
    ensures i >= 0 ==> AllDigits(r) && ParseNat(r) == i
    ensures i >= 0 ==> (r[0] == '0' <==> i == 0) && (i == 0 ==> r == "0")
    ensures i < 0 ==> r[0] == '-' && |r| >= 2 && AllDigits(r[1..]) && ParseNat(r[1..]) == -i && r[1] != '0'
  {
    if i < 0 then
      ParseNatToString(-i);
      var t := NatToString(-i);
      assert ("-" + t)[1..] == t;
      "-" + t
    else
      ParseNatToString(i);
      NatToString(i)
  }

  /** `int(s)` for a non-empty run of decimal digits. */
  function ParseNat(s: string): nat
    requires AllDigits(s)
  {
    if s == [] then 0 else ParseNat(s[..|s| - 1]) * 10 + DigitValue(s[|s| - 1])
  }

  /** `int(str(n)) == n`. */
  lemma {:induction false} ParseNatToString(n: nat)
    ensures ParseNat(NatToString(n)) == n
  {
    if n >= 10 {
      var s := NatToString(n);
      assert s[..|s| - 1] == NatToString(n / 10);
      ParseNatToString(n / 10);
    }
  }

  /** Python 2's `a <= b` on strings: lexicographic by character code. */
  predicate StrLe(a: string, b: string) {
    if a == [] then true
    else if b == [] then false
    else if a[0] != b[0] then a[0] < b[0]
    else StrLe(a[1..], b[1..])
  }

  lemma {:induction false} StrLeTotal(a: string, b: string)
    ensures StrLe(a, b) || StrLe(b, a)
  {
    if a != [] && b != [] && a[0] == b[0] {
      StrLeTotal(a[1..], b[1..]);
    }
  }

  lemma {:induction false} StrLeTransitive(a: string, b: string, c: string)
    requires StrLe(a, b) && StrLe(b, c)
    ensures StrLe(a, c)
  {
    if a != [] && b != [] && c != [] && a[0] == b[0] && b[0] == c[0] {
      StrLeTransitive(a[1..], b[1..], c[1..]);
    }
  }

  lemma {:induction false} StrLeAntisymmetric(a: string, b: string)
    requires StrLe(a, b) && StrLe(b, a)
    ensures a == b
  {
    if a != [] && b != [] {
      StrLeAntisymmetric(a[1..], b[1..]);
      assert a == [a[0]] + a[1..] && b == [b[0]] + b[1..];
    }
  }

  /** A string `strip()` leaves alone. */
  predicate Stripped(s: string) {
    s == [] || (!IsSpace(s[0]) && !IsSpace(s[|s| - 1]))
  }

  lemma {:induction false} LeadingSpaces(g: string, t: string)
    requires AllSpace(g) && (t == [] || !IsSpace(t[0]))
    ensures LeadingSpace(g + t) == |g|
  {
    if g == [] {
      assert g + t == t;
    } else {
      assert (g + t)[1..] == g[1..] + t;
      assert (g + t)[0] == g[0];
      LeadingSpaces(g[1..], t);
    }
  }

  lemma LStripSpaces(g: string, t: string)
    requires AllSpace(g) && (t == [] || !IsSpace(t[0]))
    ensures LStrip(g + t) == t
  {
    LeadingSpaces(g, t);
    assert (g + t)[|g|..] == t;
  }

  lemma {:induction false} TrailingSpaces(v: string, t: string)
    requires AllSpace(t) && (v == [] || !IsSpace(v[|v| - 1]))
    ensures TrailingSpace(v + t) == |t|
  {
    if t == [] {
      assert v + t == v;
    } else {
      var t' := t[..|t| - 1];
      assert (v + t)[..|v + t| - 1] == v + t';
      assert (v + t)[|v + t| - 1] == t[|t| - 1];
      TrailingSpaces(v, t');
    }
  }

  lemma RStripSpaces(v: string, t: string)
    requires AllSpace(t) && (v == [] || !IsSpace(v[|v| - 1]))
    ensures RStrip(v + t) == v
  {
    TrailingSpaces(v, t);
    assert (v + t)[..|v|] == v;
  }

  /** `(v + t).strip() == v` for a stripped `v` followed by whitespace only. */
  lemma StripTrailingSpace(v: string, t: string)
    requires Stripped(v) && AllSpace(t)
    ensures Strip(v + t) == v
  {
    if v == [] {
      assert v + t == t + "";
      LeadingSpaces(t, "");
    } else {
      LeadingSpaces("", v + t);
      assert "" + (v + t) == v + t;
      assert (v + t)[0..] == v + t;
      TrailingSpaces(v, t);
      assert (v + t)[..|v|] == v;
    }
  }

  /** A string `strip()` empties is whitespace only. */
  lemma StripEmpty(s: string)
    requires Strip(s) == ""
    ensures AllSpace(s)
  {
    var i := LeadingSpace(s);
    if i < |s| {
      assert false;
    }
    assert s[..i] == s;
  }

  lemma {:induction false} SplitNoSep(s: string, sep: char)
    requires sep !in s
    ensures Split(s, sep) == [s]
  {
    if s != [] {
      assert s[1..] == s[1..];
      SplitNoSep(s[1..], sep);
      assert [s[0]] + s[1..] == s;
    }
  }

  lemma {:induction false} SplitAfterPiece(a: string, b: string, sep: char)
    requires sep !in a
    ensures Split(a + [sep] + b, sep) == [a] + Split(b, sep)
  {
    var s := a + [sep] + b;
    if a == [] {
      assert s == [sep] + b && s[0] == sep && s[1..] == b;
    } else {
      assert s[0] == a[0] && s[1..] == a[1..] + [sep] + b;
      SplitAfterPiece(a[1..], b, sep);
      assert [a[0]] + a[1..] == a;
    }
  }

  /** Joining pieces free of the separator and splitting again gives the pieces back. */
  lemma {:induction false} SplitJoin(xs: seq<string>, sep: char)
    requires xs != []
    requires forall k :: 0 <= k < |xs| ==> sep !in xs[k]
    ensures Split(Join(xs, [sep]), sep) == xs
  {
    if |xs| == 1 {
      SplitNoSep(xs[0], sep);
    } else {
      SplitJoin(xs[1..], sep);
      SplitAfterPiece(xs[0], Join(xs[1..], [sep]), sep);
      assert [xs[0]] + xs[1..] == xs;
    }
  }

  /** Text written after a join belongs to its last piece. */
  lemma {:induction false} JoinThenText(xs: seq<string>, sep: string, t: string)
    requires xs != []
    ensures Join(xs, sep) + t == Join(xs[..|xs| - 1] + [xs[|xs| - 1] + t], sep)
  {
    var ys := xs[..|xs| - 1] + [xs[|xs| - 1] + t];
    if |xs| > 1 {
      JoinThenText(xs[1..], sep, t);
      assert ys[0] == xs[0];
      assert ys[1..] == xs[1..][..|xs[1..]| - 1] + [xs[1..][|xs[1..]| - 1] + t];
    }
  }

  /** `s.split()` ignores leading whitespace. */
  lemma {:induction false} SplitWsLStrip(s: string)
    ensures SplitWs(s) == SplitWs(LStrip(s))
    decreases |s|
  {
    if s != [] && IsSpace(s[0]) {
      assert LStrip(s) == LStrip(s[1..]);
      SplitWsLStrip(s[1..]);
    }
  }

  /** Two words any whitespace apart split back into those two words. */
  lemma SplitWsTwo(w1: string, gap: string, w2: string)
    requires w1 != [] && NoSpace(w1) && w2 != [] && NoSpace(w2)
    requires gap != [] && AllSpace(gap)
    ensures SplitWs(w1 + gap + w2) == [w1, w2]
  {
    assert gap[0] == (gap + w2)[0];
    SplitWsWord(w1, gap + w2);
    SplitWsLStrip(gap + w2);
    LStripSpaces(gap, w2);
    SplitWsWord(w2, "");
    assert w2 + "" == w2;
    assert w1 + gap + w2 == w1 + (gap + w2);
  }
}
