/** The Python string built-ins that the card generator relies on, as
    functions over `string` (a sequence of Unicode code points, as a Python
    `str` is): `str.isspace`, `str.strip`, ASCII `str.lower`, `str.split()`
    and `' '.join`, `str.endswith`, the decimal rendering of an `int` in an
    f-string, and `posixpath.join` / `posixpath.basename`. */
module Text {

  /** `c.isspace()` in Python: ASCII whitespace, the four ASCII information
      separators and the Unicode space characters. A `\s` in a `re` pattern
      over `str`, `str.split()` and `str.strip()` use this same set. */
  predicate IsSpace(c: char) {
    || c == ' '
    || ('\t' <= c <= '\r')
    || ('\U{1C}' <= c <= '\U{1F}')
    || c == '\U{85}' || c == '\U{A0}' || c == '\U{1680}'
    || ('\U{2000}' <= c <= '\U{200A}')
    || c == '\U{2028}' || c == '\U{2029}' || c == '\U{202F}'
    || c == '\U{205F}' || c == '\U{3000}'
  }

  predicate NotSpace(c: char) { !IsSpace(c) }

  predicate IsAsciiLetter(c: char) { 'a' <= c <= 'z' || 'A' <= c <= 'Z' }

  predicate IsAsciiDigit(c: char) { '0' <= c <= '9' }

  /** The class `[a-zA-Z0-9]` of a `re` pattern. */
  predicate IsAsciiAlnum(c: char) { IsAsciiLetter(c) || IsAsciiDigit(c) }

  // ---------------------------------------------------------------------
  // Filtering (what `re.sub` with a one-character class and '' does)
  // ---------------------------------------------------------------------

  /** The elements of `s` that satisfy `p`, in order. */
  function Filter<T>(p: T -> bool, s: seq<T>): (r: seq<T>)
    ensures |r| <= |s|
    ensures forall k :: 0 <= k < |r| ==> p(r[k]) && r[k] in s
  {
    if s == [] then [] else (if p(s[0]) then [s[0]] else []) + Filter(p, s[1..])
  }

  lemma {:induction false} FilterAppend<T>(p: T -> bool, a: seq<T>, b: seq<T>)
    ensures Filter(p, a + b) == Filter(p, a) + Filter(p, b)
  {
    if a == [] {
      assert a + b == b;
    } else {
      assert (a + b)[1..] == a[1..] + b;
      FilterAppend(p, a[1..], b);
    }
  }

  /** Filtering keeps a sequence whose every element passes unchanged. */
  lemma {:induction false} FilterKeepsAll<T>(p: T -> bool, s: seq<T>)
    requires forall k :: 0 <= k < |s| ==> p(s[k])
    ensures Filter(p, s) == s
  {
    if s != [] {
      FilterKeepsAll(p, s[1..]);
    }
  }

  // ---------------------------------------------------------------------
  // str.lower() on the ASCII letters, str.endswith
  // ---------------------------------------------------------------------

  function LowerChar(c: char): char {
    if 'A' <= c <= 'Z' then (c as int + 32) as char else c
  }

  function Lower(s: string): string {
    seq(|s|, k requires 0 <= k < |s| => LowerChar(s[k]))
  }

  predicate EndsWith(s: string, suffix: string) {
    |suffix| <= |s| && s[|s| - |suffix|..] == suffix
  }

  /** Lowercasing commutes with taking a suffix. */
  lemma LowerKeepsSuffix(s: string, suffix: string)
    requires EndsWith(s, suffix)
    ensures EndsWith(Lower(s), Lower(suffix))
  {
    var n := |s| - |suffix|;
    assert Lower(s)[n..] == Lower(suffix) by {
      forall k | 0 <= k < |suffix| ensures Lower(s)[n..][k] == Lower(suffix)[k] {
        assert s[n + k] == suffix[k];
      }
    }
  }

  // ---------------------------------------------------------------------
  // str.strip()
  // ---------------------------------------------------------------------

  /** `s.lstrip()`: the suffix of `s` left after removing leading whitespace. */
  function TrimStart(s: string): (r: string)
    ensures |r| <= |s| && r == s[|s| - |r|..]
    ensures forall k :: 0 <= k < |s| - |r| ==> IsSpace(s[k])
    ensures r == [] || !IsSpace(r[0])
  {
    if s != [] && IsSpace(s[0]) then TrimStart(s[1..]) else s
  }

  /** `s.rstrip()`: the prefix of `s` left after removing trailing whitespace. */
  function TrimEnd(s: string): (r: string)
    ensures |r| <= |s| && r == s[..|r|]
    ensures forall k :: |r| <= k < |s| ==> IsSpace(s[k])
    ensures r == [] || !IsSpace(r[|r| - 1])
  {
    if s != [] && IsSpace(s[|s| - 1]) then TrimEnd(s[..|s| - 1]) else s
  }

  /** `s.strip()`: a contiguous slice of `s` that neither starts nor ends
      with whitespace, everything cut away being whitespace. */
  function Strip(s: string): (r: string)
    ensures r == [] || (!IsSpace(r[0]) && !IsSpace(r[|r| - 1]))
    ensures Filter(NotSpace, r) == Filter(NotSpace, s)
  {
    var t := TrimStart(s);
    var r := TrimEnd(t);
    StripKeepsNonSpace(s, t, r);
    r
  }

  lemma StripKeepsNonSpace(s: string, t: string, r: string)
    requires t == TrimStart(s) && r == TrimEnd(t)
    ensures Filter(NotSpace, r) == Filter(NotSpace, s)
  {
    FilterSkipsPrefix(NotSpace, s, |s| - |t|);
    FilterSkipsSuffix(NotSpace, t, |r|);
  }

  /** A string of whitespace only. */
  predicate AllSpace(s: string) {
    forall k :: 0 <= k < |s| ==> IsSpace(s[k])
  }

  lemma {:induction false} TrimStartSkipsPad(pad: string, s: string)
    requires AllSpace(pad) && s != [] && !IsSpace(s[0])
    ensures TrimStart(pad + s) == s
    decreases |pad|
  {
    if pad == [] {
      assert pad + s == s;
    } else {
      assert (pad + s)[1..] == pad[1..] + s;
      assert (pad + s)[0] == pad[0];
      TrimStartSkipsPad(pad[1..], s);
    }
  }

  lemma {:induction false} TrimEndSkipsPad(s: string, pad: string)
    requires AllSpace(pad) && s != [] && !IsSpace(s[|s| - 1])
    ensures TrimEnd(s + pad) == s
    decreases |pad|
  {
    if pad == [] {
      assert s + pad == s;
    } else {
      var shorter := pad[..|pad| - 1];
      assert (s + pad)[..|s + pad| - 1] == s + shorter;
      assert (s + pad)[|s + pad| - 1] == pad[|pad| - 1];
      TrimEndSkipsPad(s, shorter);
    }
  }

  /** Stripping a word padded with whitespace on both sides gives the word
      back. */
  lemma StripPadded(before: string, word: string, after: string)
    requires AllSpace(before) && AllSpace(after)
    requires word != [] && !IsSpace(word[0]) && !IsSpace(word[|word| - 1])
    ensures Strip(before + word + after) == word
  {
    assert before + word + after == before + (word + after);
    TrimStartSkipsPad(before, word + after);
    TrimEndSkipsPad(word, after);
  }

  /** Leading elements that fail the test do not change what a filter keeps. */
  lemma {:induction false} FilterSkipsPrefix<T>(p: T -> bool, s: seq<T>, i: nat)
    requires i <= |s|
    requires forall k :: 0 <= k < i ==> !p(s[k])
    ensures Filter(p, s) == Filter(p, s[i..])
  {
    if i > 0 {
      assert s[1..][i - 1..] == s[i..];
      FilterSkipsPrefix(p, s[1..], i - 1);
    }
  }

  /** Trailing elements that fail the test do not change what a filter keeps. */
  lemma {:induction false} FilterSkipsSuffix<T>(p: T -> bool, s: seq<T>, j: nat)
    requires j <= |s|
    requires forall k :: j <= k < |s| ==> !p(s[k])
    ensures Filter(p, s) == Filter(p, s[..j])
    decreases |s|
  {
    if j == |s| {
      assert s[..j] == s;
    } else if j == 0 {
      FilterDropsAll(p, s);
    } else {
      var t := s[1..];
      assert forall k :: j - 1 <= k < |t| ==> !p(t[k]) by {
        forall k | j - 1 <= k < |t| ensures !p(t[k]) {
          assert t[k] == s[k + 1];
        }
      }
      FilterSkipsSuffix(p, t, j - 1);
      assert s[..j][1..] == t[..j - 1];
      assert s[..j][0] == s[0];
    }
  }

  /** Filtering empties a sequence none of whose elements passes. */
  lemma {:induction false} FilterDropsAll<T>(p: T -> bool, s: seq<T>)
    requires forall k :: 0 <= k < |s| ==> !p(s[k])
    ensures Filter(p, s) == []
  {
    if s != [] {
      FilterDropsAll(p, s[1..]);
    }
  }

  // ---------------------------------------------------------------------
  // str.split() and ' '.join(...)
  // ---------------------------------------------------------------------

  /** The longest prefix of `s` that holds no whitespace. */
  function LeadingWord(s: string): (w: string)
    ensures |w| <= |s| && w == s[..|w|]
    ensures forall k :: 0 <= k < |w| ==> !IsSpace(w[k])
    ensures |w| == |s| || IsSpace(s[|w|])
  {
    if s == [] || IsSpace(s[0]) then [] else [s[0]] + LeadingWord(s[1..])
  }

  /** `s.split()`: the maximal runs of non-whitespace characters, in order;
      no word is empty and no word holds whitespace. */
  function Split(s: string): (ws: seq<string>)
    ensures forall i :: 0 <= i < |ws| ==>
              ws[i] != [] && forall k :: 0 <= k < |ws[i]| ==> !IsSpace(ws[i][k])
    decreases |s|
  {
    if s == [] then []
    else if IsSpace(s[0]) then Split(s[1..])
    else
      var w := LeadingWord(s);
      [w] + Split(s[|w|..])
  }

  /** `' '.join(ws)`. */
  function JoinWithSpace(ws: seq<string>): string {
    if |ws| == 0 then []
    else if |ws| == 1 then ws[0]
    else ws[0] + " " + JoinWithSpace(ws[1..])
  }

  /** `''.join(ws)`. */
  function Concat(ws: seq<string>): string {
    if ws == [] then [] else ws[0] + Concat(ws[1..])
  }

  /** Splitting loses exactly the whitespace: the words, put end to end,
      are the non-whitespace characters of the input in order. */
  lemma {:induction false} SplitConcat(s: string)
    ensures Concat(Split(s)) == Filter(NotSpace, s)
    decreases |s|
  {
    if s == [] {
    } else if IsSpace(s[0]) {
      SplitConcat(s[1..]);
    } else {
      var w := LeadingWord(s);
      var rest := s[|w|..];
      assert s == w + rest;
      SplitConcat(rest);
      FilterAppend(NotSpace, w, rest);
      FilterKeepsAll(NotSpace, w);
      assert Split(s) == [w] + Split(rest);
      assert Concat(Split(s)) == w + Concat(Split(rest));
    }
  }

  /** A property that every character of `s` has is had by every character
      of every word of `s.split()`. */
  lemma {:induction false} SplitInherits(p: char -> bool, s: string)
    requires forall k :: 0 <= k < |s| ==> p(s[k])
    ensures forall i, k :: 0 <= i < |Split(s)| && 0 <= k < |Split(s)[i]| ==> p(Split(s)[i][k])
    decreases |s|
  {
    if s == [] {
    } else if IsSpace(s[0]) {
      SplitInherits(p, s[1..]);
    } else {
      var w := LeadingWord(s);
      SplitInherits(p, s[|w|..]);
      assert Split(s) == [w] + Split(s[|w|..]);
      forall i, k | 0 <= i < |Split(s)| && 0 <= k < |Split(s)[i]| ensures p(Split(s)[i][k]) {
        if i == 0 {
          assert Split(s)[i][k] == s[k];
        } else {
          assert Split(s)[i] == Split(s[|w|..])[i - 1];
        }
      }
    }
  }

  /** A word without whitespace, followed by nothing or by whitespace, is
      the leading word. */
  lemma {:induction false} LeadingWordBeforeSpace(w: string, rest: string)
    requires forall k :: 0 <= k < |w| ==> !IsSpace(w[k])
    requires rest == [] || IsSpace(rest[0])
    ensures LeadingWord(w + rest) == w
    decreases |w|
  {
    if w == [] {
      assert w + rest == rest;
    } else {
      assert (w + rest)[1..] == w[1..] + rest;
      LeadingWordBeforeSpace(w[1..], rest);
      assert w == [w[0]] + w[1..];
    }
  }

  /** Whitespace in front of the text adds no word. */
  lemma {:induction false} SplitSkipsPad(pad: string, s: string)
    requires AllSpace(pad)
    ensures Split(pad + s) == Split(s)
    decreases |pad|
  {
    if pad == [] {
      assert pad + s == s;
    } else {
      assert (pad + s)[1..] == pad[1..] + s;
      SplitSkipsPad(pad[1..], s);
    }
  }

  /** `split()` breaks at a whitespace run of any length: a word followed
      by whitespace (or ending the text) is the first word, and the words
      after it are those of the rest. */
  lemma SplitAtRun(w: string, sep: string, rest: string)
    requires w != [] && forall k :: 0 <= k < |w| ==> !IsSpace(w[k])
    requires AllSpace(sep) && (sep != [] || rest == [])
    ensures Split(w + sep + rest) == [w] + Split(rest)
  {
    var tail := sep + rest;
    var s := w + tail;
    assert w + sep + rest == s;
    assert s[0] == w[0];
    LeadingWordBeforeSpace(w, tail);
    assert s[|w|..] == tail;
    SplitSkipsPad(sep, rest);
  }

  /** `ws[0] + seps[0] + ws[1] + seps[1] + ...`: every word followed by the
      whitespace that comes after it. */
  function Interleave(ws: seq<string>, seps: seq<string>): string
    requires |seps| == |ws|
  {
    if ws == [] then [] else ws[0] + seps[0] + Interleave(ws[1..], seps[1..])
  }

  /** Non-empty words without whitespace, each followed by a run of
      whitespace; only the run after the last word may be empty. */
  predicate SpacedWords(ws: seq<string>, seps: seq<string>) {
    && |seps| == |ws|
    && (forall i :: 0 <= i < |ws| ==> ws[i] != [] && forall k :: 0 <= k < |ws[i]| ==> !IsSpace(ws[i][k]))
    && (forall i :: 0 <= i < |seps| ==> AllSpace(seps[i]))
    && (forall i :: 0 <= i < |seps| - 1 ==> seps[i] != [])
  }

  /** `split()` gives back exactly the words, however long the whitespace
      runs between them and around them are. */
  lemma {:induction false} SplitSpaced(before: string, ws: seq<string>, seps: seq<string>)
    requires AllSpace(before) && SpacedWords(ws, seps)
    ensures Split(before + Interleave(ws, seps)) == ws
    decreases |ws|
  {
    SplitSkipsPad(before, Interleave(ws, seps));
    if ws != [] {
      var rest := Interleave(ws[1..], seps[1..]);
      assert SpacedWords(ws[1..], seps[1..]);
      assert AllSpace([]);
      SplitSpaced([], ws[1..], seps[1..]);
      assert [] + rest == rest;
      if |ws| == 1 {
        assert ws[1..] == [];
        assert rest == [];
      }
      SplitAtRun(ws[0], seps[0], rest);
      assert ws == [ws[0]] + ws[1..];
    }
  }

  /** A property of every character of the words and of the runs is one of
      every character of the interleaved text. */
  lemma {:induction false} InterleaveHas(p: char -> bool, ws: seq<string>, seps: seq<string>)
    requires |seps| == |ws|
    requires forall i, k :: 0 <= i < |ws| && 0 <= k < |ws[i]| ==> p(ws[i][k])
    requires forall i, k :: 0 <= i < |seps| && 0 <= k < |seps[i]| ==> p(seps[i][k])
    ensures forall k :: 0 <= k < |Interleave(ws, seps)| ==> p(Interleave(ws, seps)[k])
    decreases |ws|
  {
    if ws != [] {
      var w, sep := ws[0], seps[0];
      var rest := Interleave(ws[1..], seps[1..]);
      InterleaveHas(p, ws[1..], seps[1..]);
      var s := Interleave(ws, seps);
      assert s == w + sep + rest;
      forall k | 0 <= k < |s| ensures p(s[k]) {
        if k < |w| {
          assert s[k] == ws[0][k];
        } else if k < |w| + |sep| {
          assert s[k] == seps[0][k - |w|];
        } else {
          assert s[k] == rest[k - |w| - |sep|];
        }
      }
    }
  }

  // ---------------------------------------------------------------------
  // f"{i}" for a non-negative int
  // ---------------------------------------------------------------------

  function DigitChar(d: nat): (c: char)
    requires d < 10
    ensures IsAsciiDigit(c) && c as int - '0' as int == d
  {
    ('0' as int + d) as char
  }

  /** The decimal digits of `n`, most significant first, without leading zeros. */
  function NatToString(n: nat): (s: string)
    ensures |s| >= 1 && forall k :: 0 <= k < |s| ==> IsAsciiDigit(s[k])
    ensures s[0] == '0' ==> n == 0
  {
    if n < 10 then [DigitChar(n)] else NatToString(n / 10) + [DigitChar(n % 10)]
  }

  /** The number a string of decimal digits denotes. */
  function DigitsValue(s: string): nat
    requires forall k :: 0 <= k < |s| ==> IsAsciiDigit(s[k])
  {
    if s == [] then 0
    else
      assert IsAsciiDigit(s[|s| - 1]);
      DigitsValue(s[..|s| - 1]) * 10 + (s[|s| - 1] as int - '0' as int)
  }

  lemma {:induction false} NatToStringRoundTrip(n: nat)
    ensures DigitsValue(NatToString(n)) == n
  {
    if n >= 10 {
      var s := NatToString(n);
      assert s[..|s| - 1] == NatToString(n / 10);
      NatToStringRoundTrip(n / 10);
    }
  }

  /** Distinct numbers print differently. */
  lemma NatToStringInjective(m: nat, n: nat)
    requires NatToString(m) == NatToString(n)
    ensures m == n
  {
    NatToStringRoundTrip(m);
    NatToStringRoundTrip(n);
  }

  // ---------------------------------------------------------------------
  // posixpath.join(a, b) and posixpath.basename(p)
  // ---------------------------------------------------------------------

  function JoinPath(a: string, b: string): string {
    if |b| > 0 && b[0] == '/' then b
    else if a == [] || a[|a| - 1] == '/' then a + b
    else a + "/" + b
  }

  /** What follows the last '/' of `p` (all of `p` if it has none). */
  function BaseName(p: string): (r: string)
    ensures '/' !in r && EndsWith(p, r)
    ensures |r| < |p| ==> p[|p| - |r| - 1] == '/'
  {
    if p == [] || p[|p| - 1] == '/' then []
    else BaseName(p[..|p| - 1]) + [p[|p| - 1]]
  }

  lemma {:induction false} BaseNameAfterSlash(dir: string, b: string)
    requires dir == [] || dir[|dir| - 1] == '/'
    requires '/' !in b
    ensures BaseName(dir + b) == b
    decreases |b|
  {
    if b != [] {
      var p := dir + b;
      assert p[..|p| - 1] == dir + b[..|b| - 1];
      assert p[|p| - 1] == b[|b| - 1];
      BaseNameAfterSlash(dir, b[..|b| - 1]);
    } else {
      assert dir + b == dir;
    }
  }

  /** A file name joined onto a folder is the base name of the joined path. */
  lemma BaseNameOfJoin(folder: string, name: string)
    requires name != [] && '/' !in name
    ensures BaseName(JoinPath(folder, name)) == name
  {
    if folder == [] || folder[|folder| - 1] == '/' {
      BaseNameAfterSlash(folder, name);
    } else {
      assert folder + "/" + name == (folder + "/") + name;
      BaseNameAfterSlash(folder + "/", name);
    }
  }
}
