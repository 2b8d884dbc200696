/** `format_Card`: the display form of a card number printed on the card.
    Everything but ASCII letters, ASCII digits and whitespace is removed,
    then the text is split on whitespace and the pieces are joined with
    single spaces. */
module CardFormat {
  import opened Text

  /** What the class `[a-zA-Z0-9\s]` accepts. */
  predicate IsCardChar(c: char) { IsAsciiAlnum(c) || IsSpace(c) }

  /** The display form: ASCII letters and digits in groups separated by
      single spaces, with no space at either end. */
  predicate IsFormatted(s: string) {
    && (forall k :: 0 <= k < |s| ==> IsAsciiAlnum(s[k]) || s[k] == ' ')
    && (s != [] ==> s[0] != ' ' && s[|s| - 1] != ' ')
    && (forall k :: 0 <= k < |s| - 1 && s[k] == ' ' ==> s[k + 1] != ' ')
  }

  /** Non-empty words of ASCII letters and digits only. */
  predicate AlnumWords(ws: seq<string>) {
    forall i :: 0 <= i < |ws| ==> ws[i] != [] && forall k :: 0 <= k < |ws[i]| ==> IsAsciiAlnum(ws[i][k])
  }

  /** `format_Card(card)`. The result is in display form, and its
      non-space characters are exactly the ASCII letters and digits of the
      input, in their order. */
  function FormatCard(card: string): (r: string)
    ensures IsFormatted(r)
    ensures Filter(NotSpace, r) == Filter(IsAsciiAlnum, card)
  {
    var kept := Filter(IsCardChar, card);
    var words := Split(kept);
    SplitInherits(IsCardChar, kept);
    assert AlnumWords(words);
    JoinIsFormatted(words);
    JoinKeepsWords(words);
    SplitConcat(kept);
    KeepThenDropSpaces(card);
    JoinWithSpace(words)
  }

  lemma {:induction false} JoinNonEmpty(ws: seq<string>)
    requires AlnumWords(ws) && ws != []
    ensures JoinWithSpace(ws) != [] && JoinWithSpace(ws)[0] == ws[0][0]
  {
  }

  /** Joining non-empty alphanumeric words with single spaces gives the
      display form. */
  lemma {:induction false} JoinIsFormatted(ws: seq<string>)
    requires AlnumWords(ws)
    ensures IsFormatted(JoinWithSpace(ws))
  {
    if |ws| > 1 {
      var w, rest := ws[0], JoinWithSpace(ws[1..]);
      assert AlnumWords(ws[1..]);
      JoinIsFormatted(ws[1..]);
      JoinNonEmpty(ws[1..]);
      var s := w + " " + rest;
      assert s == JoinWithSpace(ws);
      forall k | 0 <= k < |s| ensures IsAsciiAlnum(s[k]) || s[k] == ' ' {
        if k > |w| { assert s[k] == rest[k - |w| - 1]; }
      }
      forall k | 0 <= k < |s| - 1 && s[k] == ' ' ensures s[k + 1] != ' ' {
        if k > |w| {
          assert s[k] == rest[k - |w| - 1] && s[k + 1] == rest[k - |w|];
        }
      }
      assert s[|s| - 1] == rest[|rest| - 1];
    }
  }

  /** Joining with spaces adds nothing but spaces. */
  lemma {:induction false} JoinKeepsWords(ws: seq<string>)
    requires AlnumWords(ws)
    ensures Filter(NotSpace, JoinWithSpace(ws)) == Concat(ws)
  {
    if |ws| == 1 {
      var w := ws[0];
      assert forall k :: 0 <= k < |w| ==> NotSpace(w[k]);
      FilterKeepsAll(NotSpace, w);
      assert ws[1..] == [];
      assert Concat(ws) == w + [];
    } else if |ws| > 1 {
      var w, rest := ws[0], ws[1..];
      assert forall k :: 0 <= k < |w| ==> NotSpace(w[k]);
      FilterKeepsAll(NotSpace, w);
      assert AlnumWords(rest);
      JoinKeepsWords(rest);
      var j := JoinWithSpace(rest);
      assert JoinWithSpace(ws) == (w + " ") + j;
      FilterAppend(NotSpace, w + " ", j);
      FilterAppend(NotSpace, w, " ");
      assert Filter(NotSpace, " ") == [];
      assert Filter(NotSpace, w + " ") == w;
      assert Filter(NotSpace, JoinWithSpace(ws)) == w + Concat(rest);
      assert Concat(ws) == w + Concat(rest);
    }
  }

  /** Removing every character outside `[a-zA-Z0-9\s]` and then every
      whitespace character keeps exactly the ASCII letters and digits. */
  lemma {:induction false} KeepThenDropSpaces(s: string)
    ensures Filter(NotSpace, Filter(IsCardChar, s)) == Filter(IsAsciiAlnum, s)
  {
    if s != [] {
      KeepThenDropSpaces(s[1..]);
      var head := if IsCardChar(s[0]) then [s[0]] else [];
      FilterAppend(NotSpace, head, Filter(IsCardChar, s[1..]));
    }
  }

  /** In display form, a word that does not reach the end is followed by
      exactly one space and then by more text in display form. */
  lemma AfterFormattedWord(s: string, w: string)
    requires IsFormatted(s) && w == LeadingWord(s) && |w| < |s|
    ensures |w| + 1 < |s| && s[|w|] == ' ' && s[|w| + 1] != ' '
    ensures IsFormatted(s[|w| + 1..])
  {
    assert IsSpace(s[|w|]);
    assert IsAsciiAlnum(s[|w|]) || s[|w|] == ' ';
    assert s[|w|] == ' ';
    var tail := s[|w| + 1..];
    forall k | 0 <= k < |tail| ensures tail[k] == s[|w| + 1 + k] {}
  }

  /** A string in display form is split and re-joined into itself. */
  lemma {:induction false} JoinSplitFormatted(s: string)
    requires IsFormatted(s)
    ensures JoinWithSpace(Split(s)) == s
    decreases |s|
  {
    if s != [] {
      assert !IsSpace(s[0]) by {
        assert IsAsciiAlnum(s[0]);
      }
      var w := LeadingWord(s);
      var rest := s[|w|..];
      assert Split(s) == [w] + Split(rest);
      if rest == [] {
        assert s == w;
      } else {
        AfterFormattedWord(s, w);
        var tail := rest[1..];
        assert tail == s[|w| + 1..];
        assert IsSpace(rest[0]);
        assert Split(rest) == Split(tail);
        assert !IsSpace(tail[0]) by {
          assert IsAsciiAlnum(tail[0]);
        }
        assert Split(tail) != [];
        JoinSplitFormatted(tail);
        assert s == w + " " + tail;
      }
    }
  }

  /** A string already in display form is left unchanged. */
  lemma FormatCardKeepsFormatted(s: string)
    requires IsFormatted(s)
    ensures FormatCard(s) == s
  {
    FilterKeepsAll(IsCardChar, s);
    JoinSplitFormatted(s);
  }

  /** Formatting leaves a string unchanged exactly when it is already in
      display form. */
  lemma FormatCardUnchangedIff(s: string)
    ensures FormatCard(s) == s <==> IsFormatted(s)
  {
    if IsFormatted(s) {
      FormatCardKeepsFormatted(s);
    }
  }

  /** Where the single spaces go: alphanumeric words separated by
      whitespace runs of any length, with any whitespace before the first
      word and after the last, format to the words joined by one space
      each. */
  lemma FormatCardJoinsRuns(before: string, ws: seq<string>, seps: seq<string>)
    requires AllSpace(before) && AlnumWords(ws) && SpacedWords(ws, seps)
    ensures FormatCard(before + Interleave(ws, seps)) == JoinWithSpace(ws)
  {
    var body := Interleave(ws, seps);
    var s := before + body;
    InterleaveHas(IsCardChar, ws, seps);
    forall k | 0 <= k < |s| ensures IsCardChar(s[k]) {
      if k >= |before| {
        assert s[k] == body[k - |before|];
      }
    }
    FilterKeepsAll(IsCardChar, s);
    SplitSpaced(before, ws, seps);
  }

  /** Formatting sees only the characters it keeps: removing the others
      first changes nothing. */
  lemma FormatCardOfKept(s: string)
    ensures FormatCard(s) == FormatCard(Filter(IsCardChar, s))
  {
    var kept := Filter(IsCardChar, s);
    FilterKeepsAll(IsCardChar, kept);
  }

  /** A removed character does not separate words: its neighbours are
      joined as if it were not there, so "STE-12345" formats like
      "STE12345". */
  lemma RemovedCharJoinsNeighbours(a: string, c: char, b: string)
    requires !IsCardChar(c)
    ensures FormatCard(a + [c] + b) == FormatCard(a + b)
  {
    FilterAppend(IsCardChar, a + [c], b);
    FilterAppend(IsCardChar, a, [c]);
    FilterAppend(IsCardChar, a, b);
    assert [c][1..] == [];
    assert Filter(IsCardChar, [c]) == [];
    assert Filter(IsCardChar, a + [c] + b) == Filter(IsCardChar, a + b);
  }

  /** The result for any input: once the removed characters are gone, the
      kept text is alphanumeric words separated by whitespace runs, and
      the result is those words joined by one space each. */
  lemma FormatCardOfAnyInput(s: string, before: string, ws: seq<string>, seps: seq<string>)
    requires AllSpace(before) && AlnumWords(ws) && SpacedWords(ws, seps)
    requires Filter(IsCardChar, s) == before + Interleave(ws, seps)
    ensures FormatCard(s) == JoinWithSpace(ws)
  {
    FormatCardOfKept(s);
    FormatCardJoinsRuns(before, ws, seps);
  }

  /** Formatting twice is formatting once. */
  lemma FormatCardIdempotent(s: string)
    ensures FormatCard(FormatCard(s)) == FormatCard(s)
  {
    FormatCardKeepsFormatted(FormatCard(s));
  }
}
