/** File-name helpers of the card generator: `sanitize_filename`, which
    turns a person's name or card number into a safe piece of an output file
    name, and `allowed_file`, which decides from its extension whether an
    upload is a spreadsheet the generator accepts. */
module Names {
  import opened Wrappers
  import opened Text

  /** Output names are cut to this many characters. */
  const MaxNameLength: nat := 100

  /** The characters removed from names: backslash, slash, asterisk,
      question mark, colon, double quote, angle brackets, pipe, newline. */
  predicate IsForbidden(c: char) {
    c in "\\/*?:\"<>|\n"
  }

  predicate IsKept(c: char) { !IsForbidden(c) }

  /** `name.replace(' ', '_')`. */
  function SpacesToUnderscores(s: string): string {
    seq(|s|, k requires 0 <= k < |s| => if s[k] == ' ' then '_' else s[k])
  }

  /** A name that sanitizing leaves alone: short enough, with no space and no
      forbidden character. */
  predicate IsSafeName(s: string) {
    |s| <= MaxNameLength && forall k :: 0 <= k < |s| ==> s[k] != ' ' && !IsForbidden(s[k])
  }

  /** `sanitize_filename(name)`: spaces become underscores, forbidden
      characters are removed, and the result is cut to 100 characters. */
  function SanitizeFilename(name: string): (r: string)
    ensures IsSafeName(r)
  {
    var spaced := SpacesToUnderscores(name);
    var cleaned := Filter(IsKept, spaced);
    assert forall k :: 0 <= k < |cleaned| ==> cleaned[k] != ' ' by {
      forall k | 0 <= k < |cleaned| ensures cleaned[k] != ' ' {
        assert cleaned[k] in spaced;
      }
    }
    if |cleaned| <= MaxNameLength then cleaned else cleaned[..MaxNameLength]
  }

  /** The same cleaning done in one pass over the name, character by
      character: a forbidden character is dropped, a space becomes '_',
      anything else is kept. */
  function CleanChars(s: string): string {
    if s == [] then []
    else (if IsForbidden(s[0]) then [] else [if s[0] == ' ' then '_' else s[0]]) + CleanChars(s[1..])
  }

  lemma {:induction false} ReplaceThenRemoveIsOnePass(s: string)
    ensures Filter(IsKept, SpacesToUnderscores(s)) == CleanChars(s)
  {
    if s != [] {
      var u := SpacesToUnderscores(s);
      assert u[1..] == SpacesToUnderscores(s[1..]);
      assert u[0] == if s[0] == ' ' then '_' else s[0];
      assert IsKept(u[0]) <==> !IsForbidden(s[0]) by {
        assert !IsForbidden(' ') && !IsForbidden('_');
      }
      ReplaceThenRemoveIsOnePass(s[1..]);
    }
  }

  /** Sanitizing is the one-pass cleaning cut to 100 characters: replacing
      spaces before removing forbidden characters loses nothing, since '_' is
      not forbidden. */
  lemma SanitizeIsCleanCharsCut(name: string)
    ensures var c := CleanChars(name);
            SanitizeFilename(name) == if |c| <= MaxNameLength then c else c[..MaxNameLength]
  {
    ReplaceThenRemoveIsOnePass(name);
  }

  /** A safe name is its own sanitization. */
  lemma SanitizeKeepsSafeName(s: string)
    requires IsSafeName(s)
    ensures SanitizeFilename(s) == s
  {
    assert SpacesToUnderscores(s) == s;
    FilterKeepsAll(IsKept, s);
  }

  /** A name is unchanged by sanitizing exactly when it is already safe. */
  lemma SanitizeUnchangedIff(s: string)
    ensures SanitizeFilename(s) == s <==> IsSafeName(s)
  {
    if IsSafeName(s) {
      SanitizeKeepsSafeName(s);
    }
  }

  /** Sanitizing twice is sanitizing once. */
  lemma SanitizeIdempotent(s: string)
    ensures SanitizeFilename(SanitizeFilename(s)) == SanitizeFilename(s)
  {
    SanitizeKeepsSafeName(SanitizeFilename(s));
  }

  /** Two safe names separated by a space sanitize to the two names joined
      by an underscore, as long as the result fits. */
  lemma SanitizeJoinsWithUnderscore(a: string, b: string)
    requires IsSafeName(a) && IsSafeName(b) && |a| + |b| < MaxNameLength
    ensures SanitizeFilename(a + " " + b) == a + "_" + b
  {
    var joined := a + "_" + b;
    assert SpacesToUnderscores(a + " " + b) == joined;
    assert IsSafeName(joined) by {
      forall k | 0 <= k < |joined| ensures joined[k] != ' ' && !IsForbidden(joined[k]) {
        if k < |a| {
          assert joined[k] == a[k];
        } else if k > |a| {
          assert joined[k] == b[k - |a| - 1];
        }
      }
    }
    FilterKeepsAll(IsKept, joined);
  }

  // ---------------------------------------------------------------------
  // allowed_file
  // ---------------------------------------------------------------------

  /** `f.rsplit('.', 1)[1]` when `'.' in f`: the text after the last dot. */
  function Extension(f: string): (e: Option<string>)
    ensures e.None? <==> '.' !in f
    ensures e.Some? ==> '.' !in e.value && |e.value| < |f| && f[|f| - |e.value| - 1] == '.'
                        && e.value == f[|f| - |e.value|..]
  {
    if f == [] then None
    else if f[|f| - 1] == '.' then Some([])
    else
      match Extension(f[..|f| - 1])
      case None => None
      case Some(e) => Some(e + [f[|f| - 1]])
  }

  /** The extension is the text after the last dot. */
  lemma {:induction false} ExtensionAt(f: string, k: nat)
    requires k < |f| && f[k] == '.' && '.' !in f[k + 1..]
    ensures Extension(f) == Some(f[k + 1..])
    decreases |f|
  {
    if k < |f| - 1 {
      var init, last := f[..|f| - 1], f[|f| - 1];
      assert last == f[k + 1..][|f| - k - 2];
      assert init[k + 1..] == f[k + 1..|f| - 1];
      ExtensionAt(init, k);
      assert f[k + 1..] == init[k + 1..] + [last];
    }
  }

  /** The extensions an upload may have, compared in lower case. */
  const SpreadsheetExtensions: set<string> := {"xlsx", "csv"}

  /** `allowed_file(f)`. */
  predicate AllowedFile(f: string) {
    var e := Extension(f);
    e.Some? && Lower(e.value) in SpreadsheetExtensions
  }

  /** An upload is accepted exactly when its name has a dot at some position
      `k` with no dot after it, and the text after position `k`, lower-cased,
      is `xlsx` or `csv`. A name without a dot is never accepted. */
  lemma AllowedFileByLastDot(f: string, k: nat)
    requires k < |f| && f[k] == '.' && '.' !in f[k + 1..]
    ensures AllowedFile(f) <==> Lower(f[k + 1..]) in SpreadsheetExtensions
  {
    ExtensionAt(f, k);
  }

  lemma AllowedFileNeedsDot(f: string)
    requires '.' !in f
    ensures !AllowedFile(f)
  {
  }

  /** Lower-casing the whole name first changes nothing: the extension test
      ignores case. */
  lemma ExtensionOfLower(f: string)
    ensures Extension(Lower(f)).None? <==> Extension(f).None?
    ensures Extension(f).Some? ==> Extension(Lower(f)).value == Lower(Extension(f).value)
  {
    var g := Lower(f);
    if '.' in f {
      var e := Extension(f).value;
      var k := |f| - |e| - 1;
      assert g[k] == '.';
      assert g[k + 1..] == Lower(e);
      assert '.' !in Lower(e) by {
        forall j | 0 <= j < |e| ensures Lower(e)[j] != '.' {
          assert e[j] != '.';
        }
      }
      ExtensionAt(g, k);
    } else {
      assert '.' !in g by {
        forall j | 0 <= j < |f| ensures g[j] != '.' {
          assert f[j] != '.';
        }
      }
    }
  }

  lemma LowerIdempotent(s: string)
    ensures Lower(Lower(s)) == Lower(s)
  {
  }

  lemma AllowedFileIgnoresCase(f: string)
    ensures AllowedFile(Lower(f)) <==> AllowedFile(f)
  {
    ExtensionOfLower(f);
    if Extension(f).Some? {
      LowerIdempotent(Extension(f).value);
    }
  }

  /** Only the last extension decides, in any case: whatever comes before
      the last dot (further dots included) is not looked at. */
  lemma AllowedFileByLastExtension(stem: string, ext: string)
    requires '.' !in ext
    ensures AllowedFile(stem + "." + ext) <==> Lower(ext) in SpreadsheetExtensions
  {
    var f := stem + "." + ext;
    assert f[|stem|] == '.';
    assert f[|stem| + 1..] == ext;
    AllowedFileByLastDot(f, |stem|);
  }

  /** A name that is only an extension is accepted, since the text before
      the dot is not looked at; the extension alone, without a dot, is not. */
  lemma AllowedFileBareExtension()
    ensures AllowedFile(".csv") && !AllowedFile("csv")
  {
    AllowedFileByLastDot(".csv", 0);
    assert ".csv"[1..] == "csv";
    assert Lower("csv") == "csv";
  }
}
