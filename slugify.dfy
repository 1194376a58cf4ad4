/** slugify of strman.Strman. */
module Slugify {
  import opened Wrappers
  import opened JString
  import opened Ascii
  import Strman
  import opened Transliterate

  /**
   * A slug: only word chars and '-', never two '-' in a row, and no '-' at
   * the end. A leading '-' is possible: "&foo" becomes "-and-foo".
   */
  predicate IsSlug(s: string) {
    && (forall i | 0 <= i < |s| :: IsWordChar(s[i]) || s[i] == '-')
    && (forall i | 0 <= i < |s| - 1 :: !(s[i] == '-' && s[i + 1] == '-'))
    && (s == [] || s[|s| - 1] != '-')
  }

  /**
   * The last steps of slugify on the transliterated text: '&' spelled "-and-",
   * then the words at `\W+` joined with '-'. Whatever the text, a slug.
   */
  function Slugged(text: string): (r: string)
    ensures IsSlug(r)
  {
    var words := Split(Replace(text, "&", "-and-"), NonWord);
    SplitJoinIsSlug(Replace(text, "&", "-and-"));
    Join(words, "-")
  }

  /** What slugify returns for a non-null value: trimmed, lower-cased, whitespace collapsed, transliterated, slugged. */
  function Slugified(value: string): string {
    Slugged(Transliterated(Strman.CollapseWhitespace(ToLower(Trim(value)))))
  }

  /** slugify(value): a null value is refused; otherwise the result is a slug. */
  function Slugify(value: Option<string>): (r: Result<string>)
    ensures value.None? ==> r == Failure(IllegalArgument(Strman.NullValueMessage))
    ensures value.Some? ==> r.Success? && IsSlug(r.value)
  {
    var v :- Strman.Validate(value);
    Success(Slugified(v))
  }

  /** Joining words with '-', where every word after the first is nonempty, gives a slug. */
  lemma {:induction false} JoinWordsIsSlug(ws: seq<string>)
    requires forall p | p in ws :: forall i | 0 <= i < |p| :: IsWordChar(p[i])
    requires forall i | 0 < i < |ws| :: ws[i] != []
    ensures IsSlug(Join(ws, "-"))
    ensures |ws| > 0 && ws[0] != [] ==> |Join(ws, "-")| > 0 && IsWordChar(Join(ws, "-")[0])
    decreases |ws|
  {
    if |ws| == 1 {
      assert ws[0] in ws;
    } else if |ws| > 1 {
      var first, rest := ws[0], Join(ws[1..], "-");
      assert first in ws;
      assert forall p | p in ws[1..] :: p in ws;
      JoinWordsIsSlug(ws[1..]);
      assert ws[1..][0] == ws[1] != [];
      assert Join(ws, "-") == first + "-" + rest;
      SlugGlue(first, rest);
    }
  }

  /** A word, a '-' and a slug that starts with a word char form a slug. */
  lemma SlugGlue(first: string, rest: string)
    requires forall i | 0 <= i < |first| :: IsWordChar(first[i])
    requires IsSlug(rest) && |rest| > 0 && IsWordChar(rest[0])
    ensures IsSlug(first + "-" + rest)
    ensures first != [] ==> IsWordChar((first + "-" + rest)[0])
  {
    var s := first + "-" + rest;
    forall i | 0 <= i < |s|
      ensures IsWordChar(s[i]) || s[i] == '-'
    {
      if i < |first| {
        assert s[i] == first[i];
      } else if i > |first| {
        assert s[i] == rest[i - |first| - 1];
      }
    }
    forall i | 0 <= i < |s| - 1
      ensures !(s[i] == '-' && s[i + 1] == '-')
    {
      if i < |first| {
        assert s[i] == first[i];
      } else if i == |first| {
        assert s[i + 1] == rest[0];
      } else {
        assert s[i] == rest[i - |first| - 1] && s[i + 1] == rest[i - |first|];
      }
    }
    assert s[|s| - 1] == rest[|rest| - 1];
    if first != [] {
      assert s[0] == first[0];
    }
  }

  /** The words of any text at `\W+`, joined with '-', form a slug. */
  lemma SplitJoinIsSlug(s: string)
    ensures IsSlug(Join(Split(s, NonWord), "-"))
  {
    var ws := Split(s, NonWord);
    forall p | p in ws
      ensures forall i | 0 <= i < |p| :: IsWordChar(p[i])
    {
      forall i | 0 <= i < |p|
        ensures IsWordChar(p[i])
      {
        assert !IsDelim(NonWord, p[i]);
      }
    }
    JoinWordsIsSlug(ws);
  }

  // ------------------------------------------------------------ examples

  /** No char of `s` is whitespace. */
  predicate NoBlank(s: string) {
    forall i | 0 <= i < |s| :: !IsSpace(s[i])
  }

  /** Every char of `s` is a word char. */
  predicate WordText(s: string) {
    forall i | 0 <= i < |s| :: IsWordChar(s[i])
  }

  /** Lower-casing leaves a string without ASCII capitals as it is. */
  lemma LowerUnchanged(s: string)
    requires forall i | 0 <= i < |s| :: !IsUpper(s[i])
    ensures ToLower(s) == s
  {
  }

  /** A blank-free string has nothing to collapse. */
  lemma CollapseNoBlank(s: string)
    requires NoBlank(s)
    ensures Strman.CollapseRuns(s) == s
  {
    Strman.CollapseRunsFixed(s);
  }

  /** A leading run of ' ' collapses to one space, whatever its length. */
  lemma SpaceGap(gap: string, b: string)
    requires |gap| > 0 && forall i | 0 <= i < |gap| :: gap[i] == ' '
    requires b == [] || !IsSpace(b[0])
    ensures Strman.CollapseRuns(gap + b) == " " + Strman.CollapseRuns(b)
  {
    Strman.CollapseRunsLeadingGap(gap, b);
    assert |gap| == 1 ==> gap == " ";
  }

  /** A word, a run of delimiters, and a rest starting outside the delimiters: the word is the first piece. */
  lemma PiecesGap(w: string, gap: string, rest: string, d: Delimiter)
    requires forall i | 0 <= i < |w| :: !IsDelim(d, w[i])
    requires |gap| > 0 && forall i | 0 <= i < |gap| :: IsDelim(d, gap[i])
    requires rest == [] || !IsDelim(d, rest[0])
    ensures Pieces(w + gap + rest, d) == [w] + Pieces(rest, d)
  {
    var s := w + gap + rest;
    assert forall k | 0 <= k < |w| :: s[k] == w[k];
    assert s[|w|] == gap[0];
    assert FirstDelim(s, d, 0) == |w|;
    assert forall k | |w| <= k < |w| + |gap| :: s[k] == gap[k - |w|];
    assert |w| + |gap| < |s| ==> s[|w| + |gap|] == rest[0];
    assert RunEnd(s, d, |w|) == |w| + |gap|;
    assert s[..|w|] == w && s[|w| + |gap|..] == rest;
  }

  /** A word without delimiters is a single piece. */
  lemma PiecesWhole(w: string, d: Delimiter)
    requires forall i | 0 <= i < |w| :: !IsDelim(d, w[i])
    ensures Pieces(w, d) == [w]
  {
    assert FirstDelim(w, d, 0) == |w|;
  }

  /** Two nonempty words around a run of delimiters split into those two words. */
  lemma SplitTwo(a: string, gap: string, b: string, d: Delimiter)
    requires |a| > 0 && forall i | 0 <= i < |a| :: !IsDelim(d, a[i])
    requires |b| > 0 && forall i | 0 <= i < |b| :: !IsDelim(d, b[i])
    requires |gap| > 0 && forall i | 0 <= i < |gap| :: IsDelim(d, gap[i])
    ensures Split(a + gap + b, d) == [a, b]
  {
    PiecesGap(a, gap, b, d);
    PiecesWhole(b, d);
    assert Pieces(a + gap + b, d) == [a] + [b] == [a, b];
    assert DropTrailingEmpty([a, b]) == [a, b];
  }

  /** Three nonempty words with runs of delimiters between them split into those three words. */
  lemma SplitThree(s: string, a: string, g1: string, b: string, g2: string, c: string, d: Delimiter)
    requires s == a + g1 + (b + g2 + c)
    requires |a| > 0 && forall i | 0 <= i < |a| :: !IsDelim(d, a[i])
    requires |b| > 0 && forall i | 0 <= i < |b| :: !IsDelim(d, b[i])
    requires |c| > 0 && forall i | 0 <= i < |c| :: !IsDelim(d, c[i])
    requires |g1| > 0 && forall i | 0 <= i < |g1| :: IsDelim(d, g1[i])
    requires |g2| > 0 && forall i | 0 <= i < |g2| :: IsDelim(d, g2[i])
    ensures Split(s, d) == [a, b, c]
  {
    var rest := b + g2 + c;
    assert rest[0] == b[0];
    PiecesGap(a, g1, rest, d);
    assert c[0] == c[0];
    PiecesGap(b, g2, c, d);
    PiecesWhole(c, d);
    assert Pieces(a + g1 + rest, d) == [a] + ([b] + [c]) == [a, b, c];
    assert DropTrailingEmpty([a, b, c]) == [a, b, c];
  }

  /** A text without '&' is left alone by the first step of slugging. */
  lemma ReplaceNoAmpersand(s: string)
    requires forall i | 0 <= i < |s| :: s[i] != '&'
    ensures Replace(s, "&", "-and-") == s
  {
    FirstCharAbsent(s, "&");
    ReplaceWithoutTarget(s, "&", "-and-");
  }

  /** A single '&' is spelled "-and-". */
  lemma ReplaceOneAmpersand(a: string, b: string)
    requires forall i | 0 <= i < |a| :: a[i] != '&'
    requires forall i | 0 <= i < |b| :: b[i] != '&'
    ensures Replace(a + "&" + b, "&", "-and-") == a + "-and-" + b
  {
    var s := a + "&" + b;
    AmpersandFirstAt(a, b);
    ReplaceAtFirst(s, "&", "-and-", |a|);
    ReplaceNoAmpersand(b);
  }

  /** In a + "&" + b with no '&' in a, the first '&' sits right after a. */
  lemma AmpersandFirstAt(a: string, b: string)
    requires forall i | 0 <= i < |a| :: a[i] != '&'
    ensures OccursAt(a + "&" + b, "&", |a|)
    ensures forall k | 0 <= k < |a| :: !OccursAt(a + "&" + b, "&", k)
    ensures (a + "&" + b)[..|a|] == a && (a + "&" + b)[|a| + 1..] == b
  {
    var s := a + "&" + b;
    forall k | 0 <= k < |a|
      ensures !OccursAt(s, "&", k)
    {
      assert s[k] == a[k];
      assert s[k..k + 1] == [s[k]];
    }
    assert s[|a|..|a| + 1] == "&";
  }

  /** Slugging is the join of the words of the text with '&' spelled out. */
  lemma SluggedByWords(text: string, words: seq<string>)
    requires Split(Replace(text, "&", "-and-"), NonWord) == words
    ensures Slugged(text) == Join(words, "-")
  {
  }

  /** Two words and a gap of non-word chars other than '&' slug to the words joined by '-'. */
  lemma SluggedTwoWords(s: string, a: string, gap: string, b: string, r: string)
    requires s == a + gap + b && r == a + "-" + b
    requires |a| > 0 && WordText(a) && |b| > 0 && WordText(b)
    requires |gap| > 0 && forall i | 0 <= i < |gap| :: !IsWordChar(gap[i]) && gap[i] != '&'
    ensures Slugged(s) == r
  {
    forall i | 0 <= i < |s|
      ensures s[i] != '&'
    {
      if i < |a| {
        assert s[i] == a[i];
      } else if i < |a| + |gap| {
        assert s[i] == gap[i - |a|];
      } else {
        assert s[i] == b[i - |a| - |gap|];
      }
    }
    ReplaceNoAmpersand(s);
    SplitTwo(a, gap, b, NonWord);
    SluggedByWords(s, [a, b]);
    assert [a, b][1..] == [b];
  }

  /** A spaced '&' between two words is spelled "-and-". */
  lemma SpelledAmpersand(a: string, b: string)
    requires WordText(a) && WordText(b)
    ensures Replace(a + " & " + b, "&", "-and-") == a + " -" + ("and" + "- " + b)
  {
    var l, r := a + " ", " " + b;
    forall i | 0 <= i < |l|
      ensures l[i] != '&'
    {
      if i < |a| {
        assert l[i] == a[i];
      }
    }
    forall i | 0 <= i < |r|
      ensures r[i] != '&'
    {
      if i > 0 {
        assert r[i] == b[i - 1];
      }
    }
    ReplaceOneAmpersand(l, r);
    assert a + " & " + b == l + "&" + r;
    assert l + "-and-" + r == a + " -" + ("and" + "- " + b);
  }

  /** Two words around a spaced '&' slug to "first-and-second". */
  lemma SluggedAmpersand(s: string, a: string, b: string, slug: string)
    requires s == a + " & " + b && slug == a + "-and-" + b
    requires |a| > 0 && WordText(a) && |b| > 0 && WordText(b)
    ensures Slugged(s) == slug
  {
    SpelledAmpersand(a, b);
    var spelled := a + " -" + ("and" + "- " + b);
    SplitThree(spelled, a, " -", "and", "- ", b, NonWord);
    SluggedByWords(s, [a, "and", b]);
    JoinThree(a, "and", b, "-");
    AndJoined(a, b);
  }

  /** Three words joined. */
  lemma JoinThree(a: string, m: string, b: string, sep: string)
    ensures Join([a, m, b], sep) == a + sep + (m + sep + b)
  {
    var ws := [a, m, b];
    assert ws[1..] == [m, b] && ws[1..][1..] == [b];
    assert Join([b], sep) == b;
    assert Join([m, b], sep) == m + sep + b;
  }

  /** "-", "and", "-" glued together. */
  lemma AndJoined(a: string, b: string)
    ensures a + "-" + ("and" + "-" + b) == a + "-and-" + b
  {
    assert "-" + ("and" + "-" + b) == "-and-" + b;
  }

  /** Two blank-free words with a run of spaces between them collapse to one space between. */
  lemma CollapseTwoWords(a: string, gap: string, b: string)
    requires NoBlank(a) && NoBlank(b) && |b| > 0
    requires |gap| > 0 && forall i | 0 <= i < |gap| :: gap[i] == ' '
    ensures Strman.CollapseRuns(a + gap + b) == a + " " + b
  {
    var t := gap + b;
    assert a + gap + b == a + t;
    Strman.CollapseRunsAfterWord(a, t);
    assert !IsSpace(b[0]);
    SpaceGap(gap, b);
    CollapseNoBlank(b);
    SpacedPair(Strman.CollapseRuns(a + t), Strman.CollapseRuns(t), Strman.CollapseRuns(b), a, b);
  }

  /** Chaining the three collapse facts above: x is a, a space, then b. */
  lemma SpacedPair(x: string, y: string, z: string, a: string, b: string)
    requires x == a + y && y == " " + z && z == b
    ensures x == a + " " + b
  {
  }

  /** The same, for a text and a result given by name. */
  lemma CollapsedTwoWords(s: string, a: string, gap: string, b: string, r: string)
    requires s == a + gap + b && r == a + " " + b
    requires NoBlank(a) && NoBlank(b) && |b| > 0
    requires |gap| > 0 && forall i | 0 <= i < |gap| :: gap[i] == ' '
    ensures Strman.CollapseRuns(s) == r
  {
    CollapseTwoWords(a, gap, b);
  }

  /** Three blank-free words with runs of spaces between them collapse to single spaces between. */
  lemma {:induction false} CollapseThreeWords(a: string, g1: string, b: string, g2: string, c: string)
    requires NoBlank(a) && NoBlank(b) && |b| > 0 && NoBlank(c) && |c| > 0
    requires |g1| > 0 && forall i | 0 <= i < |g1| :: g1[i] == ' '
    requires |g2| > 0 && forall i | 0 <= i < |g2| :: g2[i] == ' '
    ensures Strman.CollapseRuns(a + (g1 + (b + g2 + c))) == a + (" " + (b + " " + c))
  {
    var t := g1 + (b + g2 + c);
    CollapseGapThenTwo(g1, b, g2, c);
    Strman.CollapseRunsAfterWord(a, t);
  }

  /** A run of spaces and then two words with spaces between them. */
  lemma CollapseGapThenTwo(g1: string, b: string, g2: string, c: string)
    requires NoBlank(b) && |b| > 0 && NoBlank(c) && |c| > 0
    requires |g1| > 0 && forall i | 0 <= i < |g1| :: g1[i] == ' '
    requires |g2| > 0 && forall i | 0 <= i < |g2| :: g2[i] == ' '
    ensures Strman.CollapseRuns(g1 + (b + g2 + c)) == " " + (b + " " + c)
  {
    var rest := b + g2 + c;
    CollapseTwoWords(b, g2, c);
    assert rest[0] == b[0] && !IsSpace(rest[0]);
    SpaceGap(g1, rest);
  }

  /** The same, for a text and a result given by name. */
  lemma CollapsedThreeWords(s: string, a: string, g1: string, b: string, g2: string, c: string, r: string)
    requires s == a + (g1 + (b + g2 + c)) && r == a + (" " + (b + " " + c))
    requires NoBlank(a) && NoBlank(b) && |b| > 0 && NoBlank(c) && |c| > 0
    requires |g1| > 0 && forall i | 0 <= i < |g1| :: g1[i] == ' '
    requires |g2| > 0 && forall i | 0 <= i < |g2| :: g2[i] == ' '
    ensures Strman.CollapseRuns(s) == r
  {
    CollapseThreeWords(a, g1, b, g2, c);
  }

  /** The steps before transliterate leave a trimmed, single-spaced, lower-case value as it is. */
  lemma PreparedUnchanged(value: string)
    requires |value| > 0 && !IsTrimmed(value[0]) && !IsTrimmed(value[|value| - 1])
    requires forall i | 0 <= i < |value| :: !IsUpper(value[i])
    requires Strman.NoDoubleSpace(value)
    ensures Strman.CollapseWhitespace(ToLower(Trim(value))) == value
  {
    LowerUnchanged(value);
    Strman.CollapseRunsFixed(value);
  }

  /** The example texts after their first stage are plain ASCII. */
  lemma PlainExampleTexts(v: string)
    requires v == "foo bar" || v == "foo ~~ bar" || v == "foo & bar"
    ensures IsPlainText(v)
  {
  }

  /** The steps before transliterate on "foo bar" change nothing. */
  lemma PreparedFooBar(value: string)
    requires value == "foo bar"
    ensures Strman.CollapseWhitespace(ToLower(Trim(value))) == value
  {
    PreparedUnchanged(value);
  }

  /** The steps before transliterate on "foo ~~ bar" change nothing. */
  lemma PreparedTilde(value: string)
    requires value == "foo ~~ bar"
    ensures Strman.CollapseWhitespace(ToLower(Trim(value))) == value
  {
    PreparedUnchanged(value);
  }

  /** The steps before transliterate on "f\U{00F3}\U{00F5} b\U{00E1}r" change nothing. */
  lemma PreparedAccents(value: string)
    requires value == "f\U{00F3}\U{00F5} b\U{00E1}r"
    ensures Strman.CollapseWhitespace(ToLower(Trim(value))) == value
  {
    PreparedUnchanged(value);
  }

  /** The steps before transliterate on "FOO     bar". */
  lemma PreparedUpperGap(value: string)
    requires value == "FOO     bar"
    ensures Strman.CollapseWhitespace(ToLower(Trim(value))) == "foo bar"
  {
    var l := ToLower(Trim(value));
    assert Trim(value) == value;
    assert l == "foo     bar";
    CollapsedTwoWords(l, "foo", "     ", "bar", "foo bar");
  }

  /** The steps before transliterate on "foo  &    bar". */
  lemma PreparedAmpersand(value: string)
    requires value == "foo  &    bar"
    ensures Strman.CollapseWhitespace(ToLower(Trim(value))) == "foo & bar"
  {
    LowerUnchanged(value);
    CollapsedThreeWords(value, "foo", "  ", "&", "    ", "bar", "foo & bar");
  }

  /** "foo bar" slugs to "foo-bar". */
  lemma SluggedFooBar(v: string)
    requires v == "foo bar"
    ensures Slugged(v) == "foo-bar"
  {
    SluggedTwoWords(v, "foo", " ", "bar", "foo-bar");
  }

  /** "foo ~~ bar" slugs to "foo-bar". */
  lemma SluggedFooTildeBar(v: string)
    requires v == "foo ~~ bar"
    ensures Slugged(v) == "foo-bar"
  {
    SluggedTwoWords(v, "foo", " ~~ ", "bar", "foo-bar");
  }

  /** "foo & bar" slugs to "foo-and-bar". */
  lemma SluggedFooAndBar(v: string)
    requires v == "foo & bar"
    ensures Slugged(v) == "foo-and-bar"
  {
    SluggedAmpersand(v, "foo", "bar", "foo-and-bar");
  }

  /** slugify of a non-null value is its three stages one after the other. */
  lemma SlugifiedByStages(value: string, prepared: string, transliterated: string, slug: string)
    requires Strman.CollapseWhitespace(ToLower(Trim(value))) == prepared
    requires Transliterated(prepared) == transliterated
    requires Slugged(transliterated) == slug
    ensures Slugified(value) == slug
  {
  }

  /** The library's example: "FOO     bar" slugs to "foo-bar". */
  lemma SlugifyUpperGapExample(value: string)
    requires value == "FOO     bar"
    ensures Slugified(value) == "foo-bar"
  {
    PreparedUpperGap(value);
    PlainExampleTexts("foo bar");
    TransliteratePlainText("foo bar");
    SluggedFooBar("foo bar");
    SlugifiedByStages(value, "foo bar", "foo bar", "foo-bar");
  }

  /** The library's example: "foo bar" slugs to "foo-bar". */
  lemma SlugifyFooBarExample(value: string)
    requires value == "foo bar"
    ensures Slugified(value) == "foo-bar"
  {
    PreparedFooBar(value);
    PlainExampleTexts(value);
    TransliteratePlainText(value);
    SluggedFooBar(value);
    SlugifiedByStages(value, value, value, "foo-bar");
  }

  /** The library's example: "foo ~~ bar" slugs to "foo-bar". */
  lemma SlugifyTildeExample(value: string)
    requires value == "foo ~~ bar"
    ensures Slugified(value) == "foo-bar"
  {
    PreparedTilde(value);
    PlainExampleTexts(value);
    TransliteratePlainText(value);
    SluggedFooTildeBar(value);
    SlugifiedByStages(value, value, value, "foo-bar");
  }

  /** The library's example: "foo  &    bar" slugs to "foo-and-bar". */
  lemma SlugifyAmpersandExample(value: string)
    requires value == "foo  &    bar"
    ensures Slugified(value) == "foo-and-bar"
  {
    PreparedAmpersand(value);
    PlainExampleTexts("foo & bar");
    TransliteratePlainText("foo & bar");
    SluggedFooAndBar("foo & bar");
    SlugifiedByStages(value, "foo & bar", "foo & bar", "foo-and-bar");
  }

  /** The library's example: "f\U{00F3}\U{00F5} b\U{00E1}r" slugs to "foo-bar". */
  lemma SlugifyAccentsExample(value: string)
    requires value == "f\U{00F3}\U{00F5} b\U{00E1}r"
    ensures Slugified(value) == "foo-bar"
  {
    PreparedAccents(value);
    TransliterateFooBarExample(value);
    SluggedFooBar("foo bar");
    SlugifiedByStages(value, value, "foo bar", "foo-bar");
  }
}
