/** safeTruncate of strman.Strman: truncation that never cuts a word. */
module StrmanTruncate {
  import opened JString
  import opened Strman

  /**
   * The test of the loop: the joiner's current text, the next word, the
   * filler and one space per word already added stay within `length`.
   */
  predicate Fits(kept: seq<string>, word: string, filler: string, length: int) {
    |Join(kept, " ")| + |word| + |filler| + |kept| <= length
  }

  /**
   * The words the loop adds after `kept`: it takes the next word while it
   * fits and stops at the first one that does not.
   */
  function KeptWords(words: seq<string>, kept: seq<string>, filler: string, length: int): (r: seq<string>)
    ensures |kept| <= |r| <= |kept| + |words|
    ensures r == kept + words[..|r| - |kept|]
    ensures |r| < |kept| + |words| ==> !Fits(r, words[|r| - |kept|], filler, length)
    decreases |words|
  {
    if |words| == 0 || !Fits(kept, words[0], filler, length) then kept
    else
      var r := KeptWords(words[1..], kept + [words[0]], filler, length);
      assert words[..|r| - |kept|] == [words[0]] + words[1..][..|r| - |kept| - 1];
      r
  }

  /** What safeTruncate(value, length, filler) returns. */
  function SafeTruncated(value: string, length: int, filler: string): string {
    if length == 0 then ""
    else if length >= |value| then value
    else Join(KeptWords(Split(value, Whitespace), [], filler, length), " ") + filler
  }

  /**
   * safeTruncate(value, length, filler): the whitespace-separated words of
   * `value` are added to a StringJoiner(" ") until one would overflow
   * `length`; the filler is appended to what was kept.
   */
  method SafeTruncate(value: string, length: int, filler: string) returns (r: string)
    ensures r == SafeTruncated(value, length, filler)
  {
    if length == 0 {
      return "";
    }
    if length >= |value| {
      return value;
    }
    var words := Split(value, Whitespace);
    var result := "";
    var spaceCount := 0;
    var i := 0;
    while i < |words|
      invariant 0 <= i <= |words| && spaceCount == i
      invariant result == Join(words[..i], " ")
      invariant KeptWords(words, [], filler, length) == KeptWords(words[i..], words[..i], filler, length)
    {
      var word := words[i];
      KeptWordsAdvance(words, i, filler, length);
      if |result| + |word| + |filler| + spaceCount > length {
        break;
      }
      JoinSnoc(words[..i], word, " ");
      result := if spaceCount == 0 then word else result + " " + word;
      spaceCount := spaceCount + 1;
      i := i + 1;
    }
    KeptWordsAdvance(words, i, filler, length);
    return result + filler;
  }

  /** One turn of the loop: the next word is kept when it fits, and the loop stops otherwise or at the end. */
  lemma KeptWordsAdvance(words: seq<string>, i: nat, filler: string, length: int)
    requires i <= |words|
    ensures i < |words| && Fits(words[..i], words[i], filler, length) ==>
      && words[..i + 1] == words[..i] + [words[i]]
      && KeptWords(words[i..], words[..i], filler, length) == KeptWords(words[i + 1..], words[..i + 1], filler, length)
    ensures (i == |words| || !Fits(words[..i], words[i], filler, length)) ==>
      KeptWords(words[i..], words[..i], filler, length) == words[..i]
  {
    if i < |words| {
      assert words[..i + 1] == words[..i] + [words[i]];
      assert words[i..][1..] == words[i + 1..];
    }
  }

  /** Adding a word that fits keeps the joined text and the filler within `length`. */
  lemma {:induction false} KeptWordsBound(words: seq<string>, kept: seq<string>, filler: string, length: int)
    requires kept == [] || |Join(kept, " ")| + |filler| <= length
    ensures KeptWords(words, kept, filler, length) == []
         || |Join(KeptWords(words, kept, filler, length), " ")| + |filler| <= length
    decreases |words|
  {
    if |words| > 0 && Fits(kept, words[0], filler, length) {
      JoinSnoc(kept, words[0], " ");
      KeptWordsBound(words[1..], kept + [words[0]], filler, length);
    }
  }

  /**
   * A truncated result is at most `length` long, except that the filler alone
   * is returned when not even the first word fits beside it.
   */
  lemma SafeTruncateBound(value: string, length: int, filler: string)
    requires length != 0 && length < |value|
    ensures |SafeTruncated(value, length, filler)| <= length || SafeTruncated(value, length, filler) == filler
  {
    KeptWordsBound(Split(value, Whitespace), [], filler, length);
  }

  /**
   * When it truncates, safeTruncate keeps the first k words of `value`, joined
   * by single spaces, and k is as large as the loop's test allows.
   */
  lemma SafeTruncateKeepsLeadingWords(value: string, length: int, filler: string)
    requires length != 0 && length < |value|
    ensures var ws := Split(value, Whitespace);
            var k := |KeptWords(ws, [], filler, length)|;
            && k <= |ws|
            && SafeTruncated(value, length, filler) == Join(ws[..k], " ") + filler
            && (k < |ws| ==> |Join(ws[..k], " ")| + |ws[k]| + |filler| + k > length)
  {
    var ws := Split(value, Whitespace);
    var kept := KeptWords(ws, [], filler, length);
    assert kept == [] + ws[..|kept|];
    assert kept == ws[..|kept|];
  }

  /** The kept text has no whitespace but the single spaces between the words. */
  lemma SafeTruncateWordsHaveNoSpace(value: string, length: int, filler: string)
    requires length != 0 && length < |value|
    ensures forall w | w in KeptWords(Split(value, Whitespace), [], filler, length) ::
      forall i | 0 <= i < |w| :: !IsSpace(w[i])
  {
    var ws := Split(value, Whitespace);
    var kept := KeptWords(ws, [], filler, length);
    forall w | w in kept
      ensures forall i | 0 <= i < |w| :: !IsSpace(w[i])
    {
      assert w in ws;
      assert forall i | 0 <= i < |w| :: !IsDelim(Whitespace, w[i]);
    }
  }

  // ------------------------------------------------------------ fixtures

  predicate NoSpace(w: string) {
    forall i | 0 <= i < |w| :: !IsSpace(w[i])
  }

  /** A word, a space and a text that starts with a non-space: the word is the first piece. */
  lemma PiecesCons(w: string, rest: string)
    requires NoSpace(w) && (|rest| > 0 ==> !IsSpace(rest[0]))
    ensures Pieces(w + " " + rest, Whitespace) == [w] + Pieces(rest, Whitespace)
  {
    var s := w + " " + rest;
    assert s[..|w|] == w && s[|w| + 1..] == rest;
    assert IsDelim(Whitespace, s[|w|]);
    assert forall i | 0 <= i < |w| :: !IsDelim(Whitespace, s[i]);
    assert FirstDelim(s, Whitespace, 0) == |w|;
    assert |w| + 1 < |s| ==> !IsDelim(Whitespace, s[|w| + 1]);
    assert RunEnd(s, Whitespace, |w|) == |w| + 1;
  }

  lemma PiecesWord(w: string)
    requires NoSpace(w)
    ensures Pieces(w, Whitespace) == [w]
  {
    assert FirstDelim(w, Whitespace, 0) == |w|;
  }

  /** Nonempty words without whitespace, joined by single spaces, split back into the same words. */
  lemma {:induction false} SplitJoin(ws: seq<string>)
    requires |ws| > 0 && forall i | 0 <= i < |ws| :: |ws[i]| > 0 && NoSpace(ws[i])
    ensures Split(Join(ws, " "), Whitespace) == ws
    decreases |ws|
  {
    PiecesJoin(ws);
    assert ws[|ws| - 1] != [];
  }

  lemma {:induction false} PiecesJoin(ws: seq<string>)
    requires |ws| > 0 && forall i | 0 <= i < |ws| :: |ws[i]| > 0 && NoSpace(ws[i])
    ensures Pieces(Join(ws, " "), Whitespace) == ws
    decreases |ws|
  {
    if |ws| == 1 {
      PiecesWord(ws[0]);
    } else {
      var rest := Join(ws[1..], " ");
      assert |ws[1..][0]| > 0;
      JoinStartsWithFirst(ws[1..]);
      PiecesCons(ws[0], rest);
      PiecesJoin(ws[1..]);
      assert ws == [ws[0]] + ws[1..];
    }
  }

  lemma JoinStartsWithFirst(ws: seq<string>)
    requires |ws| > 0 && |ws[0]| > 0
    ensures |Join(ws, " ")| > 0 && Join(ws, " ")[0] == ws[0][0]
  {
  }

  const FooBarList: seq<string> := ["foo", "bar"]

  lemma SplitFooBar()
    ensures Split("foo bar", Whitespace) == FooBarList
  {
    var ws := FooBarList;
    SplitJoin(ws);
    assert ws[1..] == ["bar"];
    assert Join(ws, " ") == ws[0] + " " + ws[1];
    FooBarGlued();
  }

  /** The "foo bar" fixtures 0, 7 and 8 of the library's tests: nothing to truncate. */
  lemma SafeTruncateFooBarUntouchedExample(length: int)
    requires length == 0 || length == 7 || length == 8
    ensures SafeTruncated("foo bar", length, ".") == if length == 0 then "" else "foo bar"
  {
  }

  /** The "foo bar" fixture 4 of the library's tests. */
  lemma SafeTruncateFooBarOneWordExample(length: int)
    requires length == 4
    ensures SafeTruncated("foo bar", length, ".") == "foo."
  {
    SplitFooBar();
    SafeTruncatedByWords("foo bar", length, ".", FooBarList);
    KeptOne(FooBarList, ".", length);
    FooBarGlued();
  }

  /** The first word does not fit beside the filler. */
  lemma KeptNone(ws: seq<string>, filler: string, length: int)
    requires |ws| >= 1 && length < |ws[0]| + |filler|
    ensures Join(KeptWords(ws, [], filler, length), " ") == ""
  {
  }

  /** The "foo bar" fixtures 3 and 2 of the library's tests: only the filler is left. */
  lemma SafeTruncateFooBarNoWordExample(length: int)
    requires length == 3 || length == 2
    ensures SafeTruncated("foo bar", length, ".") == "."
  {
    SplitFooBar();
    SafeTruncatedByWords("foo bar", length, ".", FooBarList);
    KeptNone(FooBarList, ".", length);
  }

  /** The fixture text "A Javascript string manipulation library.", written word by word. */
  const Sentence: string := "A" + " " + ("Javascript" + " " + ("string" + " " + ("manipulation" + " " + "library.")))

  lemma JoinFive(a: string, b: string, c: string, d: string, e: string)
    ensures Join([a, b, c, d, e], " ") == a + " " + (b + " " + (c + " " + (d + " " + e)))
  {
    var ws := [a, b, c, d, e];
    assert Join([d, e], " ") == d + " " + e by {
      assert [d, e][1..] == [e];
    }
    assert Join([c, d, e], " ") == c + " " + Join([d, e], " ") by {
      assert [c, d, e][1..] == [d, e];
    }
    assert Join([b, c, d, e], " ") == b + " " + Join([c, d, e], " ") by {
      assert [b, c, d, e][1..] == [c, d, e];
    }
    assert ws[1..] == [b, c, d, e];
  }

  lemma SplitSentence()
    ensures Split(Sentence, Whitespace) == SentenceList
  {
    var ws := SentenceList;
    SplitJoin(ws);
    JoinFive("A", "Javascript", "string", "manipulation", "library.");
  }

  const SentenceList: seq<string> := ["A", "Javascript", "string", "manipulation", "library."]

  /** When value splits into `ws`, safeTruncate keeps a prefix of `ws`. */
  lemma SafeTruncatedByWords(value: string, length: int, filler: string, ws: seq<string>)
    requires length != 0 && length < |value| && Split(value, Whitespace) == ws
    ensures SafeTruncated(value, length, filler) == Join(KeptWords(ws, [], filler, length), " ") + filler
  {
  }

  /** The first two words fit beside the filler and the third does not. */
  lemma KeptTwo(ws: seq<string>, filler: string, length: int)
    requires |ws| >= 3
    requires |ws[0]| + |ws[1]| + |filler| + 1 <= length < |ws[0]| + |ws[1]| + |ws[2]| + |filler| + 3
    ensures Join(KeptWords(ws, [], filler, length), " ") == ws[0] + " " + ws[1]
  {
    var two := [ws[0], ws[1]];
    assert [ws[0]] + [ws[1]] == two;
    assert Join(two, " ") == ws[0] + " " + ws[1] by {
      assert two[1..] == [ws[1]];
    }
    var none: seq<string> := [];
    assert none + [ws[0]] == [ws[0]];
    assert Fits(none, ws[0], filler, length);
    assert Fits([ws[0]], ws[1], filler, length);
    assert KeptWords(ws[1..], [ws[0]], filler, length) == KeptWords(ws[2..], two, filler, length) by {
      assert ws[1..][0] == ws[1] && ws[1..][1..] == ws[2..];
    }
    assert !Fits(two, ws[2], filler, length);
  }

  /** The first word fits beside the filler and the second does not. */
  lemma KeptOne(ws: seq<string>, filler: string, length: int)
    requires |ws| >= 2
    requires |ws[0]| + |filler| <= length < |ws[0]| + |ws[1]| + |filler| + 1
    ensures Join(KeptWords(ws, [], filler, length), " ") == ws[0]
  {
    assert ws[1..][0] == ws[1];
    assert KeptWords(ws, [], filler, length) == [ws[0]];
  }

  lemma SentenceTruncatedByWords(length: int)
    requires 13 <= length <= 16
    ensures SafeTruncated(Sentence, length, "...") == Join(KeptWords(SentenceList, [], "...", length), " ") + "..."
  {
    SplitSentence();
    SafeTruncatedByWords(Sentence, length, "...", SentenceList);
  }

  lemma SentenceKeptTwo(length: int)
    requires length == 16 || length == 15
    ensures Join(KeptWords(SentenceList, [], "...", length), " ") == SentenceList[0] + " " + SentenceList[1]
  {
    KeptTwo(SentenceList, "...", length);
  }

  lemma SentenceKeptOne(length: int)
    requires length == 14 || length == 13
    ensures Join(KeptWords(SentenceList, [], "...", length), " ") == SentenceList[0]
  {
    KeptOne(SentenceList, "...", length);
  }

  /** The fixtures 16 and 15 of "A Javascript string manipulation library." in the library's tests. */
  lemma SafeTruncateSentenceTwoWordsExample(length: int)
    requires length == 16 || length == 15
    ensures SafeTruncated(Sentence, length, "...") == "A Javascript..."
  {
    SentenceTruncatedByWords(length);
    SentenceKeptTwo(length);
    SentenceGlued();
  }

  /** The fixtures 14 and 13 of "A Javascript string manipulation library." in the library's tests. */
  lemma SafeTruncateSentenceOneWordExample(length: int)
    requires length == 14 || length == 13
    ensures SafeTruncated(Sentence, length, "...") == "A..."
  {
    SentenceTruncatedByWords(length);
    SentenceKeptOne(length);
    SentenceGlued();
  }

  // Small literal concatenations, each proved apart from the fixtures' larger context.

  lemma FooBarGlued()
    ensures FooBarList[0] + " " + FooBarList[1] == "foo bar"
    ensures FooBarList[0] + "." == "foo."
  {
  }

  lemma SentenceGlued()
    ensures SentenceList[0] + "..." == "A..."
    ensures SentenceList[0] + " " + SentenceList[1] + "..." == "A Javascript..."
  {
  }

}
