/**
 * The parts of java.lang.String, java.lang.Character and of the two fixed
 * regular expressions `\s+` and `\W+` that the Strman functions are built on.
 * A Java string is a sequence of UTF-16 chars; here it is a `string`, and case
 * mapping is restricted to the ASCII letters.
 */
module JString {

  /** `\s` in a java.util.regex pattern: space, tab, newline, vertical tab, form feed, carriage return. */
  predicate IsSpace(c: char) {
    c == ' ' || c == '\t' || c == '\n' || c == '\U{000B}' || c == '\U{000C}' || c == '\r'
  }

  /** `\w` in a java.util.regex pattern: [a-zA-Z_0-9]. */
  predicate IsWordChar(c: char) {
    ('a' <= c <= 'z') || ('A' <= c <= 'Z') || ('0' <= c <= '9') || c == '_'
  }

  predicate IsUpper(c: char) { 'A' <= c <= 'Z' }
  predicate IsLower(c: char) { 'a' <= c <= 'z' }

  function ToLowerChar(c: char): char {
    if IsUpper(c) then (c as int + 32) as char else c
  }

  function ToUpperChar(c: char): char {
    if IsLower(c) then (c as int - 32) as char else c
  }

  /** String.toLowerCase, ASCII letters only. */
  function ToLower(s: string): (r: string)
    ensures |r| == |s| && forall i | 0 <= i < |s| :: r[i] == ToLowerChar(s[i])
  {
    seq(|s|, i requires 0 <= i < |s| => ToLowerChar(s[i]))
  }

  /** String.toUpperCase, ASCII letters only. */
  function ToUpper(s: string): (r: string)
    ensures |r| == |s| && forall i | 0 <= i < |s| :: r[i] == ToUpperChar(s[i])
  {
    seq(|s|, i requires 0 <= i < |s| => ToUpperChar(s[i]))
  }

  // ---------------------------------------------------------------- trim

  /** The chars String.trim removes: every char at or below U+0020. */
  predicate IsTrimmed(c: char) { c <= ' ' }

  function TrimLeft(s: string): (r: string)
    ensures |r| <= |s| && r == s[|s| - |r|..]
    ensures r == [] || !IsTrimmed(r[0])
    ensures forall i | 0 <= i < |s| - |r| :: IsTrimmed(s[i])
  {
    if |s| > 0 && IsTrimmed(s[0]) then TrimLeft(s[1..]) else s
  }

  function TrimRight(s: string): (r: string)
    ensures |r| <= |s| && r == s[..|r|]
    ensures r == [] || !IsTrimmed(r[|r| - 1])
    ensures forall i | |r| <= i < |s| :: IsTrimmed(s[i])
  {
    if |s| > 0 && IsTrimmed(s[|s| - 1]) then TrimRight(s[..|s| - 1]) else s
  }

  /** String.trim: the longest middle part that neither starts nor ends with a char at or below U+0020. */
  function Trim(s: string): (r: string)
    ensures r == [] || (!IsTrimmed(r[0]) && !IsTrimmed(r[|r| - 1]))
    ensures forall c | c in r :: c in s
    ensures s == [] || (!IsTrimmed(s[0]) && !IsTrimmed(s[|s| - 1])) ==> r == s
  {
    var l := TrimLeft(s);
    var r := TrimRight(l);
    TrimKeepsChars(s, l, r);
    TrimEnds(l, r);
    TrimUntouched(s);
    r
  }

  /** Neither end of the twice-trimmed text is a trimmed char. */
  lemma TrimEnds(l: string, r: string)
    requires l == [] || !IsTrimmed(l[0])
    requires |r| <= |l| && r == l[..|r|]
    requires r == [] || !IsTrimmed(r[|r| - 1])
    ensures r == [] || (!IsTrimmed(r[0]) && !IsTrimmed(r[|r| - 1]))
  {
    if r != [] {
      assert r[0] == l[0];
    }
  }

  /** Text that neither starts nor ends with a trimmed char survives both trims. */
  lemma TrimUntouched(s: string)
    ensures s == [] || (!IsTrimmed(s[0]) && !IsTrimmed(s[|s| - 1])) ==> TrimRight(TrimLeft(s)) == s
  {
    if s != [] && !IsTrimmed(s[0]) && !IsTrimmed(s[|s| - 1]) {
      assert TrimLeft(s) == s;
    }
  }

  /** What survives both trims is a slice of `s`, so every char of it comes from `s`. */
  lemma TrimKeepsChars(s: string, l: string, r: string)
    requires |l| <= |s| && l == s[|s| - |l|..]
    requires |r| <= |l| && r == l[..|r|]
    ensures forall c | c in r :: c in s
  {
    forall c | c in r
      ensures c in s
    {
      var i :| 0 <= i < |r| && r[i] == c;
      assert s[|s| - |l| + i] == c;
    }
  }

  // ---------------------------------------------------------- searching

  predicate StartsWith(s: string, prefix: string) {
    |prefix| <= |s| && s[..|prefix|] == prefix
  }

  /** String.endsWith. */
  predicate EndsWith(s: string, suffix: string) {
    |suffix| <= |s| && s[|s| - |suffix|..] == suffix
  }

  /** `t` occurs in `s` starting at index `k`. */
  predicate OccursAt(s: string, t: string, k: int) {
    0 <= k && k + |t| <= |s| && s[k..k + |t|] == t
  }

  /** The first occurrence of `t` in `s` at or after `k`, or -1. */
  function FindFrom(s: string, t: string, k: nat): (r: int)
    ensures r == -1 || (k <= r && OccursAt(s, t, r))
    ensures forall j | k <= j && (r == -1 || j < r) :: !OccursAt(s, t, j)
    decreases |s| - k
  {
    if k + |t| > |s| then -1
    else if s[k..k + |t|] == t then k
    else FindFrom(s, t, k + 1)
  }

  /**
   * String.indexOf(t, from): a negative `from` counts as 0; at or past the end
   * only the empty string is found, at the end.
   */
  function IndexOf(s: string, t: string, from: int): (r: int)
    ensures |t| > 0 ==> r == -1 || (from <= r && OccursAt(s, t, r))
    ensures |t| > 0 ==> forall j | from <= j && (r == -1 || j < r) :: !OccursAt(s, t, j)
  {
    var k := if from < 0 then 0 else from;
    if k >= |s| then (if |t| == 0 then |s| else -1)
    else FindFrom(s, t, k)
  }

  /** The last occurrence of `t` in `s` at or before `k`, or -1. */
  function FindBackFrom(s: string, t: string, k: int): (r: int)
    ensures r == -1 || (0 <= r <= k && OccursAt(s, t, r))
    ensures forall j | 0 <= j <= k && (r == -1 || r < j) :: !OccursAt(s, t, j)
    decreases k + 1
  {
    if k < 0 then -1
    else if OccursAt(s, t, k) then k
    else FindBackFrom(s, t, k - 1)
  }

  /** String.lastIndexOf(t). */
  function LastIndexOf(s: string, t: string): int {
    FindBackFrom(s, t, |s|)
  }

  // ----------------------------------------------------------- rewriting

  /**
   * String.replace(target, replacement): every occurrence of `t`, found left to
   * right without overlap, becomes `r`. Every caller in this model passes a
   * nonempty target.
   */
  function Replace(s: string, t: string, r: string): string
    requires |t| > 0
    decreases |s|
  {
    if |s| < |t| then s
    else if s[..|t|] == t then r + Replace(s[|t|..], t, r)
    else [s[0]] + Replace(s[1..], t, r)
  }

  /** Occurrences in the tail of a string are the occurrences one index further in the string. */
  lemma OccursShift(s: string, t: string, k: int)
    requires |s| > 0 && 0 <= k
    ensures OccursAt(s[1..], t, k) <==> OccursAt(s, t, k + 1)
  {
    if k + |t| <= |s| - 1 {
      assert s[1..][k..k + |t|] == s[k + 1..k + 1 + |t|];
    }
  }

  /** A string with no occurrence of the target is left as it is. */
  lemma {:induction false} ReplaceWithoutTarget(s: string, t: string, r: string)
    requires |t| > 0
    requires forall k | 0 <= k :: !OccursAt(s, t, k)
    ensures Replace(s, t, r) == s
    decreases |s|
  {
    if |s| >= |t| {
      assert !OccursAt(s, t, 0);
      forall k | 0 <= k
        ensures !OccursAt(s[1..], t, k)
      {
        OccursShift(s, t, k);
      }
      ReplaceWithoutTarget(s[1..], t, r);
    }
  }

  /** Replace rewrites the first occurrence, keeps what precedes it and carries on after it. */
  lemma {:induction false} ReplaceAtFirst(s: string, t: string, r: string, p: nat)
    requires |t| > 0 && OccursAt(s, t, p)
    requires forall k | 0 <= k < p :: !OccursAt(s, t, k)
    ensures Replace(s, t, r) == s[..p] + r + Replace(s[p + |t|..], t, r)
    decreases p
  {
    if p == 0 {
      assert s[..|t|] == t;
      assert s[..0] + r + Replace(s[|t|..], t, r) == r + Replace(s[|t|..], t, r);
    } else {
      assert !OccursAt(s, t, 0);
      assert s[..|t|] != t;
      var tail := s[1..];
      assert Replace(s, t, r) == [s[0]] + Replace(tail, t, r);
      TailBeforeFirst(s, t, p);
      ReplaceAtFirst(tail, t, r, p - 1);
      assert tail[p - 1 + |t|..] == s[p + |t|..];
      ConsPrefix(s, p, r, Replace(s[p + |t|..], t, r), Replace(tail, t, r));
    }
  }

  /** A target that nothing in `pre` can start, and that `post` does not hold, is rewritten exactly once in pre + t + post. */
  lemma ReplaceOnce(pre: string, t: string, post: string, v: string)
    requires |t| > 0
    requires forall i | 0 <= i < |pre| :: pre[i] != t[0]
    requires forall k | 0 <= k :: !OccursAt(post, t, k)
    ensures Replace(pre + t + post, t, v) == pre + v + post
  {
    var s := pre + t + post;
    assert s[|pre|..|pre| + |t|] == t;
    forall k | 0 <= k < |pre|
      ensures !OccursAt(s, t, k)
    {
      OccursStartsWith(s, t, k);
      assert s[k] == pre[k];
    }
    ReplaceAtFirst(s, t, v, |pre|);
    assert s[..|pre|] == pre && s[|pre| + |t|..] == post;
    ReplaceWithoutTarget(post, t, v);
  }

  /** A text without the target's first char holds no occurrence of it. */
  lemma FirstCharAbsent(s: string, t: string)
    requires |t| > 0 && forall i | 0 <= i < |s| :: s[i] != t[0]
    ensures forall k | 0 <= k :: !OccursAt(s, t, k)
  {
    forall k | 0 <= k
      ensures !OccursAt(s, t, k)
    {
      OccursStartsWith(s, t, k);
    }
  }

  /** An occurrence starts with the target's first char. */
  lemma OccursStartsWith(s: string, t: string, k: int)
    requires |t| > 0
    ensures OccursAt(s, t, k) ==> k < |s| && s[k] == t[0]
  {
    if 0 <= k && k + |t| <= |s| {
      assert s[k..k + |t|][0] == s[k];
    }
  }

  /** The first occurrence, seen from the tail, is one index earlier. */
  lemma TailBeforeFirst(s: string, t: string, p: nat)
    requires |t| > 0 && 0 < p && OccursAt(s, t, p)
    requires forall k | 0 <= k < p :: !OccursAt(s, t, k)
    ensures OccursAt(s[1..], t, p - 1)
    ensures forall k | 0 <= k < p - 1 :: !OccursAt(s[1..], t, k)
  {
    OccursShift(s, t, p - 1);
    forall k | 0 <= k < p - 1
      ensures !OccursAt(s[1..], t, k)
    {
      OccursShift(s, t, k);
    }
  }

  /** Putting the first char back in front of the tail's rewrite. */
  lemma ConsPrefix(s: string, p: nat, r: string, rest: string, tailResult: string)
    requires 0 < p <= |s|
    requires tailResult == s[1..][..p - 1] + r + rest
    ensures [s[0]] + tailResult == s[..p] + r + rest
  {
    assert [s[0]] + s[1..][..p - 1] == s[..p];
  }

  /** `Stream.generate(() -> s).limit(n).collect(joining())`. */
  function Repeat(s: string, n: nat): (r: string)
    ensures |r| == n * |s|
    ensures |s| == 1 ==> forall i | 0 <= i < |r| :: r[i] == s[0]
  {
    if n == 0 then "" else s + Repeat(s, n - 1)
  }

  /** A StringJoiner with delimiter `sep` after adding every element of `xs`. */
  function Join(xs: seq<string>, sep: string): string
  {
    if |xs| == 0 then ""
    else if |xs| == 1 then xs[0]
    else xs[0] + sep + Join(xs[1..], sep)
  }

  // ------------------------------------------------------------ splitting

  /** The two fixed split patterns of the core: `\s+` and `\W+`. */
  datatype Delimiter = Whitespace | NonWord

  predicate IsDelim(d: Delimiter, c: char) {
    match d
    case Whitespace => IsSpace(c)
    case NonWord => !IsWordChar(c)
  }

  /** The first index at or after `k` holding a delimiter char, or |s|. */
  function FirstDelim(s: string, d: Delimiter, k: nat): (r: nat)
    requires k <= |s|
    ensures k <= r <= |s| && (r < |s| ==> IsDelim(d, s[r]))
    ensures forall i | k <= i < r :: !IsDelim(d, s[i])
    decreases |s| - k
  {
    if k == |s| || IsDelim(d, s[k]) then k else FirstDelim(s, d, k + 1)
  }

  /** The end of the run of delimiter chars that starts at `k`. */
  function RunEnd(s: string, d: Delimiter, k: nat): (r: nat)
    requires k <= |s|
    ensures k <= r <= |s| && (r < |s| ==> !IsDelim(d, s[r]))
    ensures forall i | k <= i < r :: IsDelim(d, s[i])
    decreases |s| - k
  {
    if k == |s| || !IsDelim(d, s[k]) then k else RunEnd(s, d, k + 1)
  }

  /** The text between maximal delimiter runs, including the empty text before a leading run and after a trailing run. */
  function Pieces(s: string, d: Delimiter): (r: seq<string>)
    ensures |r| > 0
    ensures forall p | p in r :: forall i | 0 <= i < |p| :: !IsDelim(d, p[i])
    ensures forall i | 0 < i < |r| - 1 :: r[i] != []
    decreases |s|
  {
    var i := FirstDelim(s, d, 0);
    if i == |s| then [s]
    else
      var j := RunEnd(s, d, i);
      [s[..i]] + Pieces(s[j..], d)
  }

  function DropTrailingEmpty(xs: seq<string>): (r: seq<string>)
    ensures |r| <= |xs| && r == xs[..|r|]
    ensures r == [] || r[|r| - 1] != []
    ensures forall i | |r| <= i < |xs| :: xs[i] == []
  {
    if |xs| > 0 && xs[|xs| - 1] == [] then DropTrailingEmpty(xs[..|xs| - 1]) else xs
  }

  /**
   * String.split(regex) for the pattern `\s+` or `\W+`: "" gives [""],
   * a leading delimiter run gives a leading "", trailing empty strings are dropped.
   */
  function Split(s: string, d: Delimiter): (r: seq<string>)
    ensures forall p | p in r :: forall i | 0 <= i < |p| :: !IsDelim(d, p[i])
    ensures forall i | 0 < i < |r| :: r[i] != []
    ensures s != [] && |r| > 0 ==> r[|r| - 1] != []
  {
    if s == [] then [""] else DropTrailingEmpty(Pieces(s, d))
  }

  // --------------------------------------------------------------- numbers

  function DigitChar(v: nat): (c: char)
    requires v < 36
  {
    if v < 10 then ('0' as int + v) as char else ('a' as int + v - 10) as char
  }

  /** Integer.toString(n, radix) for n >= 0: lowercase digits, no leading zero. */
  function NatToString(n: nat, radix: nat): (r: string)
    requires 2 <= radix <= 36
    ensures |r| > 0
    decreases n
  {
    if n < radix then [DigitChar(n)] else NatToString(n / radix, radix) + [DigitChar(n % radix)]
  }

  /** Long.toString(n) and Integer.toString(n): decimal, with a leading '-' when negative. */
  function IntToString(n: int): (r: string)
    ensures |r| > 0
  {
    if n < 0 then "-" + NatToString(-n, 10) else NatToString(n, 10)
  }
}
