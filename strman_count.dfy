/** countSubstr of strman.Strman: counting a substring by repeated indexOf. */
module StrmanCount {
  import opened JString
  import Strman

  /**
   * The private countSubstr(value, subStr, allowOverlapping, count): find the
   * first occurrence, count it, and go on past it (or one char after its start
   * when overlapping is allowed). An empty subStr never ends the recursion in
   * Java, so it is excluded.
   */
  function CountFrom(value: string, subStr: string, allowOverlapping: bool, count: nat): (r: nat)
    requires |subStr| > 0
    ensures count <= r <= count + |value|
    decreases |value|
  {
    var position := IndexOf(value, subStr, 0);
    if position == -1 then count
    else
      var offset := if !allowOverlapping then position + |subStr| else position + 1;
      CountFrom(value[offset..], subStr, allowOverlapping, count + 1)
  }

  /**
   * countSubstr(value, subStr, caseSensitive, allowOverlapping), both texts
   * lower-cased first when the count ignores case: with overlapping allowed
   * every index where subStr occurs is counted; without, the counted
   * occurrences fit side by side in the value.
   */
  function CountSubstr(value: string, subStr: string, caseSensitive: bool, allowOverlapping: bool): (r: nat)
    requires |subStr| > 0
    ensures allowOverlapping ==> r == Occurrences(Strman.CaseView(value, caseSensitive), Strman.CaseView(subStr, caseSensitive))
    ensures !allowOverlapping ==> r * |subStr| <= |value|
  {
    var v := Strman.CaseView(value, caseSensitive);
    var t := Strman.CaseView(subStr, caseSensitive);
    OverlappingCountsOccurrences(v, t, 0);
    NonOverlappingBound(v, t);
    CountFrom(v, t, allowOverlapping, 0)
  }

  /** The independent reference: how many indices `t` occurs at in `s`. */
  function Occurrences(s: string, t: string): nat
    requires |t| > 0
    decreases |s|
  {
    if |s| < |t| then 0
    else (if s[..|t|] == t then 1 else 0) + Occurrences(s[1..], t)
  }

  lemma {:induction false} OccurrencesSkip(s: string, t: string, p: nat)
    requires |t| > 0 && p <= |s|
    requires forall k | 0 <= k < p :: !OccursAt(s, t, k)
    ensures Occurrences(s, t) == Occurrences(s[p..], t)
    decreases p
  {
    if p > 0 {
      assert !OccursAt(s, t, 0);
      forall k | 0 <= k < p - 1
        ensures !OccursAt(s[1..], t, k)
      {
        OccursShift(s, t, k);
      }
      OccurrencesSkip(s[1..], t, p - 1);
      assert s[1..][p - 1..] == s[p..];
    }
  }

  lemma {:induction false} OccurrencesNone(s: string, t: string)
    requires |t| > 0
    requires forall k | 0 <= k :: !OccursAt(s, t, k)
    ensures Occurrences(s, t) == 0
    decreases |s|
  {
    if |s| >= |t| {
      assert !OccursAt(s, t, 0);
      forall k | 0 <= k
        ensures !OccursAt(s[1..], t, k)
      {
        OccursShift(s, t, k);
      }
      OccurrencesNone(s[1..], t);
    }
  }

  /** With overlapping allowed, countSubstr counts every index at which subStr occurs. */
  lemma {:induction false} OverlappingCountsOccurrences(value: string, subStr: string, count: nat)
    requires |subStr| > 0
    ensures CountFrom(value, subStr, true, count) == count + Occurrences(value, subStr)
    decreases |value|
  {
    var position := IndexOf(value, subStr, 0);
    if position == -1 {
      OccurrencesNone(value, subStr);
    } else {
      OccurrencesSkip(value, subStr, position);
      var rest := value[position..];
      assert rest[..|subStr|] == subStr;
      assert rest[1..] == value[position + 1..];
      OverlappingCountsOccurrences(value[position + 1..], subStr, count + 1);
    }
  }

  /**
   * Without overlapping, countSubstr counts exactly the occurrences that
   * String.replace rewrites: each replacement changes the length by |r| - |subStr|.
   */
  lemma {:induction false} CountMatchesReplace(value: string, subStr: string, r: string)
    requires |subStr| > 0
    ensures |Replace(value, subStr, r)| == |value| + CountFrom(value, subStr, false, 0) * (|r| - |subStr|)
    decreases |value|
  {
    var position := IndexOf(value, subStr, 0);
    if position == -1 {
      ReplaceWithoutTarget(value, subStr, r);
      CountFromDone(value, subStr, false, 0);
    } else {
      var rest := value[position + |subStr|..];
      ReplaceAtFirst(value, subStr, r, position);
      CountFromStep(value, subStr, false, 0, position);
      CountFromShift(rest, subStr, 0);
      CountMatchesReplace(rest, subStr, r);
      MulSucc(CountFrom(rest, subStr, false, 0), |r| - |subStr|);
    }
  }

  /** Without overlapping, the counted occurrences fit side by side in the value. */
  lemma {:induction false} NonOverlappingBound(value: string, subStr: string)
    requires |subStr| > 0
    ensures CountFrom(value, subStr, false, 0) * |subStr| <= |value|
    decreases |value|
  {
    var position := IndexOf(value, subStr, 0);
    if position != -1 {
      var rest := value[position + |subStr|..];
      NonOverlappingBound(rest, subStr);
      CountFromShift(rest, subStr, 0);
      MulSucc(CountFrom(rest, subStr, false, 0), |subStr|);
    }
  }

  lemma MulSucc(c: int, d: int)
    ensures (c + 1) * d == c * d + d
  {
  }

  /** The running total only offsets the result. */
  lemma {:induction false} CountFromShift(value: string, subStr: string, count: nat)
    requires |subStr| > 0
    ensures CountFrom(value, subStr, false, count + 1) == CountFrom(value, subStr, false, count) + 1
    decreases |value|
  {
    var position := IndexOf(value, subStr, 0);
    if position != -1 {
      CountFromShift(value[position + |subStr|..], subStr, count + 1);
    }
  }

  /** One step of the recursion: the first occurrence is at `p`. */
  lemma CountFromStep(value: string, subStr: string, allowOverlapping: bool, count: nat, p: nat)
    requires |subStr| > 0 && OccursAt(value, subStr, p)
    requires forall k | 0 <= k < p :: !OccursAt(value, subStr, k)
    ensures CountFrom(value, subStr, allowOverlapping, count)
         == CountFrom(value[if allowOverlapping then p + 1 else p + |subStr|..], subStr, allowOverlapping, count + 1)
  {
  }

  /** The recursion ends once no occurrence is left. */
  lemma CountFromDone(value: string, subStr: string, allowOverlapping: bool, count: nat)
    requires |subStr| > 0 && forall k | 0 <= k :: !OccursAt(value, subStr, k)
    ensures CountFrom(value, subStr, allowOverlapping, count) == count
  {
  }

  lemma Mismatch(s: string, t: string, k: nat, j: nat)
    requires j < |t| && k + j < |s| && s[k + j] != t[j]
    ensures !OccursAt(s, t, k)
  {
  }

  /** Back-to-back copies of subStr are counted one each. */
  lemma {:induction false} CountRepeated(subStr: string, n: nat, count: nat)
    requires |subStr| > 0
    ensures CountFrom(Repeat(subStr, n), subStr, false, count) == count + n
  {
    var s := Repeat(subStr, n);
    if n == 0 {
      CountFromDone(s, subStr, false, count);
    } else {
      assert s[..|subStr|] == subStr && s[|subStr|..] == Repeat(subStr, n - 1);
      CountFromStep(s, subStr, false, count, 0);
      CountRepeated(subStr, n - 1, count + 1);
    }
  }

  /** The case-insensitive, non-overlapping fixture of the library's tests. */
  lemma CountSubstrCaseInsensitiveExample()
    ensures CountSubstr("aaaAAAaaa", "aaa", false, false) == 3
  {
    var t := "aaa";
    assert Strman.CaseView(t, false) == t;
    LowerFixture();
    CountRepeated(t, 3, 0);
  }

  /** countSubstr("aaaAAAaaa", "aaa", false, true): nine a's hold "aaa" at seven indices. */
  lemma CountSubstrOverlappingIgnoreCaseExample()
    ensures CountSubstr("aaaAAAaaa", "aaa", false, true) == 7
  {
    var t := "aaa";
    assert Strman.CaseView(t, false) == t;
    LowerFixture();
    var s := Repeat(t, 3);
    assert s == "aaaaaaaaa";
    OccurrencesUniform(s, t);
  }

  /** In a run of one char, a run of the same char occurs at every index it fits. */
  lemma {:induction false} OccurrencesUniform(s: string, t: string)
    requires |t| > 0
    requires forall i | 0 <= i < |s| :: s[i] == t[0]
    requires forall j | 0 <= j < |t| :: t[j] == t[0]
    ensures Occurrences(s, t) == if |s| < |t| then 0 else |s| - |t| + 1
    decreases |s|
  {
    if |s| >= |t| {
      assert s[..|t|] == t;
      OccurrencesUniform(s[1..], t);
    }
  }

  lemma LowerFixture()
    ensures Strman.CaseView("aaaAAAaaa", false) == Repeat("aaa", 3)
  {
    assert Repeat("aaa", 3) == "aaa" + "aaa" + "aaa" + "";
  }

  /** `t` occurs in x + t + y right after x, and y is what follows it. */
  lemma OccursBetween(x: string, t: string, y: string)
    ensures OccursAt(x + t + y, t, |x|) && (x + t + y)[|x| + |t|..] == y
  {
    assert (x + t + y)[|x|..|x| + |t|] == t;
  }

  /** Two copies of `t` around a block `u` that hides no copy of `t` count two. */
  lemma CountTwoCopies(t: string, u: string, count: nat)
    requires |t| > 0
    requires forall k | 0 <= k < |u| :: !OccursAt(u + t, t, k)
    ensures CountFrom(t + u + t, t, false, count) == count + 2
  {
    var value := t + u + t;
    OccursBetween([], t, u + t);
    assert [] + t + (u + t) == value;
    CountFromStep(value, t, false, count, 0);
    assert value[|t|..] == u + t;
    OccursBetween(u, t, []);
    assert u + t + [] == u + t;
    assert (u + t)[|u| + |t|..] == [];
    CountFromStep(u + t, t, false, count + 1, |u|);
    CountFromDone([], t, false, count + 2);
  }

  /** The case-sensitive, non-overlapping fixture of the library's tests. */
  lemma CountSubstrCaseSensitiveExample()
    ensures CountSubstr("aaaAAAaaa", "aaa", true, false) == 2
  {
    var t := "aaa";
    var u := "AAA";
    assert "aaaAAAaaa" == t + u + t;
    var tail := u + t;
    Mismatch(tail, t, 0, 0);
    Mismatch(tail, t, 1, 0);
    Mismatch(tail, t, 2, 0);
    CountTwoCopies(t, u, 0);
  }

  /** One copy of `t` after a prefix hiding none, overlapping search, with nothing left after it. */
  lemma CountOneOverlapping(x: string, t: string, y: string, count: nat)
    requires |t| > 0
    requires forall k | 0 <= k < |x| :: !OccursAt(x + t + y, t, k)
    requires forall k | 0 <= k :: !OccursAt(t[1..] + y, t, k)
    ensures CountFrom(x + t + y, t, true, count) == count + 1
  {
    OccursBetween(x, t, y);
    CountFromStep(x + t + y, t, true, count, |x|);
    assert (x + t + y)[|x| + 1..] == t[1..] + y;
    CountFromDone(t[1..] + y, t, true, count + 1);
  }

  /** The overlapping fixture "aaaAAAaaa" / "AAA" of the library's tests. */
  lemma CountSubstrOverlappingExample()
    ensures CountSubstr("aaaAAAaaa", "AAA", true, true) == 1
  {
    var t := "AAA";
    var lower := "aaa";
    var mixed := lower + t + lower;
    assert "aaaAAAaaa" == mixed;
    forall k | 0 <= k < |lower| ensures !OccursAt(mixed, t, k) {
      Mismatch(mixed, t, k, 0);
    }
    var tail := t[1..] + lower;
    assert tail == "AAaaa";
    forall k | 0 <= k ensures !OccursAt(tail, t, k) {
      if k < 3 {
        Mismatch(tail, t, k, 2 - k);
      }
    }
    CountOneOverlapping(lower, t, lower, 0);
  }

  /** The overlapping fixture "aaa" / "aa" of the library's tests. */
  lemma CountSubstrOverlappingPairExample()
    ensures CountSubstr("aaa", "aa", true, true) == 2
  {
    var t := "aa";
    var a := "a";
    assert "aaa" == "" + t + a;
    OccursBetween("", t, a);
    CountFromStep("aaa", t, true, 0, 0);
    assert "aaa"[1..] == t;
    OccursBetween("", t, "");
    CountFromStep(t, t, true, 1, 0);
    assert t[1..] == a;
    CountFromDone(a, t, true, 2);
  }
}
