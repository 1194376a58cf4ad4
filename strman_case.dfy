/** The case tests and the case swap of strman.Strman, over ASCII letters. */
module StrmanCase {
  import opened Wrappers
  import opened JString

  /** What isUpperCase checks: no char is a lowercase letter. */
  predicate NoLowercase(s: string) {
    forall i | 0 <= i < |s| :: !IsLower(s[i])
  }

  /** What isLowerCase checks: no char is an uppercase letter. */
  predicate NoUppercase(s: string) {
    forall i | 0 <= i < |s| :: !IsUpper(s[i])
  }

  /** isUpperCase(value): scans left to right and stops at the first lowercase letter. */
  method IsUpperCase(value: string) returns (r: bool)
    ensures r <==> NoLowercase(value)
  {
    var i := 0;
    while i < |value|
      invariant 0 <= i <= |value|
      invariant forall j | 0 <= j < i :: !IsLower(value[j])
    {
      if IsLower(value[i]) {
        return false;
      }
      i := i + 1;
    }
    return true;
  }

  /** isLowerCase(value): scans left to right and stops at the first uppercase letter. */
  method IsLowerCase(value: string) returns (r: bool)
    ensures r <==> NoUppercase(value)
  {
    var i := 0;
    while i < |value|
      invariant 0 <= i <= |value|
      invariant forall j | 0 <= j < i :: !IsUpper(value[j])
    {
      if IsUpper(value[i]) {
        return false;
      }
      i := i + 1;
    }
    return true;
  }

  /** The per-char rule of swapCase: an uppercase letter is lowered, anything else is uppercased. */
  function SwapChar(c: char): char {
    if IsUpper(c) then ToLowerChar(c) else ToUpperChar(c)
  }

  /** The string swapCase builds from a nonempty input. */
  function SwappedCase(s: string): string {
    if |s| == 0 then "" else SwappedCase(s[..|s| - 1]) + [SwapChar(s[|s| - 1])]
  }

  /** swapCase(input): null or "" gives ""; otherwise every char goes through the swap rule, in order. */
  method SwapCase(input: Option<string>) returns (r: string)
    ensures input.None? ==> r == ""
    ensures input.Some? ==> r == SwappedCase(input.value)
  {
    if input.None? || |input.value| == 0 {
      return "";
    }
    var s := input.value;
    var sb := "";
    var i := 0;
    while i < |s|
      invariant 0 <= i <= |s|
      invariant sb == SwappedCase(s[..i])
    {
      assert s[..i + 1][..i] == s[..i];
      sb := sb + [SwapChar(s[i])];
      i := i + 1;
    }
    assert s[..i] == s;
    return sb;
  }

  lemma {:induction false} SwappedCaseChars(s: string)
    ensures |SwappedCase(s)| == |s|
    ensures forall i | 0 <= i < |s| :: SwappedCase(s)[i] == SwapChar(s[i])
    decreases |s|
  {
    if |s| > 0 {
      SwappedCaseChars(s[..|s| - 1]);
    }
  }

  /** Swapping twice restores the input. */
  lemma SwapCaseInvolution(s: string)
    ensures SwappedCase(SwappedCase(s)) == s
  {
    var once := SwappedCase(s);
    SwappedCaseChars(s);
    SwappedCaseChars(once);
  }

  /** The swapped string has no uppercase letter exactly when the input has no lowercase letter. */
  lemma SwapCaseExchangesTests(s: string)
    ensures NoUppercase(SwappedCase(s)) <==> NoLowercase(s)
    ensures NoLowercase(SwappedCase(s)) <==> NoUppercase(s)
  {
    SwappedCaseChars(s);
  }

  /** toUpperCase output passes isUpperCase and toLowerCase output passes isLowerCase. */
  lemma CaseMappingsPassTests(s: string)
    ensures NoLowercase(ToUpper(s))
    ensures NoUppercase(ToLower(s))
  {
  }
}
