/**
 * format (`{n}` placeholders) and formatNumber (thousands grouping) of
 * strman.Strman.
 */
module StrmanFormat {
  import opened Wrappers
  import opened JString
  import StrmanCodec

  // ------------------------------------------------------------ formatNumber

  /** A Java long. */
  type Long = n: int | -0x8000_0000_0000_0000 <= n < 0x8000_0000_0000_0000

  /** `s` with a comma before every third char counted from the right, the leftmost group keeping 1-3 chars. */
  function Grouped(s: string): string
    decreases |s|
  {
    if |s| <= 3 then s else Grouped(s[..|s| - 3]) + "," + s[|s| - 3..]
  }

  function Reverse(s: string): (r: string)
    ensures |r| == |s|
  {
    if |s| == 0 then "" else Reverse(s[1..]) + [s[0]]
  }

  lemma {:induction false} ReverseSnoc(s: string, c: char)
    ensures Reverse(s + [c]) == [c] + Reverse(s)
    decreases |s|
  {
    if |s| > 0 {
      assert (s + [c])[1..] == s[1..] + [c];
      ReverseSnoc(s[1..], c);
    } else {
      assert (s + [c])[1..] == s;
    }
  }

  /** Three more digits on the right add one more group. */
  lemma GroupedAppendGroup(head: string, group: string, s: string)
    requires |head| > 0 && |group| == 3 && s == head + group
    ensures Grouped(s) == Grouped(head) + "," + group
  {
    assert s[..|s| - 3] == head && s[|s| - 3..] == group;
  }

  /** Putting one more char in front of a grouped string: a comma follows it when the rest is a whole number of groups. */
  lemma {:induction false} GroupedCons(c: char, t: string)
    ensures Grouped([c] + t) == if |t| > 0 && |t| % 3 == 0 then [c] + "," + Grouped(t) else [c] + Grouped(t)
    decreases |t|
  {
    if |t| > 3 {
      var t', w := t[..|t| - 3], t[|t| - 3..];
      assert t == t' + w;
      GroupedCons(c, t');
      ModThreeShift(|t'|, |t|);
      if |t'| % 3 == 0 {
        GroupedConsComma(c, t, t', w);
      } else {
        GroupedConsPlain(c, t, t', w);
      }
    } else if |t| == 3 {
      var ct := [c] + t;
      assert ct[..|ct| - 3] == [c] && ct[|ct| - 3..] == t;
    }
  }

  /** GroupedCons for t = t' + w when |t'| is a whole number of groups. */
  lemma GroupedConsComma(c: char, t: string, t': string, w: string)
    requires |t'| > 0 && |w| == 3 && t == t' + w
    requires Grouped([c] + t') == [c] + "," + Grouped(t')
    ensures Grouped([c] + t) == [c] + "," + Grouped(t)
  {
    ConsAppend(c, t', w, t);
    GroupedAppendGroup([c] + t', w, [c] + t);
    GroupedAppendGroup(t', w, t);
    Regroup([c] + ",", Grouped(t'), w, Grouped([c] + t), Grouped(t));
  }

  /** GroupedCons for t = t' + w when |t'| is not a whole number of groups. */
  lemma GroupedConsPlain(c: char, t: string, t': string, w: string)
    requires |t'| > 0 && |w| == 3 && t == t' + w
    requires Grouped([c] + t') == [c] + Grouped(t')
    ensures Grouped([c] + t) == [c] + Grouped(t)
  {
    ConsAppend(c, t', w, t);
    GroupedAppendGroup([c] + t', w, [c] + t);
    GroupedAppendGroup(t', w, t);
    Regroup([c], Grouped(t'), w, Grouped([c] + t), Grouped(t));
  }

  lemma ConsAppend(c: char, t': string, w: string, t: string)
    requires t == t' + w
    ensures [c] + t == ([c] + t') + w
  {
  }

  /** x + g + "," + w, regrouped around the last group. */
  lemma Regroup(x: string, g: string, w: string, y: string, z: string)
    requires y == x + g + "," + w && z == g + "," + w
    ensures y == x + z
  {
  }

  lemma ModThreeShift(n: nat, m: nat)
    requires m == n + 3
    ensures m % 3 == n % 3
  {
  }

  /** One step of formatNumber's loop: the builder, reversed, stays the grouped suffix read so far. */
  lemma PushDigit(sb: string, c: char, t: string, comma: bool)
    requires Reverse(sb) == Grouped(t)
    requires comma <==> |t| > 0 && |t| % 3 == 0
    ensures Reverse((if comma then sb + "," else sb) + [c]) == Grouped([c] + t)
  {
    GroupedCons(c, t);
    var sb' := if comma then sb + "," else sb;
    if comma {
      ReverseSnoc(sb, ',');
    }
    ReverseSnoc(sb', c);
  }

  /**
   * formatNumber(number): walks Long.toString(number) from the right,
   * appending a comma before every char whose count of already appended
   * chars is a nonzero multiple of three, and reverses the builder at the end.
   */
  method FormatNumber(number: Long) returns (r: string)
    ensures r == Grouped(IntToString(number))
  {
    var s := IntToString(number);
    var sb := "";
    var bound := |s| - 1;
    var counter := 0;
    var i := bound;
    while i >= 0
      invariant -1 <= i <= bound
      invariant counter == bound - i
      invariant Reverse(sb) == Grouped(s[i + 1..])
    {
      var c := s[i];
      var t := s[i + 1..];
      assert s[i..] == [c] + t;
      PushDigit(sb, c, t, i != bound && counter % 3 == 0);
      if i != bound && counter % 3 == 0 {
        sb := sb + ",";
      }
      sb := sb + [c];
      counter := counter + 1;
      i := i - 1;
    }
    assert s[0..] == s;
    r := Reverse(sb);
  }

  function RemoveCommas(s: string): (r: string)
    ensures |r| <= |s|
  {
    if |s| == 0 then ""
    else (if s[0] == ',' then "" else [s[0]]) + RemoveCommas(s[1..])
  }

  lemma {:induction false} RemoveCommasConcat(a: string, b: string)
    ensures RemoveCommas(a + b) == RemoveCommas(a) + RemoveCommas(b)
    decreases |a|
  {
    if |a| > 0 {
      assert (a + b)[1..] == a[1..] + b;
      RemoveCommasConcat(a[1..], b);
    } else {
      assert a + b == b;
    }
  }

  lemma {:induction false} RemoveCommasNone(s: string)
    requires forall i | 0 <= i < |s| :: s[i] != ','
    ensures RemoveCommas(s) == s
    decreases |s|
  {
    if |s| > 0 {
      RemoveCommasNone(s[1..]);
    }
  }

  /** Grouping only inserts commas: deleting them gives the text back. */
  lemma {:induction false} GroupedRemoveCommas(s: string)
    requires forall i | 0 <= i < |s| :: s[i] != ','
    ensures RemoveCommas(Grouped(s)) == s
    decreases |s|
  {
    if |s| <= 3 {
      RemoveCommasNone(s);
    } else {
      var head := s[..|s| - 3];
      var last := s[|s| - 3..];
      GroupedRemoveCommas(head);
      RemoveCommasNone(last);
      RemoveCommasConcat(Grouped(head) + ",", last);
      RemoveCommasConcat(Grouped(head), ",");
      assert RemoveCommas(",") == "";
      assert head + last == s;
    }
  }

  /** Commas sit exactly at the positions 4, 8, 12, ... counted from the right end. */
  predicate CommasEveryFourth(r: string) {
    forall i | 0 <= i < |r| :: r[i] == ',' <==> (|r| - i) % 4 == 0
  }

  lemma {:induction false} GroupedCommaPositions(s: string)
    requires forall i | 0 <= i < |s| :: s[i] != ','
    ensures CommasEveryFourth(Grouped(s))
    decreases |s|
  {
    if |s| > 3 {
      var head, w := s[..|s| - 3], s[|s| - 3..];
      assert s == head + w;
      GroupedCommaPositions(head);
      GroupedAppendGroup(head, w, s);
      CommasAfterGroup(Grouped(head), w, Grouped(s));
    }
  }

  /** One more comma and a comma-free group of three keep the commas every fourth position. */
  lemma CommasAfterGroup(g: string, w: string, r: string)
    requires CommasEveryFourth(g) && |w| == 3 && forall i | 0 <= i < 3 :: w[i] != ','
    requires r == g + "," + w
    ensures CommasEveryFourth(r)
  {
    forall i | 0 <= i < |r|
      ensures r[i] == ',' <==> (|r| - i) % 4 == 0
    {
      if i < |g| {
        assert r[i] == g[i] && (|r| - i) % 4 == (|g| - i) % 4;
        assert g[i] == ',' <==> (|g| - i) % 4 == 0;
      } else if i == |g| {
        assert r[i] == ',' && |r| - i == 4;
      } else {
        assert r[i] == w[i - |g| - 1];
        assert 1 <= |r| - i <= 3;
      }
    }
  }

  /** The decimal text of a number never holds a comma. */
  lemma {:induction false} NatToStringNoComma(n: nat)
    ensures forall i | 0 <= i < |NatToString(n, 10)| :: NatToString(n, 10)[i] != ','
    decreases n
  {
    if n >= 10 {
      NatToStringNoComma(n / 10);
    }
  }

  /** For n >= 0, formatNumber gives the decimal digits of n cut into groups of three from the right. */
  lemma FormatNumberNonNegative(n: Long)
    requires n >= 0
    ensures RemoveCommas(Grouped(IntToString(n))) == IntToString(n)
    ensures CommasEveryFourth(Grouped(IntToString(n)))
  {
    NatToStringNoComma(n);
    GroupedRemoveCommas(IntToString(n));
    GroupedCommaPositions(IntToString(n));
  }

  /** Decimal digits of the fixtures below. */
  lemma TenThousandDigits()
    ensures NatToString(10000, 10) == "10000"
  {
    assert NatToString(10, 10) == "10";
    assert NatToString(100, 10) == "100";
    assert NatToString(1000, 10) == "1000";
  }

  lemma TenMillionDigits()
    ensures NatToString(10000000, 10) == "10000000"
  {
    TenThousandDigits();
    assert NatToString(100000, 10) == "100000";
    assert NatToString(1000000, 10) == "1000000";
  }

  /** The fixture 1000 of the library's tests. */
  lemma FormatNumberThousandExample()
    ensures Grouped(IntToString(1000)) == "1,000"
  {
    assert NatToString(10, 10) == "10";
    assert NatToString(100, 10) == "100";
    assert NatToString(1000, 10) == "1000";
    assert Grouped("1000") == Grouped("1") + "," + "000";
  }

  /** The fixture 100000 of the library's tests. */
  lemma FormatNumberHundredThousandExample()
    ensures Grouped(IntToString(100000)) == "100,000"
  {
    TenThousandDigits();
    assert NatToString(100000, 10) == "100000";
    assert Grouped("100000") == Grouped("100") + "," + "000";
  }

  /** The fixture 10000000 of the library's tests. */
  lemma FormatNumberTenMillionExample()
    ensures Grouped(IntToString(10000000)) == "10,000,000"
  {
    TenMillionDigits();
    var ten, zeros := "10", "000";
    assert "10000000" == (ten + zeros) + zeros;
    GroupedAppendGroup(ten, zeros, ten + zeros);
    GroupedAppendGroup(ten + zeros, zeros, "10000000");
    assert Grouped(ten) == ten;
  }

  lemma HundredMillionDigits()
    ensures NatToString(100000000, 10) == "100000000"
  {
    TenMillionDigits();
  }

  /** The fixture 100000000 of the library's tests. */
  lemma FormatNumberHundredMillionExample()
    ensures Grouped(IntToString(100000000)) == "100,000,000"
  {
    HundredMillionDigits();
    var hundred, zeros := "100", "000";
    assert "100000000" == (hundred + zeros) + zeros;
    GroupedAppendGroup(hundred, zeros, hundred + zeros);
    GroupedAppendGroup(hundred + zeros, zeros, "100000000");
    assert Grouped(hundred) == hundred;
  }

  /** As written, the minus sign counts as a digit: -123 becomes "-,123". */
  lemma FormatNumberNegativeCounterexample()
    ensures Grouped(IntToString(-123)) == "-,123"
  {
    assert NatToString(12, 10) == "12";
    assert NatToString(123, 10) == "123";
    assert IntToString(-123) == "-123";
    assert Grouped("-123") == Grouped("-") + "," + "123";
  }

  /** The evidently intended formatNumber: the sign stays in front of the grouped digits. */
  function GroupedNumber(n: Long): (r: string)
  {
    if n < 0 then "-" + Grouped(NatToString(-(n as int), 10)) else Grouped(NatToString(n, 10))
  }

  /** The corrected form agrees with formatNumber for n >= 0 and never puts a comma right after the sign. */
  lemma GroupedNumberCorrect(n: Long)
    ensures RemoveCommas(GroupedNumber(n)) == IntToString(n)
    ensures n >= 0 ==> GroupedNumber(n) == Grouped(IntToString(n))
    ensures n < 0 ==> GroupedNumber(n)[0] == '-' && GroupedNumber(n)[1] != ','
    ensures CommasEveryFourth(if n < 0 then GroupedNumber(n)[1..] else GroupedNumber(n))
  {
    var m: nat := if n < 0 then -(n as int) else n;
    var d := NatToString(m, 10);
    NatToStringNoComma(m);
    GroupedRemoveCommas(d);
    GroupedCommaPositions(d);
    var g := Grouped(d);
    if n < 0 {
      RemoveCommasConcat("-", g);
      assert RemoveCommas("-") == "-";
      assert GroupedNumber(n)[1..] == g;
      GroupedFirstNotComma(d);
    }
  }

  /** The leftmost group is never empty. */
  lemma {:induction false} GroupedFirstNotComma(s: string)
    requires |s| > 0 && forall i | 0 <= i < |s| :: s[i] != ','
    ensures Grouped(s)[0] == s[0]
    decreases |s|
  {
    if |s| > 3 {
      var head := s[..|s| - 3];
      GroupedFirstNotComma(head);
      assert Grouped(s)[0] == Grouped(head)[0];
    }
  }

  // ------------------------------------------------------------------ format

  /** The pattern \{(\w+)} matches value[k..e + 1]: a '{', one or more word chars, and the '}' at e. */
  predicate PlaceholderAt(value: string, k: int, e: int) {
    && 0 <= k && k + 1 < e < |value|
    && value[k] == '{' && value[e] == '}'
    && forall j | k < j < e :: IsWordChar(value[j])
  }

  /** There is at most one match starting at k: a '}' ends the run of word chars. */
  lemma PlaceholderUnique(value: string, k: int, e: int, e': int)
    requires PlaceholderAt(value, k, e) && PlaceholderAt(value, k, e')
    ensures e == e'
  {
    assert !IsWordChar(value[e]) && !IsWordChar(value[e']);
  }

  /** The end of the run of word chars that starts at j. */
  function WordRunEnd(value: string, j: nat): (e: nat)
    requires j <= |value|
    ensures j <= e <= |value|
    ensures forall q | j <= q < e :: IsWordChar(value[q])
    ensures e < |value| ==> !IsWordChar(value[e])
    decreases |value| - j
  {
    if j < |value| && IsWordChar(value[j]) then WordRunEnd(value, j + 1) else j
  }

  /** Matcher.find() from position `from`: the first match that starts there or later. */
  function FindPlaceholder(value: string, from: nat): (r: Option<(nat, nat)>)
    requires from <= |value|
    ensures r.Some? ==> from <= r.value.0 && PlaceholderAt(value, r.value.0, r.value.1)
    ensures r.Some? ==> forall k, e | from <= k < r.value.0 :: !PlaceholderAt(value, k, e)
    ensures r.None? ==> forall k, e | from <= k :: !PlaceholderAt(value, k, e)
    decreases |value| - from
  {
    if from == |value| then None
    else if value[from] == '{' && WordRunEnd(value, from + 1) > from + 1
      && WordRunEnd(value, from + 1) < |value| && value[WordRunEnd(value, from + 1)] == '}'
    then Some((from, WordRunEnd(value, from + 1)))
    else
      assert forall e :: !PlaceholderAt(value, from, e);
      FindPlaceholder(value, from + 1)
  }

  /** The matches that repeated find() calls visit from `from` on, in order and without overlapping. */
  function PlaceholdersFrom(value: string, from: nat): (r: seq<(nat, nat)>)
    requires from <= |value|
    ensures forall i | 0 <= i < |r| :: from <= r[i].0 && PlaceholderAt(value, r[i].0, r[i].1)
    ensures forall i, j | 0 <= i < j < |r| :: r[i].1 < r[j].0
    decreases |value| - from
  {
    match FindPlaceholder(value, from)
    case None => []
    case Some(m) => [m] + PlaceholdersFrom(value, m.1 + 1)
  }

  /** No placeholder starting at or after `from` is skipped: none can start inside an earlier match. */
  lemma {:induction false} PlaceholdersComplete(value: string, from: nat, k: nat, e: nat)
    requires from <= k <= |value| && PlaceholderAt(value, k, e)
    ensures (k, e) in PlaceholdersFrom(value, from)
    decreases |value| - from
  {
    FindReaches(value, from, k, e);
    var m := FindPlaceholder(value, from).value;
    PlaceholdersFromFound(value, from);
    if k == m.0 {
      PlaceholderUnique(value, k, e, m.1);
    } else {
      PlaceholdersComplete(value, m.1 + 1, k, e);
    }
  }

  /** A match at k >= from is found, either itself or one that ends before k. */
  lemma FindReaches(value: string, from: nat, k: nat, e: nat)
    requires from <= k <= |value| && PlaceholderAt(value, k, e)
    ensures FindPlaceholder(value, from).Some?
    ensures FindPlaceholder(value, from).value.0 == k || FindPlaceholder(value, from).value.1 < k
  {
    var m := FindPlaceholder(value, from).value;
    if k != m.0 {
      assert m.0 < k;
      assert !IsWordChar(value[k]);
      assert value[m.1] == '}' && value[k] == '{';
    }
  }

  /** When find() succeeds, the visited matches are that one followed by those after it. */
  lemma PlaceholdersFromFound(value: string, from: nat)
    requires from <= |value| && FindPlaceholder(value, from).Some?
    ensures PlaceholdersFrom(value, from)
         == [FindPlaceholder(value, from).value] + PlaceholdersFrom(value, FindPlaceholder(value, from).value.1 + 1)
  {
  }

  /** The placeholder text "{...}" of a match, and the index text inside it. */
  function Whole(value: string, m: (nat, nat)): string
    requires m.0 <= m.1 < |value|
  {
    value[m.0..m.1 + 1]
  }

  function Group(value: string, m: (nat, nat)): string
    requires m.0 < m.1 < |value|
  {
    value[m.0 + 1..m.1]
  }

  /** Whether the index text of a match names one of the params. */
  predicate HasParam(value: string, m: (nat, nat), params: seq<string>)
    requires m.0 < m.1 < |value|
  {
    var n := StrmanCodec.ParseInt(Group(value, m), 10);
    n.Success? && n.value < |params|
  }

  /**
   * One pass of the loop body per match: parse the index (a
   * NumberFormatException when it is not a decimal int), reject an index
   * past the params, and replace every copy of the placeholder in the
   * text built so far.
   */
  function ApplyPlaceholders(value: string, ms: seq<(nat, nat)>, params: seq<string>, result: string): Result<string>
    requires forall i | 0 <= i < |ms| :: PlaceholderAt(value, ms[i].0, ms[i].1)
  {
    if |ms| == 0 then Success(result)
    else
      var m := ms[0];
      assert PlaceholderAt(value, m.0, m.1);
      var n :- StrmanCodec.ParseInt(Group(value, m), 10);
      if n >= |params| then Failure(IllegalArgument("params does not have value for " + Whole(value, m)))
      else
        assert n >= 0 by {
          assert IsWordChar(value[m.0 + 1]);
        }
        ApplyPlaceholders(value, ms[1..], params, Replace(result, Whole(value, m), params[n]))
  }

  /** What format(value, params...) computes. */
  function FormatSpec(value: string, params: seq<string>): Result<string> {
    ApplyPlaceholders(value, PlaceholdersFrom(value, 0), params, value)
  }

  /** The loop state of format: applying the matches from `from` on to `result` gives `spec`. */
  ghost predicate FormatPending(value: string, params: seq<string>, from: nat, result: string, spec: Result<string>) {
    from <= |value| && spec == ApplyPlaceholders(value, PlaceholdersFrom(value, from), params, result)
  }

  /**
   * format(value, params...): a `while (m.find())` loop over the matches of
   * \{(\w+)} in the original value, each one replaced in the evolving result.
   */
  method Format(value: string, params: seq<string>) returns (r: Result<string>)
    ensures r == FormatSpec(value, params)
  {
    var result := value;
    var from: nat := 0;
    ghost var spec := FormatSpec(value, params);
    while true
      invariant FormatPending(value, params, from, result, spec)
      decreases |value| - from
    {
      var found := FindPlaceholder(value, from);
      if found.None? {
        assert PlaceholdersFrom(value, from) == [];
        return Success(result);
      }
      var m := found.value;
      var n := StrmanCodec.ParseInt(Group(value, m), 10);
      ApplyFirstMatch(value, from, params, result, m, n);
      if n.Failure? {
        return Failure(n.error);
      }
      if n.value >= |params| {
        return Failure(IllegalArgument("params does not have value for " + Whole(value, m)));
      }
      var next := Replace(result, Whole(value, m), params[n.value]);
      ghost var oldFrom, oldResult := from, result;
      result := next;
      from := m.1 + 1;
      FormatStep(value, params, oldFrom, oldResult, spec, m, n.value, from, result);
    }
  }

  /** One turn of the format loop keeps its state: the next match starts past `m`. */
  lemma FormatStep(value: string, params: seq<string>, from: nat, result: string, spec: Result<string>, m: (nat, nat), n: nat, from': nat, next: string)
    requires FormatPending(value, params, from, result, spec) && FindPlaceholder(value, from) == Some(m)
    requires StrmanCodec.ParseInt(Group(value, m), 10) == Success(n) && n < |params|
    requires from' == m.1 + 1 && next == Replace(result, Whole(value, m), params[n])
    ensures from < from'
    ensures FormatPending(value, params, from', next, spec)
  {
    ApplyFirstMatch(value, from, params, result, m, StrmanCodec.ParseInt(Group(value, m), 10));
  }

  /** One turn of the loop, as the fold sees it: the match `m` with index text parsed to `n`. */
  lemma ApplyFirstMatch(value: string, from: nat, params: seq<string>, result: string, m: (nat, nat), n: Result<int>)
    requires from <= |value| && FindPlaceholder(value, from) == Some(m)
    requires n == StrmanCodec.ParseInt(Group(value, m), 10)
    ensures n.Failure? ==> ApplyPlaceholders(value, PlaceholdersFrom(value, from), params, result) == Failure(n.error)
    ensures n.Success? ==> n.value >= 0
    ensures n.Success? && n.value >= |params| ==>
      ApplyPlaceholders(value, PlaceholdersFrom(value, from), params, result)
      == Failure(IllegalArgument("params does not have value for " + Whole(value, m)))
    ensures n.Success? && n.value < |params| ==>
      ApplyPlaceholders(value, PlaceholdersFrom(value, from), params, result)
      == ApplyPlaceholders(value, PlaceholdersFrom(value, m.1 + 1), params, Replace(result, Whole(value, m), params[n.value]))
  {
    var ms := PlaceholdersFrom(value, from);
    assert ms[0] == m && ms[1..] == PlaceholdersFrom(value, m.1 + 1);
    assert IsWordChar(value[m.0 + 1]);
  }

  /** The fold succeeds exactly when every match names a param. */
  lemma {:induction false} ApplySucceedsIff(value: string, ms: seq<(nat, nat)>, params: seq<string>, result: string)
    requires forall i | 0 <= i < |ms| :: PlaceholderAt(value, ms[i].0, ms[i].1)
    ensures ApplyPlaceholders(value, ms, params, result).Success?
        <==> forall i | 0 <= i < |ms| :: HasParam(value, ms[i], params)
    decreases |ms|
  {
    if |ms| > 0 {
      var m := ms[0];
      var n := StrmanCodec.ParseInt(Group(value, m), 10);
      if n.Success? && n.value < |params| {
        assert IsWordChar(value[m.0 + 1]);
        ApplySucceedsIff(value, ms[1..], params, Replace(result, Whole(value, m), params[n.value]));
        assert forall i | 1 <= i < |ms| :: ms[i] == ms[1..][i - 1];
      }
    }
  }

  /** format succeeds exactly when every placeholder of the value holds a decimal index below the number of params. */
  lemma FormatSucceedsIff(value: string, params: seq<string>)
    ensures FormatSpec(value, params).Success?
        <==> forall k, e | PlaceholderAt(value, k, e) :: HasParam(value, (k, e), params)
  {
    var ms := PlaceholdersFrom(value, 0);
    ApplySucceedsIff(value, ms, params, value);
    forall k, e | PlaceholderAt(value, k, e)
      ensures (k, e) in ms
    {
      PlaceholdersComplete(value, 0, k, e);
    }
  }

  /** A value without placeholders comes back unchanged. */
  lemma FormatWithoutPlaceholders(value: string, params: seq<string>)
    requires forall k, e :: !PlaceholderAt(value, k, e)
    ensures FormatSpec(value, params) == Success(value)
  {
    assert PlaceholdersFrom(value, 0) == [];
  }

  // ------------------------------------------------------ placeholder splices

  predicate NoOpenBrace(s: string) {
    forall i | 0 <= i < |s| :: s[i] != '{'
  }

  /** An index text the pattern's group (\w+) can match. */
  predicate IsName(name: string) {
    |name| > 0 && forall i | 0 <= i < |name| :: IsWordChar(name[i])
  }

  /** The text "{name}" of a placeholder. */
  function Braced(name: string): (r: string)
    ensures |r| == |name| + 2 && r[0] == '{'
  {
    "{" + name + "}"
  }

  /** The chars of "{name}" one by one. */
  lemma BracedChars(name: string)
    ensures Braced(name)[|name| + 1] == '}'
    ensures forall i | 0 <= i < |name| :: Braced(name)[i + 1] == name[i]
  {
  }

  /** "{name}" sits at |pre| in pre + "{name}" + post. */
  lemma BracedAt(pre: string, name: string, post: string)
    requires IsName(name)
    ensures PlaceholderAt(pre + Braced(name) + post, |pre|, |pre| + |name| + 1)
  {
    var v := pre + Braced(name) + post;
    var k := |pre|;
    forall j | k < j < k + |name| + 1
      ensures IsWordChar(v[j])
    {
      assert v[j] == name[j - k - 1];
    }
  }

  /** The placeholder and index texts of the match at |pre|. */
  lemma BracedTexts(pre: string, name: string, post: string)
    requires IsName(name)
    ensures Group(pre + Braced(name) + post, (|pre|, |pre| + |name| + 1)) == name
    ensures Whole(pre + Braced(name) + post, (|pre|, |pre| + |name| + 1)) == Braced(name)
  {
    var v := pre + Braced(name) + post;
    var k := |pre|;
    assert v[k..k + |name| + 2] == Braced(name);
    assert Braced(name)[1..|name| + 1] == name;
  }

  /** find() from `from` stops at the first '{' that opens a placeholder when no '{' comes before it. */
  lemma FindNext(value: string, from: nat, k: nat, e: nat)
    requires from <= k && PlaceholderAt(value, k, e)
    requires NoOpenBrace(value[from..k])
    ensures PlaceholdersFrom(value, from) == [(k, e)] + PlaceholdersFrom(value, e + 1)
  {
    FindReaches(value, from, k, e);
    var m := FindPlaceholder(value, from).value;
    assert forall i | from <= i < k :: value[from..k][i - from] == value[i];
    PlaceholderUnique(value, k, e, m.1);
    PlaceholdersFromFound(value, from);
  }

  /** find() from `from` finds nothing when no '{' follows. */
  lemma FindNone(value: string, from: nat)
    requires from <= |value| && NoOpenBrace(value[from..])
    ensures PlaceholdersFrom(value, from) == []
  {
    assert forall i | from <= i < |value| :: value[from..][i - from] == value[i];
  }

  /** In pre + "{name}" + post with no other '{', find() visits that one placeholder only. */
  lemma OnePlaceholder(pre: string, name: string, post: string, v: string)
    requires NoOpenBrace(pre) && NoOpenBrace(post) && IsName(name) && v == pre + Braced(name) + post
    ensures PlaceholdersFrom(v, 0) == [(|pre|, |pre| + |name| + 1)]
  {
    BracedAt(pre, name, post);
    SpliceParts(pre, Braced(name), post);
    OnlyPlaceholder(v, |pre|, |pre| + |name| + 1);
  }

  /** The parts of pre + x + post, read back by position. */
  lemma SpliceParts(pre: string, x: string, post: string)
    ensures (pre + x + post)[0..|pre|] == pre
    ensures (pre + x + post)[|pre| + |x|..] == post
  {
  }

  /** The parts of pre + x + mid + y + post, read back by position. */
  lemma TwoSpliceParts(pre: string, x: string, mid: string, y: string, post: string, front: string, v: string)
    requires front == pre + x + mid && v == front + y + post
    ensures |front| == |pre| + |x| + |mid| && |v| == |front| + |y| + |post|
    ensures v[0..|pre|] == pre && v[|pre| + |x|..|front|] == mid && v[|front| + |y|..] == post
    ensures v[|pre|..|pre| + |x|] == x && v[|front|..|front| + |y|] == y
  {
  }

  /** The match at k is the only one when no other '{' occurs. */
  lemma OnlyPlaceholder(v: string, k: nat, e: nat)
    requires PlaceholderAt(v, k, e) && NoOpenBrace(v[0..k]) && NoOpenBrace(v[e + 1..])
    ensures PlaceholdersFrom(v, 0) == [(k, e)]
  {
    OnlyFrom(v, 0, k, e);
  }

  /** From `from` on, the match at k is the only one when no other '{' follows `from`. */
  lemma OnlyFrom(v: string, from: nat, k: nat, e: nat)
    requires from <= k && PlaceholderAt(v, k, e) && NoOpenBrace(v[from..k]) && NoOpenBrace(v[e + 1..])
    ensures PlaceholdersFrom(v, from) == [(k, e)]
  {
    FindNext(v, from, k, e);
    FindNone(v, e + 1);
    var rest := PlaceholdersFrom(v, e + 1);
    assert [(k, e)] + rest == [(k, e)];
  }

  /** The matches at k1 and k2 are the only ones when no other '{' occurs. */
  lemma OnlyTwoPlaceholders(v: string, k1: nat, e1: nat, k2: nat, e2: nat)
    requires PlaceholderAt(v, k1, e1) && PlaceholderAt(v, k2, e2) && e1 + 1 <= k2
    requires NoOpenBrace(v[0..k1]) && NoOpenBrace(v[e1 + 1..k2]) && NoOpenBrace(v[e2 + 1..])
    ensures PlaceholdersFrom(v, 0) == [(k1, e1), (k2, e2)]
  {
    OnlyFrom(v, e1 + 1, k2, e2);
    FindNext(v, 0, k1, e1);
    ThenOne((k1, e1), (k2, e2), PlaceholdersFrom(v, 0), PlaceholdersFrom(v, e1 + 1));
  }

  /** A list that is a followed by the one-element list [b]. */
  lemma ThenOne(a: (nat, nat), b: (nat, nat), x: seq<(nat, nat)>, y: seq<(nat, nat)>)
    requires x == [a] + y && y == [b]
    ensures x == [a, b]
  {
  }

  /** Applying a single match: the parsed index selects the param, or the error names the placeholder. */
  lemma ApplyOne(value: string, m: (nat, nat), params: seq<string>, result: string, n: int)
    requires PlaceholderAt(value, m.0, m.1) && StrmanCodec.ParseInt(Group(value, m), 10) == Success(n)
    ensures n < |params| ==> n >= 0 && ApplyPlaceholders(value, [m], params, result) == Success(Replace(result, Whole(value, m), params[n]))
    ensures n >= |params| ==>
      ApplyPlaceholders(value, [m], params, result) == Failure(IllegalArgument("params does not have value for " + Whole(value, m)))
  {
    assert IsWordChar(value[m.0 + 1]);
    assert [m][0] == m && [m][1..] == [];
  }

  /** Two different placeholder texts: neither occurs at the start of the other. */
  lemma BracedDistinct(a: string, b: string, post: string)
    requires IsName(a) && IsName(b) && a != b
    ensures !OccursAt(Braced(b) + post, Braced(a), 0)
  {
    var A, B := Braced(a), Braced(b);
    var s := B + post;
    if |a| < |b| {
      assert A[|a| + 1] == '}' && s[|a| + 1] == b[|a|];
      MismatchAt(s, A, |a| + 1);
    } else if |a| > |b| {
      assert s[|b| + 1] == '}' && A[|b| + 1] == a[|b|];
      MismatchAt(s, A, |b| + 1);
    } else {
      SameLengthDiffer(a, b);
      var j :| 0 <= j < |a| && a[j] != b[j];
      assert A[j + 1] == a[j] && s[j + 1] == b[j];
      MismatchAt(s, A, j + 1);
    }
  }

  /** Two different texts of one length differ at some index. */
  lemma SameLengthDiffer(a: string, b: string)
    requires |a| == |b|
    ensures a == b || exists j | 0 <= j < |a| :: a[j] != b[j]
  {
    if forall j | 0 <= j < |a| :: a[j] == b[j] {
      assert a == b;
    }
  }

  /** A text that differs from `t` at index i < |t| does not start with `t`. */
  lemma MismatchAt(s: string, t: string, i: nat)
    requires i < |t| && i < |s| && s[i] != t[i]
    ensures !OccursAt(s, t, 0)
  {
    if |t| <= |s| {
      assert s[0..|t|][i] == s[i];
    }
  }

  /** An occurrence right after x in x + y is one at the start of y. */
  lemma OccursAfter(x: string, y: string, t: string)
    ensures OccursAt(x + y, t, |x|) <==> OccursAt(y, t, 0)
  {
    if |x| + |t| <= |x + y| {
      assert (x + y)[|x|..|x| + |t|] == y[0..|t|];
    }
  }

  /**
   * format(pre + "{name}" + post, params...) with no other '{' in the value:
   * the one placeholder becomes the param it names, or the error names it.
   */
  lemma FormatSplice(pre: string, name: string, post: string, params: seq<string>, n: int, v: string)
    requires NoOpenBrace(pre) && NoOpenBrace(post) && IsName(name) && v == pre + Braced(name) + post
    requires StrmanCodec.ParseInt(name, 10) == Success(n)
    ensures n < |params| ==> FormatSpec(v, params) == Success(pre + params[n] + post)
    ensures n >= |params| ==> FormatSpec(v, params) == Failure(IllegalArgument("params does not have value for " + Braced(name)))
  {
    var m := (|pre|, |pre| + |name| + 1);
    BracedAt(pre, name, post);
    BracedTexts(pre, name, post);
    OnePlaceholder(pre, name, post, v);
    ApplyOne(v, m, params, v, n);
    if n < |params| {
      FirstCharAbsent(post, Braced(name));
      ReplaceOnce(pre, Braced(name), post, params[n]);
    }
  }

  /** Applying two matches in turn. */
  lemma ApplyTwo(value: string, m1: (nat, nat), m2: (nat, nat), params: seq<string>, result: string, n1: int, n2: int)
    requires AllAt(value, [m1, m2])
    requires PlaceholderAt(value, m1.0, m1.1) && StrmanCodec.ParseInt(Group(value, m1), 10) == Success(n1)
    requires PlaceholderAt(value, m2.0, m2.1) && StrmanCodec.ParseInt(Group(value, m2), 10) == Success(n2)
    requires n1 < |params| && n2 < |params|
    ensures n1 >= 0 && n2 >= 0
    ensures ApplyPlaceholders(value, [m1, m2], params, result)
         == Success(Replace(Replace(result, Whole(value, m1), params[n1]), Whole(value, m2), params[n2]))
  {
    assert IsWordChar(value[m1.0 + 1]);
    assert [m1, m2][0] == m1 && [m1, m2][1..] == [m2];
    ApplyOne(value, m2, params, Replace(result, Whole(value, m1), params[n1]), n2);
  }

  /**
   * format(pre + "{a}" + mid + "{b}" + post, params...) with two different
   * placeholders, no other '{' in the value and none in the first param:
   * each placeholder becomes the param it names.
   */
  lemma FormatSpliceTwo(pre: string, a: string, mid: string, b: string, post: string, params: seq<string>, na: int, nb: int, v: string)
    requires NoOpenBrace(pre) && NoOpenBrace(mid) && NoOpenBrace(post) && IsName(a) && IsName(b) && a != b
    requires v == pre + Braced(a) + mid + Braced(b) + post
    requires StrmanCodec.ParseInt(a, 10) == Success(na) && StrmanCodec.ParseInt(b, 10) == Success(nb)
    requires na < |params| && nb < |params| && NoOpenBrace(params[na])
    ensures na >= 0 && nb >= 0
    ensures FormatSpec(v, params) == Success(pre + params[na] + mid + params[nb] + post)
  {
    var A, B := Braced(a), Braced(b);
    FormatTwoReplaces(pre, a, mid, b, post, params, na, nb, v);
    var front := pre + params[na] + mid;
    SplicedFirst(pre, a, b, mid, post, params[na], v, front);
    NoOpenBraceJoin(pre, params[na], mid);
    SplicedSecond(front, b, post, params[nb]);
  }

  /** Formatting two placeholders replaces "{a}", then "{b}". */
  lemma FormatTwoReplaces(pre: string, a: string, mid: string, b: string, post: string, params: seq<string>, na: int, nb: int, v: string)
    requires NoOpenBrace(pre) && NoOpenBrace(mid) && NoOpenBrace(post) && IsName(a) && IsName(b)
    requires v == pre + Braced(a) + mid + Braced(b) + post
    requires StrmanCodec.ParseInt(a, 10) == Success(na) && StrmanCodec.ParseInt(b, 10) == Success(nb)
    requires na < |params| && nb < |params|
    ensures na >= 0 && nb >= 0
    ensures FormatSpec(v, params) == Success(Replace(Replace(v, Braced(a), params[na]), Braced(b), params[nb]))
  {
    var k2 := |pre| + |a| + 2 + |mid|;
    var m1: (nat, nat), m2: (nat, nat) := (|pre|, |pre| + |a| + 1), (k2, k2 + |b| + 1);
    TwoMatchFacts(pre, a, mid, b, post, v, m1, m2);
    FormatTwoMatches(v, m1, m2, params, a, b, na, nb);
  }

  /** The two matches of pre + "{a}" + mid + "{b}" + post, with their texts. */
  lemma TwoMatchFacts(pre: string, a: string, mid: string, b: string, post: string, v: string, m1: (nat, nat), m2: (nat, nat))
    requires NoOpenBrace(pre) && NoOpenBrace(mid) && NoOpenBrace(post) && IsName(a) && IsName(b)
    requires v == pre + Braced(a) + mid + Braced(b) + post
    requires m1 == (|pre|, |pre| + |a| + 1) && m2 == (|pre| + |a| + 2 + |mid|, |pre| + |a| + 2 + |mid| + |b| + 1)
    ensures PlaceholdersFrom(v, 0) == [m1, m2]
    ensures PlaceholderAt(v, m1.0, m1.1) && Group(v, m1) == a && Whole(v, m1) == Braced(a)
    ensures PlaceholderAt(v, m2.0, m2.1) && Group(v, m2) == b && Whole(v, m2) == Braced(b)
  {
    var front := pre + Braced(a) + mid;
    TwoSpliceParts(pre, Braced(a), mid, Braced(b), post, front, v);
    MatchAt(v, a, m1.0, m1.1);
    MatchAt(v, b, m2.0, m2.1);
    OnlyTwoPlaceholders(v, m1.0, m1.1, m2.0, m2.1);
  }

  /** A placeholder whose text "{name}" sits at k in v, with its index text and whole text. */
  lemma MatchAt(v: string, name: string, k: nat, e: nat)
    requires IsName(name) && e == k + |name| + 1 && e < |v| && v[k..e + 1] == Braced(name)
    ensures PlaceholderAt(v, k, e) && Group(v, (k, e)) == name && Whole(v, (k, e)) == Braced(name)
  {
    var w := v[k..e + 1];
    BracedChars(name);
    assert v[k] == w[0];
    assert v[e] == w[|name| + 1];
    forall j | k < j < e
      ensures IsWordChar(v[j])
    {
      assert v[j] == w[j - k];
      assert w[j - k] == name[j - k - 1];
    }
    assert forall i | 0 <= i < |name| :: v[k + 1..e][i] == name[i];
    assert v[k + 1..e] == name;
  }

  /** Every listed match is a placeholder of `value`. */
  predicate AllAt(value: string, ms: seq<(nat, nat)>) {
    forall i | 0 <= i < |ms| :: PlaceholderAt(value, ms[i].0, ms[i].1)
  }

  /** With exactly two matches, texts {a} and {b}, format replaces them in turn. */
  lemma FormatTwoMatches(v: string, m1: (nat, nat), m2: (nat, nat), params: seq<string>, a: string, b: string, na: int, nb: int)
    requires PlaceholdersFrom(v, 0) == [m1, m2]
    requires PlaceholderAt(v, m1.0, m1.1) && Group(v, m1) == a && Whole(v, m1) == Braced(a)
    requires PlaceholderAt(v, m2.0, m2.1) && Group(v, m2) == b && Whole(v, m2) == Braced(b)
    requires StrmanCodec.ParseInt(a, 10) == Success(na) && StrmanCodec.ParseInt(b, 10) == Success(nb)
    requires na < |params| && nb < |params|
    ensures na >= 0 && nb >= 0
    ensures FormatSpec(v, params) == Success(Replace(Replace(v, Braced(a), params[na]), Braced(b), params[nb]))
  {
    ApplyTwo(v, m1, m2, params, v, na, nb);
  }

  /** No '{' in any of three texts means none in their concatenation. */
  lemma NoOpenBraceJoin(x: string, y: string, z: string)
    requires NoOpenBrace(x) && NoOpenBrace(y) && NoOpenBrace(z)
    ensures NoOpenBrace(x + y + z)
  {
    var s := x + y + z;
    forall i | 0 <= i < |s|
      ensures s[i] != '{'
    {
      if i < |x| {
        assert s[i] == x[i];
      } else if i < |x| + |y| {
        assert s[i] == y[i - |x|];
      } else {
        assert s[i] == z[i - |x| - |y|];
      }
    }
  }

  /** The first replacement of FormatSpliceTwo: "{a}" occurs once, and "{b}" is not a copy of it. */
  lemma SplicedFirst(pre: string, a: string, b: string, mid: string, post: string, pa: string, v: string, front: string)
    requires NoOpenBrace(pre) && NoOpenBrace(mid) && NoOpenBrace(post) && IsName(a) && IsName(b) && a != b
    requires v == pre + Braced(a) + mid + Braced(b) + post && front == pre + pa + mid
    ensures Replace(v, Braced(a), pa) == front + Braced(b) + post
  {
    var A, B := Braced(a), Braced(b);
    var s := mid + (B + post);
    assert s == mid + B + post;
    assert v == pre + A + s;
    forall k | 0 <= k
      ensures !OccursAt(s, A, k)
    {
      OccursStartsWith(s, A, k);
      if k == |mid| {
        BracedDistinct(a, b, post);
        OccursAfter(mid, B + post, A);
      } else if k < |mid| {
        assert s[k] == mid[k];
      } else if k < |mid| + |B| {
        var q := k - |mid|;
        assert s[k] == B[q];
        assert B[q] == '}' || B[q] == b[q - 1];
      } else if k < |s| {
        assert s[k] == post[k - |mid| - |B|];
      }
    }
    ReplaceOnce(pre, A, s, pa);
    assert pre + pa + s == front + B + post;
  }

  /** The second replacement of FormatSpliceTwo: "{b}" occurs once in the text after the first. */
  lemma SplicedSecond(front: string, b: string, post: string, pb: string)
    requires NoOpenBrace(front) && NoOpenBrace(post) && IsName(b)
    ensures Replace(front + Braced(b) + post, Braced(b), pb) == front + pb + post
  {
    FirstCharAbsent(post, Braced(b));
    ReplaceOnce(front, Braced(b), post, pb);
  }

  /** pre + "{name}" + post as a splice of one placeholder. */
  lemma BracedOne(v: string, pre: string, name: string, post: string)
    requires v == pre + "{" + name + "}" + post
    ensures v == pre + Braced(name) + post
  {
  }

  /** "foo" in front of " bar". */
  lemma FooInFront(x: string)
    requires x == "foo"
    ensures "" + x + " bar" == "foo bar"
  {
  }

  /** "bar" after "foo ". */
  lemma BarBehind(x: string)
    requires x == "bar"
    ensures "foo " + x + "" == "foo bar"
  {
  }

  /** "{a} {b}" as a splice of two placeholders. */
  lemma BracedPair(v: string, a: string, b: string)
    requires v == "{" + a + "} {" + b + "}"
    ensures v == "" + Braced(a) + " " + Braced(b) + ""
  {
  }

  /** "foo" and "bar" joined by one space. */
  lemma SpacedPair(x: string, y: string)
    requires x == "foo" && y == "bar"
    ensures "" + x + " " + y + "" == "foo bar"
  {
  }

  lemma ParseSmallIndices()
    ensures StrmanCodec.ParseInt("0", 10) == Success(0)
    ensures StrmanCodec.ParseInt("1", 10) == Success(1)
  {
    assert "0"[..0] == "" && "1"[..0] == "";
    assert StrmanCodec.Value("0", 10) == 0 && StrmanCodec.Value("1", 10) == 1;
  }

  /**
   * The fixtures of the library's format test: every one gives "foo bar".
   * Each takes the value as a parameter equal to the fixture's literal.
   */
  lemma FormatLeadingExample(v: string)
    requires v == "{0} bar"
    ensures FormatSpec(v, ["foo"]) == Success("foo bar")
  {
    ParseSmallIndices();
    assert IsName("0");
    BracedOne(v, "", "0", " bar");
    var params := ["foo"];
    FormatSplice("", "0", " bar", params, 0, v);
    FooInFront(params[0]);
  }

  lemma FormatTrailingExample(v: string)
    requires v == "foo {0}"
    ensures FormatSpec(v, ["bar"]) == Success("foo bar")
  {
    ParseSmallIndices();
    assert IsName("0");
    BracedOne(v, "foo ", "0", "");
    var params := ["bar"];
    FormatSplice("foo ", "0", "", params, 0, v);
    BarBehind(params[0]);
  }

  lemma FormatSpareParamExample(v: string)
    requires v == "foo {0}"
    ensures FormatSpec(v, ["bar", "foo"]) == Success("foo bar")
  {
    ParseSmallIndices();
    assert IsName("0");
    BracedOne(v, "foo ", "0", "");
    var params := ["bar", "foo"];
    FormatSplice("foo ", "0", "", params, 0, v);
    BarBehind(params[0]);
  }

  lemma FormatTwoInOrderExample(v: string)
    requires v == "{0} {1}"
    ensures FormatSpec(v, ["foo", "bar"]) == Success("foo bar")
  {
    ParseSmallIndices();
    assert IsName("0") && IsName("1") && "0" != "1";
    BracedPair(v, "0", "1");
    var params := ["foo", "bar"];
    FormatSpliceTwo("", "0", " ", "1", "", params, 0, 1, v);
    SpacedPair(params[0], params[1]);
  }

  lemma FormatTwoSwappedExample(v: string)
    requires v == "{1} {0}"
    ensures FormatSpec(v, ["bar", "foo"]) == Success("foo bar")
  {
    ParseSmallIndices();
    assert IsName("0") && IsName("1") && "1" != "0";
    BracedPair(v, "1", "0");
    var params := ["bar", "foo"];
    FormatSpliceTwo("", "1", " ", "0", "", params, 1, 0, v);
    SpacedPair(params[1], params[0]);
  }

  /** format("{1} {0}") with no params: the first placeholder, "{1}", names no param, so the call throws. */
  lemma FormatMissingParamsExample(v: string)
    requires v == "{1} {0}"
    ensures FormatSpec(v, []) == Failure(IllegalArgument("params does not have value for {1}"))
  {
    ParseSmallIndices();
    SwappedFirstMatch(v);
    ApplyFirstMatch(v, 0, [], v, (0, 2), StrmanCodec.ParseInt("1", 10));
    assert "params does not have value for " + "{1}" == "params does not have value for {1}";
  }

  /** The first match in "{1} {0}" is "{1}", at 0..2. */
  lemma SwappedFirstMatch(v: string)
    requires v == "{1} {0}"
    ensures FindPlaceholder(v, 0) == Some((0, 2))
    ensures Group(v, (0, 2)) == "1" && Whole(v, (0, 2)) == "{1}"
  {
    assert PlaceholderAt(v, 0, 2);
    assert Group(v, (0, 2)) == "1" && Whole(v, (0, 2)) == "{1}";
  }
}
