/**
 * The static string functions of strman.Strman that index, pad, test prefixes
 * and suffixes, cut and glue strings. Arguments are non-null strings unless a
 * parameter is an `Option`; an exception the Java code throws is a `Failure`.
 */
module Strman {
  import opened Wrappers
  import opened JString

  const NullValueMessage: string := "'value' should be not null."

  /** validate(value, NULL_STRING_PREDICATE, NULL_STRING_MSG_SUPPLIER): a null string is rejected. */
  function Validate(value: Option<string>): (r: Result<string>)
    ensures value.None? ==> r == Failure(IllegalArgument(NullValueMessage))
    ensures value.Some? ==> r == Success(value.value)
  {
    match value
    case None => Failure(IllegalArgument(NullValueMessage))
    case Some(v) => Success(v)
  }

  // ------------------------------------------------------------ joining

  lemma {:induction false} JoinSnoc(xs: seq<string>, x: string, sep: string)
    ensures Join(xs + [x], sep) == if |xs| == 0 then x else Join(xs, sep) + sep + x
    decreases |xs|
  {
    if |xs| > 1 {
      assert (xs + [x])[1..] == xs[1..] + [x];
      JoinSnoc(xs[1..], x, sep);
    } else if |xs| == 1 {
      assert (xs + [x])[1..] == [x];
    }
  }

  function SumLengths(xs: seq<string>): nat {
    if |xs| == 0 then 0 else |xs[0]| + SumLengths(xs[1..])
  }

  /** join(strings, separator): the elements in order, one separator between neighbours. */
  lemma {:induction false} JoinLength(xs: seq<string>, sep: string)
    ensures |Join(xs, sep)| == SumLengths(xs) + (if |xs| == 0 then 0 else (|xs| - 1) * |sep|)
  {
    if |xs| > 1 {
      JoinLength(xs[1..], sep);
    }
  }

  /** Where the i-th element starts in the joined text: the elements before it, each followed by a separator. */
  function JoinOffset(xs: seq<string>, sep: string, i: nat): nat
    requires i <= |xs|
  {
    SumLengths(xs[..i]) + i * |sep|
  }

  /**
   * The layout a StringJoiner produces: every element, in order, at its
   * offset, one separator just before every element but the first, and
   * nothing else.
   */
  predicate JoinedLayout(r: string, xs: seq<string>, sep: string) {
    && |r| == SumLengths(xs) + (if |xs| == 0 then 0 else (|xs| - 1) * |sep|)
    && (forall i | 0 <= i < |xs| ::
          JoinOffset(xs, sep, i) + |xs[i]| <= |r| && r[JoinOffset(xs, sep, i)..JoinOffset(xs, sep, i) + |xs[i]|] == xs[i])
    && (forall i | 0 < i < |xs| ::
          |sep| <= JoinOffset(xs, sep, i) && r[JoinOffset(xs, sep, i) - |sep|..JoinOffset(xs, sep, i)] == sep)
  }

  /** A slice that lies inside the right operand of a concatenation. */
  lemma SliceRight(a: string, b: string, lo: nat, hi: nat)
    requires |a| <= lo <= hi <= |a| + |b|
    ensures (a + b)[lo..hi] == b[lo - |a|..hi - |a|]
  {
  }

  lemma OffsetStep(xs: seq<string>, sep: string, i: nat)
    requires 1 <= i <= |xs|
    ensures JoinOffset(xs, sep, i) == |xs[0]| + |sep| + JoinOffset(xs[1..], sep, i - 1)
  {
    assert xs[..i][1..] == xs[1..][..i - 1];
    assert i * |sep| == (i - 1) * |sep| + |sep|;
  }

  /** The i-th element sits at its offset in the joined text, with a separator just before it unless it is the first. */
  lemma {:induction false} JoinPieceAt(xs: seq<string>, sep: string, i: nat)
    requires i < |xs|
    ensures JoinOffset(xs, sep, i) + |xs[i]| <= |Join(xs, sep)|
    ensures Join(xs, sep)[JoinOffset(xs, sep, i)..JoinOffset(xs, sep, i) + |xs[i]|] == xs[i]
    ensures i > 0 ==> |sep| <= JoinOffset(xs, sep, i)
    ensures i > 0 ==> Join(xs, sep)[JoinOffset(xs, sep, i) - |sep|..JoinOffset(xs, sep, i)] == sep
    decreases i
  {
    if i == 0 {
      JoinFirstPiece(xs, sep);
    } else {
      var rest := xs[1..];
      JoinPieceAt(rest, sep, i - 1);
      OffsetStep(xs, sep, i);
      var head := xs[0] + sep;
      JoinHead(xs, sep, head);
      assert rest[i - 1] == xs[i];
      PieceShift(Join(xs, sep), head, Join(rest, sep), JoinOffset(rest, sep, i - 1), JoinOffset(xs, sep, i), xs[i], sep, i == 1);
    }
  }

  /** A join of two or more elements is the first one, a separator, then the join of the rest. */
  lemma JoinHead(xs: seq<string>, sep: string, head: string)
    requires |xs| >= 2 && head == xs[0] + sep
    ensures Join(xs, sep) == head + Join(xs[1..], sep)
    ensures head[|head| - |sep|..] == sep
  {
  }

  lemma JoinFirstPiece(xs: seq<string>, sep: string)
    requires |xs| > 0
    ensures JoinOffset(xs, sep, 0) == 0
    ensures |xs[0]| <= |Join(xs, sep)| && Join(xs, sep)[..|xs[0]|] == xs[0]
  {
    assert xs[..0] == [];
    if |xs| > 1 {
      assert Join(xs, sep) == xs[0] + (sep + Join(xs[1..], sep));
    }
  }

  /** Placing `head` in front moves a piece and the separator before it by |head|. */
  lemma PieceShift(j: string, head: string, jr: string, o: nat, off: nat, piece: string, sep: string, first: bool)
    requires j == head + jr && off == |head| + o
    requires o + |piece| <= |jr| && jr[o..o + |piece|] == piece
    requires first ==> o == 0 && |sep| <= |head| && head[|head| - |sep|..] == sep
    requires !first ==> |sep| <= o && jr[o - |sep|..o] == sep
    ensures off + |piece| <= |j| && j[off..off + |piece|] == piece
    ensures |sep| <= off && j[off - |sep|..off] == sep
  {
    SliceRight(head, jr, off, off + |piece|);
    if !first {
      SliceRight(head, jr, off - |sep|, off);
    }
  }

  /** Join lays its elements out as a StringJoiner does. */
  lemma JoinLayout(xs: seq<string>, sep: string)
    ensures JoinedLayout(Join(xs, sep), xs, sep)
  {
    JoinLength(xs, sep);
    forall i | 0 <= i < |xs|
      ensures JoinOffset(xs, sep, i) + |xs[i]| <= |Join(xs, sep)|
      ensures Join(xs, sep)[JoinOffset(xs, sep, i)..JoinOffset(xs, sep, i) + |xs[i]|] == xs[i]
    {
      JoinPieceAt(xs, sep, i);
    }
    forall i | 0 < i < |xs|
      ensures |sep| <= JoinOffset(xs, sep, i)
      ensures Join(xs, sep)[JoinOffset(xs, sep, i) - |sep|..JoinOffset(xs, sep, i)] == sep
    {
      JoinPieceAt(xs, sep, i);
    }
  }

  /** join(strings, separator): a null array or separator is rejected before anything is joined. */
  function JoinStrings(strings: Option<seq<string>>, separator: Option<string>): (r: Result<string>)
    ensures strings.None? ==> r == Failure(IllegalArgument("Input array 'strings' can't be null"))
    ensures strings.Some? && separator.None? ==> r == Failure(IllegalArgument("separator can't be null"))
    ensures strings.Some? && separator.Some? ==> r.Success? && JoinedLayout(r.value, strings.value, separator.value)
  {
    if strings.None? then Failure(IllegalArgument("Input array 'strings' can't be null"))
    else if separator.None? then Failure(IllegalArgument("separator can't be null"))
    else
      JoinLayout(strings.value, separator.value);
      Success(Join(strings.value, separator.value))
  }

  /** Joining with "" is concatenation, so it distributes over `+`. */
  lemma {:induction false} JoinConcat(xs: seq<string>, ys: seq<string>)
    ensures Join(xs + ys, "") == Join(xs, "") + Join(ys, "")
    decreases |ys|
  {
    if |ys| == 0 {
      assert xs + ys == xs;
    } else {
      var init := ys[..|ys| - 1];
      var last := ys[|ys| - 1];
      assert xs + ys == (xs + init) + [last];
      assert ys == init + [last];
      JoinConcat(xs, init);
      JoinSnoc(xs + init, last, "");
      JoinSnoc(init, last, "");
    }
  }

  /** appendArray: a null or empty array leaves `value` alone; otherwise the pieces follow it in order. */
  method AppendArray(value: string, appends: Option<seq<string>>) returns (r: string)
    ensures appends.None? ==> r == value
    ensures appends.Some? ==> r == value + Join(appends.value, "")
  {
    if appends.None? || |appends.value| == 0 {
      return value;
    }
    var xs := appends.value;
    var joiner := "";
    var i := 0;
    while i < |xs|
      invariant 0 <= i <= |xs|
      invariant joiner == Join(xs[..i], "")
    {
      assert xs[..i + 1] == xs[..i] + [xs[i]];
      JoinSnoc(xs[..i], xs[i], "");
      joiner := joiner + xs[i];
      i := i + 1;
    }
    assert xs[..i] == xs;
    return value + joiner;
  }

  /** prependArray: a null or empty array leaves `value` alone; otherwise the pieces precede it in order. */
  method PrependArray(value: string, prepends: Option<seq<string>>) returns (r: string)
    ensures prepends.None? ==> r == value
    ensures prepends.Some? ==> r == Join(prepends.value, "") + value
  {
    if prepends.None? || |prepends.value| == 0 {
      return value;
    }
    var xs := prepends.value;
    var joiner := "";
    var i := 0;
    while i < |xs|
      invariant 0 <= i <= |xs|
      invariant joiner == Join(xs[..i], "")
    {
      assert xs[..i + 1] == xs[..i] + [xs[i]];
      JoinSnoc(xs[..i], xs[i], "");
      joiner := joiner + xs[i];
      i := i + 1;
    }
    assert xs[..i] == xs;
    return joiner + value;
  }

  // ------------------------------------------------------------ indexing

  /** at(value, index): a negative index counts from the end; out of range (or an empty value) gives no char. */
  function At(value: string, index: int): (r: Option<string>)
    ensures r.Some? <==> -|value| <= index < |value|
    ensures 0 <= index < |value| ==> r == Some([value[index]])
    ensures -|value| <= index < 0 ==> r == Some([value[|value| + index]])
  {
    if |value| == 0 then None
    else
      var i := if index < 0 then |value| + index else index;
      if 0 <= i < |value| then Some([value[i]]) else None
  }

  /** insert(value, substr, index): past the end gives `value`; a negative index makes substring throw. */
  function Insert(value: string, substr: string, index: int): (r: Result<string>)
    ensures index > |value| ==> r == Success(value)
    ensures index < 0 ==> r == Failure(IndexOutOfBounds)
    ensures 0 <= index <= |value| ==>
      && r.Success?
      && |r.value| == |value| + |substr|
      && r.value[..index] == value[..index]
      && r.value[index..index + |substr|] == substr
      && r.value[index + |substr|..] == value[index..]
  {
    if index > |value| then Success(value)
    else if index < 0 then Failure(IndexOutOfBounds)
    else Success(value[..index] + substr + value[index..])
  }

  /** Cutting the inserted text back out of the result gives the original value. */
  lemma InsertThenCut(value: string, substr: string, index: int)
    requires 0 <= index <= |value|
    ensures var r := Insert(value, substr, index).value;
      r[..index] + r[index + |substr|..] == value
  {
    var r := Insert(value, substr, index).value;
    assert value == value[..index] + value[index..];
  }

  /** last(value, n): the last n chars; more than |value| gives `value`; a negative n makes substring throw. */
  function Last(value: string, n: int): (r: Result<string>)
    ensures n > |value| ==> r == Success(value)
    ensures n < 0 ==> r == Failure(IndexOutOfBounds)
    ensures 0 <= n <= |value| ==> r.Success? && |r.value| == n && EndsWith(value, r.value)
  {
    if n > |value| then Success(value)
    else if n < 0 then Failure(IndexOutOfBounds)
    else Success(value[|value| - n..])
  }

  // ------------------------------------------------------------ padding

  /** repeat(value, multiplier): Stream.limit rejects a negative multiplier. */
  function RepeatString(value: string, multiplier: int): (r: Result<string>)
    ensures multiplier < 0 <==> r.Failure?
    ensures multiplier < 0 ==> r.error == IllegalArgument(IntToString(multiplier))
    ensures multiplier >= 0 ==> |r.value| == multiplier * |value|
    ensures multiplier >= 0 && |value| > 0 ==> forall i | 0 <= i < |r.value| :: r.value[i] == value[i % |value|]
  {
    if multiplier < 0 then Failure(IllegalArgument(IntToString(multiplier)))
    else
      RepeatIndex(value, multiplier);
      Success(Repeat(value, multiplier))
  }

  /** The copies sit back to back: position i holds the char at i modulo |value|. */
  lemma {:induction false} RepeatIndex(value: string, n: nat)
    ensures |value| > 0 ==> forall i | 0 <= i < |Repeat(value, n)| :: Repeat(value, n)[i] == value[i % |value|]
    decreases n
  {
    if n > 0 && |value| > 0 {
      RepeatIndex(value, n - 1);
      var t := Repeat(value, n - 1);
      assert Repeat(value, n) == value + t;
      forall i | 0 <= i < |value + t|
        ensures (value + t)[i] == value[i % |value|]
      {
        RepeatAt(value, t, i);
      }
    }
  }

  /** One more copy in front keeps every position at its place modulo |value|. */
  lemma RepeatAt(value: string, t: string, i: int)
    requires 0 < |value| && 0 <= i < |value| + |t|
    requires forall k | 0 <= k < |t| :: t[k] == value[k % |value|]
    ensures (value + t)[i] == value[i % |value|]
  {
    if i < |value| {
      assert (value + t)[i] == value[i];
    } else {
      assert (value + t)[i] == t[i - |value|];
      ModShift(i, |value|);
    }
  }

  lemma ModShift(i: int, m: int)
    requires 0 < m <= i
    ensures (i - m) % m == i % m
  {
    var q, r := i / m, i % m;
    var q', r' := (i - m) / m, (i - m) % m;
    assert (q - 1 - q') * m == r' - r;
    if q - 1 - q' >= 1 {
      MulAtLeast(q - 1 - q', m);
    } else if q - 1 - q' <= -1 {
      MulAtLeast(q' - q + 1, m);
    }
  }

  lemma MulAtLeast(d: int, m: int)
    requires d >= 1 && m > 0
    ensures d * m >= m
  {
  }

  /** Repetition distributes: repeating n + m times is repeating n times, then m times. */
  lemma {:induction false} RepeatAdd(value: string, n: nat, m: nat)
    ensures Repeat(value, n + m) == Repeat(value, n) + Repeat(value, m)
  {
    if n > 0 {
      RepeatAdd(value, n - 1, m);
      assert n + m - 1 == (n - 1) + m;
    }
  }

  /** leftPad(value, pad, length): pad copies of `pad` in front until |value| reaches `length`. */
  function LeftPad(value: string, pad: string, length: int): (r: string)
    ensures |value| > length ==> r == value
    ensures EndsWith(r, value)
    ensures |value| <= length ==> |r| == |value| + (length - |value|) * |pad|
    ensures |value| <= length && |pad| > 0 ==> forall i | 0 <= i < |r| - |value| :: r[i] == pad[i % |pad|]
  {
    if |value| > length then value
    else
      var prefix := Repeat(pad, length - |value|);
      RepeatIndex(pad, length - |value|);
      assert forall i | 0 <= i < |prefix| :: (prefix + value)[i] == prefix[i];
      prefix + value
  }

  /** With a one-char pad the result is exactly `length` long and everything before `value` is that char. */
  lemma LeftPadOneChar(value: string, pad: string, length: int)
    requires |pad| == 1 && |value| <= length
    ensures var r := LeftPad(value, pad, length);
      && |r| == length
      && r[length - |value|..] == value
      && forall i | 0 <= i < length - |value| :: r[i] == pad[0]
  {
    var r := LeftPad(value, pad, length);
    var prefix := Repeat(pad, length - |value|);
    assert r == prefix + value;
    assert forall i | 0 <= i < |prefix| :: r[i] == prefix[i];
  }

  /** rightPad(value, pad, length): copies of `pad` after `value` until it reaches `length`. */
  function RightPad(value: string, pad: string, length: int): (r: string)
    ensures |value| > length ==> r == value
    ensures StartsWith(r, value)
    ensures |value| <= length ==> |r| == |value| + (length - |value|) * |pad|
    ensures |value| <= length && |pad| > 0 ==> forall i | 0 <= i < |r| - |value| :: r[|value| + i] == pad[i % |pad|]
  {
    if |value| > length then value
    else
      var suffix := Repeat(pad, length - |value|);
      RepeatIndex(pad, length - |value|);
      assert forall i | 0 <= i < |suffix| :: (value + suffix)[|value| + i] == suffix[i];
      value + suffix
  }

  /** With a one-char pad the result is exactly `length` long and everything after `value` is that char. */
  lemma RightPadOneChar(value: string, pad: string, length: int)
    requires |pad| == 1 && |value| <= length
    ensures var r := RightPad(value, pad, length);
      && |r| == length
      && r[..|value|] == value
      && forall i | |value| <= i < length :: r[i] == pad[0]
  {
    var r := RightPad(value, pad, length);
    var suffix := Repeat(pad, length - |value|);
    assert r == value + suffix;
    assert forall i | |value| <= i < length :: r[i] == suffix[i - |value|];
  }

  // ---------------------------------------------------- prefix and suffix

  /** The string compared by a case-sensitive or case-insensitive test. */
  function CaseView(s: string, caseSensitive: bool): string {
    if caseSensitive then s else ToLower(s)
  }

  /** A Java int result: `x` brought into -2^31 .. 2^31 - 1 by two's-complement wrap-around. */
  function Wrap32(x: int): (r: int)
    ensures -0x8000_0000 <= r < 0x8000_0000
    ensures (x - r) % 0x1_0000_0000 == 0
    ensures -0x8000_0000 <= x < 0x8000_0000 ==> r == x
  {
    (x + 0x8000_0000) % 0x1_0000_0000 - 0x8000_0000
  }

  /**
   * The int `position - search.length()` computed by endsWith. A position is
   * an int and a length is never negative, so the difference can only fall
   * below -2^31, and then it wraps around to a large positive index.
   */
  function StartBefore(position: int, length: nat): (r: int)
    ensures position - length >= -0x8000_0000 ==> r == position - length
    ensures -0x8000_0000 <= position < 0x8000_0000 && length < 0x8000_0000 ==> r == Wrap32(position - length)
  {
    var d := position - length;
    if d < -0x8000_0000 then d + 0x1_0000_0000 else d
  }

  /**
   * endsWith(value, search, position, caseSensitive) as written: true when
   * `search` occurs at any index at or after the int position - |search|
   * (wrapped around below -2^31), not only when it ends at `position`.
   */
  function EndsWithAt(value: string, search: string, position: int, caseSensitive: bool): (r: bool)
    ensures r <==> (|search| == 0 ||
      exists k | StartBefore(position, |search|) <= k :: OccursAt(CaseView(value, caseSensitive), CaseView(search, caseSensitive), k))
  {
    IndexOf(CaseView(value, caseSensitive), CaseView(search, caseSensitive), StartBefore(position, |search|)) > -1
  }

  /** endsWith("a", "a", Integer.MIN_VALUE, true): the start index wraps to 2^31 - 1, past the end, so the answer is false. */
  lemma EndsWithAtMinValueExample(value: string)
    requires value == "a"
    ensures StartBefore(-0x8000_0000, |value|) == 0x7FFF_FFFF
    ensures !EndsWithAt(value, value, -0x8000_0000, true)
  {
  }

  /** At position |value| (the two- and three-argument endsWith) the test is an exact suffix test. */
  lemma EndsWithAtEnd(value: string, search: string, caseSensitive: bool)
    ensures EndsWithAt(value, search, |value|, caseSensitive)
        <==> EndsWith(CaseView(value, caseSensitive), CaseView(search, caseSensitive))
  {
    var v := CaseView(value, caseSensitive);
    var s := CaseView(search, caseSensitive);
    if EndsWith(v, s) {
      assert OccursAt(v, s, |v| - |s|);
    }
  }

  /** The evidently intended endsWith(value, search, position): `search` ends the first `position` chars. */
  function EndsWithUpTo(value: string, search: string, position: int, caseSensitive: bool): (r: bool)
  {
    var p := if position < 0 then 0 else if position > |value| then |value| else position;
    EndsWith(CaseView(value, caseSensitive)[..p], CaseView(search, caseSensitive))
  }

  /** The intended version agrees with the code at the end of the string, so ensureRight and removeRight are unaffected. */
  lemma EndsWithUpToAgreesAtEnd(value: string, search: string, caseSensitive: bool)
    ensures EndsWithUpTo(value, search, |value|, caseSensitive) == EndsWithAt(value, search, |value|, caseSensitive)
  {
    EndsWithAtEnd(value, search, caseSensitive);
    assert CaseView(value, caseSensitive)[..|value|] == CaseView(value, caseSensitive);
  }

  /** The intended version reports a match only where `search` really ends at the clamped position. */
  lemma EndsWithUpToMeans(value: string, search: string, position: int, caseSensitive: bool)
    requires 0 <= position <= |value|
    ensures EndsWithUpTo(value, search, position, caseSensitive)
        <==> OccursAt(CaseView(value, caseSensitive), CaseView(search, caseSensitive), position - |search|)
  {
    var v := CaseView(value, caseSensitive);
    var s := CaseView(search, caseSensitive);
    if position - |search| >= 0 {
      assert v[..position][position - |search|..] == v[position - |search|..position];
    }
  }

  /** As written, "cd" is reported as ending "ab", the first two chars of "abcd". */
  lemma EndsWithAtCounterexample()
    ensures EndsWithAt("abcd", "cd", 2, true)
    ensures !EndsWithUpTo("abcd", "cd", 2, true)
  {
    assert OccursAt("abcd", "cd", 2);
    assert "abcd"[..2] == "ab";
  }

  /** ensureLeft(value, prefix, caseSensitive): `prefix` is put in front unless `value` already starts with it. */
  function EnsureLeft(value: string, prefix: string, caseSensitive: bool): (r: string)
    ensures StartsWith(CaseView(r, caseSensitive), CaseView(prefix, caseSensitive))
    ensures r == value || r == prefix + value
    ensures r == value <==> StartsWith(CaseView(value, caseSensitive), CaseView(prefix, caseSensitive))
  {
    if StartsWith(CaseView(value, caseSensitive), CaseView(prefix, caseSensitive)) then value
    else
      assert CaseView(prefix + value, caseSensitive)[..|prefix|] == CaseView(prefix, caseSensitive);
      prefix + value
  }

  /** ensureRight(value, suffix, caseSensitive): `suffix` is appended unless `value` already ends with it. */
  function EnsureRight(value: string, suffix: string, caseSensitive: bool): (r: string)
    ensures EndsWith(CaseView(r, caseSensitive), CaseView(suffix, caseSensitive))
    ensures r == value || r == value + suffix
    ensures r == value <==> EndsWith(CaseView(value, caseSensitive), CaseView(suffix, caseSensitive))
  {
    EndsWithAtEnd(value, suffix, caseSensitive);
    if EndsWithAt(value, suffix, |value|, caseSensitive) then value
    else
      assert CaseView(value + suffix, caseSensitive)[|value|..] == CaseView(suffix, caseSensitive);
      value + suffix
  }

  /** removeLeft(value, prefix, caseSensitive): drops a leading `prefix`, if present. */
  function RemoveLeft(value: string, prefix: string, caseSensitive: bool): (r: string)
    ensures StartsWith(CaseView(value, caseSensitive), CaseView(prefix, caseSensitive)) ==> value == value[..|prefix|] + r
    ensures !StartsWith(CaseView(value, caseSensitive), CaseView(prefix, caseSensitive)) ==> r == value
  {
    if StartsWith(CaseView(value, caseSensitive), CaseView(prefix, caseSensitive)) then value[|prefix|..] else value
  }

  lemma EndsWithLower(v: string, s: string)
    requires EndsWith(v, s)
    ensures EndsWith(ToLower(v), ToLower(s))
  {
    var lv := ToLower(v);
    var ls := ToLower(s);
    assert forall i | 0 <= i < |ls| :: lv[|lv| - |ls| + i] == ls[i] by {
      assert forall i | 0 <= i < |s| :: v[|v| - |s| + i] == s[i];
    }
  }

  /** The last occurrence of a string that `value` ends with is where that suffix starts. */
  lemma LastIndexOfSuffix(v: string, s: string)
    requires EndsWith(v, s)
    ensures LastIndexOf(v, s) == |v| - |s|
  {
    assert OccursAt(v, s, |v| - |s|);
  }

  /**
   * removeRight(value, suffix, caseSensitive): when `value` ends with `suffix`
   * it is cut at the last occurrence of the lowercased suffix in the lowercased value.
   */
  function RemoveRight(value: string, suffix: string, caseSensitive: bool): (r: string)
    ensures EndsWith(CaseView(value, caseSensitive), CaseView(suffix, caseSensitive)) ==> r == value[..|value| - |suffix|]
    ensures !EndsWith(CaseView(value, caseSensitive), CaseView(suffix, caseSensitive)) ==> r == value
  {
    EndsWithAtEnd(value, suffix, caseSensitive);
    if EndsWithAt(value, suffix, |value|, caseSensitive) then
      EndsWithLower(CaseView(value, caseSensitive), CaseView(suffix, caseSensitive));
      assert ToLower(CaseView(value, caseSensitive)) == ToLower(value);
      assert ToLower(CaseView(suffix, caseSensitive)) == ToLower(suffix);
      LastIndexOfSuffix(ToLower(value), ToLower(suffix));
      value[..LastIndexOf(ToLower(value), ToLower(suffix))]
    else value
  }

  /** Ensuring a suffix that was missing and removing it again gives the original value. */
  lemma RemoveRightUndoesEnsureRight(value: string, suffix: string)
    requires !EndsWith(value, suffix)
    ensures RemoveRight(EnsureRight(value, suffix, true), suffix, true) == value
  {
    var e := EnsureRight(value, suffix, true);
    assert e == value + suffix;
    assert e[|e| - |suffix|..] == suffix;
  }

  /** Ensuring a prefix that was missing and removing it again gives the original value. */
  lemma RemoveLeftUndoesEnsureLeft(value: string, prefix: string)
    requires !StartsWith(value, prefix)
    ensures RemoveLeft(EnsureLeft(value, prefix, true), prefix, true) == value
  {
    var e := EnsureLeft(value, prefix, true);
    assert e == prefix + value;
    assert e[..|prefix|] == prefix;
    assert e[|prefix|..] == value;
  }

  /** surround(value, prefix, suffix): a null prefix counts as "", a null suffix as the prefix. */
  function Surround(value: string, prefix: Option<string>, suffix: Option<string>): (r: string)
    ensures var p := if prefix.Some? then prefix.value else "";
      var s := if suffix.Some? then suffix.value else p;
      |r| == |p| + |value| + |s| && StartsWith(r, p) && EndsWith(r, s) && r[|p|..|p| + |value|] == value
  {
    var p := if prefix.Some? then prefix.value else "";
    var s := if suffix.Some? then suffix.value else p;
    var r := p + value + s;
    assert r[..|p|] == p && r[|r| - |s|..] == s;
    r
  }

  /**
   * isEnclosedBetween(input, left, right): `input` starts with `left` and
   * ends with `right`; the two may overlap.
   */
  function IsEnclosedBetween(input: string, leftEncloser: string, rightEncloser: string): (r: bool)
    ensures r <==>
      && |leftEncloser| <= |input| && input == leftEncloser + input[|leftEncloser|..]
      && |rightEncloser| <= |input| && input == input[..|input| - |rightEncloser|] + rightEncloser
  {
    assert |leftEncloser| <= |input| ==> input[..|leftEncloser|] + input[|leftEncloser|..] == input;
    assert |rightEncloser| <= |input| ==> input[..|input| - |rightEncloser|] + input[|input| - |rightEncloser|..] == input;
    StartsWith(input, leftEncloser) && EndsWith(input, rightEncloser)
  }

  /** The enclosers need not fit side by side: "{" is enclosed between "{" and "{". */
  lemma EnclosersOverlapExample()
    ensures IsEnclosedBetween("{", "{", "{")
  {
    assert "{"[..1] == "{" && "{"[0..] == "{";
  }

  /** Whatever surround puts around a value, isEnclosedBetween finds it there. */
  lemma SurroundIsEnclosed(value: string, prefix: string, suffix: Option<string>)
    ensures IsEnclosedBetween(Surround(value, Some(prefix), suffix), prefix, if suffix.Some? then suffix.value else prefix)
  {
  }

  // --------------------------------------------------------------- zip

  function MinLength(inputs: seq<string>): (m: nat)
    requires |inputs| > 0
    ensures forall j | 0 <= j < |inputs| :: m <= |inputs[j]|
    ensures exists j | 0 <= j < |inputs| :: m == |inputs[j]|
  {
    if |inputs| == 1 then |inputs[0]|
    else
      var rest := MinLength(inputs[1..]);
      assert forall j | 1 <= j < |inputs| :: inputs[j] == inputs[1..][j - 1];
      if |inputs[0]| <= rest then |inputs[0]| else rest
  }

  /** The i-th element of zip: the i-th char of every input, in input order. */
  function Column(inputs: seq<string>, i: nat): (r: string)
    requires forall j | 0 <= j < |inputs| :: i < |inputs[j]|
    ensures |r| == |inputs| && forall j | 0 <= j < |inputs| :: r[j] == inputs[j][i]
  {
    if |inputs| == 0 then "" else [inputs[0][i]] + Column(inputs[1..], i)
  }

  /** zip(inputs): as many strings as the shortest input is long; string i gathers every input's char i. */
  function Zip(inputs: seq<string>): (r: seq<string>)
    ensures |inputs| == 0 ==> r == []
    ensures |inputs| > 0 ==> |r| == MinLength(inputs)
    ensures forall i | 0 <= i < |r| ::
      |r[i]| == |inputs| && forall j | 0 <= j < |inputs| :: r[i][j] == inputs[j][i]
  {
    if |inputs| == 0 then []
    else
      var m := MinLength(inputs);
      seq(m, i requires 0 <= i < m => Column(inputs, i))
  }

  /** Zipping equally long inputs twice gives them back: zip transposes. */
  lemma ZipTwice(inputs: seq<string>, n: nat)
    requires |inputs| > 0 && n > 0
    requires forall j | 0 <= j < |inputs| :: |inputs[j]| == n
    ensures Zip(Zip(inputs)) == inputs
  {
    var z := Zip(inputs);
    assert |z| == n by {
      var j :| 0 <= j < |inputs| && MinLength(inputs) == |inputs[j]|;
    }
    var zz := Zip(z);
    assert |zz| == |inputs| by {
      var j :| 0 <= j < |z| && MinLength(z) == |z[j]|;
    }
    forall j | 0 <= j < |inputs|
      ensures zz[j] == inputs[j]
    {
      assert forall i | 0 <= i < n :: zz[j][i] == z[i][j] == inputs[j][i];
    }
  }

  // -------------------------------------------------------------- chop

  /** How many pieces chop asks the stream for, with Java's `/` and `%` (both round toward zero). */
  function ChopIterations(length: nat, step: int): int
    requires step != 0
  {
    var q := if step > 0 then length / step else -(length / -step);
    var rem := if step > 0 then length % step else length % -step;
    if rem == 0 then q else q + 1
  }

  lemma ChopStartsInRange(length: nat, step: nat, k: nat)
    requires step > 0 && k < ChopIterations(length, step)
    ensures k * step < length
  {
    var q := length / step;
    assert length == q * step + length % step;
    if length % step == 0 {
      assert k <= q - 1;
      assert k * step <= (q - 1) * step;
    } else {
      assert k <= q;
      assert k * step <= q * step;
    }
  }

  function Min(a: int, b: int): int { if a < b then a else b }

  /** Piece k of chop: input.substring(k * step, min(k * step + step, |input|)). */
  function ChopPiece(input: string, step: nat, k: nat): string
    requires step > 0 && k < ChopIterations(|input|, step)
  {
    ChopStartsInRange(|input|, step, k);
    input[k * step..Min(k * step + step, |input|)]
  }

  /**
   * chop(input, step): "" gives no pieces, step 0 gives [input]; a negative
   * step makes the stream or substring throw, except when Java's rounding asks for no piece.
   */
  function Chop(input: string, step: int): (r: Result<seq<string>>)
    ensures |input| == 0 ==> r == Success([])
    ensures |input| > 0 && step == 0 ==> r == Success([input])
    ensures |input| > 0 && step > 0 ==> r.Success? && |r.value| == ChopIterations(|input|, step)
    ensures |input| > 0 && step < 0 && |input| < -step ==> r == Failure(IndexOutOfBounds)
    ensures |input| > 0 && step < 0 && -step < |input| < -2 * step ==> r == Success([])
    ensures |input| > 0 && step < 0 && (|input| == -step || |input| >= -2 * step) ==>
      ChopIterations(|input|, step) < 0 && r == Failure(IllegalArgument(IntToString(ChopIterations(|input|, step))))
  {
    if |input| == 0 then Success([])
    else if step == 0 then Success([input])
    else
      var n := ChopIterations(|input|, step);
      if step < 0 then
        // Stream.limit throws on a negative count; the first substring throws on a negative end.
        ChopNegative(|input|, step, n);
        if n < 0 then Failure(IllegalArgument(IntToString(n)))
        else if n > 0 then Failure(IndexOutOfBounds)
        else Success([])
      else Success(seq(n, k requires 0 <= k < n => ChopPiece(input, step, k)))
  }

  /** With a negative step, Java's rounding gives one piece, none, or a negative stream limit. */
  lemma ChopNegative(length: nat, step: int, n: int)
    requires length > 0 && step < 0 && n == ChopIterations(length, step)
    ensures length < -step ==> n == 1
    ensures -step < length < -2 * step ==> n == 0
    ensures length == -step || length >= -2 * step ==> n < 0
  {
    var m := -step;
    var q := length / m;
    assert length == q * m + length % m;
    if length < m {
      assert q == 0;
    } else if length < 2 * m {
      assert q == 1;
    } else {
      assert q >= 2;
    }
  }

  /** The pieces of chop glue back to the input. */
  lemma ChopJoins(input: string, step: int)
    requires |input| > 0 && step > 0
    ensures Join(Chop(input, step).value, "") == input
  {
    var pieces := Chop(input, step).value;
    forall k | 0 <= k < |pieces|
      ensures IsSliceAt(pieces, input, step, k)
    {
      ChopStartsInRange(|input|, step, k);
    }
    ChopCovers(|input|, step);
    JoinConsecutive(pieces, input, step);
  }

  /** Piece k is the k-th run of `step` chars of `input` (the last run may be shorter). */
  predicate IsSliceAt(pieces: seq<string>, input: string, step: nat, k: nat)
    requires k < |pieces|
  {
    k * step < |input| && pieces[k] == input[k * step..Min(k * step + step, |input|)]
  }

  /** Slices of `input` taken `step` chars at a time, from the start to past the end, glue back to `input`. */
  lemma JoinConsecutive(pieces: seq<string>, input: string, step: nat)
    requires step > 0 && |pieces| * step >= |input|
    requires forall k | 0 <= k < |pieces| :: IsSliceAt(pieces, input, step, k)
    ensures Join(pieces, "") == input
  {
    assert pieces[..0] == [];
    JoinConsecutiveFrom(pieces, input, step, 0, 0);
  }

  /** The pieces from k on, with the first k already known to glue to input[..k * step]. */
  lemma {:induction false} JoinConsecutiveFrom(pieces: seq<string>, input: string, step: nat, k: nat, at: nat)
    requires step > 0 && |pieces| * step >= |input|
    requires k <= |pieces| && at == k * step
    requires forall j | 0 <= j < |pieces| :: IsSliceAt(pieces, input, step, j)
    requires Join(pieces[..k], "") == input[..Min(at, |input|)]
    ensures Join(pieces, "") == input
    decreases |pieces| - k
  {
    if k == |pieces| {
      assert pieces[..k] == pieces;
      assert input[..Min(at, |input|)] == input;
    } else {
      assert IsSliceAt(pieces, input, step, k);
      JoinConsecutiveStep(pieces, input, step, k, at);
      JoinConsecutiveFrom(pieces, input, step, k + 1, at + step);
    }
  }

  /** One iteration of the loop of JoinConsecutive, kept apart from the loop's quantified facts. */
  lemma JoinConsecutiveStep(pieces: seq<string>, input: string, step: nat, k: nat, at: nat)
    requires k < |pieces| && at == k * step && IsSliceAt(pieces, input, step, k)
    requires Join(pieces[..k], "") == input[..Min(at, |input|)]
    ensures at + step == (k + 1) * step
    ensures Join(pieces[..k + 1], "") == input[..Min(at + step, |input|)]
  {
    JoinPrefixStep(pieces, k, input, at, Min(at + step, |input|));
  }

  /** One more consecutive slice of `input` extends the joined prefix. */
  lemma JoinPrefixStep(pieces: seq<string>, k: nat, input: string, at: nat, next: nat)
    requires k < |pieces| && at <= next <= |input| && (k == 0 ==> at == 0)
    requires pieces[k] == input[at..next]
    requires Join(pieces[..k], "") == input[..at]
    ensures Join(pieces[..k + 1], "") == input[..next]
  {
    var pre, p := pieces[..k], pieces[k];
    assert pieces[..k + 1] == pre + [p];
    JoinSnoc(pre, p, "");
    assert input[..at] + input[at..next] == input[..next];
    if k > 0 {
      assert Join(pre, "") + "" + p == input[..at] + input[at..next];
    }
  }

  lemma ChopCovers(length: nat, step: nat)
    requires step > 0 && length > 0
    ensures ChopIterations(length, step) * step >= length
  {
    var q := length / step;
    assert length == q * step + length % step;
    if length % step != 0 {
      assert (q + 1) * step == q * step + step;
    }
  }

  /** Every piece but the last has `step` chars; the last has 1 to `step` chars. */
  lemma ChopPieceLengths(input: string, step: int)
    requires |input| > 0 && step > 0
    ensures var pieces := Chop(input, step).value;
      && |pieces| > 0
      && (forall k | 0 <= k < |pieces| - 1 :: |pieces[k]| == step)
      && 1 <= |pieces[|pieces| - 1]| <= step
  {
    var pieces := Chop(input, step).value;
    var n := |pieces|;
    ChopCovers(|input|, step);
    forall k | 0 <= k < n - 1
      ensures |pieces[k]| == step
    {
      ChopStartsInRange(|input|, step, k + 1);
      assert (k + 1) * step == k * step + step;
    }
    ChopStartsInRange(|input|, step, n - 1);
  }

  /** The piece count is ceil(|input| / step). */
  lemma ChopCount(input: string, step: int)
    requires |input| > 0 && step > 0
    ensures |Chop(input, step).value| == (|input| + step - 1) / step
  {
    var l := |input|;
    var q := l / step;
    var rem := l % step;
    assert l == q * step + rem;
    if rem == 0 {
      DivideWithin(l + step - 1, step, q);
    } else {
      assert (q + 1) * step == q * step + step;
      DivideWithin(l + step - 1, step, q + 1);
    }
  }

  lemma DivideWithin(x: int, step: int, q: int)
    requires step > 0 && q * step <= x < q * step + step
    ensures x / step == q
  {
    var e := x / step - q;
    assert e * step == (x - x % step) - q * step;
    MulBounds(e, step);
  }

  lemma MulBounds(e: int, step: int)
    requires step > 0
    ensures e >= 1 ==> e * step >= step
    ensures e <= -1 ==> e * step <= -step
  {
  }

  // ---------------------------------------------------------- truncate

  /**
   * truncate(value, length, filler): 0 gives "", a length that already fits
   * gives `value`, otherwise the first length - |filler| chars and the filler
   * (substring throws when the filler is longer than `length`).
   */
  function Truncate(value: string, length: int, filler: string): (r: Result<string>)
    ensures length == 0 ==> r == Success("")
    ensures length >= |value| ==> r == Success(value)
    ensures length != 0 && length < |value| && length < |filler| ==> r == Failure(IndexOutOfBounds)
    ensures 0 < length < |value| && |filler| <= length ==>
      && r.Success? && |r.value| == length
      && StartsWith(value, r.value[..length - |filler|])
      && EndsWith(r.value, filler)
  {
    if length == 0 then Success("")
    else if length >= |value| then Success(value)
    else if length - |filler| < 0 then Failure(IndexOutOfBounds)
    else
      var r := value[..length - |filler|] + filler;
      assert r[..length - |filler|] == value[..length - |filler|];
      assert r[|r| - |filler|..] == filler;
      Success(r)
  }

  // ---------------------------------------------------- collapse spaces

  /** replaceAll("\\s\\s+", " "): each run of two or more `\s` chars becomes one space. */
  function CollapseRuns(s: string): (r: string)
    ensures |r| <= |s|
    ensures |s| > 0 && !IsSpace(s[0]) ==> |r| > 0 && r[0] == s[0]
    ensures |s| > 0 && !IsSpace(s[|s| - 1]) ==> |r| > 0 && r[|r| - 1] == s[|s| - 1]
    decreases |s|
  {
    if |s| >= 2 && IsSpace(s[0]) && IsSpace(s[1]) then " " + CollapseRuns(s[RunEnd(s, Whitespace, 0)..])
    else if |s| == 0 then ""
    else [s[0]] + CollapseRuns(s[1..])
  }

  /**
   * What the regex does to one stretch: the non-blank text `a` is kept, the
   * whitespace run `gap` after it becomes one space when it has two or more
   * chars and is kept as it is otherwise, and the rest `b` is collapsed on its own.
   */
  lemma CollapseRunsGap(a: string, gap: string, b: string)
    requires forall i | 0 <= i < |a| :: !IsSpace(a[i])
    requires forall i | 0 <= i < |gap| :: IsSpace(gap[i])
    requires b == [] || !IsSpace(b[0])
    ensures CollapseRuns(a + gap + b) == a + (if |gap| >= 2 then " " else gap) + CollapseRuns(b)
  {
    assert a + gap + b == a + (gap + b);
    CollapseRunsAfterWord(a, gap + b);
    CollapseRunsLeadingGap(gap, b);
  }

  /** Text without whitespace in front passes through untouched. */
  lemma {:induction false} CollapseRunsAfterWord(a: string, t: string)
    requires forall i | 0 <= i < |a| :: !IsSpace(a[i])
    ensures CollapseRuns(a + t) == a + CollapseRuns(t)
    decreases |a|
  {
    if |a| > 0 {
      var tail := a[1..] + t;
      assert a + t == [a[0]] + tail;
      CollapseRunsKeep(a[0], tail);
      CollapseRunsAfterWord(a[1..], t);
      assert [a[0]] + (a[1..] + CollapseRuns(t)) == a + CollapseRuns(t);
    } else {
      assert a + t == t;
    }
  }

  /** A non-blank first char is copied. */
  lemma CollapseRunsKeep(c: char, t: string)
    requires !IsSpace(c)
    ensures CollapseRuns([c] + t) == [c] + CollapseRuns(t)
  {
    assert ([c] + t)[1..] == t;
  }

  /** A leading whitespace run: two or more chars become one space, a single one is kept. */
  lemma CollapseRunsLeadingGap(gap: string, b: string)
    requires forall i | 0 <= i < |gap| :: IsSpace(gap[i])
    requires b == [] || !IsSpace(b[0])
    ensures CollapseRuns(gap + b) == (if |gap| >= 2 then " " else gap) + CollapseRuns(b)
  {
    var s := gap + b;
    if |gap| >= 2 {
      assert s[0] == gap[0] && s[1] == gap[1];
      GapRunEnd(gap, b);
      assert s[|gap|..] == b;
    } else if |gap| == 1 {
      assert s[1..] == b;
    } else {
      assert s == b;
    }
  }

  lemma GapRunEnd(gap: string, b: string)
    requires forall i | 0 <= i < |gap| :: IsSpace(gap[i])
    requires b == [] || !IsSpace(b[0])
    ensures RunEnd(gap + b, Whitespace, 0) == |gap|
  {
    var s := gap + b;
    assert forall i | 0 <= i < |gap| :: s[i] == gap[i];
    assert |gap| < |s| ==> s[|gap|] == b[0];
  }

  predicate NoDoubleSpace(s: string) {
    forall i | 0 <= i < |s| - 1 :: !(IsSpace(s[i]) && IsSpace(s[i + 1]))
  }

  /**
   * collapseWhitespace(value): trim, then collapse every run of whitespace.
   * The result has no two neighbouring whitespace chars and no blank at either end.
   */
  function CollapseWhitespace(value: string): (r: string)
    ensures NoDoubleSpace(r)
    ensures r == [] || (!IsTrimmed(r[0]) && !IsTrimmed(r[|r| - 1]))
  {
    var t := Trim(value);
    CollapseRunsNoDoubleSpace(t);
    CollapseRunsTrimmed(t);
    CollapseRuns(t)
  }

  lemma {:induction false} CollapseRunsNoDoubleSpace(s: string)
    ensures NoDoubleSpace(CollapseRuns(s))
    ensures |CollapseRuns(s)| > 0 && IsSpace(CollapseRuns(s)[0]) ==> |s| > 0 && IsSpace(s[0])
    decreases |s|
  {
    if |s| >= 2 && IsSpace(s[0]) && IsSpace(s[1]) {
      var j := RunEnd(s, Whitespace, 0);
      CollapseRunsNoDoubleSpace(s[j..]);
      var rest := CollapseRuns(s[j..]);
      assert j < |s| ==> !IsSpace(s[j..][0]);
      assert |rest| > 0 ==> !IsSpace(rest[0]);
    } else if |s| > 0 {
      CollapseRunsNoDoubleSpace(s[1..]);
    }
  }

  lemma {:induction false} CollapseRunsFixed(s: string)
    requires NoDoubleSpace(s)
    ensures CollapseRuns(s) == s
    decreases |s|
  {
    if |s| > 0 {
      assert NoDoubleSpace(s[1..]);
      CollapseRunsFixed(s[1..]);
    }
  }

  lemma CollapseRunsTrimmed(t: string)
    requires t == [] || (!IsTrimmed(t[0]) && !IsTrimmed(t[|t| - 1]))
    ensures var r := CollapseRuns(t); r == [] || (!IsTrimmed(r[0]) && !IsTrimmed(r[|r| - 1]))
  {
    if |t| > 0 {
      assert !IsSpace(t[0]) && !IsSpace(t[|t| - 1]);
    }
  }

  /**
   * Two words around a whitespace gap: a gap of two or more `\s` chars becomes
   * one space, a single one is kept, and the words are untouched.
   */
  lemma CollapseWhitespaceBetweenWords(a: string, gap: string, b: string)
    requires |a| > 0 && |b| > 0 && !IsTrimmed(a[0]) && !IsTrimmed(b[|b| - 1])
    requires forall i | 0 <= i < |a| :: !IsSpace(a[i])
    requires forall i | 0 <= i < |b| :: !IsSpace(b[i])
    requires forall i | 0 <= i < |gap| :: IsSpace(gap[i])
    ensures CollapseWhitespace(a + gap + b) == a + (if |gap| >= 2 then " " else gap) + b
  {
    var s := a + gap + b;
    assert s[0] == a[0] && s[|s| - 1] == b[|b| - 1];
    assert Trim(s) == s;
    CollapseRunsGap(a, gap, b);
    CollapseRunsFixed(b);
  }

  /** collapseWhitespace is idempotent. */
  lemma CollapseWhitespaceIdempotent(value: string)
    ensures CollapseWhitespace(CollapseWhitespace(value)) == CollapseWhitespace(value)
  {
    var c := CollapseWhitespace(value);
    assert Trim(c) == c;
    CollapseRunsFixed(c);
  }
}
