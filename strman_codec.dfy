/**
 * The radix codec of strman.Strman: encode writes every UTF-16 unit as a
 * zero-padded number in some radix, decode cuts the text into fixed-width
 * chunks and parses each back into a char. hexEncode, binEncode and
 * decEncode (and their decoders) fix the width and radix to (4, 16),
 * (16, 2) and (5, 10).
 */
module StrmanCodec {
  import opened Wrappers
  import opened JString
  import Strman

  // ------------------------------------------------------------- encoding

  /** Integer.toString(i, radix) falls back to radix 10 outside 2..36. */
  function EffectiveRadix(radix: int): (r: nat)
    ensures 2 <= r <= 36
    ensures 2 <= radix <= 36 ==> r == radix
  {
    if 2 <= radix <= 36 then radix else 10
  }

  /**
   * One char: its code in the radix, left-padded with '0' up to `digits`;
   * a code with more digits than that is kept whole.
   */
  function EncodeChar(c: char, digits: int, radix: int): (r: string)
    ensures var d := NatToString(c as int, EffectiveRadix(radix));
      && (|d| > digits ==> r == d)
      && (|d| <= digits ==> |r| == digits && r[digits - |d|..] == d && forall i | 0 <= i < digits - |d| :: r[i] == '0')
  {
    var d := NatToString(c as int, EffectiveRadix(radix));
    if |d| <= digits then
      Strman.LeftPadOneChar(d, "0", digits);
      Strman.LeftPad(d, "0", digits)
    else
      Strman.LeftPad(d, "0", digits)
  }

  /**
   * encode(value, digits, radix): the encoded chars, one after the other.
   * When every char fits the width, each takes exactly `digits` chars, and
   * splitting the result at the width gives back each char's code, in order.
   */
  function Encode(value: string, digits: int, radix: int): (r: string)
    ensures Encodable(value, digits, radix) ==> |r| == digits * |value|
    ensures Encodable(value, digits, radix) && |value| > 0 ==>
      && |Chunks(r, digits)| == |value|
      && forall i | 0 <= i < |value| :: Chunks(r, digits)[i] == EncodeChar(value[i], digits, radix)
    decreases |value|
  {
    if |value| == 0 then ""
    else
      var x := EncodeChar(value[0], digits, radix);
      var y := Encode(value[1..], digits, radix);
      if !Encodable(value, digits, radix) then x + y
      else
        assert EncodableChar(value[0], digits, radix);
        ParseEncodedChar(value[0], digits, radix);
        EncodableTail(value, digits, radix);
        MulStep(digits, |value| - 1);
        if |value| == 1 then
          assert Chunks(x, digits) == [x];
          assert x + y == x;
          x + y
        else
          MulPositive(digits, |value| - 1);
          ChunksCons(x, y, digits);
          EncodedPieces(value, x, Chunks(y, digits), digits, radix);
          x + y
  }

  /** Every char is a single UTF-16 unit, the only chars the fixed-width codecs are meant for. */
  predicate Bmp(value: string) {
    forall i | 0 <= i < |value| :: value[i] as int < 0x1_0000
  }

  /** hexEncode: four hex digits per char, which hexDecode reads back. */
  function HexEncode(value: string): (r: string)
    ensures Bmp(value) ==> |r| == 4 * |value|
    ensures Bmp(value) && |value| > 0 ==> HexDecode(r) == Success(value)
  {
    FixedCodecLaws(value, 4, 16);
    Encode(value, 4, 16)
  }

  /** binEncode: sixteen binary digits per char, which binDecode reads back. */
  function BinEncode(value: string): (r: string)
    ensures Bmp(value) ==> |r| == 16 * |value|
    ensures Bmp(value) && |value| > 0 ==> BinDecode(r) == Success(value)
  {
    FixedCodecLaws(value, 16, 2);
    Encode(value, 16, 2)
  }

  /** decEncode: five decimal digits per char, which decDecode reads back. */
  function DecEncode(value: string): (r: string)
    ensures Bmp(value) ==> |r| == 5 * |value|
    ensures Bmp(value) && |value| > 0 ==> DecDecode(r) == Success(value)
  {
    FixedCodecLaws(value, 5, 10);
    Encode(value, 5, 10)
  }

  // ------------------------------------------------------------- parsing

  /** Character.digit on ASCII: '0'-'9', then 'a'-'z' or 'A'-'Z' as 10-35; 36 for anything else. */
  function DigitValue(c: char): (v: nat)
    ensures v <= 36
    ensures v < 36 <==> ('0' <= c <= '9' || 'a' <= c <= 'z' || 'A' <= c <= 'Z')
  {
    if '0' <= c <= '9' then c as int - '0' as int
    else if 'a' <= c <= 'z' then c as int - 'a' as int + 10
    else if 'A' <= c <= 'Z' then c as int - 'A' as int + 10
    else 36
  }

  predicate AllDigitsOf(s: string, radix: nat) {
    forall i | 0 <= i < |s| :: DigitValue(s[i]) < radix
  }

  /** The number the digits of `s` spell in the radix, most significant first. */
  function Value(s: string, radix: nat): nat
    requires AllDigitsOf(s, radix)
  {
    if |s| == 0 then 0
    else
      var prefix := s[..|s| - 1];
      assert AllDigitsOf(prefix, radix) by {
        assert forall i | 0 <= i < |prefix| :: prefix[i] == s[i];
      }
      Value(prefix, radix) * radix + DigitValue(s[|s| - 1])
  }

  /** The text after an optional leading '-' or '+'. */
  function Unsigned(s: string): (r: string)
    ensures |r| <= |s| && r == s[|s| - |r|..]
  {
    if |s| > 0 && (s[0] == '-' || s[0] == '+') then s[1..] else s
  }

  /**
   * Integer.parseInt(s, radix): an optional sign, at least one digit, and a
   * result within the range of a 32-bit int; anything else, or a radix
   * outside 2..36, is a NumberFormatException.
   */
  function ParseInt(s: string, radix: int): (r: Result<int>)
    ensures r.Success? ==> -0x8000_0000 <= r.value <= 0x7FFF_FFFF
    ensures |s| == 0 ==> r == Failure(NumberFormat)
    ensures r.Success? && s[0] != '-' ==> r.value >= 0
  {
    if radix < 2 || radix > 36 || |s| == 0 then Failure(NumberFormat)
    else
      var signed := s[0] == '-' || s[0] == '+';
      var body := if signed then s[1..] else s;
      if |body| == 0 || !AllDigitsOf(body, radix) then Failure(NumberFormat)
      else
        var v := Value(body, radix);
        var n: int := if s[0] == '-' then -(v as int) else v;
        if n < -0x8000_0000 || n > 0x7FFF_FFFF then Failure(NumberFormat) else Success(n)
  }

  /** String.format("%X", cp) for an int: upper-case hex digits of the 32-bit two's-complement pattern. */
  function HexUpper(cp: int): (r: string)
    ensures |r| == |NatToString(cp % 0x1_0000_0000, 16)| > 0
    ensures forall i | 0 <= i < |r| :: r[i] == ToUpperChar(NatToString(cp % 0x1_0000_0000, 16)[i])
  {
    ToUpper(NatToString(cp % 0x1_0000_0000, 16))
  }

  /**
   * String.valueOf(Character.toChars(cp)): an invalid code point is an
   * IllegalArgumentException that names it in hex; a surrogate or a code
   * point that needs two UTF-16 units has no one-char form here.
   */
  function ToChars(cp: int): (r: Result<string>)
    ensures r.Success? ==> |r.value| == 1 && r.value[0] as int == cp
    ensures (0 <= cp < 0xD800 || 0xE000 <= cp < 0x1_0000) <==> r.Success?
    ensures (cp < 0 || cp > 0x10_FFFF) ==> r == Failure(IllegalArgument("Not a valid Unicode code point: 0x" + HexUpper(cp)))
  {
    if cp < 0 || cp > 0x10_FFFF then Failure(IllegalArgument("Not a valid Unicode code point: 0x" + HexUpper(cp)))
    else if 0xD800 <= cp < 0xE000 || cp >= 0x1_0000 then Failure(Unmodelled)
    else Success([cp as char])
  }

  // ------------------------------------------------------------- decoding

  /**
   * Consecutive pieces of `digits` chars, the last one possibly shorter: the
   * pieces of value.split("(?<=\\G.{digits})") for digits > 0 when the text
   * holds no line terminator. The regex `.` does not match \n, \r, U+0085,
   * U+2028 or U+2029, so Java leaves everything from the chunk holding one of
   * them as a single piece; that piece and the chunk here both start at the
   * same index and fail to parse, so the decode gives the same result.
   */
  function Chunks(value: string, digits: nat): (r: seq<string>)
    requires digits > 0
    ensures |r| > 0
    ensures forall i | 0 <= i < |r| - 1 :: |r[i]| == digits
    ensures |r[|r| - 1]| <= digits
    ensures value != "" ==> forall i | 0 <= i < |r| :: |r[i]| > 0
    ensures Join(r, "") == value
    decreases |value|
  {
    if |value| <= digits then [value] else [value[..digits]] + Chunks(value[digits..], digits)
  }

  /**
   * The pieces the split gives for any width digits >= 0 (for a positive
   * width, on text without line terminators; see Chunks). With 0 the
   * lookbehind (?<=\\G) holds only where the previous match ended, which is
   * the start of the text; split drops the empty piece of a zero-width match
   * at the start, so the text stays whole.
   */
  function SplitWidth(value: string, digits: nat): (r: seq<string>)
    ensures |r| > 0 && Join(r, "") == value
    ensures digits == 0 ==> r == [value]
    ensures digits > 0 ==> forall i | 0 <= i < |r| :: 0 < |r[i]| <= digits || value == ""
  {
    if digits == 0 then [value] else Chunks(value, digits)
  }

  /** Integer.parseInt(piece, radix), then Character.toChars: the char one piece stands for. */
  function DecodeChunk(x: string, radix: int): (r: Result<string>)
    ensures r.Success? ==> |r.value| == 1 && ParseInt(x, radix) == Success(r.value[0] as int)
    ensures ParseInt(x, radix).Failure? ==> r == Failure(NumberFormat)
  {
    var cp :- ParseInt(x, radix);
    ToChars(cp)
  }

  /** Decode every piece in order; the first piece that fails decides the exception. */
  function DecodeChunks(chunks: seq<string>, radix: int): (r: Result<string>)
    ensures r.Success? ==> |r.value| == |chunks|
    ensures |chunks| > 0 && ParseInt(chunks[0], radix).Failure? ==> r == Failure(NumberFormat)
  {
    if |chunks| == 0 then Success("")
    else
      var c :- DecodeChunk(chunks[0], radix);
      var rest :- DecodeChunks(chunks[1..], radix);
      Success(c + rest)
  }

  /** Piece by piece: the text decodes iff every piece does, char i comes from piece i, and a failure is the first failing piece's. */
  lemma {:induction false} DecodeChunksPieces(chunks: seq<string>, radix: int)
    ensures DecodeChunks(chunks, radix).Success? <==> forall i | 0 <= i < |chunks| :: DecodeChunk(chunks[i], radix).Success?
    ensures DecodeChunks(chunks, radix).Success? ==>
      forall i | 0 <= i < |chunks| :: DecodeChunk(chunks[i], radix) == Success([DecodeChunks(chunks, radix).value[i]])
    ensures DecodeChunks(chunks, radix).Failure? ==> exists i | 0 <= i < |chunks| ::
      && DecodeChunk(chunks[i], radix) == Failure(DecodeChunks(chunks, radix).error)
      && forall j | 0 <= j < i :: DecodeChunk(chunks[j], radix).Success?
    decreases |chunks|
  {
    if |chunks| > 0 {
      var rest := chunks[1..];
      DecodeChunksPieces(rest, radix);
      var head := DecodeChunk(chunks[0], radix);
      var tail := DecodeChunks(rest, radix);
      var r := DecodeChunks(chunks, radix);
      if head.Failure? {
        assert r == Failure(head.error);
      } else if tail.Failure? {
        assert r == Failure(tail.error);
        var k :| 0 <= k < |rest| && DecodeChunk(rest[k], radix) == Failure(tail.error)
          && forall j | 0 <= j < k :: DecodeChunk(rest[j], radix).Success?;
        FailureShift(chunks, radix, tail.error, k);
        assert !DecodeChunk(chunks[k + 1], radix).Success?;
      } else {
        assert r == Success(head.value + tail.value);
        PiecesShift(chunks, radix, head.value, tail.value);
      }
    }
  }

  /** A first failing piece of the tail, at k, is a first failing piece of the whole, at k + 1, when the head decodes. */
  lemma FailureShift(chunks: seq<string>, radix: int, e: JavaError, k: nat)
    requires |chunks| > 0 && DecodeChunk(chunks[0], radix).Success? && k < |chunks| - 1
    requires DecodeChunk(chunks[1..][k], radix) == Failure(e)
    requires forall j | 0 <= j < k :: DecodeChunk(chunks[1..][j], radix).Success?
    ensures DecodeChunk(chunks[k + 1], radix) == Failure(e)
    ensures forall j | 0 <= j < k + 1 :: DecodeChunk(chunks[j], radix).Success?
  {
    var rest := chunks[1..];
    assert chunks[k + 1] == rest[k];
    forall j | 0 <= j < k + 1
      ensures DecodeChunk(chunks[j], radix).Success?
    {
      if j > 0 {
        assert chunks[j] == rest[j - 1];
      }
    }
  }

  /** The head's char in front of the tail's chars: piece i still gives char i. */
  lemma PiecesShift(chunks: seq<string>, radix: int, c: string, t: string)
    requires |chunks| > 0 && DecodeChunk(chunks[0], radix) == Success(c) && |c| == 1
    requires |t| == |chunks| - 1
    requires forall i | 0 <= i < |chunks[1..]| :: DecodeChunk(chunks[1..][i], radix) == Success([t[i]])
    ensures forall i | 0 <= i < |chunks| :: DecodeChunk(chunks[i], radix) == Success([(c + t)[i]])
  {
    var rest := chunks[1..];
    forall i | 0 <= i < |chunks|
      ensures DecodeChunk(chunks[i], radix) == Success([(c + t)[i]])
    {
      if i == 0 {
        assert [(c + t)[0]] == c;
      } else {
        assert chunks[i] == rest[i - 1] && (c + t)[i] == t[i - 1];
      }
    }
  }

  /**
   * decode(value, digits, radix): a negative width makes the split pattern
   * ".{-1}" malformed; otherwise the pieces are decoded one by one.
   */
  function Decode(value: string, digits: int, radix: int): (r: Result<string>)
    ensures digits < 0 ==> r == Failure(PatternSyntax)
    ensures digits >= 0 && value == "" ==> r == Failure(NumberFormat)
    ensures digits >= 0 ==> (r.Success? <==>
      forall i | 0 <= i < |SplitWidth(value, digits)| :: DecodeChunk(SplitWidth(value, digits)[i], radix).Success?)
    ensures digits >= 0 && r.Success? ==>
      && |r.value| == |SplitWidth(value, digits)|
      && forall i | 0 <= i < |r.value| :: DecodeChunk(SplitWidth(value, digits)[i], radix) == Success([r.value[i]])
  {
    if digits < 0 then Failure(PatternSyntax)
    else
      DecodeChunksPieces(SplitWidth(value, digits), radix);
      DecodeChunks(SplitWidth(value, digits), radix)
  }

  /** hexDecode: char i is the hex number in positions 4i to 4i + 4. */
  function HexDecode(value: string): (r: Result<string>)
    ensures value == "" ==> r == Failure(NumberFormat)
    ensures r.Success? ==> 4 * (|r.value| - 1) < |value| <= 4 * |r.value|
    ensures r.Success? ==> forall i | 0 <= i < |r.value| :: ParseInt(Piece(value, 4, i), 16) == Success(r.value[i] as int)
  {
    DecodeAt(value, 4, 16);
    Decode(value, 4, 16)
  }

  /** binDecode: char i is the binary number in positions 16i to 16i + 16. */
  function BinDecode(value: string): (r: Result<string>)
    ensures value == "" ==> r == Failure(NumberFormat)
    ensures r.Success? ==> 16 * (|r.value| - 1) < |value| <= 16 * |r.value|
    ensures r.Success? ==> forall i | 0 <= i < |r.value| :: ParseInt(Piece(value, 16, i), 2) == Success(r.value[i] as int)
  {
    DecodeAt(value, 16, 2);
    Decode(value, 16, 2)
  }

  /** decDecode: char i is the decimal number in positions 5i to 5i + 5. */
  function DecDecode(value: string): (r: Result<string>)
    ensures value == "" ==> r == Failure(NumberFormat)
    ensures r.Success? ==> 5 * (|r.value| - 1) < |value| <= 5 * |r.value|
    ensures r.Success? ==> forall i | 0 <= i < |r.value| :: ParseInt(Piece(value, 5, i), 10) == Success(r.value[i] as int)
  {
    DecodeAt(value, 5, 10);
    Decode(value, 5, 10)
  }

  /** The `i`-th fixed-width piece of `value`: positions digits * i up to digits * (i + 1), cut at the end. */
  function Piece(value: string, digits: nat, i: nat): string {
    if digits * i <= |value| then value[digits * i..Strman.Min(digits * i + digits, |value|)] else ""
  }

  /** Chunks cuts the text into the pieces Piece names, as many as cover it. */
  lemma {:induction false} ChunksAt(value: string, digits: nat)
    requires digits > 0 && value != ""
    ensures digits * (|Chunks(value, digits)| - 1) < |value| <= digits * |Chunks(value, digits)|
    ensures forall i | 0 <= i < |Chunks(value, digits)| :: Chunks(value, digits)[i] == Piece(value, digits, i)
    decreases |value|
  {
    var cs := Chunks(value, digits);
    if |value| <= digits {
      assert cs == [value];
      assert Piece(value, digits, 0) == value;
    } else {
      var rest := value[digits..];
      ChunksAt(rest, digits);
      var cr := Chunks(rest, digits);
      assert cs == [value[..digits]] + cr;
      MulStep(digits, |cr| - 1);
      MulStep(digits, |cr|);
      forall i | 0 <= i < |cs|
        ensures cs[i] == Piece(value, digits, i)
      {
        if i == 0 {
          assert Piece(value, digits, 0) == value[..digits];
        } else {
          assert cs[i] == cr[i - 1];
          PieceStep(value, digits, i);
        }
      }
    }
  }

  /** Dropping the first `digits` chars moves every later piece one place down. */
  lemma PieceStep(value: string, digits: nat, i: nat)
    requires 0 < digits < |value| && i > 0
    ensures Piece(value[digits..], digits, i - 1) == Piece(value, digits, i)
  {
    var lo := digits * (i - 1);
    MulStep(digits, i - 1);
    assert digits * i == lo + digits;
    DropSlice(value, digits, lo);
  }

  lemma DropSlice(value: string, digits: nat, lo: nat)
    requires 0 < digits < |value|
    ensures lo <= |value| - digits ==>
      value[digits..][lo..Strman.Min(lo + digits, |value| - digits)] == value[lo + digits..Strman.Min(lo + digits + digits, |value|)]
  {
    if lo <= |value| - digits {
      var hi := Strman.Min(lo + digits, |value| - digits);
      assert hi + digits == Strman.Min(lo + digits + digits, |value|);
      assert forall j | 0 <= j < hi - lo :: value[digits..][lo..hi][j] == value[lo + digits..hi + digits][j];
      assert value[digits..][lo..hi] == value[lo + digits..hi + digits];
    }
  }

  /** decode at a positive width: char i of a success is the number in piece i, and the pieces cover the text. */
  lemma DecodeAt(value: string, digits: nat, radix: int)
    requires digits > 0
    ensures Decode(value, digits, radix).Success? ==>
      && digits * (|Decode(value, digits, radix).value| - 1) < |value| <= digits * |Decode(value, digits, radix).value|
      && forall i | 0 <= i < |Decode(value, digits, radix).value| ::
        ParseInt(Piece(value, digits, i), radix) == Success(Decode(value, digits, radix).value[i] as int)
  {
    var r := Decode(value, digits, radix);
    if r.Success? {
      ChunksAt(value, digits);
      var cs := Chunks(value, digits);
      assert SplitWidth(value, digits) == cs;
      forall i | 0 <= i < |r.value|
        ensures ParseInt(Piece(value, digits, i), radix) == Success(r.value[i] as int)
      {
        assert DecodeChunk(cs[i], radix) == Success([r.value[i]]);
      }
    }
  }

  // ------------------------------------------------------------- round trip

  function Pow(b: nat, k: nat): nat {
    if k == 0 then 1 else b * Pow(b, k - 1)
  }

  lemma DigitValueOfDigitChar(v: nat)
    requires v < 36
    ensures DigitValue(DigitChar(v)) == v
  {
  }

  lemma DivSmaller(n: nat, d: nat)
    requires d >= 2 && n >= d
    ensures n / d < n
  {
    DivMod(n, d);
    MulAtLeastDouble(n / d, d);
  }

  lemma MulAtLeastDouble(q: nat, d: nat)
    requires d >= 2
    ensures q * d >= 2 * q
  {
    assert q * d == q * (d - 2) + 2 * q;
  }

  lemma DivMod(n: nat, d: nat)
    requires d > 0
    ensures (n / d) * d + n % d == n
  {
  }

  /** Value of a string that ends in one more digit. */
  lemma ValueSnoc(p: string, c: char, radix: nat)
    requires AllDigitsOf(p, radix) && DigitValue(c) < radix
    ensures AllDigitsOf(p + [c], radix)
    ensures Value(p + [c], radix) == Value(p, radix) * radix + DigitValue(c)
  {
    var s := p + [c];
    assert s[..|s| - 1] == p;
  }

  /** Integer.toString in a radix spells the number in digits of that radix. */
  lemma {:induction false} NatToStringValue(n: nat, radix: nat)
    requires 2 <= radix <= 36
    ensures AllDigitsOf(NatToString(n, radix), radix)
    ensures Value(NatToString(n, radix), radix) == n
    decreases n
  {
    if n < radix {
      DigitValueOfDigitChar(n);
      ValueSnoc("", DigitChar(n), radix);
      assert "" + [DigitChar(n)] == NatToString(n, radix);
    } else {
      var q := n / radix;
      var m := n % radix;
      var p := NatToString(q, radix);
      assert NatToString(n, radix) == p + [DigitChar(m)];
      DivSmaller(n, radix);
      NatToStringValue(q, radix);
      DigitValueOfDigitChar(m);
      ValueSnoc(p, DigitChar(m), radix);
      DivMod(n, radix);
      assert Value(p + [DigitChar(m)], radix) == q * radix + m;
    }
  }

  /** ... and its letters are lowercase. */
  lemma {:induction false} NatToStringLowercase(n: nat, radix: nat)
    requires 2 <= radix <= 36
    ensures forall i | 0 <= i < |NatToString(n, radix)| :: !IsUpper(NatToString(n, radix)[i])
    decreases n
  {
    if n >= radix {
      DivSmaller(n, radix);
      NatToStringLowercase(n / radix, radix);
    }
  }

  lemma PowOne(b: nat)
    ensures Pow(b, 1) == b
  {
  }

  lemma {:induction false} PowAdd(b: nat, i: nat, j: nat)
    ensures Pow(b, i + j) == Pow(b, i) * Pow(b, j)
    decreases i
  {
    if i > 0 {
      PowAdd(b, i - 1, j);
      assert Pow(b, i + j) == b * (Pow(b, i - 1) * Pow(b, j));
    }
  }

  lemma DivBelow(n: nat, d: nat, p: nat)
    requires d > 0 && n < d * p
    ensures n / d < p
  {
  }

  /** A number below radix^k needs at most k digits. */
  lemma {:induction false} NatToStringLength(n: nat, radix: nat, k: nat)
    requires 2 <= radix <= 36 && k >= 1 && n < Pow(radix, k)
    ensures |NatToString(n, radix)| <= k
    decreases n
  {
    if n >= radix {
      PowOne(radix);
      DivBelow(n, radix, Pow(radix, k - 1));
      DivSmaller(n, radix);
      NatToStringLength(n / radix, radix, k - 1);
    }
  }

  /** Leading zeros do not change the value. */
  lemma {:induction false} ValueLeadingZeros(z: string, s: string, radix: nat)
    requires radix >= 2 && AllDigitsOf(s, radix)
    requires forall i | 0 <= i < |z| :: z[i] == '0'
    ensures AllDigitsOf(z + s, radix)
    ensures Value(z + s, radix) == Value(s, radix)
    decreases |s|, |z|
  {
    if |s| == 0 {
      assert z + s == z;
      if |z| > 0 {
        ValueLeadingZeros(z[..|z| - 1], "", radix);
        assert z[..|z| - 1] + "" == z[..|z| - 1];
      }
    } else {
      var t := z + s;
      assert t[..|t| - 1] == z + s[..|s| - 1];
      ValueLeadingZeros(z, s[..|s| - 1], radix);
    }
  }

  /** Each encoded char parses back to its code, provided the padding leaves no room for a sign. */
  lemma ParseEncodedChar(c: char, digits: int, radix: nat)
    requires 2 <= radix <= 36 && |NatToString(c as int, radix)| <= digits
    requires c as int <= 0x7FFF_FFFF
    ensures |EncodeChar(c, digits, radix)| == digits
    ensures ParseInt(EncodeChar(c, digits, radix), radix) == Success(c as int)
  {
    var d := NatToString(c as int, radix);
    var z := Repeat("0", digits - |d|);
    assert EncodeChar(c, digits, radix) == z + d;
    NatToStringValue(c as int, radix);
    ValueLeadingZeros(z, d, radix);
    ParseUnsigned(z + d, radix);
  }

  /**
   * What parseInt reads: a success has digits after the optional sign and is
   * their signed value; such digits parse exactly when that value fits an int.
   */
  lemma ParseIntValue(s: string, radix: int)
    ensures var r := ParseInt(s, radix);
      r.Success? ==>
        && 2 <= radix <= 36 && |Unsigned(s)| > 0 && AllDigitsOf(Unsigned(s), radix)
        && r.value == (if s[0] == '-' then -(Value(Unsigned(s), radix) as int) else Value(Unsigned(s), radix))
    ensures 2 <= radix <= 36 && |Unsigned(s)| > 0 && AllDigitsOf(Unsigned(s), radix) ==>
      (ParseInt(s, radix).Success? <==> Value(Unsigned(s), radix) <= (if s[0] == '-' then 0x8000_0000 else 0x7FFF_FFFF))
  {
  }

  /** Digits alone, with no sign, parse to their value when it fits an int. */
  lemma ParseUnsigned(e: string, radix: nat)
    requires 2 <= radix <= 36 && |e| > 0 && AllDigitsOf(e, radix)
    requires Value(e, radix) <= 0x7FFF_FFFF
    ensures ParseInt(e, radix) == Success(Value(e, radix))
  {
    assert DigitValue(e[0]) < radix;
  }

  /** One char that encode writes in exactly `digits` chars and decode reads back. */
  predicate EncodableChar(c: char, digits: int, radix: int)
    requires 2 <= radix <= 36
  {
    c as int < 0x1_0000 && |NatToString(c as int, radix)| <= digits
  }

  /** The conditions under which encode's output decodes again. */
  predicate Encodable(value: string, digits: int, radix: int) {
    && 2 <= radix <= 36 && digits > 0
    && forall i | 0 <= i < |value| :: EncodableChar(value[i], digits, radix)
  }

  lemma MulStep(d: int, n: int)
    ensures d + d * n == d * (n + 1)
  {
  }

  lemma EncodableTail(value: string, digits: int, radix: int)
    requires |value| > 0 && Encodable(value, digits, radix)
    ensures Encodable(value[1..], digits, radix)
  {
    var rest := value[1..];
    assert forall i | 0 <= i < |rest| :: rest[i] == value[i + 1];
  }

  /** A full-width first piece is split off on its own. */
  lemma ChunksCons(x: string, y: string, digits: nat)
    requires digits > 0 && |x| == digits && |y| > 0
    ensures Chunks(x + y, digits) == [x] + Chunks(y, digits)
  {
    var e := x + y;
    assert e[..digits] == x && e[digits..] == y;
  }

  /** Decoding a first chunk that parses to the char `c`. */
  lemma DecodeCons(x: string, cs: seq<string>, radix: int, c: char)
    requires ParseInt(x, radix) == Success(c as int) && c as int < 0x1_0000
    ensures DecodeChunks([x] + cs, radix) == (
      match DecodeChunks(cs, radix)
      case Success(t) => Success([c] + t)
      case Failure(err) => Failure(err))
  {
    assert ([x] + cs)[0] == x && ([x] + cs)[1..] == cs;
    assert ToChars(c as int) == Success([c]);
  }

  /** Encoding takes the chars one at a time, from the front. */
  lemma EncodeFirst(value: string, digits: int, radix: int)
    requires |value| > 0
    ensures Encode(value, digits, radix) == EncodeChar(value[0], digits, radix) + Encode(value[1..], digits, radix)
  {
  }

  lemma EncodeOneChar(value: string, digits: int, radix: int)
    requires |value| == 1
    ensures Encode(value, digits, radix) == EncodeChar(value[0], digits, radix)
  {
    EncodeFirst(value, digits, radix);
    assert value[1..] == [];
  }

  /** The last char decodes on its own. */
  lemma RoundTripOne(value: string, digits: int, radix: int)
    requires |value| == 1 && Encodable(value, digits, radix)
    ensures Decode(Encode(value, digits, radix), digits, radix) == Success(value)
  {
    var c := value[0];
    var x := EncodeChar(c, digits, radix);
    assert EncodableChar(c, digits, radix);
    ParseEncodedChar(c, digits, radix);
    EncodeOneChar(value, digits, radix);
    DecodeOneChunk(x, digits, radix, c);
    assert [c] == value;
  }

  /** One full-width chunk that parses to `c` decodes to `c` alone. */
  lemma DecodeOneChunk(x: string, digits: int, radix: int, c: char)
    requires digits > 0 && |x| == digits
    requires ParseInt(x, radix) == Success(c as int) && c as int < 0x1_0000
    ensures Decode(x, digits, radix) == Success([c])
  {
    assert Chunks(x, digits) == [x] + [];
    DecodeCons(x, [], radix, c);
    assert [c] + "" == [c];
  }

  /** A full-width chunk that parses to `c`, in front of text that decodes to `t`. */
  lemma DecodeStep(x: string, y: string, digits: nat, radix: int, c: char, t: string)
    requires digits > 0 && |x| == digits && |y| > 0
    requires ParseInt(x, radix) == Success(c as int) && c as int < 0x1_0000
    requires Decode(y, digits, radix) == Success(t)
    ensures Decode(x + y, digits, radix) == Success([c] + t)
  {
    ChunksCons(x, y, digits);
    DecodeCons(x, Chunks(y, digits), radix, c);
  }

  /** If the tail decodes back, so does the whole text. */
  lemma RoundTripCons(value: string, digits: int, radix: int)
    requires |value| > 1 && Encodable(value, digits, radix)
    requires Decode(Encode(value[1..], digits, radix), digits, radix) == Success(value[1..])
    ensures Decode(Encode(value, digits, radix), digits, radix) == Success(value)
  {
    var c := value[0];
    var rest := value[1..];
    var x := EncodeChar(c, digits, radix);
    var y := Encode(rest, digits, radix);
    EncodeFirst(value, digits, radix);
    assert EncodableChar(c, digits, radix);
    ParseEncodedChar(c, digits, radix);
    EncodableTail(value, digits, radix);
    MulPositive(digits, |rest|);
    DecodeFront(value, digits, radix, x, y);
  }

  /** The first char's chunk in front of the tail's encoding decodes to the whole text. */
  lemma DecodeFront(value: string, digits: nat, radix: int, x: string, y: string)
    requires |value| > 1 && digits > 0 && |x| == digits && |y| > 0
    requires ParseInt(x, radix) == Success(value[0] as int) && value[0] as int < 0x1_0000
    requires Decode(y, digits, radix) == Success(value[1..])
    ensures Decode(x + y, digits, radix) == Success(value)
  {
    HeadTail(value);
    DecodeStep(x, y, digits, radix, value[0], value[1..]);
  }

  lemma HeadTail(value: string)
    requires |value| > 0
    ensures [value[0]] + value[1..] == value
  {
  }

  lemma MulPositive(a: int, b: int)
    requires a > 0 && b > 0
    ensures a * b > 0
  {
  }

  /**
   * decode undoes encode when every char is a single UTF-16 unit whose
   * code fits in `digits` digits of the radix.
   */
  lemma {:induction false} RoundTrip(value: string, digits: int, radix: int)
    requires |value| > 0 && Encodable(value, digits, radix)
    ensures Decode(Encode(value, digits, radix), digits, radix) == Success(value)
    decreases |value|
  {
    if |value| == 1 {
      RoundTripOne(value, digits, radix);
    } else {
      EncodableTail(value, digits, radix);
      RoundTrip(value[1..], digits, radix);
      RoundTripCons(value, digits, radix);
    }
  }

  /** 16^4, 2^16 and 10^5 all exceed 0xFFFF, so every UTF-16 unit fits the three fixed widths. */
  lemma FixedWidthsFit(c: char)
    requires c as int < 0x1_0000
    ensures |NatToString(c as int, 16)| <= 4
    ensures |NatToString(c as int, 2)| <= 16
    ensures |NatToString(c as int, 10)| <= 5
  {
    assert Pow(16, 4) == 0x1_0000;
    PowAdd(2, 4, 4);
    PowAdd(2, 8, 8);
    assert Pow(2, 16) == 0x1_0000;
    assert Pow(10, 5) == 100000;
    NatToStringLength(c as int, 16, 4);
    NatToStringLength(c as int, 2, 16);
    NatToStringLength(c as int, 10, 5);
  }

  /** At the three fixed widths a BMP text is encodable: `digits` chars per char, and decode gives every nonempty one back. */
  lemma FixedCodecLaws(value: string, digits: int, radix: int)
    requires (digits, radix) == (4, 16) || (digits, radix) == (16, 2) || (digits, radix) == (5, 10)
    ensures Bmp(value) ==> |Encode(value, digits, radix)| == digits * |value|
    ensures Bmp(value) && |value| > 0 ==> Decode(Encode(value, digits, radix), digits, radix) == Success(value)
  {
    if Bmp(value) {
      forall i | 0 <= i < |value|
        ensures EncodableChar(value[i], digits, radix)
      {
        FixedWidthsFit(value[i]);
      }
      if |value| > 0 {
        RoundTrip(value, digits, radix);
      }
    }
  }

  lemma EncodedPieces(value: string, x: string, tail: seq<string>, digits: int, radix: int)
    requires |value| > 0 && x == EncodeChar(value[0], digits, radix)
    requires |tail| == |value| - 1 && forall i | 0 <= i < |tail| :: tail[i] == EncodeChar(value[1..][i], digits, radix)
    ensures forall i | 0 <= i < |value| :: ([x] + tail)[i] == EncodeChar(value[i], digits, radix)
  {
    forall i | 0 <= i < |value|
      ensures ([x] + tail)[i] == EncodeChar(value[i], digits, radix)
    {
      if i > 0 {
        assert ([x] + tail)[i] == tail[i - 1] && value[1..][i - 1] == value[i];
      }
    }
  }

  /** The hexadecimal fixtures of the library's tests. */
  lemma HexEncodeAExample()
    ensures HexEncode("A") == "0041"
  {
    assert NatToString(65, 16) == "41";
    EncodeSingle('A', 4, 16);
    EncodeCharIs('A', 4, 16, "0041");
  }

  lemma HexEncodeAAExample()
    ensures HexEncode("AA") == "00410041"
  {
    HexEncodeTwice("AA", 'A', "0041");
  }

  /** Two equal chars encode to their padded code twice. */
  lemma HexEncodeTwice(v: string, c: char, x: string)
    requires v == "AA" && c == 'A' && x == "0041"
    ensures HexEncode(v) == "00410041"
  {
    assert NatToString(65, 16) == "41";
    EncodeCharIs(c, 4, 16, x);
    EncodePair(c, c, 4, 16);
    assert v == [c, c];
    assert x + x == "00410041";
  }

  lemma HexEncodeHanExample()
    ensures HexEncode("\U{6F22}") == "6f22"
  {
    var c := '\U{6F22}';
    assert NatToString(0x6F2, 16) == "6f2";
    assert NatToString(0x6F22, 16) == "6f22";
    EncodeSingle(c, 4, 16);
    var r := EncodeChar(c, 4, 16);
    assert r == r[0..] == "6f22";
    assert "\U{6F22}" == [c];
  }

  lemma HexDecodeAAExample()
    ensures HexDecode("00410041") == Success("AA")
  {
    HexEncodeAAExample();
    assert Bmp("AA");
  }

  /** The decimal and binary fixtures of the library's tests. */
  lemma DecEncodeAExample()
    ensures DecEncode("A") == "00065"
  {
    assert NatToString(65, 10) == "65";
    EncodeSingle('A', 5, 10);
    EncodeCharIs('A', 5, 10, "00065");
  }

  /** 65 in base 2. */
  lemma SixtyFiveInBinary()
    ensures NatToString(65, 2) == "1000001"
  {
    assert NatToString(4, 2) == "100";
    assert NatToString(16, 2) == "10000";
  }

  /** A one-char value encodes to that char's padded digits. */
  lemma EncodeSingle(c: char, digits: int, radix: int)
    ensures Encode([c], digits, radix) == EncodeChar(c, digits, radix)
  {
    assert [c][1..] == [];
  }

  /** A two-char value encodes to the two chars' codes in order. */
  lemma EncodePair(c: char, d: char, digits: int, radix: int)
    ensures Encode([c, d], digits, radix) == EncodeChar(c, digits, radix) + EncodeChar(d, digits, radix)
  {
    assert [c, d][1..] == [d];
    EncodeSingle(d, digits, radix);
  }

  /** The padded code of `c` is the text of `digits` chars with its digits at the end and '0' before them. */
  lemma EncodeCharIs(c: char, digits: int, radix: int, r: string)
    requires |NatToString(c as int, EffectiveRadix(radix))| <= digits == |r|
    requires r[digits - |NatToString(c as int, EffectiveRadix(radix))|..] == NatToString(c as int, EffectiveRadix(radix))
    requires forall i | 0 <= i < digits - |NatToString(c as int, EffectiveRadix(radix))| :: r[i] == '0'
    ensures EncodeChar(c, digits, radix) == r
  {
    var d := NatToString(c as int, EffectiveRadix(radix));
    var e := EncodeChar(c, digits, radix);
    forall i | 0 <= i < digits
      ensures e[i] == r[i]
    {
      if i >= digits - |d| {
        assert e[i] == e[digits - |d|..][i - (digits - |d|)];
        assert r[i] == r[digits - |d|..][i - (digits - |d|)];
      }
    }
  }

  lemma BinEncodeAExample()
    ensures BinEncode("A") == "0000000001000001"
  {
    SixtyFiveInBinary();
    EncodeSingle('A', 16, 2);
    EncodeCharIs('A', 16, 2, "0000000001000001");
  }

  /** A minus sign parses, and -1 is no code point: the message names it as the int's 32-bit pattern. */
  lemma NegativeCodePointExample()
    ensures Decode("-1", 2, 10) == Failure(IllegalArgument("Not a valid Unicode code point: 0xFFFFFFFF"))
  {
    MinusOneParses();
    MinusOneInHex();
    assert SplitWidth("-1", 2) == ["-1"];
    var m := "Not a valid Unicode code point: 0x";
    assert m + "FFFFFFFF" == "Not a valid Unicode code point: 0xFFFFFFFF";
    assert DecodeChunk("-1", 10) == ToChars(-1) == Failure(IllegalArgument(m + "FFFFFFFF"));
    assert ["-1"][0] == "-1";
    assert DecodeChunks(["-1"], 10) == Failure(IllegalArgument(m + "FFFFFFFF"));
  }

  lemma MinusOneParses()
    ensures ParseInt("-1", 10) == Success(-1)
  {
    assert "-1"[1..] == "1";
    assert "1"[..0] == "";
    assert Value("1", 10) == 1;
  }

  /** The 32-bit pattern of -1 is eight F's. */
  lemma MinusOneInHex()
    ensures HexUpper(-1) == "FFFFFFFF"
  {
    assert -1 % 0x1_0000_0000 == 0xFFFF_FFFF;
    assert NatToString(0xF, 16) == "f";
    assert NatToString(0xFF, 16) == "ff";
    assert NatToString(0xFFF, 16) == "fff";
    assert NatToString(0xFFFF, 16) == "ffff";
    assert NatToString(0xF_FFFF, 16) == "fffff";
    assert NatToString(0xFF_FFFF, 16) == "ffffff";
    assert NatToString(0xFFF_FFFF, 16) == "fffffff";
    assert NatToString(0xFFFF_FFFF, 16) == "ffffffff";
  }

  /** A zero width leaves the text whole, so it decodes as one number. */
  lemma ZeroWidthExample()
    ensures Decode("65", 0, 10) == Success("A")
  {
    assert "65"[..1] == "6" && Value("6", 10) == 6;
    assert Value("65", 10) == 65;
    assert ParseInt("65", 10) == Success(65);
    assert DecodeChunk("65", 10) == Success("A");
    assert ["65"][0] == "65" && ["65"][1..] == [] && DecodeChunks([], 10) == Success("");
    assert "A" + "" == "A";
    assert DecodeChunks(["65"], 10) == Success("A");
  }
}
