# strman-java, modelled in Dafny

This project models the core of strman-java, a Java library of static string
functions. It covers three Java files:

- `strman.Strman`: the string functions.
- `strman.Ascii`: the transliteration table.
- `strman.TemplateBulider`: a small mutable class that fills `<=name>`
  markers in a template.

How Java is represented:

- A Java `String` is a Dafny `string`, one Dafny `char` per UTF-16 code unit.
- A Java `null` is `None` where the model admits one.
- A thrown exception is a `Failure(...)` of the `Result` datatype in `wrappers.dfy`.
- The Java `String` primitives the core relies on are spelled out in
  `jstring.dfy`: `trim`, `toLowerCase`, `indexOf`, `lastIndexOf`, `replace`,
  `split` on `\s+` and `\W+`, `StringJoiner`, and `Long.toString`.

Where Java code updates state step by step, the model is imperative:

- `appendArray`, `prependArray`, `safeTruncate`, `formatNumber`, `format`,
  `swapCase`, `isUpperCase`, `isLowerCase` and `transliterate` are methods
  with loops.
- Each such method is proved equal to a specification function.
- `TemplateBulider` is a class with a `properties` map that `add` updates in place.

The files:

| file | module | what it holds |
|---|---|---|
| `wrappers.dfy` | `Wrappers` | `Option`, `Result`, the Java exceptions |
| `jstring.dfy` | `JString` | Java `String` primitives |
| `strman.dfy` | `Strman` | validate, join, appendArray/prependArray, at, insert, last, repeat, pads, endsWith, ensure/remove left/right, surround, isEnclosedBetween, zip, chop, truncate, collapseWhitespace |
| `strman_case.dfy` | `StrmanCase` | isUpperCase, isLowerCase, swapCase |
| `strman_count.dfy` | `StrmanCount` | countSubstr |
| `strman_codec.dfy` | `StrmanCodec` | encode/decode and the hex, bin and dec codecs |
| `strman_format.dfy` | `StrmanFormat` | formatNumber, format |
| `strman_truncate.dfy` | `StrmanTruncate` | safeTruncate |
| `ascii.dfy`, `ascii_watched.dfy` | `Ascii`, `AsciiWatched` | the transliteration table; facts about where its sources can occur |
| `transliterate.dfy` | `Transliterate` | transliterate |
| `slugify.dfy` | `Slugify` | slugify |
| `template_bulider.dfy` | `Templates` | TemplateBulider |

## Model

| member | source | states |
|---|---|---|
| Strman.Validate | src/main/java/strman/Strman.java:1452-1456 | A null value fails with IllegalArgumentException("'value' should be not null."); any other value passes through unchanged. |
| Strman.JoinStrings | src/main/java/strman/Strman.java:1137-1149 | A null array and a null separator each fail with their own message. Otherwise every element appears in order at its offset (the lengths of the elements before it, plus one separator each), the separator sits just before every element but the first, and the length is the sum of the element lengths plus (n - 1) separators, so nothing else is in the result. |
| Strman.JoinLength | src/main/java/strman/Strman.java:1137-1149 | The joined length is the sum of the element lengths plus (n - 1) separators. |
| Strman.JoinLayout | src/main/java/strman/Strman.java:1137-1149 | Join places element i at its offset, with a separator just before it unless it is the first. |
| Strman.JoinConcat | src/main/java/strman/Strman.java:71-81 | Joining with "" distributes over concatenation of the arrays. |
| Strman.AppendArray | src/main/java/strman/Strman.java:71-81 | The loop leaves the value followed by every element in order. A null array leaves the value unchanged. |
| Strman.PrependArray | src/main/java/strman/Strman.java:693-703 | The loop leaves every element in order, followed by the value. A null array leaves the value unchanged. |
| Strman.At | src/main/java/strman/Strman.java:92-101 | A char is found iff -length <= index < length. A negative index counts from the end. |
| Strman.Insert | src/main/java/strman/Strman.java:520-527 | An index past the end returns the value. A negative index throws. Otherwise the result is prefix + substr + rest, with every part placed at its position. |
| Strman.InsertThenCut | src/main/java/strman/Strman.java:520-527 | Cutting the inserted text back out of the result gives the original value. |
| Strman.Last | src/main/java/strman/Strman.java:568-574 | n > length returns the value. A negative n throws. Otherwise the result is a suffix of the value, of length n. |
| Strman.RepeatString | src/main/java/strman/Strman.java:801-804 | Fails iff the multiplier is negative, with the multiplier in the message. Otherwise the result is `multiplier` copies of the value back to back: its length is multiplier * length, and position i holds the value's char at i modulo its length. |
| Strman.RepeatIndex | src/main/java/strman/Strman.java:801-804 | In n copies of a non-empty value, position i holds the value's char at i modulo its length. |
| Strman.RepeatAdd | src/main/java/strman/Strman.java:801-804 | Repeating n + m times is repeating n times, then m times. |
| Strman.LeftPad | src/main/java/strman/Strman.java:584-591 | The result ends with the value. A value longer than the length is returned unchanged. Otherwise (length - len(value)) copies of the pad come in front: position i of that prefix holds pad[i mod len(pad)]. |
| Strman.LeftPadOneChar | src/main/java/strman/Strman.java:584-591 | With a one-char pad, the result has exactly the requested length: pad chars, then the value. |
| Strman.RightPad | src/main/java/strman/Strman.java:845-851 | The mirror image of LeftPad: the result starts with the value, and position i after it holds pad[i mod len(pad)], for (length - len(value)) copies. |
| Strman.RightPadOneChar | src/main/java/strman/Strman.java:845-851 | With a one-char pad, the result has exactly the requested length: the value, then pad chars. |
| Strman.EndsWithAt | src/main/java/strman/Strman.java:283-291 | As written: true iff the search text occurs anywhere at or after the int position - len(search), which wraps around to a large index below -2^31. |
| Strman.StartBefore | src/main/java/strman/Strman.java:286 | The int `position - search.length()`: the plain difference when it fits, and in general its 32-bit two's-complement wrap (Wrap32) for an int position and length. |
| Strman.EndsWithAtMinValueExample | src/main/java/strman/Strman.java:286-288 | endsWith("a", "a", Integer.MIN_VALUE, true): the start wraps to 2^31 - 1, so the answer is false. |
| Strman.EndsWithAtEnd | src/main/java/strman/Strman.java:256-272 | At position = length (the two- and three-argument overloads), EndsWithAt is exactly "is a suffix", in either case mode. |
| Strman.EndsWithUpToAgreesAtEnd | src/main/java/strman/Strman.java:256-272 | The corrected endsWith agrees with the as-written one at the end of the value. |
| Strman.EndsWithUpToMeans | src/main/java/strman/Strman.java:283-291 | The corrected endsWith is true iff the search text ends exactly at the position. |
| Strman.EndsWithAtCounterexample | src/main/java/strman/Strman.java:283-291 | endsWith("abcd", "cd", 2, true) is true as written, and false under the evidently intended reading. |
| Strman.EnsureLeft | src/main/java/strman/Strman.java:300-320 | The result starts with the prefix, in the chosen case mode. It is the value iff the value already started with the prefix; otherwise it is prefix + value. |
| Strman.EnsureRight | src/main/java/strman/Strman.java:391-406 | The result ends with the suffix. It is the value iff the value already ended with it; otherwise it is value + suffix. |
| Strman.RemoveLeft | src/main/java/strman/Strman.java:725-744 | When the value starts with the prefix (case-aware), the result is what follows the prefix. Otherwise the value is unchanged. |
| Strman.RemoveRight | src/main/java/strman/Strman.java:764-781 | When the value ends with the suffix (case-aware), the result is the value without its last len(suffix) chars. Otherwise the value is unchanged. |
| Strman.RemoveRightUndoesEnsureRight | src/main/java/strman/Strman.java:764-781 | removeRight(ensureRight(v, s), s) == v when v did not end with s. |
| Strman.RemoveLeftUndoesEnsureLeft | src/main/java/strman/Strman.java:725-744 | removeLeft(ensureLeft(v, p), p) == v when v did not start with p. |
| Strman.EndsWithLower | src/main/java/strman/Strman.java:764-781 | A suffix stays a suffix after lower-casing both strings, so the case-insensitive test accepts it. |
| Strman.LastIndexOfSuffix | src/main/java/strman/Strman.java:764-781 | The last index of a suffix is length - len(suffix), the cut point removeRight uses. |
| Strman.Surround | src/main/java/strman/Strman.java:1043-1047 | The result is prefix + value + suffix. A null suffix repeats the prefix; a null prefix is "". |
| Strman.SurroundIsEnclosed | src/main/java/strman/Strman.java:1191-1214 | isEnclosedBetween holds for whatever surround produced, with the same prefix and suffix. |
| Strman.IsEnclosedBetween | src/main/java/strman/Strman.java:1191-1214 | True iff the input starts with the left encloser and ends with the right one. |
| Strman.EnclosersOverlapExample | src/main/java/strman/Strman.java:1203-1214 | The two enclosers may overlap: "{" is enclosed between "{" and "{". |
| Strman.MinLength | src/main/java/strman/Strman.java:1322-1335 | The shortest input length: no input is shorter, and some input has exactly that length. |
| Strman.Zip | src/main/java/strman/Strman.java:1322-1335 | There are as many tuples as the shortest input is long; tuple i holds the i-th char of every input, in order. No inputs give the empty list. |
| Strman.ZipTwice | src/main/java/strman/Strman.java:1322-1335 | For equal-length inputs, zip is an involution. |
| Strman.Chop | src/main/java/strman/Strman.java:1417-1430 | "" gives []. Step 0 gives [input]. A positive step gives ceil(length / step) pieces. A negative step has three outcomes. Input shorter than -step: the first substring throws. Length strictly between -step and -2*step: Java's truncating division asks for no piece, so the result is []. Otherwise the stream limit is negative and throws IllegalArgumentException with that count as its message. |
| Strman.ChopNegative | src/main/java/strman/Strman.java:1424-1425 | With a negative step, the truncating `/` and `%` give 1 iteration below -step, 0 strictly between -step and -2*step, and a negative count otherwise. |
| Strman.ChopJoins | src/main/java/strman/Strman.java:1417-1430 | The pieces concatenate back to the input. |
| Strman.ChopPieceLengths | src/main/java/strman/Strman.java:1417-1430 | Every piece but the last has exactly `step` chars; the last has 1..step. |
| Strman.ChopCount | src/main/java/strman/Strman.java:1417-1430 | The number of pieces is (length + step - 1) / step. |
| Strman.ChopCovers | src/main/java/strman/Strman.java:1417-1430 | The pieces together span at least the whole input. |
| Strman.Truncate | src/main/java/strman/Strman.java:938-947 | Length 0 gives "". A length at least len(value) gives the value. A filler longer than the length throws. Otherwise the result has exactly `length` chars: a prefix of the value, then the filler. |
| Strman.CollapseRuns | src/main/java/strman/Strman.java:141-144 | The replaceAll never lengthens the text and keeps a first or last char that is not whitespace. |
| Strman.CollapseWhitespace | src/main/java/strman/Strman.java:141-144 | The result has no two adjacent whitespace chars and no char <= ' ' at either end. |
| Strman.CollapseRunsGap | src/main/java/strman/Strman.java:141-144 | Text without whitespace, then a whitespace run, then text starting with a non-whitespace char: the text is kept, a run of two or more becomes one ' ', a single whitespace char is kept as it is, and the rest is collapsed on its own. |
| Strman.CollapseRunsAfterWord | src/main/java/strman/Strman.java:141-144 | Text without whitespace in front passes through the replacement unchanged. |
| Strman.CollapseRunsLeadingGap | src/main/java/strman/Strman.java:141-144 | A leading whitespace run of two or more chars becomes one ' '; a single one is kept. |
| Strman.CollapseRunsKeep | src/main/java/strman/Strman.java:141-144 | A first char that is not whitespace is copied. |
| Strman.CollapseWhitespaceBetweenWords | src/main/java/strman/Strman.java:141-144 | Two words around a whitespace gap: a gap of two or more chars becomes one ' ', a single one is kept, and the words are unchanged. |
| Strman.CollapseRunsNoDoubleSpace | src/main/java/strman/Strman.java:141-144 | After replaceAll("\\s\\s+", " "), no two whitespace chars are adjacent. |
| Strman.CollapseRunsFixed | src/main/java/strman/Strman.java:141-144 | A string with no two adjacent whitespace chars is left unchanged by the replacement. |
| Strman.CollapseWhitespaceIdempotent | src/main/java/strman/Strman.java:141-144 | collapseWhitespace is idempotent. |
| StrmanCase.IsUpperCase | src/main/java/strman/Strman.java:535-543 | The loop answers true iff no char of the value is a lower-case letter. |
| StrmanCase.IsLowerCase | src/main/java/strman/Strman.java:551-559 | The loop answers true iff no char of the value is an upper-case letter. |
| StrmanCase.SwapCase | src/main/java/strman/Strman.java:1379-1392 | null gives "". Otherwise the loop builds the char-by-char case swap. |
| StrmanCase.SwappedCaseChars | src/main/java/strman/Strman.java:1379-1392 | The swap keeps the length, and each char is the swapped char at the same index. |
| StrmanCase.SwapCaseInvolution | src/main/java/strman/Strman.java:1379-1392 | Swapping twice gives the input back. |
| StrmanCase.SwapCaseExchangesTests | src/main/java/strman/Strman.java:535-559 | isLowerCase(swapCase(s)) == isUpperCase(s), and the other way round. |
| StrmanCase.CaseMappingsPassTests | src/main/java/strman/Strman.java:535-559 | An upper-cased string passes isUpperCase; a lower-cased one passes isLowerCase. |
| StrmanCount.CountFrom | src/main/java/strman/Strman.java:1458-1470 | The count never drops below the running count and never grows by more than the value's length. |
| StrmanCount.CountSubstr | src/main/java/strman/Strman.java:229-247 | Both texts are lower-cased first unless the count is case-sensitive. With overlapping, the count is the number of indices where subStr occurs. Without, count * len(subStr) <= len(value). |
| StrmanCount.OverlappingCountsOccurrences | src/main/java/strman/Strman.java:1458-1470 | With overlapping allowed, the count equals the number of indices where the substring occurs (an independent definition). |
| StrmanCount.CountMatchesReplace | src/main/java/strman/Strman.java:1458-1470 | The non-overlapping count is the number of replacements String.replace makes: lengths differ by count * (len(r) - len(sub)). |
| StrmanCount.NonOverlappingBound | src/main/java/strman/Strman.java:1458-1470 | count * len(sub) <= len(value) for non-overlapping counts. |
| StrmanCount.CountRepeated | src/main/java/strman/Strman.java:1458-1470 | Counting sub in sub repeated n times gives n. |
| StrmanCount.CountSubstrCaseInsensitiveExample | src/test/java/strman/StrmanTests.java:190-192 | countSubstr("aaaAAAaaa", "aaa", false, false) == 3. |
| StrmanCount.CountSubstrCaseSensitiveExample | src/test/java/strman/StrmanTests.java:195-197 | countSubstr("aaaAAAaaa", "aaa") == 2. |
| StrmanCount.CountSubstrOverlappingExample | src/test/java/strman/StrmanTests.java:205-207 | countSubstr("aaaAAAaaa", "AAA", true, true) == 1. |
| StrmanCount.CountSubstrOverlappingIgnoreCaseExample | src/test/java/strman/StrmanTests.java:200-202 | countSubstr("aaaAAAaaa", "aaa", false, true) == 7. |
| StrmanCount.CountSubstrOverlappingPairExample | src/test/java/strman/StrmanTests.java:232-234 | countSubstr("aaa", "aa", true, true) == 2. |
| StrmanCodec.EffectiveRadix | src/main/java/strman/Strman.java:1125-1128 | The radix Integer.toString uses is always 2..36; a radix already in range is kept. |
| StrmanCodec.EncodeChar | src/main/java/strman/Strman.java:1125-1128 | A char's code in the radix, left-padded with '0' to `digits` chars; a longer code is kept whole. |
| StrmanCodec.HexEncode | src/main/java/strman/Strman.java:467-469 | Four chars per BMP char, and hexDecode reads a non-empty value back. |
| StrmanCodec.BinEncode | src/main/java/strman/Strman.java:360-362 | Sixteen chars per BMP char, and binDecode reads a non-empty value back. |
| StrmanCodec.DecEncode | src/main/java/strman/Strman.java:380-382 | Five chars per BMP char, and decDecode reads a non-empty value back. |
| StrmanCodec.HexDecode | src/main/java/strman/Strman.java:457-459 | "" fails. On success, char i is the hex number at positions 4i..4i + 4. |
| StrmanCodec.BinDecode | src/main/java/strman/Strman.java:350-352 | "" fails. On success, char i is the binary number at positions 16i..16i + 16. |
| StrmanCodec.DecDecode | src/main/java/strman/Strman.java:370-372 | "" fails. On success, char i is the decimal number at positions 5i..5i + 5. |
| StrmanCodec.ParseInt | src/main/java/strman/Strman.java:1118-1123 | Integer.parseInt: results lie in the 32-bit range, "" fails with NumberFormatException, and unsigned text parses non-negative. |
| StrmanCodec.ParseIntValue | src/main/java/strman/Strman.java:1118-1123 | A successful parse needs a radix in 2..36 and digits after the optional sign, and its value is the signed value of those digits. Such digits parse exactly when the value fits: up to 2^31 after '-', and up to 2^31 - 1 otherwise. |
| StrmanCodec.ParseUnsigned | src/main/java/strman/Strman.java:1118-1123 | Digits with no sign parse to their value when it fits an int. |
| StrmanCodec.ToChars | src/main/java/strman/Strman.java:1118-1123 | Character.toChars of a BMP code point gives that one char. A negative code point or one above U+10FFFF fails with "Not a valid Unicode code point: 0x" and the upper-case hex of its 32-bit pattern. |
| StrmanCodec.HexUpper | src/main/java/strman/Strman.java:1118-1123 | The "%X" text of an int: the upper-case hex digits of its 32-bit two's-complement pattern. |
| StrmanCodec.Chunks | src/main/java/strman/Strman.java:1118-1123 | The fixed-width split: every chunk but the last has `digits` chars, and the chunks join back to the input. These are Java's pieces on text without line terminators; with one, Java keeps the rest as a single piece, which fails to parse like the chunk here, so the decode is the same. |
| StrmanCodec.SplitWidth | src/main/java/strman/Strman.java:1118-1123 | The split for any width >= 0: the pieces join back to the value; width 0 keeps the value whole; otherwise every piece of a non-empty value has 1..digits chars. |
| StrmanCodec.DecodeChunk | src/main/java/strman/Strman.java:1118-1123 | A piece decodes to the one char whose code is Integer.parseInt of the piece; a piece that does not parse fails with NumberFormatException. |
| StrmanCodec.DecodeChunks | src/main/java/strman/Strman.java:1118-1123 | One char per piece; a first piece that does not parse makes the whole decode fail with NumberFormatException. |
| StrmanCodec.DecodeChunksPieces | src/main/java/strman/Strman.java:1118-1123 | The pieces decode iff each does; char i comes from piece i; a failure is the error of the first failing piece. |
| StrmanCodec.Decode | src/main/java/strman/Strman.java:1118-1123 | A negative width fails with PatternSyntaxException. "" fails with NumberFormatException. Otherwise it succeeds iff every piece decodes, and char i is the char that piece i parses to. |
| StrmanCodec.NatToStringValue | src/main/java/strman/Strman.java:1125-1128 | Integer.toString(n, radix) reads back as n. |
| StrmanCodec.Encode | src/main/java/strman/Strman.java:1125-1128 | encode maps every char through leftPad(Integer.toString(ch, radix), "0", digits) and joins the results. When every char's code fits the width, the result has `digits` chars per input char, and its i-th width-sized chunk is the encoding of char i. |
| StrmanCodec.RoundTrip | src/main/java/strman/Strman.java:1118-1128 | decode(encode(v, digits, radix), digits, radix) == v for every non-empty v whose chars fit in `digits` digits. |
| StrmanCodec.FixedCodecLaws | src/main/java/strman/Strman.java:350-469 | At the widths and radixes of hex, bin and dec, a BMP string encodes to `digits` chars per char, and decode gives every non-empty one back. |
| StrmanCodec.HexEncodeAExample | src/test/java/strman/StrmanTests.java:476-481 | hexEncode("A") == "0041". |
| StrmanCodec.HexEncodeAAExample | src/test/java/strman/StrmanTests.java:476-481 | hexEncode("AA") == "00410041". |
| StrmanCodec.HexEncodeHanExample | src/test/java/strman/StrmanTests.java:476-481 | hexEncode of U+6F22 is "6f22" (lower-case digits). |
| StrmanCodec.HexDecodeAAExample | src/test/java/strman/StrmanTests.java:468-473 | hexDecode("00410041") == "AA". |
| StrmanCodec.DecEncodeAExample | src/test/java/strman/StrmanTests.java:335-340 | decEncode("A") == "00065". |
| StrmanCodec.BinEncodeAExample | src/test/java/strman/StrmanTests.java:319-324 | binEncode("A") == "0000000001000001". |
| StrmanCodec.NegativeCodePointExample | src/main/java/strman/Strman.java:1118-1123 | decode("-1", 2, 10) parses -1 and fails with "Not a valid Unicode code point: 0xFFFFFFFF". |
| StrmanCodec.ZeroWidthExample | src/main/java/strman/Strman.java:1118-1123 | With width 0 the value stays whole: decode("65", 0, 10) == "A". |
| StrmanFormat.FormatNumber | src/main/java/strman/Strman.java:1400-1415 | The right-to-left loop with a reversed StringBuilder yields the digit string grouped in threes from the right. |
| StrmanFormat.GroupedRemoveCommas | src/main/java/strman/Strman.java:1400-1415 | Deleting the commas from the grouped text gives the digits back. |
| StrmanFormat.GroupedCommaPositions | src/main/java/strman/Strman.java:1400-1415 | Counting from the right, every fourth char is a comma and no other char is. |
| StrmanFormat.FormatNumberNonNegative | src/main/java/strman/Strman.java:1400-1415 | For n >= 0, formatNumber(n) is Long.toString(n) with a comma before every group of three digits. |
| StrmanFormat.FormatNumberThousandExample | src/test/java/strman/StrmanTests.java:1277-1282 | formatNumber(1000) == "1,000". |
| StrmanFormat.FormatNumberHundredThousandExample | src/test/java/strman/StrmanTests.java:1277-1282 | formatNumber(100000) == "100,000". |
| StrmanFormat.FormatNumberTenMillionExample | src/test/java/strman/StrmanTests.java:1277-1282 | formatNumber(10000000) == "10,000,000". |
| StrmanFormat.FormatNumberHundredMillionExample | src/test/java/strman/StrmanTests.java:1277-1282 | formatNumber(100000000) == "100,000,000". |
| StrmanFormat.FormatNumberNegativeCounterexample | src/main/java/strman/Strman.java:1400-1415 | As written, formatNumber(-123) == "-,123". |
| StrmanFormat.GroupedNumberCorrect | src/main/java/strman/Strman.java:1400-1415 | The corrected formatter keeps the sign in front, never puts a comma after it, agrees with formatNumber for n >= 0, and deletes back to Long.toString(n). |
| StrmanFormat.FindPlaceholder | src/main/java/strman/Strman.java:436-449 | Matcher.find for \{(\w+)}: the leftmost placeholder at or after `from`, or none at all. |
| StrmanFormat.PlaceholdersFrom | src/main/java/strman/Strman.java:436-449 | Every listed match is a placeholder, and the matches are in order without overlap. |
| StrmanFormat.PlaceholdersComplete | src/main/java/strman/Strman.java:436-449 | Every placeholder of the text is among the matches. |
| StrmanFormat.Format | src/main/java/strman/Strman.java:436-449 | The find loop computes the specification: each {n} in turn is replaced by params[n] throughout the result. What that result contains is stated by FormatSplice and FormatSpliceTwo. |
| StrmanFormat.FormatSucceedsIff | src/main/java/strman/Strman.java:436-449 | format succeeds iff every placeholder's index parses and is below the number of params. |
| StrmanFormat.FormatWithoutPlaceholders | src/main/java/strman/Strman.java:436-449 | A text without placeholders is returned unchanged. |
| StrmanFormat.FormatSplice | src/main/java/strman/Strman.java:436-449 | A value with one placeholder {name}: the result is the text before it, params[n], then the text after it. An index past the params fails with "params does not have value for {name}". |
| StrmanFormat.FormatSpliceTwo | src/main/java/strman/Strman.java:436-449 | A value with two different placeholders: each is replaced by the param it names, and the rest of the text is kept. |
| StrmanFormat.FormatLeadingExample | src/test/java/strman/StrmanTests.java:370 | format("{0} bar", "foo") == "foo bar". |
| StrmanFormat.FormatTrailingExample | src/test/java/strman/StrmanTests.java:371 | format("foo {0}", "bar") == "foo bar". |
| StrmanFormat.FormatSpareParamExample | src/test/java/strman/StrmanTests.java:372 | format("foo {0}", "bar", "foo") == "foo bar". |
| StrmanFormat.FormatTwoInOrderExample | src/test/java/strman/StrmanTests.java:373 | format("{0} {1}", "foo", "bar") == "foo bar". |
| StrmanFormat.FormatTwoSwappedExample | src/test/java/strman/StrmanTests.java:374 | format("{1} {0}", "bar", "foo") == "foo bar". |
| StrmanFormat.FormatMissingParamsExample | src/test/java/strman/StrmanTests.java:462-465 | format("{1} {0}") with no params throws IllegalArgumentException("params does not have value for {1}"). |
| StrmanTruncate.KeptWords | src/main/java/strman/Strman.java:872-893 | The kept words are a prefix of the words, and the first word not kept does not fit. |
| StrmanTruncate.SafeTruncate | src/main/java/strman/Strman.java:872-893 | The word loop computes the specification function. |
| StrmanTruncate.SafeTruncateBound | src/main/java/strman/Strman.java:872-893 | When truncation happens, the result fits in `length` chars or is the filler alone. |
| StrmanTruncate.SafeTruncateKeepsLeadingWords | src/main/java/strman/Strman.java:872-893 | The result is the first k words of the value, joined by single spaces, followed by the filler. |
| StrmanTruncate.SafeTruncateWordsHaveNoSpace | src/main/java/strman/Strman.java:872-893 | No kept word is cut in the middle: none contains whitespace. |
| StrmanTruncate.SplitJoin | src/main/java/strman/Strman.java:872-893 | Splitting on \s+ after joining non-empty space-free words with " " gives the words back. |
| StrmanTruncate.SafeTruncateFooBarUntouchedExample | src/test/java/strman/StrmanTests.java:744-756 | safeTruncate("foo bar", 0, ".") == "". With length 7 or 8 the result is "foo bar". |
| StrmanTruncate.SafeTruncateFooBarOneWordExample | src/test/java/strman/StrmanTests.java:744-756 | safeTruncate("foo bar", 4, ".") == "foo.". |
| StrmanTruncate.SafeTruncateFooBarNoWordExample | src/test/java/strman/StrmanTests.java:744-756 | With length 3 or 2 the result is ".". |
| StrmanTruncate.SafeTruncateSentenceTwoWordsExample | src/test/java/strman/StrmanTests.java:744-756 | With length 16 or 15 the result is "A Javascript...". |
| StrmanTruncate.SafeTruncateSentenceOneWordExample | src/test/java/strman/StrmanTests.java:744-756 | With length 14 or 13 the result is "A...". |
| Ascii.TableShape | src/main/java/strman/Ascii.java:35-170 | 113 entries. Every key is non-empty plain ASCII. Every source starts with a non-plain char. |
| Ascii.SymbolEntries | src/main/java/strman/Ascii.java:86-112 | "@" maps to "at", U+0449 to "shch", U+00DF to "ss", and U+00A9 to "(c)". |
| Ascii.DStrokeUnderTwoKeys | src/main/java/strman/Ascii.java:53-88 | U+0111 is listed under both "d" and "dj", so the result depends on iteration order. |
| Ascii.MyanmarPairUnderThreeKeys | src/main/java/strman/Ascii.java:60-77 | U+102D U+102F is a source of "o", while U+102D is a source of "i" and U+102F one of "u". The "i" entry comes first, so the result depends on iteration order here too. |
| Ascii.SpaceEntrySources | src/main/java/strman/Ascii.java:165-167 | The " " entry lists escape texts such as the six chars `\xC2\xA0`, not the characters they name. |
| Transliterate.Transliterate | src/main/java/strman/Strman.java:1023-1033 | null fails with the null-value message. Otherwise the nested loops compute every entry's sources replaced by its key, in table order. |
| Transliterate.ReplaceEntries | src/main/java/strman/Strman.java:1025-1031 | The two nested loops compute the entries applied one after the other, each entry's sources replaced in list order. |
| Transliterate.TransliterateUnchanged | src/main/java/strman/Strman.java:1023-1033 | A text containing no source of the table comes back unchanged. |
| Transliterate.TransliteratePlainText | src/main/java/strman/Strman.java:1023-1033 | Plain ASCII text (no '@', no backslash) is left unchanged. |
| Transliterate.TransliterateWatched | src/main/java/strman/Strman.java:1023-1033 | On text made of plain chars and the chars U+00A0 à á é ó õ @, transliterate is the char-by-char map of à á onto a, é onto e, ó õ onto o and @ onto "at" (U+00A0 stays). |
| Transliterate.TransliterateFooBarExample | src/test/java/strman/StrmanTests.java:832-834 | transliterate("fóõ bár") == "foo bar". |
| Transliterate.TransliterateDejaVuExample | src/test/java/strman/StrmanTests.java:957-960 | transliterate("déjà vu") == "deja vu". |
| Transliterate.TransliterateAtExample | src/main/java/strman/Ascii.java:86 | transliterate("@") == "at". |
| Transliterate.TransliterateNoBreakSpaceExample | src/main/java/strman/Ascii.java:165-167 | A real no-break space U+00A0 is not folded to " ", because the table lists its escape text instead. |
| Slugify.Slugged | src/main/java/strman/Strman.java:1011-1015 | The words step of slugify always yields a slug: only word chars and '-', never two '-' in a row, and no '-' at the end. |
| Slugify.Slugify | src/main/java/strman/Strman.java:1011-1015 | null fails with the null-value message; any other value gives a slug. |
| Slugify.JoinWordsIsSlug | src/main/java/strman/Strman.java:1011-1015 | Joining non-empty runs of word chars with "-" gives a slug. |
| Slugify.SlugifiedByStages | src/main/java/strman/Strman.java:1011-1015 | slugify is trim, then lower-case, then collapseWhitespace, then transliterate, then words joined with "-". |
| Slugify.SlugifyUpperGapExample | src/test/java/strman/StrmanTests.java:796-812 | slugify("FOO     bar") == "foo-bar". |
| Slugify.SlugifyFooBarExample | src/test/java/strman/StrmanTests.java:796-812 | slugify("foo bar") == "foo-bar". |
| Slugify.SlugifyTildeExample | src/test/java/strman/StrmanTests.java:796-812 | slugify("foo ~~ bar") == "foo-bar". |
| Slugify.SlugifyAccentsExample | src/test/java/strman/StrmanTests.java:796-812 | slugify("fóõ bár") == "foo-bar". |
| Slugify.SlugifyAmpersandExample | src/test/java/strman/StrmanTests.java:815-829 | slugify("foo  &    bar") == "foo-and-bar". |
| Templates.CloseFrom | src/main/java/strman/TemplateBulider.java:10 | The lazy `.*?\>` after "<=": the first '>' on the same line, or none. |
| Templates.NextMarker | src/main/java/strman/TemplateBulider.java:43-45 | Matcher.find: the leftmost marker at or after k, or none. |
| Templates.Names | src/main/java/strman/TemplateBulider.java:45-46 | The names of the successive matches; each is free of '>' and of line terminators. |
| Templates.NamesOccur | src/main/java/strman/TemplateBulider.java:41-52 | Every registered name's marker "<=name>" occurs in the template. |
| Templates.Unbound | src/main/java/strman/TemplateBulider.java:49 | The fresh map has exactly the found names as keys, each mapped to null. |
| Templates.BuildProperties | src/main/java/strman/TemplateBulider.java:41-52 | Succeeds iff no name repeats, with every name mapped to null. Otherwise it fails with "Duplicate value definition" naming the first repeated name. |
| Templates.TemplateBulider.Create | src/main/java/strman/TemplateBulider.java:15-18 | Construction succeeds iff buildProperties does; the new object holds the template and the unbound map; a failure names the first name that repeats an earlier one. |
| Templates.TemplateBulider.Add | src/main/java/strman/TemplateBulider.java:31-35 | An unknown key fails with "No veriable definitation" and changes nothing. A known key gets the new value. The key set never changes. |
| Templates.TemplateBulider.AddNumber | src/main/java/strman/TemplateBulider.java:37-39 | Like Add, with the number's decimal text. |
| Templates.TemplateBulider.Execute | src/main/java/strman/TemplateBulider.java:20-29 | The loop skips null values and replaces each bound marker in turn, in registration order. |
| Templates.SubstitutedNothingBound | src/main/java/strman/TemplateBulider.java:20-29 | With nothing bound, execute returns the template unchanged. |
| Templates.SubstitutedOneBound | src/main/java/strman/TemplateBulider.java:20-29 | With one key bound, execute is a single replace of that key's marker. |
| Templates.MarkerSpliced | src/main/java/strman/TemplateBulider.java:25-26 | replace puts the value exactly where the marker stood. |
| Templates.TemplateBulider.ToString | src/main/java/strman/TemplateBulider.java:54-57 | toString returns the template, whatever has been added. |

## Left out

- I/O and exceptions:
  - Nothing is read or printed.
  - Exceptions are `Failure` values.
  - Only the exceptions the modelled code throws itself appear.
- Null arguments:
  - Only these take `Option`, where the model admits null: validate, join, appendArray, prependArray, surround, swapCase, transliterate, slugify and TemplateBulider.add.
  - Every other function takes non-null strings.
  - The null checks of isEnclosedBetween are not modelled.
  - Null elements inside an array are not modelled. The model's arrays hold non-null strings. In Java, `StringJoiner.add(null)` appends "null", so join, appendArray and prependArray would write "null" for such an element.
- Chars: a Dafny `char` stands for one UTF-16 code unit.
  - Surrogate pairs are not modelled.
  - The codec round trip requires chars below U+10000.
- StrmanCodec.ToChars: a code point in U+D800..U+DFFF or above U+FFFF fails with `Unmodelled`. Java returns a lone surrogate or a surrogate pair there, which a Dafny `char` cannot hold.
- StrmanCodec.ParseInt: only ASCII digits and ASCII letters are digits (see `StrmanCodec.DigitValue`). Java's `Character.digit` also accepts every Unicode decimal digit and the fullwidth Latin letters. So decode("\u0661", 0, 10) gives "\u0001" in Java but `Failure(NumberFormat)` here, and hexDecode of fullwidth hex digits fails here too.
- Case mapping: `toLowerCase`, `toUpperCase` and `Character.isUpperCase`/`isLowerCase` are modelled for ASCII letters only. Locale rules are not modelled.
- HashMap order: Java iterates a HashMap in an unspecified order.
  - The model fixes it to the order of the source text. This applies to Ascii's table and to TemplateBulider's properties (scan order).
  - The result depends on that order in at least two places:
    - Ascii.DStrokeUnderTwoKeys: U+0111 is a source of both "d" and "dj".
    - Ascii.MyanmarPairUnderThreeKeys: "i" and "u" run before "o", so U+102D U+102F becomes "iu"; with "o" first it would become "o".
  - No lemma states which key wins in either place.
- StrmanCount.CountFrom and StrmanCount.CountSubstr: both require a non-empty substring. With "" the Java recursion never ends (a StackOverflowError) or throws from `substring`, so that path has no defined result to model.
- StrmanFormat.FormatNumber: models `long` inputs only. The NumberFormatOptions overloads (decimals, rounding) are not part of this model.
- Templates.TemplateBulider.AddNumber: models integral numbers only.
  - A non-integral Number's `toString` is not modelled.
  - A null Number (a NullPointerException in Java) is not modelled.
- Templates.TemplateBulider.Execute: the general result is stated as the specification function Substituted. Its meaning is proved for nothing bound, for one key bound, and for the splice of one marker. The interaction of several bound values whose texts contain other markers is not characterised further.
- Transliterate: fixtures are proved for the texts of the unit-test fixtures and for the chars à á é ó õ @. The remaining entries of the table are covered only by the general lemmas.
- Slugify fixtures:
  - Stated on the non-null path `Slugified`; Slugify itself is proved to return the slug for any non-null value.
  - Of the test fixtures, "foo bar", "fóõ bár", "foo ~~ bar", "FOO     bar" and "foo  &    bar" are proved. The other fixtures follow the same lemmas but are not stated one by one.
- Not part of this model: the rest of Strman (base64, html encode/decode, shuffle, case conversions, between, lines, humanize and the other functions outside the core), and NumberFormatOptions.

## Findings

| source | as written | input that shows it | evidently intended | confidence | as-written member | corrected member |
|---|---|---|---|---|---|---|
| src/main/java/strman/Strman.java:283-291 | endsWith(value, search, position, cs) is `indexOf(search, position - len(search)) > -1`, so it is true if `search` occurs anywhere at or after that index | endsWith("abcd", "cd", 2, true) is true, although "ab" (the text up to position 2) does not end with "cd" | true iff `search` ends exactly at `position` | high (not executed) | Strman.EndsWithAtCounterexample | Strman.EndsWithUpToMeans |
| src/main/java/strman/Strman.java:1400-1415 | formatNumber groups every char of Long.toString(n), including the minus sign | formatNumber(-123) == "-,123" | "-123": the sign stays in front of the grouped digits | high (not executed) | StrmanFormat.FormatNumberNegativeCounterexample | StrmanFormat.GroupedNumberCorrect |
