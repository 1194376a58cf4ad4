/**
 * The transliteration table of strman.Ascii: one entry per `put` of the map,
 * in the order of the source text, each key with the strings transliterate
 * folds onto it. Java's HashMap iterates in an unspecified order; this model
 * fixes the order of the source text.
 */
module Ascii {
  /** Printable or control ASCII other than '@' and the backslash: the chars every key is made of. */
  predicate IsPlain(c: char) {
    c < 128 as char && c != '@' && c != '\\'
  }

  predicate IsPlainText(s: string) {
    forall i | 0 <= i < |s| :: IsPlain(s[i])
  }

  /**
   * A source string of the table: nonempty, and its first char is not plain:
   * a non-ASCII char, '@', or the backslash that starts the escape texts of
   * the " " entry.
   */
  predicate SourceOk(src: string) {
    |src| > 0 && !IsPlain(src[0])
  }

  type Source = s: string | SourceOk(s) witness "@"

  /** A key of the table: a nonempty string of plain chars. */
  type Key = k: string | |k| > 0 && IsPlainText(k) witness "a"

  datatype Entry = Entry(key: Key, sources: seq<Source>)

  /** Ascii.java:37 */
  const E0: Entry := Entry("0", ["\U{00B0}", "\U{2080}", "\U{06F0}"])
  /** Ascii.java:38 */
  const E1: Entry := Entry("1", ["\U{00B9}", "\U{2081}", "\U{06F1}"])
  /** Ascii.java:39 */
  const E2: Entry := Entry("2", ["\U{00B2}", "\U{2082}", "\U{06F2}"])
  /** Ascii.java:40 */
  const E3: Entry := Entry("3", ["\U{00B3}", "\U{2083}", "\U{06F3}"])
  /** Ascii.java:41 */
  const E4: Entry := Entry("4", ["\U{2074}", "\U{2084}", "\U{06F4}", "\U{0664}"])
  /** Ascii.java:42 */
  const E5: Entry := Entry("5", ["\U{2075}", "\U{2085}", "\U{06F5}", "\U{0665}"])
  /** Ascii.java:43 */
  const E6: Entry := Entry("6", ["\U{2076}", "\U{2086}", "\U{06F6}", "\U{0666}"])
  /** Ascii.java:44 */
  const E7: Entry := Entry("7", ["\U{2077}", "\U{2087}", "\U{06F7}"])
  /** Ascii.java:45 */
  const E8: Entry := Entry("8", ["\U{2078}", "\U{2088}", "\U{06F8}"])
  /** Ascii.java:46 */
  const E9: Entry := Entry("9", ["\U{2079}", "\U{2089}", "\U{06F9}"])
  const E10Sources0: seq<Source> := ["\U{00E0}", "\U{00E1}", "\U{1EA3}", "\U{00E3}", "\U{1EA1}", "\U{0103}", "\U{1EAF}", "\U{1EB1}", "\U{1EB3}", "\U{1EB5}", "\U{1EB7}", "\U{00E2}"]
  const E10Sources1: seq<Source> := ["\U{1EA5}", "\U{1EA7}", "\U{1EA9}", "\U{1EAB}", "\U{1EAD}", "\U{0101}", "\U{0105}", "\U{00E5}", "\U{03B1}", "\U{03AC}", "\U{1F00}", "\U{1F01}"]
  const E10Sources2: seq<Source> := ["\U{1F02}", "\U{1F03}", "\U{1F04}", "\U{1F05}", "\U{1F06}", "\U{1F07}", "\U{1F80}", "\U{1F81}", "\U{1F82}", "\U{1F83}", "\U{1F84}", "\U{1F85}"]
  const E10Sources3: seq<Source> := ["\U{1F86}", "\U{1F87}", "\U{1F70}", "\U{03AC}", "\U{1FB0}", "\U{1FB1}", "\U{1FB2}", "\U{1FB3}", "\U{1FB4}", "\U{1FB6}", "\U{1FB7}", "\U{0430}"]
  const E10Sources4: seq<Source> := ["\U{0623}", "\U{1021}", "\U{102C}", "\U{102B}", "\U{01FB}", "\U{01CE}", "\U{00AA}", "\U{10D0}", "\U{0905}", "\U{0627}"]
  /** Ascii.java:47 */
  const E10: Entry := Entry("a", E10Sources0 + E10Sources1 + E10Sources2 + E10Sources3 + E10Sources4)
  /** Ascii.java:51 */
  const E11: Entry := Entry("b", ["\U{0431}", "\U{03B2}", "\U{042A}", "\U{042C}", "\U{0628}", "\U{1017}", "\U{10D1}"])
  /** Ascii.java:52 */
  const E12: Entry := Entry("c", ["\U{00E7}", "\U{0107}", "\U{010D}", "\U{0109}", "\U{010B}"])
  const E13Sources0: seq<Source> := ["\U{010F}", "\U{00F0}", "\U{0111}", "\U{018C}", "\U{0221}", "\U{0256}", "\U{0257}", "\U{1D6D}", "\U{1D81}", "\U{1D91}", "\U{0434}", "\U{03B4}"]
  const E13Sources1: seq<Source> := ["\U{062F}", "\U{0636}", "\U{100D}", "\U{1012}", "\U{10D3}"]
  /** Ascii.java:53 */
  const E13: Entry := Entry("d", E13Sources0 + E13Sources1)
  const E14Sources0: seq<Source> := ["\U{00E9}", "\U{00E8}", "\U{1EBB}", "\U{1EBD}", "\U{1EB9}", "\U{00EA}", "\U{1EBF}", "\U{1EC1}", "\U{1EC3}", "\U{1EC5}", "\U{1EC7}", "\U{00EB}"]
  const E14Sources1: seq<Source> := ["\U{0113}", "\U{0119}", "\U{011B}", "\U{0115}", "\U{0117}", "\U{03B5}", "\U{03AD}", "\U{1F10}", "\U{1F11}", "\U{1F12}", "\U{1F13}", "\U{1F14}"]
  const E14Sources2: seq<Source> := ["\U{1F15}", "\U{1F72}", "\U{03AD}", "\U{0435}", "\U{0451}", "\U{044D}", "\U{0454}", "\U{0259}", "\U{1027}", "\U{1031}", "\U{1032}", "\U{10D4}"]
  const E14Sources3: seq<Source> := ["\U{090F}", "\U{0625}", "\U{0626}"]
  /** Ascii.java:54 */
  const E14: Entry := Entry("e", E14Sources0 + E14Sources1 + E14Sources2 + E14Sources3)
  /** Ascii.java:57 */
  const E15: Entry := Entry("f", ["\U{0444}", "\U{03C6}", "\U{0641}", "\U{0192}", "\U{10E4}"])
  /** Ascii.java:58 */
  const E16: Entry := Entry("g", ["\U{011D}", "\U{011F}", "\U{0121}", "\U{0123}", "\U{0433}", "\U{0491}", "\U{03B3}", "\U{1002}", "\U{10D2}", "\U{06AF}"])
  /** Ascii.java:59 */
  const E17: Entry := Entry("h", ["\U{0125}", "\U{0127}", "\U{03B7}", "\U{03AE}", "\U{062D}", "\U{0647}", "\U{101F}", "\U{103E}", "\U{10F0}"])
  const E18Sources0: seq<Source> := ["\U{00ED}", "\U{00EC}", "\U{1EC9}", "\U{0129}", "\U{1ECB}", "\U{00EE}", "\U{00EF}", "\U{012B}", "\U{012D}", "\U{012F}", "\U{0131}", "\U{03B9}"]
  const E18Sources1: seq<Source> := ["\U{03AF}", "\U{03CA}", "\U{0390}", "\U{1F30}", "\U{1F31}", "\U{1F32}", "\U{1F33}", "\U{1F34}", "\U{1F35}", "\U{1F36}", "\U{1F37}", "\U{1F76}"]
  const E18Sources2: seq<Source> := ["\U{03AF}", "\U{1FD0}", "\U{1FD1}", "\U{1FD2}", "\U{0390}", "\U{1FD6}", "\U{1FD7}", "\U{0456}", "\U{0457}", "\U{0438}", "\U{1023}", "\U{102D}"]
  const E18Sources3: seq<Source> := ["\U{102E}", "\U{100A}\U{103A}", "\U{01D0}", "\U{10D8}", "\U{0907}", "\U{06CC}"]
  /** Ascii.java:60 */
  const E18: Entry := Entry("i", E18Sources0 + E18Sources1 + E18Sources2 + E18Sources3)
  /** Ascii.java:63 */
  const E19: Entry := Entry("j", ["\U{0135}", "\U{0458}", "\U{0408}", "\U{10EF}", "\U{062C}"])
  /** Ascii.java:64 */
  const E20: Entry := Entry("k", ["\U{0137}", "\U{0138}", "\U{043A}", "\U{03BA}", "\U{0136}", "\U{0642}", "\U{0643}", "\U{1000}", "\U{10D9}", "\U{10E5}", "\U{06A9}"])
  /** Ascii.java:65 */
  const E21: Entry := Entry("l", ["\U{0142}", "\U{013E}", "\U{013A}", "\U{013C}", "\U{0140}", "\U{043B}", "\U{03BB}", "\U{0644}", "\U{101C}", "\U{10DA}"])
  /** Ascii.java:66 */
  const E22: Entry := Entry("m", ["\U{043C}", "\U{03BC}", "\U{0645}", "\U{1019}", "\U{10DB}"])
  /** Ascii.java:67 */
  const E23: Entry := Entry("n", ["\U{00F1}", "\U{0144}", "\U{0148}", "\U{0146}", "\U{0149}", "\U{014B}", "\U{03BD}", "\U{043D}", "\U{0646}", "\U{1014}", "\U{10DC}"])
  const E24Sources0: seq<Source> := ["\U{00F3}", "\U{00F2}", "\U{1ECF}", "\U{00F5}", "\U{1ECD}", "\U{00F4}", "\U{1ED1}", "\U{1ED3}", "\U{1ED5}", "\U{1ED7}", "\U{1ED9}", "\U{01A1}"]
  const E24Sources1: seq<Source> := ["\U{1EDB}", "\U{1EDD}", "\U{1EDF}", "\U{1EE1}", "\U{1EE3}", "\U{00F8}", "\U{014D}", "\U{0151}", "\U{014F}", "\U{03BF}", "\U{1F40}", "\U{1F41}"]
  const E24Sources2: seq<Source> := ["\U{1F42}", "\U{1F43}", "\U{1F44}", "\U{1F45}", "\U{1F78}", "\U{03CC}", "\U{043E}", "\U{0648}", "\U{03B8}", "\U{102D}\U{102F}", "\U{01D2}", "\U{01FF}"]
  const E24Sources3: seq<Source> := ["\U{00BA}", "\U{10DD}", "\U{0913}"]
  /** Ascii.java:68 */
  const E24: Entry := Entry("o", E24Sources0 + E24Sources1 + E24Sources2 + E24Sources3)
  /** Ascii.java:71 */
  const E25: Entry := Entry("p", ["\U{043F}", "\U{03C0}", "\U{1015}", "\U{10DE}", "\U{067E}"])
  /** Ascii.java:72 */
  const E26: Entry := Entry("q", ["\U{10E7}"])
  /** Ascii.java:73 */
  const E27: Entry := Entry("r", ["\U{0155}", "\U{0159}", "\U{0157}", "\U{0440}", "\U{03C1}", "\U{0631}", "\U{10E0}"])
  /** Ascii.java:74 */
  const E28: Entry := Entry("s", ["\U{015B}", "\U{0161}", "\U{015F}", "\U{0441}", "\U{03C3}", "\U{0219}", "\U{03C2}", "\U{0633}", "\U{0635}", "\U{1005}", "\U{017F}", "\U{10E1}"])
  /** Ascii.java:75 */
  const E29: Entry := Entry("t", ["\U{0165}", "\U{0163}", "\U{0442}", "\U{03C4}", "\U{021B}", "\U{062A}", "\U{0637}", "\U{100B}", "\U{1010}", "\U{0167}", "\U{10D7}", "\U{10E2}"])
  const E30Sources0: seq<Source> := ["\U{00FA}", "\U{00F9}", "\U{1EE7}", "\U{0169}", "\U{1EE5}", "\U{01B0}", "\U{1EE9}", "\U{1EEB}", "\U{1EED}", "\U{1EEF}", "\U{1EF1}", "\U{00FB}"]
  const E30Sources1: seq<Source> := ["\U{016B}", "\U{016F}", "\U{0171}", "\U{016D}", "\U{0173}", "\U{00B5}", "\U{0443}", "\U{1009}", "\U{102F}", "\U{1030}", "\U{01D4}", "\U{01D6}"]
  const E30Sources2: seq<Source> := ["\U{01D8}", "\U{01DA}", "\U{01DC}", "\U{10E3}", "\U{0909}"]
  /** Ascii.java:76 */
  const E30: Entry := Entry("u", E30Sources0 + E30Sources1 + E30Sources2)
  /** Ascii.java:78 */
  const E31: Entry := Entry("v", ["\U{0432}", "\U{10D5}", "\U{03D0}"])
  /** Ascii.java:79 */
  const E32: Entry := Entry("w", ["\U{0175}", "\U{03C9}", "\U{03CE}", "\U{101D}", "\U{103D}"])
  /** Ascii.java:80 */
  const E33: Entry := Entry("x", ["\U{03C7}", "\U{03BE}"])
  const E34Sources0: seq<Source> := ["\U{00FD}", "\U{1EF3}", "\U{1EF7}", "\U{1EF9}", "\U{1EF5}", "\U{00FF}", "\U{0177}", "\U{0439}", "\U{044B}", "\U{03C5}", "\U{03CB}", "\U{03CD}"]
  const E34Sources1: seq<Source> := ["\U{03B0}", "\U{064A}", "\U{101A}"]
  /** Ascii.java:81 */
  const E34: Entry := Entry("y", E34Sources0 + E34Sources1)
  /** Ascii.java:82 */
  const E35: Entry := Entry("z", ["\U{017A}", "\U{017E}", "\U{017C}", "\U{0437}", "\U{03B6}", "\U{0632}", "\U{1007}", "\U{10D6}"])
  /** Ascii.java:83 */
  const E36: Entry := Entry("aa", ["\U{0639}", "\U{0906}", "\U{0622}"])
  /** Ascii.java:84 */
  const E37: Entry := Entry("ae", ["\U{00E4}", "\U{00E6}", "\U{01FD}"])
  /** Ascii.java:85 */
  const E38: Entry := Entry("ai", ["\U{0910}"])
  /** Ascii.java:86 */
  const E39: Entry := Entry("at", ["@"])
  /** Ascii.java:87 */
  const E40: Entry := Entry("ch", ["\U{0447}", "\U{10E9}", "\U{10ED}", "\U{0686}"])
  /** Ascii.java:88 */
  const E41: Entry := Entry("dj", ["\U{0452}", "\U{0111}"])
  /** Ascii.java:89 */
  const E42: Entry := Entry("dz", ["\U{045F}", "\U{10EB}"])
  /** Ascii.java:90 */
  const E43: Entry := Entry("ei", ["\U{090D}"])
  /** Ascii.java:91 */
  const E44: Entry := Entry("gh", ["\U{063A}", "\U{10E6}"])
  /** Ascii.java:92 */
  const E45: Entry := Entry("ii", ["\U{0908}"])
  /** Ascii.java:93 */
  const E46: Entry := Entry("ij", ["\U{0133}"])
  /** Ascii.java:94 */
  const E47: Entry := Entry("kh", ["\U{0445}", "\U{062E}", "\U{10EE}"])
  /** Ascii.java:95 */
  const E48: Entry := Entry("lj", ["\U{0459}"])
  /** Ascii.java:96 */
  const E49: Entry := Entry("nj", ["\U{045A}"])
  /** Ascii.java:97 */
  const E50: Entry := Entry("oe", ["\U{00F6}", "\U{0153}", "\U{0624}"])
  /** Ascii.java:98 */
  const E51: Entry := Entry("oi", ["\U{0911}"])
  /** Ascii.java:99 */
  const E52: Entry := Entry("oii", ["\U{0912}"])
  /** Ascii.java:100 */
  const E53: Entry := Entry("ps", ["\U{03C8}"])
  /** Ascii.java:101 */
  const E54: Entry := Entry("sh", ["\U{0448}", "\U{10E8}", "\U{0634}"])
  /** Ascii.java:102 */
  const E55: Entry := Entry("shch", ["\U{0449}"])
  /** Ascii.java:103 */
  const E56: Entry := Entry("ss", ["\U{00DF}"])
  /** Ascii.java:104 */
  const E57: Entry := Entry("sx", ["\U{015D}"])
  /** Ascii.java:105 */
  const E58: Entry := Entry("th", ["\U{00FE}", "\U{03D1}", "\U{062B}", "\U{0630}", "\U{0638}"])
  /** Ascii.java:106 */
  const E59: Entry := Entry("ts", ["\U{0446}", "\U{10EA}", "\U{10EC}"])
  /** Ascii.java:107 */
  const E60: Entry := Entry("ue", ["\U{00FC}"])
  /** Ascii.java:108 */
  const E61: Entry := Entry("uu", ["\U{090A}"])
  /** Ascii.java:109 */
  const E62: Entry := Entry("ya", ["\U{044F}"])
  /** Ascii.java:110 */
  const E63: Entry := Entry("yu", ["\U{044E}"])
  /** Ascii.java:111 */
  const E64: Entry := Entry("zh", ["\U{0436}", "\U{10DF}", "\U{0698}"])
  /** Ascii.java:112 */
  const E65: Entry := Entry("(c)", ["\U{00A9}"])
  const E66Sources0: seq<Source> := ["\U{00C1}", "\U{00C0}", "\U{1EA2}", "\U{00C3}", "\U{1EA0}", "\U{0102}", "\U{1EAE}", "\U{1EB0}", "\U{1EB2}", "\U{1EB4}", "\U{1EB6}", "\U{00C2}"]
  const E66Sources1: seq<Source> := ["\U{1EA4}", "\U{1EA6}", "\U{1EA8}", "\U{1EAA}", "\U{1EAC}", "\U{00C5}", "\U{0100}", "\U{0104}", "\U{0391}", "\U{0386}", "\U{1F08}", "\U{1F09}"]
  const E66Sources2: seq<Source> := ["\U{1F0A}", "\U{1F0B}", "\U{1F0C}", "\U{1F0D}", "\U{1F0E}", "\U{1F0F}", "\U{1F88}", "\U{1F89}", "\U{1F8A}", "\U{1F8B}", "\U{1F8C}", "\U{1F8D}"]
  const E66Sources3: seq<Source> := ["\U{1F8E}", "\U{1F8F}", "\U{1FB8}", "\U{1FB9}", "\U{1FBA}", "\U{0386}", "\U{1FBC}", "\U{0410}", "\U{01FA}", "\U{01CD}"]
  /** Ascii.java:113 */
  const E66: Entry := Entry("A", E66Sources0 + E66Sources1 + E66Sources2 + E66Sources3)
  /** Ascii.java:116 */
  const E67: Entry := Entry("B", ["\U{0411}", "\U{0392}", "\U{092C}"])
  /** Ascii.java:117 */
  const E68: Entry := Entry("C", ["\U{00C7}", "\U{0106}", "\U{010C}", "\U{0108}", "\U{010A}"])
  /** Ascii.java:118 */
  const E69: Entry := Entry("D", ["\U{010E}", "\U{00D0}", "\U{0110}", "\U{0189}", "\U{018A}", "\U{018B}", "\U{1D05}", "\U{1D06}", "\U{0414}", "\U{0394}"])
  const E70Sources0: seq<Source> := ["\U{00C9}", "\U{00C8}", "\U{1EBA}", "\U{1EBC}", "\U{1EB8}", "\U{00CA}", "\U{1EBE}", "\U{1EC0}", "\U{1EC2}", "\U{1EC4}", "\U{1EC6}", "\U{00CB}"]
  const E70Sources1: seq<Source> := ["\U{0112}", "\U{0118}", "\U{011A}", "\U{0114}", "\U{0116}", "\U{0395}", "\U{0388}", "\U{1F18}", "\U{1F19}", "\U{1F1A}", "\U{1F1B}", "\U{1F1C}"]
  const E70Sources2: seq<Source> := ["\U{1F1D}", "\U{0388}", "\U{1FC8}", "\U{0415}", "\U{0401}", "\U{042D}", "\U{0404}", "\U{018F}"]
  /** Ascii.java:119 */
  const E70: Entry := Entry("E", E70Sources0 + E70Sources1 + E70Sources2)
  /** Ascii.java:121 */
  const E71: Entry := Entry("F", ["\U{0424}", "\U{03A6}"])
  /** Ascii.java:122 */
  const E72: Entry := Entry("G", ["\U{011E}", "\U{0120}", "\U{0122}", "\U{0413}", "\U{0490}", "\U{0393}"])
  /** Ascii.java:123 */
  const E73: Entry := Entry("H", ["\U{0397}", "\U{0389}", "\U{0126}"])
  const E74Sources0: seq<Source> := ["\U{00CD}", "\U{00CC}", "\U{1EC8}", "\U{0128}", "\U{1ECA}", "\U{00CE}", "\U{00CF}", "\U{012A}", "\U{012C}", "\U{012E}", "\U{0130}", "\U{0399}"]
  const E74Sources1: seq<Source> := ["\U{038A}", "\U{03AA}", "\U{1F38}", "\U{1F39}", "\U{1F3B}", "\U{1F3C}", "\U{1F3D}", "\U{1F3E}", "\U{1F3F}", "\U{1FD8}", "\U{1FD9}", "\U{1FDA}"]
  const E74Sources2: seq<Source> := ["\U{038A}", "\U{0418}", "\U{0406}", "\U{0407}", "\U{01CF}", "\U{03D2}"]
  /** Ascii.java:124 */
  const E74: Entry := Entry("I", E74Sources0 + E74Sources1 + E74Sources2)
  /** Ascii.java:126 */
  const E75: Entry := Entry("K", ["\U{041A}", "\U{039A}"])
  /** Ascii.java:127 */
  const E76: Entry := Entry("L", ["\U{0139}", "\U{0141}", "\U{041B}", "\U{039B}", "\U{013B}", "\U{013D}", "\U{013F}", "\U{0932}"])
  /** Ascii.java:128 */
  const E77: Entry := Entry("M", ["\U{041C}", "\U{039C}"])
  /** Ascii.java:129 */
  const E78: Entry := Entry("N", ["\U{0143}", "\U{00D1}", "\U{0147}", "\U{0145}", "\U{014A}", "\U{041D}", "\U{039D}"])
  const E79Sources0: seq<Source> := ["\U{00D3}", "\U{00D2}", "\U{1ECE}", "\U{00D5}", "\U{1ECC}", "\U{00D4}", "\U{1ED0}", "\U{1ED2}", "\U{1ED4}", "\U{1ED6}", "\U{1ED8}", "\U{01A0}"]
  const E79Sources1: seq<Source> := ["\U{1EDA}", "\U{1EDC}", "\U{1EDE}", "\U{1EE0}", "\U{1EE2}", "\U{00D8}", "\U{014C}", "\U{0150}", "\U{014E}", "\U{039F}", "\U{038C}", "\U{1F48}"]
  const E79Sources2: seq<Source> := ["\U{1F49}", "\U{1F4A}", "\U{1F4B}", "\U{1F4C}", "\U{1F4D}", "\U{1FF8}", "\U{038C}", "\U{041E}", "\U{0398}", "\U{04E8}", "\U{01D1}", "\U{01FE}"]
  /** Ascii.java:130 */
  const E79: Entry := Entry("O", E79Sources0 + E79Sources1 + E79Sources2)
  /** Ascii.java:132 */
  const E80: Entry := Entry("P", ["\U{041F}", "\U{03A0}"])
  /** Ascii.java:133 */
  const E81: Entry := Entry("R", ["\U{0158}", "\U{0154}", "\U{0420}", "\U{03A1}", "\U{0156}"])
  /** Ascii.java:134 */
  const E82: Entry := Entry("S", ["\U{015E}", "\U{015C}", "\U{0218}", "\U{0160}", "\U{015A}", "\U{0421}", "\U{03A3}"])
  /** Ascii.java:135 */
  const E83: Entry := Entry("T", ["\U{0164}", "\U{0162}", "\U{0166}", "\U{021A}", "\U{0422}", "\U{03A4}"])
  const E84Sources0: seq<Source> := ["\U{00DA}", "\U{00D9}", "\U{1EE6}", "\U{0168}", "\U{1EE4}", "\U{01AF}", "\U{1EE8}", "\U{1EEA}", "\U{1EEC}", "\U{1EEE}", "\U{1EF0}", "\U{00DB}"]
  const E84Sources1: seq<Source> := ["\U{016A}", "\U{016E}", "\U{0170}", "\U{016C}", "\U{0172}", "\U{0423}", "\U{01D3}", "\U{01D5}", "\U{01D7}", "\U{01D9}", "\U{01DB}"]
  /** Ascii.java:136 */
  const E84: Entry := Entry("U", E84Sources0 + E84Sources1)
  /** Ascii.java:138 */
  const E85: Entry := Entry("V", ["\U{0412}"])
  /** Ascii.java:139 */
  const E86: Entry := Entry("W", ["\U{03A9}", "\U{038F}", "\U{0174}"])
  /** Ascii.java:140 */
  const E87: Entry := Entry("X", ["\U{03A7}", "\U{039E}"])
  const E88Sources0: seq<Source> := ["\U{00DD}", "\U{1EF2}", "\U{1EF6}", "\U{1EF8}", "\U{1EF4}", "\U{0178}", "\U{1FE8}", "\U{1FE9}", "\U{1FEA}", "\U{038E}", "\U{042B}", "\U{0419}"]
  const E88Sources1: seq<Source> := ["\U{03A5}", "\U{03AB}", "\U{0176}"]
  /** Ascii.java:141 */
  const E88: Entry := Entry("Y", E88Sources0 + E88Sources1)
  /** Ascii.java:142 */
  const E89: Entry := Entry("Z", ["\U{0179}", "\U{017D}", "\U{017B}", "\U{0417}", "\U{0396}"])
  /** Ascii.java:143 */
  const E90: Entry := Entry("AE", ["\U{00C4}", "\U{00C6}", "\U{01FC}"])
  /** Ascii.java:144 */
  const E91: Entry := Entry("CH", ["\U{0427}"])
  /** Ascii.java:145 */
  const E92: Entry := Entry("DJ", ["\U{0402}"])
  /** Ascii.java:146 */
  const E93: Entry := Entry("DZ", ["\U{040F}"])
  /** Ascii.java:147 */
  const E94: Entry := Entry("GX", ["\U{011C}"])
  /** Ascii.java:148 */
  const E95: Entry := Entry("HX", ["\U{0124}"])
  /** Ascii.java:149 */
  const E96: Entry := Entry("IJ", ["\U{0132}"])
  /** Ascii.java:150 */
  const E97: Entry := Entry("JX", ["\U{0134}"])
  /** Ascii.java:151 */
  const E98: Entry := Entry("KH", ["\U{0425}"])
  /** Ascii.java:152 */
  const E99: Entry := Entry("LJ", ["\U{0409}"])
  /** Ascii.java:153 */
  const E100: Entry := Entry("NJ", ["\U{040A}"])
  /** Ascii.java:154 */
  const E101: Entry := Entry("OE", ["\U{00D6}", "\U{0152}"])
  /** Ascii.java:155 */
  const E102: Entry := Entry("PS", ["\U{03A8}"])
  /** Ascii.java:156 */
  const E103: Entry := Entry("SH", ["\U{0428}"])
  /** Ascii.java:157 */
  const E104: Entry := Entry("SHCH", ["\U{0429}"])
  /** Ascii.java:158 */
  const E105: Entry := Entry("SS", ["\U{1E9E}"])
  /** Ascii.java:159 */
  const E106: Entry := Entry("TH", ["\U{00DE}"])
  /** Ascii.java:160 */
  const E107: Entry := Entry("TS", ["\U{0426}"])
  /** Ascii.java:161 */
  const E108: Entry := Entry("UE", ["\U{00DC}"])
  /** Ascii.java:162 */
  const E109: Entry := Entry("YA", ["\U{042F}"])
  /** Ascii.java:163 */
  const E110: Entry := Entry("YU", ["\U{042E}"])
  /** Ascii.java:164 */
  const E111: Entry := Entry("ZH", ["\U{0416}"])
  const E112Sources0: seq<Source> := ["\\xC2\\xA0", "\\xE2\\x80\\x80", "\\xE2\\x80\\x81", "\\xE2\\x80\\x82", "\\xE2\\x80\\x83", "\\xE2\\x80\\x84", "\\xE2\\x80\\x85", "\\xE2\\x80\\x86", "\\xE2\\x80\\x87", "\\xE2\\x80\\x88", "\\xE2\\x80\\x89", "\\xE2\\x80\\x8A"]
  const E112Sources1: seq<Source> := ["\\xE2\\x80\\xAF", "\\xE2\\x81\\x9F", "\\xE3\\x80\\x80"]
  /** Ascii.java:165 */
  const E112: Entry := Entry(" ", E112Sources0 + E112Sources1)

  const Part0: seq<Entry> := [E0, E1, E2, E3, E4, E5, E6, E7, E8, E9]
  const Part1: seq<Entry> := [E11, E12, E13]
  const Part2: seq<Entry> := [E15, E16, E17, E18, E19, E20, E21, E22, E23]
  const Part3: seq<Entry> := [E25, E26, E27, E28, E29, E30, E31, E32, E33, E34, E35, E36, E37, E38]
  const Part4: seq<Entry> := [E40, E41, E42, E43, E44, E45, E46, E47, E48, E49, E50, E51, E52, E53, E54, E55]
  const Part5: seq<Entry> := [E56, E57, E58, E59, E60, E61, E62, E63, E64, E65, E66, E67, E68, E69, E70, E71]
  const Part6: seq<Entry> := [E72, E73, E74, E75, E76, E77, E78, E79, E80, E81, E82, E83, E84, E85, E86, E87]
  const Part7: seq<Entry> := [E88, E89, E90, E91, E92, E93, E94, E95, E96, E97, E98, E99, E100, E101, E102, E103]
  const Part8: seq<Entry> := [E104, E105, E106, E107, E108, E109, E110, E111, E112]

  /**
   * The whole table, in the order of the puts: runs of entries, with the
   * entries of 'a', 'e', 'o' and "at" kept apart so that lemmas can name them.
   */
  const Table: seq<Entry> := Part0 + [E10] + Part1 + [E14] + Part2 + [E24] + Part3 + [E39] + Part4 + Part5 + Part6 + Part7 + Part8

  /** Every key is nonempty plain text and every source is nonempty and starts with a char that is not plain. */
  lemma TableShape()
    ensures |Table| == 113
    ensures forall i | 0 <= i < |Table| :: |Table[i].key| > 0 && IsPlainText(Table[i].key)
    ensures forall i, j | 0 <= i < |Table| && 0 <= j < |Table[i].sources| :: SourceOk(Table[i].sources[j])
  {
  }

  /** '@', 'щ', 'ß' and '©' are sources of "at", "shch", "ss" and "(c)". */
  lemma SymbolEntries()
    ensures Table[39].key == "at" && Table[39].sources == ["@"]
    ensures Table[55].key == "shch" && Table[55].sources == ["\U{0449}"]
    ensures Table[56].key == "ss" && Table[56].sources == ["\U{00DF}"]
    ensures Table[65].key == "(c)" && Table[65].sources == ["\U{00A9}"]
  {
  }

  lemma DStrokeSources()
    ensures "\U{0111}" in E13.sources && "\U{0111}" in E41.sources
  {
    assert E13Sources0[2] == "\U{0111}";
  }

  /** 'đ' is a source of both "d" and "dj"; which one wins depends on the order the map is walked in. */
  lemma DStrokeUnderTwoKeys()
    ensures Table[13].key == "d" && "\U{0111}" in Table[13].sources
    ensures Table[41].key == "dj" && "\U{0111}" in Table[41].sources
  {
    DStrokeSources();
    DStrokeEntries();
  }

  lemma DStrokeEntries()
    ensures Table[13] == E13 && Table[41] == E41
  {
  }

  /**
   * U+102D U+102F is a source of "o", while U+102D alone is a source of "i"
   * and U+102F alone one of "u". In the order of the source text "i" comes
   * first, so the pair is folded to "iu" and the "o" source never matches;
   * an order with "o" first would give "o".
   */
  lemma MyanmarPairUnderThreeKeys()
    ensures Table[18].key == "i" && "\U{102D}" in Table[18].sources
    ensures Table[24].key == "o" && "\U{102D}\U{102F}" in Table[24].sources
    ensures Table[30].key == "u" && "\U{102F}" in Table[30].sources
  {
    MyanmarSources();
    MyanmarEntries();
  }

  lemma MyanmarSources()
    ensures "\U{102D}" in E18.sources && "\U{102D}\U{102F}" in E24.sources && "\U{102F}" in E30.sources
  {
    assert E18Sources2[11] == "\U{102D}";
    assert E24Sources2[9] == "\U{102D}\U{102F}";
    assert E30Sources1[8] == "\U{102F}";
  }

  lemma MyanmarEntries()
    ensures Table[18] == E18 && Table[24] == E24 && Table[30] == E30
  {
  }

  /**
   * The sources of the " " entry are escape texts written out with a
   * backslash, such as "\xC2\xA0", not the space chars they name.
   */
  lemma SpaceEntrySources()
    ensures Table[112].key == " " && "\\xC2\\xA0" in Table[112].sources
    ensures forall j | 0 <= j < |Table[112].sources| :: Table[112].sources[j][0] == '\\'
  {
    EscapeSources();
    assert Table[112] == E112;
  }

  lemma EscapeSources()
    ensures "\\xC2\\xA0" in E112.sources
    ensures forall j | 0 <= j < |E112.sources| :: E112.sources[j][0] == '\\'
  {
    assert E112Sources0[0] == "\\xC2\\xA0";
  }
}
