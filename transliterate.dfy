/** transliterate and slugify of strman.Strman, over the table of strman.Ascii. */
module Transliterate {
  import opened Wrappers
  import opened JString
  import opened Ascii
  import opened AsciiWatched
  import Strman

  // ------------------------------------------------------- specification

  /** Every source of one entry, in list order, rewritten to the entry's key with String.replace. */
  function ReplaceSources(value: string, key: string, sources: seq<Source>): string
    decreases |sources|
  {
    if sources == [] then value
    else Replace(ReplaceSources(value, key, sources[..|sources| - 1]), sources[|sources| - 1], key)
  }

  /** The entries applied one after the other, in table order. */
  function ApplyEntries(value: string, entries: seq<Entry>): string
    decreases |entries|
  {
    if entries == [] then value
    else
      var last := entries[|entries| - 1];
      ReplaceSources(ApplyEntries(value, entries[..|entries| - 1]), last.key, last.sources)
  }

  /** What transliterate returns for a non-null value. */
  function Transliterated(value: string): string {
    ApplyEntries(value, Table)
  }

  // -------------------------------------------------------------- method

  /**
   * transliterate(value): a null value is refused; otherwise every source of
   * every entry of the table is replaced by the entry's key, entry by entry.
   */
  method Transliterate(value: Option<string>) returns (r: Result<string>)
    ensures value.None? ==> r == Failure(IllegalArgument(Strman.NullValueMessage))
    ensures value.Some? ==> r == Success(Transliterated(value.value))
  {
    var v :- Strman.Validate(value);
    var result := ReplaceEntries(v, Table);
    return Success(result);
  }

  /** The two nested loops of transliterate, over the entries given. */
  method ReplaceEntries(value: string, entries: seq<Entry>) returns (result: string)
    ensures result == ApplyEntries(value, entries)
  {
    result := value;
    var i := 0;
    while i < |entries|
      invariant i <= |entries|
      invariant result == ApplyEntries(value, entries[..i])
    {
      var entry := entries[i];
      var j := 0;
      while j < |entry.sources|
        invariant j <= |entry.sources|
        invariant result == ReplaceSources(ApplyEntries(value, entries[..i]), entry.key, entry.sources[..j])
      {
        assert entry.sources[..j + 1][..j] == entry.sources[..j];
        result := Replace(result, entry.sources[j], entry.key);
        j := j + 1;
      }
      assert entry.sources[..j] == entry.sources;
      assert entries[..i + 1][..i] == entries[..i];
      i := i + 1;
    }
    assert entries[..i] == entries;
  }

  // ------------------------------------------------------- what it keeps

  /** `t` occurs nowhere in `s`. */
  ghost predicate Absent(s: string, t: string) {
    forall k | 0 <= k :: !OccursAt(s, t, k)
  }

  lemma {:induction false} ReplaceSourcesUnchanged(value: string, key: string, sources: seq<Source>)
    requires forall j | 0 <= j < |sources| :: Absent(value, sources[j])
    ensures ReplaceSources(value, key, sources) == value
    decreases |sources|
  {
    if sources != [] {
      ReplaceSourcesUnchanged(value, key, sources[..|sources| - 1]);
      ReplaceWithoutTarget(value, sources[|sources| - 1], key);
    }
  }

  lemma {:induction false} ApplyEntriesUnchanged(value: string, entries: seq<Entry>)
    requires forall i, j | 0 <= i < |entries| && 0 <= j < |entries[i].sources| :: Absent(value, entries[i].sources[j])
    ensures ApplyEntries(value, entries) == value
    decreases |entries|
  {
    if entries != [] {
      var n := |entries| - 1;
      ApplyEntriesUnchanged(value, entries[..n]);
      ReplaceSourcesUnchanged(value, entries[n].key, entries[n].sources);
    }
  }

  /** A value that contains no source of any entry comes back unchanged. */
  lemma TransliterateUnchanged(value: string)
    requires forall i, j | 0 <= i < |Table| && 0 <= j < |Table[i].sources| :: Absent(value, Table[i].sources[j])
    ensures Transliterated(value) == value
  {
    ApplyEntriesUnchanged(value, Table);
  }

  /** Plain ASCII text has nothing to transliterate, unless it holds '@' or a backslash. */
  lemma TransliteratePlainText(value: string)
    requires IsPlainText(value)
    ensures Transliterated(value) == value
  {
    forall i, j | 0 <= i < |Table| && 0 <= j < |Table[i].sources|
      ensures Absent(value, Table[i].sources[j])
    {
      FirstCharAbsent(value, Table[i].sources[j]);
    }
    TransliterateUnchanged(value);
  }

  // ------------------------------------------- text of plain and watched chars

  predicate PlainOrWatched(s: string) {
    forall i | 0 <= i < |s| :: IsPlain(s[i]) || IsWatched(s[i])
  }

  /** Each char of `s` that is in `hits` becomes `key`; every other char stays. */
  function MapChars(s: string, hits: set<char>, key: string): (r: string)
    ensures forall i | 0 <= i < |r| :: r[i] in key || (r[i] in s && r[i] !in hits)
    decreases |s|
  {
    if s == [] then []
    else (if s[0] in hits then key else [s[0]]) + MapChars(s[1..], hits, key)
  }

  lemma {:induction false} MapCharsAppend(a: string, b: string, hits: set<char>, key: string)
    ensures MapChars(a + b, hits, key) == MapChars(a, hits, key) + MapChars(b, hits, key)
    decreases |a|
  {
    if a != [] {
      var head := if a[0] in hits then key else [a[0]];
      assert (a + b)[0] == a[0] && (a + b)[1..] == a[1..] + b;
      MapCharsAppend(a[1..], b, hits, key);
      assert head + (MapChars(a[1..], hits, key) + MapChars(b, hits, key))
          == (head + MapChars(a[1..], hits, key)) + MapChars(b, hits, key);
    } else {
      assert a + b == b;
    }
  }

  /** Replacing a one-char target is mapping that char. */
  lemma {:induction false} ReplaceOneChar(s: string, c: char, key: string)
    ensures Replace(s, [c], key) == MapChars(s, {c}, key)
    decreases |s|
  {
    if s != [] {
      assert s[..1] == [s[0]];
      ReplaceOneChar(s[1..], c, key);
    }
  }

  /** Mapping one more char, which the key does not contain, extends the mapped set. */
  lemma {:induction false} MapCharsAdd(s: string, hits: set<char>, c: char, key: string)
    requires c !in key
    ensures MapChars(MapChars(s, hits, key), {c}, key) == MapChars(s, hits + {c}, key)
    decreases |s|
  {
    if s != [] {
      var head := if s[0] in hits then key else [s[0]];
      MapCharsAppend(head, MapChars(s[1..], hits, key), {c}, key);
      MapCharsAdd(s[1..], hits, c, key);
      if s[0] in hits {
        MapCharsOutside(key, {c}, key);
      } else {
        assert MapChars(head, {c}, key) == (if s[0] == c then key else [s[0]]) + MapChars([], {c}, key);
      }
    }
  }

  /** A string with no char in `hits` is its own image. */
  lemma {:induction false} MapCharsOutside(s: string, hits: set<char>, key: string)
    requires forall i | 0 <= i < |s| :: s[i] !in hits
    ensures MapChars(s, hits, key) == s
    decreases |s|
  {
    if s != [] {
      MapCharsOutside(s[1..], hits, key);
    }
  }

  lemma MapCharsPlainOrWatched(s: string, hits: set<char>, key: Key)
    requires PlainOrWatched(s)
    ensures PlainOrWatched(MapChars(s, hits, key))
  {
    var r := MapChars(s, hits, key);
    forall i | 0 <= i < |r|
      ensures IsPlain(r[i]) || IsWatched(r[i])
    {
      if r[i] in key {
        var j :| 0 <= j < |key| && key[j] == r[i];
      } else {
        var j :| 0 <= j < |s| && s[j] == r[i];
      }
    }
  }

  /** A source whose first char is neither plain nor watched cannot occur in such text. */
  lemma UnwatchedAbsent(s: string, src: Source)
    requires PlainOrWatched(s) && !IsWatched(src[0])
    ensures Absent(s, src)
  {
    FirstCharAbsent(s, src);
  }

  /** A run none of whose sources starts with a watched char leaves such text alone. */
  lemma ApplyRunUnchanged(v: string, run: seq<Entry>)
    requires PlainOrWatched(v) && RunOutside(run)
    ensures ApplyEntries(v, run) == v
  {
    forall i, j | 0 <= i < |run| && 0 <= j < |run[i].sources|
      ensures Absent(v, run[i].sources[j])
    {
      assert MapsOnto(run[i].sources, {});
      UnwatchedAbsent(v, run[i].sources[j]);
    }
    ApplyEntriesUnchanged(v, run);
  }

  /**
   * On such text, an entry whose watched sources are the single chars `hits`
   * maps exactly those chars to its key.
   */
  lemma {:induction false} ReplaceSourcesMapChars(v: string, key: Key, sources: seq<Source>, hits: set<char>)
    requires PlainOrWatched(v)
    requires forall c | c in hits :: IsWatched(c) && [c] in sources
    requires MapsOnto(sources, hits)
    ensures ReplaceSources(v, key, sources) == MapChars(v, hits, key)
    decreases |sources|
  {
    if sources == [] {
      MapCharsOutside(v, hits, key);
    } else {
      var n := |sources| - 1;
      var init, last := sources[..n], sources[n];
      assert MapsOnto(init, hits);
      if !IsWatched(last[0]) {
        forall c | c in hits
          ensures [c] in init
        {
          var k :| 0 <= k < |sources| && sources[k] == [c];
        }
        ReplaceSourcesMapChars(v, key, init, hits);
        MapCharsPlainOrWatched(v, hits, key);
        UnwatchedAbsent(MapChars(v, hits, key), last);
        ReplaceWithoutTarget(MapChars(v, hits, key), last, key);
      } else {
        var c := last[0];
        assert last == [c] && c in hits;
        assert c !in key;
        var rest := if [c] in init then hits else hits - {c};
        forall d | d in rest
          ensures [d] in init
        {
          var k :| 0 <= k < |sources| && sources[k] == [d];
        }
        forall i | 0 <= i < |init|
          ensures !IsWatched(init[i][0]) || (|init[i]| == 1 && init[i][0] in rest)
        {
          if IsWatched(init[i][0]) {
            assert init[i] == sources[i] && |init[i]| == 1;
            assert init[i] == [init[i][0]];
          }
        }
        ReplaceSourcesMapChars(v, key, init, rest);
        ReplaceOneChar(MapChars(v, rest, key), c, key);
        MapCharsAdd(v, rest, c, key);
        assert rest + {c} == hits;
      }
    }
  }

  lemma {:induction false} ApplyEntriesAppend(v: string, a: seq<Entry>, b: seq<Entry>)
    ensures ApplyEntries(v, a + b) == ApplyEntries(ApplyEntries(v, a), b)
    decreases |b|
  {
    if b != [] {
      var n := |b| - 1;
      var last := b[n];
      assert (a + b)[..|a + b| - 1] == a + b[..n] && (a + b)[|a + b| - 1] == last;
      ApplyEntriesAppend(v, a, b[..n]);
      calc {
        ApplyEntries(v, a + b);
        ReplaceSources(ApplyEntries(v, a + b[..n]), last.key, last.sources);
        ReplaceSources(ApplyEntries(ApplyEntries(v, a), b[..n]), last.key, last.sources);
        ApplyEntries(ApplyEntries(v, a), b);
      }
    } else {
      assert a + b == a;
    }
  }

  /** After a prefix that leaves watched text, a run that cannot act and then an entry that maps `hits`. */
  lemma RunThenEntry(v: string, done: seq<Entry>, run: seq<Entry>, e: Entry, hits: set<char>)
    requires PlainOrWatched(ApplyEntries(v, done)) && RunOutside(run)
    requires forall c | c in hits :: IsWatched(c) && [c] in e.sources
    requires MapsOnto(e.sources, hits)
    ensures ApplyEntries(v, done + run + [e]) == MapChars(ApplyEntries(v, done), hits, e.key)
    ensures PlainOrWatched(ApplyEntries(v, done + run + [e]))
  {
    var w := ApplyEntries(v, done);
    ApplyEntriesAppend(v, done + run, [e]);
    ApplyEntriesAppend(v, done, run);
    ApplyRunUnchanged(w, run);
    assert [e][..0] == [];
    ReplaceSourcesMapChars(w, e.key, e.sources, hits);
    MapCharsPlainOrWatched(w, hits, e.key);
  }

  /** After a prefix that leaves watched text, a run that cannot act. */
  lemma RunAfter(v: string, done: seq<Entry>, run: seq<Entry>)
    requires PlainOrWatched(ApplyEntries(v, done)) && RunOutside(run)
    ensures ApplyEntries(v, done + run) == ApplyEntries(v, done)
  {
    ApplyEntriesAppend(v, done, run);
    ApplyRunUnchanged(ApplyEntries(v, done), run);
  }

  /** à and á become "a", é becomes "e", ó and õ become "o", '@' becomes "at"; nothing else changes. */
  function MapWatched(v: string): string {
    MapChars(MapChars(MapChars(MapChars(v, {'\U{00E0}', '\U{00E1}'}, "a"), {'\U{00E9}'}, "e"), {'\U{00F3}', '\U{00F5}'}, "o"), {'@'}, "at")
  }

  /** A run, the entry of 'a', a run, the entry of 'e'. */
  lemma ApplyRunsAE(v: string, p0: seq<Entry>, ea: Entry, p1: seq<Entry>, ee: Entry)
    requires PlainOrWatched(v) && RunOutside(p0) && RunOutside(p1)
    requires ea.key == "a" && MapsOnto(ea.sources, {'\U{00E0}', '\U{00E1}'}) && "\U{00E0}" in ea.sources && "\U{00E1}" in ea.sources
    requires ee.key == "e" && MapsOnto(ee.sources, {'\U{00E9}'}) && "\U{00E9}" in ee.sources
    ensures ApplyEntries(v, p0 + [ea] + p1 + [ee]) == MapChars(MapChars(v, {'\U{00E0}', '\U{00E1}'}, "a"), {'\U{00E9}'}, "e")
    ensures PlainOrWatched(ApplyEntries(v, p0 + [ea] + p1 + [ee]))
  {
    var none: seq<Entry> := [];
    assert none + p0 == p0;
    RunThenEntry(v, none, p0, ea, {'\U{00E0}', '\U{00E1}'});
    RunThenEntry(v, p0 + [ea], p1, ee, {'\U{00E9}'});
  }

  /** After a prefix that leaves watched text: a run, the entry of 'o', a run, the entry of "at". */
  lemma ApplyRunsOAt(v: string, done: seq<Entry>, p2: seq<Entry>, eo: Entry, p3: seq<Entry>, eat: Entry)
    requires PlainOrWatched(ApplyEntries(v, done)) && RunOutside(p2) && RunOutside(p3)
    requires eo.key == "o" && MapsOnto(eo.sources, {'\U{00F3}', '\U{00F5}'}) && "\U{00F3}" in eo.sources && "\U{00F5}" in eo.sources
    requires eat.key == "at" && MapsOnto(eat.sources, {'@'}) && "@" in eat.sources
    ensures ApplyEntries(v, done + p2 + [eo] + p3 + [eat]) == MapChars(MapChars(ApplyEntries(v, done), {'\U{00F3}', '\U{00F5}'}, "o"), {'@'}, "at")
    ensures PlainOrWatched(ApplyEntries(v, done + p2 + [eo] + p3 + [eat]))
  {
    RunThenEntry(v, done, p2, eo, {'\U{00F3}', '\U{00F5}'});
    RunThenEntry(v, done + p2 + [eo], p3, eat, {'@'});
  }

  /** After a prefix that leaves watched text: five runs that cannot act. */
  lemma ApplyRunsTail(v: string, done: seq<Entry>, p4: seq<Entry>, p5: seq<Entry>, p6: seq<Entry>, p7: seq<Entry>, p8: seq<Entry>)
    requires PlainOrWatched(ApplyEntries(v, done))
    requires RunOutside(p4) && RunOutside(p5) && RunOutside(p6) && RunOutside(p7) && RunOutside(p8)
    ensures ApplyEntries(v, done + p4 + p5 + p6 + p7 + p8) == ApplyEntries(v, done)
  {
    RunAfter(v, done, p4);
    RunAfter(v, done + p4, p5);
    RunAfter(v, done + p4 + p5, p6);
    RunAfter(v, done + p4 + p5 + p6, p7);
    RunAfter(v, done + p4 + p5 + p6 + p7, p8);
  }

  /**
   * On text made of plain chars and à, á, é, ó, õ, '@' and U+00A0, transliterate
   * maps à and á to "a", é to "e", ó and õ to "o", '@' to "at", and keeps
   * every other char, the no-break space among them.
   */
  lemma TransliterateWatched(v: string)
    requires PlainOrWatched(v)
    ensures Transliterated(v) == MapWatched(v)
  {
    Part0Outside(); Part1Outside(); Part2Outside(); Part3Outside(); Part4Outside();
    Part5Outside(); Part6Outside(); Part7Outside(); Part8Outside();
    E10Maps(); E14Maps(); E24Maps(); E39Maps();
    var d2 := Part0 + [E10] + Part1 + [E14];
    ApplyRunsAE(v, Part0, E10, Part1, E14);
    var d4 := d2 + Part2 + [E24] + Part3 + [E39];
    ApplyRunsOAt(v, d2, Part2, E24, Part3, E39);
    ApplyRunsTail(v, d4, Part4, Part5, Part6, Part7, Part8);
  }

  /** What MapWatched does to one char other than '@'. */
  function WatchedChar(c: char): char {
    if c == '\U{00E0}' || c == '\U{00E1}' then 'a'
    else if c == '\U{00E9}' then 'e'
    else if c == '\U{00F3}' || c == '\U{00F5}' then 'o'
    else c
  }

  /** With a one-char key, mapping keeps the length and works char by char. */
  lemma {:induction false} MapCharsOneChar(s: string, hits: set<char>, k: char)
    ensures |MapChars(s, hits, [k])| == |s|
    ensures forall i | 0 <= i < |s| :: MapChars(s, hits, [k])[i] == if s[i] in hits then k else s[i]
    decreases |s|
  {
    if s != [] {
      MapCharsOneChar(s[1..], hits, k);
    }
  }

  /** Without '@', MapWatched works char by char. */
  lemma MapWatchedNoAt(v: string)
    requires forall i | 0 <= i < |v| :: v[i] != '@'
    ensures |MapWatched(v)| == |v|
    ensures forall i | 0 <= i < |v| :: MapWatched(v)[i] == WatchedChar(v[i])
  {
    var v1 := MapChars(v, {'\U{00E0}', '\U{00E1}'}, "a");
    MapCharsOneChar(v, {'\U{00E0}', '\U{00E1}'}, 'a');
    var v2 := MapChars(v1, {'\U{00E9}'}, "e");
    MapCharsOneChar(v1, {'\U{00E9}'}, 'e');
    var v3 := MapChars(v2, {'\U{00F3}', '\U{00F5}'}, "o");
    MapCharsOneChar(v2, {'\U{00F3}', '\U{00F5}'}, 'o');
    forall i | 0 <= i < |v3| ensures v3[i] == WatchedChar(v[i]) && v3[i] !in {'@'} {
      assert v1[i] == if v[i] in {'\U{00E0}', '\U{00E1}'} then 'a' else v[i];
      assert v2[i] == if v1[i] in {'\U{00E9}'} then 'e' else v1[i];
      assert v3[i] == if v2[i] in {'\U{00F3}', '\U{00F5}'} then 'o' else v2[i];
    }
    MapCharsOutside(v3, {'@'}, "at");
  }

  lemma FooBarMapped(v: string)
    requires v == "f\U{00F3}\U{00F5} b\U{00E1}r"
    ensures MapWatched(v) == "foo bar"
  {
    MapWatchedNoAt(v);
  }

  lemma DejaVuMapped(v: string)
    requires v == "d\U{00E9}j\U{00E0} vu"
    ensures MapWatched(v) == "deja vu"
  {
    MapWatchedNoAt(v);
  }

  lemma NoBreakSpaceMapped(v: string)
    requires v == "\U{00A0}"
    ensures MapWatched(v) == v
  {
    MapWatchedNoAt(v);
  }

  lemma AtMapped(v: string)
    requires v == "@"
    ensures MapWatched(v) == "at"
  {
    MapCharsOutside(v, {'\U{00E0}', '\U{00E1}'}, "a");
    MapCharsOutside(v, {'\U{00E9}'}, "e");
    MapCharsOutside(v, {'\U{00F3}', '\U{00F5}'}, "o");
    assert MapChars(v, {'@'}, "at") == "at" + MapChars([], {'@'}, "at");
  }

  /** The library's example: "fóõ bár" becomes "foo bar". */
  lemma TransliterateFooBarExample(value: string)
    requires value == "f\U{00F3}\U{00F5} b\U{00E1}r"
    ensures Transliterated(value) == "foo bar"
  {
    TransliterateWatched(value);
    FooBarMapped(value);
  }

  /** The library's example: "déjà vu" becomes "deja vu". */
  lemma TransliterateDejaVuExample(value: string)
    requires value == "d\U{00E9}j\U{00E0} vu"
    ensures Transliterated(value) == "deja vu"
  {
    TransliterateWatched(value);
    DejaVuMapped(value);
  }

  /** '@' becomes "at". */
  lemma TransliterateAtExample(value: string)
    requires value == "@"
    ensures Transliterated(value) == "at"
  {
    TransliterateWatched(value);
    AtMapped(value);
  }

  /** A real no-break space U+00A0 is left as it is: no source of the table is that char. */
  lemma TransliterateNoBreakSpaceExample(value: string)
    requires value == "\U{00A0}"
    ensures Transliterated(value) == value
  {
    TransliterateWatched(value);
    NoBreakSpaceMapped(value);
  }
}
