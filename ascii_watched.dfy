/**
 * Which sources of the table can match text made of plain chars and the
 * watched chars: à, á, é, ó, õ, '@' and the no-break space U+00A0. Only the
 * entries of 'a', 'e', 'o' and "at" hold such sources, and each of those is
 * a single watched char.
 */
module AsciiWatched {
  import opened Ascii

  predicate IsWatched(c: char) {
    c == '\U{00A0}' || c == '\U{00E0}' || c == '\U{00E1}' || c == '\U{00E9}' || c == '\U{00F3}' || c == '\U{00F5}' || c == '@'
  }

  /** Every source either starts with an unwatched char or is one of the single chars `hits`. */
  ghost predicate MapsOnto(sources: seq<Source>, hits: set<char>) {
    forall i | 0 <= i < |sources| :: !IsWatched(sources[i][0]) || (|sources[i]| == 1 && sources[i][0] in hits)
  }

  /** No source of any entry of the run starts with a watched char. */
  ghost predicate RunOutside(run: seq<Entry>) {
    forall k | 0 <= k < |run| :: MapsOnto(run[k].sources, {})
  }

  lemma MapsOntoAppend(a: seq<Source>, b: seq<Source>, hits: set<char>)
    requires MapsOnto(a, hits) && MapsOnto(b, hits)
    ensures MapsOnto(a + b, hits)
  {
  }

  lemma E0Outside()
    ensures MapsOnto(E0.sources, {})
  {
  }

  lemma E1Outside()
    ensures MapsOnto(E1.sources, {})
  {
  }

  lemma E2Outside()
    ensures MapsOnto(E2.sources, {})
  {
  }

  lemma E3Outside()
    ensures MapsOnto(E3.sources, {})
  {
  }

  lemma E4Outside()
    ensures MapsOnto(E4.sources, {})
  {
  }

  lemma E5Outside()
    ensures MapsOnto(E5.sources, {})
  {
  }

  lemma E6Outside()
    ensures MapsOnto(E6.sources, {})
  {
  }

  lemma E7Outside()
    ensures MapsOnto(E7.sources, {})
  {
  }

  lemma E8Outside()
    ensures MapsOnto(E8.sources, {})
  {
  }

  lemma E9Outside()
    ensures MapsOnto(E9.sources, {})
  {
  }

  lemma E10Sources0Maps()
    ensures MapsOnto(E10Sources0, {'\U{00E0}', '\U{00E1}'})
  {
  }

  lemma E10Sources1Maps()
    ensures MapsOnto(E10Sources1, {})
  {
  }

  lemma E10Sources2Maps()
    ensures MapsOnto(E10Sources2, {})
  {
  }

  lemma E10Sources3Maps()
    ensures MapsOnto(E10Sources3, {})
  {
  }

  lemma E10Sources4Maps()
    ensures MapsOnto(E10Sources4, {})
  {
  }

  lemma E10Maps()
    ensures MapsOnto(E10.sources, {'\U{00E0}', '\U{00E1}'})
    ensures "\U{00E0}" in E10.sources && "\U{00E1}" in E10.sources
  {
    E10Sources0Maps();
    E10Sources1Maps();
    E10Sources2Maps();
    E10Sources3Maps();
    E10Sources4Maps();
    MapsOntoAppend(E10Sources0, E10Sources1, {'\U{00E0}', '\U{00E1}'});
    MapsOntoAppend(E10Sources0 + E10Sources1, E10Sources2, {'\U{00E0}', '\U{00E1}'});
    MapsOntoAppend(E10Sources0 + E10Sources1 + E10Sources2, E10Sources3, {'\U{00E0}', '\U{00E1}'});
    MapsOntoAppend(E10Sources0 + E10Sources1 + E10Sources2 + E10Sources3, E10Sources4, {'\U{00E0}', '\U{00E1}'});
  }

  lemma E11Outside()
    ensures MapsOnto(E11.sources, {})
  {
  }

  lemma E12Outside()
    ensures MapsOnto(E12.sources, {})
  {
  }

  lemma E13Sources0Maps()
    ensures MapsOnto(E13Sources0, {})
  {
  }

  lemma E13Sources1Maps()
    ensures MapsOnto(E13Sources1, {})
  {
  }

  lemma E13Outside()
    ensures MapsOnto(E13.sources, {})
  {
    E13Sources0Maps();
    E13Sources1Maps();
    MapsOntoAppend(E13Sources0, E13Sources1, {});
  }

  lemma E14Sources0Maps()
    ensures MapsOnto(E14Sources0, {'\U{00E9}'})
  {
  }

  lemma E14Sources1Maps()
    ensures MapsOnto(E14Sources1, {})
  {
  }

  lemma E14Sources2Maps()
    ensures MapsOnto(E14Sources2, {})
  {
  }

  lemma E14Sources3Maps()
    ensures MapsOnto(E14Sources3, {})
  {
  }

  lemma E14Maps()
    ensures MapsOnto(E14.sources, {'\U{00E9}'})
    ensures "\U{00E9}" in E14.sources
  {
    E14Sources0Maps();
    E14Sources1Maps();
    E14Sources2Maps();
    E14Sources3Maps();
    MapsOntoAppend(E14Sources0, E14Sources1, {'\U{00E9}'});
    MapsOntoAppend(E14Sources0 + E14Sources1, E14Sources2, {'\U{00E9}'});
    MapsOntoAppend(E14Sources0 + E14Sources1 + E14Sources2, E14Sources3, {'\U{00E9}'});
  }

  lemma E15Outside()
    ensures MapsOnto(E15.sources, {})
  {
  }

  lemma E16Outside()
    ensures MapsOnto(E16.sources, {})
  {
  }

  lemma E17Outside()
    ensures MapsOnto(E17.sources, {})
  {
  }

  lemma E18Sources0Maps()
    ensures MapsOnto(E18Sources0, {})
  {
  }

  lemma E18Sources1Maps()
    ensures MapsOnto(E18Sources1, {})
  {
  }

  lemma E18Sources2Maps()
    ensures MapsOnto(E18Sources2, {})
  {
  }

  lemma E18Sources3Maps()
    ensures MapsOnto(E18Sources3, {})
  {
  }

  lemma E18Outside()
    ensures MapsOnto(E18.sources, {})
  {
    E18Sources0Maps();
    E18Sources1Maps();
    E18Sources2Maps();
    E18Sources3Maps();
    MapsOntoAppend(E18Sources0, E18Sources1, {});
    MapsOntoAppend(E18Sources0 + E18Sources1, E18Sources2, {});
    MapsOntoAppend(E18Sources0 + E18Sources1 + E18Sources2, E18Sources3, {});
  }

  lemma E19Outside()
    ensures MapsOnto(E19.sources, {})
  {
  }

  lemma E20Outside()
    ensures MapsOnto(E20.sources, {})
  {
  }

  lemma E21Outside()
    ensures MapsOnto(E21.sources, {})
  {
  }

  lemma E22Outside()
    ensures MapsOnto(E22.sources, {})
  {
  }

  lemma E23Outside()
    ensures MapsOnto(E23.sources, {})
  {
  }

  lemma E24Sources0Maps()
    ensures MapsOnto(E24Sources0, {'\U{00F3}', '\U{00F5}'})
  {
  }

  lemma E24Sources1Maps()
    ensures MapsOnto(E24Sources1, {})
  {
  }

  lemma E24Sources2Maps()
    ensures MapsOnto(E24Sources2, {})
  {
  }

  lemma E24Sources3Maps()
    ensures MapsOnto(E24Sources3, {})
  {
  }

  lemma E24Maps()
    ensures MapsOnto(E24.sources, {'\U{00F3}', '\U{00F5}'})
    ensures "\U{00F3}" in E24.sources && "\U{00F5}" in E24.sources
  {
    E24Sources0Maps();
    E24Sources1Maps();
    E24Sources2Maps();
    E24Sources3Maps();
    MapsOntoAppend(E24Sources0, E24Sources1, {'\U{00F3}', '\U{00F5}'});
    MapsOntoAppend(E24Sources0 + E24Sources1, E24Sources2, {'\U{00F3}', '\U{00F5}'});
    MapsOntoAppend(E24Sources0 + E24Sources1 + E24Sources2, E24Sources3, {'\U{00F3}', '\U{00F5}'});
  }

  lemma E25Outside()
    ensures MapsOnto(E25.sources, {})
  {
  }

  lemma E26Outside()
    ensures MapsOnto(E26.sources, {})
  {
  }

  lemma E27Outside()
    ensures MapsOnto(E27.sources, {})
  {
  }

  lemma E28Outside()
    ensures MapsOnto(E28.sources, {})
  {
  }

  lemma E29Outside()
    ensures MapsOnto(E29.sources, {})
  {
  }

  lemma E30Sources0Maps()
    ensures MapsOnto(E30Sources0, {})
  {
  }

  lemma E30Sources1Maps()
    ensures MapsOnto(E30Sources1, {})
  {
  }

  lemma E30Sources2Maps()
    ensures MapsOnto(E30Sources2, {})
  {
  }

  lemma E30Outside()
    ensures MapsOnto(E30.sources, {})
  {
    E30Sources0Maps();
    E30Sources1Maps();
    E30Sources2Maps();
    MapsOntoAppend(E30Sources0, E30Sources1, {});
    MapsOntoAppend(E30Sources0 + E30Sources1, E30Sources2, {});
  }

  lemma E31Outside()
    ensures MapsOnto(E31.sources, {})
  {
  }

  lemma E32Outside()
    ensures MapsOnto(E32.sources, {})
  {
  }

  lemma E33Outside()
    ensures MapsOnto(E33.sources, {})
  {
  }

  lemma E34Sources0Maps()
    ensures MapsOnto(E34Sources0, {})
  {
  }

  lemma E34Sources1Maps()
    ensures MapsOnto(E34Sources1, {})
  {
  }

  lemma E34Outside()
    ensures MapsOnto(E34.sources, {})
  {
    E34Sources0Maps();
    E34Sources1Maps();
    MapsOntoAppend(E34Sources0, E34Sources1, {});
  }

  lemma E35Outside()
    ensures MapsOnto(E35.sources, {})
  {
  }

  lemma E36Outside()
    ensures MapsOnto(E36.sources, {})
  {
  }

  lemma E37Outside()
    ensures MapsOnto(E37.sources, {})
  {
  }

  lemma E38Outside()
    ensures MapsOnto(E38.sources, {})
  {
  }

  lemma E39Maps()
    ensures MapsOnto(E39.sources, {'@'})
    ensures "@" in E39.sources
  {
  }

  lemma E40Outside()
    ensures MapsOnto(E40.sources, {})
  {
  }

  lemma E41Outside()
    ensures MapsOnto(E41.sources, {})
  {
  }

  lemma E42Outside()
    ensures MapsOnto(E42.sources, {})
  {
  }

  lemma E43Outside()
    ensures MapsOnto(E43.sources, {})
  {
  }

  lemma E44Outside()
    ensures MapsOnto(E44.sources, {})
  {
  }

  lemma E45Outside()
    ensures MapsOnto(E45.sources, {})
  {
  }

  lemma E46Outside()
    ensures MapsOnto(E46.sources, {})
  {
  }

  lemma E47Outside()
    ensures MapsOnto(E47.sources, {})
  {
  }

  lemma E48Outside()
    ensures MapsOnto(E48.sources, {})
  {
  }

  lemma E49Outside()
    ensures MapsOnto(E49.sources, {})
  {
  }

  lemma E50Outside()
    ensures MapsOnto(E50.sources, {})
  {
  }

  lemma E51Outside()
    ensures MapsOnto(E51.sources, {})
  {
  }

  lemma E52Outside()
    ensures MapsOnto(E52.sources, {})
  {
  }

  lemma E53Outside()
    ensures MapsOnto(E53.sources, {})
  {
  }

  lemma E54Outside()
    ensures MapsOnto(E54.sources, {})
  {
  }

  lemma E55Outside()
    ensures MapsOnto(E55.sources, {})
  {
  }

  lemma E56Outside()
    ensures MapsOnto(E56.sources, {})
  {
  }

  lemma E57Outside()
    ensures MapsOnto(E57.sources, {})
  {
  }

  lemma E58Outside()
    ensures MapsOnto(E58.sources, {})
  {
  }

  lemma E59Outside()
    ensures MapsOnto(E59.sources, {})
  {
  }

  lemma E60Outside()
    ensures MapsOnto(E60.sources, {})
  {
  }

  lemma E61Outside()
    ensures MapsOnto(E61.sources, {})
  {
  }

  lemma E62Outside()
    ensures MapsOnto(E62.sources, {})
  {
  }

  lemma E63Outside()
    ensures MapsOnto(E63.sources, {})
  {
  }

  lemma E64Outside()
    ensures MapsOnto(E64.sources, {})
  {
  }

  lemma E65Outside()
    ensures MapsOnto(E65.sources, {})
  {
  }

  lemma E66Sources0Maps()
    ensures MapsOnto(E66Sources0, {})
  {
  }

  lemma E66Sources1Maps()
    ensures MapsOnto(E66Sources1, {})
  {
  }

  lemma E66Sources2Maps()
    ensures MapsOnto(E66Sources2, {})
  {
  }

  lemma E66Sources3Maps()
    ensures MapsOnto(E66Sources3, {})
  {
  }

  lemma E66Outside()
    ensures MapsOnto(E66.sources, {})
  {
    E66Sources0Maps();
    E66Sources1Maps();
    E66Sources2Maps();
    E66Sources3Maps();
    MapsOntoAppend(E66Sources0, E66Sources1, {});
    MapsOntoAppend(E66Sources0 + E66Sources1, E66Sources2, {});
    MapsOntoAppend(E66Sources0 + E66Sources1 + E66Sources2, E66Sources3, {});
  }

  lemma E67Outside()
    ensures MapsOnto(E67.sources, {})
  {
  }

  lemma E68Outside()
    ensures MapsOnto(E68.sources, {})
  {
  }

  lemma E69Outside()
    ensures MapsOnto(E69.sources, {})
  {
  }

  lemma E70Sources0Maps()
    ensures MapsOnto(E70Sources0, {})
  {
  }

  lemma E70Sources1Maps()
    ensures MapsOnto(E70Sources1, {})
  {
  }

  lemma E70Sources2Maps()
    ensures MapsOnto(E70Sources2, {})
  {
  }

  lemma E70Outside()
    ensures MapsOnto(E70.sources, {})
  {
    E70Sources0Maps();
    E70Sources1Maps();
    E70Sources2Maps();
    MapsOntoAppend(E70Sources0, E70Sources1, {});
    MapsOntoAppend(E70Sources0 + E70Sources1, E70Sources2, {});
  }

  lemma E71Outside()
    ensures MapsOnto(E71.sources, {})
  {
  }

  lemma E72Outside()
    ensures MapsOnto(E72.sources, {})
  {
  }

  lemma E73Outside()
    ensures MapsOnto(E73.sources, {})
  {
  }

  lemma E74Sources0Maps()
    ensures MapsOnto(E74Sources0, {})
  {
  }

  lemma E74Sources1Maps()
    ensures MapsOnto(E74Sources1, {})
  {
  }

  lemma E74Sources2Maps()
    ensures MapsOnto(E74Sources2, {})
  {
  }

  lemma E74Outside()
    ensures MapsOnto(E74.sources, {})
  {
    E74Sources0Maps();
    E74Sources1Maps();
    E74Sources2Maps();
    MapsOntoAppend(E74Sources0, E74Sources1, {});
    MapsOntoAppend(E74Sources0 + E74Sources1, E74Sources2, {});
  }

  lemma E75Outside()
    ensures MapsOnto(E75.sources, {})
  {
  }

  lemma E76Outside()
    ensures MapsOnto(E76.sources, {})
  {
  }

  lemma E77Outside()
    ensures MapsOnto(E77.sources, {})
  {
  }

  lemma E78Outside()
    ensures MapsOnto(E78.sources, {})
  {
  }

  lemma E79Sources0Maps()
    ensures MapsOnto(E79Sources0, {})
  {
  }

  lemma E79Sources1Maps()
    ensures MapsOnto(E79Sources1, {})
  {
  }

  lemma E79Sources2Maps()
    ensures MapsOnto(E79Sources2, {})
  {
  }

  lemma E79Outside()
    ensures MapsOnto(E79.sources, {})
  {
    E79Sources0Maps();
    E79Sources1Maps();
    E79Sources2Maps();
    MapsOntoAppend(E79Sources0, E79Sources1, {});
    MapsOntoAppend(E79Sources0 + E79Sources1, E79Sources2, {});
  }

  lemma E80Outside()
    ensures MapsOnto(E80.sources, {})
  {
  }

  lemma E81Outside()
    ensures MapsOnto(E81.sources, {})
  {
  }

  lemma E82Outside()
    ensures MapsOnto(E82.sources, {})
  {
  }

  lemma E83Outside()
    ensures MapsOnto(E83.sources, {})
  {
  }

  lemma E84Sources0Maps()
    ensures MapsOnto(E84Sources0, {})
  {
  }

  lemma E84Sources1Maps()
    ensures MapsOnto(E84Sources1, {})
  {
  }

  lemma E84Outside()
    ensures MapsOnto(E84.sources, {})
  {
    E84Sources0Maps();
    E84Sources1Maps();
    MapsOntoAppend(E84Sources0, E84Sources1, {});
  }

  lemma E85Outside()
    ensures MapsOnto(E85.sources, {})
  {
  }

  lemma E86Outside()
    ensures MapsOnto(E86.sources, {})
  {
  }

  lemma E87Outside()
    ensures MapsOnto(E87.sources, {})
  {
  }

  lemma E88Sources0Maps()
    ensures MapsOnto(E88Sources0, {})
  {
  }

  lemma E88Sources1Maps()
    ensures MapsOnto(E88Sources1, {})
  {
  }

  lemma E88Outside()
    ensures MapsOnto(E88.sources, {})
  {
    E88Sources0Maps();
    E88Sources1Maps();
    MapsOntoAppend(E88Sources0, E88Sources1, {});
  }

  lemma E89Outside()
    ensures MapsOnto(E89.sources, {})
  {
  }

  lemma E90Outside()
    ensures MapsOnto(E90.sources, {})
  {
  }

  lemma E91Outside()
    ensures MapsOnto(E91.sources, {})
  {
  }

  lemma E92Outside()
    ensures MapsOnto(E92.sources, {})
  {
  }

  lemma E93Outside()
    ensures MapsOnto(E93.sources, {})
  {
  }

  lemma E94Outside()
    ensures MapsOnto(E94.sources, {})
  {
  }

  lemma E95Outside()
    ensures MapsOnto(E95.sources, {})
  {
  }

  lemma E96Outside()
    ensures MapsOnto(E96.sources, {})
  {
  }

  lemma E97Outside()
    ensures MapsOnto(E97.sources, {})
  {
  }

  lemma E98Outside()
    ensures MapsOnto(E98.sources, {})
  {
  }

  lemma E99Outside()
    ensures MapsOnto(E99.sources, {})
  {
  }

  lemma E100Outside()
    ensures MapsOnto(E100.sources, {})
  {
  }

  lemma E101Outside()
    ensures MapsOnto(E101.sources, {})
  {
  }

  lemma E102Outside()
    ensures MapsOnto(E102.sources, {})
  {
  }

  lemma E103Outside()
    ensures MapsOnto(E103.sources, {})
  {
  }

  lemma E104Outside()
    ensures MapsOnto(E104.sources, {})
  {
  }

  lemma E105Outside()
    ensures MapsOnto(E105.sources, {})
  {
  }

  lemma E106Outside()
    ensures MapsOnto(E106.sources, {})
  {
  }

  lemma E107Outside()
    ensures MapsOnto(E107.sources, {})
  {
  }

  lemma E108Outside()
    ensures MapsOnto(E108.sources, {})
  {
  }

  lemma E109Outside()
    ensures MapsOnto(E109.sources, {})
  {
  }

  lemma E110Outside()
    ensures MapsOnto(E110.sources, {})
  {
  }

  lemma E111Outside()
    ensures MapsOnto(E111.sources, {})
  {
  }

  lemma E112Sources0Maps()
    ensures MapsOnto(E112Sources0, {})
  {
  }

  lemma E112Sources1Maps()
    ensures MapsOnto(E112Sources1, {})
  {
  }

  lemma E112Outside()
    ensures MapsOnto(E112.sources, {})
  {
    E112Sources0Maps();
    E112Sources1Maps();
    MapsOntoAppend(E112Sources0, E112Sources1, {});
  }

  lemma Part0Outside()
    ensures RunOutside(Part0)
  {
    E0Outside(); E1Outside(); E2Outside(); E3Outside(); E4Outside(); E5Outside(); E6Outside(); E7Outside(); E8Outside(); E9Outside();
  }

  lemma Part1Outside()
    ensures RunOutside(Part1)
  {
    E11Outside(); E12Outside(); E13Outside();
  }

  lemma Part2Outside()
    ensures RunOutside(Part2)
  {
    E15Outside(); E16Outside(); E17Outside(); E18Outside(); E19Outside(); E20Outside(); E21Outside(); E22Outside(); E23Outside();
  }

  lemma Part3Outside()
    ensures RunOutside(Part3)
  {
    E25Outside(); E26Outside(); E27Outside(); E28Outside(); E29Outside(); E30Outside(); E31Outside(); E32Outside(); E33Outside(); E34Outside(); E35Outside(); E36Outside(); E37Outside(); E38Outside();
  }

  lemma Part4Outside()
    ensures RunOutside(Part4)
  {
    E40Outside(); E41Outside(); E42Outside(); E43Outside(); E44Outside(); E45Outside(); E46Outside(); E47Outside(); E48Outside(); E49Outside(); E50Outside(); E51Outside(); E52Outside(); E53Outside(); E54Outside(); E55Outside();
  }

  lemma Part5Outside()
    ensures RunOutside(Part5)
  {
    E56Outside(); E57Outside(); E58Outside(); E59Outside(); E60Outside(); E61Outside(); E62Outside(); E63Outside(); E64Outside(); E65Outside(); E66Outside(); E67Outside(); E68Outside(); E69Outside(); E70Outside(); E71Outside();
  }

  lemma Part6Outside()
    ensures RunOutside(Part6)
  {
    E72Outside(); E73Outside(); E74Outside(); E75Outside(); E76Outside(); E77Outside(); E78Outside(); E79Outside(); E80Outside(); E81Outside(); E82Outside(); E83Outside(); E84Outside(); E85Outside(); E86Outside(); E87Outside();
  }

  lemma Part7Outside()
    ensures RunOutside(Part7)
  {
    E88Outside(); E89Outside(); E90Outside(); E91Outside(); E92Outside(); E93Outside(); E94Outside(); E95Outside(); E96Outside(); E97Outside(); E98Outside(); E99Outside(); E100Outside(); E101Outside(); E102Outside(); E103Outside();
  }

  lemma Part8Outside()
    ensures RunOutside(Part8)
  {
    E104Outside(); E105Outside(); E106Outside(); E107Outside(); E108Outside(); E109Outside(); E110Outside(); E111Outside(); E112Outside();
  }
}
