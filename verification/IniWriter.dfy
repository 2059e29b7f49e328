/** The writer of configuration files, on values, and what it is for: the reader reads back what it writes. */
module IniWriter {
  import opened Options
  import opened Ini
  import opened IniLayouts

  function WrittenProperty(p: Property): string { p.name + " = " + p.value }

  function WrittenProperties(ps: seq<Property>): string {
    if ps == [] then "" else WrittenProperties(ps[..|ps| - 1]) + "  " + WrittenProperty(ps[|ps| - 1]) + "\n"
  }

  function WrittenSection(s: Section): string { "[" + s.name + "]\n" + WrittenProperties(s.properties) }

  function WrittenSections(ss: seq<Section>): string {
    if ss == [] then "" else WrittenSections(ss[..|ss| - 1]) + WrittenSection(ss[|ss| - 1]) + "\n"
  }

  /** What is written for one more property, or one more section. */
  lemma WrittenOneByOne(ps: seq<Property>, p: Property, ss: seq<Section>, name: string)
    ensures WrittenProperties(ps + [p]) == WrittenProperties(ps) + "  " + p.name + " = " + p.value + "\n"
    ensures WrittenSections(ss + [Section(name, ps)])
         == WrittenSections(ss) + "[" + name + "]\n" + WrittenProperties(ps) + "\n"
    ensures WrittenProperties([]) == "" && WrittenSections([]) == ""
  {
    assert (ps + [p])[..|ps|] == ps && (ss + [Section(name, ps)])[..|ss|] == ss;
    assert WrittenProperties(ps) + "  " + (p.name + " = " + p.value) + "\n"
        == WrittenProperties(ps) + "  " + p.name + " = " + p.value + "\n";
  }

  /** No part of the text is an escape. */
  predicate Plain(text: string) { '\\' !in text }

  predicate IsPlainProperty(p: Property, emptyValue: bool) {
    && IsPropertyName(p.name) && Plain(p.name)
    && if p.value == "" then emptyValue else IsPropertyValue(p.value) && Plain(p.value)
  }

  predicate ArePlainProperties(ps: seq<Property>, emptyValue: bool) {
    forall j :: 0 <= j < |ps| ==> IsPlainProperty(ps[j], emptyValue && j == |ps| - 1)
  }

  /** A configuration whose text is free of escapes and of characters that have a meaning to the reader.  The
      last value in front of another section may be empty. */
  predicate IsConfig(ss: seq<Section>) {
    forall i :: 0 <= i < |ss| ==>
      && IsSectionName(ss[i].name) && Plain(ss[i].name) && ss[i].properties != []
      && ArePlainProperties(ss[i].properties, i < |ss| - 1)
  }

  /** The layout that the writer uses: each property on an indented line of its own, and a blank line after
      each section.  The reader takes the end of the line behind an empty value for blanks in front of it. */
  function LayOutProperty(p: Property, last: bool): PropertyText {
    var newline := if last then "\n\n" else "\n  ";
    if p.value == "" then PropertyText(p.name, " ", " " + newline, "", "")
    else PropertyText(p.name, " ", " ", p.value, newline)
  }

  function LayOutProperties(ps: seq<Property>): (r: seq<PropertyText>)
    ensures |r| == |ps|
  {
    seq(|ps|, j requires 0 <= j < |ps| => LayOutProperty(ps[j], j == |ps| - 1))
  }

  function LayOutSection(s: Section): SectionText {
    SectionText(s.name, "\n  ", LayOutProperties(s.properties))
  }

  function LayOut(ss: seq<Section>): (r: seq<SectionText>) {
    seq(|ss|, i requires 0 <= i < |ss| => LayOutSection(ss[i]))
  }

  lemma {:induction false} PropertiesStringConcat(a: seq<PropertyText>, b: seq<PropertyText>)
    ensures PropertiesString(a + b) == PropertiesString(a) + PropertiesString(b)
    decreases |a|
  {
    hide PropertyString;
    if a == [] {
      assert a + b == b;
    } else {
      PropertiesStringConcat(a[1..], b);
      assert (a + b)[1..] == a[1..] + b;
    }
  }

  lemma {:induction false} SectionsStringConcat(a: seq<SectionText>, b: seq<SectionText>)
    ensures SectionsString(a + b) == SectionsString(a) + SectionsString(b)
    decreases |a|
  {
    hide SectionString;
    if a == [] {
      assert a + b == b;
    } else {
      SectionsStringConcat(a[1..], b);
      assert (a + b)[1..] == a[1..] + b;
    }
  }

  /** The properties of a section in the writer's layout, when more of them follow: each line break belongs
      to the property in front of it. */
  function LinesBefore(ps: seq<Property>): seq<PropertyText> {
    seq(|ps|, j requires 0 <= j < |ps| => LayOutProperty(ps[j], false))
  }

  lemma LineString(p: Property, last: bool)
    ensures PropertyString(LayOutProperty(p, last)) == WrittenProperty(p) + ("\n" + if last then "\n" else "  ")
  {
  }

  lemma JoinLines(before: string, indent: string, text: string, line: string, newline: string, end: string)
    requires before + indent == indent + text
    ensures before + indent + line + newline + end == indent + (text + (line + (newline + end)))
  {
  }

  lemma {:induction false} WrittenLines(ps: seq<Property>)
    ensures WrittenProperties(ps) + "  " == "  " + PropertiesString(LinesBefore(ps))
  {
    hide PropertyString, WrittenProperty, LayOutProperty;
    if ps == [] {
      assert LinesBefore(ps) == [];
    } else {
      var n := |ps| - 1;
      var last := LayOutProperty(ps[n], false);
      WrittenLines(ps[..n]);
      assert LinesBefore(ps) == LinesBefore(ps[..n]) + [last];
      PropertiesStringConcat(LinesBefore(ps[..n]), [last]);
      OnePropertyString(last);
      LineString(ps[n], false);
      JoinLines(WrittenProperties(ps[..n]), "  ", PropertiesString(LinesBefore(ps[..n])), WrittenProperty(ps[n]),
                "\n", "  ");
    }
  }

  lemma OnePropertyString(p: PropertyText)
    ensures PropertiesString([p]) == PropertyString(p)
  {
  }

  lemma OneSectionString(s: SectionText)
    ensures SectionsString([s]) == SectionString(s)
  {
  }

  lemma LastLine(ps: seq<Property>)
    requires ps != []
    ensures WrittenProperties(ps) + "\n" == "  " + PropertiesString(LayOutProperties(ps))
  {
    hide PropertyString, WrittenProperty, LayOutProperty;
    var n := |ps| - 1;
    var last := LayOutProperty(ps[n], true);
    WrittenLines(ps[..n]);
    assert LayOutProperties(ps) == LinesBefore(ps[..n]) + [last];
    PropertiesStringConcat(LinesBefore(ps[..n]), [last]);
    OnePropertyString(last);
    LineString(ps[n], true);
    JoinLines(WrittenProperties(ps[..n]), "  ", PropertiesString(LinesBefore(ps[..n])), WrittenProperty(ps[n]), "\n",
              "\n");
  }

  lemma WrittenSectionIsLaidOut(s: Section)
    requires s.properties != []
    ensures WrittenSection(s) + "\n" == SectionString(LayOutSection(s))
  {
    hide WrittenProperties, PropertiesString, LayOutProperties;
    LastLine(s.properties);
    var lines, text := WrittenProperties(s.properties), PropertiesString(LayOutProperties(s.properties));
    assert "]" + "\n" == "]\n" && "\n" + "  " == "\n  ";
    assert "[" + s.name + "]\n" + lines + "\n" == "[" + s.name + "]\n" + (lines + "\n");
  }

  lemma {:induction false} WrittenSectionsAreLaidOut(ss: seq<Section>)
    requires forall i :: 0 <= i < |ss| ==> ss[i].properties != []
    ensures WrittenSections(ss) == SectionsString(LayOut(ss))
  {
    hide SectionString, WrittenSection, LayOutSection;
    if ss == [] {
      assert LayOut(ss) == [];
    } else {
      var n := |ss| - 1;
      WrittenSectionsAreLaidOut(ss[..n]);
      assert LayOut(ss) == LayOut(ss[..n]) + [LayOutSection(ss[n])];
      SectionsStringConcat(LayOut(ss[..n]), [LayOutSection(ss[n])]);
      OneSectionString(LayOutSection(ss[n]));
      WrittenSectionIsLaidOut(ss[n]);
      assert WrittenSections(ss[..n]) + (WrittenSection(ss[n]) + "\n") == WrittenSections(ss);
    }
  }

  /** Without escapes a text is read as it is. */
  lemma {:induction false} PlainMeaning(r: string, c: char, peeked: bool)
    requires Plain(r)
    ensures Meaning(r, c, peeked) == r
    decreases |r|
  {
    if r != "" {
      PlainMeaning(r[1..], r[0], peeked);
    }
  }

  /** The layout stands for the properties and sections it was made of. */
  lemma {:induction false} LayOutKeeps(ps: seq<Property>, emptyValue: bool)
    requires ArePlainProperties(ps, emptyValue)
    ensures Properties(LayOutProperties(ps)) == ps
    decreases |ps|
  {
    hide IsPropertyName, IsPropertyValue, Meaning;
    if ps != [] {
      assert LayOutProperties(ps)[1..] == LayOutProperties(ps[1..]);
      assert ps[0].value != "" ==> IsPlainProperty(ps[0], false);
      PlainMeaning(ps[0].name, '\0', true);
      PlainMeaning(ps[0].value, '\0', false);
      LayOutKeeps(ps[1..], emptyValue);
    }
  }

  lemma {:induction false} LayOutKeepsSections(ss: seq<Section>)
    requires IsConfig(ss)
    ensures Sections(LayOut(ss)) == ss
    decreases |ss|
  {
    hide LayOutProperties, IsPropertyName, IsPropertyValue, IsSectionName, Properties, ArePlainProperties;
    if ss != [] {
      assert LayOut(ss)[1..] == LayOut(ss[1..]);
      PlainMeaning(ss[0].name, '\0', false);
      LayOutKeeps(ss[0].properties, 0 < |ss| - 1);
      LayOutKeepsSections(ss[1..]);
    }
  }

  lemma LineBreaksAreFiller()
    ensures IsFiller("") && IsFiller("\n  ") && IsFiller("\n\n")
  {
  }

  /** Every property is laid out well in front of what follows it. */
  lemma LayOutIsPropertyText(p: Property, last: bool, emptyValue: bool, t: string)
    requires IsPlainProperty(p, emptyValue) && (emptyValue ==> t != "" && t[0] == '[')
    ensures IsPropertyText(LayOutProperty(p, last), t)
  {
    hide IsPropertyName, IsPropertyValue, IsFiller;
    LineBreaksAreFiller();
    var q := LayOutProperty(p, last);
    if p.value == "" {
      assert q.after + t == t;
    } else {
      assert (q.after + t)[0] == '\n';
    }
  }

  lemma {:induction false} LayOutArePropertyTexts(ps: seq<Property>, emptyValue: bool, t: string)
    requires ArePlainProperties(ps, emptyValue) && (emptyValue ==> t != "" && t[0] == '[')
    ensures ArePropertyTexts(LayOutProperties(ps), t)
    decreases |ps|
  {
    hide IsPlainProperty, LayOutProperty, IsPropertyText;
    if ps != [] {
      var qs := LayOutProperties(ps);
      var more := PropertiesString(qs[1..]) + t;
      assert qs[1..] == LayOutProperties(ps[1..]);
      assert |ps| == 1 ==> more == t;
      LayOutIsPropertyText(ps[0], |ps| == 1, emptyValue && |ps| == 1, more);
      LayOutArePropertyTexts(ps[1..], emptyValue, t);
    }
  }

  lemma {:induction false} LayOutIsDocument(ss: seq<Section>)
    requires IsConfig(ss)
    ensures AreSectionTexts(LayOut(ss), "")
    decreases |ss|
  {
    hide IsFiller, IsSectionName, LayOutProperties, ArePropertyTexts, ArePlainProperties;
    if ss != [] {
      var xs := LayOut(ss);
      var more := SectionsString(xs[1..]) + "";
      assert xs[1..] == LayOut(ss[1..]);
      assert |ss| > 1 ==> more != "" && more[0] == '[';
      LineBreaksAreFiller();
      LayOutArePropertyTexts(ss[0].properties, 0 < |ss| - 1, more);
      LayOutIsDocument(ss[1..]);
    }
  }

  /** What the writer writes, the reader reads back. */
  lemma WrittenIsReadBack(ss: seq<Section>)
    requires IsConfig(ss)
    ensures var r := ReadSections(In(WrittenSections(ss), false, false, false), []);
            r.1 == ss && r.0.rest == "" && Fine(r.0) && !r.0.aborted
  {
    hide AreSectionTexts, ReadSections, SectionsString, WrittenSections;
    WrittenSectionsAreLaidOut(ss);
    LayOutIsDocument(ss);
    LayOutKeepsSections(ss);
    NothingBefore("");
    var d := Document("", LayOut(ss), "");
    assert DocumentString(d) == SectionsString(d.sections);
    ReadBack(d);
  }
}
