/** Which configurations survive being written and read: those of the writer's own layout, and no others. */
module IniRoundTrip {
  import opened Options
  import opened Ini
  import opened IniLayouts
  import opened IniWriter

  // ----- What is read as a name or a value

  function Taken(rest: string, kind: char -> bool, c: char, peeked: bool): string
    decreases |rest|
  {
    if rest == "" || !kind(rest[0]) then ""
    else
      var before := if peeked then rest[0] else c;
      if Dangling(rest) then [before]
      else [FirstChar(rest, before)] + Taken(rest[Width(rest)..], kind, FirstChar(rest, before), peeked)
  }

  lemma {:induction false} ReadWhileTakes(s: In, kind: char -> bool, text: string, c: char, peeked: bool)
    requires Good(s)
    ensures ReadWhile(s, kind, text, c, peeked).1 == text + Taken(s.rest, kind, c, peeked)
    decreases |s.rest|
  {
    hide ReadNextChar;
    if s.rest != "" && kind(s.rest[0]) && !Dangling(s.rest) {
      var d := FirstChar(s.rest, if peeked then s.rest[0] else c);
      ReadWhileTakes(s.(rest := s.rest[Width(s.rest)..]), kind, text + [d], d, peeked);
    }
  }

  lemma ReadFirstTakes(s: In, kind: char -> bool, peeked: bool)
    requires Good(s) && s.rest != "" && kind(s.rest[0])
    ensures var (s1, ok, d) := ReadNextChar(s, if peeked then s.rest[0] else '\0');
            && ReadWhile(Assert(s1, ok), kind, [d], d, peeked).1 == Taken(s.rest, kind, '\0', peeked)
            && ReadWhile(s1, kind, [d], d, peeked).1 == Taken(s.rest, kind, '\0', peeked)
  {
    hide ReadNextChar;
    var (s1, ok, d) := ReadNextChar(s, if peeked then s.rest[0] else '\0');
    if ok {
      ReadWhileTakes(s1, kind, [d], d, peeked);
    }
  }

  lemma NamesTake(s: In)
    requires Good(s)
    ensures var n := ReadPropertyName(s).1; n.Some? ==> n.value == Taken(s.rest, IsPropertyNameChar, '\0', true)
    ensures var n := ReadSectionName(s).1; n.Some? ==> n.value == Taken(s.rest, IsSectionNameChar, '\0', false)
  {
    hide ReadNextChar, ReadWhile, Taken;
    if s.rest != "" && IsPropertyNameChar(s.rest[0]) {
      ReadFirstTakes(s, IsPropertyNameChar, true);
    }
    if s.rest != "" && IsSectionNameChar(s.rest[0]) {
      ReadFirstTakes(s, IsSectionNameChar, false);
    }
  }

  lemma ValueTakes(s: In)
    requires Good(s)
    ensures var v := ReadPropertyValue(s).1;
            v.Some? && v.value != "" ==> v.value == Taken(s.rest, IsPropertyValueChar, '\0', false)
  {
    hide ReadNextChar, ReadWhile, Taken;
    if s.rest != "" && !IsDelimiter(s.rest[0]) {
      ReadFirstTakes(s, IsPropertyValueChar, false);
    }
  }

  /** No name or value that is read has a line break in it. */
  lemma {:induction false} NoLineBreak(rest: string, kind: char -> bool, c: char, peeked: bool)
    requires !kind('\n') && c != '\n'
    ensures '\n' !in Taken(rest, kind, c, peeked)
    decreases |rest|
  {
    if rest != "" && kind(rest[0]) && !Dangling(rest) {
      NoLineBreak(rest[Width(rest)..], kind, FirstChar(rest, if peeked then rest[0] else c), peeked);
    }
  }

  /** The text y ends in front of u, even if a backslash at its end escapes the first character of u. */
  predicate EndsAt(y: string, u: string, kind: char -> bool) {
    && u != "" && !kind(u[0]) && u[0] != '\\'
    && (y != "" && y[|y| - 1] == '\\' ==> u[0] != '\n' && (|u| == 1 || !kind(u[1])))
  }

  lemma {:induction false} TakenShort(y: string, u: string, kind: char -> bool, c: char, peeked: bool)
    requires EndsAt(y, u, kind) && '\n' !in y
    ensures |Taken(y + u, kind, c, peeked)| <= |y|
    decreases |y|
  {
    if y == "" {
      assert y + u == u;
    } else if kind(y[0]) {
      var before := if peeked then y[0] else c;
      if y == "\\" {
        assert (y + u)[..2] == "\\" + [u[0]] && (y + u)[2..] == u[1..];
      } else {
        var n := if y[0] == '\\' then 2 else 1;
        assert n == Width(y + u) && (y + u)[n..] == y[n..] + u;
        TakenShort(y[n..], u, kind, FirstChar(y + u, before), peeked);
      }
    }
  }

  /** A backslash at the end is lost. */
  lemma LoneBackslash(u: string, kind: char -> bool, c: char, peeked: bool)
    requires EndsAt("\\", u, kind) && kind('\\')
    ensures Taken("\\" + u, kind, c, peeked) != "\\"
  {
    var r := "\\" + u;
    assert r[0] == '\\' && r[1] == u[0] && !Dangling(r);
    assert Taken(r, kind, c, peeked)[0] == Unescaped(u[0]);
  }

  /** What is read as it is written is of the right kind, and free of escapes: an escape would shorten it. */
  lemma {:induction false} TakenAsIs(x: string, u: string, kind: char -> bool, c: char, peeked: bool)
    requires EndsAt(x, u, kind) && kind('\\') && '\n' !in x && Taken(x + u, kind, c, peeked) == x
    ensures IsRaw(x, kind) && Plain(x)
    decreases |x|
  {
    if x == "" {
    } else if x == "\\" {
      LoneBackslash(u, kind, c, peeked);
    } else if x[0] == '\\' {
      assert (x + u)[2..] == x[2..] + u && Width(x + u) == 2;
      TakenShort(x[2..], u, kind, FirstChar(x + u, if peeked then x[0] else c), peeked);
    } else {
      assert (x + u)[1..] == x[1..] + u;
      TakenAsIs(x[1..], u, kind, x[0], peeked);
    }
  }

  // ----- Properties that are read as they are written

  /** The white space that a text starts with. */
  function Blanks(v: string): (k: nat)
    ensures k <= |v| && IsBlank(v[..k]) && (k < |v| ==> !IsWhite(v[k]))
  {
    if v == "" || !IsWhite(v[0]) then 0 else
      var k := Blanks(v[1..]);
      assert forall i :: 0 < i < 1 + k ==> v[i] == v[1..][..k][i - 1];
      1 + k
  }

  /** There is something to see in the value, and it does not end in a backslash. */
  predicate IsVisible(v: string) {
    v != "" && !IsBlank(v) && v[|v| - 1] != '\\'
  }

  /** The line of the property ends where it is written to end, and does not look like a comment. */
  predicate IsOneLine(p: Property) {
    IsVisible(p.value) && (Blanks(p.name) < |p.name| ==> !IsCommentStart(p.name[Blanks(p.name)]))
  }

  /** A name from its character k on is read as the whole name only if that is where it starts. */
  lemma NameAsIs(s: In, name: string, k: nat, t: string)
    requires Good(s) && k <= |name| && s.rest == name[k..] + (" " + ("=" + t)) && ReadPropertyName(s).1 == Some(name)
    ensures k == 0 && IsPropertyName(name) && Plain(name)
  {
    hide ReadPropertyName, Taken, IsRaw;
    var y, u := name[k..], " " + ("=" + t);
    NamesTake(s);
    NoLineBreak(s.rest, IsPropertyNameChar, '\0', true);
    assert forall i :: 0 <= i < |y| ==> y[i] == name[k + i];
    TakenShort(y, u, IsPropertyNameChar, '\0', true);
    assert k == 0 && y == name;
    TakenAsIs(name, u, IsPropertyNameChar, '\0', true);
    if name == "" {
      assert s.rest[0] == ' ';
      NoNameHere(s);
    }
  }

  lemma NoNameHere(s: In)
    requires Good(s) && s.rest != ""
    ensures IsDelimiter(s.rest[0]) ==> ReadPropertyName(s).1 == None
    ensures !IsSectionNameChar(s.rest[0]) ==> ReadSectionName(s).1 == None
  {
  }

  lemma SectionNameAsIs(s: In, n: string, t: string)
    requires Good(s) && s.rest == n + ("]" + ("\n" + t)) && ReadSectionName(s).1 == Some(n)
    ensures IsSectionName(n) && Plain(n)
  {
    hide ReadSectionName, Taken, IsRaw;
    var u := "]" + ("\n" + t);
    NamesTake(s);
    NoLineBreak(s.rest, IsSectionNameChar, '\0', false);
    TakenAsIs(n, u, IsSectionNameChar, '\0', false);
    if n == "" {
      assert s.rest[0] == ']';
      NoNameHere(s);
    }
  }

  lemma ValueAsIs(s: In, v: string, t: string)
    requires Good(s) && s.rest == " " + (v + ("\n" + t)) && IsVisible(v)
    requires var s1 := SkipWhiteSpaces(s); Good(s1) && ReadPropertyValue(s1).1 == Some(v)
    ensures IsPropertyValue(v) && Plain(v)
  {
    hide ReadPropertyValue, SkipWhiteSpaces, Taken, IsRaw;
    var k, u := Blanks(v), "\n" + t;
    var y := v[k..];
    assert y != "" && y[|y| - 1] == v[|v| - 1];
    assert s.rest == (" " + v[..k]) + (y + u);
    SkipBlanks(s, " " + v[..k], y + u);
    var s1 := SkipWhiteSpaces(s);
    ValueTakes(s1);
    NoLineBreak(s1.rest, IsPropertyValueChar, '\0', false);
    assert forall i :: 0 <= i < |y| ==> y[i] == v[k + i];
    TakenShort(y, u, IsPropertyValueChar, '\0', false);
    assert k == 0 && y == v;
    TakenAsIs(v, u, IsPropertyValueChar, '\0', false);
  }

  lemma {:induction false} BlanksAreFiller(w: string)
    requires IsBlank(w)
    ensures IsFiller(w)
    decreases |w|
  {
    if w != "" {
      BlanksAreFiller(w[1..]);
    }
  }

  lemma PropertyHereAsIs(s: In, p: Property, k: nat, t: string)
    requires Good(s) && k <= |p.name| && s.rest == p.name[k..] + (" " + ("=" + (" " + (p.value + ("\n" + t)))))
    requires IsVisible(p.value) && ReadProperty(s).1 == Some(p)
    ensures k == 0 && IsPlainProperty(p, false)
  {
    hide ReadPropertyName, ReadPropertyValue, SkipWhiteSpaces, IsPropertyName, IsPropertyValue, IsBlank, Plain;
    var t3 := " " + (p.value + ("\n" + t));
    var t2 := "=" + t3;
    NameAsIs(s, p.name, k, t3);
    assert p.name[k..] == p.name;
    PlainMeaning(p.name, '\0', true);
    ReadPropertyNameBack(s, p.name, " " + t2);
    OneBlank();
    SkipBlanks(s.(rest := " " + t2), " ", t2);
    assert t2[1..] == t3;
    ValueAsIs(s.(rest := t3), p.value, t);
  }

  lemma OneBlank()
    ensures IsBlank(" ")
  {
  }

  /** Where the name is missing, there is no property. */
  lemma NoPropertyAtEquals(s: In, w: string, t: string)
    requires Good(s) && IsBlank(w) && s.rest == w + ("=" + t)
    ensures ReadProperty(SkipWhiteSpacesOrComments(s)).1 == None
  {
    hide SkipWhiteSpacesOrComments;
    BlanksAreFiller(w);
    SkipFiller(s, w, "=" + t);
  }

  /** The property that is read after the white space w is the one that is written there. */
  lemma PropertyAsIs(s: In, w: string, p: Property, t: string)
    requires Good(s) && IsBlank(w) && IsOneLine(p)
    requires s.rest == w + (p.name + (" " + ("=" + (" " + (p.value + ("\n" + t))))))
    requires ReadProperty(SkipWhiteSpacesOrComments(s)).1 == Some(p)
    ensures IsPlainProperty(p, false)
    ensures SkipWhiteSpacesOrComments(s) == s.(rest := s.rest[|w|..])
  {
    hide ReadProperty, SkipWhiteSpacesOrComments, IsVisible, IsRaw, IsPlainProperty;
    var k, t3 := Blanks(p.name), " " + (p.value + ("\n" + t));
    var text := p.name[k..] + (" " + ("=" + t3));
    assert p.name == p.name[..k] + p.name[k..];
    if k == |p.name| {
      assert s.rest == (w + p.name + " ") + ("=" + t3);
      NoPropertyAtEquals(s, w + p.name + " ", t3);
    } else {
      BlanksAreFiller(w + p.name[..k]);
      assert text[0] == p.name[k];
      assert s.rest == (w + p.name[..k]) + text;
      SkipFiller(s, w + p.name[..k], text);
      PropertyHereAsIs(s.(rest := text), p, k, t);
      assert s.rest[|w|..] == text;
    }
  }

  // ----- Sections that are read as they are written

  predicate AreOneLine(ps: seq<Property>) { forall j :: 0 <= j < |ps| ==> IsOneLine(ps[j]) }

  /** The first property that is read is the first one of the result. */
  lemma FirstPropertyRead(s: In, properties: seq<Property>, ps: seq<Property>)
    requires ps != [] && ReadProperties(s, properties).1 == properties + ps
    ensures ReadProperty(s).1 == Some(ps[0])
    ensures ReadProperties(SkipWhiteSpacesOrComments(ReadProperty(s).0), properties + [ps[0]]).1
         == properties + [ps[0]] + ps[1..]
  {
    hide ReadProperty, SkipWhiteSpacesOrComments;
    var (s1, property) := ReadProperty(s);
    assert property.Some?;
    var r := ReadProperties(SkipWhiteSpacesOrComments(s1), properties + [property.value]).1;
    assert r[|properties|] == property.value;
    assert properties + [ps[0]] + ps[1..] == properties + ps;
  }

  /** What follows the first property in the writer's layout. */
  lemma FirstLine(p: Property, last: bool, more: string)
    requires p.value != ""
    ensures var q := LayOutProperty(p, last);
            && PropertyString(q) + more == p.name + (" " + ("=" + (" " + (p.value + ("\n" + (q.after[1..] + more))))))
            && IsBlank(q.after) && q.after != ""
  {
  }

  lemma FirstPropertyAsIs(s: In, w: string, ps: seq<Property>, t: string)
    requires Good(s) && IsBlank(w) && ps != [] && IsOneLine(ps[0])
    requires s.rest == w + (PropertiesString(LayOutProperties(ps)) + t)
    requires ReadProperty(SkipWhiteSpacesOrComments(s)).1 == Some(ps[0])
    ensures IsPlainProperty(ps[0], false)
    ensures ReadProperty(SkipWhiteSpacesOrComments(s)).0
         == s.(rest := LayOutProperty(ps[0], |ps| == 1).after + (PropertiesString(LayOutProperties(ps[1..])) + t))
  {
    hide ReadProperty, SkipWhiteSpacesOrComments, IsPlainProperty, PropertiesString, PropertyString, LayOutProperty;
    var qs := LayOutProperties(ps);
    assert qs[1..] == LayOutProperties(ps[1..]);
    var q, more := qs[0], PropertiesString(qs[1..]) + t;
    FirstProperty(qs, t);
    FirstLine(ps[0], |ps| == 1, more);
    PropertyAsIs(s, w, ps[0], q.after[1..] + more);
    assert s.rest[|w|..] == PropertyString(q) + more;
    LayOutIsPropertyText(ps[0], |ps| == 1, false, more);
    ReadPropertyBack(s.(rest := PropertyString(q) + more), q, more);
  }

  lemma {:induction false} PropertiesAsIs(s: In, w: string, ps: seq<Property>, t: string, properties: seq<Property>)
    requires Good(s) && IsBlank(w) && AreOneLine(ps) && s.rest == w + (PropertiesString(LayOutProperties(ps)) + t)
    requires ReadProperties(SkipWhiteSpacesOrComments(s), properties).1 == properties + ps
    ensures ArePlainProperties(ps, false)
    decreases |ps|
  {
    hide ReadProperties, ReadProperty, SkipWhiteSpacesOrComments, IsPlainProperty, IsOneLine, PropertiesString,
         LayOutProperties, LayOutProperty;
    if ps != [] {
      FirstPropertyRead(SkipWhiteSpacesOrComments(s), properties, ps);
      FirstPropertyAsIs(s, w, ps, t);
      AfterIsBlank(ps[0], |ps| == 1);
      var after := LayOutProperty(ps[0], |ps| == 1).after;
      PropertiesAsIs(s.(rest := after + (PropertiesString(LayOutProperties(ps[1..])) + t)), after, ps[1..], t,
                     properties + [ps[0]]);
    }
  }

  lemma AfterIsBlank(p: Property, last: bool)
    ensures IsBlank(LayOutProperty(p, last).after)
  {
  }

  lemma SectionAsIs(s: In, x: Section, t: string)
    requires Good(s) && AreOneLine(x.properties) && s.rest == SectionString(LayOutSection(x)) + t
    requires ReadSection(s).1 == Some(x)
    ensures IsSectionName(x.name) && Plain(x.name) && ArePlainProperties(x.properties, false)
  {
    hide ReadSectionName, SkipWhiteSpacesOrComments, ReadProperties, IsSectionName, PropertiesString, Plain,
         LayOutProperties, AreOneLine, ArePlainProperties, Meaning, SkipWhiteSpaces;
    var t4 := PropertiesString(LayOutProperties(x.properties)) + t;
    var t3 := "\n  " + t4;
    var t2 := "]" + t3;
    var t1 := x.name + t2;
    assert s.rest == "[" + t1 && s.rest[1..] == t1;
    assert t2 == "]" + ("\n" + ("  " + t4));
    SectionNameAsIs(s.(rest := t1), x.name, "  " + t4);
    ReadSectionNameBack(s.(rest := t1), x.name, t2);
    NoBlanks(s.(rest := t2));
    assert t2[1..] == t3;
    IndentIsBlank();
    assert [] + x.properties == x.properties;
    PropertiesAsIs(s.(rest := t3), "\n  ", x.properties, t, []);
  }

  lemma IndentIsBlank()
    ensures IsBlank("\n  ")
  {
  }

  // ----- Configurations

  lemma {:induction false} SectionsHaveProperties(s: In, sections: seq<Section>)
    ensures var r := ReadSections(s, sections).1;
            sections <= r && forall i :: |sections| <= i < |r| ==> r[i].properties != []
    decreases |s.rest|
  {
    hide ReadSection, SkipWhiteSpacesOrComments;
    if Good(s) {
      var (s1, section) := ReadSection(SkipWhiteSpacesOrComments(s));
      if section.Some? {
        SectionsHaveProperties(s1, sections + [section.value]);
      }
    }
  }

  lemma FirstSectionRead(s: In, sections: seq<Section>, ss: seq<Section>)
    requires ss != [] && ReadSections(s, sections).1 == sections + ss
    ensures Good(s) && ReadSection(SkipWhiteSpacesOrComments(s)).1 == Some(ss[0])
    ensures ReadSections(ReadSection(SkipWhiteSpacesOrComments(s)).0, sections + [ss[0]]).1
         == sections + [ss[0]] + ss[1..]
  {
    hide ReadSection, SkipWhiteSpacesOrComments;
    var (s1, section) := ReadSection(SkipWhiteSpacesOrComments(s));
    assert section.Some?;
    SectionsHaveProperties(s1, sections + [section.value]);
    assert ReadSections(s1, sections + [section.value]).1[|sections|] == section.value;
    assert sections + [ss[0]] + ss[1..] == sections + ss;
  }

  /** Every property of the configuration is written on a line that is read as one. */
  predicate IsOneLineEach(ss: seq<Section>) { forall i :: 0 <= i < |ss| ==> AreOneLine(ss[i].properties) }

  lemma {:induction false} SectionsAsIs(s: In, ss: seq<Section>, sections: seq<Section>)
    requires Good(s) && IsOneLineEach(ss) && (forall i :: 0 <= i < |ss| ==> ss[i].properties != [])
    requires s.rest == SectionsString(LayOut(ss)) && ReadSections(s, sections).1 == sections + ss
    ensures IsConfig(ss)
    decreases |ss|
  {
    hide ReadSections, ReadSection, SkipWhiteSpacesOrComments, IsSectionName, Plain, AreOneLine, ArePlainProperties,
         SectionString, LayOutSection;
    if ss != [] {
      var xs := LayOut(ss);
      assert xs[1..] == LayOut(ss[1..]);
      var more := SectionsString(xs[1..]);
      assert s.rest == SectionString(xs[0]) + more;
      FirstSectionRead(s, sections, ss);
      FirstSectionAsIs(s, ss[0], xs[1..]);
      if ss[1..] != [] {
        SectionsAsIs(s.(rest := more), ss[1..], sections + [ss[0]]);
      }
      ConfigFromFirst(ss);
    }
  }

  lemma ConfigFromFirst(ss: seq<Section>)
    requires ss != [] && IsSectionName(ss[0].name) && Plain(ss[0].name) && ss[0].properties != []
    requires ArePlainProperties(ss[0].properties, false) && (ss[1..] == [] || IsConfig(ss[1..]))
    ensures IsConfig(ss)
  {
    hide IsSectionName, Plain;
    assert ArePlainProperties(ss[0].properties, 0 < |ss| - 1);
    forall i | 0 < i < |ss|
      ensures IsSectionName(ss[i].name) && Plain(ss[i].name) && ss[i].properties != []
      ensures ArePlainProperties(ss[i].properties, i < |ss| - 1)
    {
      assert ss[i] == ss[1..][i - 1];
    }
  }

  lemma FirstSectionAsIs(s: In, x: Section, xs: seq<SectionText>)
    requires Good(s) && AreOneLine(x.properties) && x.properties != []
    requires s.rest == SectionString(LayOutSection(x)) + SectionsString(xs)
    requires ReadSection(SkipWhiteSpacesOrComments(s)).1 == Some(x)
    ensures IsSectionName(x.name) && Plain(x.name) && ArePlainProperties(x.properties, false)
    ensures xs != [] ==> ReadSection(SkipWhiteSpacesOrComments(s)).0 == s.(rest := SectionsString(xs))
  {
    hide ReadSection, SkipWhiteSpacesOrComments, IsSectionName, Plain, AreOneLine, ArePlainProperties, SectionString,
         IsRaw, SectionsString, Onward;
    var more := SectionsString(xs);
    SectionStringStarts(LayOutSection(x), more);
    SkipNothing(s);
    SectionAsIs(s, x, more);
    LayOutArePropertyTexts(x.properties, false, more);
    LayOutIsSection(x, more);
    SectionsStringNext(xs, "");
    assert more + "" == more;
    ReadSectionBack(s, LayOutSection(x), more);
  }

  lemma LayOutIsSection(x: Section, t: string)
    requires x.properties != [] && IsSectionName(x.name) && ArePropertyTexts(LayOutProperties(x.properties), t)
    ensures IsSectionText(LayOutSection(x), t)
  {
    hide IsSectionName, ArePropertyTexts, LayOutProperties, IsFiller;
    LineBreaksAreFiller();
  }

  /** A configuration with each property on a line that is read as one is read back as it was written if and
      only if it is made of plain names and values. */
  lemma RoundTripExactly(ss: seq<Section>)
    requires IsOneLineEach(ss)
    ensures ReadSections(In(WrittenSections(ss), false, false, false), []).1 == ss <==> IsConfig(ss)
  {
    hide ReadSections, WrittenSections, SectionsString, LayOut, IsConfig, AreOneLine;
    var s := In(WrittenSections(ss), false, false, false);
    if ReadSections(s, []).1 == ss {
      SectionsHaveProperties(s, []);
      WrittenSectionsAreLaidOut(ss);
      assert [] + ss == ss;
      SectionsAsIs(s, ss, []);
    }
    if IsConfig(ss) {
      WrittenIsReadBack(ss);
    }
  }
}
