/** The layouts of configuration files that the reader reads back: what is between the sections and the
    properties makes no difference. */
module IniLayouts {
  import opened Options
  import opened Ini

  // ----- Texts of escapes and characters of a kind

  predicate IsRaw(r: string, kind: char -> bool)
    decreases |r|
  {
    r == "" || (!Dangling(r) && (r[0] == '\\' || kind(r[0])) && IsRaw(r[Width(r)..], kind))
  }

  /** What such a text is read as.  A continued line repeats the character c in front of it, or else the
      character that was peeked at, which is its backslash. */
  function Meaning(r: string, c: char, peeked: bool): (m: string)
    ensures m == "" <==> r == "" || Dangling(r)
    decreases |r|
  {
    if r == "" || Dangling(r) then ""
    else
      var d := FirstChar(r, if peeked then '\\' else c);
      [d] + Meaning(r[Width(r)..], d, peeked)
  }

  lemma WidthInFront(r: string, t: string)
    requires r != "" && !Dangling(r) && (r[0] == '\\' ==> |r| > 1 && (r[1] == '\n' ==> |r| > 2))
    ensures !Dangling(r + t) && Width(r + t) == Width(r) && (r + t)[Width(r)..] == r[Width(r)..] + t
    ensures forall c :: FirstChar(r + t, c) == FirstChar(r, c)
  {
  }

  // ----- Texts in front of something that is neither white space nor a comment

  predicate IsCommentChar(c: char) { c != '\n' }

  /** White space and whole comment lines. */
  predicate IsFiller(f: string)
    decreases |f|
  {
    || f == ""
    || (IsWhite(f[0]) && IsFiller(f[1..]))
    || (IsCommentStart(f[0]) && exists k :: 0 < k < |f| && EndsComment(f, k) && IsFiller(f[k + 1..]))
  }

  /** A comment line ends at its first newline that is not escaped. */
  predicate EndsComment(f: string, k: nat)
    requires k < |f|
  {
    f[k] == '\n' && IsRaw(f[..k], IsCommentChar)
  }

  /** A comment on the last line of a file, when no newline ends that line. */
  predicate IsLastComment(t: string) {
    t != "" && IsCommentStart(t[0]) && IsRaw(t, IsCommentChar)
  }

  predicate IsBlank(w: string) {
    forall i :: 0 <= i < |w| ==> IsWhite(w[i])
  }

  /** Nothing is left, or something that is not skipped. */
  predicate Solid(t: string) {
    t == "" || (!IsWhite(t[0]) && !IsCommentStart(t[0]))
  }

  /** The reader has come to the text t, and has looked at what comes next. */
  function At(s: In, t: string): In {
    s.(rest := t, eof := t == "")
  }

  /** The reader has come to the text t and could not go on: nothing is read from the end of a file. */
  function Stop(s: In, t: string): In {
    s.(rest := t, eof := t == "", fail := t == "")
  }

  /** The reader has skipped what it skips in front of the text t, and the text as well if it is a comment. */
  function Past(s: In, t: string): In {
    if IsLastComment(t) then Stop(s, "") else At(s, t)
  }

  lemma {:induction false} SkipBlanks(s: In, w: string, t: string)
    requires Good(s) && s.rest == w + t && IsBlank(w) && (t == "" || !IsWhite(t[0]))
    ensures SkipWhiteSpaces(s) == At(s, t)
    decreases |w|
  {
    if w != "" {
      assert s.rest[1..] == w[1..] + t;
      SkipBlanks(s.(rest := s.rest[1..]), w[1..], t);
    } else {
      assert s.rest == t;
    }
  }

  lemma {:induction false} SkipCommentLine(s: In, line: string, t: string, c: char)
    requires Good(s) && IsRaw(line, IsCommentChar) && c != '\n' && s.rest == line + t && (t == "" || t[0] == '\n')
    ensures SkipLine(s, c) == if t == "" then Stop(s, "") else s.(rest := t[1..])
    decreases |line|
  {
    hide ReadNextChar;
    if line == "" {
      assert s.rest == t;
    } else {
      WidthInFront(line, t);
      SkipCommentLine(s.(rest := s.rest[Width(line)..]), line[Width(line)..], t, FirstChar(line, c));
    }
  }

  /** Skipping starts anew after each white space, and after each comment line. */
  lemma SkipOneWhite(s: In)
    requires Good(s) && s.rest != "" && IsWhite(s.rest[0])
    ensures SkipWhiteSpacesOrComments(s) == SkipWhiteSpacesOrComments(s.(rest := s.rest[1..]))
  {
    var t := s.(rest := s.rest[1..]);
    assert SkipWhiteSpaces(s) == SkipWhiteSpaces(t);
    assert t.rest != "" && IsWhite(t.rest[0]) ==>
        SkipWhiteSpacesOrComments(t) == SkipWhiteSpacesOrComments(SkipWhiteSpaces(t));
  }

  lemma SkipOneComment(s: In)
    requires Good(s) && s.rest != "" && IsCommentStart(s.rest[0])
    ensures SkipWhiteSpacesOrComments(s) == SkipWhiteSpacesOrComments(SkipLine(s, '\0'))
  {
    hide SkipLine, Onward;
    var t := SkipLine(s, '\0');
    assert SkipComments(s) == SkipComments(t);
    SkipCommentsFirst(t);
  }

  lemma SkipCommentsFirst(s: In)
    requires Good(s) || s.fail
    ensures SkipWhiteSpacesOrComments(SkipComments(s)) == SkipWhiteSpacesOrComments(s)
  {
    hide SkipLine, SkipWhiteSpaces;
    if Good(s) && s.rest != "" && !IsCommentStart(s.rest[0]) {
      assert SkipComments(s) == s;
    }
  }

  lemma SkipNothing(s: In)
    requires Good(s) && (Solid(s.rest) || IsLastComment(s.rest))
    ensures SkipWhiteSpacesOrComments(s) == Past(s, s.rest)
  {
    hide SkipLine, IsRaw;
    if IsLastComment(s.rest) {
      assert s.rest + "" == s.rest;
      SkipOneComment(s);
      SkipCommentLine(s, s.rest, "", '\0');
    }
  }

  lemma CommentInFront(f: string, k: nat, t: string)
    requires k < |f| && f[k] == '\n'
    ensures f + t == f[..k] + ("\n" + (f[k + 1..] + t)) && ("\n" + (f[k + 1..] + t))[1..] == f[k + 1..] + t
    ensures k > 0 ==> (f + t)[0] == f[..k][0] == f[0]
  {
    assert f == f[..k] + "\n" + f[k + 1..];
  }

  lemma {:induction false} SkipFiller(s: In, f: string, t: string)
    requires Good(s) && s.rest == f + t && IsFiller(f) && (Solid(t) || IsLastComment(t))
    ensures SkipWhiteSpacesOrComments(s) == Past(s, t)
    decreases |f|
  {
    hide SkipWhiteSpacesOrComments, SkipLine, Solid, IsRaw, IsLastComment;
    if f == "" {
      assert s.rest == t;
      SkipNothing(s);
    } else if IsWhite(f[0]) {
      SkipOneWhite(s);
      assert s.rest[1..] == f[1..] + t;
      SkipFiller(s.(rest := s.rest[1..]), f[1..], t);
    } else {
      var k :| 0 < k < |f| && EndsComment(f, k) && IsFiller(f[k + 1..]);
      SkipOneComment(s);
      CommentInFront(f, k, t);
      SkipCommentLine(s, f[..k], "\n" + (f[k + 1..] + t), '\0');
      SkipFiller(s.(rest := f[k + 1..] + t), f[k + 1..], t);
    }
  }

  // ----- Layouts of configuration files

  /** A property, as it is laid out: the blanks around the equals sign, and what comes in front of the next
      property or section. */
  datatype PropertyText = PropertyText(name: string, blanks1: string, blanks2: string, value: string, after: string)

  datatype SectionText = SectionText(name: string, after: string, properties: seq<PropertyText>)

  /** A file may end with a comment line that no newline ends. */
  datatype Document = Document(before: string, sections: seq<SectionText>, end: string)

  function PropertyString(p: PropertyText): string {
    p.name + (p.blanks1 + ("=" + (p.blanks2 + (p.value + p.after))))
  }

  function PropertiesString(ps: seq<PropertyText>): string {
    if ps == [] then "" else PropertyString(ps[0]) + PropertiesString(ps[1..])
  }

  function SectionString(s: SectionText): string {
    "[" + (s.name + ("]" + (s.after + PropertiesString(s.properties))))
  }

  function SectionsString(ss: seq<SectionText>): string {
    if ss == [] then "" else SectionString(ss[0]) + SectionsString(ss[1..])
  }

  function DocumentString(d: Document): string {
    d.before + (SectionsString(d.sections) + d.end)
  }

  predicate IsPropertyName(n: string) { n != "" && IsRaw(n, IsPropertyNameChar) }

  predicate IsPropertyValue(v: string) { v != "" && !IsWhite(v[0]) && IsRaw(v, IsPropertyValueChar) }

  predicate IsSectionName(n: string) { n != "" && IsRaw(n, IsSectionNameChar) }

  /** A value ends at the end of a line, where a comment starts, where the next section starts or at the end
      of the file.  A value may be empty, but not at the end of the file. */
  predicate EndsValue(v: string, t: string) {
    if v == "" then t != "" && IsDelimiter(t[0]) && !IsWhite(t[0])
    else IsPropertyValue(v) && (t == "" || !IsPropertyValueChar(t[0]))
  }

  /** The property is well laid out in front of the text t. */
  predicate IsPropertyText(p: PropertyText, t: string) {
    && IsPropertyName(p.name) && IsBlank(p.blanks1) && IsBlank(p.blanks2) && IsFiller(p.after)
    && EndsValue(p.value, p.after + t)
  }

  predicate ArePropertyTexts(ps: seq<PropertyText>, t: string) {
    ps == [] || (IsPropertyText(ps[0], PropertiesString(ps[1..]) + t) && ArePropertyTexts(ps[1..], t))
  }

  predicate IsSectionText(s: SectionText, t: string) {
    IsSectionName(s.name) && IsFiller(s.after) && s.properties != [] && ArePropertyTexts(s.properties, t)
  }

  predicate AreSectionTexts(ss: seq<SectionText>, t: string) {
    ss == [] || (IsSectionText(ss[0], SectionsString(ss[1..]) + t) && AreSectionTexts(ss[1..], t))
  }

  predicate IsDocument(d: Document) {
    IsFiller(d.before) && AreSectionTexts(d.sections, d.end) && (d.end == "" || IsLastComment(d.end))
  }

  function Stands(p: PropertyText): Property {
    Property(Meaning(p.name, '\0', true), Meaning(p.value, '\0', false))
  }

  /** What the layout stands for. */
  function Properties(ps: seq<PropertyText>): (r: seq<Property>) {
    if ps == [] then [] else [Stands(ps[0])] + Properties(ps[1..])
  }

  function StandsFor(s: SectionText): Section { Section(Meaning(s.name, '\0', false), Properties(s.properties)) }

  function Sections(ss: seq<SectionText>): seq<Section> {
    if ss == [] then [] else [StandsFor(ss[0])] + Sections(ss[1..])
  }

  // ----- Names and values

  /** The character that a reader's variable holds behind a text. */
  function LastChar(w: string, c: char, peeked: bool): char {
    var m := Meaning(w, c, peeked);
    if m == "" then c else m[|m| - 1]
  }

  lemma {:induction false} ReadWhileOn(s: In, kind: char -> bool, text: string, c: char, peeked: bool, w: string,
                                       t: string)
    requires Good(s) && s.rest == w + t && IsRaw(w, kind) && kind('\\')
    ensures ReadWhile(s, kind, text, c, peeked)
         == ReadWhile(s.(rest := t), kind, text + Meaning(w, c, peeked), LastChar(w, c, peeked), peeked)
    decreases |w|
  {
    hide ReadNextChar;
    if w == "" {
      assert s.rest == t && text + Meaning(w, c, peeked) == text;
    } else {
      WidthInFront(w, t);
      var d := FirstChar(w, if peeked then '\\' else c);
      var more := w[Width(w)..];
      assert text + [d] + Meaning(more, d, peeked) == text + Meaning(w, c, peeked);
      assert LastChar(more, d, peeked) == LastChar(w, c, peeked);
      ReadWhileOn(s.(rest := more + t), kind, text + [d], d, peeked, more, t);
    }
  }

  lemma ReadWhileAll(s: In, kind: char -> bool, text: string, c: char, peeked: bool, w: string, t: string)
    requires Good(s) && s.rest == w + t && IsRaw(w, kind) && kind('\\') && (t == "" || !kind(t[0]))
    ensures ReadWhile(s, kind, text, c, peeked) == (At(s, t), text + Meaning(w, c, peeked))
  {
    hide IsRaw, Meaning;
    ReadWhileOn(s, kind, text, c, peeked, w, t);
  }

  /** The first character of a name or value is read before the others. */
  lemma ReadFirst(s: In, kind: char -> bool, peeked: bool, w: string, t: string)
    requires Good(s) && s.rest == w + t && w != "" && IsRaw(w, kind) && kind('\\') && (t == "" || !kind(t[0]))
    ensures var (s1, ok, d) := ReadNextChar(s, if peeked then w[0] else '\0');
            ok && ReadWhile(s1, kind, [d], d, peeked) == (At(s, t), Meaning(w, '\0', peeked))
  {
    hide ReadNextChar, ReadWhile;
    WidthInFront(w, t);
    var d := FirstChar(w, if peeked then '\\' else '\0');
    ReadWhileAll(s.(rest := w[Width(w)..] + t), kind, [d], d, peeked, w[Width(w)..], t);
  }

  lemma ReadPropertyNameBack(s: In, n: string, t: string)
    requires Good(s) && IsPropertyName(n) && (t == "" || !IsPropertyNameChar(t[0])) && s.rest == n + t
    ensures ReadPropertyName(s) == (At(s, t), Some(Meaning(n, '\0', true)))
  {
    hide ReadNextChar, ReadWhile, Meaning;
    ReadFirst(s, IsPropertyNameChar, true, n, t);
  }

  lemma ReadPropertyValueBack(s: In, v: string, t: string)
    requires Good(s) && EndsValue(v, t) && s.rest == v + t
    ensures ReadPropertyValue(s) == (At(s, t), Some(Meaning(v, '\0', false)))
  {
    hide ReadNextChar, ReadWhile, Meaning;
    if v == "" {
      assert s.rest == t;
      assert Meaning(v, '\0', false) == "";
    } else {
      ReadFirst(s, IsPropertyValueChar, false, v, t);
    }
  }

  lemma ReadSectionNameBack(s: In, n: string, t: string)
    requires Good(s) && IsSectionName(n) && (t == "" || !IsSectionNameChar(t[0])) && s.rest == n + t
    ensures ReadSectionName(s) == (At(s, t), Some(Meaning(n, '\0', false)))
  {
    hide ReadNextChar, ReadWhile, Meaning;
    ReadFirst(s, IsSectionNameChar, false, n, t);
  }

  // ----- Properties

  lemma ReadPropertyBack(s: In, p: PropertyText, t: string)
    requires Good(s) && IsPropertyText(p, t) && s.rest == PropertyString(p) + t
    ensures ReadProperty(s) == (At(s, p.after + t), Some(Stands(p)))
  {
    hide ReadPropertyName, ReadPropertyValue, SkipWhiteSpaces, IsPropertyName, EndsValue, IsFiller, Onward;
    var t5 := p.after + t;
    var t4 := p.value + t5;
    var t3 := p.blanks2 + t4;
    var t2 := "=" + t3;
    var t1 := p.blanks1 + t2;
    assert s.rest == p.name + t1;
    ReadPropertyNameBack(s, p.name, t1);
    SkipBlanks(s.(rest := t1), p.blanks1, t2);
    assert t2[0] == '=' && t2[1..] == t3;
    ValueStarts(p.value, t5);
    SkipBlanks(s.(rest := t3), p.blanks2, t4);
    ReadPropertyValueBack(s.(rest := t4), p.value, t5);
  }

  lemma ValueStarts(v: string, t: string)
    requires EndsValue(v, t)
    ensures v + t != "" && !IsWhite((v + t)[0])
  {
  }

  /** What comes after the properties of a section. */
  predicate SectionNext(t: string) { t == "" || t[0] == '[' || IsLastComment(t) }

  /** Where the reading of properties ends: at the next section, or when it has looked past the end. */
  function Left(t: string): string { if IsLastComment(t) then "" else t }

  /** A property starts with a character that is not skipped. */
  lemma PropertyStringSolid(p: PropertyText, t: string)
    requires IsPropertyText(p, t)
    ensures PropertyString(p) + t != "" && Solid(PropertyString(p) + t) && !IsLastComment(PropertyString(p) + t)
  {
    hide IsFiller, IsBlank, EndsValue;
    assert (PropertyString(p) + t)[0] == p.name[0];
    assert p.name[0] == '\\' || IsPropertyNameChar(p.name[0]);
  }

  lemma PropertiesStringSolid(ps: seq<PropertyText>, t: string)
    requires SectionNext(t) && ArePropertyTexts(ps, t)
    ensures var text := PropertiesString(ps) + t;
            (Solid(text) || IsLastComment(text)) && (ps != [] ==> text != "" && !IsLastComment(text))
  {
    hide PropertyString, IsPropertyText, PropertiesString, IsRaw;
    if ps == [] {
      NoPropertiesString();
      assert PropertiesString(ps) + t == t;
    } else {
      FirstProperty(ps, t);
      PropertyStringSolid(ps[0], PropertiesString(ps[1..]) + t);
    }
  }

  lemma FirstProperty(ps: seq<PropertyText>, t: string)
    requires ps != []
    ensures PropertiesString(ps) + t == PropertyString(ps[0]) + (PropertiesString(ps[1..]) + t)
  {
  }

  lemma ReadOneProperty(s: In, ps: seq<PropertyText>, t: string)
    requires Good(s) && SectionNext(t) && ps != [] && ArePropertyTexts(ps, t)
    ensures var (s1, property) := ReadProperty(Past(s, PropertiesString(ps) + t));
            && property == Some(Stands(ps[0]))
            && SkipWhiteSpacesOrComments(s1) == Past(s, PropertiesString(ps[1..]) + t)
  {
    hide ReadProperty, SkipWhiteSpacesOrComments, IsFiller, PropertyString, PropertiesString, Solid, IsPropertyName,
         EndsValue, SectionNext, Onward, Stands, IsRaw;
    var p, text, more := ps[0], PropertiesString(ps) + t, PropertiesString(ps[1..]) + t;
    FirstProperty(ps, t);
    PropertiesStringSolid(ps, t);
    assert Past(s, text) == s.(rest := text);
    ReadPropertyBack(s.(rest := text), p, more);
    PropertiesStringSolid(ps[1..], t);
    if p.after + more == "" {
      SkipAtEnd(s);
    } else {
      SkipFiller(s.(rest := p.after + more), p.after, more);
    }
  }

  lemma SkipAtEnd(s: In)
    ensures SkipWhiteSpacesOrComments(At(s, "")) == At(s, "") == Past(s, "")
  {
  }

  lemma {:induction false} ReadPropertiesBack(s: In, ps: seq<PropertyText>, t: string, properties: seq<Property>)
    requires Good(s) && SectionNext(t) && ArePropertyTexts(ps, t)
    ensures ReadProperties(Past(s, PropertiesString(ps) + t), properties)
         == (Stop(s, Left(t)), properties + Properties(ps))
    decreases |ps|
  {
    hide ReadProperty, SkipWhiteSpacesOrComments, IsPropertyText, PropertiesString, Past, Stop, Left, SectionNext,
         Onward;
    if ps == [] {
      NoPropertiesString();
      assert PropertiesString(ps) + t == t && properties + Properties(ps) == properties;
      NoProperty(s, t);
    } else {
      ReadOneProperty(s, ps, t);
      var one := [Stands(ps[0])];
      ReadPropertiesBack(s, ps[1..], t, properties + one);
      assert properties + one + Properties(ps[1..]) == properties + Properties(ps);
    }
  }

  lemma NoPropertiesString()
    ensures PropertiesString([]) == ""
  {
  }

  lemma NoProperty(s: In, t: string)
    requires Good(s) && SectionNext(t)
    ensures ReadProperty(Past(s, t)) == (Stop(s, Left(t)), None)
  {
    hide IsRaw;
  }

  // ----- Sections

  lemma ReadSectionBack(s: In, x: SectionText, t: string)
    requires Good(s) && IsSectionText(x, t) && SectionNext(t) && s.rest == SectionString(x) + t
    ensures ReadSection(s) == (Stop(s, Left(t)), Some(StandsFor(x)))
  {
    hide ReadSectionName, SkipWhiteSpaces, SkipWhiteSpacesOrComments, ReadProperties, IsFiller, IsSectionName, Onward,
         PropertiesString, ArePropertyTexts, Properties, IsLastComment, SectionNext, Meaning;
    var t4 := PropertiesString(x.properties) + t;
    var t3 := x.after + t4;
    var t2 := "]" + t3;
    var t1 := x.name + t2;
    assert s.rest == "[" + t1 && s.rest[1..] == t1;
    ReadSectionNameBack(s.(rest := t1), x.name, t2);
    NoBlanks(s.(rest := t2));
    assert t2[1..] == t3;
    PropertiesStringSolid(x.properties, t);
    SkipFiller(s.(rest := t3), x.after, t4);
    ReadPropertiesBack(s, x.properties, t, []);
    SomeProperties(x.properties);
    assert [] + Properties(x.properties) == Properties(x.properties);
  }

  lemma NoBlanks(s: In)
    requires Good(s) && s.rest != "" && !IsWhite(s.rest[0])
    ensures SkipWhiteSpaces(s) == s
  {
  }

  lemma SomeProperties(ps: seq<PropertyText>)
    requires ps != []
    ensures Properties(ps) != []
  {
  }

  lemma SectionsStringNext(ss: seq<SectionText>, end: string)
    requires end == "" || IsLastComment(end)
    ensures var t := SectionsString(ss) + end;
            && SectionNext(t) && (Solid(t) || IsLastComment(t))
            && if ss == [] then t == end else t != "" && t[0] == '[' && !IsLastComment(t)
  {
    hide IsRaw;
    if ss == [] {
      assert SectionsString(ss) + end == end;
    } else {
      assert SectionsString(ss)[0] == '[';
    }
  }

  lemma SectionStringStarts(x: SectionText, t: string)
    ensures SectionString(x) + t != "" && (SectionString(x) + t)[0] == '['
  {
  }

  lemma FirstSection(ss: seq<SectionText>, t: string)
    requires ss != []
    ensures SectionsString(ss) + t == SectionString(ss[0]) + (SectionsString(ss[1..]) + t)
  {
  }

  /** One section is read, and the reader stops at the next one or at the end. */
  lemma ReadOneSection(s: In, before: string, ss: seq<SectionText>, end: string)
    requires Good(s) && IsFiller(before) && s.rest == before + (SectionsString(ss) + end)
    requires ss != [] && AreSectionTexts(ss, end) && (end == "" || IsLastComment(end))
    ensures ReadSection(SkipWhiteSpacesOrComments(s))
         == (if ss[1..] == [] then Stop(s, "") else s.(rest := SectionsString(ss[1..]) + end), Some(StandsFor(ss[0])))
  {
    hide ReadSection, SkipWhiteSpacesOrComments, IsFiller, SectionsString, SectionString, IsSectionText, Onward, IsRaw,
         StandsFor, Solid, SectionNext, IsLastComment;
    var text, more := SectionsString(ss) + end, SectionsString(ss[1..]) + end;
    SectionsStringNext(ss, end);
    SectionsStringNext(ss[1..], end);
    SkipFiller(s, before, text);
    FirstSection(ss, end);
    ReadSectionBack(s.(rest := text), ss[0], more);
  }

  lemma SectionsTogether(sections: seq<Section>, ss: seq<SectionText>)
    ensures sections + Sections([]) == sections
    ensures ss != [] ==> sections + [StandsFor(ss[0])] + Sections(ss[1..]) == sections + Sections(ss)
  {
  }

  lemma NoSections(s: In, before: string, end: string)
    requires Good(s) && IsFiller(before) && s.rest == before + end && (end == "" || IsLastComment(end))
    ensures var r := ReadSection(SkipWhiteSpacesOrComments(s));
            r.1 == None && r.0.rest == "" && Fine(r.0) && r.0.aborted == s.aborted
  {
    hide ReadSection, SkipWhiteSpacesOrComments, IsFiller, IsRaw;
    SkipFiller(s, before, end);
    NoSection(Past(s, end));
  }

  lemma {:induction false} ReadSectionsBack(s: In, before: string, ss: seq<SectionText>, end: string,
                                            sections: seq<Section>)
    requires Good(s) && IsFiller(before) && s.rest == before + (SectionsString(ss) + end)
    requires AreSectionTexts(ss, end) && (end == "" || IsLastComment(end))
    ensures var r := ReadSections(s, sections);
            r.1 == sections + Sections(ss) && r.0.rest == "" && Fine(r.0) && r.0.aborted == s.aborted
    decreases |ss|
  {
    hide ReadSection, SkipWhiteSpacesOrComments, IsFiller, SectionsString, IsSectionText, Onward, IsRaw, StandsFor,
         Solid, SectionNext, IsLastComment, Sections;
    SectionsTogether(sections, ss);
    if ss == [] {
      SectionsStringNext(ss, end);
      NoSections(s, before, end);
    } else {
      ReadOneSection(s, before, ss, end);
      var one := sections + [StandsFor(ss[0])];
      if ss[1..] == [] {
        SectionsTogether(one, []);
      } else {
        var more := SectionsString(ss[1..]) + end;
        NothingBefore(more);
        ReadSectionsBack(s.(rest := more), "", ss[1..], end, one);
      }
    }
  }

  lemma NothingBefore(t: string)
    ensures IsFiller("") && "" + t == t
  {
  }

  lemma NoSection(s: In)
    requires s.rest == "" && s.eof
    ensures ReadSection(s) == (s.(fail := true), None)
  {
  }

  /** Reading a file that is laid out in any way gives the sections it stands for: blank lines, indentation
      and comment lines make no difference, nor does how the last line ends.  The stream is left in a good
      state or at its end, and no assertion of the program fails. */
  lemma ReadBack(d: Document)
    requires IsDocument(d)
    ensures var r := ReadSections(In(DocumentString(d), false, false, false), []);
            r.1 == Sections(d.sections) && r.0.rest == "" && Fine(r.0) && !r.0.aborted
  {
    ReadSectionsBack(In(DocumentString(d), false, false, false), d.before, d.sections, d.end, []);
    assert [] + Sections(d.sections) == Sections(d.sections);
  }
}
