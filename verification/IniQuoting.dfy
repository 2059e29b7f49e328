/** Texts with characters that have a meaning to the reader: written with escapes, they are read as they are. */
module IniQuoting {
  import opened Options
  import opened Ini
  import opened IniLayouts

  /** Which escape stands for a blank, and whether characters without a meaning are escaped as well. */
  datatype Quoting = Quoting(blank: char, all: bool)

  predicate IsQuoting(q: Quoting) { q.blank in "0abr " }

  /** A backslash in front of a character with a meaning; tabs and blanks have escapes of their own. */
  function Quote(c: char, q: Quoting): string {
    if c == '\t' then "\\t"
    else if c == ' ' then ['\\', q.blank]
    else if c in "\\[]=;#" || (q.all && c !in "0abrt") then ['\\', c]
    else [c]
  }

  function Quoted(text: string, q: Quoting): string {
    if text == "" then "" else Quote(text[0], q) + Quoted(text[1..], q)
  }

  /** Characters without a meaning may stand in a text of this kind. */
  ghost predicate TakesPlain(kind: char -> bool) {
    forall c :: c !in "\\[]=;# \t\n" ==> kind(c)
  }

  lemma QuoteIsOne(c: char, q: Quoting, t: string, kind: char -> bool)
    requires IsQuoting(q) && c != '\n' && TakesPlain(kind)
    ensures var r := Quote(c, q) + t;
            && r != "" && !Dangling(r) && r[Width(r)..] == t && (r[0] == '\\' || kind(r[0]))
            && forall before :: FirstChar(r, before) == c
  {
    var r := Quote(c, q) + t;
    if |Quote(c, q)| == 2 {
      assert r[0] == '\\' && r[1] == Quote(c, q)[1] && r[1] != '\n' && r[2..] == t;
      assert Unescaped(r[1]) == c;
    } else {
      assert r[0] == c && c != '\\' && r[1..] == t;
    }
  }

  /** What is quoted is text of any kind, and is read as what it was. */
  lemma {:induction false} QuotedIsRead(text: string, q: Quoting, kind: char -> bool, c: char, peeked: bool)
    requires IsQuoting(q) && '\n' !in text && TakesPlain(kind)
    ensures IsRaw(Quoted(text, q), kind) && Meaning(Quoted(text, q), c, peeked) == text
    decreases |text|
  {
    hide Quote;
    if text != "" {
      QuoteIsOne(text[0], q, Quoted(text[1..], q), kind);
      QuotedIsRead(text[1..], q, kind, text[0], peeked);
      assert text == [text[0]] + text[1..];
    }
  }

  lemma QuotedStarts(text: string, q: Quoting)
    requires text != ""
    ensures Quoted(text, q) != "" && Quoted(text, q)[0] !in "[]=;# \t"
    ensures text[0] != '\n' ==> Quoted(text, q)[0] != '\n'
  {
  }

  lemma KindsTakePlain()
    ensures TakesPlain(IsPropertyNameChar) && TakesPlain(IsPropertyValueChar) && TakesPlain(IsSectionNameChar)
  {
  }

  /** So every text without a line break can be the value of a property, up to where the value ends. */
  lemma QuotedValueIsRead(s: In, text: string, q: Quoting, t: string)
    requires Good(s) && IsQuoting(q) && text != "" && '\n' !in text && (t == "" || t[0] in "\n[]=;#")
    requires s.rest == Quoted(text, q) + t
    ensures ReadPropertyValue(s) == (At(s, t), Some(text))
  {
    hide Quoted, IsRaw, Meaning;
    KindsTakePlain();
    QuotedIsRead(text, q, IsPropertyValueChar, '\0', false);
    QuotedStarts(text, q);
    ReadPropertyValueBack(s, Quoted(text, q), t);
  }

  /** Or the name of one. */
  lemma QuotedPropertyNameIsRead(s: In, text: string, q: Quoting, t: string)
    requires Good(s) && IsQuoting(q) && text != "" && '\n' !in text && (t == "" || t[0] in " \t\n[]=;#")
    requires s.rest == Quoted(text, q) + t
    ensures ReadPropertyName(s) == (At(s, t), Some(text))
  {
    hide Quoted, IsRaw, Meaning;
    KindsTakePlain();
    QuotedIsRead(text, q, IsPropertyNameChar, '\0', true);
    QuotedStarts(text, q);
    ReadPropertyNameBack(s, Quoted(text, q), t);
  }

  /** Or the name of a section. */
  lemma QuotedSectionNameIsRead(s: In, text: string, q: Quoting, t: string)
    requires Good(s) && IsQuoting(q) && text != "" && '\n' !in text && (t == "" || t[0] in "\n[];#")
    requires s.rest == Quoted(text, q) + t
    ensures ReadSectionName(s) == (At(s, t), Some(text))
  {
    hide Quoted, IsRaw, Meaning;
    KindsTakePlain();
    QuotedIsRead(text, q, IsSectionNameChar, '\0', false);
    QuotedStarts(text, q);
    ReadSectionNameBack(s, Quoted(text, q), t);
  }

  // ----- Whole configurations

  /** How a configuration is laid out: how texts are quoted, what is in front of each property and
      around each equals sign, and the comment line in front of each section. */
  datatype Style = Style(quoting: Quoting, indent: string, gap: string, mark: char, comment: string)

  ghost predicate IsStyle(y: Style) {
    && IsQuoting(y.quoting)
    && (forall i :: 0 <= i < |y.indent| ==> y.indent[i] in " \t\n")
    && (forall i :: 0 <= i < |y.gap| ==> y.gap[i] in " \t\n")
    && y.mark in ";#"
    && '\n' !in y.comment && '\\' !in y.comment
  }

  function CommentLine(y: Style): string { [y.mark] + y.comment + "\n" }

  function QuotedProperty(p: Property, y: Style, after: string): PropertyText {
    PropertyText(Quoted(p.name, y.quoting), y.gap, y.gap, Quoted(p.value, y.quoting), "\n" + after)
  }

  function QuotedProperties(ps: seq<Property>, y: Style): seq<PropertyText> {
    seq(|ps|, j requires 0 <= j < |ps| =>
      QuotedProperty(ps[j], y, if j < |ps| - 1 then y.indent else CommentLine(y)))
  }

  function QuotedSection(x: Section, y: Style): SectionText {
    SectionText(Quoted(x.name, y.quoting), "\n" + y.indent, QuotedProperties(x.properties, y))
  }

  function QuotedSections(ss: seq<Section>, y: Style): seq<SectionText> {
    seq(|ss|, i requires 0 <= i < |ss| => QuotedSection(ss[i], y))
  }

  function QuotedDocument(ss: seq<Section>, y: Style): Document {
    Document(CommentLine(y), QuotedSections(ss, y), "")
  }

  predicate IsOnOneLine(text: string) { text != "" && '\n' !in text }

  predicate AreOnOneLine(ps: seq<Property>) {
    forall j :: 0 <= j < |ps| ==> IsOnOneLine(ps[j].name) && IsOnOneLine(ps[j].value)
  }

  lemma {:induction false} BlankTextIsFiller(w: string)
    requires forall i :: 0 <= i < |w| ==> w[i] in " \t\n"
    ensures IsBlank(w) && IsFiller(w) && IsFiller("\n" + w)
    decreases |w|
  {
    if w != "" {
      BlankTextIsFiller(w[1..]);
    }
    assert ("\n" + w)[1..] == w;
  }

  lemma {:induction false} PlainTextIsComment(w: string)
    requires '\n' !in w && '\\' !in w
    ensures IsRaw(w, IsCommentChar)
    decreases |w|
  {
    if w != "" {
      PlainTextIsComment(w[1..]);
    }
  }

  lemma CommentLineIsFiller(y: Style)
    requires IsStyle(y)
    ensures IsFiller(CommentLine(y)) && IsFiller("\n" + CommentLine(y))
  {
    hide IsRaw;
    var line := CommentLine(y);
    var k := |line| - 1;
    PlainTextIsComment([y.mark] + y.comment);
    assert line[..k] == [y.mark] + y.comment && line[k + 1..] == "";
    assert EndsComment(line, k) && IsFiller(line[k + 1..]);
    assert ("\n" + line)[1..] == line;
  }

  lemma QuotedPropertyIsLaidOut(p: Property, y: Style, after: string, t: string)
    requires IsStyle(y) && IsOnOneLine(p.name) && IsOnOneLine(p.value) && (after == y.indent || after == CommentLine(y))
    ensures IsPropertyText(QuotedProperty(p, y, after), t) && Stands(QuotedProperty(p, y, after)) == p
  {
    hide Quoted, IsRaw, Meaning, IsFiller, CommentLine;
    KindsTakePlain();
    QuotedIsRead(p.name, y.quoting, IsPropertyNameChar, '\0', true);
    QuotedIsRead(p.value, y.quoting, IsPropertyValueChar, '\0', false);
    QuotedStarts(p.name, y.quoting);
    QuotedStarts(p.value, y.quoting);
    BlankTextIsFiller(y.gap);
    BlankTextIsFiller(y.indent);
    CommentLineIsFiller(y);
    assert ("\n" + after + t)[0] == '\n';
  }

  lemma {:induction false} QuotedPropertiesAreLaidOut(ps: seq<Property>, y: Style, t: string)
    requires IsStyle(y) && AreOnOneLine(ps)
    ensures ArePropertyTexts(QuotedProperties(ps, y), t) && Properties(QuotedProperties(ps, y)) == ps
    decreases |ps|
  {
    hide QuotedProperty, IsPropertyText, Stands, IsOnOneLine, CommentLine, IsStyle;
    if ps != [] {
      var qs := QuotedProperties(ps, y);
      assert qs[1..] == QuotedProperties(ps[1..], y);
      QuotedPropertyIsLaidOut(ps[0], y, if |ps| > 1 then y.indent else CommentLine(y), PropertiesString(qs[1..]) + t);
      QuotedPropertiesAreLaidOut(ps[1..], y, t);
    }
  }

  lemma QuotedSectionIsLaidOut(x: Section, y: Style, t: string)
    requires IsStyle(y) && IsOnOneLine(x.name) && x.properties != [] && AreOnOneLine(x.properties)
    ensures IsSectionText(QuotedSection(x, y), t) && StandsFor(QuotedSection(x, y)) == x
  {
    hide Quoted, IsRaw, Meaning, IsFiller, ArePropertyTexts, Properties;
    KindsTakePlain();
    QuotedIsRead(x.name, y.quoting, IsSectionNameChar, '\0', false);
    QuotedStarts(x.name, y.quoting);
    BlankTextIsFiller(y.indent);
    QuotedPropertiesAreLaidOut(x.properties, y, t);
  }

  predicate AreSectionsOnOneLine(ss: seq<Section>) {
    forall i :: 0 <= i < |ss| ==> IsOnOneLine(ss[i].name) && ss[i].properties != [] && AreOnOneLine(ss[i].properties)
  }

  lemma {:induction false} QuotedSectionsAreLaidOut(ss: seq<Section>, y: Style)
    requires IsStyle(y) && AreSectionsOnOneLine(ss)
    ensures AreSectionTexts(QuotedSections(ss, y), "") && Sections(QuotedSections(ss, y)) == ss
    decreases |ss|
  {
    hide QuotedSection, IsSectionText, StandsFor, IsOnOneLine, AreOnOneLine, IsStyle;
    if ss != [] {
      var xs := QuotedSections(ss, y);
      assert xs[1..] == QuotedSections(ss[1..], y);
      QuotedSectionIsLaidOut(ss[0], y, SectionsString(xs[1..]) + "");
      QuotedSectionsAreLaidOut(ss[1..], y);
    }
  }

  /** Every configuration whose names and values are not empty and take one line, whatever is in them, can be
      written in such a way that it is read back: with backslashes in front of brackets, equals signs,
      comment signs and backslashes, and in any style. */
  lemma QuotedIsReadBack(ss: seq<Section>, y: Style)
    requires IsStyle(y) && AreSectionsOnOneLine(ss)
    ensures var r := ReadSections(In(DocumentString(QuotedDocument(ss, y)), false, false, false), []);
            r.1 == ss && r.0.rest == "" && Fine(r.0) && !r.0.aborted
  {
    hide ReadSections, AreSectionTexts, Sections, IsFiller, CommentLine;
    CommentLineIsFiller(y);
    QuotedSectionsAreLaidOut(ss, y);
    ReadBack(QuotedDocument(ss, y));
  }
}
