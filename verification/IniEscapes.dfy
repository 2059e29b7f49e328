/** What escapes do to the reader: which texts make one of its assertions fail, and when a continued line is
    read as if it had never been broken. */
module IniEscapes {
  import opened Options
  import opened Ini
  import opened IniLayouts

  // ----- Where in a file the reader is, by looking at one character or escape after the other

  /** The places that a text leads to.  In the body of a section, found says whether the section has a
      property already: only then is it a section. */
  datatype Place =
    | Top
    | TopComment
    | Opening
    | InSectionName
    | Closing
    | Body(found: bool)
    | BodyComment(found: bool)
    | InName(found: bool)
    | BeforeEquals(found: bool)
    | BeforeValue(found: bool)
    | InValue
    | Stopped

  /** A property that is not well-formed ends its section, and a section that is not well-formed ends it all. */
  function SectionOver(found: bool): Place { if found then Top else Stopped }

  function AtTop(c: char): Place {
    if IsWhite(c) then Top
    else if IsCommentStart(c) then TopComment
    else if c == '[' then Opening
    else if c == ']' then Stopped
    else InSectionName
  }

  function AtBody(found: bool, c: char): Place {
    if IsWhite(c) then Body(found)
    else if IsCommentStart(c) then BodyComment(found)
    else if !IsDelimiter(c) then InName(found)
    else if found then AtTop(c)
    else Stopped
  }

  /** Where a character leads to that is not part of an escape. */
  function Next(p: Place, c: char): Place {
    match p
    case Top => AtTop(c)
    case TopComment => if c == '\n' then Top else p
    case Opening => if IsSectionNameChar(c) then InSectionName else Stopped
    case InSectionName =>
      if IsSectionNameChar(c) then p else if c == '\n' then Closing else if c == ']' then Body(false) else Stopped
    case Closing => if IsWhite(c) then p else if c == ']' then Body(false) else Stopped
    case Body(found) => AtBody(found, c)
    case BodyComment(found) => if c == '\n' then Body(found) else p
    case InName(found) =>
      if IsPropertyNameChar(c) then p
      else if IsWhite(c) then BeforeEquals(found)
      else if c == '=' then BeforeValue(found)
      else SectionOver(found)
    case BeforeEquals(found) =>
      if IsWhite(c) then p else if c == '=' then BeforeValue(found) else SectionOver(found)
    case BeforeValue(found) => if IsWhite(c) then p else if IsDelimiter(c) then AtBody(true, c) else InValue
    case InValue => if IsPropertyValueChar(c) then p else AtBody(true, c)
    case Stopped => p
  }

  /** Where an escape leads to that stands for d. */
  function NextEscaped(p: Place, d: char): Place {
    match p
    case Top => InSectionName
    case Opening => InSectionName
    case Closing => if d == ']' then Body(false) else Stopped
    case Body(found) => InName(found)
    case BeforeEquals(found) => if d == '=' then BeforeValue(found) else SectionOver(found)
    case BeforeValue(found) => InValue
    case other => p
  }

  function After(p: Place, text: string): Place
    requires text != "" && !Dangling(text)
  {
    if text[0] == '\\' then NextEscaped(p, FirstChar(text, '\0')) else Next(p, text[0])
  }

  /** The place in front of the end of the text, or of the escape that is cut off there. */
  function PlaceAfter(p: Place, text: string): Place
    decreases |text|
  {
    if text == "" || Dangling(text) then p else PlaceAfter(After(p, text), text[Width(text)..])
  }

  /** The text ends in the middle of an escape. */
  predicate CutOff(text: string)
    decreases |text|
  {
    text != "" && (Dangling(text) || CutOff(text[Width(text)..]))
  }

  /** The places in which the program asserts that it can read a character that it has peeked at. */
  predicate Asserts(p: Place) {
    p.InSectionName? || p.Body? || p.InName? || p.BeforeValue? || p.InValue?
  }

  predicate WillAbort(p: Place, text: string) { CutOff(text) && Asserts(PlaceAfter(p, text)) }

  // ----- The reader gets to those places

  /** An assertion has failed, or it will when the reader goes on from the place p. */
  predicate Doomed(s: In, p: Place) { s.aborted || (Good(s) && WillAbort(p, s.rest)) }

  lemma DoomedStep(s: In, c: char, p: Place)
    requires Good(s) && s.rest != ""
    ensures var (s1, ok, d) := ReadNextChar(s, c);
            && ok == !Dangling(s.rest) && s1.aborted == s.aborted
            && if ok then Doomed(s, p) == Doomed(s1, After(p, s.rest))
               else !Good(s1) && Doomed(s, p) == (s.aborted || Asserts(p))
  {
    hide ReadNextChar, Asserts, After;
  }

  lemma {:induction false} NeverAfterStop(text: string)
    ensures !WillAbort(Stopped, text)
    decreases |text|
  {
    if text != "" && !Dangling(text) {
      NeverAfterStop(text[Width(text)..]);
    }
  }

  function CommentOf(p: Place): Place
    requires p.Top? || p.Body?
  {
    if p.Top? then TopComment else BodyComment(p.found)
  }

  lemma {:induction false} DoomedSkipLine(s: In, c: char, p: Place)
    requires Good(s) && c != '\n' && (p.Top? || p.Body?)
    ensures Doomed(s, CommentOf(p)) == Doomed(SkipLine(s, c), p)
    decreases |s.rest|
  {
    hide ReadNextChar, Doomed;
    if s.rest == "" {
      NothingDoomed(s, CommentOf(p));
      NothingDoomed(SkipLine(s, c), p);
    } else {
      DoomedStep(s, c, CommentOf(p));
      var (s1, ok, d) := ReadNextChar(s, c);
      if !ok {
        NothingDoomed(s1, p);
      } else if d != '\n' {
        DoomedSkipLine(s1, d, p);
      }
    }
  }

  lemma NothingDoomed(s: In, p: Place)
    requires !Good(s) || s.rest == ""
    ensures Doomed(s, p) == s.aborted
  {
  }

  /** White space is skipped in those places. */
  predicate Skips(p: Place) { p.Top? || p.Closing? || p.Body? || p.BeforeEquals? || p.BeforeValue? }

  lemma {:induction false} DoomedSkipWhiteSpaces(s: In, p: Place)
    requires Skips(p)
    ensures var t := SkipWhiteSpaces(s);
            Doomed(s, p) == Doomed(t, p) && (Good(t) ==> t.rest != "" && !IsWhite(t.rest[0]))
    decreases |s.rest|
  {
    hide ReadNextChar, Doomed;
    if Good(s) && s.rest != "" && IsWhite(s.rest[0]) {
      DoomedStep(s, s.rest[0], p);
      DoomedSkipWhiteSpaces(ReadNextChar(s, s.rest[0]).0, p);
    } else if Good(s) && s.rest != "" {
    } else {
      NothingDoomed(s, p);
      NothingDoomed(SkipWhiteSpaces(s), p);
    }
  }

  lemma {:induction false} DoomedSkipComments(s: In, p: Place)
    requires p.Top? || p.Body?
    ensures Doomed(s, p) == Doomed(SkipComments(s), p)
    decreases |s.rest|
  {
    hide ReadNextChar, Doomed, SkipLine;
    if Good(s) && s.rest != "" && IsCommentStart(s.rest[0]) {
      CommentStarts(s, p);
      DoomedSkipLine(s, '\0', p);
      DoomedSkipComments(SkipLine(s, '\0'), p);
    } else if Good(s) && s.rest != "" {
    } else {
      NothingDoomed(s, p);
      NothingDoomed(SkipComments(s), p);
    }
  }

  lemma CommentStarts(s: In, p: Place)
    requires Good(s) && s.rest != "" && IsCommentStart(s.rest[0]) && (p.Top? || p.Body?)
    ensures Doomed(s, p) == Doomed(s, CommentOf(p))
  {
  }

  lemma {:induction false} DoomedSkipBoth(s: In, p: Place)
    requires p.Top? || p.Body?
    ensures var t := SkipWhiteSpacesOrComments(s);
            Doomed(s, p) == Doomed(t, p) && (Good(t) ==> t.rest != "" && Solid(t.rest))
    decreases |s.rest|
  {
    hide SkipWhiteSpaces, SkipComments, Doomed;
    if Good(s) && s.rest != "" && IsWhite(s.rest[0]) {
      DoomedSkipWhiteSpaces(s, p);
      DoomedSkipBoth(SkipWhiteSpaces(s), p);
    } else if Good(s) && s.rest != "" && IsCommentStart(s.rest[0]) {
      DoomedSkipComments(s, p);
      DoomedSkipBoth(SkipComments(s), p);
    } else if Good(s) && s.rest == "" {
      NothingDoomed(s, p);
      NothingDoomed(SkipWhiteSpacesOrComments(s), p);
    }
  }

  /** The place in which names and values of a kind are read. */
  predicate ReadsIn(kind: char -> bool, p: Place) {
    && Asserts(p) && kind('\\') && (forall d :: NextEscaped(p, d) == p) && (forall c :: kind(c) ==> Next(p, c) == p)
  }

  lemma {:induction false} DoomedReadWhile(s: In, kind: char -> bool, text: string, c: char, peeked: bool, p: Place)
    requires ReadsIn(kind, p)
    ensures var t := ReadWhile(s, kind, text, c, peeked).0;
            Doomed(s, p) == Doomed(t, p) && (Good(t) ==> t.rest != "" && !kind(t.rest[0]))
    decreases |s.rest|
  {
    hide ReadNextChar, Doomed, Asserts;
    if !Good(s) || s.rest == "" {
      NothingDoomed(s, p);
      NothingDoomed(ReadWhile(s, kind, text, c, peeked).0, p);
    } else if kind(s.rest[0]) {
      var before := if peeked then s.rest[0] else c;
      DoomedStep(s, before, p);
      var (s1, ok, d) := ReadNextChar(s, before);
      if ok {
        DoomedReadWhile(s1, kind, text + [d], d, peeked, p);
      } else {
        NothingDoomed(Peek(Assert(s1, false)).0, p);
      }
    }
  }

  /** Reading a name or a value from its first character on. */
  lemma DoomedReadFirst(s: In, kind: char -> bool, c: char, peeked: bool, p: Place, q: Place)
    requires Good(s) && s.rest != "" && ReadsIn(kind, q) && Asserts(p) && (Dangling(s.rest) || After(p, s.rest) == q)
    ensures var (s1, ok, d) := ReadNextChar(s, c);
            var t := ReadWhile(Assert(s1, ok), kind, [d], d, peeked).0;
            Doomed(s, p) == Doomed(t, q) && (Good(t) ==> t.rest != "" && !kind(t.rest[0]))
  {
    hide ReadNextChar, Doomed, Asserts, ReadWhile, ReadsIn;
    DoomedStep(s, c, p);
    var (s1, ok, d) := ReadNextChar(s, c);
    DoomedReadWhile(Assert(s1, ok), kind, [d], d, peeked, q);
    if !ok {
      NothingDoomed(Assert(s1, ok), q);
    }
  }

  lemma DoomedReadPropertyName(s: In, found: bool)
    requires Good(s) ==> s.rest != "" && Solid(s.rest)
    ensures var (t, name) := ReadPropertyName(s);
            if name.Some? then Doomed(s, Body(found)) == Doomed(t, InName(found))
              && (Good(t) ==> t.rest != "" && IsDelimiter(t.rest[0]))
            else Doomed(s, Body(found)) == Doomed(t, SectionOver(found))
  {
    hide ReadNextChar, Doomed, ReadWhile, Asserts;
    if !Good(s) {
      NothingDoomed(s, Body(found));
      NothingDoomed(ReadPropertyName(s).0, SectionOver(found));
    } else if IsPropertyNameChar(s.rest[0]) {
      NamesAreReadIn(found);
      DoomedReadFirst(s, IsPropertyNameChar, s.rest[0], true, Body(found), InName(found));
    } else {
      NoPropertyHere(s, found);
    }
  }

  lemma NamesAreReadIn(found: bool)
    ensures ReadsIn(IsPropertyNameChar, InName(found)) && ReadsIn(IsPropertyValueChar, InValue)
    ensures ReadsIn(IsSectionNameChar, InSectionName) && Asserts(Body(found)) && Asserts(BeforeValue(found))
  {
  }

  lemma NoPropertyHere(s: In, found: bool)
    requires Good(s) && s.rest != "" && Solid(s.rest) && IsDelimiter(s.rest[0])
    ensures Doomed(s, Body(found)) == Doomed(s, SectionOver(found))
  {
  }

  lemma DoomedReadPropertyValue(s: In, found: bool)
    requires Good(s) && s.rest != "" && !IsWhite(s.rest[0])
    ensures var (t, value) := ReadPropertyValue(s);
            value.Some? && Doomed(s, BeforeValue(found)) == Doomed(t, Body(true))
  {
    hide ReadNextChar, Doomed, ReadWhile, Asserts;
    var t := ReadPropertyValue(s).0;
    if IsDelimiter(s.rest[0]) {
      NoValueHere(s, found);
    } else {
      NamesAreReadIn(found);
      DoomedReadFirst(s, IsPropertyValueChar, '\0', false, BeforeValue(found), InValue);
      ValueEnds(t);
    }
  }

  lemma NoValueHere(s: In, found: bool)
    requires Good(s) && s.rest != "" && IsDelimiter(s.rest[0]) && !IsWhite(s.rest[0])
    ensures Doomed(s, BeforeValue(found)) == Doomed(s, Body(true))
  {
  }

  lemma ValueEnds(s: In)
    requires Good(s) ==> s.rest != "" && !IsPropertyValueChar(s.rest[0])
    ensures Doomed(s, InValue) == Doomed(s, Body(true))
  {
  }

  /** The name ends where the blanks in front of the equals sign start. */
  lemma NameEnds(s: In, found: bool)
    requires Good(s) ==> s.rest != "" && IsDelimiter(s.rest[0])
    ensures Doomed(s, InName(found)) == Doomed(s, BeforeEquals(found))
  {
  }

  lemma DoomedReadProperty(s: In, found: bool)
    requires Good(s) ==> s.rest != "" && Solid(s.rest)
    ensures var (t, property) := ReadProperty(s);
            Doomed(s, Body(found)) == Doomed(t, if property.Some? then Body(true) else SectionOver(found))
  {
    hide ReadNextChar, Doomed, ReadPropertyName, ReadPropertyValue, SkipWhiteSpaces;
    DoomedReadPropertyName(s, found);
    var (s1, name) := ReadPropertyName(s);
    if name.Some? {
      NameEnds(s1, found);
      DoomedSkipWhiteSpaces(s1, BeforeEquals(found));
      var s2 := SkipWhiteSpaces(s1);
      if !Good(s2) {
        NothingDoomed(s2, BeforeEquals(found));
        NothingDoomed(s2, SectionOver(found));
      } else {
        DoomedStep(s2, '\0', BeforeEquals(found));
        var (s3, ok, c) := ReadNextChar(s2, '\0');
        if !ok {
          NothingDoomed(s3, SectionOver(found));
        } else if c == '=' {
          DoomedSkipWhiteSpaces(s3, BeforeValue(found));
          var s4 := SkipWhiteSpaces(s3);
          if !Good(s4) {
            NothingDoomed(s4, BeforeValue(found));
            NothingDoomed(s4, SectionOver(found));
          } else {
            DoomedReadPropertyValue(s4, found);
          }
        }
      }
    }
  }

  lemma {:induction false} DoomedReadProperties(s: In, properties: seq<Property>)
    requires Good(s) ==> s.rest != "" && Solid(s.rest)
    ensures var (t, all) := ReadProperties(s, properties);
            Doomed(s, Body(properties != [])) == Doomed(t, SectionOver(all != []))
    decreases |s.rest|
  {
    hide Doomed, ReadProperty, SkipWhiteSpacesOrComments, SectionOver, Solid;
    DoomedReadProperty(s, properties != []);
    var (s1, property) := ReadProperty(s);
    if property.Some? {
      DoomedSkipBoth(s1, Body(true));
      DoomedReadProperties(SkipWhiteSpacesOrComments(s1), properties + [property.value]);
    }
  }

  lemma DoomedReadSectionName(s: In, p: Place)
    requires p == Opening || (p == Top && Good(s) && s.rest != "" && Solid(s.rest) && s.rest[0] != '[')
    ensures var (t, name) := ReadSectionName(s);
            Doomed(s, p) == Doomed(t, if name.Some? then InSectionName else Stopped)
    ensures var (t, name) := ReadSectionName(s);
            name.Some? && Good(t) ==> t.rest != "" && !IsSectionNameChar(t.rest[0])
  {
    hide ReadNextChar, Doomed, ReadWhile;
    if !Good(s) || s.rest == "" {
      NothingDoomed(s, p);
      NothingDoomed(ReadSectionName(s).0, Stopped);
    } else if IsSectionNameChar(s.rest[0]) {
      NamesAreReadIn(false);
      DoomedStep(s, '\0', p);
      var (s1, ok, d) := ReadNextChar(s, '\0');
      DoomedReadWhile(s1, IsSectionNameChar, [d], d, false, InSectionName);
      if !ok {
        NothingDoomed(s1, InSectionName);
      }
    } else {
      NoSectionNameHere(s, p);
    }
  }

  lemma NoSectionNameHere(s: In, p: Place)
    requires Good(s) && s.rest != "" && !IsSectionNameChar(s.rest[0])
    requires p == Opening || (p == Top && Solid(s.rest) && s.rest[0] != '[')
    ensures Doomed(s, p) == Doomed(s, Stopped)
  {
  }

  lemma SectionNameEnds(s: In)
    requires Good(s) ==> s.rest != "" && !IsSectionNameChar(s.rest[0])
    ensures Doomed(s, InSectionName) == Doomed(s, Closing)
  {
  }

  /** The part of a section behind its name. */
  lemma DoomedReadSectionBody(s: In, name: string)
    requires Good(s) ==> s.rest != "" && !IsSectionNameChar(s.rest[0])
    ensures var (t, section) := ReadSectionBody(s, name);
            Doomed(s, InSectionName) == Doomed(t, if section.Some? then Top else Stopped)
  {
    hide ReadNextChar, Doomed, SkipWhiteSpaces, SkipWhiteSpacesOrComments, ReadProperties, Solid;
    SectionNameEnds(s);
    DoomedSkipWhiteSpaces(s, Closing);
    var s4 := SkipWhiteSpaces(s);
    var (s5, closed, c) := ReadNextChar(s4, '\0');
    if !Good(s4) {
      NothingDoomed(s4, Closing);
      NothingDoomed(s4, Stopped);
      NotRead(s4);
    } else {
      DoomedStep(s4, '\0', Closing);
      if !closed {
        NothingDoomed(s5, Stopped);
      } else if c == ']' {
        DoomedSkipBoth(s5, Body(false));
        var s6 := SkipWhiteSpacesOrComments(s5);
        if !Fine(s6) {
          NothingDoomed(s6, Body(false));
          NothingDoomed(s6, Stopped);
        } else {
          DoomedReadProperties(s6, []);
        }
      }
    }
  }

  lemma NotRead(s: In)
    requires !Good(s)
    ensures ReadNextChar(s, '\0') == (s.(fail := true), false, '\0')
    ensures Doomed(s.(fail := true), Stopped) == s.aborted
  {
  }

  lemma DoomedReadSection(s: In)
    requires Good(s) ==> s.rest != "" && Solid(s.rest)
    ensures var (t, section) := ReadSection(s);
            Doomed(s, Top) == Doomed(t, if section.Some? then Top else Stopped)
  {
    hide ReadNextChar, Doomed, ReadSectionName, ReadSectionBody;
    if !Good(s) {
      NothingDoomed(s, Top);
      NothingDoomed(ReadSection(s).0, Stopped);
    } else {
      if s.rest[0] == '[' {
        DoomedStep(s, '\0', Top);
      }
      var p := if s.rest[0] == '[' then Opening else Top;
      var s2 := if s.rest[0] == '[' then ReadNextChar(s, '\0').0 else s;
      DoomedReadSectionName(s2, p);
      var (s3, name) := ReadSectionName(s2);
      if name.Some? {
        DoomedReadSectionBody(s3, name.value);
      }
    }
  }

  lemma {:induction false} DoomedReadSections(s: In, sections: seq<Section>)
    ensures Doomed(s, Top) == ReadSections(s, sections).0.aborted
    decreases |s.rest|
  {
    hide Doomed, ReadSection, SkipWhiteSpacesOrComments, Solid;
    if !Good(s) {
      NothingDoomed(s, Top);
    } else {
      var s1 := SkipWhiteSpacesOrComments(s);
      DoomedSkipBoth(s, Top);
      DoomedReadSection(s1);
      var (s2, section) := ReadSection(s1);
      if section.None? {
        DoomedWhenStopped(s2);
      } else {
        DoomedReadSections(s2, sections + [section.value]);
      }
    }
  }

  lemma DoomedWhenStopped(s: In)
    ensures Doomed(s, Stopped) == s.aborted
  {
    NeverAfterStop(s.rest);
  }

  /** An assertion of the program fails if and only if the text ends in the middle of an escape, and does so
      inside the name or the value of a property or behind the first character of the name of a section. */
  lemma AbortsExactly(text: string)
    ensures ReadSections(In(text, false, false, false), []).0.aborted
       <==> CutOff(text) && Asserts(PlaceAfter(Top, text))
  {
    hide CutOff, Asserts, PlaceAfter, ReadSections;
    DoomedReadSections(In(text, false, false, false), []);
  }

  // ----- Which layouts those are

  predicate Aborts(text: string) { ReadSections(In(text, false, false, false), []).0.aborted }

  /** Unless the text ends in the middle of an escape, the assertions of the program hold, however ill-formed
      the text is. */
  lemma ReadingNeverAborts(text: string)
    requires !CutOff(text)
    ensures !Aborts(text)
  {
    hide ReadSections, CutOff, PlaceAfter;
    AbortsExactly(text);
  }

  lemma {:induction false} RawLeads(p: Place, kind: char -> bool, w: string, t: string)
    requires IsRaw(w, kind) && (forall d :: NextEscaped(p, d) == p) && (forall c :: kind(c) ==> Next(p, c) == p)
    ensures WillAbort(p, w + t) == WillAbort(p, t)
    decreases |w|
  {
    hide Asserts, Next, NextEscaped;
    if w == "" {
      assert w + t == t;
    } else {
      WidthInFront(w, t);
      RawLeads(p, kind, w[Width(w)..], t);
    }
  }

  lemma {:induction false} BlanksLead(p: Place, w: string, t: string)
    requires IsBlank(w) && Skips(p)
    ensures WillAbort(p, w + t) == WillAbort(p, t)
    decreases |w|
  {
    hide Asserts;
    if w == "" {
      assert w + t == t;
    } else {
      assert (w + t)[1..] == w[1..] + t;
      BlanksLead(p, w[1..], t);
    }
  }

  lemma CommentLeads(p: Place, c: string, t: string)
    requires (p.Top? || p.Body?) && c != "" && IsCommentStart(c[0]) && IsRaw(c, IsCommentChar)
    ensures WillAbort(p, c + t) == WillAbort(CommentOf(p), t)
  {
    hide IsRaw, CutOff, Asserts;
    assert (c + t)[0] == c[0];
    CommentStarts(In(c + t, false, false, false), p);
    RawLeads(CommentOf(p), IsCommentChar, c, t);
  }

  lemma {:induction false} FillerLeads(p: Place, f: string, t: string)
    requires (p.Top? || p.Body?) && IsFiller(f)
    ensures WillAbort(p, f + t) == WillAbort(p, t)
    decreases |f|
  {
    hide Asserts, IsRaw, CommentOf;
    if f == "" {
      assert f + t == t;
    } else if IsWhite(f[0]) {
      assert (f + t)[1..] == f[1..] + t;
      FillerLeads(p, f[1..], t);
    } else {
      var k :| 0 < k < |f| && EndsComment(f, k) && IsFiller(f[k + 1..]);
      CommentInFront(f, k, t);
      CommentLeads(p, f[..k], "\n" + (f[k + 1..] + t));
      CommentLineEnds(p, f[k + 1..] + t);
      FillerLeads(p, f[k + 1..], t);
    }
  }

  lemma CommentLineEnds(p: Place, t: string)
    requires p.Top? || p.Body?
    ensures WillAbort(CommentOf(p), "\n" + t) == WillAbort(p, t)
  {
    assert ("\n" + t)[1..] == t;
  }

  /** A name leads to where its kind of name is read. */
  lemma NameLeads(p: Place, q: Place, kind: char -> bool, n: string, t: string)
    requires n != "" && IsRaw(n, kind) && ReadsIn(kind, q)
    requires (forall d :: NextEscaped(p, d) == q) && (forall c :: kind(c) ==> Next(p, c) == q)
    ensures WillAbort(p, n + t) == WillAbort(q, t)
  {
    hide Asserts, Next, NextEscaped;
    WidthInFront(n, t);
    RawLeads(q, kind, n[Width(n)..], t);
  }

  /** The part of a property in front of its value. */
  lemma EqualsLeads(found: bool, p: PropertyText, t: string)
    requires IsPropertyName(p.name) && IsBlank(p.blanks1) && IsBlank(p.blanks2)
    ensures WillAbort(Body(found), p.name + (p.blanks1 + ("=" + (p.blanks2 + t)))) == WillAbort(BeforeValue(found), t)
  {
    hide IsRaw, IsBlank;
    var t3 := p.blanks2 + t;
    var t2 := "=" + t3;
    var t1 := p.blanks1 + t2;
    NamesAreReadIn(found);
    NameLeads(Body(found), InName(found), IsPropertyNameChar, p.name, t1);
    BlanksInName(found, p.blanks1, t2);
    BlanksLead(BeforeEquals(found), p.blanks1, t2);
    assert t2[1..] == t3;
    BlanksLead(BeforeValue(found), p.blanks2, t);
  }

  lemma BlanksInName(found: bool, w: string, t: string)
    requires IsBlank(w) && t != "" && t[0] == '='
    ensures WillAbort(InName(found), w + t) == WillAbort(BeforeEquals(found), w + t)
  {
    assert (w + t)[0] == if w == "" then '=' else w[0];
    assert !Dangling(w + t);
  }

  lemma ValueLeads(found: bool, v: string, t: string)
    requires EndsValue(v, t) && t != ""
    ensures WillAbort(BeforeValue(found), v + t) == WillAbort(Body(true), t)
  {
    hide IsRaw, Asserts, CutOff, PlaceAfter;
    if v == "" {
      assert v + t == t;
      NoValueHere(In(t, false, false, false), found);
    } else {
      NamesAreReadIn(found);
      ValueStartsIn(found, v, t);
      ValueEnds(In(t, false, false, false));
    }
  }

  /** An unfinished value as well leads to where values are read. */
  lemma ValueStartsIn(found: bool, v: string, t: string)
    requires IsPropertyValue(v)
    ensures WillAbort(BeforeValue(found), v + t) == WillAbort(InValue, t)
  {
    hide Asserts;
    WidthInFront(v, t);
    RawLeads(InValue, IsPropertyValueChar, v[Width(v)..], t);
  }

  lemma {:induction false} PropertiesLead(found: bool, ps: seq<PropertyText>, t: string)
    requires ArePropertyTexts(ps, t) && t != ""
    ensures WillAbort(Body(found), PropertiesString(ps) + t) == WillAbort(Body(found || ps != []), t)
    decreases |ps|
  {
    hide WillAbort, IsPropertyName, IsFiller, EndsValue;
    if ps == [] {
      assert PropertiesString(ps) + t == t;
    } else {
      var p, more := ps[0], PropertiesString(ps[1..]) + t;
      var t4 := p.value + (p.after + more);
      assert PropertiesString(ps) + t == p.name + (p.blanks1 + ("=" + (p.blanks2 + t4)));
      EqualsLeads(found, p, t4);
      ValueLeads(found, p.value, p.after + more);
      FillerLeads(Body(true), p.after, more);
      PropertiesLead(true, ps[1..], t);
    }
  }

  lemma SectionLeads(x: SectionText, t: string)
    requires IsSectionName(x.name) && IsFiller(x.after) && ArePropertyTexts(x.properties, t) && t != ""
    ensures WillAbort(Top, SectionString(x) + t) == WillAbort(Body(x.properties != []), t)
  {
    hide IsRaw, IsFiller, ArePropertyTexts, PropertiesString;
    var t4 := PropertiesString(x.properties) + t;
    var t3 := x.after + t4;
    var t2 := "]" + t3;
    var t1 := x.name + t2;
    assert SectionString(x) + t == "[" + t1 && ("[" + t1)[1..] == t1 && t2[1..] == t3;
    NamesAreReadIn(false);
    NameLeads(Opening, InSectionName, IsSectionNameChar, x.name, t2);
    FillerLeads(Body(false), x.after, t4);
    PropertiesLead(false, x.properties, t);
  }

  /** Whole sections lead to the end of a body. */
  lemma {:induction false} SectionsLead(ss: seq<SectionText>, t: string)
    requires AreSectionTexts(ss, t) && t != "" && (t[0] == '[' || IsCommentStart(t[0]))
    ensures WillAbort(Top, SectionsString(ss) + t) == WillAbort(if ss == [] then Top else Body(true), t)
    decreases |ss|
  {
    hide WillAbort, SectionString, ArePropertyTexts, IsFiller, IsSectionName;
    if ss == [] {
      assert SectionsString(ss) + t == t;
    } else {
      var more := SectionsString(ss[1..]) + t;
      FirstSection(ss, t);
      SectionLeads(ss[0], more);
      SectionsLead(ss[1..], t);
      if ss[1..] == [] {
        assert more == t;
      } else {
        SectionStringStarts(ss[1], SectionsString(ss[2..]) + t);
        FirstSection(ss[1..], t);
        assert ss[1..][1..] == ss[2..];
        OpensAnywhere(more);
      }
    }
  }

  /** A section starts in the same way behind the properties of another one. */
  lemma OpensAnywhere(t: string)
    requires t != "" && t[0] == '['
    ensures WillAbort(Body(true), t) == WillAbort(Top, t)
  {
  }

  /** What comes first in a file: white space and comments, and whole sections. */
  lemma BeginningLeads(before: string, ss: seq<SectionText>, t: string)
    requires IsFiller(before) && AreSectionTexts(ss, t) && t != "" && (t[0] == '[' || IsCommentStart(t[0]))
    ensures Aborts(before + (SectionsString(ss) + t)) == WillAbort(if ss == [] then Top else Body(true), t)
    ensures t[0] == '[' ==> Aborts(before + (SectionsString(ss) + t)) == WillAbort(Top, t)
  {
    hide ReadSections, CutOff, PlaceAfter, IsFiller, AreSectionTexts, SectionsString;
    AbortsExactly(before + (SectionsString(ss) + t));
    FillerLeads(Top, before, SectionsString(ss) + t);
    SectionsLead(ss, t);
    if t[0] == '[' {
      OpensAnywhere(t);
    }
  }

  /** An escape that is cut off makes an assertion fail in the name of a section, but not at its start. */
  lemma CutOffInSectionName(before: string, ss: seq<SectionText>, n: string, end: string)
    requires Dangling(end) && IsFiller(before) && AreSectionTexts(ss, "[" + (n + end)) && IsRaw(n, IsSectionNameChar)
    ensures Aborts(before + (SectionsString(ss) + ("[" + (n + end)))) <==> n != ""
  {
    hide Aborts, IsRaw, IsFiller, AreSectionTexts, SectionsString;
    var t := "[" + (n + end);
    BeginningLeads(before, ss, t);
    assert t[1..] == n + end;
    if n == "" {
      assert n + end == end;
      assert PlaceAfter(Top, t) == PlaceAfter(Opening, end) == Opening;
    } else {
      NamesAreReadIn(false);
      NameLeads(Opening, InSectionName, IsSectionNameChar, n, end);
    }
  }

  /** In a comment it does not. */
  lemma CutOffInComment(before: string, ss: seq<SectionText>, comment: string, end: string)
    requires Dangling(end) && IsFiller(before) && AreSectionTexts(ss, comment + end) && IsLastComment(comment)
    ensures !Aborts(before + (SectionsString(ss) + (comment + end)))
  {
    hide Aborts, IsRaw, IsFiller, AreSectionTexts, SectionsString;
    BeginningLeads(before, ss, comment + end);
    CommentLeads(if ss == [] then Top else Body(true), comment, end);
  }

  /** In the name of a property it does, even at its start. */
  lemma CutOffInPropertyName(before: string, ss: seq<SectionText>, x: SectionText, n: string, end: string)
    requires Dangling(end) && IsFiller(before) && AreSectionTexts(ss, SectionString(x) + (n + end))
    requires IsSectionName(x.name) && IsFiller(x.after) && ArePropertyTexts(x.properties, n + end)
    requires IsRaw(n, IsPropertyNameChar)
    ensures Aborts(before + (SectionsString(ss) + (SectionString(x) + (n + end))))
  {
    hide Aborts, IsRaw, IsFiller, AreSectionTexts, SectionsString, ArePropertyTexts, SectionString, IsSectionName;
    SectionStringStarts(x, n + end);
    BeginningLeads(before, ss, SectionString(x) + (n + end));
    SectionLeads(x, n + end);
    var found := x.properties != [];
    if n == "" {
      assert n + end == end;
    } else {
      NamesAreReadIn(found);
      NameLeads(Body(found), InName(found), IsPropertyNameChar, n, end);
    }
  }

  /** And so it does in the value of a property. */
  lemma CutOffInPropertyValue(before: string, ss: seq<SectionText>, x: SectionText, p: PropertyText, v: string,
                              end: string)
    requires Dangling(end) && IsFiller(before) && (v == "" || IsPropertyValue(v))
    requires IsPropertyName(p.name) && IsBlank(p.blanks1) && IsBlank(p.blanks2)
    requires var u := p.name + (p.blanks1 + ("=" + (p.blanks2 + (v + end))));
             && AreSectionTexts(ss, SectionString(x) + u)
             && IsSectionName(x.name) && IsFiller(x.after) && ArePropertyTexts(x.properties, u)
    ensures Aborts(before + (SectionsString(ss)
              + (SectionString(x) + (p.name + (p.blanks1 + ("=" + (p.blanks2 + (v + end))))))))
  {
    hide Aborts, IsPropertyValue, IsFiller, AreSectionTexts, SectionsString, ArePropertyTexts, SectionString,
         IsSectionName, IsPropertyName;
    var u := p.name + (p.blanks1 + ("=" + (p.blanks2 + (v + end))));
    SectionStringStarts(x, u);
    BeginningLeads(before, ss, SectionString(x) + u);
    SectionLeads(x, u);
    var found := x.properties != [];
    EqualsLeads(found, p, v + end);
    if v == "" {
      assert v + end == end;
    } else {
      ValueStartsIn(found, v, end);
    }
  }

  /** Such a file: a backslash ends the value of its only property. */
  lemma CutOffFile()
    ensures Aborts("[s]\na = b\\")
  {
    hide Aborts;
    var x, p := SectionText("s", "\n", []), PropertyText("a", " ", " ", "", "");
    assert IsRaw("s", IsSectionNameChar) && IsRaw("a", IsPropertyNameChar) && IsRaw("b", IsPropertyValueChar);
    assert IsFiller("\n");
    CutOffInPropertyValue("", [], x, p, "b", "\\");
    assert "[s]\na = b\\" == "" + (SectionsString([]) + (SectionString(x)
        + (p.name + (p.blanks1 + ("=" + (p.blanks2 + ("b" + "\\")))))));
  }

  // ----- Continued lines

  /** A line that is continued is not read as if the backslash and the newline had never been there, unless
      the next line starts with the character in front of the backslash: the first character of that line
      is dropped, and the other one is read once more. */
  lemma ContinuedLine(s: In, before: char, next: char, t: string)
    requires Good(s) && s.rest == "\\\n" + ([next] + t)
    ensures ReadNextChar(s, before) == ReadNextChar(s.(rest := [next] + t), before)
       <==> next == before && next != '\\'
  {
    hide ReadNextChar;
    assert s.rest[3..] == t && ([next] + t)[1..] == t;
  }

  lemma {:induction false} ReadWhileKeeps(s: In, kind: char -> bool, text: string, c: char, peeked: bool)
    ensures text <= ReadWhile(s, kind, text, c, peeked).1
    decreases |s.rest|
  {
    hide ReadNextChar;
    if Good(s) && s.rest != "" && kind(s.rest[0]) {
      var (s1, ok, d) := ReadNextChar(s, if peeked then s.rest[0] else c);
      if ok {
        ReadWhileKeeps(s1, kind, text + [d], d, peeked);
      }
    }
  }

  lemma ContinuedHere(s: In, kind: char -> bool, text: string, c: char, peeked: bool, next: char, t: string)
    requires Good(s) && kind('\\') && next != '\\'
    ensures var broken := ReadWhile(s.(rest := "\\\n" + ([next] + t)), kind, text, c, peeked);
            var joined := ReadWhile(s.(rest := [next] + t), kind, text, c, peeked);
            (broken == joined <==> !peeked && kind(next) && next == c) && text < broken.1
  {
    hide ReadNextChar;
    var s0, s1 := s.(rest := "\\\n" + ([next] + t)), s.(rest := [next] + t);
    assert s0.rest[3..] == t && s1.rest[1..] == t;
    var d := if peeked then '\\' else c;
    ReadWhileKeeps(s.(rest := t), kind, text + [d], d, peeked);
    assert ReadWhile(s0, kind, text, c, peeked) == ReadWhile(s.(rest := t), kind, text + [d], d, peeked);
    if kind(next) {
      ReadWhileKeeps(s.(rest := t), kind, text + [next], next, peeked);
      assert ReadWhile(s1, kind, text, c, peeked) == ReadWhile(s.(rest := t), kind, text + [next], next, peeked);
      assert d != next ==> (text + [d])[|text|] != (text + [next])[|text|];
    } else {
      assert ReadWhile(s1, kind, text, c, peeked).1 == text;
    }
  }

  /** The rest of a name or value after a continued line, and the same without the line break. */
  lemma ContinuedWhile(s: In, kind: char -> bool, text: string, c: char, peeked: bool, w: string, next: char, t: string)
    requires Good(s) && IsRaw(w, kind) && kind('\\') && next != '\\'
    ensures var broken := ReadWhile(s.(rest := w + ("\\\n" + ([next] + t))), kind, text, c, peeked);
            var joined := ReadWhile(s.(rest := w + ([next] + t)), kind, text, c, peeked);
            (broken == joined <==> !peeked && kind(next) && next == LastChar(w, c, peeked)) && text < broken.1
  {
    hide ReadWhile, LastChar, Meaning;
    var u0, u1 := "\\\n" + ([next] + t), [next] + t;
    ReadWhileOn(s.(rest := w + u0), kind, text, c, peeked, w, u0);
    ReadWhileOn(s.(rest := w + u1), kind, text, c, peeked, w, u1);
    ContinuedHere(s, kind, text + Meaning(w, c, peeked), LastChar(w, c, peeked), peeked, next, t);
  }

  /** Reading a name or value is the same as reading on from an empty one. */
  lemma ReadFromStart(s: In, kind: char -> bool, peeked: bool)
    requires Good(s) && s.rest != "" && kind(s.rest[0])
    ensures var (s1, ok, d) := ReadNextChar(s, if peeked then s.rest[0] else '\0');
            ReadWhile(Assert(s1, ok), kind, [d], d, peeked) == ReadWhile(s, kind, "", '\0', peeked)
  {
    hide ReadNextChar;
    var (s1, ok, d) := ReadNextChar(s, if peeked then s.rest[0] else '\0');
    assert "" + [d] == [d];
  }

  /** The value of a property that is continued is read as if joined if and only if the next line starts with
      the character in front of the backslash, and that character may stand in a value. */
  lemma ContinuedValue(s: In, w: string, next: char, t: string)
    requires Good(s) && (w == "" || IsPropertyValue(w)) && next != '\\'
    ensures ReadPropertyValue(s.(rest := w + ("\\\n" + ([next] + t))))
         == ReadPropertyValue(s.(rest := w + ([next] + t)))
       <==> IsPropertyValueChar(next) && next == LastChar(w, '\0', false)
  {
    hide ReadNextChar, ReadWhile, LastChar;
    var s0, s1 := s.(rest := w + ("\\\n" + ([next] + t))), s.(rest := w + ([next] + t));
    ContinuedWhile(s, IsPropertyValueChar, "", '\0', false, w, next, t);
    StartsWith(w, "\\\n" + ([next] + t));
    StartsWith(w, [next] + t);
    ReadFromStart(s0, IsPropertyValueChar, false);
    if w != "" || !IsDelimiter(next) {
      ReadFromStart(s1, IsPropertyValueChar, false);
    } else {
      NothingMeant('\0');
    }
  }

  lemma StartsWith(w: string, t: string)
    requires t != ""
    ensures w + t != "" && (w + t)[0] == if w == "" then t[0] else w[0]
  {
  }

  lemma NothingMeant(c: char)
    ensures LastChar("", c, false) == c
  {
  }

  /** So it is with the name of a section. */
  lemma ContinuedSectionName(s: In, w: string, next: char, t: string)
    requires Good(s) && IsRaw(w, IsSectionNameChar) && next != '\\'
    ensures ReadSectionName(s.(rest := w + ("\\\n" + ([next] + t))))
         == ReadSectionName(s.(rest := w + ([next] + t)))
       <==> IsSectionNameChar(next) && next == LastChar(w, '\0', false)
  {
    hide ReadNextChar, ReadWhile, LastChar;
    var s0, s1 := s.(rest := w + ("\\\n" + ([next] + t))), s.(rest := w + ([next] + t));
    ContinuedWhile(s, IsSectionNameChar, "", '\0', false, w, next, t);
    StartsWith(w, "\\\n" + ([next] + t));
    StartsWith(w, [next] + t);
    NotCutOffHere(w, "\\\n" + ([next] + t));
    assert ([next] + t)[0] == next;
    NotCutOffHere(w, [next] + t);
    ReadFromStart(s0, IsSectionNameChar, false);
    if w != "" || IsSectionNameChar(next) {
      ReadFromStart(s1, IsSectionNameChar, false);
    }
  }

  lemma NotCutOffHere(w: string, t: string)
    requires IsRaw(w, IsSectionNameChar) && t != "" && !Dangling(t)
    ensures !Dangling(w + t)
  {
    if w != "" {
      WidthInFront(w, t);
    } else {
      assert w + t == t;
    }
  }

  /** The name of a property that is continued is never read as if joined: what is read once more is the
      backslash itself. */
  lemma ContinuedPropertyName(s: In, w: string, next: char, t: string)
    requires Good(s) && IsRaw(w, IsPropertyNameChar) && next != '\\'
    ensures ReadPropertyName(s.(rest := w + ("\\\n" + ([next] + t))))
         != ReadPropertyName(s.(rest := w + ([next] + t)))
  {
    hide ReadNextChar, ReadWhile;
    var s0, s1 := s.(rest := w + ("\\\n" + ([next] + t))), s.(rest := w + ([next] + t));
    ContinuedWhile(s, IsPropertyNameChar, "", '\0', true, w, next, t);
    StartsWith(w, "\\\n" + ([next] + t));
    StartsWith(w, [next] + t);
    ReadFromStart(s0, IsPropertyNameChar, true);
    if w != "" || IsPropertyNameChar(next) {
      ReadFromStart(s1, IsPropertyNameChar, true);
    }
  }
}
