/** Configuration files: the reader, as functions on what is left of a stream. */
module Ini {
  import opened Options

  datatype Property = Property(name: string, value: string)

  datatype Section = Section(name: string, properties: seq<Property>)

  // ----- Characters

  predicate IsWhite(c: char) { c == ' ' || c == '\t' || c == '\n' }

  predicate IsCommentStart(c: char) { c == ';' || c == '#' }

  predicate IsDelimiter(c: char) { c == '[' || c == ']' || c == '=' || IsWhite(c) || IsCommentStart(c) }

  predicate IsPropertyNameChar(c: char) { !IsDelimiter(c) }

  predicate IsPropertyValueChar(c: char) { c != '[' && c != ']' && c != '=' && !IsCommentStart(c) && c != '\n' }

  predicate IsSectionNameChar(c: char) { c != '[' && c != ']' && c != '\n' && !IsCommentStart(c) }

  // ----- The stream

  /** What is left to be read, the two error flags of a stream, and whether an assertion of the program has
      failed. */
  datatype In = In(rest: string, eof: bool, fail: bool, aborted: bool)

  predicate Good(s: In) { !s.eof && !s.fail }

  /** The reader is content with a stream that has come to its end. */
  predicate Fine(s: In) { Good(s) || s.eof }

  /** Looking at the end of the stream sets its end flag; looking any further is a failure. */
  function Peek(s: In): (r: (In, Option<char>))
    ensures r.1.Some? <==> Good(r.0)
  {
    if !Good(s) then (s.(fail := true), None)
    else if s.rest == "" then (s.(eof := true), None)
    else (s, Some(s.rest[0]))
  }

  function Get(s: In): (r: (In, Option<char>))
    ensures r.1.Some? <==> Good(r.0)
  {
    if !Good(s) then (s.(fail := true), None)
    else if s.rest == "" then (s.(eof := true, fail := true), None)
    else (s.(rest := s.rest[1..]), Some(s.rest[0]))
  }

  /** The reader has gone on from s to t. */
  predicate Onward(s: In, t: In) { |t.rest| <= |s.rest| }

  /** What the program asserts about its reading. */
  function Assert(s: In, ok: bool): In {
    if ok then s else s.(aborted := true)
  }

  // ----- Reading characters

  function Unescaped(c: char): char {
    if c == '0' || c == 'a' || c == 'b' || c == 'r' then ' ' else if c == 't' then '\t' else c
  }

  /** An escape that the text ends in the middle of: a backslash, or a continued line that is missing. */
  predicate Dangling(text: string) { text == "\\" || text == "\\\n" }

  /** The length of the character or escape that the text starts with.  The escape that continues a line on
      the next one takes the first character of that line with it. */
  function Width(text: string): (n: nat)
    requires text != "" && !Dangling(text)
    ensures 0 < n <= |text|
  {
    if text[0] != '\\' then 1 else if text[1] != '\n' then 2 else 3
  }

  /** What it is read as, when the caller's variable holds c. */
  function FirstChar(text: string, c: char): char
    requires text != "" && !Dangling(text)
  {
    if text[0] != '\\' then text[0] else if text[1] != '\n' then Unescaped(text[1]) else c
  }

  /** Read the next character.  The character c is what the caller's variable holds: it stays as it is when
      nothing could be read, and also when a line is continued on the next one. */
  function ReadNextChar(s: In, c: char): (r: (In, bool, char))
    ensures Good(s) && s.rest != "" && !Dangling(s.rest) ==>
              r == (s.(rest := s.rest[Width(s.rest)..]), true, FirstChar(s.rest, c))
    ensures Good(s) && (s.rest == "" || Dangling(s.rest)) ==> r == (In("", true, true, s.aborted), false, c)
    ensures !Good(s) ==> r == (s.(fail := true), false, c)
  {
    var (s1, b) := Get(s);
    if b.None? then (s1, false, c)
    else if b.value != '\\' then (s1, true, b.value)
    else
      var (s2, e) := Get(s1);
      if e.None? then (s2, false, c)
      else if e.value == '\n' then
        var (s3, dropped) := Get(s2);
        (s3, dropped.Some?, c)
      else (s2, true, Unescaped(e.value))
  }

  function SkipLine(s: In, c: char): (t: In)
    ensures Onward(s, t) && (Good(t) || t.fail)
    ensures Good(s) && s.rest != "" ==> |t.rest| < |s.rest|
    decreases |s.rest|
  {
    var (s1, ok, c1) := ReadNextChar(s, c);
    if ok && c1 != '\n' then SkipLine(s1, c1) else s1
  }

  function SkipWhiteSpaces(s: In): (t: In)
    ensures Onward(s, t)
    ensures Good(s) && s.rest != "" && IsWhite(s.rest[0]) ==> |t.rest| < |s.rest|
    decreases |s.rest|
  {
    var (s1, c) := Peek(s);
    if c.Some? && IsWhite(c.value) then
      var (s2, ok, _) := ReadNextChar(s1, c.value);
      SkipWhiteSpaces(Assert(s2, ok))
    else s1
  }

  function SkipComments(s: In): (t: In)
    ensures Onward(s, t)
    ensures Good(s) && s.rest != "" && IsCommentStart(s.rest[0]) ==> |t.rest| < |s.rest|
    decreases |s.rest|
  {
    var (s1, c) := Peek(s);
    if c.Some? && IsCommentStart(c.value) then SkipComments(SkipLine(s1, '\0')) else s1
  }

  function SkipWhiteSpacesOrComments(s: In): (t: In)
    ensures Onward(s, t)
    decreases |s.rest|
  {
    if !Good(s) then s
    else
      var (s1, b) := Peek(s);
      if b.Some? && IsWhite(b.value) then SkipWhiteSpacesOrComments(SkipWhiteSpaces(s1))
      else if b.Some? && IsCommentStart(b.value) then SkipWhiteSpacesOrComments(SkipComments(s1))
      else s1
  }

  /** Read characters of a kind.  The variable that is read into holds the last character, or else the one
      that was peeked at. */
  function ReadWhile(s: In, kind: char -> bool, text: string, c: char, peeked: bool): (r: (In, string))
    ensures Onward(s, r.0)
    decreases |s.rest|
  {
    var (s1, b) := Peek(s);
    if b.Some? && kind(b.value) then
      var (s2, ok, c2) := ReadNextChar(s1, if peeked then b.value else c);
      if ok then ReadWhile(s2, kind, text + [c2], c2, peeked)
      else (Peek(Assert(s2, false)).0, text + [c2])
    else (s1, text)
  }

  function ReadPropertyName(s: In): (r: (In, Option<string>))
    ensures Onward(s, r.0)
    ensures r.1.Some? ==> |r.0.rest| < |s.rest|
  {
    var (s1, b) := Peek(s);
    if b.None? || !IsPropertyNameChar(b.value) then (s1, None)
    else
      var (s2, ok, c) := ReadNextChar(s1, b.value);
      var (s3, name) := ReadWhile(Assert(s2, ok), IsPropertyNameChar, [c], c, true);
      (s3, Some(name))
  }

  function ReadPropertyValue(s: In): (r: (In, Option<string>))
    ensures Onward(s, r.0)
  {
    var (s1, b) := Peek(s);
    if b.None? then (s1, None)
    else if IsDelimiter(b.value) then (s1, Some(""))
    else
      var (s2, ok, c) := ReadNextChar(s1, '\0');
      var (s3, value) := ReadWhile(Assert(s2, ok), IsPropertyValueChar, [c], c, false);
      (s3, Some(value))
  }

  function ReadSectionName(s: In): (r: (In, Option<string>))
    ensures Onward(s, r.0)
  {
    var (s1, b) := Peek(s);
    if b.None? || !IsSectionNameChar(b.value) then (s1, None)
    else
      var (s2, ok, c) := ReadNextChar(s1, '\0');
      var (s3, name) := ReadWhile(s2, IsSectionNameChar, [c], c, false);
      (s3, Some(name))
  }

  // ----- Reading properties and sections

  function ReadProperty(s: In): (r: (In, Option<Property>))
    ensures Onward(s, r.0)
    ensures r.1.Some? ==> |r.0.rest| < |s.rest|
  {
    var (s1, name) := ReadPropertyName(s);
    if name.None? then (s1, None)
    else
      var s2 := SkipWhiteSpaces(s1);
      if !Good(s2) then (s2, None)
      else
        var (s3, ok, c) := ReadNextChar(s2, '\0');
        if !ok || c != '=' then (s3, None)
        else
          var s4 := SkipWhiteSpaces(s3);
          if !Good(s4) then (s4, None)
          else
            var (s5, value) := ReadPropertyValue(s4);
            (s5, if value.None? then None else Some(Property(name.value, value.value)))
  }

  function ReadProperties(s: In, properties: seq<Property>): (r: (In, seq<Property>))
    ensures Onward(s, r.0) && properties <= r.1
    ensures properties < r.1 ==> |r.0.rest| < |s.rest|
    decreases |s.rest|
  {
    var (s1, property) := ReadProperty(s);
    if property.None? then (s1, properties)
    else ReadProperties(SkipWhiteSpacesOrComments(s1), properties + [property.value])
  }

  /** Read a section from the end of its name on.  A section without properties is not a section. */
  function ReadSectionBody(s: In, name: string): (r: (In, Option<Section>))
    ensures Onward(s, r.0)
    ensures r.1.Some? ==> r.1.value.properties != [] && |r.0.rest| < |s.rest|
  {
    var s4 := SkipWhiteSpaces(s);
    if !Fine(s4) then (s4, None)
    else
      var (s5, closed, c) := ReadNextChar(s4, '\0');
      if !closed || c != ']' then (s5, None)
      else
        var s6 := SkipWhiteSpacesOrComments(s5);
        if !Fine(s6) then (s6, None)
        else
          var (s7, properties) := ReadProperties(s6, []);
          (s7, if properties == [] then None else Some(Section(name, properties)))
  }

  function ReadSection(s: In): (r: (In, Option<Section>))
    ensures Onward(s, r.0)
    ensures r.1.Some? ==> r.1.value.properties != [] && |r.0.rest| < |s.rest|
  {
    var (s1, b) := Peek(s);
    if b.None? then (s1, None)
    else
      var (s2, ok, c) := if b.value == '[' then ReadNextChar(s1, '\0') else (s1, true, '[');
      var (s3, name) := ReadSectionName(Assert(s2, ok && c == '['));
      if name.None? then (s3, None) else ReadSectionBody(s3, name.value)
  }

  function ReadSections(s: In, sections: seq<Section>): (r: (In, seq<Section>))
    ensures Onward(s, r.0)
    decreases |s.rest|
  {
    if !Good(s) then (s, sections)
    else
      var (s1, section) := ReadSection(SkipWhiteSpacesOrComments(s));
      if section.None? then (s1, sections) else ReadSections(s1, sections + [section.value])
  }
}
