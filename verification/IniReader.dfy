/** The reader and the writer of configuration files as the program has them: a stream with a position, and
    loops that move it. */
module IniReader {
  import opened Options
  import opened Ini
  import opened IniRoundTrip
  import opened IniWriter

  class ReadContext {
    const text: string
    var pos: nat
    var eof: bool
    var fail: bool
    var aborted: bool

    constructor (text: string)
      ensures Valid() && Value() == In(text, false, false, false)
    {
      this.text := text;
      pos, eof, fail, aborted := 0, false, false, false;
    }

    ghost predicate Valid()
      reads this
    {
      pos <= |text|
    }

    ghost function Value(): In
      requires Valid()
      reads this
    {
      In(text[pos..], eof, fail, aborted)
    }

    // ----- The stream

    predicate StreamGood()
      reads this
    {
      !eof && !fail
    }

    method Peek() returns (c: Option<char>)
      requires Valid()
      modifies this
      ensures Valid() && (Value(), c) == Ini.Peek(old(Value()))
      ensures c.Some? ==> Value() == old(Value()) && Value().rest != "" && c.value == Value().rest[0] && Good(Value())
    {
      if !StreamGood() {
        fail := true;
        c := None;
      } else if pos == |text| {
        eof := true;
        c := None;
      } else {
        c := Some(text[pos]);
      }
    }

    method Get() returns (c: Option<char>)
      requires Valid()
      modifies this
      ensures Valid() && (Value(), c) == Ini.Get(old(Value()))
    {
      if !StreamGood() {
        fail := true;
        c := None;
      } else if pos == |text| {
        eof, fail := true, true;
        c := None;
      } else {
        c := Some(text[pos]);
        pos := pos + 1;
      }
    }

    /** What happens when the program asserts something about its reading. */
    method Assert(ok: bool)
      requires Valid()
      modifies this
      ensures Valid() && Value() == Ini.Assert(old(Value()), ok)
    {
      if !ok {
        aborted := true;
      }
    }

    // ----- Reading characters

    method ReadNextChar(before: char) returns (ok: bool, c: char)
      requires Valid()
      modifies this
      ensures Valid() && (Value(), ok, c) == Ini.ReadNextChar(old(Value()), before)
    {
      c := before;
      var b := Get();
      if b.None? {
        return false, c;
      }
      if b.value == '\\' {
        b := Get();
        if b.None? {
          return false, c;
        }
        match b.value
        case '0' => c := ' ';
        case 'a' => c := ' ';
        case 'b' => c := ' ';
        case 'r' => c := ' ';
        case 't' => c := '\t';
        case '\n' =>
          b := Get();
          if b.None? {
            return false, c;
          }
        case other => c := other;
      } else {
        c := b.value;
      }
      ok := true;
    }

    method SkipLine() returns (ok: bool)
      requires Valid()
      modifies this
      ensures Valid() && Value() == Ini.SkipLine(old(Value()), '\0')
    {
      var c := '\0';
      var isOk;
      isOk, c := ReadNextChar(c);
      while isOk
        invariant Valid()
        invariant Ini.SkipLine(old(Value()), '\0') == if isOk && c != '\n' then Ini.SkipLine(Value(), c) else Value()
        decreases |Value().rest|, isOk
      {
        if c == '\n' {
          break;
        }
        isOk, c := ReadNextChar(c);
      }
      ok := c == '\n' || eof;
    }

    method SkipWhiteSpaces() returns (ok: bool)
      requires Valid()
      modifies this
      ensures Valid() && Value() == Ini.SkipWhiteSpaces(old(Value())) && ok == Fine(Value())
    {
      var c := Peek();
      while c.Some?
        invariant Valid() && (c.Some? ==> Ini.Peek(Value()) == (Value(), c))
        invariant Ini.SkipWhiteSpaces(old(Value())) == if c.Some? then Ini.SkipWhiteSpaces(Value()) else Value()
        decreases |Value().rest|, c.Some?
      {
        if IsWhite(c.value) {
          var read, _ := ReadNextChar(c.value);
          Assert(read);
        } else {
          break;
        }
        c := Peek();
      }
      ok := StreamGood() || eof;
    }

    method SkipComments() returns (ok: bool)
      requires Valid()
      modifies this
      ensures Valid() && Value() == Ini.SkipComments(old(Value())) && ok == Fine(Value())
    {
      var c := Peek();
      while c.Some?
        invariant Valid() && (c.Some? ==> Ini.Peek(Value()) == (Value(), c))
        invariant Ini.SkipComments(old(Value())) == if c.Some? then Ini.SkipComments(Value()) else Value()
        decreases |Value().rest|, c.Some?
      {
        if IsCommentStart(c.value) {
          var _ := SkipLine();
        } else {
          break;
        }
        c := Peek();
      }
      ok := StreamGood() || eof;
    }

    method SkipWhiteSpacesOrComments() returns (ok: bool)
      requires Valid()
      modifies this
      ensures Valid() && Value() == Ini.SkipWhiteSpacesOrComments(old(Value())) && ok == Fine(Value())
    {
      var more := true;
      while StreamGood() && more
        invariant Valid()
        invariant Ini.SkipWhiteSpacesOrComments(old(Value()))
            == if more then Ini.SkipWhiteSpacesOrComments(Value()) else Value()
        decreases |Value().rest|, more
      {
        var b := Peek();
        if b.Some? && IsWhite(b.value) {
          var _ := SkipWhiteSpaces();
        } else if b.Some? && IsCommentStart(b.value) {
          var _ := SkipComments();
        } else {
          more := false;
        }
      }
      ok := StreamGood() || eof;
    }

    /** The loop that the readers of names and values have in common. */
    method ReadWhile(kind: char -> bool, start: string, c0: char, peeked: bool) returns (t: string)
      requires Valid()
      modifies this
      ensures Valid() && (Value(), t) == Ini.ReadWhile(old(Value()), kind, start, c0, peeked)
    {
      t := start;
      var c := c0;
      var b := Peek();
      while b.Some?
        invariant Valid() && (b.Some? ==> Ini.Peek(Value()) == (Value(), b))
        invariant Ini.ReadWhile(old(Value()), kind, start, c0, peeked)
               == if b.Some? then Ini.ReadWhile(Value(), kind, t, c, peeked) else (Value(), t)
        decreases |Value().rest|, b.Some?
      {
        if !kind(b.value) {
          break;
        }
        var read;
        read, c := ReadNextChar(if peeked then b.value else c);
        Assert(read);
        t := t + [c];
        b := Peek();
      }
    }

    // ----- Reading properties and sections

    method ReadPropertyName() returns (name: Option<string>)
      requires Valid()
      modifies this
      ensures Valid() && (Value(), name) == Ini.ReadPropertyName(old(Value()))
    {
      var b := Peek();
      if b.None? || !IsPropertyNameChar(b.value) {
        return None;
      }
      var read, c := ReadNextChar(b.value);
      Assert(read);
      var t := ReadWhile(IsPropertyNameChar, [c], c, true);
      return Some(t);
    }

    method ReadPropertyValue() returns (value: Option<string>)
      requires Valid()
      modifies this
      ensures Valid() && (Value(), value) == Ini.ReadPropertyValue(old(Value()))
    {
      var b := Peek();
      if b.None? {
        return None;
      }
      if IsDelimiter(b.value) {
        return Some("");
      }
      var read, c := ReadNextChar('\0');
      Assert(read);
      var t := ReadWhile(IsPropertyValueChar, [c], c, false);
      return Some(t);
    }

    method ReadSectionName() returns (name: Option<string>)
      requires Valid()
      modifies this
      ensures Valid() && (Value(), name) == Ini.ReadSectionName(old(Value()))
    {
      var b := Peek();
      if b.None? || !IsSectionNameChar(b.value) {
        return None;
      }
      var read, c := ReadNextChar('\0');
      Assert(read || IsSectionNameChar(b.value));
      var t := ReadWhile(IsSectionNameChar, [c], c, false);
      return Some(t);
    }

    method ReadProperty() returns (property: Option<Property>)
      requires Valid()
      modifies this
      ensures Valid() && (Value(), property) == Ini.ReadProperty(old(Value()))
    {
      hide Ini.ReadPropertyName, Ini.ReadPropertyValue, Ini.SkipWhiteSpaces, Ini.ReadNextChar, Onward;
      var name := ReadPropertyName();
      if name.None? {
        return None;
      }
      var _ := SkipWhiteSpaces();
      if !StreamGood() {
        return None;
      }
      var read, c := ReadNextChar('\0');
      if !read || c != '=' {
        return None;
      }
      var _ := SkipWhiteSpaces();
      if !StreamGood() {
        return None;
      }
      var value := ReadPropertyValue();
      if value.None? {
        return None;
      }
      return Some(Property(name.value, value.value));
    }

    method ReadSection() returns (section: Option<Section>)
      requires Valid()
      modifies this
      ensures Valid() && (Value(), section) == Ini.ReadSection(old(Value()))
    {
      hide Ini.ReadSectionName, Ini.ReadProperties, Ini.SkipWhiteSpaces, Ini.SkipWhiteSpacesOrComments,
           Ini.ReadNextChar, Onward;
      var b := Peek();
      if b.None? {
        return None;
      }
      if b.value == '[' {
        var read, c := ReadNextChar('\0');
        Assert(read && c == '[');
      }
      var name := ReadSectionName();
      if name.None? {
        return None;
      }
      var fine := SkipWhiteSpaces();
      if !fine {
        return None;
      }
      var read, c := ReadNextChar('\0');
      if !read || c != ']' {
        return None;
      }
      fine := SkipWhiteSpacesOrComments();
      if !fine {
        return None;
      }
      var properties := ReadProperties();
      if |properties| != 0 {
        return Some(Section(name.value, properties));
      }
      return None;
    }

    /** The loop over the properties of a section. */
    method ReadProperties() returns (properties: seq<Property>)
      requires Valid()
      modifies this
      ensures Valid() && (Value(), properties) == Ini.ReadProperties(old(Value()), [])
    {
      hide Ini.ReadProperty, Ini.SkipWhiteSpacesOrComments;
      properties := [];
      var property := ReadProperty();
      while property.Some?
        invariant Valid()
        invariant Ini.ReadProperties(old(Value()), [])
               == if property.None? then (Value(), properties)
                  else Ini.ReadProperties(Ini.SkipWhiteSpacesOrComments(Value()), properties + [property.value])
        decreases |Value().rest|, property.Some?
      {
        properties := properties + [property.value];
        var _ := SkipWhiteSpacesOrComments();
        property := ReadProperty();
      }
    }

    /** Read all sections, up to the first one that is not well-formed. */
    method ReadSections() returns (ok: bool, sections: seq<Section>)
      requires Valid()
      modifies this
      ensures Valid() && (Value(), sections) == Ini.ReadSections(old(Value()), []) && ok == Fine(Value())
    {
      hide Ini.ReadSection, Ini.SkipWhiteSpacesOrComments;
      sections := [];
      while StreamGood()
        invariant Valid()
        invariant Ini.ReadSections(old(Value()), []) == Ini.ReadSections(Value(), sections)
        decreases |Value().rest|
      {
        ghost var before := Value();
        var _ := SkipWhiteSpacesOrComments();
        var section := ReadSection();
        if section.None? {
          assert Ini.ReadSections(before, sections) == (Value(), sections);
          ok := StreamGood() || eof;
          return;
        }
        sections := sections + [section.value];
      }
      ok := StreamGood() || eof;
    }
  }

  // ----- The writer

  class Output {
    var out: string

    constructor ()
      ensures out == ""
    {
      out := "";
    }

    method WriteProperty(p: Property)
      modifies this
      ensures out == old(out) + p.name + " = " + p.value == old(out) + WrittenProperty(p)
    {
      out := out + p.name;
      out := out + " = ";
      out := out + p.value;
      assert out == old(out) + (p.name + " = " + p.value);
    }

    method WriteSection(s: Section)
      modifies this
      ensures out == old(out) + WrittenSection(s)
    {
      out := out + "[" + s.name + "]\n";
      ghost var start := out;
      for i := 0 to |s.properties|
        invariant out == start + WrittenProperties(s.properties[..i])
      {
        assert s.properties[..i + 1][..i] == s.properties[..i];
        out := out + "  ";
        WriteProperty(s.properties[i]);
        out := out + "\n";
      }
      assert s.properties[..|s.properties|] == s.properties;
    }

    method WriteSections(sections: seq<Section>)
      modifies this
      ensures out == old(out) + WrittenSections(sections)
    {
      hide WrittenSection;
      for i := 0 to |sections|
        invariant out == old(out) + WrittenSections(sections[..i])
      {
        assert sections[..i + 1][..i] == sections[..i];
        WriteSection(sections[i]);
        out := out + "\n";
      }
      assert sections[..|sections|] == sections;
    }
  }

  /** Write a configuration and read it back. */
  method WriteAndRead(sections: seq<Section>) returns (ok: bool, read: seq<Section>)
    ensures IsConfig(sections) ==> ok && read == sections
    ensures IsOneLineEach(sections) ==> (read == sections <==> IsConfig(sections))
  {
    hide Ini.ReadSections, WrittenSections, IsConfig, IsOneLineEach;
    var output := new Output();
    output.WriteSections(sections);
    assert output.out == WrittenSections(sections);
    var context := new ReadContext(output.out);
    if IsConfig(sections) {
      WrittenIsReadBack(sections);
    }
    if IsOneLineEach(sections) {
      RoundTripExactly(sections);
    }
    ok, read := context.ReadSections();
  }
}
