/** Properties files as people write them: what every line means, and that files with comments, empty lines and
    blanks load to their properties. */
module PropertyLines {
  import opened PropertiesSpec

  /** Names are made of these characters, at most 98 of them; values of printable ones, at most 498. */
  lemma LimitsAre(c: char, name: string, value: string)
    ensures IsValidNameChar(c) <==>
      65 <= c as int <= 90 || 97 <= c as int <= 122 || 48 <= c as int <= 57 || c == '_' || c == '-' || c == '.'
    ensures CanonicalName(name) <==> 1 <= |name| <= 98 && forall i :: 0 <= i < |name| ==> IsValidNameChar(name[i])
    ensures CanonicalValue(value) <==>
      |value| <= 498 && (forall i :: 0 <= i < |value| ==> 32 <= value[i] as int <= 126)
      && (value != "" ==> value[0] !in {' ', '='} && value[|value| - 1] != ' ')
  {
  }

  /** A line as people write it: a comment, an empty line, or a property with blanks around name and value. `dos`
      tells that there is a carriage return in front of the line feed. */
  datatype FileLine =
    | Comment(indent: string, text: string, dos: bool)
    | Empty(indent: string, dos: bool)
    | Entry(indent: string, name: string, sign: string, value: string, blanks: nat, dos: bool)

  function Spaces(n: nat): (s: string)
    ensures |s| == n && forall i :: 0 <= i < n ==> s[i] == ' '
  {
    seq(n, _ => ' ')
  }

  function EndOfLine(dos: bool): string {
    if dos then "\r\n" else "\n"
  }

  function TextOf(l: FileLine): string {
    match l
    case Comment(indent, text, dos) => indent + ("#" + (text + EndOfLine(dos)))
    case Empty(indent, dos) => indent + EndOfLine(dos)
    case Entry(indent, name, sign, value, blanks, dos) =>
      indent + (name + (sign + (value + (Spaces(blanks) + EndOfLine(dos)))))
  }

  /** All characters of the text are among these. */
  predicate MadeOf(text: string, chars: set<char>) {
    forall i | 0 <= i < |text| :: text[i] in chars
  }

  /** Between name and value there are blanks and equal signs; there need be none if there is no value. */
  ghost predicate GoodLine(l: FileLine) {
    && MadeOf(l.indent, {' ', '\t'})
    && match l
       case Comment(_, text, _) => '\n' !in text
       case Empty(_, _) => true
       case Entry(_, name, sign, value, blanks, _) =>
         && CanonicalName(name) && CanonicalValue(value) && MadeOf(sign, {' ', '\t', '='})
         && (if value == "" then blanks == 0 else sign != "" && |value| + blanks <= 498)
  }

  function FileOf(lines: seq<FileLine>): string {
    if lines == [] then "" else TextOf(lines[0]) + FileOf(lines[1..])
  }

  /** The properties of the lines; of several with the same name the first one counts. */
  function PropertiesOf(props: seq<Property>, lines: seq<FileLine>): seq<Property>
    decreases |lines|
  {
    if lines == [] then props
    else if !lines[0].Entry? || exists i :: 0 <= i < |props| && props[i].name == lines[0].name then
      PropertiesOf(props, lines[1..])
    else PropertiesOf(props + [Property(lines[0].name, lines[0].value)], lines[1..])
  }

  /** Characters that a phase skips. */
  lemma {:induction false} Skips(s: Parser, text: string, chars: set<char>)
    requires forall c :: c in chars ==> Parse(s, c) == Accepted(s)
    requires MadeOf(text, chars)
    ensures ParseAll(s, text) == Accepted(s)
    decreases |text|
  {
    if text != "" { Skips(s, text[1..], chars); }
  }

  lemma {:induction false} SkipsComment(s: Parser, text: string)
    requires s.phase == IgnoreComment && '\n' !in text
    ensures ParseAll(s, text) == Accepted(s)
    decreases |text|
  {
    if text != "" { SkipsComment(s, text[1..]); }
  }

  lemma EndsLine(s: Parser, dos: bool)
    ensures ParseAll(s, EndOfLine(dos)) == Parse(s, '\n')
  {
    assert ParseAll(s, "\n") == Parse(s, '\n');
    if dos {
      assert "\r\n"[1..] == "\n";
      assert Parse(s, '\r') == Accepted(s);
    }
  }

  /** What comes behind an accepted text. */
  lemma Then(s: Parser, a: string, t: Parser, b: string)
    requires ParseAll(s, a) == Accepted(t)
    ensures ParseAll(s, a + b) == ParseAll(t, b)
  {
    ParseAppend(s, a, b);
  }

  lemma EntryIsRead(line: nat, props: seq<Property>, l: FileLine)
    requires l.Entry? && GoodLine(l)
    ensures ParseAll(AtLineStart(line, props), TextOf(l))
      == Accepted(AtLineStart(line + 1, AddProperty(props, Property(l.name, l.value))))
  {
    var s := AtLineStart(line, props);
    var rest := l.sign + (l.value + (Spaces(l.blanks) + EndOfLine(l.dos)));
    Skips(s, l.indent, {' ', '\t'});
    Then(s, l.indent, s, l.name + rest);
    var t := s.(phase := CopyName, name := l.name);
    NameIsRead(s, l.name);
    Then(s, l.name, t, rest);
    if l.value == "" {
      assert "" + (Spaces(0) + EndOfLine(l.dos)) == EndOfLine(l.dos);
      NoValueIsRead(t, l.sign, l.dos);
    } else {
      SignIsRead(t, l.sign);
      Then(t, l.sign, t.(phase := WaitForValue), l.value + (Spaces(l.blanks) + EndOfLine(l.dos)));
      ValueIsRead(t.(phase := WaitForValue), l.value, l.blanks, l.dos);
    }
  }

  lemma NameIsRead(s: Parser, name: string)
    requires s.phase == WaitForName && CanonicalName(name)
    ensures ParseAll(s, name) == Accepted(s.(phase := CopyName, name := name))
  {
    var t := s.(phase := CopyName, name := [name[0]]);
    assert Parse(s, name[0]) == Accepted(t);
    ParseName(t, name[1..]);
    assert [name[0]] + name[1..] == name;
  }

  lemma SignIsRead(s: Parser, sign: string)
    requires s.phase == CopyName && sign != "" && MadeOf(sign, {' ', '\t', '='})
    ensures ParseAll(s, sign) == Accepted(s.(phase := WaitForValue))
  {
    var t := s.(phase := WaitForValue);
    assert Parse(s, sign[0]) == Accepted(t);
    Skips(t, sign[1..], {' ', '\t', '='});
  }

  lemma NoValueIsRead(s: Parser, sign: string, dos: bool)
    requires s.phase == CopyName && MadeOf(sign, {' ', '\t', '='})
    ensures ParseAll(s, sign + EndOfLine(dos)) == EndLine(s, Property(s.name, ""))
  {
    if sign == "" {
      assert "" + EndOfLine(dos) == EndOfLine(dos);
      EndsLine(s, dos);
    } else {
      SignIsRead(s, sign);
      Then(s, sign, s.(phase := WaitForValue), EndOfLine(dos));
      EndsLine(s.(phase := WaitForValue), dos);
    }
  }

  lemma ValueIsRead(s: Parser, value: string, blanks: nat, dos: bool)
    requires s.phase == WaitForValue && CanonicalValue(value) && value != "" && |value| + blanks <= 498
    ensures ParseAll(s, value + (Spaces(blanks) + EndOfLine(dos))) == EndLine(s, Property(s.name, value))
  {
    var whole := value + Spaces(blanks);
    var t := s.(phase := CopyValue, value := [whole[0]]);
    var u := s.(phase := CopyValue, value := whole);
    assert value + (Spaces(blanks) + EndOfLine(dos)) == whole + EndOfLine(dos);
    assert Parse(s, whole[0]) == Accepted(t);
    ParseValue(t, whole[1..]);
    assert [whole[0]] + whole[1..] == whole;
    assert ParseAll(s, whole) == Accepted(u);
    Then(s, whole, u, EndOfLine(dos));
    EndsLine(u, dos);
    BlanksAreTrimmed(value, blanks);
  }

  lemma {:induction false} BlanksAreTrimmed(value: string, blanks: nat)
    requires value != "" && value[|value| - 1] != ' ' && value[|value| - 1] != '\t'
    ensures Trimmed(value + Spaces(blanks)) == value
    decreases blanks
  {
    if blanks == 0 {
      assert value + Spaces(0) == value;
    } else {
      assert (value + Spaces(blanks))[..|value| + blanks - 1] == value + Spaces(blanks - 1);
      BlanksAreTrimmed(value, blanks - 1);
    }
  }

  lemma OtherLineIsRead(line: nat, props: seq<Property>, l: FileLine)
    requires !l.Entry? && GoodLine(l)
    ensures ParseAll(AtLineStart(line, props), TextOf(l)) == Accepted(AtLineStart(line + 1, props))
  {
    var s := AtLineStart(line, props);
    Skips(s, l.indent, {' ', '\t'});
    match l
    case Empty(indent, dos) =>
      Then(s, indent, s, EndOfLine(dos));
      EndsLine(s, dos);
    case Comment(indent, text, dos) =>
      var t := s.(phase := IgnoreComment);
      Then(s, indent, s, "#" + (text + EndOfLine(dos)));
      assert ParseAll(s, "#") == Parse(s, '#');
      Then(s, "#", t, text + EndOfLine(dos));
      SkipsComment(t, text);
      Then(t, text, t, EndOfLine(dos));
      EndsLine(t, dos);
  }

  lemma {:induction false} LinesAreRead(line: nat, props: seq<Property>, lines: seq<FileLine>)
    requires forall i :: 0 <= i < |lines| ==> GoodLine(lines[i])
    ensures ParseAll(AtLineStart(line, props), FileOf(lines))
      == Accepted(AtLineStart(line + |lines|, PropertiesOf(props, lines)))
    decreases |lines|
  {
    if lines != [] {
      var l, rest := lines[0], FileOf(lines[1..]);
      var next := if l.Entry? then AddProperty(props, Property(l.name, l.value)) else props;
      if l.Entry? { EntryIsRead(line, props, l); } else { OtherLineIsRead(line, props, l); }
      Then(AtLineStart(line, props), TextOf(l), AtLineStart(line + 1, next), rest);
      LinesAreRead(line + 1, next, lines[1..]);
      assert PropertiesOf(props, lines) == PropertiesOf(next, lines[1..]);
    }
  }

  /** A file with comments, empty lines, blanks around names and values, and line ends of either kind loads to the
      properties in it. */
  lemma FileIsLoaded(lines: seq<FileLine>)
    requires forall i :: 0 <= i < |lines| ==> GoodLine(lines[i])
    ensures Load(INITIAL, FileOf(lines)) == Accepted(AtLineStart(|lines| + 2, PropertiesOf([], lines)))
  {
    LinesAreRead(1, [], lines);
    Then(INITIAL, FileOf(lines), AtLineStart(|lines| + 1, PropertiesOf([], lines)), "\n");
    EndsLine(AtLineStart(|lines| + 1, PropertiesOf([], lines)), false);
  }

  /** A saved file is one such line for every property, the name, an equal sign and the value. */
  lemma {:induction false} SavedIs(props: seq<Property>, p: Property)
    ensures Save([]) == "" && Save(props + [p]) == Save(props) + (p.name + "=" + p.value + "\n")
    decreases |props|
  {
    if props == [] {
      assert ([] + [p])[1..] == [];
    } else {
      assert (props + [p])[1..] == props[1..] + [p];
      SavedIs(props[1..], p);
    }
  }
}
