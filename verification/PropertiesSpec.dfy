/** The properties file format: the character automaton that reads it and the lines that are
    written, and which property lists survive being saved and loaded again. */
module PropertiesSpec {

  datatype Property = Property(name: string, value: string)

  datatype Phase = WaitForName | CopyName | WaitForValue | CopyValue | IgnoreComment

  /** What the parser keeps between two characters: the name and the value collected so far, the
      number of the current line and the properties added. */
  datatype Parser = Parser(phase: Phase, name: string, value: string, line: nat, props: seq<Property>)

  datatype Outcome = Accepted(parser: Parser) | Rejected(parser: Parser)

  predicate IsValidNameChar(c: char) {
    'A' <= c <= 'Z' || 'a' <= c <= 'z' || '0' <= c <= '9' || c == '_' || c == '-' || c == '.'
  }

  predicate IsSet(props: seq<Property>, name: string) {
    exists i :: 0 <= i < |props| && props[i].name == name
  }

  /** A property that is set already is not replaced. */
  function AddProperty(props: seq<Property>, p: Property): seq<Property> {
    if IsSet(props, p.name) then props else props + [p]
  }

  /** A value without its trailing blanks; its first character stays. */
  function Trimmed(value: string): (t: string)
    ensures t <= value && (value != "" ==> t != "")
  {
    if |value| > 1 && (value[|value| - 1] == ' ' || value[|value| - 1] == '\t') then Trimmed(value[..|value| - 1])
    else value
  }

  /** The parser at the start of a line. */
  function AtLineStart(line: nat, props: seq<Property>): Parser {
    Parser(WaitForName, "", "", line, props)
  }

  function EndLine(s: Parser, p: Property): Outcome {
    Accepted(AtLineStart(s.line + 1, AddProperty(s.props, p)))
  }

  function Parse(s: Parser, c: char): Outcome {
    if c == '\r' then Accepted(s)
    else match s.phase
      case WaitForName =>
        if c == ' ' || c == '\t' then Accepted(s)
        else if c == '\n' then Accepted(s.(line := s.line + 1))
        else if c == '#' then Accepted(s.(phase := IgnoreComment))
        else if IsValidNameChar(c) then Accepted(s.(phase := CopyName, name := [c]))
        else Rejected(s)
      case CopyName =>
        if IsValidNameChar(c) then
          if |s.name| >= 98 then Rejected(s) else Accepted(s.(name := s.name + [c]))
        else if c == '=' || c == ' ' || c == '\t' then Accepted(s.(phase := WaitForValue))
        else if c == '\n' then EndLine(s, Property(s.name, ""))
        else Rejected(s)
      case WaitForValue =>
        if c == ' ' || c == '\t' || c == '=' then Accepted(s)
        else if c == '\n' then EndLine(s, Property(s.name, ""))
        else if ' ' < c <= '~' then Accepted(s.(phase := CopyValue, value := [c]))
        else Rejected(s)
      case CopyValue =>
        if c == '\n' then EndLine(s, Property(s.name, Trimmed(s.value)))
        else if !(' ' <= c <= '~') then Rejected(s)
        else if |s.value| >= 498 then Rejected(s)
        else Accepted(s.(value := s.value + [c]))
      case IgnoreComment =>
        if c == '\n' then Accepted(AtLineStart(s.line + 1, s.props)) else Accepted(s)
  }

  function ParseAll(s: Parser, text: string): Outcome
    decreases |text|
  {
    if text == "" then Accepted(s)
    else
      var o := Parse(s, text[0]);
      if o.Rejected? then o else ParseAll(o.parser, text[1..])
  }

  /** Loading starts with an empty list at line 1 and reads an empty line at the end; it does not
      put the automaton into its initial phase. */
  function Load(s: Parser, text: string): Outcome {
    ParseAll(s.(line := 1, props := []), text + "\n")
  }

  const INITIAL := AtLineStart(1, [])

  function Line(p: Property): string {
    p.name + "=" + p.value + "\n"
  }

  function Save(props: seq<Property>): string {
    if props == [] then "" else Line(props[0]) + Save(props[1..])
  }

  // ---------- which lists the format can hold ----------

  predicate CanonicalName(name: string) {
    1 <= |name| <= 98 && forall i | 0 <= i < |name| :: IsValidNameChar(name[i])
  }

  predicate CanonicalValue(value: string) {
    value == "" ||
    (&& |value| <= 498
     && (forall i | 0 <= i < |value| :: ' ' <= value[i] <= '~')
     && value[0] != ' ' && value[0] != '=' && value[|value| - 1] != ' ')
  }

  predicate CanonicalProperty(p: Property) {
    CanonicalName(p.name) && CanonicalValue(p.value)
  }

  /** Names are distinct, and names and values fit the format. */
  ghost predicate Canonical(props: seq<Property>) {
    && (forall i :: 0 <= i < |props| ==> CanonicalProperty(props[i]))
    && (forall i, j :: 0 <= i < j < |props| ==> props[i].name != props[j].name)
  }

  // ---------- what a parser holds is always canonical ----------

  predicate ValueInProgress(value: string) {
    && 1 <= |value| <= 498
    && (forall i | 0 <= i < |value| :: ' ' <= value[i] <= '~')
    && value[0] != ' ' && value[0] != '='
  }

  ghost predicate WellFormed(s: Parser) {
    && Canonical(s.props)
    && (s.phase in {CopyName, WaitForValue, CopyValue} ==> CanonicalName(s.name))
    && (s.phase == CopyValue ==> ValueInProgress(s.value))
    && (s.phase in {WaitForName, IgnoreComment} ==> s.name == "")
    && (s.phase != CopyValue ==> s.value == "")
  }

  lemma {:induction false} TrimmedIsCanonical(value: string)
    requires ValueInProgress(value)
    ensures CanonicalValue(Trimmed(value))
  {
    if |value| > 1 && value[|value| - 1] == ' ' {
      TrimmedIsCanonical(value[..|value| - 1]);
    }
  }

  lemma ParseKeepsWellFormed(s: Parser, c: char)
    requires WellFormed(s)
    ensures WellFormed(Parse(s, c).parser)
  {
    if s.phase == CopyValue {
      TrimmedIsCanonical(s.value);
    }
  }

  lemma {:induction false} ParseAllKeepsWellFormed(s: Parser, text: string)
    requires WellFormed(s)
    ensures WellFormed(ParseAll(s, text).parser)
    decreases |text|
  {
    if text != "" {
      ParseKeepsWellFormed(s, text[0]);
      if Parse(s, text[0]).Accepted? {
        ParseAllKeepsWellFormed(Parse(s, text[0]).parser, text[1..]);
      }
    }
  }

  lemma {:induction false} ParseAppend(s: Parser, a: string, b: string)
    ensures ParseAll(s, a + b) ==
      var o := ParseAll(s, a); if o.Rejected? then o else ParseAll(o.parser, b)
    decreases |a|
  {
    if a == "" {
      assert a + b == b;
    } else {
      assert (a + b)[1..] == a[1..] + b;
      if Parse(s, a[0]).Accepted? {
        ParseAppend(Parse(s, a[0]).parser, a[1..], b);
      }
    }
  }

  /** An accepted text yields a canonical list and leaves the automaton at the start of a line. */
  lemma AcceptedIsCanonical(s: Parser, text: string)
    requires WellFormed(s) && Load(s, text).Accepted?
    ensures var e := Load(s, text).parser;
      Canonical(e.props) && e == AtLineStart(e.line, e.props)
  {
    var s0 := s.(line := 1, props := []);
    ParseAppend(s0, text, "\n");
    ParseAllKeepsWellFormed(s0, text);
    var t := ParseAll(s0, text).parser;
    assert ParseAll(t, "\n") == Parse(t, '\n');
    ParseKeepsWellFormed(t, '\n');
  }

  // ---------- loading what was saved ----------

  lemma {:induction false} ParseName(s: Parser, rest: string)
    requires s.phase == CopyName && |s.name| + |rest| <= 98
    requires forall i :: 0 <= i < |rest| ==> IsValidNameChar(rest[i])
    ensures ParseAll(s, rest) == Accepted(s.(name := s.name + rest))
    decreases |rest|
  {
    if rest == "" {
      assert s.name + rest == s.name;
    } else {
      assert Parse(s, rest[0]) == Accepted(s.(name := s.name + [rest[0]]));
      ParseName(s.(name := s.name + [rest[0]]), rest[1..]);
      assert s.name + [rest[0]] + rest[1..] == s.name + rest;
    }
  }

  lemma {:induction false} ParseValue(s: Parser, rest: string)
    requires s.phase == CopyValue && |s.value| + |rest| <= 498
    requires forall i :: 0 <= i < |rest| ==> ' ' <= rest[i] <= '~'
    ensures ParseAll(s, rest) == Accepted(s.(value := s.value + rest))
    decreases |rest|
  {
    if rest == "" {
      assert s.value + rest == s.value;
    } else {
      assert Parse(s, rest[0]) == Accepted(s.(value := s.value + [rest[0]]));
      ParseValue(s.(value := s.value + [rest[0]]), rest[1..]);
      assert s.value + [rest[0]] + rest[1..] == s.value + rest;
    }
  }

  lemma ParseNameAndSign(line: nat, props: seq<Property>, name: string)
    requires CanonicalName(name)
    ensures ParseAll(AtLineStart(line, props), name + "=")
         == Accepted(AtLineStart(line, props).(phase := WaitForValue, name := name))
  {
    var s := AtLineStart(line, props);
    var t := s.(phase := CopyName, name := [name[0]]);
    assert Parse(s, name[0]) == Accepted(t);
    ParseName(t, name[1..]);
    assert [name[0]] + name[1..] == name;
    var u := s.(phase := CopyName, name := name);
    assert ParseAll(s, name) == Accepted(u);
    ParseAppend(s, name, "=");
    assert ParseAll(u, "=") == Parse(u, '=');
  }

  lemma ParseValueAndEnd(line: nat, props: seq<Property>, p: Property)
    requires CanonicalProperty(p)
    ensures ParseAll(AtLineStart(line, props).(phase := WaitForValue, name := p.name), p.value + "\n")
         == Accepted(AtLineStart(line + 1, AddProperty(props, p)))
  {
    var s := AtLineStart(line, props).(phase := WaitForValue, name := p.name);
    if p.value == "" {
      assert p.value + "\n" == "\n";
      assert ParseAll(s, "\n") == Parse(s, '\n');
    } else {
      var v := p.value;
      var t := s.(phase := CopyValue, value := [v[0]]);
      assert Parse(s, v[0]) == Accepted(t);
      ParseValue(t, v[1..]);
      assert [v[0]] + v[1..] == v;
      var u := s.(phase := CopyValue, value := v);
      assert ParseAll(s, v) == Accepted(u);
      ParseAppend(s, v, "\n");
      assert ParseAll(u, "\n") == Parse(u, '\n');
    }
  }

  lemma ParseLine(line: nat, props: seq<Property>, p: Property)
    requires CanonicalProperty(p)
    ensures ParseAll(AtLineStart(line, props), Line(p)) == Accepted(AtLineStart(line + 1, AddProperty(props, p)))
  {
    ParseNameAndSign(line, props, p.name);
    ParseValueAndEnd(line, props, p);
    assert Line(p) == (p.name + "=") + (p.value + "\n");
    ParseAppend(AtLineStart(line, props), p.name + "=", p.value + "\n");
  }

  lemma {:induction false} ParseSaved(line: nat, done: seq<Property>, rest: seq<Property>)
    requires Canonical(done + rest)
    ensures ParseAll(AtLineStart(line, done), Save(rest)) == Accepted(AtLineStart(line + |rest|, done + rest))
    decreases |rest|
  {
    if rest == [] {
      assert done + rest == done;
    } else {
      var all := done + rest;
      assert rest[0] == all[|done|];
      assert forall i :: 0 <= i < |done| ==> done[i] == all[i] && all[i].name != all[|done|].name;
      ParseLine(line, done, rest[0]);
      assert done + rest == (done + [rest[0]]) + rest[1..];
      ParseSaved(line + 1, done + [rest[0]], rest[1..]);
      ParseAppend(AtLineStart(line, done), Line(rest[0]), Save(rest[1..]));
    }
  }

  /** Saving a list and loading the file again gives the same list exactly when it is canonical. */
  lemma RoundTripIffCanonical(props: seq<Property>)
    ensures Load(INITIAL, Save(props)).Accepted? && Load(INITIAL, Save(props)).parser.props == props
       <==> Canonical(props)
  {
    if Canonical(props) {
      assert [] + props == props;
      ParseSaved(1, [], props);
      ParseAppend(INITIAL, Save(props), "\n");
      var t := AtLineStart(1 + |props|, props);
      assert ParseAll(t, "\n") == Parse(t, '\n');
    }
    if Load(INITIAL, Save(props)).Accepted? {
      AcceptedIsCanonical(INITIAL, Save(props));
    }
  }

  /** Every text that loads at all is, after saving what was loaded, loaded to the same list again,
      and the automaton is back in its initial phase both times. */
  lemma LoadSaveLoad(text: string)
    requires Load(INITIAL, text).Accepted?
    ensures var e := Load(INITIAL, text).parser;
      var o := Load(e, Save(e.props));
      && o.Accepted? && o.parser.props == e.props
      && e == AtLineStart(e.line, e.props) && o.parser == AtLineStart(o.parser.line, e.props)
  {
    AcceptedIsCanonical(INITIAL, text);
    var e := Load(INITIAL, text).parser;
    RoundTripIffCanonical(e.props);
    AcceptedIsCanonical(INITIAL, Save(e.props));
  }

  // ---------- loading again after a failure ----------

  /** The parser reads every text as a fresh one would. */
  ghost predicate ReadsAsFresh(s: Parser) {
    forall text :: Load(s, text) == Load(INITIAL, text)
  }

  /** A parser reads every text as a fresh one would exactly when it is at the start of a line. One
      that was left in the middle by a rejected file is not. */
  lemma ReadsAsFreshIffAtLineStart(s: Parser)
    requires WellFormed(s)
    ensures ReadsAsFresh(s) <==> s.phase == WaitForName
  {
    if s.phase == WaitForName {
      assert s.(line := 1, props := []) == INITIAL;
    } else if s.phase == IgnoreComment {
      LoadOneChar(s, 'a');
      LoadOneChar(INITIAL, 'a');
      assert Load(s, "a") != Load(INITIAL, "a");
    } else {
      LoadNothing(s);
      LoadNothing(INITIAL);
      assert Load(s, "") != Load(INITIAL, "");
    }
  }

  /** A text that is rejected in the middle of a name leaves a parser behind that does not read as a fresh
      one would. */
  lemma RejectedMidLine()
    ensures var o := Load(INITIAL, "a!");
      o.Rejected? && o.parser.phase == CopyName && WellFormed(o.parser) && !ReadsAsFresh(o.parser)
  {
    var s := INITIAL.(phase := CopyName, name := "a");
    assert ("a!" + "\n")[1..] == "!\n";
    assert Parse(INITIAL, 'a') == Accepted(s) && Parse(s, '!') == Rejected(s);
    assert ParseAll(s, "!\n") == Rejected(s);
    ReadsAsFreshIffAtLineStart(s);
  }

  lemma LoadNothing(s: Parser)
    ensures Load(s, "") == Parse(s.(line := 1, props := []), '\n')
  {
    assert "" + "\n" == "\n";
    var t := s.(line := 1, props := []);
    assert ParseAll(t, "\n") == Parse(t, '\n');
  }

  lemma LoadOneChar(s: Parser, c: char)
    ensures var o := Parse(s.(line := 1, props := []), c);
      Load(s, [c]) == if o.Rejected? then o else Parse(o.parser, '\n')
  {
    var t := s.(line := 1, props := []);
    assert ([c] + "\n")[1..] == "\n";
    var o := Parse(t, c);
    if o.Accepted? {
      assert ParseAll(o.parser, "\n") == Parse(o.parser, '\n');
    }
  }
}
