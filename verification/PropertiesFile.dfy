/** The properties file as the driver keeps it: two character buffers with their terminators, an
    index into the one being filled, and a growing array of name/value pairs. */
module PropertiesFile {
  import opened Words
  import opened PropertiesSpec
  import opened NumberText
  import opened NumberReading
  import V = PropertyValues

  const MAX_PROPERTY_NAME_LENGTH := 100
  const MAX_PROPERTY_VALUE_LENGTH := 500

  /** The C string in a buffer: what stands before the first terminator. */
  function CString(buffer: seq<char>): (s: string)
    ensures |s| <= |buffer| && forall i :: 0 <= i < |s| ==> s[i] == buffer[i] && s[i] != '\0'
  {
    if buffer == [] || buffer[0] == '\0' then "" else [buffer[0]] + CString(buffer[1..])
  }

  lemma {:induction false} CStringIs(buffer: seq<char>, n: nat)
    requires n < |buffer| && buffer[n] == '\0'
    requires forall i :: 0 <= i < n ==> buffer[i] != '\0'
    ensures CString(buffer) == buffer[..n]
  {
    if n > 0 {
      CStringIs(buffer[1..], n - 1);
      assert buffer[..n] == [buffer[0]] + buffer[1..][..n - 1];
    }
  }

  lemma NameCharIs(s: Parser, c: char)
    requires s.phase == CopyName && IsValidNameChar(c)
    ensures PropertiesSpec.Parse(s, c) == if |s.name| >= 98 then Rejected(s) else Accepted(s.(name := s.name + [c]))
  {
  }

  lemma OneChar(s: Parser, c: char)
    ensures ParseAll(s, [c]) == PropertiesSpec.Parse(s, c)
  {
    assert [c][1..] == "";
  }

  /** The buffer holds the first `n` characters of `value`, and nothing but blanks has been cut off. */
  ghost predicate CutTo(buffer: seq<char>, value: string, n: nat) {
    && 1 <= n <= |value| && n < |buffer| && buffer[..n] == value[..n] && buffer[n] == '\0'
    && '\0' !in value && Trimmed(value[..n]) == Trimmed(value)
  }

  lemma CutShorter(buffer: seq<char>, value: string, i: nat)
    requires i > 0 && CutTo(buffer, value, i + 1)
    ensures buffer[i] == value[i]
    ensures value[i] == ' ' || value[i] == '\t' ==> CutTo(buffer[i := '\0'], value, i)
  {
    assert buffer[i] == buffer[..i + 1][i] == value[..i + 1][i];
    assert value[..i + 1][..i] == value[..i];
    assert buffer[i := '\0'][..i] == buffer[..i + 1][..i];
  }

  lemma CutIsTrimmed(buffer: seq<char>, value: string, n: nat)
    requires CutTo(buffer, value, n)
    requires n > 1 ==> value[n - 1] != ' ' && value[n - 1] != '\t'
    ensures CString(buffer) == Trimmed(value)
  {
    assert forall i :: 0 <= i < n ==> buffer[i] == buffer[..n][i] == value[i];
    CStringIs(buffer, n);
  }

  lemma LoadPiece(start: Parser, file: string, pos: nat, n: nat, s: Parser)
    requires pos + n <= |file| && ParseAll(start, file[..pos]) == Accepted(s)
    ensures var o := ParseAll(s, file[pos..pos + n]);
      if o.Accepted? then ParseAll(start, file[..pos + n]) == o else ParseAll(start, file + "\n") == o
  {
    assert file[..pos] + file[pos..pos + n] == file[..pos + n];
    ParseAppend(start, file[..pos], file[pos..pos + n]);
    assert file + "\n" == file[..pos + n] + (file[pos + n..] + "\n");
    ParseAppend(start, file[..pos + n], file[pos + n..] + "\n");
  }

  lemma LoadEnd(start: Parser, file: string, s: Parser)
    requires ParseAll(start, file) == Accepted(s)
    ensures ParseAll(start, file + "\n") == PropertiesSpec.Parse(s, '\n')
  {
    ParseAppend(start, file, "\n");
    OneChar(s, '\n');
  }

  class PropertiesFile {
    const propertyName: array<char>
    const propertyValue: array<char>
    var phase: Phase
    var index: nat
    var line: nat
    var props: seq<Property>

    ghost predicate Valid()
      reads this, propertyName, propertyValue
    {
      && propertyName.Length == 100 && propertyValue.Length == 500 && propertyName != propertyValue
      && (phase != CopyName && phase != CopyValue ==> index == 0)
      && (phase == CopyName ==> index <= 98 && Terminated(propertyName[..], index))
      && (phase == WaitForValue || phase == CopyValue ==>
            |CString(propertyName[..])| <= 98)
      && (phase == CopyValue ==> 1 <= index <= 498 && Terminated(propertyValue[..], index))
    }

    static ghost predicate Terminated(buffer: seq<char>, n: nat) {
      n < |buffer| && buffer[n] == '\0' && forall i :: 0 <= i < n ==> buffer[i] != '\0'
    }

    ghost function View(): Parser
      reads this, propertyName, propertyValue
      requires Valid()
    {
      Parser(phase,
             if phase == WaitForName || phase == IgnoreComment then "" else CString(propertyName[..]),
             if phase == CopyValue then CString(propertyValue[..]) else "",
             line, props)
    }

    constructor ()
      ensures Valid() && View() == INITIAL && fresh(propertyName) && fresh(propertyValue)
    {
      propertyName := new char[100];
      propertyValue := new char[500];
      phase, index, line, props := WaitForName, 0, 1, [];
    }

    /** The first property with that name. */
    method Lookup(name: string) returns (i: nat)
      ensures i <= |props| && (forall k :: 0 <= k < i ==> props[k].name != name)
      ensures i < |props| <==> IsSet(props, name)
      ensures i < |props| ==> props[i].name == name
    {
      i := 0;
      while i < |props|
        invariant i <= |props| && forall k :: 0 <= k < i ==> props[k].name != name
      {
        if props[i].name == name {
          return;
        }
        i := i + 1;
      }
    }

    method AddProperty(name: string, value: string)
      modifies this`props
      ensures props == PropertiesSpec.AddProperty(old(props), Property(name, value))
    {
      var i := Lookup(name);
      if i < |props| {
        return;
      }
      props := props + [Property(name, value)];
    }

    method SetString(name: string, value: string)
      modifies this`props
      ensures props == V.SetString(old(props), name, value)
    {
      var i := Lookup(name);
      if i < |props| {
        V.FirstIs(props, name, i);
        props := props[i := Property(name, value)];
      } else {
        AddProperty(name, value);
      }
    }

    method SetNumber(name: string, n: nat, base: nat)
      requires n < WORD && (base == 10 || base == 16)
      modifies this`props
      ensures props == V.SetString(old(props), name, V.Formatted(n, base))
    {
      var value;
      if base == 16 {
        var text := Ntoa(n, 16, true);
        value := "0x" + text;
      } else if n < 0x8000_0000 {
        value := Ntoa(n, 10, false);
      } else {
        var text := Ntoa(WORD - n, 10, false);
        value := "-" + text;
      }
      SetString(name, value);
    }

    method GetNumber(name: string, default: nat) returns (n: nat)
      ensures var v := V.GetString(props, name);
        n == if v.Some? && V.NumberOf(v.value).Some? then V.NumberOf(v.value).value else default
    {
      var i := Lookup(name);
      if i == |props| {
        return default;
      }
      V.FirstIs(props, name, i);
      var r := ReadNumber(props[i].value, 0);
      n := if At(props[i].value, r.end) != '\0' then default else r.value;
    }

    method SetIPAddress(name: string, address: seq<V.Octet>)
      requires |address| == 4
      modifies this`props
      ensures props == V.SetString(old(props), name, V.Dotted(address))
    {
      V.FourOctets(address);
      var a := Ntoa(address[0], 10, false);
      var b := Ntoa(address[1], 10, false);
      var c := Ntoa(address[2], 10, false);
      var d := Ntoa(address[3], 10, false);
      SetString(name, a + ("." + (b + ("." + (c + ("." + d))))));
    }

    method GetIPAddress(name: string) returns (address: V.Option<seq<V.Octet>>)
      ensures var v := V.GetString(props, name);
        address == if v.Some? then V.AddressOf(v.value, 4) else V.None
    {
      var p := Lookup(name);
      if p == |props| {
        return V.None;
      }
      V.FirstIs(props, name, p);
      var token := props[p].value;
      var found: seq<V.Octet> := [];
      ghost var all := V.AddressOf(token, 4);
      V.PrependNothing(all);
      var i := 0;
      while i < 4
        invariant 0 <= i <= 4
        invariant all == if i < 4 then V.Prepend(found, V.AddressOf(token, 4 - i)) else V.Some(found)
      {
        var ok, number, rest := GetOctet(token, 4 - i);
        V.OneMoreOctet(all, found, token, 4 - i, ok, number, rest);
        if !ok {
          return V.None;
        }
        found := found + [number];
        token := rest;
        i := i + 1;
      }
      address := V.Some(found);
    }

    /** One number of an address, of which `n` are still to come, and what is behind its dot. */
    static method GetOctet(token: string, n: nat) returns (ok: bool, number: V.Octet, rest: string)
      requires n >= 1
      ensures V.AddressOf(token, n)
        == if !ok then V.None else if n == 1 then V.Some([number]) else V.Prepend([number], V.AddressOf(rest, n - 1))
    {
      number, rest := 0, "";
      var r := ReadNumber(token, 10);
      if At(token, r.end) != (if n == 1 then '\0' else '.') {
        ok := false;
        return;
      }
      if r.value > 255 {
        ok := false;
        return;
      }
      ok, number := true, r.value;
      if n > 1 {
        rest := token[r.end + 1..];
      }
    }

    /** Append a character to a buffer and move the terminator behind it. */
    method PutChar(buffer: array<char>, c: char)
      requires index + 1 < buffer.Length && c != '\0'
      requires forall i :: 0 <= i < index ==> buffer[i] != '\0'
      modifies this`index, buffer
      ensures index == old(index) + 1 && Terminated(buffer[..], index)
      ensures CString(buffer[..]) == old(buffer[..])[..old(index)] + [c]
    {
      buffer[index] := c;
      index := index + 1;
      buffer[index] := '\0';
      CStringIs(buffer[..], index);
    }

    /** Overwrite trailing blanks with terminators; the first character stays. */
    method TrimValue()
      requires Valid() && phase == CopyValue
      modifies propertyValue
      ensures CString(propertyValue[..]) == Trimmed(old(CString(propertyValue[..])))
    {
      ghost var value := propertyValue[..index];
      CStringIs(propertyValue[..], index);
      var i := index - 1;
      while i > 0
        invariant 0 <= i < propertyValue.Length && CutTo(propertyValue[..], value, i + 1)
      {
        CutShorter(propertyValue[..], value, i);
        if propertyValue[i] != ' ' && propertyValue[i] != '\t' {
          break;
        }
        propertyValue[i] := '\0';
        i := i - 1;
      }
      CutIsTrimmed(propertyValue[..], value, i + 1);
    }

    /** A line is complete: add its property and start the next one. */
    method EndLine(value: string)
      requires propertyName.Length == 100 && propertyValue.Length == 500 && propertyName != propertyValue
      modifies this
      ensures Valid()
      ensures View() == AtLineStart(old(line) + 1,
        PropertiesSpec.AddProperty(old(props), Property(CString(propertyName[..]), value)))
    {
      var name := NameString();
      AddProperty(name, value);
      phase := WaitForName;
      index := 0;
      line := line + 1;
    }

    /** The name as the string that its characters up to the terminator form. */
    method NameString() returns (name: string)
      ensures name == CString(propertyName[..])
    {
      name := CString(propertyName[..]);
    }

    /** One more character of a name, if there is room. */
    method ParseNameChar(c: char) returns (ok: bool)
      requires Valid() && phase == CopyName && IsValidNameChar(c)
      modifies this`index, propertyName
      ensures Valid()
      ensures ok == PropertiesSpec.Parse(old(View()), c).Accepted? && View() == PropertiesSpec.Parse(old(View()), c).parser
    {
      ghost var v := View();
      CStringIs(propertyName[..], index);
      assert |v.name| == index;
      NameCharIs(v, c);
      if index >= MAX_PROPERTY_NAME_LENGTH - 2 {
        return false;
      }
      PutChar(propertyName, c);
      assert View() == v.(name := v.name + [c]);
      ok := true;
    }

    method ParseInCopyName(c: char) returns (ok: bool)
      requires Valid() && phase == CopyName && c != '\r'
      modifies this, propertyName
      ensures Valid()
      ensures View() == PropertiesSpec.Parse(old(View()), c).parser && ok == PropertiesSpec.Parse(old(View()), c).Accepted?
    {
      if IsValidNameChar(c) {
        ok := ParseNameChar(c);
        return;
      } else if c == '=' || c == ' ' || c == '\t' {
        phase := WaitForValue;
        index := 0;
      } else if c == '\n' {
        EndLine("");
      } else {
        return false;
      }
      ok := true;
    }

    method ParseInCopyValue(c: char) returns (ok: bool)
      requires Valid() && phase == CopyValue && c != '\r'
      modifies this, propertyValue
      ensures Valid()
      ensures View() == PropertiesSpec.Parse(old(View()), c).parser && ok == PropertiesSpec.Parse(old(View()), c).Accepted?
    {
      CStringIs(propertyValue[..], index);
      if c == '\n' {
        TrimValue();
        var value := CString(propertyValue[..]);
        EndLine(value);
      } else if !(' ' <= c <= '~') {
        return false;
      } else {
        if index >= MAX_PROPERTY_VALUE_LENGTH - 2 {
          return false;
        }
        PutChar(propertyValue, c);
      }
      ok := true;
    }

    method Parse(c: char) returns (ok: bool)
      requires Valid()
      modifies this, propertyName, propertyValue
      ensures Valid()
      ensures View() == PropertiesSpec.Parse(old(View()), c).parser && ok == PropertiesSpec.Parse(old(View()), c).Accepted?
    {
      if c == '\r' {
        return true;
      }
      match phase
      case WaitForName =>
        if c == ' ' || c == '\t' {
        } else if c == '\n' {
          line := line + 1;
        } else if c == '#' {
          phase := IgnoreComment;
        } else if IsValidNameChar(c) {
          PutChar(propertyName, c);
          phase := CopyName;
        } else {
          return false;
        }
        ok := true;
      case CopyName =>
        ok := ParseInCopyName(c);
      case WaitForValue =>
        if c == ' ' || c == '\t' || c == '=' {
        } else if c == '\n' {
          EndLine("");
        } else {
          if !(' ' < c <= '~') {
            return false;
          }
          PutChar(propertyValue, c);
          phase := CopyValue;
        }
        ok := true;
      case CopyValue =>
        ok := ParseInCopyValue(c);
      case IgnoreComment =>
        if c == '\n' {
          phase := WaitForName;
          index := 0;
          line := line + 1;
        }
        ok := true;
    }

    /** Parse what has been read, up to the first character that is rejected. */
    method ParseBuffer(buffer: string) returns (ok: bool)
      requires Valid()
      modifies this, propertyName, propertyValue
      ensures Valid()
      ensures var o := ParseAll(old(View()), buffer); View() == o.parser && ok == o.Accepted?
    {
      var i := 0;
      while i < |buffer|
        invariant i <= |buffer| && Valid()
        invariant ParseAll(View(), buffer[i..]) == ParseAll(old(View()), buffer)
      {
        ok := Parse(buffer[i]);
        if !ok {
          return;
        }
        i := i + 1;
      }
      ok := true;
    }

    /** Load a file, which is read in pieces of at most 500 bytes. */
    method Load(file: string) returns (ok: bool)
      requires Valid()
      modifies this, propertyName, propertyValue
      ensures Valid()
      ensures var o := PropertiesSpec.Load(old(View()), file); View() == o.parser && ok == o.Accepted?
    {
      props := [];
      line := 1;
      ghost var start := View();
      ok := ParsePieces(file);
      if ok {
        assert file[..|file|] == file;
        LoadEnd(start, file, View());
        ok := Parse('\n');
      }
    }

    /** Up to the end of the file, or to the first error. */
    method ParsePieces(file: string) returns (ok: bool)
      requires Valid()
      modifies this, propertyName, propertyValue
      ensures Valid()
      ensures if ok then ParseAll(old(View()), file) == Accepted(View())
        else ParseAll(old(View()), file + "\n") == Rejected(View())
    {
      ghost var start := View();
      var pos := 0;
      while pos < |file|
        invariant pos <= |file| && Valid()
        invariant ParseAll(start, file[..pos]) == Accepted(View())
      {
        var result := if |file| - pos < 500 then |file| - pos else 500;
        ok := ParsePiece(file, pos, result, start);
        if !ok {
          return;
        }
        pos := pos + result;
      }
      assert file[..pos] == file;
      ok := true;
    }

    /** The `n` characters from `pos` on. */
    method ParsePiece(file: string, pos: nat, n: nat, ghost start: Parser) returns (ok: bool)
      requires Valid() && pos + n <= |file| && ParseAll(start, file[..pos]) == Accepted(View())
      modifies this, propertyName, propertyValue
      ensures Valid()
      ensures if ok then ParseAll(start, file[..pos + n]) == Accepted(View())
        else ParseAll(start, file + "\n") == Rejected(View())
    {
      LoadPiece(start, file, pos, n, View());
      ok := ParseBuffer(file[pos..pos + n]);
    }

    /** Write one line per property. */
    method Save() returns (file: string)
      ensures file == PropertiesSpec.Save(props)
    {
      file := "";
      var i := 0;
      while i < |props|
        invariant i <= |props|
        invariant PropertiesSpec.Save(props) == file + PropertiesSpec.Save(props[i..])
      {
        file := file + (props[i].name + "=" + props[i].value + "\n");
        i := i + 1;
      }
    }
  }
}
