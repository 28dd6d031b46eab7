/** Numbers and IP addresses as the values of properties. */
module PropertyValues {
  import opened Words
  import opened Numerals
  import opened NumberText
  import opened NumberReading
  import opened PropertiesSpec

  datatype Option<T> = None | Some(value: T)

  /** The place of the first property with that name. */
  function IndexOf(props: seq<Property>, name: string): (i: nat)
    ensures i <= |props| && (forall k :: 0 <= k < i ==> props[k].name != name)
    ensures i < |props| ==> props[i].name == name
    ensures i < |props| <==> IsSet(props, name)
  {
    if props == [] || props[0].name == name then 0
    else
      var j := IndexOf(props[1..], name);
      assert IsSet(props[1..], name) ==> IsSet(props, name);
      assert forall k :: 1 <= k < 1 + j ==> props[k] == props[1..][k - 1];
      assert IsSet(props, name) ==> IsSet(props[1..], name) by {
        if IsSet(props, name) {
          var k :| 0 <= k < |props| && props[k].name == name;
          assert props[1..][k - 1].name == name;
        }
      }
      1 + j
  }

  function GetString(props: seq<Property>, name: string): Option<string> {
    var i := IndexOf(props, name);
    if i < |props| then Some(props[i].value) else None
  }

  /** Replace the value of a property, or add it at the end. */
  function SetString(props: seq<Property>, name: string, value: string): seq<Property> {
    var i := IndexOf(props, name);
    if i < |props| then props[i := Property(name, value)] else AddProperty(props, Property(name, value))
  }

  lemma FirstIs(props: seq<Property>, name: string, i: nat)
    requires i < |props| && props[i].name == name && forall k :: 0 <= k < i ==> props[k].name != name
    ensures IndexOf(props, name) == i
  {
  }

  /** What was set is what one gets, and no other property has changed. */
  lemma SetThenGet(props: seq<Property>, name: string, value: string, other: string)
    ensures GetString(SetString(props, name, value), name) == Some(value)
    ensures other != name ==> GetString(SetString(props, name, value), other) == GetString(props, other)
  {
    var i, after := IndexOf(props, name), SetString(props, name, value);
    assert after[i] == Property(name, value);
    FirstIs(after, name, i);
    if other != name {
      var j := IndexOf(props, other);
      if j < |props| {
        FirstIs(after, other, j);
      } else {
        assert forall k :: 0 <= k < |after| ==> after[k].name == name || (k < |props| && after[k] == props[k]);
      }
    }
  }

  lemma SetKeepsCanonical(props: seq<Property>, name: string, value: string)
    requires Canonical(props) && CanonicalName(name) && CanonicalValue(value)
    ensures Canonical(SetString(props, name, value))
  {
  }

  // ---------- numbers ----------

  /** A number in decimal, as a signed one, or in hexadecimal. */
  function Formatted(n: nat, base: nat): string
    requires n < WORD && (base == 10 || base == 16)
  {
    if base == 16 then "0x" + TextOf(Digits(n, 16), 16, true)
    else if n < 0x8000_0000 then TextOf(Digits(n, 10), 10, false)
    else "-" + TextOf(Digits(WORD - n, 10), 10, false)
  }

  /** The digits are those of the number, or of its negation from 2^31 on; in base 16 they are capital letters. */
  lemma FormattedIs(n: nat, base: nat) returns (m: nat, ds: seq<nat>, text: string)
    requires n < WORD && (base == 10 || base == 16)
    ensures m == if base == 10 && n >= 0x8000_0000 then 0x1_0000_0000 - n else n
    ensures AreDigits(ds, base) && Value(ds, base) == m && |text| == |ds|
    ensures forall i :: 0 <= i < |ds| ==> text[i] as int == CodeOf(ds[i], true)
    ensures Formatted(n, base) == (if base == 16 then "0x" else if n >= 0x8000_0000 then "-" else "") + text
  {
    m := if base == 10 && n >= 0x8000_0000 then WORD - n else n;
    ds := Digits(m, base);
    text := TextOf(ds, base, base == 16);
    ValueOfDigits(m, base);
    CodesAre(ds, base, base == 16);
  }

  /** The number a value stands for; nothing may follow it. */
  function NumberOf(value: string): Option<nat> {
    var r := Strtoul(value, 0);
    if At(value, r.end) != '\0' then None else Some(r.value)
  }

  /** Any text of a number is taken for it if nothing follows; with anything behind it there is no number. */
  lemma NumberIsMeant(s: string, k: nat, sign: Sign, hex: bool, body: string, ds: seq<nat>, b: nat)
    requires LaidOut(s, k, sign, hex, body) && (forall x :: 0 <= x < k ==> IsBlank(s[x])) && '\0' !in body
    requires Readable(hex, body, 0, b) && b <= 36 && BeginsWith(body, ds, b) && (hex || ds != []) && Value(ds, b) < WORD
    ensures var n := Value(ds, b);
      NumberOf(s) == if |ds| == |body| then Some(if sign == Minus && n > 0 then 0x1_0000_0000 - n else n) else None
  {
    ReadsText(s, k, sign, hex, body, ds, 0, b);
    var i := k + SignLength(sign) + PrefixLength(hex);
    if |ds| < |body| { assert At(s, i + |ds|) == s[i..][|ds|] == body[|ds|]; }
  }

  lemma PositiveReads(n: nat)
    requires n < WORD
    ensures var s := TextOf(Digits(n, 10), 10, false);
      Strtoul(s, 0) == Parsed(n, |s|)
  {
    var s := TextOf(Digits(n, 10), 10, false);
    assert s[0..|s|] == s;
    assert TextAt(s, 0, Digits(n, 10), 10, false);
    TextReads(s, 0, Digits(n, 10), 10, false);
    OneZero(n);
    ReadsDecimal(s, 0, n, 0, false);
  }

  lemma OneZero(n: nat)
    ensures n == 0 ==> |Digits(n, 10)| == 1
  {
    LeadingDigit(n, 10);
  }

  lemma NegativeReads(n: nat)
    requires 0 < n < WORD
    ensures var s := "-" + TextOf(Digits(n, 10), 10, false);
      Strtoul(s, 0) == Parsed(WORD - n, |s|)
  {
    var text := TextOf(Digits(n, 10), 10, false);
    var s := "-" + text;
    assert s[1..1 + |text|] == text;
    assert TextAt(s, 1, Digits(n, 10), 10, false);
    ReadsDecimal(s, 1, n, 0, true);
    assert Negated(n) == WORD - n;
  }

  lemma HexReads(n: nat)
    requires n < WORD
    ensures var s := "0x" + TextOf(Digits(n, 16), 16, true);
      Strtoul(s, 0) == Parsed(n, |s|)
  {
    var ds := Digits(n, 16);
    var text := TextOf(ds, 16, true);
    var s := "0x" + text;
    assert s[2..2 + |text|] == text;
    assert TextAt(s, 2, ds, 16, true);
    ValueOfDigits(n, 16);
    TextReads(s, 2, ds, 16, true);
    FinishReads(s, 2, ds, 16, false);
  }

  /** Every 32-bit number, set in either base, is the number one gets; those from 2^31 on are written as
      negative ones and wrap around when they are read. */
  lemma NumberRoundTrip(n: nat, base: nat)
    requires n < WORD && (base == 10 || base == 16)
    ensures NumberOf(Formatted(n, base)) == Some(n)
  {
    if base == 16 {
      HexReads(n);
    } else if n < 0x8000_0000 {
      PositiveReads(n);
    } else {
      NegativeReads(WORD - n);
    }
  }

  lemma NumbersAreCanonical(n: nat, base: nat)
    requires n < WORD && (base == 10 || base == 16)
    ensures CanonicalValue(Formatted(n, base))
  {
    FewDigits(n, base);
    FewDigits(WORD - n, 10);
  }

  lemma FewDigits(n: nat, base: nat)
    requires n <= WORD && (base == 10 || base == 16)
    ensures |Digits(n, base)| <= 100
  {
    LengthBounds(n, base);
    if Length(n, base) > 40 { PowerBound(base, Length(n, base) - 1); }
  }

  lemma PowerBound(base: nat, k: nat)
    requires base >= 2 && k >= 40
    ensures Pow(base, k) > WORD
  {
    PowMono(base, 40, k);
    Pow40(base);
  }

  lemma {:induction false} TwoToThe(base: nat, k: nat)
    requires base >= 2
    ensures Pow(base, k) >= Pow(2, k)
  {
    if k > 0 {
      TwoToThe(base, k - 1);
      MulMono(2, base, Pow(base, k - 1));
    }
  }

  lemma Pow40(base: nat)
    requires base >= 2
    ensures Pow(base, 40) > WORD
  {
    TwoToThe(base, 40);
    assert Pow(2, 10) == 1024;
    assert Pow(2, 20) == 0x10_0000;
    assert Pow(2, 30) == 0x4000_0000;
    assert Pow(2, 40) == 0x100_0000_0000;
  }

  /** A number set in a list that fits the format is still there after the list has been saved and loaded. */
  lemma NumberSurvivesFile(props: seq<Property>, name: string, n: nat, base: nat)
    requires Canonical(props) && CanonicalName(name) && n < WORD && (base == 10 || base == 16)
    ensures var o := Load(INITIAL, Save(SetString(props, name, Formatted(n, base))));
      o.Accepted? && var v := GetString(o.parser.props, name); v.Some? && NumberOf(v.value) == Some(n)
  {
    var after := SetString(props, name, Formatted(n, base));
    NumbersAreCanonical(n, base);
    SetKeepsCanonical(props, name, Formatted(n, base));
    RoundTripIffCanonical(after);
    SetThenGet(props, name, Formatted(n, base), name);
    NumberRoundTrip(n, base);
  }

  // ---------- IP addresses ----------

  type Octet = n: nat | n < 256

  function Decimal(n: nat): string {
    TextOf(Digits(n, 10), 10, false)
  }

  lemma DecimalIs(n: nat) returns (ds: seq<nat>)
    ensures AreDigits(ds, 10) && Value(ds, 10) == n && |Decimal(n)| == |ds|
    ensures forall i :: 0 <= i < |ds| ==> Decimal(n)[i] as int == CodeOf(ds[i], false)
  {
    ds := Digits(n, 10);
    ValueOfDigits(n, 10);
    CodesAre(ds, 10, false);
  }

  function Dotted(address: seq<Octet>): string
    requires address != []
    decreases |address|
  {
    if |address| == 1 then Decimal(address[0]) else Decimal(address[0]) + ("." + Dotted(address[1..]))
  }

  /** The address a value stands for: `n` numbers below 256 with dots between them. */
  function AddressOf(value: string, n: nat): Option<seq<Octet>>
    requires n >= 1
    decreases n
  {
    var r := Strtoul(value, 10);
    if At(value, r.end) != (if n == 1 then '\0' else '.') || r.value > 255 then None
    else if n == 1 then Some([r.value])
    else
      Prepend([r.value], AddressOf(value[r.end + 1..], n - 1))
  }

  /** What has been read, and then the rest if it can be read. */
  function Prepend(found: seq<Octet>, rest: Option<seq<Octet>>): Option<seq<Octet>> {
    if rest.None? then None else Some(found + rest.value)
  }

  lemma PrependNothing(rest: Option<seq<Octet>>)
    ensures Prepend([], rest) == rest
  {
    if rest.Some? { assert [] + rest.value == rest.value; }
  }

  lemma PrependMore(found: seq<Octet>, n: Octet, rest: Option<seq<Octet>>)
    ensures Prepend(found, Prepend([n], rest)) == Prepend(found + [n], rest)
  {
    if rest.Some? {
      assert found + ([n] + rest.value) == (found + [n]) + rest.value;
    }
  }

  /** One more octet has been read, or not. */
  lemma OneMoreOctet(all: Option<seq<Octet>>, found: seq<Octet>, token: string, n: nat, ok: bool, number: Octet, rest: string)
    requires n >= 1 && all == Prepend(found, AddressOf(token, n))
    requires AddressOf(token, n)
      == if !ok then None else if n == 1 then Some([number]) else Prepend([number], AddressOf(rest, n - 1))
    ensures all
      == if !ok then None else if n == 1 then Some(found + [number]) else Prepend(found + [number], AddressOf(rest, n - 1))
  {
    if ok && n > 1 { PrependMore(found, number, AddressOf(rest, n - 1)); }
  }

  lemma OctetReads(n: Octet, tail: string)
    requires tail == "" || tail[0] == '.'
    ensures var s := Decimal(n) + tail;
      Strtoul(s, 10) == Parsed(n, |Decimal(n)|) && At(s, |Decimal(n)|) == At(tail, 0)
      && (tail != "" ==> s[|Decimal(n)| + 1..] == tail[1..])
  {
    var s, ds := Decimal(n) + tail, Digits(n, 10);
    assert s[0..|ds|] == Decimal(n);
    assert TextAt(s, 0, ds, 10, false);
    TextReads(s, 0, ds, 10, false);
    OneZero(n);
    ReadsDecimal(s, 0, n, 10, false);
  }

  lemma LastOctet(n: Octet)
    ensures AddressOf(Decimal(n), 1) == Some([n])
  {
    OctetReads(n, "");
    assert Decimal(n) + "" == Decimal(n);
  }

  lemma NextOctet(n: Octet, rest: string, k: nat)
    requires k >= 1
    ensures AddressOf(Decimal(n) + ("." + rest), k + 1) == Prepend([n], AddressOf(rest, k))
  {
    OctetReads(n, "." + rest);
    assert ("." + rest)[1..] == rest;
  }

  /** Every address that is set is the address one gets. */
  lemma {:induction false} AddressRoundTrip(address: seq<Octet>)
    requires address != []
    ensures AddressOf(Dotted(address), |address|) == Some(address)
    decreases |address|
  {
    if |address| > 1 {
      var rest := address[1..];
      AddressRoundTrip(rest);
      DottedStep(address, rest);
    } else {
      LastAddress(address);
    }
  }

  lemma DottedStep(address: seq<Octet>, rest: seq<Octet>)
    requires |address| > 1 && rest == address[1..] && AddressOf(Dotted(rest), |rest|) == Some(rest)
    ensures AddressOf(Dotted(address), |address|) == Some(address)
  {
    AddressStep(address, Dotted(address[1..]));
  }

  lemma LastAddress(address: seq<Octet>)
    requires |address| == 1
    ensures AddressOf(Dotted(address), |address|) == Some(address)
  {
    LastOctet(address[0]);
    assert [address[0]] == address;
  }

  lemma AddressStep(address: seq<Octet>, text: string)
    requires |address| > 1 && AddressOf(text, |address| - 1) == Some(address[1..])
    ensures AddressOf(Decimal(address[0]) + ("." + text), |address|) == Some(address)
  {
    NextOctet(address[0], text, |address| - 1);
    assert [address[0]] + address[1..] == address;
  }

  lemma FourOctets(a: seq<Octet>)
    requires |a| == 4
    ensures Dotted(a) == Decimal(a[0]) + ("." + (Decimal(a[1]) + ("." + (Decimal(a[2]) + ("." + Decimal(a[3]))))))
  {
    assert a[1..][1..] == a[2..] && a[2..][1..] == a[3..];
    assert Dotted(a[3..]) == Decimal(a[3]);
    assert Dotted(a[2..]) == Decimal(a[2]) + ("." + Dotted(a[3..]));
    assert Dotted(a[1..]) == Decimal(a[1]) + ("." + Dotted(a[2..]));
  }
}
