/** The C library's conversions: `strtol`, which clamps, and `itoa`, which turns its digits around in
    place. */
module StandardNumbers {
  import opened Words
  import opened Numerals
  import opened Dividers

  const LONG_MAX := 0x7FFF_FFFF
  const LONG_MIN := -0x8000_0000

  /** The value of a character as a digit; 36 if it is none. */
  function DigitValue(c: char): nat {
    if '0' <= c <= '9' then c as int - '0' as int
    else if 'A' <= c <= 'Z' then c as int - 'A' as int + 10
    else if 'a' <= c <= 'z' then c as int - 'a' as int + 10
    else 36
  }

  /** Digits are the characters from 0 to 9, and letters of either case. */
  lemma WhatIsADigit(c: char, d: nat)
    requires d < 36
    ensures DigitValue(c) == d <==> Spells(c, d)
  {
  }

  /** All the digits from `i` on. */
  function DigitRun(s: string, i: nat, base: nat): (ds: seq<nat>)
    requires i <= |s| && base <= 36
    ensures i + |ds| <= |s| && AreDigits(ds, base)
    ensures i + |ds| < |s| ==> DigitValue(s[i + |ds|]) >= base
    decreases |s| - i
  {
    if i < |s| && DigitValue(s[i]) < base then
      var rest := DigitRun(s, i + 1, base);
      [DigitValue(s[i])] + rest
    else []
  }

  function SkipSpaces(s: string, i: nat): (j: nat)
    requires i <= |s|
    ensures i <= j <= |s|
    decreases |s| - i
  {
    if i < |s| && s[i] == ' ' then SkipSpaces(s, i + 1) else i
  }

  /** Where the digits begin, in which base, whether behind a minus sign and behind `0x`. */
  datatype Head = Head(start: nat, base: nat, negative: bool, prefixed: bool)

  function HeadOf(s: string, base: nat): (h: Head)
    requires base == 0 || 2 <= base <= 36
    ensures h.start <= |s| && 2 <= h.base <= 36
  {
    var i := SkipSpaces(s, 0);
    var negative := At(s, i) == '-';
    var j := if negative || At(s, i) == '+' then i + 1 else i;
    if (base == 0 || base == 16) && At(s, j) == '0' && (At(s, j + 1) == 'x' || At(s, j + 1) == 'X') then Head(j + 2, 16, negative, true)
    else Head(j, if base != 0 then base else if At(s, j) == '0' then 8 else 10, negative, false)
  }

  function Clamped(negative: bool, n: nat): int {
    if negative then if n > 0x8000_0000 then LONG_MIN else -(n as int)
    else if n > LONG_MAX then LONG_MAX else n
  }

  /** Clamping gives the number itself if it has 32 signed bits, and else the nearest one that has. */
  lemma ClampingIs(negative: bool, n: nat)
    ensures var r, x: int := Clamped(negative, n), if negative then -(n as int) else n;
      -0x8000_0000 <= r <= 0x7FFF_FFFF
      && (if x < -0x8000_0000 then r == -0x8000_0000 else if x > 0x7FFF_FFFF then r == 0x7FFF_FFFF else r == x)
  {
  }

  /** The number a string stands for. */
  function LongOf(s: string, base: nat): int
    requires base == 0 || 2 <= base <= 36
  {
    var h := HeadOf(s, base);
    Clamped(h.negative, Value(DigitRun(s, h.start, h.base), h.base))
  }

  /** Once the number read is above the cutoff, one more digit takes it out of range; below it, one more
      digit fits into 32 unsigned bits. */
  lemma Cutoff(acc: nat, base: nat, d: nat)
    requires 2 <= base <= 36 && d < base
    ensures acc > 0x8000_0000 / base ==> acc * base + d > 0x8000_0000
    ensures acc <= 0x8000_0000 / base ==> acc * base + d < WORD
  {
    var cutoff := 0x8000_0000 / base;
    DivMod(0x8000_0000, base);
    if acc > cutoff {
      MulMono(cutoff + 1, acc, base);
      assert (cutoff + 1) * base == cutoff * base + base;
    } else {
      MulMono(acc, cutoff, base);
    }
  }

  /** Read a number. It is the value of all its digits, however many there are, clamped to the range of
      32 signed bits; what comes behind it is where the digits end, where the prefix has its x if no
      digits follow it, or the beginning if there is no number at all. */
  method Strtol(s: string, base: nat) returns (value: int, end: nat)
    ensures base != 0 && (base < 2 || base > 36) ==> value == 0 && end == 0
    ensures base == 0 || 2 <= base <= 36 ==>
      var h := HeadOf(s, base);
      var ds := DigitRun(s, h.start, h.base);
      && value == LongOf(s, base)
      && end == if ds != [] then h.start + |ds| else if h.prefixed then h.start - 1 else 0
  {
    if base != 0 && (base < 2 || base > 36) {
      return 0, 0;
    }
    var h := ReadHead(s, base);
    var acc, any, i := ReadDigits(s, h.start, h.base);
    end := if any != 0 then i else if h.prefixed then h.start - 1 else 0;
    if any >= 0 {
      SignedStays(acc);
      SignedStays(-(acc as int));
    }
    if any < 0 {
      value := if h.negative then LONG_MIN else LONG_MAX;
    } else if h.negative {
      value := Signed32(-(acc as int));
    } else if Signed32(acc) < 0 {
      value := LONG_MAX;
    } else {
      value := acc;
    }
  }

  method ReadHead(s: string, base: nat) returns (h: Head)
    requires base == 0 || 2 <= base <= 36
    ensures h == HeadOf(s, base)
  {
    var i := 0;
    while i < |s| && s[i] == ' '
      invariant i <= |s| && SkipSpaces(s, i) == SkipSpaces(s, 0)
    {
      i := i + 1;
    }
    var negative, prefixed, b := false, false, base;
    if At(s, i) == '-' {
      negative := true;
      i := i + 1;
    } else if At(s, i) == '+' {
      i := i + 1;
    }
    if (base == 0 || base == 16) && At(s, i) == '0' && (At(s, i + 1) == 'x' || At(s, i + 1) == 'X') {
      i := i + 2;
      b, prefixed := 16, true;
    }
    if b == 0 {
      b := if At(s, i) == '0' then 8 else 10;
    }
    h := Head(i, b, negative, prefixed);
  }

  /** Accumulate digits; `any` is 0 before the first one and -1 once the number is out of range. */
  method ReadDigits(s: string, start: nat, base: nat) returns (acc: nat, any: int, end: nat)
    requires start <= |s| && 2 <= base <= 36
    ensures var ds := DigitRun(s, start, base);
      && end == start + |ds| && (any == 0 <==> ds == [])
      && (any < 0 <==> Value(ds, base) > 0x8000_0000) && (any >= 0 ==> acc == Value(ds, base))
  {
    ghost var ds := DigitRun(s, start, base);
    var cutoff := 0x8000_0000 / base;
    acc, any, end := 0, 0, start;
    assert ds[..0] == [];
    while end < |s|
      invariant start <= end <= start + |ds| && ds[end - start..] == DigitRun(s, end, base)
      invariant any == 0 <==> end == start
      invariant any < 0 <==> Value(ds[..end - start], base) > 0x8000_0000
      invariant any >= 0 ==> acc == Value(ds[..end - start], base)
    {
      var c := DigitValue(s[end]);
      if c >= base {
        break;
      }
      ghost var k := end - start;
      assert ds[k] == c && ds[k + 1..] == ds[k..][1..];
      NextValue(ds, k, base);
      if any >= 0 {
        Cutoff(acc, base, c);
        if acc > cutoff {
          any := -1;
        } else {
          acc := acc * base + c;
          any := if acc > 0x8000_0000 then -1 else 1;
        }
      }
      end := end + 1;
    }
    assert end - start == |ds| && ds[..|ds|] == ds;
  }

  /** One more digit makes the number no smaller. */
  lemma NextValue(ds: seq<nat>, k: nat, base: nat)
    requires k < |ds| && base >= 1
    ensures Value(ds[..k + 1], base) == Value(ds[..k], base) * base + ds[k] >= Value(ds[..k], base)
  {
    assert ds[..k + 1][..k] == ds[..k];
    MulMono(1, base, Value(ds[..k], base));
  }

  // ---------- printing ----------

  function DigitChar(d: nat): char
    requires d < 36
  {
    if d < 10 then '0' + d as char else 'a' + (d - 10) as char
  }

  function CharsOf(ds: seq<nat>, base: nat): (s: string)
    requires base <= 36 && AreDigits(ds, base)
    ensures |s| == |ds| && forall i :: 0 <= i < |ds| ==> s[i] == DigitChar(ds[i])
  {
    seq(|ds|, i requires 0 <= i < |ds| => DigitChar(ds[i]))
  }

  /** The digits of a number, the lowest first; zero has none. */
  function LowFirst(n: nat, base: nat): (ds: seq<nat>)
    requires base >= 2
    ensures AreDigits(ds, base) && (n > 0 ==> ds != [])
  {
    if n == 0 then []
    else
      QuotSmaller(n, base);
      [Rem(n, base)] + LowFirst(Quot(n, base), base)
  }

  lemma QuotSmaller(n: nat, b: nat)
    requires n > 0 && b >= 2
    ensures Quot(n, b) < n && 2 * Quot(n, b) <= n
  {
    QuotRem(n, b);
    MulMono(2, b, Quot(n, b));
  }

  function Reversed<T>(s: seq<T>): (r: seq<T>)
    ensures |r| == |s| && forall i :: 0 <= i < |s| ==> r[i] == s[|s| - 1 - i]
    decreases |s|
  {
    if s == [] then [] else Reversed(s[1..]) + [s[0]]
  }

  /** The lowest digit first means the number itself when turned around. */
  lemma {:induction false} LowFirstReversed(n: nat, base: nat)
    requires base >= 2
    ensures Value(Reversed(LowFirst(n, base)), base) == n
  {
    if n > 0 {
      QuotSmaller(n, base);
      var rest := LowFirst(Quot(n, base), base);
      LowFirstReversed(Quot(n, base), base);
      assert LowFirst(n, base)[1..] == rest;
      ValueSnoc(Reversed(rest), base, Rem(n, base));
      QuotRem(n, base);
    }
  }

  lemma {:induction false} FewDigits(n: nat, base: nat, k: nat)
    requires base >= 2 && n < Shl(1, k)
    ensures |LowFirst(n, base)| <= k
    decreases k
  {
    if n > 0 {
      QuotSmaller(n, base);
      FewDigits(Quot(n, base), base, k - 1);
    }
  }

  function Suffix(base: nat): string {
    if base == 16 then "x0" else if base == 8 then "0" else if base == 2 then "b0" else ""
  }

  function Magnitude(num: int, base: nat): nat {
    if num >= 0 then num else if base == 10 then -num else num % 0x1_0000_0000
  }

  /** What is printed, back to front. */
  function Backwards(num: int, base: nat): string
    requires 2 <= base <= 36
  {
    if num == 0 then "0"
    else
      CharsOf(LowFirst(Magnitude(num, base), base), base) + (if base == 10 && num < 0 then "-" else "") + Suffix(base)
  }

  function TextOf(num: int, base: nat): string
    requires 2 <= base <= 36
  {
    Reversed(Backwards(num, base))
  }

  /** Turn the first `n` characters around in place. */
  method TurnAround(buf: array<char>, n: nat)
    requires 0 < n <= buf.Length
    modifies buf
    ensures buf[..n] == Reversed(old(buf[..n])) && buf[n..] == old(buf[n..])
  {
    ghost var before := buf[..];
    var i: nat, j: nat := 0, n - 1;
    while i < j
      invariant i + j == n - 1 && i <= j + 1
      invariant forall k :: 0 <= k < i || j < k < n ==> buf[k] == before[n - 1 - k]
      invariant forall k :: i <= k <= j || n <= k < buf.Length ==> buf[k] == before[k]
    {
      buf[i], buf[j] := buf[j], buf[i];
      i := i + 1;
      j := j - 1;
    }
    assert before[..n] == old(buf[..n]);
    assert buf[..n] == Reversed(before[..n]);
  }

  /** The character stored for what is left of a division, in eight bits. */
  function CharOf(m: nat): (c: char)
    ensures m < 36 ==> c == DigitChar(m)
  {
    ((if m < 10 then '0' as int + m else 'a' as int + m - 10) % 256) as char
  }

  /** A text, unless it takes for ever. */
  datatype Output = Endless | Output(text: string)

  /** The characters of a number, the lowest first, as the long division gives them. */
  function CharsBackwards(i: nat, base: nat): Output
    requires i < WORD && 2 <= base <= 36
    decreases i
  {
    if i == 0 then Output("")
    else
      AnswerSmaller(i, base);
      match DivOf(i, base)
      case Forever => Endless
      case Returns(q) =>
        match CharsBackwards(q, base)
        case Endless => Endless
        case Output(rest) => Output([CharOf(Left(i, base, q))] + rest)
  }

  lemma AnswerSmaller(i: nat, base: nat)
    requires 0 < i < WORD && 2 <= base <= 36
    ensures DivOf(i, base).Returns? ==> DivOf(i, base).answer < i && DivOf(i, base).answer < 0x8000_0000
  {
    DivIff(i, base);
    QuotSmaller(i, base);
    if i < 0x8000_0000 { SmallDividend(base, i); }
  }

  /** What the call prints, back to front. */
  function PrintedBackwards(num: int, base: nat): Output
    requires LONG_MIN <= num <= LONG_MAX && 2 <= base <= 36
  {
    if num == 0 then Output("0")
    else
      match CharsBackwards(Magnitude(num, base), base)
      case Endless => Endless
      case Output(s) => Output(s + (if base == 10 && num < 0 then "-" else "") + Suffix(base))
  }

  function Printed(num: int, base: nat): Output
    requires LONG_MIN <= num <= LONG_MAX && 2 <= base <= 36
  {
    match PrintedBackwards(num, base)
    case Endless => Endless
    case Output(s) => Output(Reversed(s))
  }

  lemma {:induction false} DigitsIf(i: nat, base: nat)
    requires i < WORD && 2 <= base <= 36 && (i > 0 ==> DoublesPast(base, i))
    ensures CharsBackwards(i, base) == Output(CharsOf(LowFirst(i, base), base))
    decreases i
  {
    if i > 0 {
      var q := Quot(i, base);
      DividesWell(i, base);
      DigitsIf(q, base);
      CharsFirst(Rem(i, base), LowFirst(q, base), base);
    }
  }

  lemma DividesWell(i: nat, base: nat)
    requires 0 < i < WORD && 2 <= base <= 36 && DoublesPast(base, i)
    ensures DivOf(i, base) == Returns(Quot(i, base)) && Quot(i, base) < i
    ensures Quot(i, base) > 0 ==> DoublesPast(base, Quot(i, base))
    ensures CharOf(Left(i, base, Quot(i, base))) == DigitChar(Rem(i, base))
  {
    DivIff(i, base);
    AnswerSmaller(i, base);
    SmallDividend(base, Quot(i, base));
    LeftIsRem(i, base);
  }

  lemma CharsFirst(d: nat, ds: seq<nat>, base: nat)
    requires base <= 36 && AreDigits([d] + ds, base) && AreDigits(ds, base)
    ensures d < base && CharsOf([d] + ds, base) == [DigitChar(d)] + CharsOf(ds, base)
  {
    assert ([d] + ds)[0] == d;
  }

  lemma {:induction false} CharsTell(ds: seq<nat>, es: seq<nat>, base: nat)
    requires base <= 36 && AreDigits(ds, base) && AreDigits(es, base) && CharsOf(ds, base) == CharsOf(es, base)
    ensures ds == es
  {
    forall i | 0 <= i < |ds| ensures ds[i] == es[i] {
      assert CharsOf(ds, base)[i] == CharsOf(es, base)[i];
    }
  }

  /** Where the first division goes wrong, so do the digits. */
  lemma DigitsOnlyIf(i: nat, base: nat)
    requires 0 < i < WORD && 2 <= base <= 36 && !DoublesPast(base, i)
    ensures CharsBackwards(i, base) != Output(CharsOf(LowFirst(i, base), base))
  {
    AnswerSmaller(i, base);
    if DivOf(i, base).Returns? && CharsBackwards(i, base) == Output(CharsOf(LowFirst(i, base), base)) {
      var q := DivOf(i, base).answer;
      if i == base { SmallDividend(base, i); }
      DivIff(i, base);
      SmallDividend(base, q);
      DigitsIf(q, base);
      var good := CharsOf(LowFirst(i, base), base);
      assert good[1..] == CharsOf(LowFirst(Quot(i, base), base), base);
      assert CharsBackwards(i, base).text[1..] == CharsOf(LowFirst(q, base), base);
      CharsTell(LowFirst(q, base), LowFirst(Quot(i, base), base), base);
      LowFirstReversed(q, base);
      LowFirstReversed(Quot(i, base), base);
      assert false;
    }
  }

  /** A number is printed as it should be if and only if its first division goes well; that is so in all
      bases for numbers above zero. */
  lemma PrintedIff(num: int, base: nat)
    requires LONG_MIN <= num <= LONG_MAX && 2 <= base <= 36
    ensures Printed(num, base) == Output(TextOf(num, base)) <==> num == 0 || DoublesPast(base, Magnitude(num, base))
    ensures num >= 0 ==> Printed(num, base) == Output(TextOf(num, base))
  {
    if num != 0 {
      var m := Magnitude(num, base);
      if num > 0 { SmallDividend(base, m); }
      if DoublesPast(base, m) {
        DigitsIf(m, base);
      } else {
        DigitsOnlyIf(m, base);
        if Printed(num, base).Output? {
          SameEnds(CharsBackwards(m, base).text, CharsOf(LowFirst(m, base), base),
            if base == 10 && num < 0 then "-" else "", Suffix(base));
        }
      }
    }
  }

  lemma SameEnds(a: string, b: string, sign: string, suffix: string)
    ensures Reversed(a + sign + suffix) == Reversed(b + sign + suffix) <==> a == b
  {
    if Reversed(a + sign + suffix) == Reversed(b + sign + suffix) {
      ReversedTwice(a + sign + suffix);
      ReversedTwice(b + sign + suffix);
      SameEnd(a + sign, b + sign, suffix);
      SameEnd(a, b, sign);
    }
  }

  lemma SameEnd(a: string, b: string, end: string)
    requires a + end == b + end
    ensures a == b
  {
    assert |a + end| == |b + end|;
    assert a == (a + end)[..|a|] && b == (b + end)[..|b|];
  }

  lemma ReversedTwice<T>(s: seq<T>)
    ensures Reversed(Reversed(s)) == s
  {
  }

  /** Print a number. Except in base 10 a negative one stands for its 32 bits. */
  method Itoa(num: int, buf: array<char>, base: nat) returns (ends: bool, n: nat)
    requires LONG_MIN <= num <= LONG_MAX && 2 <= base <= 36 && buf.Length >= 36
    modifies buf
    ensures ends == Printed(num, base).Output?
    ensures ends ==> n < buf.Length && buf[n] == '\0' && buf[..n] == Printed(num, base).text
  {
    if num == 0 {
      buf[0] := '0';
      buf[1] := '\0';
      assert buf[..1] == "0" == Reversed("0");
      return true, 1;
    }
    ends, n := PrintBackwards(num, buf, base);
    if ends {
      Terminate(buf, n);
      TurnAround(buf, n);
      assert buf[n] == buf[n..][0];
    }
  }

  method Terminate(buf: array<char>, n: nat)
    requires n < buf.Length
    modifies buf
    ensures buf[..n] == old(buf[..n]) && buf[n] == '\0' && buf[n..][0] == '\0'
  {
    buf[n] := '\0';
  }

  method PrintBackwards(num: int, buf: array<char>, base: nat) returns (ends: bool, n: nat)
    requires LONG_MIN <= num <= LONG_MAX && num != 0 && 2 <= base <= 36 && buf.Length >= 36
    modifies buf
    ensures ends == PrintedBackwards(num, base).Output?
    ensures ends ==> 0 < n < buf.Length && buf[..n] == PrintedBackwards(num, base).text
  {
    ends, n := PrintDigits(Magnitude(num, base), buf, base);
    if ends {
      if base == 10 && num < 0 {
        n := Append(buf, n, "-");
      }
      n := Append(buf, n, Suffix(base));
    }
  }

  /** A number of `k` bits has at most `k` characters. */
  lemma {:induction false} FewChars(i: nat, base: nat, k: nat)
    requires i < WORD && 2 <= base <= 36 && i < Shl(1, k) && i < 0x8000_0000
    ensures CharsBackwards(i, base).Output? && |CharsBackwards(i, base).text| <= k
  {
    if i > 0 { SmallDividend(base, i); }
    DigitsIf(i, base);
    FewDigits(i, base, k);
  }

  lemma AtMost32(i: nat, base: nat)
    requires i < WORD && 2 <= base <= 36
    ensures CharsBackwards(i, base).Output? ==> |CharsBackwards(i, base).text| <= 32
    ensures i > 0 && CharsBackwards(i, base).Output? ==> CharsBackwards(i, base).text != ""
  {
    TwoToThe32();
    if i > 0 && DivOf(i, base).Returns? {
      AnswerSmaller(i, base);
      FewChars(DivOf(i, base).answer, base, 31);
    }
  }

  method PrintDigits(number: nat, buf: array<char>, base: nat) returns (ends: bool, n: nat)
    requires 0 < number < WORD && 2 <= base <= 36 && buf.Length >= 36
    modifies buf
    ensures ends == CharsBackwards(number, base).Output?
    ensures ends ==> 0 < n <= 32 && buf[..n] == CharsBackwards(number, base).text
  {
    ghost var all := CharsBackwards(number, base);
    AtMost32(number, base);
    var i: nat := number;
    n := 0;
    while i != 0
      invariant i <= number && (all.Endless? ==> n == 0 && i == number)
      invariant all.Output? ==> n <= |all.text| && CharsBackwards(i, base) == Output(all.text[n..]) && buf[..n] == all.text[..n]
      decreases i
    {
      AnswerSmaller(i, base);
      if all.Endless? { NeverLater(number, base); } else { NextChar(i, base, all.text[n..]); }
      var q, r := DivMod32(i, base);
      if q.Forever? {
        return false, n;
      }
      assert all.text[n] == CharOf(r) && all.text[n..][1..] == all.text[n + 1..];
      buf[n] := CharOf(r);
      n := n + 1;
      i := q.answer;
    }
    ends := true;
  }

  lemma NextChar(i: nat, base: nat, text: string)
    requires 0 < i < WORD && 2 <= base <= 36 && CharsBackwards(i, base) == Output(text)
    ensures DivOf(i, base).Returns? && DivOf(i, base).answer < i && text != ""
    ensures var q := DivOf(i, base).answer;
      text[0] == CharOf(Left(i, base, q)) && CharsBackwards(q, base) == Output(text[1..])
  {
    AnswerSmaller(i, base);
  }

  /** Only the first division can fail to end. */
  lemma NeverLater(i: nat, base: nat)
    requires 0 < i < WORD && 2 <= base <= 36 && CharsBackwards(i, base) == Endless
    ensures DivOf(i, base) == Forever
  {
    if DivOf(i, base).Returns? {
      AnswerSmaller(i, base);
      var q := DivOf(i, base).answer;
      if q > 0 { SmallDividend(base, q); }
      DigitsIf(q, base);
    }
  }

  method Append(buf: array<char>, n0: nat, s: string) returns (n: nat)
    requires n0 + |s| <= buf.Length
    modifies buf
    ensures n == n0 + |s| && buf[..n] == old(buf[..n0]) + s
  {
    n := n0;
    while n < n0 + |s|
      invariant n0 <= n <= n0 + |s| && buf[..n] == old(buf[..n0]) + s[..n - n0]
    {
      buf[n] := s[n - n0];
      n := n + 1;
    }
  }

  // ---------- reading what was printed ----------

  lemma {:induction false} RunIs(s: string, i: nat, ds: seq<nat>, base: nat)
    requires base <= 36 && AreDigits(ds, base) && i + |ds| == |s| && s[i..] == CharsOf(ds, base)
    ensures DigitRun(s, i, base) == ds
    decreases |ds|
  {
    if ds != [] {
      assert s[i] == s[i..][0] == DigitChar(ds[0]);
      assert s[i + 1..] == s[i..][1..] == CharsOf(ds[1..], base);
      RunIs(s, i + 1, ds[1..], base);
    }
  }

  lemma ReversedAppend<T>(a: seq<T>, b: seq<T>)
    ensures Reversed(a + b) == Reversed(b) + Reversed(a)
  {
  }

  lemma ReversedChars(ds: seq<nat>, base: nat)
    requires base <= 36 && AreDigits(ds, base)
    ensures AreDigits(Reversed(ds), base) && Reversed(CharsOf(ds, base)) == CharsOf(Reversed(ds), base)
  {
  }

  /** In base 10 the text is the sign and the digits. */
  lemma DecimalText(n: int)
    requires n != 0
    ensures var ds := Reversed(LowFirst(Magnitude(n, 10), 10));
      && AreDigits(ds, 10) && ds != []
      && TextOf(n, 10) == (if n < 0 then "-" else "") + CharsOf(ds, 10)
  {
    var low := LowFirst(Magnitude(n, 10), 10);
    ReversedChars(low, 10);
    ReversedAppend(CharsOf(low, 10), if n < 0 then "-" else "");
    assert Backwards(n, 10) == CharsOf(low, 10) + if n < 0 then "-" else "";
  }

  /** Reading digits behind a sign or none. */
  lemma ReadsBack(s: string, negative: bool, ds: seq<nat>)
    requires AreDigits(ds, 10) && ds != [] && s == (if negative then "-" else "") + CharsOf(ds, 10)
    ensures LongOf(s, 10) == Clamped(negative, Value(ds, 10))
  {
    var start := if negative then 1 else 0;
    assert s[start] == DigitChar(ds[0]);
    assert s[start..] == CharsOf(ds, 10);
    assert HeadOf(s, 10) == Head(start, 10, negative, false);
    RunIs(s, start, ds, 10);
  }

  /** Every number of 32 signed bits, printed in base 10, is read back. */
  lemma AtoiOfItoa(n: int)
    requires LONG_MIN <= n <= LONG_MAX
    ensures Printed(n, 10) == Output(TextOf(n, 10)) && LongOf(TextOf(n, 10), 10) == n
  {
    PrintedIff(n, 10);
    if n == 0 {
      ReadsBack("0", false, [0]);
      assert TextOf(0, 10) == "0" == "" + CharsOf([0], 10);
      assert Value([0], 10) == 0;
    } else {
      TenPasses(Magnitude(n, 10));
      DecimalText(n);
      LowFirstReversed(Magnitude(n, 10), 10);
      ReadsBack(TextOf(n, 10), n < 0, Reversed(LowFirst(Magnitude(n, 10), 10)));
    }
  }

  lemma TenPasses(n: nat)
    requires n <= 0x8000_0000
    ensures DoublesPast(10, n)
  {
    assert Shl(10, 7) == 0x500 && Shl(10, 14) == 0x2_8000 && Shl(10, 21) == 0x140_0000 && Shl(10, 28) == 0xA000_0000;
    ThenDoublesPast(10, n, 28);
  }

  /** A power of two shifted up in 32 bits stays one until it is gone. */
  lemma {:induction false} PowerWraps(i: nat, k: nat) returns (j: nat)
    requires i <= 31 && Shl(1, i) < WORD
    ensures j <= 31 && (Wrapped(Shl(1, i), k) == 0 || Wrapped(Shl(1, i), k) == Shl(1, j))
    decreases k
  {
    j := i;
    if k > 0 {
      j := PowerWraps(i, k - 1);
      if j < 31 {
        ShlBounded(j + 1);
        j := j + 1;
      } else {
        TwoToThe32();
      }
    }
  }

  lemma {:induction false} ShlBounded(j: nat)
    requires j <= 31
    ensures Shl(1, j) <= 0x8000_0000
    decreases 31 - j
  {
    if j < 31 { ShlBounded(j + 1); } else { TwoToThe32(); }
  }

  lemma PowersAreBases(i: nat)
    requires 1 <= i <= 5
    ensures 2 <= Shl(1, i) <= 32 && Shl(1, i) != 10
  {
    assert Shl(1, 1) == 2 && Shl(1, 2) == 4 && Shl(1, 3) == 8;
    assert Shl(1, 5) == 4 * Shl(1, 3);
  }

  lemma PowerForever(n: nat, i: nat)
    requires 0x8000_0000 <= n < WORD && i <= 30
    ensures Shl(1, i) < 0x8000_0000 && DivOf(n, Shl(1, i)) == Forever
  {
    ShlBounded(i + 1);
    forall k: nat ensures Wrapped(Shl(1, i), k) <= n {
      var j := PowerWraps(i, k);
      ShlBounded(j);
    }
    ForeverIff(n, Shl(1, i));
  }

  lemma LargeMagnitude(num: int, base: nat)
    requires LONG_MIN <= num < 0 && base != 10
    ensures Magnitude(num, base) == num + WORD
  {
  }

  /** A negative number in base 2, 4, 8, 16 or 32 is never printed: its first division shifts the divisor up
      for ever. */
  lemma NegativeNeverPrinted(num: int, i: nat)
    requires LONG_MIN <= num < 0 && 1 <= i <= 5
    ensures 2 <= Shl(1, i) <= 36 && Printed(num, Shl(1, i)) == Endless
  {
    PowersAreBases(i);
    var base := Shl(1, i);
    var n := Magnitude(num, base);
    LargeMagnitude(num, base);
    PowerForever(n, i);
    assert CharsBackwards(n, base) == Endless;
  }

  // ---------- what is read ----------

  /** In the given base the body is read in base `b`: with a prefix in base 16; else in base 8 or 10, as its first
      character says, if no base is given. It begins with a digit, and not with a prefix. */
  ghost predicate Readable(hex: bool, body: string, base: nat, b: nat) {
    && (base == 0 || 2 <= base <= 36)
    && (hex ==> b == 16 && (base == 0 || base == 16))
    && (!hex ==> body != "" && DigitValue(body[0]) < b == if base != 0 then base else if body[0] == '0' then 8 else 10)
    && (!hex && (base == 0 || base == 16) && body[0] == '0' && |body| > 1 ==> body[1] != 'x' && body[1] != 'X')
  }

  /** The digits at the beginning of a text, and no more. */
  ghost predicate BeginsWith(body: string, ds: seq<nat>, b: nat) {
    && |ds| <= |body| && AreDigits(ds, b) && SpellsAll(body[..|ds|], ds)
    && (|ds| < |body| ==> DigitValue(body[|ds|]) >= b)
  }

  /** Blanks, a sign, a prefix and digits of either case are read as the number they mean, clamped to 32 signed
      bits; what comes behind the digits is left. */
  lemma ReadsText(s: string, k: nat, sign: Sign, hex: bool, body: string, ds: seq<nat>, base: nat, b: nat)
    requires LaidOut(s, k, sign, hex, body) && (forall x :: 0 <= x < k ==> s[x] == ' ')
    requires Readable(hex, body, base, b) && b <= 36 && BeginsWith(body, ds, b)
    ensures var start := k + SignLength(sign) + PrefixLength(hex);
      && HeadOf(s, base) == Head(start, b, sign == Minus, hex) && DigitRun(s, start, b) == ds
      && LongOf(s, base) == Clamped(sign == Minus, Value(ds, b))
  {
    HeadIs(s, k, sign, hex, body, base, b);
    RunOfText(s, k + SignLength(sign) + PrefixLength(hex), body, ds, b);
  }

  lemma {:induction false} SkipsBlanks(s: string, i: nat, k: nat)
    requires i <= k <= |s| && (forall j :: i <= j < k ==> s[j] == ' ') && (k < |s| ==> s[k] != ' ')
    ensures SkipSpaces(s, i) == k
    decreases k - i
  {
    if i < k { SkipsBlanks(s, i + 1, k); }
  }

  lemma HeadIs(s: string, k: nat, sign: Sign, hex: bool, body: string, base: nat, b: nat)
    requires LaidOut(s, k, sign, hex, body) && (forall x :: 0 <= x < k ==> s[x] == ' ')
    requires Readable(hex, body, base, b) && b <= 36
    ensures HeadOf(s, base) == Head(k + SignLength(sign) + PrefixLength(hex), b, sign == Minus, hex)
  {
    var j := k + SignLength(sign);
    if !hex { NoSignInFront(s, j, body, b); }
    SkipsBlanks(s, 0, k);
  }

  lemma NoSignInFront(s: string, j: nat, body: string, b: nat)
    requires j <= |s| && s[j..] == body && body != "" && DigitValue(body[0]) < b <= 36
    ensures At(s, j) == body[0] && At(s, j) != ' ' && At(s, j) != '+' && At(s, j) != '-'
    ensures At(s, j + 1) == if |body| > 1 then body[1] else '\0'
  {
    assert |s| == j + |body| && s[j] == s[j..][0];
    if |body| > 1 { assert s[j + 1] == s[j..][1]; }
  }

  lemma {:induction false} RunOfText(s: string, i: nat, body: string, ds: seq<nat>, b: nat)
    requires i <= |s| && s[i..] == body && b <= 36 && BeginsWith(body, ds, b)
    ensures DigitRun(s, i, b) == ds
    decreases |ds|
  {
    assert |s| == i + |body|;
    if ds == [] {
      if i < |s| { assert s[i] == body[0]; }
    } else {
      assert s[i] == body[0] == body[..|ds|][0];
      WhatIsADigit(s[i], ds[0]);
      var rest := body[1..];
      assert s[i + 1..] == rest;
      assert body[..|ds|][1..] == rest[..|ds| - 1];
      RunOfText(s, i + 1, rest, ds[1..], b);
    }
  }

  // ---------- what is printed ----------

  /** The digits of the number, or of its 32 bits, in small letters. */
  lemma DigitsAre(num: int, base: nat)
    requires 2 <= base <= 36 && num != 0 && LONG_MIN <= num <= LONG_MAX
    ensures var ds := Reversed(LowFirst(Magnitude(num, base), base));
      && AreDigits(ds, base) && Value(ds, base) == (if num > 0 then num else if base == 10 then -num else num + 0x1_0000_0000)
      && forall i :: 0 <= i < |ds| ==>
           CharsOf(ds, base)[i] as int == if ds[i] < 10 then 48 + ds[i] else 97 + (ds[i] - 10)
  {
    LowFirstReversed(Magnitude(num, base), base);
    ReversedChars(LowFirst(Magnitude(num, base), base), base);
    if num < 0 && base != 10 { LargeMagnitude(num, base); }
  }

  /** In every base: the prefix of the bases 16, 8 and 2, the sign of a negative decimal number, and the
      digits; zero is just that. */
  lemma TextIs(num: int, base: nat)
    requires 2 <= base <= 36 && LONG_MIN <= num <= LONG_MAX
    ensures num == 0 ==> TextOf(num, base) == "0"
    ensures num != 0 ==>
      var ds := Reversed(LowFirst(Magnitude(num, base), base));
      && AreDigits(ds, base)
      && TextOf(num, base) == (if base == 16 then "0x" else if base == 8 then "0" else if base == 2 then "0b" else "")
           + ((if base == 10 && num < 0 then "-" else "") + CharsOf(ds, base))
  {
    if num == 0 {
      assert Reversed("0") == "0";
    } else {
      var low := LowFirst(Magnitude(num, base), base);
      ReversedChars(low, base);
      ThreeParts(CharsOf(low, base), if base == 10 && num < 0 then "-" else "", base);
    }
  }

  lemma ThreeParts(chars: string, sign: string, base: nat)
    requires |sign| <= 1
    ensures Reversed(chars + sign + Suffix(base))
      == (if base == 16 then "0x" else if base == 8 then "0" else if base == 2 then "0b" else "") + (sign + Reversed(chars))
  {
    ReversedAppend(chars + sign, Suffix(base));
    ReversedAppend(chars, sign);
    assert Reversed(sign) == sign;
    SuffixIs(base);
  }

  lemma SuffixIs(base: nat)
    ensures Reversed(Suffix(base)) == if base == 16 then "0x" else if base == 8 then "0" else if base == 2 then "0b" else ""
  {
  }
}
