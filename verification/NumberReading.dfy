/** Reading numbers: blanks, sign, prefix, digits, and the test for overflow, in 32-bit arithmetic.
    Strings are given without their terminator. */
module NumberReading {
  import opened Words
  import opened Numerals
  import opened NumberText

  /** What is read, and where reading stopped. */
  datatype Parsed = Parsed(value: nat, end: nat)

  predicate IsBlank(c: char) {
    c == ' ' || c == 12 as char || c == '\n' || c == '\r' || c == '\t' || c == 11 as char
  }

  function SkipBlanks(s: string, i: nat): (j: nat)
    requires i <= |s|
    ensures i <= j <= |s|
    decreases |s| - i
  {
    if i < |s| && IsBlank(s[i]) then SkipBlanks(s, i + 1) else i
  }

  /** The value a character has as a digit, by the arithmetic on its code; -1 below the digits. */
  function DigitValue(c: char): int {
    var x := c as int;
    if x < '0' as int then -1
    else
      var y := if 'a' as int <= x <= 'z' as int then x - 32 else x;
      (if y >= 'A' as int then y - 7 else y) - '0' as int
  }

  predicate IsDigit(c: char, base: nat) {
    0 <= DigitValue(c) < base
  }

  /** The digits and letters are digits as they should be; but so are the six characters behind 9 and
      the one in front of A, in the bases above 10. */
  lemma WhatIsADigit(c: char, base: nat)
    requires base <= 36
    ensures IsDigit(c, base) <==>
      ('0' <= c <= '9' && c as int - '0' as int < base)
      || ('a' <= c <= 'z' && c as int - 'a' as int + 10 < base)
      || ('A' <= c <= 'Z' && c as int - 'A' as int + 10 < base)
      || (':' <= c <= '@' && c as int - '0' as int < base)
  {
  }

  /** In a base that is none nothing is read. */
  lemma OtherBases(s: string, base: nat)
    requires base == 1 || base > 36
    ensures Strtoul(s, base) == Parsed(0, 0)
  {
  }

  function Negated(n: nat): nat {
    U32(0 - (n as int))
  }

  datatype Scan = Scan(value: nat, end: nat, any: bool, overflow: bool)

  /** Read digits behind a number read already. */
  function Accumulate(s: string, i: nat, base: nat, acc: nat, any: bool): Scan
    requires i <= |s|
    decreases |s| - i
  {
    if i == |s| || !IsDigit(s[i], base) then Scan(acc, i, any, false)
    else
      var next := U32(U32(acc * base) + DigitValue(s[i]));
      if next < acc then Scan(0xFFFF_FFFF, i, true, true) else Accumulate(s, i + 1, base, next, true)
  }

  function Finish(s: string, i: nat, base: nat, minus: bool): Parsed
    requires i <= |s|
  {
    var r := Accumulate(s, i, base, 0, false);
    Parsed(if minus && r.any && !r.overflow then Negated(r.value) else r.value, r.end)
  }

  /** Behind the sign: the prefix decides on the base if none is given. */
  function ReadUnsigned(s: string, i: nat, base: nat, minus: bool): Parsed
    requires i <= |s|
  {
    if At(s, i) == '0' then
      if At(s, i + 1) == 'x' || At(s, i + 1) == 'X' then
        if base != 0 && base != 16 then Parsed(0, 0) else Finish(s, i + 2, 16, minus)
      else Finish(s, i + 1, if base == 0 then 8 else base, minus)
    else Finish(s, i, if base == 0 then 10 else base, minus)
  }

  function Strtoul(s: string, base: nat): Parsed {
    if base != 0 && (base < 2 || base > 36) then Parsed(0, 0)
    else
      var i := SkipBlanks(s, 0);
      if At(s, i) == '+' || At(s, i) == '-' then ReadUnsigned(s, i + 1, base, At(s, i) == '-')
      else ReadUnsigned(s, i, base, false)
  }

  // ---------- what is read ----------

  /** The characters from `i` on are these digits, and no more. */
  ghost predicate DigitsAt(s: string, i: nat, ds: seq<nat>, base: nat) {
    && i + |ds| <= |s|
    && (forall k :: 0 <= k < |ds| ==> ds[k] < base && DigitValue(s[i + k]) == ds[k])
    && (i + |ds| < |s| ==> !IsDigit(s[i + |ds|], base))
  }

  /** Digits of a number that fits into 32 bits are read as that number; `pre` are those read already. */
  lemma {:induction false} ReadsDigits(s: string, i: nat, pre: seq<nat>, ds: seq<nat>, base: nat, any: bool)
    requires DigitsAt(s, i, ds, base) && base >= 1 && Value(pre + ds, base) < WORD
    ensures Accumulate(s, i, base, Value(pre, base), any) == Scan(Value(pre + ds, base), i + |ds|, any || ds != [], false)
    decreases |ds|
  {
    if ds == [] {
      assert pre + ds == pre;
    } else {
      var d, rest := ds[0], ds[1..];
      OneMoreDigit(pre, ds, base);
      ReadsOne(s, i, base, Value(pre, base), d, any);
      ReadsDigits(s, i + 1, pre + [d], rest, base, true);
    }
  }

  lemma OneMoreDigit(pre: seq<nat>, ds: seq<nat>, base: nat)
    requires ds != [] && base >= 1
    ensures pre + ds == (pre + [ds[0]]) + ds[1..]
    ensures Value(pre + [ds[0]], base) == Value(pre, base) * base + ds[0] <= Value(pre + ds, base)
  {
    DigitMoved(pre, ds);
    ValueOfPrefix(pre + ds, base, |pre| + 1);
    ValueSnoc(pre, base, ds[0]);
  }

  lemma DigitMoved(pre: seq<nat>, ds: seq<nat>)
    requires ds != []
    ensures pre + ds == (pre + [ds[0]]) + ds[1..]
    ensures (pre + ds)[..|pre| + 1] == pre + [ds[0]]
  {
  }

  /** A digit that leaves the number in range is taken; the overflow test does not strike. */
  lemma ReadsOne(s: string, i: nat, base: nat, acc: nat, d: nat, any: bool)
    requires i < |s| && DigitValue(s[i]) == d < base && base >= 1 && acc * base + d < WORD
    ensures Accumulate(s, i, base, acc, any) == Accumulate(s, i + 1, base, acc * base + d, true)
  {
    MulMono(1, base, acc);
    Small(acc * base, d);
  }

  lemma Small(x: nat, d: nat)
    requires x + d < WORD
    ensures U32(U32(x) + d) == x + d
  {
  }

  lemma FinishReads(s: string, i: nat, ds: seq<nat>, base: nat, minus: bool)
    requires DigitsAt(s, i, ds, base) && base >= 1 && Value(ds, base) < WORD
    ensures Finish(s, i, base, minus) == Parsed(if minus && ds != [] then Negated(Value(ds, base)) else Value(ds, base), i + |ds|)
  {
    assert [] + ds == ds;
    ReadsDigits(s, i, [], ds, base, false);
  }

  // ---------- reading what was printed ----------

  lemma DigitCharReads(d: nat, upcase: bool)
    requires d < 36
    ensures DigitValue(DigitChar(d, upcase)) == d
    ensures DigitChar(d, upcase) == '0' <==> d == 0
    ensures !IsBlank(DigitChar(d, upcase)) && DigitChar(d, upcase) != '+' && DigitChar(d, upcase) != '-'
  {
  }

  /** These digits are printed at place `i` of a string, and nothing that could belong to them follows. */
  ghost predicate TextAt(s: string, i: nat, ds: seq<nat>, base: nat, upcase: bool)
    requires base <= 36 && AreDigits(ds, base)
  {
    var end := i + |ds|;
    end <= |s| && s[i..end] == TextOf(ds, base, upcase) && (end < |s| ==> !IsDigit(s[end], base))
  }

  lemma TextReads(s: string, i: nat, ds: seq<nat>, base: nat, upcase: bool)
    requires base <= 36 && AreDigits(ds, base) && ds != [] && TextAt(s, i, ds, base, upcase)
    ensures DigitsAt(s, i, ds, base)
    ensures i < |s| && (s[i] == '0' <==> ds[0] == 0)
    ensures !IsBlank(s[i]) && s[i] != '+' && s[i] != '-'
  {
    forall k | 0 <= k < |ds|
      ensures s[i + k] == DigitChar(ds[k], upcase) && DigitValue(s[i + k]) == ds[k]
    {
      assert s[i + k] == s[i..i + |ds|][k];
      DigitCharReads(ds[k], upcase);
    }
    DigitCharReads(ds[0], upcase);
    assert s[i] == s[i + 0];
  }

  /** Only zero is printed with a leading zero. */
  lemma {:induction false} LeadingDigit(n: nat, b: nat)
    requires b >= 2
    ensures Digits(n, b)[0] == 0 <==> n == 0
    ensures n == 0 ==> Digits(n, b) == [0]
  {
    if n < b {
      Quotient(n, b, 0, n);
      assert Padded(n, b, 1) == Padded(n / b, b, 0) + [n % b];
    } else {
      Smaller(n, b);
      assert n / b > 0;
      LeadingDigit(n / b, b);
      assert Digits(n, b) == Digits(n / b, b) + [n % b];
    }
  }

  /** Digits without a leading zero are read in the given base, or as a decimal number. */
  lemma ReadsPlain(s: string, i: nat, ds: seq<nat>, base: nat, minus: bool)
    requires (base == 0 || base == 10) && AreDigits(ds, 10) && ds != [] && ds[0] != 0 && TextAt(s, i, ds, 10, false)
    requires Value(ds, 10) < WORD
    ensures var n := Value(ds, 10);
      ReadUnsigned(s, i, base, minus) == Parsed(if minus then Negated(n) else n, i + |ds|)
  {
    TextReads(s, i, ds, 10, false);
    FinishReads(s, i, ds, 10, minus);
  }

  /** A zero on its own is read as zero; it is taken for the beginning of an octal number. */
  lemma ReadsZero(s: string, i: nat, base: nat, minus: bool)
    requires (base == 0 || base == 10) && i < |s| && s[i] == '0'
    requires i + 1 < |s| ==> s[i + 1] != 'x' && s[i + 1] != 'X' && !IsDigit(s[i + 1], 10)
    ensures ReadUnsigned(s, i, base, minus) == Parsed(0, i + 1)
  {
    FinishReads(s, i + 1, [], if base == 0 then 8 else 10, minus);
  }

  /** A decimal number, printed, is read back; no prefix is taken for part of it. */
  lemma ReadsDecimal(s: string, i: nat, n: nat, base: nat, minus: bool)
    requires (base == 0 || base == 10) && n < WORD && TextAt(s, i, Digits(n, 10), 10, false)
    requires n == 0 && i + 1 < |s| ==> s[i + 1] != 'x' && s[i + 1] != 'X'
    ensures ReadUnsigned(s, i, base, minus) == Parsed(if minus then Negated(n) else n, i + |Digits(n, 10)|)
  {
    var ds := Digits(n, 10);
    LeadingDigit(n, 10);
    ValueOfDigits(n, 10);
    if n == 0 {
      TextReads(s, i, ds, 10, false);
      ReadsZero(s, i, base, minus);
    } else {
      ReadsPlain(s, i, ds, base, minus);
    }
  }

  // ---------- whatever is written ----------

  /** Blanks are space, form feed, line feed, carriage return, and the two tabs. */
  lemma WhatIsABlank(c: char)
    ensures IsBlank(c) <==> c as int in {32, 12, 10, 13, 9, 11}
  {
  }

  lemma SpelledIsDigit(c: char, d: nat)
    requires Spells(c, d)
    ensures DigitValue(c) == d && !IsBlank(c) && c != '+' && c != '-' && (c == '0' <==> d == 0)
  {
  }

  /** In the given base the body is read in base `b`: with a prefix in base 16; else in base 8 or 10, as its first
      character says, if no base is given. It does not begin with a prefix. */
  ghost predicate Readable(hex: bool, body: string, base: nat, b: nat) {
    && (base == 0 || 2 <= base <= 36)
    && (hex ==> b == 16 && (base == 0 || base == 16))
    && (!hex ==> body != "" && b == if base != 0 then base else if body[0] == '0' then 8 else 10)
    && (!hex && body[0] == '0' && |body| > 1 ==> body[1] != 'x' && body[1] != 'X')
  }

  ghost predicate BeginsWith(body: string, ds: seq<nat>, b: nat) {
    && |ds| <= |body| && AreDigits(ds, b) && SpellsAll(body[..|ds|], ds)
    && (|ds| < |body| ==> !IsDigit(body[|ds|], b))
  }

  /** Blanks, a sign, a prefix and digits of either case are read as the number they mean, a negative one as its
      32 bits; reading stops behind the digits. */
  lemma ReadsText(s: string, k: nat, sign: Sign, hex: bool, body: string, ds: seq<nat>, base: nat, b: nat)
    requires LaidOut(s, k, sign, hex, body) && (forall x :: 0 <= x < k ==> IsBlank(s[x]))
    requires Readable(hex, body, base, b) && b <= 36 && BeginsWith(body, ds, b) && (hex || ds != []) && Value(ds, b) < WORD
    ensures var n := Value(ds, b);
      Strtoul(s, base) == Parsed(if sign == Minus && n > 0 then 0x1_0000_0000 - n else n,
                                 k + SignLength(sign) + PrefixLength(hex) + |ds|)
  {
    ReadsAnyText(s, k, sign, hex, body, ds, base, b);
    InRangeOutcome(k + SignLength(sign) + PrefixLength(hex), ds, b, sign == Minus);
  }

  lemma InRangeOutcome(start: nat, ds: seq<nat>, b: nat, minus: bool)
    requires Value(ds, b) < WORD && b >= 1
    ensures var n := Value(ds, b);
      Outcome(start, ds, b, minus) == Parsed(if minus && n > 0 then 0x1_0000_0000 - n else n, start + |ds|)
  {
    InRangeNeverDrops(ds, b, 0);
    AllRead(start, ds, b, minus, Value(ds, b));
  }

  lemma AllRead(start: nat, ds: seq<nat>, b: nat, minus: bool, n: nat)
    requires FirstDrop(ds, b, 0) == |ds| && n == Value(ds, b) < WORD
    ensures Outcome(start, ds, b, minus) == Parsed(Returned(n, minus), start + |ds|)
  {
    InWord(n);
  }

  lemma InWord(n: nat)
    requires n < WORD
    ensures n % WORD == n
  {
  }

  /** The same for numbers of any size: the value is taken modulo 2^32, unless it drops from one digit to the
      next, where reading stops with the greatest number. */
  lemma ReadsAnyText(s: string, k: nat, sign: Sign, hex: bool, body: string, ds: seq<nat>, base: nat, b: nat)
    requires LaidOut(s, k, sign, hex, body) && (forall x :: 0 <= x < k ==> IsBlank(s[x]))
    requires Readable(hex, body, base, b) && b <= 36 && BeginsWith(body, ds, b) && (hex || ds != [])
    ensures Strtoul(s, base) == Outcome(k + SignLength(sign) + PrefixLength(hex), ds, b, sign == Minus)
  {
    var j := k + SignLength(sign);
    BodyInFront(s, j, hex, body, ds, b);
    BehindSign(s, k, sign, base);
    if hex {
      DigitsThere(s, j + 2, body, ds, 16);
      FinishReadsAny(s, j + 2, ds, 16, sign == Minus);
    } else {
      WithoutPrefix(s, j, body, ds, base, b, sign == Minus);
    }
  }

  /** A number out of range should give the greatest number there is. It does if and only if the value drops at
      some digit in 32 bits, or happens to come out as that number. */
  lemma OutOfRangeIff(s: string, k: nat, sign: Sign, hex: bool, body: string, ds: seq<nat>, base: nat, b: nat)
    requires LaidOut(s, k, sign, hex, body) && (forall x :: 0 <= x < k ==> IsBlank(s[x]))
    requires Readable(hex, body, base, b) && b <= 36 && BeginsWith(body, ds, b) && (hex || ds != [])
    requires Value(ds, b) >= WORD
    ensures Strtoul(s, base).value == 0xFFFF_FFFF <==>
      (exists n: nat :: n < |ds| && Drops(ds, b, n)) || Value(ds, b) % WORD == if sign == Minus then 1 else 0xFFFF_FFFF
  {
    ReadsAnyText(s, k, sign, hex, body, ds, base, b);
    OutcomeIff(k + SignLength(sign) + PrefixLength(hex), ds, b, sign == Minus);
  }

  lemma OutcomeIff(start: nat, ds: seq<nat>, b: nat, minus: bool)
    ensures Outcome(start, ds, b, minus).value == 0xFFFF_FFFF <==>
      (exists n: nat :: n < |ds| && Drops(ds, b, n)) || Value(ds, b) % WORD == if minus then 1 else 0xFFFF_FFFF
  {
    FirstDropIs(ds, b, 0);
  }

  /** Such a number is read as another one: of 6000000000, what is left modulo 2^32. */
  lemma SixBillion(s: string)
    requires |s| == 10 && s[0] == '6' && forall k :: 1 <= k < 10 ==> s[k] == '0'
    ensures Strtoul(s, 10) == Parsed(1705032704, 10)
  {
    var ds := seq(10, k => if k == 0 then 6 else 0);
    assert s[0..] == s && s[..10] == s && ds[..10] == ds;
    forall n: nat | n < 10 ensures !Drops(ds, 10, n) {
      SixThenZeros(ds, n);
      SixThenZeros(ds, n + 1);
    }
    SixThenZeros(ds, 10);
    FirstDropIs(ds, 10, 0);
    SixInFront(s, ds);
    ReadsAnyText(s, 0, NoSign, false, s, ds, 10, 10);
  }

  lemma SixInFront(s: string, ds: seq<nat>)
    requires |s| == 10 == |ds| && s[0] == '6' && forall k :: 1 <= k < 10 ==> s[k] == '0'
    requires ds[0] == 6 && forall k :: 1 <= k < 10 ==> ds[k] == 0
    ensures BeginsWith(s, ds, 10)
  {
    assert s[..10] == s;
  }

  /** Six followed by `n - 1` zeros, in 32 bits. */
  function SixInWords(n: nat): nat {
    if n == 0 then 0 else if n == 1 then 6 else if n == 2 then 60 else if n == 3 then 600 else if n == 4 then 6000
    else if n == 5 then 60000 else if n == 6 then 600000 else if n == 7 then 6000000 else if n == 8 then 60000000
    else if n == 9 then 600000000 else 1705032704
  }

  lemma SixStep(n: nat)
    requires 1 <= n <= 10
    ensures SixInWords(n) == U32(U32(SixInWords(n - 1) * 10) + if n == 1 then 6 else 0)
  {
  }

  lemma {:induction false} SixThenZeros(ds: seq<nat>, n: nat)
    requires n <= 10 == |ds| && ds[0] == 6 && forall k :: 1 <= k < 10 ==> ds[k] == 0
    ensures Wrapped(ds, 10, n) == SixInWords(n)
  {
    if n > 0 {
      SixThenZeros(ds, n - 1);
      NextDigit(ds, 10, n - 1);
      SixStep(n);
    }
  }

  /** A prefix in any base but 16 is refused as a whole. */
  lemma PrefixRefused(s: string, k: nat, sign: Sign, body: string, base: nat)
    requires LaidOut(s, k, sign, true, body) && (forall x :: 0 <= x < k ==> IsBlank(s[x]))
    requires 2 <= base <= 36 && base != 16
    ensures Strtoul(s, base) == Parsed(0, 0)
  {
    BehindSign(s, k, sign, base);
  }

  // ---------- in 32 bits ----------

  /** The value of the first `k` digits in 32 bits. */
  function Wrapped(ds: seq<nat>, b: nat, k: nat): nat
    requires k <= |ds|
  {
    Value(ds[..k], b) % WORD
  }

  predicate Drops(ds: seq<nat>, b: nat, k: nat)
    requires k < |ds|
  {
    Wrapped(ds, b, k + 1) < Wrapped(ds, b, k)
  }

  /** The first digit from the `k`-th on at which it drops; or all of them have been read. */
  function FirstDrop(ds: seq<nat>, b: nat, k: nat): (n: nat)
    requires k <= |ds|
    ensures k <= n <= |ds|
    decreases |ds| - k
  {
    if k == |ds| || Drops(ds, b, k) then k else FirstDrop(ds, b, k + 1)
  }

  lemma {:induction false} FirstDropIs(ds: seq<nat>, b: nat, k: nat)
    requires k <= |ds|
    ensures var n := FirstDrop(ds, b, k);
      (n < |ds| ==> Drops(ds, b, n)) && forall j :: k <= j < n ==> !Drops(ds, b, j)
    decreases |ds| - k
  {
    if k < |ds| && !Drops(ds, b, k) { FirstDropIs(ds, b, k + 1); }
  }

  function Outcome(start: nat, ds: seq<nat>, b: nat, minus: bool): Parsed {
    var n := FirstDrop(ds, b, 0);
    if n < |ds| then Parsed(0xFFFF_FFFF, start + n) else Parsed(Returned(Value(ds, b) % WORD, minus), start + |ds|)
  }

  lemma {:induction false} InRangeNeverDrops(ds: seq<nat>, b: nat, k: nat)
    requires k <= |ds| && Value(ds, b) < WORD && b >= 1
    ensures FirstDrop(ds, b, k) == |ds|
    decreases |ds| - k
  {
    if k < |ds| {
      ValueOfPrefix(ds, b, k);
      ValueOfPrefix(ds, b, k + 1);
      NextDigit(ds, b, k);
      MulMono(1, b, Value(ds[..k], b));
      InRangeNeverDrops(ds, b, k + 1);
    }
  }

  lemma NextDigit(ds: seq<nat>, b: nat, k: nat)
    requires k < |ds|
    ensures Value(ds[..k + 1], b) == Value(ds[..k], b) * b + ds[k]
    ensures Wrapped(ds, b, k + 1) == U32(U32(Wrapped(ds, b, k) * b) + ds[k])
  {
    assert ds[..k + 1][..k] == ds[..k];
    WrapsAlike(Value(ds[..k], b), b, ds[k]);
  }

  lemma WrapsAlike(v: nat, b: nat, d: nat)
    ensures (v * b + d) % WORD == U32(U32(v % WORD * b) + d)
  {
    var q, r := v / WORD, v % WORD;
    var t := r * b / WORD;
    assert v * b == (q * WORD + r) * b == q * b * WORD + r * b;
    assert r * b == t * WORD + r * b % WORD;
    assert v * b + d == (q * b + t) * WORD + (r * b % WORD + d);
    MultipleOff(q * b + t, r * b % WORD + d);
  }

  lemma MultipleOff(k: nat, x: nat)
    ensures (k * WORD + x) % WORD == x % WORD
  {
  }

  lemma {:induction false} AccumulatesAny(s: string, i: nat, ds: seq<nat>, b: nat, k: nat, any: bool)
    requires DigitsAt(s, i, ds, b) && k <= |ds|
    ensures var n := FirstDrop(ds, b, k);
      Accumulate(s, i + k, b, Wrapped(ds, b, k), any)
        == if n < |ds| then Scan(0xFFFF_FFFF, i + n, true, true)
           else Scan(Wrapped(ds, b, |ds|), i + |ds|, any || k < |ds|, false)
    decreases |ds| - k
  {
    if k < |ds| {
      OneDigit(s, i, ds, b, k, any);
      if !Drops(ds, b, k) { AccumulatesAny(s, i, ds, b, k + 1, true); }
    }
  }

  lemma OneDigit(s: string, i: nat, ds: seq<nat>, b: nat, k: nat, any: bool)
    requires DigitsAt(s, i, ds, b) && k < |ds|
    ensures Accumulate(s, i + k, b, Wrapped(ds, b, k), any)
      == if Drops(ds, b, k) then Scan(0xFFFF_FFFF, i + k, true, true)
         else Accumulate(s, i + k + 1, b, Wrapped(ds, b, k + 1), true)
  {
    assert DigitValue(s[i + k]) == ds[k];
    NextDigit(ds, b, k);
  }

  lemma FinishReadsAny(s: string, i: nat, ds: seq<nat>, b: nat, minus: bool)
    requires DigitsAt(s, i, ds, b)
    ensures Finish(s, i, b, minus) == Outcome(i, ds, b, minus)
  {
    AllOfThem(ds, b);
    AccumulatesAny(s, i, ds, b, 0, false);
    assert Finish(s, i, b, minus) == Finished(Accumulate(s, i, b, 0, false), minus);
    ScanOutcome(i, ds, b, minus);
  }

  function Finished(r: Scan, minus: bool): Parsed {
    Parsed(if minus && r.any && !r.overflow then Negated(r.value) else r.value, r.end)
  }

  lemma ScanOutcome(i: nat, ds: seq<nat>, b: nat, minus: bool)
    ensures var n := FirstDrop(ds, b, 0);
      Outcome(i, ds, b, minus)
        == Finished(if n < |ds| then Scan(0xFFFF_FFFF, i + n, true, true)
                    else Scan(Wrapped(ds, b, |ds|), i + |ds|, 0 < |ds|, false), minus)
  {
    AllOfThem(ds, b);
    ReturnedIs(Value(ds, b) % WORD, minus);
  }

  lemma AllOfThem(ds: seq<nat>, b: nat)
    ensures Wrapped(ds, b, 0) == 0 && Wrapped(ds, b, |ds|) == Value(ds, b) % WORD
  {
    assert ds[..|ds|] == ds && ds[..0] == [];
  }

  /** A zero in front makes no difference but to where reading stops. */
  lemma ZeroInFront(ds: seq<nat>, b: nat, start: nat, minus: bool)
    requires ds != [] && ds[0] == 0
    ensures Outcome(start, ds, b, minus) == Outcome(start + 1, ds[1..], b, minus)
  {
    LeadingZero(ds, b);
    LaterDrop(ds, b, 0);
    assert ds[..1] == [0] && [0][..0] == [];
    assert !Drops(ds, b, 0);
  }

  lemma {:induction false} LaterDrop(ds: seq<nat>, b: nat, k: nat)
    requires k < |ds| && ds[0] == 0
    ensures FirstDrop(ds, b, k + 1) == 1 + FirstDrop(ds[1..], b, k)
    decreases |ds| - k
  {
    if k + 1 < |ds| {
      LaterWrapped(ds, b, k);
      LaterWrapped(ds, b, k + 1);
      LaterDrop(ds, b, k + 1);
    }
  }

  lemma LaterWrapped(ds: seq<nat>, b: nat, k: nat)
    requires k < |ds| && ds[0] == 0
    ensures Wrapped(ds, b, k + 1) == Wrapped(ds[1..], b, k)
  {
    LeadingZero(ds[..k + 1], b);
    assert ds[..k + 1][1..] == ds[1..][..k];
  }

  lemma BehindSign(s: string, k: nat, sign: Sign, base: nat)
    requires base == 0 || 2 <= base <= 36
    requires var j := k + SignLength(sign); j < |s| && !IsBlank(s[j]) && s[j] != '+' && s[j] != '-'
    requires (sign == Plus ==> s[k] == '+') && (sign == Minus ==> s[k] == '-')
    requires forall x :: 0 <= x < k ==> IsBlank(s[x])
    ensures Strtoul(s, base) == ReadUnsigned(s, k + SignLength(sign), base, sign == Minus)
  {
    SkipsBlanks(s, 0, k);
  }

  /** The value as it is returned. */
  function Returned(n: nat, minus: bool): nat
    requires n < WORD
  {
    if minus && n > 0 then 0x1_0000_0000 - n else n
  }

  lemma ReturnedIs(n: nat, minus: bool)
    requires n < WORD
    ensures Returned(n, minus) == if minus then Negated(n) else n
  {
  }

  lemma WithoutPrefix(s: string, j: nat, body: string, ds: seq<nat>, base: nat, b: nat, minus: bool)
    requires j < |s| && s[j..] == body && Readable(false, body, base, b) && ds != [] && (s[j] == '0' <==> ds[0] == 0)
    requires s[j] == body[0] && At(s, j + 1) == if |body| > 1 then body[1] else '\0'
    requires b <= 36 && BeginsWith(body, ds, b)
    ensures ReadUnsigned(s, j, base, minus) == Outcome(j, ds, b, minus)
  {
    DigitsThere(s, j, body, ds, b);
    if ds[0] == 0 {
      ZeroInFront(ds, b, j, minus);
      FinishReadsAny(s, j + 1, ds[1..], b, minus);
    } else {
      FinishReadsAny(s, j, ds, b, minus);
    }
  }

  lemma BodyInFront(s: string, j: nat, hex: bool, body: string, ds: seq<nat>, b: nat)
    requires b <= 36 && BeginsWith(body, ds, b) && (hex || ds != [])
    requires j + PrefixLength(hex) <= |s| && s[j + PrefixLength(hex)..] == body
    requires hex ==> s[j] == '0' && (s[j + 1] == 'x' || s[j + 1] == 'X')
    ensures j < |s| && !IsBlank(s[j]) && s[j] != '+' && s[j] != '-'
    ensures !hex ==> body != "" && s[j] == body[0] && (s[j] == '0' <==> ds[0] == 0)
    ensures !hex ==> At(s, j + 1) == if |body| > 1 then body[1] else '\0'
  {
    if !hex {
      assert |s| == j + |body| && s[j] == s[j..][0] && body[..|ds|][0] == body[0];
      SpelledIsDigit(body[0], ds[0]);
      if |body| > 1 { assert s[j + 1] == s[j..][1]; }
    }
  }

  lemma {:induction false} SkipsBlanks(s: string, i: nat, k: nat)
    requires i <= k < |s| && (forall j :: i <= j < k ==> IsBlank(s[j])) && !IsBlank(s[k])
    ensures SkipBlanks(s, i) == k
    decreases k - i
  {
    if i < k { SkipsBlanks(s, i + 1, k); }
  }

  lemma DigitsThere(s: string, i: nat, body: string, ds: seq<nat>, b: nat)
    requires i <= |s| && s[i..] == body && b <= 36 && BeginsWith(body, ds, b)
    ensures DigitsAt(s, i, ds, b)
    ensures ds != [] ==> DigitsAt(s, i + 1, ds[1..], b)
  {
    assert |s| == i + |body|;
    forall k | 0 <= k < |ds| ensures DigitValue(s[i + k]) == ds[k] {
      assert s[i + k] == body[k] == body[..|ds|][k];
      SpelledIsDigit(body[k], ds[k]);
    }
    if |ds| < |body| { assert s[i + |ds|] == body[|ds|]; }
  }

  lemma {:induction false} LeadingZero(ds: seq<nat>, b: nat)
    requires ds != [] && ds[0] == 0
    ensures Value(ds, b) == Value(ds[1..], b)
    decreases |ds|
  {
    if |ds| > 1 {
      var init := ds[..|ds| - 1];
      LeadingZero(init, b);
      assert init[1..] == ds[1..][..|ds| - 2];
    }
  }

  // ---------- the loops ----------

  /** Read digits behind `start`, up to the first character that is none or to an overflow. */
  method ReadDigits(s: string, start: nat, base: nat) returns (r: Scan)
    requires start <= |s|
    ensures r == Accumulate(s, start, base, 0, false)
  {
    var i, result, first := start, 0, true;
    while i < |s|
      invariant start <= i <= |s|
      invariant Accumulate(s, i, base, result, !first) == Accumulate(s, start, base, 0, false)
    {
      var c := DigitValue(s[i]);
      if c < 0 || c >= base {
        break;
      }
      var previous := result;
      result := U32(result * base);
      result := U32(result + c);
      if result < previous {
        return Scan(0xFFFF_FFFF, i, true, true);
      }
      i := i + 1;
      first := false;
    }
    r := Scan(result, i, !first, false);
  }

  method ReadNumber(s: string, base0: nat) returns (r: Parsed)
    ensures r == Strtoul(s, base0)
  {
    if base0 != 0 && (base0 < 2 || base0 > 36) {
      return Parsed(0, 0);
    }
    var i, base, minus := 0, base0, false;
    while i < |s| && IsBlank(s[i])
      invariant i <= |s| && SkipBlanks(s, i) == SkipBlanks(s, 0)
    {
      i := i + 1;
    }
    if At(s, i) == '+' || At(s, i) == '-' {
      minus := At(s, i) == '-';
      i := i + 1;
    }
    if At(s, i) == '0' {
      i := i + 1;
      if At(s, i) == 'x' || At(s, i) == 'X' {
        if base != 0 && base != 16 {
          return Parsed(0, 0);
        }
        base := 16;
        i := i + 1;
      } else if base == 0 {
        base := 8;
      }
    } else if base == 0 {
      base := 10;
    }
    var scan := ReadDigits(s, i, base);
    r := Parsed(if minus && scan.any && !scan.overflow then Negated(scan.value) else scan.value, scan.end);
  }
}
