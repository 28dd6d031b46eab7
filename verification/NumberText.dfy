/** Numbers as text: printing with a divisor that runs down the powers of the base, reading with
    prefix, sign and overflow test, in 32-bit arithmetic. */
module NumberText {
  import opened Words
  import opened Numerals

  // ---------- printing ----------

  function DigitChar(d: nat, upcase: bool): char
    requires d < 36
  {
    if d < 10 then '0' + d as char else (if upcase then 'A' else 'a') + (d - 10) as char
  }

  function TextOf(ds: seq<nat>, b: nat, upcase: bool): (s: string)
    requires b <= 36 && AreDigits(ds, b)
    ensures |s| == |ds| && forall i :: 0 <= i < |ds| ==> s[i] == DigitChar(ds[i], upcase)
  {
    seq(|ds|, i requires 0 <= i < |ds| => DigitChar(ds[i], upcase))
  }

  /** Digits are printed in ASCII, with small or capital letters. */
  lemma DigitCharIs(d: nat, upcase: bool)
    requires d < 36
    ensures DigitChar(d, upcase) as int == CodeOf(d, upcase)
  {
  }

  /** The code of a digit's character. */
  function CodeOf(d: nat, upcase: bool): nat {
    if d < 10 then 48 + d else if upcase then 65 + (d - 10) else 97 + (d - 10)
  }

  lemma CodesAre(ds: seq<nat>, b: nat, upcase: bool)
    requires b <= 36 && AreDigits(ds, b)
    ensures forall i :: 0 <= i < |ds| ==> TextOf(ds, b, upcase)[i] as int == CodeOf(ds[i], upcase)
  {
    forall i | 0 <= i < |ds| ensures TextOf(ds, b, upcase)[i] as int == CodeOf(ds[i], upcase) {
      DigitCharIs(ds[i], upcase);
    }
  }

  lemma AddMultiple(x: nat, m: nat, b: nat)
    requires b > 0
    ensures (x * b + m) / b == x + m / b && (x * b + m) % b == m % b
  {
    DivMod(m, b);
    Quotient(x * b + m, b, x + m / b, m % b);
  }

  /** The digits from the front. */
  lemma {:induction false} PaddedFront(d: nat, m: nat, b: nat, k: nat)
    requires d < b && m < Pow(b, k)
    ensures Padded(d * Pow(b, k) + m, b, k + 1) == [d] + Padded(m, b, k)
    decreases k
  {
    if k == 0 {
      assert Padded(d, b, 1) == Padded(d / b, b, 0) + [d % b];
      Quotient(d, b, 0, d);
    } else {
      var p := Pow(b, k - 1);
      var n := d * Pow(b, k) + m;
      assert n == (d * p) * b + m;
      AddMultiple(d * p, m, b);
      DivMod(m, b);
      if m / b >= p { MulMono(p, m / b, b); }
      PaddedFront(d, m / b, b, k - 1);
    }
  }

  /** The divisor that brings a number down to one digit. */
  method FindDivisor(n: nat, base: nat) returns (divisor: nat, ghost k: nat)
    requires n < WORD && 2 <= base <= 36
    ensures divisor == Pow(base, k) && 0 < divisor && divisor < WORD && n / divisor < base
    ensures k + 1 == Length(n, base)
  {
    divisor, k := 1, 0;
    while n / divisor >= base
      invariant divisor == Pow(base, k) && 0 < divisor < WORD && (k > 0 ==> divisor <= n)
      decreases n - divisor
    {
      DivMod(n, divisor);
      MulMono(base, n / divisor, divisor);
      MulMono(2, base, divisor);
      divisor := divisor * base;
      k := k + 1;
    }
    LengthIs(n, base, k);
  }

  lemma LengthIs(n: nat, b: nat, k: nat)
    requires b >= 2 && Pow(b, k) > 0 && n / Pow(b, k) < b && (k > 0 ==> Pow(b, k) <= n)
    ensures k + 1 == Length(n, b) && n < Pow(b, k + 1)
  {
    var p, q := Pow(b, k), n / Pow(b, k);
    DivMod(n, p);
    Below(q, b, p, n % p);
    assert b * p == Pow(b, k + 1);
    LengthBounds(n, b);
    LengthUnique(n, b, k, Length(n, b) - 1);
  }

  lemma LengthUnique(n: nat, b: nat, k: nat, j: nat)
    requires b >= 2 && n < Pow(b, k + 1) && n < Pow(b, j + 1)
    requires (k > 0 ==> Pow(b, k) <= n) && (j > 0 ==> Pow(b, j) <= n)
    ensures j == k
  {
    if j < k { PowMono(b, j + 1, k); }
    if k < j { PowMono(b, k + 1, j); }
  }

  lemma {:induction false} PowMono(b: nat, j: nat, k: nat)
    requires b >= 1 && j <= k
    ensures Pow(b, j) <= Pow(b, k)
    decreases k
  {
    if j < k {
      PowMono(b, j, k - 1);
      MulMono(1, b, Pow(b, k - 1));
    }
  }

  method Divide(n: nat, d: nat) returns (q: nat, r: nat)
    requires d > 0
    ensures q == Quot(n, d) && r == Rem(n, d)
  {
    QuotRem(n, d);
    q, r := n / d, n % d;
  }

  /** The digits that come out while the divisor runs down. */
  function ToCome(number: nat, divisor: nat, base: nat): seq<nat>
    requires base >= 2
    decreases divisor
  {
    if divisor == 0 then []
    else
      QuotSmaller(divisor, base);
      [Quot(number, divisor)] + ToCome(Rem(number, divisor), Quot(divisor, base), base)
  }

  lemma QuotSmaller(d: nat, b: nat)
    requires d > 0 && b >= 2
    ensures Quot(d, b) < d
  {
    QuotRem(d, b);
    Smaller(d, b);
  }

  lemma {:induction false} ToComeIsPadded(n: nat, b: nat, k: nat)
    requires b >= 2 && n < Pow(b, k + 1)
    ensures Pow(b, k) > 0 && ToCome(n, Pow(b, k), b) == Padded(n, b, k + 1)
    decreases k
  {
    NextDigit(n, b, k);
    FirstDigit(n, b, k);
    DivisorDown(b, k);
    QuotRem(n, Pow(b, k));
    QuotRem(Pow(b, k), b);
    if k > 0 {
      ToComeIsPadded(n % Pow(b, k), b, k - 1);
    }
  }

  /** Write the digits of a number, the highest first. */
  method Ntoa(n: nat, base: nat, upcase: bool) returns (dest: string)
    requires n < WORD && 2 <= base <= 36
    ensures dest == TextOf(Digits(n, base), base, upcase)
  {
    var divisor := StartDivisor(n, base);
    ghost var all := Digits(n, base);
    ghost var done := 0;
    var number := n;
    var digit, rest := Divide(number, divisor);
    dest := "";
    while true
      invariant divisor > 0 && digit == Quot(number, divisor) && rest == Rem(number, divisor)
      invariant done <= |all| && all[done..] == ToCome(number, divisor, base)
      invariant dest == TextOf(all, base, upcase)[..done]
      decreases divisor
    {
      assert all[done] == digit;
      dest := dest + [DigitChar(digit, upcase)];
      QuotSmaller(divisor, base);
      assert all[done + 1..] == all[done..][1..];
      number := rest;
      var remainder;
      divisor, remainder := Divide(divisor, base);
      done := done + 1;
      if divisor == 0 {
        break;
      }
      digit, rest := Divide(number, divisor);
    }
  }

  method StartDivisor(n: nat, base: nat) returns (divisor: nat)
    requires n < WORD && 2 <= base <= 36
    ensures divisor > 0 && Digits(n, base) == ToCome(n, divisor, base)
  {
    ghost var k;
    divisor, k := FindDivisor(n, base);
    LengthBounds(n, base);
    ToComeIsPadded(n, base, k);
  }

  lemma FirstDigit(n: nat, b: nat, k: nat)
    requires b >= 2 && Pow(b, k) > 0 && n / Pow(b, k) < b
    ensures 0 <= n / Pow(b, k) && 0 <= n % Pow(b, k) < Pow(b, k) && n % Pow(b, k) <= n
    ensures Padded(n, b, k + 1) == [n / Pow(b, k)] + Padded(n % Pow(b, k), b, k)
  {
    DivMod(n, Pow(b, k));
    PaddedFront(n / Pow(b, k), n % Pow(b, k), b, k);
  }

  lemma DivisorDown(b: nat, k: nat)
    requires b >= 2
    ensures Pow(b, k) / b == if k == 0 then 0 else Pow(b, k - 1)
    ensures k > 0 ==> 0 < Pow(b, k - 1) < Pow(b, k)
  {
    if k == 0 {
      Quotient(1, b, 0, 1);
    } else {
      Quotient(Pow(b, k), b, Pow(b, k - 1), 0);
      PowMono(b, 0, k - 1);
      MulMono(2, b, Pow(b, k - 1));
    }
  }

  lemma NextDigit(n: nat, b: nat, k: nat)
    requires b >= 2 && n < Pow(b, k + 1)
    ensures 0 < Pow(b, k) < Pow(b, k + 1) && 0 <= n / Pow(b, k) < b
  {
    PowMono(b, 0, k);
    var p := Pow(b, k);
    MulMono(2, b, p);
    DivMod(n, p);
    if n / p >= b { MulMono(b, n / p, p); }
  }
}
