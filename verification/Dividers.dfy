/** The software dividers: shift the divisor up, then subtract and shift it down. */
module Dividers {
  import opened Words
  import opened Numerals

  /** The quotient of two numbers and what is left, as the C standard has it for unsigned operands. */
  ghost predicate Divided(n: nat, d: nat, q: nat, r: nat) {
    n == q * d + r && r < d
  }

  lemma DividedIs(n: nat, d: nat, q: nat, r: nat)
    requires Divided(n, d, q, r)
    ensures q == Quot(n, d) && r == Rem(n, d) && q == n / d && r == n % d
  {
    Quotient(n, d, q, r);
    QuotRem(n, d);
  }

  /** `n` is `q` times `top` and a rest below `top`, where `top` is the divisor shifted up. */
  ghost predicate Partly(n: nat, top: nat, q: nat, rest: nat) {
    n == q * top + rest && rest < top
  }

  /** Halving the shifted divisor, and subtracting it if it fits, gives one more bit of the quotient. */
  lemma OneMoreBit(n: nat, half: nat, q: nat, rest: nat)
    requires Partly(n, 2 * half, q, rest)
    ensures if rest >= half then Partly(n, half, 2 * q + 1, rest - half) else Partly(n, half, 2 * q, rest)
  {
    assert (2 * q) * half == q * (2 * half) && (2 * q + 1) * half == q * (2 * half) + half;
  }

  lemma QuotientInRange(n: nat, top: nat, q: nat, rest: nat)
    requires Partly(n, top, q, rest)
    ensures q <= n
  {
    MulMono(1, top, q);
  }

  /** Shifted up by `k` bits. */
  function Shl(d: nat, k: nat): (r: nat)
    ensures d > 0 ==> r > 0
  {
    if k == 0 then d else 2 * Shl(d, k - 1)
  }

  lemma {:induction false} ShlAdds(a: nat, b: nat, k: nat)
    ensures Shl(a + b, k) == Shl(a, k) + Shl(b, k)
  {
    if k > 0 { ShlAdds(a, b, k - 1); }
  }

  lemma {:induction false} ShlGrows(d: nat, k: nat)
    requires d > 0
    ensures d <= Shl(d, k) && Shl(1, k) <= Shl(d, k)
  {
    if k > 0 { ShlGrows(d, k - 1); }
  }

  /** The divider of the C++ library: its divisor has 64 bits, so that shifting it up loses nothing. */
  method Divide(dividend: nat, divisor: nat) returns (quotient: nat, rest: nat)
    requires dividend < WORD && 0 < divisor < WORD
    ensures Divided(dividend, divisor, quotient, rest) && quotient < WORD
  {
    var long: nat, count: nat := divisor, 1;
    while dividend > long
      invariant count >= 1 && long == Shl(divisor, count - 1) && 0 < long < 2 * WORD
      decreases dividend - long
    {
      long := long * 2;
      count := count + 1;
    }
    quotient, rest := 0, dividend;
    ghost var top: nat := 2 * long;
    while count > 0
      invariant Partly(dividend, top, quotient, rest) && top == Shl(divisor, count)
      invariant count > 0 ==> long == Shl(divisor, count - 1)
    {
      OneMoreBit(dividend, long, quotient, rest);
      quotient := quotient * 2;
      if rest >= long {
        quotient := quotient + 1;
        rest := rest - long;
      }
      top := long;
      long := long / 2;
      count := count - 1;
    }
    QuotientInRange(dividend, divisor, quotient, rest);
  }

  // ---------- signed ----------

  function Abs(n: int): nat {
    if n < 0 then -n else n
  }

  /** The quotient truncated toward zero. */
  ghost predicate Truncated(n: int, d: int, q: int)
    requires d != 0
  {
    && Abs(n) - Abs(d) < Abs(q) * Abs(d) <= Abs(n)
    && (q != 0 ==> (q > 0 <==> (n < 0 <==> d < 0)))
  }

  method DivideInteger(dividend: int, divisor: int) returns (result: int)
    requires -0x8000_0000 <= dividend < 0x8000_0000 && -0x8000_0000 <= divisor < 0x8000_0000 && divisor != 0
    ensures Truncated(dividend, divisor, result) <==> !(dividend == -0x8000_0000 && divisor == -1)
    ensures -0x8000_0000 <= result < 0x8000_0000
  {
    var q, r := Divide(Abs(dividend), Abs(divisor));
    WrappedQuotient(dividend, divisor, q, r);
    if (dividend < 0) == (divisor < 0) {
      result := Signed32(q);
    } else {
      result := Signed32(-(q as int));
    }
  }

  lemma WrappedQuotient(n: int, d: int, q: nat, r: nat)
    requires -0x8000_0000 <= n < 0x8000_0000 && d != 0 && Divided(Abs(n), Abs(d), q, r)
    ensures var s := Signed32(if (n < 0) == (d < 0) then q else -(q as int));
      (Truncated(n, d, s) <==> !(n == -0x8000_0000 && d == -1)) && -0x8000_0000 <= s < 0x8000_0000
  {
    SignedQuotient(n, d, q, r);
    SignedStays(if (n < 0) == (d < 0) then q else -(q as int));
  }

  lemma SignedStays(n: int)
    requires -0x8000_0000 <= n <= 0x8000_0000
    ensures Signed32(n) == if n == 0x8000_0000 then -0x8000_0000 else n
  {
  }

  lemma SignedQuotient(n: int, d: int, q: nat, r: nat)
    requires -0x8000_0000 <= n < 0x8000_0000 && d != 0 && Divided(Abs(n), Abs(d), q, r)
    ensures q <= 0x8000_0000
    ensures Truncated(n, d, if (n < 0) == (d < 0) then q else -(q as int))
    ensures q == 0x8000_0000 <==> n == -0x8000_0000 && Abs(d) == 1
    ensures n == -0x8000_0000 && d == -1 ==> !Truncated(n, d, -0x8000_0000)
  {
    MulMono(1, Abs(d), q);
    if Abs(d) >= 2 { MulMono(2, Abs(d), q); }
  }

  // ---------- the divider of the C library ----------

  /** The divisor is shifted up until its highest bit is set. */
  method UnsignedDivMod(num: nat, den: nat) returns (quot: nat, rem: nat)
    requires num < WORD && den < WORD
    ensures if den == 0 then quot == 0 else Divided(num, den, quot, rem) && quot < WORD
  {
    if den == 0 {
      return 0, 0;
    }
    ghost var left: nat;
    var d: nat, qbit: nat;
    d, qbit, left := LeftJustify(den);
    quot, rem := 0, num;
    // the bits of the quotient found so far, and the divisor one bit further up
    ghost var q: nat, top: nat := 0, 2 * d;
    ShlZero(left);
    while qbit != 0
      invariant Partly(num, top, q, rem) && top == Shl(den, left) && quot == Shl(q, left)
      invariant if left == 0 then qbit == 0 else qbit == Shl(1, left - 1) > 0 && d == Shl(den, left - 1)
      decreases left
    {
      OneMoreBit(num, d, q, rem);
      NextShl(q, left);
      if d <= rem {
        rem := rem - d;
        quot := quot + qbit;
        q := 2 * q + 1;
      } else {
        q := 2 * q;
      }
      top := d;
      d := d / 2;
      qbit := qbit / 2;
      left := left - 1;
    }
    assert left == 0 && top == den && quot == q;
    QuotientInRange(num, den, quot, rem);
  }

  /** Shift the divisor up, and the bit that counts how far. */
  method LeftJustify(den: nat) returns (d: nat, qbit: nat, ghost left: nat)
    requires 0 < den < WORD
    ensures left > 0 && d == Shl(den, left - 1) && qbit == Shl(1, left - 1) && 0x8000_0000 <= d < WORD && 0 < qbit < WORD
  {
    d, qbit, left := den, 1, 1;
    while d < 0x8000_0000
      invariant left > 0 && d == Shl(den, left - 1) && qbit == Shl(1, left - 1) && 0 < d < WORD && qbit > 0
      decreases WORD - d
    {
      d := d * 2;
      qbit := qbit * 2;
      left := left + 1;
    }
    ShlGrows(den, left - 1);
  }

  lemma NextShl(q: nat, k: nat)
    requires k > 0
    ensures Shl(2 * q, k - 1) == Shl(q, k)
    ensures Shl(2 * q + 1, k - 1) == Shl(q, k) + Shl(1, k - 1)
  {
    ShlAdds(q, q, k - 1);
    ShlAdds(2 * q, 1, k - 1);
  }

  lemma {:induction false} ShlZero(k: nat)
    ensures Shl(0, k) == 0
  {
    if k > 0 { ShlZero(k - 1); }
  }

  lemma {:induction false} ShlTimes(d: nat, k: nat)
    ensures Shl(d, k) == d * Shl(1, k)
  {
    if k > 0 {
      ShlTimes(d, k - 1);
      assert d * Shl(1, k) == 2 * (d * Shl(1, k - 1));
    }
  }

  lemma {:induction false} ShlShl(d: nat, j: nat, k: nat)
    ensures Shl(Shl(d, j), k) == Shl(d, j + k)
  {
    if k > 0 { ShlShl(d, j, k - 1); }
  }

  lemma TwoToThe32()
    ensures Shl(1, 31) == 0x8000_0000 && Shl(1, 32) == WORD
  {
    assert Shl(1, 8) == 0x100;
    assert Shl(1, 16) == 0x1_0000;
    assert Shl(1, 24) == 0x100_0000;
  }

  // ---------- long division on 32 bits ----------

  /** Doubling the divisor takes it past the dividend before it takes it out of 32 bits. */
  predicate DoublesPast(d: nat, n: nat)
    requires n < WORD
    decreases n + 1 - d
  {
    d > 0 && if d > n then d < WORD else DoublesPast(2 * d, n)
  }

  /** In other words, some power of two times the divisor is above the dividend and fits into 32 bits. */
  lemma DoublesPastIff(d: nat, n: nat)
    requires n < WORD
    ensures DoublesPast(d, n) <==> exists k: nat :: n < Shl(d, k) < WORD
  {
    if DoublesPast(d, n) {
      var k := PassesBy(d, n);
    }
    forall k: nat | n < Shl(d, k) < WORD ensures DoublesPast(d, n) {
      ThenDoublesPast(d, n, k);
    }
  }

  lemma {:induction false} PassesBy(d: nat, n: nat) returns (k: nat)
    requires n < WORD && DoublesPast(d, n)
    ensures n < Shl(d, k) < WORD
    decreases n + 1 - d
  {
    k := 0;
    if d <= n {
      k := PassesBy(2 * d, n);
      ShlShl(d, 1, k);
      k := k + 1;
    }
  }

  lemma {:induction false} ThenDoublesPast(d: nat, n: nat, k: nat)
    requires n < WORD && n < Shl(d, k) < WORD
    ensures DoublesPast(d, n)
    decreases k
  {
    ShlZero(k);
    ShlGrows(d, k);
    if d <= n {
      assert Shl(d, 1) == 2 * d;
      ShlShl(d, 1, k - 1);
      ThenDoublesPast(2 * d, n, k - 1);
    }
  }

  lemma {:induction false} SmallDividend(d: nat, n: nat)
    requires 0 < d < WORD && n < 0x8000_0000
    ensures DoublesPast(d, n)
    decreases n + 1 - d
  {
    if d <= n { SmallDividend(2 * d, n); }
  }

  /** The divisor shifted up in 32 bits. */
  function Wrapped(d: nat, k: nat): (w: nat)
    requires d < WORD
    ensures w < WORD
  {
    if k == 0 then d else Doubled(Wrapped(d, k - 1))
  }

  /** The upper bit is lost. */
  function Doubled(w: nat): (r: nat)
    requires w < WORD
    ensures r < WORD
  {
    if w < 0x8000_0000 then 2 * w else 2 * w - WORD
  }

  lemma DoubledIs(w: nat)
    requires w < WORD
    ensures Doubled(w) == U32(w * 2)
  {
  }

  /** What a call answers, unless its first loop never ends. */
  datatype Outcome = Forever | Returns(answer: nat)

  /** The first loop: shift the divisor up until it is above the dividend. After 32 shifts it is gone. */
  function Up(n: nat, d: nat, k: nat): Outcome
    requires d < WORD
    decreases 32 - k
  {
    if Wrapped(d, k) > n then Returns(Down(n, Wrapped(d, k) / 2, Wrapped(1, k) / 2, 0))
    else if k >= 32 then Forever
    else Up(n, d, k + 1)
  }

  /** The second loop: shift it down again, and subtract it where it fits. */
  function Down(n: nat, denom: nat, current: nat, answer: nat): nat
    decreases current
  {
    if current == 0 then answer
    else if n >= denom then Down(n - denom, denom / 2, current / 2, answer + current)
    else Down(n, denom / 2, current / 2, answer)
  }

  /** The long division of the C library. */
  function DivOf(n: nat, d: nat): Outcome
    requires n < WORD
  {
    if d > n then Returns(0) else if d == n then Returns(1) else Up(n, d, 0)
  }

  method Div(dividend: nat, divisor: nat) returns (r: Outcome)
    requires dividend < WORD && divisor < WORD
    ensures r == DivOf(dividend, divisor)
    ensures divisor > 0 ==>
      (r == Returns(Quot(dividend, divisor)) <==> divisor == dividend || DoublesPast(divisor, dividend))
  {
    if divisor > 0 { DivIff(dividend, divisor); }
    if divisor > dividend {
      return Returns(0);
    }
    if divisor == dividend {
      return Returns(1);
    }
    r := ShiftAndSubtract(dividend, divisor);
  }

  /** The divisor has only 32 bits to be shifted up in. Once all of them are shifted out it stays zero, and
      the loop would go on for ever; here it is left. */
  method ShiftAndSubtract(dividend: nat, divisor: nat) returns (r: Outcome)
    requires dividend < WORD && divisor < WORD
    ensures r == Up(dividend, divisor, 0)
  {
    var denom: nat, current: nat := divisor, 1;
    ghost var k: nat := 0;
    while denom <= dividend
      invariant denom == Wrapped(divisor, k) && current == Wrapped(1, k) && k <= 32
      invariant Up(dividend, divisor, k) == Up(dividend, divisor, 0)
      decreases 32 - k
    {
      if denom == 0 {
        StaysGone(dividend, divisor, k);
        return Forever;
      }
      GoneAfter32(divisor);
      DoubledIs(denom);
      DoubledIs(current);
      denom := U32(denom * 2);
      current := U32(current * 2);
      k := k + 1;
    }
    var answer := SubtractDown(dividend, denom / 2, current / 2);
    r := Returns(answer);
  }

  method SubtractDown(dividend: nat, denom0: nat, current0: nat) returns (answer: nat)
    ensures answer == Down(dividend, denom0, current0, 0)
  {
    var rest, denom, current := dividend, denom0, current0;
    answer := 0;
    while current != 0
      invariant Down(rest, denom, current, answer) == Down(dividend, denom0, current0, 0)
      decreases current
    {
      if rest >= denom {
        rest := rest - denom;
        // the bit is not set yet, as it moves down: setting it is adding it
        answer := answer + current;
      }
      current := current / 2;
      denom := denom / 2;
    }
  }

  /** What is left of a dividend, in 32 bits. */
  function Left(n: nat, d: nat, answer: nat): nat {
    U32(n - answer * d)
  }

  lemma LeftIsRem(n: nat, d: nat)
    requires n < WORD && d > 0
    ensures Left(n, d, Quot(n, d)) == Rem(n, d)
  {
    QuotRem(n, d);
    assert n - Quot(n, d) * d == Rem(n, d);
    U32Small(Rem(n, d));
  }

  lemma U32Small(n: nat)
    requires n < WORD
    ensures U32(n) == n
  {
  }

  method DivMod32(dividend: nat, divisor: nat) returns (r: Outcome, modulus: nat)
    requires dividend < WORD && divisor < WORD
    ensures r == DivOf(dividend, divisor)
    ensures r.Returns? ==> modulus == Left(dividend, divisor, r.answer)
  {
    modulus := 0;
    r := Div(dividend, divisor);
    if r.Returns? {
      modulus := U32(dividend - r.answer * divisor);
    }
  }

  // ---------- where the divisor passes the dividend ----------

  /** The second loop divides. */
  lemma {:induction false} DownDivides(n: nat, d: nat, left: nat, q: nat, rest: nat)
    requires d > 0 && Partly(n, Shl(d, left), q, rest)
    ensures Down(rest, Shl(d, left) / 2, Shl(1, left) / 2, Shl(q, left)) == Quot(n, d)
    decreases left
  {
    if left == 0 {
      assert Shl(1, 0) / 2 == 0;
      DividedIs(n, d, q, rest);
    } else {
      var denom := Shl(d, left - 1);
      OneMoreBit(n, denom, q, rest);
      NextShl(q, left);
      if rest >= denom {
        DownDivides(n, d, left - 1, 2 * q + 1, rest - denom);
      } else {
        DownDivides(n, d, left - 1, 2 * q, rest);
      }
    }
  }

  lemma {:induction false} UpPasses(n: nat, d: nat, k: nat)
    requires 0 < d < WORD && n < WORD && k <= 31 && DoublesPast(Shl(d, k), n) && Wrapped(d, k) == Shl(d, k) && Wrapped(1, k) == Shl(1, k)
    ensures Up(n, d, k) == Returns(Quot(n, d))
    decreases 32 - k
  {
    if Shl(d, k) > n {
      ShlZero(k);
      DownDivides(n, d, k, 0, n);
    } else {
      DoublesInside(Shl(d, k), n);
      ShlGrows(d, k + 1);
      if k == 31 { LargePower(32); }
      UpPasses(n, d, k + 1);
    }
  }

  lemma LargePower(k: nat)
    requires k >= 32
    ensures Shl(1, k) >= WORD
  {
    TwoToThe32();
    ShlShl(1, 32, k - 32);
    ShlGrows(Shl(1, 32), k - 32);
  }

  lemma DoublesInside(d: nat, n: nat)
    requires n < WORD && DoublesPast(d, n) && d <= n
    ensures 2 * d < WORD && DoublesPast(2 * d, n)
  {
  }

  // ---------- where it wraps around ----------

  /** Shifted up by `k` bits in 32 bits, a number has lost its upper `k` bits. */
  lemma {:induction false} LosesBits(d: nat, k: nat) returns (x: nat)
    requires d < WORD && k <= 32
    ensures Wrapped(d, k) == Shl(x, k) < WORD && x < Shl(1, 32 - k)
  {
    TwoToThe32();
    if k == 0 {
      x := d;
    } else {
      x := LosesBits(d, k - 1);
      var half := Shl(1, 32 - k);
      ShlShl(1, 32 - k, k);
      if x >= half {
        ShlAdds(x - half, half, k);
        x := x - half;
      } else {
        ShlAdds(half - x, x, k);
        ShlGrows(half - x, k);
      }
    }
  }

  lemma GoneAfter32(d: nat)
    requires d < WORD
    ensures Wrapped(d, 32) == 0
  {
    var x := LosesBits(d, 32);
    ShlZero(32);
  }

  lemma {:induction false} StaysGone(n: nat, d: nat, k: nat)
    requires d < WORD && Wrapped(d, k) == 0
    ensures Up(n, d, k) == Forever
    decreases 32 - k
  {
    if k < 32 { StaysGone(n, d, k + 1); }
  }

  lemma {:induction false} PowerInside(k: nat)
    requires k <= 31
    ensures Wrapped(1, k) == Shl(1, k) <= 0x8000_0000
    decreases k
  {
    TwoToThe32();
    ShlShl(1, k, 31 - k);
    ShlGrows(Shl(1, k), 31 - k);
    if k > 0 { PowerInside(k - 1); }
  }

  /** The second loop answers at least what it has, and less than its bits allow. */
  lemma {:induction false} DownBounds(n: nat, denom: nat, current: nat, answer: nat)
    ensures answer <= Down(n, denom, current, answer) <= answer + 2 * current
    ensures current > 0 ==> Down(n, denom, current, answer) < answer + 2 * current
    ensures n >= denom && current > 0 ==> answer + current <= Down(n, denom, current, answer)
    decreases current
  {
    if current > 0 {
      if n >= denom {
        DownBounds(n - denom, denom / 2, current / 2, answer + current);
      } else {
        DownBounds(n, denom / 2, current / 2, answer);
      }
    }
  }

  lemma {:induction false} NotPast(d: nat, n: nat, k: nat)
    requires 0 < d < WORD && n < WORD && !DoublesPast(d, n) && Shl(d, k) <= n
    ensures !DoublesPast(Shl(d, k), n) && Wrapped(d, k) == Shl(d, k)
  {
    if k > 0 {
      NotPast(d, n, k - 1);
    }
  }

  /** Where the first loop ends after having wrapped around, the divisor without wrapping would be above
      the dividend. */
  lemma EndsTooLate(d: nat, n: nat, k: nat)
    requires 0 < d <= n < WORD && !DoublesPast(d, n) && k > 0
    requires Wrapped(d, k) > n && Wrapped(d, k - 1) <= n
    ensures Shl(d, k - 1) > n
  {
    if Shl(d, k - 1) <= n {
      NotPast(d, n, k - 1);
    }
  }

  /** So that the first bit subtracted at is above the quotient. */
  lemma AnswersTooMuch(n: nat, d: nat, k: nat)
    requires 0 < d <= n < WORD && !DoublesPast(d, n) && 0 < k <= 32
    requires Wrapped(d, k) > n && Wrapped(d, k - 1) <= n
    ensures Quot(n, d) < Down(n, Wrapped(d, k) / 2, Wrapped(1, k) / 2, 0) < 0x8000_0000
  {
    GoneAfter32(d);
    PowerInside(k);
    var c := Shl(1, k - 1);
    assert Wrapped(d, k) / 2 == Wrapped(d, k - 1) && Wrapped(1, k) / 2 == c;
    DownBounds(n, Wrapped(d, k - 1), c, 0);
    EndsTooLate(d, n, k);
    ShlTimes(d, k - 1);
    QuotientBelow(n, d, c);
  }

  lemma QuotientBelow(n: nat, d: nat, c: nat)
    requires d > 0 && n < d * c
    ensures Quot(n, d) < c
  {
    QuotRem(n, d);
    if Quot(n, d) >= c { MulMono(c, Quot(n, d), d); }
  }

  lemma {:induction false} UpGoesWrong(n: nat, d: nat, k: nat)
    requires 0 < d <= n < WORD && !DoublesPast(d, n) && 0 < k <= 32 && Wrapped(d, k - 1) <= n
    ensures var r := Up(n, d, k); r.Returns? ==> Quot(n, d) < r.answer < 0x8000_0000
    decreases 32 - k
  {
    if Wrapped(d, k) > n {
      AnswersTooMuch(n, d, k);
      assert Up(n, d, k) == Returns(Down(n, Wrapped(d, k) / 2, Wrapped(1, k) / 2, 0));
    } else if k < 32 {
      UpGoesWrong(n, d, k + 1);
    }
  }

  /** The call answers the quotient if and only if the operands are equal, or doubling the divisor takes it
      past the dividend before it takes it out of 32 bits. Otherwise it never ends, or answers too much. */
  lemma DivIff(n: nat, d: nat)
    requires n < WORD && 0 < d < WORD
    ensures DivOf(n, d) == Returns(Quot(n, d)) <==> d == n || DoublesPast(d, n)
    ensures d != n && !DoublesPast(d, n) && DivOf(n, d).Returns? ==> Quot(n, d) < DivOf(n, d).answer < 0x8000_0000
  {
    if d > n {
      DividedIs(n, d, 0, n);
    } else if d == n {
      DividedIs(n, d, 1, 0);
    } else if DoublesPast(d, n) {
      UpPasses(n, d, 0);
    } else {
      assert Up(n, d, 0) == Up(n, d, 1);
      UpGoesWrong(n, d, 1);
    }
  }

  /** It never ends exactly if the divisor wraps around without ever being above the dividend. */
  lemma ForeverIff(n: nat, d: nat)
    requires d < WORD
    ensures Up(n, d, 0) == Forever <==> forall k: nat :: Wrapped(d, k) <= n
  {
    if Up(n, d, 0) == Forever {
      forall k: nat ensures Wrapped(d, k) <= n { NeverAbove(n, d, 0, k); }
    } else {
      var k := OnceAbove(n, d, 0);
    }
  }

  lemma {:induction false} NeverAbove(n: nat, d: nat, k: nat, j: nat)
    requires d < WORD && Up(n, d, k) == Forever && k <= j && k <= 32
    ensures Wrapped(d, j) <= n
    decreases 32 - k
  {
    if j > k {
      if k < 32 {
        NeverAbove(n, d, k + 1, j);
      } else {
        GoneAfter32(d);
        GoneForGood(d, j);
      }
    }
  }

  lemma {:induction false} OnceAbove(n: nat, d: nat, k: nat) returns (j: nat)
    requires d < WORD && Up(n, d, k) != Forever
    ensures Wrapped(d, j) > n
    decreases 32 - k
  {
    j := k;
    if Wrapped(d, k) <= n { j := OnceAbove(n, d, k + 1); }
  }

  lemma {:induction false} GoneForGood(d: nat, k: nat)
    requires d < WORD && Wrapped(d, 32) == 0 && k >= 32
    ensures Wrapped(d, k) == 0
  {
    if k > 32 { GoneForGood(d, k - 1); }
  }

  /** With the dividend 2^32-1 it never ends for any smaller divisor. */
  lemma LargestDividend(d: nat)
    requires 0 < d < WORD - 1
    ensures DivOf(WORD - 1, d) == Forever
  {
    forall j: nat ensures Wrapped(d, j) <= WORD - 1 { }
    ForeverIff(WORD - 1, d);
  }

  lemma {:induction false} NotWrapped(d: nat, k: nat)
    requires 0 < d && Shl(d, k) < WORD
    ensures d < WORD && Wrapped(d, k) == Shl(d, k)
  {
    ShlGrows(d, k);
    if k > 0 { NotWrapped(d, k - 1); }
  }

  lemma ElevenPasses(k: nat)
    ensures Shl(11, 28) == 0xB000_0000
    ensures !(0xB800_0000 < Shl(11, k) < WORD)
  {
    assert Shl(11, 7) == 0x580 && Shl(11, 14) == 0x2_C000 && Shl(11, 21) == 0x160_0000;
    if k <= 28 {
      ShlShl(11, k, 28 - k);
      ShlGrows(Shl(11, k), 28 - k);
    } else {
      ShlShl(11, 29, k - 29);
      ShlGrows(Shl(11, 29), k - 29);
    }
  }

  lemma ElevenWraps()
    ensures Wrapped(11, 30) == 0xC000_0000
  {
    ElevenPasses(28);
    NotWrapped(11, 28);
    assert Wrapped(11, 29) == 0x6000_0000;
  }

  lemma ElevenNeverPasses(n: nat)
    requires n == 0xB800_0000
    ensures !DoublesPast(11, n)
  {
    forall k: nat ensures !(n < Shl(11, k) < WORD) { ElevenPasses(k); }
    DoublesPastIff(11, n);
  }

  /** And there are answers that are wrong: 0xB800_0000 by eleven. */
  lemma WrongAnswer(n: nat)
    requires n == 0xB800_0000
    ensures DivOf(n, 11).Returns? && DivOf(n, 11) != Returns(Quot(n, 11))
  {
    ElevenWraps();
    ForeverIff(n, 11);
    ElevenNeverPasses(n);
    DivIff(n, 11);
  }
}
