/** Numbers as digits, most significant first. */
module Numerals {

  function Pow(b: nat, k: nat): nat {
    if k == 0 then 1 else Pow(b, k - 1) * b
  }

  /** The value of a list of digits, read from the left. */
  function Value(ds: seq<nat>, b: nat): nat
    decreases |ds|
  {
    if ds == [] then 0 else Value(ds[..|ds| - 1], b) * b + ds[|ds| - 1]
  }

  ghost predicate AreDigits(ds: seq<nat>, b: nat) {
    forall i :: 0 <= i < |ds| ==> ds[i] < b
  }

  /** The last `k` digits of `n`. */
  function Padded(n: nat, b: nat, k: nat): (ds: seq<nat>)
    requires b > 0
    ensures |ds| == k && AreDigits(ds, b)
    decreases k
  {
    if k == 0 then [] else Padded(n / b, b, k - 1) + [n % b]
  }

  /** How many digits `n` has. */
  function Length(n: nat, b: nat): (k: nat)
    requires b >= 2
    ensures k >= 1
  {
    if n < b then 1
    else
      Smaller(n, b);
      1 + Length(n / b, b)
  }

  lemma Smaller(n: nat, b: nat)
    requires b >= 2 && n > 0
    ensures n / b < n && n == n / b * b + n % b
  {
    DivMod(n, b);
    if n / b >= n { MulMono(n, n / b, b); MulMono(2, b, n); }
  }

  /** The digits of `n` without leading zeros. */
  function Digits(n: nat, b: nat): seq<nat>
    requires b >= 2
  {
    Padded(n, b, Length(n, b))
  }

  lemma DivMod(n: nat, b: nat)
    requires b > 0
    ensures n == n / b * b + n % b && 0 <= n % b < b && 0 <= n / b
  {
  }

  lemma MulMono(x: nat, y: nat, b: nat)
    requires x <= y
    ensures x * b <= y * b
  {
    assert y * b - x * b == (y - x) * b;
  }

  lemma {:induction false} LengthBounds(n: nat, b: nat)
    requires b >= 2
    ensures n < Pow(b, Length(n, b))
    ensures Length(n, b) > 1 ==> Pow(b, Length(n, b) - 1) <= n
  {
    if n >= b {
      var q, r := n / b, n % b;
      Smaller(n, b);
      LengthBounds(q, b);
      var k := Length(q, b);
      Below(q, Pow(b, k), b, r);
      if k > 1 { MulMono(Pow(b, k - 1), q, b); }
    }
  }

  lemma Below(q: nat, p: nat, b: nat, r: nat)
    requires q < p && r < b
    ensures q * b + r < p * b
  {
    MulMono(q + 1, p, b);
    assert (q + 1) * b == q * b + b;
  }

  lemma {:induction false} ValueOfPadded(n: nat, b: nat, k: nat)
    requires b > 0 && n < Pow(b, k)
    ensures Value(Padded(n, b, k), b) == n
    decreases k
  {
    if k > 0 {
      DivMod(n, b);
      if n / b >= Pow(b, k - 1) { MulMono(Pow(b, k - 1), n / b, b); }
      ValueOfPadded(n / b, b, k - 1);
      var ds := Padded(n / b, b, k - 1);
      assert (ds + [n % b])[..k - 1] == ds;
    }
  }

  lemma ValueOfDigits(n: nat, b: nat)
    requires b >= 2
    ensures Value(Digits(n, b), b) == n
  {
    LengthBounds(n, b);
    ValueOfPadded(n, b, Length(n, b));
  }

  /** Reading a prefix of the digits gives no more than reading them all. */
  lemma {:induction false} ValueOfPrefix(ds: seq<nat>, b: nat, k: nat)
    requires k <= |ds| && b > 0
    ensures Value(ds[..k], b) <= Value(ds, b)
    decreases |ds|
  {
    if k < |ds| {
      var init := ds[..|ds| - 1];
      ValueOfPrefix(init, b, k);
      assert init[..k] == ds[..k];
      MulMono(1, b, Value(init, b));
    } else {
      assert ds[..k] == ds;
    }
  }

  lemma ValueSnoc(ds: seq<nat>, b: nat, d: nat)
    ensures Value(ds + [d], b) == Value(ds, b) * b + d
  {
    assert (ds + [d])[..|ds|] == ds;
  }

  /** Quotient and remainder are unique. */
  lemma Quotient(n: nat, b: nat, q: nat, r: nat)
    requires b > 0 && n == q * b + r && r < b
    ensures n / b == q && n % b == r
  {
    var q', r' := n / b, n % b;
    DivMod(n, b);
    assert (q + 1) * b == q * b + b && (q' + 1) * b == q' * b + b;
    if q' < q { MulMono(q' + 1, q, b); }
  }

  /** The quotient, counted out: unlike `/` with a variable divisor, the solver leaves it alone. */
  function Quot(n: nat, d: nat): nat
    requires d > 0
  {
    if n < d then 0 else 1 + Quot(n - d, d)
  }

  function Rem(n: nat, d: nat): (r: nat)
    requires d > 0
    ensures r < d && r <= n
  {
    if n < d then n else Rem(n - d, d)
  }

  lemma {:induction false} QuotRem(n: nat, d: nat)
    requires d > 0
    ensures n == Quot(n, d) * d + Rem(n, d) && Quot(n, d) == n / d && Rem(n, d) == n % d
  {
    if n >= d {
      QuotRem(n - d, d);
      assert Quot(n, d) * d == Quot(n - d, d) * d + d;
    }
    Quotient(n, d, Quot(n, d), Rem(n, d));
  }

  // ---------- digits as characters ----------

  /** In ASCII: 0 to 9, and behind these the letters, capital or small. */
  predicate Spells(c: char, d: nat) {
    if d < 10 then c as int == 48 + d else d < 36 && (c as int == 65 + (d - 10) || c as int == 97 + (d - 10))
  }

  ghost predicate SpellsAll(text: string, ds: seq<nat>) {
    |text| == |ds| && forall i :: 0 <= i < |ds| ==> Spells(text[i], ds[i])
  }

  // ---------- how numbers are written ----------

  datatype Sign = NoSign | Plus | Minus

  function SignLength(sign: Sign): nat {
    if sign == NoSign then 0 else 1
  }

  function PrefixLength(hex: bool): nat {
    if hex then 2 else 0
  }

  /** A string of `k` characters, a sign, a prefix if it is `hex`, and `body` behind these. */
  ghost predicate LaidOut(s: string, k: nat, sign: Sign, hex: bool, body: string) {
    var j := k + SignLength(sign);
    var i := j + PrefixLength(hex);
    && |s| == i + |body| && s[i..] == body
    && (sign == Plus ==> s[k] == '+') && (sign == Minus ==> s[k] == '-')
    && (hex ==> s[j] == '0' && (s[j + 1] == 'x' || s[j + 1] == 'X'))
  }
}
