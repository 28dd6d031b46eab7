/** The bits of a byte, least significant first. */
module Bytes {

  function Mask(k: nat): bv8
    requires k < 8
  {
    if k == 0 then 1 else if k == 1 then 2 else if k == 2 then 4 else if k == 3 then 8
    else if k == 4 then 16 else if k == 5 then 32 else if k == 6 then 64 else 128
  }

  predicate Bit(b: bv8, k: nat)
    requires k < 8
  {
    b & Mask(k) != 0
  }

  /** Bit `k` counts for two to the `k`. */
  lemma ValueOfBits(b: bv8)
    ensures b as int
      == (if Bit(b, 0) then 1 else 0) + (if Bit(b, 1) then 2 else 0) + (if Bit(b, 2) then 4 else 0)
       + (if Bit(b, 3) then 8 else 0) + (if Bit(b, 4) then 16 else 0) + (if Bit(b, 5) then 32 else 0)
       + (if Bit(b, 6) then 64 else 0) + (if Bit(b, 7) then 128 else 0)
  {
  }

  /** A byte is determined by its bits. */
  lemma SameBits(x: bv8, y: bv8)
    ensures ByteBits(x) == ByteBits(y) <==> x == y
  {
    if ByteBits(x) == ByteBits(y) {
      assert forall k | 0 <= k < 8 :: Bit(x, k) == ByteBits(x)[k] && Bit(y, k) == ByteBits(y)[k];
      ValueOfBits(x);
      ValueOfBits(y);
    }
  }

  function ByteBits(b: bv8): seq<bool> {
    seq(8, k requires 0 <= k < 8 => Bit(b, k))
  }

  lemma ByteOfBits(bits: seq<bool>) returns (b: bv8)
    requires |bits| == 8
    ensures ByteBits(b) == bits
  {
    b := (if bits[0] then 1 else 0) | (if bits[1] then 2 else 0) | (if bits[2] then 4 else 0)
       | (if bits[3] then 8 else 0) | (if bits[4] then 16 else 0) | (if bits[5] then 32 else 0)
       | (if bits[6] then 64 else 0) | (if bits[7] then 128 else 0);
    assert Bit(b, 0) == bits[0] && Bit(b, 1) == bits[1] && Bit(b, 2) == bits[2] && Bit(b, 3) == bits[3];
    assert Bit(b, 4) == bits[4] && Bit(b, 5) == bits[5] && Bit(b, 6) == bits[6] && Bit(b, 7) == bits[7];
  }

  /** What is left of a byte after its low `n` bits. */
  function Rest(b: bv8, n: nat): bv8
    decreases n, b
  {
    if n == 0 then b else Rest(b, n - 1) >> 1
  }

  lemma {:induction false} RestIs(b: bv8, n: nat)
    requires n <= 8
    ensures Rest(b, n) ==
      if n == 0 then b else if n == 1 then b >> 1 else if n == 2 then b >> 2 else if n == 3 then b >> 3
      else if n == 4 then b >> 4 else if n == 5 then b >> 5 else if n == 6 then b >> 6
      else if n == 7 then b >> 7 else 0
  {
    if n > 0 {
      RestIs(b, n - 1);
    }
  }

  lemma NextBit(b: bv8, n: nat)
    requires n < 8
    ensures Bit(b, n) <==> Rest(b, n) & 1 == 1
  {
    RestIs(b, n);
  }

  lemma NothingLeft(b: bv8)
    ensures Rest(b, 8) == 0
  {
    RestIs(b, 8);
  }
}
