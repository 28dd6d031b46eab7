/** A cyclic redundancy check as a shift register that takes the bits of a message one at a time,
    least significant bit first, and as one xor and eight shifts per byte. */
module CrcRegister {
  import opened Bytes

  /** The bits of a message in the order they travel. */
  function Stream(message: seq<bv8>): (s: seq<bool>)
    ensures |s| == 8 * |message|
  {
    if message == [] then []
    else Stream(message[..|message| - 1]) + ByteBits(message[|message| - 1])
  }

  /** The bits of two messages differ somewhere, but only within `width` consecutive places. */
  ghost predicate BurstError(u: seq<bool>, v: seq<bool>, start: nat, width: nat) {
    && |u| == |v| && start + width <= |u| && u != v
    && u[..start] == v[..start]
    && u[start + width..] == v[start + width..]
  }

  /** The same, where the places may reach beyond the end. */
  ghost predicate DifferWithin(u: seq<bool>, v: seq<bool>, start: nat, width: nat) {
    && |u| == |v| && u != v
    && forall i :: 0 <= i < |u| && !(start <= i < start + width) ==> u[i] == v[i]
  }

  lemma WithinIsBurst(u: seq<bool>, v: seq<bool>, start: nat, width: nat)
    requires DifferWithin(u, v, start, width) && width <= |u|
    ensures BurstError(u, v, if start + width <= |u| then start else |u| - width, width)
  {
  }

  /** Where a byte is in the stream. */
  lemma {:induction false} StreamAt(message: seq<bv8>, i: nat, k: nat)
    requires i < |message| && k < 8
    ensures Stream(message)[8 * i + k] == Bit(message[i], k)
  {
    if i < |message| - 1 {
      StreamAt(message[..|message| - 1], i, k);
    }
  }

  lemma DifferInOneByte(a: seq<bv8>, b: seq<bv8>, k: nat)
    requires |a| == |b| && k < |a| && a[k] != b[k] && forall i :: 0 <= i < |a| && i != k ==> a[i] == b[i]
    ensures DifferWithin(Stream(a), Stream(b), 8 * k, 8)
  {
    forall i | 0 <= i < |Stream(a)| && !(8 * k <= i < 8 * k + 8)
      ensures Stream(a)[i] == Stream(b)[i]
    {
      StreamAt(a, i / 8, i % 8);
      StreamAt(b, i / 8, i % 8);
    }
    var j := DifferentBit(a[k], b[k]);
    StreamAt(a, k, j);
    StreamAt(b, k, j);
  }

  lemma DifferentBit(x: bv8, y: bv8) returns (j: nat)
    requires x != y
    ensures j < 8 && Bit(x, j) != Bit(y, j)
  {
    Bytes.SameBits(x, y);
    j :| j < 8 && ByteBits(x)[j] != ByteBits(y)[j];
  }

  datatype Register<!T(!new)> = Register(zero: T, one: T, xor: (T, T) -> T, shift: T -> T, widen: bv8 -> T)
  {
    function Feed(c: T, bit: bool): T {
      shift(xor(c, if bit then one else zero))
    }

    /** The register after the given bits. */
    function Serial(c: T, bits: seq<bool>): T {
      if bits == [] then c else Feed(Serial(c, bits[..|bits| - 1]), bits[|bits| - 1])
    }

    function Shifts(c: T, n: nat): T {
      if n == 0 then c else shift(Shifts(c, n - 1))
    }

    function Absorb(c: T, b: bv8): T {
      Shifts(xor(c, widen(b)), 8)
    }

    /** The check value after a message. */
    function Crc(message: seq<bv8>, init: T): T {
      if message == [] then init
      else Absorb(Crc(message[..|message| - 1], init), message[|message| - 1])
    }

    ghost predicate ShiftForgetsNothing() {
      forall x, y :: shift(x) == shift(y) ==> x == y
    }

    ghost predicate XorCancels() {
      && (forall x, y, z :: xor(x, z) == xor(y, z) ==> x == y)
      && (forall x, y, z :: xor(z, x) == xor(z, y) ==> x == y)
    }

    ghost predicate WidensBytes() {
      && (forall c :: xor(c, widen(0)) == c)
      && (forall r, s :: widen(r) == widen(s) ==> r == s)
    }

    /** The bits of a byte may be added all at once. */
    ghost predicate AddsBytes() {
      forall c, r, rest, bit {:trigger xor(c, widen(r)), xor(Feed(c, bit), widen(rest))} ::
        rest == r >> 1 && (bit <==> r & 1 == 1) ==>
          shift(xor(c, widen(r))) == xor(Feed(c, bit), widen(rest))
    }

    /** The laws a check register obeys. */
    ghost predicate Lawful() {
      ShiftForgetsNothing() && XorCancels() && WidensBytes() && AddsBytes()
    }

    lemma CrcAppend(message: seq<bv8>, init: T, b: bv8)
      ensures Crc(message + [b], init) == Absorb(Crc(message, init), b)
    {
      var whole := message + [b];
      assert whole[..|whole| - 1] == message;
    }

    lemma {:induction false} ShiftsKeepApart(a: T, b: T, n: nat)
      requires Lawful()
      ensures Shifts(a, n) == Shifts(b, n) <==> a == b
    {
      if n > 0 {
        ShiftsKeepApart(a, b, n - 1);
      }
    }

    lemma AbsorbTells(c: T, x: bv8, y: bv8)
      requires Lawful()
      ensures Absorb(c, x) == Absorb(c, y) <==> x == y
    {
      ShiftsKeepApart(xor(c, widen(x)), xor(c, widen(y)), 8);
    }

    lemma {:induction false} SerialAppend(c: T, u: seq<bool>, v: seq<bool>)
      ensures Serial(c, u + v) == Serial(Serial(c, u), v)
    {
      if v == [] {
        assert u + v == u;
      } else {
        var w := v[..|v| - 1];
        assert (u + v)[..|u + v| - 1] == u + w;
        SerialAppend(c, u, w);
      }
    }

    lemma {:induction false} PartFeed(c: T, b: bv8, n: nat)
      requires Lawful() && n <= 8
      ensures xor(Serial(c, ByteBits(b)[..n]), widen(Rest(b, n))) == Shifts(xor(c, widen(b)), n)
    {
      if n > 0 {
        PartFeed(c, b, n - 1);
        var s := ByteBits(b);
        assert s[..n][..n - 1] == s[..n - 1];
        NextBit(b, n - 1);
      }
    }

    /** Feeding the bits of a byte one by one is absorbing the byte. */
    lemma ByteFeed(c: T, b: bv8)
      requires Lawful()
      ensures Serial(c, ByteBits(b)) == Absorb(c, b)
    {
      PartFeed(c, b, 8);
      NothingLeft(b);
      assert ByteBits(b)[..8] == ByteBits(b);
    }

    /** The byte-wise check value is the state of the register that saw the bits. */
    lemma {:induction false} CrcIsSerial(message: seq<bv8>, init: T)
      requires Lawful()
      ensures Crc(message, init) == Serial(init, Stream(message))
    {
      if message != [] {
        var n := |message| - 1;
        CrcIsSerial(message[..n], init);
        SerialAppend(init, Stream(message[..n]), ByteBits(message[n]));
        ByteFeed(Crc(message[..n], init), message[n]);
      }
    }

    /** Different states stay different as long as the same bits follow. */
    lemma {:induction false} SerialKeepsApart(a: T, b: T, bits: seq<bool>)
      requires Lawful() && a != b
      ensures Serial(a, bits) != Serial(b, bits)
    {
      if bits != [] {
        SerialKeepsApart(a, b, bits[..|bits| - 1]);
      }
    }

    /** Any `width` consecutive bits that differ lead to different states. */
    ghost predicate Tells(width: nat) {
      forall c: T, u: seq<bool>, v: seq<bool> ::
        |u| == |v| == width && u != v ==> Serial(c, u) != Serial(c, v)
    }

    lemma EightBitsTell()
      requires Lawful()
      ensures Tells(8)
    {
      forall c: T, u: seq<bool>, v: seq<bool> | |u| == |v| == 8 && u != v
        ensures Serial(c, u) != Serial(c, v)
      {
        var x := ByteOfBits(u);
        var y := ByteOfBits(v);
        ByteFeed(c, x);
        ByteFeed(c, y);
        AbsorbTells(c, x, y);
      }
    }

    /** A register that tells `width` bits apart detects every error burst of up to `width` bits,
        wherever in the stream it falls. */
    lemma DetectsBursts(a: seq<bv8>, b: seq<bv8>, init: T, start: nat, width: nat)
      requires Lawful() && Tells(width)
      requires BurstError(Stream(a), Stream(b), start, width)
      ensures Crc(a, init) != Crc(b, init)
    {
      CrcIsSerial(a, init);
      CrcIsSerial(b, init);
      SerialDetectsBursts(Stream(a), Stream(b), init, start, width);
    }

    lemma SerialDetectsBursts(u: seq<bool>, v: seq<bool>, init: T, start: nat, width: nat)
      requires Lawful() && Tells(width) && BurstError(u, v, start, width)
      ensures Serial(init, u) != Serial(init, v)
    {
      var p, x, y, t := u[..start], u[start..start + width], v[start..start + width], u[start + width..];
      assert u == p + x + t && v == p + y + t;
      BurstTells(init, p, x, y, t);
    }

    lemma BurstTells(init: T, p: seq<bool>, x: seq<bool>, y: seq<bool>, t: seq<bool>)
      requires Lawful() && |x| == |y| && Tells(|x|) && x != y
      ensures Serial(init, p + x + t) != Serial(init, p + y + t)
    {
      SerialAppend(init, p + x, t);
      SerialAppend(init, p + y, t);
      SerialAppend(init, p, x);
      SerialAppend(init, p, y);
      SerialKeepsApart(Serial(init, p + x), Serial(init, p + y), t);
    }
  }
}
