/** The 16-bit 1-Wire check (x^16 + x^15 + x^2 + 1): the driver's parity trick against the shift
    register, and what the inverted check bytes sent by a device detect. */
module OneWireCrc16 {
  import opened Bytes
  import opened CrcRegister

  function Shift16(c: bv16): bv16 {
    if c & 1 == 1 then (c >> 1) ^ 0xA001 else c >> 1
  }

  function Xor16(x: bv16, y: bv16): bv16 {
    x ^ y
  }

  function Widen16(b: bv8): bv16 {
    b as bv16
  }

  const REG16: Register<bv16> := Register(0, 1, Xor16, Shift16, Widen16)

  function Crc16(message: seq<bv8>, init: bv16): bv16 {
    REG16.Crc(message, init)
  }

  // ---------- the laws ----------

  lemma Shift16KeepsApart(x: bv16, y: bv16)
    ensures Shift16(x) == Shift16(y) ==> x == y
  {
  }

  lemma Shift16Adds(x: bv16, y: bv16)
    ensures Shift16(Xor16(x, y)) == Xor16(Shift16(x), Shift16(y))
  {
    ShiftAsXor(x);
    ShiftAsXor(y);
    ShiftAsXor(x ^ y);
    HalvesXor(x, y);
    Feedbacks(x, y);
    Rearranged(x >> 1, Feedback(x), y >> 1, Feedback(y));
  }

  function Feedback(c: bv16): bv16 {
    if c & 1 == 1 then 0xA001 else 0
  }

  lemma ShiftAsXor(c: bv16)
    ensures Shift16(c) == (c >> 1) ^ Feedback(c)
  {
    if c & 1 != 1 {
      assert (c >> 1) ^ 0 == c >> 1;
    }
  }

  lemma HalvesXor(x: bv16, y: bv16)
    ensures (x ^ y) >> 1 == (x >> 1) ^ (y >> 1)
  {
  }

  lemma Feedbacks(x: bv16, y: bv16)
    ensures Feedback(x ^ y) == Feedback(x) ^ Feedback(y)
  {
  }

  lemma Rearranged(p: bv16, q: bv16, r: bv16, s: bv16)
    ensures (p ^ r) ^ (q ^ s) == (p ^ q) ^ (r ^ s)
  {
  }

  lemma XorTwice(x: bv16, z: bv16)
    ensures (x ^ z) ^ z == x && z ^ (z ^ x) == x
  {
  }

  lemma Xor16Cancels(x: bv16, y: bv16, z: bv16)
    ensures Xor16(x, z) == Xor16(y, z) ==> x == y
    ensures Xor16(z, x) == Xor16(z, y) ==> x == y
  {
    XorTwice(x, z);
    XorTwice(y, z);
  }

  lemma XorZero(x: bv16)
    ensures Xor16(x, 0) == x
  {
  }

  lemma XorsOfXors(x: bv16, y: bv16, z: bv16)
    ensures Xor16(Xor16(z, x), Xor16(z, y)) == Xor16(x, y)
  {
  }

  lemma WidenXor(x: bv8, y: bv8)
    ensures (x ^ y) as bv16 == Xor16(x as bv16, y as bv16)
    ensures x as bv16 == y as bv16 ==> x == y
    ensures x != y ==> x ^ y != 0
  {
  }

  lemma FeedStep16(c: bv16, r: bv8)
    ensures Shift16(Xor16(c, r as bv16)) == Xor16(Shift16(Xor16(c, if r & 1 == 1 then 1 else 0)), (r >> 1) as bv16)
  {
    var low: bv16 := if r & 1 == 1 then 1 else 0;
    var rest := ((r >> 1) as bv16) << 1;
    LowBitApart(r);
    XorAgain(c, low, rest);
    Shift16Adds(Xor16(c, low), rest);
  }

  lemma LowBitApart(r: bv8)
    ensures r as bv16 == (if r & 1 == 1 then 1 else 0) ^ (((r >> 1) as bv16) << 1)
    ensures Shift16(((r >> 1) as bv16) << 1) == (r >> 1) as bv16
  {
  }

  lemma XorAgain(c: bv16, p: bv16, q: bv16)
    ensures Xor16(c, p ^ q) == Xor16(Xor16(c, p), q)
  {
  }

  lemma ShiftForgetsNothing16()
    ensures REG16.ShiftForgetsNothing()
  {
    forall x, y ensures Shift16(x) == Shift16(y) ==> x == y {
      Shift16KeepsApart(x, y);
    }
  }

  lemma XorCancels16()
    ensures REG16.XorCancels()
  {
    forall x, y, z
      ensures Xor16(x, z) == Xor16(y, z) ==> x == y
      ensures Xor16(z, x) == Xor16(z, y) ==> x == y
    {
      Xor16Cancels(x, y, z);
    }
  }

  lemma WidensBytes16()
    ensures REG16.WidensBytes()
  {
    forall c ensures Xor16(c, 0) == c {
      XorZero(c);
    }
    forall r, s ensures Widen16(r) == Widen16(s) ==> r == s {
      WidenXor(r, s);
    }
  }

  lemma AddsBytes16()
    ensures REG16.AddsBytes()
  {
    forall c, r: bv8, rest: bv8, bit | rest == r >> 1 && (bit <==> r & 1 == 1)
      ensures REG16.shift(REG16.xor(c, REG16.widen(r))) == REG16.xor(REG16.Feed(c, bit), REG16.widen(rest))
    {
      FeedStep16(c, r);
    }
  }

  lemma Lawful16()
    ensures REG16.Lawful()
  {
    ShiftForgetsNothing16();
    XorCancels16();
    WidensBytes16();
    AddsBytes16();
  }

  // ---------- sixteen bits ----------

  lemma {:induction false} ShiftsAdd16(x: bv16, y: bv16, n: nat)
    ensures REG16.Shifts(Xor16(x, y), n) == Xor16(REG16.Shifts(x, n), REG16.Shifts(y, n))
  {
    if n > 0 {
      ShiftsAdd16(x, y, n - 1);
      Shift16Adds(REG16.Shifts(x, n - 1), REG16.Shifts(y, n - 1));
    }
  }

  function EightShifts16(c: bv16): bv16 {
    Shift16(Shift16(Shift16(Shift16(Shift16(Shift16(Shift16(Shift16(c))))))))
  }

  lemma EightShifts16Unrolled(c: bv16)
    ensures REG16.Shifts(c, 8) == EightShifts16(c)
  {
    assert REG16.Shifts(c, 1) == Shift16(REG16.Shifts(c, 0));
    assert REG16.Shifts(c, 3) == Shift16(Shift16(REG16.Shifts(c, 1)));
    assert REG16.Shifts(c, 5) == Shift16(Shift16(REG16.Shifts(c, 3)));
    assert REG16.Shifts(c, 7) == Shift16(Shift16(REG16.Shifts(c, 5)));
  }

  ghost predicate UpperHalvesDiffer(a: bv16, b: bv16) {
    Xor16(a, b) >> 8 != 0
  }

  lemma EightShiftsReachUp(d: bv8)
    requires d != 0
    ensures EightShifts16(d as bv16) >> 8 != 0
  {
  }

  /** Absorbing different bytes leaves states that differ in the upper half. */
  lemma DifferentBytes(c: bv16, x: bv8, y: bv8)
    requires x != y
    ensures UpperHalvesDiffer(REG16.Absorb(c, x), REG16.Absorb(c, y))
  {
    var p, q := Xor16(c, x as bv16), Xor16(c, y as bv16);
    ShiftsAdd16(p, q, 8);
    XorsOfXors(x as bv16, y as bv16, c);
    WidenXor(x, y);
    EightShifts16Unrolled((x ^ y) as bv16);
    EightShiftsReachUp(x ^ y);
  }

  lemma UpperHalvesStayApart(a: bv16, b: bv16, x: bv8, y: bv8)
    requires UpperHalvesDiffer(a, b)
    ensures Xor16(a, x as bv16) != Xor16(b, y as bv16)
  {
  }

  /** Two bytes in a row are told apart. */
  lemma TwoBytesTell(c: bv16, x: bv8, y: bv8, p: bv8, q: bv8)
    ensures REG16.Absorb(REG16.Absorb(c, x), y) == REG16.Absorb(REG16.Absorb(c, p), q) <==> x == p && y == q
  {
    Lawful16();
    var s, t := REG16.Absorb(c, x), REG16.Absorb(c, p);
    if x == p {
      REG16.AbsorbTells(s, y, q);
    } else {
      DifferentBytes(c, x, p);
      UpperHalvesStayApart(s, t, y, q);
      REG16.ShiftsKeepApart(Xor16(s, y as bv16), Xor16(t, q as bv16), 8);
    }
  }

  lemma SixteenBitsTell()
    ensures REG16.Tells(16)
  {
    forall c: bv16, u: seq<bool>, v: seq<bool> | |u| == |v| == 16 && u != v
      ensures REG16.Serial(c, u) != REG16.Serial(c, v)
    {
      var x, y := SerialOfTwoBytes(c, u);
      var p, q := SerialOfTwoBytes(c, v);
      TwoBytesTell(c, x, y, p, q);
    }
  }

  lemma SerialOfTwoBytes(c: bv16, u: seq<bool>) returns (x: bv8, y: bv8)
    requires |u| == 16
    ensures u == ByteBits(x) + ByteBits(y)
    ensures REG16.Serial(c, u) == REG16.Absorb(REG16.Absorb(c, x), y)
  {
    x := ByteOfBits(u[..8]);
    y := ByteOfBits(u[8..]);
    assert u == u[..8] + u[8..];
    Lawful16();
    REG16.SerialAppend(c, u[..8], u[8..]);
    REG16.ByteFeed(c, x);
    REG16.ByteFeed(REG16.Absorb(c, x), y);
  }

  /** Every error burst of up to sixteen bits, at any place in the stream, changes the check value; also
      in a message of a single byte. */
  lemma Crc16DetectsBursts(a: seq<bv8>, b: seq<bv8>, init: bv16, start: nat)
    requires DifferWithin(Stream(a), Stream(b), start, 16)
    ensures Crc16(a, init) != Crc16(b, init)
  {
    var bits := |Stream(a)|;
    Lawful16();
    if bits == 8 {
      REG16.EightBitsTell();
      REG16.DetectsBursts(a, b, init, 0, 8);
    } else {
      SixteenBitsTell();
      WithinIsBurst(Stream(a), Stream(b), start, 16);
      REG16.DetectsBursts(a, b, init, if start + 16 <= bits then start else bits - 16, 16);
    }
  }

  /** So does a single wrong byte. */
  lemma Crc16DetectsWrongByte(a: seq<bv8>, b: seq<bv8>, init: bv16, k: nat)
    requires |a| == |b| && k < |a| && a[k] != b[k] && forall i :: 0 <= i < |a| && i != k ==> a[i] == b[i]
    ensures Crc16(a, init) != Crc16(b, init)
  {
    DifferInOneByte(a, b, k);
    Crc16DetectsBursts(a, b, init, 8 * k);
  }

  // ---------- the parity trick ----------

  const ODD_PARITY: seq<bv8> := [0, 1, 1, 0, 1, 0, 0, 1, 1, 0, 0, 1, 0, 1, 1, 0]

  /** The exclusive or of four bits. */
  function Parity4(n: bv16): bv8 {
    ((n ^ (n >> 1) ^ (n >> 2) ^ (n >> 3)) & 1) as bv8
  }

  lemma ParityTable(n: bv16)
    requires n < 16
    ensures (n as nat) < 16 && ODD_PARITY[n as nat] == Parity4(n)
  {
  }

  /** What one byte contributes in the driver's loop, with the parity spelt out. */
  function Contribution(cdata: bv16): bv16 {
    Gather(ParityMask(cdata), cdata << 6, cdata << 7)
  }

  function Gather(parity: bv16, six: bv16, seven: bv16): bv16 {
    (parity ^ six) ^ seven
  }

  function ParityMask(cdata: bv16): bv16 {
    if Parity4(cdata & 0x0F) ^ Parity4(cdata >> 4) != 0 then 0xC001 else 0
  }

  lemma ContributionIsShifts(cdata: bv16)
    requires cdata < 256
    ensures EightShifts16(cdata) == Contribution(cdata)
  {
    if ParityMask(cdata) == 0 {
    }
  }

  /** The parity trick is eight shifts of the register. */
  lemma TrickIsShifts(x: bv16)
    ensures EightShifts16(x) == Xor16(x >> 8, Contribution(x & 0xFF))
  {
    var high, low := (x >> 8) << 8, x & 0xFF;
    assert x == Xor16(high, low);
    ShiftsAdd16(high, low, 8);
    EightShifts16Unrolled(x);
    EightShifts16Unrolled(high);
    EightShifts16Unrolled(low);
    HighByteMovesDown(x >> 8);
    ContributionIsShifts(low);
  }

  method Crc16ByParity(input: array<bv8>, len: nat, init: bv16) returns (crc: bv16)
    requires len <= input.Length && len < 0x10000
    ensures crc == Crc16(input[..len], init)
  {
    crc := init;
    for i := 0 to len
      invariant crc == Crc16(input[..i], init)
    {
      assert input[..i + 1] == input[..i] + [input[i]];
      REG16.CrcAppend(input[..i], init, input[i]);
      crc := AbsorbByte(crc, input[i]);
    }
  }

  method AbsorbByte(crc0: bv16, b: bv8) returns (crc: bv16)
    ensures crc == REG16.Absorb(crc0, b)
  {
    var cdata: bv16 := ((b as bv16) ^ crc0) & 0xFF;
    MaskedIsByte((b as bv16) ^ crc0);
    var odd := OddParity(cdata);
    crc := Mix(crc0, cdata, odd);
    AbsorbIsTrick(crc0, b, cdata, crc);
  }

  lemma AbsorbIsTrick(crc0: bv16, b: bv8, cdata: bv16, crc: bv16)
    requires cdata == ((b as bv16) ^ crc0) & 0xFF
    requires crc == Xor16(crc0 >> 8, Contribution(cdata))
    ensures REG16.Absorb(crc0, b) == crc
  {
    var x := Xor16(crc0, b as bv16);
    HighByteUntouched(crc0, b, x);
    TrickIsShifts(x);
    EightShifts16Unrolled(x);
  }

  /** The shifts and xors of the loop body. */
  method Mix(crc0: bv16, cdata: bv16, odd: bool) returns (crc: bv16)
    requires ParityMask(cdata) == if odd then 0xC001 else 0
    ensures crc == Xor16(crc0 >> 8, Contribution(cdata))
  {
    crc := FoldParity(crc0 >> 8, odd);
    crc := MixTwice(crc, cdata);
    Gathered(crc0 >> 8, ParityMask(cdata), cdata << 6, cdata << 7, crc);
  }

  method FoldParity(crc0: bv16, odd: bool) returns (crc: bv16)
    ensures crc == Xor16(crc0, if odd then 0xC001 else 0)
  {
    crc := crc0;
    if odd {
      crc := crc ^ 0xC001;
    }
    XorZero(crc0);
  }

  method MixTwice(crc0: bv16, cdata0: bv16) returns (crc: bv16)
    ensures crc == (crc0 ^ (cdata0 << 6)) ^ (cdata0 << 7)
  {
    var cdata := cdata0 << 6;
    crc := crc0 ^ cdata;
    cdata := cdata << 1;
    crc := crc ^ cdata;
    ShiftedTwice(cdata0);
  }

  method OddParity(cdata: bv16) returns (odd: bool)
    requires cdata < 256
    ensures ParityMask(cdata) == if odd then 0xC001 else 0
  {
    ParityTable(cdata & 0x0F);
    ParityTable(cdata >> 4);
    odd := ODD_PARITY[(cdata & 0x0F) as nat] ^ ODD_PARITY[(cdata >> 4) as nat] != 0;
  }

  lemma MaskedIsByte(x: bv16)
    ensures x & 0xFF < 256
  {
  }

  lemma HighByteUntouched(crc0: bv16, b: bv8, x: bv16)
    requires x == Xor16(crc0, b as bv16)
    ensures x >> 8 == crc0 >> 8
    ensures x & 0xFF == ((b as bv16) ^ crc0) & 0xFF
  {
  }

  lemma XorRegroups(a: bv16, b: bv16, c: bv16)
    ensures (a ^ b) ^ c == a ^ (b ^ c)
  {
  }

  lemma Gathered(high: bv16, parity: bv16, six: bv16, seven: bv16, crc: bv16)
    requires crc == (Xor16(high, parity) ^ six) ^ seven
    ensures crc == Xor16(high, Gather(parity, six, seven))
  {
    XorRegroups(high, parity, six);
    XorRegroups(high, parity ^ six, seven);
  }

  lemma ShiftedTwice(x: bv16)
    ensures (x << 6) << 1 == x << 7
  {
  }

  // ---------- the inverted check bytes ----------

  /** The two check bytes a device sends: the inverted value, low byte first. */
  function CheckBytes(crc: bv16): seq<bv8> {
    [(!crc & 0xFF) as bv8, (!crc >> 8) as bv8]
  }

  method CheckCrc16(input: array<bv8>, len: nat, invertedCrc: array<bv8>, init: bv16) returns (ok: bool)
    requires len <= input.Length && len < 0x10000 && invertedCrc.Length >= 2
    ensures ok <==> invertedCrc[..2] == CheckBytes(Crc16(input[..len], init))
  {
    var crc := Crc16ByParity(input, len, init);
    ok := MatchesInverted(crc, invertedCrc[0], invertedCrc[1]);
    assert invertedCrc[..2] == [invertedCrc[0], invertedCrc[1]];
  }

  method MatchesInverted(crc0: bv16, low: bv8, high: bv8) returns (ok: bool)
    ensures ok <==> [low, high] == CheckBytes(crc0)
  {
    var crc := !crc0;
    ok := crc & 0xFF == low as bv16 && crc >> 8 == high as bv16;
    SplitsIntoBytes(crc0, low, high);
  }

  lemma SplitsIntoBytes(value: bv16, low: bv8, high: bv8)
    ensures !value & 0xFF == low as bv16 && !value >> 8 == high as bv16 <==> [low, high] == CheckBytes(value)
  {
  }

  const RESIDUE: bv16 := 0xB001

  /** A message followed by two bytes leaves the fixed residue exactly when these are its check
      bytes, so a receiver may run the check over everything it got. */
  lemma ResidueMeansIntact(message: seq<bv8>, init: bv16, x: bv8, y: bv8)
    ensures Crc16(message + [x, y], init) == RESIDUE <==> [x, y] == CheckBytes(Crc16(message, init))
  {
    var c := Crc16(message, init);
    assert message + [x, y] == message + [x] + [y];
    REG16.CrcAppend(message, init, x);
    REG16.CrcAppend(message + [x], init, y);
    var good := CheckBytes(c);
    TwoBytesTell(c, x, y, good[0], good[1]);
    CheckBytesLeaveResidue(c, good[0], good[1]);
  }

  /** The check value as it is, low byte first. */
  function PlainBytes(crc: bv16): seq<bv8> {
    [(crc & 0xFF) as bv8, (crc >> 8) as bv8]
  }

  /** A message followed by two bytes checks to 0 exactly if these are its check value, not inverted. */
  lemma AppendedCrc16(message: seq<bv8>, init: bv16, x: bv8, y: bv8)
    ensures Crc16(message + [x, y], init) == 0 <==> [x, y] == PlainBytes(Crc16(message, init))
  {
    var c := Crc16(message, init);
    assert message + [x, y] == message + [x] + [y];
    REG16.CrcAppend(message, init, x);
    REG16.CrcAppend(message + [x], init, y);
    var good := PlainBytes(c);
    TwoBytesTell(c, x, y, good[0], good[1]);
    PlainBytesCancel(c, good[0], good[1]);
  }

  lemma PlainBytesCancel(c: bv16, low: bv8, high: bv8)
    requires [low, high] == PlainBytes(c)
    ensures REG16.Absorb(REG16.Absorb(c, low), high) == 0
  {
    var x := Xor16(c, low as bv16);
    EightShifts16Unrolled(x);
    LowByteShiftedOut(c, low);
    var y := Xor16(EightShifts16(x), high as bv16);
    EightShifts16Unrolled(y);
    HighByteCancels(c >> 8, high);
    NothingShifts();
  }

  lemma LowByteShiftedOut(c: bv16, low: bv8)
    requires low == (c & 0xFF) as bv8
    ensures EightShifts16(Xor16(c, low as bv16)) == c >> 8
  {
    LowByteCancels(c, low);
    HighByteMovesDown(c >> 8);
  }

  lemma LowByteCancels(c: bv16, low: bv8)
    requires low == (c & 0xFF) as bv8
    ensures Xor16(c, low as bv16) == (c >> 8) << 8
  {
  }

  lemma HighByteCancels(h: bv16, high: bv8)
    requires high as bv16 == h
    ensures Xor16(h, high as bv16) == 0
  {
  }

  lemma NothingShifts()
    ensures EightShifts16(0) == 0
  {
  }

  lemma CheckBytesLeaveResidue(c: bv16, low: bv8, high: bv8)
    requires [low, high] == CheckBytes(c)
    ensures REG16.Absorb(REG16.Absorb(c, low), high) == RESIDUE
  {
    var x := Xor16(c, low as bv16);
    EightShifts16Unrolled(x);
    LowByteGone(c, low);
    var y := Xor16(EightShifts16(x), high as bv16);
    EightShifts16Unrolled(y);
    HighByteGone(c, high);
  }

  lemma LowByteGone(c: bv16, low: bv8)
    requires low == (!c & 0xFF) as bv8
    ensures EightShifts16(Xor16(c, low as bv16)) == Xor16(c >> 8, EightShifts16(0xFF))
  {
    LowByteInverted(c, low);
    var high := (c >> 8) << 8;
    ShiftsAdd16(high, 0xFF, 8);
    EightShifts16Unrolled(Xor16(high, 0xFF));
    EightShifts16Unrolled(high);
    EightShifts16Unrolled(0xFF);
    HighByteMovesDown(c >> 8);
  }

  lemma LowByteInverted(c: bv16, low: bv8)
    requires low == (!c & 0xFF) as bv8
    ensures Xor16(c, low as bv16) == Xor16((c >> 8) << 8, 0xFF)
  {
  }

  lemma HighByteMovesDown(h: bv16)
    requires h < 256
    ensures EightShifts16(h << 8) == h
  {
  }

  lemma HighByteGone(c: bv16, high: bv8)
    requires high == (!c >> 8) as bv8
    ensures EightShifts16(Xor16(Xor16(c >> 8, EightShifts16(0xFF)), high as bv16)) == RESIDUE
  {
    assert EightShifts16(0xFF) == 0x4040;
    HighByteInverted(c, high);
    assert EightShifts16(0x40BF) == RESIDUE;
  }

  lemma HighByteInverted(c: bv16, high: bv8)
    requires high == (!c >> 8) as bv8
    ensures Xor16(Xor16(c >> 8, 0x4040), high as bv16) == 0x40BF
  {
  }

  // ---------- known answers ----------

  /** What is inverted and what is sent first. */
  lemma CheckBytesAre(crc: bv16)
    ensures |CheckBytes(crc)| == |PlainBytes(crc)| == 2
    ensures (PlainBytes(crc)[0] as bv16) == crc & 0xFF && (PlainBytes(crc)[1] as bv16) == crc >> 8
    ensures CheckBytes(crc)[0] == PlainBytes(crc)[0] ^ 0xFF && CheckBytes(crc)[1] == PlainBytes(crc)[1] ^ 0xFF
  {
  }

  lemma Absorbed(message: seq<bv8>, k: nat, x: bv16, after: bv16)
    requires k < |message| && x == Crc16(message[..k], 0) ^ (message[k] as bv16) && EightShifts16(x) == after
    ensures Crc16(message[..k + 1], 0) == after
  {
    assert message[..k + 1] == message[..k] + [message[k]];
    REG16.CrcAppend(message[..k], 0, message[k]);
    EightShifts16Unrolled(x);
  }

  lemma Check3(m: seq<bv8>)
    requires m == [0x31, 0x32, 0x33, 0x34, 0x35, 0x36, 0x37, 0x38, 0x39]
    ensures Crc16(m[..3], 0) == 0xBA04
  {
    assert EightShifts16(0x0031) == 0xD4C1;
    Absorbed(m, 0, 0x0031, 0xD4C1);
    assert EightShifts16(0xD4F3) == 0x4594;
    Absorbed(m, 1, 0xD4F3, 0x4594);
    assert EightShifts16(0x45A7) == 0xBA04;
    Absorbed(m, 2, 0x45A7, 0xBA04);
  }

  lemma Check6(m: seq<bv8>)
    requires m == [0x31, 0x32, 0x33, 0x34, 0x35, 0x36, 0x37, 0x38, 0x39]
    ensures Crc16(m[..6], 0) == 0x29E4
  {
    Check3(m);
    assert EightShifts16(0xBA30) == 0x14BA;
    Absorbed(m, 3, 0xBA30, 0x14BA);
    assert EightShifts16(0x148F) == 0xA455;
    Absorbed(m, 4, 0x148F, 0xA455);
    assert EightShifts16(0xA463) == 0x29E4;
    Absorbed(m, 5, 0xA463, 0x29E4);
  }

  /** The check value of the digits from 1 to 9 in ASCII. */
  lemma KnownCheck16(m: seq<bv8>)
    requires m == [0x31, 0x32, 0x33, 0x34, 0x35, 0x36, 0x37, 0x38, 0x39]
    ensures Crc16(m, 0) == 0xBB3D
  {
    Check6(m);
    assert EightShifts16(0x29D3) == 0x9D68;
    Absorbed(m, 6, 0x29D3, 0x9D68);
    assert EightShifts16(0x9D50) == 0x3C9D;
    Absorbed(m, 7, 0x9D50, 0x3C9D);
    assert EightShifts16(0x3CA4) == 0xBB3D;
    Absorbed(m, 8, 0x3CA4, 0xBB3D);
    assert m[..9] == m;
  }
}
