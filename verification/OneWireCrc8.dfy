/** The 8-bit 1-Wire check (x^8 + x^5 + x^4 + 1) in the driver's two forms, by look-up table and
    bit by bit. */
module OneWireCrc8 {
  import opened Bytes
  import opened CrcRegister

  function Shift8(c: bv8): bv8 {
    if c & 1 == 1 then (c >> 1) ^ 0x8C else c >> 1
  }

  function Xor8(x: bv8, y: bv8): bv8 {
    x ^ y
  }

  const REG8: Register<bv8> := Register(0, 1, Xor8, Shift8, (b: bv8) => b)

  /** The check byte of a message. */
  function Crc8(message: seq<bv8>): bv8 {
    REG8.Crc(message, 0)
  }

  lemma Shift8KeepsApart(x: bv8, y: bv8)
    ensures Shift8(x) == Shift8(y) ==> x == y
  {
  }

  lemma Xor8Cancels(x: bv8, y: bv8, z: bv8)
    ensures Xor8(x, z) == Xor8(y, z) ==> x == y
    ensures Xor8(z, x) == Xor8(z, y) ==> x == y
    ensures Xor8(z, 0) == z && Xor8(z, z) == 0
  {
  }

  lemma FeedStep8(c: bv8, r: bv8)
    ensures Shift8(Xor8(c, r)) == Xor8(Shift8(Xor8(c, if r & 1 == 1 then 1 else 0)), r >> 1)
  {
  }

  lemma ShiftForgetsNothing8()
    ensures REG8.ShiftForgetsNothing()
  {
    forall x, y ensures Shift8(x) == Shift8(y) ==> x == y {
      Shift8KeepsApart(x, y);
    }
  }

  lemma XorCancels8()
    ensures REG8.XorCancels()
  {
    forall x, y, z
      ensures Xor8(x, z) == Xor8(y, z) ==> x == y
      ensures Xor8(z, x) == Xor8(z, y) ==> x == y
    {
      Xor8Cancels(x, y, z);
    }
  }

  lemma WidensBytes8()
    ensures REG8.WidensBytes()
  {
    forall c ensures Xor8(c, 0) == c {
      Xor8Cancels(0, 0, c);
    }
  }

  lemma AddsBytes8()
    ensures REG8.AddsBytes()
  {
    forall c, r: bv8, rest: bv8, bit | rest == r >> 1 && (bit <==> r & 1 == 1)
      ensures REG8.shift(REG8.xor(c, REG8.widen(r))) == REG8.xor(REG8.Feed(c, bit), REG8.widen(rest))
    {
      FeedStep8(c, r);
    }
  }

  lemma Lawful8()
    ensures REG8.Lawful()
  {
    ShiftForgetsNothing8();
    XorCancels8();
    WidensBytes8();
    AddsBytes8();
  }

  /** Every error burst of up to eight bits, at any place in the stream, changes the check byte. */
  lemma Crc8DetectsBursts(a: seq<bv8>, b: seq<bv8>, start: nat)
    requires DifferWithin(Stream(a), Stream(b), start, 8)
    ensures Crc8(a) != Crc8(b)
  {
    Lawful8();
    REG8.EightBitsTell();
    WithinIsBurst(Stream(a), Stream(b), start, 8);
    REG8.DetectsBursts(a, b, 0, if start + 8 <= |Stream(a)| then start else |Stream(a)| - 8, 8);
  }

  /** So does a single wrong byte. */
  lemma Crc8DetectsWrongByte(a: seq<bv8>, b: seq<bv8>, k: nat)
    requires |a| == |b| && k < |a| && a[k] != b[k] && forall i :: 0 <= i < |a| && i != k ==> a[i] == b[i]
    ensures Crc8(a) != Crc8(b)
  {
    DifferInOneByte(a, b, k);
    Crc8DetectsBursts(a, b, 8 * k);
  }

  /** A message followed by a byte checks to 0 exactly when that byte is its check byte. */
  lemma AppendedCrc8(message: seq<bv8>, check: bv8)
    ensures Crc8(message + [check]) == 0 <==> check == Crc8(message)
  {
    Lawful8();
    var c := Crc8(message);
    REG8.CrcAppend(message, 0, check);
    REG8.AbsorbTells(c, check, c);
    OwnCheckByte(c);
  }

  lemma OwnCheckByte(c: bv8)
    ensures REG8.Absorb(c, c) == 0
  {
    ZeroStays(8);
  }

  lemma ZeroStays(n: nat)
    ensures REG8.Shifts(0, n) == 0
  {
  }

  // ---------- the look-up table ----------

  /** The sixteen lines of the look-up table. */
  function TableRow(r: nat): (row: seq<bv8>)
    requires r < 16
    ensures |row| == 16
  {
    if r == 0 then [0, 94, 188, 226, 97, 63, 221, 131, 194, 156, 126, 32, 163, 253, 31, 65]
    else if r == 1 then [157, 195, 33, 127, 252, 162, 64, 30, 95, 1, 227, 189, 62, 96, 130, 220]
    else if r == 2 then [35, 125, 159, 193, 66, 28, 254, 160, 225, 191, 93, 3, 128, 222, 60, 98]
    else if r == 3 then [190, 224, 2, 92, 223, 129, 99, 61, 124, 34, 192, 158, 29, 67, 161, 255]
    else if r == 4 then [70, 24, 250, 164, 39, 121, 155, 197, 132, 218, 56, 102, 229, 187, 89, 7]
    else if r == 5 then [219, 133, 103, 57, 186, 228, 6, 88, 25, 71, 165, 251, 120, 38, 196, 154]
    else if r == 6 then [101, 59, 217, 135, 4, 90, 184, 230, 167, 249, 27, 69, 198, 152, 122, 36]
    else if r == 7 then [248, 166, 68, 26, 153, 199, 37, 123, 58, 100, 134, 216, 91, 5, 231, 185]
    else if r == 8 then [140, 210, 48, 110, 237, 179, 81, 15, 78, 16, 242, 172, 47, 113, 147, 205]
    else if r == 9 then [17, 79, 173, 243, 112, 46, 204, 146, 211, 141, 111, 49, 178, 236, 14, 80]
    else if r == 10 then [175, 241, 19, 77, 206, 144, 114, 44, 109, 51, 209, 143, 12, 82, 176, 238]
    else if r == 11 then [50, 108, 142, 208, 83, 13, 239, 177, 240, 174, 76, 18, 145, 207, 45, 115]
    else if r == 12 then [202, 148, 118, 40, 171, 245, 23, 73, 8, 86, 180, 234, 105, 55, 213, 139]
    else if r == 13 then [87, 9, 235, 181, 54, 104, 138, 212, 149, 203, 41, 119, 244, 170, 72, 22]
    else if r == 14 then [233, 183, 85, 11, 136, 214, 52, 106, 43, 117, 151, 201, 74, 20, 246, 168]
    else [116, 42, 200, 150, 21, 75, 169, 247, 182, 232, 10, 84, 215, 137, 107, 53]
  }

  function Table(b: bv8): bv8 {
    TableRow((b >> 4) as nat)[(b & 0xF) as nat]
  }

  function Nibble(n: nat): bv8
    requires n < 16
  {
    if n == 0 then 0 else if n == 1 then 1 else if n == 2 then 2 else if n == 3 then 3
    else if n == 4 then 4 else if n == 5 then 5 else if n == 6 then 6 else if n == 7 then 7
    else if n == 8 then 8 else if n == 9 then 9 else if n == 10 then 10 else if n == 11 then 11
    else if n == 12 then 12 else if n == 13 then 13 else if n == 14 then 14 else 15
  }

  lemma NibbleOfByte(b: bv8)
    requires b < 16
    ensures (b as nat) < 16 && Nibble(b as nat) == b
  {
  }

  function EightShifts8(c: bv8): bv8 {
    Shift8(Shift8(Shift8(Shift8(Shift8(Shift8(Shift8(Shift8(c))))))))
  }

  lemma EightShifts8Unrolled(c: bv8)
    ensures EightShifts8(c) == REG8.Shifts(c, 8)
  {
    assert REG8.Shifts(c, 1) == Shift8(REG8.Shifts(c, 0));
    assert REG8.Shifts(c, 3) == Shift8(Shift8(REG8.Shifts(c, 1)));
    assert REG8.Shifts(c, 5) == Shift8(Shift8(REG8.Shifts(c, 3)));
    assert REG8.Shifts(c, 7) == Shift8(Shift8(REG8.Shifts(c, 5)));
  }

  /** The values of `f` at sixteen bytes with the same high half. */
  function Row(f: bv8 -> bv8, h: bv8): seq<bv8> {
    [f(h), f(h | 1), f(h | 2), f(h | 3), f(h | 4), f(h | 5), f(h | 6), f(h | 7),
     f(h | 8), f(h | 9), f(h | 10), f(h | 11), f(h | 12), f(h | 13), f(h | 14), f(h | 15)]
  }

  lemma RowAt0(f: bv8 -> bv8, h: bv8, k: nat)
    requires k < 4
    ensures Row(f, h)[k] == f(h | Nibble(k))
  {
    var row := Row(f, h);
    match k
    case 0 => assert h | 0 == h;
    case 1 => assert row[1] == f(h | 1);
    case 2 => assert row[2] == f(h | 2);
    case _ => assert row[3] == f(h | 3);
  }

  lemma RowAt4(f: bv8 -> bv8, h: bv8, k: nat)
    requires 4 <= k < 8
    ensures Row(f, h)[k] == f(h | Nibble(k))
  {
    var row := Row(f, h);
    match k
    case 4 => assert row[4] == f(h | 4);
    case 5 => assert row[5] == f(h | 5);
    case 6 => assert row[6] == f(h | 6);
    case _ => assert row[7] == f(h | 7);
  }

  lemma RowAt8(f: bv8 -> bv8, h: bv8, k: nat)
    requires 8 <= k < 12
    ensures Row(f, h)[k] == f(h | Nibble(k))
  {
    var row := Row(f, h);
    match k
    case 8 => assert row[8] == f(h | 8);
    case 9 => assert row[9] == f(h | 9);
    case 10 => assert row[10] == f(h | 10);
    case _ => assert row[11] == f(h | 11);
  }

  lemma RowAt12(f: bv8 -> bv8, h: bv8, k: nat)
    requires 12 <= k < 16
    ensures Row(f, h)[k] == f(h | Nibble(k))
  {
    var row := Row(f, h);
    match k
    case 12 => assert row[12] == f(h | 12);
    case 13 => assert row[13] == f(h | 13);
    case 14 => assert row[14] == f(h | 14);
    case _ => assert row[15] == f(h | 15);
  }

  // Each line of the table holds the eight-fold shifts of its sixteen bytes.
  lemma TableRow0() ensures TableRow(0) == Row(EightShifts8, 0x00) { }
  lemma TableRow1() ensures TableRow(1) == Row(EightShifts8, 0x10) { }
  lemma TableRow2() ensures TableRow(2) == Row(EightShifts8, 0x20) { }
  lemma TableRow3() ensures TableRow(3) == Row(EightShifts8, 0x30) { }
  lemma TableRow4() ensures TableRow(4) == Row(EightShifts8, 0x40) { }
  lemma TableRow5() ensures TableRow(5) == Row(EightShifts8, 0x50) { }
  lemma TableRow6() ensures TableRow(6) == Row(EightShifts8, 0x60) { }
  lemma TableRow7() ensures TableRow(7) == Row(EightShifts8, 0x70) { }
  lemma TableRow8() ensures TableRow(8) == Row(EightShifts8, 0x80) { }
  lemma TableRow9() ensures TableRow(9) == Row(EightShifts8, 0x90) { }
  lemma TableRow10() ensures TableRow(10) == Row(EightShifts8, 0xA0) { }
  lemma TableRow11() ensures TableRow(11) == Row(EightShifts8, 0xB0) { }
  lemma TableRow12() ensures TableRow(12) == Row(EightShifts8, 0xC0) { }
  lemma TableRow13() ensures TableRow(13) == Row(EightShifts8, 0xD0) { }
  lemma TableRow14() ensures TableRow(14) == Row(EightShifts8, 0xE0) { }
  lemma TableRow15() ensures TableRow(15) == Row(EightShifts8, 0xF0) { }

  lemma HalvesOfByte(b: bv8)
    ensures (b >> 4) as nat < 16 && (b & 0xF) as nat < 16
    ensures b == (Nibble((b >> 4) as nat) << 4) | Nibble((b & 0xF) as nat)
  {
    NibbleOfByte(b >> 4);
    NibbleOfByte(b & 0xF);
  }

  lemma RowOfByte(f: bv8 -> bv8, row: seq<bv8>, b: bv8)
    requires row == Row(f, Nibble((b >> 4) as nat) << 4)
    ensures row[(b & 0xF) as nat] == f(b)
  {
    HalvesOfByte(b);
    var k := (b & 0xF) as nat;
    var h := Nibble((b >> 4) as nat) << 4;
    if k < 4 {
      RowAt0(f, h, k);
    } else if k < 8 {
      RowAt4(f, h, k);
    } else if k < 12 {
      RowAt8(f, h, k);
    } else {
      RowAt12(f, h, k);
    }
  }

  lemma TableRows(r: nat)
    requires r < 16
    ensures TableRow(r) == Row(EightShifts8, Nibble(r) << 4)
  {
    match r
    case 0 => TableRow0();
    case 1 => TableRow1();
    case 2 => TableRow2();
    case 3 => TableRow3();
    case 4 => TableRow4();
    case 5 => TableRow5();
    case 6 => TableRow6();
    case 7 => TableRow7();
    case 8 => TableRow8();
    case 9 => TableRow9();
    case 10 => TableRow10();
    case 11 => TableRow11();
    case 12 => TableRow12();
    case 13 => TableRow13();
    case 14 => TableRow14();
    case _ => TableRow15();
  }

  lemma TableIsShifts(b: bv8)
    ensures Table(b) == EightShifts8(b)
  {
    TableRows((b >> 4) as nat);
    RowOfByte(EightShifts8, TableRow((b >> 4) as nat), b);
  }

  /** The look-up table absorbs a byte. */
  lemma TableAbsorbs(c: bv8, b: bv8)
    ensures Table(c ^ b) == REG8.Absorb(c, b)
  {
    var x := c ^ b;
    TableIsShifts(x);
    EightShifts8Unrolled(x);
    assert REG8.xor(c, REG8.widen(b)) == x;
  }

  /** The look-up loop computes the check byte. */
  method Crc8ByTable(addr: array<bv8>, len: nat) returns (crc: bv8)
    requires len <= addr.Length && len < 256
    ensures crc == Crc8(addr[..len])
  {
    crc := 0;
    for i := 0 to len
      invariant crc == Crc8(addr[..i])
    {
      assert addr[..i + 1] == addr[..i] + [addr[i]];
      REG8.CrcAppend(addr[..i], 0, addr[i]);
      TableAbsorbs(crc, addr[i]);
      crc := Table(crc ^ addr[i]);
    }
  }

  // ---------- bit by bit ----------

  /** The bit loop, which shifts the check byte and the input byte side by side, computes it too. */
  method Crc8ByBits(addr: array<bv8>, len: nat) returns (crc: bv8)
    requires len <= addr.Length && len < 256
    ensures crc == Crc8(addr[..len])
  {
    crc := 0;
    for n := 0 to len
      invariant crc == Crc8(addr[..n])
    {
      assert addr[..n + 1] == addr[..n] + [addr[n]];
      REG8.CrcAppend(addr[..n], 0, addr[n]);
      crc := ShiftIn(crc, addr[n]);
    }
  }

  /** The inner loop: after eight turns the input byte is used up. */
  method ShiftIn(crc0: bv8, b: bv8) returns (crc: bv8)
    ensures crc == REG8.Absorb(crc0, b)
  {
    crc := crc0;
    var inbyte := b;
    ghost var start := Xor8(crc0, b);
    for i := 8 downto 0
      invariant Together(start, b, 8 - i, crc, inbyte)
    {
      crc, inbyte := ShiftInBit(crc, inbyte, start, b, 7 - i);
    }
    UsedUp(crc0, b, crc, inbyte);
  }

  /** After `n` turns the byte has lost `n` bits, and both together are the register. */
  ghost predicate Together(start: bv8, b: bv8, n: nat, crc: bv8, inbyte: bv8) {
    n <= 8 && inbyte == Rest(b, n) && Xor8(crc, inbyte) == REG8.Shifts(start, n)
  }

  lemma UsedUp(crc0: bv8, b: bv8, crc: bv8, inbyte: bv8)
    requires Together(Xor8(crc0, b), b, 8, crc, inbyte)
    ensures crc == REG8.Absorb(crc0, b)
  {
    NothingLeft(b);
    Xor8Cancels(0, 0, crc);
  }

  method ShiftInBit(crc0: bv8, inbyte0: bv8, ghost start: bv8, ghost b: bv8, ghost n: nat)
    returns (crc: bv8, inbyte: bv8)
    requires n < 8 && Together(start, b, n, crc0, inbyte0)
    ensures Together(start, b, n + 1, crc, inbyte)
  {
    var mix := (crc0 ^ inbyte0) & 0x01;
    crc := crc0 >> 1;
    if mix != 0 {
      crc := crc ^ 0x8C;
    }
    inbyte := inbyte0 >> 1;
    MixStep(crc0, inbyte0, crc);
  }

  lemma MixStep(c: bv8, b: bv8, crc: bv8)
    requires crc == if (c ^ b) & 1 != 0 then (c >> 1) ^ 0x8C else c >> 1
    ensures Xor8(crc, b >> 1) == Shift8(Xor8(c, b))
  {
    assert (c ^ b) >> 1 == (c >> 1) ^ (b >> 1);
    assert (c ^ b) & 1 != 0 <==> (c ^ b) & 1 == 1;
  }

  // ---------- a known answer ----------

  lemma Absorbed(message: seq<bv8>, k: nat, x: bv8, after: bv8)
    requires k < |message| && x == Crc8(message[..k]) ^ message[k] && EightShifts8(x) == after
    ensures Crc8(message[..k + 1]) == after
  {
    assert message[..k + 1] == message[..k] + [message[k]];
    REG8.CrcAppend(message[..k], 0, message[k]);
    EightShifts8Unrolled(x);
  }

  lemma Check3(m: seq<bv8>)
    requires m == [0x31, 0x32, 0x33, 0x34, 0x35, 0x36, 0x37, 0x38, 0x39]
    ensures Crc8(m[..3]) == 0x95
  {
    assert EightShifts8(0x31) == 0xE0;
    Absorbed(m, 0, 0x31, 0xE0);
    assert EightShifts8(0xD2) == 0xEB;
    Absorbed(m, 1, 0xD2, 0xEB);
    assert EightShifts8(0xD8) == 0x95;
    Absorbed(m, 2, 0xD8, 0x95);
  }

  lemma Check6(m: seq<bv8>)
    requires m == [0x31, 0x32, 0x33, 0x34, 0x35, 0x36, 0x37, 0x38, 0x39]
    ensures Crc8(m[..6]) == 0xEC
  {
    Check3(m);
    assert EightShifts8(0xA1) == 0xF1;
    Absorbed(m, 3, 0xA1, 0xF1);
    assert EightShifts8(0xC4) == 0xAB;
    Absorbed(m, 4, 0xC4, 0xAB);
    assert EightShifts8(0x9D) == 0xEC;
    Absorbed(m, 5, 0x9D, 0xEC);
  }

  /** The check byte of the digits from 1 to 9 in ASCII. */
  lemma KnownCheck8(m: seq<bv8>)
    requires m == [0x31, 0x32, 0x33, 0x34, 0x35, 0x36, 0x37, 0x38, 0x39]
    ensures Crc8(m) == 0xA1
  {
    Check6(m);
    assert EightShifts8(0xDB) == 0x77;
    Absorbed(m, 6, 0xDB, 0x77);
    assert EightShifts8(0x4F) == 0x07;
    Absorbed(m, 7, 0x4F, 0x07);
    assert EightShifts8(0x3E) == 0xA1;
    Absorbed(m, 8, 0x3E, 0xA1);
    assert m[..9] == m;
  }
}
