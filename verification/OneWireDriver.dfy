/** The 1-Wire master: the search state kept in fields and in an 8-byte buffer, driven over a bus. */
module OneWireDriver {
  import opened Bytes
  import opened OneWireRom
  import opened OneWireSearch

  // ---------- eight bytes as 64 bits ----------

  /** Bit `i` of an address is bit `i % 8` of byte `i / 8`. */
  function Bits(bytes: seq<bv8>): Rom
    requires |bytes| == 8
  {
    seq(ROM_BITS, i requires 0 <= i < ROM_BITS => Bit(bytes[i / 8], i % 8))
  }

  const ZERO_ROM: Rom := seq(ROM_BITS, _ => false)

  /** A family code as the first eight bits of an address. */
  function FamilyBits(code: bv8): seq<bool> {
    ByteBits(code)
  }

  /** Eight bytes one after the other, the lowest bit of each first. */
  lemma BytesInOrder(bytes: seq<bv8>, k: nat)
    requires |bytes| == 8 && k < 8
    ensures Bits(bytes)[8 * k..8 * k + 8] == ByteBits(bytes[k])
  {
    forall j | 0 <= j < 8 ensures Bits(bytes)[8 * k + j] == ByteBits(bytes[k])[j] {
      assert (8 * k + j) / 8 == k && (8 * k + j) % 8 == j;
    }
  }

  /** Different bytes are different addresses. */
  lemma BitsTell(a: seq<bv8>, b: seq<bv8>)
    requires |a| == |b| == 8 && Bits(a) == Bits(b)
    ensures a == b
  {
    forall k | 0 <= k < 8 ensures a[k] == b[k] {
      BytesInOrder(a, k);
      BytesInOrder(b, k);
      SameBits(a[k], b[k]);
    }
  }

  /** The family of an address is the number in its first byte. */
  lemma FamilyIsFirstByte(bytes: seq<bv8>, code: bv8)
    requires |bytes| == 8
    ensures InFamily(Bits(bytes), FamilyBits(code)) <==> bytes[0] == code
  {
    BytesInOrder(bytes, 0);
    SameBits(bytes[0], code);
  }

  /** The call after `target_search(code)` finds an address whose first byte is `code` if and only if a
      device has such an address and the code is not zero. */
  lemma TargetedByCode(devices: set<Rom>, code: bv8, bytes: seq<bv8>)
    requires |bytes| == 8
    requires var o := OneWireSearch.Search(devices, devices != {}, Targeted(FamilyBits(code))).1;
      o.Found? ==> Bits(bytes) == o.rom
    ensures var o := OneWireSearch.Search(devices, devices != {}, Targeted(FamilyBits(code))).1;
      (o.Found? && bytes[0] == code) <==>
        (code != 0 && exists d: seq<bv8> :: |d| == 8 && Bits(d) in devices && d[0] == code)
  {
    TargetSearchFindsFamily(devices, FamilyBits(code));
    FamilyIsFirstByte(bytes, code);
    ZeroByte(code);
    assert (exists i :: 0 <= i < 8 && FamilyBits(code)[i]) <==> code != 0 by {
      assert forall i | 0 <= i < 8 :: FamilyBits(code)[i] == Bit(code, i);
    }
    forall d: seq<bv8> | |d| == 8 && Bits(d) in devices ensures d[0] == code <==> InFamily(Bits(d), FamilyBits(code)) {
      FamilyIsFirstByte(d, code);
    }
    forall r | r in devices && InFamily(r, FamilyBits(code))
      ensures exists d: seq<bv8> :: |d| == 8 && Bits(d) in devices && d[0] == code
    {
      var d := BytesOf(r);
      FamilyIsFirstByte(d, code);
    }
  }

  /** Every address is that of some bytes. */
  lemma BytesOf(r: Rom) returns (bytes: seq<bv8>)
    ensures |bytes| == 8 && Bits(bytes) == r
  {
    bytes := [];
    while |bytes| < 8
      invariant |bytes| <= 8 && forall k :: 0 <= k < |bytes| ==> ByteBits(bytes[k]) == r[8 * k..8 * k + 8]
    {
      var b := ByteOfBits(r[8 * |bytes|..8 * |bytes| + 8]);
      bytes := bytes + [b];
    }
    forall i | 0 <= i < ROM_BITS ensures Bits(bytes)[i] == r[i] {
      assert ByteBits(bytes[i / 8])[i % 8] == r[8 * (i / 8)..8 * (i / 8) + 8][i % 8];
    }
  }

  lemma MaskedByte(b: bv8, k: nat, j: nat)
    requires k < 8 && j < 8
    ensures Bit(b | Mask(k), j) == (j == k || Bit(b, j))
    ensures Bit(b & !Mask(k), j) == (j != k && Bit(b, j))
  {
  }

  lemma NextMask(k: nat)
    requires k < 8
    ensures Mask(k) << 1 == if k == 7 then 0 else Mask(k + 1)
  {
  }

  /** One bit of a byte set or cleared. */
  function WithBit(b: bv8, k: nat, v: bool): bv8
    requires k < 8
  {
    if v then b | Mask(k) else b & !Mask(k)
  }

  lemma NextPosition(bit: nat)
    ensures (bit + 1) % 8 == if bit % 8 == 7 then 0 else bit % 8 + 1
    ensures (bit + 1) / 8 == if bit % 8 == 7 then bit / 8 + 1 else bit / 8
  {
  }

  predicate Selected(b: bv8, mask: bv8) {
    b & mask > 0
  }

  lemma SelectedIsBit(bytes: seq<bv8>, bit: nat, mask: bv8)
    requires |bytes| == 8 && bit < ROM_BITS && mask == Mask(bit % 8)
    ensures Selected(bytes[bit / 8], mask) == Bits(bytes)[bit]
  {
  }

  /** Writing one bit of one byte writes one bit of the address. */
  lemma BitWritten(was: seq<bv8>, now: seq<bv8>, bit: nat, v: bool)
    requires |was| == |now| == 8 && bit < ROM_BITS
    requires now == was[bit / 8 := WithBit(was[bit / 8], bit % 8, v)]
    ensures Bits(now) == Bits(was)[bit := v]
  {
    forall i | 0 <= i < ROM_BITS ensures Bits(now)[i] == Bits(was)[bit := v][i] {
      BitKept(was[bit / 8], bit % 8, i % 8, v);
      if i / 8 == bit / 8 {
        assert now[i / 8] == WithBit(was[bit / 8], bit % 8, v);
        assert i % 8 == bit % 8 ==> i == bit;
      } else {
        assert now[i / 8] == was[i / 8];
      }
    }
  }

  /** The byte with the masked bit set or cleared. */
  function ChangedByte(b: bv8, mask: bv8, direction: bv8): bv8 {
    if direction == 1 then b | mask else b & !mask
  }

  lemma BitStored(was: seq<bv8>, now: seq<bv8>, bit: nat, mask: bv8, direction: bv8, b: bv8)
    requires |was| == |now| == 8 && bit < ROM_BITS && mask == Mask(bit % 8)
    requires b == ChangedByte(was[bit / 8], mask, direction)
    requires now == was[bit / 8 := b]
    ensures Bits(now) == Bits(was)[bit := direction == 1]
  {
    BitWritten(was, now, bit, direction == 1);
  }

  lemma BitKept(b: bv8, k: nat, j: nat, v: bool)
    requires k < 8 && j < 8
    ensures Bit(WithBit(b, k, v), j) == if j == k then v else Bit(b, j)
  {
    MaskedByte(b, k, j);
  }

  lemma ZeroByte(b: bv8)
    ensures b == 0 <==> forall k: nat :: k < 8 ==> !Bit(b, k)
  {
    if forall k: nat :: k < 8 ==> !Bit(b, k) {
      assert !Bit(b, 0) && !Bit(b, 1) && !Bit(b, 2) && !Bit(b, 3);
      assert !Bit(b, 4) && !Bit(b, 5) && !Bit(b, 6) && !Bit(b, 7);
    }
  }

  lemma ZeroFamilyByte(bytes: seq<bv8>)
    requires |bytes| == 8
    ensures ZeroFamily(Bits(bytes)) <==> bytes[0] == 0
  {
    ZeroByte(bytes[0]);
    assert forall k: nat :: k < 8 ==> Bits(bytes)[k] == Bit(bytes[0], k);
  }

  // ---------- the bus ----------

  /** What the attached devices expect next. */
  datatype Phase = Idle | Command | IdBit | Complement | Direction

  const SEARCH_ROM: bv8 := 0xF0

  /** A bus with a fixed set of devices. A shorted bus never answers the reset. */
  class Bus {
    const devices: set<Rom>
    const shorted: bool
    var phase: Phase
    var active: set<Rom>
    var bit: nat

    ghost predicate Valid()
      reads this
    {
      (phase == IdBit || phase == Complement || phase == Direction) ==> bit < ROM_BITS
    }

    constructor (devices: set<Rom>, shorted: bool)
      ensures Valid() && this.devices == devices && this.shorted == shorted
    {
      this.devices, this.shorted := devices, shorted;
      phase, active, bit := Idle, {}, 0;
    }

    predicate Presence() {
      !shorted && devices != {}
    }

    method Reset() returns (presence: bool)
      modifies this
      ensures Valid() && presence == Presence() && phase == Command
    {
      presence := !shorted && devices != {};
      phase := Command;
    }

    method WriteByte(v: bv8)
      requires Valid() && phase == Command
      modifies this
      ensures Valid()
      ensures v == SEARCH_ROM ==> phase == IdBit && active == devices && bit == 0
    {
      if v == SEARCH_ROM {
        phase, active, bit := IdBit, devices, 0;
      } else {
        phase := Idle;
      }
    }

    method ReadBit() returns (v: bv8)
      requires Valid()
      modifies this`phase
      ensures Valid()
      ensures old(phase) == IdBit ==>
        phase == Complement && v == if BusBit(active, bit) then 1 else 0
      ensures old(phase) == Complement ==>
        phase == Direction && v == if BusComplement(active, bit) then 1 else 0
    {
      v := 1;
      if phase == IdBit {
        if !BusBit(active, bit) { v := 0; }
        phase := Complement;
      } else if phase == Complement {
        if !BusComplement(active, bit) { v := 0; }
        phase := Direction;
      }
    }

    method WriteBit(v: bv8)
      requires Valid() && phase == Direction
      modifies this
      ensures Valid()
      ensures active == Listening(old(active), old(bit), v & 1 == 1) && bit == old(bit) + 1
      ensures phase == if bit < ROM_BITS then IdBit else Idle
    {
      active := Listening(active, bit, v & 1 == 1);
      bit := bit + 1;
      phase := if bit < ROM_BITS then IdBit else Idle;
    }
  }

  // ---------- the master ----------

  class OneWire {
    const bus: Bus
    const romNo: array<bv8>
    var lastDiscrepancy: nat
    var lastFamilyDiscrepancy: nat
    var lastDeviceFlag: bool

    ghost predicate Valid()
      reads this, bus
    {
      romNo.Length == 8 && bus.Valid()
    }

    ghost function State(): SearchState
      reads this, bus, romNo
      requires Valid()
    {
      SearchState(Bits(romNo[..]), lastDiscrepancy, lastFamilyDiscrepancy, lastDeviceFlag)
    }

    constructor (bus: Bus)
      requires bus.Valid()
      ensures Valid() && this.bus == bus && fresh(romNo) && Fresh(State())
    {
      this.bus := bus;
      romNo := new bv8[8](_ => 0);
      lastDiscrepancy, lastFamilyDiscrepancy, lastDeviceFlag := 0, 0, false;
    }

    method ResetSearch()
      requires Valid()
      modifies this, romNo
      ensures Valid() && State() == Restarted(ZERO_ROM) && Fresh(State())
    {
      lastDiscrepancy := 0;
      lastDeviceFlag := false;
      lastFamilyDiscrepancy := 0;
      var i := 7;
      while true
        invariant 0 <= i < 8
        invariant forall k :: i < k < 8 ==> romNo[k] == 0
        decreases i
        modifies romNo
      {
        romNo[i] := 0;
        if i == 0 { break; }
        i := i - 1;
      }
      assert forall k | 0 <= k < 8 :: romNo[..][k] == 0;
      assert Bits(romNo[..]) == ZERO_ROM;
    }

    method TargetSearch(familyCode: bv8)
      requires Valid()
      modifies this, romNo
      ensures Valid()
      ensures State() == Targeted(FamilyBits(familyCode))
      ensures romNo[0] == familyCode && forall k :: 1 <= k < 8 ==> romNo[k] == 0
    {
      romNo[0] := familyCode;
      for i := 1 to 8
        invariant romNo[0] == familyCode
        invariant forall k :: 1 <= k < i ==> romNo[k] == 0
        modifies romNo
      {
        romNo[i] := 0;
      }
      lastDiscrepancy := 64;
      lastFamilyDiscrepancy := 0;
      lastDeviceFlag := false;
      assert Bits(romNo[..]) == FamilyAddress(FamilyBits(familyCode));
    }

    /** Where the walk stands when `bit` bits are written and `lastZero` is the last 0 chosen. */
    ghost function Progress(bit: nat, lastZero: nat): Walk
      reads this, bus, romNo
      requires Valid()
    {
      Walk(bus.active, bit, Bits(romNo[..]), lastZero, lastFamilyDiscrepancy)
    }

    /** The body of the search loop: ask for one bit, choose a direction, record it and write it. */
    method Turn(idBitNumber: nat, lastZero: nat, romByteNumber: nat, romByteMask: bv8)
      returns (answered: bool, newLastZero: nat)
      requires Valid() && 1 <= idBitNumber <= ROM_BITS
      requires bus.phase == IdBit && bus.bit == idBitNumber - 1
      requires romByteNumber == (idBitNumber - 1) / 8 && romByteMask == Mask((idBitNumber - 1) % 8)
      modifies this`lastFamilyDiscrepancy, romNo, bus
      ensures Valid()
      ensures answered == !(BusBit(old(bus.active), idBitNumber - 1) && BusComplement(old(bus.active), idBitNumber - 1))
      ensures !answered ==> Progress(idBitNumber - 1, newLastZero) == old(Progress(idBitNumber - 1, lastZero))
      ensures answered ==>
        && Progress(idBitNumber, newLastZero) == StepWalk(old(Progress(idBitNumber - 1, lastZero)), lastDiscrepancy)
        && (idBitNumber < ROM_BITS ==> bus.phase == IdBit && bus.bit == idBitNumber)
    {
      ghost var before := Progress(idBitNumber - 1, lastZero);
      newLastZero := lastZero;
      var idBit := bus.ReadBit();
      var cmpIdBit := bus.ReadBit();

      if idBit == 1 && cmpIdBit == 1 {
        return false, lastZero;
      }
      var searchDirection;
      searchDirection, newLastZero :=
        ChooseDirection(idBit, cmpIdBit, idBitNumber, lastZero, romByteNumber, romByteMask);
      ghost var n := StepWalk(before, lastDiscrepancy);
      assert n.rom == before.rom[idBitNumber - 1 := searchDirection == 1];
      RecordBit(idBitNumber - 1, romByteNumber, romByteMask, searchDirection);
      bus.WriteBit(searchDirection);
      answered := true;
    }

    method ChooseDirection(idBit: bv8, cmpIdBit: bv8, idBitNumber: nat, lastZero: nat,
                           romByteNumber: nat, romByteMask: bv8)
      returns (searchDirection: bv8, newLastZero: nat)
      requires Valid() && 1 <= idBitNumber <= ROM_BITS && idBit <= 1 && cmpIdBit <= 1
      requires romByteNumber == (idBitNumber - 1) / 8 && romByteMask == Mask((idBitNumber - 1) % 8)
      modifies this`lastFamilyDiscrepancy
      ensures searchDirection == 0 || searchDirection == 1
      ensures searchDirection == 1 <==>
        if idBit != cmpIdBit then idBit == 1
        else if idBitNumber < lastDiscrepancy then Bits(romNo[..])[idBitNumber - 1]
        else idBitNumber == lastDiscrepancy
      ensures var tookZero := idBit == cmpIdBit && searchDirection == 0;
        && newLastZero == (if tookZero then idBitNumber else lastZero)
        && lastFamilyDiscrepancy == if tookZero && idBitNumber < 9 then idBitNumber else old(lastFamilyDiscrepancy)
    {
      newLastZero := lastZero;
      if idBit != cmpIdBit {
        searchDirection := idBit;
      } else {
        if idBitNumber < lastDiscrepancy {
          SelectedIsBit(romNo[..], idBitNumber - 1, romByteMask);
          searchDirection := if Selected(romNo[romByteNumber], romByteMask) then 1 else 0;
        } else {
          searchDirection := if idBitNumber == lastDiscrepancy then 1 else 0;
        }
        if searchDirection == 0 {
          newLastZero := idBitNumber;
          if newLastZero < 9 {
            lastFamilyDiscrepancy := newLastZero;
          }
        }
      }
    }

    method RecordBit(ghost bit: nat, romByteNumber: nat, romByteMask: bv8, searchDirection: bv8)
      requires Valid() && bit < ROM_BITS
      requires romByteNumber == bit / 8 && romByteMask == Mask(bit % 8)
      modifies romNo
      ensures Bits(romNo[..]) == old(Bits(romNo[..]))[bit := searchDirection == 1]
    {
      ghost var bytes := romNo[..];
      var b := ChangedByte(romNo[romByteNumber], romByteMask, searchDirection);
      assert bytes[romByteNumber] == romNo[romByteNumber];
      romNo[romByteNumber] := b;
      BitStored(bytes, romNo[..], bit, romByteMask, searchDirection, b);
    }

    /** The search loop runs the whole walk. */
    method WalkBits() returns (idBitNumber: nat, lastZero: nat)
      requires Valid() && bus.phase == IdBit && bus.bit == 0
      modifies this`lastFamilyDiscrepancy, romNo, bus
      ensures Valid() && idBitNumber >= 1
      ensures Progress(idBitNumber - 1, lastZero) == RunWalk(old(Progress(0, 0)), lastDiscrepancy)
    {
      idBitNumber, lastZero := 1, 0;
      var romByteNumber := 0;
      var romByteMask: bv8 := 1;
      while romByteNumber < 8
        invariant Valid() && 1 <= idBitNumber <= ROM_BITS + 1
        invariant RunWalk(Progress(idBitNumber - 1, lastZero), lastDiscrepancy)
               == RunWalk(old(Progress(0, 0)), lastDiscrepancy)
        invariant romByteNumber == (idBitNumber - 1) / 8 && romByteMask == Mask((idBitNumber - 1) % 8)
        invariant idBitNumber <= ROM_BITS ==> bus.phase == IdBit && bus.bit == idBitNumber - 1
        decreases ROM_BITS + 1 - idBitNumber
      {
        var answered;
        answered, lastZero := Turn(idBitNumber, lastZero, romByteNumber, romByteMask);
        if !answered {
          break;
        }
        romByteNumber, romByteMask := NextPlace(romByteNumber, romByteMask, idBitNumber - 1);
        idBitNumber := idBitNumber + 1;
      }
    }

    /** Shift the mask; when it runs out of the byte, go to the next byte. */
    static method NextPlace(romByteNumber0: nat, romByteMask0: bv8, ghost bit: nat)
      returns (romByteNumber: nat, romByteMask: bv8)
      requires romByteNumber0 == bit / 8 && romByteMask0 == Mask(bit % 8)
      ensures romByteNumber == (bit + 1) / 8 && romByteMask == Mask((bit + 1) % 8)
    {
      romByteNumber, romByteMask := romByteNumber0, romByteMask0 << 1;
      NextMask(bit % 8);
      NextPosition(bit);
      if romByteMask == 0 {
        romByteNumber := romByteNumber + 1;
        romByteMask := 1;
      }
    }

    /** One search call does exactly what `Search` says, and copies the address out unless the
        bus reset failed. */
    method Search(newAddr: array<bv8>) returns (found: bool)
      requires Valid() && newAddr.Length == 8 && newAddr != romNo
      modifies this, romNo, newAddr, bus
      ensures Valid()
      ensures var (s, o) := OneWireSearch.Search(bus.devices, bus.Presence(), old(State()));
        State() == s && found == o.Found? && (found ==> Bits(newAddr[..]) == o.rom)
      ensures newAddr[..] == if old(lastDeviceFlag) || bus.Presence() then romNo[..] else old(newAddr[..])
    {
      found := false;

      if !lastDeviceFlag {
        var presence := bus.Reset();
        if !presence {
          lastDiscrepancy := 0;
          lastDeviceFlag := false;
          lastFamilyDiscrepancy := 0;
          return false;
        }

        bus.WriteByte(SEARCH_ROM);
        var idBitNumber, lastZero := WalkBits();

        if !(idBitNumber < 65) {
          lastDiscrepancy := lastZero;
          if lastDiscrepancy == 0 {
            lastDeviceFlag := true;
          }
          found := true;
        }
      }

      ZeroFamilyByte(romNo[..]);
      if !found || romNo[0] == 0 {
        lastDiscrepancy := 0;
        lastDeviceFlag := false;
        lastFamilyDiscrepancy := 0;
        found := false;
      }
      for i := 0 to 8
        invariant newAddr[..i] == romNo[..i]
        modifies newAddr
      {
        newAddr[i] := romNo[i];
      }
      assert newAddr[..] == newAddr[..8] && romNo[..] == romNo[..8];
    }
  }
}
