/** The serial driver: two rings of 2048 places, with their pointers moved by the callers and by the
    interrupt handler. */
module SerialDevice {
  import opened Words
  import opened SerialSpec
  import R = Ring

  class SerialDevice {
    const rxBuffer: array<Byte>
    const txBuffer: array<Byte>
    var rxInPtr: nat
    var rxOutPtr: nat
    var rxStatus: int
    var txInPtr: nat
    var txOutPtr: nat
    var txInterrupt: bool
    /** What has been written to the UART's data register. */
    var uart: seq<Byte>
    ghost var s: State

    ghost predicate Valid()
      reads this, rxBuffer, txBuffer
    {
      && rxBuffer != txBuffer && rxBuffer.Length == 2048 && txBuffer.Length == 2048
      && rxInPtr < 2048 && rxOutPtr < 2048 && txInPtr < 2048 && txOutPtr < 2048
      && s.rx == R.Contents(rxBuffer[..], rxOutPtr, rxInPtr)
      && s.tx == R.Contents(txBuffer[..], txOutPtr, txInPtr)
      && s.rxStatus == rxStatus && s.txInterrupt == txInterrupt && s.sent == uart
    }

    constructor ()
      ensures Valid() && s == INIT
      ensures fresh(rxBuffer) && fresh(txBuffer)
    {
      rxBuffer := new Byte[2048];
      txBuffer := new Byte[2048];
      rxInPtr, rxOutPtr, rxStatus, txInPtr, txOutPtr := 0, 0, 0, 0, 0;
      txInterrupt, uart := false, [];
      s := INIT;
    }

    /** Queue one byte for transmission. */
    method WriteByte(c: Byte) returns (ok: bool)
      requires Valid()
      modifies this, txBuffer
      ensures Valid() && s == Put(old(s), c) && ok == (|old(s).tx| < CAPACITY)
    {
      R.Size(txBuffer[..], txOutPtr, txInPtr);
      R.NextIs(txInPtr);
      ok := (txInPtr + 1) % 2048 != txOutPtr;
      if ok {
        R.Put(txBuffer[..], txOutPtr, txInPtr, c);
        txBuffer[txInPtr] := c;
        txInPtr := (txInPtr + 1) % 2048;
      }
      s := Put(s, c);
    }

    /** Hand the oldest queued byte to the UART. */
    method SendOne()
      requires Valid() && txInPtr != txOutPtr
      modifies this`uart, this`txOutPtr, this`s
      ensures Valid() && s == Transmit(old(s), 1) && |s.tx| == |old(s).tx| - 1
    {
      R.Take(txBuffer[..], txOutPtr, txInPtr);
      TransmitFirst(s);
      uart := uart + [txBuffer[txOutPtr]];
      txOutPtr := (txOutPtr + 1) % 2048;
      s := s.(tx := s.tx[1..], sent := uart);
    }

    /** Fill the UART's FIFO, which has room for `room` bytes, from the queue. */
    method FillFifo(room: nat) returns (full: bool)
      requires Valid()
      modifies this`uart, this`txOutPtr, this`s
      ensures Valid() && s == Transmit(old(s), room) && full == (s.tx != [])
    {
      full := false;
      var used := 0;
      while txInPtr != txOutPtr
        invariant Valid() && used <= room
        invariant Transmit(s, room - used) == Transmit(old(s), room)
        decreases |s.tx|
      {
        R.Size(txBuffer[..], txOutPtr, txInPtr);
        if used < room {
          TransmitOneMore(s, room - used);
          SendOne();
          used := used + 1;
        } else {
          full := true;
          break;
        }
      }
      R.Size(txBuffer[..], txOutPtr, txInPtr);
      TransmitNothing(s, room - used);
    }

    /** The last section of a write. */
    method FinishWrite(room: nat)
      requires Valid()
      modifies this
      ensures Valid() && s == EndWrite(old(s), room)
    {
      ghost var s0 := s;
      var full := FillFifo(room);
      if full {
        txInterrupt := true;
      }
      s := EndWrite(s0, room);
    }

    /** Write a text. Between its spin-locked sections interrupts may come, as given by `env`; the FIFO has
        room for `room` bytes at the end. */
    method Write(buffer: seq<Byte>, onlcr: bool, env: seq<seq<Irq>>, room: nat) returns (count: nat)
      requires Valid()
      modifies this, rxBuffer, txBuffer
      ensures Valid()
      ensures Good(old(s)) ==> Good(s)
      ensures var r := WholeWrite(old(s), buffer, onlcr, env, room); s == r.s && count == r.count
    {
      ghost var s0 := s;
      s := Apply(s, BeginWrite);
      var rest;
      count, rest := WriteAll(buffer, onlcr, env);
      rest := Interrupted(rest);
      FinishWrite(room);
      if Good(s0) { WriteKeepsGood(s0, buffer, onlcr, env, room); }
    }

    /** The loop of a write. */
    method WriteAll(buffer: seq<Byte>, onlcr: bool, env: seq<seq<Irq>>) returns (count: nat, rest: seq<seq<Irq>>)
      requires Valid()
      modifies this, rxBuffer, txBuffer
      ensures Valid()
      ensures var r := WriteChars(old(s), buffer, onlcr, env); s == r.s && count == r.count && rest == r.env
    {
      count := 0;
      rest := env;
      var i := 0;
      while i < |buffer|
        invariant i <= |buffer| && count == i && Valid()
        invariant var q := WriteChars(s, buffer[i..], onlcr, rest);
          q.(count := q.count + count) == WriteChars(old(s), buffer, onlcr, env)
      {
        NextChar(s, buffer, i, onlcr, rest);
        var ok;
        ok, rest := WriteOne(buffer[i], onlcr, rest);
        if !ok {
          break;
        }
        i := i + 1;
        count := count + 1;
      }
    }

    /** One turn of the loop of a write. */
    method WriteOne(c: Byte, onlcr: bool, env: seq<seq<Irq>>) returns (ok: bool, rest: seq<seq<Irq>>)
      requires Valid()
      modifies this, rxBuffer, txBuffer
      ensures Valid()
      ensures var r := WriteChar(old(s), c, onlcr, env); s == r.s && ok == (r.count == 1) && rest == r.env
      ensures WriteChar(old(s), c, onlcr, env).count <= 1
    {
      rest := env;
      rest := Interrupted(rest);
      ok := WriteByte(c);
      if !ok {
        return;
      }
      if c == NL {
        if onlcr {
          rest := Interrupted(rest);
          ok := WriteByte(CR);
        }
      }
    }

    /** The interrupts that come before the next section. */
    method Interrupted(env: seq<seq<Irq>>) returns (rest: seq<seq<Irq>>)
      requires Valid()
      modifies this, rxBuffer
      ensures Valid() && s == Interrupts(old(s), Head(env)) && rest == Tail(env)
    {
      var irqs := Head(env);
      var i := 0;
      while i < |irqs|
        invariant i <= |irqs| && Valid()
        invariant Interrupts(s, irqs[i..]) == Interrupts(old(s), irqs)
      {
        InterruptHandler(irqs[i].words, irqs[i].room);
        i := i + 1;
      }
      rest := Tail(env);
    }

    /** Take one word from the UART's receive FIFO. */
    method ReceiveWord(w: RxWord)
      requires Valid()
      modifies this, rxBuffer
      ensures Valid() && s == Receive(old(s), w)
    {
      ghost var s0 := s;
      NoteError(w);
      var stored := StoreByte(w.data);
      if !stored {
        if rxStatus == 0 { rxStatus := ERROR_OVERRUN; }
      }
      s := Receive(s0, w);
    }

    method StoreByte(b: Byte) returns (stored: bool)
      requires Valid()
      modifies this`rxInPtr, this`s, rxBuffer
      ensures Valid() && stored == (|old(s).rx| < CAPACITY)
      ensures s == if stored then old(s).(rx := old(s).rx + [b]) else old(s)
    {
      R.Size(rxBuffer[..], rxOutPtr, rxInPtr);
      R.NextIs(rxInPtr);
      stored := (rxInPtr + 1) % 2048 != rxOutPtr;
      if stored {
        R.Put(rxBuffer[..], rxOutPtr, rxInPtr, b);
        rxBuffer[rxInPtr] := b;
        rxInPtr := (rxInPtr + 1) % 2048;
        s := s.(rx := s.rx + [b]);
      }
    }

    /** The first error stays until it is read. */
    method NoteError(w: RxWord)
      requires Valid()
      modifies this`rxStatus, this`s
      ensures Valid() && s == old(s).(rxStatus := NewStatus(old(s).rxStatus, w))
    {
      if w.breakError {
        if rxStatus == 0 { rxStatus := ERROR_BREAK; }
      } else if w.overrunError {
        if rxStatus == 0 { rxStatus := ERROR_OVERRUN; }
      } else if w.framingError {
        if rxStatus == 0 { rxStatus := ERROR_FRAMING; }
      }
      s := s.(rxStatus := rxStatus);
    }

    /** The interrupt handler: empty the receive FIFO, then fill the transmit FIFO. */
    method InterruptHandler(words: seq<RxWord>, room: nat)
      requires Valid()
      modifies this, rxBuffer
      ensures Valid() && s == Interrupt(old(s), words, room)
    {
      var i := 0;
      while i < |words|
        invariant i <= |words| && Valid()
        invariant ReceiveAll(s, words[i..]) == ReceiveAll(old(s), words)
      {
        ReceiveWord(words[i]);
        i := i + 1;
      }
      TransmitPending(room);
    }

    method TransmitPending(room: nat)
      requires Valid()
      modifies this
      ensures Valid() && s == TransmitInterrupt(old(s), room)
    {
      ghost var s0 := s;
      var used := 0;
      while used < room
        invariant Valid() && used <= room && used + |s.tx| == |s0.tx|
        invariant Transmit(s, room - used) == Transmit(s0, room) && s.txInterrupt == s0.txInterrupt
      {
        R.Size(txBuffer[..], txOutPtr, txInPtr);
        if txInPtr != txOutPtr {
          TransmitOneMore(s, room - used);
          SendOne();
          used := used + 1;
        } else {
          RunsEmpty(s0, s, used, room);
          txInterrupt := false;
          s := s.(txInterrupt := false);
          return;
        }
      }
      StaysOn(s0, s, room);
    }

    /** Report a pending error, or take up to `count` received bytes. */
    method Read(count: nat) returns (result: int, bytes: seq<Byte>)
      requires Valid() && s.rxStatus <= 0
      modifies this
      ensures Valid() && s == SerialSpec.Read(old(s), count)
      ensures if old(s).rxStatus < 0 then result == old(s).rxStatus && bytes == []
        else result == |bytes| && old(s).delivered + bytes == s.delivered
    {
      bytes := [];
      if rxStatus < 0 {
        result := rxStatus;
        rxStatus := 0;
        s := SerialSpec.Read(s, count);
        return;
      }
      result, bytes := ReadWaiting(count);
    }

    /** The loop of a read. */
    method ReadWaiting(count: nat) returns (result: int, bytes: seq<Byte>)
      requires Valid() && s.rxStatus == 0
      modifies this
      ensures Valid() && s == SerialSpec.Read(old(s), count)
      ensures result == |bytes| && old(s).delivered + bytes == s.delivered
    {
      result, bytes := 0, [];
      while result < count
        invariant 0 <= result <= count && result == |bytes| && Valid() && s.rxStatus == 0
        invariant SerialSpec.Read(s, count - result) == SerialSpec.Read(old(s), count)
        invariant s.delivered == old(s).delivered + bytes
      {
        R.Size(rxBuffer[..], rxOutPtr, rxInPtr);
        if rxInPtr == rxOutPtr {
          break;
        }
        ghost var n: nat := count - result;
        ReadOneMore(s, n);
        var b := TakeOne();
        bytes := bytes + [b];
        result := result + 1;
        assert count - result == n - 1;
      }
      R.Size(rxBuffer[..], rxOutPtr, rxInPtr);
      ReadNothing(s, count - result);
    }

    method TakeOne() returns (b: Byte)
      requires Valid() && rxInPtr != rxOutPtr && s.rxStatus == 0
      modifies this`rxOutPtr, this`s
      ensures Valid() && s == SerialSpec.Read(old(s), 1) && s.delivered == old(s).delivered + [b]
    {
      R.Take(rxBuffer[..], rxOutPtr, rxInPtr);
      ReadFirst(s);
      b := rxBuffer[rxOutPtr];
      rxOutPtr := (rxOutPtr + 1) % 2048;
      s := s.(rx := s.rx[1..], delivered := s.delivered + [b]);
    }

    method AvailableForWrite() returns (n: nat)
      requires Valid()
      ensures n == CAPACITY - |s.tx|
    {
      R.Size(txBuffer[..], txOutPtr, txInPtr);
      n := if txOutPtr <= txInPtr then 2048 + txOutPtr - txInPtr - 1 else txOutPtr - txInPtr - 1;
    }

    method AvailableForRead() returns (n: nat)
      requires Valid()
      ensures n == |s.rx|
    {
      R.Size(rxBuffer[..], rxOutPtr, rxInPtr);
      n := if rxInPtr < rxOutPtr then 2048 + rxInPtr - rxOutPtr else rxInPtr - rxOutPtr;
    }
  }

  /** The queue has run empty before the FIFO is full. */
  lemma RunsEmpty(s0: State, s: State, used: nat, room: nat)
    requires used < room && used == |s0.tx| && s.tx == [] && Transmit(s, room - used) == Transmit(s0, room)
    ensures TransmitInterrupt(s0, room) == s.(txInterrupt := false)
  {
    TransmitNothing(s, room - used);
  }

  /** The FIFO is full. */
  lemma StaysOn(s0: State, s: State, room: nat)
    requires room <= |s0.tx| && Transmit(s, 0) == Transmit(s0, room) && s.txInterrupt == s0.txInterrupt
    ensures TransmitInterrupt(s0, room) == s
  {
    TransmitNothing(s, 0);
  }

  lemma TransmitFirst(s: State)
    requires s.tx != []
    ensures Transmit(s, 1) == s.(tx := s.tx[1..], sent := s.sent + [s.tx[0]])
  {
    assert s.tx[..1] == [s.tx[0]];
  }

  lemma ReadFirst(s: State)
    requires s.rx != [] && s.rxStatus == 0
    ensures SerialSpec.Read(s, 1) == s.(rx := s.rx[1..], delivered := s.delivered + [s.rx[0]])
  {
    assert s.rx[..1] == [s.rx[0]];
  }

  lemma TransmitOneMore(s: State, room: nat)
    requires s.tx != [] && room > 0
    ensures Transmit(Transmit(s, 1), room - 1) == Transmit(s, room)
    ensures Transmit(s, 1).txInterrupt == s.txInterrupt
  {
    var n := Least(room, |s.tx|);
    assert s.tx[1..][n - 1..] == s.tx[n..];
    assert s.sent + s.tx[..1] + s.tx[1..][..n - 1] == s.sent + s.tx[..n];
  }

  lemma TransmitNothing(s: State, room: nat)
    requires s.tx == [] || room == 0
    ensures Transmit(s, room) == s
  {
    assert s.tx[0..] == s.tx && s.sent + s.tx[..0] == s.sent;
  }

  lemma ReadOneMore(s: State, count: nat)
    requires s.rx != [] && count > 0 && s.rxStatus == 0
    ensures SerialSpec.Read(SerialSpec.Read(s, 1), count - 1) == SerialSpec.Read(s, count)
  {
    var n := Least(count, |s.rx|);
    assert s.rx[1..][n - 1..] == s.rx[n..];
    assert s.delivered + s.rx[..1] + s.rx[1..][..n - 1] == s.delivered + s.rx[..n];
  }

  lemma ReadNothing(s: State, count: nat)
    requires s.rxStatus == 0 && (s.rx == [] || count == 0)
    ensures SerialSpec.Read(s, count) == s
  {
    assert s.rx[0..] == s.rx && s.delivered + s.rx[..0] == s.delivered;
  }

  lemma NextChar(s: State, buffer: seq<Byte>, i: nat, onlcr: bool, env: seq<seq<Irq>>)
    requires i < |buffer|
    ensures var r := WriteChar(s, buffer[i], onlcr, env);
      WriteChars(s, buffer[i..], onlcr, env) ==
        if r.count == 0 then r
        else var q := WriteChars(r.s, buffer[i + 1..], onlcr, r.env); q.(count := q.count + 1)
  {
    assert buffer[i..][1..] == buffer[i + 1..];
  }
}
