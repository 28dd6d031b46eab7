/** The I2S sound driver: two DMA buffers filled in turn, driven by the DMA interrupt. */
module I2SSoundDevice {
  import opened I2SSoundSpec

  /** The DMA channel: two control blocks that link to each other, the one being transferred, and the
      register that tells whether the engine goes on with its successor. */
  class DmaChannel {
    var active: bool
    var controlBlock: Block
    var nextControlBlock: bool
    var interruptStatus: bool
    var errorStatus: bool

    constructor ()
      ensures !active && !interruptStatus && !errorStatus
    {
      active, controlBlock, nextControlBlock, interruptStatus, errorStatus := false, 0, false, false, false;
    }

    ghost function View(): Dma
      reads this
    {
      if active then Playing(controlBlock, nextControlBlock) else Stopped
    }
  }

  class I2SSoundDevice {
    const chunkSize: nat
    const dmaBuffer0: array<int>
    const dmaBuffer1: array<int>
    var transferLength0: nat
    var transferLength1: nat
    const dma: DmaChannel
    var state: DriverState
    var nextBuffer: Block
    ghost var starting: bool
    ghost var fetched: seq<Chunk>
    ghost var played: seq<Chunk>

    ghost predicate Valid()
      reads this
    {
      && dmaBuffer0 != dmaBuffer1
      && dmaBuffer0.Length == dmaBuffer1.Length == chunkSize
      && transferLength0 <= chunkSize && transferLength1 <= chunkSize
    }

    ghost function View(): System
      reads this, dma, dmaBuffer0, dmaBuffer1
      requires Valid()
    {
      System(state, nextBuffer, dmaBuffer0[..transferLength0], dmaBuffer1[..transferLength1],
             dma.View(), starting, dma.interruptStatus, dma.errorStatus, fetched, played)
    }

    constructor (chunkSize: nat)
      ensures Valid() && this.chunkSize == chunkSize
      ensures Good(View()) && View().fetched == View().played == []
      ensures fresh(dma) && fresh(dmaBuffer0) && fresh(dmaBuffer1)
    {
      this.chunkSize := chunkSize;
      dmaBuffer0 := new int[chunkSize];
      dmaBuffer1 := new int[chunkSize];
      transferLength0, transferLength1 := 0, 0;
      dma := new DmaChannel();
      state, nextBuffer := Idle, 0;
      starting, fetched, played := false, [], [];
    }

    /** Copy what the sound source delivers into a DMA buffer. */
    static method CopyChunk(chunk: Chunk, buffer: array<int>)
      requires |chunk| <= buffer.Length
      modifies buffer
      ensures buffer[..|chunk|] == chunk
    {
      for i := 0 to |chunk|
        invariant buffer[..i] == chunk[..i]
      {
        buffer[i] := chunk[i];
      }
    }

    /** Let the sound source fill the next buffer; it may have nothing to deliver. */
    method GetNextChunk(chunk: Chunk) returns (filled: bool)
      requires Valid() && |chunk| <= chunkSize
      modifies this, dmaBuffer0, dmaBuffer1
      ensures Valid() && View() == I2SSoundSpec.GetNextChunk(old(View()), chunk) && filled == (chunk != [])
    {
      if |chunk| == 0 {
        return false;
      }
      if nextBuffer == 0 {
        CopyChunk(chunk, dmaBuffer0);
        transferLength0 := |chunk|;
      } else {
        CopyChunk(chunk, dmaBuffer1);
        transferLength1 := |chunk|;
      }
      nextBuffer := 1 - nextBuffer;
      fetched := fetched + [chunk];
      filled := true;
    }

    /** The first half of `Start`: fill buffer 0 and start the DMA. */
    method StartFirst(chunk: Chunk) returns (ok: bool)
      requires Valid() && |chunk| <= chunkSize && Enabled(View(), Event.StartFirst(chunk))
      modifies this, dma, dmaBuffer0, dmaBuffer1
      ensures Valid() && View() == Step(old(View()), Event.StartFirst(chunk)) && ok == (chunk != [])
    {
      nextBuffer := 0;
      ok := GetNextChunk(chunk);
      if !ok {
        return;
      }
      state := Running;
      dma.controlBlock := 0;
      dma.nextControlBlock := true;
      dma.active := true;
      starting := true;
    }

    /** The second half of `Start`: fill buffer 1 while buffer 0 is playing. */
    method StartSecond(chunk: Chunk)
      requires Valid() && |chunk| <= chunkSize && Good(View()) && Enabled(View(), Event.StartSecond(chunk))
      modifies this, dma, dmaBuffer0, dmaBuffer1
      ensures Valid() && View() == Step(old(View()), Event.StartSecond(chunk))
    {
      var filled := GetNextChunk(chunk);
      if !filled {
        if state == Running {
          dma.nextControlBlock := false;
          state := Terminating;
        }
      }
      starting := false;
    }

    method Cancel()
      requires Valid()
      modifies this
      ensures Valid() && View() == Step(old(View()), Event.Cancel)
    {
      if state == Running {
        state := Cancelled;
      }
    }

    method InterruptHandler(chunk: Chunk)
      requires Valid() && |chunk| <= chunkSize && Good(View()) && Enabled(View(), Event.Interrupt(chunk))
      modifies this, dma, dmaBuffer0, dmaBuffer1
      ensures Valid() && View() == Step(old(View()), Event.Interrupt(chunk))
    {
      var error := dma.errorStatus;
      dma.interruptStatus := false;
      dma.errorStatus := false;
      if error {
        state := Error;
        return;
      }
      if state == Running {
        var filled := GetNextChunk(chunk);
        if filled {
          return;
        }
      }
      if state == Running || state == Cancelled {
        dma.nextControlBlock := false;
        state := Terminating;
      } else if state == Terminating {
        state := Idle;
      }
    }

    /** The engine's side: the current block has been transferred. */
    method DmaFinishesBlock()
      requires Valid() && Enabled(View(), BlockEnd)
      modifies dma, this`played
      ensures Valid() && View() == Step(old(View()), BlockEnd)
    {
      played := played + [View().Content(dma.controlBlock)];
      if dma.nextControlBlock {
        dma.controlBlock := 1 - dma.controlBlock;
      } else {
        dma.active := false;
      }
      dma.interruptStatus := true;
    }
  }
}
