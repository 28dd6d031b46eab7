/** The sound driver's queue: a ring of bytes with one place always free, filled by writes and emptied
    by the hardware's requests for chunks. */
module SoundDevice {
  import opened Words
  import opened SoundSpec
  import R = Ring

  class SoundDevice {
    const hw: HwFormat
    const hwSampleSize: nat
    const hwFrameSize: nat
    const queueSize: nat
    const needDataThreshold: nat
    const queue: array<Byte>
    var format: WriteFormat
    var channels: nat
    var writeSampleSize: nat
    var writeFrameSize: nat
    var inPtr: nat
    var outPtr: nat
    ghost var s: State

    ghost predicate Valid()
      reads this, queue
    {
      && hwSampleSize == HwSampleSize(hw) && hwFrameSize == HwFrameSize(hw)
      && queue.Length == queueSize && inPtr < queueSize && outPtr < queueSize
      && s.config == Config(hw, format, channels) && s.capacity == queueSize - 1
      && writeSampleSize == WriteSampleSize(format) && writeFrameSize == channels * WriteSampleSize(format) == WriteFrameSize(s.config)
      && s.queue == R.Contents(queue[..], outPtr, inPtr)
    }

    /** Set the device up with a queue for `msecs` milliseconds. One byte remains free. */
    constructor (hw: HwFormat, sampleRate: nat, msecs: nat, format: WriteFormat, channels: nat)
      requires GoodConfig(Config(hw, format, channels)) && 1 <= msecs <= 1000
      requires HwFrameSize(hw) * sampleRate * msecs + 1000 < 0x1_0000_0000
      ensures Valid() && Good(s)
      ensures s == State(Config(hw, format, channels), (HwFrameSize(hw) * sampleRate * msecs + 999) / 1000, [], [], [])
      ensures queueSize == s.capacity + 1 && needDataThreshold == queueSize / 2 && fresh(queue)
    {
      this.hw := hw;
      hwSampleSize, hwFrameSize := HwSampleSize(hw), HwFrameSize(hw);
      var size := (HwFrameSize(hw) * sampleRate * msecs + 999) / 1000 + 1;
      queueSize, needDataThreshold := size, size / 2;
      queue := new Byte[size];
      this.format, this.channels := format, channels;
      writeSampleSize, writeFrameSize := WriteSampleSize(format), channels * WriteSampleSize(format);
      inPtr, outPtr := 0, 0;
      s := State(Config(hw, format, channels), size - 1, [], [], []);
    }

    /** Change what is written. What has been queued is not affected. */
    method SetWriteFormat(format: WriteFormat, channels: Channels)
      requires Valid()
      modifies this`format, this`channels, this`writeSampleSize, this`writeFrameSize, this`s
      ensures Valid() && s == SetFormat(old(s), format, channels)
    {
      this.format, this.channels := format, channels;
      writeSampleSize := WriteSampleSize(format);
      writeFrameSize := channels * writeSampleSize;
      s := SetFormat(s, format, channels);
    }

    method QueueBytesFree() returns (n: nat)
      requires Valid()
      ensures n == FreeBytes(s) && |s.queue| <= s.capacity
    {
      R.Size(queue[..], outPtr, inPtr);
      n := if outPtr <= inPtr then queueSize + outPtr - inPtr - 1 else outPtr - inPtr - 1;
    }

    method QueueBytesAvail() returns (n: nat)
      requires Valid()
      ensures n == |s.queue|
    {
      R.Size(queue[..], outPtr, inPtr);
      n := if inPtr < outPtr then queueSize + inPtr - outPtr else inPtr - outPtr;
    }

    method EnqueueByte(b: Byte)
      requires Valid() && |s.queue| < s.capacity
      modifies this`inPtr, this`s, queue
      ensures Valid() && s == Append(old(s), [b])
    {
      R.Size(queue[..], outPtr, inPtr);
      R.Put(queue[..], outPtr, inPtr, b);
      queue[inPtr] := b;
      inPtr := inPtr + 1;
      if inPtr == queueSize {
        inPtr := 0;
      }
      s := Append(s, [b]);
    }

    method Enqueue(bytes: seq<Byte>)
      requires Valid() && |bytes| <= FreeBytes(s)
      modifies this`inPtr, this`s, queue
      ensures Valid() && s == Append(old(s), bytes)
    {
      ghost var s0 := s;
      AppendNothing(s);
      var i := 0;
      while i < |bytes|
        invariant i <= |bytes| && Valid() && s == Append(s0, bytes[..i])
      {
        AppendOneMore(s0, bytes, i);
        EnqueueByte(bytes[i]);
        i := i + 1;
      }
      assert bytes[..i] == bytes;
    }

    method DequeueByte() returns (b: Byte)
      requires Valid() && s.queue != []
      modifies this`outPtr, this`s
      ensures Valid() && old(s).queue == [b] + s.queue && s == old(s).(queue := s.queue)
    {
      R.Size(queue[..], outPtr, inPtr);
      R.Get(queue[..], outPtr, inPtr);
      b := queue[outPtr];
      ghost var rest := R.Contents(queue[..], R.Next(outPtr, queueSize), inPtr);
      outPtr := outPtr + 1;
      if outPtr == queueSize {
        outPtr := 0;
      }
      s := s.(queue := rest);
    }

    /** Take `n` bytes to the beginning of `p`. */
    method Dequeue(p: array<Byte>, n: nat)
      requires Valid() && n <= |s.queue| && n <= p.Length && p != queue
      modifies this`outPtr, this`s, p
      ensures Valid() && s == old(s).(queue := old(s).queue[n..]) && p[..n] == old(s).queue[..n]
    {
      ghost var s0 := s;
      var i := 0;
      while i < n
        invariant i <= n && Valid() && s == s0.(queue := s.queue)
        invariant s0.queue == p[..i] + s.queue
      {
        var b := DequeueByte();
        p[i] := b;
        i := i + 1;
      }
    }

    /** Convert one sample; little endian on both sides. */
    method ConvertSoundFormat(from: seq<Byte>) returns (to: seq<Byte>)
      requires Valid() && GoodConfig(s.config) && |from| == writeSampleSize
      ensures to == HwBytes(hw, Converted(s.config, from))
    {
      SampleInRange(format, from);
      var value: int;
      match format {
        case Unsigned8 =>
          value := (from[0] as int - 128) * 0x100_0000;
        case Signed16 =>
          WordOf(from);
          value := Signed(from[0] as int + 0x100 * (from[1] as int), 0x8000) * 0x1_0000;
        case Signed24 =>
          // the upper half of 32 unsigned bits is the negative numbers
          WordOf(from);
          var word := (from[0] as int + 0x100 * (from[1] as int) + 0x1_0000 * (from[2] as int)) * 0x100;
          value := Signed(word, 0x8000_0000);
      }
      assert value == Scaled(format, SampleValue(format, from));
      match hw {
        case HwSigned16 => to := Bytes2(value / 0x1_0000);
        case HwSigned24 => to := Bytes4(value / 0x100);
        case HwUnsigned32(max) => to := Bytes4((value + 0x8000_0000) * max / 0x1_0000_0000);
      }
    }

    /** One frame of the application's, converted. */
    method Convert(frame: seq<Byte>) returns (to: seq<Byte>)
      requires Valid() && GoodConfig(s.config) && |frame| == writeFrameSize
      ensures to == ConvertFrame(s.config, frame)
    {
      var left := ConvertSoundFormat(frame[..writeSampleSize]);
      if channels == 2 {
        var right := ConvertSoundFormat(frame[writeSampleSize..]);
        to := left + right;
      } else {
        to := left + left;
      }
    }

    /** Write samples: as many whole frames as fit are queued. */
    method Write(buffer: seq<Byte>) returns (count: nat)
      requires Valid() && Good(s)
      modifies this`inPtr, this`s, queue
      ensures Valid() && Good(s) && s == SoundSpec.Write(old(s), buffer).s && count == SoundSpec.Write(old(s), buffer).count
    {
      WriteKeepsGood(s, buffer);
      if hw == HwSigned16 && format == Signed16 && channels == 2 {
        FastPathAgrees(s, buffer);
        var bytes := QueueBytesFree();
        if bytes > |buffer| {
          bytes := |buffer|;
        }
        bytes := bytes / 4 * 4;
        count := 0;
        if bytes > 0 {
          Enqueue(buffer[..bytes]);
          count := bytes;
        } else {
          AppendNothing(s);
        }
      } else {
        count := WriteConverted(buffer);
      }
    }

    method WriteConverted(buffer: seq<Byte>) returns (count: nat)
      requires Valid() && GoodConfig(s.config) && |s.queue| <= s.capacity
      modifies this`inPtr, this`s, queue
      ensures Valid() && s == SoundSpec.Write(old(s), buffer).s && count == SoundSpec.Write(old(s), buffer).count
    {
      ghost var s0 := s;
      ghost var n: nat;
      count, n := TakeFrames(buffer);
      AllTaken(s0.config, |buffer|, FreeBytes(s0), n);
    }

    /** Frame by frame, as long as there is one and there is room. */
    method TakeFrames(buffer: seq<Byte>) returns (count: nat, ghost n: nat)
      requires Valid() && GoodConfig(s.config) && |s.queue| <= s.capacity
      modifies this`inPtr, this`s, queue
      ensures Valid() && Taken(old(s), s, buffer, n, count)
      ensures |buffer| - count < writeFrameSize || FreeBytes(s) < hwFrameSize
    {
      ghost var s0 := s;
      n, count := 0, 0;
      AppendNothing(s);
      var free := QueueBytesFree();
      while |buffer| - count >= writeFrameSize && free >= hwFrameSize
        invariant Valid() && s.config == s0.config && Taken(s0, s, buffer, n, count)
        invariant free == FreeBytes(s)
        decreases |buffer| - count
      {
        TakeFrame(buffer, count, s0, n);
        count := count + writeFrameSize;
        n := n + 1;
        free := QueueBytesFree();
      }
    }

    /** Convert and queue the frame at `at`, the `n`-th of the buffer. */
    method TakeFrame(buffer: seq<Byte>, at: nat, ghost s0: State, ghost n: nat)
      requires Valid() && GoodConfig(s0.config) && s.config == s0.config && Taken(s0, s, buffer, n, at)
      requires at + writeFrameSize <= |buffer| && hwFrameSize <= FreeBytes(s)
      modifies this`inPtr, this`s, queue
      ensures Valid() && s.config == s0.config && Taken(s0, s, buffer, n + 1, at + writeFrameSize)
    {
      FrameMore(s0.config, n);
      var frame := Convert(buffer[at..at + writeFrameSize]);
      AppendTwice(s0, ConvertFrames(s0.config, buffer, n), frame);
      Enqueue(frame);
    }

    /** Fill a buffer for the hardware. `needData` says whether the application is to be asked for more. */
    method GetChunk(buffer: array<Byte>, words: nat) returns (needData: bool)
      requires Valid() && Good(s) && words > 0 && words % 2 == 0 && buffer.Length == words * hwSampleSize && buffer != queue
      modifies this`outPtr, this`s, buffer
      ensures Valid() && Good(s)
      ensures buffer[..] == NextChunk(old(s), words / 2).data && s == TakeChunk(old(s), words / 2)
      ensures needData == (|s.queue| < needDataThreshold)
    {
      ghost var s0, frames := s, words / 2;
      ghost var rest := ChunkParts(s, frames);
      TakeKeepsGood(s, frames);
      var size := words * hwSampleSize;
      var avail := QueueBytesAvail();
      var n := if avail > size then size else avail;
      TakeOut(buffer, n);
      Pad(buffer, n, size, rest);
      s := TakeChunk(s0, frames);
      needData := avail - n < needDataThreshold;
    }

    method TakeOut(buffer: array<Byte>, n: nat)
      requires Valid() && n <= |s.queue| && n <= buffer.Length && buffer != queue
      modifies this`outPtr, this`s, buffer
      ensures Valid() && s == old(s).(queue := old(s).queue[n..]) && buffer[..n] == old(s).queue[..n]
    {
      if n > 0 {
        Dequeue(buffer, n);
      } else {
        assert s.queue[0..] == s.queue;
      }
    }

    /** Null frames from `n` to the end of the buffer. */
    method Pad(buffer: array<Byte>, n: nat, size: nat, ghost frames: nat)
      requires hwSampleSize == HwSampleSize(hw) && hwFrameSize == HwFrameSize(hw)
      requires size == buffer.Length && n + FrameBytes(hw, frames) == size
      modifies buffer
      ensures buffer[..] == old(buffer[..n]) + NullFrames(hw, frames)
    {
      var sample := HwBytes(hw, if hw.HwUnsigned32? then hw.max / 2 else 0);
      var frame := sample + sample;
      var i := n;
      ghost var done := 0;
      while i < size
        invariant done <= frames && i == n + FrameBytes(hw, done) && |frame| == hwFrameSize
        invariant buffer[..i] == old(buffer[..n]) + NullFrames(hw, done)
      {
        Set(buffer, i, frame);
        i := i + hwFrameSize;
        done := done + 1;
      }
    }
  }

  method Set(buffer: array<Byte>, at: nat, bytes: seq<Byte>)
    requires at + |bytes| <= buffer.Length
    modifies buffer
    ensures buffer[..at + |bytes|] == old(buffer[..at]) + bytes
  {
    var j := 0;
    while j < |bytes|
      invariant j <= |bytes| && buffer[..at + j] == old(buffer[..at]) + bytes[..j]
    {
      buffer[at + j] := bytes[j];
      j := j + 1;
    }
  }

  lemma AppendNothing(s: State)
    ensures Append(s, []) == s
  {
  }

  lemma AppendOneMore(s: State, bytes: seq<Byte>, i: nat)
    requires i < |bytes|
    ensures Append(Append(s, bytes[..i]), [bytes[i]]) == Append(s, bytes[..i + 1])
  {
    assert bytes[..i + 1] == bytes[..i] + [bytes[i]];
  }

  /** The first `n` frames of the buffer, `at` bytes, have been converted and queued. */
  ghost predicate Taken(s0: State, s: State, buffer: seq<Byte>, n: nat, at: nat)
    requires GoodConfig(s0.config)
  {
    && at == WriteBytes(s0.config, n) <= |buffer|
    && s == Append(s0, ConvertFrames(s0.config, buffer, n))
    && FreeBytes(s) == FreeBytes(s0) - FrameBytes(s0.config.hw, n)
  }

  lemma FrameMore(c: Config, n: nat)
    requires GoodConfig(c)
    ensures WriteBytes(c, n + 1) == WriteBytes(c, n) + WriteFrameSize(c)
    ensures FrameBytes(c.hw, n + 1) == FrameBytes(c.hw, n) + HwFrameSize(c.hw)
  {
  }

  lemma AppendTwice(s: State, a: seq<Byte>, b: seq<Byte>)
    ensures Append(Append(s, a), b) == Append(s, a + b)
  {
    assert s.queue + a + b == s.queue + (a + b);
    assert s.accepted + a + b == s.accepted + (a + b);
  }

  /** What a chunk consists of. */
  lemma ChunkParts(s: State, frames: nat) returns (rest: nat)
    requires Good(s)
    ensures var c, n := NextChunk(s, frames), Min(|s.queue|, FrameBytes(s.config.hw, frames));
      && n + FrameBytes(s.config.hw, rest) == FrameBytes(s.config.hw, frames)
      && c.data == s.queue[..n] + NullFrames(s.config.hw, rest)
      && TakeChunk(s, frames) == s.(queue := s.queue[n..], chunks := s.chunks + [c])
  {
    rest := frames - FramesIn(s.config.hw, Min(|s.queue|, FrameBytes(s.config.hw, frames)));
  }
}
