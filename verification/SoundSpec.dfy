/** The sound queue: samples in the application's format are converted to the hardware's and queued as
    bytes; the hardware takes them out in chunks. */
module SoundSpec {
  import opened Words

  /** What is written by the application. */
  datatype WriteFormat = Unsigned8 | Signed16 | Signed24

  /** What the hardware plays. `max` is its highest value. */
  datatype HwFormat = HwSigned16 | HwSigned24 | HwUnsigned32(max: nat)

  datatype Config = Config(hw: HwFormat, format: WriteFormat, channels: nat)

  predicate GoodConfig(c: Config) {
    (c.channels == 1 || c.channels == 2) && (c.hw.HwUnsigned32? ==> 0 < c.hw.max < 0x8000_0000)
  }

  function WriteSampleSize(f: WriteFormat): nat {
    match f
    case Unsigned8 => 1
    case Signed16 => 2
    case Signed24 => 3
  }

  function HwSampleSize(f: HwFormat): nat {
    if f.HwSigned16? then 2 else 4
  }

  function WriteFrameSize(c: Config): nat {
    if c.channels == 2 then 2 * WriteSampleSize(c.format) else WriteSampleSize(c.format)
  }

  /** The bytes of `n` of the application's frames, for each of the sizes there are. */
  function WriteBytes(c: Config, n: nat): nat {
    var w := WriteFrameSize(c);
    if w == 1 then n else if w == 2 then 2 * n else if w == 3 then 3 * n else if w == 4 then 4 * n else 6 * n
  }

  /** How many of the application's frames `n` bytes hold. */
  function WriteFrames(c: Config, n: nat): nat {
    var w := WriteFrameSize(c);
    if w == 1 then n else if w == 2 then n / 2 else if w == 3 then n / 3 else if w == 4 then n / 4 else n / 6
  }

  /** The hardware always takes two channels. */
  function HwFrameSize(f: HwFormat): nat {
    if f.HwSigned16? then 4 else 8
  }

  /** The bytes of `n` hardware frames. */
  function FrameBytes(f: HwFormat, n: nat): nat {
    if f.HwSigned16? then 4 * n else 8 * n
  }

  /** How many hardware frames `n` bytes hold. */
  function FramesIn(f: HwFormat, n: nat): nat {
    if f.HwSigned16? then n / 4 else n / 8
  }

  /** Is this a whole number of frames? */
  predicate WholeFrames(f: HwFormat, n: nat) {
    n == FrameBytes(f, FramesIn(f, n))
  }

  // ---------- one sample ----------

  /** Two's complement with `2 * half` values. */
  function Signed(n: nat, half: nat): int
    requires half > 0
  {
    if n < half then n else n - 2 * half
  }

  /** Bytes as a number, the lowest first. */
  function Word(bytes: seq<Byte>): nat
    decreases |bytes|
  {
    if bytes == [] then 0 else bytes[0] as int + 0x100 * Word(bytes[1..])
  }

  lemma WordOf(bytes: seq<Byte>)
    requires 2 <= |bytes| <= 3
    ensures Word(bytes) == bytes[0] as int + 0x100 * (bytes[1] as int) + if |bytes| == 3 then 0x1_0000 * (bytes[2] as int) else 0
  {
    assert Word(bytes[1..]) == bytes[1] as int + 0x100 * Word(bytes[1..][1..]);
    if |bytes| == 3 { assert Word(bytes[1..][1..]) == bytes[2] as int + 0x100 * Word([]); }
  }

  /** The value of a sample as it was meant. */
  function SampleValue(f: WriteFormat, bytes: seq<Byte>): int
    requires |bytes| == WriteSampleSize(f)
  {
    match f
    case Unsigned8 => bytes[0] - 0x80
    case Signed16 => Signed(Word(bytes), 0x8000)
    case Signed24 => Signed(Word(bytes), 0x80_0000)
  }

  /** The same on the common scale of 32 bits. */
  function Scaled(f: WriteFormat, value: int): int {
    match f
    case Unsigned8 => value * 0x100_0000
    case Signed16 => value * 0x1_0000
    case Signed24 => value * 0x100
  }

  function Least(f: WriteFormat): int {
    match f
    case Unsigned8 => -0x80
    case Signed16 => -0x8000
    case Signed24 => -0x80_0000
  }

  /** On the hardware's scale, rounded down. */
  function HwValue(f: HwFormat, scaled: int): int {
    match f
    case HwSigned16 => scaled / 0x1_0000
    case HwSigned24 => scaled / 0x100
    case HwUnsigned32(max) => (scaled + 0x8000_0000) * max / 0x1_0000_0000
  }

  function Converted(c: Config, bytes: seq<Byte>): int
    requires |bytes| == WriteSampleSize(c.format)
  {
    HwValue(c.hw, Scaled(c.format, SampleValue(c.format, bytes)))
  }

  function RangeMin(f: HwFormat): int {
    match f
    case HwSigned16 => -0x8000
    case HwSigned24 => -0x80_0000 + 1
    case HwUnsigned32(max) => 0
  }

  function RangeMax(f: HwFormat): int {
    match f
    case HwSigned16 => 0x7FFF
    case HwSigned24 => 0x80_0000 - 1
    case HwUnsigned32(max) => max
  }

  lemma SampleInRange(f: WriteFormat, bytes: seq<Byte>)
    requires |bytes| == WriteSampleSize(f)
    ensures Least(f) <= SampleValue(f, bytes) < -Least(f)
    ensures -0x8000_0000 <= Scaled(f, SampleValue(f, bytes)) < 0x8000_0000
  {
    if f != Unsigned8 { WordOf(bytes); }
  }

  lemma UnsignedInRange(scaled: int, max: nat)
    requires -0x8000_0000 <= scaled < 0x8000_0000 && 0 < max
    ensures 0 <= HwValue(HwUnsigned32(max), scaled) < max
  {
    var x := scaled + 0x8000_0000;
    assert 0 <= x * max by { Product(0, x, max); }
    assert x * max < 0x1_0000_0000 * max by { Product(x + 1, 0x1_0000_0000, max); }
  }

  lemma Product(a: int, b: int, max: nat)
    requires a <= b
    ensures a * max <= b * max
  {
    assert b * max - a * max == (b - a) * max;
  }

  /** A converted sample is in the range the device reports for every hardware format, except that the
      most negative sample of any format falls one below the range of signed 24 bits. */
  lemma InRangeIff(c: Config, bytes: seq<Byte>)
    requires GoodConfig(c) && |bytes| == WriteSampleSize(c.format)
    ensures RangeMin(c.hw) <= Converted(c, bytes) <= RangeMax(c.hw)
      <==> !(c.hw.HwSigned24? && SampleValue(c.format, bytes) == Least(c.format))
  {
    SampleInRange(c.format, bytes);
    if c.hw.HwUnsigned32? {
      UnsignedInRange(Scaled(c.format, SampleValue(c.format, bytes)), c.hw.max);
    }
  }

  /** A louder sample never gets quieter. */
  lemma ConversionIsMonotone(c: Config, a: seq<Byte>, b: seq<Byte>)
    requires GoodConfig(c) && |a| == |b| == WriteSampleSize(c.format)
    requires SampleValue(c.format, a) <= SampleValue(c.format, b)
    ensures Converted(c, a) <= Converted(c, b)
  {
    if c.hw.HwUnsigned32? {
      var x, y := Scaled(c.format, SampleValue(c.format, a)), Scaled(c.format, SampleValue(c.format, b));
      Product(x + 0x8000_0000, y + 0x8000_0000, c.hw.max);
    }
  }

  // ---------- bytes ----------

  function Bytes2(n: int): (s: seq<Byte>)
    ensures |s| == 2
  {
    [n % 0x100, n / 0x100 % 0x100]
  }

  function Bytes4(n: int): (s: seq<Byte>)
    ensures |s| == 4
  {
    [n % 0x100, n / 0x100 % 0x100, n / 0x1_0000 % 0x100, n / 0x100_0000 % 0x100]
  }

  function HwBytes(f: HwFormat, n: int): (s: seq<Byte>)
    ensures |s| == HwSampleSize(f)
  {
    if f.HwSigned16? then Bytes2(n) else Bytes4(n)
  }

  /** The hardware's frame for one frame of the application's; a single channel goes to both. */
  function ConvertFrame(c: Config, frame: seq<Byte>): (s: seq<Byte>)
    requires GoodConfig(c) && |frame| == WriteFrameSize(c)
    ensures |s| == HwFrameSize(c.hw)
  {
    var n := WriteSampleSize(c.format);
    var left := HwBytes(c.hw, Converted(c, frame[..n]));
    var right := if c.channels == 2 then HwBytes(c.hw, Converted(c, frame[n..])) else left;
    left + right
  }

  /** The first `n` frames of a buffer, converted. */
  function ConvertFrames(c: Config, buffer: seq<Byte>, n: nat): (s: seq<Byte>)
    requires GoodConfig(c) && WriteBytes(c, n) <= |buffer|
    ensures |s| == FrameBytes(c.hw, n)
    decreases n
  {
    if n == 0 then []
    else
      var from := WriteBytes(c, n - 1);
      ConvertFrames(c, buffer, n - 1) + ConvertFrame(c, buffer[from..from + WriteFrameSize(c)])
  }

  /** Samples of sixteen bits come through unchanged. */
  lemma SixteenBitsUnchanged(bytes: seq<Byte>)
    requires |bytes| == 2
    ensures HwBytes(HwSigned16, Converted(Config(HwSigned16, Signed16, 2), bytes)) == bytes
  {
    WordOf(bytes);
    SplitWord(bytes[0], bytes[1]);
  }

  lemma SplitWord(low: Byte, high: Byte)
    ensures var v := Signed(low as int + 0x100 * (high as int), 0x8000);
      v * 0x1_0000 / 0x1_0000 == v && v % 0x100 == low && v / 0x100 % 0x100 == high
  {
    var v := Signed(low as int + 0x100 * (high as int), 0x8000);
    var h := if high < 0x80 then high as int else high as int - 0x100;
    assert v == low as int + 0x100 * h;
    assert v / 0x100 == h;
  }

  lemma SixteenBitFrameUnchanged(c: Config, frame: seq<Byte>)
    requires c == Config(HwSigned16, Signed16, 2) && |frame| == 4
    ensures ConvertFrame(c, frame) == frame
  {
    SixteenBitsUnchanged(frame[..2]);
    SixteenBitsUnchanged(frame[2..]);
    assert frame[..2] + frame[2..] == frame;
  }

  /** Without conversion, frames of sixteen bits and two channels are queued as they are. */
  lemma {:induction false} SixteenBitFramesUnchanged(c: Config, buffer: seq<Byte>, n: nat)
    requires c == Config(HwSigned16, Signed16, 2) && WriteBytes(c, n) <= |buffer|
    ensures ConvertFrames(c, buffer, n) == buffer[..WriteBytes(c, n)]
  {
    if n == 0 {
      assert buffer[..0] == [];
    } else {
      var from := WriteBytes(c, n - 1);
      SixteenBitFramesUnchanged(c, buffer, n - 1);
      NextFrame(c, n);
      SixteenBitFrameUnchanged(c, buffer[from..from + 4]);
      OneMoreFrame(c, buffer, n - 1);
      assert Frame(c, buffer, n - 1) == buffer[from..from + 4];
      Longer(ConvertFrames(c, buffer, n), buffer, from, WriteBytes(c, n));
    }
  }

  lemma NextFrame(c: Config, n: nat)
    requires c == Config(HwSigned16, Signed16, 2) && n > 0
    ensures WriteFrameSize(c) == 4 && WriteBytes(c, n) == WriteBytes(c, n - 1) + 4
  {
  }

  lemma Longer(all: seq<Byte>, buffer: seq<Byte>, from: nat, to: nat)
    requires from <= to <= |buffer| && all == buffer[..from] + buffer[from..to]
    ensures all == buffer[..to]
  {
  }

  // ---------- the queue ----------

  /** A chunk for the hardware: `filled` bytes from the queue, and null frames behind them. */
  datatype Chunk = Chunk(data: seq<Byte>, filled: nat)

  /** The queue with its capacity; and for the record everything that was queued, and the chunks taken. */
  datatype State = State(config: Config, capacity: nat, queue: seq<Byte>, accepted: seq<Byte>, chunks: seq<Chunk>)

  function Min(a: nat, b: nat): nat {
    if a < b then a else b
  }

  function FreeBytes(s: State): int {
    s.capacity - |s.queue|
  }

  function Append(s: State, bytes: seq<Byte>): State {
    s.(queue := s.queue + bytes, accepted := s.accepted + bytes)
  }

  /** How many frames a write of `count` bytes gets into `free` bytes. */
  function FramesTaken(c: Config, count: nat, free: nat): nat
    requires GoodConfig(c)
  {
    Min(WriteFrames(c, count), FramesIn(c.hw, free))
  }

  lemma TakenFits(c: Config, count: nat, free: nat)
    requires GoodConfig(c)
    ensures WriteBytes(c, FramesTaken(c, count, free)) <= count
    ensures FrameBytes(c.hw, FramesTaken(c, count, free)) <= free
  {
  }

  /** When no further frame can be taken, as many have been taken as possible. */
  lemma AllTaken(c: Config, count: nat, free: nat, n: nat)
    requires GoodConfig(c) && WriteBytes(c, n) <= count && FrameBytes(c.hw, n) <= free
    requires count - WriteBytes(c, n) < WriteFrameSize(c) || free - FrameBytes(c.hw, n) < HwFrameSize(c.hw)
    ensures n == FramesTaken(c, count, free)
  {
  }

  datatype WriteResult = WriteResult(s: State, count: nat)

  /** As many frames as there are and as there is room for are converted and queued. */
  function Write(s: State, buffer: seq<Byte>): WriteResult
    requires GoodConfig(s.config) && |s.queue| <= s.capacity
  {
    var n := FramesTaken(s.config, |buffer|, FreeBytes(s));
    TakenFits(s.config, |buffer|, FreeBytes(s));
    WriteResult(Append(s, ConvertFrames(s.config, buffer, n)), WriteBytes(s.config, n))
  }

  function NullSample(f: HwFormat): seq<Byte> {
    HwBytes(f, if f.HwUnsigned32? then f.max / 2 else 0)
  }

  function NullFrames(f: HwFormat, n: nat): seq<Byte> {
    if n == 0 then [] else NullFrames(f, n - 1) + (NullSample(f) + NullSample(f))
  }

  /** A chunk of `frames` frames: what is in the queue, filled up with null frames. */
  function NextChunk(s: State, frames: nat): (c: Chunk)
    ensures c.filled == Min(|s.queue|, FrameBytes(s.config.hw, frames))
  {
    var n := Min(|s.queue|, FrameBytes(s.config.hw, frames));
    Chunk(s.queue[..n] + NullFrames(s.config.hw, frames - FramesIn(s.config.hw, n)), n)
  }

  function TakeChunk(s: State, frames: nat): State {
    var c := NextChunk(s, frames);
    s.(queue := s.queue[c.filled..], chunks := s.chunks + [c])
  }

  // ---------- what every call keeps ----------

  /** What of the chunks came from the queue. */
  function Played(chunks: seq<Chunk>): seq<Byte>
    decreases |chunks|
  {
    if chunks == [] then []
    else
      var c := chunks[|chunks| - 1];
      Played(chunks[..|chunks| - 1]) + if c.filled <= |c.data| then c.data[..c.filled] else []
  }

  /** The chunk is made up of frames from the queue and null frames only. */
  ghost predicate GoodChunk(f: HwFormat, c: Chunk) {
    && c.filled <= |c.data| && WholeFrames(f, c.filled) && WholeFrames(f, |c.data|)
    && c.data[c.filled..] == NullFrames(f, FramesIn(f, |c.data| - c.filled))
  }

  ghost predicate Good(s: State) {
    && GoodConfig(s.config)
    && |s.queue| <= s.capacity && WholeFrames(s.config.hw, |s.queue|)
    && s.accepted == Played(s.chunks) + s.queue
    && forall i :: 0 <= i < |s.chunks| ==> GoodChunk(s.config.hw, s.chunks[i])
  }

  lemma {:induction false} NullFramesSize(f: HwFormat, n: nat)
    ensures |NullFrames(f, n)| == FrameBytes(f, n)
  {
    if n > 0 {
      NullFramesSize(f, n - 1);
    }
  }

  lemma AppendKeepsGood(s: State, bytes: seq<Byte>)
    requires Good(s) && WholeFrames(s.config.hw, |bytes|) && |bytes| <= FreeBytes(s)
    ensures Good(Append(s, bytes))
  {
  }

  /** A write queues whole frames, however many bytes are free. */
  lemma WriteKeepsGood(s: State, buffer: seq<Byte>)
    requires Good(s)
    ensures Good(Write(s, buffer).s)
  {
    var n := FramesTaken(s.config, |buffer|, FreeBytes(s));
    TakenFits(s.config, |buffer|, FreeBytes(s));
    FramesAreWhole(s.config.hw, n);
    AppendKeepsGood(s, ConvertFrames(s.config, buffer, n));
  }

  lemma FramesAreWhole(f: HwFormat, n: nat)
    ensures WholeFrames(f, FrameBytes(f, n))
  {
  }

  /** A chunk is filled exactly. */
  lemma ChunkIsExact(s: State, frames: nat)
    requires Good(s)
    ensures var c := NextChunk(s, frames);
      && |c.data| == FrameBytes(s.config.hw, frames) && GoodChunk(s.config.hw, c)
      && c.data[..c.filled] == s.queue[..c.filled] && WholeFrames(s.config.hw, |s.queue| - c.filled)
  {
    var f, n := s.config.hw, NextChunk(s, frames).filled;
    FramesAdd(f, |s.queue|, n, frames);
    NullFramesSize(f, frames - FramesIn(f, n));
    assert NextChunk(s, frames).data == s.queue[..n] + NullFrames(f, frames - FramesIn(f, n));
  }

  lemma FramesAdd(f: HwFormat, queued: nat, n: nat, frames: nat)
    requires WholeFrames(f, queued) && n == Min(queued, FrameBytes(f, frames))
    ensures WholeFrames(f, n) && WholeFrames(f, queued - n) && WholeFrames(f, FrameBytes(f, frames))
    ensures FramesIn(f, n) <= frames && n + FrameBytes(f, frames - FramesIn(f, n)) == FrameBytes(f, frames)
    ensures FramesIn(f, FrameBytes(f, frames) - n) == frames - FramesIn(f, n)
  {
  }

  lemma TakeKeepsGood(s: State, frames: nat)
    requires Good(s)
    ensures Good(TakeChunk(s, frames))
  {
    var c := NextChunk(s, frames);
    ChunkIsExact(s, frames);
    assert (s.chunks + [c])[..|s.chunks|] == s.chunks;
    assert s.queue == s.queue[..c.filled] + s.queue[c.filled..];
  }

  /** The application may change what it writes; what has been queued stays as it is. */
  function SetFormat(s: State, format: WriteFormat, channels: Channels): State {
    s.(config := Config(s.config.hw, format, channels))
  }

  type Channels = n: nat | 1 <= n <= 2 witness 1

  datatype Call =
    | WriteCall(buffer: seq<Byte>)
    | ChunkCall(frames: nat)
    | FormatCall(format: WriteFormat, channels: Channels)

  function Apply(s: State, call: Call): State
    requires GoodConfig(s.config) && |s.queue| <= s.capacity
  {
    match call
    case WriteCall(buffer) => Write(s, buffer).s
    case ChunkCall(frames) => TakeChunk(s, frames)
    case FormatCall(format, channels) => SetFormat(s, format, channels)
  }

  lemma CallKeepsGood(s: State, call: Call)
    requires Good(s)
    ensures Good(Apply(s, call))
  {
    match call
    case WriteCall(buffer) => WriteKeepsGood(s, buffer);
    case ChunkCall(frames) => TakeKeepsGood(s, frames);
    case FormatCall(format, channels) =>
  }

  /** Over any calls the queue holds whole frames, every chunk is filled exactly, and the chunks without
      their null frames are what was accepted, in order, up to what is still queued. */
  ghost function RunFrom(s: State, calls: seq<Call>): (t: State)
    requires Good(s)
    ensures Good(t) && Played(t.chunks) <= t.accepted
    decreases |calls|
  {
    if calls == [] then s
    else
      CallKeepsGood(s, calls[0]);
      RunFrom(Apply(s, calls[0]), calls[1..])
  }

  // ---------- the fast path ----------

  /** Without conversion a write may copy as many bytes as there are and as there is room for, down to
      whole frames: that is what the conversion would have queued. */
  lemma FastPathAgrees(s: State, buffer: seq<Byte>)
    requires Good(s) && s.config == Config(HwSigned16, Signed16, 2)
    ensures var n := Min(FreeBytes(s), |buffer|) / 4 * 4;
      Write(s, buffer) == WriteResult(Append(s, buffer[..n]), n)
  {
    var n := FramesTaken(s.config, |buffer|, FreeBytes(s));
    assert WriteFrameSize(s.config) == 4;
    assert Min(FreeBytes(s), |buffer|) / 4 * 4 == 4 * n;
    TakenFits(s.config, |buffer|, FreeBytes(s));
    SixteenBitFramesUnchanged(s.config, buffer, n);
  }

  /** A run makes its calls one after the other; a new format is for what is written from then on. */
  lemma RunMakesCalls(s: State, calls: seq<Call>, buffer: seq<Byte>, frames: nat, f: WriteFormat, n: Channels)
    requires Good(s)
    ensures RunFrom(s, []) == s
    ensures var t := RunFrom(s, calls);
      && RunFrom(s, calls + [WriteCall(buffer)]) == Write(t, buffer).s
      && RunFrom(s, calls + [ChunkCall(frames)]) == TakeChunk(t, frames)
      && RunFrom(s, calls + [FormatCall(f, n)]) == t.(config := t.config.(format := f, channels := n))
  {
    OneMoreCall(s, calls, WriteCall(buffer));
    OneMoreCall(s, calls, ChunkCall(frames));
    OneMoreCall(s, calls, FormatCall(f, n));
  }

  lemma {:induction false} OneMoreCall(s: State, calls: seq<Call>, c: Call)
    requires Good(s)
    ensures RunFrom(s, calls + [c]) == Apply(RunFrom(s, calls), c)
    decreases |calls|
  {
    if calls == [] {
      CallKeepsGood(s, c);
      assert [] + [c] == [c] && [c][1..] == [];
    } else {
      CallKeepsGood(s, calls[0]);
      assert (calls + [c])[1..] == calls[1..] + [c];
      OneMoreCall(Apply(s, calls[0]), calls[1..], c);
    }
  }

  // ---------- what the numbers mean ----------

  /** The sizes in bytes, of a sample and of a frame of two channels. */
  lemma SizesAre(max: nat)
    ensures WriteSampleSize(Unsigned8) == 1 && WriteSampleSize(Signed16) == 2 && WriteSampleSize(Signed24) == 3
    ensures HwSampleSize(HwSigned16) == 2 && HwSampleSize(HwSigned24) == HwSampleSize(HwUnsigned32(max)) == 4
    ensures HwFrameSize(HwSigned16) == 4 && HwFrameSize(HwSigned24) == HwFrameSize(HwUnsigned32(max)) == 8
    ensures RangeMin(HwSigned16) == -32768 && RangeMax(HwSigned16) == 32767
    ensures RangeMin(HwSigned24) == -8388607 && RangeMax(HwSigned24) == 8388607
    ensures RangeMin(HwUnsigned32(max)) == 0 && RangeMax(HwUnsigned32(max)) == max
  {
  }

  /** Half the number of values of a format. */
  function FullScale(f: WriteFormat): int {
    match f
    case Unsigned8 => 128
    case Signed16 => 32768
    case Signed24 => 8388608
  }

  /** A sample's value: its bytes are the value, offset or in two's complement, the lowest byte first. */
  lemma SampleIs(f: WriteFormat, bytes: seq<Byte>)
    requires |bytes| == WriteSampleSize(f)
    ensures var v, full := SampleValue(f, bytes), FullScale(f);
      -full <= v < full && match f
        case Unsigned8 => bytes[0] == v + 128
        case Signed16 => bytes[0] as int + 256 * (bytes[1] as int) == if v < 0 then v + 65536 else v
        case Signed24 =>
          bytes[0] as int + 256 * (bytes[1] as int) + 65536 * (bytes[2] as int) == if v < 0 then v + 16777216 else v
  {
    if f != Unsigned8 { WordOf(bytes); }
  }

  /** Conversion goes from full scale to full scale, and rounds down. */
  lemma ConversionScales(c: Config, bytes: seq<Byte>)
    requires GoodConfig(c) && |bytes| == WriteSampleSize(c.format)
    ensures var v, full, w := SampleValue(c.format, bytes), FullScale(c.format), Converted(c, bytes);
      match c.hw
      case HwSigned16 => w * full <= v * 32768 < (w + 1) * full
      case HwSigned24 => w * full <= v * 8388608 < (w + 1) * full
      case HwUnsigned32(max) => w * (2 * full) <= (v + full) * max < (w + 1) * (2 * full)
  {
    var v := SampleValue(c.format, bytes);
    match c.hw
    case HwSigned16 =>
    case HwSigned24 =>
    case HwUnsigned32(max) => UnsignedScales(c.format, v, max);
  }

  lemma UnsignedScales(f: WriteFormat, v: int, max: nat)
    ensures var full, w := FullScale(f), HwValue(HwUnsigned32(max), Scaled(f, v));
      w * (2 * full) <= (v + full) * max < (w + 1) * (2 * full)
  {
    var n := (v + FullScale(f)) * max;
    match f
    case Unsigned8 => assert (Scaled(f, v) + 0x8000_0000) * max == 0x100_0000 * n;
    case Signed16 => assert (Scaled(f, v) + 0x8000_0000) * max == 0x1_0000 * n;
    case Signed24 => assert (Scaled(f, v) + 0x8000_0000) * max == 0x100 * n;
  }

  /** The hardware's bytes are the value in two's complement, the lowest byte first. */
  lemma HwBytesAre(f: HwFormat, n: int)
    ensures var b := HwBytes(f, n);
      if f.HwSigned16? then |b| == 2 && b[0] as int + 256 * (b[1] as int) == n % 65536
      else |b| == 4 && b[0] as int + 256 * (b[1] as int) + 65536 * (b[2] as int) + 16777216 * (b[3] as int) == n % 4294967296
  {
    if f.HwSigned16? { TwoBytes(n); } else { FourBytes(n); }
  }

  lemma TwoBytes(n: int)
    ensures n % 0x100 + 256 * (n / 0x100 % 0x100) == n % 65536
  {
  }

  lemma FourBytes(n: int)
    ensures n % 0x100 + 256 * (n / 0x100 % 0x100) + 65536 * (n / 0x1_0000 % 0x100) + 16777216 * (n / 0x100_0000 % 0x100)
      == n % 4294967296
  {
    TwoBytes(n);
    TwoBytes(n / 0x1_0000);
    assert n / 0x1_0000 / 0x100 == n / 0x100_0000;
    Halves(n);
  }

  lemma Halves(n: int)
    ensures n % 65536 + 65536 * (n / 0x1_0000 % 65536) == n % 4294967296
  {
  }

  /** A frame: the left channel first; a single channel goes to both. */
  lemma FrameIs(c: Config, frame: seq<Byte>)
    requires GoodConfig(c) && |frame| == WriteFrameSize(c)
    ensures var n, h := WriteSampleSize(c.format), HwSampleSize(c.hw);
      && ConvertFrame(c, frame)[..h] == HwBytes(c.hw, Converted(c, frame[..n]))
      && ConvertFrame(c, frame)[h..] == HwBytes(c.hw, Converted(c, if c.channels == 1 then frame else frame[n..]))
  {
    if c.channels == 1 { assert frame[..WriteSampleSize(c.format)] == frame; }
  }

  /** The `i`-th frame of the application's in a buffer. */
  function Frame(c: Config, buffer: seq<Byte>, i: nat): (frame: seq<Byte>)
    requires GoodConfig(c) && WriteBytes(c, i + 1) <= |buffer|
    ensures |frame| == WriteFrameSize(c)
  {
    FramesInOrder(c, i, i + 1);
    buffer[WriteBytes(c, i)..WriteBytes(c, i + 1)]
  }

  /** The frames come out one after the other. */
  lemma OneMoreFrame(c: Config, buffer: seq<Byte>, n: nat)
    requires GoodConfig(c) && WriteBytes(c, n + 1) <= |buffer|
    ensures WriteBytes(c, n) <= |buffer|
    ensures ConvertFrames(c, buffer, n + 1) == ConvertFrames(c, buffer, n) + ConvertFrame(c, Frame(c, buffer, n))
  {
    FramesInOrder(c, n, n + 1);
  }

  lemma FramesInOrder(c: Config, i: nat, n: nat)
    requires GoodConfig(c) && i < n
    ensures FrameBytes(c.hw, i + 1) <= FrameBytes(c.hw, n) && WriteBytes(c, i + 1) <= WriteBytes(c, n)
    ensures WriteBytes(c, i + 1) == WriteBytes(c, i) + WriteFrameSize(c)
    ensures FrameBytes(c.hw, i + 1) == FrameBytes(c.hw, i) + HwFrameSize(c.hw)
  {
  }

  lemma SliceOfFirst(a: seq<Byte>, b: seq<Byte>, from: nat, to: nat)
    requires from <= to <= |a|
    ensures (a + b)[from..to] == a[from..to]
  {
  }

  lemma SliceOfLast(a: seq<Byte>, b: seq<Byte>)
    ensures (a + b)[|a|..|a| + |b|] == b
  {
  }

  /** A write takes as many whole frames as there are and as there is room for, and not one less. */
  lemma WriteTakesAll(s: State, buffer: seq<Byte>) returns (n: nat)
    requires Good(s)
    ensures n * (s.config.channels * WriteSampleSize(s.config.format)) == Write(s, buffer).count <= |buffer|
    ensures n * (2 * HwSampleSize(s.config.hw)) <= s.capacity - |s.queue|
    ensures (n + 1) * (s.config.channels * WriteSampleSize(s.config.format)) > |buffer|
      || (n + 1) * (2 * HwSampleSize(s.config.hw)) > s.capacity - |s.queue|
    ensures WriteBytes(s.config, n) <= |buffer|
    ensures Write(s, buffer).s == s.(queue := s.queue + ConvertFrames(s.config, buffer, n),
                                    accepted := s.accepted + ConvertFrames(s.config, buffer, n))
  {
    n := FramesTaken(s.config, |buffer|, FreeBytes(s));
    TakenFits(s.config, |buffer|, FreeBytes(s));
    FrameCounts(s.config, n);
    FrameCounts(s.config, n + 1);
    NoMoreFits(s.config, |buffer|, FreeBytes(s));
  }

  lemma FrameCounts(c: Config, n: nat)
    requires GoodConfig(c)
    ensures WriteBytes(c, n) == n * (c.channels * WriteSampleSize(c.format))
    ensures FrameBytes(c.hw, n) == n * (2 * HwSampleSize(c.hw))
  {
  }

  lemma NoMoreFits(c: Config, count: nat, free: nat)
    requires GoodConfig(c)
    ensures var n := FramesTaken(c, count, free) + 1; WriteBytes(c, n) > count || FrameBytes(c.hw, n) > free
  {
  }

  /** A chunk takes what there is, up to its size, from the front of the queue; the rest of it is silence: the
      middle of the range. */
  lemma ChunkTakes(s: State, frames: nat)
    requires Good(s)
    ensures var c, t := NextChunk(s, frames), TakeChunk(s, frames);
      && |c.data| == frames * (2 * HwSampleSize(s.config.hw))
      && c.filled == (if |s.queue| < |c.data| then |s.queue| else |c.data|)
      && c.data[..c.filled] == s.queue[..c.filled]
      && t == s.(queue := s.queue[c.filled..], chunks := s.chunks + [c])
  {
    ChunkIsExact(s, frames);
    FrameCounts(s.config, frames);
  }

  /** Silence is the middle of the range, in both channels of every frame. */
  lemma {:induction false} SilenceAt(f: HwFormat, n: nat, i: nat)
    requires i < n
    ensures FrameBytes(f, i + 1) <= |NullFrames(f, n)|
    ensures var silence := HwBytes(f, if f.HwUnsigned32? then f.max / 2 else 0);
      NullFrames(f, n)[FrameBytes(f, i)..FrameBytes(f, i + 1)] == silence + silence
    decreases n
  {
    NullFramesSize(f, n);
    NullFramesSize(f, n - 1);
    var most, last := NullFrames(f, n - 1), NullSample(f) + NullSample(f);
    if i < n - 1 {
      SilenceAt(f, n - 1, i);
      SliceOfFirst(most, last, FrameBytes(f, i), FrameBytes(f, i + 1));
    } else {
      SliceOfLast(most, last);
    }
  }
}
