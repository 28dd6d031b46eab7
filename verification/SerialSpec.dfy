/** The interrupt-driven serial port: two byte queues shared between callers and the interrupt
    handler, every spin-locked section being one step. */
module SerialSpec {
  import opened Words

  const CAPACITY := 2047
  const NL: Byte := 10
  const CR: Byte := 13

  const ERROR_BREAK := -1
  const ERROR_OVERRUN := -2
  const ERROR_FRAMING := -3

  /** A word from the receive FIFO with its error flags. */
  datatype RxWord = RxWord(data: Byte, breakError: bool, overrunError: bool, framingError: bool)

  /** The queues, the pending receive error, whether the transmit interrupt is enabled and how many
      writes are in progress; and for the record everything queued, handed to the UART, received,
      stored and delivered, and how many received bytes were lost, in all and since the last report. */
  datatype State = State(
    tx: seq<Byte>, rx: seq<Byte>, rxStatus: int, txInterrupt: bool, writers: nat,
    queued: seq<Byte>, sent: seq<Byte>,
    received: seq<RxWord>, stored: seq<Byte>, delivered: seq<Byte>, lost: nat, unreported: nat)

  const INIT := State([], [], 0, false, 0, [], [], [], [], [], 0, 0)

  // ---------- the steps ----------

  /** Queue one byte, if there is room. */
  function Put(s: State, b: Byte): State {
    if |s.tx| < CAPACITY then s.(tx := s.tx + [b], queued := s.queued + [b]) else s
  }

  function Least(a: nat, b: nat): nat {
    if a < b then a else b
  }

  /** Hand up to `room` bytes to the UART. */
  function Transmit(s: State, room: nat): State {
    var n := Least(room, |s.tx|);
    s.(tx := s.tx[n..], sent := s.sent + s.tx[..n])
  }

  /** The end of a write: fill the FIFO; if it is full, let the interrupt go on. */
  function EndWrite(s: State, room: nat): State {
    var t := Transmit(s, room);
    t.(txInterrupt := if t.tx == [] then s.txInterrupt else true, writers := if s.writers == 0 then 0 else s.writers - 1)
  }

  function NewStatus(status: int, w: RxWord): int {
    if status != 0 then status
    else if w.breakError then ERROR_BREAK
    else if w.overrunError then ERROR_OVERRUN
    else if w.framingError then ERROR_FRAMING
    else 0
  }

  /** Take one word from the receive FIFO. The byte is stored even if it came with an error. */
  function Receive(s: State, w: RxWord): State {
    var t := s.(rxStatus := NewStatus(s.rxStatus, w), received := s.received + [w]);
    if |s.rx| < CAPACITY then t.(rx := s.rx + [w.data], stored := s.stored + [w.data])
    else t.(rxStatus := if t.rxStatus == 0 then ERROR_OVERRUN else t.rxStatus,
            lost := s.lost + 1, unreported := s.unreported + 1)
  }

  function ReceiveAll(s: State, words: seq<RxWord>): State
    decreases |words|
  {
    if words == [] then s else ReceiveAll(Receive(s, words[0]), words[1..])
  }

  /** The transmit part of the interrupt handler: when the queue runs empty before the FIFO is full,
      the interrupt is disabled. */
  function TransmitInterrupt(s: State, room: nat): State {
    var t := Transmit(s, room);
    t.(txInterrupt := if room > |s.tx| then false else s.txInterrupt)
  }

  function Interrupt(s: State, words: seq<RxWord>, room: nat): State {
    TransmitInterrupt(ReceiveAll(s, words), room)
  }

  /** Report a pending error, or deliver up to `count` bytes. */
  function Read(s: State, count: nat): State {
    if s.rxStatus < 0 then s.(rxStatus := 0, unreported := 0)
    else
      var n := Least(count, |s.rx|);
      s.(rx := s.rx[n..], delivered := s.delivered + s.rx[..n])
  }

  datatype Step =
    | BeginWrite
    | PutStep(b: Byte)
    | EndWriteStep(room: nat)
    | ReadStep(count: nat)
    | InterruptStep(words: seq<RxWord>, txRoom: nat)

  function Apply(s: State, step: Step): State {
    match step
    case BeginWrite => s.(writers := s.writers + 1)
    case PutStep(b) => Put(s, b)
    case EndWriteStep(room) => EndWrite(s, room)
    case ReadStep(n) => Read(s, n)
    case InterruptStep(words, room) => Interrupt(s, words, room)
  }

  /** Bytes are put only by writes in progress. */
  predicate Enabled(s: State, step: Step) {
    step.PutStep? || step.EndWriteStep? ==> s.writers > 0
  }

  // ---------- what each section does ----------

  /** At power-up nothing is there and nobody writes. The queues hold 2047 bytes; the error codes are those the
      callers see. */
  lemma ConstantsAre()
    ensures INIT == State([], [], 0, false, 0, [], [], [], [], [], 0, 0)
    ensures CAPACITY == 2047 && NL == 10 && CR == 13
    ensures ERROR_BREAK == -1 && ERROR_OVERRUN == -2 && ERROR_FRAMING == -3
  {
  }

  /** A byte is queued at the end if fewer than 2047 are waiting; otherwise nothing happens. */
  lemma PutIs(s: State, b: Byte)
    ensures Put(s, b) == if |s.tx| < 2047 then s.(tx := s.tx + [b], queued := s.queued + [b]) else s
  {
  }

  /** A read reports a pending error, and delivers nothing then; otherwise it delivers as many bytes as are asked
      for and waiting, the oldest first. */
  lemma ReadIs(s: State, count: nat) returns (n: nat)
    ensures n == if count < |s.rx| then count else |s.rx|
    ensures s.rxStatus < 0 ==> Read(s, count) == s.(rxStatus := 0, unreported := 0)
    ensures s.rxStatus >= 0 ==> Read(s, count) == s.(rx := s.rx[n..], delivered := s.delivered + s.rx[..n])
  {
    n := if count < |s.rx| then count else |s.rx|;
  }

  /** A received word: its byte is stored if there is room, whatever error it came with; the first error since
      the last read is kept: a break before an overrun before a framing error, and an overrun if there was no
      room and nothing else was wrong. */
  lemma ReceiveIs(s: State, w: RxWord)
    ensures var t, room := Receive(s, w), |s.rx| < 2047;
      && t.rx == (if room then s.rx + [w.data] else s.rx)
      && t.stored == (if room then s.stored + [w.data] else s.stored)
      && t.lost == s.lost + (if room then 0 else 1) && t.unreported == s.unreported + (if room then 0 else 1)
      && t.received == s.received + [w]
      && t.rxStatus == (if s.rxStatus != 0 then s.rxStatus
           else if w.breakError then -1 else if w.overrunError then -2 else if w.framingError then -3
           else if room then 0 else -2)
      && t.tx == s.tx && t.queued == s.queued && t.sent == s.sent && t.txInterrupt == s.txInterrupt
      && t.writers == s.writers && t.delivered == s.delivered
  {
  }

  /** Words are received one after the other. */
  lemma ReceiveAllIs(s: State, words: seq<RxWord>, w: RxWord)
    ensures ReceiveAll(s, []) == s && ReceiveAll(s, words + [w]) == Receive(ReceiveAll(s, words), w)
    decreases |words|
  {
    if words == [] {
      assert ([] + [w])[1..] == [];
      assert ReceiveAll(s, [w]) == ReceiveAll(Receive(s, w), []);
    } else {
      assert (words + [w])[1..] == words[1..] + [w];
      ReceiveAllIs(Receive(s, words[0]), words[1..], w);
    }
  }

  /** The UART gets as many bytes as it has room for and are waiting, the oldest first. The interrupt handler
      turns the transmit interrupt off if the queue ran empty before the FIFO was full. */
  lemma InterruptIs(s: State, words: seq<RxWord>, room: nat) returns (n: nat)
    ensures n == if room < |s.tx| then room else |s.tx|
    ensures Interrupt(s, words, room) == ReceiveAll(s, words).(
      tx := s.tx[n..], sent := s.sent + s.tx[..n], txInterrupt := s.txInterrupt && room <= |s.tx|)
  {
    n := if room < |s.tx| then room else |s.tx|;
    ReceiveAllLeaves(s, words);
  }

  /** The end of a write turns it on if the FIFO was full before the queue was empty. */
  lemma EndWriteIs(s: State, room: nat) returns (n: nat)
    requires s.writers > 0
    ensures n == if room < |s.tx| then room else |s.tx|
    ensures EndWrite(s, room) == s.(tx := s.tx[n..], sent := s.sent + s.tx[..n],
      txInterrupt := s.txInterrupt || room < |s.tx|, writers := s.writers - 1)
  {
    n := if room < |s.tx| then room else |s.tx|;
  }

  /** What a text turns into on the line: every byte itself, and a carriage return behind every line feed if that
      is asked for. */
  lemma {:induction false} ExpandIs(buffer: seq<Byte>, b: Byte, onlcr: bool)
    ensures Expand([], onlcr) == []
    ensures Expand(buffer + [b], onlcr) == Expand(buffer, onlcr) + if b == 10 && onlcr then [10, 13] else [b]
    decreases |buffer|
  {
    if buffer == [] {
      assert ([] + [b])[1..] == [];
    } else {
      assert (buffer + [b])[1..] == buffer[1..] + [b];
      ExpandIs(buffer[1..], b, onlcr);
    }
  }

  // ---------- what every interleaving keeps ----------

  function Data(words: seq<RxWord>): (d: seq<Byte>)
    ensures |d| == |words|
  {
    seq(|words|, i requires 0 <= i < |words| => words[i].data)
  }

  ghost predicate Good(s: State) {
    && |s.tx| <= CAPACITY && |s.rx| <= CAPACITY
    // nothing is lost, doubled or reordered on the way out
    && s.queued == s.sent + s.tx
    // nor on the way in, apart from bytes that find the queue full
    && s.stored == s.delivered + s.rx
    && |s.received| == |s.stored| + s.lost
    && (s.lost == 0 ==> s.stored == Data(s.received))
    // a lost byte is never passed over in silence
    && s.rxStatus <= 0
    && s.unreported <= s.lost
    && (s.unreported > 0 ==> s.rxStatus < 0)
    // no lost wake-up
    && (s.tx != [] && s.writers == 0 ==> s.txInterrupt)
  }

  lemma ReceiveKeepsGood(s: State, w: RxWord)
    requires Good(s)
    ensures Good(Receive(s, w))
  {
    assert Data(s.received + [w]) == Data(s.received) + [w.data];
  }

  lemma {:induction false} ReceiveAllKeepsGood(s: State, words: seq<RxWord>)
    requires Good(s)
    ensures Good(ReceiveAll(s, words))
    decreases |words|
  {
    if words != [] {
      ReceiveKeepsGood(s, words[0]);
      ReceiveAllKeepsGood(Receive(s, words[0]), words[1..]);
    }
  }

  lemma TransmitMoves(s: State, room: nat)
    ensures Transmit(s, room).sent + Transmit(s, room).tx == s.sent + s.tx
  {
    var n := Least(room, |s.tx|);
    assert s.tx == s.tx[..n] + s.tx[n..];
  }

  lemma InterruptKeepsGood(s: State, words: seq<RxWord>, room: nat)
    requires Good(s)
    ensures Good(Interrupt(s, words, room))
  {
    ReceiveAllKeepsGood(s, words);
    TransmitMoves(ReceiveAll(s, words), room);
  }

  lemma ReadKeepsGood(s: State, count: nat)
    requires Good(s)
    ensures Good(Read(s, count))
  {
    assert s.rx == s.rx[..Least(count, |s.rx|)] + s.rx[Least(count, |s.rx|)..];
  }

  lemma StepKeepsGood(s: State, step: Step)
    requires Good(s) && Enabled(s, step)
    ensures Good(Apply(s, step))
  {
    match step
    case InterruptStep(words, room) => InterruptKeepsGood(s, words, room);
    case EndWriteStep(room) => TransmitMoves(s, room);
    case ReadStep(n) => ReadKeepsGood(s, n);
    case _ =>
  }

  function RunFrom(s: State, steps: seq<Step>): State
    decreases |steps|
  {
    if steps == [] then s else RunFrom(Apply(s, steps[0]), steps[1..])
  }

  ghost predicate Allowed(s: State, steps: seq<Step>)
    decreases |steps|
  {
    steps != [] ==> Enabled(s, steps[0]) && Allowed(Apply(s, steps[0]), steps[1..])
  }

  /** In every interleaving the bytes handed to the UART and those still queued are the bytes queued,
      in order; the bytes read and those waiting are the bytes stored, in order; every lost byte is
      reported by the next read; and a byte left in the transmit queue after the last write has its
      interrupt enabled. */
  lemma {:induction false} EveryInterleavingIsGood(s: State, steps: seq<Step>)
    requires Good(s) && Allowed(s, steps)
    ensures Good(RunFrom(s, steps))
    decreases |steps|
  {
    if steps != [] {
      StepKeepsGood(s, steps[0]);
      EveryInterleavingIsGood(Apply(s, steps[0]), steps[1..]);
    }
  }

  /** So from power-up on, whatever the callers and the interrupts do. */
  lemma GoodFromPowerUp(steps: seq<Step>)
    requires Allowed(INIT, steps)
    ensures Good(RunFrom(INIT, steps))
  {
    EveryInterleavingIsGood(INIT, steps);
  }

  lemma {:induction false} RunAppend(s: State, a: seq<Step>, b: seq<Step>)
    requires Allowed(s, a) && Allowed(RunFrom(s, a), b)
    ensures Allowed(s, a + b) && RunFrom(s, a + b) == RunFrom(RunFrom(s, a), b)
    decreases |a|
  {
    if a == [] {
      assert a + b == b;
    } else {
      assert (a + b)[1..] == a[1..] + b;
      RunAppend(Apply(s, a[0]), a[1..], b);
    }
  }

  lemma RunOne(s: State, step: Step)
    requires Enabled(s, step)
    ensures Allowed(s, [step]) && RunFrom(s, [step]) == Apply(s, step)
  {
    assert [step][1..] == [];
  }

  // ---------- a whole write ----------

  /** An interrupt that comes between two steps of a write. */
  datatype Irq = Irq(words: seq<RxWord>, room: nat)

  function Interrupts(s: State, irqs: seq<Irq>): State
    decreases |irqs|
  {
    if irqs == [] then s else Interrupts(Interrupt(s, irqs[0].words, irqs[0].room), irqs[1..])
  }

  /** The interrupts before the next step, and those before the later ones. */
  function Head(env: seq<seq<Irq>>): seq<Irq> {
    if env == [] then [] else env[0]
  }

  function Tail(env: seq<seq<Irq>>): seq<seq<Irq>> {
    if env == [] then [] else env[1..]
  }

  /** `half` tells that the last character was a line feed that found room without its carriage
      return. */
  datatype WriteResult = WriteResult(s: State, count: nat, half: bool, env: seq<seq<Irq>>)

  /** Queue one character of the caller's, and a carriage return behind a line feed. */
  function WriteChar(s: State, c: Byte, onlcr: bool, env: seq<seq<Irq>>): WriteResult {
    var s1 := Interrupts(s, Head(env));
    var s2 := Put(s1, c);
    if |s1.tx| >= CAPACITY then WriteResult(s2, 0, false, Tail(env))
    else if c == NL && onlcr then
      var s3 := Interrupts(s2, Head(Tail(env)));
      var ok := |s3.tx| < CAPACITY;
      WriteResult(Put(s3, CR), if ok then 1 else 0, !ok, Tail(Tail(env)))
    else WriteResult(s2, 1, false, Tail(env))
  }

  /** The loop of a write: it stops at the first character that finds no room. */
  function WriteChars(s: State, buffer: seq<Byte>, onlcr: bool, env: seq<seq<Irq>>): WriteResult
    decreases |buffer|
  {
    if buffer == [] then WriteResult(s, 0, false, env)
    else
      var r := WriteChar(s, buffer[0], onlcr, env);
      if r.count == 0 then r
      else
        var q := WriteChars(r.s, buffer[1..], onlcr, r.env);
        q.(count := q.count + 1)
  }

  /** A whole write: its loop, and the section behind it that hands bytes to the UART, which has room for
      `room` of them. */
  function WholeWrite(s: State, buffer: seq<Byte>, onlcr: bool, env: seq<seq<Irq>>, room: nat): WriteResult {
    var r := WriteChars(Apply(s, BeginWrite), buffer, onlcr, env);
    r.(s := EndWrite(Interrupts(r.s, Head(r.env)), room), env := Tail(r.env))
  }

  /** What a text turns into on the line. */
  function Expand(buffer: seq<Byte>, onlcr: bool): seq<Byte> {
    if buffer == [] then []
    else (if buffer[0] == NL && onlcr then [NL, CR] else [buffer[0]]) + Expand(buffer[1..], onlcr)
  }

  // ---------- a write is made of the steps ----------

  lemma {:induction false} ReceiveAllLeaves(s: State, words: seq<RxWord>)
    ensures var t := ReceiveAll(s, words);
      t.tx == s.tx && t.queued == s.queued && t.sent == s.sent && t.writers == s.writers && t.txInterrupt == s.txInterrupt
    decreases |words|
  {
    if words != [] {
      ReceiveAllLeaves(Receive(s, words[0]), words[1..]);
    }
  }

  lemma {:induction false} InterruptsAreSteps(s: State, irqs: seq<Irq>) returns (steps: seq<Step>)
    ensures Allowed(s, steps) && RunFrom(s, steps) == Interrupts(s, irqs) && Interrupts(s, irqs).writers == s.writers
    decreases |irqs|
  {
    steps := [];
    if irqs != [] {
      var step := InterruptStep(irqs[0].words, irqs[0].room);
      ReceiveAllLeaves(s, irqs[0].words);
      var rest := InterruptsAreSteps(Apply(s, step), irqs[1..]);
      steps := [step] + rest;
    }
  }

  lemma CharIsSteps(s: State, c: Byte, onlcr: bool, env: seq<seq<Irq>>) returns (steps: seq<Step>)
    requires s.writers > 0
    ensures var t := WriteChar(s, c, onlcr, env).s;
      Allowed(s, steps) && RunFrom(s, steps) == t && t.writers == s.writers
  {
    steps := InterruptsAreSteps(s, Head(env));
    var s1 := Interrupts(s, Head(env));
    var s2 := Put(s1, c);
    RunOne(s1, PutStep(c));
    RunAppend(s, steps, [PutStep(c)]);
    steps := steps + [PutStep(c)];
    if |s1.tx| < CAPACITY && c == NL && onlcr {
      var more := InterruptsAreSteps(s2, Head(Tail(env)));
      var s3 := Interrupts(s2, Head(Tail(env)));
      RunAppend(s, steps, more);
      RunOne(s3, PutStep(CR));
      RunAppend(s, steps + more, [PutStep(CR)]);
      steps := steps + more + [PutStep(CR)];
    }
  }

  lemma {:induction false} CharsAreSteps(s: State, buffer: seq<Byte>, onlcr: bool, env: seq<seq<Irq>>) returns (steps: seq<Step>)
    requires s.writers > 0
    ensures var t := WriteChars(s, buffer, onlcr, env).s;
      Allowed(s, steps) && RunFrom(s, steps) == t && t.writers == s.writers
    decreases |buffer|
  {
    steps := [];
    if buffer != [] {
      var r := WriteChar(s, buffer[0], onlcr, env);
      steps := CharIsSteps(s, buffer[0], onlcr, env);
      if r.count != 0 {
        var more := CharsAreSteps(r.s, buffer[1..], onlcr, r.env);
        RunAppend(s, steps, more);
        steps := steps + more;
      }
    }
  }

  /** A whole write with its interrupts is one of the interleavings. */
  lemma WriteIsInterleaving(s: State, buffer: seq<Byte>, onlcr: bool, env: seq<seq<Irq>>, room: nat) returns (steps: seq<Step>)
    ensures var t := WholeWrite(s, buffer, onlcr, env, room).s;
      Allowed(s, steps) && RunFrom(s, steps) == t && t.writers == s.writers
  {
    var s1 := Apply(s, BeginWrite);
    var r := WriteChars(s1, buffer, onlcr, env);
    var s2 := Interrupts(r.s, Head(r.env));
    RunOne(s, BeginWrite);
    var chars := CharsAreSteps(s1, buffer, onlcr, env);
    RunAppend(s, [BeginWrite], chars);
    var irqs := InterruptsAreSteps(r.s, Head(r.env));
    RunAppend(s, [BeginWrite] + chars, irqs);
    RunOne(s2, EndWriteStep(room));
    RunAppend(s, [BeginWrite] + chars + irqs, [EndWriteStep(room)]);
    steps := [BeginWrite] + chars + irqs + [EndWriteStep(room)];
  }

  /** So it keeps what they all keep; and if no other write is in progress behind it, a byte that it leaves
      in the queue has its interrupt enabled. */
  lemma WriteKeepsGood(s: State, buffer: seq<Byte>, onlcr: bool, env: seq<seq<Irq>>, room: nat)
    requires Good(s)
    ensures var t := WholeWrite(s, buffer, onlcr, env, room).s;
      Good(t) && t.writers == s.writers && (s.writers == 0 && t.tx != [] ==> t.txInterrupt)
  {
    var steps := WriteIsInterleaving(s, buffer, onlcr, env, room);
    EveryInterleavingIsGood(s, steps);
  }

  // ---------- what a write queues ----------

  lemma {:induction false} InterruptsLeave(s: State, irqs: seq<Irq>)
    ensures var t := Interrupts(s, irqs);
      t.queued == s.queued && |t.tx| <= |s.tx| && |t.tx| + |t.sent| == |s.tx| + |s.sent|
    decreases |irqs|
  {
    if irqs != [] {
      ReceiveAllLeaves(s, irqs[0].words);
      InterruptsLeave(Interrupt(s, irqs[0].words, irqs[0].room), irqs[1..]);
    }
  }

  ghost predicate Queues(s: State, t: State, buffer: seq<Byte>, onlcr: bool, half: bool) {
    t.queued == s.queued + Expand(buffer, onlcr) + if half then [NL] else []
  }

  lemma WriteCharQueues(s: State, c: Byte, onlcr: bool, env: seq<seq<Irq>>)
    ensures var r := WriteChar(s, c, onlcr, env);
      && r.count <= 1 && (r.half ==> r.count == 0 && c == NL && onlcr)
      && Queues(s, r.s, [c][..r.count], onlcr, r.half)
  {
    var s1 := Interrupts(s, Head(env));
    InterruptsLeave(s, Head(env));
    InterruptsLeave(Put(s1, c), Head(Tail(env)));
    ExpandOne(s.queued, c, onlcr);
  }

  lemma ExpandOne(queued: seq<Byte>, c: Byte, onlcr: bool)
    ensures [c][..0] == [] && [c][..1] == [c]
    ensures queued + Expand([], onlcr) + [] == queued && queued + Expand([], onlcr) + [NL] == queued + [NL]
    ensures queued + Expand([c], onlcr) + [] == if c == NL && onlcr then queued + [NL] + [CR] else queued + [c]
  {
    assert queued + [NL] + [CR] == queued + [NL, CR];
  }

  lemma ExpandFirst(c: Byte, rest: seq<Byte>, onlcr: bool)
    ensures Expand([c] + rest, onlcr) == Expand([c], onlcr) + Expand(rest, onlcr)
  {
    assert ([c] + rest)[1..] == rest;
  }

  lemma QueuesMore(s: State, t: State, u: State, c: Byte, rest: seq<Byte>, onlcr: bool, half: bool)
    requires Queues(s, t, [c], onlcr, false) && Queues(t, u, rest, onlcr, half)
    ensures Queues(s, u, [c] + rest, onlcr, half)
  {
    ExpandFirst(c, rest, onlcr);
  }

  lemma {:induction false} CharsQueue(s: State, buffer: seq<Byte>, onlcr: bool, env: seq<seq<Irq>>)
    ensures var r := WriteChars(s, buffer, onlcr, env);
      && r.count <= |buffer|
      && (r.half ==> r.count < |buffer| && buffer[r.count] == NL && onlcr)
      && Queues(s, r.s, buffer[..r.count], onlcr, r.half)
    decreases |buffer|
  {
    if buffer != [] {
      var r := WriteChar(s, buffer[0], onlcr, env);
      WriteCharQueues(s, buffer[0], onlcr, env);
      if r.count == 1 {
        CharsQueue(r.s, buffer[1..], onlcr, r.env);
        var q := WriteChars(r.s, buffer[1..], onlcr, r.env);
        assert [buffer[0]][..1] == [buffer[0]];
        QueuesFirst(s, r.s, q.s, buffer, q.count + 1, onlcr, q.half);
      } else {
        assert buffer[..0] == [buffer[0]][..0];
      }
    }
  }

  lemma QueuesFirst(s: State, t: State, u: State, buffer: seq<Byte>, n: nat, onlcr: bool, half: bool)
    requires 0 < n <= |buffer|
    requires Queues(s, t, [buffer[0]], onlcr, false) && Queues(t, u, buffer[1..][..n - 1], onlcr, half)
    ensures Queues(s, u, buffer[..n], onlcr, half)
  {
    assert buffer[..n] == [buffer[0]] + buffer[1..][..n - 1];
    QueuesMore(s, t, u, buffer[0], buffer[1..][..n - 1], onlcr, half);
  }

  /** Whatever interrupts come in between, a write queues exactly the expansion of the characters it
      counts; only where a carriage return found no room, the line feed before it, which is not
      counted, has been queued as well. */
  lemma WriteQueuesWhatItCounts(s: State, buffer: seq<Byte>, onlcr: bool, env: seq<seq<Irq>>, room: nat)
    ensures var r := WholeWrite(s, buffer, onlcr, env, room);
      && r.count <= |buffer|
      && (r.half ==> r.count < |buffer| && buffer[r.count] == NL && onlcr)
      && Queues(s, r.s, buffer[..r.count], onlcr, r.half)
  {
    var s1 := Apply(s, BeginWrite);
    CharsQueue(s1, buffer, onlcr, env);
    var r := WriteChars(s1, buffer, onlcr, env);
    InterruptsLeave(r.s, Head(r.env));
  }

  // ---------- when a line feed is queued by halves ----------

  /** A line feed in the text, before which the queue would hold `n` bytes if none were sent. */
  ghost predicate FeedAt(s: State, buffer: seq<Byte>, onlcr: bool, k: nat, n: nat) {
    onlcr && k < |buffer| && buffer[k] == NL && |s.tx| + |Expand(buffer[..k], onlcr)| == n
  }

  /** A write that stops has found the queue full, and interrupts only make room. */
  lemma {:induction false} StopsWhenFull(s: State, buffer: seq<Byte>, onlcr: bool, env: seq<seq<Irq>>)
    requires |s.tx| <= CAPACITY
    ensures var r := WriteChars(s, buffer, onlcr, env);
      && |r.s.tx| <= CAPACITY && |s.sent| <= |r.s.sent|
      && |r.s.tx| + |r.s.sent| - |s.tx| - |s.sent| == |r.s.queued| - |s.queued|
      && (r.half || r.count < |buffer| ==> |r.s.tx| == CAPACITY)
      && (env == [] ==> r.s.sent == s.sent)
    decreases |buffer|
  {
    if buffer != [] {
      CharStopsWhenFull(s, buffer[0], onlcr, env);
      var r := WriteChar(s, buffer[0], onlcr, env);
      if r.count != 0 {
        StopsWhenFull(r.s, buffer[1..], onlcr, r.env);
      }
    }
  }

  lemma CharStopsWhenFull(s: State, c: Byte, onlcr: bool, env: seq<seq<Irq>>)
    requires |s.tx| <= CAPACITY
    ensures var r := WriteChar(s, c, onlcr, env);
      && |r.s.tx| <= CAPACITY && |s.sent| <= |r.s.sent| && r.count <= 1
      && |r.s.tx| + |r.s.sent| - |s.tx| - |s.sent| == |r.s.queued| - |s.queued|
      && (r.count == 0 ==> |r.s.tx| == CAPACITY) && (r.half ==> r.count == 0)
      && (env == [] ==> r.s.sent == s.sent && r.env == [])
  {
    var s1 := Interrupts(s, Head(env));
    InterruptsLeave(s, Head(env));
    InterruptsLeave(Put(s1, c), Head(Tail(env)));
  }

  /** A line feed is queued by halves only if the bytes before it may fill the queue but for one place. */
  lemma HalfOnlyIf(s: State, buffer: seq<Byte>, onlcr: bool, env: seq<seq<Irq>>)
    requires |s.tx| <= CAPACITY
    ensures var r := WriteChars(s, buffer, onlcr, env);
      r.half ==> exists n :: n >= CAPACITY - 1 && FeedAt(s, buffer, onlcr, r.count, n) && (env == [] ==> n == CAPACITY - 1)
  {
    CharsQueue(s, buffer, onlcr, env);
    StopsWhenFull(s, buffer, onlcr, env);
    var r := WriteChars(s, buffer, onlcr, env);
    if r.half {
      assert FeedAt(s, buffer, onlcr, r.count, |s.tx| + |Expand(buffer[..r.count], onlcr)|);
    }
  }

  lemma ExpandBefore(buffer: seq<Byte>, onlcr: bool, k: nat)
    requires 0 < k <= |buffer|
    ensures |Expand(buffer[..k], onlcr)|
      == |Expand(buffer[1..][..k - 1], onlcr)| + if buffer[0] == NL && onlcr then 2 else 1
  {
    assert buffer[..k] == [buffer[0]] + buffer[1..][..k - 1];
    ExpandFirst(buffer[0], buffer[1..][..k - 1], onlcr);
  }

  lemma {:induction false} HalfIf(s: State, buffer: seq<Byte>, onlcr: bool, k: nat)
    requires FeedAt(s, buffer, onlcr, k, CAPACITY - 1)
    ensures WriteChars(s, buffer, onlcr, []).half
    decreases k
  {
    if k > 0 {
      ExpandBefore(buffer, onlcr, k);
      var r := WriteChar(s, buffer[0], onlcr, []);
      assert r.count == 1;
      HalfIf(r.s, buffer[1..], onlcr, k - 1);
    }
  }

  /** Where no interrupt comes in between, a line feed is queued without its carriage return, and not
      counted, if and only if the bytes before it fill the queue but for one place. */
  lemma HalfIff(s: State, buffer: seq<Byte>, onlcr: bool, room: nat)
    requires |s.tx| <= CAPACITY
    ensures WholeWrite(s, buffer, onlcr, [], room).half 
      <==> exists k, n :: n == CAPACITY - 1 && FeedAt(s, buffer, onlcr, k, n)
  {
    var s1 := Apply(s, BeginWrite);
    HalfOnlyIf(s1, buffer, onlcr, []);
    forall k: nat, n: nat ensures FeedAt(s1, buffer, onlcr, k, n) <==> FeedAt(s, buffer, onlcr, k, n) { }
    forall k: nat, n: nat | n == CAPACITY - 1 && FeedAt(s, buffer, onlcr, k, n) ensures WriteChars(s1, buffer, onlcr, []).half {
      HalfIf(s1, buffer, onlcr, k);
    }
  }

  /** That case does occur: 2046 plain bytes and a line feed, written after power-up. */
  lemma HalfQueuedLineFeed(room: nat)
    ensures var text: seq<Byte> := seq(CAPACITY - 1, _ => 65) + [NL];
      WholeWrite(INIT, text, true, [], room).half
  {
    var plain: seq<Byte> := seq(CAPACITY - 1, _ => 65);
    PlainStays(plain, true);
    assert (plain + [NL])[..CAPACITY - 1] == plain;
    assert FeedAt(INIT, plain + [NL], true, CAPACITY - 1, CAPACITY - 1);
    HalfIff(INIT, plain + [NL], true, room);
  }

  lemma {:induction false} PlainStays(text: seq<Byte>, onlcr: bool)
    requires NL !in text
    ensures Expand(text, onlcr) == text
    decreases |text|
  {
    if text != [] {
      PlainStays(text[1..], onlcr);
      assert [text[0]] + text[1..] == text;
    }
  }

  /** An interrupt that makes room for one byte if there is none. */
  function MakeRoom(s: State): seq<Irq> {
    [Irq([], if |s.tx| < CAPACITY then 0 else 1)]
  }

  lemma RoomMade(s: State)
    requires |s.tx| <= CAPACITY
    ensures |Interrupts(s, MakeRoom(s)).tx| == Least(|s.tx|, CAPACITY - 1)
  {
    var irqs := MakeRoom(s);
    assert irqs[1..] == [] && ReceiveAll(s, []) == s;
    assert Interrupts(s, irqs) == Interrupt(s, [], irqs[0].room);
  }

  /** The interrupts that let a character through. */
  lemma CharGoesThrough(s: State, c: Byte, onlcr: bool) returns (env: seq<seq<Irq>>)
    requires |s.tx| <= CAPACITY
    ensures forall rest :: WriteChar(s, c, onlcr, env + rest).env == rest
    ensures forall rest :: WriteChar(s, c, onlcr, env + rest).s == WriteChar(s, c, onlcr, env).s
    ensures forall rest :: WriteChar(s, c, onlcr, env + rest).count == 1
    ensures |WriteChar(s, c, onlcr, env).s.tx| == Least(|s.tx| + if c == NL && onlcr then 2 else 1, CAPACITY)
  {
    RoomMade(s);
    var s2 := Put(Interrupts(s, MakeRoom(s)), c);
    RoomMade(s2);
    env := if c == NL && onlcr then [MakeRoom(s), MakeRoom(s2)] else [MakeRoom(s)];
    forall rest ensures WriteChar(s, c, onlcr, env + rest) == WriteChar(s, c, onlcr, env).(env := rest, count := 1) {
      assert Tail(env + rest) == Tail(env) + rest && Head(env + rest) == MakeRoom(s);
      if c == NL && onlcr { assert Tail(Tail(env) + rest) == rest; }
    }
  }

  lemma {:induction false} HalfWithInterrupts(s: State, buffer: seq<Byte>, onlcr: bool, k: nat, n: nat) returns (env: seq<seq<Irq>>)
    requires |s.tx| <= CAPACITY && n >= CAPACITY - 1 && FeedAt(s, buffer, onlcr, k, n)
    ensures WriteChars(s, buffer, onlcr, env).half
    decreases k
  {
    if k == 0 {
      RoomMade(s);
      env := [MakeRoom(s), []];
    } else {
      ExpandBefore(buffer, onlcr, k);
      var first := CharGoesThrough(s, buffer[0], onlcr);
      var r := WriteChar(s, buffer[0], onlcr, first);
      var rest := HalfWithInterrupts(r.s, buffer[1..], onlcr, k - 1, |r.s.tx| + |Expand(buffer[1..][..k - 1], onlcr)|);
      env := first + rest;
    }
  }

  /** Some interrupts can bring it about that a line feed is queued by halves, if and only if there is one
      with enough bytes before it to fill the queue but for one place. */
  lemma MayBeHalvedIff(s: State, buffer: seq<Byte>, onlcr: bool, room: nat)
    requires |s.tx| <= CAPACITY
    ensures (exists env :: WholeWrite(s, buffer, onlcr, env, room).half)
      <==> exists k, n :: n >= CAPACITY - 1 && FeedAt(s, buffer, onlcr, k, n)
  {
    var s1 := Apply(s, BeginWrite);
    forall k: nat, n: nat ensures FeedAt(s1, buffer, onlcr, k, n) <==> FeedAt(s, buffer, onlcr, k, n) { }
    forall env | WholeWrite(s, buffer, onlcr, env, room).half
      ensures exists k, n :: n >= CAPACITY - 1 && FeedAt(s, buffer, onlcr, k, n)
    {
      HalfOnlyIf(s1, buffer, onlcr, env);
    }
    forall k: nat, n: nat | n >= CAPACITY - 1 && FeedAt(s, buffer, onlcr, k, n)
      ensures exists env :: WholeWrite(s, buffer, onlcr, env, room).half
    {
      var env := HalfWithInterrupts(s1, buffer, onlcr, k, n);
      assert WholeWrite(s, buffer, onlcr, env, room).half;
    }
  }

  /** A text for which there is room is written in full, whatever interrupts come in between. */
  lemma WrittenInFull(s: State, buffer: seq<Byte>, onlcr: bool, env: seq<seq<Irq>>, room: nat)
    requires |s.tx| + |Expand(buffer, onlcr)| <= CAPACITY
    ensures var r := WholeWrite(s, buffer, onlcr, env, room);
      r.count == |buffer| && !r.half && r.s.queued == s.queued + Expand(buffer, onlcr)
  {
    var s1 := Apply(s, BeginWrite);
    CharsFit(s1, buffer, onlcr, env);
    WriteQueuesWhatItCounts(s, buffer, onlcr, env, room);
    assert buffer[..|buffer|] == buffer;
  }

  lemma {:induction false} CharsFit(s: State, buffer: seq<Byte>, onlcr: bool, env: seq<seq<Irq>>)
    requires |s.tx| + |Expand(buffer, onlcr)| <= CAPACITY
    ensures WriteChars(s, buffer, onlcr, env).count == |buffer| && !WriteChars(s, buffer, onlcr, env).half
    decreases |buffer|
  {
    if buffer != [] {
      var s1 := Interrupts(s, Head(env));
      InterruptsLeave(s, Head(env));
      InterruptsLeave(Put(s1, buffer[0]), Head(Tail(env)));
      var r := WriteChar(s, buffer[0], onlcr, env);
      CharsFit(r.s, buffer[1..], onlcr, r.env);
    }
  }
}
