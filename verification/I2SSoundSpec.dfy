/** The double-buffered sound output as a protocol between the driver and a DMA engine that walks
    two linked control blocks: what is played over any run of starts, cancellations, block ends and
    interrupts. */
module I2SSoundSpec {

  datatype DriverState = Idle | Running | Cancelled | Terminating | Error

  /** A chunk of samples as it is fetched; an empty one ends the transfer. */
  type Chunk = seq<int>

  type Block = b: nat | b < 2

  function Other(b: Block): Block {
    1 - b
  }

  /** The engine transfers one block, and knows whether it goes on with the other one. */
  datatype Dma = Stopped | Playing(block: Block, goesOn: bool)

  /** `starting` lasts from the start of the DMA until the driver has tried to fill the second
      buffer; `irq` means that an interrupt is waiting to be serviced. `fetched` and `played` record
      all non-empty chunks ever fetched and all blocks ever played to the end. */
  datatype System = System(
    state: DriverState, nextBuffer: Block, block0: Chunk, block1: Chunk,
    dma: Dma, starting: bool, irq: bool, failed: bool,
    fetched: seq<Chunk>, played: seq<Chunk>)
  {
    function Content(b: Block): Chunk {
      if b == 0 then block0 else block1
    }
  }

  datatype Event =
    | StartFirst(first: Chunk)   // start: fill the first buffer and start the DMA
    | StartSecond(second: Chunk) // start: fill the second buffer
    | Cancel
    | BlockEnd                   // the DMA engine has transferred a block
    | DmaError                   // the DMA engine has stopped in the middle of a block
    | Interrupt(next: Chunk)     // the interrupt handler, which may fetch a chunk

  /** Fill the next buffer with a chunk, unless the chunk is empty. */
  function GetNextChunk(s: System, c: Chunk): System {
    if c == [] then s
    else s.(
      block0 := if s.nextBuffer == 0 then c else s.block0,
      block1 := if s.nextBuffer == 1 then c else s.block1,
      nextBuffer := Other(s.nextBuffer),
      fetched := s.fetched + [c])
  }

  function EndChain(s: System): System {
    s.(state := Terminating, dma := if s.dma.Playing? then s.dma.(goesOn := false) else s.dma)
  }

  /** When the environment lets an event happen. An interrupt is serviced before the block running
      then has ended, and the second buffer is filled before the first block has ended. */
  predicate Enabled(s: System, e: Event) {
    match e
    case StartFirst(_) => s.state == Idle && !s.starting
    case StartSecond(_) => s.starting
    case Cancel => true
    case BlockEnd => s.dma.Playing? && !s.starting && !s.irq
    case DmaError => s.dma.Playing? && !s.starting && !s.irq
    case Interrupt(_) => s.irq
  }

  function Step(s: System, e: Event): System
    requires Enabled(s, e)
  {
    match e
    case StartFirst(c) =>
      var t := GetNextChunk(s.(nextBuffer := 0), c);
      if c == [] then t else t.(state := Running, dma := Playing(0, true), starting := true)
    case StartSecond(c) =>
      var t := GetNextChunk(s, c).(starting := false);
      if c == [] && t.state == Running then EndChain(t) else t
    case Cancel =>
      if s.state == Running then s.(state := Cancelled) else s
    case BlockEnd =>
      s.(played := s.played + [s.Content(s.dma.block)],
         dma := if s.dma.goesOn then Playing(Other(s.dma.block), true) else Stopped,
         irq := true)
    case DmaError =>
      s.(dma := Stopped, irq := true, failed := true)
    case Interrupt(c) =>
      var t := s.(irq := false, failed := false);
      if s.failed then t.(state := Error)
      else
        match s.state
        case Running => if c == [] then EndChain(t) else GetNextChunk(t, c)
        case Cancelled => EndChain(t)
        case Terminating => t.(state := Idle)
        case _ => t
  }

  /** The step that fills a buffer, and the buffer it fills. */
  predicate Fills(s: System, e: Event) {
    || (e.StartFirst? && e.first != [])
    || (e.StartSecond? && e.second != [])
    || (e.Interrupt? && e.next != [] && s.state == Running && !s.failed)
  }

  function Filled(s: System, e: Event): Block {
    if e.StartFirst? then 0 else s.nextBuffer
  }

  /** The one step that goes wrong: a cancelled transfer whose second chunk turns out to be empty.
      The driver leaves the DMA chain going on into the buffer that it did not fill. */
  predicate SlipsThrough(s: System, e: Event) {
    e == StartSecond([]) && s.state == Cancelled
  }

  /** The chunks on their way: the block being played, and the other one if it is filled. */
  function InFlight(s: System): seq<Chunk> {
    if s.dma.Stopped? then []
    else if s.nextBuffer == s.dma.block then [s.Content(s.dma.block), s.Content(Other(s.dma.block))]
    else [s.Content(s.dma.block)]
  }

  /** What holds between the steps of every run without that slip. */
  ghost predicate Good(s: System) {
    && (s.starting ==> s.dma == Playing(0, true) && s.nextBuffer == 1 && !s.irq && s.state in {Running, Cancelled})
    && (s.state != Error && !s.failed ==> s.fetched == s.played + InFlight(s))
    && s.played <= s.fetched
    && (s.failed ==> s.irq && s.dma.Stopped?)
    && match s.state
       case Idle => s.dma.Stopped? && !s.irq
       case Running =>
         s.failed || (s.dma.Playing? && s.dma.goesOn
           // both blocks are filled, except while the second or a just finished one is being refilled
           && (s.nextBuffer == s.dma.block <==> !s.starting && !s.irq))
       case Cancelled =>
         s.failed || (s.dma.Playing? && s.dma.goesOn
           && (s.nextBuffer == s.dma.block <==> !s.starting && !s.irq))
       case Terminating => if s.irq then s.dma.Stopped? else s.dma.Playing? && !s.dma.goesOn && s.nextBuffer != s.dma.block
       case Error => s.dma.Stopped? && !s.irq
  }

  lemma StepKeepsGood(s: System, e: Event)
    requires Good(s) && Enabled(s, e) && !SlipsThrough(s, e)
    ensures Good(Step(s, e))
  {
    var t := Step(s, e);
    if e.BlockEnd? && !s.failed {
      assert s.played + InFlight(s) == t.played + InFlight(t);
    }
    if Fills(s, e) {
      assert s.played + InFlight(s) + [t.Content(Filled(s, e))] == t.played + InFlight(t);
    }
  }

  /** The buffer a step fills is never the one being played. */
  lemma NeverFillsPlayingBuffer(s: System, e: Event)
    requires Good(s) && Enabled(s, e) && Fills(s, e)
    ensures s.dma.Stopped? || s.dma.block != Filled(s, e)
    ensures s.dma.Playing? ==> Step(s, e).dma == s.dma && Step(s, e).Content(s.dma.block) == s.Content(s.dma.block)
  {
  }

  // ---------- runs ----------

  /** The environment allows the events one after the other, and none of them slips through. */
  ghost predicate Allowed(s: System, es: seq<Event>)
    decreases |es|
  {
    es != [] ==> Enabled(s, es[0]) && !SlipsThrough(s, es[0]) && Allowed(Step(s, es[0]), es[1..])
  }

  function RunFrom(s: System, es: seq<Event>): System
    requires Allowed(s, es)
    decreases |es|
  {
    if es == [] then s else RunFrom(Step(s, es[0]), es[1..])
  }

  lemma {:induction false} RunKeepsGood(s: System, es: seq<Event>)
    requires Good(s) && Allowed(s, es)
    ensures Good(RunFrom(s, es))
    decreases |es|
  {
    if es != [] {
      StepKeepsGood(s, es[0]);
      RunKeepsGood(Step(s, es[0]), es[1..]);
    }
  }

  function Powered(block0: Chunk, block1: Chunk): System {
    System(Idle, 0, block0, block1, Stopped, false, false, false, [], [])
  }

  /** In every run from power-up, over any number of starts, what has been played is a prefix of what
      has been fetched, and whenever the device is idle everything fetched has been played. */
  lemma PlayedInFetchOrder(block0: Chunk, block1: Chunk, es: seq<Event>)
    requires Allowed(Powered(block0, block1), es)
    ensures var s := RunFrom(Powered(block0, block1), es);
      && s.played <= s.fetched
      && (s.state == Idle ==> s.played == s.fetched)
      && (s.state != Error && !s.failed ==> |s.fetched| <= |s.played| + 2)
  {
    RunKeepsGood(Powered(block0, block1), es);
  }

  /** How many block ends and interrupts a transfer that is winding down still needs. */
  function Remaining(s: System): nat {
    match s.state
    case Terminating => if s.irq then 1 else 2
    case Cancelled => if s.irq then 3 else 4
    case _ => 0
  }

  predicate WindsDown(s: System) {
    s.state == Cancelled || s.state == Terminating
  }

  /** The steps of the engine and of the interrupt handler. */
  predicate EngineStep(e: Event) {
    e.BlockEnd? || e.Interrupt?
  }

  function EngineSteps(es: seq<Event>): nat {
    if es == [] then 0 else (if EngineStep(es[0]) then 1 else 0) + EngineSteps(es[1..])
  }

  /** Counted are the ends of blocks and the interrupts, each once. */
  lemma {:induction false} EngineStepsCount(es: seq<Event>, e: Event)
    ensures EngineSteps([]) == 0
    ensures EngineSteps(es + [e]) == EngineSteps(es) + if e.BlockEnd? || e.Interrupt? then 1 else 0
    decreases |es|
  {
    if es == [] {
      assert [] + [e] == [e];
      assert [e][1..] == [];
    } else {
      assert (es + [e])[1..] == es[1..] + [e];
      EngineStepsCount(es[1..], e);
    }
  }

  lemma WindingStep(s: System, e: Event)
    requires Good(s) && WindsDown(s) && !s.failed
    requires Enabled(s, e) && !SlipsThrough(s, e) && !e.DmaError?
    ensures var t := Step(s, e);
      && !t.failed && Remaining(t) == Remaining(s) - (if EngineStep(e) then 1 else 0)
      && (WindsDown(t) || (t.state == Idle && Remaining(s) == 1))
      && (!s.starting ==> t.fetched == s.fetched && !t.starting)
  {
  }

  /** After a cancellation or an empty fetch the chunks already fetched still play, then the device
      is idle: at the latest when the engine and the interrupt handler have made `Remaining` steps. */
  lemma {:induction false} WindsDownToIdle(s: System, es: seq<Event>) returns (n: nat)
    requires Good(s) && WindsDown(s) && !s.failed
    requires Allowed(s, es) && (forall e :: e in es ==> !e.DmaError?)
    requires EngineSteps(es) >= Remaining(s)
    ensures n <= |es| && Allowed(s, es[..n])
    ensures var t := RunFrom(s, es[..n]);
      t.state == Idle && t.played == t.fetched && (!s.starting ==> t.fetched == s.fetched)
    decreases |es|
  {
    var e, t := es[0], Step(s, es[0]);
    WindingStep(s, e);
    StepKeepsGood(s, e);
    if t.state == Idle {
      n := 1;
      assert es[..1][1..] == [];
    } else {
      var m := WindsDownToIdle(t, es[1..]);
      n := m + 1;
      assert es[..n][1..] == es[1..][..m];
    }
  }

  /** And these steps are never blocked: while it winds down some step is enabled that brings it on. */
  lemma NeverStuck(s: System)
    requires Good(s) && s.state != Idle && s.state != Error
    ensures Enabled(s, BlockEnd) || Enabled(s, Interrupt([])) || (s.starting && forall c :: Enabled(s, StartSecond(c)))
  {
  }

  // ---------- starting, playing on, and ending ----------

  /** A cancel ends a running transfer; at any other time it does nothing. */
  lemma CancelIs(s: System)
    ensures Step(s, Cancel) == s.(state := if s.state == Running then Cancelled else s.state)
  {
  }

  /** A start with a chunk plays it from the first buffer; with none nothing happens. */
  lemma StartIs(s: System, c: Chunk)
    requires Good(s) && s.state == Idle
    ensures var t := Step(s, StartFirst(c));
      if c == [] then t == s.(nextBuffer := 0)
      else t == s.(state := Running, nextBuffer := 1, block0 := c, dma := Playing(0, true), starting := true,
                   fetched := s.fetched + [c])
  {
  }

  /** The second chunk goes to the second buffer, in a cancelled transfer too. */
  lemma SecondIs(s: System, c: Chunk)
    requires Good(s) && s.starting && c != []
    ensures Step(s, StartSecond(c)) == s.(starting := false, nextBuffer := 0, block1 := c, fetched := s.fetched + [c])
  {
  }

  /** As long as nobody cancels and the engine does not fail, a transfer that gets its chunks runs on, and every
      chunk goes to the buffer that has just been played. */
  lemma RunsOn(s: System, e: Event)
    requires Good(s) && Enabled(s, e) && s.state == Running && !s.failed
    ensures e.BlockEnd? ==> Step(s, e) == s.(played := s.played + [s.Content(s.dma.block)],
      dma := Playing(if s.dma.block == 0 then 1 else 0, true), irq := true)
    ensures e.Interrupt? && e.next != [] ==>
      var t := Step(s, e);
      && t == s.(irq := false, fetched := s.fetched + [e.next], nextBuffer := s.dma.block,
                 block0 := t.block0, block1 := t.block1)
      && t.Content(s.dma.block) == s.Content(s.dma.block)
      && t.Content(if s.dma.block == 0 then 1 else 0) == e.next
  {
  }

  /** What ends it: an empty fetch, and the first interrupt after a cancel. Neither fetches anything; the engine
      stops behind the block it is playing. */
  lemma ChainEnds(s: System, e: Event)
    requires Good(s) && Enabled(s, e) && !s.failed
    requires (s.state == Running && (e == StartSecond([]) || e == Interrupt([]))) || (s.state == Cancelled && e.Interrupt?)
    ensures Step(s, e) == s.(state := Terminating, dma := Playing(s.dma.block, false),
      irq := false, starting := if e.StartSecond? then false else s.starting)
  {
  }

  /** The block it stops behind is played like any other; then the device is idle. */
  lemma LastBlock(s: System, e: Event)
    requires Good(s) && Enabled(s, e) && !s.failed && s.state == Terminating
    ensures e.BlockEnd? ==>
      Step(s, e) == s.(played := s.played + [s.Content(s.dma.block)], dma := Stopped, irq := true)
    ensures e.Interrupt? ==> Step(s, e) == s.(state := Idle, irq := false)
  {
  }

  /** An engine that fails takes the device to its error state at the next interrupt. */
  lemma FailureIs(s: System, c: Chunk)
    requires Good(s) && Enabled(s, DmaError)
    ensures var t := Step(s, DmaError);
      && t == s.(dma := Stopped, irq := true, failed := true)
      && Step(t, Interrupt(c)) == s.(state := Error, dma := Stopped, irq := false, failed := false)
  {
  }

  /** From a cancel on, whatever follows: when the engine and the interrupt handler have made four more steps at
      the most, all chunks fetched have been played and the device is idle. No more chunks are fetched, but for
      the second one if the cancel came before it. */
  lemma CancelEndsInIdle(s: System, es: seq<Event>) returns (n: nat)
    requires Good(s) && s.state == Running && !s.failed
    requires Allowed(Step(s, Cancel), es) && (forall e :: e in es ==> !e.DmaError?) && EngineSteps(es) >= 4
    ensures n <= |es| && Allowed(Step(s, Cancel), es[..n])
    ensures var t := RunFrom(Step(s, Cancel), es[..n]);
      t.state == Idle && t.played == t.fetched && (!s.starting ==> t.fetched == s.fetched)
  {
    StepKeepsGood(s, Cancel);
    n := WindsDownToIdle(Step(s, Cancel), es);
  }

  /** From an empty fetch on: at the latest after two. */
  lemma EmptyFetchEndsInIdle(s: System, e: Event, es: seq<Event>) returns (n: nat)
    requires Good(s) && Enabled(s, e) && s.state == Running && !s.failed && (e == StartSecond([]) || e == Interrupt([]))
    requires Allowed(Step(s, e), es) && (forall d :: d in es ==> !d.DmaError?) && EngineSteps(es) >= 2
    ensures n <= |es| && Allowed(Step(s, e), es[..n])
    ensures var t := RunFrom(Step(s, e), es[..n]);
      t.state == Idle && t.played == t.fetched == s.fetched
  {
    StepKeepsGood(s, e);
    ChainEnds(s, e);
    n := WindsDownToIdle(Step(s, e), es);
  }

  // ---------- the slip ----------

  ghost predicate StaysInOrder(s: System) {
    forall es :: Allowed(s, es) ==> RunFrom(s, es).played <= RunFrom(s, es).fetched
  }

  /** A step keeps playing in fetch order exactly if it is not a cancelled transfer's empty second
      fetch. After that one the engine goes on into the buffer that was not filled. */
  lemma InOrderUnlessItSlips(s: System, e: Event)
    requires Good(s) && Enabled(s, e)
    ensures StaysInOrder(Step(s, e)) <==> !SlipsThrough(s, e)
  {
    if SlipsThrough(s, e) {
      var t := Step(s, e);
      var es := [BlockEnd, Interrupt([]), BlockEnd];
      var t1 := Step(t, BlockEnd);
      var t2 := Step(t1, Interrupt([]));
      var t3 := Step(t2, BlockEnd);
      assert t3.played == t.played + [t.block0] + [t.block1];
      assert es[1..] == [Interrupt([]), BlockEnd] && es[1..][1..] == [BlockEnd] && es[1..][1..][1..] == [];
      assert Allowed(t3, []) && Allowed(t2, [BlockEnd]) && Allowed(t1, es[1..]) && Allowed(t, es);
      assert RunFrom(t2, [BlockEnd]) == t3;
      assert RunFrom(t1, es[1..]) == t3;
      assert RunFrom(t, es) == t3;
      assert |t3.played| > |t3.fetched|;
    } else {
      StepKeepsGood(s, e);
      forall es | Allowed(Step(s, e), es) ensures RunFrom(Step(s, e), es).played <= RunFrom(Step(s, e), es).fetched {
        RunKeepsGood(Step(s, e), es);
      }
    }
  }

  /** A transfer that is cancelled at once gets there: if its second chunk is empty, it slips through, and
      what is played afterwards was never fetched. */
  lemma SlipIsReached(block0: Chunk, block1: Chunk)
    ensures var es := [StartFirst([1]), Cancel];
      && Allowed(Powered(block0, block1), es)
      && var s := RunFrom(Powered(block0, block1), es);
         Enabled(s, StartSecond([])) && SlipsThrough(s, StartSecond([])) && !StaysInOrder(Step(s, StartSecond([])))
  {
    var s0 := Powered(block0, block1);
    var s1 := Step(s0, StartFirst([1]));
    var s2 := Step(s1, Cancel);
    var es := [StartFirst([1]), Cancel];
    assert es[1..] == [Cancel] && es[1..][1..] == [];
    assert RunFrom(s1, [Cancel]) == s2 && RunFrom(s0, es) == s2;
    RunKeepsGood(s0, es);
    InOrderUnlessItSlips(s2, StartSecond([]));
  }
}
