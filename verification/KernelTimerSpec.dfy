/** Kernel timers on an unbounded tick count: when each started timer calls its handler, over any
    run of starts, cancellations and clock ticks, with handlers that start further timers. */
module KernelTimerSpec {

  /** Delays a 32-bit tick count can tell from the past. */
  type Delay = d: nat | 1 <= d < 0x8000_0000 witness 1

  /** What a timer does when it elapses. */
  datatype Call = Call(handler: nat, param: int, context: int)

  datatype Request = Request(delay: Delay, call: Call)

  /** A pending timer; `id` stands for the address of its record and serves as the handle. */
  datatype Timer = Timer(id: nat, deadline: nat, call: Call)

  /** A handler call that was made at a tick. */
  datatype Fired = Fired(id: nat, tick: nat, call: Call)

  /** A start that was made at a tick. */
  datatype Started = Started(tick: nat, request: Request)

  /** The tick count, the pending timers in list order, the calls made, and for the record every
      start made (timer `i` is the `i`-th) and the timers that were cancelled while pending. */
  datatype State = State(now: nat, queue: seq<Timer>, log: seq<Fired>, starts: seq<Started>, cancelled: set<nat>)

  /** What a handler can see of a call: the timer, the 32-bit tick count, and its own arguments. */
  datatype Observation = Observation(id: nat, ticks: nat, call: Call)

  /** What the handler just called asks for, given all that the handlers have seen so far. */
  type Reaction = seq<Observation> -> seq<Request>

  function Observed(log: seq<Fired>): (o: seq<Observation>)
    ensures |o| == |log|
    ensures forall i :: 0 <= i < |log| ==>
      o[i] == Observation(log[i].id, log[i].tick % 0x1_0000_0000, Call(log[i].call.handler, log[i].call.param, log[i].call.context))
  {
    seq(|log|, i requires 0 <= i < |log| => Observation(log[i].id, log[i].tick % 0x1_0000_0000, log[i].call))
  }

  const INIT := State(0, [], [], [], {})

  // ---------- the operations ----------

  /** The place of a new timer: behind every timer that elapses no later. */
  function Place(queue: seq<Timer>, deadline: nat): (k: nat)
    ensures k <= |queue|
    ensures forall i :: 0 <= i < k ==> queue[i].deadline <= deadline
    ensures k < |queue| ==> deadline < queue[k].deadline
  {
    if queue == [] || deadline < queue[0].deadline then 0 else 1 + Place(queue[1..], deadline)
  }

  function Insert(queue: seq<Timer>, t: Timer): seq<Timer> {
    var k := Place(queue, t.deadline);
    queue[..k] + [t] + queue[k..]
  }

  function Start(s: State, r: Request): State {
    var t := Timer(|s.starts|, s.now + r.delay, r.call);
    s.(queue := Insert(s.queue, t), starts := s.starts + [Started(s.now, r)])
  }

  function StartAll(s: State, rs: seq<Request>): State
    decreases |rs|
  {
    if rs == [] then s else StartAll(Start(s, rs[0]), rs[1..])
  }

  /** Where the timer stands in the queue, or the length of the queue. */
  function Find(queue: seq<Timer>, id: nat): (k: nat)
    ensures k <= |queue|
    ensures forall i :: 0 <= i < k ==> queue[i].id != id
    ensures k < |queue| ==> queue[k].id == id
  {
    if queue == [] || queue[0].id == id then 0 else 1 + Find(queue[1..], id)
  }

  function Cancel(s: State, id: nat): State {
    var k := Find(s.queue, id);
    if k == |s.queue| then s
    else s.(queue := Without(s.queue, k), cancelled := s.cancelled + {id})
  }

  /** The number of timers that have elapsed. */
  function Due(queue: seq<Timer>, now: nat): nat {
    if queue == [] then 0 else (if queue[0].deadline <= now then 1 else 0) + Due(queue[1..], now)
  }

  lemma {:induction false} DueAppend(a: seq<Timer>, b: seq<Timer>, now: nat)
    ensures Due(a + b, now) == Due(a, now) + Due(b, now)
  {
    if a == [] {
      assert a + b == b;
    } else {
      assert (a + b)[1..] == a[1..] + b;
      DueAppend(a[1..], b, now);
    }
  }

  lemma DueAfterStart(s: State, r: Request)
    ensures Due(Start(s, r).queue, s.now) == Due(s.queue, s.now)
  {
    var t := Timer(|s.starts|, s.now + r.delay, r.call);
    var k := Place(s.queue, t.deadline);
    assert s.queue == s.queue[..k] + s.queue[k..];
    DueAppend(s.queue[..k], s.queue[k..], s.now);
    DueAppend(s.queue[..k] + [t], s.queue[k..], s.now);
    DueAppend(s.queue[..k], [t], s.now);
  }

  lemma {:induction false} DueAfterStarts(s: State, rs: seq<Request>)
    ensures StartAll(s, rs).now == s.now
    ensures Due(StartAll(s, rs).queue, s.now) == Due(s.queue, s.now)
    decreases |rs|
  {
    if rs != [] {
      DueAfterStart(s, rs[0]);
      DueAfterStarts(Start(s, rs[0]), rs[1..]);
    }
  }

  /** Take the first timer off the queue and record the call of its handler. */
  function TakeFirst(s: State): State
    requires s.queue != []
  {
    s.(queue := s.queue[1..], log := s.log + [Fired(s.queue[0].id, s.now, s.queue[0].call)])
  }

  /** The timers that the handler just called starts. */
  function Response(s: State, react: Reaction): seq<Request> {
    react(Observed(s.log))
  }

  /** Call the handlers of all elapsed timers; each may start timers. */
  function Poll(s: State, react: Reaction): State
    decreases Due(s.queue, s.now)
  {
    if s.queue == [] || s.now < s.queue[0].deadline then s
    else
      var t := TakeFirst(s);
      DueAfterStarts(t, Response(t, react));
      Poll(StartAll(t, Response(t, react)), react)
  }

  function Tick(s: State, react: Reaction): State {
    Poll(s.(now := s.now + 1), react)
  }

  datatype Op = StartOp(request: Request) | CancelOp(id: nat) | TickOp

  function Step(s: State, op: Op, react: Reaction): State {
    match op
    case StartOp(r) => Start(s, r)
    case CancelOp(id) => Cancel(s, id)
    case TickOp => Tick(s, react)
  }

  function RunFrom(s: State, ops: seq<Op>, react: Reaction): State
    decreases |ops|
  {
    if ops == [] then s else RunFrom(Step(s, ops[0], react), ops[1..], react)
  }

  // ---------- what every state keeps ----------

  /** The order in which calls are due: by tick, and among equal ticks by start. */
  predicate Earlier(tick: nat, id: nat, tick': nat, id': nat) {
    tick < tick' || (tick == tick' && id < id')
  }

  ghost predicate QueueOrdered(queue: seq<Timer>) {
    forall i, j :: 0 <= i < j < |queue| ==>
      Earlier(queue[i].deadline, queue[i].id, queue[j].deadline, queue[j].id)
  }

  ghost predicate LogOrdered(log: seq<Fired>) {
    forall i, j :: 0 <= i < j < |log| ==> Earlier(log[i].tick, log[i].id, log[j].tick, log[j].id)
  }

  ghost predicate LogBeforeQueue(log: seq<Fired>, queue: seq<Timer>) {
    forall i, j :: 0 <= i < |log| && 0 <= j < |queue| ==>
      Earlier(log[i].tick, log[i].id, queue[j].deadline, queue[j].id)
  }

  function Elapses(st: Started): nat {
    st.tick + st.request.delay
  }

  /** Timer `id` was started for that tick and call and was not cancelled. */
  ghost predicate Genuine(starts: seq<Started>, cancelled: set<nat>, id: nat, tick: nat, call: Call) {
    && id < |starts| && id !in cancelled
    && tick == Elapses(starts[id]) && call == starts[id].request.call
  }

  /** Pending timers are genuine; the tick count has not passed them, nor is it 2^31 ticks away. */
  ghost predicate QueueGenuine(s: State) {
    forall i :: 0 <= i < |s.queue| ==>
      && Genuine(s.starts, s.cancelled, s.queue[i].id, s.queue[i].deadline, s.queue[i].call)
      && s.now <= s.queue[i].deadline < s.now + 0x8000_0000
  }

  ghost predicate LogGenuine(s: State) {
    forall i :: 0 <= i < |s.log| ==>
      && Genuine(s.starts, s.cancelled, s.log[i].id, s.log[i].tick, s.log[i].call)
      && s.log[i].tick <= s.now
  }

  ghost predicate Pending(queue: seq<Timer>, id: nat) {
    exists i :: 0 <= i < |queue| && queue[i].id == id
  }

  ghost predicate HasFired(log: seq<Fired>, id: nat) {
    exists i :: 0 <= i < |log| && log[i].id == id
  }

  /** No timer gets lost. */
  ghost predicate Accounted(s: State) {
    forall id :: 0 <= id < |s.starts| && id !in s.cancelled ==> Pending(s.queue, id) || HasFired(s.log, id)
  }

  /** What holds at any time, also in the middle of a poll. */
  ghost predicate Consistent(s: State) {
    && QueueOrdered(s.queue) && LogOrdered(s.log) && LogBeforeQueue(s.log, s.queue)
    && QueueGenuine(s) && LogGenuine(s) && Accounted(s)
    && (forall id :: id in s.cancelled ==> id < |s.starts|)
  }

  /** Between polls no pending timer has elapsed. */
  ghost predicate Settled(s: State) {
    Consistent(s) && NothingDue(s)
  }

  ghost predicate NothingDue(s: State) {
    forall i :: 0 <= i < |s.queue| ==> s.now < s.queue[i].deadline
  }

  lemma InsertedAt(queue: seq<Timer>, t: Timer, i: nat)
    requires i <= |queue|
    ensures |Insert(queue, t)| == |queue| + 1
    ensures var k := Place(queue, t.deadline);
      Insert(queue, t)[i] == if i < k then queue[i] else if i == k then t else queue[i - 1]
  {
  }

  lemma InsertKeepsOrder(queue: seq<Timer>, t: Timer)
    requires QueueOrdered(queue)
    requires forall i :: 0 <= i < |queue| ==> queue[i].id < t.id
    ensures QueueOrdered(Insert(queue, t))
  {
    var q, k := Insert(queue, t), Place(queue, t.deadline);
    forall i, j | 0 <= i < j < |q| ensures Earlier(q[i].deadline, q[i].id, q[j].deadline, q[j].id) {
      InsertedAt(queue, t, i);
      InsertedAt(queue, t, j);
      if i == k && k < j - 1 {
        assert Earlier(queue[k].deadline, queue[k].id, queue[j - 1].deadline, queue[j - 1].id);
      }
    }
  }

  lemma StartKeepsOrder(s: State, r: Request)
    requires QueueOrdered(s.queue) && forall i :: 0 <= i < |s.queue| ==> s.queue[i].id < |s.starts|
    ensures QueueOrdered(Start(s, r).queue)
  {
    var timer := Timer(|s.starts|, s.now + r.delay, r.call);
    InsertKeepsOrder(s.queue, timer);
    assert Start(s, r).queue == Insert(s.queue, timer);
  }

  lemma StartKeepsQueue(s: State, r: Request)
    requires Consistent(s)
    ensures LogBeforeQueue(Start(s, r).log, Start(s, r).queue) && QueueGenuine(Start(s, r))
    ensures NothingDue(s) ==> NothingDue(Start(s, r))
  {
    var t := Start(s, r);
    var timer := Timer(|s.starts|, s.now + r.delay, r.call);
    forall i | 0 <= i < |t.queue|
      ensures t.queue[i] == timer || t.queue[i] in s.queue
    {
      InsertedAt(s.queue, timer, i);
    }
  }

  lemma StartKeepsAccounts(s: State, r: Request)
    requires Consistent(s)
    ensures LogGenuine(Start(s, r)) && Accounted(Start(s, r))
  {
    var t := Start(s, r);
    var timer := Timer(|s.starts|, s.now + r.delay, r.call);
    var k := Place(s.queue, timer.deadline);
    forall id | 0 <= id < |t.starts| && id !in t.cancelled ensures Pending(t.queue, id) || HasFired(t.log, id) {
      if id == |s.starts| {
        InsertedAt(s.queue, timer, k);
      } else if Pending(s.queue, id) {
        StaysPending(s.queue, timer, id);
      }
    }
  }

  lemma StaysPending(queue: seq<Timer>, timer: Timer, id: nat)
    requires Pending(queue, id)
    ensures Pending(Insert(queue, timer), id)
  {
    var i :| 0 <= i < |queue| && queue[i].id == id;
    var j := if i < Place(queue, timer.deadline) then i else i + 1;
    InsertedAt(queue, timer, j);
    assert Insert(queue, timer)[j].id == id;
  }

  lemma StartKeeps(s: State, r: Request)
    requires Consistent(s)
    ensures Consistent(Start(s, r))
    ensures Settled(s) ==> Settled(Start(s, r))
  {
    StartKeepsOrder(s, r);
    StartKeepsQueue(s, r);
    StartKeepsAccounts(s, r);
  }

  lemma {:induction false} StartAllKeeps(s: State, rs: seq<Request>)
    requires Consistent(s)
    ensures Consistent(StartAll(s, rs)) && StartAll(s, rs).now == s.now
    decreases |rs|
  {
    if rs != [] {
      StartKeeps(s, rs[0]);
      StartAllKeeps(Start(s, rs[0]), rs[1..]);
    }
  }

  function Without(queue: seq<Timer>, k: nat): (q: seq<Timer>)
    requires k < |queue|
    ensures |q| == |queue| - 1
    ensures forall i {:trigger q[i]} :: 0 <= i < |q| ==> q[i] == queue[if i < k then i else i + 1]
  {
    queue[..k] + queue[k + 1..]
  }

  /** Each pending timer stands in the queue once, and has not fired. */
  lemma PendingOnce(s: State, k: nat)
    requires Consistent(s) && k < |s.queue|
    ensures !Pending(Without(s.queue, k), s.queue[k].id) && !HasFired(s.log, s.queue[k].id)
  {
    var id := s.queue[k].id;
    forall i | 0 <= i < |s.queue| && i != k ensures s.queue[i].id != id {
      var a, b := if i < k then i else k, if i < k then k else i;
      assert Earlier(s.queue[a].deadline, s.queue[a].id, s.queue[b].deadline, s.queue[b].id);
    }
  }

  lemma WithoutKeepsOrder(queue: seq<Timer>, k: nat)
    requires QueueOrdered(queue) && k < |queue|
    ensures QueueOrdered(Without(queue, k))
  {
    var q := Without(queue, k);
    forall i, j | 0 <= i < j < |q| ensures Earlier(q[i].deadline, q[i].id, q[j].deadline, q[j].id) {
      var a, b := if i < k then i else i + 1, if j < k then j else j + 1;
      assert Earlier(queue[a].deadline, queue[a].id, queue[b].deadline, queue[b].id);
    }
  }

  lemma CancelKeepsQueue(s: State, id: nat)
    requires Settled(s) && Find(s.queue, id) < |s.queue|
    ensures var t := Cancel(s, id);
      && QueueOrdered(t.queue) && LogBeforeQueue(t.log, t.queue) && QueueGenuine(t) && NothingDue(t)
  {
    var t, k := Cancel(s, id), Find(s.queue, id);
    PendingOnce(s, k);
    WithoutKeepsOrder(s.queue, k);
    forall i | 0 <= i < |t.queue| ensures t.queue[i].id != id && t.queue[i] in s.queue {
    }
  }

  lemma CancelKeepsAccounts(s: State, id: nat)
    requires Settled(s) && Find(s.queue, id) < |s.queue|
    ensures LogGenuine(Cancel(s, id)) && Accounted(Cancel(s, id))
  {
    var t, k := Cancel(s, id), Find(s.queue, id);
    PendingOnce(s, k);
    forall other | 0 <= other < |t.starts| && other !in t.cancelled
      ensures Pending(t.queue, other) || HasFired(t.log, other)
    {
      if Pending(s.queue, other) {
        var i :| 0 <= i < |s.queue| && s.queue[i].id == other;
        assert t.queue[if i < k then i else i - 1].id == other;
      }
    }
  }

  lemma CancelKeeps(s: State, id: nat)
    requires Settled(s)
    ensures Settled(Cancel(s, id))
  {
    if Find(s.queue, id) < |s.queue| {
      CancelKeepsQueue(s, id);
      CancelKeepsAccounts(s, id);
    }
  }

  lemma TakeFirstKeeps(s: State)
    requires Consistent(s) && s.queue != [] && s.queue[0].deadline == s.now
    ensures Consistent(TakeFirst(s))
  {
    var t := TakeFirst(s);
    forall id | 0 <= id < |t.starts| && id !in t.cancelled ensures Pending(t.queue, id) || HasFired(t.log, id) {
      if Pending(s.queue, id) {
        var i :| 0 <= i < |s.queue| && s.queue[i].id == id;
        if i == 0 {
          assert t.log[|s.log|].id == id;
        } else {
          assert t.queue[i - 1].id == id;
        }
      } else {
        var i :| 0 <= i < |s.log| && s.log[i].id == id;
        assert t.log[i].id == id;
      }
    }
  }

  /** A poll settles the timers. */
  lemma {:induction false} PollSettles(s: State, react: Reaction)
    requires Consistent(s)
    ensures Settled(Poll(s, react)) && Poll(s, react).now == s.now
    decreases Due(s.queue, s.now)
  {
    if s.queue != [] && s.queue[0].deadline <= s.now {
      var t := TakeFirst(s);
      DueAfterStarts(t, Response(t, react));
      TakeFirstKeeps(s);
      StartAllKeeps(t, Response(t, react));
      PollSettles(StartAll(t, Response(t, react)), react);
    }
  }

  lemma StepKeeps(s: State, op: Op, react: Reaction)
    requires Settled(s)
    ensures Settled(Step(s, op, react))
    ensures Step(s, op, react).now == if op.TickOp? then s.now + 1 else s.now
  {
    match op
    case StartOp(r) => StartKeeps(s, r);
    case CancelOp(id) => CancelKeeps(s, id);
    case TickOp => PollSettles(s.(now := s.now + 1), react);
  }

  lemma {:induction false} RunKeeps(s: State, ops: seq<Op>, react: Reaction)
    requires Settled(s)
    ensures Settled(RunFrom(s, ops, react))
    decreases |ops|
  {
    if ops != [] {
      StepKeeps(s, ops[0], react);
      RunKeeps(Step(s, ops[0], react), ops[1..], react);
    }
  }

  // ---------- over any run ----------

  /** `t` came after `s`: nothing recorded in `s` has changed. */
  ghost predicate Extends(t: State, s: State) {
    s.starts <= t.starts && s.log <= t.log && s.cancelled <= t.cancelled && s.now <= t.now
  }

  lemma {:induction false} StartAllExtends(s: State, rs: seq<Request>)
    ensures Extends(StartAll(s, rs), s) && StartAll(s, rs).cancelled == s.cancelled
    decreases |rs|
  {
    if rs != [] {
      StartAllExtends(Start(s, rs[0]), rs[1..]);
    }
  }

  lemma {:induction false} PollExtends(s: State, react: Reaction)
    ensures Extends(Poll(s, react), s) && Poll(s, react).cancelled == s.cancelled
    decreases Due(s.queue, s.now)
  {
    if s.queue != [] && s.queue[0].deadline <= s.now {
      var t := TakeFirst(s);
      DueAfterStarts(t, Response(t, react));
      StartAllExtends(t, Response(t, react));
      PollExtends(StartAll(t, Response(t, react)), react);
    }
  }

  lemma StepExtends(s: State, op: Op, react: Reaction)
    ensures Extends(Step(s, op, react), s)
    ensures forall id :: id in Step(s, op, react).cancelled ==> id in s.cancelled || op == CancelOp(id)
  {
    if op == TickOp {
      PollExtends(s.(now := s.now + 1), react);
    }
  }

  lemma {:induction false} RunExtends(s: State, ops: seq<Op>, react: Reaction)
    ensures Extends(RunFrom(s, ops, react), s)
    ensures forall id :: id in RunFrom(s, ops, react).cancelled ==> id in s.cancelled || CancelOp(id) in ops
    decreases |ops|
  {
    if ops != [] {
      StepExtends(s, ops[0], react);
      RunExtends(Step(s, ops[0], react), ops[1..], react);
    }
  }

  lemma {:induction false} RunAppend(s: State, ops: seq<Op>, more: seq<Op>, react: Reaction)
    ensures RunFrom(s, ops + more, react) == RunFrom(RunFrom(s, ops, react), more, react)
    decreases |ops|
  {
    if ops == [] {
      assert ops + more == more;
    } else {
      assert (ops + more)[1..] == ops[1..] + more;
      RunAppend(Step(s, ops[0], react), ops[1..], more, react);
    }
  }

  /** The number of calls made on behalf of timer `id`. */
  ghost function Calls(log: seq<Fired>, id: nat): nat {
    if log == [] then 0 else Calls(log[..|log| - 1], id) + if log[|log| - 1].id == id then 1 else 0
  }

  lemma {:induction false} NoCalls(log: seq<Fired>, id: nat)
    requires !HasFired(log, id)
    ensures Calls(log, id) == 0
  {
    if log != [] {
      NoCalls(log[..|log| - 1], id);
    }
  }

  lemma {:induction false} OneCall(log: seq<Fired>, id: nat, k: nat)
    requires k < |log| && log[k].id == id
    requires forall i :: 0 <= i < |log| && i != k ==> log[i].id != id
    ensures Calls(log, id) == 1
  {
    var rest := log[..|log| - 1];
    if k == |log| - 1 {
      NoCalls(rest, id);
    } else {
      OneCall(rest, id, k);
    }
  }

  /** What has become of a timer, as far as its handler is concerned: it was called once, at the
      tick due, if that tick has come and the timer was not cancelled before; else not at all. */
  ghost predicate CalledOnTime(s: State, id: nat)
    requires id < |s.starts|
  {
    var st := s.starts[id];
    if id !in s.cancelled && Elapses(st) <= s.now then
      Calls(s.log, id) == 1 && Fired(id, Elapses(st), st.request.call) in s.log
    else
      Calls(s.log, id) == 0
  }

  lemma SettledIsOnTime(s: State, id: nat)
    requires Settled(s) && id < |s.starts|
    ensures CalledOnTime(s, id)
  {
    if HasFired(s.log, id) {
      var k :| 0 <= k < |s.log| && s.log[k].id == id;
      forall i | 0 <= i < |s.log| && i != k ensures s.log[i].id != id {
        var a, b := if i < k then i else k, if i < k then k else i;
        assert Earlier(s.log[a].tick, s.log[a].id, s.log[b].tick, s.log[b].id);
      }
      OneCall(s.log, id, k);
    } else {
      NoCalls(s.log, id);
    }
  }

  /** The main result, for the timers started by handlers as well as by others: after any run,
      every timer ever started has been called exactly when it should, and the calls were made in
      the order of their ticks and, within a tick, of their starts. */
  lemma EveryTimerOnTime(ops: seq<Op>, react: Reaction, id: nat)
    requires id < |RunFrom(INIT, ops, react).starts|
    ensures CalledOnTime(RunFrom(INIT, ops, react), id)
    ensures LogOrdered(RunFrom(INIT, ops, react).log)
  {
    RunKeeps(INIT, ops, react);
    SettledIsOnTime(RunFrom(INIT, ops, react), id);
  }

  lemma RunThrough(before: seq<Op>, op: Op, after: seq<Op>, react: Reaction)
    ensures RunFrom(INIT, before + [op] + after, react)
         == RunFrom(Step(RunFrom(INIT, before, react), op, react), after, react)
  {
    RunAppend(INIT, before + [op], after, react);
    RunAppend(INIT, before, [op], react);
    var s := RunFrom(INIT, before, react);
    assert RunFrom(s, [op], react) == RunFrom(Step(s, op, react), [], react);
  }

  /** A timer started at some tick and not cancelled in the rest of the run is called exactly once,
      `delay` ticks later. */
  lemma UncancelledTimerFires(before: seq<Op>, r: Request, after: seq<Op>, react: Reaction)
    requires CancelOp(|RunFrom(INIT, before, react).starts|) !in after
    ensures var s := RunFrom(INIT, before, react);
      var e := RunFrom(INIT, before + [StartOp(r)] + after, react);
      var id, at := |s.starts|, s.now + r.delay;
      if at <= e.now then Calls(e.log, id) == 1 && Fired(id, at, r.call) in e.log
      else Calls(e.log, id) == 0
  {
    var s := RunFrom(INIT, before, react);
    var id := |s.starts|;
    RunThrough(before, StartOp(r), after, react);
    NotCancelledYet(before, react);
    var t := Start(s, r);
    RunExtends(t, after, react);
    var e := RunFrom(t, after, react);
    assert e.starts[id] == t.starts[id] == Started(s.now, r);
    EveryTimerOnTime(before + [StartOp(r)] + after, react, id);
  }

  lemma NotCancelledYet(ops: seq<Op>, react: Reaction)
    ensures var s := RunFrom(INIT, ops, react); |s.starts| !in s.cancelled
  {
    RunKeeps(INIT, ops, react);
  }

  /** A timer cancelled before its tick is never called, whatever happens afterwards. */
  lemma CancelledTimerNeverFires(before: seq<Op>, id: nat, after: seq<Op>, react: Reaction)
    requires var s := RunFrom(INIT, before, react);
      id < |s.starts| && s.now < Elapses(s.starts[id])
    ensures Calls(RunFrom(INIT, before + [CancelOp(id)] + after, react).log, id) == 0
  {
    var s := RunFrom(INIT, before, react);
    RunThrough(before, CancelOp(id), after, react);
    RunKeeps(INIT, before, react);
    CancelTakesEffect(s, id);
    RunExtends(Cancel(s, id), after, react);
    EveryTimerOnTime(before + [CancelOp(id)] + after, react, id);
  }

  lemma CancelTakesEffect(s: State, id: nat)
    requires Settled(s) && id < |s.starts| && s.now < Elapses(s.starts[id])
    ensures id in Cancel(s, id).cancelled && Cancel(s, id).starts == s.starts
  {
    if id !in s.cancelled {
      assert !HasFired(s.log, id);
      assert Pending(s.queue, id);
    }
  }

  /** Cancelling a timer after its tick changes nothing. */
  lemma LateCancelIsIgnored(before: seq<Op>, id: nat, react: Reaction)
    requires var s := RunFrom(INIT, before, react);
      id < |s.starts| && Elapses(s.starts[id]) <= s.now
    ensures Cancel(RunFrom(INIT, before, react), id) == RunFrom(INIT, before, react)
  {
    RunKeeps(INIT, before, react);
  }

  // ---------- what the handlers see, and what they ask for ----------

  lemma {:induction false} OnlyCall(log: seq<Fired>, id: nat, k: nat)
    requires Calls(log, id) == 1 && k < |log| && log[k].id == id
    ensures forall i :: 0 <= i < |log| && i != k ==> log[i].id != id
  {
    var rest, last := log[..|log| - 1], |log| - 1;
    if k == last {
      forall i | 0 <= i < last ensures log[i].id != id {
        assert rest[i] == log[i];
        if log[i].id == id { SomeCall(rest, id, i); }
      }
    } else {
      SomeCall(rest, id, k);
      OnlyCall(rest, id, k);
      assert forall i :: 0 <= i < last ==> rest[i] == log[i];
    }
  }

  lemma {:induction false} SomeCall(log: seq<Fired>, id: nat, k: nat)
    requires k < |log| && log[k].id == id
    ensures Calls(log, id) >= 1
  {
    if k < |log| - 1 {
      SomeCall(log[..|log| - 1], id, k);
    }
  }

  /** The handler of an uncancelled timer sees itself called once: with its own arguments, and at the tick
      count it waited for. */
  lemma HandlerIsCalled(before: seq<Op>, r: Request, after: seq<Op>, react: Reaction) returns (k: nat)
    requires var s := RunFrom(INIT, before, react);
      CancelOp(|s.starts|) !in after && s.now + r.delay <= RunFrom(INIT, before + [StartOp(r)] + after, react).now
    ensures var s := RunFrom(INIT, before, react);
      var seen := Observed(RunFrom(INIT, before + [StartOp(r)] + after, react).log);
      && k < |seen| && seen[k].id == |s.starts| && seen[k].ticks == (s.now + r.delay) % 0x1_0000_0000
      && seen[k].call.handler == r.call.handler && seen[k].call.param == r.call.param
      && seen[k].call.context == r.call.context
      && forall i :: 0 <= i < |seen| && i != k ==> seen[i].id != |s.starts|
  {
    var s := RunFrom(INIT, before, react);
    var e := RunFrom(INIT, before + [StartOp(r)] + after, react);
    UncancelledTimerFires(before, r, after, react);
    k :| 0 <= k < |e.log| && e.log[k] == Fired(|s.starts|, s.now + r.delay, r.call);
    OnlyCall(e.log, |s.starts|, k);
  }

  /** The number of ticks in a run. */
  function Ticks(ops: seq<Op>): nat {
    if ops == [] then 0 else (if ops[0].TickOp? then 1 else 0) + Ticks(ops[1..])
  }

  lemma {:induction false} StartAllIs(s: State, rs: seq<Request>)
    ensures StartAll(s, rs).now == s.now && StartAll(s, rs).log == s.log
    ensures StartAll(s, rs).starts == s.starts + Made(rs, s.now)
    decreases |rs|
  {
    if rs != [] {
      StartAllIs(Start(s, rs[0]), rs[1..]);
      assert Made(rs, s.now) == [Started(s.now, rs[0])] + Made(rs[1..], s.now);
    }
  }

  /** Requests as starts made at a tick. */
  function Made(rs: seq<Request>, now: nat): (starts: seq<Started>)
    ensures |starts| == |rs| && forall i :: 0 <= i < |rs| ==> starts[i] == Started(now, rs[i])
  {
    seq(|rs|, i requires 0 <= i < |rs| => Started(now, rs[i]))
  }

  /** The starts asked for by the handlers of the calls from the `k`-th on: each one knows all the calls up
      to its own. */
  function AskedFor(seen: seq<Observation>, k: nat, now: nat, react: Reaction): seq<Started>
    decreases |seen| - k
  {
    if k >= |seen| then [] else Made(react(seen[..k + 1]), now) + AskedFor(seen, k + 1, now, react)
  }

  lemma AskedNext(starts: seq<Started>, seen: seq<Observation>, k: nat, now: nat, react: Reaction)
    requires k < |seen|
    ensures starts + Made(react(seen[..k + 1]), now) + AskedFor(seen, k + 1, now, react)
      == starts + AskedFor(seen, k, now, react)
  {
  }

  lemma ObservedPrefix(log: seq<Fired>, first: seq<Fired>)
    requires |first| <= |log| && log[..|first|] == first
    ensures Observed(log)[..|first|] == Observed(first)
  {
    forall i | 0 <= i < |first| ensures log[i] == first[i] {
      assert log[..|first|][i] == log[i];
    }
  }

  /** In a poll every handler called gets all it asks for, in order, and nothing else is started. */
  lemma {:induction false} PollStarts(s: State, react: Reaction)
    ensures var e := Poll(s, react);
      && e.now == s.now && |s.log| <= |e.log| && e.log[..|s.log|] == s.log
      && e.starts == s.starts + AskedFor(Observed(e.log), |s.log|, s.now, react)
    decreases Due(s.queue, s.now)
  {
    if s.queue != [] && s.queue[0].deadline <= s.now {
      var t := TakeFirst(s);
      var u := StartAll(t, Response(t, react));
      DueAfterStarts(t, Response(t, react));
      StartAllIs(t, Response(t, react));
      PollStarts(u, react);
      var e := Poll(u, react);
      ObservedPrefix(e.log, t.log);
      AskedNext(s.starts, Observed(e.log), |s.log|, s.now, react);
      assert e.log[..|s.log|] == t.log[..|s.log|] == s.log;
    } else {
      assert s.log[..|s.log|] == s.log && s.starts + [] == s.starts;
    }
  }

  /** The count of a run is that of its ticks. */
  lemma {:induction false} NowIsTicks(s: State, ops: seq<Op>, react: Reaction)
    ensures RunFrom(s, ops, react).now == s.now + Ticks(ops)
    ensures INIT == State(0, [], [], [], {})
    decreases |ops|
  {
    if ops != [] {
      if ops[0].TickOp? { PollStarts(s.(now := s.now + 1), react); }
      NowIsTicks(Step(s, ops[0], react), ops[1..], react);
    }
  }
}
