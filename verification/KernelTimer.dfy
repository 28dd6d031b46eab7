/** The timer driver: 32-bit tick deadlines compared through a signed difference, kept in a doubly
    linked list that handlers insert into while it is being walked. */
module KernelTimer {
  import opened KernelTimerSpec
  import L = PtrList


  /** The record of a pending timer as the driver keeps it; `id` stands for its address. */
  datatype KernelTimerRecord = KernelTimerRecord(id: nat, elapsesAt: nat, call: Call)

  /** `(int) (a - b) > 0` on 32-bit unsigned operands. */
  predicate SignedAfter(a: nat, b: nat) {
    0 < (a - b) % 0x1_0000_0000 < 0x8000_0000
  }

  /** The signed difference tells two deadlines apart as long as they are less than 2^31 apart. */
  lemma SignedAfterIsAfter(a: nat, b: nat)
    requires -0x8000_0000 < a - b < 0x8000_0000
    ensures SignedAfter(a % 0x1_0000_0000, b % 0x1_0000_0000) <==> a > b
  {
    var d := a % 0x1_0000_0000 - b % 0x1_0000_0000;
    var q := a / 0x1_0000_0000 - b / 0x1_0000_0000;
    assert a - b == 0x1_0000_0000 * q + d;
    if a > b {
      RemainderIs(d, a - b, -q);
    } else {
      RemainderIs(d, if a == b then 0 else a - b + 0x1_0000_0000, if a == b then -q else -q - 1);
    }
  }

  lemma RemainderIs(d: int, r: int, q: int)
    requires 0 <= r < 0x1_0000_0000 && d == 0x1_0000_0000 * q + r
    ensures d % 0x1_0000_0000 == r
  {
  }

  /** The deadline as the driver computes it. */
  function ElapsesAt(ticks: nat, delay: nat): nat {
    (ticks + delay) % 0x1_0000_0000
  }

  function Kept(t: Timer): KernelTimerRecord {
    KernelTimerRecord(t.id, t.deadline % 0x1_0000_0000, t.call)
  }

  function KeptAll(queue: seq<Timer>): (k: seq<KernelTimerRecord>)
    ensures |k| == |queue|
  {
    seq(|queue|, i requires 0 <= i < |queue| => Kept(queue[i]))
  }

  /** The handle of timer `id`. */
  ghost function HandleOf(s: State, id: nat): KernelTimerRecord
    requires id < |s.starts|
  {
    Kept(Timer(id, Elapses(s.starts[id]), s.starts[id].request.call))
  }

  lemma KeptInsert(queue: seq<Timer>, t: Timer)
    ensures KeptAll(Insert(queue, t)) == L.Inserted(KeptAll(queue), Place(queue, t.deadline), Kept(t))
  {
  }

  class Timers {
    const list: L.PtrList<KernelTimerRecord>
    /** What the handlers do, given all they have seen so far. */
    const react: Reaction
    var ticks: nat
    var uptime: nat
    var nextAddress: nat
    var calls: seq<Observation>
    ghost var s: State
    /** The list and its elements. */
    ghost var repr: set<object>

    ghost predicate ListValid()
      reads this, repr
    {
      && this !in repr && list in repr && (forall i :: 0 <= i < |list.elements| ==> list.elements[i] in repr)
      && list.Valid()
      && list.contents == KeptAll(s.queue)
    }

    ghost predicate Valid()
      reads this, repr
    {
      && ListValid()
      && ticks == s.now % 0x1_0000_0000
      && nextAddress == |s.starts|
      && uptime == Seconds(s.now)
      && calls == Observed(s.log)
      && InWindow(s)
    }

    constructor (react: Reaction)
      ensures Valid() && s == INIT && this.react == react && fresh(repr)
    {
      list := new L.PtrList();
      this.react := react;
      ticks, uptime, nextAddress, calls := 0, 0, 0, [];
      s := INIT;
      repr := {list};
    }

    /** The element at a place in the list; behind the last one there is none. */
    ghost function ElementAt(k: nat): L.PtrListElement?<KernelTimerRecord>
      reads this, list
      requires k <= |list.elements|
    {
      if k == |list.elements| then null else list.elements[k]
    }

    /** Walk to the first timer that elapses later. */
    method WalkToPlace(elapsesAt: nat, ghost deadline: nat)
      returns (prevElement: L.PtrListElement?<KernelTimerRecord>, element: L.PtrListElement?<KernelTimerRecord>)
      requires ListValid() && InWindow(s)
      requires elapsesAt == deadline % 0x1_0000_0000
      requires s.now < deadline < s.now + 0x8000_0000
      ensures ListValid() && list.contents == old(list.contents)
      ensures var k := Place(s.queue, deadline);
        element == ElementAt(k) && prevElement == if k == 0 then null else ElementAt(k - 1)
    {
      ghost var k := 0;
      prevElement := null;
      element := list.GetFirst();
      while element != null
        invariant k <= |list.elements| && element == ElementAt(k)
        invariant prevElement == if k == 0 then null else ElementAt(k - 1)
        invariant forall i :: 0 <= i < k ==> s.queue[i].deadline <= deadline
        decreases |list.elements| - k
      {
        var timer2 := L.PtrList.GetPtr(element);
        assert list.elements[k].ptr == list.contents[k];
        SignedAfterIsAfter(s.queue[k].deadline, deadline);
        if SignedAfter(timer2.elapsesAt, elapsesAt) {
          break;
        }
        assert k + 1 < |list.elements| ==> list.elements[k].next == list.elements[k + 1];
        prevElement := element;
        element := L.PtrList.GetNext(element);
        k := k + 1;
      }
      PlaceIs(s.queue, deadline, k);
    }

    /** Put the record of a new timer into the list. */
    method InsertAtPlace(prevElement: L.PtrListElement?<KernelTimerRecord>,
                         element: L.PtrListElement?<KernelTimerRecord>, timer: KernelTimerRecord,
                         ghost k: nat, ghost t: State)
      requires ListValid() && k <= |list.elements|
      requires element == ElementAt(k) && prevElement == if k == 0 then null else ElementAt(k - 1)
      requires KeptAll(t.queue) == L.Inserted(list.contents, k, timer)
      modifies this`s, this`nextAddress, this`repr, repr
      ensures ListValid() && s == t && nextAddress == old(nextAddress) + 1 && fresh(repr - old(repr))
      ensures |list.elements| == |old(list.elements)| + 1
      ensures list.elements == L.Inserted(old(list.elements), k, list.elements[k])
    {
      if element != null {
        list.InsertBefore(element, timer, k);
      } else {
        list.InsertAfter(prevElement, timer, k);
      }
      repr := repr + {list.elements[k]};
      nextAddress := nextAddress + 1;
      s := t;
    }

    /** Insert a new timer in front of the first that elapses later. */
    method StartKernelTimer(delay: Delay, call: Call) returns (handle: KernelTimerRecord, ghost k: nat)
      requires Valid()
      modifies this`s, this`nextAddress, this`repr, repr
      ensures Valid() && s == Start(old(s), Request(delay, call)) && fresh(repr - old(repr))
      ensures handle == Kept(Timer(|old(s).starts|, old(s).now + delay, call))
      ensures handle.id == |old(s).starts| && handle.elapsesAt == (old(s).now + delay) % 0x1_0000_0000 && handle.call == call
      ensures k == Place(old(s).queue, old(s).now + delay) && |list.elements| == |old(list.elements)| + 1
      ensures list.elements == L.Inserted(old(list.elements), k, list.elements[k])
    {
      ghost var s0 := s;
      k := Place(s0.queue, s0.now + delay);
      var elapsesAt := ElapsesAt(ticks, delay);
      var timer := KernelTimerRecord(nextAddress, elapsesAt, call);
      StartRefined(s0, Request(delay, call), ticks, timer);
      InsertSorted(timer, k, s0.now + delay, Start(s0, Request(delay, call)));
      handle := timer;
    }

    /** Put the record of a new timer behind those that elapse no later. */
    method InsertSorted(timer: KernelTimerRecord, ghost k: nat, ghost deadline: nat, ghost t: State)
      requires ListValid() && InWindow(s) && k == Place(s.queue, deadline)
      requires timer.elapsesAt == deadline % 0x1_0000_0000 && s.now < deadline < s.now + 0x8000_0000
      requires KeptAll(t.queue) == L.Inserted(list.contents, k, timer)
      modifies this`s, this`nextAddress, this`repr, repr
      ensures ListValid() && s == t && nextAddress == old(nextAddress) + 1 && fresh(repr - old(repr))
      ensures k <= |old(list.elements)| && |list.elements| == |old(list.elements)| + 1
      ensures list.elements == L.Inserted(old(list.elements), k, list.elements[k])
    {
      var prevElement, element := WalkToPlace(timer.elapsesAt, deadline);
      InsertAtPlace(prevElement, element, timer, k, t);
    }

    /** Take a timer off the list if it is still there. */
    method CancelKernelTimer(handle: KernelTimerRecord)
      requires Valid() && QueueGenuine(s)
      requires handle.id < |s.starts| && handle == HandleOf(s, handle.id)
      modifies this`s, repr
      ensures Valid() && s == Cancel(old(s), handle.id)
    {
      ghost var s0 := s;
      var element, k := list.Find(handle);
      FindRefined(s0, handle, k);
      if element != null {
        list.Remove(element, k);
        s := Cancel(s0, handle.id);
      }
    }

    /** The place of the element a poll goes on with: the first of the list, unless the first one has
        not elapsed; then that of one that has not elapsed either, or none. */
    ghost predicate GoesOnAt(c: nat)
      reads this
    {
      c == 0 || (!FirstDue(s) && c <= |s.queue| && (c < |s.queue| ==> s.now < s.queue[c].deadline))
    }

    /** A start made by a handler does not disturb the poll: the element it goes on with stays. */
    method StartFromHandler(r: Request, ghost c: nat) returns (ghost c': nat)
      requires Valid() && c <= |list.elements| && GoesOnAt(c)
      modifies this`s, this`nextAddress, this`repr, repr
      ensures Valid() && s == Start(old(s), r) && fresh(repr - old(repr))
      ensures c' <= |list.elements| && GoesOnAt(c') && ElementAt(c') == old(ElementAt(c))
    {
      ghost var s0 := s;
      var handle, k := StartKernelTimer(r.delay, r.call);
      c' := if FirstDue(s0) || c < k then c else c + 1;
      StartLeavesFirst(s0, r);
      StartMoves(s0, r, c);
    }

    /** Make the starts a handler asks for, one by one. */
    method StartRequested(requests: seq<Request>, ghost c0: nat) returns (ghost c: nat)
      requires Valid() && c0 <= |list.elements| && GoesOnAt(c0)
      modifies this`s, this`nextAddress, this`repr, repr
      ensures Valid() && s == StartAll(old(s), requests) && fresh(repr - old(repr))
      ensures c <= |list.elements| && GoesOnAt(c) && ElementAt(c) == old(ElementAt(c0))
    {
      c := c0;
      var i := 0;
      while i < |requests|
        invariant 0 <= i <= |requests| && c <= |list.elements|
        invariant Valid() && GoesOnAt(c) && ElementAt(c) == old(ElementAt(c0))
        invariant fresh(repr - old(repr))
        invariant StartAll(s, requests[i..]) == StartAll(old(s), requests)
      {
        c := StartFromHandler(requests[i], c);
        i := i + 1;
      }
    }

    /** Take the first timer, which has elapsed, off the list. */
    method TakeOff(element: L.PtrListElement<KernelTimerRecord>)
      returns (timer: KernelTimerRecord, nextElement: L.PtrListElement?<KernelTimerRecord>)
      requires Valid() && list.elements != [] && element == list.elements[0] && s.queue[0].deadline == s.now
      modifies this`s, this`calls, repr
      ensures Valid() && s == TakeFirst(old(s)) && nextElement == ElementAt(0)
      ensures timer.id == old(s).queue[0].id && timer.call == old(s).queue[0].call
      ensures calls == old(calls) + [Observation(timer.id, ticks, timer.call)]
    {
      assert list.elements[0].ptr == list.contents[0];
      timer := L.PtrList.GetPtr(element);
      nextElement := L.PtrList.GetNext(element);
      list.Remove(element, 0);
      calls := calls + [Observation(timer.id, ticks, timer.call)];
      s := TakeFirst(s);
    }

    /** Take the elapsed timers off the list from the front and call their handlers. */
    method PollKernelTimers()
      requires Valid()
      modifies this`s, this`nextAddress, this`calls, this`repr, repr
      ensures Valid() && s == Poll(old(s), react) && fresh(repr - old(repr))
    {
      ghost var c: nat := 0;
      var element := list.GetFirst();
      while element != null
        invariant Valid() && Poll(s, react) == Poll(old(s), react) && fresh(repr - old(repr))
        invariant c <= |list.elements| && GoesOnAt(c) && element == ElementAt(c)
        decreases Due(s.queue, s.now), |s.queue| - c
      {
        assert list.elements[c].ptr == list.contents[c];
        SignedAfterIsAfter(s.queue[c].deadline, s.now);
        if SignedAfter(L.PtrList.GetPtr(element).elapsesAt, ticks) {
          break;
        }
        ghost var t := TakeFirst(s);
        DueAfterStarts(t, Response(t, react));
        var timer, nextElement := TakeOff(element);
        c := StartRequested(react(calls), 0);
        element := nextElement;
      }
    }

    /** One clock tick: advance the counts (100 ticks a second) and poll the timers. */
    method InterruptHandler()
      requires Valid() && NothingDue(s)
      modifies this, repr
      ensures Valid() && s == Tick(old(s), react) && fresh(repr - old(repr))
    {
      ghost var after := Tick(s, react);
      CountTick();
      assert Poll(s, react) == after;
      PollKernelTimers();
    }

    method CountTick()
      requires Valid() && NothingDue(s)
      modifies this`ticks, this`uptime, this`s
      ensures Valid() && s == old(s).(now := old(s).now + 1)
    {
      ticks := (ticks + 1) % 0x1_0000_0000;
      SumWraps(s.now, 1);
      if ticks % 100 == 0 {
        uptime := uptime + 1;
      }
      s := s.(now := s.now + 1);
    }
  }

  /** Starting a timer puts its record at its place in the list. */
  lemma StartRefined(s: State, r: Request, ticks: nat, timer: KernelTimerRecord)
    requires InWindow(s) && ticks == s.now % 0x1_0000_0000
    requires timer == KernelTimerRecord(|s.starts|, ElapsesAt(ticks, r.delay), r.call)
    ensures timer.elapsesAt == (s.now + r.delay) % 0x1_0000_0000
    ensures timer == Kept(Timer(|s.starts|, s.now + r.delay, r.call))
    ensures var t := Start(s, r);
      && InWindow(t)
      && |t.starts| == |s.starts| + 1 && t.log == s.log && t.now == s.now
      && KeptAll(t.queue) == L.Inserted(KeptAll(s.queue), Place(s.queue, s.now + r.delay), timer)
  {
    var q := Timer(|s.starts|, s.now + r.delay, r.call);
    SumWraps(s.now, r.delay);
    KeptInsert(s.queue, q);
    StartInWindow(s, r);
  }

  lemma StartInWindow(s: State, r: Request)
    requires InWindow(s)
    ensures InWindow(Start(s, r))
  {
    var q := Timer(|s.starts|, s.now + r.delay, r.call);
    forall i | 0 <= i <= |s.queue| ensures Start(s, r).queue[i] == q || Start(s, r).queue[i] in s.queue {
      InsertedAt(s.queue, q, i);
    }
  }

  lemma SumWraps(a: nat, b: nat)
    ensures (a % 0x1_0000_0000 + b) % 0x1_0000_0000 == (a + b) % 0x1_0000_0000
  {
  }

  /** The place is where the walk stops. */
  lemma {:induction false} PlaceIs(queue: seq<Timer>, deadline: nat, k: nat)
    requires k <= |queue|
    requires forall i :: 0 <= i < k ==> queue[i].deadline <= deadline
    requires k < |queue| ==> deadline < queue[k].deadline
    ensures Place(queue, deadline) == k
  {
    if k > 0 {
      PlaceIs(queue[1..], deadline, k - 1);
    }
  }

  /** No deadline has been passed, nor is one 2^31 ticks away. */
  ghost predicate InWindow(s: State) {
    forall i :: 0 <= i < |s.queue| ==> s.now <= s.queue[i].deadline < s.now + 0x8000_0000
  }

  ghost predicate FirstDue(s: State) {
    s.queue != [] && s.queue[0].deadline <= s.now
  }

  /** A new timer goes behind an elapsed first one; if there is none, it makes none. */
  lemma StartLeavesFirst(s: State, r: Request)
    ensures FirstDue(s) ==> Place(s.queue, s.now + r.delay) > 0
    ensures FirstDue(s) <==> FirstDue(Start(s, r))
  {
    var t, k := Timer(|s.starts|, s.now + r.delay, r.call), Place(s.queue, s.now + r.delay);
    InsertedAt(s.queue, t, 0);
    if FirstDue(s) {
      PlaceBehindFirst(s.queue, t.deadline);
      assert Start(s, r).queue[0] == s.queue[0];
    } else {
      assert Start(s, r).queue[0] == t || Start(s, r).queue[0] == s.queue[0];
    }
  }

  lemma PlaceBehindFirst(queue: seq<Timer>, deadline: nat)
    requires queue != [] && queue[0].deadline <= deadline
    ensures Place(queue, deadline) > 0
  {
  }

  /** A timer behind the place of a new one moves back by one. */
  lemma StartMoves(s: State, r: Request, c: nat)
    requires c <= |s.queue|
    ensures var q, k := Start(s, r).queue, Place(s.queue, s.now + r.delay);
      && |q| == |s.queue| + 1
      && (c < |s.queue| ==> q[if c < k then c else c + 1] == s.queue[c])
  {
    var t := Timer(|s.starts|, s.now + r.delay, r.call);
    InsertedAt(s.queue, t, c);
    if c < |s.queue| {
      InsertedAt(s.queue, t, c + 1);
    }
  }

  /** Among the pending timers, the record and the handle identify the same timer. */
  lemma FindRefined(s: State, handle: KernelTimerRecord, k: nat)
    requires QueueGenuine(s) && handle.id < |s.starts| && handle == HandleOf(s, handle.id)
    requires k <= |s.queue| && handle !in KeptAll(s.queue)[..k]
    requires k < |s.queue| ==> KeptAll(s.queue)[k] == handle
    ensures k == Find(s.queue, handle.id)
    ensures k < |s.queue| ==> KeptAll(Cancel(s, handle.id).queue) == L.Without(KeptAll(s.queue), k)
    ensures InWindow(Cancel(s, handle.id))
  {
    assert forall i :: 0 <= i < k ==> KeptAll(s.queue)[..k][i] == Kept(s.queue[i]);
    FindIs(s.queue, handle.id, k);
  }

  lemma {:induction false} FindIs(queue: seq<Timer>, id: nat, k: nat)
    requires k <= |queue| && forall i :: 0 <= i < k ==> queue[i].id != id
    requires k < |queue| ==> queue[k].id == id
    ensures Find(queue, id) == k
  {
    if k > 0 {
      FindIs(queue[1..], id, k - 1);
    }
  }

  /** How often the uptime has been advanced after `n` ticks. */
  function Seconds(n: nat): nat {
    if n == 0 then 0 else Seconds(n - 1) + if (n % 0x1_0000_0000) % 100 == 0 then 1 else 0
  }

  /** Since 2^32 is no multiple of 100, every round of the tick count is counted as 42949673 seconds,
      which are four ticks more. */
  lemma {:induction false} UptimeFormula(n: nat)
    ensures Seconds(n) == 42949673 * (n / 0x1_0000_0000) + (n % 0x1_0000_0000) / 100
  {
    if n > 0 {
      UptimeFormula(n - 1);
      NextTick(n - 1);
    }
  }

  lemma NextTick(n: nat)
    ensures var q, r := n / 0x1_0000_0000, n % 0x1_0000_0000;
      if r == 0xFFFF_FFFF then (n + 1) / 0x1_0000_0000 == q + 1 && (n + 1) % 0x1_0000_0000 == 0
      else (n + 1) / 0x1_0000_0000 == q && (n + 1) % 0x1_0000_0000 == r + 1
  {
  }

  /** How far the uptime is ahead, at every tick: the four ticks of each wrap add up, and in between it may
      be a second early. */
  lemma UptimeAhead(n: nat)
    ensures var wraps, ticks := n / 0x1_0000_0000, n % 0x1_0000_0000;
      Seconds(n) == n / 100 + (4 * wraps + 99 - ticks % 100) / 100
  {
    var wraps, ticks := n / 0x1_0000_0000, n % 0x1_0000_0000;
    UptimeFormula(n);
    WholeSeconds(wraps, ticks);
    Ahead(ticks, 4 * wraps);
  }

  lemma WholeSeconds(wraps: nat, ticks: nat)
    ensures (0x1_0000_0000 * wraps + ticks) / 100 == 42949673 * wraps + (ticks - 4 * wraps) / 100
  {
  }

  lemma Ahead(ticks: nat, gained: nat)
    ensures ticks / 100 == (ticks - gained) / 100 + (gained + 99 - ticks % 100) / 100
  {
  }

  /** The uptime is the number of whole seconds if and only if the tick count is far enough into its second
      to make up for four ticks for every wrap. */
  lemma UptimeRightIff(n: nat)
    ensures Seconds(n) == n / 100 <==> 4 * (n / 0x1_0000_0000) <= n % 0x1_0000_0000 % 100
  {
    UptimeAhead(n);
  }

  /** So it always is before the first wrap; it is a second ahead at the wrap, right again four ticks later,
      and never again right from the twenty-fifth wrap on. */
  lemma UptimeAroundWraps(n: nat)
    ensures n < 0x1_0000_0000 ==> Seconds(n) == n / 100
    ensures n == 0x1_0000_0000 ==> Seconds(n) == n / 100 + 1
    ensures n == 0x1_0000_0004 ==> Seconds(n) == n / 100
    ensures n >= 0x19_0000_0000 ==> Seconds(n) > n / 100
  {
    UptimeAhead(n);
  }
}
