/** What is in the blocks over whole runs, in which callers write to what they have. */
module HeapData {
  import opened Words
  import opened HeapSpec
  import opened Heap

  datatype Machine = Machine(m: Memory, s: Bytes)

  datatype Action =
    | Call(op: Op)
    | WriteBlock(p: nat, i: nat, b: Byte) // a caller writes to a block
    | WritePage(p: nat, i: nat, b: Byte)  // or to a page

  /** Callers write only to what they have. */
  predicate Permitted(x: Machine, a: Action) {
    match a
    case Call(op) => Allowed(x.m, op) && Harmless(x.m, op)
    case WriteBlock(p, i, _) => InUse(x.m.h, p) && i < x.m.h.blocks[p].size
    case WritePage(p, i, _) => p in x.m.q.used && i < 4096
  }

  function Changed(s: Bytes, at: nat, b: Byte): Bytes {
    if at < |s| then s[at := b] else s
  }

  function Act(x: Machine, a: Action): Machine
    requires |x.m.h.free| == 7 && Permitted(x, a)
  {
    match a
    case Call(op) => Machine(Apply(x.m, op), if op.ReallocOp? then DataAfter(x.m.h, op.p, op.n, x.s) else x.s)
    case WriteBlock(p, i, b) => x.(s := Changed(x.s, p + HEADER + i, b))
    case WritePage(p, i, b) => x.(s := Changed(x.s, p + i, b))
  }

  /** Everything is in order, and the memory is there. */
  ghost predicate Sound(x: Machine) {
    InOrder(x.m) && x.m.h.limit <= |x.s| && x.m.q.limit <= |x.s|
  }

  /** The owner of block `b` writes to it, or frees it. */
  predicate GivesUp(a: Action, b: nat) {
    match a
    case Call(op) => op == FreeOp(b) || op == ReallocOp(b, 0)
    case WriteBlock(p, _, _) => p == b
    case WritePage(_, _, _) => false
  }

  /** Where block `b` is afterwards: resizing may move it. */
  function Next(x: Machine, a: Action, b: nat): nat
    requires |x.m.h.free| == 7
  {
    if a.Call? && a.op.ReallocOp? && a.op.p == b && Moves(x.m.h, b, a.op.n) then HeapSpec.Malloc(x.m.h, a.op.n).p else b
  }

  /** Block `b` is in use in `x` as block `c` is in `y`, which begins with the same data. */
  ghost predicate SameData(x: Machine, b: nat, y: Machine, c: nat) {
    && InUse(x.m.h, b) && InUse(y.m.h, c) && x.m.h.blocks[b].size <= y.m.h.blocks[c].size
    && b + HEADER + x.m.h.blocks[b].size <= |x.s| && c + HEADER + y.m.h.blocks[c].size <= |y.s|
    && DataAt(y.s, c, x.m.h.blocks[b].size) == DataAt(x.s, b, x.m.h.blocks[b].size)
  }

  lemma SameDataAgain(x: Machine, b: nat, y: Machine, c: nat, z: Machine, d: nat)
    requires SameData(x, b, y, c) && SameData(y, c, z, d)
    ensures SameData(x, b, z, d)
  {
    var n := x.m.h.blocks[b].size;
    assert DataAt(z.s, d, n) == DataAt(z.s, d, y.m.h.blocks[c].size)[..n];
    assert DataAt(y.s, c, n) == DataAt(y.s, c, y.m.h.blocks[c].size)[..n];
  }

  lemma InBounds(x: Machine, b: nat)
    requires Sound(x) && InUse(x.m.h, b)
    ensures b + HEADER + x.m.h.blocks[b].size <= |x.s| && b + HEADER + x.m.h.blocks[b].size <= x.m.h.next
  {
    BlockIsInside(SpansOf(x.m.h.blocks), x.m.h.base, x.m.h.next, b);
  }

  lemma WriteElsewhere(s: Bytes, at: nat, v: Byte, b: nat, size: nat)
    requires b + HEADER + size <= |s| && (at < b + HEADER || b + HEADER + size <= at)
    ensures DataAt(Changed(s, at, v), b, size) == DataAt(s, b, size)
  {
  }

  /** A request for memory leaves the blocks in use as they are. */
  lemma MallocSpares(h: State, n: nat, b: nat)
    requires Good(h) && InUse(h, b) && (n <= 0xFFFF_FFF0 || !HeaderFits(h)) && n < WORD
    ensures var a := HeapSpec.Malloc(h, n); InUse(a.h, b) && a.h.blocks[b] == h.blocks[b] && a.p != b
  {
    if HeapSpec.Malloc(h, n).p == 0 {
      MallocFails(h, n);
      BlockIsInside(SpansOf(h.blocks), h.base, h.next, b);
    } else {
      if n > 0xFFFF_FFF0 { OversizedGranted(h, n); }
      MallocGives(h, n);
    }
  }

  lemma ReallocSpares(x: Machine, p: nat, n: nat, b: nat)
    requires Sound(x) && Permitted(x, Call(ReallocOp(p, n))) && InUse(x.m.h, b) && p != b
    ensures SameData(x, b, Act(x, Call(ReallocOp(p, n))), b)
  {
    InBounds(x, b);
    var h := x.m.h;
    if p == 0 || (n > 0 && h.blocks[p].size < n) {
      MallocSpares(h, n, b);
      if Moves(h, p, n) {
        if n > 0xFFFF_FFF0 { OversizedGranted(h, n); }
        ReallocKeepsData(h, p, n, x.s, b);
      }
    }
  }

  lemma ReallocFollows(x: Machine, b: nat, n: nat)
    requires Sound(x) && Permitted(x, Call(ReallocOp(b, n))) && InUse(x.m.h, b) && n > 0
    ensures SameData(x, b, Act(x, Call(ReallocOp(b, n))), Next(x, Call(ReallocOp(b, n)), b))
  {
    InBounds(x, b);
    var h := x.m.h;
    BlockIsInside(SpansOf(h.blocks), h.base, h.next, b);
    if Moves(h, b, n) {
      if n > 0xFFFF_FFF0 { OversizedGranted(h, n); }
      MallocSpares(h, n, b);
      MovesApart(h, b, n);
      ReallocKeepsData(h, b, n, x.s, b);
    } else if h.blocks[b].size < n {
      ReallocFails(h, b, n, x.s);
    }
  }

  lemma CallKeepsData(x: Machine, op: Op, b: nat)
    requires Sound(x) && Permitted(x, Call(op)) && InUse(x.m.h, b) && !GivesUp(Call(op), b)
    ensures SameData(x, b, Act(x, Call(op)), Next(x, Call(op), b))
  {
    InBounds(x, b);
    match op
    case MallocOp(n) => MallocSpares(x.m.h, n, b);
    case ReallocOp(p, n) => if p == b { ReallocFollows(x, b, n); } else { ReallocSpares(x, p, n, b); }
    case _ =>
  }

  lemma StepKeepsData(x: Machine, a: Action, b: nat)
    requires Sound(x) && Permitted(x, a) && InUse(x.m.h, b) && !GivesUp(a, b)
    ensures SameData(x, b, Act(x, a), Next(x, a, b))
  {
    InBounds(x, b);
    match a
    case Call(op) => CallKeepsData(x, op, b);
    case WriteBlock(p, i, v) =>
      DataApart(x.m.h, p, b);
      WriteElsewhere(x.s, p + HEADER + i, v, b, x.m.h.blocks[b].size);
    case WritePage(p, i, v) =>
      assert IsPage(x.m.q, p);
      WriteElsewhere(x.s, p + i, v, b, x.m.h.blocks[b].size);
  }

  lemma StaysSound(x: Machine, a: Action)
    requires Sound(x) && Permitted(x, a)
    ensures Sound(Act(x, a))
  {
    if a.Call? {
      StepInOrder(x.m, a.op);
      BordersStay(x.m, a.op);
    }
  }

  // ---------- runs ----------

  ghost predicate AllPermitted(x: Machine, run: seq<Action>)
    decreases |run|
  {
    run != [] ==> |x.m.h.free| == 7 && Permitted(x, run[0]) && AllPermitted(Act(x, run[0]), run[1..])
  }

  function After(x: Machine, run: seq<Action>): Machine
    requires AllPermitted(x, run)
    decreases |run|
  {
    if run == [] then x else After(Act(x, run[0]), run[1..])
  }

  /** The owner of the block that is `b` at first keeps it, and writes nothing to it. */
  ghost predicate Kept(x: Machine, run: seq<Action>, b: nat)
    requires AllPermitted(x, run)
    decreases |run|
  {
    run != [] ==> !GivesUp(run[0], b) && Kept(Act(x, run[0]), run[1..], Next(x, run[0], b))
  }

  function Where(x: Machine, run: seq<Action>, b: nat): nat
    requires AllPermitted(x, run)
    decreases |run|
  {
    if run == [] then b else Where(Act(x, run[0]), run[1..], Next(x, run[0], b))
  }

  /** Whatever else is allocated, freed, resized or written to in a run, and however often the block is
      resized itself, whether it moves or there is no memory for it: the data that was in it stays. */
  lemma {:induction false} DataIsKept(x: Machine, run: seq<Action>, b: nat)
    requires Sound(x) && AllPermitted(x, run) && InUse(x.m.h, b) && Kept(x, run, b)
    ensures Sound(After(x, run)) && SameData(x, b, After(x, run), Where(x, run, b))
    decreases |run|
  {
    if run == [] {
      InBounds(x, b);
    } else {
      StaysSound(x, run[0]);
      StepKeepsData(x, run[0], b);
      DataIsKept(Act(x, run[0]), run[1..], Next(x, run[0], b));
      SameDataAgain(x, b, Act(x, run[0]), Next(x, run[0], b), After(x, run), Where(x, run, b));
    }
  }

  /** Over any run a failing realloc leaves the block in use where it is, with all its data, and the
      whole memory as it was. */
  lemma FailedReallocChangesNothing(x: Machine, run: seq<Action>, p: nat, n: nat)
    requires Sound(x) && AllPermitted(x, run)
    requires var y := After(x, run); |y.m.h.free| == 7 && InUse(y.m.h, p) && 0 < n < WORD && HeapSpec.Realloc(y.m.h, p, n).p == 0
    ensures var y := After(x, run);
      && Permitted(y, Call(ReallocOp(p, n)))
      && Act(y, Call(ReallocOp(p, n))) == y.(m := y.m.(h := y.m.h.(reserve := 0)))
  {
    RunStaysSound(x, run);
    var y := After(x, run);
    ReallocFails(y.m.h, p, n, y.s);
    if n > 0xFFFF_FFF0 {
      BlockIsInside(SpansOf(y.m.h.blocks), y.m.h.base, y.m.h.next, p);
      OversizedGranted(y.m.h, n);
    }
  }

  lemma {:induction false} RunStaysSound(x: Machine, run: seq<Action>)
    requires Sound(x) && AllPermitted(x, run)
    ensures Sound(After(x, run))
    decreases |run|
  {
    if run != [] {
      StaysSound(x, run[0]);
      RunStaysSound(Act(x, run[0]), run[1..]);
    }
  }
}
