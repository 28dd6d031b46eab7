/** The 1-Wire search as functions on values: what one call does to the search state when the
    bus carries a given set of devices, and what any number of calls enumerate. */
module OneWireSearch {
  import opened OneWireRom

  /** What the search keeps between two calls. */
  datatype SearchState = SearchState(rom: Rom, lastDiscrepancy: nat, lastFamily: nat, lastDevice: bool)

  datatype Outcome = Found(rom: Rom) | NotFound

  /** A walk down the bits: the devices still listening, the bits already written, the address
      being assembled, and the (1-based) last places where 0 was chosen over 1. */
  datatype Walk = Walk(active: set<Rom>, bit: nat, rom: Rom, lastZero: nat, family: nat)

  /** The wired-AND of the listening devices' bits; an idle bus reads 1. */
  predicate BusBit(active: set<Rom>, bit: nat)
    requires bit < ROM_BITS
  {
    forall d <- active :: d[bit]
  }

  predicate BusComplement(active: set<Rom>, bit: nat)
    requires bit < ROM_BITS
  {
    forall d <- active :: !d[bit]
  }

  function Listening(active: set<Rom>, bit: nat, direction: bool): set<Rom>
    requires bit < ROM_BITS
  {
    set d <- active | d[bit] == direction
  }

  /** One turn of the loop, for a bus on which somebody answers. */
  function StepWalk(w: Walk, lastDiscrepancy: nat): Walk
    requires w.bit < ROM_BITS
  {
    var idBit := BusBit(w.active, w.bit);
    var number := w.bit + 1;
    var conflict := idBit == BusComplement(w.active, w.bit);
    var direction :=
      if !conflict then idBit
      else if number < lastDiscrepancy then w.rom[w.bit]
      else number == lastDiscrepancy;
    var tookZero := conflict && !direction;
    Walk(
      Listening(w.active, w.bit, direction),
      number,
      w.rom[w.bit := direction],
      if tookZero then number else w.lastZero,
      if tookZero && number < 9 then number else w.family)
  }

  /** The loop: it runs through all bits, or stops where nobody answers. */
  function RunWalk(w: Walk, lastDiscrepancy: nat): (r: Walk)
    requires w.bit <= ROM_BITS
    ensures w.bit <= r.bit <= ROM_BITS
    decreases ROM_BITS - w.bit
  {
    if w.bit == ROM_BITS || (BusBit(w.active, w.bit) && BusComplement(w.active, w.bit)) then w
    else RunWalk(StepWalk(w, lastDiscrepancy), lastDiscrepancy)
  }

  /** The family code is the first byte of the ROM; an all-zero one is taken for a failure. */
  predicate ZeroFamily(r: Rom) {
    forall i | 0 <= i < 8 :: !r[i]
  }

  function Restarted(r: Rom): SearchState {
    SearchState(r, 0, 0, false)
  }

  /** One call of `search`; `presence` is the answer to the bus reset. */
  function Search(devices: set<Rom>, presence: bool, s: SearchState): (SearchState, Outcome) {
    if s.lastDevice || !presence then
      (Restarted(s.rom), NotFound)
    else
      var w := RunWalk(Walk(devices, 0, s.rom, 0, s.lastFamily), s.lastDiscrepancy);
      if w.bit < ROM_BITS || ZeroFamily(w.rom) then
        (Restarted(w.rom), NotFound)
      else
        (SearchState(w.rom, w.lastZero, w.family, w.lastZero == 0), Found(w.rom))
  }

  // ---------- where a walk can go ----------

  ghost function Under(devices: set<Rom>, r: Rom, n: nat): set<Rom>
    requires n <= ROM_BITS
  {
    set d | d in devices && d[..n] == r[..n]
  }

  /** Some device follows `r` down to bit `i` and has 1 where `r` has 0. */
  ghost predicate LeavesUpwards(devices: set<Rom>, r: Rom, i: nat) {
    exists d :: d in devices && SplitsAt(r, d, i)
  }

  /** The last of the first `n` places (1-based) where `r` takes 0 and another device takes 1. */
  ghost function LastZero(devices: set<Rom>, r: Rom, n: nat): (z: nat)
    requires n <= ROM_BITS
    ensures z <= n
  {
    if n == 0 then 0
    else if LeavesUpwards(devices, r, n - 1) then n
    else LastZero(devices, r, n - 1)
  }

  lemma {:induction false} LastZeroIsLast(devices: set<Rom>, r: Rom, n: nat)
    requires n <= ROM_BITS
    ensures var z := LastZero(devices, r, n);
      && (z > 0 ==> LeavesUpwards(devices, r, z - 1))
      && forall i: nat :: z <= i < n ==> !LeavesUpwards(devices, r, i)
  {
    if n > 0 {
      LastZeroIsLast(devices, r, n - 1);
    }
  }

  lemma {:induction false} LastZeroIsLocal(devices: set<Rom>, r: Rom, s: Rom, n: nat)
    requires n <= ROM_BITS && r[..n] == s[..n]
    ensures LastZero(devices, r, n) == LastZero(devices, s, n)
  {
    if n > 0 {
      var m := n - 1;
      SharedPrefix(r, s, n, m);
      LastZeroIsLocal(devices, r, s, m);
      assert forall d :: SplitsAt(r, d, m) == SplitsAt(s, d, m);
    }
  }

  /** What holds in the middle of a walk among `devices` that started from the address `old`. */
  ghost predicate OnCourse(devices: set<Rom>, start: Rom, w: Walk) {
    && w.bit <= ROM_BITS
    && w.active == Under(devices, w.rom, w.bit) != {}
    && w.rom[w.bit..] == start[w.bit..]
    && w.lastZero == LastZero(devices, w.rom, w.bit)
  }

  /** The bit written where both answers are on the bus. */
  predicate Pick(start: Rom, lastDiscrepancy: nat, bit: nat)
    requires bit < ROM_BITS
  {
    if bit + 1 < lastDiscrepancy then start[bit] else bit + 1 == lastDiscrepancy
  }

  /** One turn writes its own bit of the address only. */
  lemma StepKeepsRest(start: Rom, w: Walk, lastDiscrepancy: nat)
    requires w.bit < ROM_BITS && w.rom[w.bit..] == start[w.bit..]
    ensures var n := StepWalk(w, lastDiscrepancy);
      n.rom[..w.bit] == w.rom[..w.bit] && w.rom[w.bit] == start[w.bit] && n.rom[w.bit + 1..] == start[w.bit + 1..]
  {
    var b := w.bit;
    assert w.rom[b] == w.rom[b..][0] == start[b..][0] == start[b];
    assert w.rom[b..][1..] == w.rom[b + 1..] && start[b..][1..] == start[b + 1..];
  }

  /** One turn keeps the walk on course; it follows the common bit if there is one, and `Pick` if not. */
  lemma StepStaysOnCourse(devices: set<Rom>, start: Rom, w: Walk, lastDiscrepancy: nat)
    requires OnCourse(devices, start, w) && w.bit < ROM_BITS
    ensures RunWalk(w, lastDiscrepancy) == RunWalk(StepWalk(w, lastDiscrepancy), lastDiscrepancy)
    ensures var n := StepWalk(w, lastDiscrepancy);
      && OnCourse(devices, start, n)
      && n.bit == w.bit + 1
      && n.rom[..w.bit] == w.rom[..w.bit]
      && ((forall d :: d in w.active ==> d[w.bit] == n.rom[w.bit])
          || n.rom[w.bit] == Pick(start, lastDiscrepancy, w.bit))
  {
    var b := w.bit;
    var n := StepWalk(w, lastDiscrepancy);
    var d0 :| d0 in w.active;
    assert d0[b] || !d0[b];
    StepKeepsRest(start, w, lastDiscrepancy);
    forall d | d in devices ensures d in n.active <==> d[..b + 1] == n.rom[..b + 1] {
      LongerPrefix(d, n.rom, b);
    }
    assert n.active == Under(devices, n.rom, b + 1);
    LastZeroIsLocal(devices, w.rom, n.rom, b);
    assert forall d :: d in w.active && d[b] && !n.rom[b] ==> SplitsAt(n.rom, d, b);
    assert forall d :: d in devices && SplitsAt(n.rom, d, b) ==> d in w.active && d[b];
  }

  /** As long as some device continues the remembered address, the walk does so too. */
  lemma {:induction false} FollowsStart(devices: set<Rom>, start: Rom, w: Walk, lastDiscrepancy: nat, m: nat)
    returns (f: Walk)
    requires OnCourse(devices, start, w) && w.bit <= m <= ROM_BITS && m < lastDiscrepancy
    requires w.rom[..w.bit] == start[..w.bit]
    requires Under(devices, start, m) != {}
    ensures OnCourse(devices, start, f) && f.bit == m && f.rom[..m] == start[..m]
    ensures RunWalk(w, lastDiscrepancy) == RunWalk(f, lastDiscrepancy)
    decreases m - w.bit
  {
    if w.bit == m {
      f := w;
    } else {
      var b := w.bit;
      StepStaysOnCourse(devices, start, w, lastDiscrepancy);
      var n := StepWalk(w, lastDiscrepancy);
      var d :| d in Under(devices, start, m);
      SharedPrefix(d, start, m, b);
      LongerPrefix(n.rom, start, b);
      f := FollowsStart(devices, start, n, lastDiscrepancy, m);
    }
  }

  ghost predicate SplitsBelow(r: Rom, d: Rom, n: nat) {
    exists i: nat :: i < n && SplitsAt(r, d, i)
  }

  /** Where `Pick` is 0 all the way to `limit`, the walk descends to the least device below it. */
  lemma {:induction false} DescendsToLeast(devices: set<Rom>, start: Rom, w: Walk, lastDiscrepancy: nat, limit: nat)
    returns (f: Walk)
    requires OnCourse(devices, start, w) && w.bit <= limit <= ROM_BITS
    requires forall b: nat :: w.bit <= b < limit ==> !Pick(start, lastDiscrepancy, b)
    ensures OnCourse(devices, start, f) && f.bit == limit && f.rom[..w.bit] == w.rom[..w.bit]
    ensures RunWalk(w, lastDiscrepancy) == RunWalk(f, lastDiscrepancy)
    ensures forall d :: d in w.active ==> d[..limit] == f.rom[..limit] || SplitsBelow(f.rom, d, limit)
    decreases limit - w.bit
  {
    if w.bit == limit {
      f := w;
    } else {
      var b := w.bit;
      StepStaysOnCourse(devices, start, w, lastDiscrepancy);
      var n := StepWalk(w, lastDiscrepancy);
      f := DescendsToLeast(devices, start, n, lastDiscrepancy, limit);
      SharedPrefix(f.rom, n.rom, b + 1, b);
      forall d | d in w.active ensures d[..limit] == f.rom[..limit] || SplitsBelow(f.rom, d, limit) {
        if d[b] == n.rom[b] {
          LongerPrefix(d, n.rom, b);
          assert d in n.active;
        } else {
          assert SplitsAt(f.rom, d, b);
        }
      }
    }
  }

  /** A finished walk has reached one device, and remembers the last place above which others lie. */
  lemma FinishedWalk(devices: set<Rom>, start: Rom, f: Walk)
    requires OnCourse(devices, start, f) && f.bit == ROM_BITS
    ensures f.rom in devices && f.lastZero == LastZero(devices, f.rom, ROM_BITS)
    ensures f.lastZero == 0 <==> forall d :: d in devices ==> !Before(f.rom, d)
  {
    var d :| d in f.active;
    assert d == d[..ROM_BITS] && f.rom == f.rom[..ROM_BITS];
    LastZeroIsLast(devices, f.rom, ROM_BITS);
    if f.lastZero == 0 {
      forall d | d in devices ensures !Before(f.rom, d) {
        assert forall i: nat :: SplitsAt(f.rom, d, i) ==> LeavesUpwards(devices, f.rom, i);
      }
    }
  }

  // ---------- what one call finds ----------

  /** The state left by a call that found `r`: everything the next call relies on. */
  ghost predicate At(s: SearchState, devices: set<Rom>, r: Rom) {
    && r in devices
    && s.rom == r
    && s.lastDiscrepancy == LastZero(devices, r, ROM_BITS)
    && (s.lastDevice <==> s.lastDiscrepancy == 0)
  }

  ghost predicate Fresh(s: SearchState) {
    s.lastDiscrepancy == 0 && !s.lastDevice
  }

  lemma StartsOnCourse(devices: set<Rom>, s: SearchState)
    requires devices != {}
    ensures OnCourse(devices, s.rom, Walk(devices, 0, s.rom, 0, s.lastFamily))
  {
    assert Under(devices, s.rom, 0) == devices;
  }

  /** The outcome of a call, given where the walk ended. */
  ghost predicate Reports(devices: set<Rom>, s: SearchState, r: Rom) {
    var (t, o) := Search(devices, true, s);
    if ZeroFamily(r) then Fresh(t) && o == NotFound
    else At(t, devices, r) && o == Found(r)
  }

  lemma FirstCallFindsLeast(devices: set<Rom>, s: SearchState) returns (r: Rom)
    requires devices != {} && Fresh(s)
    ensures IsLeast(r, devices) && Reports(devices, s, r)
  {
    StartsOnCourse(devices, s);
    var w := Walk(devices, 0, s.rom, 0, s.lastFamily);
    var f := DescendsToLeast(devices, s.rom, w, 0, ROM_BITS);
    FinishedWalk(devices, s.rom, f);
    r := f.rom;
    forall d | d in devices && d != r ensures Before(r, d) {
      assert d == d[..ROM_BITS] && r == r[..ROM_BITS];
    }
  }

  /** After a device that was not the last one, a call finds its successor. */
  lemma NextCallFindsSuccessor(devices: set<Rom>, s: SearchState, p: Rom) returns (r: Rom)
    requires At(s, devices, p) && !s.lastDevice
    ensures IsSuccessor(r, p, devices) && Reports(devices, s, r)
  {
    StartsOnCourse(devices, s);
    var ld := s.lastDiscrepancy;
    var b: nat := ld - 1;
    LastZeroIsLast(devices, p, ROM_BITS);
    assert p in Under(devices, p, b);
    var w := FollowsStart(devices, p, Walk(devices, 0, p, 0, s.lastFamily), ld, b);
    StepStaysOnCourse(devices, p, w, ld);
    var n := StepWalk(w, ld);
    var up :| up in devices && SplitsAt(p, up, b);
    assert up in w.active && p in w.active;
    assert n.rom[b];
    var f := DescendsToLeast(devices, p, n, ld, ROM_BITS);
    FinishedWalk(devices, p, f);
    r := f.rom;
    SharedPrefix(r, n.rom, ld, b);
    assert SplitsAt(p, r, b);
    forall d | d in devices && Before(p, d) && d != r ensures Before(r, d) {
      LiesAbove(devices, p, n, r, d, b);
    }
  }

  /** A device above `p` either leaves the path of `r` upwards, or lies below the turn at bit `b`. */
  lemma LiesAbove(devices: set<Rom>, p: Rom, n: Walk, r: Rom, d: Rom, b: nat)
    requires d in devices && Before(p, d) && d != r
    requires LastZero(devices, p, ROM_BITS) == b + 1 && SplitsAt(p, r, b)
    requires n.bit == b + 1 && n.active == Under(devices, n.rom, n.bit) && n.rom[..b + 1] == r[..b + 1]
    requires forall e :: e in n.active ==> e[..ROM_BITS] == r[..ROM_BITS] || SplitsBelow(r, e, ROM_BITS)
    ensures Before(r, d)
  {
    var i: nat :| SplitsAt(p, d, i);
    LastZeroIsLast(devices, p, ROM_BITS);
    assert LeavesUpwards(devices, p, i);
    assert i <= b;
    if i == b {
      LongerPrefix(d, r, b);
      assert d in n.active;
      assert d == d[..ROM_BITS] && r == r[..ROM_BITS];
    } else {
      SharedPrefix(r, p, b, i);
      assert SplitsAt(r, d, i);
    }
  }

  // ---------- the last discrepancy within the family ----------

  /** The last zero taken among the first `n` bits, or what was remembered before. */
  ghost function Remembered(devices: set<Rom>, r: Rom, n: nat, before: nat): nat
    requires n <= ROM_BITS
  {
    if LastZero(devices, r, n) == 0 then before else LastZero(devices, r, n)
  }

  lemma {:induction false} FamilyOnCourse(devices: set<Rom>, start: Rom, w: Walk, lastDiscrepancy: nat, before: nat)
    requires OnCourse(devices, start, w)
    requires w.family == Remembered(devices, w.rom, if w.bit < 8 then w.bit else 8, before)
    ensures var f := RunWalk(w, lastDiscrepancy);
      f.bit == ROM_BITS && f.family == Remembered(devices, f.rom, 8, before)
    decreases ROM_BITS - w.bit
  {
    if w.bit < ROM_BITS {
      StepStaysOnCourse(devices, start, w, lastDiscrepancy);
      var n := StepWalk(w, lastDiscrepancy);
      if w.bit < 8 {
        LastZeroIsLocal(devices, w.rom, n.rom, w.bit);
      } else {
        SharedPrefix(w.rom, n.rom, w.bit, 8);
        LastZeroIsLocal(devices, w.rom, n.rom, 8);
      }
      FamilyOnCourse(devices, start, n, lastDiscrepancy, before);
    }
  }

  /** Where a call finds a device, the last place among the first eight where a device branches off upwards is
      remembered; where there is none, nothing new is. */
  lemma FamilyIsRemembered(devices: set<Rom>, s: SearchState)
    requires devices != {}
    ensures var (t, o) := Search(devices, true, s);
      o.Found? ==> t.lastFamily == Remembered(devices, o.rom, 8, s.lastFamily)
  {
    StartsOnCourse(devices, s);
    FamilyOnCourse(devices, s.rom, Walk(devices, 0, s.rom, 0, s.lastFamily), s.lastDiscrepancy, s.lastFamily);
  }

  /** A call that finds nothing clears the counters, and keeps only the address it has come to; a call behind the
      last device, or without an answer to the reset, does not even touch that. */
  lemma NothingFound(devices: set<Rom>, presence: bool, s: SearchState)
    ensures var (t, o) := Search(devices, presence, s);
      && (o.NotFound? ==> t.lastDiscrepancy == 0 && t.lastFamily == 0 && !t.lastDevice)
      && (s.lastDevice || !presence ==> o.NotFound? && t.rom == s.rom)
      && (o.Found? ==> t.rom == o.rom)
  {
  }

  // ---------- any number of calls ----------

  /** The state before call `n` (counted from 0), and what that call returns. */
  function StateBefore(devices: set<Rom>, s: SearchState, n: nat): SearchState {
    if n == 0 then s else Search(devices, devices != {}, StateBefore(devices, s, n - 1)).0
  }

  function OutcomeOf(devices: set<Rom>, s: SearchState, n: nat): Outcome {
    Search(devices, devices != {}, StateBefore(devices, s, n)).1
  }

  /** Round and round: every device once, in order, then one `NotFound`. */
  function Expected(order: seq<Rom>, n: nat): Outcome {
    var m := n % (|order| + 1);
    if m < |order| then Found(order[m]) else NotFound
  }

  /** `m` calls of the current round are done: the last one found `order[m - 1]`. */
  ghost predicate InRound(devices: set<Rom>, order: seq<Rom>, s: SearchState, m: nat) {
    if m == 0 then Fresh(s) else m <= |order| && At(s, devices, order[m - 1])
  }

  /** How many calls of its round are done after `n` calls, when a round has `len + 1` calls. */
  ghost function RoundPosition(len: nat, n: nat): (m: nat)
    ensures m <= len
  {
    if n == 0 || RoundPosition(len, n - 1) == len then 0 else RoundPosition(len, n - 1) + 1
  }

  lemma RoundPositionIsRemainder(len: nat, n: nat)
    ensures RoundPosition(len, n) == n % (len + 1)
  {
    var laps := CompleteRounds(len, n);
    DivModUnique(n, len + 1, laps, RoundPosition(len, n));
  }

  lemma {:induction false} CompleteRounds(len: nat, n: nat) returns (laps: nat)
    ensures n == (len + 1) * laps + RoundPosition(len, n)
  {
    if n == 0 {
      laps := 0;
    } else {
      laps := CompleteRounds(len, n - 1);
      if RoundPosition(len, n - 1) == len {
        assert (len + 1) * (laps + 1) == (len + 1) * laps + (len + 1);
        laps := laps + 1;
      }
    }
  }

  lemma DivModUnique(n: int, k: int, q: int, m: int)
    requires 0 <= m < k && n == k * q + m
    ensures n % k == m
  {
    var d := n / k - q;
    assert k * d == m - n % k by { assert n == k * (n / k) + n % k; }
    assert -k < k * d < k;
    assert d == 0;
  }

  /** A call made after `m` calls of the round returns the outcome that is due and moves on. */
  ghost predicate CallIsDue(devices: set<Rom>, order: seq<Rom>, s: SearchState, m: nat) {
    var (t, o) := Search(devices, devices != {}, s);
    if m < |order| then InRound(devices, order, t, m + 1) && o == Found(order[m])
    else InRound(devices, order, t, 0) && o == NotFound
  }

  lemma FirstCallOfRound(devices: set<Rom>, order: seq<Rom>, s: SearchState)
    requires Enumerates(order, devices) && Fresh(s)
    requires forall d :: d in devices ==> !ZeroFamily(d)
    ensures CallIsDue(devices, order, s, 0)
  {
    if devices == {} {
      var first := if order == [] then seq(ROM_BITS, _ => false) else order[0];
      assert first in order ==> first in devices;
    } else {
      var r := FirstCallFindsLeast(devices, s);
      EnumerationStarts(order, devices, r);
    }
  }

  lemma LaterCallOfRound(devices: set<Rom>, order: seq<Rom>, s: SearchState, m: nat)
    requires Enumerates(order, devices) && 0 < m <= |order| && At(s, devices, order[m - 1])
    requires forall d :: d in devices ==> !ZeroFamily(d)
    ensures CallIsDue(devices, order, s, m)
  {
    EnumerationEnds(order, devices, m - 1);
    AtTheTop(devices, s, order[m - 1]);
    if m < |order| {
      var r := NextCallFindsSuccessor(devices, s, order[m - 1]);
      EnumerationContinues(order, devices, m - 1, r);
    }
  }

  ghost predicate RoundsWork(devices: set<Rom>, order: seq<Rom>) {
    forall s: SearchState, m: nat {:trigger CallIsDue(devices, order, s, m)} ::
      InRound(devices, order, s, m) ==> CallIsDue(devices, order, s, m)
  }

  lemma RoundsDoWork(devices: set<Rom>, order: seq<Rom>)
    requires Enumerates(order, devices)
    requires forall d :: d in devices ==> !ZeroFamily(d)
    ensures RoundsWork(devices, order)
  {
    forall s: SearchState, m: nat | InRound(devices, order, s, m) ensures CallIsDue(devices, order, s, m) {
      if m == 0 {
        FirstCallOfRound(devices, order, s);
      } else {
        LaterCallOfRound(devices, order, s, m);
      }
    }
  }

  lemma AtTheTop(devices: set<Rom>, s: SearchState, p: Rom)
    requires At(s, devices, p)
    ensures s.lastDevice <==> !exists d :: d in devices && Before(p, d)
  {
    assert Under(devices, p, ROM_BITS) != {} by { assert p in Under(devices, p, ROM_BITS); }
    FinishedWalk(devices, p, Walk(Under(devices, p, ROM_BITS), ROM_BITS, p, s.lastDiscrepancy, 0));
  }

  lemma {:induction false} RoundGoesOn(devices: set<Rom>, order: seq<Rom>, s: SearchState, n: nat)
    requires RoundsWork(devices, order) && Fresh(s)
    ensures CallIsDue(devices, order, StateBefore(devices, s, n), RoundPosition(|order|, n))
  {
    if n > 0 {
      RoundGoesOn(devices, order, s, n - 1);
    }
    assert InRound(devices, order, StateBefore(devices, s, n), RoundPosition(|order|, n));
  }

  /** An all-zero family code sorts first, so it is the first device a fresh search reaches. */
  lemma ZeroFamilySortsFirst(devices: set<Rom>, r: Rom, z: Rom)
    requires IsLeast(r, devices) && z in devices && ZeroFamily(z)
    ensures ZeroFamily(r)
  {
    if r != z {
      var i: nat :| SplitsAt(r, z, i);
      forall k | 0 <= k < 8 ensures !r[k] {
        SharedPrefix(r, z, i, k);
      }
    }
  }

  /** With an all-zero family code on the bus, no call ever finds anything. */
  lemma {:induction false} ZeroFamilyBlocks(devices: set<Rom>, s: SearchState, z: Rom, n: nat)
    requires Fresh(s) && z in devices && ZeroFamily(z)
    ensures Fresh(StateBefore(devices, s, n)) && OutcomeOf(devices, s, n) == NotFound
  {
    if n > 0 {
      ZeroFamilyBlocks(devices, s, z, n - 1);
    }
    var t := StateBefore(devices, s, n);
    if n > 0 {
      var u := StateBefore(devices, s, n - 1);
      var q := FirstCallFindsLeast(devices, u);
      ZeroFamilySortsFirst(devices, q, z);
    }
    var r := FirstCallFindsLeast(devices, t);
    ZeroFamilySortsFirst(devices, r, z);
  }

  /** The main result. From a reset search state, the calls return every device exactly once in
      increasing order, then `NotFound` once, and so on for ever, exactly when no device on the
      bus has an all-zero family code. */
  lemma SearchEnumerates(devices: set<Rom>, order: seq<Rom>, s: SearchState)
    requires Enumerates(order, devices) && Fresh(s)
    ensures (forall n: nat :: OutcomeOf(devices, s, n) == Expected(order, n))
       <==> (forall d :: d in devices ==> !ZeroFamily(d))
  {
    if forall d :: d in devices ==> !ZeroFamily(d) {
      RoundsDoWork(devices, order);
      forall n: nat ensures OutcomeOf(devices, s, n) == Expected(order, n) {
        RoundGoesOn(devices, order, s, n);
        RoundPositionIsRemainder(|order|, n);
      }
    } else {
      var z :| z in devices && ZeroFamily(z);
      ZeroFamilyBlocks(devices, s, z, 0);
      assert z in order;
      assert Expected(order, 0) == Found(order[0]);
    }
  }

  // ---------- looking for one family ----------

  /** The address `target_search` leaves behind: the family code followed by zeros. */
  function FamilyAddress(family: seq<bool>): Rom
    requires |family| == 8
  {
    family + seq(56, _ => false)
  }

  function Targeted(family: seq<bool>): SearchState
    requires |family| == 8
  {
    SearchState(FamilyAddress(family), 64, 0, false)
  }

  ghost predicate InFamily(d: Rom, family: seq<bool>) {
    d[..8] == family
  }

  /** The call after `target_search` finds a device of that family if and only if there is one and the
      family code is not zero.
      It is the least of the family, except that between two devices differing in nothing but the
      very last bit it is the greater one; and the following calls go on from there in order. */
  lemma TargetSearchFindsFamily(devices: set<Rom>, family: seq<bool>)
    requires |family| == 8
    ensures var (t, o) := Search(devices, devices != {}, Targeted(family));
      && ((o.Found? && InFamily(o.rom, family)) <==>
            ((exists d :: d in devices && InFamily(d, family)) && (exists i :: 0 <= i < 8 && family[i])))
      && (o.Found? ==> At(t, devices, o.rom))
      && (o.Found? && InFamily(o.rom, family) ==>
            forall d :: d in devices && InFamily(d, family) && d != o.rom ==>
              Before(o.rom, d) || SplitsAt(d, o.rom, ROM_BITS - 1))
  {
    if exists i :: 0 <= i < 8 && family[i] {
      TargetIsFound(devices, family);
    } else if devices != {} {
      var s := Targeted(family);
      StartsOnCourse(devices, s);
      EndsSomewhere(devices, s.rom, Walk(devices, 0, s.rom, 0, 0), 64);
      NeverZero(devices, family);
    }
  }

  lemma NeverZero(devices: set<Rom>, family: seq<bool>)
    requires |family| == 8 && forall i :: 0 <= i < 8 ==> !family[i]
    ensures var o := Search(devices, devices != {}, Targeted(family)).1;
      !(o.Found? && InFamily(o.rom, family))
  {
  }

  lemma TargetIsFound(devices: set<Rom>, family: seq<bool>)
    requires |family| == 8 && exists i :: 0 <= i < 8 && family[i]
    ensures var (t, o) := Search(devices, devices != {}, Targeted(family));
      && ((exists d :: d in devices && InFamily(d, family)) <==> o.Found? && InFamily(o.rom, family))
      && (o.Found? ==> At(t, devices, o.rom))
      && (o.Found? && InFamily(o.rom, family) ==>
            forall d :: d in devices && InFamily(d, family) && d != o.rom ==>
              Before(o.rom, d) || SplitsAt(d, o.rom, ROM_BITS - 1))
  {
    if devices != {} {
      var s := Targeted(family);
      var start := s.rom;
      StartsOnCourse(devices, s);
      var w := Walk(devices, 0, start, 0, 0);
      if present :| present in devices && InFamily(present, family) {
        assert start[..8] == family;
        assert present in Under(devices, start, 8);
        var g := FollowsStart(devices, start, w, 64, 8);
        var f := DescendsToLeast(devices, start, g, 64, ROM_BITS - 1);
        StepStaysOnCourse(devices, start, f, 64);
        var n := StepWalk(f, 64);
        FinishedWalk(devices, start, n);
        TargetHit(devices, family, start, g, f, n);
      } else {
        EndsSomewhere(devices, start, w, 64);
      }
    }
  }

  /** Any walk that starts on course ends at some device. */
  lemma {:induction false} EndsSomewhere(devices: set<Rom>, start: Rom, w: Walk, lastDiscrepancy: nat)
    requires OnCourse(devices, start, w)
    ensures var f := RunWalk(w, lastDiscrepancy);
      f.bit == ROM_BITS && OnCourse(devices, start, f) && f.rom in devices
      && f.lastZero == LastZero(devices, f.rom, ROM_BITS)
    decreases ROM_BITS - w.bit
  {
    if w.bit == ROM_BITS {
      FinishedWalk(devices, start, w);
    } else {
      StepStaysOnCourse(devices, start, w, lastDiscrepancy);
      EndsSomewhere(devices, start, StepWalk(w, lastDiscrepancy), lastDiscrepancy);
    }
  }

  lemma TargetHit(devices: set<Rom>, family: seq<bool>, start: Rom, g: Walk, f: Walk, n: Walk)
    requires |family| == 8 && start == FamilyAddress(family)
    requires OnCourse(devices, start, g) && g.bit == 8 && g.rom[..8] == start[..8]
    requires f.bit == ROM_BITS - 1 && f.rom[..8] == g.rom[..8] && f.active == Under(devices, f.rom, f.bit)
    requires forall d :: d in g.active ==> d[..f.bit] == f.rom[..f.bit] || SplitsBelow(f.rom, d, f.bit)
    requires n.rom[..f.bit] == f.rom[..f.bit]
    requires (forall d :: d in f.active ==> d[f.bit] == n.rom[f.bit]) || n.rom[f.bit]
    ensures InFamily(n.rom, family)
    ensures forall d :: d in devices && InFamily(d, family) && d != n.rom ==>
      Before(n.rom, d) || SplitsAt(d, n.rom, ROM_BITS - 1)
  {
    var last := ROM_BITS - 1;
    SharedPrefix(n.rom, f.rom, last, 8);
    assert start[..8] == family;
    forall d | d in devices && InFamily(d, family) && d != n.rom
      ensures Before(n.rom, d) || SplitsAt(d, n.rom, last)
    {
      assert d in g.active;
      if d[..last] == f.rom[..last] {
        LongerPrefix(d, n.rom, last);
        assert d == d[..ROM_BITS] && n.rom == n.rom[..ROM_BITS];
        assert d in f.active;
      } else {
        var i: nat :| i < last && SplitsAt(f.rom, d, i);
        SharedPrefix(n.rom, f.rom, last, i);
        assert SplitsAt(n.rom, d, i);
      }
    }
  }
}
