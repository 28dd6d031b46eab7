/** The heap: a bump pointer that is never moved back, and seven lists of freed blocks. Addresses and
    sizes are 32-bit words. */
module HeapSpec {
  import opened Words

  const HEADER := 16
  const RESERVE := 0x4_0000

  function BucketSize(k: nat): nat
    requires k < 7
  {
    if k == 0 then 0x40 else if k == 1 then 0x400 else if k == 2 then 0x1000 else if k == 3 then 0x4000
    else if k == 4 then 0x1_0000 else if k == 5 then 0x4_0000 else 0x8_0000
  }

  /** The first bucket that is big enough, or 7. */
  function Bucket(n: nat): (k: nat)
    ensures k <= 7
    ensures k < 7 ==> n <= BucketSize(k)
    ensures forall j: nat :: j < k ==> BucketSize(j) < n
  {
    if n <= 0x40 then 0 else if n <= 0x400 then 1 else if n <= 0x1000 then 2 else if n <= 0x4000 then 3
    else if n <= 0x1_0000 then 4 else if n <= 0x4_0000 then 5 else if n <= 0x8_0000 then 6 else 7
  }

  /** The bucket of exactly this size, or 7. */
  function Exact(size: nat): (k: nat)
    ensures k <= 7
    ensures k < 7 ==> BucketSize(k) == size
    ensures k == 7 ==> forall j: nat :: j < 7 ==> BucketSize(j) != size
  {
    if Bucket(size) < 7 && BucketSize(Bucket(size)) == size then Bucket(size) else 7
  }

  /** The size a request is rounded to. */
  function Rounded(n: nat): nat {
    if Bucket(n) < 7 then BucketSize(Bucket(n)) else n
  }

  /** The room a block takes, with its header. */
  function Span(size: nat): nat {
    (size + 31) / 16 * 16
  }

  /** Where the bump pointer goes, in 32-bit arithmetic. */
  function Bumped(next: nat, size: nat): nat {
    U32(next + U32(size + 31) / 16 * 16)
  }

  /** A block is in use, on a free list, or freed but too large for any list. */
  datatype Status = Live | Free | Dead

  datatype Block = Block(size: nat, status: Status)

  type Blocks = map<nat, Block>

  /** Blocks are named by the address of their header. */
  datatype State = State(base: nat, next: nat, limit: nat, reserve: nat, blocks: Blocks, free: seq<seq<nat>>)

  /** The result of an allocation; the address is 0 if there is no memory. */
  datatype Allocation = Allocation(h: State, p: nat)

  // ---------- the operations ----------

  /** A block from the free list of bucket `k`. */
  function Reuse(h: State, k: nat): Allocation
    requires k < 7 && |h.free| == 7 && h.free[k] != []
  {
    var p := h.free[k][0];
    Allocation(h.(free := h.free[k := h.free[k][1..]], blocks := h.blocks[p := Block(BucketSize(k), Live)]), p)
  }

  /** A new block. A first failure opens the reserve. */
  function Carve(h: State, size: nat): Allocation {
    var next := Bumped(h.next, size);
    if next <= h.next || next > h.limit - h.reserve then Allocation(h.(reserve := 0), 0)
    else Allocation(h.(next := next, blocks := h.blocks[h.next := Block(size, Live)]), h.next)
  }

  function Malloc(h: State, n: nat): Allocation
    requires |h.free| == 7
  {
    if Bucket(n) < 7 && h.free[Bucket(n)] != [] then Reuse(h, Bucket(n)) else Carve(h, Rounded(n))
  }

  /** Blocks of a bucket's size go to the head of its list; the memory of larger ones is lost. */
  function Release(h: State, p: nat): State
    requires |h.free| == 7 && p in h.blocks
  {
    var size := h.blocks[p].size;
    var k := Exact(size);
    if k < 7 then h.(free := h.free[k := [p] + h.free[k]], blocks := h.blocks[p := Block(size, Free)])
    else h.(blocks := h.blocks[p := Block(size, Dead)])
  }

  /** Resize a block. It stays where it is if it is large enough. */
  function Realloc(h: State, p: nat, n: nat): Allocation
    requires |h.free| == 7 && (p != 0 ==> p in h.blocks)
  {
    if p == 0 then Malloc(h, n)
    else if n == 0 then Allocation(Release(h, p), 0)
    else if h.blocks[p].size >= n then Allocation(h, p)
    else
      var a := Malloc(h, n);
      if a.p == 0 then a else Allocation(Release(a.h, p), a.p)
  }

  // ---------- what every operation keeps ----------

  type Spans = map<nat, nat>

  /** The room each block takes. */
  ghost function SpansOf(blocks: Blocks): (spans: Spans)
    ensures spans.Keys == blocks.Keys
  {
    map a | a in blocks :: Span(blocks[a].size)
  }

  /** The blocks fill the memory from `from` to `next`: there is one at `from`, whose end is where the
      others begin, and so on to the last, which ends at `next`. */
  ghost predicate Tiles(spans: Spans, from: nat, next: nat)
    decreases |spans|
  {
    if spans == map[] then from == next
    else from in spans && spans[from] > 0 && spans[from] % 16 == 0 && Tiles(spans - {from}, from + spans[from], next)
  }

  /** The lists hold exactly the free blocks, each once and in the list of its size; no block that fits
      a list is lost. */
  ghost predicate Listed(blocks: Blocks, free: seq<seq<nat>>) {
    && |free| == 7
    && (forall k: nat, i: nat :: k < 7 && i < |free[k]| ==>
          free[k][i] in blocks && blocks[free[k][i]] == Block(BucketSize(k), Free))
    && (forall k: nat, i: nat, j: nat :: k < 7 && i < j < |free[k]| ==> free[k][i] != free[k][j])
    && (forall a :: a in blocks && blocks[a].status == Free ==> Exact(blocks[a].size) < 7 && a in free[Exact(blocks[a].size)])
    && (forall a :: a in blocks && blocks[a].status == Dead ==> Exact(blocks[a].size) == 7)
  }

  ghost predicate Good(h: State) {
    && 0 < h.base <= h.next <= h.limit < WORD && h.base % 16 == 0
    && h.reserve <= RESERVE <= h.limit
    && Tiles(SpansOf(h.blocks), h.base, h.next)
    && Listed(h.blocks, h.free)
  }

  predicate InUse(h: State, p: nat) {
    p in h.blocks && h.blocks[p].status == Live
  }

  lemma SameSpans(blocks: Blocks, p: nat, status: Status)
    requires p in blocks
    ensures SpansOf(blocks[p := Block(blocks[p].size, status)]) == SpansOf(blocks)
  {
  }

  lemma ReuseKeepsListed(blocks: Blocks, free: seq<seq<nat>>, k: nat)
    requires Listed(blocks, free) && k < 7 && free[k] != []
    ensures Listed(blocks[free[k][0] := Block(BucketSize(k), Live)], free[k := free[k][1..]])
  {
    var p := free[k][0];
    var free' := free[k := free[k][1..]];
    var blocks' := blocks[p := Block(BucketSize(k), Live)];
    forall j: nat, i: nat | j < 7 && i < |free'[j]|
      ensures free'[j][i] in blocks' && blocks'[free'[j][i]] == Block(BucketSize(j), Free)
    {
      if j == k { assert free'[k][i] == free[k][i + 1]; }
    }
    forall a | a in blocks' && blocks'[a].status == Free
      ensures Exact(blocks[a].size) < 7 && a in free'[Exact(blocks[a].size)]
    {
      OthersStayListed(blocks, free, k, a);
    }
  }

  lemma OthersStayListed(blocks: Blocks, free: seq<seq<nat>>, k: nat, a: nat)
    requires Listed(blocks, free) && k < 7 && free[k] != [] && a != free[k][0]
    requires a in blocks && blocks[a].status == Free
    ensures Exact(blocks[a].size) < 7 && a in free[k := free[k][1..]][Exact(blocks[a].size)]
  {
    assert free[k] == [free[k][0]] + free[k][1..];
  }

  lemma ReuseKeepsGood(h: State, k: nat)
    requires Good(h) && k < 7 && h.free[k] != []
    ensures Good(Reuse(h, k).h)
    ensures var p := Reuse(h, k).p;
      p in h.blocks && h.blocks[p] == Block(BucketSize(k), Free)
  {
    SameSpans(h.blocks, h.free[k][0], Live);
    ReuseKeepsListed(h.blocks, h.free, k);
  }

  /** The 32-bit arithmetic of the bump pointer, up to the last fifteen sizes: it either goes up by
      exactly the block's span or is caught by the test for having wrapped. */
  lemma BumpIsExact(next: nat, size: nat)
    requires next < WORD && size <= 0xFFFF_FFF0 && Bumped(next, size) > next
    ensures Bumped(next, size) == next + Span(size)
  {
  }

  /** For those fifteen it goes up by a bare header. */
  lemma BumpEscapes(next: nat, size: nat)
    requires next + 16 < WORD && 0xFFFF_FFF0 < size < WORD
    ensures Bumped(next, size) == next + 16 < next + Span(size)
  {
  }

  lemma {:induction false} TilesBounds(spans: Spans, from: nat, next: nat)
    requires Tiles(spans, from, next)
    ensures from <= next && next !in spans && (from % 16 == 0 ==> next % 16 == 0)
    decreases |spans|
  {
    if spans != map[] {
      TilesBounds(spans - {from}, from + spans[from], next);
    }
  }

  lemma {:induction false} TilesExtend(spans: Spans, from: nat, next: nat, room: nat)
    requires Tiles(spans, from, next) && room > 0 && room % 16 == 0
    ensures Tiles(spans[next := room], from, next + room)
    decreases |spans|
  {
    var s := spans[next := room];
    if spans == map[] {
      assert s - {from} == map[];
    } else {
      TilesBounds(spans - {from}, from + spans[from], next);
      TilesExtend(spans - {from}, from + spans[from], next, room);
      assert s - {from} == (spans - {from})[next := room];
    }
  }

  /** Every address of the used part of the heap lies in a block. */
  lemma {:induction false} EveryAddressIsInABlock(spans: Spans, from: nat, next: nat, x: nat) returns (a: nat)
    requires Tiles(spans, from, next) && from <= x < next
    ensures a in spans && a <= x < a + spans[a]
    decreases |spans|
  {
    a := from;
    if x >= from + spans[from] {
      a := EveryAddressIsInABlock(spans - {from}, from + spans[from], next, x);
    }
  }

  lemma {:induction false} BlockIsInside(spans: Spans, from: nat, next: nat, a: nat)
    requires Tiles(spans, from, next) && a in spans
    ensures from <= a < a + spans[a] <= next && (from % 16 == 0 ==> a % 16 == 0)
    decreases |spans|
  {
    TilesBounds(spans - {from}, from + spans[from], next);
    if a != from {
      BlockIsInside(spans - {from}, from + spans[from], next, a);
    }
  }

  /** And in only one: blocks do not overlap. */
  lemma {:induction false} BlocksAreApart(spans: Spans, from: nat, next: nat, a: nat, b: nat)
    requires Tiles(spans, from, next) && a in spans && b in spans && a < b
    ensures a + spans[a] <= b
    decreases |spans|
  {
    BlockIsInside(spans, from, next, a);
    if a == from {
      BlockIsInside(spans - {from}, from + spans[from], next, b);
    } else {
      BlocksAreApart(spans - {from}, from + spans[from], next, a, b);
    }
  }

  lemma CarveKeepsGood(h: State, size: nat)
    requires Good(h) && size <= 0xFFFF_FFF0
    ensures Good(Carve(h, size).h)
    ensures Carve(h, size).p != 0 ==> Carve(h, size).p == h.next && h.next !in h.blocks
  {
    if Carve(h, size).p != 0 {
      BumpIsExact(h.next, size);
      CarvedIsGood(h, size);
      assert Carve(h, size).h == h.(next := h.next + Span(size), blocks := h.blocks[h.next := Block(size, Live)]);
    }
  }

  lemma CarvedIsGood(h: State, size: nat)
    requires Good(h) && h.next + Span(size) <= h.limit
    ensures Good(h.(next := h.next + Span(size), blocks := h.blocks[h.next := Block(size, Live)]))
    ensures h.next !in h.blocks
  {
    TilesBounds(SpansOf(h.blocks), h.base, h.next);
    TilesExtend(SpansOf(h.blocks), h.base, h.next, Span(size));
    assert SpansOf(h.blocks[h.next := Block(size, Live)]) == SpansOf(h.blocks)[h.next := Span(size)];
    CarveKeepsListed(h.blocks, h.free, h.next, size);
  }

  lemma CarveKeepsListed(blocks: Blocks, free: seq<seq<nat>>, p: nat, size: nat)
    requires Listed(blocks, free) && p !in blocks
    ensures Listed(blocks[p := Block(size, Live)], free)
  {
  }

  lemma ReleaseKeepsGood(h: State, p: nat)
    requires Good(h) && p in h.blocks && h.blocks[p].status == Live
    ensures Good(Release(h, p))
  {
    var size := h.blocks[p].size;
    var k := Exact(size);
    SameSpans(h.blocks, p, if k < 7 then Free else Dead);
    if k < 7 {
      ReleaseKeepsListed(h.blocks, h.free, p, k);
    }
  }

  lemma ReleaseKeepsListed(blocks: Blocks, free: seq<seq<nat>>, p: nat, k: nat)
    requires Listed(blocks, free) && p in blocks && blocks[p].status == Live && k == Exact(blocks[p].size) < 7
    ensures Listed(blocks[p := Block(BucketSize(k), Free)], free[k := [p] + free[k]])
  {
    var free' := free[k := [p] + free[k]];
    var blocks' := blocks[p := Block(BucketSize(k), Free)];
    forall j: nat, i: nat | j < 7 && i < |free'[j]|
      ensures free'[j][i] in blocks' && blocks'[free'[j][i]] == Block(BucketSize(j), Free)
    {
      if j == k && i > 0 { assert free'[k][i] == free[k][i - 1]; }
    }
  }

  // ---------- malloc, free and realloc ----------

  /** A bare header passes the test for having wrapped, and fits in front of the limit. */
  predicate HeaderFits(h: State) {
    h.next + HEADER <= h.limit - h.reserve
  }

  /** A request for one of the last fifteen sizes is granted as soon as a bare header fits. */
  lemma OversizedGranted(h: State, n: nat)
    requires Good(h) && 0xFFFF_FFF0 < n < WORD
    ensures Malloc(h, n).p != 0 <==> HeaderFits(h)
  {
    if h.next + 16 < WORD { BumpEscapes(h.next, n); }
    TilesBounds(SpansOf(h.blocks), h.base, h.next);
  }

  /** The block it gets has no room for its data. */
  lemma OversizedBlock(h: State, n: nat)
    requires Good(h) && 0xFFFF_FFF0 < n < WORD
    ensures Good(Malloc(h, n).h) <==> !HeaderFits(h)
  {
    OversizedGranted(h, n);
    if HeaderFits(h) {
      var h' := Carve(h, n).h;
      BumpEscapes(h.next, n);
      assert h'.next == h.next + 16 && h.next in h'.blocks && h'.blocks[h.next].size == n;
      if Tiles(SpansOf(h'.blocks), h'.base, h'.next) {
        BlockIsInside(SpansOf(h'.blocks), h'.base, h'.next, h.next);
      }
    }
  }

  /** A request for memory keeps the heap in order unless it is for one of the last fifteen sizes while
      there is room for a bare header. */
  lemma MallocKeepsGood(h: State, n: nat)
    requires Good(h) && n < WORD
    ensures Good(Malloc(h, n).h) <==> n <= 0xFFFF_FFF0 || !HeaderFits(h)
  {
    var k := Bucket(n);
    if k < 7 && h.free[k] != [] {
      ReuseKeepsGood(h, k);
    } else if n <= 0xFFFF_FFF0 {
      CarveKeepsGood(h, Rounded(n));
    } else {
      OversizedBlock(h, n);
    }
  }

  /** So the first request a heap of 1 GB gets breaks it if it is for 2^32-1 bytes. */
  lemma FirstRequestBreaks()
    ensures var h := Init(0x10_0000, 0x4000_0000).h;
      Good(h) && Malloc(h, 0xFFFF_FFFF).p == 0x10_0000 && !Good(Malloc(h, 0xFFFF_FFFF).h)
  {
    InitInOrder(0x10_0000, 0x4000_0000);
    MallocKeepsGood(Init(0x10_0000, 0x4000_0000).h, 0xFFFF_FFFF);
  }

  /** A block given out is in use, aligned, big enough, and was not in use before; all other blocks are
      as they were. */
  lemma MallocGives(h: State, n: nat)
    requires Good(h) && n <= 0xFFFF_FFF0 && Malloc(h, n).p != 0
    ensures var a := Malloc(h, n);
      && a.p in a.h.blocks && a.h.blocks[a.p].status == Live && a.h.blocks[a.p].size >= n && a.p % 16 == 0
      && (a.p in h.blocks ==> h.blocks[a.p].status == Free)
      && a.h.blocks.Keys == h.blocks.Keys + {a.p}
      && forall b :: b in h.blocks && b != a.p ==> a.h.blocks[b] == h.blocks[b]
  {
    var a := Malloc(h, n);
    MallocKeepsGood(h, n);
    BlockIsInside(SpansOf(a.h.blocks), a.h.base, a.h.next, a.p);
    if Bucket(n) < 7 && h.free[Bucket(n)] != [] {
      ReuseKeepsGood(h, Bucket(n));
    } else {
      CarveKeepsGood(h, Rounded(n));
    }
  }

  /** A request is granted if and only if a block of its bucket has been freed, or the block it is rounded to
      fits in front of the limit less the reserve. */
  lemma MallocGrantedIff(h: State, n: nat)
    requires Good(h) && n <= 0xFFFF_FFF0
    ensures Malloc(h, n).p != 0 <==>
      (Bucket(n) < 7 && h.free[Bucket(n)] != []) || h.next + Span(Rounded(n)) <= h.limit - h.reserve
  {
    if Bucket(n) < 7 && h.free[Bucket(n)] != [] {
      ReuseKeepsGood(h, Bucket(n));
      BlockIsInside(SpansOf(h.blocks), h.base, h.next, h.free[Bucket(n)][0]);
    } else if Bumped(h.next, Rounded(n)) > h.next {
      BumpIsExact(h.next, Rounded(n));
    } else if h.next + Span(Rounded(n)) <= h.limit {
      BumpInRange(h.next, Rounded(n));
    }
  }

  /** A new block begins where the last one ends. */
  lemma MallocCarves(h: State, n: nat)
    requires Good(h) && n <= 0xFFFF_FFF0 && (Bucket(n) == 7 || h.free[Bucket(n)] == [])
    requires h.next + Span(Rounded(n)) <= h.limit - h.reserve
    ensures Malloc(h, n) == Allocation(
      h.(next := h.next + Span(Rounded(n)), blocks := h.blocks[h.next := Block(Rounded(n), Live)]), h.next)
  {
    BumpInRange(h.next, Rounded(n));
  }

  /** The room a block takes: a header of sixteen bytes, and its size rounded up to a multiple of sixteen. */
  lemma SpanIs(size: nat)
    ensures Span(size) % 16 == 0 && size + 16 <= Span(size) < size + 32
  {
  }

  const SIZES: set<nat> := {0x40, 0x400, 0x1000, 0x4000, 0x1_0000, 0x4_0000, 0x8_0000}

  /** A request is rounded to the least of the seven sizes that is big enough, or not at all if none is. */
  lemma RoundedIs(n: nat)
    ensures Rounded(n) >= n && (n > 0x8_0000 ==> Rounded(n) == n)
    ensures n <= 0x8_0000 ==> Rounded(n) in SIZES && forall s: nat :: s in SIZES && n <= s ==> Rounded(n) <= s
    ensures Bucket(n) < 7 <==> n <= 0x8_0000
  {
  }

  /** A block that is given back is no longer in use; everything else is as it was, but for the list of its
      size. */
  lemma ReleaseIs(h: State, p: nat)
    requires Good(h) && InUse(h, p)
    ensures var g := Release(h, p);
      && !InUse(g, p) && g == h.(free := g.free, blocks := g.blocks) && g.blocks.Keys == h.blocks.Keys
      && (forall b :: b in h.blocks ==> g.blocks[b].size == h.blocks[b].size)
      && (forall b :: b in h.blocks && b != p ==> g.blocks[b] == h.blocks[b])
      && (h.blocks[p].size !in SIZES ==> g.free == h.free)
  {
  }

  /** Resizing: a block that is big enough stays; resizing to nothing gives it back; a larger size is
      granted if and only if a request for it is, and then the old block is no longer in use. */
  lemma ReallocGrantedIff(h: State, p: nat, n: nat)
    requires Good(h) && InUse(h, p) && n <= 0xFFFF_FFF0
    ensures var a := Realloc(h, p, n);
      && (a.p != 0 <==> n > 0 && (n <= h.blocks[p].size || Malloc(h, n).p != 0))
      && (0 < n <= h.blocks[p].size ==> a == Allocation(h, p))
      && (n == 0 || (h.blocks[p].size < n && a.p != 0) ==> p in a.h.blocks && !InUse(a.h, p))
      && (h.blocks[p].size < n && a.p != 0 ==> a.p == Malloc(h, n).p && InUse(a.h, a.p))
  {
    BlockIsInside(SpansOf(h.blocks), h.base, h.next, p);
    if n == 0 {
      ReleaseIs(h, p);
    } else if h.blocks[p].size < n && Malloc(h, n).p != 0 {
      MallocKeepsGood(h, n);
      MallocGives(h, n);
      ReleaseIs(Malloc(h, n).h, p);
    }
  }

  /** If there is no memory, nothing changes but the reserve. */
  lemma MallocFails(h: State, n: nat)
    requires Good(h) && Malloc(h, n).p == 0
    ensures Malloc(h, n).h == h.(reserve := 0)
  {
    if Bucket(n) < 7 && h.free[Bucket(n)] != [] {
      ReuseKeepsGood(h, Bucket(n));
      BlockIsInside(SpansOf(h.blocks), h.base, h.next, h.free[Bucket(n)][0]);
    }
  }

  /** A request that failed is granted when it is made again if and only if it fits into the reserve. */
  lemma SecondTry(h: State, n: nat)
    requires Good(h) && n <= 0xFFFF_FFF0 && Malloc(h, n).p == 0
    ensures Malloc(Malloc(h, n).h, n).p != 0 <==> h.next + Span(Rounded(n)) <= h.limit
  {
    MallocFails(h, n);
    var size := Rounded(n);
    if Bumped(h.next, size) > h.next { BumpIsExact(h.next, size); }
    if h.next + Span(size) <= h.limit { BumpInRange(h.next, size); }
  }

  lemma BumpInRange(next: nat, size: nat)
    requires next + Span(size) < WORD
    ensures Bumped(next, size) == next + Span(size) > next
  {
  }

  /** A request of the right bucket gets the block freed last, and takes the heap back to where it was. */
  lemma FreeThenMalloc(h: State, p: nat, n: nat)
    requires Good(h) && p in h.blocks && h.blocks[p].status == Live
    requires Bucket(n) == Exact(h.blocks[p].size) < 7
    ensures Malloc(Release(h, p), n) == Allocation(h, p)
  {
    var k := Bucket(n);
    assert h.free[k := [p] + h.free[k]][k := h.free[k]] == h.free;
    assert ([p] + h.free[k])[1..] == h.free[k];
    assert h.blocks[p := Block(BucketSize(k), Free)][p := Block(BucketSize(k), Live)] == h.blocks;
  }

  /** Freeing a block that came from a list takes the heap back to where it was. */
  lemma ReuseThenFree(h: State, n: nat)
    requires Good(h) && Bucket(n) < 7 && h.free[Bucket(n)] != []
    ensures Release(Malloc(h, n).h, Malloc(h, n).p) == h
  {
    var k := Bucket(n);
    var p := h.free[k][0];
    ReuseKeepsGood(h, k);
    assert [p] + h.free[k][1..] == h.free[k];
    assert h.free[k := h.free[k][1..]][k := h.free[k]] == h.free;
    assert h.blocks[p := Block(BucketSize(k), Live)][p := Block(BucketSize(k), Free)] == h.blocks;
  }

  /** A block that is too large for the room it has stays so when another one is freed. */
  lemma ReleaseStaysBad(h: State, b: nat, p: nat)
    requires |h.free| == 7 && b in h.blocks && p in h.blocks && h.next < b + Span(h.blocks[b].size)
    ensures !Good(Release(h, p))
  {
    var h' := Release(h, p);
    if Tiles(SpansOf(h'.blocks), h'.base, h'.next) {
      BlockIsInside(SpansOf(h'.blocks), h'.base, h'.next, b);
    }
  }

  /** Resizing keeps the heap in order in all its cases, unless it asks for one of the last fifteen sizes
      while there is room for a bare header. */
  lemma ReallocKeepsGood(h: State, p: nat, n: nat)
    requires Good(h) && n < WORD
    requires p != 0 ==> InUse(h, p)
    ensures Good(Realloc(h, p, n).h) <==> n <= 0xFFFF_FFF0 || !HeaderFits(h)
  {
    if p == 0 {
      MallocKeepsGood(h, n);
    } else if n == 0 {
      ReleaseKeepsGood(h, p);
    } else {
      BlockIsInside(SpansOf(h.blocks), h.base, h.next, p);
      if h.blocks[p].size < n {
        GrowKeepsGood(h, p, n);
      }
    }
  }

  lemma GrowKeepsGood(h: State, p: nat, n: nat)
    requires Good(h) && p != 0 && InUse(h, p) && h.blocks[p].size < n < WORD
    ensures Good(Realloc(h, p, n).h) <==> n <= 0xFFFF_FFF0 || !HeaderFits(h)
  {
    var a := Malloc(h, n);
    if a.p == 0 {
      assert Realloc(h, p, n) == a;
      MallocKeepsGood(h, n);
    } else if n <= 0xFFFF_FFF0 {
      GrownIsGood(h, p, n);
      assert Realloc(h, p, n).h == Release(a.h, p);
    } else {
      OversizedBreaks(h, p, n);
      assert Realloc(h, p, n).h == Release(a.h, p);
    }
  }

  lemma GrownIsGood(h: State, p: nat, n: nat)
    requires Good(h) && InUse(h, p) && n <= 0xFFFF_FFF0 && Malloc(h, n).p != 0
    ensures p in Malloc(h, n).h.blocks && Good(Release(Malloc(h, n).h, p))
  {
    MallocKeepsGood(h, n);
    MallocGives(h, n);
    ReleaseKeepsGood(Malloc(h, n).h, p);
  }

  lemma OversizedBreaks(h: State, p: nat, n: nat)
    requires Good(h) && InUse(h, p) && 0xFFFF_FFF0 < n < WORD && Malloc(h, n).p != 0
    ensures HeaderFits(h) && p in Malloc(h, n).h.blocks && !Good(Release(Malloc(h, n).h, p))
  {
    OversizedGranted(h, n);
    BumpEscapes(h.next, n);
    BlockIsInside(SpansOf(h.blocks), h.base, h.next, p);
    ReleaseStaysBad(Malloc(h, n).h, h.next, p);
  }

  /** Different blocks lie apart: the data of one ends before the header of the next begins. */
  lemma DataApart(h: State, a: nat, b: nat)
    requires Good(h) && a in h.blocks && b in h.blocks && a != b
    ensures a + HEADER + h.blocks[a].size <= b || b + HEADER + h.blocks[b].size <= a
    ensures h.base <= a && a + HEADER + h.blocks[a].size <= h.next
  {
    var spans := SpansOf(h.blocks);
    BlockIsInside(spans, h.base, h.next, a);
    if a < b { BlocksAreApart(spans, h.base, h.next, a, b); } else { BlocksAreApart(spans, h.base, h.next, b, a); }
  }

  // ---------- pages ----------

  /** Pages of 4096 bytes, of which the ones from `first` to `next` have been given out at least once. */
  datatype Pool = Pool(first: nat, next: nat, limit: nat, free: seq<nat>, used: set<nat>)

  datatype PageAllocation = PageAllocation(q: Pool, p: nat)

  /** The bump pointer moves on even if it has passed the limit. */
  function Palloc(q: Pool): PageAllocation {
    if q.free != [] then PageAllocation(q.(free := q.free[1..], used := q.used + {q.free[0]}), q.free[0])
    else
      var next := U32(q.next + 4096);
      if next > q.limit then PageAllocation(q.(next := next), 0)
      else PageAllocation(q.(next := next, used := q.used + {q.next}), q.next)
  }

  function Pfree(q: Pool, p: nat): Pool {
    q.(free := [p] + q.free, used := q.used - {p})
  }

  predicate IsPage(q: Pool, p: nat) {
    p % 4096 == 0 && q.first <= p && p + 4096 <= q.limit && p + 4096 <= q.next
  }

  /** Used and free pages are aligned, inside the page area, and all the pages it has given out. */
  ghost predicate PagesGood(q: Pool) {
    && 0 < q.first <= q.next < WORD && q.limit < WORD && q.first % 4096 == 0 && q.next % 4096 == 0
    && (forall p :: p in q.used ==> IsPage(q, p))
    && (forall i :: 0 <= i < |q.free| ==> IsPage(q, q.free[i]) && q.free[i] !in q.used)
    && (forall i, j :: 0 <= i < j < |q.free| ==> q.free[i] != q.free[j])
    && (forall p: nat {:trigger p in q.used} :: IsPage(q, p) ==> p in q.used || p in q.free)
  }

  lemma PopKeepsGood(q: Pool)
    requires PagesGood(q) && q.free != []
    ensures PagesGood(Palloc(q).q)
  {
    var q' := Palloc(q).q;
    assert q.free == [q.free[0]] + q'.free;
    assert forall p: nat :: IsPage(q', p) ==> IsPage(q, p);
  }

  lemma NewPageKeepsGood(q: Pool)
    requires PagesGood(q) && q.free == [] && q.next + 4096 < WORD
    ensures PagesGood(Palloc(q).q)
  {
    var q' := Palloc(q).q;
    forall p: nat | IsPage(q', p)
      ensures p in q'.used
    {
      if p != q.next { assert IsPage(q, p); }
    }
  }

  /** Asking for a page keeps the pool in order unless the bump pointer, driven on by failing calls,
      reaches the end of the address space. A page given out was not in use. */
  lemma PallocKeepsGood(q: Pool)
    requires PagesGood(q)
    ensures PagesGood(Palloc(q).q) <==> q.free != [] || q.next + 4096 < WORD
    ensures Palloc(q).p != 0 ==> Palloc(q).p !in q.used
  {
    if q.free != [] {
      PopKeepsGood(q);
    } else if q.next + 4096 < WORD {
      NewPageKeepsGood(q);
    } else {
      assert Palloc(q).q.next == 0;
    }
  }

  /** A page is given out if and only if one has been given back, or one more fits in front of the limit. */
  lemma PallocGrantedIff(q: Pool)
    requires PagesGood(q) && q.next + 4096 < WORD
    ensures Palloc(q).p != 0 <==> q.free != [] || q.next + 4096 <= q.limit
    ensures q.free == [] && q.next + 4096 <= q.limit ==>
      Palloc(q) == PageAllocation(q.(next := q.next + 4096, used := q.used + {q.next}), q.next)
  {
    if q.free != [] { assert IsPage(q, q.free[0]); }
  }

  /** The page given back last is given out first. */
  lemma PfreeThenPalloc(q: Pool, p: nat)
    requires PagesGood(q) && p in q.used
    ensures Palloc(Pfree(q, p)) == PageAllocation(q, p)
  {
    assert ([p] + q.free)[1..] == q.free && q.used - {p} + {p} == q.used;
  }

  lemma PfreeKeepsGood(q: Pool, p: nat)
    requires PagesGood(q) && p in q.used
    ensures PagesGood(Pfree(q, p))
  {
    var q' := Pfree(q, p);
    forall x: nat | IsPage(q', x)
      ensures x in q'.used || x in q'.free
    {
      assert IsPage(q, x);
    }
  }

  // ---------- the whole memory ----------

  const PAGE_RESERVE := 0x40_0000

  datatype Memory = Memory(h: State, q: Pool)

  /** The memory from `base` to `limit`: its last four megabytes are for pages, the first of them at
      least one address behind the blocks. */
  function Init(base: nat, limit: nat): Memory
    requires PAGE_RESERVE <= limit - base
  {
    var blockLimit := limit - PAGE_RESERVE;
    var first := (blockLimit + 4096) / 4096 * 4096;
    Memory(State(base, base, blockLimit, RESERVE, map[], seq(7, _ => [])), Pool(first, first, limit, [], {}))
  }

  /** Blocks and pages are in order, and apart. */
  ghost predicate InOrder(m: Memory) {
    Good(m.h) && PagesGood(m.q) && m.h.limit <= m.q.first
  }

  lemma InitInOrder(base: nat, limit: nat)
    requires 0 < base && base % 16 == 0 && RESERVE + PAGE_RESERVE <= limit < WORD && PAGE_RESERVE <= limit - base
    ensures InOrder(Init(base, limit))
  {
    assert SpansOf(map[]) == map[];
  }

  /** The layout: nothing is in use; 256 KB are reserved; the pages are whole, behind the blocks' limit and
      before the end of the memory. */
  lemma InitLayout(base: nat, limit: nat)
    requires 0x40_0000 <= limit - base
    ensures var m := Init(base, limit);
      && m.h.base == base == m.h.next && m.h.limit == limit - 0x40_0000 && m.h.reserve == 0x4_0000
      && m.h.blocks == map[] && |m.h.free| == 7 && (forall k :: 0 <= k < 7 ==> m.h.free[k] == [])
      && m.q.next == m.q.first && m.q.first % 4096 == 0 && m.h.limit < m.q.first <= m.h.limit + 4096
      && m.q.limit == limit && m.q.free == [] && m.q.used == {}
  {
  }

  datatype Op =
    | MallocOp(n: nat)
    | FreeOp(p: nat)
    | ReallocOp(p: nat, n: nat)
    | PallocOp
    | PfreeOp(p: nat)

  /** Callers give back only what they have, once. */
  predicate Allowed(m: Memory, op: Op) {
    match op
    case MallocOp(n) => n < WORD
    case FreeOp(p) => p == 0 || InUse(m.h, p)
    case ReallocOp(p, n) => n < WORD && (p == 0 || InUse(m.h, p))
    case PallocOp => true
    case PfreeOp(p) => p == 0 || p in m.q.used
  }

  function Apply(m: Memory, op: Op): Memory
    requires |m.h.free| == 7 && Allowed(m, op)
  {
    match op
    case MallocOp(n) => m.(h := Malloc(m.h, n).h)
    case FreeOp(p) => if p == 0 then m else m.(h := Release(m.h, p))
    case ReallocOp(p, n) => m.(h := Realloc(m.h, p, n).h)
    case PallocOp => m.(q := Palloc(m.q).q)
    case PfreeOp(p) => if p == 0 then m else m.(q := Pfree(m.q, p))
  }

  /** What the calls of a run are: each touches its own part, and takes or gives back what it says. */
  lemma CallsAct(m: Memory, n: nat, p: nat)
    requires InOrder(m) && n < WORD
    ensures Apply(m, MallocOp(n)) == m.(h := Malloc(m.h, n).h) && Apply(m, PallocOp) == m.(q := Palloc(m.q).q)
    ensures Apply(m, FreeOp(0)) == m == Apply(m, PfreeOp(0))
    ensures p != 0 && InUse(m.h, p) ==>
      var u := Apply(m, FreeOp(p));
      u.q == m.q && u.h == Release(m.h, p) && !InUse(u.h, p) && Apply(m, ReallocOp(p, n)) == m.(h := Realloc(m.h, p, n).h)
    ensures p != 0 && p in m.q.used ==>
      var u := Apply(m, PfreeOp(p));
      u.h == m.h && u.q == m.q.(free := u.q.free, used := m.q.used - {p}) && u.q.free == [p] + m.q.free
  {
    if p != 0 && InUse(m.h, p) { ReleaseIs(m.h, p); }
  }

  ghost predicate AllAllowed(m: Memory, ops: seq<Op>)
    decreases |ops|
  {
    ops != [] ==> |m.h.free| == 7 && Allowed(m, ops[0]) && AllAllowed(Apply(m, ops[0]), ops[1..])
  }

  function RunFrom(m: Memory, ops: seq<Op>): Memory
    requires AllAllowed(m, ops)
    decreases |ops|
  {
    if ops == [] then m else RunFrom(Apply(m, ops[0]), ops[1..])
  }

  /** Sizes up to the last fifteen. */
  predicate InRange(op: Op) {
    (op.MallocOp? || op.ReallocOp?) ==> op.n <= 0xFFFF_FFF0
  }

  /** The calls that go wrong: asking for one of the last fifteen sizes while there is room for a bare
      header, and asking for a page when none is free and the page pointer has reached the end of the
      address space. */
  predicate Harmless(m: Memory, op: Op) {
    && (InRange(op) || !HeaderFits(m.h))
    && (op.PallocOp? && m.q.free == [] ==> m.q.next + 4096 < WORD)
  }

  lemma StepInOrder(m: Memory, op: Op)
    requires InOrder(m) && Allowed(m, op)
    ensures InOrder(Apply(m, op)) <==> Harmless(m, op)
  {
    BordersStay(m, op);
    BlockStep(m, op);
    PageStep(m, op);
  }

  lemma BordersStay(m: Memory, op: Op)
    requires |m.h.free| == 7 && Allowed(m, op)
    ensures Apply(m, op).h.limit == m.h.limit && Apply(m, op).q.first == m.q.first
  {
  }

  lemma BlockStep(m: Memory, op: Op)
    requires Good(m.h) && Allowed(m, op)
    ensures Good(Apply(m, op).h) <==> InRange(op) || !HeaderFits(m.h)
  {
    match op
    case MallocOp(n) => MallocKeepsGood(m.h, n);
    case FreeOp(p) => if p != 0 { ReleaseKeepsGood(m.h, p); }
    case ReallocOp(p, n) => ReallocKeepsGood(m.h, p, n);
    case _ =>
  }

  lemma PageStep(m: Memory, op: Op)
    requires |m.h.free| == 7 && PagesGood(m.q) && Allowed(m, op)
    ensures PagesGood(Apply(m, op).q) <==> (op.PallocOp? && m.q.free == [] ==> m.q.next + 4096 < WORD)
  {
    match op
    case PallocOp => PallocKeepsGood(m.q);
    case PfreeOp(p) => if p != 0 { PfreeKeepsGood(m.q, p); }
    case _ =>
  }

  /** The memory is in order before and after every call of a run. */
  ghost predicate AlwaysInOrder(m: Memory, ops: seq<Op>)
    requires AllAllowed(m, ops)
    decreases |ops|
  {
    InOrder(m) && (ops != [] ==> AlwaysInOrder(Apply(m, ops[0]), ops[1..]))
  }

  predicate AllHarmless(m: Memory, ops: seq<Op>)
    requires AllAllowed(m, ops)
    decreases |ops|
  {
    ops != [] ==> Harmless(m, ops[0]) && AllHarmless(Apply(m, ops[0]), ops[1..])
  }

  /** In any run of calls the memory stays in order all the time if and only if none of them is one of
      those that go wrong. */
  lemma {:induction false} RunInOrderIff(m: Memory, ops: seq<Op>)
    requires InOrder(m) && AllAllowed(m, ops)
    ensures AlwaysInOrder(m, ops) <==> AllHarmless(m, ops)
    ensures AllHarmless(m, ops) ==> InOrder(RunFrom(m, ops))
    decreases |ops|
  {
    if ops != [] {
      StepInOrder(m, ops[0]);
      if Harmless(m, ops[0]) {
        RunInOrderIff(Apply(m, ops[0]), ops[1..]);
      }
    }
  }

  predicate Fails(m: Memory, op: Op) {
    op.PallocOp? && Palloc(m.q).p == 0
  }

  /** How many times a palloc fails. */
  function Failing(m: Memory, ops: seq<Op>): nat
    requires AllAllowed(m, ops)
    decreases |ops|
  {
    if ops == [] then 0 else (if Fails(m, ops[0]) then 1 else 0) + Failing(Apply(m, ops[0]), ops[1..])
  }

  /** A palloc fails if no page has been given back and no more fits; every one that fails counts once. */
  lemma FailingCounts(m: Memory, op: Op, ops: seq<Op>)
    requires InOrder(m) && m.q.next + 4096 < WORD && AllAllowed(m, [op] + ops)
    ensures Allowed(m, op) && AllAllowed(Apply(m, op), ops) && Failing(m, []) == 0
    ensures Failing(m, [op] + ops) == Failing(Apply(m, op), ops)
      + if op == PallocOp && m.q.free == [] && m.q.next + 4096 > m.q.limit then 1 else 0
  {
    assert ([op] + ops)[1..] == ops;
    PallocGrantedIff(m.q);
  }

  function Max(a: nat, b: nat): nat {
    if a < b then b else a
  }

  lemma PointerMoves(m: Memory, op: Op)
    requires InOrder(m) && Allowed(m, op) && Max(m.q.next, m.q.limit) + 4096 < WORD
    ensures InRange(op) ==> Harmless(m, op)
    ensures var q := Apply(m, op).q;
      Max(q.next, q.limit) <= Max(m.q.next, m.q.limit) + if Fails(m, op) then 4096 else 0
  {
    if op.PallocOp? && m.q.free != [] {
      assert IsPage(m.q, m.q.free[0]);
    }
  }

  /** After any sequence of calls the blocks tile the used part of the heap, every list holds the free
      blocks of its size, and the pages are apart from them. Only pallocs that fail drive the page pointer
      past its limit: there must not be so many of them that it runs through the rest of the address
      space. */
  lemma {:induction false} EveryRunInOrder(m: Memory, ops: seq<Op>)
    requires InOrder(m) && AllAllowed(m, ops) && forall i :: 0 <= i < |ops| ==> InRange(ops[i])
    requires Max(m.q.next, m.q.limit) + 4096 * Failing(m, ops) + 4096 < WORD
    ensures AlwaysInOrder(m, ops) && InOrder(RunFrom(m, ops))
    decreases |ops|
  {
    if ops != [] {
      PointerMoves(m, ops[0]);
      StepInOrder(m, ops[0]);
      EveryRunInOrder(Apply(m, ops[0]), ops[1..]);
    }
  }

  // ---------- the page pointer comes round ----------

  function Repeated(k: nat): (ops: seq<Op>)
    ensures |ops| == k && forall i :: 0 <= i < k ==> ops[i] == PallocOp
  {
    seq(k, _ => PallocOp)
  }

  /** When no page is free and pages are only asked for, the pointer runs through the address space: in
      fewer than 2^20 calls the memory is no longer in order. */
  lemma PagePointerComesRound(m: Memory) returns (k: nat)
    requires InOrder(m) && m.q.free == []
    ensures k < 0x10_0000 && AllAllowed(m, Repeated(k)) && !InOrder(RunFrom(m, Repeated(k)))
  {
    k := (WORD - m.q.next) / 4096;
    RunsRound(m, k);
  }

  lemma {:induction false} RunsRound(m: Memory, k: nat)
    requires InOrder(m) && m.q.free == [] && m.q.next + 4096 * k == WORD
    ensures AllAllowed(m, Repeated(k)) && !InOrder(RunFrom(m, Repeated(k)))
    decreases k
  {
    var m' := Apply(m, PallocOp);
    OnePageOn(m);
    if k > 1 {
      RunsRound(m', k - 1);
    } else {
      assert Repeated(k - 1) == [];
    }
    OneMorePalloc(m, k);
  }

  lemma OneMorePalloc(m: Memory, k: nat)
    requires k > 0 && |m.h.free| == 7 && AllAllowed(Apply(m, PallocOp), Repeated(k - 1))
    ensures AllAllowed(m, Repeated(k)) && RunFrom(m, Repeated(k)) == RunFrom(Apply(m, PallocOp), Repeated(k - 1))
  {
    assert Repeated(k)[1..] == Repeated(k - 1);
  }

  lemma OnePageOn(m: Memory)
    requires InOrder(m) && m.q.free == []
    ensures 4096 <= m.q.next <= WORD - 4096 && |m.h.free| == 7
    ensures var m' := Apply(m, PallocOp);
      if m.q.next + 4096 < WORD then InOrder(m') && m'.q.free == [] && m'.q.next == m.q.next + 4096 else !InOrder(m')
  {
    StepInOrder(m, PallocOp);
  }
}
