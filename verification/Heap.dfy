/** The allocator: bump pointers, free lists threaded through the blocks themselves, and the memory the
    callers' data is in. */
module Heap {
  import opened Words
  import opened HeapSpec

  /** What the header in front of a block says. */
  datatype Header = Header(size: nat, next: nat)

  type Headers = map<nat, Header>

  /** Following the links from `head` leads through exactly the blocks of `list`. */
  ghost predicate Links(headers: Headers, head: nat, list: seq<nat>)
    decreases |list|
  {
    if list == [] then head == 0
    else head == list[0] && head != 0 && head in headers && Links(headers, headers[head].next, list[1..])
  }

  lemma {:induction false} LinksElsewhere(headers: Headers, head: nat, list: seq<nat>, p: nat, header: Header)
    requires Links(headers, head, list) && p !in list
    ensures Links(headers[p := header], head, list)
    decreases |list|
  {
    if list != [] {
      LinksElsewhere(headers, headers[head].next, list[1..], p, header);
    }
  }

  /** Every list is linked from its bucket. */
  ghost predicate AllLinked(headers: Headers, heads: seq<nat>, free: seq<seq<nat>>) {
    |heads| == 7 == |free| && forall k :: 0 <= k < 7 ==> Links(headers, heads[k], free[k])
  }

  ghost predicate SizesAgree(headers: Headers, blocks: Blocks) {
    headers.Keys == blocks.Keys && forall a :: a in blocks ==> headers[a].size == blocks[a].size
  }

  lemma InNoList(h: State, p: nat)
    requires Good(h) && (p in h.blocks ==> h.blocks[p].status != Free)
    ensures forall k :: 0 <= k < 7 ==> p !in h.free[k]
  {
  }

  lemma RewrittenAgrees(headers: Headers, blocks: Blocks, p: nat, header: Header, status: Status)
    requires SizesAgree(headers, blocks)
    ensures SizesAgree(headers[p := header], blocks[p := Block(header.size, status)])
  {
  }

  /** The lists do not notice what is written to a block in none of them. */
  lemma AllLinkedElsewhere(headers: Headers, heads: seq<nat>, free: seq<seq<nat>>, p: nat, header: Header)
    requires AllLinked(headers, heads, free) && forall k :: 0 <= k < 7 ==> p !in free[k]
    ensures AllLinked(headers[p := header], heads, free)
  {
    forall k | 0 <= k < 7
      ensures Links(headers[p := header], heads[k], free[k])
    {
      LinksElsewhere(headers, heads[k], free[k], p, header);
    }
  }

  /** Putting a block at the head of a list. */
  lemma PushLinked(headers: Headers, heads: seq<nat>, free: seq<seq<nat>>, p: nat, k: nat, size: nat)
    requires AllLinked(headers, heads, free) && k < 7 && p != 0 && forall k :: 0 <= k < 7 ==> p !in free[k]
    ensures AllLinked(headers[p := Header(size, heads[k])], heads[k := p], free[k := [p] + free[k]])
  {
    var headers' := headers[p := Header(size, heads[k])];
    AllLinkedElsewhere(headers, heads, free, p, Header(size, heads[k]));
    assert ([p] + free[k])[1..] == free[k];
    assert Links(headers', p, [p] + free[k]);
  }

  /** Taking the head of a list off. */
  lemma PopLinked(h: State, headers: Headers, heads: seq<nat>, k: nat)
    requires Good(h) && AllLinked(headers, heads, h.free) && k < 7 && h.free[k] != []
    ensures heads[k] == h.free[k][0] && heads[k] in headers && heads[k] != 0
    ensures var p := heads[k];
      AllLinked(headers[p := headers[p].(next := 0)], heads[k := headers[p].next], h.free[k := h.free[k][1..]])
  {
    var p := heads[k];
    assert Links(headers, heads[k], h.free[k]);
    var free' := h.free[k := h.free[k][1..]];
    forall j | 0 <= j < 7
      ensures p !in free'[j]
    {
      PoppedIsGone(h, k, j);
    }
    AllLinkedElsewhere(headers, heads[k := headers[p].next], free', p, headers[p].(next := 0));
  }

  lemma PoppedIsGone(h: State, k: nat, j: nat)
    requires Good(h) && k < 7 && j < 7 && h.free[k] != []
    ensures h.free[k][0] !in h.free[k := h.free[k][1..]][j]
  {
    if j == k {
      assert forall i :: 0 <= i < |h.free[k][1..]| ==> h.free[k][1..][i] == h.free[k][i + 1];
    }
  }

  // ---------- the data ----------

  type Bytes = seq<Byte>

  /** `n` bytes copied from `from` to `to`. */
  function Copied(s: Bytes, to: nat, from: nat, n: nat): Bytes
    requires to + n <= |s| && from + n <= |s|
  {
    s[..to] + s[from..from + n] + s[to + n..]
  }

  lemma CopyOneMore(s: Bytes, to: nat, from: nat, n: nat)
    requires to + n < |s| && from + n < |s| && (from + n < to || to + n <= from + n)
    ensures |Copied(s, to, from, n)| == |s| && Copied(s, to, from, n)[from + n] == s[from + n]
    ensures Copied(s, to, from, n)[to + n := s[from + n]] == Copied(s, to, from, n + 1)
  {
    assert s[from..from + n + 1] == s[from..from + n] + [s[from + n]];
    assert s[to + n..] == [s[to + n]] + s[to + n + 1..];
  }

  lemma CopyNothing(s: Bytes, to: nat, from: nat)
    requires to <= |s| && from <= |s|
    ensures Copied(s, to, from, 0) == s
  {
  }

  method Copy(memory: array<Byte>, to: nat, from: nat, n: nat)
    requires to + n <= memory.Length && from + n <= memory.Length && (to + n <= from || from + n <= to)
    modifies memory
    ensures memory[..] == CopyOf(old(memory[..]), to, from, n)
  {
    ghost var before := memory[..];
    CopyNothing(before, to, from);
    var i := 0;
    while i < n
      invariant i <= n && memory[..] == Copied(before, to, from, i)
    {
      CopyOneMore(before, to, from, i);
      memory[to + i] := memory[from + i];
      i := i + 1;
    }
  }

  /** Does resizing move the block? */
  predicate Moves(h: State, p: nat, n: nat)
    requires |h.free| == 7
  {
    p != 0 && n > 0 && p in h.blocks && h.blocks[p].size < n && HeapSpec.Malloc(h, n).p != 0
  }

  /** A block that moves gets a larger one, apart from it and from all others. */
  lemma MovesApart(h: State, p: nat, n: nat)
    requires Good(h) && InUse(h, p) && n <= 0xFFFF_FFF0 && Moves(h, p, n)
    ensures var r := HeapSpec.Realloc(h, p, n);
      && r.p == HeapSpec.Malloc(h, n).p != p && InUse(r.h, r.p) && r.h.blocks[r.p].size >= n
      && r.p + HEADER + r.h.blocks[r.p].size <= h.limit
      && (forall b :: b in h.blocks && b != r.p ==> b + HEADER + h.blocks[b].size <= h.limit)
      && (forall b :: b in h.blocks && b != r.p ==>
            r.p + HEADER + r.h.blocks[r.p].size <= b + HEADER || b + HEADER + h.blocks[b].size <= r.p + HEADER)
  {
    MallocGives(h, n);
    var a := HeapSpec.Malloc(h, n);
    forall b | b in h.blocks && b != a.p
      ensures b + HEADER + h.blocks[b].size <= h.limit
      ensures a.p + HEADER + a.h.blocks[a.p].size <= b + HEADER || b + HEADER + h.blocks[b].size <= a.p + HEADER
    {
      NewBlockApart(h, n, b);
    }
    NewBlockApart(h, n, p);
  }

  lemma NewBlockApart(h: State, n: nat, b: nat)
    requires Good(h) && n <= 0xFFFF_FFF0 && HeapSpec.Malloc(h, n).p != 0 && b in h.blocks && b != HeapSpec.Malloc(h, n).p
    ensures var a := HeapSpec.Malloc(h, n);
      && a.p in a.h.blocks && a.p + HEADER + a.h.blocks[a.p].size <= h.limit
      && b + HEADER + h.blocks[b].size <= h.limit
      && (a.p + HEADER + a.h.blocks[a.p].size <= b || b + HEADER + h.blocks[b].size <= a.p)
  {
    MallocKeepsGood(h, n);
    MallocGives(h, n);
    DataApart(HeapSpec.Malloc(h, n).h, HeapSpec.Malloc(h, n).p, b);
    DataApart(HeapSpec.Malloc(h, n).h, b, HeapSpec.Malloc(h, n).p);
  }

  /** The data behind the header of a block of `size` bytes. */
  function DataAt(s: Bytes, b: nat, size: nat): Bytes
    requires b + HEADER + size <= |s|
  {
    s[b + HEADER..b + HEADER + size]
  }

  lemma CopiedPart(s: Bytes, to: nat, from: nat, n: nat)
    requires to + n <= |s| && from + n <= |s|
    ensures |Copied(s, to, from, n)| == |s|
    ensures Copied(s, to, from, n)[to..to + n] == s[from..from + n]
  {
  }

  lemma CopiedElsewhere(s: Bytes, to: nat, from: nat, n: nat, lo: nat, hi: nat)
    requires to + n <= |s| && from + n <= |s| && lo <= hi <= |s| && (hi <= to || to + n <= lo)
    ensures |Copied(s, to, from, n)| == |s|
    ensures Copied(s, to, from, n)[lo..hi] == s[lo..hi]
  {
  }

  /** The memory after resizing: if the block moves, its data has been copied to the new one. */
  function DataAfter(h: State, p: nat, n: nat, s: Bytes): Bytes
    requires |h.free| == 7
  {
    if Moves(h, p, n) then CopyOf(s, HeapSpec.Malloc(h, n).p + HEADER, p + HEADER, h.blocks[p].size) else s
  }

  /** What is left to do once the larger block `a.p` has been got. */
  lemma ThenCopies(h: State, p: nat, n: nat, s: Bytes, a: Allocation)
    requires |h.free| == 7 && p != 0 && p in h.blocks && h.blocks[p].size < n
    requires a == HeapSpec.Malloc(h, n) && (a.p != 0 ==> p in a.h.blocks)
    ensures Realloc(h, p, n) == Allocation(if a.p == 0 then a.h else Release(a.h, p), a.p)
    ensures DataAfter(h, p, n, s) == if a.p == 0 then s else CopyOf(s, a.p + HEADER, p + HEADER, h.blocks[p].size)
  {
  }

  /** The data of the blocks at `p` and `r` is in the memory, and apart. */
  predicate CopyFits(p: nat, r: nat, size: nat, length: nat) {
    && p + HEADER + size <= length && r + HEADER + size <= length
    && (r + size <= p || p + size <= r)
  }

  lemma OldBlockStays(h: State, p: nat, n: nat)
    requires Good(h) && InUse(h, p) && n <= 0xFFFF_FFF0 && Moves(h, p, n)
    ensures var a := HeapSpec.Malloc(h, n);
      && InUse(a.h, p) && a.h.blocks[p] == h.blocks[p]
      && a.h.limit == h.limit && CopyFits(p, a.p, h.blocks[p].size, h.limit)
  {
    MallocGives(h, n);
    MovesApart(h, p, n);
  }

  function CopyOf(s: Bytes, to: nat, from: nat, n: nat): Bytes {
    if to + n <= |s| && from + n <= |s| then Copied(s, to, from, n) else s
  }

  /** A block that moves keeps its data, as the beginning of the new block's; every other block, in use
      or not, keeps its own. */
  lemma ReallocKeepsData(h: State, p: nat, n: nat, s: Bytes, b: nat)
    requires Good(h) && InUse(h, p) && n <= 0xFFFF_FFF0 && Moves(h, p, n) && |s| >= h.limit
    requires b in h.blocks && b != HeapSpec.Realloc(h, p, n).p
    ensures |DataAfter(h, p, n, s)| == |s| && b + HEADER + h.blocks[b].size <= |s|
    ensures DataAt(DataAfter(h, p, n, s), b, h.blocks[b].size) == DataAt(s, b, h.blocks[b].size)
    ensures p + HEADER + h.blocks[p].size <= |s|
    ensures var r := HeapSpec.Realloc(h, p, n);
      && InUse(r.h, r.p) && r.h.blocks[r.p].size >= n > h.blocks[p].size && r.p + HEADER + h.blocks[p].size <= |s|
      && DataAt(DataAfter(h, p, n, s), r.p, h.blocks[p].size) == DataAt(s, p, h.blocks[p].size)
  {
    MovesApart(h, p, n);
    var to, from, size := HeapSpec.Malloc(h, n).p + HEADER, p + HEADER, h.blocks[p].size;
    CopiedPart(s, to, from, size);
    CopiedElsewhere(s, to, from, size, b + HEADER, b + HEADER + h.blocks[b].size);
  }

  /** If there is no memory, the block stays in use as it is, and so does all the data; only the reserve
      is given up. */
  lemma ReallocFails(h: State, p: nat, n: nat, s: Bytes)
    requires Good(h) && InUse(h, p) && 0 < n < WORD && HeapSpec.Realloc(h, p, n).p == 0
    ensures HeapSpec.Realloc(h, p, n).h == h.(reserve := 0) && InUse(HeapSpec.Realloc(h, p, n).h, p)
    ensures DataAfter(h, p, n, s) == s
  {
    BlockIsInside(SpansOf(h.blocks), h.base, h.next, p);
    MallocFails(h, n);
  }

  lemma BucketFound(n: nat, k: nat)
    requires k <= 7 && (forall j: nat :: j < k ==> BucketSize(j) < n) && (k < 7 ==> n <= BucketSize(k))
    ensures k == Bucket(n) && Rounded(n) == if k < 7 then BucketSize(k) else n
  {
  }

  class Heap {
    var nextBlock: nat
    var blockLimit: nat
    var blockReserve: nat
    const buckets: array<nat>
    /** The headers of the blocks, and the rest of the memory byte by byte. */
    var headers: Headers
    const memory: array<Byte>
    /** The heap as blocks and lists. */
    ghost var h: State

    ghost predicate Valid()
      reads this, buckets
    {
      && buckets.Length == 7 && buckets as object != memory as object
      && nextBlock == h.next && blockLimit == h.limit && blockReserve == h.reserve
      && h.limit <= memory.Length
      && SizesAgree(headers, h.blocks) && AllLinked(headers, buckets[..], h.free)
    }

    /** Set up the heap; the blocks begin at `heapStart` or above. */
    constructor (base: nat, size: nat, heapStart: nat, memory: array<Byte>)
      requires base + size < WORD && base % 16 == 0 && 0 < heapStart && heapStart % 16 == 0
      requires RESERVE + PAGE_RESERVE <= base + size && PAGE_RESERVE <= size && heapStart + PAGE_RESERVE <= base + size
      requires base + size <= memory.Length
      ensures Valid() && h == Init(if base < heapStart then heapStart else base, base + size).h && Good(h)
      ensures this.memory == memory && fresh(buckets)
    {
      var limit := base + size;
      var start := if base < heapStart then heapStart else base;
      var blockReserve' := limit - start - PAGE_RESERVE;
      nextBlock := start;
      blockLimit := start + blockReserve';
      blockReserve := RESERVE;
      buckets := new nat[7](_ => 0);
      headers := map[];
      this.memory := memory;
      h := Init(start, limit).h;
      new;
      InitInOrder(start, limit);
    }

    /** Take a block off the list of bucket `k`. */
    method Pop(k: nat) returns (p: nat)
      requires Valid() && Good(h) && k < 7 && buckets[k] != 0
      modifies this`headers, this`h, buckets
      ensures Valid() && p != 0
      ensures h.free != [] && old(h).free[k] != [] && h == Reuse(old(h), k).h && p == Reuse(old(h), k).p
    {
      assert Links(headers, buckets[k], h.free[k]);
      PopLinked(h, headers, buckets[..], k);
      p := buckets[k];
      RewrittenAgrees(headers, h.blocks, p, headers[p].(next := 0), Live);
      assert h.blocks[h.free[k][0]] == Block(BucketSize(k), Status.Free);
      buckets[k] := headers[p].next;
      headers := headers[p := headers[p].(next := 0)];
      h := Reuse(h, k).h;
    }

    /** Move the bump pointer. */
    method CarveBlock(size: nat) returns (p: nat)
      requires Valid() && Good(h)
      modifies this`nextBlock, this`blockReserve, this`headers, this`h
      ensures Valid() && h == Carve(old(h), size).h && p == Carve(old(h), size).p
    {
      p := nextBlock;
      var next := U32(nextBlock + U32(HEADER + size + 15) / 16 * 16);
      if next <= nextBlock || next > blockLimit - blockReserve {
        blockReserve := 0;
        h := Carve(h, size).h;
        return 0;
      }
      AddBlock(size, next);
    }

    method AddBlock(size: nat, next: nat)
      requires Valid() && Good(h)
      requires Carve(h, size).h == h.(next := next, blocks := h.blocks[h.next := Block(size, Live)])
      modifies this`nextBlock, this`headers, this`h
      ensures Valid() && h == Carve(old(h), size).h
    {
      TilesBounds(SpansOf(h.blocks), h.base, h.next);
      InNoList(h, nextBlock);
      AllLinkedElsewhere(headers, buckets[..], h.free, nextBlock, Header(size, 0));
      RewrittenAgrees(headers, h.blocks, nextBlock, Header(size, 0), Live);
      headers := headers[nextBlock := Header(size, 0)];
      h := Carve(h, size).h;
      nextBlock := next;
    }

    /** The block found is named by its header's address; its data is behind the header. */
    method Malloc(n: nat) returns (p: nat)
      requires Valid() && Good(h)
      modifies this`nextBlock, this`blockReserve, this`headers, this`h, buckets
      ensures Valid() && h == HeapSpec.Malloc(old(h), n).h && p == HeapSpec.Malloc(old(h), n).p
    {
      var k, size := 0, n;
      while k < 7
        invariant k <= 7 && size == n && forall j: nat :: j < k ==> BucketSize(j) < n
      {
        if n <= BucketSize(k) {
          size := BucketSize(k);
          break;
        }
        k := k + 1;
      }
      BucketFound(n, k);
      if k < 7 {
        assert Links(headers, buckets[k], h.free[k]);
        if buckets[k] != 0 {
          p := Pop(k);
          return;
        }
      }
      p := CarveBlock(size);
    }

    /** The block goes to the front of the list of bucket `k`. */
    method PushFree(p: nat, k: nat, size: nat)
      requires Valid() && Good(h) && p != 0 && InUse(h, p)
      requires k < 7 && size == headers[p].size == BucketSize(k) && forall j: nat :: j < k ==> BucketSize(j) != size
      modifies this`headers, this`h, buckets
      ensures Valid() && h == Release(old(h), p)
    {
      InNoList(h, p);
      PushLinked(headers, buckets[..], h.free, p, k, size);
      RewrittenAgrees(headers, h.blocks, p, Header(size, buckets[k]), Status.Free);
      headers := headers[p := headers[p].(next := buckets[k])];
      buckets[k] := p;
      h := Release(h, p);
    }

    method Free(p: nat)
      requires Valid() && Good(h) && (p == 0 || InUse(h, p))
      modifies this`headers, this`h, buckets
      ensures Valid() && h == if p == 0 then old(h) else Release(old(h), p)
    {
      if p == 0 {
        return;
      }
      var size := headers[p].size;
      var k := 0;
      while k < 7
        invariant k <= 7 && forall j: nat :: j < k ==> BucketSize(j) != size
      {
        if size == BucketSize(k) {
          PushFree(p, k, size);
          return;
        }
        k := k + 1;
      }
      h := Release(h, p);
    }

    /** Resize a block. If it moves, its data comes along; nothing else is written to the memory. */
    method Realloc(p: nat, n: nat) returns (r: nat)
      requires Valid() && Good(h) && (p == 0 || InUse(h, p)) && n <= 0xFFFF_FFF0
      modifies this`nextBlock, this`blockReserve, this`headers, this`h, buckets, memory
      ensures Valid() && Good(h)
      ensures h == HeapSpec.Realloc(old(h), p, n).h && r == HeapSpec.Realloc(old(h), p, n).p
      ensures memory[..] == DataAfter(old(h), p, n, old(memory[..]))
    {
      ReallocKeepsGood(h, p, n);
      if p == 0 {
        r := Malloc(n);
        return;
      }
      if n == 0 {
        Free(p);
        return 0;
      }
      var size := headers[p].size;
      if size >= n {
        return p;
      }
      r := Move(p, n, size);
    }

    /** Get a larger block and copy the data there. */
    method Move(p: nat, n: nat, size: nat) returns (r: nat)
      requires Valid() && Good(h) && p != 0 && InUse(h, p) && n <= 0xFFFF_FFF0 && size == h.blocks[p].size < n
      modifies this`nextBlock, this`blockReserve, this`headers, this`h, buckets, memory
      ensures Valid()
      ensures h == HeapSpec.Realloc(old(h), p, n).h && r == HeapSpec.Realloc(old(h), p, n).p
      ensures memory[..] == DataAfter(old(h), p, n, old(memory[..]))
    {
      ghost var s := memory[..];
      r := Acquire(p, n);
      assert memory[..] == s;
      if r != 0 {
        Hand(p, r, size);
      }
    }

    /** The data of one block goes to another one, and the block is freed. */
    method Hand(p: nat, r: nat, size: nat)
      requires Valid() && Good(h) && p != 0 && InUse(h, p)
      requires CopyFits(p, r, size, memory.Length)
      modifies this`headers, this`h, buckets, memory
      ensures Valid() && h == Release(old(h), p)
      ensures memory[..] == CopyOf(old(memory[..]), r + HEADER, p + HEADER, size)
    {
      Copy(memory, r + HEADER, p + HEADER, size);
      Free(p);
    }

    /** The larger block, apart from the old one. */
    method Acquire(p: nat, n: nat) returns (r: nat)
      requires Valid() && Good(h) && p != 0 && InUse(h, p) && n <= 0xFFFF_FFF0 && h.blocks[p].size < n
      modifies this`nextBlock, this`blockReserve, this`headers, this`h, buckets
      ensures Valid() && Good(h)
      ensures r != 0 ==> InUse(h, p) && h.blocks[p] == old(h.blocks[p]) && CopyFits(p, r, h.blocks[p].size, memory.Length)
      ensures HeapSpec.Realloc(old(h), p, n) == Allocation(if r == 0 then h else Release(h, p), r)
      ensures DataAfter(old(h), p, n, memory[..])
        == if r == 0 then memory[..] else CopyOf(memory[..], r + HEADER, p + HEADER, old(h.blocks[p].size))
    {
      ghost var h0 := h;
      r := Enlarge(p, n);
      ThenCopies(h0, p, n, memory[..], Allocation(h, r));
    }

    method Enlarge(p: nat, n: nat) returns (r: nat)
      requires Valid() && Good(h) && p != 0 && InUse(h, p) && n <= 0xFFFF_FFF0 && h.blocks[p].size < n
      modifies this`nextBlock, this`blockReserve, this`headers, this`h, buckets
      ensures Valid() && Good(h)
      ensures r != 0 ==> InUse(h, p) && h.blocks[p] == old(h.blocks[p]) && CopyFits(p, r, h.blocks[p].size, memory.Length)
      ensures Allocation(h, r) == HeapSpec.Malloc(old(h), n)
    {
      MallocKeepsGood(h, n);
      if HeapSpec.Malloc(h, n).p != 0 {
        OldBlockStays(h, p, n);
      }
      r := Malloc(n);
    }
  }

  const FREEPAGE_MAGIC := 0x5047_4D43

  class Pages {
    var nextPage: nat
    var pageLimit: nat
    var freeList: nat
    /** What is written at the beginning of pages that are or have been free: a magic number, and the
        link to the next one. */
    var headers: Headers
    ghost var q: Pool

    ghost predicate Valid()
      reads this
    {
      nextPage == q.next && pageLimit == q.limit && Links(headers, freeList, q.free)
    }

    constructor (base: nat, size: nat, heapStart: nat)
      requires base + size < WORD && PAGE_RESERVE <= size && heapStart + PAGE_RESERVE <= base + size
      ensures Valid() && q == Init(if base < heapStart then heapStart else base, base + size).q
    {
      var limit := base + size;
      var start := if base < heapStart then heapStart else base;
      nextPage := (start + (limit - start - PAGE_RESERVE) + 4096) / 4096 * 4096;
      pageLimit := limit;
      freeList := 0;
      headers := map[];
      q := Init(start, limit).q;
    }

    method Palloc() returns (p: nat)
      requires Valid() && PagesGood(q)
      modifies this
      ensures Valid() && q == HeapSpec.Palloc(old(q)).q && p == HeapSpec.Palloc(old(q)).p
    {
      if freeList != 0 {
        p := freeList;
        PagePopped(q);
        LinksElsewhere(headers, headers[p].next, q.free[1..], p, Header(0, headers[p].next));
        freeList := headers[p].next;
        headers := headers[p := Header(0, headers[p].next)];
        q := HeapSpec.Palloc(q).q;
      } else {
        p := nextPage;
        nextPage := U32(nextPage + 4096);
        q := HeapSpec.Palloc(q).q;
        if nextPage > pageLimit {
          return 0;
        }
      }
    }

    method Pfree(p: nat)
      requires Valid() && PagesGood(q) && (p == 0 || p in q.used)
      modifies this
      ensures Valid() && q == if p == 0 then old(q) else HeapSpec.Pfree(old(q), p)
    {
      if p == 0 {
        return;
      }
      assert p !in q.free;
      LinksElsewhere(headers, freeList, q.free, p, Header(FREEPAGE_MAGIC, freeList));
      assert ([p] + q.free)[1..] == q.free;
      headers := headers[p := Header(FREEPAGE_MAGIC, freeList)];
      freeList := p;
      q := HeapSpec.Pfree(q, p);
    }
  }

  lemma PagePopped(q: Pool)
    requires PagesGood(q) && q.free != []
    ensures q.free[0] !in q.free[1..]
  {
    assert forall i :: 0 <= i < |q.free[1..]| ==> q.free[1..][i] == q.free[i + 1];
  }
}
