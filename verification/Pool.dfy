/** The pool's operations, src/nxt_mp.c: alloc, align, get, nget, free and destroy, over the state of MemPool. */
module Pool {
  import opened Bytes
  import opened Pow2
  import opened MemPool
  import BlockTree
  import LevelHashWord

  const MAX_ALIGNMENT: nat := 16
  const POINTER_SHIFT: nat := 3
  const HASH_BLOCK: nat := 128

  // ---------- sizes

  /** nxt_mp_chunk_pages_index: the first list whose chunks are large enough. */
  function ChunkIndex(z: Sizes, size: nat): nat {
    if size > 1 && Lg2(size - 1) + 1 > z.c then Lg2(size - 1) + 1 - z.c else 0
  }

  lemma PowHalf(n: nat)
    ensures Pow(n + 1) == 2 * Pow(n)
  {
  }

  lemma IndexFits(z: Sizes, size: nat)
    ensures size <= ChunkSize(z, ChunkIndex(z, size))
  {
    if size > 1 {
      var n := Lg2(size - 1);
      hide Lg2, Pow;
      PowMono(n + 1, z.c + ChunkIndex(z, size));
    }
  }

  lemma HalfPage(z: Sizes)
    requires SizesOk(z)
    ensures PageSize(z) / 2 == Pow(z.c + z.k - 1)
  {
    hide Pow;
    PowHalf(z.c + z.k - 1);
    Halved(PageSize(z), Pow(z.c + z.k - 1));
  }

  lemma Halved(x: nat, h: nat)
    requires x == 2 * h
    ensures x / 2 == h
  {
  }

  lemma IndexInRange(z: Sizes, size: nat)
    requires SizesOk(z) && size <= PageSize(z) / 2
    ensures ChunkIndex(z, size) < z.k
  {
    hide Lg2, Pow, PageSize;
    HalfPage(z);
    if size > 1 && Lg2(size - 1) >= z.c + z.k - 1 {
      PowMono(z.c + z.k - 1, Lg2(size - 1));
    }
  }

  lemma IndexAtMost(z: Sizes, size: nat)
    requires SizesOk(z)
    ensures size <= PageSize(z) / 2 ==> ChunkIndex(z, size) < z.k
  {
    if size <= PageSize(z) / 2 {
      IndexInRange(z, size);
    }
  }

  /** No earlier list would do. */
  lemma IndexIsLeast(z: Sizes, size: nat, i: nat)
    requires i < ChunkIndex(z, size)
    ensures ChunkSize(z, i) < size
  {
    PowMono(z.c + i, Lg2(size - 1));
  }

  // ---------- creation

  predicate IsPowerOfTwo(v: nat) { v == 0 || Pow(Lg2(v)) == v }

  function Max(a: nat, b: nat): nat { if a < b then b else a }

  /** nxt_mp_test_sizes */
  predicate TestSizes(clusterSize: nat, pageAlignment: nat, pageSize: nat, minChunkSize: nat) {
    && IsPowerOfTwo(pageAlignment) && IsPowerOfTwo(pageSize) && IsPowerOfTwo(minChunkSize)
    && pageSize >= 64 && pageSize >= Max(pageAlignment, MAX_ALIGNMENT) && pageSize >= minChunkSize
    && minChunkSize * 32 >= pageSize && clusterSize >= pageSize && clusterSize / pageSize <= 256
      && clusterSize % pageSize == 0
  }

  /** The shifts nxt_mp_create computes. */
  function SizesOf(clusterSize: nat, pageAlignment: nat, pageSize: nat, minChunkSize: nat): Sizes
    requires pageSize >= minChunkSize > 0
  {
    LgMono(minChunkSize, pageSize);
    var c, p, a := Lg2(minChunkSize), Lg2(pageSize), Lg2(Max(pageAlignment, MAX_ALIGNMENT));
    Sizes(c, p - c, a, Quotient(clusterSize, pageSize))
  }

  function Quotient(x: nat, w: nat): (q: nat)
    requires w > 0
    ensures q * w <= x < q * w + w
  {
    x / w
  }

  lemma LgMono(a: nat, b: nat)
    requires 0 < a <= b
    ensures Lg2(a) <= Lg2(b)
  {
    if Lg2(b) < Lg2(a) {
      PowMono(Lg2(b) + 1, Lg2(a));
    }
  }

  /**
   * Sizes that pass the test are the model's, unless a page is no larger than the smallest chunk: the pool then has no
   * chunk list, although half a page is still looked up in one.
   */
  lemma TestedSizes(clusterSize: nat, pageAlignment: nat, pageSize: nat, minChunkSize: nat)
    requires TestSizes(clusterSize, pageAlignment, pageSize, minChunkSize)
    ensures minChunkSize > 0
    ensures var z := SizesOf(clusterSize, pageAlignment, pageSize, minChunkSize);
      && (SizesOk(z) <==> minChunkSize < pageSize) && (SizesOk(z) <==> ChunkIndex(z, pageSize / 2) < z.k)
      && PageSize(z) == pageSize && ClusterSize(z) == clusterSize && ChunkSize(z, 0) == minChunkSize
      && Pow(z.a) == Max(pageAlignment, MAX_ALIGNMENT)
  {
    SizesOfFacts(clusterSize, pageAlignment, pageSize, minChunkSize);
    hide SizesOf, TestSizes, Pow, Lg2, Max, ChunkIndex;
    var z := SizesOf(clusterSize, pageAlignment, pageSize, minChunkSize);
    TestedExponents(z, minChunkSize, pageSize);
    HalfPageLookup(z);
  }

  /** Such sizes exist: a pool of 128-byte pages and chunks passes the test, and looks 64 bytes up in no list. */
  lemma EqualSizesPass()
    ensures TestSizes(1024, 128, 128, 128)
    ensures var z := SizesOf(1024, 128, 128, 128); !SizesOk(z) && ChunkIndex(z, 64) >= z.k
  {
    assert Pow(7) == 128;
    LgOfPow(7);
    TestedSizes(1024, 128, 128, 128);
  }

  lemma HalfPageLookup(z: Sizes)
    requires z.k > 0 ==> SizesOk(z)
    ensures ChunkIndex(z, PageSize(z) / 2) < z.k <==> z.k > 0
    ensures z.k > 0 <==> ChunkSize(z, 0) < PageSize(z)
  {
    if z.k > 0 {
      PowStrict(z.c, z.c + z.k);
      IndexInRange(z, PageSize(z) / 2);
    }
  }

  lemma SizesOfFacts(clusterSize: nat, pageAlignment: nat, pageSize: nat, minChunkSize: nat)
    requires TestSizes(clusterSize, pageAlignment, pageSize, minChunkSize)
    ensures 0 < minChunkSize <= pageSize && minChunkSize * 32 >= pageSize
    ensures Max(pageAlignment, MAX_ALIGNMENT) <= pageSize
    ensures var z := SizesOf(clusterSize, pageAlignment, pageSize, minChunkSize);
      && Pow(z.c) == minChunkSize && Pow(z.c + z.k) == pageSize && 1 <= z.pages <= 256
        && z.pages * pageSize == clusterSize
      && Pow(z.a) == Max(pageAlignment, MAX_ALIGNMENT)
  {
    MaxIsPower(pageAlignment);
    WholePages(clusterSize, pageSize);
    LgMono(minChunkSize, pageSize);
    hide Pow, Lg2;
  }

  lemma WholePages(clusterSize: nat, pageSize: nat)
    requires 0 < pageSize <= clusterSize && clusterSize % pageSize == 0
    ensures clusterSize / pageSize >= 1 && clusterSize / pageSize * pageSize == clusterSize
  {
  }

  lemma MaxIsPower(pageAlignment: nat)
    requires IsPowerOfTwo(pageAlignment)
    ensures Pow(Lg2(Max(pageAlignment, MAX_ALIGNMENT))) == Max(pageAlignment, MAX_ALIGNMENT)
  {
    assert Pow(4) == MAX_ALIGNMENT;
    LgOfPow(4);
  }

  lemma TestedExponents(z: Sizes, minChunkSize: nat, pageSize: nat)
    requires Pow(z.c) == minChunkSize && Pow(z.c + z.k) == pageSize
    requires minChunkSize * 32 >= pageSize && Pow(z.a) <= pageSize
    ensures z.k <= 5 && z.a <= z.c + z.k
  {
    Exponents(z.a, z.c + z.k);
    PowSum(5, z.c);
    assert Pow(5) == 32;
    if z.k > 5 {
      PowStrict(z.c + 5, z.c + z.k);
    }
  }

  // ---------- addresses

  lemma EvenMultiple(q: nat, e: nat)
    requires e > 0
    ensures BlockTree.Even(q * Pow(e))
  {
    assert Pow(e) == 2 * Pow(e - 1);
    Half(q * Pow(e), q * Pow(e - 1));
  }

  lemma Half(a: nat, h: nat)
    requires a == 2 * h
    ensures BlockTree.Even(a)
  {
  }

  function Spans(z: Sizes, m: Blocks): map<nat, nat> { map a | a in m :: Span(z, m[a]) }

  lemma SpansDisjoint(z: Sizes, m: Blocks)
    requires BlocksOk(z, m)
    ensures BlockTree.Disjoint(Spans(z, m))
  {
    forall a, b | a in m && b in m && a < b
      ensures a + Span(z, m[a]) <= b
    {
      assert Apart(a, Span(z, m[a]), b, Span(z, m[b]));
    }
  }

  /** The bytes of a page of non-freeable memory that have been handed out. */
  function TakenOf(m: Blocks, r: Ref): nat {
    if IsPage(m, r) && PageOf(m, r).size == NONFREEABLE then PageOf(m, r).taken else 0
  }

  ghost predicate SameTaken(m: Blocks, m': Blocks) {
    forall r :: TakenOf(m, r) == TakenOf(m', r)
  }

  // The blocks that are never freed.
  ghost predicate IsPermanent(m: Blocks, a: nat) {
    a in m && m[a].Large? && !m[a].freeable
  }

  ghost predicate SameBlocks(m: Blocks, m': Blocks) {
    && (forall a :: IsPermanent(m, a) <==> IsPermanent(m', a))
    && (forall a :: IsPermanent(m, a) ==> m[a] == m'[a])
  }

  /** No byte of non-freeable memory has been handed out or taken back. */
  ghost predicate SamePermanent(m: Blocks, m': Blocks) {
    SameTaken(m, m') && SameBlocks(m, m')
  }

  // Pages of non-freeable memory alone matter.
  lemma SetPagePermanent(m: Blocks, r: Ref, p: Page)
    requires IsPage(m, r) && PageOf(m, r).size != NONFREEABLE && p.size != NONFREEABLE
    ensures SamePermanent(m, SetPage(m, r, p))
  {
    forall q
      ensures TakenOf(m, q) == TakenOf(SetPage(m, r, p), q)
    {
      SetPageFacts(m, r, p, q);
    }
  }

  lemma CountPermanent(m: Blocks, r: Ref, p: Page)
    requires IsPage(m, r) && p.size == PageOf(m, r).size && p.taken == PageOf(m, r).taken
    ensures SamePermanent(m, SetPage(m, r, p))
  {
    forall q
      ensures TakenOf(m, q) == TakenOf(SetPage(m, r, p), q)
    {
      SetPageFacts(m, r, p, q);
    }
  }

  lemma AddLargePermanent(m: Blocks, a: nat, b: Block)
    requires a !in m && b.Large? && b.freeable
    ensures SamePermanent(m, m[a := b])
  {
  }

  lemma DropPermanent(m: Blocks, a: nat)
    requires a in m && !IsPermanent(m, a) && forall n :: TakenOf(m, Ref(a, n)) == 0
    ensures SamePermanent(m, m - {a})
  {
    var m' := m - {a};
    forall q
      ensures TakenOf(m, q) == TakenOf(m', q)
    {
      if q.cluster == a {
        assert q == Ref(a, q.n);
      }
    }
  }

  lemma RemovesThen(z: Sizes, m: Blocks, t: Blocks, u: Blocks, x: Slot)
    requires Removes(z, m, t, x) && SamePermanent(m, t) && SameSlots(z, t, u) && SamePermanent(t, u)
    ensures Removes(z, m, u, x) && SamePermanent(m, u)
  {
  }

  lemma PermanentTrans(m: Blocks, t: Blocks, u: Blocks)
    requires SamePermanent(m, t) && SamePermanent(t, u)
    ensures SamePermanent(m, u)
  {
  }

  lemma Unchanged(z: Sizes, m: Blocks)
    ensures SameSlots(z, m, m) && SamePermanent(m, m)
  {
  }

  /** The next bytes of page r of non-freeable memory, and nothing else, have been handed out at address p. */
  ghost predicate HandedFrom(z: Sizes, m: Blocks, m': Blocks, r: Ref, p: nat, size: nat) {
    && IsPage(m', r) && PageOf(m', r).size == NONFREEABLE && p == PageAddr(z, r) + TakenOf(m, r)
    && TakenOf(m', r) == TakenOf(m, r) + size <= PageSize(z)
    && SameBlocks(m, m') && forall q :: q != r ==> TakenOf(m', q) == TakenOf(m, q)
  }

  // Steps that hand nothing out may come before one that does.
  lemma HandedLater(z: Sizes, m: Blocks, t: Blocks, u: Blocks, r: Ref, p: Option<nat>, size: nat)
    requires SameSlots(z, m, t) && SamePermanent(m, t) && SameSlots(z, t, u)
    requires if p.Some? then HandedFrom(z, t, u, r, p.value, size) else SamePermanent(t, u)
    ensures SameSlots(z, m, u)
    ensures if p.Some? then HandedFrom(z, m, u, r, p.value, size) else SamePermanent(m, u)
  {
  }

  /** A page of a queue has room for a request. */
  ghost predicate HasRoom(z: Sizes, m: Blocks, q: seq<Ref>, size: nat) {
    exists r :: r in q && TakenOf(m, r) + size <= PageSize(z)
  }

  // The page at i has none, and no byte is handed out on the way to the next one.
  lemma RoomBehind(z: Sizes, m: Blocks, m': Blocks, q: seq<Ref>, i: nat, size: nat)
    requires i < |q| && TakenOf(m, q[i]) + size > PageSize(z) && HasRoom(z, m, q[i..], size) && SamePermanent(m, m')
    ensures HasRoom(z, m', q[i + 1..], size)
  {
    var r :| r in q[i..] && TakenOf(m, r) + size <= PageSize(z);
    assert q[i..] == [q[i]] + q[i + 1..];
  }

  lemma NoRoom(z: Sizes, m: Blocks, q: seq<Ref>, size: nat)
    requires q == []
    ensures !HasRoom(z, m, q, size)
  {
  }

  lemma StillSame(z: Sizes, m: Blocks, t: Blocks, u: Blocks)
    requires SameSlots(z, m, t) && SamePermanent(m, t) && SameSlots(z, t, u) && SamePermanent(t, u)
    ensures SameSlots(z, m, u) && SamePermanent(m, u)
  {
  }

  /** A fresh block that is never freed has been handed out. */
  ghost predicate HandedBlock(z: Sizes, m: Blocks, m': Blocks, p: nat, size: nat) {
    Fresh(z, m, p, size) && m' == m[p := Large(size, false, !IsPowerOfTwo(size))]
  }

  /** Why a pointer is refused, or that it was freed. */
  datatype FreeResult =
    | Freed
    | OutOfPool
    | FreePageAlready
    | NonFreeablePage
    | WrongChunk
    | FreeChunkAlready
    | InvalidPointer
    | NonFreeableBlock
    | MiddleOfBlock

  /** A call of the system's free: for a block's memory, or for a descriptor allocated apart of it. */
  datatype Release = Memory(start: nat) | Descriptor(start: nat)

  predicate IsApart(b: Block) { b.Cluster? || !b.embedded }

  ghost function Releases(m: Blocks, order: seq<nat>): (r: seq<Release>)
    requires forall a :: a in order ==> a in m
  {
    if order == [] then []
    else
      var a := order[|order| - 1];
      Releases(m, order[..|order| - 1]) + (if IsApart(m[a]) then [Descriptor(a)] else []) + [Memory(a)]
  }

  lemma NoReleases(m: Blocks)
    ensures Releases(m, []) == [] && Ascending([])
  {
  }

  lemma OneRelease(m: Blocks, order: seq<nat>, a: nat)
    requires a in m && forall b :: b in order ==> b in m
    ensures Releases(m, order + [a]) == (Releases(m, order) + if IsApart(m[a]) then [Descriptor(a)] else [])
      + [Memory(a)]
  {
    assert (order + [a])[..|order|] == order;
  }

  ghost predicate Ascending(s: seq<nat>) {
    forall i, j :: 0 <= i < j < |s| ==> s[i] < s[j]
  }

  lemma AscendingMore(s: seq<nat>, a: nat)
    requires Ascending(s) && forall x :: x in s ==> x < a
    ensures Ascending(s + [a])
  {
    forall i | 0 <= i < |s|
      ensures s[i] < a
    {
      assert s[i] in s;
    }
  }

  lemma EmptyKeeps(z: Sizes)
    ensures Keeps(z, State(map[], [], seq(z.k, i => []), [], []), None)
  {
  }

  class Pool {
    const z: Sizes
    const index: BlockTree.Index
    var blocks: Blocks
    var freePages: seq<Ref>
    var chunkPages: seq<seq<Ref>>
    var getPages: seq<Ref>
    var ngetPages: seq<Ref>
    var top: nat  // the system allocator's: everything it has handed out lies below

    ghost function View(): State
      reads this
    {
      State(blocks, freePages, chunkPages, getPages, ngetPages)
    }

    // The tree and the system allocator agree with the blocks.
    ghost predicate Indexed()
      reads this`blocks, this`top, index, index.tree, index.tree.nodes, index.tree.sentinel
    {
      && SizesOk(z) && index.Valid() && index.node.Keys == blocks.Keys
      && forall a :: a in blocks ==> a + Span(z, blocks[a]) <= top && BlockTree.Even(a)
    }

    ghost predicate Valid()
      reads this, index, index.tree, index.tree.nodes, index.tree.sentinel
    {
      Indexed() && Keeps(z, View(), None)
    }

    /** nxt_mp_create */
    constructor (z: Sizes)
      requires SizesOk(z)
      ensures Valid() && this.z == z && blocks == map[] && fresh(index.Footprint())
    {
      var blockIndex := new BlockTree.Index();
      this.z, index, blocks, freePages, getPages, ngetPages, top := z, blockIndex, map[], [], [], [], 0;
      chunkPages := seq(z.k, i => []);
    }

    /**
     * The system's aligned allocator: it may refuse, it always refuses an alignment below the size of a pointer, and it
     * never hands out memory twice.
     */
    method MemAlign(e: nat, size: nat) returns (start: Option<nat>)
      requires Indexed()
      modifies this`top
      ensures Indexed() && old(top) <= top && index.Footprint() == old(index.Footprint())
      ensures start.Some? ==> Fresh(z, blocks, start.value, size) && Multiple(start.value, Pow(e))
      ensures start.Some? ==> start.value + size <= top && BlockTree.Even(start.value) && e >= POINTER_SHIFT
    {
      var ok: bool := *;
      if !ok || e < POINTER_SHIFT {
        return None;
      }
      var q := top / Pow(e) + 1;
      var a := q * Pow(e);
      assert a > top by {
        assert top == top / Pow(e) * Pow(e) + top % Pow(e);
        assert q * Pow(e) == top / Pow(e) * Pow(e) + Pow(e);
      }
      EvenMultiple(q, e);
      forall b | b in blocks
        ensures b != a && Apart(b, Span(z, blocks[b]), a, size)
      {
      }
      start := Some(a);
      top := a + size;
    }

    lemma OutsideTree()
      ensures this !in index.Footprint()
    {
    }

    // Adds a block and its node.
    method Link(a: nat, b: Block)
      requires Indexed() && a !in blocks && a + Span(z, b) <= top && BlockTree.Even(a)
      modifies this`blocks, index.Footprint()
      ensures Indexed() && View() == old(View()).(blocks := old(blocks)[a := b])
      ensures fresh(index.Footprint() - old(index.Footprint()))
    {
      index.Insert(a);
      blocks := blocks[a := b];
    }

    method Unlink(a: nat)
      requires Indexed() && a in blocks
      modifies this`blocks, index.Footprint()
      ensures Indexed() && View() == old(View()).(blocks := old(blocks) - {a})
      ensures fresh(index.Footprint() - old(index.Footprint()))
    {
      index.Delete(a);
      blocks := blocks - {a};
    }

    method StorePage(r: Ref, p: Page)
      requires Indexed() && IsPage(blocks, r)
      modifies this`blocks
      ensures Indexed() && blocks == SetPage(old(blocks), r, p)
    {
      blocks := SetPage(blocks, r, p);
    }

    // Adds a cluster and its free pages.
    method LinkCluster(a: nat)
      requires Valid() && Fresh(z, blocks, a, ClusterSize(z)) && Multiple(a, Pow(z.a))
      requires a + ClusterSize(z) <= top && BlockTree.Even(a)
      modifies this, index.Footprint()
      ensures fresh(index.Footprint() - old(index.Footprint()))
      ensures Valid() && SameSlots(z, old(blocks), blocks) && SamePermanent(old(blocks), blocks) && freePages != []
      ensures chunkPages == old(chunkPages) && getPages == old(getPages) && ngetPages == old(ngetPages)
    {
      hide Keeps, Fresh, SameSlots, SamePermanent, BlockTree.Index.Footprint, BlockTree.Index.Valid, Refs, Multiple,
        Pow;
      OutsideTree();
      SizesKnown();
      ClusterKeeps(z, View(), a);
      FreshStart(z, blocks, a, ClusterSize(z));
      ClusterTaken(z, blocks, a);
      hide Indexed;
      Link(a, Cluster(seq(z.pages, i => FreePage())));
      freePages := Refs(a, z.pages) + freePages;
    }

    /** nxt_mp_alloc_cluster */
    method AllocCluster() returns (ok: bool)
      requires Valid()
      modifies this, index.Footprint()
      ensures fresh(index.Footprint() - old(index.Footprint()))
      ensures Valid() && SameSlots(z, old(blocks), blocks) && SamePermanent(old(blocks), blocks)
      ensures chunkPages == old(chunkPages) && getPages == old(getPages) && ngetPages == old(ngetPages)
      ensures if ok then freePages != [] else View() == old(View())
    {
      OutsideTree();
      SizesKnown();
      Unchanged(z, blocks);
      hide Indexed, Keeps, Fresh, SameSlots, SamePermanent, BlockTree.Index.Footprint;
      ok := *;
      if !ok {
        return;
      }
      var start := MemAlign(z.a, ClusterSize(z));
      if start.None? {
        return false;
      }
      LinkCluster(start.value);
    }

    lemma Parts()
      requires Valid()
      ensures SizesOk(z) && BlocksOk(z, blocks) && PagesOk(z, blocks) && |chunkPages| == z.k
    {
    }

    lemma SizesKnown()
      requires Indexed()
      ensures SizesOk(z) && index.node.Keys == blocks.Keys
    {
    }

    /** nxt_mp_alloc_page: the first free page, of a new cluster if need be. */
    method AllocPage() returns (r: Option<Ref>)
      requires Valid()
      modifies this, index.Footprint()
      ensures fresh(index.Footprint() - old(index.Footprint()))
      ensures Indexed() && SameSlots(z, old(blocks), blocks) && SamePermanent(old(blocks), blocks)
      ensures chunkPages == old(chunkPages) && getPages == old(getPages) && ngetPages == old(ngetPages)
      ensures r.None? ==> View() == old(View()) && Valid()
      ensures r.Some? ==> Keeps(z, View(), r) && IsPage(blocks, r.value) && PageOf(blocks, r.value).size == 0
      ensures old(freePages) != [] ==> r == Some(old(freePages)[0]) && blocks == old(blocks)
    {
      hide Indexed, SameSlots, SamePermanent, BlockTree.Index.Footprint, BlocksOk, PagesOk, ChunksListed, GetListed;
      OutsideTree();
      Unchanged(z, blocks);
      if freePages == [] {
        var ok := AllocCluster();
        if !ok {
          return None;
        }
      }
      TakeFree(blocks, freePages);
      r := Some(freePages[0]);
      freePages := freePages[1..];
    }

    /** A free chunk or a free page is at hand, so that nothing is asked of the system. */
    predicate AtHand(size: nat)
      requires SizesOk(z) && |chunkPages| == z.k
      reads this
    {
      IndexAtMost(z, size);
      freePages != [] || (size <= PageSize(z) / 2 && chunkPages[ChunkIndex(z, size)] != [])
    }

    /** nxt_mp_alloc_small: a chunk of a listed page, the first chunk of a new one, or a whole page. */
    method AllocSmall(size: nat) returns (p: Option<nat>, ghost x: Slot)
      requires Valid() && size <= PageSize(z)
      modifies this, index.Footprint()
      ensures fresh(index.Footprint() - old(index.Footprint()))
      ensures Valid() && (p.None? ==> View() == old(View()))
      ensures p.Some? ==> !x.LargeSlot? && Adds(z, old(blocks), blocks, x) && SamePermanent(old(blocks), blocks)
      ensures p.Some? ==> p.value == Addr(z, x) && size <= SlotSize(z, blocks, x)
      ensures |old(chunkPages)| == z.k && (old(AtHand(size)) ==> p.Some? && blocks.Keys == old(blocks.Keys))
    {
      OutsideTree();
      ListCount();
      hide Indexed, Keeps, Adds, SamePermanent, BlockTree.Index.Footprint, ChunkIndex, PageSize, ChunkSize;
      p, x := None, LargeSlot(0);
      if size <= PageSize(z) / 2 {
        var i := ChunkIndex(z, size);
        IndexFits(z, size);
        IndexInRange(z, size);
        if chunkPages[i] != [] {
          var a;
          a, x := AllocListed(i);
          p := Some(a);
        } else {
          p, x := AllocNewChunk(i);
        }
      } else {
        p, x := AllocWhole();
      }
    }

    lemma ListCount()
      requires Valid()
      ensures SizesOk(z) && |chunkPages| == z.k
    {
    }

    method AllocNewChunk(i: nat) returns (p: Option<nat>, ghost x: Slot)
      requires Valid() && i < z.k
      modifies this, index.Footprint()
      ensures fresh(index.Footprint() - old(index.Footprint()))
      ensures Valid() && (p.None? ==> View() == old(View()))
      ensures p.Some? ==>
        x.ChunkSlot? && x.i == i && Adds(z, old(blocks), blocks, x) && SamePermanent(old(blocks), blocks)
      ensures p.Some? ==> p.value == Addr(z, x)
      ensures old(freePages) != [] ==> p.Some? && blocks.Keys == old(blocks.Keys)
    {
      hide Indexed, Keeps, BlockTree.Index.Footprint, SameTaken, SameBlocks;
      p, x := None, LargeSlot(0);
      var r := AllocPage();
      if r.Some? {
        x := ChunkSlot(r.value, i, 0);
        p := Some(PageAddr(z, r.value));
        ghost var m := blocks;
        CutFreePage(r.value, i);
        PermanentTrans(old(blocks), m, blocks);
      }
    }

    method AllocWhole() returns (p: Option<nat>, ghost x: Slot)
      requires Valid()
      modifies this, index.Footprint()
      ensures fresh(index.Footprint() - old(index.Footprint()))
      ensures Valid() && (p.None? ==> View() == old(View()))
      ensures p.Some? ==> x.PageSlot? && Adds(z, old(blocks), blocks, x) && SamePermanent(old(blocks), blocks)
      ensures p.Some? ==> p.value == Addr(z, x)
      ensures old(freePages) != [] ==> p.Some? && blocks.Keys == old(blocks.Keys)
    {
      hide Indexed, Keeps, BlockTree.Index.Footprint, SameTaken, SameBlocks;
      p, x := None, LargeSlot(0);
      var r := AllocPage();
      if r.Some? {
        x := PageSlot(r.value);
        p := Some(PageAddr(z, r.value));
        ghost var m := blocks;
        UseWholePage(r.value, PageOf(blocks, r.value).(size := Pow(z.k)));
        PermanentTrans(old(blocks), m, blocks);
      }
    }

    method CutFreePage(r: Ref, i: nat)
      requires Indexed() && Keeps(z, View(), Some(r)) && IsPage(blocks, r) && PageOf(blocks, r).size == 0 && i < z.k
      modifies this
      ensures Valid() && Adds(z, old(blocks), blocks, ChunkSlot(r, i, 0)) && SamePermanent(old(blocks), blocks)
      ensures blocks.Keys == old(blocks.Keys)
    {
      NewChunkPageKeeps(z, View(), r, i);
      SizesKnown();
      PowNotZero(z);
      SetPagePermanent(blocks, r, CutPage(z, i));
      hide Indexed, CutPage, AllBits, Below, BlocksOk, PagesOk, FreeListed, ChunkListed, GetListed, Busy, SamePermanent;
      StorePage(r, CutPage(z, i));
      chunkPages := chunkPages[i := [r] + chunkPages[i]];
    }

    method UseWholePage(r: Ref, page: Page)
      requires Indexed() && Keeps(z, View(), Some(r)) && IsPage(blocks, r)
      requires PageOf(blocks, r).size == 0 && page.size == Pow(z.k)
      modifies this
      ensures Valid() && Adds(z, old(blocks), blocks, PageSlot(r)) && SamePermanent(old(blocks), blocks)
      ensures blocks.Keys == old(blocks.Keys)
    {
      SizesKnown();
      WholePageKeeps(z, View(), r, page);
      PowNotZero(z);
      SetPagePermanent(blocks, r, page);
      hide Indexed, Keeps, Adds, SamePermanent;
      StorePage(r, page);
    }

    // The lowest free chunk of the first page of a list.
    method AllocListed(i: nat) returns (p: nat, ghost x: Slot)
      requires Valid() && i < z.k && chunkPages[i] != []
      modifies this
      ensures Valid() && x.ChunkSlot? && x.i == i && p == Addr(z, x)
      ensures Adds(z, old(blocks), blocks, x) && SamePermanent(old(blocks), blocks) && blocks.Keys == old(blocks.Keys)
    {
      hide *;
      FirstListed(i);
      var r := chunkPages[i][0];
      var n := LowestBit(PageOf(blocks, r).map_, 0);
      x := ChunkSlot(r, i, n);
      p := PageAddr(z, r) + n * ChunkSize(z, i);
      ChunkAddr(z, r, i, n);
      TakeListed(r, i, n);
    }

    lemma FirstListed(i: nat)
      requires Valid() && i < z.k && chunkPages[i] != []
      ensures SizesOk(z) && i < |chunkPages| == z.k
      ensures var r := chunkPages[i][0];
        && r in chunkPages[i] && IsPage(blocks, r) && On(PageOf(blocks, r), i)
        && PageOf(blocks, r).map_ != {} && PageOf(blocks, r).map_ <= AllBits()
        && LowestBit(PageOf(blocks, r).map_, 0) in PageOf(blocks, r).map_
        && LowestBit(PageOf(blocks, r).map_, 0) < PerPage(z, i)
    {
      FirstOfList(z, View(), i);
    }

    method TakeListed(r: Ref, i: nat, n: nat)
      requires Valid() && i < |chunkPages| == z.k && r in chunkPages[i] && IsPage(blocks, r) && On(PageOf(blocks, r), i)
      requires n in PageOf(blocks, r).map_ && n < PerPage(z, i)
      modifies this
      ensures Valid() && Adds(z, old(blocks), blocks, ChunkSlot(r, i, n)) && SamePermanent(old(blocks), blocks)
      ensures blocks.Keys == old(blocks.Keys)
    {
      hide Keeps, Adds, Busy;
      TakeChunkKeeps(z, View(), r, n, i);
      ghost var goal := TakeChunk(View(), r, n, i);
      TakeChunkAdds(z, blocks, r, n, i);
      var page := PageOf(blocks, r);
      StorePage(r, TakeBit(page, n));
      if page.chunks == 1 {
        chunkPages := chunkPages[i := Without(chunkPages[i], r)];
      }
      assert View() == goal;
    }

    /** nxt_mp_alloc_large: a block of its own, with its descriptor apart or behind it. */
    method AllocLarge(e: nat, size: nat, freeable: bool) returns (p: Option<nat>)
      requires Valid()
      modifies this, index.Footprint()
      ensures fresh(index.Footprint() - old(index.Footprint()))
      ensures Valid() && (p.None? ==> View() == old(View()))
      ensures p.Some? ==> Multiple(p.value, Pow(e)) && e >= POINTER_SHIFT && p.value in blocks
      ensures p.Some? ==> blocks[p.value] == Large(size, freeable, !IsPowerOfTwo(size))
      ensures p.Some? && freeable ==> SamePermanent(old(blocks), blocks)
      ensures p.Some? && freeable && size > 0 ==> Adds(z, old(blocks), blocks, LargeSlot(p.value))
      ensures p.Some? && freeable && size == 0 ==> SameSlots(z, old(blocks), blocks)
      ensures p.Some? && !freeable ==>
        SameSlots(z, old(blocks), blocks) && HandedBlock(z, old(blocks), blocks, p.value, size)
    {
      OutsideTree();
      hide Indexed, Keeps, Fresh, Adds, SameSlots, SamePermanent, Pow, Multiple, Lg2;
      if size >= 0xFFFFFFFF {
        return None;
      }
      var discrete := IsPowerOfTwo(size);
      if discrete {
        var ok: bool := *;
        if !ok {
          return None;
        }
      }
      p := MemAlign(e, size);
      if p.Some? {
        LinkLarge(p.value, Large(size, freeable, !discrete));
      }
    }

    method LinkLarge(a: nat, b: Block)
      requires Valid() && b.Large? && Fresh(z, blocks, a, b.size) && a + b.size <= top && BlockTree.Even(a)
      modifies this, index.Footprint()
      ensures fresh(index.Footprint() - old(index.Footprint()))
      ensures Valid() && blocks == old(blocks)[a := b]
      ensures b.freeable ==> SamePermanent(old(blocks), blocks)
      ensures if b.freeable && b.size > 0 then Adds(z, old(blocks), blocks, LargeSlot(a))
        else SameSlots(z, old(blocks), blocks)
    {
      OutsideTree();
      AddLargeKeeps(z, View(), a, b);
      if b.freeable {
        AddLargePermanent(blocks, a, b);
      }
      assert a !in blocks;
      hide Indexed, Keeps, Fresh, Adds, SameSlots, SamePermanent, BlockTree.Index.Footprint;
      Link(a, b);
    }

    /** nxt_mp_alloc */
    method Alloc(size: nat) returns (p: Option<nat>, ghost x: Slot)
      requires Valid()
      modifies this, index.Footprint()
      ensures fresh(index.Footprint() - old(index.Footprint()))
      ensures Valid() && (p.None? ==> View() == old(View()))
      ensures p.Some? ==> Adds(z, old(blocks), blocks, x) && SamePermanent(old(blocks), blocks)
      ensures p.Some? ==> p.value == Addr(z, x) && size <= SlotSize(z, blocks, x)
      ensures |old(chunkPages)| == z.k && (size <= PageSize(z) && old(AtHand(size)) ==> p.Some?)
    {
      hide Valid, Indexed, Keeps, Adds, SameSlots, SamePermanent, SlotSize, Addr, PageSize;
      ListCount();
      if size <= PageSize(z) {
        p, x := AllocSmall(size);
      } else {
        p := AllocLarge(4, size, true);
        x := LargeSlot(0);
        if p.Some? {
          x := LargeSlot(p.value);
          LargeShape(z, blocks, p.value);
        }
      }
    }

    // Whether a small allocation serves an aligned one.
    predicate FitsPage(alignment: nat, size: nat) {
      Max(size, alignment) <= PageSize(z) && alignment <= Pow(z.a)
    }

    /**
     * nxt_mp_align: a slot that is a multiple of the alignment, unless a block of its own is given no bytes: such a
     * block cannot be freed.  Zero passes the test for powers of two, and is then a plain small allocation or refused.
     */
    method Align(alignment: nat, size: nat) returns (p: Option<nat>, ghost x: Slot)
      requires Valid()
      modifies this, index.Footprint()
      ensures fresh(index.Footprint() - old(index.Footprint()))
      ensures Valid() && (p.None? ==> View() == old(View()))
      ensures p.Some? ==> SamePermanent(old(blocks), blocks)
      ensures p.Some? && (size > 0 || FitsPage(alignment, size)) ==>
        Adds(z, old(blocks), blocks, x) && p.value == Addr(z, x) && size <= SlotSize(z, blocks, x)
      ensures p.Some? && size == 0 && !FitsPage(alignment, size) ==>
        SameSlots(z, old(blocks), blocks) && p.value in blocks && blocks[p.value] == Large(0, true, false)
      ensures p.Some? && alignment > 0 ==> Multiple(p.value, alignment) && alignment == Pow(Lg2(alignment))
      ensures p.Some? && alignment == 0 ==> size <= PageSize(z)
    {
      hide Valid, Indexed, Keeps, Adds, SameSlots, SamePermanent, Multiple, Pow, Lg2, SlotSize, Addr, PageSize;
      p, x := None, LargeSlot(0);
      if !IsPowerOfTwo(alignment) {
        return;
      }
      var e := if alignment == 0 then 0 else Lg2(alignment);
      var alignedSize := Max(size, alignment);
      if alignedSize <= PageSize(z) && alignment <= Pow(z.a) {
        p, x := AllocSmall(alignedSize);
        if p.Some? && alignment > 0 {
          SlotAligned(old(blocks), x, e);
        }
      } else {
        p := AllocLarge(e, size, true);
        if p.Some? {
          x := LargeSlot(p.value);
          LargeShape(z, blocks, p.value);
        }
      }
    }

    /**
     * nxt_conf_object_hash_alloc: a block of the hash, aligned to its size.  A tagged word made of the address of a
     * 128-byte block decodes for every count.
     */
    method HashAlloc(size: nat) returns (p: Option<nat>, ghost x: Slot)
      requires Valid()
      modifies this, index.Footprint()
      ensures fresh(index.Footprint() - old(index.Footprint()))
      ensures Valid() && (p.None? ==> View() == old(View()))
      ensures p.Some? ==> Adds(z, old(blocks), blocks, x) && SamePermanent(old(blocks), blocks)
      ensures p.Some? ==> p.value == Addr(z, x) && size <= SlotSize(z, blocks, x)
      ensures p.Some? && size > 0 ==> Multiple(p.value, size)
      ensures p.Some? && size == HASH_BLOCK ==> LevelHashWord.Decodes(p.value)
    {
      hide Valid, Adds, SamePermanent, Multiple, SlotSize, Addr, LevelHashWord.Decodes;
      p, x := Align(size, size);
      if p.Some? && size == HASH_BLOCK {
        HashBlockDecodes(p.value);
      }
    }

    lemma SlotAligned(m: Blocks, x: Slot, e: nat)
      requires Valid() && Adds(z, m, blocks, x) && !x.LargeSlot? && Pow(e) <= Pow(z.a)
      requires Pow(e) <= SlotSize(z, blocks, x)
      ensures Multiple(Addr(z, x), Pow(e))
    {
      SmallAligned(z, blocks, x, e);
    }

    // ---------- memory that is never given back

    ghost predicate Queues(q: seq<Ref>, nget: bool)
      reads this
    {
      q == if nget then ngetPages else getPages
    }

    method SetQueue(q: seq<Ref>, nget: bool)
      modifies this`getPages, this`ngetPages
      ensures Queues(q, nget) && (if nget then getPages == old(getPages) else ngetPages == old(ngetPages))
    {
      if nget {
        ngetPages := q;
      } else {
        getPages := q;
      }
    }

    // A page that does not have the room counts the failure, or leaves the list.
    method Skip(q: seq<Ref>, i: nat, nget: bool) returns (q': seq<Ref>, i': nat)
      requires Valid() && Queues(q, nget) && i < |q|
      modifies this`blocks, this`getPages, this`ngetPages
      ensures Valid() && Queues(q', nget) && i' <= |q'| && q'[i'..] == q[i + 1..]
      ensures SameSlots(z, old(blocks), blocks) && SamePermanent(old(blocks), blocks)
    {
      QueuedPage(q, i, nget);
      Unchanged(z, blocks);
      hide Indexed, Keeps, SameSlots, SamePermanent, PageSize;
      var r := q[i];
      var page := PageOf(blocks, r);
      q', i' := q, i + 1;
      if page.taken == PageSize(z) {
        q' := Drop(q, i, nget);
        i' := i;
      } else {
        CountFailure(r);
        if page.fails > 100 {
          q' := Drop(q, i, nget);
          i' := i;
        }
      }
    }

    method CountFailure(r: Ref)
      requires Valid() && IsPage(blocks, r) && PageOf(blocks, r).size == NONFREEABLE
      requires PageOf(blocks, r).taken <= PageSize(z)
      modifies this`blocks
      ensures Valid() && SameSlots(z, old(blocks), blocks) && SamePermanent(old(blocks), blocks)
    {
      SizesKnown();
      var page := PageOf(blocks, r).(fails := PageOf(blocks, r).fails + 1);
      ChangeGet(z, View(), r, page);
      CountPermanent(blocks, r, page);
      hide Indexed, Keeps, SameSlots, SamePermanent;
      StorePage(r, page);
    }

    method Drop(q: seq<Ref>, i: nat, nget: bool) returns (q': seq<Ref>)
      requires Valid() && Queues(q, nget) && i < |q|
      modifies this`getPages, this`ngetPages
      ensures Valid() && Queues(q', nget) && |q'| == |q| - 1 && q'[i..] == q[i + 1..]
    {
      q' := q[..i] + q[i + 1..];
      RemovedFrom(q, i);
      if nget {
        Shorter(blocks, getPages, ngetPages, getPages, q');
      } else {
        Shorter(blocks, getPages, ngetPages, q', ngetPages);
      }
      SetQueue(q', nget);
    }

    function Queue(nget: bool): seq<Ref>
      reads this
    {
      if nget then ngetPages else getPages
    }

    /** nxt_mp_get_small: the next bytes of the first page with room, or of a new page. */
    method GetSmall(size: nat, nget: bool) returns (p: Option<nat>, ghost r: Ref)
      requires Valid() && size <= PageSize(z)
      modifies this, index.Footprint()
      ensures fresh(index.Footprint() - old(index.Footprint()))
      ensures Valid() && SameSlots(z, old(blocks), blocks)
      ensures if p.Some? then HandedFrom(z, old(blocks), blocks, r, p.value, size)
        else SamePermanent(old(blocks), blocks)
      ensures old(HasRoom(z, blocks, Queue(nget), size) || freePages != []) ==> p.Some?
    {
      hide Indexed, Keeps, SameSlots, SamePermanent, HandedFrom, HasRoom;
      p, r := Scan(size, nget);
      if p.None? {
        ghost var m := blocks;
        p, r := FreshTake(size, nget);
        HandedLater(z, old(blocks), m, blocks, r, p, size);
      }
    }

    // The loop over the pages of a queue.
    method Scan(size: nat, nget: bool) returns (p: Option<nat>, ghost r: Ref)
      requires Valid() && size <= PageSize(z)
      modifies this`blocks, this`getPages, this`ngetPages
      ensures Valid() && SameSlots(z, old(blocks), blocks)
      ensures if p.Some? then HandedFrom(z, old(blocks), blocks, r, p.value, size)
        else SamePermanent(old(blocks), blocks)
      ensures old(HasRoom(z, blocks, Queue(nget), size)) ==> p.Some?
    {
      Unchanged(z, blocks);
      hide Indexed, Keeps, SameSlots, SamePermanent, HandedFrom, HasRoom;
      p, r := None, Ref(0, 0);
      ghost var room := HasRoom(z, blocks, Queue(nget), size);
      var q, i: nat := Queue(nget), 0;
      assert q[0..] == q;
      while i < |q|
        invariant Valid() && Queues(q, nget) && i <= |q|
        invariant SameSlots(z, old(blocks), blocks) && SamePermanent(old(blocks), blocks)
        invariant room ==> HasRoom(z, blocks, q[i..], size)
        decreases |q[i..]|
      {
        QueuedPage(q, i, nget);
        if size <= PageSize(z) - PageOf(blocks, q[i]).taken {
          r := q[i];
          ghost var m := blocks;
          var a := Take(q[i], size);
          p := Some(a);
          HandedLater(z, old(blocks), m, blocks, r, p, size);
          return;
        }
        ghost var was, k, m := q, i, blocks;
        q, i := Skip(q, i, nget);
        StillSame(z, old(blocks), m, blocks);
        if room {
          RoomBehind(z, m, blocks, was, k, size);
        }
      }
      NoRoom(z, blocks, q[i..], size);
    }

    lemma QueuedPage(q: seq<Ref>, i: nat, nget: bool)
      requires Valid() && Queues(q, nget) && i < |q|
      ensures IsPage(blocks, q[i]) && PageOf(blocks, q[i]).size == NONFREEABLE
      ensures TakenOf(blocks, q[i]) == PageOf(blocks, q[i]).taken <= PageSize(z)
    {
      assert q[i] in q;
      NonFreeablePages(z, PageOf(blocks, q[i]));
    }

    method FreshTake(size: nat, nget: bool) returns (p: Option<nat>, ghost r: Ref)
      requires Valid() && size <= PageSize(z)
      modifies this, index.Footprint()
      ensures fresh(index.Footprint() - old(index.Footprint()))
      ensures Valid() && SameSlots(z, old(blocks), blocks)
      ensures if p.Some? then HandedFrom(z, old(blocks), blocks, r, p.value, size)
        else SamePermanent(old(blocks), blocks)
      ensures old(freePages) != [] ==> p.Some?
    {
      OutsideTree();
      hide Indexed, Keeps, SameSlots, SamePermanent, HandedFrom, BlockTree.Index.Footprint;
      r := Ref(0, 0);
      var page := AllocPage();
      p := None;
      if page.Some? {
        r := page.value;
        p := Some(PageAddr(z, page.value));
        ghost var m := blocks;
        NewGetPage(page.value, size, nget);
        HandedLater(z, old(blocks), m, blocks, r, p, size);
      }
    }

    method NewGetPage(r: Ref, size: nat, nget: bool)
      requires Indexed() && Keeps(z, View(), Some(r)) && IsPage(blocks, r) && PageOf(blocks, r).size == 0
      requires size <= PageSize(z)
      modifies this`blocks, this`getPages, this`ngetPages
      ensures Valid() && SameSlots(z, old(blocks), blocks)
      ensures HandedFrom(z, old(blocks), blocks, r, PageAddr(z, r), size)
    {
      hide Indexed, Keeps, SameSlots, HandedFrom, PageAddr, PageSize;
      SizesKnown();
      var page := PageOf(blocks, r).(size := NONFREEABLE, taken := size);
      GetPageKeeps(z, View(), r, page);
      HandedPage(z, blocks, r, page, size);
      StorePage(r, page);
      if nget {
        ngetPages := [r] + ngetPages;
      } else {
        getPages := [r] + getPages;
      }
    }

    method Take(r: Ref, size: nat) returns (p: nat)
      requires Valid() && IsPage(blocks, r) && PageOf(blocks, r).size == NONFREEABLE
      requires PageOf(blocks, r).taken + size <= PageSize(z)
      modifies this`blocks
      ensures Valid() && SameSlots(z, old(blocks), blocks) && HandedFrom(z, old(blocks), blocks, r, p, size)
    {
      SizesKnown();
      var page := PageOf(blocks, r);
      p := PageAddr(z, r) + page.taken;
      ChangeGet(z, View(), r, page.(taken := page.taken + size));
      HandedPage(z, blocks, r, page.(taken := page.taken + size), size);
      hide Indexed, Keeps, SameSlots, HandedFrom;
      StorePage(r, page.(taken := page.taken + size));
    }

    /** nxt_mp_nget */
    method Nget(size: nat) returns (p: Option<nat>, ghost r: Ref)
      requires Valid()
      modifies this, index.Footprint()
      ensures fresh(index.Footprint() - old(index.Footprint()))
      ensures Valid() && SameSlots(z, old(blocks), blocks) && (p.None? ==> SamePermanent(old(blocks), blocks))
      ensures p.Some? && size <= PageSize(z) ==> HandedFrom(z, old(blocks), blocks, r, p.value, size)
      ensures p.Some? && size > PageSize(z) ==> HandedBlock(z, old(blocks), blocks, p.value, size)
      ensures size <= PageSize(z) && old(freePages != [] || HasRoom(z, blocks, ngetPages, size)) ==> p.Some?
    {
      hide Valid, Indexed, Keeps, SameSlots, SamePermanent, HandedFrom, HandedBlock, HasRoom, PageSize;
      Unchanged(z, blocks);
      if size <= PageSize(z) {
        p, r := GetSmall(size, true);
      } else {
        p := AllocLarge(4, size, false);
        r := Ref(0, 0);
      }
    }

    /** nxt_mp_get: a small request is raised to the maximal alignment, which here must not exceed the page. */
    method Get(size: nat) returns (p: Option<nat>, ghost r: Ref)
      requires Valid() && MAX_ALIGNMENT <= PageSize(z)
      modifies this, index.Footprint()
      ensures fresh(index.Footprint() - old(index.Footprint()))
      ensures Valid() && SameSlots(z, old(blocks), blocks) && (p.None? ==> SamePermanent(old(blocks), blocks))
      ensures p.Some? && size <= PageSize(z) ==>
        HandedFrom(z, old(blocks), blocks, r, p.value, Max(size, MAX_ALIGNMENT))
      ensures p.Some? && size > PageSize(z) ==> HandedBlock(z, old(blocks), blocks, p.value, size)
      ensures size <= PageSize(z) && old(freePages != [] || HasRoom(z, blocks, getPages, Max(size, MAX_ALIGNMENT))) ==>
        p.Some?
    {
      hide Valid, Indexed, Keeps, SameSlots, SamePermanent, HandedFrom, HandedBlock, HasRoom, PageSize;
      Unchanged(z, blocks);
      if size <= PageSize(z) {
        p, r := GetSmall(Max(size, MAX_ALIGNMENT), false);
      } else {
        p := AllocLarge(4, size, false);
        r := Ref(0, 0);
      }
    }

    // ---------- giving back

    /** nxt_mp_free: a slot's address gives the slot back; any other pointer changes nothing. */
    method Free(p: nat) returns (r: FreeResult, ghost x: Slot)
      requires Valid()
      modifies this, index.Footprint()
      ensures fresh(index.Footprint() - old(index.Footprint()))
      ensures Valid()
      ensures r.Freed? ==> Removes(z, old(blocks), blocks, x) && SamePermanent(old(blocks), blocks) && Addr(z, x) == p
      ensures !r.Freed? ==> View() == old(View()) && forall y :: Busy(z, blocks, y) ==> Addr(z, y) != p
      ensures r.OutOfPool? <==> forall k :: !BlockTree.Holds(Spans(z, old(blocks)), k, p)
    {
      hide Valid, Indexed, Keeps, BlocksOk, PagesOk, Removes, SamePermanent, Busy, Addr, BlockTree.Holds;
      hide BlockTree.Disjoint, BlockTree.Index.Valid;
      TreeValid();
      x := LargeSlot(0);
      var found := index.FindBlock(Spans(z, blocks), p);
      Located(found, p);
      if found.None? {
        return OutOfPool, x;
      }
      var a := found.value;
      if blocks[a].Cluster? {
        r, x := ChunkFree(a, p);
      } else if p == a {
        if !blocks[a].freeable {
          return NonFreeableBlock, x;
        }
        FreeLarge(a);
        r, x := Freed, LargeSlot(a);
      } else {
        r := MiddleOfBlock;
      }
    }

    // What the search for p tells about the slots at p.
    lemma Located(found: Option<nat>, p: nat)
      requires Valid()
      requires found.Some? ==> BlockTree.Holds(Spans(z, blocks), found.value, p)
      requires found.None? ==> forall k :: !BlockTree.Holds(Spans(z, blocks), k, p)
      ensures found.None? ==> forall y :: Busy(z, blocks, y) ==> Addr(z, y) != p
      ensures found.Some? ==> found.value in blocks
      ensures found.Some? && blocks[found.value].Cluster? ==>
        && found.value <= p < found.value + ClusterSize(z)
        && forall y :: Busy(z, blocks, y) && Addr(z, y) == p ==> !y.LargeSlot? && y.ref.cluster == found.value
      ensures found.Some? && blocks[found.value].Large? && p == found.value && blocks[found.value].freeable ==>
        Busy(z, blocks, LargeSlot(p)) && Addr(z, LargeSlot(p)) == p
      ensures found.Some? && blocks[found.value].Large? && (p != found.value || !blocks[found.value].freeable) ==>
        forall y :: Busy(z, blocks, y) ==> Addr(z, y) != p
    {
      Parts();
      NotElsewhere(z, blocks, found, p);
      hide Keeps, BlocksOk, PagesOk, Indexed, PageSize, ClusterSize;
    }

    lemma TreeValid()
      requires Valid()
      ensures index.Valid() && Spans(z, blocks).Keys == index.node.Keys == blocks.Keys
      ensures BlockTree.Disjoint(Spans(z, blocks))
    {
      SpansDisjoint(z, blocks);
    }

    method FreeLarge(a: nat)
      requires Valid() && Busy(z, blocks, LargeSlot(a))
      modifies this, index.Footprint()
      ensures fresh(index.Footprint() - old(index.Footprint()))
      ensures Valid() && Removes(z, old(blocks), blocks, LargeSlot(a)) && SamePermanent(old(blocks), blocks)
    {
      DropLargeKeeps(z, View(), a);
      DropPermanent(blocks, a);
      OutsideTree();
      assert a in blocks;
      hide Indexed, Keeps, Removes, Busy, SamePermanent, BlockTree.Index.Footprint;
      Unlink(a);
    }

    method GiveBack(f: Ref, i: nat, chunk: nat)
      requires Valid() && Busy(z, blocks, ChunkSlot(f, i, chunk))
      modifies this, index.Footprint()
      ensures fresh(index.Footprint() - old(index.Footprint()))
      ensures Valid() && Removes(z, old(blocks), blocks, ChunkSlot(f, i, chunk)) && SamePermanent(old(blocks), blocks)
    {
      OutsideTree();
      SlotIsChunk(z, blocks, f, i, chunk);
      hide Indexed, Keeps, Busy, Removes, SameSlots, SamePermanent, AllBits;
      if PageOf(blocks, f).map_ + {chunk} != AllBits() {
        GiveChunkBack(f, i, chunk);
      } else {
        GiveLastChunk(f, i, chunk);
      }
    }

    method GiveLastChunk(f: Ref, i: nat, chunk: nat)
      requires Valid() && Busy(z, blocks, ChunkSlot(f, i, chunk)) && PageOf(blocks, f).map_ + {chunk} == AllBits()
      modifies this, index.Footprint()
      ensures fresh(index.Footprint() - old(index.Footprint()))
      ensures Valid() && Removes(z, old(blocks), blocks, ChunkSlot(f, i, chunk)) && SamePermanent(old(blocks), blocks)
    {
      hide Indexed, Keeps, Busy, Removes, SameSlots, SamePermanent, AllBits;
      GivePageBack(f, i, chunk);
      ghost var m := blocks;
      FreeClusterIfEmpty(f.cluster);
      RemovesThen(z, old(blocks), m, blocks, ChunkSlot(f, i, chunk));
    }

    // The page stays in use.
    method GiveChunkBack(f: Ref, i: nat, chunk: nat)
      requires Valid() && Busy(z, blocks, ChunkSlot(f, i, chunk)) && PageOf(blocks, f).map_ + {chunk} != AllBits()
      modifies this
      ensures Valid() && Removes(z, old(blocks), blocks, ChunkSlot(f, i, chunk)) && SamePermanent(old(blocks), blocks)
    {
      var page := PageOf(blocks, f);
      GiveChunkKeeps(z, View(), f, chunk, i);
      GiveChunkRemoves(z, blocks, f, chunk, i);
      SlotPageSize(z, blocks, ChunkSlot(f, i, chunk));
      SetPagePermanent(blocks, f, GiveBit(page, chunk));
      ghost var goal := GiveChunk(View(), f, chunk, i);
      hide Keeps, Removes, Busy, SamePermanent;
      StorePage(f, GiveBit(page, chunk));
      if page.chunks + 1 == 1 {
        chunkPages := chunkPages[i := [f] + chunkPages[i]];
      }
      assert View() == goal;
    }

    // All chunks of the page are free.
    method GivePageBack(f: Ref, i: nat, chunk: nat)
      requires Valid() && Busy(z, blocks, ChunkSlot(f, i, chunk)) && PageOf(blocks, f).map_ + {chunk} == AllBits()
      modifies this
      ensures Valid() && Removes(z, old(blocks), blocks, ChunkSlot(f, i, chunk)) && SamePermanent(old(blocks), blocks)
      ensures f.cluster in blocks && blocks[f.cluster].Cluster?
    {
      ReleaseChunkPage(z, View(), f, chunk, i);
      SlotPageSize(z, blocks, ChunkSlot(f, i, chunk));
      assert i < |chunkPages|;
      hide AllBits, Keeps, Removes, SamePermanent;
      ghost var goal := ReleasePage(View(), f, chunkPages[i := Without(chunkPages[i], f)]);
      PushFreePage(f, chunkPages[i := Without(chunkPages[i], f)]);
      assert View() == goal;
    }

    method PushFreePage(f: Ref, qs: seq<seq<Ref>>)
      requires Indexed() && IsPage(blocks, f) && PageOf(blocks, f).size != NONFREEABLE
      modifies this`blocks, this`freePages, this`chunkPages
      ensures Indexed() && View() == ReleasePage(old(View()), f, qs) && SamePermanent(old(blocks), blocks)
    {
      SetPagePermanent(blocks, f, PageOf(blocks, f).(size := 0));
      hide SamePermanent;
      chunkPages := qs;
      StorePage(f, PageOf(blocks, f).(size := 0));
      freePages := [f] + freePages;
    }

    method GiveWholePageBack(f: Ref)
      requires Valid() && Busy(z, blocks, PageSlot(f))
      modifies this
      ensures Valid() && Removes(z, old(blocks), blocks, PageSlot(f)) && SamePermanent(old(blocks), blocks)
      ensures f.cluster in blocks && blocks[f.cluster].Cluster?
    {
      ReleaseWholePage(z, View(), f);
      SlotPageSize(z, blocks, PageSlot(f));
      hide Keeps, Removes, Busy, SamePermanent;
      PushFreePage(f, chunkPages);
    }

    /** The end of nxt_mp_chunk_free: a cluster whose pages are all free goes back to the system. */
    method FreeClusterIfEmpty(a: nat)
      requires Valid() && a in blocks && blocks[a].Cluster?
      modifies this, index.Footprint()
      ensures fresh(index.Footprint() - old(index.Footprint()))
      ensures Valid() && SameSlots(z, old(blocks), blocks) && SamePermanent(old(blocks), blocks)
      ensures blocks == old(if AllFree(blocks, a) then blocks - {a} else blocks)
    {
      Parts();
      Unchanged(z, blocks);
      hide Indexed, Keeps, SamePermanent, SameSlots;
      var n := 0;
      while n < z.pages
        invariant 0 <= n <= z.pages && forall k :: 0 <= k < n ==> blocks[a].pages[k].size == 0
      {
        if blocks[a].pages[n].size != 0 {
          return;
        }
        n := n + 1;
      }
      UnlinkCluster(a);
    }

    method UnlinkCluster(a: nat)
      requires Valid() && a in blocks && blocks[a].Cluster? && AllFree(blocks, a)
      modifies this, index.Footprint()
      ensures fresh(index.Footprint() - old(index.Footprint()))
      ensures Valid() && SameSlots(z, old(blocks), blocks) && SamePermanent(old(blocks), blocks)
      ensures blocks == old(blocks) - {a}
    {
      SizesKnown();
      var q := UnlinkPages(a);
      DropClusterKeeps(z, View(), a, q);
      DropPermanent(blocks, a);
      hide Indexed, Keeps, SamePermanent, SameSlots;
      freePages := q;
      Unlink(a);
    }

    // nxt_queue_remove for every page of the cluster
    method UnlinkPages(a: nat) returns (q: seq<Ref>)
      requires Valid()
      ensures Unlinked(freePages, q, a, z.pages)
    {
      q := freePages;
      var n := 0;
      while n < z.pages
        invariant 0 <= n <= z.pages && Unlinked(freePages, q, a, n)
      {
        WithoutFacts(q, Ref(a, n));
        q := Without(q, Ref(a, n));
        n := n + 1;
      }
    }

    /** nxt_mp_chunk_free */
    method ChunkFree(a: nat, p: nat) returns (r: FreeResult, ghost x: Slot)
      requires Valid() && a in blocks && blocks[a].Cluster? && a <= p < a + ClusterSize(z)
      requires forall y :: Busy(z, blocks, y) && Addr(z, y) == p ==> !y.LargeSlot? && y.ref.cluster == a
      modifies this, index.Footprint()
      ensures fresh(index.Footprint() - old(index.Footprint()))
      ensures Valid()
      ensures r.Freed? ==> Removes(z, old(blocks), blocks, x) && SamePermanent(old(blocks), blocks) && Addr(z, x) == p
      ensures !r.Freed? ==> View() == old(View()) && forall y :: Busy(z, blocks, y) ==> Addr(z, y) != p
      ensures !r.OutOfPool?
    {
      Parts();
      hide Indexed, Keeps, BlocksOk, PagesOk, Busy, Removes, SamePermanent, Addr, PageAddr, ClusterSize, PageSize, Pow;
      x := LargeSlot(0);
      var n := Quotient(p - a, PageSize(z));
      var f := Ref(a, n);
      PageHere(z, blocks, a, n, p);
      var page := PageOf(blocks, f);
      if page.size == 0 {
        NoSlotAt(z, blocks, f);
        return FreePageAlready, x;
      }
      if page.size == NONFREEABLE {
        NoSlotAt(z, blocks, f);
        return NonFreeablePage, x;
      }
      if page.size != Pow(z.k) {
        r, x := ChunkPageFree(f, p);
      } else {
        r, x := WholePageFree(f, p);
      }
    }

    // The pointer falls into a page handed out whole.
    method WholePageFree(f: Ref, p: nat) returns (r: FreeResult, ghost x: Slot)
      requires Valid() && IsPage(blocks, f) && PageOf(blocks, f).size == Pow(z.k)
      requires forall y :: Busy(z, blocks, y) && Addr(z, y) == p ==> !y.LargeSlot? && y.ref == f
      modifies this, index.Footprint()
      ensures fresh(index.Footprint() - old(index.Footprint()))
      ensures Valid()
      ensures r.Freed? ==> Removes(z, old(blocks), blocks, x) && SamePermanent(old(blocks), blocks) && Addr(z, x) == p
      ensures !r.Freed? ==> View() == old(View()) && forall y :: Busy(z, blocks, y) ==> Addr(z, y) != p
      ensures !r.OutOfPool?
    {
      Parts();
      WholeHere(z, blocks, f);
      hide Indexed, Keeps, Busy, Removes, SameSlots, SamePermanent, PageAddr, Pow;
      x := PageSlot(f);
      if p != PageAddr(z, f) {
        return InvalidPointer, x;
      }
      r := Freed;
      GiveWhole(f);
    }

    method GiveWhole(f: Ref)
      requires Valid() && Busy(z, blocks, PageSlot(f))
      modifies this, index.Footprint()
      ensures fresh(index.Footprint() - old(index.Footprint()))
      ensures Valid() && Removes(z, old(blocks), blocks, PageSlot(f)) && SamePermanent(old(blocks), blocks)
    {
      hide Indexed, Keeps, Busy, Removes, SameSlots, SamePermanent;
      GiveWholePageBack(f);
      ghost var m := blocks;
      FreeClusterIfEmpty(f.cluster);
      RemovesThen(z, old(blocks), m, blocks, PageSlot(f));
    }

    // The pointer falls into a page cut into chunks.
    method ChunkPageFree(f: Ref, p: nat) returns (r: FreeResult, ghost x: Slot)
      requires Valid() && IsPage(blocks, f) && PageAddr(z, f) <= p < PageAddr(z, f) + PageSize(z)
      requires PageOf(blocks, f).size != 0 && PageOf(blocks, f).size != NONFREEABLE
      requires PageOf(blocks, f).size != Pow(z.k)
      requires forall y :: Busy(z, blocks, y) && Addr(z, y) == p ==> !y.LargeSlot? && y.ref == f
      modifies this, index.Footprint()
      ensures fresh(index.Footprint() - old(index.Footprint()))
      ensures Valid()
      ensures r.Freed? ==> Removes(z, old(blocks), blocks, x) && SamePermanent(old(blocks), blocks) && Addr(z, x) == p
      ensures !r.Freed? ==> View() == old(View()) && forall y :: Busy(z, blocks, y) ==> Addr(z, y) != p
      ensures !r.OutOfPool?
    {
      var page := PageOf(blocks, f);
      var i := Lg2(page.size);
      ListIndex(z, blocks, f);
      var offset := p - PageAddr(z, f);
      var chunk := Quotient(offset, ChunkSize(z, i));
      ChunkHere(z, blocks, f, i, p, chunk);
      x := ChunkSlot(f, i, chunk);
      if offset != chunk * ChunkSize(z, i) {
        return WrongChunk, x;
      }
      if chunk in page.map_ {
        return FreeChunkAlready, x;
      }
      r := Freed;
      GiveBack(f, i, chunk);
    }

    // The loop of nxt_mp_destroy.
    method FreeAll() returns (freed: seq<Release>, ghost order: seq<nat>)
      requires index.Valid() && index.node.Keys == blocks.Keys
      modifies index.Footprint()
      ensures index.Valid() && index.node == map[] && blocks == old(blocks)
      ensures index.Footprint() <= old(index.Footprint())
      ensures Ascending(order) && (forall a :: a in order <==> a in blocks) && freed == Releases(blocks, order)
    {
      OutsideTree();
      hide BlockTree.Index.Footprint, BlockTree.Index.Valid, BlockTree.Index.Emptying, Releases, Ascending;
      freed, order := [], [];
      NoReleases(blocks);
      var next := index.First();
      while next != index.tree.sentinel
        invariant index.Emptying(next) && index.Footprint() <= old(index.Footprint()) && blocks == old(blocks)
        invariant Ascending(order) && forall a :: a in blocks <==> a in order || a in index.node
        invariant forall a, b :: a in order && b in index.node ==> a < b
        invariant freed == Releases(blocks, order)
        decreases index.node.Keys
      {
        var a;
        a, next := index.DestroyNext(next);
        OneRelease(blocks, order, a);
        if IsApart(blocks[a]) {
          freed := freed + [Descriptor(a)];
        }
        freed := freed + [Memory(a)];
        AscendingMore(order, a);
        order := order + [a];
      }
      index.Emptied(next);
    }

    /**
     * nxt_mp_destroy: in ascending order every block's memory goes back to the system exactly once, and so does every
     * descriptor that was allocated apart.
     */
    method Destroy() returns (freed: seq<Release>, ghost order: seq<nat>)
      requires Valid()
      modifies this, index.Footprint()
      ensures fresh(index.Footprint() - old(index.Footprint()))
      ensures Valid() && blocks == map[]
      ensures Ascending(order) && (forall a :: a in order <==> a in old(blocks))
      ensures freed == Releases(old(blocks), order)
    {
      SizesKnown();
      hide Keeps, Releases, Ascending, BlockTree.Index.Footprint, BlockTree.Index.Valid;
      freed, order := FreeAll();
      Reset();
    }

    method Reset()
      requires SizesOk(z) && index.Valid() && index.node == map[]
      modifies this
      ensures Valid() && blocks == map[]
    {
      EmptyKeeps(z);
      hide Keeps, BlockTree.Index.Valid;
      blocks, freePages, getPages, ngetPages, chunkPages := map[], [], [], [], seq(z.k, i => []);
    }
  }

  // ---------- what is live

  /** Live memory: a slot in use, the bytes taken from a page of non-freeable memory, or a block that is never freed. */
  datatype Held = InUse(slot: Slot) | Prefix(page: Ref) | Permanent(start: nat)

  ghost predicate IsHeld(z: Sizes, m: Blocks, h: Held) {
    match h
    case InUse(x) => Busy(z, m, x)
    case Prefix(r) => IsPage(m, r) && PageOf(m, r).size == NONFREEABLE
    case Permanent(a) => a in m && m[a].Large? && !m[a].freeable
  }

  function HeldAddr(z: Sizes, h: Held): nat {
    match h
    case InUse(x) => Addr(z, x)
    case Prefix(r) => PageAddr(z, r)
    case Permanent(a) => a
  }

  function HeldSize(z: Sizes, m: Blocks, h: Held): nat
    requires IsHeld(z, m, h)
  {
    match h
    case InUse(x) => SlotSize(z, m, x)
    case Prefix(r) => PageOf(m, r).taken
    case Permanent(a) => m[a].size
  }

  // The page of live memory that is not a block of its own.
  function HeldPage(h: Held): Option<Ref> {
    match h
    case InUse(x) => if x.LargeSlot? then None else Some(x.ref)
    case Prefix(r) => Some(r)
    case Permanent(_) => None
  }

  lemma HeldInPage(z: Sizes, m: Blocks, h: Held)
    requires SizesOk(z) && BlocksOk(z, m) && PagesOk(z, m) && IsHeld(z, m, h) && HeldPage(h).Some?
    ensures var r := HeldPage(h).value;
      IsPage(m, r) && PageAddr(z, r) <= HeldAddr(z, h)
        && HeldAddr(z, h) + HeldSize(z, m, h) <= PageAddr(z, r) + PageSize(z)
  {
    if h.InUse? {
      SlotInPage(z, m, h.slot);
    } else {
      NonFreeablePages(z, PageOf(m, h.page));
    }
  }

  lemma NonFreeablePages(z: Sizes, p: Page)
    requires SizesOk(z) && PageOk(z, p) && p.size == NONFREEABLE
    ensures p.taken <= PageSize(z)
  {
    PowNotZero(z);
  }

  /** Live memory lies inside one block of the pool. */
  lemma HeldInside(z: Sizes, m: Blocks, h: Held) returns (a: nat)
    requires SizesOk(z) && BlocksOk(z, m) && PagesOk(z, m) && IsHeld(z, m, h)
    ensures a in m && a <= HeldAddr(z, h) && HeldAddr(z, h) + HeldSize(z, m, h) <= a + Span(z, m[a])
    ensures a == if HeldPage(h).Some? then HeldPage(h).value.cluster else HeldAddr(z, h)
    ensures m[a].Cluster? <==> HeldPage(h).Some?
  {
    a := if HeldPage(h).Some? then HeldPage(h).value.cluster else HeldAddr(z, h);
    if HeldPage(h).Some? {
      HeldInPage(z, m, h);
      PageInCluster(z, m, HeldPage(h).value);
    }
  }

  /** Whatever is live is pairwise disjoint, freeable or not. */
  lemma HeldDisjoint(z: Sizes, m: Blocks, g: Held, h: Held)
    requires SizesOk(z) && BlocksOk(z, m) && PagesOk(z, m) && IsHeld(z, m, g) && IsHeld(z, m, h) && g != h
    ensures Apart(HeldAddr(z, g), HeldSize(z, m, g), HeldAddr(z, h), HeldSize(z, m, h))
  {
    var a := HeldInside(z, m, g);
    var b := HeldInside(z, m, h);
    if a == b && m[a].Cluster? {
      HeldInPage(z, m, g);
      HeldInPage(z, m, h);
      var r, q := HeldPage(g).value, HeldPage(h).value;
      if r.n < q.n {
        PagesApart(z, r, q);
      } else if q.n < r.n {
        PagesApart(z, q, r);
      } else if PageOf(m, r).size == NONFREEABLE {
        NoSlotAt(z, m, r);
      } else {
        SlotsDisjoint(z, m, g.slot, h.slot);
      }
    }
  }

  lemma SlotIsChunk(z: Sizes, m: Blocks, f: Ref, i: nat, chunk: nat)
    requires Busy(z, m, ChunkSlot(f, i, chunk))
    ensures IsPage(m, f) && i < z.k && chunk < PerPage(z, i)
  {
  }

  // A page with a slot in use is no page of non-freeable memory.
  lemma SlotPageSize(z: Sizes, m: Blocks, x: Slot)
    requires SizesOk(z) && Busy(z, m, x) && !x.LargeSlot?
    ensures PageOf(m, x.ref).size != NONFREEABLE
  {
    PowNotZero(z);
  }

  // Alignment of chunks and pages.
  lemma SmallAligned(z: Sizes, m: Blocks, x: Slot, e: nat)
    requires SizesOk(z) && BlocksOk(z, m) && Busy(z, m, x) && !x.LargeSlot?
    requires Pow(e) <= Pow(z.a) && Pow(e) <= SlotSize(z, m, x)
    ensures Multiple(Addr(z, x), Pow(e))
  {
    hide Multiple, Pow, PageAddr, BlocksOk;
    PageAligned(z, m, x.ref, e);
    if x.ChunkSlot? {
      Exponents(e, z.c + x.i);
      PowMultiple(e, z.c + x.i);
      RowAligned(PageAddr(z, x.ref), x.bit, ChunkSize(z, x.i), Pow(e));
    }
  }

  lemma PageAligned(z: Sizes, m: Blocks, r: Ref, e: nat)
    requires SizesOk(z) && BlocksOk(z, m) && IsPage(m, r) && Pow(e) <= Pow(z.a)
    ensures Multiple(PageAddr(z, r), Pow(e))
  {
    hide SizesOk, BlocksOk, Pow, Multiple, PageAddr, PageSize;
    ClusterAligned(z, m, r.cluster, e);
    RowAligned(r.cluster, r.n, PageSize(z), Pow(e));
    RowOf(z, r);
  }

  lemma ClusterAligned(z: Sizes, m: Blocks, a: nat, e: nat)
    requires SizesOk(z) && BlocksOk(z, m) && a in m && m[a].Cluster? && Pow(e) <= Pow(z.a)
    ensures Multiple(a, Pow(e)) && Multiple(PageSize(z), Pow(e))
  {
    assert Multiple(a, Pow(z.a));
    hide Multiple, Pow, BlocksOk;
    Exponents(e, z.a);
    PowMultiple(e, z.a);
    MultipleTrans(a, Pow(z.a), Pow(e));
    PowMultiple(e, z.c + z.k);
  }

  lemma RowAligned(a: nat, n: nat, w: nat, d: nat)
    requires Multiple(a, d) && Multiple(w, d)
    ensures Multiple(a + n * w, d)
  {
    hide Multiple;
    MultipleTimes(n, w, d);
    MultipleSum(a, n * w, d);
  }

  lemma Exponents(a: nat, b: nat)
    requires Pow(a) <= Pow(b)
    ensures a <= b
  {
    if b < a {
      PowStrict(b, a);
    }
  }

  // A free page becomes the first of a queue of non-freeable memory.
  lemma GetPageKeeps(z: Sizes, s: State, r: Ref, p: Page)
    requires SizesOk(z) && Keeps(z, s, Some(r)) && IsPage(s.blocks, r) && PageOf(s.blocks, r).size == 0
    requires p.size == NONFREEABLE && p.taken <= PageSize(z)
    ensures var m := SetPage(s.blocks, r, p);
      && Keeps(z, s.(blocks := m, getPages := [r] + s.getPages), None)
      && Keeps(z, s.(blocks := m, ngetPages := [r] + s.ngetPages), None)
      && SameSlots(z, s.blocks, m)
  {
    WholePageKeeps(z, s, r, p);
    NewGet(s.blocks, s.getPages, s.ngetPages, r, p);
  }

  // The bytes handed out from one page grow.
  lemma HandedPage(z: Sizes, m: Blocks, r: Ref, p: Page, size: nat)
    requires IsPage(m, r) && p.size == NONFREEABLE && p.taken == TakenOf(m, r) + size <= PageSize(z)
    ensures HandedFrom(z, m, SetPage(m, r, p), r, PageAddr(z, r) + TakenOf(m, r), size)
  {
    forall q | q != r
      ensures TakenOf(m, q) == TakenOf(SetPage(m, r, p), q)
    {
      SetPageFacts(m, r, p, q);
    }
  }

  lemma NewGet(m: Blocks, get: seq<Ref>, nget: seq<Ref>, r: Ref, p: Page)
    requires GetListed(m, get, nget) && IsPage(m, r) && PageOf(m, r).size != NONFREEABLE && p.size == NONFREEABLE
    ensures GetListed(SetPage(m, r, p), [r] + get, nget) && GetListed(SetPage(m, r, p), get, [r] + nget)
  {
    assert r !in get && r !in nget;
    forall q
      ensures IsPage(m, q) && (q == r || PageOf(m, q).size == NONFREEABLE)
        ==> IsPage(SetPage(m, r, p), q) && PageOf(SetPage(m, r, p), q).size == NONFREEABLE
    {
      SetPageFacts(m, r, p, q);
    }
  }

  lemma Shorter(m: Blocks, get: seq<Ref>, nget: seq<Ref>, get': seq<Ref>, nget': seq<Ref>)
    requires GetListed(m, get, nget) && NoDup(get') && NoDup(nget')
    requires (forall r :: r in get' ==> r in get) && forall r :: r in nget' ==> r in nget
    ensures GetListed(m, get', nget')
  {
  }

  lemma RemovedFrom(q: seq<Ref>, i: nat)
    requires NoDup(q) && i < |q|
    ensures var q' := q[..i] + q[i + 1..]; NoDup(q') && forall x :: x in q' ==> x in q
  {
    var q' := q[..i] + q[i + 1..];
    assert forall k :: 0 <= k < |q'| ==> q'[k] == q[if k < i then k else k + 1];
  }

  // A page of non-freeable memory stays one.
  lemma ChangeGet(z: Sizes, s: State, r: Ref, p: Page)
    requires SizesOk(z) && Keeps(z, s, None) && IsPage(s.blocks, r) && PageOf(s.blocks, r).size == NONFREEABLE
    requires p.size == NONFREEABLE && p.taken <= PageSize(z)
    ensures Keeps(z, s.(blocks := SetPage(s.blocks, r, p)), None) && SameSlots(z, s.blocks, SetPage(s.blocks, r, p))
  {
    var m := s.blocks;
    SetPageKeepsBlocks(z, m, r, p);
    SetPageKeepsFree(m, s.freePages, None, r, p);
    SetPageKeepsGet(m, s.getPages, s.ngetPages, r, p);
    NotOn(z, p);
    forall i | 0 <= i < |s.chunkPages|
      ensures ChunkListed(SetPage(m, r, p), s.chunkPages[i], i)
    {
      SetPageKeepsChunk(m, s.chunkPages[i], r, p, i);
    }
    forall y
      ensures Busy(z, SetPage(m, r, p), y) <==> Busy(z, m, y)
    {
      if !y.LargeSlot? {
        SetPageFacts(m, r, p, y.ref);
      }
    }
  }

  // A page on list i, first in its queue.
  lemma FirstOfList(z: Sizes, s: State, i: nat)
    requires SizesOk(z) && Keeps(z, s, None) && i < z.k && s.chunkPages[i] != []
    ensures i < |s.chunkPages|
    ensures var r := s.chunkPages[i][0]; IsPage(s.blocks, r) && r in s.chunkPages[i] && On(PageOf(s.blocks, r), i)
    ensures var m := PageOf(s.blocks, s.chunkPages[i][0]).map_;
      m != {} && m <= AllBits() && LowestBit(m, 0) in m && LowestBit(m, 0) < PerPage(z, i)
  {
    var r := s.chunkPages[i][0];
    assert ChunkListed(s.blocks, s.chunkPages[i], i);
    assert r in s.chunkPages[i];
    ListOf(z, PageOf(s.blocks, r), i);
    LowestIsReal(z, PageOf(s.blocks, r), i);
  }

  lemma FreshStart(z: Sizes, m: Blocks, a: nat, size: nat)
    requires Fresh(z, m, a, size)
    ensures a !in m
  {
  }

  lemma ClusterTaken(z: Sizes, m: Blocks, start: nat)
    requires start !in m
    ensures SamePermanent(m, WithCluster(z, m, start))
  {
    ClusterPages(z, m, start);
  }

  // ---------- addresses and slots

  lemma ChunkAddr(z: Sizes, r: Ref, i: nat, n: nat)
    ensures Addr(z, ChunkSlot(r, i, n)) == PageAddr(z, r) + n * ChunkSize(z, i)
  {
  }

  lemma LargeShape(z: Sizes, m: Blocks, a: nat)
    requires a in m && m[a].Large?
    ensures Addr(z, LargeSlot(a)) == a && SlotSize(z, m, LargeSlot(a)) == m[a].size
  {
  }

  function Owner(y: Slot): nat { if y.LargeSlot? then y.start else y.ref.cluster }

  // A slot at address p belongs to the block that holds p.
  lemma NotElsewhere(z: Sizes, m: Blocks, found: Option<nat>, p: nat)
    requires SizesOk(z) && BlocksOk(z, m)
    requires found.Some? ==> BlockTree.Holds(Spans(z, m), found.value, p)
    requires found.None? ==> forall k :: !BlockTree.Holds(Spans(z, m), k, p)
    ensures forall y :: Busy(z, m, y) && Addr(z, y) == p ==> found == Some(Owner(y))
  {
    SpansDisjoint(z, m);
    forall y | Busy(z, m, y) && Addr(z, y) == p
      ensures found == Some(Owner(y))
    {
      SlotsInside(z, m, y);
      assert SlotSize(z, m, y) > 0;
      assert BlockTree.Holds(Spans(z, m), Owner(y), p);
      BlockTree.OneHolder(Spans(z, m), Owner(y), found.value, p);
    }
  }

  /** No block holds the address of a block without bytes: it is out of the pool for nxt_mp_free. */
  lemma EmptyBlock(z: Sizes, m: Blocks, a: nat)
    requires BlocksOk(z, m) && a in m && Span(z, m[a]) == 0
    ensures forall k :: !BlockTree.Holds(Spans(z, m), k, a)
  {
    forall k | BlockTree.Holds(Spans(z, m), k, a)
      ensures k == a
    {
      assert k != a ==> Apart(k, Span(z, m[k]), a, Span(z, m[a]));
    }
  }

  /** An allocation aligned to 128 bytes is what the tagged words of the hash need. */
  lemma HashBlockDecodes(p: nat)
    requires Multiple(p, HASH_BLOCK)
    ensures LevelHashWord.Decodes(p)
  {
    var q: nat :| p == q * HASH_BLOCK;
    LevelHashWord.Remainder128(p, q, 0);
    LevelHashWord.AlignedDecodes(p);
  }

  // Two quotients of one number are equal.
  lemma OneQuotient(x: nat, a: nat, b: nat, w: nat)
    requires a * w <= x < a * w + w && b * w <= x < b * w + w
    ensures a == b
  {
    if a < b {
      Steps(a, b, w);
    } else if b < a {
      Steps(b, a, w);
    }
  }

  lemma QuotientBelow(x: nat, a: nat, n: nat, w: nat)
    requires a * w <= x < n * w
    ensures a < n
  {
    if n <= a {
      Scale(n, a, w);
    }
  }

  // The page an address falls into, and the slots that can begin there.
  lemma PageHere(z: Sizes, m: Blocks, a: nat, n: nat, p: nat)
    requires SizesOk(z) && BlocksOk(z, m) && a in m && m[a].Cluster? && a <= p < a + ClusterSize(z)
    requires n * PageSize(z) <= p - a < n * PageSize(z) + PageSize(z)
    ensures IsPage(m, Ref(a, n)) && PageAddr(z, Ref(a, n)) <= p < PageAddr(z, Ref(a, n)) + PageSize(z)
    ensures forall y :: Busy(z, m, y) && Addr(z, y) == p && !y.LargeSlot? && y.ref.cluster == a ==> y.ref == Ref(a, n)
  {
    QuotientBelow(p - a, n, z.pages, PageSize(z));
    forall y | Busy(z, m, y) && Addr(z, y) == p && !y.LargeSlot? && y.ref.cluster == a
      ensures y.ref == Ref(a, n)
    {
      SlotInPage(z, m, y);
      PositiveSlot(z, m, y);
      OneQuotient(p - a, y.ref.n, n, PageSize(z));
    }
  }

  lemma PositiveSlot(z: Sizes, m: Blocks, y: Slot)
    requires Busy(z, m, y) && !y.LargeSlot?
    ensures SlotSize(z, m, y) > 0
  {
  }

  lemma NoSlotAt(z: Sizes, m: Blocks, f: Ref)
    requires SizesOk(z) && IsPage(m, f) && (PageOf(m, f).size == 0 || PageOf(m, f).size == NONFREEABLE)
    ensures forall y :: Busy(z, m, y) && !y.LargeSlot? ==> y.ref != f
  {
    PowNotZero(z);
  }

  // The list a chunk page belongs to, from its size.
  lemma ListIndex(z: Sizes, m: Blocks, f: Ref)
    requires SizesOk(z) && PagesOk(z, m) && IsPage(m, f)
    requires PageOf(m, f).size != 0 && PageOf(m, f).size != NONFREEABLE && PageOf(m, f).size != Pow(z.k)
    ensures var i := Lg2(PageOf(m, f).size); i < z.k && PageOf(m, f).size == Pow(i)
  {
    var i: nat :| i < z.k && ChunkPage(z, PageOf(m, f), i);
    LgOfPow(i);
  }

  lemma {:induction false} LgOfPow(i: nat)
    ensures Lg2(Pow(i)) == i
  {
    var n := Lg2(Pow(i));
    if n < i {
      PowMono(n + 1, i);
    } else if i < n {
      PowStrict(i, n);
    }
  }

  // The only slot of a chunk page that can begin at p.
  lemma ChunkHere(z: Sizes, m: Blocks, f: Ref, i: nat, p: nat, chunk: nat)
    requires SizesOk(z) && BlocksOk(z, m) && IsPage(m, f) && i < z.k && PageOf(m, f).size == Pow(i)
    requires PageAddr(z, f) <= p < PageAddr(z, f) + PageSize(z)
    requires chunk * ChunkSize(z, i) <= p - PageAddr(z, f) < chunk * ChunkSize(z, i) + ChunkSize(z, i)
    ensures chunk < PerPage(z, i)
    ensures forall y :: Busy(z, m, y) && Addr(z, y) == p && !y.LargeSlot? && y.ref == f ==>
      y == ChunkSlot(f, i, chunk) && p == PageAddr(z, f) + chunk * ChunkSize(z, i)
  {
    PageParts(z, i);
    QuotientBelow(p - PageAddr(z, f), chunk, PerPage(z, i), ChunkSize(z, i));
    PowStrict(i, z.k);
    forall y | Busy(z, m, y) && Addr(z, y) == p && !y.LargeSlot? && y.ref == f
      ensures y == ChunkSlot(f, i, chunk)
    {
      PowInjective(y.i, i);
      OneQuotient(p - PageAddr(z, f), y.bit, chunk, ChunkSize(z, i));
    }
  }

  lemma WholeHere(z: Sizes, m: Blocks, f: Ref)
    requires SizesOk(z) && IsPage(m, f) && PageOf(m, f).size == Pow(z.k)
    ensures Busy(z, m, PageSlot(f)) && forall y :: Busy(z, m, y) && !y.LargeSlot? && y.ref == f ==> y == PageSlot(f)
  {
    forall y | Busy(z, m, y) && !y.LargeSlot? && y.ref == f
      ensures y == PageSlot(f)
    {
      if y.ChunkSlot? {
        PowStrict(y.i, z.k);
      }
    }
  }
}
