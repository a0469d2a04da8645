/** The memory pool of src/nxt_mp.c: clusters of pages, pages of chunks, large blocks. */
module MemPool {
  import opened Bytes
  import opened Pow2

  const BITS: nat := 32
  const NONFREEABLE: nat := 0xFF

  /**
   * A pool's sizes as exponents: chunks of 2^c bytes at least, pages of 2^(c+k) bytes, clusters of `pages` pages
   * aligned to 2^a bytes.  k is the number of chunk lists.
   */
  datatype Sizes = Sizes(c: nat, k: nat, a: nat, pages: nat)

  predicate SizesOk(z: Sizes) {
    1 <= z.k <= 5 && z.a <= z.c + z.k && 1 <= z.pages <= 256
  }

  function PageSize(z: Sizes): nat { Pow(z.c + z.k) }

  function ClusterSize(z: Sizes): nat { z.pages * PageSize(z) }

  function ChunkSize(z: Sizes, i: nat): nat { Pow(z.c + i) }

  /** How many chunks of list i a page holds. */
  function PerPage(z: Sizes, i: nat): (n: nat)
    requires i <= z.k
  {
    Pow(z.k - i)
  }

  /** A page: the set bits of its map, the free chunks it counts, the bytes taken from a page of non-freeable memory. */
  datatype Page = Page(size: nat, map_: set<nat>, chunks: nat, taken: nat, fails: nat)

  datatype Block = Cluster(pages: seq<Page>) | Large(size: nat, freeable: bool, embedded: bool)

  datatype Ref = Ref(cluster: nat, n: nat)

  type Blocks = map<nat, Block>

  predicate IsPage(m: Blocks, r: Ref) {
    r.cluster in m && m[r.cluster].Cluster? && r.n < |m[r.cluster].pages|
  }

  function PageOf(m: Blocks, r: Ref): Page
    requires IsPage(m, r)
  {
    m[r.cluster].pages[r.n]
  }

  function SetPage(m: Blocks, r: Ref, p: Page): Blocks
    requires IsPage(m, r)
  {
    m[r.cluster := Cluster(m[r.cluster].pages[r.n := p])]
  }

  lemma SetPageFacts(m: Blocks, r: Ref, p: Page, q: Ref)
    requires IsPage(m, r)
    ensures IsPage(SetPage(m, r, p), q) <==> IsPage(m, q)
    ensures IsPage(m, q) ==> PageOf(SetPage(m, r, p), q) == if q == r then p else PageOf(m, q)
  {
  }

  // ---------- pages

  /** The bits of the chunks a page really has. */
  function Real(z: Sizes, i: nat): set<nat>
    requires i <= z.k
  {
    Below(PerPage(z, i))
  }

  // The bits of a 32-bit word.
  predicate IsBit(b: nat) { true }

  function Below(n: nat): (r: set<nat>)
    ensures forall b: nat :: b in r <==> b < n
  {
    set b: nat | b < n && IsBit(b)
  }

  lemma {:induction false} BelowSize(n: nat)
    ensures |Below(n)| == n
  {
    if n > 0 {
      BelowSize(n - 1);
      assert Below(n) == Below(n - 1) + {n - 1};
    }
  }

  function AllBits(): (r: set<nat>)
    ensures forall b: nat :: b in r <==> b < BITS
  {
    Below(BITS)
  }

  ghost predicate ChunkPage(z: Sizes, p: Page, i: nat)
    requires i < z.k
  {
    && p.size == Pow(i) && p.map_ <= AllBits() && AllBits() - Real(z, i) <= p.map_
    && p.chunks == |p.map_ * Real(z, i)| && p.map_ != AllBits()
  }

  ghost predicate PageOk(z: Sizes, p: Page) {
    || p.size == 0
    || (exists i: nat :: i < z.k && ChunkPage(z, p, i))
    || p.size == Pow(z.k)
    || (p.size == NONFREEABLE && p.taken <= PageSize(z))
  }

  // ---------- slots

  /** A freeable allocation: a chunk, a whole page, or a large block. */
  datatype Slot = ChunkSlot(ref: Ref, i: nat, bit: nat) | PageSlot(ref: Ref) | LargeSlot(start: nat)

  function PageAddr(z: Sizes, r: Ref): nat { r.cluster + r.n * PageSize(z) }

  function Addr(z: Sizes, x: Slot): nat {
    match x
    case ChunkSlot(r, i, b) => PageAddr(z, r) + b * ChunkSize(z, i)
    case PageSlot(r) => PageAddr(z, r)
    case LargeSlot(start) => start
  }

  function SlotSize(z: Sizes, m: Blocks, x: Slot): nat
    requires x.LargeSlot? ==> x.start in m && m[x.start].Large?
  {
    match x
    case ChunkSlot(_, i, _) => ChunkSize(z, i)
    case PageSlot(_) => PageSize(z)
    case LargeSlot(start) => m[start].size
  }

  /** The slots in use; a block without bytes is none, because no address lies in it. */
  predicate Busy(z: Sizes, m: Blocks, x: Slot) {
    match x
    case ChunkSlot(r, i, b) =>
      i < z.k && b < PerPage(z, i) && IsPage(m, r) && PageOf(m, r).size == Pow(i) && b !in PageOf(m, r).map_
    case PageSlot(r) => IsPage(m, r) && PageOf(m, r).size == Pow(z.k)
    case LargeSlot(start) => start in m && m[start].Large? && m[start].freeable && m[start].size > 0
  }

  // ---------- the invariant

  function Span(z: Sizes, b: Block): nat { if b.Cluster? then ClusterSize(z) else b.size }

  ghost predicate Apart(a: nat, n: nat, b: nat, m: nat) { a + n <= b || b + m <= a }

  ghost predicate BlocksOk(z: Sizes, m: Blocks) {
    && (forall a :: a in m && m[a].Cluster? ==> |m[a].pages| == z.pages && Multiple(a, Pow(z.a)))
    && (forall a, b :: a in m && b in m && a != b ==> Apart(a, Span(z, m[a]), b, Span(z, m[b])))
  }

  ghost predicate PagesOk(z: Sizes, m: Blocks) {
    forall r :: IsPage(m, r) ==> PageOk(z, PageOf(m, r))
  }

  ghost predicate NoDup(q: seq<Ref>) {
    forall i, j :: 0 <= i < j < |q| ==> q[i] != q[j]
  }

  // The free list holds exactly the free pages, except a page that has just been taken off its list.
  ghost predicate FreeListed(m: Blocks, q: seq<Ref>, e: Option<Ref>) {
    NoDup(q) && forall r :: r in q <==> IsPage(m, r) && PageOf(m, r).size == 0 && Some(r) != e
  }

  // Being on chunk list i.
  predicate On(p: Page, i: nat) { p.size == Pow(i) && p.chunks > 0 }

  ghost predicate ChunkListed(m: Blocks, q: seq<Ref>, i: nat) {
    NoDup(q) && forall r :: r in q <==> IsPage(m, r) && On(PageOf(m, r), i)
  }

  // Each chunk list holds exactly the pages of its size that have a free chunk.
  ghost predicate ChunksListed(z: Sizes, m: Blocks, qs: seq<seq<Ref>>) {
    |qs| == z.k && forall i :: 0 <= i < |qs| ==> ChunkListed(m, qs[i], i)
  }

  ghost predicate GetListed(m: Blocks, get: seq<Ref>, nget: seq<Ref>) {
    && NoDup(get) && NoDup(nget)
    && (forall r :: r in get || r in nget ==> IsPage(m, r) && PageOf(m, r).size == NONFREEABLE)
    && (forall r :: !(r in get && r in nget))
  }

  /** blocks is the red-black tree, by start address; the queues hold the pages they link, head first. */
  datatype State = State(blocks: Blocks, freePages: seq<Ref>, chunkPages: seq<seq<Ref>>, getPages: seq<Ref>,
      ngetPages: seq<Ref>)

  /** Everything a pool keeps, with one page possibly off its list. */
  ghost predicate Keeps(z: Sizes, s: State, e: Option<Ref>) {
    && BlocksOk(z, s.blocks) && PagesOk(z, s.blocks) && FreeListed(s.blocks, s.freePages, e)
    && ChunksListed(z, s.blocks, s.chunkPages) && GetListed(s.blocks, s.getPages, s.ngetPages)
  }

  // ---------- geometry

  lemma PageParts(z: Sizes, i: nat)
    requires i <= z.k
    ensures PerPage(z, i) * ChunkSize(z, i) == PageSize(z)
  {
    PowSum(z.k - i, z.c + i);
  }

  lemma Steps(i: nat, j: nat, w: nat)
    requires i < j
    ensures i * w + w <= j * w
  {
    assert (i + 1) * w <= j * w by { Scale(i + 1, j, w); }
  }

  lemma Scale(a: nat, b: nat, w: nat)
    requires a <= b
    ensures a * w <= b * w
  {
    assert b * w == a * w + (b - a) * w;
  }

  // A slot lies within its page, a page within its cluster.
  lemma SlotInPage(z: Sizes, m: Blocks, x: Slot)
    requires SizesOk(z) && BlocksOk(z, m) && Busy(z, m, x) && !x.LargeSlot?
    ensures PageAddr(z, x.ref) <= Addr(z, x) && Addr(z, x) + SlotSize(z, m, x) <= PageAddr(z, x.ref) + PageSize(z)
  {
    hide PageAddr, PageSize, ChunkSize, PerPage, BlocksOk;
    if x.ChunkSlot? {
      ChunkInPage(z, PageAddr(z, x.ref), x.i, x.bit);
    }
  }

  lemma ChunkInPage(z: Sizes, a: nat, i: nat, b: nat)
    requires i <= z.k && b < PerPage(z, i)
    ensures a <= a + b * ChunkSize(z, i) && a + b * ChunkSize(z, i) + ChunkSize(z, i) <= a + PageSize(z)
  {
    hide *;
    PageParts(z, i);
    Row(a, b, PerPage(z, i), ChunkSize(z, i));
  }

  lemma PageInCluster(z: Sizes, m: Blocks, r: Ref)
    requires BlocksOk(z, m) && IsPage(m, r)
    ensures r.cluster <= PageAddr(z, r) && PageAddr(z, r) + PageSize(z) <= r.cluster + ClusterSize(z)
  {
    var n, k, w := r.n, z.pages, PageSize(z);
    assert n < k;
    hide *;
    Row(r.cluster, n, k, w);
    RowOf(z, r);
  }

  lemma Row(a: nat, n: nat, k: nat, w: nat)
    requires n < k
    ensures a <= a + n * w && a + n * w + w <= a + k * w
  {
    Steps(n, k, w);
  }

  lemma RowOf(z: Sizes, r: Ref)
    ensures PageAddr(z, r) == r.cluster + r.n * PageSize(z) && ClusterSize(z) == z.pages * PageSize(z)
  {
  }

  /** Every slot in use lies inside one block of the pool. */
  lemma SlotsInside(z: Sizes, m: Blocks, x: Slot)
    requires SizesOk(z) && BlocksOk(z, m) && Busy(z, m, x)
    ensures var a := if x.LargeSlot? then x.start else x.ref.cluster;
      a in m && a <= Addr(z, x) && Addr(z, x) + SlotSize(z, m, x) <= a + Span(z, m[a])
  {
    if !x.LargeSlot? {
      SlotInPage(z, m, x);
      PageInCluster(z, m, x.ref);
    }
  }

  lemma PagesApart(z: Sizes, r: Ref, q: Ref)
    requires r.cluster == q.cluster && r.n < q.n
    ensures PageAddr(z, r) + PageSize(z) <= PageAddr(z, q)
  {
    Steps(r.n, q.n, PageSize(z));
  }

  /** Slots in use are pairwise disjoint. */
  lemma SlotsDisjoint(z: Sizes, m: Blocks, x: Slot, y: Slot)
    requires SizesOk(z) && BlocksOk(z, m) && Busy(z, m, x) && Busy(z, m, y) && x != y
    ensures Apart(Addr(z, x), SlotSize(z, m, x), Addr(z, y), SlotSize(z, m, y))
  {
    SlotsInside(z, m, x);
    SlotsInside(z, m, y);
    var a := if x.LargeSlot? then x.start else x.ref.cluster;
    var b := if y.LargeSlot? then y.start else y.ref.cluster;
    if a == b {
      SlotInPage(z, m, x);
      SlotInPage(z, m, y);
      if x.ref.n < y.ref.n {
        PagesApart(z, x.ref, y.ref);
      } else if y.ref.n < x.ref.n {
        PagesApart(z, y.ref, x.ref);
      } else {
        SamePage(z, m, x, y);
      }
    }
  }

  lemma SamePage(z: Sizes, m: Blocks, x: Slot, y: Slot)
    requires SizesOk(z) && Busy(z, m, x) && Busy(z, m, y) && x != y && !x.LargeSlot? && !y.LargeSlot? && x.ref == y.ref
    ensures Apart(Addr(z, x), SlotSize(z, m, x), Addr(z, y), SlotSize(z, m, y))
  {
    var i := if x.ChunkSlot? then x.i else z.k;
    var j := if y.ChunkSlot? then y.i else z.k;
    PowInjective(i, j);
    if x.bit < y.bit {
      Steps(x.bit, y.bit, ChunkSize(z, i));
    } else {
      Steps(y.bit, x.bit, ChunkSize(z, i));
    }
  }

  // ---------- taking a page

  function FreePage(): Page { Page(0, {}, 0, 0, 0) }

  function Refs(start: nat, n: nat): seq<Ref> {
    seq(n, i requires 0 <= i < n => Ref(start, i))
  }

  /** nxt_mp_alloc_cluster: a block of free pages. */
  function WithCluster(z: Sizes, m: Blocks, start: nat): Blocks {
    m[start := Cluster(seq(z.pages, i => FreePage()))]
  }

  // The memory at start is fresh: outside every block of the pool.
  ghost predicate Fresh(z: Sizes, m: Blocks, start: nat, size: nat) {
    start !in m && forall a :: a in m ==> Apart(a, Span(z, m[a]), start, size)
  }

  ghost predicate SameSlots(z: Sizes, m: Blocks, m': Blocks) {
    forall x :: Busy(z, m, x) <==> Busy(z, m', x)
  }

  lemma ClusterPages(z: Sizes, m: Blocks, start: nat)
    requires start !in m
    ensures var t := WithCluster(z, m, start);
      forall r :: IsPage(t, r) <==> IsPage(m, r) || (r.cluster == start && r.n < z.pages)
    ensures var t := WithCluster(z, m, start);
      forall r :: IsPage(t, r) ==> PageOf(t, r) == if r.cluster == start then FreePage() else PageOf(m, r)
  {
  }

  lemma ClusterKeeps(z: Sizes, s: State, start: nat)
    requires SizesOk(z) && Keeps(z, s, None) && Fresh(z, s.blocks, start, ClusterSize(z)) && Multiple(start, Pow(z.a))
    ensures var t := s.(blocks := WithCluster(z, s.blocks, start), freePages := Refs(start, z.pages) + s.freePages);
      Keeps(z, t, None) && SameSlots(z, s.blocks, t.blocks) && t.freePages != []
  {
    var m := WithCluster(z, s.blocks, start);
    ClusterFree(z, s.blocks, start, s.freePages);
    ClusterBlocks(z, s.blocks, start);
    ClusterQueues(z, s, start);
    assert Ref(start, 0) == Refs(start, z.pages)[0];
  }

  lemma ClusterBlocks(z: Sizes, m: Blocks, start: nat)
    requires SizesOk(z) && BlocksOk(z, m) && PagesOk(z, m) && Fresh(z, m, start, ClusterSize(z))
    requires Multiple(start, Pow(z.a))
    ensures BlocksOk(z, WithCluster(z, m, start)) && PagesOk(z, WithCluster(z, m, start))
  {
    ClusterPages(z, m, start);
  }

  lemma ClusterQueues(z: Sizes, s: State, start: nat)
    requires SizesOk(z) && Keeps(z, s, None) && start !in s.blocks
    ensures var m := WithCluster(z, s.blocks, start);
      ChunksListed(z, m, s.chunkPages) && GetListed(m, s.getPages, s.ngetPages) && SameSlots(z, s.blocks, m)
  {
    var m := WithCluster(z, s.blocks, start);
    ClusterPages(z, s.blocks, start);
    PowNotZero(z);
    hide BlocksOk, PagesOk, FreeListed;
    forall i | 0 <= i < |s.chunkPages|
      ensures ChunkListed(m, s.chunkPages[i], i)
    {
      assert ChunkListed(s.blocks, s.chunkPages[i], i);
    }
  }

  lemma PowNotZero(z: Sizes)
    requires SizesOk(z)
    ensures forall i :: Pow(i) != 0
    ensures forall i: nat :: i <= z.k ==> Pow(i) < NONFREEABLE
  {
    forall i: nat | i <= z.k
      ensures Pow(i) < NONFREEABLE
    {
      PowMono(i, 5);
      assert Pow(5) == 32;
    }
  }

  lemma ClusterFree(z: Sizes, m: Blocks, start: nat, free: seq<Ref>)
    requires start !in m && FreeListed(m, free, None)
    ensures FreeListed(WithCluster(z, m, start), Refs(start, z.pages) + free, None)
  {
    var q := Refs(start, z.pages);
    ClusterPages(z, m, start);
    forall r
      ensures r in q <==> r.cluster == start && r.n < z.pages
    {
      if r.cluster == start && r.n < z.pages {
        assert q[r.n] == r;
      }
    }
    assert forall r :: r in free ==> r.cluster != start;
    ConcatNoDup(q, free);
  }

  lemma ConcatNoDup(a: seq<Ref>, b: seq<Ref>)
    requires NoDup(a) && NoDup(b) && forall r :: r in a ==> r !in b
    ensures NoDup(a + b)
  {
    var c := a + b;
    forall i, j | 0 <= i < j < |c|
      ensures c[i] != c[j]
    {
      if i < |a| <= j {
        assert c[i] in a && c[j] in b;
      }
    }
  }

  function Without(q: seq<Ref>, r: Ref): seq<Ref> {
    if q == [] then [] else if q[0] == r then q[1..] else [q[0]] + Without(q[1..], r)
  }

  lemma {:induction false} WithoutFacts(q: seq<Ref>, r: Ref)
    requires NoDup(q)
    ensures NoDup(Without(q, r)) && forall x :: x in Without(q, r) <==> x in q && x != r
  {
    if q != [] {
      assert NoDup(q[1..]);
      assert q == [q[0]] + q[1..] && q[0] !in q[1..];
      WithoutFacts(q[1..], r);
    }
  }

  lemma TakeFree(m: Blocks, q: seq<Ref>)
    requires FreeListed(m, q, None) && q != []
    ensures FreeListed(m, q[1..], Some(q[0])) && IsPage(m, q[0]) && PageOf(m, q[0]).size == 0
  {
    assert q[0] in q;
    WithoutFacts(q, q[0]);
  }

  // ---------- changing a page

  /** Exactly the slot x is added. */
  ghost predicate Adds(z: Sizes, m: Blocks, m': Blocks, x: Slot) {
    !Busy(z, m, x) && forall y :: Busy(z, m', y) <==> Busy(z, m, y) || y == x
  }

  lemma SetPageKeepsBlocks(z: Sizes, m: Blocks, r: Ref, p: Page)
    requires BlocksOk(z, m) && PagesOk(z, m) && IsPage(m, r) && PageOk(z, p)
    ensures BlocksOk(z, SetPage(m, r, p)) && PagesOk(z, SetPage(m, r, p))
  {
    var t := SetPage(m, r, p);
    forall q | IsPage(t, q)
      ensures PageOk(z, PageOf(t, q))
    {
      SetPageFacts(m, r, p, q);
    }
  }

  // A page in use: the taken page, or one that was in use before.
  lemma SetPageKeepsFree(m: Blocks, free: seq<Ref>, e: Option<Ref>, r: Ref, p: Page)
    requires FreeListed(m, free, e) && IsPage(m, r) && p.size != 0
    requires e == Some(r) || (e == None && PageOf(m, r).size != 0)
    ensures FreeListed(SetPage(m, r, p), free, None)
  {
    forall q
      ensures q in free <==> IsPage(SetPage(m, r, p), q) && PageOf(SetPage(m, r, p), q).size == 0
    {
      SetPageFacts(m, r, p, q);
    }
  }

  lemma SetPageKeepsGet(m: Blocks, get: seq<Ref>, nget: seq<Ref>, r: Ref, p: Page)
    requires GetListed(m, get, nget) && IsPage(m, r) && (PageOf(m, r).size == NONFREEABLE ==> p.size == NONFREEABLE)
    ensures GetListed(SetPage(m, r, p), get, nget)
  {
    forall q
      ensures IsPage(m, q) && PageOf(m, q).size == NONFREEABLE
        ==> IsPage(SetPage(m, r, p), q) && PageOf(SetPage(m, r, p), q).size == NONFREEABLE
    {
      SetPageFacts(m, r, p, q);
    }
  }

  lemma SetPageKeepsChunk(m: Blocks, q: seq<Ref>, r: Ref, p: Page, i: nat)
    requires ChunkListed(m, q, i) && IsPage(m, r) && (On(p, i) <==> On(PageOf(m, r), i))
    ensures ChunkListed(SetPage(m, r, p), q, i)
  {
    forall x
      ensures x in q <==> IsPage(SetPage(m, r, p), x) && On(PageOf(SetPage(m, r, p), x), i)
    {
      SetPageFacts(m, r, p, x);
    }
  }

  lemma PushChunk(m: Blocks, q: seq<Ref>, r: Ref, p: Page, i: nat)
    requires ChunkListed(m, q, i) && IsPage(m, r) && On(p, i) && !On(PageOf(m, r), i)
    ensures ChunkListed(SetPage(m, r, p), [r] + q, i)
  {
    assert r !in q;
    forall x
      ensures x in [r] + q <==> IsPage(SetPage(m, r, p), x) && On(PageOf(SetPage(m, r, p), x), i)
    {
      SetPageFacts(m, r, p, x);
    }
  }

  lemma DropChunk(m: Blocks, q: seq<Ref>, r: Ref, p: Page, i: nat)
    requires ChunkListed(m, q, i) && IsPage(m, r) && !On(p, i) && On(PageOf(m, r), i)
    ensures ChunkListed(SetPage(m, r, p), Without(q, r), i)
  {
    WithoutFacts(q, r);
    forall x
      ensures x in Without(q, r) <==> IsPage(SetPage(m, r, p), x) && On(PageOf(SetPage(m, r, p), x), i)
    {
      SetPageFacts(m, r, p, x);
    }
  }

  // Every chunk list but i is left alone.
  lemma OtherChunkLists(z: Sizes, m: Blocks, qs: seq<seq<Ref>>, r: Ref, p: Page, i: nat, q: seq<Ref>)
    requires ChunksListed(z, m, qs) && IsPage(m, r) && i < z.k && ChunkListed(SetPage(m, r, p), q, i)
    requires forall j: nat :: j < z.k && j != i ==> (On(p, j) <==> On(PageOf(m, r), j))
    ensures ChunksListed(z, SetPage(m, r, p), qs[i := q])
  {
    var qs' := qs[i := q];
    forall j | 0 <= j < |qs|
      ensures ChunkListed(SetPage(m, r, p), qs'[j], j)
    {
      if j != i {
        SetPageKeepsChunk(m, qs[j], r, p, j);
      }
    }
  }

  lemma OnOnly(p: Page, i: nat, j: nat)
    requires p.size == Pow(i) && i != j
    ensures !On(p, j)
  {
    if Pow(i) == Pow(j) {
      PowInjective(i, j);
    }
  }

  // ---------- chunks

  /** nxt_mp_chunk_get_free: the lowest set bit. */
  function LowestBit(m: set<nat>, b: nat): (r: nat)
    requires b <= BITS && m <= AllBits() && m != {} && forall x :: x in m ==> x >= b
    ensures r in m && forall x :: x in m ==> x >= r
    decreases BITS - b
  {
    if b in m then b
    else
      assert b < BITS by { var x :| x in m; assert x in AllBits(); }
      LowestBit(m, b + 1)
  }

  // The lowest bit of a listed page's map is one of its real chunks.
  lemma LowestIsReal(z: Sizes, p: Page, i: nat)
    requires SizesOk(z) && i < z.k && ChunkPage(z, p, i) && p.chunks > 0
    ensures p.map_ != {} && LowestBit(p.map_, 0) < PerPage(z, i)
  {
    assert p.map_ * Real(z, i) != {};
    var x :| x in p.map_ * Real(z, i);
  }

  // A chunk page knows which list it belongs to.
  lemma ListOf(z: Sizes, p: Page, i: nat)
    requires SizesOk(z) && PageOk(z, p) && i < z.k && p.size == Pow(i)
    ensures ChunkPage(z, p, i)
  {
    PowNotZero(z);
    PowStrict(i, z.k);
    var j: nat :| j < z.k && ChunkPage(z, p, j);
    PowInjective(i, j);
  }

  /** Taking bit b of a chunk page. */
  function TakeBit(p: Page, b: nat): Page
    requires p.chunks > 0
  {
    p.(map_ := p.map_ - {b}, chunks := p.chunks - 1)
  }

  lemma TakeBitOk(z: Sizes, p: Page, i: nat, b: nat)
    requires SizesOk(z) && i < z.k && ChunkPage(z, p, i) && b in p.map_ && b < PerPage(z, i)
    ensures p.chunks > 0 && ChunkPage(z, TakeBit(p, b), i)
  {
    assert b in p.map_ * Real(z, i);
    assert TakeBit(p, b).map_ * Real(z, i) == p.map_ * Real(z, i) - {b};
    PerPageFits(z, i);
    assert b in AllBits() && b !in TakeBit(p, b).map_;
  }

  lemma PerPageFits(z: Sizes, i: nat)
    requires SizesOk(z) && i < z.k
    ensures 2 <= PerPage(z, i) <= BITS && |Real(z, i)| == PerPage(z, i)
  {
    BelowSize(PerPage(z, i));
    PowMono(z.k - i, 5);
    PowMono(1, z.k - i);
    assert Pow(5) == 32 && Pow(1) == 2;
  }

  /** A page cut into chunks with the first one taken. */
  function CutPage(z: Sizes, i: nat): Page
    requires i < z.k
  {
    Page(Pow(i), AllBits() - {0}, PerPage(z, i) - 1, 0, 0)
  }

  lemma CutPageOk(z: Sizes, i: nat)
    requires SizesOk(z) && i < z.k
    ensures ChunkPage(z, CutPage(z, i), i) && CutPage(z, i).chunks > 0
  {
    PerPageFits(z, i);
    assert 0 in AllBits() && 0 in Real(z, i);
    assert (AllBits() - {0}) * Real(z, i) == Real(z, i) - {0};
  }

  lemma AsPageOk(z: Sizes, p: Page, i: nat)
    requires i < z.k && ChunkPage(z, p, i)
    ensures PageOk(z, p)
  {
  }

  // ---------- allocation

  /** A chunk is taken from a listed page, which leaves its list when it is full. */
  function TakeChunk(s: State, r: Ref, b: nat, i: nat): State
    requires i < |s.chunkPages| && IsPage(s.blocks, r) && PageOf(s.blocks, r).chunks > 0
  {
    var p := TakeBit(PageOf(s.blocks, r), b);
    s.(blocks := SetPage(s.blocks, r, p),
       chunkPages := s.chunkPages[i := if p.chunks == 0 then Without(s.chunkPages[i], r) else s.chunkPages[i]])
  }

  lemma TakeChunkKeeps(z: Sizes, s: State, r: Ref, b: nat, i: nat)
    requires SizesOk(z) && Keeps(z, s, None) && i < z.k && r in s.chunkPages[i]
    requires IsPage(s.blocks, r) && b in PageOf(s.blocks, r).map_ && b < PerPage(z, i)
    ensures PageOf(s.blocks, r).chunks > 0 && Keeps(z, TakeChunk(s, r, b, i), None)
  {
    hide PageOk;
    assert ChunkListed(s.blocks, s.chunkPages[i], i);
    var p := PageOf(s.blocks, r);
    ListOf(z, p, i);
    TakeBitOk(z, p, i, b);
    var p' := TakeBit(p, b);
    AsPageOk(z, p', i);
    PowNotZero(z);
    ChangeChunk(z, s, r, p', i, if p'.chunks == 0 then Without(s.chunkPages[i], r) else s.chunkPages[i]) by {
      if p'.chunks == 0 {
        DropChunk(s.blocks, s.chunkPages[i], r, p', i);
      } else {
        SetPageKeepsChunk(s.blocks, s.chunkPages[i], r, p', i);
      }
    }
  }

  // A chunk page of list i changes and stays a chunk page of list i.
  lemma ChangeChunk(z: Sizes, s: State, r: Ref, p: Page, i: nat, q: seq<Ref>)
    requires SizesOk(z) && Keeps(z, s, None) && i < z.k && IsPage(s.blocks, r)
    requires PageOf(s.blocks, r).size == p.size == Pow(i)
    requires PageOk(z, p) && ChunkListed(SetPage(s.blocks, r, p), q, i)
    ensures Keeps(z, s.(blocks := SetPage(s.blocks, r, p), chunkPages := s.chunkPages[i := q]), None)
  {
    hide PageOk;
    PowNotZero(z);
    forall j: nat | j < z.k && j != i
      ensures On(p, j) <==> On(PageOf(s.blocks, r), j)
    {
      OnOnly(p, i, j);
      OnOnly(PageOf(s.blocks, r), i, j);
    }
    SetPageKeepsBlocks(z, s.blocks, r, p);
    SetPageKeepsFree(s.blocks, s.freePages, None, r, p);
    SetPageKeepsGet(s.blocks, s.getPages, s.ngetPages, r, p);
    OtherChunkLists(z, s.blocks, s.chunkPages, r, p, i, q);
  }

  lemma TakeChunkAdds(z: Sizes, m: Blocks, r: Ref, b: nat, i: nat)
    requires SizesOk(z) && i < z.k && IsPage(m, r) && PageOf(m, r).chunks > 0
    requires PageOf(m, r).size == Pow(i) && b in PageOf(m, r).map_ && b < PerPage(z, i)
    ensures Adds(z, m, SetPage(m, r, TakeBit(PageOf(m, r), b)), ChunkSlot(r, i, b))
  {
    var p := TakeBit(PageOf(m, r), b);
    forall y
      ensures Busy(z, SetPage(m, r, p), y) <==> Busy(z, m, y) || y == ChunkSlot(r, i, b)
    {
      if !y.LargeSlot? {
        SetPageFacts(m, r, p, y.ref);
        if y.ChunkSlot? && y.ref == r && Pow(y.i) == Pow(i) {
          PowInjective(y.i, i);
        }
      }
    }
  }

  /** A free page is cut into chunks and heads the list of its size. */
  function NewChunkPage(z: Sizes, s: State, r: Ref, i: nat): State
    requires i < |s.chunkPages| && i < z.k && IsPage(s.blocks, r)
  {
    s.(blocks := SetPage(s.blocks, r, CutPage(z, i)), chunkPages := s.chunkPages[i := [r] + s.chunkPages[i]])
  }

  lemma NewChunkPageKeeps(z: Sizes, s: State, r: Ref, i: nat)
    requires SizesOk(z) && Keeps(z, s, Some(r)) && i < z.k && IsPage(s.blocks, r) && PageOf(s.blocks, r).size == 0
    ensures Keeps(z, NewChunkPage(z, s, r, i), None)
    ensures Adds(z, s.blocks, NewChunkPage(z, s, r, i).blocks, ChunkSlot(r, i, 0))
  {
    hide PageOk;
    var p := CutPage(z, i);
    CutPageOk(z, i);
    AsPageOk(z, p, i);
    PowNotZero(z);
    assert ChunkListed(s.blocks, s.chunkPages[i], i);
    forall j: nat | j < z.k && j != i
      ensures On(p, j) <==> On(PageOf(s.blocks, r), j)
    {
      OnOnly(p, i, j);
    }
    SetPageKeepsBlocks(z, s.blocks, r, p);
    SetPageKeepsFree(s.blocks, s.freePages, Some(r), r, p);
    SetPageKeepsGet(s.blocks, s.getPages, s.ngetPages, r, p);
    PushChunk(s.blocks, s.chunkPages[i], r, p, i);
    OtherChunkLists(z, s.blocks, s.chunkPages, r, p, i, [r] + s.chunkPages[i]);
    NewChunkAdds(z, s.blocks, r, i);
  }

  lemma CutBits(z: Sizes, i: nat)
    requires SizesOk(z) && i < z.k
    ensures CutPage(z, i).size == Pow(i)
    ensures forall b: nat :: b < PerPage(z, i) ==> (b !in CutPage(z, i).map_ <==> b == 0)
  {
    PerPageFits(z, i);
    assert forall b: nat :: b < PerPage(z, i) ==> b in AllBits();
  }

  lemma NewChunkAdds(z: Sizes, m: Blocks, r: Ref, i: nat)
    requires SizesOk(z) && i < z.k && IsPage(m, r) && PageOf(m, r).size == 0
    ensures Adds(z, m, SetPage(m, r, CutPage(z, i)), ChunkSlot(r, i, 0))
  {
    var p := CutPage(z, i);
    PowNotZero(z);
    PowStrict(i, z.k);
    CutBits(z, i);
    hide CutPage, Pow;
    forall y
      ensures Busy(z, SetPage(m, r, p), y) <==> Busy(z, m, y) || y == ChunkSlot(r, i, 0)
    {
      if !y.LargeSlot? {
        SetPageFacts(m, r, p, y.ref);
        hide SetPage;
        if y.ChunkSlot? && y.ref == r && Pow(y.i) == Pow(i) {
          PowInjective(y.i, i);
        }
      }
    }
  }

  /** A free page is handed out whole, or becomes a page of non-freeable memory. */
  lemma WholePageKeeps(z: Sizes, s: State, r: Ref, p: Page)
    requires SizesOk(z) && Keeps(z, s, Some(r)) && IsPage(s.blocks, r) && PageOf(s.blocks, r).size == 0
    requires p.size == Pow(z.k) || (p.size == NONFREEABLE && p.taken <= PageSize(z))
    ensures Keeps(z, s.(blocks := SetPage(s.blocks, r, p)), None)
    ensures p.size == Pow(z.k) ==> Adds(z, s.blocks, SetPage(s.blocks, r, p), PageSlot(r))
    ensures p.size == NONFREEABLE ==> SameSlots(z, s.blocks, SetPage(s.blocks, r, p))
  {
    PowNotZero(z);
    SetPageKeepsBlocks(z, s.blocks, r, p);
    SetPageKeepsFree(s.blocks, s.freePages, Some(r), r, p);
    SetPageKeepsGet(s.blocks, s.getPages, s.ngetPages, r, p);
    NotOn(z, p);
    forall i | 0 <= i < |s.chunkPages|
      ensures ChunkListed(SetPage(s.blocks, r, p), s.chunkPages[i], i)
    {
      SetPageKeepsChunk(s.blocks, s.chunkPages[i], r, p, i);
    }
    WholePageSlots(z, s.blocks, r, p);
  }

  lemma NotOn(z: Sizes, p: Page)
    requires SizesOk(z) && (p.size == Pow(z.k) || p.size == NONFREEABLE || p.size == 0)
    ensures forall i: nat :: i < z.k ==> !On(p, i) && p.size != Pow(i)
  {
    PowNotZero(z);
    forall i: nat | i < z.k
      ensures Pow(i) != Pow(z.k)
    {
      PowStrict(i, z.k);
    }
  }

  lemma WholePageSlots(z: Sizes, m: Blocks, r: Ref, p: Page)
    requires SizesOk(z) && IsPage(m, r) && PageOf(m, r).size == 0 && (p.size == Pow(z.k) || p.size == NONFREEABLE)
    ensures p.size == Pow(z.k) ==> Adds(z, m, SetPage(m, r, p), PageSlot(r))
    ensures p.size == NONFREEABLE ==> SameSlots(z, m, SetPage(m, r, p))
  {
    PowNotZero(z);
    NotOn(z, p);
    forall y
      ensures Busy(z, SetPage(m, r, p), y) <==> Busy(z, m, y) || (y == PageSlot(r) && p.size == Pow(z.k))
    {
      if !y.LargeSlot? {
        SetPageFacts(m, r, p, y.ref);
      }
    }
  }

  // ---------- giving back

  /** Exactly the slot x is removed. */
  ghost predicate Removes(z: Sizes, m: Blocks, m': Blocks, x: Slot) {
    Busy(z, m, x) && forall y :: Busy(z, m', y) <==> Busy(z, m, y) && y != x
  }

  function GiveBit(p: Page, b: nat): Page { p.(map_ := p.map_ + {b}, chunks := p.chunks + 1) }

  lemma GiveBitOk(z: Sizes, p: Page, i: nat, b: nat)
    requires SizesOk(z) && i < z.k && ChunkPage(z, p, i) && b !in p.map_ && b < PerPage(z, i)
    ensures p.map_ + {b} != AllBits() ==> ChunkPage(z, GiveBit(p, b), i)
    ensures p.map_ + {b} == AllBits() ==> p.chunks > 0 && p.map_ == AllBits() - {b}
  {
    PerPageFits(z, i);
    assert b in Real(z, i) && |Real(z, i)| == PerPage(z, i) && b in AllBits() && Real(z, i) <= AllBits();
    GiveSets(p.map_, Real(z, i), AllBits(), b);
    hide Below, AllBits, Real, PerPage;
    assert p.map_ + {b} != AllBits() ==> ChunkPage(z, GiveBit(p, b), i);
  }

  lemma GiveSets(bits: set<nat>, own: set<nat>, all: set<nat>, b: nat)
    requires b !in bits && b in own && b in all && own <= all && |own| >= 2
    ensures |(bits + {b}) * own| == |bits * own| + 1
    ensures bits + {b} == all ==> bits == all - {b} && |bits * own| > 0
  {
    assert (bits + {b}) * own == bits * own + {b};
    if bits + {b} == all {
      assert bits * own == own - {b};
    }
  }

  /** A chunk goes back to a page that stays in use; a page that was full heads its list again. */
  function GiveChunk(s: State, r: Ref, b: nat, i: nat): State
    requires i < |s.chunkPages| && IsPage(s.blocks, r)
  {
    var p := GiveBit(PageOf(s.blocks, r), b);
    s.(blocks := SetPage(s.blocks, r, p),
       chunkPages := s.chunkPages[i := if p.chunks == 1 then [r] + s.chunkPages[i] else s.chunkPages[i]])
  }

  lemma GiveChunkKeeps(z: Sizes, s: State, r: Ref, b: nat, i: nat)
    requires SizesOk(z) && Keeps(z, s, None) && Busy(z, s.blocks, ChunkSlot(r, i, b))
    requires PageOf(s.blocks, r).map_ + {b} != AllBits()
    ensures Keeps(z, GiveChunk(s, r, b, i), None)
  {
    hide PageOk;
    var p := PageOf(s.blocks, r);
    ListOf(z, p, i);
    GiveBitOk(z, p, i, b);
    var p' := GiveBit(p, b);
    AsPageOk(z, p', i);
    assert ChunkListed(s.blocks, s.chunkPages[i], i);
    ChangeChunk(z, s, r, p', i, if p'.chunks == 1 then [r] + s.chunkPages[i] else s.chunkPages[i]) by {
      if p'.chunks == 1 {
        PushChunk(s.blocks, s.chunkPages[i], r, p', i);
      } else {
        SetPageKeepsChunk(s.blocks, s.chunkPages[i], r, p', i);
      }
    }
  }

  lemma GiveChunkRemoves(z: Sizes, m: Blocks, r: Ref, b: nat, i: nat)
    requires SizesOk(z) && Busy(z, m, ChunkSlot(r, i, b))
    ensures Removes(z, m, SetPage(m, r, GiveBit(PageOf(m, r), b)), ChunkSlot(r, i, b))
  {
    var p := GiveBit(PageOf(m, r), b);
    forall y
      ensures Busy(z, SetPage(m, r, p), y) <==> Busy(z, m, y) && y != ChunkSlot(r, i, b)
    {
      if !y.LargeSlot? {
        SetPageFacts(m, r, p, y.ref);
        if y.ChunkSlot? && y.ref == r && Pow(y.i) == Pow(i) {
          PowInjective(y.i, i);
        }
      }
    }
  }

  /** A page goes back to the head of the free list. */
  function ReleasePage(s: State, r: Ref, qs: seq<seq<Ref>>): State
    requires IsPage(s.blocks, r)
  {
    s.(blocks := SetPage(s.blocks, r, PageOf(s.blocks, r).(size := 0)), freePages := [r] + s.freePages,
      chunkPages := qs)
  }

  lemma PushFree(m: Blocks, q: seq<Ref>, r: Ref, p: Page)
    requires FreeListed(m, q, None) && IsPage(m, r) && PageOf(m, r).size != 0 && p.size == 0
    ensures FreeListed(SetPage(m, r, p), [r] + q, None)
  {
    assert r !in q;
    forall x
      ensures x in [r] + q <==> IsPage(SetPage(m, r, p), x) && PageOf(SetPage(m, r, p), x).size == 0
    {
      SetPageFacts(m, r, p, x);
    }
  }

  // The last busy chunk of a page is given back.
  lemma ReleaseChunkPage(z: Sizes, s: State, r: Ref, b: nat, i: nat)
    requires SizesOk(z) && Keeps(z, s, None) && Busy(z, s.blocks, ChunkSlot(r, i, b))
    requires PageOf(s.blocks, r).map_ + {b} == AllBits()
    ensures Keeps(z, ReleasePage(s, r, s.chunkPages[i := Without(s.chunkPages[i], r)]), None)
    ensures Removes(z, s.blocks, ReleasePage(s, r, s.chunkPages[i := Without(s.chunkPages[i], r)]).blocks,
      ChunkSlot(r, i, b))
  {
    hide PageOk;
    var m, p := s.blocks, PageOf(s.blocks, r);
    ListOf(z, p, i);
    GiveBitOk(z, p, i, b);
    PowNotZero(z);
    var p' := p.(size := 0);
    NotOn(z, p');
    assert ChunkListed(m, s.chunkPages[i], i);
    forall j: nat | j < z.k && j != i
      ensures On(p', j) <==> On(p, j)
    {
      OnOnly(p, i, j);
    }
    FreePageOk(z, p');
    SetPageKeepsBlocks(z, m, r, p');
    PushFree(m, s.freePages, r, p');
    SetPageKeepsGet(m, s.getPages, s.ngetPages, r, p');
    DropChunk(m, s.chunkPages[i], r, p', i);
    OtherChunkLists(z, m, s.chunkPages, r, p', i, Without(s.chunkPages[i], r));
    LastChunkRemoves(z, m, r, b, i);
  }

  lemma FreePageOk(z: Sizes, p: Page)
    requires p.size == 0
    ensures PageOk(z, p)
  {
  }

  lemma LastChunkRemoves(z: Sizes, m: Blocks, r: Ref, b: nat, i: nat)
    requires SizesOk(z) && Busy(z, m, ChunkSlot(r, i, b)) && PageOf(m, r).map_ == AllBits() - {b}
    ensures Removes(z, m, SetPage(m, r, PageOf(m, r).(size := 0)), ChunkSlot(r, i, b))
  {
    var p := PageOf(m, r).(size := 0);
    PowNotZero(z);
    PerPageFits(z, i);
    forall y
      ensures Busy(z, SetPage(m, r, p), y) <==> Busy(z, m, y) && y != ChunkSlot(r, i, b)
    {
      if !y.LargeSlot? {
        SetPageFacts(m, r, p, y.ref);
        if y.ref == r {
          OnlyBit(z, m, r, b, i, y);
        }
      }
    }
  }

  // The only slot in use of a page with one busy chunk.
  lemma OnlyBit(z: Sizes, m: Blocks, r: Ref, b: nat, i: nat, y: Slot)
    requires SizesOk(z) && Busy(z, m, ChunkSlot(r, i, b)) && PageOf(m, r).map_ == AllBits() - {b}
    requires !y.LargeSlot? && y.ref == r
    ensures Busy(z, m, y) ==> y == ChunkSlot(r, i, b)
  {
    PerPageFits(z, i);
    PowStrict(i, z.k);
    if y.ChunkSlot? && Pow(y.i) == Pow(i) {
      PowInjective(y.i, i);
      assert y.bit < PerPage(z, i) ==> y.bit in AllBits();
    }
  }

  lemma ReleaseWholePage(z: Sizes, s: State, r: Ref)
    requires SizesOk(z) && Keeps(z, s, None) && Busy(z, s.blocks, PageSlot(r))
    ensures Keeps(z, ReleasePage(s, r, s.chunkPages), None)
    ensures Removes(z, s.blocks, ReleasePage(s, r, s.chunkPages).blocks, PageSlot(r))
  {
    hide PageOk;
    var m, p := s.blocks, PageOf(s.blocks, r);
    var p' := p.(size := 0);
    PowNotZero(z);
    NotOn(z, p');
    NotOn(z, p);
    FreePageOk(z, p');
    SetPageKeepsBlocks(z, m, r, p');
    PushFree(m, s.freePages, r, p');
    SetPageKeepsGet(m, s.getPages, s.ngetPages, r, p');
    forall j | 0 <= j < |s.chunkPages|
      ensures ChunkListed(SetPage(m, r, p'), s.chunkPages[j], j)
    {
      SetPageKeepsChunk(m, s.chunkPages[j], r, p', j);
    }
    forall y
      ensures Busy(z, SetPage(m, r, p'), y) <==> Busy(z, m, y) && y != PageSlot(r)
    {
      if !y.LargeSlot? {
        SetPageFacts(m, r, p', y.ref);
      }
    }
  }

  // ---------- giving a cluster back

  predicate AllFree(m: Blocks, a: nat)
    requires a in m && m[a].Cluster?
  {
    forall n :: 0 <= n < |m[a].pages| ==> m[a].pages[n].size == 0
  }

  // The free list without the pages of cluster a numbered below n.
  ghost predicate Unlinked(q: seq<Ref>, q': seq<Ref>, a: nat, n: nat) {
    NoDup(q') && forall x :: x in q' <==> x in q && !(x.cluster == a && x.n < n)
  }

  lemma DropClusterKeeps(z: Sizes, s: State, a: nat, q: seq<Ref>)
    requires SizesOk(z) && Keeps(z, s, None) && a in s.blocks && s.blocks[a].Cluster? && AllFree(s.blocks, a)
    requires Unlinked(s.freePages, q, a, z.pages)
    ensures Keeps(z, s.(blocks := s.blocks - {a}, freePages := q), None) && SameSlots(z, s.blocks, s.blocks - {a})
  {
    var m, m' := s.blocks, s.blocks - {a};
    PowNotZero(z);
    forall r
      ensures IsPage(m', r) <==> IsPage(m, r) && r.cluster != a
      ensures IsPage(m', r) ==> PageOf(m', r) == PageOf(m, r)
      ensures IsPage(m, r) && r.cluster == a ==> PageOf(m, r).size == 0
    {
    }
    forall i | 0 <= i < |s.chunkPages|
      ensures ChunkListed(m', s.chunkPages[i], i)
    {
      assert ChunkListed(m, s.chunkPages[i], i);
    }
  }

  // ---------- large blocks

  lemma AddLargeKeeps(z: Sizes, s: State, a: nat, b: Block)
    requires Keeps(z, s, None) && b.Large? && Fresh(z, s.blocks, a, b.size)
    ensures Keeps(z, s.(blocks := s.blocks[a := b]), None)
    ensures if b.freeable && b.size > 0 then Adds(z, s.blocks, s.blocks[a := b], LargeSlot(a))
      else SameSlots(z, s.blocks, s.blocks[a := b])
  {
    var m, m' := s.blocks, s.blocks[a := b];
    forall r
      ensures IsPage(m', r) <==> IsPage(m, r)
      ensures IsPage(m', r) ==> PageOf(m', r) == PageOf(m, r)
    {
    }
    forall i | 0 <= i < |s.chunkPages|
      ensures ChunkListed(m', s.chunkPages[i], i)
    {
      assert ChunkListed(m, s.chunkPages[i], i);
    }
  }

  lemma DropLargeKeeps(z: Sizes, s: State, a: nat)
    requires Keeps(z, s, None) && Busy(z, s.blocks, LargeSlot(a))
    ensures Keeps(z, s.(blocks := s.blocks - {a}), None) && Removes(z, s.blocks, s.blocks - {a}, LargeSlot(a))
  {
    var m, m' := s.blocks, s.blocks - {a};
    forall r
      ensures IsPage(m', r) <==> IsPage(m, r)
      ensures IsPage(m', r) ==> PageOf(m', r) == PageOf(m, r)
    {
    }
    forall i | 0 <= i < |s.chunkPages|
      ensures ChunkListed(m', s.chunkPages[i], i)
    {
      assert ChunkListed(m, s.chunkPages[i], i);
    }
  }
}
