/** Multi-level hash of src/nxt_lvlhsh.c with the default prototype: seven levels of 16 slots, buckets of 10. */
module LevelHash {
  import opened Bytes

  const LEVELS: nat := 7
  const SLOTS: nat := 16
  const ENTRIES: nat := 10

  type Key = seq<Byte>

  /** What a query finds: an object carrying its own key. */
  datatype Item = Item(key: Key, data: int)

  /** A bucket entry: the key's hash and the item.  A hole is an entry whose value pointer is NULL. */
  datatype Entry = Entry(hash: nat, item: Item)
  datatype Cell = Hole | Full(e: Entry)

  /** The initialised part of a bucket and its packed entry count. */
  datatype Bucket = Bucket(count: nat, cells: seq<Cell>)

  /** A slot holds nothing, a chain of buckets, or a level with its packed count of used slots. */
  datatype Slot = Null | Chain(buckets: seq<Bucket>) | Level(count: nat, slots: seq<Slot>)

  datatype Status = Ok | Declined | Error

  // ---------- hash digits

  /** The hash with its n low digits shifted out, and the digit that selects a slot at level n. */
  function Drop(h: nat, n: nat): nat {
    if n == 0 then h else Drop(h / SLOTS, n - 1)
  }

  ghost function Digit(h: nat, n: nat): (d: nat)
    ensures d < SLOTS
  {
    Drop(h, n) % SLOTS
  }

  lemma {:induction false} DropStep(h: nat, n: nat)
    ensures Drop(h, n + 1) == Drop(h, n) / SLOTS
  {
    if n > 0 {
      DropStep(h / SLOTS, n - 1);
    }
  }

  // ---------- contents

  ghost function CellItems(cells: seq<Cell>): multiset<Entry> {
    if cells == [] then multiset{}
    else One(cells[0]) + CellItems(cells[1..])
  }

  ghost function One(c: Cell): multiset<Entry> {
    if c.Full? then multiset{c.e} else multiset{}
  }

  ghost function FullFrom(cells: seq<Cell>, k: nat): nat
    decreases |cells| - k
  {
    if k >= |cells| then 0 else (if cells[k].Full? then 1 else 0) + FullFrom(cells, k + 1)
  }

  ghost function ChainItems(bs: seq<Bucket>): multiset<Entry> {
    if bs == [] then multiset{} else CellItems(bs[0].cells) + ChainItems(bs[1..])
  }

  ghost function Items(s: Slot): multiset<Entry> {
    match s
    case Null => multiset{}
    case Chain(bs) => ChainItems(bs)
    case Level(_, ss) => SlotItems(ss)
  }

  ghost function SlotItems(ss: seq<Slot>): multiset<Entry> {
    if ss == [] then multiset{} else Items(ss[0]) + SlotItems(ss[1..])
  }

  ghost function UsedSlots(ss: seq<Slot>): nat {
    if ss == [] then 0 else (if ss[0].Null? then 0 else 1) + UsedSlots(ss[1..])
  }

  // ---------- shape

  ghost predicate BucketOk(b: Bucket) {
    |b.cells| <= ENTRIES && b.count == |CellItems(b.cells)| && b.count > 0
  }

  ghost predicate ChainOk(bs: seq<Bucket>) {
    bs != [] && forall i :: 0 <= i < |bs| ==> BucketOk(bs[i])
  }

  // Each entry of a level sits in the slot its digit selects.
  ghost predicate Sorted(ss: seq<Slot>, n: nat) {
    forall i, e :: 0 <= i < |ss| && e in Items(ss[i]) ==> Digit(e.hash, n) == i
  }

  /** Below the last level a chain is a single bucket; each entry of a level sits under its own digit. */
  ghost predicate WellFormed(s: Slot, n: nat)
    decreases s
  {
    match s
    case Null => true
    case Chain(bs) => ChainOk(bs) && (n < LEVELS ==> |bs| == 1)
    case Level(count, ss) =>
      && n < LEVELS && |ss| == SLOTS && count == UsedSlots(ss) && count > 0
      && (forall i :: 0 <= i < |ss| ==> WellFormed(ss[i], n + 1))
      && Sorted(ss, n)
  }

  // ---------- multiset bookkeeping

  lemma Exchange(head: multiset<Entry>, rest: multiset<Entry>, rest': multiset<Entry>, x: multiset<Entry>,
      y: multiset<Entry>)
    requires rest' + x == rest + y
    ensures (head + rest') + x == (head + rest) + y
  {
    assert (head + rest') + x == head + (rest' + x);
  }

  lemma {:induction false} SlotUpdate(ss: seq<Slot>, i: nat, s: Slot)
    requires i < |ss|
    ensures SlotItems(ss[i := s]) + Items(ss[i]) == SlotItems(ss) + Items(s)
    ensures UsedSlots(ss[i := s]) + (if ss[i].Null? then 0 else 1) == UsedSlots(ss) + (if s.Null? then 0 else 1)
  {
    if i == 0 {
      assert ss[0 := s][1..] == ss[1..];
    } else {
      assert ss[i := s][1..] == ss[1..][i - 1 := s];
      SlotUpdate(ss[1..], i - 1, s);
      Exchange(Items(ss[0]), SlotItems(ss[1..]), SlotItems(ss[1..][i - 1 := s]), Items(ss[i]), Items(s));
    }
  }

  lemma {:induction false} SlotMember(ss: seq<Slot>, e: Entry)
    ensures e in SlotItems(ss) <==> exists i :: 0 <= i < |ss| && e in Items(ss[i])
  {
    if ss != [] {
      SlotMember(ss[1..], e);
      if e in SlotItems(ss[1..]) {
        var i :| 0 <= i < |ss[1..]| && e in Items(ss[1..][i]);
        assert e in Items(ss[i + 1]);
      }
      if i :| 0 < i < |ss| && e in Items(ss[i]) {
        assert e in Items(ss[1..][i - 1]);
      }
    }
  }

  // The entry of a key: a level keeps it in the one slot its digit selects.
  lemma OnlyInItsSlot(ss: seq<Slot>, n: nat, e: Entry)
    requires |ss| == SLOTS && Sorted(ss, n)
    ensures e in SlotItems(ss) <==> e in Items(ss[Digit(e.hash, n)])
  {
    SlotMember(ss, e);
  }

  lemma {:induction false} CellMember(cells: seq<Cell>, e: Entry)
    ensures e in CellItems(cells) <==> Full(e) in cells
  {
    if cells != [] {
      CellMember(cells[1..], e);
      assert cells == [cells[0]] + cells[1..];
    }
  }

  lemma CellsSplit(cells: seq<Cell>)
    requires cells != []
    ensures CellItems(cells) == One(cells[0]) + CellItems(cells[1..])
  {
  }

  lemma {:induction false} CellUpdate(cells: seq<Cell>, j: nat, c: Cell)
    requires j < |cells|
    ensures CellItems(cells[j := c]) + One(cells[j]) == CellItems(cells) + One(c)
    decreases j
  {
    hide CellItems, One;
    CellsSplit(cells);
    CellsSplit(cells[j := c]);
    if j == 0 {
      assert cells[0 := c][1..] == cells[1..];
    } else {
      assert cells[j := c][1..] == cells[1..][j - 1 := c];
      CellUpdate(cells[1..], j - 1, c);
      Exchange(One(cells[0]), CellItems(cells[1..]), CellItems(cells[1..][j - 1 := c]), One(cells[j]), One(c));
    }
  }

  lemma {:induction false} CellAppend(cells: seq<Cell>, c: Cell)
    ensures CellItems(cells + [c]) == CellItems(cells) + One(c)
  {
    if cells == [] {
      assert [] + [c] == [c];
    } else {
      assert (cells + [c])[1..] == cells[1..] + [c];
      CellAppend(cells[1..], c);
    }
  }

  lemma {:induction false} ChainUpdate(bs: seq<Bucket>, i: nat, b: Bucket)
    requires i < |bs|
    ensures ChainItems(bs[i := b]) + CellItems(bs[i].cells) == ChainItems(bs) + CellItems(b.cells)
    decreases i
  {
    if i == 0 {
      assert bs[0 := b][1..] == bs[1..];
    } else {
      assert bs[i := b][1..] == bs[1..][i - 1 := b];
      ChainUpdate(bs[1..], i - 1, b);
      Exchange(CellItems(bs[0].cells), ChainItems(bs[1..]), ChainItems(bs[1..][i - 1 := b]),
               CellItems(bs[i].cells), CellItems(b.cells));
    }
  }

  lemma {:induction false} ChainRemove(bs: seq<Bucket>, i: nat)
    requires i < |bs|
    ensures ChainItems(bs[..i] + bs[i + 1..]) + CellItems(bs[i].cells) == ChainItems(bs)
    decreases i
  {
    if i == 0 {
      assert bs[..0] + bs[1..] == bs[1..];
    } else {
      assert (bs[..i] + bs[i + 1..])[1..] == bs[1..][..i - 1] + bs[1..][i..];
      ChainRemove(bs[1..], i - 1);
    }
  }

  lemma {:induction false} ChainAppend(bs: seq<Bucket>, b: Bucket)
    ensures ChainItems(bs + [b]) == ChainItems(bs) + CellItems(b.cells)
  {
    if bs == [] {
      assert [] + [b] == [b];
    } else {
      assert (bs + [b])[1..] == bs[1..] + [b];
      ChainAppend(bs[1..], b);
    }
  }

  lemma {:induction false} ChainMember(bs: seq<Bucket>, e: Entry)
    ensures e in ChainItems(bs) <==> exists i :: 0 <= i < |bs| && e in CellItems(bs[i].cells)
  {
    if bs != [] {
      ChainMember(bs[1..], e);
      if e in ChainItems(bs[1..]) {
        var i :| 0 <= i < |bs[1..]| && e in CellItems(bs[1..][i].cells);
        assert e in CellItems(bs[i + 1].cells);
      }
      if i :| 0 < i < |bs| && e in CellItems(bs[i].cells) {
        assert e in CellItems(bs[1..][i - 1].cells);
      }
    }
  }

  ghost predicate Matches(e: Entry, hash: nat, key: Key) {
    e.hash == hash && e.item.key == key
  }

  ghost predicate Absent(m: multiset<Entry>, hash: nat, key: Key) {
    forall e :: e in m ==> !Matches(e, hash, key)
  }

  /** The contents are a finite map from (hash, key) to items. */
  ghost predicate Unique(m: multiset<Entry>) {
    forall e, f :: e in m && f in m && Matches(f, e.hash, e.item.key) ==> e == f && m[e] == 1
  }

  // ---------- find

  // No full cell before k holds the key.
  ghost predicate Unseen(cells: seq<Cell>, k: nat, hash: nat, key: Key) {
    forall i :: 0 <= i < k && i < |cells| && cells[i].Full? ==> !Matches(cells[i].e, hash, key)
  }

  lemma {:induction false} NoneLeft(cells: seq<Cell>, k: nat)
    requires FullFrom(cells, k) == 0
    ensures forall i :: k <= i < |cells| ==> cells[i].Hole?
    decreases |cells| - k
  {
    if k < |cells| {
      NoneLeft(cells, k + 1);
    }
  }

  lemma {:induction false} CountItems(cells: seq<Cell>, k: nat)
    requires k <= |cells|
    ensures FullFrom(cells, k) == |CellItems(cells[k..])|
    ensures k == 0 ==> FullFrom(cells, k) == |CellItems(cells)|
    decreases |cells| - k
  {
    assert cells[0..] == cells;
    if k < |cells| {
      assert cells[k..][1..] == cells[k + 1..];
      CountItems(cells, k + 1);
    }
  }

  lemma UnseenAbsent(cells: seq<Cell>, k: nat, hash: nat, key: Key)
    requires Unseen(cells, k, hash, key) && FullFrom(cells, k) == 0
    ensures Absent(CellItems(cells), hash, key)
  {
    NoneLeft(cells, k);
    forall e | e in CellItems(cells)
      ensures !Matches(e, hash, key)
    {
      CellMember(cells, e);
    }
  }

  ghost predicate HoldsKey(b: Bucket, at: int, hash: nat, key: Key) {
    0 <= at < |b.cells| && b.cells[at].Full? && Matches(b.cells[at].e, hash, key)
  }

  /** Scans one bucket the way the source does: until as many entries as it counts have been seen. */
  method BucketScan(b: Bucket, hash: nat, key: Key) returns (at: int)
    requires BucketOk(b)
    ensures at == -1 ==> Absent(CellItems(b.cells), hash, key)
    ensures at != -1 ==> HoldsKey(b, at, hash, key)
  {
    var n, e := b.count, 0;
    CountItems(b.cells, 0);
    while n != 0
      invariant 0 <= e <= |b.cells| && n == FullFrom(b.cells, e) && Unseen(b.cells, e, hash, key)
      decreases |b.cells| - e
    {
      if b.cells[e].Full? {
        n := n - 1;
        if b.cells[e].e.hash == hash && b.cells[e].e.item.key == key {
          return e;
        }
      }
      e := e + 1;
    }
    UnseenAbsent(b.cells, e, hash, key);
    return -1;
  }

  ghost predicate AbsentUpTo(bs: seq<Bucket>, n: nat, hash: nat, key: Key) {
    forall j :: 0 <= j < n && j < |bs| ==> Absent(CellItems(bs[j].cells), hash, key)
  }

  lemma ChainAbsent(bs: seq<Bucket>, hash: nat, key: Key)
    requires AbsentUpTo(bs, |bs|, hash, key)
    ensures Absent(ChainItems(bs), hash, key)
  {
    forall e | e in ChainItems(bs)
      ensures !Matches(e, hash, key)
    {
      ChainMember(bs, e);
    }
  }

  method ChainSeek(bs: seq<Bucket>, hash: nat, key: Key) returns (i: int, at: int)
    requires ChainOk(bs)
    ensures i == -1 ==> AbsentUpTo(bs, |bs|, hash, key)
    ensures i != -1 ==> 0 <= i < |bs| && HoldsKey(bs[i], at, hash, key)
  {
    i, at := 0, -1;
    while i < |bs|
      invariant 0 <= i <= |bs| && AbsentUpTo(bs, i, hash, key)
    {
      at := BucketScan(bs[i], hash, key);
      if at != -1 {
        return;
      }
      i := i + 1;
    }
    i := -1;
  }

  method ChainFind(bs: seq<Bucket>, hash: nat, key: Key) returns (r: Status, value: Item)
    requires ChainOk(bs)
    ensures r == Ok ==> Entry(hash, value) in ChainItems(bs) && value.key == key
    ensures r != Ok ==> r == Declined && Absent(ChainItems(bs), hash, key)
  {
    var i, at := ChainSeek(bs, hash, key);
    if i == -1 {
      ChainAbsent(bs, hash, key);
      return Declined, Item([], 0);
    }
    HeldItem(bs, i, at, hash, key);
    return Ok, bs[i].cells[at].e.item;
  }

  lemma HeldItem(bs: seq<Bucket>, i: nat, at: int, hash: nat, key: Key)
    requires i < |bs| && HoldsKey(bs[i], at, hash, key)
    ensures bs[i].cells[at].e == Entry(hash, bs[i].cells[at].e.item)
    ensures bs[i].cells[at].e in CellItems(bs[i].cells) && bs[i].cells[at].e in ChainItems(bs)
  {
    CellMember(bs[i].cells, bs[i].cells[at].e);
    ChainMember(bs, bs[i].cells[at].e);
  }

  method LevelFind(s: Slot, hash: nat, key: Key, rest: nat, n: nat) returns (r: Status, value: Item)
    requires WellFormed(s, n) && rest == Drop(hash, n)
    ensures r == Ok ==> Entry(hash, value) in Items(s) && value.key == key
    ensures r != Ok ==> r == Declined && Absent(Items(s), hash, key)
    decreases s
  {
    match s
    case Null => return Declined, Item([], 0);
    case Chain(bs) => r, value := ChainFind(bs, hash, key);
    case Level(_, ss) =>
      DropStep(hash, n);
      forall e | Matches(e, hash, key)
        ensures e in SlotItems(ss) <==> e in Items(ss[rest % SLOTS])
      {
        OnlyInItsSlot(ss, n, e);
      }
      r, value := LevelFind(ss[rest % SLOTS], hash, key, rest / SLOTS, n + 1);
  }

  // ---------- insert

  ghost function Blocks(s: Slot): nat {
    match s
    case Null => 0
    case Chain(bs) => |bs|
    case Level(_, ss) => 1 + SlotBlocks(ss)
  }

  ghost function SlotBlocks(ss: seq<Slot>): nat {
    if ss == [] then 0 else Blocks(ss[0]) + SlotBlocks(ss[1..])
  }

  lemma {:induction false} BlocksUpdate(ss: seq<Slot>, i: nat, s: Slot)
    requires i < |ss|
    ensures SlotBlocks(ss[i := s]) + Blocks(ss[i]) == SlotBlocks(ss) + Blocks(s)
  {
    if i == 0 {
      assert ss[0 := s][1..] == ss[1..];
    } else {
      assert ss[i := s][1..] == ss[1..][i - 1 := s];
      BlocksUpdate(ss[1..], i - 1, s);
    }
  }

  /** The place of a hash is a full bucket with levels left below it: an insertion must split it. */
  ghost predicate Splits(s: Slot, n: nat, hash: nat)
    requires n <= LEVELS && WellFormed(s, n)
    decreases s
  {
    match s
    case Null => false
    case Chain(bs) => n < LEVELS && FullBucket(bs[0])
    case Level(_, ss) => Splits(ss[Digit(hash, n)], n + 1, hash)
  }

  /**
   * What a refused insertion leaves: the slot as it was, or more blocks where a bucket was split before the refusal.
   */
  ghost predicate Left(s: Slot, n: nat, hash: nat, s': Slot)
    requires n <= LEVELS && WellFormed(s, n)
  {
    s' == s || (Splits(s, n, hash) && Blocks(s') > Blocks(s))
  }

  lemma {:induction false} TwoBlocks(ss: seq<Slot>)
    requires UsedSlots(ss) > 0 && forall i :: 0 <= i < |ss| && ss[i].Chain? ==> ss[i].buckets != []
    ensures SlotBlocks(ss) > 0
  {
    if ss[0].Null? {
      TwoBlocks(ss[1..]);
    }
  }

  lemma LevelBlocks(s: Slot, n: nat)
    requires n < LEVELS && s.Level? && WellFormed(s, n)
    ensures Blocks(s) > 1
  {
    assert forall i :: 0 <= i < |s.slots| ==> WellFormed(s.slots[i], n + 1);
    TwoBlocks(s.slots);
  }

  // A refusal below one slot of a level, seen from the level.
  lemma LeftBelow(s: Slot, n: nat, hash: nat, b: Slot)
    requires n < LEVELS && s.Level? && WellFormed(s, n) && WellFormed(s.slots[Digit(hash, n)], n + 1)
    requires Left(s.slots[Digit(hash, n)], n + 1, hash, b)
    ensures Left(s, n, hash, Grown(s, Digit(hash, n), b))
  {
    var d := Digit(hash, n);
    BlocksUpdate(s.slots, d, b);
    if b == s.slots[d] {
      assert s.slots[d := b] == s.slots;
    }
  }

  function Grown(s: Slot, d: nat, b: Slot): Slot
    requires s.Level? && d < |s.slots|
  {
    Level(if s.slots[d].Null? && !b.Null? then s.count + 1 else s.count, s.slots[d := b])
  }

  /** What an insertion promises about the contents before (m) and after (m'). */
  ghost predicate Inserted(m: multiset<Entry>, m': multiset<Entry>, hash: nat, item: Item, replace: bool, r: Status,
      out: Item) {
    if Absent(m, hash, item.key) then
      (r == Ok && m' == m + multiset{Entry(hash, item)}) || (r == Error && m' == m)
    else
      && Entry(hash, out) in m && out.key == item.key
      && r == (if replace then Ok else Declined)
      && m' == (if replace then m - multiset{Entry(hash, out)} + multiset{Entry(hash, item)} else m)
  }

  ghost predicate FullBucket(b: Bucket) {
    |b.cells| == ENTRIES && forall i :: 0 <= i < ENTRIES ==> b.cells[i].Full?
  }

  ghost predicate Vacancy(b: Bucket, j: int) {
    0 <= j < ENTRIES && j <= |b.cells| && (j < |b.cells| ==> b.cells[j].Hole?)
  }

  /** Scans a bucket for the key and for the first vacant position: a hole, or the end if there is room. */
  method BucketProbe(b: Bucket, hash: nat, key: Key) returns (at: int, vacant: int)
    requires BucketOk(b)
    ensures at == -1 ==> Absent(CellItems(b.cells), hash, key)
    ensures at != -1 ==> HoldsKey(b, at, hash, key)
    ensures at == -1 && vacant != -1 ==> Vacancy(b, vacant)
    ensures at == -1 && vacant == -1 ==> FullBucket(b)
  {
    hide CellItems;
    var n, e := b.count, 0;
    vacant := -1;
    CountItems(b.cells, 0);
    while n != 0
      invariant 0 <= e <= |b.cells| && n == FullFrom(b.cells, e) && Unseen(b.cells, e, hash, key)
      invariant vacant == -1 ==> forall i :: 0 <= i < e ==> b.cells[i].Full?
      invariant vacant != -1 ==> 0 <= vacant < e && b.cells[vacant].Hole?
      decreases |b.cells| - e
    {
      if b.cells[e].Full? {
        if b.cells[e].e.hash == hash && b.cells[e].e.item.key == key {
          return e, vacant;
        }
        n := n - 1;
      } else if vacant == -1 {
        vacant := e;
      }
      e := e + 1;
    }
    NoneLeft(b.cells, e);
    if e < ENTRIES && vacant == -1 {
      vacant := e;
    }
    UnseenAbsent(b.cells, e, hash, key);
    return -1, vacant;
  }

  // Fills a vacant position and counts it.
  function PutAt(b: Bucket, j: nat, e: Entry): Bucket
    requires j <= |b.cells|
  {
    Bucket(b.count + 1, if j < |b.cells| then b.cells[j := Full(e)] else b.cells + [Full(e)])
  }

  lemma PutAtOk(b: Bucket, j: nat, e: Entry)
    requires BucketOk(b) && Vacancy(b, j)
    ensures BucketOk(PutAt(b, j, e)) && CellItems(PutAt(b, j, e).cells) == CellItems(b.cells) + multiset{e}
  {
    if j < |b.cells| {
      CellUpdate(b.cells, j, Full(e));
    } else {
      CellAppend(b.cells, Full(e));
    }
    assert CellItems(PutAt(b, j, e).cells) == CellItems(b.cells) + multiset{e};
  }

  lemma ReplaceOk(b: Bucket, j: nat, item: Item)
    requires BucketOk(b) && j < |b.cells| && b.cells[j].Full?
    ensures var b' := b.(cells := b.cells[j := Full(Entry(b.cells[j].e.hash, item))]);
      BucketOk(b') && b.cells[j].e in CellItems(b.cells)
      && CellItems(b'.cells) == CellItems(b.cells) - multiset{b.cells[j].e} + multiset{Entry(b.cells[j].e.hash, item)}
  {
    var e' := Entry(b.cells[j].e.hash, item);
    CellUpdate(b.cells, j, Full(e'));
    CellMember(b.cells, b.cells[j].e);
    SwapOne(CellItems(b.cells), CellItems(b.cells[j := Full(e')]), b.cells[j].e, e');
  }

  lemma SwapOne(m: multiset<Entry>, m': multiset<Entry>, x: Entry, y: Entry)
    requires m' + multiset{x} == m + multiset{y} && x in m
    ensures m' == m - multiset{x} + multiset{y} && |m'| == |m|
  {
    assert m' == m' + multiset{x} - multiset{x};
    assert |m' + multiset{x}| == |m'| + 1;
  }

  /** Walks a chain for the key, remembering the first vacant position of all. */
  method ChainProbe(bs: seq<Bucket>, hash: nat, key: Key) returns (i: int, at: int, vi: int, vj: int)
    requires ChainOk(bs)
    ensures i != -1 ==> 0 <= i < |bs| && HoldsKey(bs[i], at, hash, key)
    ensures i == -1 ==> AbsentUpTo(bs, |bs|, hash, key)
    ensures i == -1 && vi == -1 ==> forall j :: 0 <= j < |bs| ==> FullBucket(bs[j])
    ensures i == -1 && vi != -1 ==> 0 <= vi < |bs| && Vacancy(bs[vi], vj)
  {
    hide Absent, HoldsKey, Vacancy, FullBucket, CellItems, BucketOk;
    i, at, vi, vj := 0, -1, -1, -1;
    while i < |bs|
      invariant 0 <= i <= |bs| && AbsentUpTo(bs, i, hash, key)
      invariant vi == -1 ==> forall j :: 0 <= j < i ==> FullBucket(bs[j])
      invariant vi != -1 ==> 0 <= vi < i && Vacancy(bs[vi], vj)
    {
      var vacant;
      at, vacant := BucketProbe(bs[i], hash, key);
      if at != -1 {
        return;
      }
      if vacant != -1 && vi == -1 {
        vi, vj := i, vacant;
      }
      i := i + 1;
    }
    i := -1;
  }

  /** Inserts into a chain of buckets if the key is there already or some position is vacant. */
  method ChainInsert(bs: seq<Bucket>, hash: nat, item: Item, replace: bool)
    returns (done: bool, r: Status, out: Item, bs': seq<Bucket>)
    requires ChainOk(bs)
    ensures done ==> ChainOk(bs') && |bs'| == |bs| && r != Error
    ensures done ==> Inserted(ChainItems(bs), ChainItems(bs'), hash, item, replace, r, out)
    ensures !done ==> Absent(ChainItems(bs), hash, item.key) && forall i :: 0 <= i < |bs| ==> FullBucket(bs[i])
  {
    var i, at, vi, vj := ChainProbe(bs, hash, item.key);
    done, r, out, bs' := false, Ok, item, bs;
    if i != -1 {
      r, out, bs' := ChainHit(bs, i, at, hash, item, replace);
      done := true;
    } else {
      ChainAbsent(bs, hash, item.key);
      if vi != -1 {
        FillOk(bs, vi, vj, Entry(hash, item));
        bs' := bs[vi := PutAt(bs[vi], vj, Entry(hash, item))];
        done := true;
      }
    }
  }

  lemma FillOk(bs: seq<Bucket>, i: nat, j: nat, e: Entry)
    requires ChainOk(bs) && i < |bs| && Vacancy(bs[i], j)
    ensures var bs' := bs[i := PutAt(bs[i], j, e)];
      ChainOk(bs') && ChainItems(bs') == ChainItems(bs) + multiset{e}
  {
    var b' := PutAt(bs[i], j, e);
    PutAtOk(bs[i], j, e);
    ChainUpdate(bs, i, b');
    PlusOne(ChainItems(bs), ChainItems(bs[i := b']), CellItems(bs[i].cells), e);
  }

  lemma PlusOne(m: multiset<Entry>, m': multiset<Entry>, b: multiset<Entry>, e: Entry)
    requires m' + b == m + (b + multiset{e})
    ensures m' == m + multiset{e}
  {
    assert m' + b == (m + multiset{e}) + b;
    assert m' == (m' + b) - b;
  }

  lemma Swapped(m: multiset<Entry>, m': multiset<Entry>, b: multiset<Entry>, x: Entry, y: Entry)
    requires x in b && b <= m && m' + b == m + (b - multiset{x} + multiset{y})
    ensures m' == m - multiset{x} + multiset{y}
  {
    assert m' + b == (m - multiset{x} + multiset{y}) + b;
    assert m' == (m' + b) - b;
  }

  lemma ChainSplit(bs: seq<Bucket>)
    requires bs != []
    ensures ChainItems(bs) == CellItems(bs[0].cells) + ChainItems(bs[1..])
  {
  }

  lemma {:induction false} ChainSub(bs: seq<Bucket>, i: nat)
    requires i < |bs|
    ensures CellItems(bs[i].cells) <= ChainItems(bs)
  {
    hide CellItems, ChainItems;
    ChainSplit(bs);
    if i > 0 {
      ChainSub(bs[1..], i - 1);
    }
  }

  method ChainHit(bs: seq<Bucket>, i: nat, at: nat, hash: nat, item: Item, replace: bool)
    returns (r: Status, out: Item, bs': seq<Bucket>)
    requires ChainOk(bs) && i < |bs| && HoldsKey(bs[i], at, hash, item.key)
    ensures ChainOk(bs') && |bs'| == |bs| && r != Error
    ensures Inserted(ChainItems(bs), ChainItems(bs'), hash, item, replace, r, out)
  {
    var b := bs[i];
    out, bs', r := b.cells[at].e.item, bs, Declined;
    HeldItem(bs, i, at, hash, item.key);
    if replace {
      HitOk(bs, i, at, hash, item);
      bs', r := bs[i := b.(cells := b.cells[at := Full(Entry(hash, item))])], Ok;
    }
  }

  lemma HitOk(bs: seq<Bucket>, i: nat, at: nat, hash: nat, item: Item)
    requires ChainOk(bs) && i < |bs| && HoldsKey(bs[i], at, hash, item.key)
    ensures var bs' := bs[i := bs[i].(cells := bs[i].cells[at := Full(Entry(hash, item))])];
      ChainOk(bs') && ChainItems(bs') == ChainItems(bs) - multiset{bs[i].cells[at].e} + multiset{Entry(hash, item)}
  {
    var b := bs[i];
    var b' := b.(cells := b.cells[at := Full(Entry(hash, item))]);
    ChainSub(bs, i);
    ReplaceOk(b, at, item);
    ChainUpdate(bs, i, b');
    Swapped(ChainItems(bs), ChainItems(bs[i := b']), CellItems(b.cells), b.cells[at].e, Entry(hash, item));
  }

  // ---------- levels

  // A level while it is being filled: everything but its being non-empty.
  ghost predicate LevelOk(count: nat, ss: seq<Slot>, n: nat) {
    && n < LEVELS && |ss| == SLOTS && count == UsedSlots(ss)
    && (forall i :: 0 <= i < |ss| ==> WellFormed(ss[i], n + 1))
    && Sorted(ss, n)
  }

  // Replacing one slot of a level by a slot that holds the same entries plus possibly e.
  lemma LevelStep(count: nat, ss: seq<Slot>, n: nat, d: nat, s: Slot, hash: nat, count': nat)
    requires LevelOk(count, ss, n) && d == Digit(hash, n) && WellFormed(s, n + 1)
    requires forall e :: e in Items(s) ==> e in Items(ss[d]) || e.hash == hash
    requires count' + (if ss[d].Null? then 0 else 1) == count + (if s.Null? then 0 else 1)
    ensures LevelOk(count', ss[d := s], n)
    ensures SlotItems(ss[d := s]) + Items(ss[d]) == SlotItems(ss) + Items(s)
  {
    SlotUpdate(ss, d, s);
    StillSorted(ss, n, d, s, hash);
  }

  lemma StillSorted(ss: seq<Slot>, n: nat, d: nat, s: Slot, hash: nat)
    requires |ss| == SLOTS && d == Digit(hash, n) && Sorted(ss, n)
    requires forall e :: e in Items(s) ==> e in Items(ss[d]) || e.hash == hash
    ensures Sorted(ss[d := s], n)
  {
    var ss' := ss[d := s];
    forall i, e | 0 <= i < |ss| && e in Items(ss'[i])
      ensures Digit(e.hash, n) == i
    {
      if i != d || e.hash != hash {
        assert e in Items(ss[i]);
      }
    }
  }

  lemma {:induction false} SlotSub(ss: seq<Slot>, i: nat)
    requires i < |ss|
    ensures Items(ss[i]) <= SlotItems(ss)
  {
    if i > 0 {
      SlotSub(ss[1..], i - 1);
    }
  }

  // An insertion into the slot of the key's digit is an insertion into the level.
  lemma InsertedLifts(count: nat, ss: seq<Slot>, n: nat, s: Slot, hash: nat, item: Item, replace: bool, r: Status,
      out: Item)
    requires LevelOk(count, ss, n)
    requires Inserted(Items(ss[Digit(hash, n)]), Items(s), hash, item, replace, r, out)
    ensures Inserted(SlotItems(ss), SlotItems(ss[Digit(hash, n) := s]), hash, item, replace, r, out)
    ensures forall e :: e in Items(s) ==> e in Items(ss[Digit(hash, n)]) || e.hash == hash
  {
    var d := Digit(hash, n);
    var m, m', b, b' := SlotItems(ss), SlotItems(ss[d := s]), Items(ss[d]), Items(s);
    AbsentLifts(count, ss, n, hash, item.key);
    SlotUpdate(ss, d, s);
    SlotSub(ss, d);
    if Absent(b, hash, item.key) {
      if r == Ok {
        PlusOne(m, m', b, Entry(hash, item));
      } else {
        Same(m, m', b);
      }
    } else if replace {
      Swapped(m, m', b, Entry(hash, out), Entry(hash, item));
    } else {
      Same(m, m', b);
    }
  }

  lemma Same(m: multiset<Entry>, m': multiset<Entry>, b: multiset<Entry>)
    requires m' + b == m + b
    ensures m' == m
  {
    assert m' == (m' + b) - b;
    assert m == (m + b) - b;
  }

  lemma AbsentLifts(count: nat, ss: seq<Slot>, n: nat, hash: nat, key: Key)
    requires LevelOk(count, ss, n)
    ensures Absent(SlotItems(ss), hash, key) <==> Absent(Items(ss[Digit(hash, n)]), hash, key)
  {
    forall e | Matches(e, hash, key)
      ensures e in SlotItems(ss) <==> e in Items(ss[Digit(hash, n)])
    {
      OnlyInItsSlot(ss, n, e);
    }
  }

  // ---------- a bucket becomes a level

  // Every slot of a freshly converted level is empty or one bucket without holes.
  ghost predicate Compact(ss: seq<Slot>) {
    forall i :: 0 <= i < |ss| ==>
      ss[i].Null? || (ss[i].Chain? && |ss[i].buckets| == 1 && |ss[i].buckets[0].cells| == ss[i].buckets[0].count)
  }

  function NewBucket(e: Entry): (b: Bucket)
    ensures BucketOk(b) && CellItems(b.cells) == multiset{e}
  {
    assert CellItems([Full(e)]) == One(Full(e)) + CellItems([]);
    Bucket(1, [Full(e)])
  }

  lemma NewChain(e: Entry)
    ensures ChainItems([NewBucket(e)]) == multiset{e}
  {
    assert ChainItems([NewBucket(e)]) == CellItems(NewBucket(e).cells) + ChainItems([]);
  }

  lemma ConvertNew(count: nat, ss: seq<Slot>, n: nat, e: Entry)
    requires LevelOk(count, ss, n) && Compact(ss) && ss[Digit(e.hash, n)].Null?
    ensures var ss' := ss[Digit(e.hash, n) := Chain([NewBucket(e)])];
      LevelOk(count + 1, ss', n) && Compact(ss') && SlotItems(ss') == SlotItems(ss) + multiset{e}
      && SlotBlocks(ss') == SlotBlocks(ss) + 1
  {
    var d, s := Digit(e.hash, n), Chain([NewBucket(e)]);
    NewChain(e);
    LevelStep(count, ss, n, d, s, e.hash, count + 1);
    BlocksUpdate(ss, d, s);
    PlusOne(SlotItems(ss), SlotItems(ss[d := s]), multiset{}, e);
  }

  // The chosen slot of a compact level, when it is taken, is one bucket with room for the entry.
  lemma ConvertRoom(count: nat, ss: seq<Slot>, n: nat, d: nat)
    requires LevelOk(count, ss, n) && Compact(ss) && d < |ss| && !ss[d].Null? && |SlotItems(ss)| < ENTRIES
    ensures ss[d].Chain? && |ss[d].buckets| == 1 && ss[d] == Chain([ss[d].buckets[0]])
    ensures var b := ss[d].buckets[0]; BucketOk(b) && b.count == |b.cells| < ENTRIES
    ensures ChainItems(ss[d].buckets) == CellItems(ss[d].buckets[0].cells) && count > 0
  {
    SingleChain(ss[d].buckets);
    SlotSub(ss, d);
    SmallerCount(CellItems(ss[d].buckets[0].cells), SlotItems(ss));
    UsedSlotPositive(ss, d);
  }

  lemma SingleChain(bs: seq<Bucket>)
    requires |bs| == 1
    ensures ChainItems(bs) == CellItems(bs[0].cells) && bs == [bs[0]]
  {
    assert bs[1..] == [];
    assert ChainItems(bs) == CellItems(bs[0].cells) + ChainItems([]);
  }

  lemma ConvertAdd(count: nat, ss: seq<Slot>, n: nat, b: Bucket, e: Entry)
    requires LevelOk(count, ss, n) && Compact(ss) && ss[Digit(e.hash, n)] == Chain([b])
    requires BucketOk(b) && b.count == |b.cells| < ENTRIES
    ensures var ss' := ss[Digit(e.hash, n) := Chain([PutAt(b, b.count, e)])];
      LevelOk(count, ss', n) && Compact(ss') && SlotItems(ss') == SlotItems(ss) + multiset{e}
        && SlotBlocks(ss') == SlotBlocks(ss)
  {
    hide LevelOk, BucketOk, SlotItems, SlotBlocks, CellItems, Digit;
    var d, s := Digit(e.hash, n), Chain([PutAt(b, b.count, e)]);
    InLevel(count, ss, n, d, e.hash);
    PutOk(b, n, e);
    LevelStep(count, ss, n, d, s, e.hash, count);
    BlocksUpdate(ss, d, s);
    PlusOne(SlotItems(ss), SlotItems(ss[d := s]), Items(ss[d]), e);
  }

  lemma InLevel(count: nat, ss: seq<Slot>, n: nat, d: nat, hash: nat)
    requires LevelOk(count, ss, n) && d == Digit(hash, n)
    ensures n < LEVELS && |ss| == SLOTS && d < |ss|
  {
  }

  // A bucket with room takes an entry at its end.
  lemma PutOk(b: Bucket, n: nat, e: Entry)
    requires n < LEVELS && BucketOk(b) && b.count == |b.cells| < ENTRIES
    ensures var b' := PutAt(b, b.count, e);
      && WellFormed(Chain([b']), n + 1) && |b'.cells| == b'.count && Blocks(Chain([b'])) == Blocks(Chain([b]))
      && Items(Chain([b'])) == Items(Chain([b])) + multiset{e}
      && forall x :: x in Items(Chain([b'])) ==> x in Items(Chain([b])) || x.hash == e.hash
  {
    SingleChain([b]);
    SingleChain([PutAt(b, b.count, e)]);
    PutAtOk(b, b.count, e);
  }

  lemma SmallerCount(a: multiset<Entry>, b: multiset<Entry>)
    requires a <= b
    ensures |a| <= |b|
  {
    assert b == a + (b - a);
  }

  lemma {:induction false} UsedSlotPositive(ss: seq<Slot>, i: nat)
    requires i < |ss| && !ss[i].Null?
    ensures UsedSlots(ss) > 0
  {
    if i > 0 {
      UsedSlotPositive(ss[1..], i - 1);
    }
  }

  lemma {:induction false} AllNull(ss: seq<Slot>)
    requires UsedSlots(ss) == 0
    ensures SlotItems(ss) == multiset{} && SlotBlocks(ss) == 0
  {
    if ss != [] {
      AllNull(ss[1..]);
    }
  }

  lemma {:induction false} NoneUsed(ss: seq<Slot>)
    requires forall i :: 0 <= i < |ss| ==> ss[i].Null?
    ensures UsedSlots(ss) == 0
  {
    if ss != [] {
      NoneUsed(ss[1..]);
    }
  }

  lemma InsertedUnique(m: multiset<Entry>, m': multiset<Entry>, hash: nat, item: Item, replace: bool, r: Status,
      out: Item)
    requires Unique(m) && Inserted(m, m', hash, item, replace, r, out)
    ensures Unique(m')
  {
  }

  lemma GrownOk(s: Slot, n: nat, b: Slot, hash: nat, item: Item, replace: bool, r: Status, out: Item)
    requires s.Level? && WellFormed(s, n) && WellFormed(b, n + 1) && (b.Null? ==> s.slots[Digit(hash, n)].Null?)
    requires Inserted(Items(s.slots[Digit(hash, n)]), Items(b), hash, item, replace, r, out)
    ensures var d, s' := Digit(hash, n), Grown(s, Digit(hash, n), b);
      && WellFormed(s', n) && Inserted(Items(s), Items(s'), hash, item, replace, r, out)
      && Blocks(s') + Blocks(s.slots[d]) == Blocks(s) + Blocks(b)
  {
    var d := Digit(hash, n);
    var count := if s.slots[d].Null? && !b.Null? then s.count + 1 else s.count;
    InsertedLifts(s.count, s.slots, n, b, hash, item, replace, r, out);
    LevelStep(s.count, s.slots, n, d, b, hash, count);
    BlocksUpdate(s.slots, d, b);
  }

  // ---------- delete

  /** What a deletion promises about the contents before (m) and after (m'). */
  ghost predicate Deleted(m: multiset<Entry>, m': multiset<Entry>, hash: nat, key: Key, r: Status, out: Item) {
    if Absent(m, hash, key) then r == Declined && m' == m
    else r == Ok && Entry(hash, out) in m && out.key == key && m' == m - multiset{Entry(hash, out)}
  }

  lemma MinusOne(m: multiset<Entry>, m': multiset<Entry>, b: multiset<Entry>, e: Entry)
    requires e in b && b <= m && m' + b == m + (b - multiset{e})
    ensures m' == m - multiset{e}
  {
    assert m' + b == (m - multiset{e}) + b;
    assert m' == (m' + b) - b;
  }

  lemma Less(m: multiset<Entry>, m': multiset<Entry>, e: Entry)
    requires m' + multiset{e} == m
    ensures m' == m - multiset{e}
  {
    assert m' == m' + multiset{e} - multiset{e};
  }

  lemma DigOk(b: Bucket, at: nat)
    requires BucketOk(b) && at < |b.cells| && b.cells[at].Full? && b.count > 1
    ensures BucketOk(Bucket(b.count - 1, b.cells[at := Hole]))
    ensures CellItems(b.cells[at := Hole]) == CellItems(b.cells) - multiset{b.cells[at].e}
  {
    CellUpdate(b.cells, at, Hole);
    Less(CellItems(b.cells), CellItems(b.cells[at := Hole]), b.cells[at].e);
  }

  // Several entries: the position becomes a hole.
  lemma HoleOk(bs: seq<Bucket>, i: nat, at: nat, hash: nat, key: Key)
    requires ChainOk(bs) && i < |bs| && HoldsKey(bs[i], at, hash, key) && bs[i].count > 1
    ensures var bs' := bs[i := Bucket(bs[i].count - 1, bs[i].cells[at := Hole])];
      ChainOk(bs') && ChainItems(bs') == ChainItems(bs) - multiset{bs[i].cells[at].e}
  {
    var b, e := bs[i], bs[i].cells[at].e;
    var b' := Bucket(b.count - 1, b.cells[at := Hole]);
    DigOk(b, at);
    HeldItem(bs, i, at, hash, key);
    ChainSub(bs, i);
    ChainUpdate(bs, i, b');
    MinusOne(ChainItems(bs), ChainItems(bs[i := b']), CellItems(b.cells), e);
  }

  // The last entry: the whole bucket is unlinked.
  lemma UnlinkOk(bs: seq<Bucket>, i: nat, at: nat, hash: nat, key: Key)
    requires ChainOk(bs) && i < |bs| && HoldsKey(bs[i], at, hash, key) && bs[i].count == 1
    ensures ChainItems(bs[..i] + bs[i + 1..]) == ChainItems(bs) - multiset{bs[i].cells[at].e}
  {
    var e, bs' := bs[i].cells[at].e, bs[..i] + bs[i + 1..];
    CellMember(bs[i].cells, e);
    OnlyOne(CellItems(bs[i].cells), e);
    ChainRemove(bs, i);
    Less(ChainItems(bs), ChainItems(bs'), e);
  }

  lemma UnlinkShape(bs: seq<Bucket>, i: nat)
    requires ChainOk(bs) && i < |bs|
    ensures var bs' := bs[..i] + bs[i + 1..]; bs' != [] ==> ChainOk(bs')
  {
    hide BucketOk;
    var bs' := bs[..i] + bs[i + 1..];
    forall j | 0 <= j < |bs'|
      ensures BucketOk(bs'[j])
    {
      assert bs'[j] == bs[if j < i then j else j + 1];
    }
  }

  lemma OnlyOne(m: multiset<Entry>, e: Entry)
    requires |m| == 1 && e in m
    ensures m == multiset{e}
  {
    assert m == (m - multiset{e}) + multiset{e};
    assert |m - multiset{e}| == 0;
  }

  method ChainDelete(bs: seq<Bucket>, hash: nat, key: Key) returns (r: Status, out: Item, bs': seq<Bucket>)
    requires ChainOk(bs)
    ensures (bs' != [] ==> ChainOk(bs')) && |bs'| <= |bs| <= |bs'| + 1
    ensures Deleted(ChainItems(bs), ChainItems(bs'), hash, key, r, out)
  {
    var i, at := ChainSeek(bs, hash, key);
    r, out, bs' := Declined, Item([], 0), bs;
    if i == -1 {
      ChainAbsent(bs, hash, key);
    } else {
      HeldItem(bs, i, at, hash, key);
      r, out := Ok, bs[i].cells[at].e.item;
      if bs[i].count == 1 {
        UnlinkOk(bs, i, at, hash, key);
        UnlinkShape(bs, i);
        bs' := bs[..i] + bs[i + 1..];
      } else {
        HoleOk(bs, i, at, hash, key);
        bs' := bs[i := Bucket(bs[i].count - 1, bs[i].cells[at := Hole])];
      }
    }
  }

  /** The 4-bit count field of a level word: a full level of 16 slots reads as 0. */
  function LevelEntries(count: nat): nat { count % SLOTS }

  lemma DeletedLifts(count: nat, ss: seq<Slot>, n: nat, s: Slot, hash: nat, key: Key, r: Status, out: Item)
    requires LevelOk(count, ss, n)
    requires Deleted(Items(ss[Digit(hash, n)]), Items(s), hash, key, r, out)
    ensures Deleted(SlotItems(ss), SlotItems(ss[Digit(hash, n) := s]), hash, key, r, out)
    ensures forall e :: e in Items(s) ==> e in Items(ss[Digit(hash, n)])
  {
    var d := Digit(hash, n);
    var m, m', b := SlotItems(ss), SlotItems(ss[d := s]), Items(ss[d]);
    AbsentLifts(count, ss, n, hash, key);
    SlotUpdate(ss, d, s);
    SlotSub(ss, d);
    if Absent(b, hash, key) {
      Same(m, m', b);
    } else {
      MinusOne(m, m', b, Entry(hash, out));
    }
  }

  lemma {:induction false} UsedBound(ss: seq<Slot>)
    ensures UsedSlots(ss) <= |ss|
  {
    if ss != [] {
      UsedBound(ss[1..]);
    }
  }

  lemma DeleteBelow(count: nat, ss: seq<Slot>, n: nat, s: Slot, hash: nat, key: Key, r: Status, out: Item, count': nat)
    requires WellFormed(Level(count, ss), n) && WellFormed(s, n + 1) && !ss[Digit(hash, n)].Null?
    requires Deleted(Items(ss[Digit(hash, n)]), Items(s), hash, key, r, out)
    requires count' == count - if s.Null? then 1 else 0
    ensures var ss' := ss[Digit(hash, n) := s];
      && (count' > 0 ==> WellFormed(Level(count', ss'), n))
      && (count' == 0 ==> SlotItems(ss') == multiset{} && SlotBlocks(ss') == 0)
      && Deleted(SlotItems(ss), SlotItems(ss'), hash, key, r, out)
      && SlotBlocks(ss') + Blocks(ss[Digit(hash, n)]) == SlotBlocks(ss) + Blocks(s)
  {
    var d := Digit(hash, n);
    DeletedLifts(count, ss, n, s, hash, key, r, out);
    LevelStep(count, ss, n, d, s, hash, count');
    BlocksUpdate(ss, d, s);
    if count' == 0 {
      AllNull(ss[d := s]);
    }
  }

  /** The test after a decrement is exact although a full level's field has overflowed to 0. */
  lemma EmptinessIsExact(count: nat)
    requires 0 < count <= SLOTS
    ensures LevelEntries(count - 1) == 0 <==> count == 1
    ensures LevelEntries(count) == 0 <==> count == SLOTS
  {
  }

  // A level after its slot d became b: an emptied level is unlinked.
  function Shrunk(s: Slot, d: nat, b: Slot): Slot
    requires s.Level? && d < |s.slots| && s.count > 0
  {
    if !b.Null? then Level(s.count, s.slots[d := b])
    else if LevelEntries(s.count - 1) == 0 then Null
    else Level(s.count - 1, s.slots[d := b])
  }

  lemma ShrunkOk(s: Slot, n: nat, b: Slot, hash: nat, key: Key, r: Status, out: Item)
    requires WellFormed(s, n) && s.Level? && WellFormed(b, n + 1) && !s.slots[Digit(hash, n)].Null?
    requires Deleted(Items(s.slots[Digit(hash, n)]), Items(b), hash, key, r, out)
    ensures var s' := Shrunk(s, Digit(hash, n), b);
      WellFormed(s', n) && Deleted(Items(s), Items(s'), hash, key, r, out)
      && Blocks(s') + Blocks(s.slots[Digit(hash, n)]) + (if s'.Null? then 1 else 0) == Blocks(s) + Blocks(b)
  {
    var count, ss, d := s.count, s.slots, Digit(hash, n);
    UsedSlotPositive(ss, d);
    UsedBound(ss);
    EmptinessIsExact(count);
    var count' := if b.Null? then count - 1 else count;
    DeleteBelow(count, ss, n, b, hash, key, r, out, count');
    assert Shrunk(s, d, b) == if count' == 0 then Null else Level(count', ss[d := b]);
  }

  lemma Child(s: Slot, n: nat, hash: nat, rest: nat)
    requires WellFormed(s, n) && s.Level? && rest == Drop(hash, n)
    ensures rest % SLOTS == Digit(hash, n) && rest / SLOTS == Drop(hash, n + 1)
    ensures |s.slots| == SLOTS && s.count > 0 && n < LEVELS
    ensures WellFormed(s.slots[rest % SLOTS], n + 1) && Blocks(s.slots[rest % SLOTS]) < Blocks(s)
  {
    DropStep(hash, n);
    BlocksUpdate(s.slots, rest % SLOTS, Null);
  }

  lemma NoChild(s: Slot, n: nat, hash: nat, key: Key)
    requires WellFormed(s, n) && s.Level? && s.slots[Digit(hash, n)].Null?
    ensures Deleted(Items(s), Items(s), hash, key, Declined, Item([], 0))
  {
    AbsentLifts(s.count, s.slots, n, hash, key);
  }

  lemma NothingThere(hash: nat, key: Key)
    ensures Deleted(Items(Null), Items(Null), hash, key, Declined, Item([], 0))
  {
  }

  // The level under construction holds the first i entries of the bucket being split.
  ghost predicate Moved(b: Bucket, i: nat, n: nat, ss: seq<Slot>, count: nat)
    requires i <= |b.cells|
  {
    LevelOk(count, ss, n) && Compact(ss) && (i > 0 ==> count > 0)
    && SlotItems(ss) == CellItems(b.cells[..i]) && |SlotItems(ss)| == i
  }

  lemma MovedNone(b: Bucket, n: nat)
    requires n < LEVELS
    ensures Moved(b, 0, n, seq(SLOTS, i => Null), 0) && SlotBlocks(seq(SLOTS, i => Null)) == 0
  {
    var ss := seq(SLOTS, i => Null);
    NoneUsed(ss);
    AllNull(ss);
  }

  lemma TakeItems(b: Bucket, i: nat)
    requires i < |b.cells| && b.cells[i].Full?
    ensures CellItems(b.cells[..i + 1]) == CellItems(b.cells[..i]) + multiset{b.cells[i].e}
  {
    assert b.cells[..i + 1] == b.cells[..i] + [b.cells[i]];
    CellAppend(b.cells[..i], b.cells[i]);
  }

  lemma MovedAll(b: Bucket, n: nat, ss: seq<Slot>, count: nat)
    requires FullBucket(b) && Moved(b, ENTRIES, n, ss, count)
    ensures WellFormed(Level(count, ss), n) && Items(Level(count, ss)) == CellItems(b.cells)
  {
    assert b.cells[..ENTRIES] == b.cells;
  }

  // ---------- the map the hash stands for

  ghost function Lookup(m: multiset<Entry>, hash: nat, key: Key): Option<Item> {
    if Absent(m, hash, key) then None
    else
      var e :| e in m && Matches(e, hash, key);
      Some(e.item)
  }

  lemma LookupIs(m: multiset<Entry>, e: Entry)
    requires Unique(m) && e in m
    ensures Lookup(m, e.hash, e.item.key) == Some(e.item)
  {
  }

  /** Insertion is map update where it succeeds with a new or replaced item, and no change otherwise. */
  lemma InsertIsMapUpdate(m: multiset<Entry>, m': multiset<Entry>, hash: nat, item: Item, replace: bool, r: Status,
                          out: Item, h: nat, k: Key)
    requires Unique(m) && Inserted(m, m', hash, item, replace, r, out)
    ensures r == Ok ==> Lookup(m', h, k) == (if (h, k) == (hash, item.key) then Some(item) else Lookup(m, h, k))
    ensures r != Ok ==> m' == m
    ensures Lookup(m, hash, item.key).None? ==> r == Ok || r == Error
    ensures Lookup(m, hash, item.key).Some? ==>
      Lookup(m, hash, item.key) == Some(out) && r == if replace then Ok else Declined
  {
    InsertedUnique(m, m', hash, item, replace, r, out);
    if !Absent(m, hash, item.key) {
      LookupIs(m, Entry(hash, out));
    }
    if r == Ok {
      assert Entry(hash, item) in m';
      LookupIs(m', Entry(hash, item));
      if (h, k) != (hash, item.key) {
        Elsewhere(m, m', h, k);
      }
    }
  }

  // Two contents that hold the same entries for a key give it the same item.
  lemma Elsewhere(m: multiset<Entry>, m': multiset<Entry>, h: nat, k: Key)
    requires Unique(m) && Unique(m')
    requires forall e :: Matches(e, h, k) ==> (e in m <==> e in m')
    ensures Lookup(m, h, k) == Lookup(m', h, k)
  {
    if !Absent(m, h, k) {
      var e :| e in m && Matches(e, h, k);
      LookupIs(m, e);
      LookupIs(m', e);
    }
  }

  /** Deletion removes exactly the key it is given. */
  lemma DeleteIsMapRemove(m: multiset<Entry>, m': multiset<Entry>, hash: nat, key: Key, r: Status, out: Item, h: nat,
      k: Key)
    requires Unique(m) && Deleted(m, m', hash, key, r, out)
    ensures Unique(m') && (r == Ok || r == Declined)
    ensures Lookup(m', h, k) == (if (h, k) == (hash, key) then None else Lookup(m, h, k))
    ensures Lookup(m, hash, key) == (if r == Ok then Some(out) else None)
  {
    if r == Ok {
      LookupIs(m, Entry(hash, out));
      assert Unique(m');
      if (h, k) != (hash, key) {
        Elsewhere(m, m', h, k);
      }
    }
  }

  /** A call with its answer. */
  datatype Call =
    | Inserting(hash: nat, item: Item, replace: bool, r: Status, out: Item)
    | Deleting(hash: nat, key: Key, r: Status, out: Item)
    | Finding(hash: nat, key: Key, r: Status, out: Item)

  // What Hash.Insert, Hash.Delete and Hash.Find promise.
  ghost predicate Happened(c: Call, m: multiset<Entry>, m': multiset<Entry>) {
    match c
    case Inserting(hash, item, replace, r, out) => Inserted(m, m', hash, item, replace, r, out)
    case Deleting(hash, key, r, out) => Deleted(m, m', hash, key, r, out)
    case Finding(hash, key, r, out) =>
      m' == m && if r == Ok then Entry(hash, out) in m && out.key == key else r == Declined && Absent(m, hash, key)
  }

  ghost predicate Run(ms: seq<multiset<Entry>>, cs: seq<Call>) {
    |ms| == |cs| + 1 && forall i :: 0 <= i < |cs| ==> Happened(cs[i], ms[i], ms[i + 1])
  }

  /** The value a map gives a key after the same calls. */
  function Mapped(start: Option<Item>, cs: seq<Call>, h: nat, k: Key): Option<Item> {
    if cs == [] then start else MappedOnce(Mapped(start, cs[..|cs| - 1], h, k), cs[|cs| - 1], h, k)
  }

  function MappedOnce(was: Option<Item>, c: Call, h: nat, k: Key): Option<Item> {
    if c.Inserting? && c.hash == h && c.item.key == k && c.r == Ok then Some(c.item)
    else if c.Deleting? && c.hash == h && c.key == k then None
    else was
  }

  /**
   * The answer of a call to a map that holds `was` for the call's key; a new item may be refused for want of memory.
   */
  predicate MapAnswers(c: Call, was: Option<Item>) {
    match c
    case Inserting(_, _, replace, r, out) =>
      if was.None? then r == Ok || r == Error else r == (if replace then Ok else Declined) && was == Some(out)
    case Deleting(_, _, r, out) => if was.None? then r == Declined else r == Ok && was == Some(out)
    case Finding(_, _, r, out) => if was.None? then r == Declined else r == Ok && was == Some(out)
  }

  function KeyOf(c: Call): Key { if c.Inserting? then c.item.key else c.key }

  /** After any sequence of calls the hash holds what a finite map would hold. */
  lemma {:induction false} HoldsAsMap(ms: seq<multiset<Entry>>, cs: seq<Call>, h: nat, k: Key)
    requires Run(ms, cs) && Unique(ms[0])
    ensures Unique(ms[|cs|]) && Lookup(ms[|cs|], h, k) == Mapped(Lookup(ms[0], h, k), cs, h, k)
  {
    if cs != [] {
      var n := |cs| - 1;
      hide Happened, Unique, Lookup, MapAnswers;
      HoldsAsMap(ms[..n + 1], cs[..n], h, k);
      OneCall(cs[n], ms[n], ms[n + 1], h, k);
    }
  }

  /** Every call of the sequence is answered as by that map. */
  lemma AnswersAsMap(ms: seq<multiset<Entry>>, cs: seq<Call>, i: nat)
    requires Run(ms, cs) && Unique(ms[0]) && i < |cs|
    ensures MapAnswers(cs[i], Mapped(Lookup(ms[0], cs[i].hash, KeyOf(cs[i])), cs[..i], cs[i].hash, KeyOf(cs[i])))
  {
    var c := cs[i];
    hide Happened, Unique, Lookup, MapAnswers;
    HoldsAsMap(ms[..i + 1], cs[..i], c.hash, KeyOf(c));
    OneCall(c, ms[i], ms[i + 1], c.hash, KeyOf(c));
  }

  lemma OneCall(c: Call, m: multiset<Entry>, m': multiset<Entry>, h: nat, k: Key)
    requires Unique(m) && Happened(c, m, m')
    ensures Unique(m') && MapAnswers(c, Lookup(m, c.hash, KeyOf(c)))
    ensures Lookup(m', h, k) == MappedOnce(Lookup(m, h, k), c, h, k)
  {
    hide Inserted, Deleted, Unique, Absent, Lookup;
    match c
    case Inserting(hash, item, replace, r, out) =>
      InsertedUnique(m, m', hash, item, replace, r, out);
      InsertIsMapUpdate(m, m', hash, item, replace, r, out, h, k);
    case Deleting(hash, key, r, out) => DeleteIsMapRemove(m, m', hash, key, r, out, h, k);
    case Finding(hash, key, r, out) => FindIsLookup(m, hash, key, r, out);
  }

  lemma FindIsLookup(m: multiset<Entry>, hash: nat, key: Key, r: Status, out: Item)
    requires Unique(m)
    requires if r == Ok then Entry(hash, out) in m && out.key == key else r == Declined && Absent(m, hash, key)
    ensures Lookup(m, hash, key) == if r == Ok then Some(out) else None
  {
    if r == Ok {
      LookupIs(m, Entry(hash, out));
    }
  }

  class Hash {
    var slot: Slot
    var live: nat  // blocks allocated and not freed

    ghost predicate Valid()
      reads this
    {
      WellFormed(slot, 0) && Unique(Items(slot)) && live == Blocks(slot)
    }

    constructor ()
      ensures Valid() && Items(slot) == multiset{}
    {
      slot, live := Null, 0;
    }

    // The allocator may refuse at any time.
    method Alloc() returns (ok: bool)
      modifies this`live
      ensures live == old(live) + if ok then 1 else 0
    {
      ok := *;
      if ok {
        live := live + 1;
      }
    }

    method Find(hash: nat, key: Key) returns (r: Status, value: Item)
      requires Valid()
      ensures r == Ok ==> Entry(hash, value) in Items(slot) && value.key == key
      ensures r != Ok ==> r == Declined && Absent(Items(slot), hash, key)
    {
      r, value := LevelFind(slot, hash, key, hash, 0);
    }

    /** Puts an entry moved from a split bucket into the new level. */
    method ConversionInsert(ss: seq<Slot>, count: nat, n: nat, rest: nat, e: Entry)
      returns (ok: bool, ss': seq<Slot>, count': nat)
      requires LevelOk(count, ss, n) && Compact(ss) && rest == Drop(e.hash, n) && |SlotItems(ss)| < ENTRIES
      modifies this`live
      ensures !ok ==> live == old(live) && ss' == ss
      ensures ok ==> LevelOk(count', ss', n) && Compact(ss') && SlotItems(ss') == SlotItems(ss) + multiset{e}
      ensures ok ==> live + SlotBlocks(ss) == old(live) + SlotBlocks(ss') && count' > 0
    {
      var d := rest % SLOTS;
      ss', count' := ss, count;
      if ss[d].Null? {
        ok := Alloc();
        if ok {
          ConvertNew(count, ss, n, e);
          ss', count' := ss[d := Chain([NewBucket(e)])], count + 1;
        }
      } else {
        ConvertRoom(count, ss, n, d);
        var b := ss[d].buckets[0];
        ConvertAdd(count, ss, n, b, e);
        ok, ss' := true, ss[d := Chain([PutAt(b, b.count, e)])];
      }
    }

    method MoveOne(b: Bucket, i: nat, n: nat, ss: seq<Slot>, count: nat) returns (ok: bool, ss': seq<Slot>, count': nat)
      requires FullBucket(b) && i < ENTRIES && Moved(b, i, n, ss, count)
      modifies this`live
      ensures !ok ==> live == old(live) && ss' == ss
      ensures ok ==> Moved(b, i + 1, n, ss', count') && live + SlotBlocks(ss) == old(live) + SlotBlocks(ss')
    {
      var e := b.cells[i].e;
      ok, ss', count' := ConversionInsert(ss, count, n, Drop(e.hash, n), e);
      TakeItems(b, i);
    }

    method FreeLevel(ss: seq<Slot>)
      requires Compact(ss) && live >= SlotBlocks(ss) + 1
      modifies this`live
      ensures live == old(live) - SlotBlocks(ss) - 1
    {
      var i := 0;
      assert ss[0..] == ss;
      while i < |ss|
        invariant 0 <= i <= |ss| && live + SlotBlocks(ss) == old(live) + SlotBlocks(ss[i..])
      {
        assert ss[i..] == [ss[i]] + ss[i + 1..];
        if !ss[i].Null? {
          live := live - 1;
        }
        i := i + 1;
      }
      live := live - 1;
    }

    /** Splits a full bucket into a level, or fails and frees everything it allocated. */
    method ConvertBucketToLevel(b: Bucket, n: nat) returns (ok: bool, s: Slot)
      requires n < LEVELS && BucketOk(b) && FullBucket(b) && live > 0
      modifies this`live
      ensures !ok ==> live == old(live)
      ensures ok ==> s.Level? && WellFormed(s, n) && Items(s) == CellItems(b.cells) && live + 1 == old(live) + Blocks(s)
    {
      s := Null;
      ok := Alloc();
      if !ok {
        return;
      }
      var ss, count := seq(SLOTS, i => Null), 0;
      MovedNone(b, n);
      var i := 0;
      while i < ENTRIES
        invariant 0 <= i <= ENTRIES && Moved(b, i, n, ss, count)
        invariant live == old(live) + 1 + SlotBlocks(ss)
      {
        ok, ss, count := MoveOne(b, i, n, ss, count);
        if !ok {
          FreeLevel(ss);
          return;
        }
        i := i + 1;
      }
      MovedAll(b, n, ss, count);
      s := Level(count, ss);
      live := live - 1;
    }

    /** Inserts below one slot; returns what the slot holds afterwards. */
    method SlotInsert(s: Slot, n: nat, rest: nat, hash: nat, item: Item, replace: bool)
      returns (r: Status, out: Item, s': Slot)
      requires n <= LEVELS && WellFormed(s, n) && rest == Drop(hash, n) && live >= Blocks(s)
      modifies this`live
      ensures WellFormed(s', n) && live + Blocks(s) == old(live) + Blocks(s') && (s'.Null? ==> s.Null?)
      ensures Inserted(Items(s), Items(s'), hash, item, replace, r, out) && (r == Error ==> Left(s, n, hash, s'))
      decreases LEVELS - n, 3
    {
      match s {
        case Null =>
          r, out, s' := NewBucketInsert(s, n, hash, item, replace);
        case Chain(bs) =>
          r, out, s' := ChainSlotInsert(bs, n, rest, hash, item, replace);
        case Level(_, _) =>
          r, out, s' := LevelInsert(s, n, rest, hash, item, replace);
      }
    }

    method NewBucketInsert(s: Slot, n: nat, hash: nat, item: Item, replace: bool)
      returns (r: Status, out: Item, s': Slot)
      requires s.Null?
      modifies this`live
      ensures WellFormed(s', n) && live + Blocks(s) == old(live) + Blocks(s') && (r == Error ==> s' == s)
      ensures Inserted(Items(s), Items(s'), hash, item, replace, r, out)
    {
      var ok := Alloc();
      r, out, s' := Error, item, s;
      if ok {
        NewChain(Entry(hash, item));
        r, s' := Ok, Chain([NewBucket(Entry(hash, item))]);
      }
    }

    /** Inserts into the chain of a slot at depth n, turning a full bucket into a level where levels remain. */
    method ChainSlotInsert(bs: seq<Bucket>, n: nat, rest: nat, hash: nat, item: Item, replace: bool)
      returns (r: Status, out: Item, s': Slot)
      requires n <= LEVELS && WellFormed(Chain(bs), n) && rest == Drop(hash, n) && live >= |bs|
      modifies this`live
      ensures !s'.Null? && WellFormed(s', n) && live + |bs| == old(live) + Blocks(s')
      ensures Inserted(ChainItems(bs), Items(s'), hash, item, replace, r, out)
      ensures r == Error ==> Left(Chain(bs), n, hash, s')
      decreases LEVELS - n, 2
    {
      var done, bs';
      done, r, out, bs' := ChainInsert(bs, hash, item, replace);
      s' := Chain(bs');
      if !done {
        if n < LEVELS {
          SingleChain(bs);
          r, out, s' := SplitInsert(bs[0], n, rest, hash, item, replace);
        } else {
          r, out, s' := GrowChain(bs, hash, item, replace);
        }
      }
    }

    // A full bucket with levels left below it.
    method SplitInsert(b: Bucket, n: nat, rest: nat, hash: nat, item: Item, replace: bool)
      returns (r: Status, out: Item, s': Slot)
      requires n < LEVELS && BucketOk(b) && FullBucket(b) && rest == Drop(hash, n) && live > 0
      requires Absent(CellItems(b.cells), hash, item.key)
      modifies this`live
      ensures !s'.Null? && WellFormed(s', n) && live + 1 == old(live) + Blocks(s')
      ensures r == Error ==> s' == Chain([b]) || Blocks(s') > 1
      ensures Inserted(CellItems(b.cells), Items(s'), hash, item, replace, r, out)
      decreases LEVELS - n, 1
    {
      var ok, s := ConvertBucketToLevel(b, n);
      SingleChain([b]);
      r, out, s' := Error, item, Chain([b]);
      if ok {
        LevelBlocks(s, n);
        r, out, s' := LevelInsert(s, n, rest, hash, item, replace);
      }
    }

    // The last allowed level: only a bucket may be chained.
    method GrowChain(bs: seq<Bucket>, hash: nat, item: Item, replace: bool) returns (r: Status, out: Item, s': Slot)
      requires ChainOk(bs) && Absent(ChainItems(bs), hash, item.key)
      modifies this`live
      ensures !s'.Null? && WellFormed(s', LEVELS) && live + |bs| == old(live) + Blocks(s')
      ensures r == Error ==> s' == Chain(bs)
      ensures Inserted(ChainItems(bs), Items(s'), hash, item, replace, r, out)
    {
      var ok := Alloc();
      r, out, s' := Error, item, Chain(bs);
      if ok {
        ChainAppend(bs, NewBucket(Entry(hash, item)));
        r, s' := Ok, Chain(bs + [NewBucket(Entry(hash, item))]);
      }
    }

    method LevelInsert(s: Slot, n: nat, rest: nat, hash: nat, item: Item, replace: bool)
      returns (r: Status, out: Item, s': Slot)
      requires s.Level? && WellFormed(s, n) && rest == Drop(hash, n) && live >= Blocks(s)
      modifies this`live
      ensures s'.Level? && WellFormed(s', n) && live + Blocks(s) == old(live) + Blocks(s')
      ensures Inserted(Items(s), Items(s'), hash, item, replace, r, out) && (r == Error ==> Left(s, n, hash, s'))
      decreases LEVELS - n, 0
    {
      Child(s, n, hash, rest);
      var below := s.slots[rest % SLOTS];
      var below';
      r, out, below' := SlotInsert(below, n + 1, rest / SLOTS, hash, item, replace);
      GrownOk(s, n, below', hash, item, replace, r, out);
      s' := Grown(s, rest % SLOTS, below');
      if r == Error {
        LeftBelow(s, n, hash, below');
      }
    }

    /**
     * nxt_lvlhsh_insert: insert, replace or decline.  A refusal keeps the contents, and no block is lost; unless the
     * key's place is a full bucket above the last level, it changes nothing at all.
     */
    method Insert(hash: nat, item: Item, replace: bool) returns (r: Status, out: Item)
      requires Valid()
      modifies this
      ensures Valid() && Inserted(old(Items(slot)), Items(slot), hash, item, replace, r, out)
      ensures r == Error ==> (live == old(live) <==> slot == old(slot))
      ensures r == Error && slot != old(slot) ==> old(Splits(slot, 0, hash)) && live > old(live)
    {
      var s;
      r, out, s := SlotInsert(slot, 0, hash, hash, item, replace);
      InsertedUnique(Items(slot), Items(s), hash, item, replace, r, out);
      slot := s;
    }

    /** Deletes below one slot; returns what the slot holds afterwards. */
    method SlotDelete(s: Slot, n: nat, rest: nat, hash: nat, key: Key) returns (r: Status, out: Item, s': Slot)
      requires WellFormed(s, n) && rest == Drop(hash, n) && live >= Blocks(s)
      modifies this`live
      ensures WellFormed(s', n) && live + Blocks(s) == old(live) + Blocks(s')
      ensures Deleted(Items(s), Items(s'), hash, key, r, out)
      decreases s
    {
      hide Items, Deleted, Blocks;
      match s {
        case Null =>
          NothingThere(hash, key);
          r, out, s' := Declined, Item([], 0), s;
        case Chain(_) =>
          r, out, s' := ChainSlotDelete(s, n, hash, key);
        case Level(_, ss) =>
          Child(s, n, hash, rest);
          var below := ss[rest % SLOTS];
          if below.Null? {
            NoChild(s, n, hash, key);
            r, out, s' := Declined, Item([], 0), s;
          } else {
            var below';
            r, out, below' := SlotDelete(below, n + 1, rest / SLOTS, hash, key);
            ShrunkOk(s, n, below', hash, key, r, out);
            s' := FreeIfEmpty(s, rest % SLOTS, below');
          }
      }
    }

    // Drops the used-slot count when the slot was emptied, and frees a level left with none.
    method FreeIfEmpty(s: Slot, d: nat, b: Slot) returns (s': Slot)
      requires s.Level? && d < |s.slots| && s.count > 0 && live > 0
      modifies this`live
      ensures s' == Shrunk(s, d, b) && live == old(live) - if s'.Null? then 1 else 0
    {
      s' := Level(s.count, s.slots[d := b]);
      if b.Null? {
        s' := Level(s.count - 1, s.slots[d := b]);
        if LevelEntries(s'.count) == 0 {
          live := live - 1;
          s' := Null;
        }
      }
    }

    method ChainSlotDelete(s: Slot, n: nat, hash: nat, key: Key) returns (r: Status, out: Item, s': Slot)
      requires s.Chain? && WellFormed(s, n) && live >= Blocks(s)
      modifies this`live
      ensures WellFormed(s', n) && live + Blocks(s) == old(live) + Blocks(s')
      ensures Deleted(Items(s), Items(s'), hash, key, r, out)
    {
      var bs, bs' := s.buckets, [];
      r, out, bs' := ChainDelete(bs, hash, key);
      live := live - (|bs| - |bs'|);
      s' := if bs' == [] then Null else Chain(bs');
    }

    /** nxt_lvlhsh_delete: removes the key's entry, and frees the bucket and the levels it leaves empty. */
    method Delete(hash: nat, key: Key) returns (r: Status, out: Item)
      requires Valid()
      modifies this
      ensures Valid() && Deleted(old(Items(slot)), Items(slot), hash, key, r, out)
    {
      var s;
      r, out, s := SlotDelete(slot, 0, hash, hash, key);
      slot := s;
    }
  }
}
