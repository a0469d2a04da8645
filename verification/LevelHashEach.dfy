/** The resumable iterator of src/nxt_lvlhsh.c: its whole position is a path of digits and a bucket cursor. */
module LevelHashEach {
  import opened Bytes
  import opened LevelHash

  /** lhe->bucket: NULL, NXT_LVLHSH_BUCKET_DONE, or the unvisited part of a chain with entry offset and count. */
  datatype Place = Fresh | Done | In(bs: seq<Bucket>, entry: nat, entries: nat)

  // ---------- the order in which entries are visited

  ghost function CellOrder(cells: seq<Cell>, k: nat): seq<Entry>
    decreases |cells| - k
  {
    if k >= |cells| then []
    else (if cells[k].Full? then [cells[k].e] else []) + CellOrder(cells, k + 1)
  }

  ghost function ChainOrder(bs: seq<Bucket>): seq<Entry> {
    if bs == [] then [] else CellOrder(bs[0].cells, 0) + ChainOrder(bs[1..])
  }

  ghost function Order(s: Slot): seq<Entry>
    decreases s, 0
  {
    match s
    case Null => []
    case Chain(bs) => ChainOrder(bs)
    case Level(_, ss) => OrderFrom(ss, 0)
  }

  ghost function OrderFrom(ss: seq<Slot>, k: nat): seq<Entry>
    decreases ss, |ss| - k
  {
    if k >= |ss| then [] else Order(ss[k]) + OrderFrom(ss, k + 1)
  }

  lemma {:induction false} CellOrderItems(cells: seq<Cell>, k: nat)
    requires k <= |cells|
    ensures multiset(CellOrder(cells, k)) == CellItems(cells[k..]) && |CellOrder(cells, k)| == FullFrom(cells, k)
    decreases |cells| - k
  {
    if k < |cells| {
      assert cells[k..][1..] == cells[k + 1..];
      CellOrderItems(cells, k + 1);
    }
  }

  lemma {:induction false} ChainOrderItems(bs: seq<Bucket>)
    ensures multiset(ChainOrder(bs)) == ChainItems(bs)
  {
    if bs != [] {
      assert bs[0].cells[0..] == bs[0].cells;
      CellOrderItems(bs[0].cells, 0);
      ChainOrderItems(bs[1..]);
    }
  }

  /** The visiting order lists the contents, each entry as often as it is stored. */
  lemma {:induction false} OrderItems(s: Slot)
    ensures multiset(Order(s)) == Items(s)
    decreases s, 0
  {
    match s
    case Null =>
    case Chain(bs) => ChainOrderItems(bs);
    case Level(_, ss) =>
      assert ss[0..] == ss;
      OrderFromItems(ss, 0);
  }

  lemma {:induction false} OrderFromItems(ss: seq<Slot>, k: nat)
    requires k <= |ss|
    ensures multiset(OrderFrom(ss, k)) == SlotItems(ss[k..])
    decreases ss, |ss| - k
  {
    if k < |ss| {
      assert ss[k..][1..] == ss[k + 1..];
      OrderItems(ss[k]);
      OrderFromItems(ss, k + 1);
    }
  }

  // ---------- positions

  ghost predicate IsPath(path: seq<nat>) {
    |path| == LEVELS && forall k :: 0 <= k < LEVELS ==> path[k] < SLOTS
  }

  ghost predicate Zeros(path: seq<nat>, n: nat) {
    forall k :: n <= k < |path| ==> path[k] == 0
  }

  ghost predicate PlaceOk(at: Place, bs: seq<Bucket>) {
    at.In? ==>
      && at.bs != [] && |at.bs| <= |bs| && at.bs == bs[|bs| - |at.bs|..]
      && at.entry <= |at.bs[0].cells| && at.entries == FullFrom(at.bs[0].cells, at.entry) && at.entries > 0
  }

  /** The digits lead to the chain the cursor is in; the digits below it are still 0. */
  ghost predicate PositionOk(s: Slot, n: nat, path: seq<nat>, at: Place)
    requires IsPath(path) && WellFormed(s, n)
    decreases s
  {
    match s
    case Null => at.Fresh? && Zeros(path, n)
    case Chain(bs) => PlaceOk(at, bs) && Zeros(path, n)
    case Level(_, ss) => PositionOk(ss[path[n]], n + 1, path, at)
  }

  /** What is still to be visited. */
  ghost function Rest(s: Slot, n: nat, path: seq<nat>, at: Place): seq<Entry>
    requires IsPath(path) && WellFormed(s, n)
    decreases s
  {
    match s
    case Null => []
    case Chain(bs) => PlaceRest(bs, at)
    case Level(_, ss) => Rest(ss[path[n]], n + 1, path, at) + OrderFrom(ss, path[n] + 1)
  }

  ghost function PlaceRest(bs: seq<Bucket>, at: Place): seq<Entry> {
    match at
    case Fresh => ChainOrder(bs)
    case Done => []
    case In(cs, entry, _) => if cs == [] then [] else CellOrder(cs[0].cells, entry) + ChainOrder(cs[1..])
  }

  // A fresh cursor over zero digits has everything before it.
  lemma {:induction false} FromTheStart(s: Slot, n: nat, path: seq<nat>)
    requires IsPath(path) && WellFormed(s, n) && Zeros(path, n)
    ensures PositionOk(s, n, path, Fresh) && Rest(s, n, path, Fresh) == Order(s)
    decreases s
  {
    if s.Level? {
      FromTheStart(s.slots[0], n + 1, path);
    }
  }

  // Behind the last counted entry of a bucket comes the next bucket, or nothing.
  lemma BucketEnd(bs: seq<Bucket>, cs: seq<Bucket>, e: nat)
    requires ChainOk(bs) && cs != [] && |cs| <= |bs| && cs == bs[|bs| - |cs|..]
    requires e <= |cs[0].cells| && FullFrom(cs[0].cells, e) == 0
    ensures var at := if |cs| == 1 then Done else In(cs[1..], 0, cs[1].count);
      PlaceOk(at, bs) && PlaceRest(bs, at) == CellOrder(cs[0].cells, e) + ChainOrder(cs[1..])
  {
    hide CellOrder, ChainOrder, FullFrom, ChainOk, BucketOk;
    NothingLeft(cs[0].cells, e);
    if |cs| == 1 {
      LastOfChain(cs);
    } else {
      assert cs[1] == bs[|bs| - |cs| + 1] && cs[1..] == bs[|bs| - |cs| + 1..];
      BucketFull(bs, |bs| - |cs| + 1);
      FirstOfChain(cs[1..]);
    }
  }

  lemma NothingLeft(cells: seq<Cell>, e: nat)
    requires e <= |cells| && FullFrom(cells, e) == 0
    ensures CellOrder(cells, e) == []
  {
    CellOrderItems(cells, e);
  }

  lemma BucketFull(bs: seq<Bucket>, i: nat)
    requires ChainOk(bs) && i < |bs|
    ensures bs[i].count == FullFrom(bs[i].cells, 0) > 0
  {
    CountItems(bs[i].cells, 0);
  }

  lemma LastOfChain(cs: seq<Bucket>)
    requires |cs| == 1
    ensures ChainOrder(cs[1..]) == []
  {
  }

  lemma FirstOfChain(cs: seq<Bucket>)
    requires cs != []
    ensures ChainOrder(cs) == CellOrder(cs[0].cells, 0) + ChainOrder(cs[1..])
  {
  }

  // Moving the digit of a level past an exhausted slot.
  lemma Advance(s: Slot, n: nat, path: seq<nat>)
    requires IsPath(path) && WellFormed(s, n) && s.Level? && Zeros(path, n + 1)
    ensures var path' := path[n := (path[n] + 1) % SLOTS];
      && IsPath(path') && PositionOk(s, n, path', Fresh)
      && (path'[n] != 0 ==> path'[n] == path[n] + 1 && Rest(s, n, path', Fresh) == OrderFrom(s.slots, path[n] + 1))
      && (path'[n] == 0 ==> Zeros(path', n) && OrderFrom(s.slots, path[n] + 1) == [])
  {
    hide Order, OrderFrom;
    var next := (path[n] + 1) % SLOTS;
    NextDigit(path[n]);
    var path' := path[n := next];
    FromTheStart(s.slots[next], n + 1, path');
    if next == 0 {
      NoMoreSlots(s.slots);
    } else {
      OneMoreSlot(s.slots, next);
    }
  }

  lemma NextDigit(d: nat)
    requires d < SLOTS
    ensures (d + 1) % SLOTS == if d + 1 == SLOTS then 0 else d + 1
  {
  }

  lemma NoMoreSlots(ss: seq<Slot>)
    requires |ss| == SLOTS
    ensures OrderFrom(ss, SLOTS) == []
  {
  }

  lemma OneMoreSlot(ss: seq<Slot>, d: nat)
    requires d < |ss|
    ensures OrderFrom(ss, d) == Order(ss[d]) + OrderFrom(ss, d + 1)
  {
  }

  // The slot the digits lead to, and what comes after it.
  ghost function Leaf(s: Slot, n: nat, path: seq<nat>): Slot
    requires IsPath(path) && WellFormed(s, n)
    decreases s
  {
    if s.Level? then Leaf(s.slots[path[n]], n + 1, path) else s
  }

  ghost function Tail(s: Slot, n: nat, path: seq<nat>): seq<Entry>
    requires IsPath(path) && WellFormed(s, n)
    decreases s
  {
    if s.Level? then Tail(s.slots[path[n]], n + 1, path) + OrderFrom(s.slots, path[n] + 1) else []
  }

  lemma Assoc(a: seq<Entry>, b: seq<Entry>, c: seq<Entry>)
    ensures (a + b) + c == a + (b + c)
  {
  }

  lemma {:induction false} LeafRest(s: Slot, n: nat, path: seq<nat>, at: Place)
    requires IsPath(path) && WellFormed(s, n) && Leaf(s, n, path).Chain?
    ensures Rest(s, n, path, at) == PlaceRest(Leaf(s, n, path).buckets, at) + Tail(s, n, path)
    decreases s
  {
    if s.Level? {
      var child := s.slots[path[n]];
      LeafRest(child, n + 1, path, at);
      Assoc(PlaceRest(Leaf(s, n, path).buckets, at), Tail(child, n + 1, path), OrderFrom(s.slots, path[n] + 1));
    }
  }

  // A cursor inside a bucket is inside the chain the digits lead to, and may move within it.
  lemma {:induction false} LeafPlace(s: Slot, n: nat, path: seq<nat>, at: Place, at': Place)
    requires IsPath(path) && WellFormed(s, n) && PositionOk(s, n, path, at) && at.In?
    ensures Leaf(s, n, path).Chain? && ChainOk(Leaf(s, n, path).buckets) && PlaceOk(at, Leaf(s, n, path).buckets)
    ensures PlaceOk(at', Leaf(s, n, path).buckets) ==> PositionOk(s, n, path, at')
    decreases s
  {
    if s.Level? {
      LeafPlace(s.slots[path[n]], n + 1, path, at, at');
    }
  }

  class Each {
    var path: seq<nat>
    var at: Place

    constructor ()
      ensures path == seq(LEVELS, i => 0) && at == Fresh
    {
      path, at := seq(LEVELS, i => 0), Fresh;
    }

    /** nxt_lvlhsh_bucket_each: the next valid entry of the chain, stepping to the next bucket after its last one. */
    method BucketEach(ghost bs: seq<Bucket>) returns (v: Entry)
      requires at.In? && PlaceOk(at, bs) && ChainOk(bs)
      modifies this`at
      ensures !at.Fresh? && PlaceOk(at, bs)
      ensures [v] + PlaceRest(bs, at) == old(PlaceRest(bs, at))
    {
      var cs, k := at.bs, at.entries;
      var e := NextFull(cs[0].cells, at.entry);
      v := cs[0].cells[e].e;
      Assoc([v], CellOrder(cs[0].cells, e + 1), ChainOrder(cs[1..]));
      if k == 1 {
        BucketEnd(bs, cs, e + 1);
        at := if |cs| == 1 then Done else In(cs[1..], 0, cs[1].count);
      } else {
        at := In(cs, e + 1, k - 1);
      }
    }

    static method NextFull(cells: seq<Cell>, from: nat) returns (e: nat)
      requires FullFrom(cells, from) > 0
      ensures from <= e < |cells| && cells[e].Full? && FullFrom(cells, e + 1) == FullFrom(cells, from) - 1
      ensures CellOrder(cells, from) == [cells[e].e] + CellOrder(cells, e + 1)
    {
      e := from;
      while cells[e].Hole?
        invariant from <= e < |cells| && FullFrom(cells, e) == FullFrom(cells, from)
        invariant CellOrder(cells, e) == CellOrder(cells, from)
        decreases |cells| - e
      {
        e := e + 1;
      }
    }

    // Enters the chain the digits lead to.
    method EnterChain(bs: seq<Bucket>) returns (v: Entry)
      requires ChainOk(bs)
      modifies this`at
      ensures !at.Fresh? && PlaceOk(at, bs) && [v] + PlaceRest(bs, at) == ChainOrder(bs)
    {
      assert bs == bs[0..];
      CountItems(bs[0].cells, 0);
      at := In(bs, 0, bs[0].count);
      v := BucketEach(bs);
    }

    /** nxt_lvlhsh_level_each: the next entry below a level, or None with the digits of the level back at 0. */
    method LevelEach(s: Slot, n: nat) returns (v: Option<Entry>)
      requires s.Level? && WellFormed(s, n) && IsPath(path) && PositionOk(s, n, path, at) && !at.In?
      modifies this
      ensures IsPath(path) && PositionOk(s, n, path, at) && path[..n] == old(path[..n])
      ensures v.Some? ==> !at.Fresh? && [v.value] + Rest(s, n, path, at) == old(Rest(s, n, path, at))
      ensures v.None? ==> at.Fresh? && Zeros(path, n) && old(Rest(s, n, path, at)) == []
      decreases s
    {
      hide Rest, PositionOk, OrderFrom, Zeros;
      ghost var rest := Rest(s, n, path, at);
      ghost var above := path[..n];
      while true
        invariant IsPath(path) && PositionOk(s, n, path, at) && !at.In? && path[..n] == above
        invariant Rest(s, n, path, at) == rest
        decreases SLOTS - path[n]
      {
        v := DigitEach(s, n);
        if v.Some? || path[n] == 0 {
          return;
        }
      }
    }

    // Visits one slot of a level, and moves the digit on when the slot is exhausted.
    method DigitEach(s: Slot, n: nat) returns (v: Option<Entry>)
      requires s.Level? && WellFormed(s, n) && IsPath(path) && PositionOk(s, n, path, at) && !at.In?
      modifies this
      ensures IsPath(path) && PositionOk(s, n, path, at) && path[..n] == old(path[..n])
      ensures v.Some? ==> !at.Fresh? && [v.value] + Rest(s, n, path, at) == old(Rest(s, n, path, at))
      ensures v.None? ==> at.Fresh?
      ensures v.None? && path[n] == 0 ==> Zeros(path, n) && old(Rest(s, n, path, at)) == []
      ensures v.None? && path[n] != 0 ==>
        path[n] > old(path[n]) && Rest(s, n, path, at) == old(Rest(s, n, path, at))
      decreases s, 1
    {
      InPath(s, n, path);
      hide Rest, PositionOk, OrderFrom, WellFormed, Zeros;
      ghost var was := path;
      v := SlotEach(s, n);
      SamePrefix(path, was, n);
      if v.None? {
        AdvanceDigit(s, n);
      }
    }

    static lemma InPath(s: Slot, n: nat, path: seq<nat>)
      requires s.Level? && WellFormed(s, n) && IsPath(path)
      ensures n < |path| && path[n] < SLOTS == |s.slots| && WellFormed(s.slots[path[n]], n + 1)
    {
    }

    static lemma ChainShape(bs: seq<Bucket>, n: nat)
      requires WellFormed(Chain(bs), n)
      ensures ChainOk(bs)
    {
    }

    static lemma SamePrefix(p: seq<nat>, q: seq<nat>, n: nat)
      requires n < |p| && n < |q| && p[..n + 1] == q[..n + 1]
      ensures p[..n] == q[..n] && p[n] == q[n]
    {
      assert p[n] == p[..n + 1][n] && q[n] == q[..n + 1][n];
      assert p[..n] == p[..n + 1][..n] && q[..n] == q[..n + 1][..n];
    }

    method AdvanceDigit(s: Slot, n: nat)
      requires IsPath(path) && WellFormed(s, n) && s.Level? && at.Fresh? && Zeros(path, n + 1)
      modifies this`path
      ensures IsPath(path) && path[..n] == old(path[..n]) && PositionOk(s, n, path, Fresh)
      ensures path[n] == 0 ==> Zeros(path, n) && OrderFrom(s.slots, old(path[n]) + 1) == []
      ensures path[n] != 0 ==> path[n] > old(path[n]) && Rest(s, n, path, Fresh) == OrderFrom(s.slots, old(path[n]) + 1)
    {
      Advance(s, n, path);
      path := path[n := (path[n] + 1) % SLOTS];
    }

    // Visits the slot the digit of a level selects.
    method SlotEach(s: Slot, n: nat) returns (v: Option<Entry>)
      requires s.Level? && WellFormed(s, n) && IsPath(path) && PositionOk(s, n, path, at) && !at.In?
      modifies this
      ensures IsPath(path) && path[..n + 1] == old(path[..n + 1])
      ensures v.Some? ==>
        !at.Fresh? && PositionOk(s, n, path, at) && [v.value] + Rest(s, n, path, at) == old(Rest(s, n, path, at))
      ensures v.None? ==>
        at.Fresh? && Zeros(path, n + 1) && old(Rest(s, n, path, at)) == OrderFrom(s.slots, path[n] + 1)
      decreases s, 0
    {
      hide OrderFrom, ChainOrder, CellOrder, Order, WellFormed;
      InPath(s, n, path);
      var slot := s.slots[path[n]];
      match slot {
        case Null =>
          v := None;
        case Chain(bs) =>
          if at.Fresh? {
            ChainShape(bs, n + 1);
            var e := EnterChain(bs);
            Assoc([e], PlaceRest(bs, at), OrderFrom(s.slots, path[n] + 1));
            v := Some(e);
          } else {
            at, v := Fresh, None;
          }
        case Level(_, _) =>
          v := LevelEach(slot, n + 1);
          assert path[n] == path[..n + 1][n] == old(path)[n];
          if v.Some? {
            Assoc([v.value], Rest(slot, n + 1, path, at), OrderFrom(s.slots, path[n] + 1));
          }
      }
    }

    /** nxt_lvlhsh_each: over a level the iterator starts anew after it has returned None. */
    method Next(s: Slot) returns (v: Option<Entry>)
      requires WellFormed(s, 0) && Between(s)
      modifies this
      ensures Between(s)
      ensures v.Some? ==> !at.Fresh? && [v.value] + Rest(s, 0, path, at) == old(Rest(s, 0, path, at))
      ensures v.None? ==> old(Rest(s, 0, path, at)) == [] && at == if s.Level? then Fresh else old(at)
    {
      if at.Done? {
        if s.Chain? {
          return None;
        }
      } else {
        if at.Fresh? {
          match s {
            case Null =>
              return None;
            case Level(_, _) =>
              FromTheStart(s, 0, path);
              path := seq(LEVELS, i => 0);
              FromTheStart(s, 0, path);
            case Chain(bs) =>
              var first := EnterChain(bs);
              return Some(first);
          }
        } else {
          var e := Resume(s);
          return Some(e);
        }
      }
      v := LevelEach(s, 0);
    }

    // Between two calls a fresh cursor means that the walk has not begun.
    ghost predicate Between(s: Slot)
      requires WellFormed(s, 0)
      reads this
    {
      IsPath(path) && PositionOk(s, 0, path, at) && (at.Fresh? ==> Zeros(path, 0))
    }

    // Goes on in the bucket the previous call stopped in.
    method Resume(s: Slot) returns (v: Entry)
      requires WellFormed(s, 0) && IsPath(path) && PositionOk(s, 0, path, at) && at.In?
      modifies this`at
      ensures !at.Fresh? && PositionOk(s, 0, path, at) && [v] + Rest(s, 0, path, at) == old(Rest(s, 0, path, at))
    {
      ghost var before := at;
      LeafPlace(s, 0, path, before, before);
      LeafRest(s, 0, path, before);
      ghost var bs, tail := Leaf(s, 0, path).buckets, Tail(s, 0, path);
      v := BucketEach(bs);
      LeafPlace(s, 0, path, before, at);
      LeafRest(s, 0, path, at);
      Assoc([v], PlaceRest(bs, at), tail);
    }

    /** A whole iteration: every stored entry exactly once, then None. */
    method Visit(s: Slot) returns (out: seq<Entry>)
      requires WellFormed(s, 0) && Between(s) && at.Fresh?
      modifies this
      ensures out == Order(s) && multiset(out) == Items(s) && |out| == |Items(s)|
    {
      out := [];
      FromTheStart(s, 0, path);
      OrderItems(s);
      ghost var all, left := Order(s), Order(s);
      hide WellFormed, PositionOk, Rest, Order, Items;
      var v := Next(s);
      while v.Some?
        invariant Between(s) && all == out + left
        invariant v.Some? ==> !at.Fresh? && left == [v.value] + Rest(s, 0, path, at)
        invariant v.None? ==> left == []
        decreases |left|, v.Some?
      {
        ghost var rest := Rest(s, 0, path, at);
        Assoc(out, [v.value], rest);
        out, left := out + [v.value], rest;
        v := Next(s);
      }
    }
  }
}
