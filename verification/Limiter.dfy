/** The request limiter of src/ngx_http_ctrl_limit.c: a leaky bucket per key, in an ordered tree and an LRU queue. */
module Limiter {
  import opened Bytes

  /** One bucket; excess is in thousandths of a request. */
  datatype Bucket = Bucket(excess: nat, last: nat)

  /** rate is already scaled by 1000; burst is not. */
  datatype Policy = Policy(rate: nat, burst: nat)

  // ---------- one bucket

  // The elapsed time the source works with: clamped when the clock went backwards.
  function Elapsed(now: nat, last: nat): nat {
    if now >= last then now - last
    else if now as int - last < -60000 then 1
    else 0
  }

  /** What a request finds: the excess it would leave. */
  function Excess(b: Bucket, p: Policy, now: nat): nat {
    var e := b.excess - p.rate * Elapsed(now, b.last) / 1000 + 1000;
    if e < 0 then 0 else e
  }

  /** The bucket after a request, and whether the request is admitted. */
  function Request(b: Bucket, p: Policy, now: nat): (r: (Bucket, bool)) {
    var e := Excess(b, p, now);
    if e > p.burst then (b, false)
    else (Bucket(e, if Elapsed(now, b.last) != 0 then now else b.last), true)
  }

  /** Requests at the given times, one after the other: the bucket after them and how many were admitted. */
  function Serve(b: Bucket, p: Policy, times: seq<nat>): (r: (Bucket, nat))
    decreases |times|
  {
    if times == [] then (b, 0)
    else
      var before := Serve(b, p, times[..|times| - 1]);
      var (b', admitted) := Request(before.0, p, times[|times| - 1]);
      (b', before.1 + if admitted then 1 else 0)
  }

  ghost predicate Ordered(from: nat, times: seq<nat>) {
    (forall i :: 0 <= i < |times| ==> from <= times[i]) && forall i, j :: 0 <= i < j < |times| ==> times[i] <= times[j]
  }

  /** Whatever the clock does, the stored excess never exceeds the burst. */
  lemma {:induction false} ExcessBounded(b: Bucket, p: Policy, times: seq<nat>)
    requires b.excess <= p.burst
    ensures Serve(b, p, times).0.excess <= p.burst
    decreases |times|
  {
    if times != [] {
      ExcessBounded(b, p, times[..|times| - 1]);
    }
  }

  /**
   * The leak, as a client sees it: a request at or after the last one is admitted exactly when its cost of 1000 fits
   * into the burst on top of what has not leaked out, at p.rate / 1000 per ms.
   */
  lemma AdmittedWhenLeaked(b: Bucket, p: Policy, now: nat)
    requires now >= b.last
    ensures var leaked: int := p.rate * (now - b.last) / 1000;
      var after := b.excess as int + 1000 - leaked;
      var (t, admitted) := Request(b, p, now);
      && (admitted <==> b.excess + 1000 <= p.burst + leaked)
      && (admitted ==> t.excess == (if after < 0 then 0 else after) && t.last == now)
      && (!admitted ==> t == b)
      && Excess(b, p, now) == if after < 0 then 0 else after
  {
  }

  /** When the clock has gone back nothing leaks and the time stays; after more than a minute it counts as one ms. */
  lemma ClockWentBack(b: Bucket, p: Policy, now: nat)
    requires now < b.last
    ensures var leaked := if b.last - now > 60000 then p.rate / 1000 else 0;
      var after := b.excess as int + 1000 - leaked;
      var (t, admitted) := Request(b, p, now);
      && (admitted <==> b.excess + 1000 <= p.burst + leaked)
      && (admitted ==> t == Bucket(if after < 0 then 0 else after, if b.last - now > 60000 then now else b.last))
      && (!admitted ==> t == b) && Excess(b, p, now) == if after < 0 then 0 else after
  {
  }

  /** No two requests come closer together than the rate allows. */
  ghost predicate Spaced(p: Policy, from: nat, times: seq<nat>) {
    forall i :: 0 <= i < |times| ==> Apart(p, TimeBefore(from, times, i), times[i])
  }

  predicate Apart(p: Policy, before: nat, now: nat) { now >= before && p.rate * (now - before) >= 1000000 }

  function TimeBefore(from: nat, times: seq<nat>, i: nat): nat
    requires i < |times|
  {
    if i == 0 then from else times[i - 1]
  }

  /** A client that keeps to the rate is never refused, whatever the burst, and its excess never grows. */
  lemma {:induction false} SpacedAdmitted(b: Bucket, p: Policy, times: seq<nat>)
    requires b.excess <= p.burst && Spaced(p, b.last, times)
    ensures var (t, n) := Serve(b, p, times);
      n == |times| && t.excess <= b.excess && t.last == if times == [] then b.last else times[|times| - 1]
    decreases |times|
  {
    hide Request, Elapsed, Spaced;
    if times != [] {
      var init, last := times[..|times| - 1], |times| - 1;
      SpacedBefore(p, b.last, times);
      SpacedAdmitted(b, p, init);
      SpacedStep(Serve(b, p, init).0, p, times[last]);
    }
  }

  lemma SpacedBefore(p: Policy, from: nat, times: seq<nat>)
    requires times != [] && Spaced(p, from, times)
    ensures var init, now := times[..|times| - 1], times[|times| - 1];
      var before := if init == [] then from else init[|init| - 1];
      Spaced(p, from, init) && Apart(p, before, now)
  {
    hide Apart;
    var init := times[..|times| - 1];
    assert forall i :: 0 <= i < |init| ==>
      init[i] == times[i] && TimeBefore(from, init, i) == TimeBefore(from, times, i);
    assert TimeBefore(from, times, |times| - 1) == if init == [] then from else init[|init| - 1];
  }

  lemma SpacedStep(b: Bucket, p: Policy, now: nat)
    requires b.excess <= p.burst && Apart(p, b.last, now)
    ensures var (t, admitted) := Request(b, p, now); admitted && t.excess <= b.excess && t.last == now
  {
    hide Request;
    AdmittedWhenLeaked(b, p, now);
    Thousandth(p.rate * (now - b.last), 1000);
  }

  lemma Thousandth(x: nat, k: nat)
    requires x >= 1000 * k
    ensures x / 1000 >= k
  {
  }

  lemma FloorMul(r: nat, a: nat, b: nat)
    ensures r * (a + b) == r * a + r * b
  {
  }

  // What was admitted is still in the bucket, or has leaked since.
  ghost predicate Accounts(b: Bucket, p: Policy, since: nat, start: nat, admitted: nat) {
    b.last >= since && 1000 * start + 1000 * 1000 * admitted <= 1000 * b.excess + p.rate * (b.last - since)
  }

  lemma RequestAccounts(b: Bucket, p: Policy, since: nat, start: nat, admitted: nat, now: nat)
    requires Accounts(b, p, since, start, admitted) && now >= b.last
    ensures var (b', ok) := Request(b, p, now);
      b'.last <= now && Accounts(b', p, since, start, if ok then admitted + 1 else admitted)
  {
    var ms := now - b.last;
    var leak := p.rate * ms;
    FloorMul(p.rate, b.last - since, ms);
    assert leak / 1000 * 1000 <= leak;
    assert 1000 * Excess(b, p, now) >= 1000 * b.excess - leak + 1000 * 1000;
  }

  lemma {:induction false} ServeAccounts(b: Bucket, p: Policy, times: seq<nat>)
    requires Ordered(b.last, times)
    ensures var (b', n) := Serve(b, p, times);
      Accounts(b', p, b.last, b.excess, n) && b'.last <= if times == [] then b.last else times[|times| - 1]
    decreases |times|
  {
    if times != [] {
      var before := times[..|times| - 1];
      ServeAccounts(b, p, before);
      var (b1, n1) := Serve(b, p, before);
      RequestAccounts(b1, p, b.last, b.excess, n1, times[|times| - 1]);
    }
  }

  /** The rate bound: n requests admitted within t milliseconds leave 1000 n <= burst - excess + rate * t / 1000. */
  lemma RateBound(b: Bucket, p: Policy, times: seq<nat>)
    requires b.excess <= p.burst && times != [] && Ordered(b.last, times)
    ensures var t := times[|times| - 1] - b.last;
      1000 * Serve(b, p, times).1 <= p.burst - b.excess + p.rate * t / 1000
  {
    ExcessBounded(b, p, times);
    ServeAccounts(b, p, times);
    var (b', n) := Serve(b, p, times);
    Combine(b.excess, n, b'.excess, p.burst, p.rate, b'.last - b.last, times[|times| - 1] - b.last);
  }

  lemma Combine(e0: nat, n: nat, e1: nat, burst: nat, rate: nat, used: nat, t: nat)
    requires 1000 * e0 + 1000 * 1000 * n <= 1000 * e1 + rate * used && e1 <= burst && used <= t
    ensures 1000 * n <= burst - e0 + rate * t / 1000
  {
    FloorMul(rate, used, t - used);
    Floor(e0 + 1000 * n - burst, rate * t);
  }

  lemma Floor(x: int, y: nat)
    requires 1000 * x <= y
    ensures x <= y / 1000
  {
  }

  /** From its creation on, which admits a first request: 1000 (n - 1) <= burst + rate * t / 1000. */
  lemma RateBoundFromCreation(created: nat, p: Policy, times: seq<nat>)
    requires times != [] && Ordered(created, times)
    ensures var n := 1 + Serve(Bucket(0, created), p, times).1;
      1000 * (n - 1) <= p.burst + p.rate * (times[|times| - 1] - created) / 1000
  {
    RateBound(Bucket(0, created), p, times);
  }

  /** After an admitted request the bucket was touched at that very time, so the bound applies to any later window. */
  lemma AdmittedTouches(b: Bucket, p: Policy, now: nat)
    requires now >= b.last && Request(b, p, now).1
    ensures Request(b, p, now).0.last == now
  {
  }

  // ---------- keys in order

  datatype Key = Key(hash: nat, bytes: seq<Byte>)

  /** ngx_memn2cmp: bytes first, then the length. */
  function MemN2Cmp(a: seq<Byte>, b: seq<Byte>): int
    decreases |a|
  {
    if a == [] || b == [] then |a| - |b|
    else if a[0] != b[0] then a[0] as int - b[0] as int
    else MemN2Cmp(a[1..], b[1..])
  }

  lemma {:induction false} CmpFacts(a: seq<Byte>, b: seq<Byte>)
    ensures MemN2Cmp(a, b) == 0 <==> a == b
    ensures MemN2Cmp(a, b) < 0 <==> MemN2Cmp(b, a) > 0
    decreases |a|
  {
    if a != [] && b != [] && a[0] == b[0] {
      CmpFacts(a[1..], b[1..]);
      assert a == [a[0]] + a[1..] && b == [b[0]] + b[1..];
    }
  }

  lemma {:induction false} CmpTransitive(a: seq<Byte>, b: seq<Byte>, c: seq<Byte>)
    requires MemN2Cmp(a, b) < 0 && MemN2Cmp(b, c) < 0
    ensures MemN2Cmp(a, c) < 0
    decreases |a|
  {
    if a != [] && b != [] && c != [] && a[0] == b[0] && b[0] == c[0] {
      CmpTransitive(a[1..], b[1..], c[1..]);
    }
  }

  predicate Before(a: Key, b: Key) {
    a.hash < b.hash || (a.hash == b.hash && MemN2Cmp(a.bytes, b.bytes) < 0)
  }

  lemma BeforeFacts(a: Key, b: Key)
    ensures a == b || Before(a, b) || Before(b, a)
    ensures !(Before(a, b) && Before(b, a)) && !Before(a, a)
  {
    CmpFacts(a.bytes, b.bytes);
    CmpFacts(b.bytes, a.bytes);
    CmpFacts(a.bytes, a.bytes);
  }

  lemma BeforeTransitive(a: Key, b: Key, c: Key)
    requires Before(a, b) && Before(b, c)
    ensures Before(a, c)
  {
    if a.hash == b.hash && b.hash == c.hash {
      CmpTransitive(a.bytes, b.bytes, c.bytes);
    }
  }

  // ---------- the tree

  datatype Tree = Sentinel | Node(left: Tree, key: Key, right: Tree)

  function InOrder(t: Tree): seq<Key> {
    if t.Sentinel? then [] else InOrder(t.left) + [t.key] + InOrder(t.right)
  }

  function Members(t: Tree): set<Key> {
    if t.Sentinel? then {} else Members(t.left) + {t.key} + Members(t.right)
  }

  ghost predicate Search(t: Tree) {
    t.Node? ==>
      && Search(t.left) && Search(t.right)
      && (forall k :: k in Members(t.left) ==> Before(k, t.key))
      && (forall k :: k in Members(t.right) ==> Before(t.key, k))
  }

  /** The descent of ngx_http_ctrl_limit_req_lookup. */
  method Find(t: Tree, key: Key) returns (found: bool)
    requires Search(t)
    ensures found <==> key in Members(t)
  {
    var node := t;
    while node.Node?
      invariant Search(node) && (key in Members(t) <==> key in Members(node))
      decreases node
    {
      BeforeFacts(key, node.key);
      CmpFacts(key.bytes, node.key.bytes);
      forall k | k in Members(node)
        ensures k == key && Before(k, node.key) ==> k in Members(node.left)
        ensures k == key && Before(node.key, k) ==> k in Members(node.right)
      {
        BeforeFacts(k, node.key);
      }
      if key.hash < node.key.hash {
        node := node.left;
      } else if key.hash > node.key.hash {
        node := node.right;
      } else {
        var rc := MemN2Cmp(key.bytes, node.key.bytes);
        if rc == 0 {
          return true;
        }
        node := if rc < 0 then node.left else node.right;
      }
    }
    return false;
  }

  /** ngx_http_ctrl_limit_req_rbtree_insert_value: descends to a sentinel and hangs the node there. */
  method InsertValue(t: Tree, key: Key) returns (r: Tree)
    requires Search(t) && key !in Members(t)
    ensures Search(r) && Members(r) == Members(t) + {key}
    decreases t
  {
    if t.Sentinel? {
      return Node(Sentinel, key, Sentinel);
    }
    BeforeFacts(key, t.key);
    if key.hash < t.key.hash || (key.hash == t.key.hash && MemN2Cmp(key.bytes, t.key.bytes) < 0) {
      var l := InsertValue(t.left, key);
      r := Node(l, t.key, t.right);
    } else {
      var right := InsertValue(t.right, key);
      r := Node(t.left, t.key, right);
    }
  }

  lemma {:induction false} InOrderMembers(t: Tree, k: Key)
    ensures k in InOrder(t) <==> k in Members(t)
  {
    if t.Node? {
      InOrderMembers(t.left, k);
      InOrderMembers(t.right, k);
    }
  }

  /** A search tree lists its keys in ascending order. */
  lemma {:induction false} InOrderSorted(t: Tree)
    requires Search(t)
    ensures forall i, j :: 0 <= i < j < |InOrder(t)| ==> Before(InOrder(t)[i], InOrder(t)[j])
  {
    if t.Node? {
      var l, r, s := InOrder(t.left), InOrder(t.right), InOrder(t);
      InOrderSorted(t.left);
      InOrderSorted(t.right);
      forall i, j | 0 <= i < j < |s|
        ensures Before(s[i], s[j])
      {
        if i < |l| {
          InOrderMembers(t.left, l[i]);
        }
        if j > |l| {
          InOrderMembers(t.right, r[j - |l| - 1]);
        }
        if i < |l| && j > |l| {
          BeforeTransitive(s[i], t.key, s[j]);
        }
      }
    }
  }

  // ngx_rbtree_delete belongs to NGINX; any removal that keeps the order will do.
  method TakeMin(t: Tree) returns (k: Key, r: Tree)
    requires Search(t) && t.Node?
    ensures k in Members(t) && Members(r) == Members(t) - {k} && Search(r)
    ensures forall x :: x in Members(r) ==> Before(k, x)
    decreases t
  {
    if t.left.Sentinel? {
      BeforeFacts(t.key, t.key);
      return t.key, t.right;
    }
    var l;
    k, l := TakeMin(t.left);
    r := Node(l, t.key, t.right);
    forall x | x in Members(r)
      ensures Before(k, x)
    {
      if x in Members(t.right) {
        BeforeTransitive(k, t.key, x);
      }
    }
    BeforeFacts(k, t.key);
    forall x | x in Members(t.right)
      ensures x != k
    {
      BeforeTransitive(k, t.key, x);
      BeforeFacts(k, x);
    }
  }

  method Remove(t: Tree, key: Key) returns (r: Tree)
    requires Search(t)
    ensures Search(r) && Members(r) == Members(t) - {key}
    decreases t
  {
    if t.Sentinel? {
      return t;
    }
    forall x | x in Members(t.left) || x in Members(t.right)
      ensures x != t.key
      ensures x in Members(t.left) ==> x !in Members(t.right)
    {
      BeforeFacts(x, t.key);
    }
    if key == t.key {
      if t.right.Sentinel? {
        return t.left;
      }
      var k, rest := TakeMin(t.right);
      r := Node(t.left, k, rest);
      forall x | x in Members(t.left)
        ensures Before(x, k)
      {
        BeforeTransitive(x, t.key, k);
      }
    } else {
      var l := Remove(t.left, key);
      var right := Remove(t.right, key);
      r := Node(l, t.key, right);
    }
  }

  // ---------- the shared zone

  /** The keys in order of use, the most recent first, and their buckets. */
  datatype State = State(queue: seq<Key>, buckets: map<Key, Bucket>)

  ghost predicate NoDup(q: seq<Key>) {
    forall i, j :: 0 <= i < j < |q| ==> q[i] != q[j]
  }

  ghost predicate SameKeys(q: seq<Key>, m: set<Key>) {
    forall k :: k in q <==> k in m
  }

  function Without(q: seq<Key>, key: Key): seq<Key> {
    if q == [] then [] else if q[0] == key then Without(q[1..], key) else [q[0]] + Without(q[1..], key)
  }

  lemma {:induction false} WithoutFacts(q: seq<Key>, key: Key)
    ensures forall k :: k in Without(q, key) <==> k in q && k != key
    ensures NoDup(q) ==> NoDup(Without(q, key))
  {
    if q != [] {
      WithoutFacts(q[1..], key);
      assert q == [q[0]] + q[1..];
      var w := Without(q[1..], key);
      if NoDup(q) {
        assert q[0] !in q[1..];
        assert NoDup(q[1..]);
      }
    }
  }

  /** A bucket the expiry loop may drop without being told to. */
  predicate Stale(b: Bucket, p: Policy, now: nat) {
    var ms := if now >= b.last then now - b.last else b.last - now;
    ms >= 60000 && b.excess <= p.rate * ms / 1000
  }

  /** What the expiry loop leaves of the queue when it starts at n. */
  function Survivors(q: seq<Key>, m: map<Key, Bucket>, p: Policy, now: nat, n: nat): (r: seq<Key>)
    requires n <= 3 && forall k :: k in q ==> k in m
    ensures r <= q
    decreases 3 - n
  {
    if n == 3 || q == [] then q
    else
      var last := |q| - 1;
      if n > 0 && !Stale(m[q[last]], p, now) then q else Survivors(q[..last], m, p, now, n + 1)
  }

  // The entry at the end of q goes next.
  predicate Goes(q: seq<Key>, m: map<Key, Bucket>, p: Policy, now: nat, forced: bool)
    requires forall k :: k in q ==> k in m
  {
    q != [] && (forced || Stale(m[q[|q| - 1]], p, now))
  }

  /**
   * The rule of expiry: at most three entries go, or two unless the first is forced; apart from a forced one they are
   * stale; and it stops early only where the oldest that is left is not.
   */
  ghost predicate ExpiryRule(q: seq<Key>, m: map<Key, Bucket>, p: Policy, now: nat, n: nat, r: seq<Key>)
    requires n <= 3 && forall k :: k in q ==> k in m
  {
    && r <= q && |q| - |r| <= 3 - n
    && (forall i :: |r| < i <= |q| ==> Goes(q[..i], m, p, now, n == 0 && i == |q|))
    && (|q| - |r| < 3 - n ==> !Goes(r, m, p, now, n == 0 && |r| == |q|))
  }

  lemma {:induction false} SurvivorsRule(q: seq<Key>, m: map<Key, Bucket>, p: Policy, now: nat, n: nat, r: seq<Key>)
    requires n <= 3 && forall k :: k in q ==> k in m
    ensures ExpiryRule(q, m, p, now, n, r) <==> r == Survivors(q, m, p, now, n)
    decreases 3 - n
  {
    hide Stale;
    var forced := n == 0;
    assert q[..|q|] == q;
    if n < 3 && Goes(q, m, p, now, forced) {
      var rest := q[..|q| - 1];
      SurvivorsRule(rest, m, p, now, n + 1, r);
      assert forall i :: 0 <= i <= |rest| ==> rest[..i] == q[..i];
    } else if ExpiryRule(q, m, p, now, n, r) {
      assert |r| == |q|;
    }
  }

  function Restrict(m: map<Key, Bucket>, q: seq<Key>): map<Key, Bucket> {
    map k | k in m && k in q :: m[k]
  }

  /** A request for a key; whether the slab allocator has room for a bucket at once, or after a forced expiry. */
  datatype Arrival = Arrival(key: Key, now: nat, room: bool, roomAfter: bool)

  ghost predicate Proper(z: State) {
    SameKeys(z.queue, z.buckets.Keys) && NoDup(z.queue)
  }

  // The keys that are left when a new bucket is needed.
  function MakeRoom(z: State, p: Policy, a: Arrival): (r: seq<Key>)
    requires forall k :: k in z.queue ==> k in z.buckets
    ensures r <= z.queue
  {
    var q := Survivors(z.queue, z.buckets, p, a.now, 1);
    if a.room then q else Survivors(q, z.buckets, p, a.now, 0)
  }

  /** One request: the zone after it and whether it is admitted. */
  function Next(z: State, p: Policy, a: Arrival): (State, bool)
    requires forall k :: k in z.queue ==> k in z.buckets
  {
    if a.key in z.buckets then
      var (b, admitted) := Request(z.buckets[a.key], p, a.now);
      (State([a.key] + Without(z.queue, a.key), z.buckets[a.key := b]), admitted)
    else
      var q := MakeRoom(z, p, a);
      if a.room || a.roomAfter then (State([a.key] + q, Restrict(z.buckets, q)[a.key := Bucket(0, a.now)]), true)
      else (State(q, Restrict(z.buckets, q)), false)
  }

  lemma NextProper(z: State, p: Policy, a: Arrival)
    requires Proper(z)
    ensures Proper(Next(z, p, a).0)
  {
    hide MakeRoom, Request, NoDup;
    if a.key in z.buckets {
      WithoutFacts(z.queue, a.key);
      PushFront(Without(z.queue, a.key), a.key);
    } else {
      var q := MakeRoom(z, p, a);
      PrefixNoDup(z.queue, q);
      PushFront(q, a.key);
    }
  }

  lemma PushFront(q: seq<Key>, key: Key)
    requires NoDup(q) && key !in q
    ensures NoDup([key] + q)
  {
  }

  lemma PrefixNoDup(q: seq<Key>, r: seq<Key>)
    requires NoDup(q) && r <= q
    ensures NoDup(r) && forall k :: k in r ==> k in q
  {
  }

  /** How many buckets at the end of the queue are stale. */
  function StaleTail(q: seq<Key>, m: map<Key, Bucket>, p: Policy, now: nat): (k: nat)
    requires forall k :: k in q ==> k in m
    ensures k <= |q|
  {
    if q == [] || !Stale(m[q[|q| - 1]], p, now) then 0 else 1 + StaleTail(q[..|q| - 1], m, p, now)
  }

  // The queue without two stale buckets at its end, or as many as there are.
  function Calmed(q: seq<Key>, m: map<Key, Bucket>, p: Policy, now: nat): (r: seq<Key>)
    requires forall k :: k in q ==> k in m
    ensures r <= q
  {
    var k := StaleTail(q, m, p, now);
    q[..|q| - if k < 2 then k else 2]
  }

  lemma SurvivorsCalmed(q: seq<Key>, m: map<Key, Bucket>, p: Policy, now: nat)
    requires forall k :: k in q ==> k in m
    ensures Survivors(q, m, p, now, 1) == Calmed(q, m, p, now)
    ensures Survivors(q, m, p, now, 0) == if q == [] then [] else Calmed(q[..|q| - 1], m, p, now)
  {
    hide Stale;
    CalmedAt1(q, m, p, now);
    if q != [] {
      CalmedAt1(q[..|q| - 1], m, p, now);
    }
  }

  lemma CalmedAt1(q: seq<Key>, m: map<Key, Bucket>, p: Policy, now: nat)
    requires forall k :: k in q ==> k in m
    ensures Survivors(q, m, p, now, 1) == Calmed(q, m, p, now)
  {
    hide Stale;
    if q != [] && Stale(m[q[|q| - 1]], p, now) {
      var rest := q[..|q| - 1];
      assert StaleTail(q, m, p, now) == 1 + StaleTail(rest, m, p, now);
      if rest == [] || !Stale(m[rest[|rest| - 1]], p, now) {
        assert Survivors(rest, m, p, now, 2) == rest;
      } else {
        var two := rest[..|rest| - 1];
        assert two == q[..|q| - 2];
        assert Survivors(two, m, p, now, 3) == two;
      }
    }
  }

  /**
   * A new key first makes up to two stale buckets at the end of the queue go; where there is still no room the oldest
   * that is left goes in any case, and up to two stale ones behind it.
   */
  lemma RoomIsMade(z: State, p: Policy, a: Arrival)
    requires Proper(z) && a.key !in z.buckets
    ensures var calm := Calmed(z.queue, z.buckets, p, a.now);
      var left := if a.room || calm == [] then calm else Calmed(calm[..|calm| - 1], z.buckets, p, a.now);
      Next(z, p, a).0.queue == (if a.room || a.roomAfter then [a.key] else []) + left
  {
    hide Survivors, Calmed;
    SurvivorsCalmed(z.queue, z.buckets, p, a.now);
    SurvivorsCalmed(Calmed(z.queue, z.buckets, p, a.now), z.buckets, p, a.now);
  }

  lemma {:induction false} WithoutAt(q: seq<Key>, key: Key, i: nat)
    requires NoDup(q) && i < |q| && q[i] == key
    ensures Without(q, key) == q[..i] + q[i + 1..]
    decreases |q|
  {
    if i == 0 {
      WithoutNone(q[1..], key);
    } else {
      WithoutAt(q[1..], key, i - 1);
    }
  }

  lemma {:induction false} WithoutNone(q: seq<Key>, key: Key)
    requires key !in q
    ensures Without(q, key) == q
    decreases |q|
  {
    if q != [] {
      WithoutNone(q[1..], key);
    }
  }

  /**
   * No request changes another key's bucket, and one disappears only for a new bucket: it is then stale, or it is the
   * oldest that was not and the allocator had refused.
   */
  lemma OthersKept(z: State, p: Policy, a: Arrival, k: Key)
    requires Proper(z) && k in z.buckets && k != a.key
    ensures var t := Next(z, p, a).0;
      && (k in t.buckets ==> t.buckets[k] == z.buckets[k])
      && (k !in t.buckets ==>
           var q := Survivors(z.queue, z.buckets, p, a.now, 1);
           a.key !in z.buckets && (Stale(z.buckets[k], p, a.now) || (!a.room && q != [] && k == q[|q| - 1])))
  {
    var t := Next(z, p, a).0;
    if k !in t.buckets {
      assert k in z.queue;
      hide Stale, Next;
      var q := Survivors(z.queue, z.buckets, p, a.now, 1);
      SurvivorsRule(z.queue, z.buckets, p, a.now, 1, q);
      if k !in q {
        GoneIsStale(z.queue, z.buckets, p, a.now, 1, q, k);
      } else {
        var r := Survivors(q, z.buckets, p, a.now, 0);
        SurvivorsRule(q, z.buckets, p, a.now, 0, r);
        NotLeft(z, p, a, k);
        GoneIsStale(q, z.buckets, p, a.now, 0, r, k);
      }
    }
  }

  lemma NotLeft(z: State, p: Policy, a: Arrival, k: Key)
    requires Proper(z) && k in z.buckets && k != a.key && k !in Next(z, p, a).0.buckets
    ensures a.key !in z.buckets && k !in MakeRoom(z, p, a)
  {
  }

  lemma GoneIsStale(q: seq<Key>, m: map<Key, Bucket>, p: Policy, now: nat, n: nat, r: seq<Key>, k: Key)
    requires n <= 3 && (forall x :: x in q ==> x in m) && ExpiryRule(q, m, p, now, n, r) && k in q && k !in r
    ensures Stale(m[k], p, now) || (n == 0 && k == q[|q| - 1])
  {
    var i :| 0 <= i < |q| && q[i] == k;
    assert i >= |r|;
    assert Goes(q[..i + 1], m, p, now, n == 0 && i + 1 == |q|);
  }

  // ---------- a run of the zone

  /** The zone after a run of requests, each under the policy of its key, and how many for key k were admitted. */
  ghost function Run(z: State, policy: Key -> Policy, arrivals: seq<Arrival>, k: Key): (r: (State, nat))
    requires Proper(z)
    ensures Proper(r.0)
    decreases |arrivals|
  {
    if arrivals == [] then (z, 0)
    else
      var a := arrivals[|arrivals| - 1];
      var before := Run(z, policy, arrivals[..|arrivals| - 1], k);
      NextProper(before.0, policy(a.key), a);
      var (t, admitted) := Next(before.0, policy(a.key), a);
      (t, before.1 + if a.key == k && admitted then 1 else 0)
  }

  /** The bucket of key k is there all along. */
  ghost predicate Stays(z: State, policy: Key -> Policy, arrivals: seq<Arrival>, k: Key)
    requires Proper(z)
    decreases |arrivals|
  {
    && k in Run(z, policy, arrivals, k).0.buckets
    && (arrivals != [] ==> Stays(z, policy, arrivals[..|arrivals| - 1], k))
  }

  /** When the requests for key k come. */
  function TimesOf(arrivals: seq<Arrival>, k: Key): (r: seq<nat>)
    decreases |arrivals|
  {
    if arrivals == [] then []
    else
      var a := arrivals[|arrivals| - 1];
      TimesOf(arrivals[..|arrivals| - 1], k) + if a.key == k then [a.now] else []
  }

  /** Interleaved with whatever other keys, a key whose bucket stays is served as if it were alone. */
  lemma {:induction false} ServedAlone(z: State, policy: Key -> Policy, arrivals: seq<Arrival>, k: Key)
    requires Proper(z) && Stays(z, policy, arrivals, k)
    ensures k in z.buckets && k in Run(z, policy, arrivals, k).0.buckets
    ensures var (t, n) := Run(z, policy, arrivals, k);
      Serve(z.buckets[k], policy(k), TimesOf(arrivals, k)) == (t.buckets[k], n)
    decreases |arrivals|
  {
    hide Next, Request, Proper;
    if arrivals != [] {
      var init, a := arrivals[..|arrivals| - 1], arrivals[|arrivals| - 1];
      ServedAlone(z, policy, init, k);
      var s := Run(z, policy, init, k).0;
      if a.key == k {
        OwnRequest(s, policy(k), a);
        assert (TimesOf(init, k) + [a.now])[..|TimesOf(init, k)|] == TimesOf(init, k);
      } else {
        OthersKept(s, policy(a.key), a, k);
        assert TimesOf(arrivals, k) == TimesOf(init, k);
      }
    }
  }

  lemma OwnRequest(s: State, p: Policy, a: Arrival)
    requires Proper(s) && a.key in s.buckets
    ensures var (t, admitted) := Next(s, p, a);
      a.key in t.buckets && (t.buckets[a.key], admitted) == Request(s.buckets[a.key], p, a.now)
  {
  }

  /** The rate bound over a run of the whole zone: 1000 n <= burst - excess + rate * t / 1000 for a key that stays. */
  lemma ZoneRateBound(z: State, policy: Key -> Policy, arrivals: seq<Arrival>, k: Key)
    requires Proper(z) && Stays(z, policy, arrivals, k) && k in z.buckets && z.buckets[k].excess <= policy(k).burst
    requires TimesOf(arrivals, k) != [] && Ordered(z.buckets[k].last, TimesOf(arrivals, k))
    ensures var times, b := TimesOf(arrivals, k), z.buckets[k];
      1000 * Run(z, policy, arrivals, k).1 <=
        policy(k).burst - b.excess + policy(k).rate * (times[|times| - 1] - b.last) / 1000
  {
    hide Run, Serve, TimesOf, Ordered, Stays, Proper;
    ServedAlone(z, policy, arrivals, k);
    var p, b, times := policy(k), z.buckets[k], TimesOf(arrivals, k);
    RateBound(b, p, times);
  }

  // ---------- the zone as it runs

  /** Over a run of the whole zone: a key that stays and keeps to its rate is never refused. */
  lemma ZoneNeverRefuses(z: State, policy: Key -> Policy, arrivals: seq<Arrival>, k: Key)
    requires Proper(z) && Stays(z, policy, arrivals, k) && k in z.buckets && z.buckets[k].excess <= policy(k).burst
    requires Spaced(policy(k), z.buckets[k].last, TimesOf(arrivals, k))
    ensures Run(z, policy, arrivals, k).1 == |TimesOf(arrivals, k)|
  {
    ServedAlone(z, policy, arrivals, k);
    SpacedAdmitted(z.buckets[k], policy(k), TimesOf(arrivals, k));
  }

  /** A bucket goes by itself only a minute after its last use, and only when all of its excess has leaked out. */
  lemma StaleIsDrained(b: Bucket, p: Policy, now: nat)
    ensures var away := if now < b.last then b.last - now else now - b.last;
      Stale(b, p, now) <==> away >= 60 * 1000 && 1000 * b.excess <= p.rate * away
  {
  }

  /** A key with a bucket is the most recently used one afterwards, and so is a new one, which starts empty. */
  lemma UsedMostRecently(z: State, p: Policy, a: Arrival)
    requires Proper(z)
    ensures var (t, admitted) := Next(z, p, a);
      && (a.key in t.buckets <==> a.key in z.buckets || a.room || a.roomAfter)
      && (a.key in t.buckets ==> t.queue != [] && t.queue[0] == a.key)
      && (a.key !in z.buckets ==> (admitted <==> a.room || a.roomAfter))
      && (a.key !in z.buckets && admitted ==> t.buckets[a.key] == Bucket(0, a.now))
      && (a.key in z.buckets ==>
           exists i :: 0 <= i < |z.queue| && z.queue[i] == a.key && t.queue[1..] == z.queue[..i] + z.queue[i + 1..])
  {
    if a.key in z.buckets {
      var i :| 0 <= i < |z.queue| && z.queue[i] == a.key;
      WithoutAt(z.queue, a.key, i);
    }
  }

  lemma EntireQueue(m: map<Key, Bucket>, q: seq<Key>)
    requires SameKeys(q, m.Keys)
    ensures Restrict(m, q) == m
  {
  }

  lemma SurvivorsStep(q: seq<Key>, m: map<Key, Bucket>, p: Policy, now: nat, n: nat)
    requires n < 3 && forall k :: k in q ==> k in m
    ensures q == [] ==> Survivors(q, m, p, now, n) == q
    ensures q != [] ==>
      Survivors(q, m, p, now, n) ==
        if n > 0 && !Stale(m[q[|q| - 1]], p, now) then q else Survivors(q[..|q| - 1], m, p, now, n + 1)
  {
  }

  lemma SurvivorsEnd(q: seq<Key>, m: map<Key, Bucket>, p: Policy, now: nat)
    requires forall k :: k in q ==> k in m
    ensures Survivors(q, m, p, now, 3) == q
  {
  }

  // The last entry of the queue leaves it.
  lemma DropLast(m: map<Key, Bucket>, q: seq<Key>)
    requires q != [] && NoDup(q) && forall k :: k in q ==> k in m
    ensures var rest, key := q[..|q| - 1], q[|q| - 1];
      && key in Restrict(m, q) && Restrict(m, q)[key] == m[key]
      && Restrict(m, q) - {key} == Restrict(m, rest)
      && NoDup(rest) && SameKeys(rest, (Restrict(m, q) - {key}).Keys)
  {
    var rest, key := q[..|q| - 1], q[|q| - 1];
    assert q == rest + [key];
    assert key !in rest;
  }

  class Zone {
    const policy: Key -> Policy   // every key has one rate and burst
    var tree: Tree
    var queue: seq<Key>           // most recently used first
    var buckets: map<Key, Bucket>

    ghost function View(): State
      reads this
    {
      State(queue, buckets)
    }

    ghost predicate Bounded()
      reads this
    {
      forall k :: k in buckets ==> buckets[k].excess <= policy(k).burst
    }

    ghost predicate Indexed()
      reads this
    {
      Search(tree) && Members(tree) == buckets.Keys
    }

    ghost predicate Valid()
      reads this
    {
      Indexed() && Proper(View()) && Bounded()
    }

    constructor (policy: Key -> Policy)
      ensures Valid() && queue == [] && this.policy == policy
    {
      this.policy, tree, queue, buckets := policy, Sentinel, [], map[];
    }

    /** ngx_http_ctrl_limit_req_expire: drops from the queue's end; with n == 0 the oldest goes whatever it holds. */
    method Expire(p: Policy, now: nat, n: nat)
      requires Valid() && n < 2
      modifies this
      ensures Valid() && forall k :: k in old(queue) ==> k in old(buckets)
      ensures queue == Survivors(old(queue), old(buckets), p, now, n) && buckets == Restrict(old(buckets), queue)
    {
      hide Stale, Search, Restrict, NoDup, Survivors, Indexed, Bounded;
      var i := n;
      ghost var was := buckets;
      EntireQueue(was, queue);
      while i < 3
        invariant n <= i <= 3 && Valid() && queue <= old(queue) && buckets == Restrict(was, queue)
        invariant Survivors(old(queue), was, p, now, n) == Survivors(queue, was, p, now, i)
      {
        SurvivorsStep(queue, was, p, now, i);
        if queue == [] {
          return;
        }
        DropLast(was, queue);
        var key := queue[|queue| - 1];
        i := i + 1;
        if i != 1 && !Stale(buckets[key], p, now) {
          return;
        }
        Drop(key);
      }
      SurvivorsEnd(queue, was, p, now);
    }

    method Drop(key: Key)
      requires Valid() && queue != [] && key == queue[|queue| - 1]
      modifies this
      ensures Valid() && queue == old(queue)[..|old(queue)| - 1] && buckets == old(buckets) - {key}
    {
      hide Search, NoDup, Members;
      EntireQueue(buckets, queue);
      DropLast(buckets, queue);
      tree := Remove(tree, key);
      queue := queue[..|queue| - 1];
      buckets := buckets - {key};
    }

    /** ngx_http_ctrl_limit_req_lookup: admitted, or refused as busy, or no memory for a new bucket. */
    method Lookup(key: Key, now: nat, room: bool, roomAfter: bool) returns (admitted: bool, excess: nat)
      requires Valid()
      modifies this
      ensures Valid() && forall k :: k in old(queue) ==> k in old(buckets)
      ensures (View(), admitted) == Next(old(View()), policy(key), Arrival(key, now, room, roomAfter))
      ensures excess == if key in old(buckets) then Excess(old(buckets[key]), policy(key), now) else 0
    {
      hide Search, NoDup;
      var found := Find(tree, key);
      if found {
        admitted, excess := Touch(key, now);
      } else {
        excess := 0;
        admitted := Create(key, now, room, roomAfter);
      }
    }

    // A request that finds its bucket.
    method Touch(key: Key, now: nat) returns (admitted: bool, excess: nat)
      requires Valid() && key in buckets
      modifies this
      ensures Valid() && queue == [key] + Without(old(queue), key)
      ensures excess == Excess(old(buckets[key]), policy(key), now)
      ensures var (b, ok) := Request(old(buckets[key]), policy(key), now);
        admitted == ok && buckets == old(buckets)[key := b]
    {
      hide Search, NoDup, Members, Excess, Elapsed;
      UsedFirst(queue, buckets.Keys, key);
      queue := [key] + Without(queue, key);
      var b := buckets[key];
      excess := Excess(b, policy(key), now);
      admitted := excess <= policy(key).burst;
      if admitted {
        buckets := buckets[key := Bucket(excess, if Elapsed(now, b.last) != 0 then now else b.last)];
      }
    }

    static lemma UsedFirst(q: seq<Key>, keys: set<Key>, key: Key)
      requires NoDup(q) && SameKeys(q, keys) && key in keys
      ensures NoDup([key] + Without(q, key)) && SameKeys([key] + Without(q, key), keys)
    {
      WithoutFacts(q, key);
      PushFront(Without(q, key), key);
    }

    // A first request.
    method Create(key: Key, now: nat, room: bool, roomAfter: bool) returns (admitted: bool)
      requires Valid() && key !in buckets
      modifies this
      ensures Valid() && forall k :: k in old(queue) ==> k in old(buckets)
      ensures (View(), admitted) == Next(old(View()), policy(key), Arrival(key, now, room, roomAfter))
    {
      hide Search, NoDup, Restrict, Survivors, Bounded;
      ghost var was := View();
      Expire(policy(key), now, 1);
      if !room {
        ghost var q := queue;
        Expire(policy(key), now, 0);
        RestrictTwice(was.buckets, q, queue, policy(key), now);
        if !roomAfter {
          return false;
        }
      }
      NotInRestriction(was.buckets, queue, key);
      Push(key, Bucket(0, now));
      admitted := true;
    }

    static lemma RestrictTwice(m: map<Key, Bucket>, q: seq<Key>, r: seq<Key>, p: Policy, now: nat)
      requires (forall k :: k in q ==> k in m) && forall k :: k in r ==> k in q
      ensures Restrict(Restrict(m, q), r) == Restrict(m, r)
      ensures Survivors(q, Restrict(m, q), p, now, 0) == Survivors(q, m, p, now, 0)
    {
    }

    static lemma NotInRestriction(m: map<Key, Bucket>, q: seq<Key>, key: Key)
      requires key !in m
      ensures key !in Restrict(m, q)
    {
    }

    method Push(key: Key, b: Bucket)
      requires Valid() && key !in buckets && b.excess <= policy(key).burst
      modifies this
      ensures Valid() && queue == [key] + old(queue) && buckets == old(buckets)[key := b]
    {
      hide Search, NoDup, Members;
      assert key !in queue;
      PushFront(queue, key);
      tree := InsertValue(tree, key);
      queue := [key] + queue;
      buckets := buckets[key := b];
    }
  }
}
