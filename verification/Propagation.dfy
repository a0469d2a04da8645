/**
 * Configuration propagation between workers: src/ngx_http_ctrl_conf.c:197-279, 371-677 and src/ngx_http_conf.c:333-390.
 * Each handler is one atomic step of its worker; taking a message is two steps, because the lock is released before the
 * configuration is applied, and so is a change, because its body is read after the guard has let it in.  A
 * configuration is identified by its JSON text, here a number.
 */
module Propagation {
  import opened Bytes

  type Json = int

  /** Between handlers; between apply and notify; between copying the shared JSON and applying it. */
  datatype Phase = Idle | Applied(json: Json) | Copied(json: Json)

  /** A message from one worker to another. */
  datatype Link = Link(from: nat, to: nat)

  /**
   * counter and json are shared; pending holds the unsent message of each connection and its buffer; refs is file_pos
   * of each live buffer; unread counts the messages in each worker's socket, admitted the changes each worker has let
   * in and not yet handled.  stored, lost, leaked and missed are history: the last JSON stored, how many unsent
   * messages were overwritten, references never dropped, workers a send failed for.
   */
  datatype State = State(
    n: nat, counter: int, json: Option<Json>, pending: map<Link, nat>, refs: map<nat, int>, nextBuffer: nat,
    unread: seq<nat>, phase: seq<Phase>, conf: seq<Json>, admitted: seq<nat>,
    stored: Json, lost: nat, leaked: multiset<nat>, missed: set<nat>)

  // ---------- steps

  datatype Sent = Delivered | Again | Failed

  /** Accept and Abandon: a change request passes the guard; it ends without changing anything. */
  datatype Step =
    | Accept(worker: nat)
    | Abandon(worker: nat)
    | Apply(worker: nat, json: Json)
    | Notify(worker: nat)
    | Write(link: Link, sent: Sent)
    | Copy(worker: nat)
    | Finish(worker: nat)

  predicate Shaped(s: State) {
    |s.unread| == s.n && |s.phase| == s.n && |s.conf| == s.n && |s.admitted| == s.n
  }

  predicate Enabled(s: State, step: Step)
    requires Shaped(s)
  {
    match step
    case Accept(i) => i < s.n && s.phase[i].Idle? && s.counter <= 0
    case Abandon(i) => i < s.n && s.phase[i].Idle? && s.admitted[i] > 0
    case Apply(i, _) => i < s.n && s.phase[i].Idle? && s.admitted[i] > 0
    case Notify(i) => i < s.n && s.phase[i].Applied?
    case Write(l, _) => l in s.pending && l.from < s.n && l.to < s.n && s.phase[l.from].Idle? && s.pending[l] in s.refs
    case Copy(k) => k < s.n && s.unread[k] > 0 && s.phase[k].Idle? && s.json.Some?
    case Finish(k) => k < s.n && s.phase[k].Copied?
  }

  // ngx_http_ctrl_conf_locked_release
  function Release(s: State): State {
    s.(counter := s.counter - 1, json := if s.counter == 1 then None else s.json)
  }

  // The body of the notify loop for one connection.
  function PostOne(s: State, i: nat, k: nat, b: nat): State
    requires b in s.refs
  {
    var l := Link(i, k);
    var over := l in s.pending;
    s.(pending := s.pending[l := b], refs := s.refs[b := s.refs[b] + 1], counter := s.counter + 1,
       lost := if over then s.lost + 1 else s.lost,
       leaked := if over then s.leaked + multiset{s.pending[l]} else s.leaked)
  }

  function PostAll(s: State, i: nat, b: nat, k: nat): (t: State)
    requires b in s.refs
    ensures b in t.refs && t.n == s.n && t.phase == s.phase && t.conf == s.conf && t.unread == s.unread
    ensures t.admitted == s.admitted
    ensures t.stored == s.stored && t.missed == s.missed && t.json == s.json && t.nextBuffer == s.nextBuffer
  {
    if k == 0 then s
    else
      var t := PostAll(s, i, b, k - 1);
      if k - 1 == i then t else PostOne(t, i, k - 1, b)
  }

  // Storing the JSON under the lock, before the loop.
  function Store(s: State, i: nat): State
    requires Shaped(s) && i < s.n && s.phase[i].Applied?
  {
    var j := s.phase[i].json;
    s.(json := Some(j), stored := j, refs := s.refs[s.nextBuffer := 0], nextBuffer := s.nextBuffer + 1,
       phase := s.phase[i := Idle], missed := s.missed - {i})
  }

  // A message has been handed to the socket.
  function Hand(s: State, l: Link): State
    requires Shaped(s) && l in s.pending && l.to < s.n && s.pending[l] in s.refs
  {
    var b := s.pending[l];
    s.(pending := s.pending - {l}, unread := s.unread[l.to := s.unread[l.to] + 1],
       refs := if s.refs[b] == 1 then s.refs - {b} else s.refs[b := s.refs[b] - 1])
  }

  // A send has failed: the connection forgets its message, the chain and the buffer's reference are never released.
  function Unsend(s: State, l: Link): State
    requires l in s.pending
  {
    s.(pending := s.pending - {l}, leaked := s.leaked + multiset{s.pending[l]}, missed := s.missed + {l.to})
  }

  function Next(s: State, step: Step): State
    requires Shaped(s) && Enabled(s, step)
  {
    match step
    case Accept(i) => s.(admitted := s.admitted[i := s.admitted[i] + 1])
    case Abandon(i) => s.(admitted := s.admitted[i := s.admitted[i] - 1])
    case Apply(i, j) =>
      s.(conf := s.conf[i := j], phase := s.phase[i := Applied(j)], admitted := s.admitted[i := s.admitted[i] - 1])
    case Notify(i) => PostAll(Store(s, i), i, s.nextBuffer, s.n)
    case Write(l, sent) =>
      (match sent
       case Again => s
       case Delivered => Hand(s, l)
       case Failed => Release(Unsend(s, l)))
    case Copy(k) =>
      Release(s.(unread := s.unread[k := s.unread[k] - 1], phase := s.phase[k := Copied(s.json.value)],
                 missed := s.missed - {k}))
    case Finish(k) => s.(conf := s.conf[k := s.phase[k].json], phase := s.phase[k := Idle])
  }

  // ---------- the invariant

  function Sum(u: seq<nat>): nat {
    if u == [] then 0 else u[0] + Sum(u[1..])
  }

  lemma {:induction false} SumUpdate(u: seq<nat>, k: nat, x: nat)
    requires k < |u|
    ensures Sum(u[k := x]) + u[k] == Sum(u) + x
  {
    if k == 0 {
      assert u[0 := x][1..] == u[1..];
    } else {
      assert u[k := x][1..] == u[1..][k - 1 := x];
      SumUpdate(u[1..], k - 1, x);
    }
  }

  // The messages that use buffer b.
  ghost function Users(p: map<Link, nat>, b: nat): set<Link> {
    set l | l in p && p[l] == b
  }

  ghost predicate LinksOk(s: State) {
    forall l :: l in s.pending ==> l.from < s.n && l.to < s.n && l.from != l.to
  }

  /** The counter is exactly the messages on their way, plus those that were overwritten. */
  ghost predicate CounterOk(s: State) {
    s.counter == |s.pending| + Sum(s.unread) + s.lost
  }

  /** file_pos of a live buffer counts its unsent messages and its leaks; unsent messages use live buffers only. */
  ghost predicate RefsOk(s: State) {
    && (forall l :: l in s.pending ==> s.pending[l] in s.refs)
    && (forall b :: b in s.refs ==> s.refs[b] == |Users(s.pending, b)| + s.leaked[b] && b < s.nextBuffer)
    && (forall b :: b in s.leaked ==> b in s.refs)
  }

  /** The shared JSON is the last one stored for as long as messages are counted. */
  ghost predicate JsonOk(s: State) {
    s.counter > 0 ==> s.json == Some(s.stored)
  }

  ghost predicate Coming(s: State, k: nat) {
    exists i: nat :: i < s.n && Link(i, k) in s.pending
  }

  /** A worker for which nothing is on its way is up to date, or about to be. */
  ghost predicate WorkerOk(s: State, k: nat)
    requires Shaped(s) && k < s.n
  {
    !Coming(s, k) && s.unread[k] == 0 && k !in s.missed ==>
      match s.phase[k]
      case Idle => s.conf[k] == s.stored
      case Copied(j) => j == s.stored
      case Applied(_) => true
  }

  ghost predicate Inv(s: State) {
    && Shaped(s) && LinksOk(s) && CounterOk(s) && RefsOk(s) && JsonOk(s)
    && (forall k :: 0 <= k < s.n ==> WorkerOk(s, k))
    && (forall i :: 0 <= i < s.n && s.phase[i].Applied? ==> s.conf[i] == s.phase[i].json)
  }

  /** All workers start with the stored configuration and nothing on its way. */
  function Init(n: nat, j: Json): State {
    State(n, 0, None, map[], map[], 0, seq(n, i => 0), seq(n, i => Idle), seq(n, i => j), seq(n, i => 0), j, 0,
          multiset{}, {})
  }

  lemma {:induction false} ZeroSum(n: nat)
    ensures Sum(seq(n, i => 0)) == 0
  {
    if n > 0 {
      assert seq(n, i => 0)[1..] == seq(n - 1, i => 0);
      ZeroSum(n - 1);
    }
  }

  lemma InitInv(n: nat, j: Json)
    ensures Inv(Init(n, j))
  {
    ZeroSum(n);
  }

  // ---------- every step keeps it

  lemma UsersAdd(p: map<Link, nat>, l: Link, b: nat, c: nat)
    requires l !in p
    ensures |Users(p[l := b], c)| == |Users(p, c)| + (if b == c then 1 else 0) && |p[l := b]| == |p| + 1
  {
    assert Users(p[l := b], c) == if b == c then Users(p, c) + {l} else Users(p, c);
    assert p[l := b].Keys == p.Keys + {l};
  }

  lemma UsersDrop(p: map<Link, nat>, l: Link, c: nat)
    requires l in p
    ensures |Users(p - {l}, c)| == |Users(p, c)| - (if p[l] == c then 1 else 0) && |p - {l}| == |p| - 1
  {
    assert (p - {l})[l := p[l]] == p;
    UsersAdd(p - {l}, l, p[l], c);
  }

  lemma UsersPost(p: map<Link, nat>, l: Link, b: nat, c: nat)
    ensures |Users(p[l := b], c)| == |Users(p, c)| - (if l in p && p[l] == c then 1 else 0) + (if b == c then 1 else 0)
    ensures |p[l := b]| == |p| + (if l in p then 0 else 1)
  {
    if l in p {
      UsersDrop(p, l, c);
      assert (p - {l})[l := b] == p[l := b];
      UsersAdd(p - {l}, l, b, c);
    } else {
      UsersAdd(p, l, b, c);
    }
  }

  ghost predicate Core(s: State) {
    Shaped(s) && LinksOk(s) && CounterOk(s) && RefsOk(s)
  }

  lemma PostOneCore(s: State, i: nat, k: nat, b: nat)
    requires Core(s) && i < s.n && k < s.n && i != k && b in s.refs
    requires !(Link(i, k) in s.pending && s.pending[Link(i, k)] == b)
    ensures Core(PostOne(s, i, k, b))
  {
    hide RefsOk, CounterOk;
    PostOneRefs(s, i, k, b);
    PostOneCount(s, i, k, b);
  }

  lemma PostOneCount(s: State, i: nat, k: nat, b: nat)
    requires CounterOk(s) && b in s.refs
    ensures CounterOk(PostOne(s, i, k, b))
  {
    hide Users, Sum;
    UsersPost(s.pending, Link(i, k), b, b);
  }

  lemma PostOneRefs(s: State, i: nat, k: nat, b: nat)
    requires RefsOk(s) && b in s.refs && !(Link(i, k) in s.pending && s.pending[Link(i, k)] == b)
    ensures RefsOk(PostOne(s, i, k, b))
  {
    var l := Link(i, k);
    var t := PostOne(s, i, k, b);
    hide Users;
    forall c | c in t.refs
      ensures t.refs[c] == |Users(t.pending, c)| + t.leaked[c] && c < t.nextBuffer
    {
      UsersPost(s.pending, l, b, c);
    }
  }

  // What the loop has posted after k connections: buffer b to every other worker below k, nothing else touched.
  ghost predicate Posted(s: State, i: nat, b: nat, k: nat, t: State) {
    && (forall m: nat :: m < k && m != i ==> Link(i, m) in t.pending)
    && (forall l :: l in s.pending ==> l in t.pending)
    && (forall l :: l in t.pending && t.pending[l] == b ==> l.from == i && l.to < k)
    && t.counter >= s.counter && t.lost >= s.lost
  }

  lemma {:induction false} PostAllLinks(s: State, i: nat, b: nat, k: nat)
    requires b in s.refs && forall l :: l in s.pending ==> s.pending[l] != b
    ensures Posted(s, i, b, k, PostAll(s, i, b, k))
  {
    hide Posted, PostOne;
    if k == 0 {
      PostedNone(s, i, b);
    } else {
      PostAllLinks(s, i, b, k - 1);
      PostOneLinks(s, i, b, k - 1, PostAll(s, i, b, k - 1));
    }
  }

  lemma PostedNone(s: State, i: nat, b: nat)
    requires forall l :: l in s.pending ==> s.pending[l] != b
    ensures Posted(s, i, b, 0, s)
  {
  }

  lemma PostOneLinks(s: State, i: nat, b: nat, k: nat, t: State)
    requires b in t.refs && Posted(s, i, b, k, t)
    ensures Posted(s, i, b, k + 1, if k == i then t else PostOne(t, i, k, b))
  {
  }

  lemma {:induction false} PostAllCore(s: State, i: nat, b: nat, k: nat)
    requires Core(s) && i < s.n && k <= s.n && b in s.refs && forall l :: l in s.pending ==> s.pending[l] != b
    ensures Core(PostAll(s, i, b, k))
  {
    hide Core, PostOne;
    if k > 0 {
      PostAllCore(s, i, b, k - 1);
      PostAllLinks(s, i, b, k - 1);
      if k - 1 != i {
        PostOneCore(PostAll(s, i, b, k - 1), i, k - 1, b);
      }
    }
  }

  lemma StoreCore(s: State, i: nat)
    requires Inv(s) && i < s.n && s.phase[i].Applied?
    ensures Core(Store(s, i)) && forall l :: l in s.pending ==> s.pending[l] != s.nextBuffer
  {
    var t := Store(s, i);
    assert Users(t.pending, s.nextBuffer) == {};
    assert s.leaked[s.nextBuffer] == 0;
    forall b | b in t.refs
      ensures t.refs[b] == |Users(t.pending, b)| + t.leaked[b] && b < t.nextBuffer
    {
    }
  }

  lemma NotifyInv(s: State, i: nat)
    requires Inv(s) && Enabled(s, Notify(i))
    ensures Inv(Next(s, Notify(i)))
  {
    hide Core, LinksOk, CounterOk, RefsOk, WorkerOk, Coming, Users, Sum;
    var a := Store(s, i);
    StoreCore(s, i);
    PostAllCore(a, i, s.nextBuffer, s.n);
    PostAllLinks(a, i, s.nextBuffer, s.n);
    CoreParts(PostAll(a, i, s.nextBuffer, s.n));
    NotifiedWorkers(s, i, PostAll(a, i, s.nextBuffer, s.n));
  }

  lemma CoreParts(s: State)
    ensures Core(s) <==> Shaped(s) && LinksOk(s) && CounterOk(s) && RefsOk(s)
  {
  }

  // Whoever does not hold the new configuration has a message coming.
  lemma NotifiedWorkers(s: State, i: nat, t: State)
    requires Shaped(s) && Shaped(t) && i < s.n && t.n == s.n && s.phase[i].Applied? && s.conf[i] == s.phase[i].json
    requires Posted(Store(s, i), i, s.nextBuffer, s.n, t)
    requires t.conf == s.conf && t.phase == s.phase[i := Idle] && t.stored == s.phase[i].json
    ensures forall k :: 0 <= k < s.n ==> WorkerOk(t, k)
  {
    forall k | 0 <= k < s.n
      ensures WorkerOk(t, k)
    {
      if k != i {
        assert Link(i, k) in t.pending;
      }
    }
  }

  // The messages on their way, seen from a worker that is not the receiver of link l.
  lemma StillComing(s: State, l: Link, k: nat)
    requires Coming(s, k) && k != l.to
    ensures Coming(s.(pending := s.pending - {l}), k)
  {
    var i: nat :| i < s.n && Link(i, k) in s.pending;
    assert Link(i, k) in s.pending - {l};
  }

  lemma WriteInv(s: State, l: Link, sent: Sent)
    requires Inv(s) && Enabled(s, Write(l, sent))
    ensures Inv(Next(s, Write(l, sent)))
  {
    match sent
    case Again =>
    case Delivered => DeliveredInv(s, l);
    case Failed => FailedInv(s, l);
  }

  lemma DeliveredInv(s: State, l: Link)
    requires Inv(s) && Enabled(s, Write(l, Delivered))
    ensures Inv(Hand(s, l))
  {
    hide WorkerOk, Coming, Users, Sum;
    UsersDrop(s.pending, l, 0);
    SumUpdate(s.unread, l.to, s.unread[l.to] + 1);
    HandRefs(s, l);
    hide RefsOk;
    WriteWorkers(s, l, Hand(s, l));
  }

  lemma FailedInv(s: State, l: Link)
    requires Inv(s) && Enabled(s, Write(l, Failed))
    ensures Inv(Next(s, Write(l, Failed)))
  {
    hide WorkerOk, Coming, Users, Sum;
    UsersDrop(s.pending, l, 0);
    FailRefs(s, l);
    hide RefsOk;
    WriteWorkers(s, l, Next(s, Write(l, Failed)));
  }

  lemma WriteWorkers(s: State, l: Link, t: State)
    requires Inv(s) && l in s.pending && Shaped(t) && t.n == s.n && t.pending == s.pending - {l}
    requires l.to < s.n && (t.unread[l.to] > 0 || l.to in t.missed)
    requires forall k :: 0 <= k < s.n && k != l.to ==> t.unread[k] == s.unread[k] && (k in t.missed <==> k in s.missed)
    requires t.phase == s.phase && t.conf == s.conf && t.stored == s.stored
    ensures forall k :: 0 <= k < s.n ==> WorkerOk(t, k)
  {
    forall k | 0 <= k < s.n
      ensures WorkerOk(t, k)
    {
      assert WorkerOk(s, k);
      if k != l.to && Coming(s, k) {
        StillComing(s, l, k);
        assert Coming(t, k);
      }
    }
  }

  lemma FailRefs(s: State, l: Link)
    requires Inv(s) && Enabled(s, Write(l, Failed))
    ensures RefsOk(Next(s, Write(l, Failed)))
  {
    DropAll(s.pending, l);
    hide Users;
    assert RefsOk(Next(s, Write(l, Failed)));
  }

  lemma DropAll(p: map<Link, nat>, l: Link)
    requires l in p
    ensures forall c :: |Users(p - {l}, c)| == |Users(p, c)| - if p[l] == c then 1 else 0
  {
    forall c
      ensures |Users(p - {l}, c)| == |Users(p, c)| - if p[l] == c then 1 else 0
    {
      UsersDrop(p, l, c);
    }
  }

  // The last reference of a buffer: nobody else uses it and none was leaked.
  lemma LastUser(s: State, l: Link)
    requires RefsOk(s) && l in s.pending && s.refs[s.pending[l]] == 1
    ensures s.leaked[s.pending[l]] == 0 && forall m :: m in s.pending - {l} ==> s.pending[m] != s.pending[l]
  {
    var b := s.pending[l];
    assert l in Users(s.pending, b);
    UsersDrop(s.pending, l, b);
    assert Users(s.pending - {l}, b) == {};
    assert forall m :: m in s.pending - {l} && s.pending[m] == b ==> m in Users(s.pending - {l}, b);
  }

  lemma HandRefs(s: State, l: Link)
    requires Shaped(s) && RefsOk(s) && l in s.pending && l.to < s.n
    ensures RefsOk(Hand(s, l))
  {
    hide Users;
    var b, t := s.pending[l], Hand(s, l);
    DropAll(s.pending, l);
    if s.refs[b] == 1 {
      LastUser(s, l);
      assert forall m :: m in t.pending ==> t.pending[m] in t.refs;
    }
  }

  lemma CopyInv(s: State, k: nat)
    requires Inv(s) && Enabled(s, Copy(k))
    ensures Inv(Next(s, Copy(k)))
  {
    hide RefsOk, LinksOk, WorkerOk, Coming, Sum;
    var t := Next(s, Copy(k));
    SumUpdate(s.unread, k, s.unread[k] - 1);
    SumAtLeast(s.unread, k);
    SameWorkers(s, t, k);
    CopiedWorker(t, k);
    SameLinks(s, t);
  }

  lemma CopiedWorker(s: State, k: nat)
    requires Shaped(s) && k < s.n && s.phase[k] == Copied(s.stored)
    ensures WorkerOk(s, k)
  {
  }

  lemma SameLinks(s: State, t: State)
    requires RefsOk(s) && LinksOk(s) && t.pending == s.pending && t.refs == s.refs && t.leaked == s.leaked && t.n == s.n
    requires t.nextBuffer == s.nextBuffer
    ensures RefsOk(t) && LinksOk(t)
  {
    hide Users;
  }

  // A step of worker k that sends nothing.
  lemma SameWorkers(s: State, t: State, k: nat)
    requires Inv(s) && Shaped(t) && t.n == s.n && k < s.n && t.pending == s.pending && t.stored == s.stored
    requires forall m :: 0 <= m < s.n && m != k ==>
      t.unread[m] == s.unread[m] && t.phase[m] == s.phase[m] && t.conf[m] == s.conf[m]
        && (m in t.missed <==> m in s.missed)
    ensures forall m :: 0 <= m < s.n && m != k ==> WorkerOk(t, m)
    ensures Coming(t, k) <==> Coming(s, k)
  {
    forall m: nat | m < s.n
      ensures Coming(t, m) <==> Coming(s, m)
    {
      if i: nat :| i < s.n && Link(i, m) in s.pending {
        assert Link(i, m) in t.pending;
      }
    }
    forall m | 0 <= m < s.n && m != k
      ensures WorkerOk(t, m)
    {
      assert WorkerOk(s, m);
    }
  }

  lemma {:induction false} SumAtLeast(u: seq<nat>, k: nat)
    requires k < |u|
    ensures Sum(u) >= u[k]
  {
    if k > 0 {
      SumAtLeast(u[1..], k - 1);
    }
  }

  lemma LocalInv(s: State, step: Step)
    requires Inv(s) && Enabled(s, step) && !step.Notify? && !step.Write? && !step.Copy?
    ensures Inv(Next(s, step))
  {
    SameWorkers(s, Next(s, step), step.worker);
    assert WorkerOk(s, step.worker);
  }

  lemma StepInv(s: State, step: Step)
    requires Inv(s) && Enabled(s, step)
    ensures Inv(Next(s, step)) && Next(s, step).lost >= s.lost && Next(s, step).n == s.n
  {
    match step
    case Notify(i) =>
      NotifyInv(s, i);
      StoreCore(s, i);
      PostAllLinks(Store(s, i), i, s.nextBuffer, s.n);
    case Write(l, sent) => WriteInv(s, l, sent);
    case Copy(k) => CopyInv(s, k);
    case _ => LocalInv(s, step);
  }

  // ---------- runs

  /** The state after a run, or None if some step is not enabled where it stands. */
  ghost function Exec(s: State, run: seq<Step>): Option<State>
    decreases |run|
  {
    if run == [] then Some(s)
    else if Shaped(s) && Enabled(s, run[0]) then Exec(Next(s, run[0]), run[1..])
    else None
  }

  lemma {:induction false} RunInv(s: State, run: seq<Step>)
    requires Inv(s) && Exec(s, run).Some?
    ensures Inv(Exec(s, run).value) && Exec(s, run).value.lost >= s.lost && Exec(s, run).value.n == s.n
    decreases |run|
  {
    if run != [] {
      StepInv(s, run[0]);
      RunInv(Next(s, run[0]), run[1..]);
    }
  }

  /** After any interleaving: the counter is exact, and while it is positive the shared JSON is the last one stored. */
  lemma CounterIsExact(n: nat, j: Json, run: seq<Step>)
    requires Exec(Init(n, j), run).Some?
    ensures var t := Exec(Init(n, j), run).value;
      && t.counter == |t.pending| + Sum(t.unread) + t.lost
      && (t.counter > 0 ==> t.json == Some(t.stored))
      && (t.counter == |t.pending| + Sum(t.unread) <==> t.lost == 0)
  {
    InitInv(n, j);
    RunInv(Init(n, j), run);
  }

  /** When the counter is 0, every worker between handlers that no send has failed for holds the last stored JSON. */
  lemma Converges(n: nat, j: Json, run: seq<Step>, k: nat)
    requires Exec(Init(n, j), run).Some? && k < n
    ensures var t := Exec(Init(n, j), run).value;
      Shaped(t) && t.n == n && (t.counter == 0 && t.phase[k].Idle? && k !in t.missed ==> t.conf[k] == t.stored)
  {
    InitInv(n, j);
    RunInv(Init(n, j), run);
    var t := Exec(Init(n, j), run).value;
    SumAtLeast(t.unread, k);
    if t.counter == 0 {
      assert |t.pending| == 0;
      assert t.pending == map[];
      assert WorkerOk(t, k);
    }
  }

  /** No message uses a buffer that has been freed, and a buffer without leaks goes when its last message is sent. */
  lemma BuffersAreLive(n: nat, j: Json, run: seq<Step>, l: Link)
    requires Exec(Init(n, j), run).Some? && l in Exec(Init(n, j), run).value.pending
    ensures var t := Exec(Init(n, j), run).value;
      t.pending[l] in t.refs && t.refs[t.pending[l]] > 0
      && (t.refs[t.pending[l]] == 1 ==> Users(t.pending, t.pending[l]) == {l} && t.leaked[t.pending[l]] == 0)
  {
    InitInv(n, j);
    RunInv(Init(n, j), run);
    var t := Exec(Init(n, j), run).value;
    var b := t.pending[l];
    assert l in Users(t.pending, b);
    if t.refs[b] == 1 {
      assert |Users(t.pending, b)| == 1;
      assert |Users(t.pending, b) - {l}| == 0;
    }
  }

  // ---------- who holds the last stored JSON

  /** Worker k hears of what is stored: it copies the shared JSON, or it stores its own. */
  predicate Hears(step: Step, k: nat) { step == Copy(k) || step == Notify(k) }

  /** Every notification by another worker is followed by one of the steps in which worker k hears of what is stored. */
  ghost predicate HeardOfAll(run: seq<Step>, k: nat) {
    forall i :: 0 <= i < |run| && run[i].Notify? && run[i].worker != k ==>
      exists m :: i < m < |run| && Hears(run[m], k)
  }

  /** No change brings a JSON text that was there before. */
  ghost predicate NewTexts(run: seq<Step>, j: Json) {
    && (forall i :: 0 <= i < |run| && run[i].Apply? ==> run[i].json != j)
    && (forall i, m :: 0 <= i < m < |run| && run[i].Apply? && run[m].Apply? ==> run[i].json != run[m].json)
  }

  function Texts(run: seq<Step>, j: Json): set<Json> {
    {j} + set i | 0 <= i < |run| && run[i].Apply? :: run[i].json
  }

  function NewText(step: Step): set<Json> { if step.Apply? then {step.json} else {} }

  lemma {:induction false} ExecLast(s: State, run: seq<Step>)
    requires run != [] && Exec(s, run).Some?
    ensures var init, last := run[..|run| - 1], run[|run| - 1];
      && Exec(s, init).Some? && Shaped(Exec(s, init).value) && Enabled(Exec(s, init).value, last)
      && Exec(s, run).value == Next(Exec(s, init).value, last)
    decreases |run|
  {
    hide Next, Enabled;
    if |run| == 1 {
      assert Exec(Next(s, run[0]), run[1..]) == Some(Next(s, run[0]));
    } else {
      var rest, init := run[1..], run[..|run| - 1];
      ExecLast(Next(s, run[0]), rest);
      assert rest[..|rest| - 1] == init[1..] && init[0] == run[0];
    }
  }

  lemma HeardLast(run: seq<Step>, k: nat)
    requires run != []
    ensures var init, last := run[..|run| - 1], run[|run| - 1];
      HeardOfAll(run, k) <==> Hears(last, k) || (HeardOfAll(init, k) && !last.Notify?)
  {
    var n := |run| - 1;
    var init, last := run[..n], run[n];
    if Hears(last, k) {
      assert run[n] == last;
    } else if last.Notify? {
      assert run[n].worker != k;
    } else {
      forall i, m | 0 <= i < m < |run| && Hears(run[m], k)
        ensures m < n && init[i] == run[i] && init[m] == run[m]
      {
      }
      if HeardOfAll(init, k) {
        forall i | 0 <= i < |run| && run[i].Notify? && run[i].worker != k
          ensures exists m :: i < m < |run| && Hears(run[m], k)
        {
          assert init[i].Notify?;
          var m :| i < m < n && Hears(init[m], k);
          assert Hears(run[m], k);
        }
      } else {
        var i :| 0 <= i < n && init[i].Notify? && init[i].worker != k && !exists m :: i < m < n && Hears(init[m], k);
        assert run[i].Notify?;
      }
    }
  }

  /** What worker k holds, or has copied and not yet applied, is what is stored. */
  ghost predicate Up(s: State, k: nat)
    requires Shaped(s) && k < s.n
  {
    match s.phase[k]
    case Idle => s.conf[k] == s.stored
    case Copied(j) => j == s.stored
    case Applied(_) => true
  }

  // What a step does to the configurations the workers hold or are about to hold.
  ghost predicate Moves(s: State, step: Step, t: State)
    requires Shaped(s) && Enabled(s, step)
  {
    && Shaped(t) && t.n == s.n
    && t.stored == (if step.Notify? then s.phase[step.worker].json else s.stored)
    && match step
       case Apply(i, j) => t.phase == s.phase[i := Applied(j)] && t.conf == s.conf[i := j]
       case Notify(i) => t.phase == s.phase[i := Idle] && t.conf == s.conf
       case Copy(k) => t.phase == s.phase[k := Copied(s.stored)] && t.conf == s.conf
       case Finish(k) => t.phase == s.phase[k := Idle] && t.conf == s.conf[k := s.phase[k].json]
       case _ => t.phase == s.phase && t.conf == s.conf
  }

  lemma StepMoves(s: State, step: Step)
    requires Inv(s) && Enabled(s, step)
    ensures Moves(s, step, Next(s, step))
    ensures forall i :: 0 <= i < s.n && s.phase[i].Applied? ==> s.conf[i] == s.phase[i].json
  {
    hide LinksOk, CounterOk, RefsOk, WorkerOk;
    if step.Copy? {
      Counted(s, step.worker);
    }
  }

  lemma UpStep(s: State, step: Step, k: nat)
    requires Inv(s) && Enabled(s, step) && k < s.n
    ensures var t := Next(s, step);
      Shaped(t) && t.n == s.n && (Hears(step, k) || (Up(s, k) && !step.Notify?) ==> Up(t, k))
  {
    StepMoves(s, step);
    hide Inv, Next;
  }

  // A message that is there is counted.
  lemma Counted(s: State, k: nat)
    requires Inv(s) && k < s.n && s.unread[k] > 0
    ensures s.counter > 0
  {
    SumAtLeast(s.unread, k);
  }

  // The texts worker i holds or is about to hold are among those used; one it is about to store is not the stored one.
  ghost predicate Uses(s: State, used: set<Json>, i: nat)
    requires Shaped(s) && i < s.n
  {
    && s.conf[i] in used && (s.phase[i].Idle? || s.phase[i].json in used)
    && (s.phase[i].Applied? ==> s.phase[i].json != s.stored)
  }

  // What worker i is about to store is nowhere in worker m.
  ghost predicate Alone(s: State, i: nat, m: nat)
    requires Shaped(s) && i < s.n && m < s.n
  {
    s.phase[i].Applied? ==> s.conf[m] != s.phase[i].json && (s.phase[m].Idle? || s.phase[m].json != s.phase[i].json)
  }

  /** A JSON that has been applied and not stored is nowhere but in its worker, and all are among the texts used. */
  ghost predicate Apart(s: State, used: set<Json>) {
    && Shaped(s) && s.stored in used && (forall i: nat :: i < s.n ==> Uses(s, used, i))
    && (forall i: nat, m: nat :: i < s.n && m < s.n && i != m ==> Alone(s, i, m))
  }

  lemma ApartStep(s: State, step: Step, used: set<Json>)
    requires Inv(s) && Enabled(s, step) && Apart(s, used) && (step.Apply? ==> step.json !in used)
    ensures Apart(Next(s, step), used + NewText(step))
  {
    hide LinksOk, CounterOk, RefsOk, JsonOk, WorkerOk, Next, Uses, Alone, Moves, NewText;
    StepMoves(s, step);
    MovesApart(s, step, Next(s, step), used);
  }

  lemma MovesApart(s: State, step: Step, t: State, used: set<Json>)
    requires Shaped(s) && Enabled(s, step) && Moves(s, step, t) && Apart(s, used)
    requires step.Apply? ==> step.json !in used
    ensures Apart(t, used + NewText(step))
  {
    hide Uses, Alone, NewText;
    if step.Notify? {
      assert Uses(s, used, step.worker);
      UsedText(s, used, step.worker);
    }
    forall i: nat | i < s.n
      ensures Uses(t, used + NewText(step), i)
    {
      assert Uses(s, used, i) && (step.Notify? && i != step.worker ==> Alone(s, i, step.worker));
      UsesStep(s, step, t, used, i);
    }
    forall i: nat, m: nat | i < s.n && m < s.n && i != m
      ensures Alone(t, i, m)
    {
      assert Alone(s, i, m) && Uses(s, used, i) && Uses(s, used, m);
      AloneStep(s, step, t, used, i, m);
    }
  }

  lemma UsedText(s: State, used: set<Json>, i: nat)
    requires Shaped(s) && i < s.n && Uses(s, used, i) && !s.phase[i].Idle?
    ensures s.phase[i].json in used
  {
  }

  lemma UsesStep(s: State, step: Step, t: State, used: set<Json>, i: nat)
    requires Shaped(s) && Enabled(s, step) && Moves(s, step, t) && i < s.n && Uses(s, used, i) && s.stored in used
    requires step.Apply? ==> step.json !in used
    requires step.Notify? && i != step.worker ==> Alone(s, i, step.worker)
    ensures Uses(t, used + NewText(step), i)
  {
  }

  lemma AloneStep(s: State, step: Step, t: State, used: set<Json>, i: nat, m: nat)
    requires Shaped(s) && Enabled(s, step) && Moves(s, step, t) && i < s.n && m < s.n && i != m
    requires Alone(s, i, m) && Uses(s, used, i) && Uses(s, used, m) && (step.Apply? ==> step.json !in used)
    ensures Alone(t, i, m)
  {
  }

  lemma BehindStep(s: State, step: Step, k: nat, used: set<Json>)
    requires Inv(s) && Enabled(s, step) && k < s.n && Apart(s, used) && !Hears(step, k)
    ensures var t := Next(s, step);
      && Shaped(t) && t.n == s.n
      && (!t.phase[k].Applied? && Up(t, k) ==> !step.Notify? && Up(s, k) && !s.phase[k].Applied?)
  {
    StepMoves(s, step);
    if step.Notify? && step.worker != k {
      assert Alone(s, step.worker, k);
    }
    hide Inv, Next;
  }

  lemma NewLast(run: seq<Step>, j: Json)
    requires run != []
    ensures var init, last := run[..|run| - 1], run[|run| - 1];
      && Texts(run, j) == Texts(init, j) + NewText(last)
      && (NewTexts(run, j) ==> NewTexts(init, j) && (last.Apply? ==> last.json !in Texts(init, j)))
  {
    var n := |run| - 1;
    var init := run[..n];
    assert forall i :: 0 <= i < n ==> init[i] == run[i];
    assert run == init + [run[n]];
    if run[n].Apply? {
      assert run[n].json in Texts(run, j);
    }
    forall x | x in Texts(init, j)
      ensures x in Texts(run, j)
    {
      if x != j {
        var i :| 0 <= i < n && init[i].Apply? && init[i].json == x;
        assert run[i].Apply? && run[i].json == x;
      }
    }
  }

  lemma {:induction false} HeardIsUp(n: nat, j: Json, run: seq<Step>, k: nat)
    requires Exec(Init(n, j), run).Some? && k < n
    ensures var t := Exec(Init(n, j), run).value;
      && Inv(t) && t.n == n && (HeardOfAll(run, k) ==> Up(t, k))
      && (NewTexts(run, j) ==> Apart(t, Texts(run, j)))
      && (NewTexts(run, j) && !t.phase[k].Applied? && Up(t, k) ==> HeardOfAll(run, k))
    decreases |run|
  {
    hide Next, Enabled, Inv, Up, Apart, HeardOfAll, NewTexts, Texts, Hears;
    if run == [] {
      StartsUp(n, j, k);
    } else {
      var init, last := run[..|run| - 1], run[|run| - 1];
      ExecLast(Init(n, j), run);
      HeardIsUp(n, j, init, k);
      var s := Exec(Init(n, j), init).value;
      StepInv(s, last);
      HeardLast(run, k);
      UpStep(s, last, k);
      NewLast(run, j);
      if NewTexts(run, j) {
        ApartStep(s, last, Texts(init, j));
        if !Hears(last, k) {
          BehindStep(s, last, k, Texts(init, j));
        }
      }
    }
  }

  lemma StartsUp(n: nat, j: Json, k: nat)
    requires k < n
    ensures Inv(Init(n, j)) && Up(Init(n, j), k) && Apart(Init(n, j), Texts([], j)) && HeardOfAll([], k)
  {
    InitInv(n, j);
  }

  /**
   * After any run, a worker between handlers holds the last stored JSON if it has heard of every notification by the
   * others since; and if no text is ever used twice, only then.
   */
  lemma HoldsTheStored(n: nat, j: Json, run: seq<Step>, k: nat)
    requires Exec(Init(n, j), run).Some? && k < n
    ensures var t := Exec(Init(n, j), run).value;
      Shaped(t) && t.n == n
      && (t.phase[k].Idle? && HeardOfAll(run, k) ==> t.conf[k] == t.stored)
      && (t.phase[k].Idle? && NewTexts(run, j) ==> (t.conf[k] == t.stored <==> HeardOfAll(run, k)))
  {
    hide Exec, HeardOfAll, NewTexts;
    HeardIsUp(n, j, run, k);
  }

  predicate NoneFails(run: seq<Step>) {
    forall i :: 0 <= i < |run| && run[i].Write? ==> !run[i].sent.Failed?
  }

  lemma {:induction false} NoneMissed(s: State, run: seq<Step>)
    requires Exec(s, run).Some? && s.missed == {} && NoneFails(run)
    ensures Exec(s, run).value.missed == {}
    decreases |run|
  {
    if run != [] {
      assert run[0].Write? ==> !run[0].sent.Failed?;
      NoneMissed(Next(s, run[0]), run[1..]);
    }
  }

  /** Where every send is delivered in the end, all idle workers hold the last stored JSON when the counter is 0. */
  lemma AllConverge(n: nat, j: Json, run: seq<Step>)
    requires Exec(Init(n, j), run).Some? && NoneFails(run)
    ensures var t := Exec(Init(n, j), run).value;
      && Shaped(t) && t.n == n && t.missed == {}
      && (t.counter == 0 ==> forall k :: 0 <= k < n && t.phase[k].Idle? ==> t.conf[k] == t.stored)
  {
    hide Exec;
    NoneMissed(Init(n, j), run);
    InitInv(n, j);
    RunInv(Init(n, j), run);
    var t := Exec(Init(n, j), run).value;
    forall k | 0 <= k < n && t.counter == 0 && t.phase[k].Idle?
      ensures t.conf[k] == t.stored
    {
      Converges(n, j, run, k);
    }
  }

  /** One failed send: the counter is 0 and nobody busy, but worker 1 has not heard of the new configuration. */
  lemma FailedSendMisses()
    ensures var run := [Accept(0), Apply(0, 1), Notify(0), Write(Link(0, 1), Failed)];
      && Exec(Init(2, 0), run).Some? && NewTexts(run, 0) && !HeardOfAll(run, 1)
      && var t := Exec(Init(2, 0), run).value;
         Shaped(t) && t.counter == 0 && t.phase == [Idle, Idle] && t.stored == 1 && t.conf == [1, 0]
  {
    hide Exec, Next, Enabled, Init, NewTexts, HeardOfAll;
    var run := [Accept(0), Apply(0, 1), Notify(0), Write(Link(0, 1), Failed)];
    NeverHeard();
    var s := OneApplied();
    OneMessage(s);
    SendFails(Next(s, Notify(0)));
    ExecThree(Next(Init(2, 0), Accept(0)), Apply(0, 1), Notify(0), Write(Link(0, 1), Failed));
    ExecFirst(Init(2, 0), Accept(0), run[1..]);
    assert [Accept(0)] + run[1..] == run;
  }

  lemma NeverHeard()
    ensures var run := [Accept(0), Apply(0, 1), Notify(0), Write(Link(0, 1), Failed)];
      NewTexts(run, 0) && !HeardOfAll(run, 1)
  {
    var run := [Accept(0), Apply(0, 1), Notify(0), Write(Link(0, 1), Failed)];
    assert run[2] == Notify(0);
  }

  // A change has been let in and applied.
  lemma OneApplied() returns (s: State)
    ensures Shaped(Init(2, 0)) && Enabled(Init(2, 0), Accept(0)) && Shaped(Next(Init(2, 0), Accept(0)))
    ensures Enabled(Next(Init(2, 0), Accept(0)), Apply(0, 1)) && s == Next(Next(Init(2, 0), Accept(0)), Apply(0, 1))
    ensures Shaped(s) && s.n == 2 && s.phase == [Applied(1), Idle] && s.conf == [1, 0]
    ensures s.pending == map[] && s.counter == 0
  {
    s := Next(Next(Init(2, 0), Accept(0)), Apply(0, 1));
  }

  lemma SendFails(s: State)
    requires Shaped(s) && s.n == 2 && s.phase == [Idle, Idle] && s.counter == 1
    requires Link(0, 1) in s.pending && s.pending[Link(0, 1)] in s.refs
    ensures var step := Write(Link(0, 1), Failed);
      && Enabled(s, step) && var t := Next(s, step);
         Shaped(t) && t.counter == 0 && t.phase == s.phase && t.stored == s.stored && t.conf == s.conf
  {
  }

  // With one other worker a notification posts one message.
  lemma OneMessage(s: State)
    requires Shaped(s) && s.n == 2 && s.phase == [Applied(1), Idle] && s.pending == map[] && s.counter == 0
    ensures Enabled(s, Notify(0))
    ensures var t := Next(s, Notify(0));
      && Shaped(t) && t.n == 2 && t.counter == 1
      && t.pending == map[Link(0, 1) := s.nextBuffer]
      && t.phase == [Idle, Idle] && t.conf == s.conf && t.stored == 1 && s.nextBuffer in t.refs
  {
    var a := Store(s, 0);
    assert PostAll(a, 0, s.nextBuffer, 1) == PostAll(a, 0, s.nextBuffer, 0) == a;
    assert PostAll(a, 0, s.nextBuffer, 2) == PostOne(a, 0, 1, s.nextBuffer);
  }

  // ---------- what is held in memory for the messages

  /** The shared JSON is there exactly while messages are counted, and no buffer is kept without a use. */
  ghost predicate HeldWhileUsed(s: State) {
    && (s.json.Some? <==> s.counter > 0)
    && (forall b :: b in s.refs ==> s.refs[b] > 0)
  }

  // The loop counts each message once, in the counter and in the buffer.
  lemma {:induction false} PostAllCounts(s: State, i: nat, b: nat, k: nat)
    requires b in s.refs
    ensures var t, posted := PostAll(s, i, b, k), k - if i < k then 1 else 0;
      && t.counter == s.counter + posted && t.refs == s.refs[b := s.refs[b] + posted] && t.json == s.json
  {
    hide PostOne;
    if k == 0 {
      assert s.refs == s.refs[b := s.refs[b]];
    } else {
      PostAllCounts(s, i, b, k - 1);
      PostOneCounts(PostAll(s, i, b, k - 1), i, k - 1, b);
    }
  }

  lemma PostOneCounts(s: State, i: nat, k: nat, b: nat)
    requires b in s.refs
    ensures var t := PostOne(s, i, k, b);
      t.counter == s.counter + 1 && t.refs == s.refs[b := s.refs[b] + 1] && t.json == s.json
  {
  }

  lemma HeldStep(s: State, step: Step)
    requires Inv(s) && Enabled(s, step) && HeldWhileUsed(s) && s.n > 1
    ensures HeldWhileUsed(Next(s, step))
  {
    hide LinksOk, RefsOk, WorkerOk;
    CounterNotNegative(s);
    if step.Notify? {
      PostAllCounts(Store(s, step.worker), step.worker, s.nextBuffer, s.n);
    } else if step.Copy? {
      Counted(s, step.worker);
    } else if step.Write? {
      PendingCounted(s, step.link);
    }
  }

  lemma CounterNotNegative(s: State)
    requires CounterOk(s)
    ensures s.counter >= 0
  {
  }

  lemma PendingCounted(s: State, l: Link)
    requires CounterOk(s) && l in s.pending
    ensures s.counter > 0
  {
    assert |s.pending| > 0;
  }

  /** With two workers or more: whatever is held is held for a message, and goes with the last one. */
  lemma {:induction false} HeldForMessages(n: nat, j: Json, run: seq<Step>)
    requires n > 1 && Exec(Init(n, j), run).Some?
    ensures var t := Exec(Init(n, j), run).value;
      && (t.json.Some? <==> t.counter > 0) && (forall b :: b in t.refs ==> t.refs[b] > 0)
      && (t.counter == 0 && t.leaked == multiset{} ==> t.refs == map[])
    decreases |run|
  {
    hide Next, Enabled;
    InitInv(n, j);
    RunInv(Init(n, j), run);
    var t := Exec(Init(n, j), run).value;
    if run != [] {
      var init := run[..|run| - 1];
      ExecLast(Init(n, j), run);
      RunInv(Init(n, j), init);
      HeldForMessages(n, j, init);
      HeldStep(Exec(Init(n, j), init).value, run[|run| - 1]);
    }
    if t.counter == 0 && t.leaked == multiset{} {
      NothingHeld(t);
    }
  }

  lemma NothingHeld(s: State)
    requires CounterOk(s) && RefsOk(s) && s.counter == 0 && s.leaked == multiset{}
    requires forall b :: b in s.refs ==> s.refs[b] > 0
    ensures s.refs == map[]
  {
    assert |s.pending| == 0;
    assert s.pending == map[];
    assert forall b :: |Users(map[], b)| == 0;
    assert forall b :: b !in s.refs;
  }

  function Changes(run: seq<Step>): nat {
    if run == [] then 0 else Changes(run[..|run| - 1]) + if run[|run| - 1].Notify? then 1 else 0
  }

  /** A worker alone sends nothing, and every change leaves the shared JSON and one more buffer behind. */
  lemma {:induction false} AloneHoldsOn(j: Json, run: seq<Step>)
    requires Exec(Init(1, j), run).Some?
    ensures var t := Exec(Init(1, j), run).value;
      && Shaped(t) && t.n == 1 && t.counter == 0 && t.pending == map[] && t.unread == [0]
      && (t.json.Some? <==> Changes(run) > 0)
      && t.nextBuffer == Changes(run) && (forall b: nat :: b in t.refs <==> b < Changes(run))
    decreases |run|
  {
    if run != [] {
      var init, last := run[..|run| - 1], run[|run| - 1];
      ExecLast(Init(1, j), run);
      AloneHoldsOn(j, init);
      var s := Exec(Init(1, j), init).value;
      if last.Notify? {
        assert last.worker == 0;
        AloneNotifies(s);
      }
    }
  }

  lemma AloneNotifies(s: State)
    requires Shaped(s) && s.n == 1 && Enabled(s, Notify(0))
    ensures Next(s, Notify(0)) == Store(s, 0)
  {
    var a := Store(s, 0);
    assert PostAll(a, 0, s.nextBuffer, 1) == PostAll(a, 0, s.nextBuffer, 0) == a;
  }

  // ---------- overwritten messages

  ghost predicate HasUnsent(s: State, i: nat) {
    exists k: nat :: k < s.n && k != i && Link(i, k) in s.pending
  }

  lemma {:induction false} PostAllLost(s: State, i: nat, b: nat, k: nat)
    requires b in s.refs && k <= s.n
    ensures PostAll(s, i, b, k).lost >= s.lost
    ensures PostAll(s, i, b, k).lost == s.lost <==> forall m: nat :: m < k && m != i ==> Link(i, m) !in s.pending
    ensures forall m: nat :: m >= k ==> (Link(i, m) in PostAll(s, i, b, k).pending <==> Link(i, m) in s.pending)
  {
    if k > 0 {
      PostAllLost(s, i, b, k - 1);
    }
  }

  /** A notification loses messages exactly when its sender still has an unsent one. */
  lemma NotifyLoses(s: State, i: nat)
    requires Inv(s) && Enabled(s, Notify(i))
    ensures Next(s, Notify(i)).lost > s.lost <==> HasUnsent(s, i)
  {
    PostAllLost(Store(s, i), i, s.nextBuffer, s.n);
  }

  lemma OthersLoseNothing(s: State, step: Step)
    requires Inv(s) && Enabled(s, step) && !step.Notify?
    ensures Next(s, step).lost == s.lost
  {
  }

  /** A run in which no worker notifies over its own unsent message. */
  ghost predicate Orderly(s: State, run: seq<Step>)
    decreases |run|
  {
    || run == []
    || (Shaped(s) && Enabled(s, run[0]) && (run[0].Notify? ==> !HasUnsent(s, run[0].worker))
        && Orderly(Next(s, run[0]), run[1..]))
  }

  /** The counter equals the messages on their way after a run exactly when the run was orderly. */
  lemma {:induction false} ExactWhenOrderly(s: State, run: seq<Step>)
    requires Inv(s) && Exec(s, run).Some?
    ensures Exec(s, run).value.lost == s.lost <==> Orderly(s, run)
    decreases |run|
  {
    if run != [] {
      var t := Next(s, run[0]);
      StepInv(s, run[0]);
      RunInv(t, run[1..]);
      ExactWhenOrderly(t, run[1..]);
      if run[0].Notify? {
        NotifyLoses(s, run[0].worker);
      } else {
        OthersLoseNothing(s, run[0]);
      }
    }
  }

  /** One lost message, and no worker ever accepts a change again. */
  lemma LostIsForever(s: State, run: seq<Step>, i: nat)
    requires Inv(s) && s.lost > 0 && Exec(s, run).Some?
    ensures Shaped(Exec(s, run).value) && !Enabled(Exec(s, run).value, Accept(i))
  {
    RunInv(s, run);
  }

  // ---------- what admission must rule out

  /** The changes a worker has let in and not yet announced. */
  function Outstanding(s: State, i: nat): nat
    requires Shaped(s) && i < s.n
  {
    s.admitted[i] + if s.phase[i].Applied? then 1 else 0
  }

  /** With other workers to tell, a worker has two changes to announce, or one while it still announces another. */
  ghost predicate Crowded(s: State, i: nat) {
    Shaped(s) && i < s.n && s.n > 1 && Outstanding(s, i) + (if HasUnsent(s, i) then 1 else 0) > 1
  }

  ghost predicate NobodyCrowded(s: State) {
    forall i: nat :: i < s.n ==> !Crowded(s, i)
  }

  /** The guard does not keep a worker from letting a second change in; this condition on top of it would. */
  ghost predicate OneAtATime(s: State, run: seq<Step>)
    requires Exec(s, run).Some?
    decreases |run|
  {
    run != [] ==>
      && (run[0].Accept? ==> Outstanding(s, run[0].worker) == 0)
      && OneAtATime(Next(s, run[0]), run[1..])
  }

  lemma NotCrowdedStep(s: State, step: Step)
    requires Inv(s) && NobodyCrowded(s) && Enabled(s, step)
    requires step.Accept? ==> Outstanding(s, step.worker) == 0
    ensures NobodyCrowded(Next(s, step)) && Next(s, step).lost == s.lost
  {
    assert Shaped(s);
    hide Inv, Crowded, HasUnsent, Next;
    StepInv(s, step);
    if step.Notify? {
      NotifyLoses(s, step.worker);
      if HasUnsent(s, step.worker) {
        NotifierCrowded(s, step.worker);
      }
    } else {
      OthersLoseNothing(s, step);
    }
    forall i: nat | i < Next(s, step).n
      ensures !Crowded(Next(s, step), i)
    {
      assert !Crowded(s, i);
      NotCrowdedWorker(s, step, i);
    }
  }

  lemma NotifierCrowded(s: State, i: nat)
    requires Inv(s) && Enabled(s, Notify(i)) && HasUnsent(s, i)
    ensures Crowded(s, i)
  {
    HasOther(s, i);
  }

  lemma NotCrowdedWorker(s: State, step: Step, i: nat)
    requires Inv(s) && Enabled(s, step) && i < s.n && !Crowded(s, i)
    requires step.Accept? ==> Outstanding(s, step.worker) == 0
    ensures !Crowded(Next(s, step), i)
  {
    hide HasUnsent;
    if step.Accept? {
      NothingUnsent(s, i);
    }
    if HasUnsent(Next(s, step), i) && !(step.Notify? && step.worker == i) {
      StillUnsent(s, step, i);
    }
  }

  lemma HasOther(s: State, i: nat)
    requires Inv(s) && HasUnsent(s, i)
    ensures s.n > 1
  {
  }

  lemma NothingUnsent(s: State, i: nat)
    requires Inv(s) && s.counter <= 0
    ensures !HasUnsent(s, i)
  {
    assert |s.pending| == 0;
    assert s.pending == map[];
  }

  // No step but its own notification gives a worker an unsent message.
  lemma StillUnsent(s: State, step: Step, i: nat)
    requires Inv(s) && Enabled(s, step) && HasUnsent(Next(s, step), i) && !(step.Notify? && step.worker == i)
    ensures HasUnsent(s, i)
  {
    var t := Next(s, step);
    var k: nat :| k < t.n && k != i && Link(i, k) in t.pending;
    if step.Notify? {
      PostAllSenders(Store(s, step.worker), step.worker, s.nextBuffer, s.n);
    }
    assert Link(i, k) in s.pending;
  }

  lemma {:induction false} PostAllSenders(s: State, i: nat, b: nat, k: nat)
    requires b in s.refs
    ensures forall l :: l in PostAll(s, i, b, k).pending && l.from != i ==> l in s.pending
  {
    if k > 0 {
      PostAllSenders(s, i, b, k - 1);
    }
  }

  // Nothing is lost from a state without a crowded worker, and nobody gets crowded.
  lemma {:induction false} NotCrowdedKeeps(s: State, run: seq<Step>)
    requires Inv(s) && NobodyCrowded(s) && Exec(s, run).Some? && OneAtATime(s, run)
    ensures Exec(s, run).value.lost == s.lost && NobodyCrowded(Exec(s, run).value)
    decreases |run|
  {
    hide Inv, NobodyCrowded, Next, Enabled;
    if run != [] {
      StepInv(s, run[0]);
      NotCrowdedStep(s, run[0]);
      NotCrowdedKeeps(Next(s, run[0]), run[1..]);
    }
  }

  /** Workers that accept one change at a time lose no message, whatever the interleaving. */
  lemma OneAtATimeIsExact(n: nat, j: Json, run: seq<Step>)
    requires Exec(Init(n, j), run).Some? && OneAtATime(Init(n, j), run)
    ensures Exec(Init(n, j), run).value.lost == 0
  {
    InitInv(n, j);
    NotCrowdedKeeps(Init(n, j), run);
  }

  /** A run in which no change is let in. */
  ghost predicate Quiet(run: seq<Step>) {
    forall k :: 0 <= k < |run| ==> !run[k].Accept?
  }

  // A crowded worker can lose a message, with no new change let in.
  lemma {:induction false} CrowdedLoses(s: State, i: nat, j: Json) returns (run: seq<Step>)
    requires Inv(s) && Crowded(s, i)
    ensures Quiet(run) && Exec(s, run).Some? && Exec(s, run).value.lost > s.lost
    decreases 2 * s.admitted[i] + if s.phase[i].Idle? then 0 else 1
  {
    var step := match s.phase[i] case Idle => Apply(i, j) case Applied(_) => Notify(i) case Copied(_) => Finish(i);
    var t := Next(s, step);
    StepInv(s, step);
    if step.Notify? {
      NotifyLoses(s, i);
      NotifyUnsent(s, i);
    }
    if t.lost > s.lost {
      run := [];
    } else {
      CrowdedStep(s, step, i);
      run := CrowdedLoses(t, i, j);
    }
    ExecFirst(s, step, run);
    run := [step] + run;
  }

  lemma {:induction false} QuietIsOneAtATime(s: State, run: seq<Step>)
    requires Quiet(run) && Exec(s, run).Some?
    ensures OneAtATime(s, run)
    decreases |run|
  {
    if run != [] {
      QuietIsOneAtATime(Next(s, run[0]), run[1..]);
    }
  }

  /** The changes already let in can lose a message exactly when some worker is crowded. */
  lemma CrowdingLoses(s: State)
    requires Inv(s)
    ensures NobodyCrowded(s) <==>
      forall run :: Quiet(run) && Exec(s, run).Some? ==> Exec(s, run).value.lost == s.lost
  {
    if NobodyCrowded(s) {
      forall run | Quiet(run) && Exec(s, run).Some?
        ensures Exec(s, run).value.lost == s.lost
      {
        QuietIsOneAtATime(s, run);
        NotCrowdedKeeps(s, run);
      }
    } else {
      var i: nat :| i < s.n && Crowded(s, i);
      var run := CrowdedLoses(s, i, 0);
    }
  }

  lemma ExecFirst(s: State, step: Step, rest: seq<Step>)
    requires Shaped(s) && Enabled(s, step)
    ensures Exec(s, [step] + rest) == Exec(Next(s, step), rest)
  {
    assert ([step] + rest)[1..] == rest;
  }

  lemma NotifyUnsent(s: State, i: nat)
    requires Inv(s) && Enabled(s, Notify(i)) && s.n > 1
    ensures HasUnsent(Next(s, Notify(i)), i)
  {
    StoreCore(s, i);
    PostAllLinks(Store(s, i), i, s.nextBuffer, s.n);
    assert Link(i, if i == 0 then 1 else 0) in Next(s, Notify(i)).pending;
  }

  lemma CrowdedStep(s: State, step: Step, i: nat)
    requires Inv(s) && Crowded(s, i) && Enabled(s, step)
    requires (step.Apply? || step.Finish? || step.Notify?) && step.worker == i
    requires step.Notify? ==> !HasUnsent(s, i) && HasUnsent(Next(s, step), i)
    ensures Crowded(Next(s, step), i)
  {
    if !step.Notify? {
      assert HasUnsent(Next(s, step), i) <==> HasUnsent(s, i);
    }
  }

  /** Two requests that pass the guard before either body is read: after their changes nobody accepts one again. */
  lemma OverlapHappens(run: seq<Step>, i: nat)
    ensures var two := [Accept(0), Accept(0), Apply(0, 1), Notify(0), Apply(0, 2), Notify(0)];
      && Exec(Init(2, 0), two).Some? && Exec(Init(2, 0), two).value.lost > 0
      && (Exec(Exec(Init(2, 0), two).value, run).Some? ==>
           var t := Exec(Exec(Init(2, 0), two).value, run).value;
           Shaped(t) && !Enabled(t, Accept(i)))
  {
    hide Inv, Exec, Next, Enabled, Init;
    var rest := [Notify(0), Apply(0, 2), Notify(0)];
    var two := [Accept(0), Accept(0), Apply(0, 1), Notify(0), Apply(0, 2), Notify(0)];
    assert [Accept(0)] + ([Accept(0)] + ([Apply(0, 1)] + rest)) == two;
    var s := OverlapStarts(rest);
    OverlapEnds(s);
    var t := Exec(s, rest).value;
    if Exec(t, run).Some? {
      LostIsForever(t, run, i);
    }
  }

  // Both requests pass the guard, and the first body is handled.
  lemma OverlapStarts(rest: seq<Step>) returns (s: State)
    ensures Inv(s) && s.n == 2 && s.admitted[0] > 0 && Enabled(s, Notify(0))
    ensures Exec(Init(2, 0), [Accept(0)] + ([Accept(0)] + ([Apply(0, 1)] + rest))) == Exec(s, rest)
  {
    var s0 := Init(2, 0);
    InitInv(2, 0);
    StepInv(s0, Accept(0));
    var s1 := Next(s0, Accept(0));
    StepInv(s1, Accept(0));
    var s2 := Next(s1, Accept(0));
    StepInv(s2, Apply(0, 1));
    s := Next(s2, Apply(0, 1));
    ExecFirst(s0, Accept(0), [Accept(0)] + ([Apply(0, 1)] + rest));
    ExecFirst(s1, Accept(0), [Apply(0, 1)] + rest);
    ExecFirst(s2, Apply(0, 1), rest);
  }

  // The second body is handled before the first change's message is sent.
  lemma OverlapEnds(s: State)
    requires Inv(s) && s.n == 2 && s.admitted[0] > 0 && Enabled(s, Notify(0))
    ensures var end := Exec(s, [Notify(0), Apply(0, 2), Notify(0)]); end.Some? && Inv(end.value) && end.value.lost > 0
  {
    var s1 := Next(s, Notify(0));
    StepInv(s, Notify(0));
    NotifyUnsent(s, 0);
    StepInv(s1, Apply(0, 2));
    var s2 := Next(s1, Apply(0, 2));
    assert HasUnsent(s2, 0);
    NotifyLoses(s2, 0);
    StepInv(s2, Notify(0));
    ExecThree(s, Notify(0), Apply(0, 2), Notify(0));
  }

  lemma ExecThree(s: State, a: Step, b: Step, c: Step)
    requires Shaped(s) && Enabled(s, a) && Shaped(Next(s, a)) && Enabled(Next(s, a), b)
    requires Shaped(Next(Next(s, a), b)) && Enabled(Next(Next(s, a), b), c)
    ensures Exec(s, [a, b, c]) == Some(Next(Next(Next(s, a), b), c))
  {
    hide Next, Enabled, Shaped;
    assert [a, b, c][1..] == [b, c] && [b, c][1..] == [c] && [c][1..] == [];
    var s1 := Next(s, a);
    var s2 := Next(s1, b);
    assert Exec(Next(s2, c), []) == Some(Next(s2, c));
    assert Exec(s2, [c]) == Exec(Next(s2, c), []);
    assert Exec(s1, [b, c]) == Exec(s2, [c]);
  }

  // ---------- the handlers as they run

  lemma CopyEnabled(s: State, k: nat)
    requires Inv(s) && k < s.n && s.unread[k] > 0 && s.phase[k].Idle?
    ensures Shaped(s) && Enabled(s, Copy(k))
  {
    SumAtLeast(s.unread, k);
  }

  lemma WriteEnabled(s: State, l: Link, sent: Sent)
    requires Inv(s) && l in s.pending && l.from < s.n && s.phase[l.from].Idle?
    ensures Enabled(s, Write(l, sent)) && s.pending[l] in s.refs && l.to < s.n
  {
  }

  class Cluster {
    const n: nat
    var counter: int
    var json: Option<Json>
    var pending: map<Link, nat>
    var refs: map<nat, int>
    var nextBuffer: nat
    var unread: seq<nat>
    var phase: seq<Phase>
    var conf: seq<Json>
    var admitted: seq<nat>
    ghost var stored: Json
    ghost var lost: nat
    ghost var leaked: multiset<nat>
    ghost var missed: set<nat>

    ghost function View(): State
      reads this
    {
      State(n, counter, json, pending, refs, nextBuffer, unread, phase, conf, admitted, stored, lost, leaked, missed)
    }

    constructor (n: nat, j: Json)
      ensures View() == Init(n, j) && Inv(View())
    {
      this.n, counter, json, pending, refs, nextBuffer := n, 0, None, map[], map[], 0;
      unread, phase, conf, admitted := seq(n, i => 0), seq(n, i => Idle), seq(n, i => j), seq(n, i => 0);
      stored, lost, leaked, missed := j, 0, multiset{}, {};
      new;
      InitInv(n, j);
    }

    /** ngx_http_ctrl_config_handler for a change: it is let in, or refused while messages are counted. */
    method ConfigHandler(i: nat) returns (accepted: bool)
      requires Inv(View()) && i < n && phase[i].Idle?
      modifies this
      ensures accepted <==> Enabled(old(View()), Accept(i))
      ensures View() == if accepted then Next(old(View()), Accept(i)) else old(View())
      ensures Inv(View())
    {
      accepted := !(counter > 0);
      if accepted {
        StepInv(View(), Accept(i));
        admitted := admitted[i := admitted[i] + 1];
      }
    }

    /** ngx_http_ctrl_read_handler when there is no body, or none that changes the configuration */
    method FinalizeRequest(i: nat)
      requires Inv(View()) && Enabled(View(), Abandon(i))
      modifies this
      ensures View() == Next(old(View()), Abandon(i)) && Inv(View())
    {
      StepInv(View(), Abandon(i));
      admitted := admitted[i := admitted[i] - 1];
    }

    /** ngx_http_conf_apply in the worker that takes the change, which is not asked about the counter again */
    method ApplyConf(i: nat, j: Json)
      requires Inv(View()) && Enabled(View(), Apply(i, j))
      modifies this
      ensures View() == Next(old(View()), Apply(i, j)) && Inv(View())
    {
      StepInv(View(), Apply(i, j));
      conf, phase, admitted := conf[i := j], phase[i := Applied(j)], admitted[i := admitted[i] - 1];
    }

    /** ngx_http_ctrl_notify */
    method NotifyAll(i: nat)
      requires Inv(View()) && Enabled(View(), Notify(i))
      modifies this
      ensures View() == Next(old(View()), Notify(i)) && Inv(View())
    {
      StepInv(View(), Notify(i));
      hide Inv, Store, PostAll;
      var b := nextBuffer;
      StoreJson(i);
      PostLoop(i, b);
    }

    method StoreJson(i: nat)
      requires Shaped(View()) && i < n && phase[i].Applied?
      modifies this
      ensures View() == Store(old(View()), i) && old(nextBuffer) in refs
    {
      var j := phase[i].json;
      refs, nextBuffer, phase := refs[nextBuffer := 0], nextBuffer + 1, phase[i := Idle];
      json, stored, missed := Some(j), j, missed - {i};
    }

    method PostLoop(i: nat, b: nat)
      requires b in refs
      modifies this
      ensures View() == PostAll(old(View()), i, b, n)
    {
      hide PostOne;
      ghost var start := View();
      var k := 0;
      while k < n
        invariant 0 <= k <= n && View() == PostAll(start, i, b, k)
      {
        if k != i {
          Post(i, k, b);
        }
        k := k + 1;
      }
    }

    method Post(i: nat, k: nat, b: nat)
      requires b in refs
      modifies this
      ensures View() == PostOne(old(View()), i, k, b)
    {
      var l := Link(i, k);
      refs := refs[b := refs[b] + 1];
      if l in pending {
        Overwritten(pending[l]);
      }
      pending := pending[l := b];
      counter := counter + 1;
    }

    // A connection forgets the message it had not sent.
    ghost method Overwritten(buffer: nat)
      modifies this`lost, this`leaked
      ensures lost == old(lost) + 1 && leaked == old(leaked) + multiset{buffer}
    {
      lost, leaked := lost + 1, leaked + multiset{buffer};
    }

    method ReleaseShared()
      modifies this
      ensures View() == Release(old(View()))
    {
      counter := counter - 1;
      if counter == 0 {
        json := None;
      }
    }

    /** ngx_http_ctrl_notify_write_handler */
    method WriteHandler(l: Link, sent: Sent)
      requires Inv(View()) && l.from < n && phase[l.from].Idle?
      modifies this
      ensures Inv(View())
      ensures View() == if l in old(pending) then Next(old(View()), Write(l, sent)) else old(View())
    {
      if l !in pending {
        return;
      }
      WriteEnabled(View(), l, sent);
      StepInv(View(), Write(l, sent));
      hide Inv, CounterOk, RefsOk, WorkerOk, LinksOk, JsonOk, Hand;
      match sent {
        case Again =>
          return;
        case Failed =>
          GiveUp(l);
        case Delivered =>
          HandOver(l);
      }
    }

    method GiveUp(l: Link)
      requires l in pending
      modifies this
      ensures View() == Release(old(Unsend(View(), l)))
    {
      leaked, missed := leaked + multiset{pending[l]}, missed + {l.to};
      pending := pending - {l};
      ReleaseShared();
    }

    method HandOver(l: Link)
      requires Shaped(View()) && l in pending && l.to < n && pending[l] in refs
      modifies this
      ensures View() == Hand(old(View()), l)
    {
      var b := pending[l];
      unread := unread[l.to := unread[l.to] + 1];
      pending := pending - {l};
      if refs[b] == 1 {
        refs := refs - {b};
      } else {
        refs := refs[b := refs[b] - 1];
      }
    }

    /** ngx_http_ctrl_notify_read_handler up to the release of the lock: the shared JSON is there to be copied. */
    method ReadHandler(k: nat)
      requires Inv(View()) && k < n && unread[k] > 0 && phase[k].Idle?
      modifies this
      ensures Enabled(old(View()), Copy(k)) && View() == Next(old(View()), Copy(k)) && Inv(View())
    {
      hide Inv;
      CopyEnabled(View(), k);
      StepInv(View(), Copy(k));
      TakeShared(k);
    }

    method TakeShared(k: nat)
      requires Shaped(View()) && Enabled(View(), Copy(k))
      modifies this
      ensures View() == Next(old(View()), Copy(k))
    {
      ghost var goal := Next(View(), Copy(k));
      var j := json.value;
      unread, phase := unread[k := unread[k] - 1], phase[k := Copied(j)];
      missed := missed - {k};
      ReleaseShared();
      assert View() == goal;
    }

    /** The rest of it: the copied configuration is applied. */
    method ApplyCopied(k: nat)
      requires Inv(View()) && Enabled(View(), Finish(k))
      modifies this
      ensures View() == Next(old(View()), Finish(k)) && Inv(View())
    {
      StepInv(View(), Finish(k));
      conf, phase := conf[k := phase[k].json], phase[k := Idle];
    }
  }
}
