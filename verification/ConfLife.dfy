/**
 * The life of a configuration inside one worker: src/ngx_http_conf.c:333-420 and src/ngx_http_ctrl_module.c:203-214.
 */
module ConfLife {
  import opened Bytes

  /**
   * current is the global pointer; counts holds http_conf->count of every configuration whose pool exists; held is the
   * pointer in each request's context, where it is not null.  destroyed and leaked are history: the pools destroyed so
   * far, in order, and the counts whose pointer was overwritten.
   */
  datatype State = State(
    current: Option<nat>, counts: map<nat, int>, held: map<nat, nat>, destroyed: seq<nat>, leaked: multiset<nat>,
      next: nat)

  /** A new configuration; the rewrite phase of a request; the cleanup of a request. */
  datatype Step = Apply | Take(request: nat) | Cleanup(request: nat)

  // ngx_http_conf_release
  function Release(s: State, c: nat): State
    requires c in s.counts
  {
    if s.counts[c] == 1 then s.(counts := s.counts - {c}, destroyed := s.destroyed + [c])
    else s.(counts := s.counts[c := s.counts[c] - 1])
  }

  predicate Shaped(s: State) {
    && (s.current.Some? ==> s.current.value in s.counts && s.current.value < s.next)
    && (forall r :: r in s.held ==> s.held[r] in s.counts)
  }

  function Next(s: State, step: Step): State
    requires Shaped(s)
  {
    match step
    case Apply =>
      var c := s.next;
      var t := s.(counts := s.counts[c := 1], next := c + 1);
      var u := if s.current.Some? then Release(t, s.current.value) else t;
      u.(current := Some(c))
    case Take(r) =>
      if s.current.None? then s
      else
        var c := s.current.value;
        s.(counts := s.counts[c := s.counts[c] + 1], held := s.held[r := c],
           leaked := if r in s.held then s.leaked + multiset{s.held[r]} else s.leaked)
    case Cleanup(r) =>
      if r !in s.held then s else Release(s, s.held[r]).(held := s.held - {r})
  }

  // ---------- the invariant

  ghost function Requests(held: map<nat, nat>, c: nat): set<nat> {
    set r | r in held && held[r] == c
  }

  /** Who holds a configuration: the requests that point to it, and the worker while it is the current one. */
  ghost function Holders(s: State, c: nat): nat {
    |Requests(s.held, c)| + if s.current == Some(c) then 1 else 0
  }

  ghost function Uses(s: State, c: nat): nat { Holders(s, c) + s.leaked[c] }

  /** A pool exists exactly while its configuration is held or has leaked, and its count says how often. */
  ghost predicate ConfOk(s: State, c: nat) {
    && (if c in s.counts then s.counts[c] == Uses(s, c) > 0 && c < s.next && c !in s.destroyed else Uses(s, c) == 0)
    && (c in s.counts || c in s.destroyed <==> c < s.next)
  }

  ghost predicate Inv(s: State) {
    && Shaped(s) && (forall c: nat :: ConfOk(s, c))
    && (forall i, j :: 0 <= i < j < |s.destroyed| ==> s.destroyed[i] != s.destroyed[j])
  }

  const START := State(None, map[], map[], [], multiset{}, 0)

  lemma StartInv()
    ensures Inv(START)
  {
    assert forall c: nat :: Requests(map[], c) == {};
  }

  lemma RequestsNew(held: map<nat, nat>, r: nat, c: nat, d: nat)
    requires r !in held
    ensures |Requests(held[r := c], d)| == |Requests(held, d)| + if c == d then 1 else 0
  {
    assert Requests(held[r := c], d) == if c == d then Requests(held, d) + {r} else Requests(held, d);
  }

  lemma RequestsAdd(held: map<nat, nat>, r: nat, c: nat, d: nat)
    ensures |Requests(held[r := c], d)| ==
      |Requests(held, d)| - (if r in held && held[r] == d then 1 else 0) + if c == d then 1 else 0
  {
    if r in held {
      assert held[r := c] == (held - {r})[r := c];
      RequestsDrop(held, r, d);
    }
    RequestsNew(if r in held then held - {r} else held, r, c, d);
  }

  lemma RequestsDrop(held: map<nat, nat>, r: nat, d: nat)
    requires r in held
    ensures |Requests(held - {r}, d)| == |Requests(held, d)| - if held[r] == d then 1 else 0
  {
    assert Requests(held - {r}, d) == Requests(held, d) - {r};
  }

  lemma StepInv(s: State, step: Step)
    requires Inv(s)
    ensures Inv(Next(s, step))
  {
    match step
    case Apply => ApplyInv(s);
    case Take(r) => TakeInv(s, r);
    case Cleanup(r) => CleanupInv(s, r);
  }

  lemma ApplyInv(s: State)
    requires Inv(s)
    ensures Inv(Next(s, Apply))
  {
    hide ConfOk;
    var t := Next(s, Apply);
    forall c: nat
      ensures ConfOk(t, c)
    {
      assert ConfOk(s, c);
      ApplyOne(s, c);
    }
    Distinct(s, t);
    StillHeld(t);
  }

  // Replacing the current configuration, seen from one of them.
  lemma ApplyOne(s: State, c: nat)
    requires Shaped(s) && ConfOk(s, c)
    ensures ConfOk(Next(s, Apply), c)
  {
    hide Requests;
  }

  lemma Distinct(s: State, t: State)
    requires forall i, j :: 0 <= i < j < |s.destroyed| ==> s.destroyed[i] != s.destroyed[j]
    requires t.destroyed != s.destroyed ==>
      exists c: nat :: c in s.counts && ConfOk(s, c) && t.destroyed == s.destroyed + [c]
    ensures forall i, j :: 0 <= i < j < |t.destroyed| ==> t.destroyed[i] != t.destroyed[j]
  {
  }

  // What somebody points to has a count.
  lemma StillHeld(s: State)
    requires forall c: nat :: ConfOk(s, c)
    ensures Shaped(s)
  {
    forall r | r in s.held
      ensures s.held[r] in s.counts
    {
      assert r in Requests(s.held, s.held[r]) && ConfOk(s, s.held[r]);
    }
    if s.current.Some? {
      assert ConfOk(s, s.current.value);
    }
  }

  lemma TakeInv(s: State, r: nat)
    requires Inv(s)
    ensures Inv(Next(s, Take(r)))
  {
    hide ConfOk;
    var t := Next(s, Take(r));
    forall d: nat
      ensures ConfOk(t, d)
    {
      assert ConfOk(s, d);
      TakeOne(s, r, d);
    }
    StillHeld(t);
  }

  lemma TakeOne(s: State, r: nat, d: nat)
    requires Shaped(s) && ConfOk(s, d)
    ensures ConfOk(Next(s, Take(r)), d)
  {
    hide Requests;
    if s.current.Some? {
      RequestsAdd(s.held, r, s.current.value, d);
    }
  }

  lemma CleanupInv(s: State, r: nat)
    requires Inv(s)
    ensures Inv(Next(s, Cleanup(r)))
  {
    hide ConfOk;
    var t := Next(s, Cleanup(r));
    forall d: nat
      ensures ConfOk(t, d)
    {
      assert ConfOk(s, d);
      CleanupOne(s, r, d);
    }
    Distinct(s, t);
    StillHeld(t);
  }

  lemma CleanupOne(s: State, r: nat, d: nat)
    requires Shaped(s) && ConfOk(s, d)
    ensures ConfOk(Next(s, Cleanup(r)), d)
  {
    hide Requests;
    if r in s.held {
      RequestsDrop(s.held, r, d);
    }
  }

  // ---------- runs

  ghost function Exec(s: State, run: seq<Step>): Option<State>
    decreases |run|
  {
    if run == [] then Some(s) else if Shaped(s) then Exec(Next(s, run[0]), run[1..]) else None
  }

  /** Every run keeps the invariant: in particular every pointer a step follows is that of a living configuration. */
  lemma {:induction false} NeverUsedAfterDestroy(s: State, run: seq<Step>)
    requires Inv(s)
    ensures Exec(s, run).Some? && Inv(Exec(s, run).value)
    decreases |run|
  {
    hide Inv, Next;
    if run != [] {
      StepInv(s, run[0]);
      InvShaped(s);
      NeverUsedAfterDestroy(Next(s, run[0]), run[1..]);
    }
  }

  lemma InvShaped(s: State)
    requires Inv(s)
    ensures Shaped(s)
  {
  }

  /**
   * After any run: what is held is not destroyed, no pool is destroyed twice, and one nobody holds is left only by a
   * leak.
   */
  lemma FromTheStart(run: seq<Step>, c: nat)
    ensures Exec(START, run).Some?
    ensures var t := Exec(START, run).value;
      && (Holders(t, c) > 0 ==> c in t.counts && t.counts[c] == Holders(t, c) + t.leaked[c] && c !in t.destroyed)
      && (c < t.next && Holders(t, c) == 0 ==> (c in t.destroyed <==> t.leaked[c] == 0))
      && (forall i, j :: 0 <= i < j < |t.destroyed| ==> t.destroyed[i] != t.destroyed[j])
  {
    StartInv();
    NeverUsedAfterDestroy(START, run);
    assert ConfOk(Exec(START, run).value, c);
  }

  // ---------- leaks

  /** A run in which no request takes a configuration while it holds one. */
  ghost predicate TakesOnce(s: State, run: seq<Step>)
    decreases |run|
  {
    run != [] && Shaped(s) ==>
      && (run[0].Take? && s.current.Some? ==> run[0].request !in s.held)
      && TakesOnce(Next(s, run[0]), run[1..])
  }

  /** Nothing leaks exactly in the runs in which no request takes a configuration on top of another. */
  lemma {:induction false} ExactWhenTakenOnce(s: State, run: seq<Step>)
    requires Inv(s) && Exec(s, run).Some?
    ensures |Exec(s, run).value.leaked| >= |s.leaked| && s.leaked <= Exec(s, run).value.leaked
    ensures |Exec(s, run).value.leaked| == |s.leaked| <==> TakesOnce(s, run)
    decreases |run|
  {
    hide Inv;
    InvShaped(s);
    if run != [] {
      StepInv(s, run[0]);
      ExactWhenTakenOnce(Next(s, run[0]), run[1..]);
    }
  }

  /** A configuration that has leaked is never destroyed. */
  lemma LeakIsForever(s: State, run: seq<Step>, c: nat)
    requires Inv(s) && s.leaked[c] > 0
    ensures Exec(s, run).Some? && c in Exec(s, run).value.counts && c !in Exec(s, run).value.destroyed
  {
    NeverUsedAfterDestroy(s, run);
    ExactWhenTakenOnce(s, run);
    var t := Exec(s, run).value;
    assert ConfOk(t, c) && t.leaked[c] >= s.leaked[c];
  }

  /** A rewrite phase that runs twice: from then on the configuration outlives every request and its replacement. */
  lemma TakenTwice(run: seq<Step>)
    ensures var twice := [Apply, Take(0), Take(0), Cleanup(0), Apply];
      Exec(START, twice).Some? && Holders(Exec(START, twice).value, 0) == 0
    ensures var t := Exec(START, [Apply, Take(0), Take(0), Cleanup(0), Apply]).value;
      Exec(t, run).Some? && 0 !in Exec(t, run).value.destroyed
  {
    hide Inv;
    var s1, twice := Next(START, Apply), [Apply, Take(0), Take(0), Cleanup(0), Apply];
    StartInv();
    StepInv(START, Apply);
    NeverUsedAfterDestroy(s1, twice[1..]);
    TakenOver(s1, 0);
    var t := Exec(s1, twice[1..]).value;
    LeakIsForever(t, run, 0);
  }

  // A request takes the current configuration twice, ends, and the configuration is replaced.
  lemma TakenOver(s: State, c: nat)
    requires Inv(s) && s.current == Some(c) && s.held == map[]
    ensures var t := Exec(s, [Take(0), Take(0), Cleanup(0), Apply]);
      t.Some? && Inv(t.value) && t.value.leaked[c] > 0 && Holders(t.value, c) == 0
  {
    hide Inv, Next, Exec, Holders;
    var rest := [Cleanup(0), Apply];
    assert [Take(0)] + ([Take(0)] + rest) == [Take(0), Take(0), Cleanup(0), Apply];
    var s2 := TookTwice(s, c, rest);
    var t := Replaced(s2, c);
  }

  // A request takes the configuration over itself.
  lemma TookTwice(s: State, c: nat, rest: seq<Step>) returns (t: State)
    requires Inv(s) && s.current == Some(c) && s.held == map[]
    ensures Exec(s, [Take(0)] + ([Take(0)] + rest)) == Exec(t, rest)
    ensures Inv(t) && t.held == map[0 := c] && t.leaked[c] > 0 && t.current == Some(c) && c < t.next
  {
    hide Exec;
    ExecOne(s, Take(0), [Take(0)] + rest);
    ExecOne(Next(s, Take(0)), Take(0), rest);
    t := Next(Next(s, Take(0)), Take(0));
    assert ConfOk(s, c);
  }

  // The request ends and the configuration is replaced.
  lemma Replaced(s: State, c: nat) returns (t: State)
    requires Inv(s) && s.current == Some(c) && s.held == map[0 := c] && c < s.next
    ensures Exec(s, [Cleanup(0), Apply]) == Some(t) && Inv(t) && t.leaked == s.leaked && Holders(t, c) == 0
  {
    hide ConfOk;
    ExecOne(s, Cleanup(0), [Apply]);
    ExecOne(Next(s, Cleanup(0)), Apply, []);
    t := Next(Next(s, Cleanup(0)), Apply);
    assert [Cleanup(0)] + [Apply] == [Cleanup(0), Apply] && [Apply] + [] == [Apply];
    assert Requests(map[], c) == {};
    assert map[0 := c] - {0} == map[];
  }

  lemma ExecOne(s: State, step: Step, rest: seq<Step>)
    requires Inv(s)
    ensures Inv(Next(s, step)) && Exec(s, [step] + rest) == Exec(Next(s, step), rest)
  {
    StepInv(s, step);
    assert ([step] + rest)[1..] == rest;
  }

  // ---------- the functions as they run

  class Worker {
    var current: Option<nat>
    var counts: map<nat, int>
    var held: map<nat, nat>
    var next: nat
    ghost var destroyed: seq<nat>
    ghost var leaked: multiset<nat>

    ghost function View(): State
      reads this
    {
      State(current, counts, held, destroyed, leaked, next)
    }

    constructor ()
      ensures View() == START && Inv(View())
    {
      current, counts, next, held, destroyed, leaked := None, map[], 0, map[], [], multiset{};
      new;
      StartInv();
    }

    /** ngx_http_conf_apply */
    method ApplyConf()
      requires Inv(View())
      modifies this
      ensures Inv(View()) && View() == Next(old(View()), Apply)
    {
      StepInv(View(), Apply);
      hide Inv;
      InvShaped(View());
      var c := next;
      counts, next := counts[c := 1], c + 1;
      if current.Some? {
        ReleaseConf(current.value);
      }
      current := Some(c);
    }

    /** ngx_http_ctrl_request_init and ngx_http_conf_action, as far as they take the configuration */
    method TakeConf(r: nat)
      requires Inv(View())
      modifies this
      ensures Inv(View()) && View() == Next(old(View()), Take(r))
    {
      StepInv(View(), Take(r));
      hide Inv;
      InvShaped(View());
      if current.Some? {
        if r in held {
          leaked := leaked + multiset{held[r]};
        }
        held := held[r := current.value];
        counts := counts[current.value := counts[current.value] + 1];
      }
    }

    method ReleaseConf(c: nat)
      requires c in counts
      modifies this
      ensures View() == Release(old(View()), c)
    {
      var left := counts[c] - 1;
      if left == 0 {
        counts, destroyed := counts - {c}, destroyed + [c];
      } else {
        counts := counts[c := left];
      }
    }

    /** ngx_http_ctrl_cleanup */
    method CleanupRequest(r: nat)
      requires Inv(View())
      modifies this
      ensures Inv(View()) && View() == Next(old(View()), Cleanup(r))
    {
      StepInv(View(), Cleanup(r));
      hide Inv;
      InvShaped(View());
      if r in held {
        ReleaseConf(held[r]);
        held := held - {r};
      }
    }
  }
}
