/**
 * Short strings of src/nxt_conf.c:31-62 are kept inside the value, where fourteen bytes are: no edit ever leaves a
 * longer one there.
 */
module ConfInline {
  import opened Bytes
  import opened JsonPrint
  import opened ConfOps
  import opened ConfClone

  predicate Held(text: Text) { text.home.Inline? ==> |text.bytes| <= 14 }

  /** No inline string or name of the value is longer than its room. */
  predicate AllHeld(t: Stored) {
    match t
    case Scalar(_) => true
    case String(text) => Held(text)
    case Array(es, _) => forall i :: 0 <= i < |es| ==> AllHeld(es[i])
    case Object(ms, _) => forall i :: 0 <= i < |ms| ==> Held(ms[i].name) && AllHeld(ms[i].value)
  }

  lemma {:induction false} FreshHeld(t: Stored, mp: nat)
    requires AllHeld(t)
    ensures AllHeld(Fresh(t, mp))
    decreases t
  {
    match t
    case Array(es, _) =>
      forall i | 0 <= i < |es|
        ensures AllHeld(Fresh(es[i], mp))
      {
        FreshHeld(es[i], mp);
      }
    case Object(ms, _) =>
      forall i | 0 <= i < |ms|
        ensures AllHeld(Fresh(ms[i].value, mp))
      {
        FreshHeld(ms[i].value, mp);
      }
    case _ =>
  }

  /** A new name is inline exactly when it fits there. */
  lemma DupHeld(name: Token, request: nat)
    ensures Dup(name, request).bytes == name && (Dup(name, request).home.Inline? <==> |name| <= 14)
    ensures |name| > 14 ==> Dup(name, request).home == In(request)
  {
  }

  predicate OpHeld(op: Op) {
    match op
    case Pass(_, next) => OpHeld(next)
    case CreateElement(_, w) => AllHeld(w)
    case CreateMember(_, m) => Held(m.name) && AllHeld(m.value)
    case Replace(_, w) => AllHeld(w)
    case Delete(_) => true
  }

  lemma {:induction false} CompileHeld(root: Value, toks: seq<Option<Token>>, edit: Edit<Stored>, request: nat)
    requires toks != [] && (!edit.Remove? ==> AllHeld(edit.w)) && Compile(root, toks, edit, request).Done?
    ensures OpHeld(Compile(root, toks, edit, request).value)
    decreases |toks|
  {
    var place := PlaceOf(root, toks[0].value);
    if |toks| > 1 {
      CompileHeld(Child(root, place.index), toks[1..], edit, request);
    }
  }

  lemma {:induction false} ReplayHeld(op: Option<Op>, t: Stored, mp: nat)
    requires AllHeld(t) && Fits(op, t) && Replay(op, t, mp).Some? && (op.Some? ==> OpHeld(op.value))
    ensures AllHeld(Replay(op, t, mp).value)
    decreases t
  {
    if op.Some? && op.value.Pass? {
      var i := op.value.index;
      NthHeld(t, i);
      ReplayHeld(Some(op.value.next), Nth(t, i), mp);
    }
  }

  lemma NthHeld(t: Stored, i: nat)
    requires AllHeld(t) && i < Size(t)
    ensures AllHeld(Nth(t, i))
  {
  }

  /** If nothing inline is too long before an edit and in its value, nothing is afterwards. */
  lemma EditHeld(conf: Stored, toks: seq<Option<Token>>, edit: Edit<Stored>, request: nat, mp: nat)
    requires toks != [] && AllHeld(conf) && (!edit.Remove? ==> AllHeld(edit.w))
    requires Compile(ValueOf(conf), toks, edit, request).Done?
    ensures var op := Some(Compile(ValueOf(conf), toks, edit, request).value);
      Fits(op, Fresh(conf, mp)) && Replay(op, Fresh(conf, mp), mp).Some?
      && AllHeld(Replay(op, Fresh(conf, mp), mp).value)
  {
    hide Compile, Replay, Fits, Fresh, ValueOf, AllHeld, OpHeld, Apply;
    FreshIsCopy(conf, mp);
    FreshHeld(conf, mp);
    CompileThenReplay(Fresh(conf, mp), toks, edit, request, mp);
    CompileHeld(ValueOf(conf), toks, edit, request);
    ReplayHeld(Some(Compile(ValueOf(conf), toks, edit, request).value), Fresh(conf, mp), mp);
  }
}
