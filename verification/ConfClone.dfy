/**
 * Path edits of src/nxt_conf.c:2024-2491: a path is compiled to an op list, which a copying interpreter replays.
 * Values are modelled as they are stored, with the pool each part of them lives in.
 */
module ConfClone {
  import opened Bytes
  import opened JsonPrint
  import opened ConfOps

  const MAX_SHORT: nat := 14

  // ---------- stored values

  /** Where the bytes of a string are: in the value itself, or in a pool. */
  datatype Home = Inline | In(pool: nat)

  datatype Text = Text(bytes: seq<Byte>, home: Home)

  /** A value without memory of its own. */
  type Scalar = v: Value | !v.Str? && !v.Arr? && !v.Obj? witness Null

  /** A value with the pools that hold its strings, arrays and objects. */
  datatype Stored =
    | Scalar(v: Scalar)
    | String(text: Text)
    | Array(elements: seq<Stored>, pool: nat)
    | Object(members: seq<Slot>, pool: nat)

  datatype Slot = Slot(name: Text, value: Stored)

  /** The value that is stored. */
  function ValueOf(t: Stored): Value {
    match t
    case Scalar(v) => v
    case String(text) => Str(text.bytes)
    case Array(es, _) => Arr(ValuesOf(es))
    case Object(ms, _) => Obj(MembersOf(ms))
  }

  function ValuesOf(es: seq<Stored>): (r: seq<Value>)
    ensures |r| == |es| && forall i :: 0 <= i < |es| ==> r[i] == ValueOf(es[i])
  {
    if es == [] then [] else [ValueOf(es[0])] + ValuesOf(es[1..])
  }

  function MemberOf(m: Slot): Member { Member(m.name.bytes, ValueOf(m.value)) }

  function MembersOf(ms: seq<Slot>): (r: seq<Member>)
    ensures |r| == |ms| && forall i :: 0 <= i < |ms| ==> r[i] == MemberOf(ms[i])
  {
    if ms == [] then [] else [MemberOf(ms[0])] + MembersOf(ms[1..])
  }

  predicate Lives(home: Home, mp: nat) { home == Inline || home == In(mp) }

  /** Every string, name, array and object of the value lives in pool mp. */
  predicate OwnedBy(t: Stored, mp: nat) {
    match t
    case Scalar(_) => true
    case String(text) => Lives(text.home, mp)
    case Array(es, pool) => pool == mp && forall i :: 0 <= i < |es| ==> OwnedBy(es[i], mp)
    case Object(ms, pool) =>
      pool == mp && forall i :: 0 <= i < |ms| ==> Lives(ms[i].name.home, mp) && OwnedBy(ms[i].value, mp)
  }

  // ---------- deep copies

  function FreshText(text: Text, mp: nat): Text {
    if text.home == Inline then text else Text(text.bytes, In(mp))
  }

  function FreshSlot(m: Slot, mp: nat): Slot { Slot(FreshText(m.name, mp), Fresh(m.value, mp)) }

  /** The deep copy of a value into pool mp. */
  function Fresh(t: Stored, mp: nat): (r: Stored) {
    match t
    case Scalar(_) => t
    case String(text) => String(FreshText(text, mp))
    case Array(es, _) => Array(FreshAll(es, mp), mp)
    case Object(ms, _) => Object(FreshSlots(ms, mp), mp)
  }

  function FreshAll(es: seq<Stored>, mp: nat): (r: seq<Stored>)
    ensures |r| == |es| && forall i :: 0 <= i < |es| ==> r[i] == Fresh(es[i], mp)
  {
    if es == [] then [] else [Fresh(es[0], mp)] + FreshAll(es[1..], mp)
  }

  function FreshSlots(ms: seq<Slot>, mp: nat): (r: seq<Slot>)
    ensures |r| == |ms| && forall i :: 0 <= i < |ms| ==> r[i] == FreshSlot(ms[i], mp)
  {
    if ms == [] then [] else [FreshSlot(ms[0], mp)] + FreshSlots(ms[1..], mp)
  }

  /** A deep copy has the same value, and nothing of it lives in another pool. */
  lemma {:induction false} FreshIsCopy(t: Stored, mp: nat)
    ensures ValueOf(Fresh(t, mp)) == ValueOf(t) && OwnedBy(Fresh(t, mp), mp)
    decreases t
  {
    match t
    case Array(es, _) =>
      forall i | 0 <= i < |es|
        ensures ValueOf(Fresh(es[i], mp)) == ValueOf(es[i]) && OwnedBy(Fresh(es[i], mp), mp)
      {
        FreshIsCopy(es[i], mp);
      }
      assert ValuesOf(FreshAll(es, mp)) == ValuesOf(es);
    case Object(ms, _) =>
      forall i | 0 <= i < |ms|
        ensures ValueOf(Fresh(ms[i].value, mp)) == ValueOf(ms[i].value) && OwnedBy(Fresh(ms[i].value, mp), mp)
      {
        FreshIsCopy(ms[i].value, mp);
      }
      assert MembersOf(FreshSlots(ms, mp)) == MembersOf(ms);
    case _ =>
  }

  // ---------- children

  function Size(t: Stored): nat {
    match t
    case Array(es, _) => |es|
    case Object(ms, _) => |ms|
    case _ => 0
  }

  function Nth(t: Stored, i: nat): (c: Stored)
    requires i < Size(t)
    ensures c < t
  {
    if t.Array? then t.elements[i] else t.members[i].value
  }

  function WithNth(t: Stored, i: nat, c: Stored): Stored
    requires i < Size(t)
  {
    if t.Array? then t.(elements := t.elements[i := c]) else t.(members := t.members[i := Slot(t.members[i].name, c)])
  }

  function WithoutNth(t: Stored, i: nat): Stored
    requires i < Size(t)
  {
    if t.Array? then t.(elements := t.elements[..i] + t.elements[i + 1..])
    else t.(members := t.members[..i] + t.members[i + 1..])
  }

  lemma NthValue(t: Stored, i: nat, c: Stored)
    requires i < Size(t)
    ensures Size(t) == Count(ValueOf(t)) && ValueOf(Nth(t, i)) == Child(ValueOf(t), i)
    ensures ValueOf(WithNth(t, i, c)) == WithChild(ValueOf(t), i, ValueOf(c))
    ensures ValueOf(WithoutNth(t, i)) == Without(ValueOf(t), i)
  {
    if t.Array? {
      ArrayValues(t.elements, i, c);
    } else {
      ObjectValues(t.members, i, Slot(t.members[i].name, c));
    }
  }

  lemma ArrayValues(es: seq<Stored>, i: nat, c: Stored)
    requires i < |es|
    ensures ValuesOf(es[i := c]) == ValuesOf(es)[i := ValueOf(c)]
    ensures ValuesOf(es[..i] + es[i + 1..]) == ValuesOf(es)[..i] + ValuesOf(es)[i + 1..]
  {
    hide ValuesOf, ValueOf;
  }

  lemma ObjectValues(ms: seq<Slot>, i: nat, m: Slot)
    requires i < |ms|
    ensures MembersOf(ms[i := m]) == MembersOf(ms)[i := MemberOf(m)]
    ensures MembersOf(ms[..i] + ms[i + 1..]) == MembersOf(ms)[..i] + MembersOf(ms)[i + 1..]
  {
    hide MembersOf, MemberOf;
  }

  // ---------- op lists

  /** An op's context: the next op, an array element or an object member. */
  datatype Op =
    | Pass(index: nat, next: Op)
    | CreateElement(index: nat, value: Stored)
    | CreateMember(index: nat, member: Slot)
    | Replace(index: nat, value: Stored)
    | Delete(index: nat)

  /** The value an op list stores, if it does. */
  function Payload(op: Op): Option<Stored> {
    match op
    case Pass(_, next) => Payload(next)
    case CreateElement(_, w) => Some(w)
    case CreateMember(_, m) => Some(m.value)
    case Replace(_, w) => Some(w)
    case Delete(_) => None
  }

  /** nxt_conf_set_string_dup: a long name is put into the pool of the request. */
  function Dup(name: Token, request: nat): Text { Text(name, if |name| > MAX_SHORT then In(request) else Inline) }

  /** The op list for a path, as nxt_conf_op_compile builds it in the pool of the request. */
  function Compile(root: Value, toks: seq<Option<Token>>, edit: Edit<Stored>, request: nat): Outcome<Op>
    requires toks != []
    decreases |toks|
  {
    if toks[0].None? then Error
    else
      var place := PlaceOf(root, toks[0].value);
      if |toks| > 1 then
        if !place.Here? then NotFound
        else
          var r := Compile(Child(root, place.index), toks[1..], edit, request);
          if r.Done? then Done(Pass(place.index, r.value)) else r
      else CompileLast(root, toks[0].value, place, edit, request)
  }

  function CompileLast(root: Value, name: Token, place: Place, edit: Edit<Stored>, request: nat): Outcome<Op>
    requires place == PlaceOf(root, name)
  {
    if place.Nowhere? && !root.Obj? then NotFound
    else
      match edit
      case Remove => if place.Here? then Done(Delete(place.index)) else NotFound
      case Post(w) =>
        if !place.Here? then NotFound
        else
          var c := Child(root, place.index);
          if c.Arr? then Done(Pass(place.index, CreateElement(|c.elements|, w))) else NotAllowed
      case Put(w) =>
        if place.Here? then Done(Replace(place.index, w))
        else if root.Arr? then
          if place.index > |root.elements| then NotFound else Done(CreateElement(place.index, w))
        else Done(CreateMember(|root.members|, Slot(Dup(name, request), w)))
  }

  /** The indices and contexts the interpreter may use without leaving its arrays. */
  predicate Fits(op: Option<Op>, t: Stored)
    decreases t
  {
    op.Some? && (t.Array? || t.Object?) ==>
      match op.value
      case Pass(i, next) => i < Size(t) && Fits(Some(next), Nth(t, i))
      case CreateElement(i, _) => t.Array? && i <= Size(t)
      case CreateMember(i, _) => t.Object? && i <= Size(t)
      case Replace(i, _) => i < Size(t)
      case Delete(i) => i < Size(t)
  }

  /** What an op list makes of a fresh copy; None is the error of an op that meets a scalar. */
  function Replay(op: Option<Op>, t: Stored, mp: nat): Option<Stored>
    requires Fits(op, t)
    decreases t
  {
    if op.None? then Some(t)
    else if !t.Array? && !t.Object? then None
    else
      match op.value
      case Pass(i, next) =>
        var c := Replay(Some(next), Nth(t, i), mp);
        if c.None? then None else Some(WithNth(t, i, c.value))
      case CreateElement(i, w) => Some(t.(elements := t.elements[..i] + [w] + t.elements[i..]))
      case CreateMember(i, m) =>
        Some(t.(members := t.members[..i] + [Slot(FreshText(m.name, mp), m.value)] + t.members[i..]))
      case Replace(i, w) => Some(WithNth(t, i, w))
      case Delete(i) => Some(WithoutNth(t, i))
  }

  /**
   * Who owns the result: everything copied lives in the new pool, and the value an op stores is not copied.  So the
   * result lives in the new pool exactly when that value does.
   */
  lemma {:induction false} ReplayOwned(op: Option<Op>, t: Stored, mp: nat)
    requires OwnedBy(t, mp) && Fits(op, t) && Replay(op, t, mp).Some?
    ensures OwnedBy(Replay(op, t, mp).value, mp) <==> Keeps(op, mp)
    decreases t
  {
    if op.Some? {
      match op.value
      case Pass(i, next) =>
        ReplayOwned(Some(next), Nth(t, i), mp);
        NthOwned(t, i, Replay(Some(next), Nth(t, i), mp).value, mp);
      case CreateElement(i, w) => ElementOwned(t, i, w, mp);
      case CreateMember(i, m) => MemberOwned(t, i, Slot(FreshText(m.name, mp), m.value), mp);
      case Replace(i, w) => NthOwned(t, i, w, mp);
      case Delete(i) =>
    }
  }

  // The value an op list stores, if any, lives in pool mp.
  predicate Keeps(op: Option<Op>, mp: nat) {
    op.Some? && Payload(op.value).Some? ==> OwnedBy(Payload(op.value).value, mp)
  }

  lemma ElementOwned(t: Stored, i: nat, w: Stored, mp: nat)
    requires t.Array? && i <= |t.elements| && OwnedBy(t, mp)
    ensures OwnedBy(t.(elements := t.elements[..i] + [w] + t.elements[i..]), mp) <==> OwnedBy(w, mp)
  {
    var es := t.elements[..i] + [w] + t.elements[i..];
    assert es[i] == w && forall k :: 0 <= k < |es| ==> k == i || es[k] == t.elements[if k < i then k else k - 1];
  }

  lemma MemberOwned(t: Stored, i: nat, m: Slot, mp: nat)
    requires t.Object? && i <= |t.members| && OwnedBy(t, mp) && Lives(m.name.home, mp)
    ensures OwnedBy(t.(members := t.members[..i] + [m] + t.members[i..]), mp) <==> OwnedBy(m.value, mp)
  {
    var ms := t.members[..i] + [m] + t.members[i..];
    assert ms[i] == m && forall k :: 0 <= k < |ms| ==> k == i || ms[k] == t.members[if k < i then k else k - 1];
  }

  lemma NthOwned(t: Stored, i: nat, c: Stored, mp: nat)
    requires OwnedBy(t, mp) && i < Size(t)
    ensures OwnedBy(Nth(t, i), mp) && (OwnedBy(WithNth(t, i, c), mp) <==> OwnedBy(c, mp))
  {
    var u := WithNth(t, i, c);
    assert Nth(u, i) == c;
    if t.Array? {
      assert u.elements[i] == c;
    } else {
      assert u.members[i].value == c;
    }
  }

  // ---------- compiling and replaying

  function ValueEdit(edit: Edit<Stored>): Edit<Value> {
    match edit
    case Put(w) => Put(ValueOf(w))
    case Post(w) => Post(ValueOf(w))
    case Remove => Remove
  }

  // What an op list stores for an edit.
  function Stores(edit: Edit<Stored>): Option<Stored> {
    if edit.Remove? then None else Some(edit.w)
  }

  /**
   * Compiling and replaying is the functional update at the path, with the same refusals; no op ever meets a scalar,
   * and what is stored is the value of the edit itself.
   */
  lemma {:induction false} CompileThenReplay(
      t: Stored, toks: seq<Option<Token>>, edit: Edit<Stored>, request: nat, mp: nat)
    requires toks != []
    ensures var c, a := Compile(ValueOf(t), toks, edit, request), Apply(ValueOf(t), toks, ValueEdit(edit));
      Agree(c, a, t, edit, mp)
    decreases |toks|
  {
    hide Apply, ApplyHere, CompileLast, Replay, Fits, Makes, ValueOf, WithChild, PlaceOf;
    if toks[0].Some? {
      var place := PlaceOf(ValueOf(t), toks[0].value);
      if |toks| > 1 {
        SplitEdit(ValueOf(t), toks, ValueEdit(edit));
        if place.Here? {
          var i := place.index;
          SizeOfValue(t);
          NthValue(t, i, t);
          CompileThenReplay(Nth(t, i), toks[1..], edit, request, mp);
          var c := Compile(Child(ValueOf(t), i), toks[1..], edit, request);
          var a := Apply(Child(ValueOf(t), i), toks[1..], ValueEdit(edit));
          if c.Done? {
            PassAgrees(c.value, a.value, t, i, edit, mp);
          }
        }
      } else {
        LastEdit(ValueOf(t), toks, ValueEdit(edit));
        LastThenReplay(t, toks[0].value, place, edit, request, mp);
      }
    } else {
      NoEdit(ValueOf(t), toks, ValueEdit(edit));
    }
  }

  // A compiled op list and the meaning of the edit it was compiled for.
  ghost predicate Agree(c: Outcome<Op>, a: Outcome<Value>, t: Stored, edit: Edit<Stored>, mp: nat) {
    && (c.Done? <==> a.Done?) && (c.NotFound? <==> a.NotFound?) && (c.NotAllowed? <==> a.NotAllowed?)
    && (c.Done? ==> Makes(c.value, a.value, t, edit, mp))
  }

  ghost predicate Makes(op: Op, v: Value, t: Stored, edit: Edit<Stored>, mp: nat) {
    && Payload(op) == Stores(edit) && Fits(Some(op), t)
    && Replay(Some(op), t, mp).Some? && ValueOf(Replay(Some(op), t, mp).value) == v
  }

  lemma SizeOfValue(t: Stored)
    ensures Size(t) == Count(ValueOf(t))
  {
  }

  lemma NoEdit(v: Value, toks: seq<Option<Token>>, edit: Edit<Value>)
    requires toks != [] && toks[0].None?
    ensures Apply(v, toks, edit) == Error
  {
  }

  lemma SplitEdit(v: Value, toks: seq<Option<Token>>, edit: Edit<Value>)
    requires |toks| > 1 && toks[0].Some?
    ensures var place := PlaceOf(v, toks[0].value);
      if !place.Here? then Apply(v, toks, edit) == NotFound
      else
        var r := Apply(Child(v, place.index), toks[1..], edit);
        Apply(v, toks, edit) == if r.Done? then Done(WithChild(v, place.index, r.value)) else r
  {
  }

  lemma LastEdit(v: Value, toks: seq<Option<Token>>, edit: Edit<Value>)
    requires |toks| == 1 && toks[0].Some?
    ensures Apply(v, toks, edit) == ApplyHere(v, toks[0].value, PlaceOf(v, toks[0].value), edit)
  {
  }

  lemma PassAgrees(op: Op, v: Value, t: Stored, i: nat, edit: Edit<Stored>, mp: nat)
    requires i < Size(t) && i < Count(ValueOf(t)) && Makes(op, v, Nth(t, i), edit, mp)
    ensures Makes(Pass(i, op), WithChild(ValueOf(t), i, v), t, edit, mp)
  {
    hide Replay, Fits, WithChild, WithNth, ValueOf;
    NthValue(t, i, Replay(Some(op), Nth(t, i), mp).value);
    ReplayPass(op, t, i, mp);
  }

  lemma ReplayPass(op: Op, t: Stored, i: nat, mp: nat)
    requires i < Size(t) && Fits(Some(op), Nth(t, i)) && Replay(Some(op), Nth(t, i), mp).Some?
    ensures Fits(Some(Pass(i, op)), t)
    ensures Replay(Some(Pass(i, op)), t, mp) == Some(WithNth(t, i, Replay(Some(op), Nth(t, i), mp).value))
  {
  }

  lemma LastThenReplay(t: Stored, name: Token, place: Place, edit: Edit<Stored>, request: nat, mp: nat)
    requires place == PlaceOf(ValueOf(t), name)
    ensures Agree(
      CompileLast(ValueOf(t), name, place, edit, request),
      ApplyHere(ValueOf(t), name, place, ValueEdit(edit)), t, edit, mp)
  {
    hide Replay, Fits, WithChild, Without, WithNth, WithoutNth, Makes, PlaceOf;
    SizeOfValue(t);
    if place.Here? {
      LastHere(t, place.index, edit, mp);
    } else if edit.Put? {
      PlaceKind(ValueOf(t), name);
      if t.Object? {
        LastMember(t, Dup(name, request), edit, mp);
      } else if t.Array? {
        LastElement(t, edit, mp);
      }
    }
  }

  lemma PlaceKind(v: Value, name: Token)
    ensures v.Obj? ==> !PlaceOf(v, name).Beyond?
    ensures !v.Obj? && !v.Arr? ==> PlaceOf(v, name).Nowhere?
  {
  }

  lemma LastHere(t: Stored, i: nat, edit: Edit<Stored>, mp: nat)
    requires i < Size(t) && Size(t) == Count(ValueOf(t))
    ensures Nth(t, i).Array? <==> Child(ValueOf(t), i).Arr?
    ensures edit.Remove? ==> Makes(Delete(i), Without(ValueOf(t), i), t, edit, mp)
    ensures edit.Put? ==> Makes(Replace(i, edit.w), WithChild(ValueOf(t), i, ValueOf(edit.w)), t, edit, mp)
    ensures edit.Post? && Nth(t, i).Array? ==>
      var es := Child(ValueOf(t), i).elements;
      Makes(Pass(i, CreateElement(|es|, edit.w)), WithChild(ValueOf(t), i, Arr(es + [ValueOf(edit.w)])), t, edit, mp)
  {
    hide WithNth, WithoutNth, WithChild, Without, Makes;
    NthValue(t, i, if edit.Remove? then t else edit.w);
    if edit.Post? {
      if Nth(t, i).Array? {
        var es := Child(ValueOf(t), i).elements;
        LastElement(Nth(t, i), edit, mp);
        PassAgrees(CreateElement(|es|, edit.w), Arr(es + [ValueOf(edit.w)]), t, i, edit, mp);
      }
    } else {
      LastChanges(t, i, edit, mp);
    }
  }

  lemma LastChanges(t: Stored, i: nat, edit: Edit<Stored>, mp: nat)
    requires i < Size(t) && Size(t) == Count(ValueOf(t))
    ensures edit.Remove? ==> Makes(Delete(i), Without(ValueOf(t), i), t, edit, mp)
    ensures edit.Put? ==> Makes(Replace(i, edit.w), WithChild(ValueOf(t), i, ValueOf(edit.w)), t, edit, mp)
  {
    hide WithNth, WithoutNth, WithChild, Without, ValueOf, OwnedBy;
    NthValue(t, i, if edit.Remove? then t else edit.w);
  }

  lemma LastElement(t: Stored, edit: Edit<Stored>, mp: nat)
    requires t.Array? && !edit.Remove?
    ensures ValueOf(t).Arr? && |t.elements| == |ValueOf(t).elements|
    ensures Makes(CreateElement(|t.elements|, edit.w), Arr(ValueOf(t).elements + [ValueOf(edit.w)]), t, edit, mp)
  {
    AtTheEnd(t.elements, edit.w);
    Appended(t.elements, edit.w);
  }

  lemma LastMember(t: Stored, name: Text, edit: Edit<Stored>, mp: nat)
    requires t.Object? && edit.Put?
    ensures ValueOf(t).Obj? && |t.members| == |ValueOf(t).members|
    ensures Makes(CreateMember(|t.members|, Slot(name, edit.w)),
      Obj(ValueOf(t).members + [Member(name.bytes, ValueOf(edit.w))]), t, edit, mp)
  {
    var m := Slot(FreshText(name, mp), edit.w);
    AtTheEnd(t.members, m);
    AppendedMember(t.members, m);
  }

  lemma AtTheEnd<T>(s: seq<T>, w: T)
    ensures s[..|s|] + [w] + s[|s|..] == s + [w]
  {
  }

  lemma Appended(es: seq<Stored>, w: Stored)
    ensures ValuesOf(es + [w]) == ValuesOf(es) + [ValueOf(w)]
  {
    hide ValuesOf, ValueOf;
  }

  lemma AppendedMember(ms: seq<Slot>, m: Slot)
    ensures MembersOf(ms + [m]) == MembersOf(ms) + [MemberOf(m)]
  {
    hide MembersOf, MemberOf;
  }

  // ---------- the compiler as it runs

  // The ops passed so far, around the rest of the list.
  function Wrap(passed: seq<nat>, r: Outcome<Op>): Outcome<Op> {
    if passed == [] then r
    else
      var last := |passed| - 1;
      Wrap(passed[..last], if r.Done? then Done(Pass(passed[last], r.value)) else r)
  }

  /** nxt_conf_op_compile, with allocation always succeeding */
  method OpCompile(conf: Value, path: seq<Byte>, edit: Edit<Stored>, request: nat) returns (r: Outcome<Op>)
    ensures r == Compile(conf, Tokens(path, 0), edit, request)
  {
    var root, p: nat, passed: seq<nat> := conf, 0, [];
    while true
      invariant p <= |path|
      invariant Compile(conf, Tokens(path, 0), edit, request) ==
        Wrap(passed, Compile(root, Tokens(path, p), edit, request))
      decreases |path| - p, root
    {
      var token, next, last := NextToken(path, p);
      ghost var toks := Tokens(path, p);
      WrapError(passed);
      if token.None? {
        return Error;
      }
      var place := FindPlace(root, token.value);
      if last {
        r := CompileLast(root, token.value, place, edit, request);
        r := WrapUp(passed, r);
        return;
      }
      if !place.Here? {
        return NotFound;
      }
      assert toks[1..] == Tokens(path, next);
      WrapOne(passed, place.index, Compile(Child(root, place.index), Tokens(path, next), edit, request));
      passed := passed + [place.index];
      root, p := Child(root, place.index), next;
    }
  }

  // The parent pointers: each passed op holds the next one.
  method WrapUp(passed: seq<nat>, last: Outcome<Op>) returns (r: Outcome<Op>)
    ensures r == Wrap(passed, last)
  {
    r := last;
    var n := |passed|;
    assert passed[..n] == passed;
    while n > 0
      invariant 0 <= n <= |passed| && Wrap(passed[..n], r) == Wrap(passed, last)
    {
      n := n - 1;
      assert passed[..n + 1][..n] == passed[..n];
      if r.Done? {
        r := Done(Pass(passed[n], r.value));
      }
    }
  }

  lemma {:induction false} WrapError(passed: seq<nat>)
    ensures Wrap(passed, Error) == Error && Wrap(passed, NotFound) == NotFound && Wrap(passed, NotAllowed) == NotAllowed
    decreases |passed|
  {
    if passed != [] {
      WrapError(passed[..|passed| - 1]);
    }
  }

  lemma WrapOne(passed: seq<nat>, i: nat, r: Outcome<Op>)
    ensures Wrap(passed + [i], r) == Wrap(passed, if r.Done? then Done(Pass(i, r.value)) else r)
  {
    assert (passed + [i])[..|passed|] == passed;
  }

  // ---------- the interpreter as it runs

  // A copy has the children of the original, each copied.
  lemma FreshNth(t: Stored, op: Option<Op>, mp: nat)
    requires Fits(op, t)
    ensures Fits(op, Fresh(t, mp))
    decreases t
  {
    if op.Some? && op.value.Pass? && (t.Array? || t.Object?) {
      FreshNth(Nth(t, op.value.index), Some(op.value.next), mp);
    }
  }

  /** nxt_conf_copy_value: copies a value into pool mp, replaying an op list on the way. */
  method CopyValue(mp: nat, op: Option<Op>, src: Stored) returns (dst: Option<Stored>)
    requires Fits(op, src)
    ensures Fits(op, Fresh(src, mp)) && dst == Replay(op, Fresh(src, mp), mp)
    ensures dst.Some? ==> (OwnedBy(dst.value, mp) <==> Keeps(op, mp))
    decreases src, 2
  {
    hide Keeps, OwnedBy;
    FreshNth(src, op, mp);
    FreshIsCopy(src, mp);
    if Replay(op, Fresh(src, mp), mp).Some? {
      ReplayOwned(op, Fresh(src, mp), mp);
    }
    if op.Some? && !src.Array? && !src.Object? {
      return None;
    }
    match src
    case String(text) =>
      dst := Some(String(if text.home == Inline then text else Text(text.bytes, In(mp))));
    case Array(_, _) =>
      dst := CopyArray(mp, op, src);
    case Object(_, _) =>
      dst := CopyObject(mp, op, src);
    case Scalar(_) =>
      dst := Some(src);
  }

  // The copy of a member's name, which no op list concerns.
  method CopyName(mp: nat, name: Text) returns (copy: Text)
    ensures copy == FreshText(name, mp)
  {
    copy := if name.home == Inline then name else Text(name.bytes, In(mp));
  }

  function NewCount(op: Option<Op>, count: nat): int {
    if op.None? then count
    else
      match op.value
      case CreateElement(_, _) => count + 1
      case CreateMember(_, _) => count + 1
      case Delete(_) => count - 1
      case _ => count
  }

  // The children before a passed one have been copied.
  ghost predicate Halfway<T>(start: Option<Op>, fs: seq<T>, pass: Option<Op>, s: nat, index: nat, dst: seq<T>) {
    pass.Some? && start == Some(Pass(s, pass.value)) && index == s + 1 && s <= |fs| && dst == fs[..s]
  }

  // What is left to do is a plain copy: fs are the copies of all elements.
  ghost predicate PlainRest(mp: nat, start: Option<Op>, fs: seq<Stored>, s: nat, dst: seq<Stored>)
    requires Fits(start, Array(fs, mp))
  {
    s <= |fs| && Replay(start, Array(fs, mp), mp) == Some(Array(dst + fs[s..], mp))
  }

  // Takes an op whose index has been reached.
  method ReplayElement(mp: nat, start: Option<Op>, ghost fs: seq<Stored>, index: nat, done: seq<Stored>)
    returns (pass: Option<Op>, index': nat, s: nat, dst: seq<Stored>)
    requires Fits(start, Array(fs, mp)) && start.Some? && index == start.value.index && done == fs[..index]
    ensures if pass.Some? then Halfway(start, fs, pass, s, index', dst) else PlainRest(mp, start, fs, s, dst)
  {
    hide Replay, PlainRest;
    pass, index', s, dst := None, index, index, done;
    match start.value {
      case Pass(_, next) =>
        pass, index' := Some(next), index + 1;
      case CreateElement(_, w) =>
        AfterCreate(mp, fs, index, w);
        dst := dst + [w];
      case Replace(_, w) =>
        AfterReplace(mp, fs, index, w);
        dst, s := dst + [w], s + 1;
      case Delete(_) =>
        AfterDelete(mp, fs, index);
        s := s + 1;
    }
  }

  /** nxt_conf_copy_array */
  method CopyArray(mp: nat, start: Option<Op>, src: Stored) returns (r: Option<Stored>)
    requires src.Array? && Fits(start, src)
    ensures Fits(start, Fresh(src, mp)) && r == Replay(start, Fresh(src, mp), mp)
    decreases src, 1
  {
    hide Fits, Replay, Halfway, PlainRest, Fresh, FreshAll;
    var es := src.elements;
    ghost var fs := FreshAll(es, mp);
    var count := NewCount(start, |es|);
    var op: Option<Op>, pass: Option<Op>, s: nat, index: nat, dst: seq<Stored> := start, None, 0, 0, [];
    Start(mp, start, src);
    while true
      invariant op.Some? ==> op == start && pass.None? && s == 0 && dst == []
      invariant op.None? && pass.Some? ==> Halfway(start, fs, pass, s, index, dst)
      invariant op.None? && pass.None? ==> PlainRest(mp, start, fs, s, dst)
      decreases if op.Some? then 2 else if pass.Some? then 1 else 0
    {
      if pass.None? {
        index := if op.None? then |es| else op.value.index;
      }
      ghost var done, from := dst, s;
      Ahead(mp, start, src, op, pass, s, index, dst);
      var ok;
      ok, s, dst := CopyUntil(mp, pass, es, s, index, dst);
      if !ok {
        PassFails(mp, start, Fresh(src, mp), pass, index);
        return None;
      }
      if pass.Some? {
        AfterPass(mp, start, fs, pass, index, done, dst);
        pass := None;
      } else if op.Some? {
        assert [] + fs[0..index] == fs[..index];
        pass, index, s, dst := ReplayElement(mp, start, fs, index, dst);
        op := None;
      } else {
        AtEnd(mp, start, fs, from, done, dst);
      }
      RoundCount(mp, start, fs, pass, s, index, dst);
      if |dst| == count {
        break;
      }
    }
    AllCopied(mp, start, fs, s, dst);
    r := Some(Array(dst, mp));
  }

  // Without an op everything is a plain copy.
  lemma Start(mp: nat, start: Option<Op>, src: Stored)
    requires src.Array? && Fits(start, src)
    ensures var fs := FreshAll(src.elements, mp);
      && Fresh(src, mp) == Array(fs, mp) && Fits(start, Array(fs, mp))
      && (start.None? ==> PlainRest(mp, start, fs, 0, []))
  {
    FreshNth(src, start, mp);
    var fs := FreshAll(src.elements, mp);
    assert [] + fs[0..] == fs;
  }

  // How far the inner loop may go.
  lemma Ahead(
      mp: nat, start: Option<Op>, src: Stored, op: Option<Op>, pass: Option<Op>, s: nat, index: nat, dst: seq<Stored>)
    requires src.Array? && Fits(start, src) && Fits(start, Array(FreshAll(src.elements, mp), mp))
    requires op.Some? ==> op == start && pass.None? && s == 0 && dst == [] && index == start.value.index
    requires op.None? && pass.Some? ==> Halfway(start, FreshAll(src.elements, mp), pass, s, index, dst)
    requires op.None? && pass.None? ==>
      PlainRest(mp, start, FreshAll(src.elements, mp), s, dst) && index == |src.elements|
    ensures s <= index <= |src.elements|
    ensures pass.Some? ==> index == s + 1 && start == Some(Pass(s, pass.value)) && Fits(pass, src.elements[s])
    ensures pass.Some? ==> dst == FreshAll(src.elements, mp)[..s]
  {
  }

  // The child of a passed op cannot be copied.
  lemma PassFails(mp: nat, start: Option<Op>, t: Stored, pass: Option<Op>, index: nat)
    requires Fits(start, t) && pass.Some? && 0 < index <= Size(t) && start == Some(Pass(index - 1, pass.value))
    ensures Fits(pass, Nth(t, index - 1))
    ensures Replay(pass, Nth(t, index - 1), mp).None? ==> Replay(start, t, mp).None?
  {
  }

  // The child of a passed op has been copied.
  lemma AfterPass(
      mp: nat, start: Option<Op>, fs: seq<Stored>, pass: Option<Op>, index: nat, done: seq<Stored>, dst: seq<Stored>)
    requires Fits(start, Array(fs, mp)) && pass.Some? && 0 < index <= |fs| && start == Some(Pass(index - 1, pass.value))
    requires Fits(pass, fs[index - 1]) && Replay(pass, fs[index - 1], mp).Some?
    requires done == fs[..index - 1] && dst == done + [Replay(pass, fs[index - 1], mp).value]
    ensures PlainRest(mp, start, fs, index, dst)
  {
    assert dst + fs[index..] == fs[index - 1 := Replay(pass, fs[index - 1], mp).value];
  }

  // The elements before the op's index have been copied, and the op has been taken.
  lemma AfterReplace(mp: nat, fs: seq<Stored>, index: nat, w: Stored)
    requires index < |fs|
    ensures PlainRest(mp, Some(Replace(index, w)), fs, index + 1, fs[..index] + [w])
  {
    assert fs[..index] + [w] + fs[index + 1..] == fs[index := w];
  }

  lemma AfterCreate(mp: nat, fs: seq<Stored>, index: nat, w: Stored)
    requires index <= |fs|
    ensures PlainRest(mp, Some(CreateElement(index, w)), fs, index, fs[..index] + [w])
  {
  }

  lemma AfterDelete(mp: nat, fs: seq<Stored>, index: nat)
    requires index < |fs|
    ensures PlainRest(mp, Some(Delete(index)), fs, index + 1, fs[..index])
  {
  }

  // The last elements have been copied.
  lemma AtEnd(mp: nat, start: Option<Op>, fs: seq<Stored>, s: nat, done: seq<Stored>, dst: seq<Stored>)
    requires Fits(start, Array(fs, mp)) && PlainRest(mp, start, fs, s, done) && dst == done + fs[s..|fs|]
    ensures PlainRest(mp, start, fs, |fs|, dst)
  {
    assert dst + fs[|fs|..] == done + fs[s..];
  }

  lemma AllCopied(mp: nat, start: Option<Op>, fs: seq<Stored>, s: nat, dst: seq<Stored>)
    requires Fits(start, Array(fs, mp)) && PlainRest(mp, start, fs, s, dst) && s == |fs|
    ensures Replay(start, Array(fs, mp), mp) == Some(Array(dst, mp))
  {
    assert dst + fs[s..] == dst;
  }

  // The destination is complete exactly when nothing is left to copy.
  lemma RoundCount(
      mp: nat, start: Option<Op>, fs: seq<Stored>, pass: Option<Op>, s: nat, index: nat, dst: seq<Stored>)
    requires Fits(start, Array(fs, mp))
    requires if pass.Some? then Halfway(start, fs, pass, s, index, dst) else PlainRest(mp, start, fs, s, dst)
    ensures |dst| == NewCount(start, |fs|) <==> pass.None? && s == |fs|
  {
    if pass.None? {
      ReplayCount(start, Array(fs, mp), mp);
      assert |dst + fs[s..]| == |dst| + (|fs| - s);
    }
  }

  lemma ReplayCount(start: Option<Op>, t: Stored, mp: nat)
    requires Fits(start, t) && (t.Array? || t.Object?)
    ensures Replay(start, t, mp).Some? ==> Size(Replay(start, t, mp).value) == NewCount(start, Size(t))
  {
  }

  // The inner loop: copies elements up to index, through the passed op if there is one.
  method CopyUntil(mp: nat, pass: Option<Op>, es: seq<Stored>, from: nat, index: nat, done: seq<Stored>)
    returns (ok: bool, s: nat, dst: seq<Stored>)
    requires from <= index <= |es| && (pass.Some? ==> index == from + 1 && Fits(pass, es[from]))
    ensures pass.None? ==> ok && dst == done + FreshAll(es, mp)[from..index]
    ensures pass.Some? ==> Fits(pass, FreshAll(es, mp)[from])
    ensures pass.Some? ==> (ok <==> Replay(pass, FreshAll(es, mp)[from], mp).Some?)
    ensures pass.Some? && ok ==> dst == done + [Replay(pass, FreshAll(es, mp)[from], mp).value]
    ensures ok ==> s == index
    decreases es, 0
  {
    hide Fits, Fresh, FreshAll;
    ghost var fs := FreshAll(es, mp);
    ok, s, dst := true, from, done;
    assert fs[from..from] == [] && done + [] == done;
    if pass.Some? {
      FreshNth(es[from], pass, mp);
    }
    while s != index
      invariant from <= s <= index && (pass.Some? ==> Fits(pass, fs[from]))
      invariant pass.None? ==> dst == done + fs[from..s]
      invariant pass.Some? && s == from ==> dst == done
      invariant pass.Some? && s > from ==> Replay(pass, fs[from], mp).Some?
      invariant pass.Some? && s > from ==> dst == done + [Replay(pass, fs[from], mp).value]
    {
      NoOp(es[s]);
      var copy := CopyValue(mp, pass, es[s]);
      if copy.None? {
        ok := false;
        return;
      }
      dst := dst + [copy.value];
      s := s + 1;
      assert pass.None? ==> done + fs[from..s - 1] + [fs[s - 1]] == done + fs[from..s];
    }
  }

  lemma NoOp(t: Stored)
    ensures Fits(None, t)
  {
  }

  /** nxt_conf_copy_object */
  method CopyObject(mp: nat, start: Option<Op>, src: Stored) returns (r: Option<Stored>)
    requires src.Object? && Fits(start, src)
    ensures Fits(start, Fresh(src, mp)) && r == Replay(start, Fresh(src, mp), mp)
    decreases src, 1
  {
    hide Fits, Replay, Halfway, PlainMembers, Fresh, FreshSlots;
    var ms := src.members;
    ghost var fs := FreshSlots(ms, mp);
    var count := NewCount(start, |ms|);
    var op: Option<Op>, pass: Option<Op>, s: nat, index: nat, dst: seq<Slot> := start, None, 0, 0, [];
    StartMembers(mp, start, src);
    while true
      invariant op.Some? ==> op == start && pass.None? && s == 0 && dst == []
      invariant op.None? && pass.Some? ==> Halfway(start, fs, pass, s, index, dst)
      invariant op.None? && pass.None? ==> PlainMembers(mp, start, fs, s, dst)
      decreases if op.Some? then 2 else if pass.Some? then 1 else 0
    {
      if pass.None? {
        index := if op.None? then |ms| else op.value.index;
      }
      ghost var done, from := dst, s;
      MembersAhead(mp, start, src, op, pass, s, index, dst);
      var ok;
      ok, s, dst := CopyMembersUntil(mp, pass, ms, s, index, dst);
      if !ok {
        PassFails(mp, start, Fresh(src, mp), pass, index);
        return None;
      }
      if pass.Some? {
        AfterMemberPass(mp, start, fs, pass, index, done, dst);
        pass := None;
      } else if op.Some? {
        assert [] + fs[0..index] == fs[..index];
        pass, index, s, dst := ReplayMember(mp, start, ms, index, dst);
        op := None;
      } else {
        AtMembersEnd(mp, start, fs, from, done, dst);
      }
      MemberCount(mp, start, fs, pass, s, index, dst);
      if |dst| == count {
        break;
      }
    }
    AllMembersCopied(mp, start, fs, s, dst);
    r := Some(Object(dst, mp));
  }

  // What is left to do is a plain copy: fs are the copies of all members.
  ghost predicate PlainMembers(mp: nat, start: Option<Op>, fs: seq<Slot>, s: nat, dst: seq<Slot>)
    requires Fits(start, Object(fs, mp))
  {
    s <= |fs| && Replay(start, Object(fs, mp), mp) == Some(Object(dst + fs[s..], mp))
  }

  // Takes an op whose index has been reached.
  method ReplayMember(mp: nat, start: Option<Op>, ms: seq<Slot>, index: nat, done: seq<Slot>)
    returns (pass: Option<Op>, index': nat, s: nat, dst: seq<Slot>)
    requires Fits(start, Object(FreshSlots(ms, mp), mp)) && start.Some? && index == start.value.index
    requires done == FreshSlots(ms, mp)[..index]
    ensures var fs := FreshSlots(ms, mp);
      if pass.Some? then Halfway(start, fs, pass, s, index', dst) else PlainMembers(mp, start, fs, s, dst)
  {
    hide Replay, PlainMembers;
    ghost var fs := FreshSlots(ms, mp);
    pass, index', s, dst := None, index, index, done;
    match start.value {
      case Pass(_, next) =>
        pass, index' := Some(next), index + 1;
      case CreateMember(_, m) =>
        AfterMemberCreate(mp, fs, index, m);
        var name := CopyName(mp, m.name);
        dst := dst + [Slot(name, m.value)];
      case Replace(_, w) =>
        AfterMemberReplace(mp, fs, index, w);
        var name := CopyName(mp, ms[s].name);
        dst, s := dst + [Slot(name, w)], s + 1;
      case Delete(_) =>
        AfterMemberDelete(mp, fs, index);
        s := s + 1;
    }
  }

  // Without an op everything is a plain copy.
  lemma StartMembers(mp: nat, start: Option<Op>, src: Stored)
    requires src.Object? && Fits(start, src)
    ensures var fs := FreshSlots(src.members, mp);
      && Fresh(src, mp) == Object(fs, mp) && Fits(start, Object(fs, mp))
      && (start.None? ==> PlainMembers(mp, start, fs, 0, []))
  {
    FreshNth(src, start, mp);
    var fs := FreshSlots(src.members, mp);
    assert [] + fs[0..] == fs;
  }

  // How far the inner loop may go.
  lemma MembersAhead(
      mp: nat, start: Option<Op>, src: Stored, op: Option<Op>, pass: Option<Op>, s: nat, index: nat, dst: seq<Slot>)
    requires src.Object? && Fits(start, src) && Fits(start, Object(FreshSlots(src.members, mp), mp))
    requires op.Some? ==> op == start && pass.None? && s == 0 && dst == [] && index == start.value.index
    requires op.None? && pass.Some? ==> Halfway(start, FreshSlots(src.members, mp), pass, s, index, dst)
    requires op.None? && pass.None? ==>
      PlainMembers(mp, start, FreshSlots(src.members, mp), s, dst) && index == |src.members|
    ensures s <= index <= |src.members|
    ensures pass.Some? ==> index == s + 1 && start == Some(Pass(s, pass.value)) && Fits(pass, src.members[s].value)
    ensures pass.Some? ==> dst == FreshSlots(src.members, mp)[..s]
  {
  }

  // The child of a passed op has been copied.
  lemma AfterMemberPass(
      mp: nat, start: Option<Op>, fs: seq<Slot>, pass: Option<Op>, index: nat, done: seq<Slot>, dst: seq<Slot>)
    requires Fits(start, Object(fs, mp)) && pass.Some? && 0 < index <= |fs|
    requires start == Some(Pass(index - 1, pass.value))
    requires Fits(pass, fs[index - 1].value) && Replay(pass, fs[index - 1].value, mp).Some?
    requires done == fs[..index - 1]
    requires dst == done + [Slot(fs[index - 1].name, Replay(pass, fs[index - 1].value, mp).value)]
    ensures PlainMembers(mp, start, fs, index, dst)
  {
    var m := Slot(fs[index - 1].name, Replay(pass, fs[index - 1].value, mp).value);
    assert dst + fs[index..] == fs[index - 1 := m];
  }

  // The members before the op's index have been copied, and the op has been taken.
  lemma AfterMemberReplace(mp: nat, fs: seq<Slot>, index: nat, w: Stored)
    requires index < |fs|
    ensures PlainMembers(mp, Some(Replace(index, w)), fs, index + 1, fs[..index] + [Slot(fs[index].name, w)])
  {
    var m := Slot(fs[index].name, w);
    assert fs[..index] + [m] + fs[index + 1..] == fs[index := m];
  }

  lemma AfterMemberCreate(mp: nat, fs: seq<Slot>, index: nat, m: Slot)
    requires index <= |fs|
    ensures PlainMembers(
      mp, Some(CreateMember(index, m)), fs, index, fs[..index] + [Slot(FreshText(m.name, mp), m.value)])
  {
  }

  lemma AfterMemberDelete(mp: nat, fs: seq<Slot>, index: nat)
    requires index < |fs|
    ensures PlainMembers(mp, Some(Delete(index)), fs, index + 1, fs[..index])
  {
  }

  // The last members have been copied.
  lemma AtMembersEnd(mp: nat, start: Option<Op>, fs: seq<Slot>, s: nat, done: seq<Slot>, dst: seq<Slot>)
    requires Fits(start, Object(fs, mp)) && PlainMembers(mp, start, fs, s, done) && dst == done + fs[s..|fs|]
    ensures PlainMembers(mp, start, fs, |fs|, dst)
  {
    assert dst + fs[|fs|..] == done + fs[s..];
  }

  lemma AllMembersCopied(mp: nat, start: Option<Op>, fs: seq<Slot>, s: nat, dst: seq<Slot>)
    requires Fits(start, Object(fs, mp)) && PlainMembers(mp, start, fs, s, dst) && s == |fs|
    ensures Replay(start, Object(fs, mp), mp) == Some(Object(dst, mp))
  {
    assert dst + fs[s..] == dst;
  }

  // The destination is complete exactly when nothing is left to copy.
  lemma MemberCount(mp: nat, start: Option<Op>, fs: seq<Slot>, pass: Option<Op>, s: nat, index: nat, dst: seq<Slot>)
    requires Fits(start, Object(fs, mp))
    requires if pass.Some? then Halfway(start, fs, pass, s, index, dst) else PlainMembers(mp, start, fs, s, dst)
    ensures |dst| == NewCount(start, |fs|) <==> pass.None? && s == |fs|
  {
    if pass.None? {
      ReplayCount(start, Object(fs, mp), mp);
      assert |dst + fs[s..]| == |dst| + (|fs| - s);
    }
  }

  // The inner loop: copies members up to index, through the passed op if there is one.
  method CopyMembersUntil(mp: nat, pass: Option<Op>, ms: seq<Slot>, from: nat, index: nat, done: seq<Slot>)
    returns (ok: bool, s: nat, dst: seq<Slot>)
    requires from <= index <= |ms| && (pass.Some? ==> index == from + 1 && Fits(pass, ms[from].value))
    ensures pass.None? ==> ok && dst == done + FreshSlots(ms, mp)[from..index]
    ensures pass.Some? ==> Fits(pass, FreshSlots(ms, mp)[from].value)
    ensures pass.Some? ==> (ok <==> Replay(pass, FreshSlots(ms, mp)[from].value, mp).Some?)
    ensures pass.Some? && ok ==>
      var f := FreshSlots(ms, mp)[from];
      dst == done + [Slot(f.name, Replay(pass, f.value, mp).value)]
    ensures ok ==> s == index
    decreases ms, 0
  {
    hide Fits, Fresh, FreshSlots;
    ghost var fs := FreshSlots(ms, mp);
    ok, s, dst := true, from, done;
    assert fs[from..from] == [] && done + [] == done;
    if pass.Some? {
      FreshNth(ms[from].value, pass, mp);
    }
    while s != index
      invariant from <= s <= index && (pass.Some? ==> Fits(pass, fs[from].value))
      invariant pass.None? ==> dst == done + fs[from..s]
      invariant pass.Some? && s == from ==> dst == done
      invariant pass.Some? && s > from ==> Replay(pass, fs[from].value, mp).Some?
      invariant pass.Some? && s > from ==> dst == done + [Slot(fs[from].name, Replay(pass, fs[from].value, mp).value)]
    {
      NoOp(ms[s].value);
      var name := CopyName(mp, ms[s].name);
      assert ms[s].value < ms[s];
      var copy := CopyValue(mp, pass, ms[s].value);
      if copy.None? {
        ok := false;
        return;
      }
      dst := dst + [Slot(name, copy.value)];
      s := s + 1;
      assert pass.None? ==> done + fs[from..s - 1] + [fs[s - 1]] == done + fs[from..s];
    }
  }

  /**
   * Compile, then clone into the pool of the new configuration: the result is the functional update of the old one, or
   * the same refusal, and nothing of it lives elsewhere but what the edit's own value brings along.
   */
  method EditConf(conf: Stored, path: seq<Byte>, edit: Edit<Stored>, mp: nat, request: nat) returns (r: Outcome<Stored>)
    ensures var a := Apply(ValueOf(conf), Tokens(path, 0), ValueEdit(edit));
      && (r.Done? <==> a.Done?) && (r.NotFound? <==> a.NotFound?) && (r.NotAllowed? <==> a.NotAllowed?)
      && (r.Done? ==> ValueOf(r.value) == a.value)
    ensures r.Done? ==> (OwnedBy(r.value, mp) <==> edit.Remove? || OwnedBy(edit.w, mp))
  {
    hide Apply, Compile, Tokens, Replay, Fits, Fresh, ValueOf, OwnedBy;
    FreshIsCopy(conf, mp);
    CompileThenReplay(conf, Tokens(path, 0), edit, request, mp);
    CompileThenReplay(Fresh(conf, mp), Tokens(path, 0), edit, request, mp);
    var op := OpCompile(ValueOf(conf), path, edit, request);
    match op
    case Done(o) =>
      var copy := CopyValue(mp, Some(o), conf);
      r := Done(copy.value);
    case NotFound => r := NotFound;
    case NotAllowed => r := NotAllowed;
    case Error => r := Error;
  }
}
