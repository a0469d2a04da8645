/** Paths into a configuration and what an edit at a path means: src/nxt_conf.c:1747-1880 and 2024-2197. */
module ConfOps {
  import opened Bytes
  import opened Strings
  import opened JsonPrint

  type Token = seq<Byte>

  const SLASH: Byte := 0x2F
  const MAX_TOKEN: nat := 256
  const INT32_MAX: nat := 0x7FFFFFFF
  const INT64_MAX: nat := 0x7FFFFFFFFFFFFFFF

  // ---------- path tokens

  function SegmentEnd(path: seq<Byte>, p: nat): (e: nat)
    requires p <= |path|
    ensures p <= e <= |path|
    decreases |path| - p
  {
    if p < |path| && path[p] != SLASH then SegmentEnd(path, p + 1) else p
  }

  /** The decoded tokens of a path; None where a token is too long or badly escaped.  The first byte is skipped. */
  function Tokens(path: seq<Byte>, p: nat): (r: seq<Option<Token>>)
    requires p <= |path|
    ensures r != []
    decreases |path| - p
  {
    if p == |path| then [Some([])]
    else
      var e := SegmentEnd(path, p + 1);
      var token := if e - (p + 1) > MAX_TOKEN then None else Unescaped(path[p + 1..e]);
      [token] + if e == |path| then [] else Tokens(path, e)
  }

  /** nxt_conf_path_next_token */
  method NextToken(path: seq<Byte>, p: nat) returns (token: Option<Token>, next: nat, last: bool)
    requires p <= |path|
    ensures next <= |path| && (last <==> next == |path|) && (!last ==> p < next)
    ensures Tokens(path, p) == [token] + if last then [] else Tokens(path, next)
  {
    if p == |path| {
      return Some([]), p, true;
    }
    next := p + 1;
    while next < |path| && path[next] != SLASH
      invariant p < next <= |path| && SegmentEnd(path, p + 1) == SegmentEnd(path, next)
    {
      next := next + 1;
    }
    last := next == |path|;
    token := None;
    if next - (p + 1) <= MAX_TOKEN {
      token := DecodeUri(path[p + 1..next]);
    }
  }

  /** nxt_int_parse: None for anything but a decimal number that fits 64 bits. */
  function IntOf(t: Token): Option<nat> {
    if t == [] then None else DigitsOf(t, 0)
  }

  function DigitsOf(t: Token, val: nat): Option<nat> {
    if t == [] then Some(val)
    else if !(0x30 <= t[0] <= 0x39) || val * 10 + (t[0] - 0x30) > INT64_MAX then None
    else DigitsOf(t[1..], val * 10 + (t[0] - 0x30))
  }

  method IntParse(t: Token) returns (r: Option<nat>)
    ensures r == IntOf(t)
  {
    if t == [] {
      return None;
    }
    var val: nat, i: nat := 0, 0;
    assert t[0..] == t;
    while i < |t|
      invariant i <= |t| && DigitsOf(t, 0) == DigitsOf(t[i..], val)
    {
      assert t[i..][1..] == t[i + 1..];
      if !(0x30 <= t[i] <= 0x39) {
        return None;
      }
      var c: nat := t[i] - 0x30;
      var cutoff, cutlim := INT64_MAX / 10, INT64_MAX % 10;
      if val >= cutoff && (val > cutoff || c > cutlim) {
        return None;
      }
      val := val * 10 + c;
      i := i + 1;
    }
    return Some(val);
  }

  // ---------- children

  // The first member with the name.
  function FindMember(ms: seq<Member>, name: Token, from: nat): (r: Option<nat>)
    requires from <= |ms|
    ensures r.Some? ==> from <= r.value < |ms| && ms[r.value].name == name
    decreases |ms| - from
  {
    if from == |ms| then None
    else if ms[from].name == name then Some(from)
    else FindMember(ms, name, from + 1)
  }

  /** nxt_conf_get_object_member */
  method GetMember(ms: seq<Member>, name: Token) returns (r: Option<nat>)
    ensures r == FindMember(ms, name, 0)
  {
    var n := 0;
    while n < |ms|
      invariant 0 <= n <= |ms| && FindMember(ms, name, 0) == FindMember(ms, name, n)
    {
      if ms[n].name == name {
        return Some(n);
      }
      n := n + 1;
    }
    return None;
  }

  /** The position a token names in a container: of an existing child or, in an array, any 31-bit number. */
  datatype Place = Here(index: nat) | Beyond(index: nat) | Nowhere

  function PlaceOf(v: Value, t: Token): (r: Place)
    ensures r.Here? ==> r.index < Count(v)
    ensures r.Beyond? ==> v.Arr? && r.index >= Count(v)
  {
    match v
    case Obj(ms) =>
      var i := FindMember(ms, t, 0);
      if i.None? then Nowhere else Here(i.value)
    case Arr(es) =>
      var i := IntOf(t);
      if i.None? || i.value > INT32_MAX then Nowhere
      else if i.value < |es| then Here(i.value)
      else Beyond(i.value)
    case _ => Nowhere
  }

  function Count(v: Value): nat {
    match v
    case Arr(es) => |es|
    case Obj(ms) => |ms|
    case _ => 0
  }

  function Child(v: Value, i: nat): (c: Value)
    requires i < Count(v)
    ensures c < v
  {
    if v.Arr? then v.elements[i] else v.members[i].value
  }

  function WithChild(v: Value, i: nat, c: Value): (r: Value)
    requires i < Count(v)
    ensures Count(r) == Count(v) && Child(r, i) == c
    ensures forall k :: 0 <= k < Count(v) && k != i ==> Child(r, k) == Child(v, k)
  {
    if v.Arr? then Arr(v.elements[i := c]) else Obj(v.members[i := Member(v.members[i].name, c)])
  }

  function Without(v: Value, i: nat): Value
    requires i < Count(v)
  {
    if v.Arr? then Arr(v.elements[..i] + v.elements[i + 1..]) else Obj(v.members[..i] + v.members[i + 1..])
  }

  // ---------- what an edit means

  /** A PUT or POST of a value, or a DELETE. */
  datatype Edit<W> = Put(w: W) | Post(w: W) | Remove

  datatype Outcome<T> = Done(value: T) | NotFound | NotAllowed | Error

  /** The tree after an edit at a path: replace, create, append or delete, and nothing else changed. */
  function Apply(v: Value, toks: seq<Option<Token>>, edit: Edit<Value>): Outcome<Value>
    requires toks != []
    decreases |toks|
  {
    if toks[0].None? then Error
    else
      var place := PlaceOf(v, toks[0].value);
      if |toks| > 1 then
        if !place.Here? then NotFound
        else
          var r := Apply(Child(v, place.index), toks[1..], edit);
          if r.Done? then Done(WithChild(v, place.index, r.value)) else r
      else ApplyHere(v, toks[0].value, place, edit)
  }

  function ApplyHere(v: Value, name: Token, place: Place, edit: Edit<Value>): Outcome<Value>
    requires place == PlaceOf(v, name)
  {
    match edit
    case Remove => if place.Here? then Done(Without(v, place.index)) else NotFound
    case Post(w) =>
      if !place.Here? then NotFound
      else
        var c := Child(v, place.index);
        if c.Arr? then Done(WithChild(v, place.index, Arr(c.elements + [w]))) else NotAllowed
    case Put(w) =>
      if place.Here? then Done(WithChild(v, place.index, w))
      else if v.Obj? then Done(Obj(v.members + [Member(name, w)]))
      else if v.Arr? && place.Beyond? && place.index == |v.elements| then Done(Arr(v.elements + [w]))
      else NotFound
  }

  method FindPlace(root: Value, t: Token) returns (place: Place)
    ensures place == PlaceOf(root, t)
  {
    match root
    case Obj(ms) =>
      var i := GetMember(ms, t);
      place := if i.None? then Nowhere else Here(i.value);
    case Arr(es) =>
      var i := IntParse(t);
      place :=
        if i.None? || i.value > INT32_MAX then Nowhere
        else if i.value < |es| then Here(i.value)
        else Beyond(i.value);
    case _ =>
      place := Nowhere;
  }

  // ---------- reading back

  /** nxt_conf_get_path: the value at a path; an empty last token names the value itself. */
  function Get(v: Value, toks: seq<Option<Token>>): Option<Value>
    requires toks != []
    decreases |toks|
  {
    if toks[0].None? then None
    else if toks[0].value == [] then if |toks| == 1 then Some(v) else None
    else
      var place := PlaceOf(v, toks[0].value);
      if !place.Here? then None
      else if |toks| == 1 then Some(Child(v, place.index))
      else Get(Child(v, place.index), toks[1..])
  }

  method GetPath(conf: Value, path: seq<Byte>) returns (r: Option<Value>)
    ensures r == Get(conf, Tokens(path, 0))
  {
    var value, p: nat, last := conf, 0, false;
    while true
      invariant p <= |path| && Get(conf, Tokens(path, 0)) == Get(value, Tokens(path, p))
      decreases |path| - p
    {
      var token, next;
      ghost var toks := Tokens(path, p);
      token, next, last := NextToken(path, p);
      if token.None? {
        return None;
      }
      if |token.value| == 0 {
        return if last then Some(value) else None;
      }
      var place := FindPlace(value, token.value);
      if !place.Here? {
        return None;
      }
      value := Child(value, place.index);
      if last {
        return Some(value);
      }
      assert toks[1..] == Tokens(path, next);
      p := next;
    }
  }

  ghost predicate NoEmptyTokens(toks: seq<Option<Token>>) {
    forall i :: 0 <= i < |toks| ==> toks[i] != Some([])
  }

  /** What is put can be got, and a posted element is the last of the array it was posted to. */
  lemma {:induction false} GetAfterEdit(v: Value, toks: seq<Option<Token>>, edit: Edit<Value>)
    requires toks != [] && NoEmptyTokens(toks) && Apply(v, toks, edit).Done?
    ensures edit.Put? ==> Get(Apply(v, toks, edit).value, toks) == Some(edit.w)
    ensures edit.Post? ==> Get(v, toks).Some? && Get(v, toks).value.Arr?
    ensures edit.Post? ==> Get(Apply(v, toks, edit).value, toks) == Some(Arr(Get(v, toks).value.elements + [edit.w]))
    decreases |toks|
  {
    var place := PlaceOf(v, toks[0].value);
    if |toks| > 1 {
      var r := Apply(Child(v, place.index), toks[1..], edit);
      GetAfterEdit(Child(v, place.index), toks[1..], edit);
      SamePlaces(v, place.index, r.value, toks[0].value);
    } else if place.Here? {
      if edit.Put? {
        SamePlaces(v, place.index, edit.w, toks[0].value);
      } else if edit.Post? {
        SamePlaces(v, place.index, Arr(Child(v, place.index).elements + [edit.w]), toks[0].value);
      }
    } else if edit.Put? && v.Obj? {
      FindAppended(v.members, Member(toks[0].value, edit.w), toks[0].value, 0);
    }
  }

  // Replacing a child moves no place.
  lemma SamePlaces(v: Value, i: nat, c: Value, t: Token)
    requires i < Count(v)
    ensures PlaceOf(WithChild(v, i, c), t) == PlaceOf(v, t)
  {
    if v.Obj? {
      FindReplaced(v.members, i, Member(v.members[i].name, c), t, 0);
    }
  }

  lemma {:induction false} FindReplaced(ms: seq<Member>, i: nat, m: Member, t: Token, from: nat)
    requires i < |ms| && m.name == ms[i].name && from <= |ms|
    ensures FindMember(ms[i := m], t, from) == FindMember(ms, t, from)
    decreases |ms| - from
  {
    if from < |ms| && ms[from].name != t {
      FindReplaced(ms, i, m, t, from + 1);
    }
  }

  lemma {:induction false} FindAppended(ms: seq<Member>, m: Member, t: Token, from: nat)
    requires from <= |ms| && FindMember(ms, t, from).None?
    ensures FindMember(ms + [m], t, from) == if m.name == t then Some(|ms|) else None
    decreases |ms| - from
  {
    if from < |ms| {
      FindAppended(ms, m, t, from + 1);
    }
  }

  lemma {:induction false} FindStill(ms: seq<Member>, m: Member, t: Token, from: nat)
    requires from <= |ms| && FindMember(ms, t, from).Some?
    ensures FindMember(ms + [m], t, from) == FindMember(ms, t, from)
    decreases |ms| - from
  {
    if ms[from].name != t {
      FindStill(ms, m, t, from + 1);
    }
  }

  /** The two paths part at some container: they name two different children of it. */
  ghost predicate Part(v: Value, toks: seq<Option<Token>>, us: seq<Option<Token>>)
    requires toks != [] && us != []
    decreases |toks|
  {
    toks[0].Some? && us[0].Some? && us[0].value != [] &&
    var a := PlaceOf(v, toks[0].value);
    var b := PlaceOf(v, us[0].value);
    b.Here? &&
    (a.Here? && a.index == b.index ==> |toks| > 1 && |us| > 1 && Part(Child(v, a.index), toks[1..], us[1..]))
  }

  /** PUT and POST change nothing at a path that parts from theirs. */
  lemma {:induction false} EditKeepsTheRest(v: Value, toks: seq<Option<Token>>, us: seq<Option<Token>>,
      edit: Edit<Value>)
    requires toks != [] && us != [] && Part(v, toks, us) && Apply(v, toks, edit).Done? && !edit.Remove?
    ensures Get(Apply(v, toks, edit).value, us) == Get(v, us)
    decreases |toks|
  {
    var a, b := PlaceOf(v, toks[0].value), PlaceOf(v, us[0].value);
    if a.Here? {
      var v' := Apply(v, toks, edit).value;
      var c := Child(v', a.index);
      assert v' == WithChild(v, a.index, c);
      SamePlaces(v, a.index, c, us[0].value);
      if a.index == b.index {
        EditKeepsTheRest(Child(v, a.index), toks[1..], us[1..], edit);
      }
    } else if v.Obj? {
      FindStill(v.members, Member(toks[0].value, edit.w), us[0].value, 0);
    }
  }

  // ---------- deletion

  /** Deleting an array element shifts the later ones down by one. */
  lemma DeleteShifts(es: seq<Value>, i: nat, k: nat)
    requires i < |es| && k < |es| - 1
    ensures var v' := Without(Arr(es), i); Count(v') == |es| - 1 && Child(v', k) == es[if k < i then k else k + 1]
  {
  }

  /** Deleting a member: its name is gone, and every other name keeps its value. */
  lemma DeleteRemovesName(ms: seq<Member>, i: nat, t: Token)
    requires i < |ms| && forall j, k :: 0 <= j < k < |ms| ==> ms[j].name != ms[k].name
    ensures var ms' := Without(Obj(ms), i).members;
      && (t == ms[i].name ==> FindMember(ms', t, 0).None?)
      && (t != ms[i].name ==>
           FindMember(ms', t, 0).Some? == FindMember(ms, t, 0).Some?
           && (FindMember(ms, t, 0).Some? ==> ms'[FindMember(ms', t, 0).value] == ms[FindMember(ms, t, 0).value]))
  {
    var ms' := ms[..i] + ms[i + 1..];
    FindIsFirst(ms, t, 0);
    FindIsFirst(ms', t, 0);
    assert forall k :: 0 <= k < |ms'| ==> ms'[k] == ms[if k < i then k else k + 1];
    if j :| 0 <= j < |ms| && j != i && ms[j].name == t {
      assert ms'[if j < i then j else j - 1] == ms[j];
    }
  }

  ghost predicate UniqueNames(v: Value) {
    v.Obj? ==> forall j, k :: 0 <= j < k < |v.members| ==> v.members[j].name != v.members[k].name
  }

  /** The container a path's last token selects from. */
  ghost function Container(v: Value, toks: seq<Option<Token>>): Option<Value>
    requires toks != []
    decreases |toks|
  {
    if |toks| == 1 then Some(v)
    else if toks[0].None? || !PlaceOf(v, toks[0].value).Here? then None
    else Container(Child(v, PlaceOf(v, toks[0].value).index), toks[1..])
  }

  /** What a path names after its deletion: nothing in an object, the next element in an array. */
  lemma {:induction false} GetAfterDelete(v: Value, toks: seq<Option<Token>>)
    requires toks != [] && NoEmptyTokens(toks) && Apply(v, toks, Remove).Done?
    ensures Container(v, toks).Some? && toks[|toks| - 1].Some?
    ensures var c, t := Container(v, toks).value, toks[|toks| - 1].value;
      UniqueNames(c) ==>
        Get(Apply(v, toks, Remove).value, toks) ==
          if c.Arr? && IntOf(t).Some? && IntOf(t).value + 1 < |c.elements| then Some(c.elements[IntOf(t).value + 1])
          else None
    decreases |toks|
  {
    var a := PlaceOf(v, toks[0].value);
    var v' := Apply(v, toks, Remove).value;
    if |toks| > 1 {
      SamePlaces(v, a.index, Child(v', a.index), toks[0].value);
      GetAfterDelete(Child(v, a.index), toks[1..]);
    } else if v.Obj? && UniqueNames(v) {
      DeleteRemovesName(v.members, a.index, toks[0].value);
    } else if v.Arr? {
      DeletedElement(v.elements, toks[0].value);
    }
  }

  lemma DeletedElement(es: seq<Value>, t: Token)
    requires PlaceOf(Arr(es), t).Here?
    ensures var i := PlaceOf(Arr(es), t).index;
      Get(Without(Arr(es), i), [Some(t)]) == if i + 1 < |es| then Some(es[i + 1]) else None
  {
    var i := PlaceOf(Arr(es), t).index;
    if i + 1 < |es| {
      DeleteShifts(es, i, i);
    }
  }

  // The other path names a member of the same object, or an earlier element, or parts from this one above.
  ghost predicate Undisturbed(v: Value, toks: seq<Option<Token>>, us: seq<Option<Token>>)
    requires toks != [] && us != [] && Part(v, toks, us)
    decreases |toks|
  {
    var a, b := PlaceOf(v, toks[0].value), PlaceOf(v, us[0].value);
    if !a.Here? then true
    else if |toks| > 1 then a.index == b.index ==> Undisturbed(Child(v, a.index), toks[1..], us[1..])
    else if v.Arr? then b.index < a.index
    else UniqueNames(v)
  }

  /** DELETE changes nothing at the paths that part from its own, but for the elements behind a deleted one. */
  lemma {:induction false} DeleteKeepsTheRest(v: Value, toks: seq<Option<Token>>, us: seq<Option<Token>>)
    requires toks != [] && us != [] && Part(v, toks, us) && Undisturbed(v, toks, us) && Apply(v, toks, Remove).Done?
    ensures Get(Apply(v, toks, Remove).value, us) == Get(v, us)
    decreases |toks|
  {
    var a, b := PlaceOf(v, toks[0].value), PlaceOf(v, us[0].value);
    var v' := Apply(v, toks, Remove).value;
    if |toks| > 1 {
      SamePlaces(v, a.index, Child(v', a.index), us[0].value);
      if a.index == b.index {
        DeleteKeepsTheRest(Child(v, a.index), toks[1..], us[1..]);
      }
    } else if v.Obj? {
      FindIsFirst(v.members, us[0].value, 0);
      DeleteRemovesName(v.members, a.index, us[0].value);
    } else {
      DeleteShifts(v.elements, a.index, b.index);
      assert PlaceOf(v', us[0].value) == b;
    }
  }

  lemma {:induction false} FindIsFirst(ms: seq<Member>, t: Token, from: nat)
    requires from <= |ms|
    ensures FindMember(ms, t, from).None? ==> forall k :: from <= k < |ms| ==> ms[k].name != t
    decreases |ms| - from
  {
    if from < |ms| && ms[from].name != t {
      FindIsFirst(ms, t, from + 1);
    }
  }
}
