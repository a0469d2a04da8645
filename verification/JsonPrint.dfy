/** The JSON printer of src/nxt_conf.c and its separate length pass (1321-1612). */
module JsonPrint {
  import opened Bytes
  import opened JsonString

  datatype Value =
    | Null
    | Bool(b: bool)
    | Integer(text: seq<Byte>)
    | Number(text: seq<Byte>)
    | Str(s: seq<Byte>)
    | Arr(elements: seq<Value>)
    | Obj(members: seq<Member>)

  datatype Member = Member(name: seq<Byte>, value: Value)

  const NULL_TEXT: seq<Byte> := [0x6E, 0x75, 0x6C, 0x6C]
  const TRUE_TEXT: seq<Byte> := [0x74, 0x72, 0x75, 0x65]
  const FALSE_TEXT: seq<Byte> := [0x66, 0x61, 0x6C, 0x73, 0x65]
  const NEWLINE: seq<Byte> := [0x0D, 0x0A]
  const COMMA: Byte := 0x2C
  const COLON: Byte := 0x3A
  const SPACE: Byte := 0x20
  const OPEN_ARRAY: Byte := 0x5B
  const CLOSE_ARRAY: Byte := 0x5D
  const OPEN_OBJECT: Byte := 0x7B
  const CLOSE_OBJECT: Byte := 0x7D

  /** The printer's formatting state; Compact stands for a NULL pretty argument. */
  datatype Style = Compact | Pretty(level: nat, moreSpace: bool)

  // ---------- the printed text

  function Indentation(level: nat): (s: seq<Byte>)
    ensures |s| == level
  {
    seq(level, i => 0x09)
  }

  // A line break and indentation, or nothing.
  function Line(st: Style): seq<Byte> {
    if st.Compact? then [] else NEWLINE + Indentation(st.level)
  }

  function Deeper(st: Style): Style {
    if st.Compact? then st else st.(level := st.level + 1)
  }

  function Tight(st: Style): Style {
    if st.Compact? then st else st.(moreSpace := false)
  }

  // Leaving a non-empty container: one level up, and ask for space.
  function Leave(st: Style): Style {
    if st.Compact? then st else Pretty(if st.level > 0 then st.level - 1 else 0, true)
  }

  function Quoted(s: seq<Byte>): seq<Byte> { [QUOTE] + Escaped(s) + [QUOTE] }

  /** The text of a value and the style after it. */
  function Print(v: Value, st: Style): (seq<Byte>, Style)
    decreases v, 0
  {
    match v
    case Null => (NULL_TEXT, st)
    case Bool(b) => (if b then TRUE_TEXT else FALSE_TEXT, st)
    case Integer(text) => (text, st)
    case Number(_) => ([], st)  // no branch prints a fractional number
    case Str(s) => (Quoted(s), st)
    case Arr(es) =>
      if es == [] then ([OPEN_ARRAY, CLOSE_ARRAY], st)
      else
        var (t, st') := PrintElements(es, Deeper(st));
        var out := Leave(st');
        (([OPEN_ARRAY] + Line(Deeper(st))) + t + (Line(out) + [CLOSE_ARRAY]), out)
    case Obj(ms) =>
      if ms == [] then ([OPEN_OBJECT, CLOSE_OBJECT], st)
      else
        var (t, st') := PrintMembers(ms, Deeper(st));
        var out := Leave(st');
        (([OPEN_OBJECT] + Break(st)) + t + (Line(out) + [CLOSE_OBJECT]), out)
  }

  function Break(st: Style): seq<Byte> { if st.Compact? then [] else NEWLINE }

  // The elements of a non-empty array, separated.
  function PrintElements(es: seq<Value>, st: Style): (seq<Byte>, Style)
    requires es != []
    decreases es, 0
  {
    var (t, st1) := Print(es[0], st);
    var (rest, st2) := MoreElements(es[1..], st1);
    (t + rest, st2)
  }

  function MoreElements(es: seq<Value>, st: Style): (seq<Byte>, Style)
    decreases es, 1
  {
    if es == [] then ([], st)
    else
      var (rest, st') := PrintElements(es, Tight(st));
      ([COMMA] + Line(st) + rest, st')
  }

  // The members of a non-empty object, separated.
  function PrintMembers(ms: seq<Member>, st: Style): (seq<Byte>, Style)
    requires ms != []
    decreases ms, 0
  {
    var (t, st1) := Print(ms[0].value, st);
    var (rest, st2) := MoreMembers(ms[1..], st1);
    (Label(ms[0].name, st) + t + rest, st2)
  }

  function MoreMembers(ms: seq<Member>, st: Style): (seq<Byte>, Style)
    decreases ms, 1
  {
    if ms == [] then ([], st)
    else
      var (rest, st') := PrintMembers(ms, Tight(st));
      ([COMMA] + Gap(st) + rest, st')
  }

  // Indentation, name, colon and, when pretty, a space.
  function Label(name: seq<Byte>, st: Style): seq<Byte> {
    (if st.Compact? then [] else Indentation(st.level)) + Quoted(name) + [COLON] + if st.Compact? then [] else [SPACE]
  }

  // The break after a member: an empty line follows a non-empty container.
  function Gap(st: Style): seq<Byte> {
    if st.Compact? then [] else if st.moreSpace then NEWLINE + NEWLINE else NEWLINE
  }

  // ---------- the length pass

  /** The length pass sees only the level, or None for a NULL pretty argument. */
  function Depth(st: Style): Option<nat> { if st.Compact? then None else Some(st.level) }

  function Down(d: Option<nat>): Option<nat> { if d.None? then None else Some(d.value + 1) }

  // Indentation plus a constant, counted only when pretty.
  function Extra(d: Option<nat>, k: nat): nat { if d.None? then 0 else d.value + k }

  function Room(v: Value, d: Option<nat>): nat
    decreases v, 0
  {
    match v
    case Null => 4
    case Bool(b) => if b then 4 else 5
    case Integer(text) => |text|
    case Number(_) => 0
    case Str(s) => 2 + |Escaped(s)|
    case Arr(es) => 2 + RoomElements(es, Down(d)) + (if es != [] then Extra(d, 2) else 0) + |es|
    case Obj(ms) => 2 + RoomMembers(ms, Down(d)) + Extra(d, 2)
  }

  function RoomElements(es: seq<Value>, d: Option<nat>): nat
    decreases es, 0
  {
    if es == [] then 0 else Room(es[0], d) + Extra(d, 2) + RoomElements(es[1..], d)
  }

  function RoomMembers(ms: seq<Member>, d: Option<nat>): nat
    decreases ms, 0
  {
    if ms == [] then 0
    else 2 + |Escaped(ms[0].name)| + 1 + Room(ms[0].value, d) + 1 + Extra(d, 5) + RoomMembers(ms[1..], d)
  }

  /** The buffer bound: from any style the text fits the computed length, and the level is restored. */
  lemma {:induction false} PrintFits(v: Value, st: Style)
    ensures |Print(v, st).0| <= Room(v, Depth(st)) && Depth(Print(v, st).1) == Depth(st)
    decreases v, 1
  {
    match v
    case Arr(es) => ArrayFits(es, st);
    case Obj(ms) => ObjectFits(ms, st);
    case _ =>
  }

  lemma {:induction false} ArrayFits(es: seq<Value>, st: Style)
    ensures |Print(Arr(es), st).0| <= Room(Arr(es), Depth(st)) && Depth(Print(Arr(es), st).1) == Depth(st)
    decreases es, 2
  {
    hide PrintElements, RoomElements;
    if es != [] {
      ElementsFit(es, Deeper(st));
    }
  }

  lemma {:induction false} ObjectFits(ms: seq<Member>, st: Style)
    ensures |Print(Obj(ms), st).0| <= Room(Obj(ms), Depth(st)) && Depth(Print(Obj(ms), st).1) == Depth(st)
    decreases ms, 2
  {
    hide PrintMembers, RoomMembers;
    if ms != [] {
      MembersFit(ms, Deeper(st));
    }
  }

  lemma {:induction false} ElementsFit(es: seq<Value>, st: Style)
    requires es != []
    ensures |PrintElements(es, st).0| + Extra(Depth(st), 2) <= RoomElements(es, Depth(st)) + |es| - 1
    ensures Depth(PrintElements(es, st).1) == Depth(st)
    decreases es, 1
  {
    PrintFits(es[0], st);
    if |es| > 1 {
      ElementsFit(es[1..], Tight(Print(es[0], st).1));
    } else {
      assert RoomElements(es[1..], Depth(st)) == 0;
    }
  }

  lemma {:induction false} MembersFit(ms: seq<Member>, st: Style)
    requires ms != []
    ensures |PrintMembers(ms, st).0| + 1 + (if st.Compact? then 0 else 4) <= RoomMembers(ms, Depth(st))
    ensures Depth(PrintMembers(ms, st).1) == Depth(st)
    decreases ms, 1
  {
    PrintFits(ms[0].value, st);
    if |ms| > 1 {
      MembersFit(ms[1..], Tight(Print(ms[0].value, st).1));
    } else {
      assert RoomMembers(ms[1..], Depth(st)) == 0;
    }
  }

  // ---------- the printer

  /** The pretty argument; `on` is false for a NULL pointer. */
  class State {
    const on: bool
    var level: nat
    var moreSpace: bool

    constructor (on: bool)
      ensures this.on == on && level == 0 && !moreSpace
    {
      this.on, level, moreSpace := on, 0, false;
    }

    ghost function St(): Style
      reads this
    {
      if on then Pretty(level, moreSpace) else Compact
    }

    ghost function D(): Option<nat>
      reads this
    {
      Depth(St())
    }
  }

  /** nxt_conf_json_length: computes the room and leaves the level as it was. */
  method Length(v: Value, pretty: State) returns (len: nat)
    modifies pretty
    ensures len == Room(v, old(pretty.D())) && pretty.St() == old(pretty.St())
    decreases v, 0
  {
    match v
    case Null => len := 4;
    case Bool(b) => len := if b then 4 else 5;
    case Integer(text) => len := |text|;
    case Number(_) => len := 0;
    case Str(s) =>
      len := EscapeLength(s);
      len := len + 2;
    case Arr(es) => len := ArrayLength(es, pretty);
    case Obj(ms) => len := ObjectLength(ms, pretty);
  }

  method ArrayLength(es: seq<Value>, pretty: State) returns (len: nat)
    modifies pretty
    ensures len == Room(Arr(es), old(pretty.D())) && pretty.St() == old(pretty.St())
    decreases es, 1
  {
    len := 2;
    if pretty.on {
      pretty.level := pretty.level + 1;
    }
    ghost var d := pretty.D();
    assert es[0..] == es;
    for n := 0 to |es|
      invariant pretty.D() == d && (pretty.on ==> pretty.moreSpace == old(pretty.moreSpace))
      invariant len + RoomElements(es[n..], d) == 2 + RoomElements(es, d)
    {
      assert es[n..][1..] == es[n + 1..];
      var one := Length(es[n], pretty);
      len := len + one;
      if pretty.on {
        len := len + pretty.level + 2;
      }
    }
    assert es[|es|..] == [];
    if pretty.on {
      pretty.level := pretty.level - 1;
      if |es| != 0 {
        len := len + pretty.level + 2;
      }
    }
    len := len + |es|;
  }

  method ObjectLength(ms: seq<Member>, pretty: State) returns (len: nat)
    modifies pretty
    ensures len == Room(Obj(ms), old(pretty.D())) && pretty.St() == old(pretty.St())
    decreases ms, 1
  {
    len := 2;
    if pretty.on {
      pretty.level := pretty.level + 1;
    }
    ghost var d := pretty.D();
    assert ms[0..] == ms;
    for n := 0 to |ms|
      invariant pretty.D() == d && (pretty.on ==> pretty.moreSpace == old(pretty.moreSpace))
      invariant len + RoomMembers(ms[n..], d) == 2 + RoomMembers(ms, d)
    {
      assert ms[n..][1..] == ms[n + 1..];
      var name := EscapeLength(ms[n].name);
      var one := Length(ms[n].value, pretty);
      len := len + (name + 2) + 1 + one + 1;
      if pretty.on {
        len := len + pretty.level + 1 + 2 + 2;
      }
    }
    assert ms[|ms|..] == [];
    if pretty.on {
      pretty.level := pretty.level - 1;
      len := len + pretty.level + 2;
    }
  }

  method Put(buf: array<Byte>, p: nat, s: seq<Byte>) returns (end: nat)
    requires p + |s| <= buf.Length
    modifies buf
    ensures end == p + |s| && buf[..end] == old(buf[..p]) + s
  {
    forall i | 0 <= i < |s| {
      buf[p + i] := s[i];
    }
    end := p + |s|;
  }

  /** nxt_conf_json_print: writes exactly the text of the value, and updates the formatting state. */
  method PrintValue(buf: array<Byte>, p: nat, v: Value, pretty: State) returns (end: nat)
    requires p + |Print(v, pretty.St()).0| <= buf.Length
    modifies buf, pretty
    ensures end == p + |old(Print(v, pretty.St())).0| && buf[..end] == old(buf[..p]) + old(Print(v, pretty.St())).0
    ensures pretty.St() == old(Print(v, pretty.St())).1
    decreases v, 0
  {
    match v
    case Null => end := Put(buf, p, NULL_TEXT);
    case Bool(b) => end := Put(buf, p, if b then TRUE_TEXT else FALSE_TEXT);
    case Integer(text) => end := Put(buf, p, text);
    case Number(_) => end := Put(buf, p, []);
    case Str(s) => end := PrintString(buf, p, s);
    case Arr(es) => end := PrintArray(buf, p, es, pretty);
    case Obj(ms) => end := PrintObject(buf, p, ms, pretty);
  }

  method PrintString(buf: array<Byte>, p: nat, s: seq<Byte>) returns (end: nat)
    requires p + |Quoted(s)| <= buf.Length
    modifies buf
    ensures end == p + |Quoted(s)| && buf[..end] == old(buf[..p]) + Quoted(s)
  {
    end := Put(buf, p, [QUOTE]);
    end := Escape(buf, end, s);
    end := Put(buf, end, [QUOTE]);
  }

  method PrintLine(buf: array<Byte>, p: nat, pretty: State) returns (end: nat)
    requires p + |Line(pretty.St())| <= buf.Length
    modifies buf
    ensures end == p + |Line(pretty.St())| && buf[..end] == old(buf[..p]) + Line(pretty.St())
  {
    end := p;
    if pretty.on {
      end := Put(buf, end, NEWLINE);
      end := Put(buf, end, Indentation(pretty.level));
    } else {
      assert buf[..p] == buf[..p] + [];
    }
  }

  method PrintArray(buf: array<Byte>, p: nat, es: seq<Value>, pretty: State) returns (end: nat)
    requires p + |Print(Arr(es), pretty.St()).0| <= buf.Length
    modifies buf, pretty
    ensures end == p + |old(Print(Arr(es), pretty.St())).0|
    ensures buf[..end] == old(buf[..p]) + old(Print(Arr(es), pretty.St())).0
    ensures pretty.St() == old(Print(Arr(es), pretty.St())).1
    decreases es, 2
  {
    if |es| == 0 {
      end := Put(buf, p, [OPEN_ARRAY, CLOSE_ARRAY]);
    } else {
      ghost var base, head := buf[..p], [OPEN_ARRAY] + Line(Deeper(pretty.St()));
      ghost var (t, st) := PrintElements(es, Deeper(pretty.St()));
      end := OpenArray(buf, p, pretty);
      end := PrintList(buf, end, es, pretty);
      end := CloseList(buf, end, CLOSE_ARRAY, pretty);
      Three(base, head, t, Line(Leave(st)) + [CLOSE_ARRAY]);
    }
  }

  lemma Three(base: seq<Byte>, a: seq<Byte>, b: seq<Byte>, c: seq<Byte>)
    ensures ((base + a) + b) + c == base + (a + b + c)
  {
  }

  lemma Two(base: seq<Byte>, a: seq<Byte>, b: seq<Byte>)
    ensures (base + a) + b == base + (a + b)
  {
  }

  method OpenArray(buf: array<Byte>, p: nat, pretty: State) returns (end: nat)
    requires p + 1 + |Line(Deeper(pretty.St()))| <= buf.Length
    modifies buf, pretty
    ensures pretty.St() == old(Deeper(pretty.St())) && end == p + 1 + |Line(pretty.St())|
    ensures buf[..end] == old(buf[..p]) + ([OPEN_ARRAY] + Line(pretty.St()))
  {
    ghost var base := buf[..p];
    end := Put(buf, p, [OPEN_ARRAY]);
    if pretty.on {
      pretty.level := pretty.level + 1;
    }
    end := PrintLine(buf, end, pretty);
    Two(base, [OPEN_ARRAY], Line(pretty.St()));
  }

  method CloseList(buf: array<Byte>, p: nat, ch: Byte, pretty: State) returns (end: nat)
    requires p + |Line(Leave(pretty.St()))| + 1 <= buf.Length
    modifies buf, pretty
    ensures pretty.St() == old(Leave(pretty.St())) && end == p + |Line(pretty.St())| + 1
    ensures buf[..end] == old(buf[..p]) + (Line(pretty.St()) + [ch])
  {
    ghost var base := buf[..p];
    if pretty.on {
      pretty.level, pretty.moreSpace := if pretty.level > 0 then pretty.level - 1 else 0, true;
    }
    end := PrintLine(buf, p, pretty);
    end := Put(buf, end, [ch]);
    Two(base, Line(pretty.St()), [ch]);
  }

  method PrintList(buf: array<Byte>, p: nat, es: seq<Value>, pretty: State) returns (end: nat)
    requires es != [] && p + |PrintElements(es, pretty.St()).0| <= buf.Length
    modifies buf, pretty
    ensures end == p + |old(PrintElements(es, pretty.St())).0|
    ensures buf[..end] == old(buf[..p]) + old(PrintElements(es, pretty.St())).0
    ensures pretty.St() == old(PrintElements(es, pretty.St())).1
    decreases es, 1
  {
    hide PrintElements, MoreElements, Print;
    ghost var (text, last) := PrintElements(es, pretty.St());
    ghost var goal := buf[..p] + text;
    FirstElement(es, pretty.St(), buf[..p]);
    end := PrintValue(buf, p, es[0], pretty);
    var n := 1;
    while n < |es|
      invariant 1 <= n <= |es| && end <= buf.Length && buf[..end] + MoreElements(es[n..], pretty.St()).0 == goal
      invariant MoreElements(es[n..], pretty.St()).1 == last
    {
      end := PrintNext(buf, end, es, n, pretty);
      n := n + 1;
    }
    assert es[n..] == [];
    NoMoreElements(pretty.St());
    assert buf[..end] + [] == buf[..end];
  }

  lemma FirstElement(es: seq<Value>, st: Style, base: seq<Byte>)
    requires es != []
    ensures var (t, st1) := Print(es[0], st);
      && base + PrintElements(es, st).0 == base + t + MoreElements(es[1..], st1).0
      && PrintElements(es, st).1 == MoreElements(es[1..], st1).1
      && |t| <= |PrintElements(es, st).0|
  {
    hide Print, MoreElements;
  }

  lemma NoMoreElements(st: Style)
    ensures MoreElements([], st) == ([], st)
  {
  }

  method PrintNext(buf: array<Byte>, p: nat, es: seq<Value>, n: nat, pretty: State) returns (end: nat)
    requires n < |es| && p + |MoreElements(es[n..], pretty.St()).0| <= buf.Length
    modifies buf, pretty
    ensures p <= end <= buf.Length
    ensures buf[..end] + MoreElements(es[n + 1..], pretty.St()).0 ==
      old(buf[..p] + MoreElements(es[n..], pretty.St()).0)
    ensures MoreElements(es[n + 1..], pretty.St()).1 == old(MoreElements(es[n..], pretty.St()).1)
    decreases es, 0
  {
    assert es[n..][1..] == es[n + 1..];
    ghost var base, st := buf[..p], pretty.St();
    ghost var (t, st1) := Print(es[n], Tight(st));
    end := PrintSeparator(buf, p, pretty);
    end := PrintValue(buf, end, es[n], pretty);
    ghost var rest := MoreElements(es[n + 1..], st1).0;
    Two(base + ([COMMA] + Line(st)), t, rest);
    Two(base, [COMMA] + Line(st), t + rest);
  }

  method PrintSeparator(buf: array<Byte>, p: nat, pretty: State) returns (end: nat)
    requires p + 1 + |Line(pretty.St())| <= buf.Length
    modifies buf, pretty
    ensures pretty.St() == old(Tight(pretty.St())) && end == p + 1 + |Line(pretty.St())|
    ensures buf[..end] == old(buf[..p]) + ([COMMA] + Line(pretty.St()))
  {
    ghost var base := buf[..p];
    end := Put(buf, p, [COMMA]);
    end := PrintLine(buf, end, pretty);
    Two(base, [COMMA], Line(pretty.St()));
    if pretty.on {
      pretty.moreSpace := false;
    }
  }

  method PrintObject(buf: array<Byte>, p: nat, ms: seq<Member>, pretty: State) returns (end: nat)
    requires p + |Print(Obj(ms), pretty.St()).0| <= buf.Length
    modifies buf, pretty
    ensures end == p + |old(Print(Obj(ms), pretty.St())).0|
    ensures buf[..end] == old(buf[..p]) + old(Print(Obj(ms), pretty.St())).0
    ensures pretty.St() == old(Print(Obj(ms), pretty.St())).1
    decreases ms, 2
  {
    if |ms| == 0 {
      end := Put(buf, p, [OPEN_OBJECT, CLOSE_OBJECT]);
    } else {
      ghost var base, head := buf[..p], [OPEN_OBJECT] + Break(pretty.St());
      ghost var (t, st) := PrintMembers(ms, Deeper(pretty.St()));
      end := OpenObject(buf, p, pretty);
      end := PrintMemberList(buf, end, ms, pretty);
      end := CloseList(buf, end, CLOSE_OBJECT, pretty);
      Three(base, head, t, Line(Leave(st)) + [CLOSE_OBJECT]);
    }
  }

  method OpenObject(buf: array<Byte>, p: nat, pretty: State) returns (end: nat)
    requires p + 1 + |Break(pretty.St())| <= buf.Length
    modifies buf, pretty
    ensures pretty.St() == old(Deeper(pretty.St())) && end == p + 1 + |Break(pretty.St())|
    ensures buf[..end] == old(buf[..p]) + ([OPEN_OBJECT] + Break(old(pretty.St())))
  {
    ghost var base := buf[..p];
    end := Put(buf, p, [OPEN_OBJECT]);
    if pretty.on {
      end := Put(buf, end, NEWLINE);
      pretty.level := pretty.level + 1;
      Two(base, [OPEN_OBJECT], NEWLINE);
    }
  }

  method PrintMemberList(buf: array<Byte>, p: nat, ms: seq<Member>, pretty: State) returns (end: nat)
    requires ms != [] && p + |PrintMembers(ms, pretty.St()).0| <= buf.Length
    modifies buf, pretty
    ensures end == p + |old(PrintMembers(ms, pretty.St())).0|
    ensures buf[..end] == old(buf[..p]) + old(PrintMembers(ms, pretty.St())).0
    ensures pretty.St() == old(PrintMembers(ms, pretty.St())).1
    decreases ms, 1
  {
    ghost var (text, last) := PrintMembers(ms, pretty.St());
    ghost var goal := buf[..p] + text;
    var n := 0;
    end := p;
    assert ms[0..] == ms;
    while true
      invariant 0 <= n < |ms| && end <= buf.Length && buf[..end] + PrintMembers(ms[n..], pretty.St()).0 == goal
      invariant PrintMembers(ms[n..], pretty.St()).1 == last
      decreases |ms| - n
    {
      end := PrintMember(buf, end, ms, n, pretty);
      n := n + 1;
      if n == |ms| {
        break;
      }
      end := PrintGap(buf, end, ms, n, pretty);
    }
    assert ms[n..] == [];
    assert buf[..end] + [] == buf[..end];
  }

  method PrintMember(buf: array<Byte>, p: nat, ms: seq<Member>, n: nat, pretty: State) returns (end: nat)
    requires n < |ms| && p + |PrintMembers(ms[n..], pretty.St()).0| <= buf.Length
    modifies buf, pretty
    ensures p <= end <= buf.Length
    ensures buf[..end] + MoreMembers(ms[n + 1..], pretty.St()).0 == old(buf[..p] + PrintMembers(ms[n..], pretty.St()).0)
    ensures MoreMembers(ms[n + 1..], pretty.St()).1 == old(PrintMembers(ms[n..], pretty.St()).1)
    decreases ms, 0
  {
    assert ms[n..][1..] == ms[n + 1..];
    ghost var base, st := buf[..p], pretty.St();
    ghost var (t, st1) := Print(ms[n].value, st);
    end := PrintLabel(buf, p, ms[n].name, pretty);
    end := PrintValue(buf, end, ms[n].value, pretty);
    Three(base, Label(ms[n].name, st), t, MoreMembers(ms[n + 1..], st1).0);
  }

  method PrintLabel(buf: array<Byte>, p: nat, name: seq<Byte>, pretty: State) returns (end: nat)
    requires p + |Label(name, pretty.St())| <= buf.Length
    modifies buf
    ensures end == p + |Label(name, pretty.St())| && buf[..end] == old(buf[..p]) + Label(name, pretty.St())
  {
    end := p;
    ghost var base := buf[..p];
    if pretty.on {
      end := Put(buf, end, Indentation(pretty.level));
    }
    end := PrintString(buf, end, name);
    end := Put(buf, end, [COLON]);
    if pretty.on {
      end := Put(buf, end, [SPACE]);
    }
  }

  method PrintGap(buf: array<Byte>, p: nat, ms: seq<Member>, n: nat, pretty: State) returns (end: nat)
    requires n < |ms| && p + |MoreMembers(ms[n..], pretty.St()).0| <= buf.Length
    modifies buf, pretty
    ensures p <= end <= buf.Length
    ensures buf[..end] + PrintMembers(ms[n..], pretty.St()).0 == old(buf[..p] + MoreMembers(ms[n..], pretty.St()).0)
    ensures PrintMembers(ms[n..], pretty.St()).1 == old(MoreMembers(ms[n..], pretty.St()).1)
  {
    ghost var base, gap := buf[..p], [COMMA] + Gap(pretty.St());
    ghost var rest := PrintMembers(ms[n..], Tight(pretty.St())).0;
    end := Put(buf, p, if pretty.on then [COMMA] + NEWLINE else [COMMA]);
    if pretty.on {
      if pretty.moreSpace {
        pretty.moreSpace := false;
        end := Put(buf, end, NEWLINE);
      }
    }
    assert buf[..end] == base + gap;
    Two(base, gap, rest);
  }

  /** Length pass, allocation, printing: the text never overruns the buffer and formatting depth is restored. */
  method ToText(v: Value, pretty: State) returns (buf: array<Byte>, end: nat)
    modifies pretty
    ensures fresh(buf) && end <= buf.Length && buf[..end] == old(Print(v, pretty.St())).0
    ensures pretty.D() == old(pretty.D())
  {
    PrintFits(v, pretty.St());
    var room := Length(v, pretty);
    buf := new Byte[room];
    end := PrintValue(buf, 0, v, pretty);
  }
}
