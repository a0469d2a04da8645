/** The JSON string decoder and escaper of src/nxt_conf.c:674-931 and 1624-1714. */
module JsonString {
  import opened Bytes
  import opened Utf8

  const QUOTE: Byte := 0x22
  const BACKSLASH: Byte := 0x5C
  const SLASH: Byte := 0x2F
  const LOWER_U: Byte := 0x75

  const MAX_SHORT: nat := 14
  const MAX_STRING: nat := 0x7FFFFFFF

  // ---------- the units of a string body

  /** What stands at a position of a string body, with the position behind it. */
  datatype Unit =
    | Plain(ch: Byte)
    | Simple(ch: Byte)
    | Code(u: nat)
    | Closing
    | Invalid

  predicate IsHex(ch: Byte) {
    0x30 <= ch <= 0x39 || 0x41 <= ch <= 0x46 || 0x61 <= ch <= 0x66
  }

  function HexValue(ch: Byte): (d: nat)
    requires IsHex(ch)
    ensures d < 16
  {
    if ch <= 0x39 then ch - 0x30 else if ch <= 0x46 then ch - 0x41 + 10 else ch - 0x61 + 10
  }

  /** The second pass computes the digit with the letter-case bit cleared. */
  lemma HexDigitBits(ch: bv8)
    requires (0x30 <= ch <= 0x39) || (0x41 <= ch <= 0x46) || (0x61 <= ch <= 0x66)
    ensures (if ch >= 0x41 then 10 + ((ch & !0x20) - 0x41) else ch - 0x30)
            == (if ch <= 0x39 then ch - 0x30 else if ch <= 0x46 then ch - 0x41 + 10 else ch - 0x61 + 10)
  {
  }

  // The character a one-letter escape stands for.
  function Escapee(ch: Byte): Option<Byte> {
    if ch == QUOTE || ch == BACKSLASH || ch == SLASH then Some(ch)
    else if ch == 0x6E then Some(0x0A)
    else if ch == 0x72 then Some(0x0D)
    else if ch == 0x74 then Some(0x09)
    else if ch == 0x62 then Some(0x08)
    else if ch == 0x66 then Some(0x0C)
    else None
  }

  predicate FourHex(x: seq<Byte>, p: nat) {
    p + 4 <= |x| && IsHex(x[p]) && IsHex(x[p + 1]) && IsHex(x[p + 2]) && IsHex(x[p + 3])
  }

  function HexAt(x: seq<Byte>, p: nat): (u: nat)
    requires FourHex(x, p)
    ensures u < 0x10000
  {
    ((HexValue(x[p]) * 16 + HexValue(x[p + 1])) * 16 + HexValue(x[p + 2])) * 16 + HexValue(x[p + 3])
  }

  function UnitAt(x: seq<Byte>, p: nat): Unit {
    if p >= |x| then Invalid
    else if x[p] == QUOTE then Closing
    else if x[p] == BACKSLASH then
      if p + 1 >= |x| then Invalid
      else if Escapee(x[p + 1]).Some? then Simple(Escapee(x[p + 1]).value)
      else if x[p + 1] == LOWER_U && FourHex(x, p + 2) then Code(HexAt(x, p + 2))
      else Invalid
    else if x[p] >= 0x20 then Plain(x[p])
    else Invalid
  }

  function Size(u: Unit): nat {
    match u
    case Plain(_) => 1
    case Simple(_) => 2
    case Code(_) => 6
    case _ => 0
  }

  // Bytes of the source text the decoded unit does not need.
  function Surplus(u: Unit): nat {
    match u
    case Simple(_) => 1
    case Code(_) => 3
    case _ => 0
  }

  datatype Close = Close(last: nat, surplus: nat)

  /** Where the string body that starts at p is closed, and its surplus; None when it is malformed or never closed. */
  function CloseOf(x: seq<Byte>, p: nat): (r: Option<Close>)
    ensures r.Some? ==> p <= r.value.last < |x| && x[r.value.last] == QUOTE && r.value.surplus <= r.value.last - p
    decreases |x| - p
  {
    var u := UnitAt(x, p);
    match u
    case Invalid => None
    case Closing => Some(Close(p, 0))
    case _ =>
      var r := CloseOf(x, p + Size(u));
      if r.None? then None else Some(Close(r.value.last, r.value.surplus + Surplus(u)))
  }

  predicate High(u: nat) { 0xD800 <= u <= 0xDBFF }

  predicate Low(u: nat) { 0xDC00 <= u <= 0xDFFF }

  function Pair(h: nat, l: nat): (u: nat)
    requires High(h) && Low(l)
    ensures 0x10000 <= u < LIMIT
  {
    (h - 0xD800) * 1024 + (l - 0xDC00) + 0x10000
  }

  /** The bytes a body stands for: escapes resolved, surrogate pairs joined, lone surrogates refused. */
  function Meaning(x: seq<Byte>, p: nat): Option<seq<Byte>>
    requires CloseOf(x, p).Some?
    decreases |x| - p
  {
    var u := UnitAt(x, p);
    match u
    case Closing => Some([])
    case Plain(ch) => Before([ch], Meaning(x, p + 1))
    case Simple(ch) => Before([ch], Meaning(x, p + 2))
    case Code(h) =>
      if !High(h) && !Low(h) then Before(Encoded(h), Meaning(x, p + 6))
      else
        var v := UnitAt(x, p + 6);
        assert CloseOf(x, p + 6).Some?;
        if High(h) && v.Code? && Low(v.u) then Before(Encoded(Pair(h, v.u)), Meaning(x, p + 12))
        else None
  }

  function Before(s: seq<Byte>, rest: Option<seq<Byte>>): Option<seq<Byte>> {
    if rest.None? then None else Some(s + rest.value)
  }

  /** The decoded string never exceeds the body less the surplus the first pass counted. */
  lemma {:induction false} BudgetHolds(x: seq<Byte>, p: nat)
    requires CloseOf(x, p).Some? && Meaning(x, p).Some?
    ensures var c := CloseOf(x, p).value; |Meaning(x, p).value| <= c.last - p - c.surplus
    decreases |x| - p
  {
    var u := UnitAt(x, p);
    match u
    case Closing =>
    case Plain(_) => BudgetHolds(x, p + 1);
    case Simple(_) => BudgetHolds(x, p + 2);
    case Code(h) =>
      if High(h) {
        BudgetHolds(x, p + 12);
      } else {
        BudgetHolds(x, p + 6);
      }
  }

  // ---------- first pass

  datatype State = Usual | Escaping | Encoded1 | Encoded2 | Encoded3 | Encoded4

  // The unit that began at q has been read up to p.
  ghost predicate Reading(x: seq<Byte>, q: nat, p: nat, state: State) {
    && q <= p <= |x| && (state.Usual? ==> p == q)
    && (state.Escaping? ==> p == q + 1)
    && (!state.Usual? && !state.Escaping? ==> p == q + 2 + HexRead(state))
    && (!state.Usual? ==> x[q] == BACKSLASH)
    && (!state.Usual? && !state.Escaping? ==> x[q + 1] == LOWER_U && forall i :: q + 2 <= i < p ==> IsHex(x[i]))
  }

  // What has been counted for the unit being read.
  function Pending(state: State): nat { if state.Usual? || state.Escaping? then 0 else 3 }

  function HexRead(state: State): nat {
    match state
    case Encoded2 => 1
    case Encoded3 => 2
    case Encoded4 => 3
    case _ => 0
  }

  // The answer from position q, given what was counted before it.
  ghost function Plus(r: Option<Close>, surplus: nat): Option<Close> {
    if r.None? then None else Some(Close(r.value.last, r.value.surplus + surplus))
  }

  /**
   * One character of the first pass: the closing quote, an error, or the next state with what it adds to the surplus.
   */
  datatype Move = Stop | Fail | Go(state: State, add: nat)

  function Step(state: State, ch: Byte): Move {
    match state
    case Usual =>
      if ch == QUOTE then Stop
      else if ch == BACKSLASH then Go(Escaping, 0)
      else if ch >= 0x20 then Go(Usual, 0)
      else Fail
    case Escaping =>
      if Escapee(ch).Some? then Go(Usual, 1)
      else if ch == LOWER_U then Go(Encoded1, 3)
      else Fail
    case _ =>
      if IsHex(ch) then Go(Next(state), 0) else Fail
  }

  // Where the unit being read began, after a move at p.
  function Begin(q: nat, p: nat, state: State): nat { if state.Usual? then p + 1 else q }

  // What has been read so far leads to the answer of the whole body.
  ghost predicate Leads(x: seq<Byte>, start: nat, q: nat, p: nat, state: State, surplus: nat) {
    && start <= |x| && Reading(x, q, p, state) && surplus >= Pending(state)
    && CloseOf(x, start) == Plus(CloseOf(x, q), surplus - Pending(state))
  }

  // What one move from these states tells.
  ghost predicate Explained(x: seq<Byte>, start: nat, q: nat, p: nat, state: State, surplus: nat) {
    && (p == |x| ==> CloseOf(x, start).None?)
    && (p < |x| ==>
         && (Step(state, x[p]).Stop? ==> CloseOf(x, start) == Some(Close(p, surplus)))
         && (Step(state, x[p]).Fail? ==> CloseOf(x, start).None?)
         && (Step(state, x[p]).Go? ==>
              var m := Step(state, x[p]); Leads(x, start, Begin(q, p, m.state), p + 1, m.state, surplus + m.add)))
  }

  lemma LeadsFirst(x: seq<Byte>, start: nat)
    requires start <= |x|
    ensures Leads(x, start, start, start, Usual, 0)
  {
  }

  lemma LeadsOn(x: seq<Byte>, start: nat, q: nat, p: nat, state: State, surplus: nat)
    requires Leads(x, start, q, p, state, surplus)
    ensures Explained(x, start, q, p, state, surplus)
  {
    match state
    case Usual => FromUsual(x, start, q, p, surplus);
    case Escaping => FromEscaping(x, start, q, p, surplus);
    case _ => FromHex(x, start, q, p, state, surplus);
  }

  lemma FromUsual(x: seq<Byte>, start: nat, q: nat, p: nat, surplus: nat)
    requires Leads(x, start, q, p, Usual, surplus)
    ensures Explained(x, start, q, p, Usual, surplus)
  {
  }

  lemma FromEscaping(x: seq<Byte>, start: nat, q: nat, p: nat, surplus: nat)
    requires Leads(x, start, q, p, Escaping, surplus)
    ensures Explained(x, start, q, p, Escaping, surplus)
  {
    hide UnitAt, CloseOf, Escapee;
    EscapeEnds(x, q, p);
  }

  lemma EscapeEnds(x: seq<Byte>, q: nat, p: nat)
    requires Reading(x, q, p, Escaping)
    ensures p == |x| || (Escapee(x[p]).None? && x[p] != LOWER_U) ==> CloseOf(x, q) == None
    ensures p < |x| && Escapee(x[p]).Some? ==> CloseOf(x, q) == Plus(CloseOf(x, p + 1), 1)
  {
    hide CloseOf, Escapee;
    CloseUnfolds(x, q);
  }

  lemma FromHex(x: seq<Byte>, start: nat, q: nat, p: nat, state: State, surplus: nat)
    requires Leads(x, start, q, p, state, surplus) && !state.Usual? && !state.Escaping?
    ensures Explained(x, start, q, p, state, surplus)
  {
    hide UnitAt, CloseOf;
    if p == |x| || !IsHex(x[p]) {
      NotFourHex(x, q, p, state);
    } else if state.Encoded4? {
      LastHex(x, q, p);
    }
  }

  lemma NotFourHex(x: seq<Byte>, q: nat, p: nat, state: State)
    requires Reading(x, q, p, state) && !state.Usual? && !state.Escaping? && (p == |x| || !IsHex(x[p]))
    ensures CloseOf(x, q) == None
  {
    assert UnitAt(x, q).Invalid?;
  }

  lemma LastHex(x: seq<Byte>, q: nat, p: nat)
    requires Reading(x, q, p, Encoded4) && p < |x| && IsHex(x[p])
    ensures CloseOf(x, q) == Plus(CloseOf(x, p + 1), 3)
  {
    hide CloseOf;
    CloseUnfolds(x, q);
    assert UnitAt(x, q).Code?;
  }

  /** The first pass: the state machine finds exactly the closing quote and the surplus of CloseOf. */
  method FirstPass(x: seq<Byte>, start: nat) returns (r: Option<Close>)
    requires start <= |x|
    ensures r == CloseOf(x, start)
  {
    hide Leads, CloseOf, Reading;
    LeadsFirst(x, start);
    var p, surplus, state := start, 0, Usual;
    ghost var q := start;
    while p != |x|
      invariant p <= |x| && Leads(x, start, q, p, state, surplus)
    {
      LeadsOn(x, start, q, p, state, surplus);
      match Step(state, x[p]) {
        case Stop =>
          return Some(Close(p, surplus));
        case Fail =>
          return None;
        case Go(next, add) =>
          q := Begin(q, p, next);
          p, surplus, state := p + 1, surplus + add, next;
      }
    }
    LeadsOn(x, start, q, p, state, surplus);
    return None;
  }

  function Next(state: State): State {
    match state
    case Encoded1 => Encoded2
    case Encoded2 => Encoded3
    case Encoded3 => Encoded4
    case _ => Usual
  }

  // ---------- second pass

  method ReadHex(x: seq<Byte>, p: nat) returns (utf: nat)
    requires FourHex(x, p)
    ensures utf == HexAt(x, p)
  {
    utf := 0;
    ghost var h0, h1, h2 := HexValue(x[p]), HexValue(x[p + 1]), HexValue(x[p + 2]);
    for i := 0 to 4
      invariant utf == if i == 0 then 0 else if i == 1 then h0 else if i == 2 then h0 * 16 + h1
                       else if i == 3 then (h0 * 16 + h1) * 16 + h2 else HexAt(x, p)
    {
      utf := utf * 16 + HexValue(x[p + i]);
    }
  }

  // Bytes of budget from p on.
  ghost function Budget(x: seq<Byte>, p: nat): nat
    requires CloseOf(x, p).Some?
  {
    CloseOf(x, p).value.last - p - CloseOf(x, p).value.surplus
  }

  // From p to q the same string goes on, s is decoded and its bytes are paid for.
  ghost predicate Covers(x: seq<Byte>, p: nat, q: nat, s: seq<Byte>) {
    && CloseOf(x, p).Some? && CloseOf(x, q).Some? && p < q && CloseOf(x, p).value.last == CloseOf(x, q).value.last
    && Meaning(x, p) == Before(s, Meaning(x, q)) && |s| + Budget(x, q) <= Budget(x, p)
  }

  // The text ends with the quote that closes the string at p, so that no index can lie behind it.
  ghost predicate EndsAt(x: seq<Byte>, p: nat) {
    CloseOf(x, p).Some? && CloseOf(x, p).value.last + 1 == |x|
  }

  /** Decodes one \\uXXXX escape or surrogate pair, given no more of the text than up to the closing quote. */
  method DecodeCode(x: seq<Byte>, p: nat) returns (u: Option<nat>, q: nat)
    requires EndsAt(x, p) && UnitAt(x, p).Code?
    ensures u.None? ==> Meaning(x, p).None?
    ensures u.Some? ==> u.value < LIMIT && Covers(x, p, q, Encoded(u.value))
  {
    var utf := ReadHex(x, p + 2);
    q := p + 6;
    if utf < 0xD800 || utf > 0xDFFF {
      return Some(utf), q;
    }
    if utf > 0xDBFF || x[q] != BACKSLASH || x[q + 1] != LOWER_U {
      return None, q;
    }
    u, q := DecodeLow(x, p, utf);
  }

  // The second escape of a surrogate pair.
  method DecodeLow(x: seq<Byte>, p: nat, high: nat) returns (u: Option<nat>, q: nat)
    requires EndsAt(x, p) && UnitAt(x, p) == Code(high) && High(high)
    requires CloseOf(x, p + 6).Some? && x[p + 6] == BACKSLASH && p + 7 < |x| && x[p + 7] == LOWER_U
    ensures u.None? ==> Meaning(x, p).None?
    ensures u.Some? ==> u.value < LIMIT && Covers(x, p, q, Encoded(u.value))
  {
    assert UnitAt(x, p + 6).Code?;
    var low := ReadHex(x, p + 8);
    q := p + 12;
    if low < 0xDC00 || low > 0xDFFF {
      return None, q;
    }
    return Some(Pair(high, low)), q;
  }

  /**
   * The second pass, given no more of the text than up to the closing quote: ends exactly on it and stays within the
   * budget, or reports a bad surrogate.
   */
  method SecondPass(x: seq<Byte>, start: nat, last: nat, buf: array<Byte>) returns (length: Option<nat>)
    requires EndsAt(x, start) && last + 1 == |x| && buf.Length == Budget(x, start)
    modifies buf
    ensures length.None? <==> Meaning(x, start).None?
    ensures length.Some? ==> length.value <= buf.Length && buf[..length.value] == Meaning(x, start).value
  {
    var p, s: nat := start, 0;
    BeforeNothing(buf[..0], Meaning(x, start));
    while p != last
      invariant CloseOf(x, p).Some? && CloseOf(x, p).value.last == last && s + Budget(x, p) <= buf.Length
      invariant Meaning(x, start) == Before(buf[..s], Meaning(x, p))
      decreases last - p
    {
      ghost var done := buf[..s];
      var ok, q, t, piece := DecodeUnit(x, p, buf, s);
      if !ok {
        return None;
      }
      BeforeTwice(done, piece, Meaning(x, q));
      p, s := q, t;
    }
    return Some(s);
  }

  lemma BeforeNothing(a: seq<Byte>, r: Option<seq<Byte>>)
    requires a == []
    ensures Before(a, r) == r
  {
    if r.Some? {
      assert a + r.value == r.value;
    }
  }

  lemma BeforeTwice(a: seq<Byte>, b: seq<Byte>, r: Option<seq<Byte>>)
    ensures Before(a, Before(b, r)) == Before(a + b, r)
  {
    if r.Some? {
      assert a + (b + r.value) == (a + b) + r.value;
    }
  }

  // One unit of the second pass: reads at p, writes at s.
  method DecodeUnit(x: seq<Byte>, p: nat, buf: array<Byte>, s: nat)
    returns (ok: bool, q: nat, t: nat, ghost piece: seq<Byte>)
    requires EndsAt(x, p) && p + 1 != |x| && s + Budget(x, p) <= buf.Length
    modifies buf
    ensures !ok ==> Meaning(x, p).None?
    ensures ok ==> Covers(x, p, q, piece) && t <= buf.Length && t == s + |piece| && buf[..t] == old(buf[..s]) + piece
  {
    hide Covers, Meaning, CloseOf, Before, Encoded;
    OneByte(x, p);
    var ch := x[p];
    ok, q, t, piece := true, p + 1, s + 1, [ch];
    if ch != BACKSLASH {
      buf[s] := ch;
    } else if Escapee(x[p + 1]).Some? {
      buf[s] := Escapee(x[p + 1]).value;
      q, piece := p + 2, [buf[s]];
    } else {
      var u;
      u, q := DecodeCode(x, p);
      ok := u.Some?;
      if ok {
        CoversFits(x, p, q, Encoded(u.value));
        var end := Encode(buf, s, u.value);
        t, piece := end.value, Encoded(u.value);
        assert buf[..t] == buf[..s] + buf[s..t];
      }
    }
  }

  // A character or a simple escape stands for one byte; anything else is a code.
  lemma OneByte(x: seq<Byte>, p: nat)
    requires EndsAt(x, p) && p + 1 != |x|
    ensures p + 1 < |x| && Budget(x, p) > 0
    ensures x[p] != BACKSLASH ==> Covers(x, p, p + 1, [x[p]])
    ensures x[p] == BACKSLASH && Escapee(x[p + 1]).Some? ==> Covers(x, p, p + 2, [Escapee(x[p + 1]).value])
    ensures x[p] == BACKSLASH && Escapee(x[p + 1]).None? ==> UnitAt(x, p).Code?
  {
    hide Meaning, CloseOf;
    CloseUnfolds(x, p);
    MeaningUnfolds(x, p);
  }

  // What is decoded fits into what is left of the budget.
  lemma CoversFits(x: seq<Byte>, p: nat, q: nat, s: seq<Byte>)
    requires CloseOf(x, p).Some? && Covers(x, p, q, s)
    ensures |s| <= Budget(x, p)
  {
    hide Meaning, CloseOf;
    assert CloseOf(x, q).value.surplus <= CloseOf(x, q).value.last - q;
  }

  // ---------- the parser of a string value

  datatype Parsed = Parsed(short: bool, bytes: seq<Byte>, next: nat)

  /** What the string value at p is: the decoded bytes, inline when the budget fits 14 bytes. */
  function StringAt(x: seq<Byte>, p: nat): Option<Parsed>
    requires p < |x| && x[p] == QUOTE
  {
    var c := CloseOf(x, p + 1);
    if c.None? then None
    else
      var size := c.value.last - (p + 1) - c.value.surplus;
      if size > MAX_STRING || Meaning(x, p + 1).None? then None
      else Some(Parsed(size <= MAX_SHORT, Meaning(x, p + 1).value, c.value.last + 1))
  }

  lemma {:induction false} NothingEscaped(x: seq<Byte>, p: nat)
    requires CloseOf(x, p).Some? && CloseOf(x, p).value.surplus == 0
    ensures Meaning(x, p) == Some(x[p..CloseOf(x, p).value.last])
    decreases |x| - p
  {
    if UnitAt(x, p).Closing? {
      assert x[p..p] == [];
    } else {
      NothingEscaped(x, p + 1);
      assert x[p..CloseOf(x, p).value.last] == [x[p]] + x[p + 1..CloseOf(x, p).value.last];
    }
  }

  // What stands behind the closing quote does not matter.
  lemma {:induction false} CutBehind(x: seq<Byte>, p: nat, last: nat)
    requires CloseOf(x, p).Some? && CloseOf(x, p).value.last == last
    ensures CloseOf(x[..last + 1], p) == CloseOf(x, p) && Meaning(x[..last + 1], p) == Meaning(x, p)
    decreases |x| - p
  {
    hide CloseOf, Meaning, UnitAt, Encoded, Pair;
    var y, u := x[..last + 1], UnitAt(x, p);
    CloseUnfolds(x, p);
    CloseUnfolds(y, p);
    SameUnit(x, p, last);
    if !u.Closing? {
      CutBehind(x, p + Size(u), last);
      if u.Code? && High(u.u) {
        SameUnit(x, p + 6, last);
        CloseUnfolds(x, p + 6);
        if UnitAt(x, p + 6).Code? {
          CutBehind(x, p + 12, last);
        }
      }
    }
    MeaningUnfolds(x, p);
    MeaningUnfolds(y, p);
  }

  lemma CloseUnfolds(x: seq<Byte>, p: nat)
    ensures var u := UnitAt(x, p);
      CloseOf(x, p) ==
        if u.Invalid? then None
        else if u.Closing? then Some(Close(p, 0))
        else Plus(CloseOf(x, p + Size(u)), Surplus(u))
    ensures !UnitAt(x, p).Invalid? && !UnitAt(x, p).Closing? ==> Size(UnitAt(x, p)) > 0 && p < |x|
  {
  }

  lemma MeaningUnfolds(x: seq<Byte>, p: nat)
    requires CloseOf(x, p).Some?
    ensures UnitAt(x, p).Closing? ==> Meaning(x, p) == Some([])
    ensures UnitAt(x, p).Plain? ==>
      CloseOf(x, p + 1).Some? && Meaning(x, p) == Before([UnitAt(x, p).ch], Meaning(x, p + 1))
    ensures UnitAt(x, p).Simple? ==>
      CloseOf(x, p + 2).Some? && Meaning(x, p) == Before([UnitAt(x, p).ch], Meaning(x, p + 2))
    ensures UnitAt(x, p).Code? ==>
      var h, v := UnitAt(x, p).u, UnitAt(x, p + 6);
      CloseOf(x, p + 6).Some? && (
        if !High(h) && !Low(h) then Meaning(x, p) == Before(Encoded(h), Meaning(x, p + 6))
        else if High(h) && v.Code? && Low(v.u) then
          CloseOf(x, p + 12).Some? && Meaning(x, p) == Before(Encoded(Pair(h, v.u)), Meaning(x, p + 12))
        else Meaning(x, p) == None)
  {
    hide UnitAt, Encoded, Pair;
  }

  lemma SameUnit(x: seq<Byte>, p: nat, last: nat)
    requires CloseOf(x, p).Some? && CloseOf(x, p).value.last == last
    ensures UnitAt(x[..last + 1], p) == UnitAt(x, p)
  {
    assert !UnitAt(x, p).Closing? ==> p + Size(UnitAt(x, p)) <= last;
  }

  /** nxt_conf_json_parse_string */
  method ParseString(x: seq<Byte>, start: nat) returns (r: Option<Parsed>)
    requires start < |x| && x[start] == QUOTE
    ensures r == StringAt(x, start)
    ensures r.Some? && r.value.short ==> |r.value.bytes| <= MAX_SHORT
  {
    var c := FirstPass(x, start + 1);
    if c.None? {
      return None;
    }
    var last := c.value.last;
    var size: nat := last - (start + 1) - c.value.surplus;
    if size > MAX_STRING {
      return None;
    }
    if c.value.surplus == 0 {
      NothingEscaped(x, start + 1);
      return Some(Parsed(size <= MAX_SHORT, x[start + 1..last], last + 1));
    }
    var buf := new Byte[size];
    CutBehind(x, start + 1, last);
    var length := SecondPass(x[..last + 1], start + 1, last, buf);
    if length.None? {
      return None;
    }
    return Some(Parsed(size <= MAX_SHORT, buf[..length.value], last + 1));
  }

  // ---------- escaping

  function HexDigit(d: nat): Byte
    requires d < 16
  {
    if d < 10 then 0x30 + d else 0x41 + d - 10
  }

  // The letter of a one-letter escape of a control character.
  function Letter(ch: Byte): Option<Byte> {
    if ch == 0x0A then Some(0x6E)
    else if ch == 0x0D then Some(0x72)
    else if ch == 0x09 then Some(0x74)
    else if ch == 0x08 then Some(0x62)
    else if ch == 0x0C then Some(0x66)
    else None
  }

  function EscapedByte(ch: Byte): (s: seq<Byte>)
    ensures |s| == 1 || |s| == 2 || |s| == 6
  {
    if ch > 0x1F then
      if ch == BACKSLASH || ch == QUOTE then [BACKSLASH, ch] else [ch]
    else if Letter(ch).Some? then [BACKSLASH, Letter(ch).value]
    else [BACKSLASH, LOWER_U, 0x30, 0x30, 0x30 + (ch as int / 16), HexDigit(ch as int % 16)]
  }

  function Escaped(s: seq<Byte>): seq<Byte> {
    if s == [] then [] else EscapedByte(s[0]) + Escaped(s[1..])
  }

  /** nxt_conf_json_escape_length: exactly the room the escaper needs. */
  method EscapeLength(s: seq<Byte>) returns (len: nat)
    ensures len == |Escaped(s)|
  {
    len := |s|;
    var i := 0;
    while i < |s|
      invariant 0 <= i <= |s| && len + |Escaped(s[i..])| == |Escaped(s)| + |s| - i
    {
      var ch := s[i];
      assert s[i..][1..] == s[i + 1..];
      if ch == BACKSLASH || ch == QUOTE {
        len := len + 1;
      } else if ch <= 0x1F {
        len := len + if Letter(ch).Some? then 1 else 5;
      }
      i := i + 1;
    }
  }

  /** nxt_conf_json_escape: writes the escaped text at `at` and returns the position behind it. */
  method Escape(dst: array<Byte>, at: nat, s: seq<Byte>) returns (end: nat)
    requires at + |Escaped(s)| <= dst.Length
    modifies dst
    ensures end == at + |Escaped(s)| && dst[..end] == old(dst[..at]) + Escaped(s) && dst[end..] == old(dst[end..])
  {
    end := at;
    var i := 0;
    assert s[0..] == s && s[|s|..] == [];
    while i < |s|
      invariant 0 <= i <= |s| && at <= end && end + |Escaped(s[i..])| == at + |Escaped(s)|
      invariant dst[..end] + Escaped(s[i..]) == old(dst[..at]) + Escaped(s) && dst[end..] == old(dst[..])[end..]
    {
      assert s[i..][1..] == s[i + 1..];
      Assoc(dst[..end], EscapedByte(s[i]), Escaped(s[i + 1..]));
      ghost var before := dst[..];
      end := EscapeOne(dst, end, s[i]);
      i := i + 1;
    }
  }

  lemma Assoc(a: seq<Byte>, b: seq<Byte>, c: seq<Byte>)
    ensures (a + b) + c == a + (b + c)
  {
  }

  lemma EscapedForms(ch: Byte)
    ensures ch > 0x1F && (ch == BACKSLASH || ch == QUOTE) ==> EscapedByte(ch) == [BACKSLASH, ch]
    ensures ch > 0x1F && ch != BACKSLASH && ch != QUOTE ==> EscapedByte(ch) == [ch]
    ensures ch <= 0x1F && Letter(ch).Some? ==> EscapedByte(ch) == [BACKSLASH, Letter(ch).value]
    ensures ch as int / 16 < 16 && (ch <= 0x1F && Letter(ch).None? ==>
        EscapedByte(ch) == [BACKSLASH, LOWER_U, 0x30, 0x30, 0x30 + ch as int / 16, HexDigit(ch as int % 16)])
  {
  }

  method EscapeOne(dst: array<Byte>, at: nat, ch: Byte) returns (end: nat)
    requires at + |EscapedByte(ch)| <= dst.Length
    modifies dst
    ensures end == at + |EscapedByte(ch)| && dst[..end] == old(dst[..at]) + EscapedByte(ch)
    ensures dst[end..] == old(dst[end..])
  {
    hide EscapedByte, HexDigit;
    EscapedForms(ch);
    end := at;
    if ch > 0x1F {
      if ch == BACKSLASH || ch == QUOTE {
        dst[end] := BACKSLASH;
        end := end + 1;
      }
      dst[end] := ch;
      end := end + 1;
    } else {
      dst[end] := BACKSLASH;
      if Letter(ch).Some? {
        dst[end + 1] := Letter(ch).value;
        end := end + 2;
      } else {
        dst[end + 1], dst[end + 2], dst[end + 3] := LOWER_U, 0x30, 0x30;
        dst[end + 4] := 0x30 + ch as int / 16;
        dst[end + 5] := HexDigit(ch as int % 16);
        end := end + 6;
      }
    }
    assert dst[at..end] == EscapedByte(ch);
    assert dst[..end] == dst[..at] + dst[at..end] && dst[..at] == old(dst[..at]);
  }

  // ---------- escaping and decoding are inverse

  /** The text t stands in x at position p. */
  predicate At(x: seq<Byte>, p: nat, t: seq<Byte>) {
    p + |t| <= |x| && forall k :: 0 <= k < |t| ==> x[p + k] == t[k]
  }

  lemma AtSplit(x: seq<Byte>, p: nat, a: seq<Byte>, b: seq<Byte>)
    requires At(x, p, a + b)
    ensures At(x, p, a) && At(x, p + |a|, b)
  {
    forall k | 0 <= k < |a|
      ensures x[p + k] == a[k]
    {
      assert (a + b)[k] == a[k];
    }
    forall k | 0 <= k < |b|
      ensures x[p + |a| + k] == b[k]
    {
      assert (a + b)[|a| + k] == b[k];
    }
  }

  lemma AtJoin(x: seq<Byte>, p: nat, a: seq<Byte>, b: seq<Byte>)
    requires At(x, p, a) && At(x, p + |a|, b)
    ensures At(x, p, a + b)
  {
    forall k | 0 <= k < |a + b|
      ensures x[p + k] == (a + b)[k]
    {
      if k >= |a| {
        assert x[p + |a| + (k - |a|)] == b[k - |a|];
      }
    }
  }

  lemma Standing(x: seq<Byte>, p: nat, b: Byte)
    requires At(x, p, [b])
    ensures p < |x| && x[p] == b
  {
    assert x[p + 0] == [b][0];
  }

  // What the decoder budgets for the escaped form of a string: three bytes for a \\uXXXX escape, else one.
  function Weight(s: seq<Byte>): nat {
    if s == [] then 0 else (if |EscapedByte(s[0])| == 6 then 3 else 1) + Weight(s[1..])
  }

  lemma EscapedUnit(x: seq<Byte>, p: nat, ch: Byte)
    requires At(x, p, EscapedByte(ch))
    ensures var u := UnitAt(x, p);
      Size(u) == |EscapedByte(ch)| && Size(u) - Surplus(u) == (if |EscapedByte(ch)| == 6 then 3 else 1)
      && (u == Plain(ch) || u == Simple(ch) || (ch < 0x80 && u == Code(ch)))
  {
    var e := EscapedByte(ch);
    if |e| == 6 {
      assert e == [BACKSLASH, LOWER_U, 0x30, 0x30, 0x30 + (ch as int / 16), HexDigit(ch as int % 16)];
      assert x[p] == e[0] && x[p + 1] == e[1] && x[p + 2] == e[2] && x[p + 3] == e[3] && x[p + 4] == e[4]
        && x[p + 5] == e[5];
      assert HexAt(x, p + 2) == ch as int / 16 * 16 + ch as int % 16;
    } else {
      assert x[p] == e[0];
      if |e| == 2 {
        assert x[p + 1] == e[1];
      }
    }
  }

  /** Decoding the escaped form of any byte string gives the string back. */
  lemma {:induction false} EscapeInverts(x: seq<Byte>, p: nat, s: seq<Byte>)
    requires At(x, p, Escaped(s) + [QUOTE])
    ensures CloseOf(x, p).Some? && CloseOf(x, p).value.last == p + |Escaped(s)|
    ensures Budget(x, p) == Weight(s) && Meaning(x, p) == Some(s)
    decreases |s|
  {
    hide CloseOf, Meaning, UnitAt, EscapedByte, At, Budget;
    AtSplit(x, p, Escaped(s), [QUOTE]);
    if s == [] {
      ClosesHere(x, p);
    } else {
      var e := EscapedByte(s[0]);
      Assoc(e, Escaped(s[1..]), [QUOTE]);
      AtSplit(x, p, e, Escaped(s[1..]) + [QUOTE]);
      EscapeInverts(x, p + |e|, s[1..]);
      EscapedUnit(x, p, s[0]);
      OneUnit(x, p, s[0], s[1..]);
      assert s == [s[0]] + s[1..];
    }
  }

  lemma ClosesHere(x: seq<Byte>, p: nat)
    requires At(x, p, [QUOTE])
    ensures CloseOf(x, p) == Some(Close(p, 0)) && Meaning(x, p) == Some([]) && Budget(x, p) == 0
  {
    Standing(x, p, QUOTE);
  }

  // A unit that stands for ch, before a body that means rest.
  lemma OneUnit(x: seq<Byte>, p: nat, ch: Byte, rest: seq<Byte>)
    requires var u := UnitAt(x, p); u == Plain(ch) || u == Simple(ch) || (ch < 0x80 && u == Code(ch))
    requires var q := p + Size(UnitAt(x, p)); CloseOf(x, q).Some? && Meaning(x, q) == Some(rest)
    ensures CloseOf(x, p).Some? && Meaning(x, p) == Some([ch] + rest)
    ensures var u := UnitAt(x, p);
      CloseOf(x, p).value.last == CloseOf(x, p + Size(u)).value.last
      && Budget(x, p) == Budget(x, p + Size(u)) + Size(u) - Surplus(u)
  {
    if UnitAt(x, p).Code? {
      assert Encoded(ch) == [ch];
    }
  }

  /** The quoted text of a string parses back to it, wherever it stands. */
  lemma QuotedInverts(x: seq<Byte>, p: nat, s: seq<Byte>)
    requires At(x, p, [QUOTE] + Escaped(s) + [QUOTE]) && Weight(s) <= MAX_STRING
    ensures p < |x| && x[p] == QUOTE && StringAt(x, p) == Some(Parsed(Weight(s) <= MAX_SHORT, s, p + |Escaped(s)| + 2))
  {
    hide At, Escaped, Weight, CloseOf, Meaning;
    Assoc([QUOTE], Escaped(s), [QUOTE]);
    AtSplit(x, p, [QUOTE], Escaped(s) + [QUOTE]);
    Standing(x, p, QUOTE);
    EscapeInverts(x, p + 1, s);
  }
}
