/** The JSON parser of src/nxt_conf.c:161-1061 as functions of a position. */
module JsonParse {
  import opened Bytes
  import opened JsonString
  import opened JsonPrint

  const MINUS: Byte := 0x2D
  const PLUS: Byte := 0x2B
  const DOT: Byte := 0x2E
  const MAX_NUMBER: nat := 14

  /** What strtod makes of a number's text. */
  datatype Kind = Whole | Fraction | Refused

  /** The parser's environment: the conversion of number texts. */
  datatype Env = Env(number: seq<Byte> -> Kind)

  predicate IsSpace(ch: Byte) { ch == 0x20 || ch == 0x09 || ch == 0x0D || ch == 0x0A }

  function Skip(x: seq<Byte>, p: nat): (q: nat)
    requires p <= |x|
    ensures p <= q <= |x|
    decreases |x| - p
  {
    if p < |x| && IsSpace(x[p]) then Skip(x, p + 1) else p
  }

  predicate IsDigit(ch: Byte) { 0x30 <= ch <= 0x39 }

  function Digits(x: seq<Byte>, p: nat): (q: nat)
    requires p <= |x|
    ensures p <= q <= |x|
    decreases |x| - p
  {
    if p < |x| && IsDigit(x[p]) then Digits(x, p + 1) else p
  }

  // Digits with at most one dot: the end, and where the dot was.
  function Mantissa(x: seq<Byte>, p: nat, dot: Option<nat>): (r: (nat, Option<nat>))
    requires p <= |x| && (dot.Some? ==> dot.value <= p)
    ensures p <= r.0 <= |x| && (r.1.Some? ==> r.1.value <= r.0)
    decreases |x| - p
  {
    if p < |x| && IsDigit(x[p]) then Mantissa(x, p + 1, dot)
    else if p < |x| && x[p] == DOT && dot.None? then Mantissa(x, p + 1, Some(p))
    else (p, dot)
  }

  predicate AtExponent(x: seq<Byte>, p: nat) { p < |x| && (x[p] == 0x65 || x[p] == 0x45) }

  predicate AtSign(x: seq<Byte>, p: nat) { p < |x| && (x[p] == MINUS || x[p] == PLUS) }

  /** The end of the number text at `start`; leading zeros are refused only without a minus sign. */
  function NumberEnd(x: seq<Byte>, start: nat): (r: Option<nat>)
    requires start < |x|
    ensures r.Some? ==> start <= r.value <= |x|
  {
    var s := if x[start] == MINUS then start + 1 else start;
    var (p, dot) := Mantissa(x, s, None);
    EndOf(start, s, p, dot, x[start] == 0x30, if AtExponent(x, p) then ExponentEnd(x, p + 1) else Some(p))
  }

  // The tests behind the scan, for a mantissa from s to p and a number that would end at q.
  function EndOf(start: nat, s: nat, p: nat, dot: Option<nat>, zero: bool, q: Option<nat>): (r: Option<nat>)
    ensures r.Some? ==> r == q
  {
    if dot.Some? && p - dot.value <= 1 then None
    else if (if dot.Some? then dot.value else p) - s > 1 && zero then None
    else if q.None? || q.value - start > MAX_NUMBER then None
    else q
  }

  function ExponentEnd(x: seq<Byte>, p: nat): (r: Option<nat>)
    requires p <= |x|
    ensures r.Some? ==> p < r.value <= |x|
  {
    var s := if AtSign(x, p) then p + 1 else p;
    if Digits(x, s) == s then None else Some(Digits(x, s))
  }

  predicate Terminates(ch: Byte) {
    IsSpace(ch) || ch == COMMA || ch == CLOSE_OBJECT || ch == CLOSE_ARRAY || ch == OPEN_OBJECT || ch == OPEN_ARRAY
      || ch == QUOTE
  }

  function ParseNumber(x: seq<Byte>, p: nat, env: Env): (r: Option<(Value, nat)>)
    requires p < |x|
    ensures r.Some? ==> p <= r.value.1 <= |x|
  {
    var q := NumberEnd(x, p);
    if q.None? then None
    else
      var text := x[p..q.value];
      var kind := env.number(text);
      if kind.Refused? || (q.value < |x| && !Terminates(x[q.value])) then None
      else Some((if kind.Whole? then Integer(text) else Number(text), q.value))
  }

  function ParseLiteral(x: seq<Byte>, p: nat, text: seq<Byte>, v: Value): (r: Option<(Value, nat)>)
    requires p < |x|
    ensures r.Some? ==> p <= r.value.1 <= |x|
  {
    if At(x, p, text) then Some((v, p + |text|)) else None
  }

  function ParseValue(x: seq<Byte>, p: nat, env: Env): (r: Option<(Value, nat)>)
    requires p < |x|
    ensures r.Some? ==> p <= r.value.1 <= |x|
    decreases |x| - p, 1
  {
    var ch := x[p];
    if ch == OPEN_OBJECT then
      var r := ParseMembers(x, p, {}, env);
      if r.None? then None else Some((Obj(r.value.0), r.value.1))
    else if ch == OPEN_ARRAY then
      var r := ParseElements(x, p, env);
      if r.None? then None else Some((Arr(r.value.0), r.value.1))
    else if ch == QUOTE then
      var r := StringAt(x, p);
      if r.None? then None else Some((Str(r.value.bytes), r.value.next))
    else if ch == TRUE_TEXT[0] then ParseLiteral(x, p, TRUE_TEXT, Bool(true))
    else if ch == FALSE_TEXT[0] then ParseLiteral(x, p, FALSE_TEXT, Bool(false))
    else if ch == NULL_TEXT[0] then ParseLiteral(x, p, NULL_TEXT, Null)
    else if ch == MINUS then
      if p + 1 < |x| && x[p + 1] <= 0x39 then ParseNumber(x, p, env) else None
    else if ch <= 0x39 then ParseNumber(x, p, env)  // also characters below '0'
    else None
  }

  // The rest of an array: p stands on its opening bracket or on a comma.
  function ParseElements(x: seq<Byte>, p: nat, env: Env): (r: Option<(seq<Value>, nat)>)
    requires p < |x|
    ensures r.Some? ==> p < r.value.1 <= |x|
    decreases |x| - p, 0
  {
    var q := Skip(x, p + 1);
    if q == |x| then None
    else if x[q] == CLOSE_ARRAY then Some(([], q + 1))
    else
      var v := ParseValue(x, q, env);
      if v.None? then None
      else
        var r := Skip(x, v.value.1);
        if r == |x| then None
        else if x[r] == COMMA then
          var rest := ParseElements(x, r, env);
          if rest.None? then None else Some(([v.value.0] + rest.value.0, rest.value.1))
        else if x[r] == CLOSE_ARRAY then Some(([v.value.0], r + 1))
        else None
  }

  // One member: its name and value, and the position of the comma or brace behind it.
  function ParseMember(x: seq<Byte>, q: nat, seen: set<seq<Byte>>, env: Env): (r: Option<(Member, nat)>)
    requires q < |x| && x[q] == QUOTE
    ensures r.Some? ==> q < r.value.1 < |x|
    decreases |x| - q, 0
  {
    var name := StringAt(x, q);
    if name.None? || name.value.bytes in seen then None
    else
      var c := Skip(x, name.value.next);
      if c == |x| || x[c] != COLON then None
      else
        var s := Skip(x, c + 1);
        if s == |x| then None
        else
          var v := ParseValue(x, s, env);
          if v.None? then None
          else
            var r := Skip(x, v.value.1);
            if r == |x| then None else Some((Member(name.value.bytes, v.value.0), r))
  }

  // The rest of an object: p stands on its opening brace or on a comma.
  function ParseMembers(x: seq<Byte>, p: nat, seen: set<seq<Byte>>, env: Env): (r: Option<(seq<Member>, nat)>)
    requires p < |x|
    ensures r.Some? ==> p < r.value.1 <= |x|
    decreases |x| - p, 0
  {
    var q := Skip(x, p + 1);
    if q == |x| then None
    else if x[q] == CLOSE_OBJECT then Some(([], q + 1))
    else if x[q] != QUOTE then None
    else
      var m := ParseMember(x, q, seen, env);
      if m.None? then None
      else if x[m.value.1] == COMMA then
        var rest := ParseMembers(x, m.value.1, seen + {m.value.0.name}, env);
        if rest.None? then None else Some(([m.value.0] + rest.value.0, rest.value.1))
      else if x[m.value.1] == CLOSE_OBJECT then Some(([m.value.0], m.value.1 + 1))
      else None
  }

  function Parse(x: seq<Byte>, env: Env): Option<Value> {
    var p := Skip(x, 0);
    if p == |x| then None
    else
      var r := ParseValue(x, p, env);
      if r.Some? && Skip(x, r.value.1) == |x| then Some(r.value.0) else None
  }

  // ---------- what can be printed and read back

  /** A number text the parser takes whole: it begins with a digit or a minus and a digit. */
  predicate NumberText(t: seq<Byte>, env: Env) {
    && t != [] && (IsDigit(t[0]) || (t[0] == MINUS && |t| > 1 && IsDigit(t[1])))
    && NumberEnd(t, 0) == Some(|t|) && env.number(t).Whole?
  }

  ghost predicate Distinct(ms: seq<Member>) {
    forall i, j :: 0 <= i < j < |ms| ==> ms[i].name != ms[j].name
  }

  ghost predicate Printable(v: Value, env: Env)
    decreases v
  {
    match v
    case Integer(text) => NumberText(text, env)
    case Number(_) => false
    case Str(s) => Weight(s) <= MAX_STRING
    case Arr(es) => forall i :: 0 <= i < |es| ==> Printable(es[i], env)
    case Obj(ms) =>
      Distinct(ms) && forall i :: 0 <= i < |ms| ==> Weight(ms[i].name) <= MAX_STRING && Printable(ms[i].value, env)
    case _ => true
  }

  // ---------- spaces

  lemma {:induction false} SkipSpaces(x: seq<Byte>, p: nat, w: seq<Byte>)
    requires At(x, p, w) && forall k :: 0 <= k < |w| ==> IsSpace(w[k])
    requires p + |w| < |x| ==> !IsSpace(x[p + |w|])
    ensures Skip(x, p) == p + |w|
    decreases |w|
  {
    if w != [] {
      assert x[p + 0] == w[0];
      AtSplit(x, p, w[..1], w[1..]) by { assert w == w[..1] + w[1..]; }
      SkipSpaces(x, p + 1, w[1..]);
    }
  }

  // Spaces and then another character.
  lemma SpacesThen(x: seq<Byte>, p: nat, w: seq<Byte>, ch: Byte)
    requires At(x, p, w) && At(x, p + |w|, [ch]) && !IsSpace(ch)
    requires forall k :: 0 <= k < |w| ==> IsSpace(w[k])
    ensures Skip(x, p) == p + |w| && p + |w| < |x| && x[p + |w|] == ch
  {
    Standing(x, p + |w|, ch);
    SkipSpaces(x, p, w);
  }

  // ---------- one step of the parser

  lemma ArrayValue(x: seq<Byte>, p: nat, env: Env)
    requires p < |x| && x[p] == OPEN_ARRAY
    ensures var r := ParseElements(x, p, env);
      ParseValue(x, p, env) == if r.None? then None else Some((Arr(r.value.0), r.value.1))
  {
  }

  lemma ObjectValue(x: seq<Byte>, p: nat, env: Env)
    requires p < |x| && x[p] == OPEN_OBJECT
    ensures var r := ParseMembers(x, p, {}, env);
      ParseValue(x, p, env) == if r.None? then None else Some((Obj(r.value.0), r.value.1))
  {
    hide ParseMembers;
  }

  // One round of the array loop.
  lemma OneElement(x: seq<Byte>, p: nat, q: nat, v: Value, e: nat, r: nat, env: Env)
    requires p < |x| && Skip(x, p + 1) == q && q < |x| && x[q] != CLOSE_ARRAY
    requires ParseValue(x, q, env) == Some((v, e)) && Skip(x, e) == r && r < |x|
    ensures x[r] == CLOSE_ARRAY ==> ParseElements(x, p, env) == Some(([v], r + 1))
    ensures x[r] == COMMA && ParseElements(x, r, env).Some? ==>
      var rest := ParseElements(x, r, env).value; ParseElements(x, p, env) == Some(([v] + rest.0, rest.1))
  {
  }

  lemma OneMember(x: seq<Byte>, q: nat, name: seq<Byte>, c: nat, s: nat, v: Value, e: nat, r: nat,
      seen: set<seq<Byte>>, env: Env)
    requires q < |x| && x[q] == QUOTE && StringAt(x, q).Some? && StringAt(x, q).value.bytes == name && name !in seen
    requires Skip(x, StringAt(x, q).value.next) == c < |x| && x[c] == COLON
    requires Skip(x, c + 1) == s < |x| && ParseValue(x, s, env) == Some((v, e)) && Skip(x, e) == r < |x|
    ensures ParseMember(x, q, seen, env) == Some((Member(name, v), r))
  {
    hide Skip, StringAt, ParseValue;
  }

  // One round of the object loop.
  lemma OneRound(x: seq<Byte>, p: nat, q: nat, m: Member, r: nat, seen: set<seq<Byte>>, env: Env)
    requires p < |x| && Skip(x, p + 1) == q < |x| && x[q] == QUOTE && ParseMember(x, q, seen, env) == Some((m, r))
    ensures x[r] == CLOSE_OBJECT ==> ParseMembers(x, p, seen, env) == Some(([m], r + 1))
    ensures x[r] == COMMA && ParseMembers(x, r, seen + {m.name}, env).Some? ==>
      var rest := ParseMembers(x, r, seen + {m.name}, env).value;
      ParseMembers(x, p, seen, env) == Some(([m] + rest.0, rest.1))
  {
    hide ParseMember, Skip;
  }

  // ---------- equality up to member order

  /** The same value but for the order of members, at every depth. */
  ghost predicate Same(v: Value, w: Value)
    decreases v
  {
    match v
    case Arr(es) => w.Arr? && |es| == |w.elements| && forall i :: 0 <= i < |es| ==> Same(es[i], w.elements[i])
    case Obj(ms) => w.Obj? && exists ws :: Paired(ms, ws) && multiset(ws) == multiset(w.members)
    case _ => v == w
  }

  ghost predicate Paired(ms: seq<Member>, ws: seq<Member>)
    decreases ms
  {
    |ms| == |ws| && forall i :: 0 <= i < |ms| ==> ms[i].name == ws[i].name && Same(ms[i].value, ws[i].value)
  }
}
