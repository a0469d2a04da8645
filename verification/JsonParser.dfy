/** The parser of src/nxt_conf.c:161-1061 as it runs, proved against the grammar functions of JsonParse. */
module JsonParser {
  import opened Bytes
  import opened JsonString
  import opened JsonPrint
  import opened JsonParse
  import opened JsonObject
  import JsonLayout
  import LevelHash

  method SkipSpace(x: seq<Byte>, start: nat) returns (p: nat)
    requires start <= |x|
    ensures p == Skip(x, start)
  {
    p := start;
    while p != |x|
      invariant p <= |x| && Skip(x, start) == Skip(x, p)
    {
      if !IsSpace(x[p]) {
        break;
      }
      p := p + 1;
    }
  }

  method ScanDigits(x: seq<Byte>, start: nat) returns (p: nat)
    requires start <= |x|
    ensures p == Digits(x, start)
  {
    p := start;
    while p != |x|
      invariant p <= |x| && Digits(x, start) == Digits(x, p)
    {
      if !IsDigit(x[p]) {
        break;
      }
      p := p + 1;
    }
  }

  method ScanMantissa(x: seq<Byte>, start: nat) returns (p: nat, dot: Option<nat>)
    requires start <= |x|
    ensures (p, dot) == Mantissa(x, start, None)
  {
    p, dot := start, None;
    while p != |x|
      invariant p <= |x| && (dot.Some? ==> dot.value <= p) && Mantissa(x, start, None) == Mantissa(x, p, dot)
      decreases |x| - p
    {
      if !IsDigit(x[p]) {
        if x[p] == DOT && dot.None? {
          dot := Some(p);
        } else {
          break;
        }
      }
      p := p + 1;
    }
  }

  /** nxt_conf_json_parse_number, up to the conversion of the text. */
  method ScanNumber(x: seq<Byte>, start: nat) returns (end: Option<nat>)
    requires start < |x|
    ensures end == NumberEnd(x, start)
  {
    var s: nat := if x[start] == MINUS then start + 1 else start;
    var p, dot := ScanMantissa(x, s);
    if dot.Some? && p - dot.value <= 1 {
      return None;
    }
    var whole: nat := if dot.Some? then dot.value else p;
    if whole - s > 1 && x[start] == 0x30 {
      return None;
    }
    if AtExponent(x, p) {
      s := if AtSign(x, p + 1) then p + 2 else p + 1;
      p := ScanDigits(x, s);
      if p == s {
        return None;
      }
    }
    if p - start > MAX_NUMBER {
      return None;
    }
    return Some(p);
  }

  method NumberValue(x: seq<Byte>, p: nat, env: Env) returns (r: Option<(Value, nat)>)
    requires p < |x|
    ensures r == ParseNumber(x, p, env)
  {
    var q := ScanNumber(x, p);
    if q.None? {
      return None;
    }
    var text := x[p..q.value];
    var kind := env.number(text);
    if kind.Refused? || (q.value != |x| && !Terminates(x[q.value])) {
      return None;
    }
    return Some((if kind.Whole? then Integer(text) else Number(text), q.value));
  }

  // An allocation, which may fail at any time.
  method Alloc() returns (ok: bool) {
    ok := *;
  }

  /** The parser agrees with the grammar: the same refusals, the same end, the same value up to the order of members. */
  ghost predicate Agrees(spec: Option<(Value, nat)>, r: Option<(Value, nat)>) {
    if spec.None? then r.None? else r.Some? && r.value.1 == spec.value.1 && Same(spec.value.0, r.value.0)
  }

  // What a call answers: nothing when memory was refused.
  ghost predicate Answers(spec: Option<(Value, nat)>, r: Option<(Value, nat)>, nomem: bool) {
    if nomem then r.None? else Agrees(spec, r)
  }

  /** nxt_conf_json_parse_value */
  method ReadValue(x: seq<Byte>, p: nat, env: Env) returns (r: Option<(Value, nat)>, nomem: bool)
    requires p < |x|
    ensures Answers(ParseValue(x, p, env), r, nomem)
    decreases |x| - p, 2
  {
    nomem := false;
    var ch := x[p];
    if ch == OPEN_OBJECT {
      r, nomem := ReadObject(x, p, env);
    } else if ch == OPEN_ARRAY {
      r, nomem := ReadArray(x, p, env);
    } else if ch == QUOTE {
      var s := ParseString(x, p);
      r := if s.None? then None else Some((Str(s.value.bytes), s.value.next));
      if s.Some? && !s.value.short {
        var ok := Alloc();
        if !ok {
          return None, true;
        }
      }
    } else if ch == TRUE_TEXT[0] {
      r := ParseLiteral(x, p, TRUE_TEXT, Bool(true));
    } else if ch == FALSE_TEXT[0] {
      r := ParseLiteral(x, p, FALSE_TEXT, Bool(false));
    } else if ch == NULL_TEXT[0] {
      r := ParseLiteral(x, p, NULL_TEXT, Null);
    } else {
      if ch == MINUS {
        if p + 1 == |x| {
          return None, false;
        }
        ch := x[p + 1];
      }
      r := None;
      if ch <= 0x39 {
        r := NumberValue(x, p, env);
      }
      NumberIsScalar(x, p, env);
    }
  }

  lemma NumberIsScalar(x: seq<Byte>, p: nat, env: Env)
    requires p < |x|
    ensures ParseNumber(x, p, env).Some? ==> Same(ParseNumber(x, p, env).value.0, ParseNumber(x, p, env).value.0)
  {
  }

  // What the elements read so far contribute.
  ghost function Ahead<T>(done: seq<T>, r: Option<(seq<T>, nat)>): Option<(seq<T>, nat)> {
    if r.None? then None else Some((done + r.value.0, r.value.1))
  }

  lemma AheadOne<T>(done: seq<T>, v: T, r: Option<(seq<T>, nat)>)
    ensures Ahead(done, Ahead([v], r)) == Ahead(done + [v], r)
  {
    if r.Some? {
      assert done + ([v] + r.value.0) == done + [v] + r.value.0;
    }
  }

  lemma AheadEnds(done: seq<Member>, ms: seq<Member>, e: nat)
    ensures Ahead(done, Ended(ms, e)) == Some((done + ms, e)) && Ahead(done, None) == None
  {
  }

  lemma EmptyAhead<T>(r: Option<(seq<T>, nat)>)
    ensures Ahead([], r) == r
  {
    if r.Some? {
      assert [] + r.value.0 == r.value.0;
    }
  }

  ghost predicate Alike(spec: seq<Value>, list: seq<Value>) {
    |spec| == |list| && forall i :: 0 <= i < |spec| ==> Same(spec[i], list[i])
  }

  /** nxt_conf_json_parse_array */
  method ReadArray(x: seq<Byte>, start: nat, env: Env) returns (r: Option<(Value, nat)>, nomem: bool)
    requires start < |x| && x[start] == OPEN_ARRAY
    ensures Answers(ParseValue(x, start, env), r, nomem)
    decreases |x| - start, 0
  {
    hide ParseMembers, ParseMember, StringAt, Skip, ParseNumber, Same;
    var p, list: seq<Value> := start, [];
    ghost var spec: seq<Value> := [];
    ghost var goal := ParseElements(x, start, env);
    EmptyAhead(goal);
    nomem := false;
    while true
      invariant start <= p < |x| && !nomem && Alike(spec, list) && goal == Ahead(spec, ParseElements(x, p, env))
      decreases |x| - p
    {
      var q := SkipSpace(x, p + 1);
      if q == |x| {
        return None, false;
      }
      if x[q] == CLOSE_ARRAY {
        assert spec + [] == spec;
        r, nomem := MakeArray(spec, list, q + 1);
        return;
      }
      var ok := Alloc();
      if !ok {
        return None, true;
      }
      var v;
      v, nomem := ReadValue(x, q, env);
      if v.None? {
        return None, nomem;
      }
      ghost var next := ParseValue(x, q, env).value.0;
      var e := SkipSpace(x, v.value.1);
      if e == |x| {
        return None, false;
      }
      AlikeMore(spec, list, next, v.value.0);
      if x[e] != COMMA {
        if x[e] != CLOSE_ARRAY {
          return None, false;
        }
        r, nomem := MakeArray(spec + [next], list + [v.value.0], e + 1);
        return;
      }
      AheadOne(spec, next, ParseElements(x, e, env));
      spec := spec + [next];
      p, list := e, list + [v.value.0];
    }
  }

  lemma AlikeMore(spec: seq<Value>, list: seq<Value>, v: Value, w: Value)
    requires Alike(spec, list) && Same(v, w)
    ensures Alike(spec + [v], list + [w])
  {
  }

  method MakeArray(ghost spec: seq<Value>, list: seq<Value>, next: nat) returns (r: Option<(Value, nat)>, nomem: bool)
    requires Alike(spec, list)
    ensures Answers(Some((Arr(spec), next)), r, nomem)
  {
    var ok := Alloc();
    if !ok {
      return None, true;
    }
    return Some((Arr(list), next)), false;
  }

  ghost predicate Seen(ms: seq<Member>, seen: set<seq<Byte>>) {
    forall name :: name in seen <==> Named(ms, name)
  }

  ghost predicate MemberAgrees(spec: Option<(Member, nat)>, r: Option<(Member, nat)>) {
    if spec.None? then r.None?
    else
      r.Some? && r.value.1 == spec.value.1 && r.value.0.name == spec.value.0.name
        && Same(spec.value.0.value, r.value.0.value)
  }

  ghost function Ended(ms: seq<Member>, e: nat): Option<(seq<Member>, nat)> { Some((ms, e)) }

  // One round of the object loop in the grammar: no name follows, or a member does.
  lemma NoMember(x: seq<Byte>, p: nat, seen: set<seq<Byte>>, env: Env)
    requires p < |x|
    ensures var q, r := Skip(x, p + 1), ParseMembers(x, p, seen, env);
      && (q == |x| ==> r == None)
      && (q < |x| && x[q] != QUOTE ==> r == if x[q] == CLOSE_OBJECT then Ended([], q + 1) else None)
  {
    hide Skip, ParseMember;
  }

  lemma NextMember(x: seq<Byte>, p: nat, q: nat, seen: set<seq<Byte>>, env: Env, r: Option<(Member, nat)>)
    requires p < |x| && Skip(x, p + 1) == q < |x| && x[q] == QUOTE && MemberAgrees(ParseMember(x, q, seen, env), r)
    ensures r.None? ==> ParseMembers(x, p, seen, env) == None
    ensures r.Some? ==>
      var next, e := ParseMember(x, q, seen, env), r.value.1;
      && q < e < |x| && next.Some? && next.value.1 == e
      && next.value.0.name == r.value.0.name && Same(next.value.0.value, r.value.0.value)
      && ParseMembers(x, p, seen, env) ==
           if x[e] == COMMA then Ahead([next.value.0], ParseMembers(x, e, seen + {next.value.0.name}, env))
           else if x[e] == CLOSE_OBJECT then Ended([next.value.0], e + 1)
           else None
  {
    hide Skip, ParseMember, Same;
  }

  lemma ObjectValue(x: seq<Byte>, p: nat, env: Env)
    requires p < |x| && x[p] == OPEN_OBJECT
    ensures var r := ParseMembers(x, p, {}, env);
      ParseValue(x, p, env) == if r.None? then None else Some((Obj(r.value.0), r.value.1))
  {
    hide ParseMembers;
  }

  /** One round of the object loop: a member, put into the hash, and the position of the separator behind it. */
  method ReadMember(x: seq<Byte>, q: nat, hash: LevelHash.Hash, ghost ms: seq<Member>, ghost seen: set<seq<Byte>>,
      count: nat, env: Env)
    returns (r: Option<(Member, nat)>, nomem: bool)
    requires q < |x| && x[q] == QUOTE && Indexes(hash, ms) && Seen(ms, seen) && count == |ms|
    modifies hash
    ensures if nomem then r.None? else MemberAgrees(ParseMember(x, q, seen, env), r)
    ensures r.Some? ==> Indexes(hash, ms + [r.value.0])
    decreases |x| - q, 0
  {
    hide ParseMembers, ParseElements, ParseValue, Skip, CloseOf, Meaning, ParseNumber, Same, Named, Indexes;
    nomem := false;
    var name := ParseString(x, q);
    if name.None? {
      return None, false;
    }
    var ok := Alloc();
    if !ok {
      return None, true;
    }
    var rc := AddName(hash, ms, name.value.bytes, count);
    if rc != LevelHash.Ok {
      return None, rc == LevelHash.Error;
    }
    var c := SkipSpace(x, name.value.next);
    if c == |x| || x[c] != COLON {
      return None, false;
    }
    var s := SkipSpace(x, c + 1);
    if s == |x| {
      return None, false;
    }
    var v;
    v, nomem := ReadValue(x, s, env);
    if v.None? {
      return None, nomem;
    }
    var e := SkipSpace(x, v.value.1);
    if e == |x| {
      return None, false;
    }
    return Some((Member(name.value.bytes, v.value.0), e)), false;
  }

  /** What a round of the object loop meets: the end of an object, a last member, or one with a comma behind it. */
  datatype Round = Wrong | NoMemory | Empty(e: nat) | Last(m: Member, e: nat) | More(m: Member, e: nat)

  // One round: p stands on the opening brace or on a comma.
  method ReadRound(x: seq<Byte>, p: nat, hash: LevelHash.Hash, ghost ms: seq<Member>, ghost seen: set<seq<Byte>>,
      count: nat, env: Env)
    returns (round: Round, ghost next: Member)
    requires p < |x| && Indexes(hash, ms) && Seen(ms, seen) && count == |ms|
    modifies hash
    ensures round.Wrong? ==> ParseMembers(x, p, seen, env) == None
    ensures round.Empty? ==> ParseMembers(x, p, seen, env) == Ended([], round.e) && Indexes(hash, ms)
    ensures round.Last? || round.More? ==>
      Indexes(hash, ms + [round.m]) && next.name == round.m.name && Same(next.value, round.m.value)
    ensures round.Last? ==> ParseMembers(x, p, seen, env) == Ended([next], round.e)
    ensures round.More? ==> p < round.e < |x|
    ensures round.More? ==>
      ParseMembers(x, p, seen, env) == Ahead([next], ParseMembers(x, round.e, seen + {next.name}, env))
    decreases |x| - p, 0
  {
    hide ParseMembers, ParseMember, Skip, Same, Indexes, Seen, Ahead, MemberAgrees, Ended;
    round, next := Wrong, Member([], Value.Null);
    var q := SkipSpace(x, p + 1);
    NoMember(x, p, seen, env);
    if q == |x| {
      return;
    }
    if x[q] != QUOTE {
      if x[q] == CLOSE_OBJECT {
        round := Empty(q + 1);
      }
      return;
    }
    var m, nomem := ReadMember(x, q, hash, ms, seen, count, env);
    if nomem {
      round := NoMemory;
      return;
    }
    NextMember(x, p, q, seen, env, m);
    if m.None? {
      return;
    }
    next := ParseMember(x, q, seen, env).value.0;
    var e := m.value.1;
    if x[e] == COMMA {
      round := More(m.value.0, e);
    } else if x[e] == CLOSE_OBJECT {
      round := Last(m.value.0, e + 1);
    }
  }

  /**
   * nxt_conf_json_parse_object: refuses a name met before; the members come out in the order of a walk over their hash,
   * each exactly once.
   */
  method ReadObject(x: seq<Byte>, start: nat, env: Env) returns (r: Option<(Value, nat)>, nomem: bool)
    requires start < |x| && x[start] == OPEN_OBJECT
    ensures Answers(ParseValue(x, start, env), r, nomem)
    decreases |x| - start, 1
  {
    hide ParseValue, ParseMembers, Same, Indexes, Named, Paired, Seen, Answers, Ahead, Filled;
    ObjectValue(x, start, env);
    Refused(ParseValue(x, start, env));
    nomem := false;
    var ok := Alloc();
    if !ok {
      return None, true;
    }
    var hash := new LevelHash.Hash();
    var p, list: seq<Member>, count: nat := start, [], 0;
    ghost var spec: seq<Member>, seen: set<seq<Byte>> := [], {};
    ghost var goal := ParseMembers(x, start, {}, env);
    EmptyAhead(goal);
    NoMembers(hash);
    while true
      invariant start <= p < |x| && !nomem && fresh(hash) && Indexes(hash, list) && count == |list|
      invariant Paired(spec, list) && Seen(list, seen) && goal == Ahead(spec, ParseMembers(x, p, seen, env))
      decreases |x| - p
    {
      var round;
      ghost var next;
      round, next := ReadRound(x, p, hash, list, seen, count, env);
      match round {
        case Wrong =>
          AheadEnds(spec, [], 0);
          return None, false;
        case NoMemory =>
          return None, true;
        case Empty(e) =>
          AheadEnds(spec, [], e);
          assert spec + [] == spec;
          r, nomem := MakeObject(hash, spec, list, count, e);
          return;
        case Last(m, e) =>
          PairedMore(spec, list, seen, next, m);
          AheadEnds(spec, [next], e);
          r, nomem := MakeObject(hash, spec + [next], list + [m], count + 1, e);
          return;
        case More(m, e) =>
          PairedMore(spec, list, seen, next, m);
          AheadOne(spec, next, ParseMembers(x, e, seen + {next.name}, env));
          spec, seen := spec + [next], seen + {next.name};
          p, list, count := e, list + [m], count + 1;
      }
    }
  }

  lemma Refused(spec: Option<(Value, nat)>)
    ensures Answers(spec, None, true) && (spec.None? ==> Answers(spec, None, false))
  {
  }

  lemma NoMembers(hash: LevelHash.Hash)
    requires hash.Valid() && LevelHash.Items(hash.slot) == multiset{}
    ensures Indexes(hash, []) && Seen([], {}) && Paired([], [])
  {
    assert Entries([]) == [];
  }

  lemma PairedMore(spec: seq<Member>, list: seq<Member>, seen: set<seq<Byte>>, m: Member, n: Member)
    requires Paired(spec, list) && Seen(list, seen) && m.name == n.name && Same(m.value, n.value)
    ensures Paired(spec + [m], list + [n]) && Seen(list + [n], seen + {m.name})
  {
    hide Same;
    var all := list + [n];
    forall name
      ensures Named(all, name) <==> Named(list, name) || name == n.name
    {
      if i :| 0 <= i < |list| && list[i].name == name {
        assert all[i].name == name;
      }
      assert all[|list|].name == n.name;
    }
  }

  /** The object has as many members as were counted, and they are the listed ones, each once. */
  ghost predicate Filled(v: Value, list: seq<Member>, count: nat) {
    v.Obj? && |v.members| == count && multiset(v.members) == multiset(list)
  }

  // The object is filled from the hash, and the hash is destroyed.
  method MakeObject(hash: LevelHash.Hash, ghost spec: seq<Member>, list: seq<Member>, count: nat, next: nat)
    returns (r: Option<(Value, nat)>, nomem: bool)
    requires Indexes(hash, list) && Paired(spec, list) && count == |list|
    ensures Answers(Some((Obj(spec), next)), r, nomem)
    ensures r.Some? ==> Filled(r.value.0, list, count)
  {
    var ok := Alloc();
    if !ok {
      return None, true;
    }
    var members, written := CopyMembers(hash, list, count);
    return Some((Obj(members[..]), next)), false;
  }

  /** nxt_conf_json_parse */
  method Read(x: seq<Byte>, env: Env) returns (v: Option<Value>, nomem: bool)
    ensures nomem ==> v.None?
    ensures !nomem ==> (v.Some? <==> Parse(x, env).Some?)
    ensures v.Some? ==> Same(Parse(x, env).value, v.value)
  {
    nomem := false;
    var ok := Alloc();
    if !ok {
      return None, true;
    }
    var p := SkipSpace(x, 0);
    if p == |x| {
      return None, false;
    }
    var r;
    r, nomem := ReadValue(x, p, env);
    if r.None? {
      return None, nomem;
    }
    p := SkipSpace(x, r.value.1);
    v := if p == |x| then Some(r.value.0) else None;
  }

  /** Reading the printed text of a value gives the same value up to the order of members, unless memory is refused. */
  method ReadPrinted(v: Value, st: Style, env: Env) returns (w: Option<Value>, nomem: bool)
    requires Printable(v, env)
    ensures !nomem ==> w.Some?
    ensures w.Some? ==> Same(v, w.value)
  {
    JsonLayout.RoundTrip(v, st, env);
    w, nomem := Read(Print(v, st).0, env);
  }
}
