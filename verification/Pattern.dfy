/** Match patterns: the validator of src/nxt_conf_validation.c:614-675 and src/ngx_http_route.c:571-694, 1373-1447. */
module Pattern {
  import opened Bytes
  import opened Strings

  const STAR: Byte := 0x2A
  const BANG: Byte := 0x21

  datatype Case = Nocase | Lower | Upper

  datatype Kind = Exact | Begin | Middle | End | Substring

  /** A compiled pattern; `any` is the source's 1 - negative. */
  datatype Pattern = Pattern(kind: Kind, start1: seq<Byte>, start2: seq<Byte>, minLength: nat, caseSensitive: bool,
      negative: bool)

  predicate IsNegative(test: seq<Byte>) { test != [] && test[0] == BANG }

  /** The pattern without its '!'. */
  function Body(test: seq<Byte>): seq<Byte> { if IsNegative(test) then test[1..] else test }

  function FoldCase(c: Case, b: Byte): (r: Byte)
    ensures r == STAR <==> b == STAR
  {
    match c
    case Nocase => b
    case Lower => Lowcase(b)
    case Upper => if 0x61 <= b <= 0x7A then b - 0x20 else b
  }

  /** Folding makes the two cases of an ASCII letter one: the upper one for methods, the lower one for hosts. */
  lemma FoldsLetters(c: Case, a: Byte, b: Byte)
    requires !c.Nocase?
    ensures FoldCase(c, a) == FoldCase(c, b) <==> LetterPair(a, b)
    ensures LetterPair(a, FoldCase(c, a))
    ensures c.Upper? ==> !(97 <= FoldCase(c, a) <= 122)
    ensures c.Lower? ==> !(65 <= FoldCase(c, a) <= 90)
  {
  }

  /** ngx_http_route_pattern_copy */
  function Copied(c: Case, s: seq<Byte>): (r: seq<Byte>)
    ensures |r| == |s| && forall i :: 0 <= i < |s| ==> r[i] == FoldCase(c, s[i])
  {
    seq(|s|, i requires 0 <= i < |s| => FoldCase(c, s[i]))
  }

  // ---------- what a pattern means

  /** '*' stands for any bytes, every other byte for itself, up to case when caseless. */
  ghost predicate Glob(caseless: bool, body: seq<Byte>, s: seq<Byte>)
    decreases |body| + |s|
  {
    if body == [] then s == []
    else if body[0] == STAR then Glob(caseless, body[1..], s) || (s != [] && Glob(caseless, body, s[1..]))
    else s != [] && CaseFold(caseless, s[0]) == CaseFold(caseless, body[0]) && Glob(caseless, body[1..], s[1..])
  }

  /** A body without a star matches itself and nothing else, up to case when caseless. */
  lemma {:induction false} StarlessGlob(caseless: bool, body: seq<Byte>, s: seq<Byte>)
    requires STAR !in body
    ensures Glob(caseless, body, s) <==> if caseless then SameButCase(s, body) else s == body
    decreases |body|
  {
    if body != [] && s != [] {
      FoldedAlike(s[0], body[0]);
      StarlessGlob(caseless, body[1..], s[1..]);
      assert body == [body[0]] + body[1..] && s == [s[0]] + s[1..];
      if SameButCase(s[1..], body[1..]) && LetterPair(s[0], body[0]) {
        assert forall i :: 1 <= i < |s| ==> s[i] == s[1..][i - 1] && body[i] == body[1..][i - 1];
      }
    }
  }

  lemma {:induction false} LeadingStar(caseless: bool, b: seq<Byte>, s: seq<Byte>)
    ensures Glob(caseless, [42] + b, s) <==> exists k :: 0 <= k <= |s| && Glob(caseless, b, s[k..])
    decreases |s|
  {
    assert ([42] + b)[1..] == b && s[0..] == s;
    if s != [] {
      LeadingStar(caseless, b, s[1..]);
      assert forall k :: 0 <= k <= |s[1..]| ==> s[1..][k..] == s[k + 1..];
      if k :| 0 < k <= |s| && Glob(caseless, b, s[k..]) {
        assert s[1..][k - 1..] == s[k..];
      }
    }
  }

  /** A star stands for any bytes: the text before it is matched as it is, the rest by what is behind some point. */
  lemma {:induction false} StarIsAnything(caseless: bool, a: seq<Byte>, b: seq<Byte>, s: seq<Byte>)
    requires 42 !in a
    ensures Glob(caseless, a + ([42] + b), s) <==>
      |a| <= |s| && (if caseless then SameButCase(s[..|a|], a) else s[..|a|] == a)
      && exists k :: |a| <= k <= |s| && Glob(caseless, b, s[k..])
    decreases |a|
  {
    if a == [] {
      assert a + ([42] + b) == [42] + b;
      LeadingStar(caseless, b, s);
    } else if s != [] {
      var rest, t := a[1..], s[1..];
      FoldedAlike(s[0], a[0]);
      assert (a + ([42] + b))[1..] == rest + ([42] + b) && (a + ([42] + b))[0] == a[0] != STAR;
      StarIsAnything(caseless, rest, b, t);
      StarShift(caseless, a, b, s);
    }
  }

  lemma StarShift(caseless: bool, a: seq<Byte>, b: seq<Byte>, s: seq<Byte>)
    requires a != [] && s != []
    ensures (exists k :: |a| <= k <= |s| && Glob(caseless, b, s[k..])) <==>
      exists k :: |a| - 1 <= k <= |s| - 1 && Glob(caseless, b, s[1..][k..])
    ensures |a| <= |s| ==>
      (SameButCase(s[..|a|], a) <==> LetterPair(s[0], a[0]) && SameButCase(s[1..][..|a| - 1], a[1..]))
      && (s[..|a|] == a <==> s[0] == a[0] && s[1..][..|a| - 1] == a[1..])
  {
    assert forall k :: 0 <= k <= |s| - 1 ==> s[1..][k..] == s[k + 1..];
    if k :| |a| <= k <= |s| && Glob(caseless, b, s[k..]) {
      assert s[1..][k - 1..] == s[k..];
    }
    if |a| <= |s| {
      var x, y := s[1..][..|a| - 1], a[1..];
      assert s[..|a|] == [s[0]] + x && a == [a[0]] + y;
      if SameButCase(x, y) && LetterPair(s[0], a[0]) {
        assert forall i :: 1 <= i < |a| ==> s[..|a|][i] == x[i - 1] && a[i] == y[i - 1];
      }
    }
  }

  /** No '*' at the positions from..to. */
  predicate Clean(b: seq<Byte>, from: nat, to: nat)
    requires to <= |b|
  {
    forall k :: from <= k < to ==> b[k] != STAR
  }

  // No star, or one at position i.
  predicate OneStar(b: seq<Byte>, i: nat) {
    i <= |b| && Clean(b, 0, i) && (i < |b| ==> b[i] == STAR && Clean(b, i + 1, |b|))
  }

  predicate TwoStars(b: seq<Byte>) {
    |b| > 2 && b[0] == STAR && b[|b| - 1] == STAR && Clean(b, 1, |b| - 1)
  }

  /** At most one '*', or exactly two, at both ends of something longer. */
  ghost predicate Accepted(test: seq<Byte>) {
    (exists i: nat :: OneStar(Body(test), i)) || TwoStars(Body(test))
  }

  function StarCount(b: seq<Byte>): nat {
    if b == [] then 0 else (if b[0] == 42 then 1 else 0) + StarCount(b[1..])
  }

  /** The same by counting: one star at most, or one at either end with something between them. */
  lemma AcceptedByCount(test: seq<Byte>)
    ensures var b := Body(test);
      Accepted(test) <==> StarCount(b) <= 1 || (StarCount(b) == 2 && |b| > 2 && b[0] == 42 && b[|b| - 1] == 42)
  {
    var b := Body(test);
    StarsAt(b);
    if |b| > 2 && b[0] == 42 && b[|b| - 1] == 42 {
      var inner := b[1..|b| - 1];
      assert b == [b[0]] + inner + [b[|b| - 1]];
      StarsJoin([b[0]] + inner, [b[|b| - 1]]);
      StarsJoin([b[0]], inner);
      NoStars(inner);
      assert forall k :: 0 <= k < |inner| ==> inner[k] == b[k + 1];
      assert forall k :: 1 <= k < |b| - 1 ==> b[k] == inner[k - 1];
      assert StarCount([b[0]]) == 1 && StarCount([b[|b| - 1]]) == 1;
    }
  }

  lemma {:induction false} NoStars(b: seq<Byte>)
    ensures StarCount(b) == 0 <==> Clean(b, 0, |b|)
  {
    if b != [] {
      NoStars(b[1..]);
      assert forall k :: 1 <= k < |b| ==> b[k] == b[1..][k - 1];
      assert forall k :: 0 <= k < |b| - 1 ==> b[1..][k] == b[k + 1];
    }
  }

  lemma {:induction false} StarsJoin(a: seq<Byte>, b: seq<Byte>)
    ensures StarCount(a + b) == StarCount(a) + StarCount(b)
  {
    if a == [] {
      assert a + b == b;
    } else {
      StarsJoin(a[1..], b);
      assert (a + b)[1..] == a[1..] + b;
    }
  }

  lemma {:induction false} StarsAt(b: seq<Byte>)
    ensures StarCount(b) <= 1 <==> exists i: nat :: OneStar(b, i)
    decreases |b|
  {
    if b == [] {
      assert OneStar(b, 0);
    } else {
      var rest := b[1..];
      assert forall k :: 1 <= k < |b| ==> b[k] == rest[k - 1];
      assert forall k :: 0 <= k < |rest| ==> rest[k] == b[k + 1];
      StarsAt(rest);
      NoStars(rest);
      if b[0] == 42 {
        assert Clean(rest, 0, |rest|) ==> OneStar(b, 0);
        assert forall i: nat :: OneStar(b, i) ==> i == 0;
      } else {
        forall i: nat
          ensures OneStar(rest, i) <==> OneStar(b, i + 1)
        {
        }
        if i: nat :| OneStar(b, i) {
          assert i > 0 && OneStar(rest, i - 1);
        }
      }
    }
  }

  datatype State = Nothing | Side | Inside

  // What the validator knows after i characters of the body.
  ghost predicate Seen(b: seq<Byte>, i: nat, state: State, at: nat) {
    && i <= |b| && (state.Nothing? ==> Clean(b, 0, i))
    && (!state.Nothing? ==>
      at < i && b[at] == STAR && Clean(b, 0, at) && Clean(b, at + 1, i) && (state.Side? <==> at == 0))
  }

  /** nxt_conf_vldt_match_pattern on a string: accepts exactly those patterns. */
  method Validate(test: seq<Byte>) returns (ok: bool)
    ensures ok <==> Accepted(test)
  {
    if |test| == 0 {
      assert OneStar(Body(test), 0);
      return true;
    }
    var first: nat := if test[0] == BANG then 1 else 0;
    var last := |test| - 1;
    var state := Nothing;
    ghost var b: seq<Byte>, at: nat := Body(test), 0;
    var i := first;
    while i != |test|
      invariant first <= i <= |test| && Seen(b, i - first, state, at)
    {
      if test[i] == STAR {
        assert b[i - first] == STAR;
        match state {
          case Nothing =>
            at := i - first;
            state := if i == first then Side else Inside;
          case Side =>
            if i == last && last - first != 1 {
              assert TwoStars(b);
              return true;
            }
            Rejected(b, at, i - first);
            return false;
          case Inside =>
            Rejected(b, at, i - first);
            return false;
        }
      }
      i := i + 1;
    }
    assert OneStar(b, if state.Nothing? then |b| else at);
    return true;
  }

  // Two stars that are not at the ends of something longer.
  lemma Rejected(b: seq<Byte>, i: nat, j: nat)
    requires i < j < |b| && b[i] == STAR && b[j] == STAR && !(i == 0 && j == |b| - 1 && |b| > 2)
    ensures !TwoStars(b) && forall k: nat :: !OneStar(b, k)
  {
    forall k: nat
      ensures !OneStar(b, k)
    {
      if k <= |b| && Clean(b, 0, k) {
        assert k <= i;
      }
    }
  }

  // ---------- compilation

  // The first '*' strictly inside the body, or its last position.
  function InnerStar(b: seq<Byte>, n: nat): (r: nat)
    requires b != [] && n <= |b| - 1
    ensures n <= r <= |b| - 1 && (r < |b| - 1 ==> b[r] == STAR) && Clean(b, n, r)
    decreases |b| - n
  {
    if n < |b| - 1 && b[n] != STAR then InnerStar(b, n + 1) else n
  }

  /** What ngx_http_route_pattern_create makes of a pattern. */
  function Compiled(test: seq<Byte>, caseSensitive: bool, c: Case): Pattern {
    CompiledBody(Body(test), caseSensitive, c, IsNegative(test))
  }

  function CompiledBody(b: seq<Byte>, caseSensitive: bool, c: Case, neg: bool): Pattern {
    if b == [] then Simple(Exact, [], caseSensitive, c, neg)
    else if b[0] == STAR then
      if |b| == 1 then Simple(Begin, [], caseSensitive, c, neg)
      else if b[|b| - 1] == STAR then Simple(Substring, b[1..|b| - 1], caseSensitive, c, neg)
      else Simple(End, b[1..], caseSensitive, c, neg)
    else if b[|b| - 1] == STAR then Simple(Begin, b[..|b| - 1], caseSensitive, c, neg)
    else
      var n := if |b| == 1 then 0 else InnerStar(b, 1);
      if n == |b| - 1 then Simple(Exact, b, caseSensitive, c, neg)
      else Pattern(Middle, Copied(c, b[..n]), Copied(c, b[n + 1..]), |b| - 1, caseSensitive, neg)
  }

  function Simple(kind: Kind, text: seq<Byte>, caseSensitive: bool, c: Case, neg: bool): Pattern {
    Pattern(kind, Copied(c, text), [], |text|, caseSensitive, neg)
  }

  method FindInner(b: seq<Byte>) returns (n: nat)
    requires b != []
    ensures n == if |b| == 1 then 0 else InnerStar(b, 1)
  {
    if |b| == 1 {
      return 0;
    }
    n := 1;
    while n < |b| - 1
      invariant 1 <= n <= |b| - 1 && InnerStar(b, 1) == InnerStar(b, n)
    {
      if b[n] == STAR {
        break;
      }
      n := n + 1;
    }
  }

  /** ngx_http_route_pattern_create: strips the '!' and the stars, and notes which stars there were. */
  method Create(test: seq<Byte>, caseSensitive: bool, c: Case) returns (p: Pattern)
    ensures p == Compiled(test, caseSensitive, c)
  {
    if |test| != 0 && test[0] == BANG {
      p := CreateBody(test[1..], caseSensitive, c, true);
    } else {
      p := CreateBody(test, caseSensitive, c, false);
    }
  }

  method CreateBody(b: seq<Byte>, caseSensitive: bool, c: Case, negative: bool) returns (p: Pattern)
    ensures p == CompiledBody(b, caseSensitive, c, negative)
  {
    hide Copied;
    var kind, text := Exact, b;
    if |text| != 0 {
      if text[0] == STAR {
        text := text[1..];
        if |text| == 0 {
          kind := Begin;
          assert text == [];
        } else if text[|text| - 1] == STAR {
          text, kind := text[..|text| - 1], Substring;
          assert text == b[1..|b| - 1];
        } else {
          kind := End;
        }
      } else if text[|text| - 1] == STAR {
        text, kind := text[..|text| - 1], Begin;
      } else {
        var n := FindInner(text);
        if n != |text| - 1 {
          return Pattern(Middle, Copied(c, text[..n]), Copied(c, text[n + 1..]), n + (|text| - 1 - n), caseSensitive,
            negative);
        }
      }
    }
    p := Simple(kind, text, caseSensitive, c, negative);
  }

  // ---------- matching

  ghost predicate Contains(cl: bool, s: seq<Byte>, needle: seq<Byte>) {
    exists k: nat :: StandsAt(cl, s, k, needle)
  }

  /** What ngx_http_route_pattern answers, before negation. */
  ghost predicate Matches(p: Pattern, s: seq<Byte>) {
    var cl := !p.caseSensitive;
    |s| >= p.minLength &&
    match p.kind
    case Exact => |s| == |p.start1| && StandsAt(cl, s, 0, p.start1)
    case Begin => StandsAt(cl, s, 0, p.start1)
    case Middle => StandsAt(cl, s, 0, p.start1) && |s| >= |p.start2| && StandsAt(cl, s, |s| - |p.start2|, p.start2)
    case End => |s| >= |p.start1| && StandsAt(cl, s, |s| - |p.start1|, p.start1)
    case Substring => Contains(cl, s, p.start1)
  }

  /** Lengths fit, and the substring search never gets an empty needle. */
  predicate Usable(p: Pattern) {
    p.minLength == |p.start1| + |p.start2| && (p.kind.Substring? ==> p.start1 != [])
      && (!p.kind.Middle? ==> p.start2 == [])
  }

  /** ngx_http_route_pattern: no read falls outside the string, and MIDDLE's two parts do not overlap. */
  method MatchPattern(p: Pattern, s: seq<Byte>) returns (ret: bool)
    requires Usable(p)
    ensures ret <==> Matches(p, s)
    ensures ret && p.kind.Middle? ==> |p.start1| <= |s| - |p.start2|
  {
    if |s| < p.minLength {
      return false;
    }
    var cl, start, test := !p.caseSensitive, 0, p.start1;
    match p.kind {
      case Exact =>
        if |s| != |test| {
          return false;
        }
      case Begin =>
      case Middle =>
        ret := Compare(cl, s, 0, test, 0);
        if !ret {
          return;
        }
        test := p.start2;
        start := |s| - |test|;
      case End =>
        start := |s| - |test|;
      case Substring =>
        var at := MemStrn(cl, s, 0, test);
        if at.Some? {
          assert Contains(cl, s, test);
          return true;
        }
        return false;
    }
    ret := Compare(cl, s, start, test, 0);
  }

  // ---------- the compiled form is the glob

  lemma {:induction false} GlobLiteral(cl: bool, pre: seq<Byte>, rest: seq<Byte>, s: seq<Byte>)
    requires Clean(pre, 0, |pre|)
    ensures Glob(cl, pre + rest, s) <==> |pre| <= |s| && StandsAt(cl, s, 0, pre) && Glob(cl, rest, s[|pre|..])
    decreases |pre|
  {
    var b := pre + rest;
    if pre == [] {
      assert b == rest && s[0..] == s;
    } else {
      assert b[0] == pre[0] && b[1..] == pre[1..] + rest;
      if s != [] {
        GlobLiteral(cl, pre[1..], rest, s[1..]);
        if |pre| <= |s| {
          assert s[1..][|pre| - 1..] == s[|pre|..];
          StandsTail(cl, s, pre);
        }
      }
    }
  }

  lemma StandsTail(cl: bool, s: seq<Byte>, pre: seq<Byte>)
    requires pre != [] && |pre| <= |s|
    ensures StandsAt(cl, s, 0, pre) <==> CaseFold(cl, s[0]) == CaseFold(cl, pre[0]) && StandsAt(cl, s[1..], 0, pre[1..])
  {
    var t, q := s[1..], pre[1..];
    if StandsAt(cl, s, 0, pre) {
      forall k | 0 <= k < |q|
        ensures CaseFold(cl, t[k]) == CaseFold(cl, q[k])
      {
        assert t[k] == s[k + 1];
      }
    }
    if CaseFold(cl, s[0]) == CaseFold(cl, pre[0]) && StandsAt(cl, t, 0, q) {
      forall k | 0 <= k < |pre|
        ensures CaseFold(cl, s[k]) == CaseFold(cl, pre[k])
      {
        if k > 0 {
          assert t[k - 1] == s[k] && q[k - 1] == pre[k];
        }
      }
    }
  }

  lemma {:induction false} GlobStar(cl: bool, rest: seq<Byte>, s: seq<Byte>)
    ensures Glob(cl, [STAR] + rest, s) <==> exists k :: 0 <= k <= |s| && Glob(cl, rest, s[k..])
    decreases |s|
  {
    var b := [STAR] + rest;
    assert b[1..] == rest && s[0..] == s;
    if s != [] {
      GlobStar(cl, rest, s[1..]);
      forall k | 0 <= k < |s|
        ensures s[1..][k..] == s[k + 1..]
      {
      }
      if k :| 0 <= k <= |s| - 1 && Glob(cl, rest, s[1..][k..]) {
        assert Glob(cl, rest, s[k + 1..]);
      }
      if k :| 1 <= k <= |s| && Glob(cl, rest, s[k..]) {
        assert s[1..][k - 1..] == s[k..];
      }
    }
  }

  lemma StandsShift(cl: bool, s: seq<Byte>, k: nat, x: seq<Byte>)
    requires k <= |s|
    ensures StandsAt(cl, s[k..], 0, x) <==> StandsAt(cl, s, k, x)
  {
    var t := s[k..];
    if StandsAt(cl, t, 0, x) {
      forall j | k <= j < k + |x|
        ensures CaseFold(cl, s[j]) == CaseFold(cl, x[j - k])
      {
        assert t[j - k] == s[j];
      }
    }
    if StandsAt(cl, s, k, x) {
      forall j | 0 <= j < |x|
        ensures CaseFold(cl, t[j]) == CaseFold(cl, x[j])
      {
        assert t[j] == s[k + j];
      }
    }
  }

  lemma GlobAll(cl: bool, s: seq<Byte>)
    ensures Glob(cl, [STAR], s)
  {
    GlobStar(cl, [], s);
    assert [STAR] + [] == [STAR] && s[|s|..] == [];
    assert Glob(cl, [], s[|s|..]);
  }

  lemma GlobExact(cl: bool, x: seq<Byte>, s: seq<Byte>)
    requires Clean(x, 0, |x|)
    ensures Glob(cl, x, s) <==> |s| == |x| && StandsAt(cl, s, 0, x)
  {
    GlobLiteral(cl, x, [], s);
    assert x + [] == x;
  }

  lemma GlobBegin(cl: bool, x: seq<Byte>, s: seq<Byte>)
    requires Clean(x, 0, |x|)
    ensures Glob(cl, x + [STAR], s) <==> StandsAt(cl, s, 0, x)
  {
    GlobLiteral(cl, x, [STAR], s);
    if |x| <= |s| {
      GlobAll(cl, s[|x|..]);
    }
  }

  lemma GlobEnd(cl: bool, x: seq<Byte>, s: seq<Byte>)
    requires Clean(x, 0, |x|)
    ensures Glob(cl, [STAR] + x, s) <==> |s| >= |x| && StandsAt(cl, s, |s| - |x|, x)
  {
    GlobStar(cl, x, s);
    forall k | 0 <= k <= |s|
      ensures Glob(cl, x, s[k..]) <==> |s| - k == |x| && StandsAt(cl, s, k, x)
    {
      GlobExact(cl, x, s[k..]);
      StandsShift(cl, s, k, x);
    }
    if |s| >= |x| && StandsAt(cl, s, |s| - |x|, x) {
      assert Glob(cl, x, s[|s| - |x|..]);
    }
  }

  lemma GlobSubstring(cl: bool, x: seq<Byte>, s: seq<Byte>)
    requires Clean(x, 0, |x|)
    ensures Glob(cl, [STAR] + (x + [STAR]), s) <==> Contains(cl, s, x)
  {
    GlobStar(cl, x + [STAR], s);
    forall k | 0 <= k <= |s|
      ensures Glob(cl, x + [STAR], s[k..]) <==> StandsAt(cl, s, k, x)
    {
      GlobBegin(cl, x, s[k..]);
      StandsShift(cl, s, k, x);
    }
    if Contains(cl, s, x) {
      var k: nat :| StandsAt(cl, s, k, x);
      assert Glob(cl, x + [STAR], s[k..]);
    }
  }

  lemma GlobMiddle(cl: bool, x: seq<Byte>, y: seq<Byte>, s: seq<Byte>)
    requires Clean(x, 0, |x|) && Clean(y, 0, |y|)
    ensures Glob(cl, x + ([STAR] + y), s)
      <==> |s| >= |x| + |y| && StandsAt(cl, s, 0, x) && StandsAt(cl, s, |s| - |y|, y)
  {
    GlobLiteral(cl, x, [STAR] + y, s);
    if |x| <= |s| {
      GlobEnd(cl, y, s[|x|..]);
      if |s| >= |x| + |y| {
        StandsShift(cl, s, |s| - |y|, y);
        StandsShift(cl, s[|x|..], |s| - |x| - |y|, y);
        assert s[|x|..][|s| - |x| - |y|..] == s[|s| - |y|..];
      }
    }
  }

  // Where the stars of an accepted body are.
  lemma Stars(b: seq<Byte>)
    requires (exists i: nat :: OneStar(b, i)) || TwoStars(b)
    ensures b != [] && b[0] == STAR && |b| > 1 && b[|b| - 1] == STAR ==> TwoStars(b)
    ensures b != [] && b[0] == STAR && !(|b| > 1 && b[|b| - 1] == STAR) ==> Clean(b, 1, |b|)
    ensures b != [] && b[0] != STAR && b[|b| - 1] == STAR ==> Clean(b, 0, |b| - 1)
    ensures |b| > 1 && b[0] != STAR && b[|b| - 1] != STAR ==>
      var n := InnerStar(b, 1); if n == |b| - 1 then Clean(b, 0, |b|) else Clean(b, 0, n) && Clean(b, n + 1, |b|)
  {
    if i: nat :| OneStar(b, i) {
      if |b| > 1 && b[0] != STAR && b[|b| - 1] != STAR {
        var n := InnerStar(b, 1);
        assert n < |b| - 1 ==> b[n] == STAR;
      }
    }
  }

  lemma NeedleFits(cl: bool, s: seq<Byte>, x: seq<Byte>)
    ensures Contains(cl, s, x) ==> |s| >= |x|
  {
  }

  lemma CopiedConcat(c: Case, a: seq<Byte>, b: seq<Byte>)
    ensures Copied(c, a + b) == Copied(c, a) + Copied(c, b)
  {
  }

  lemma CopiedStar(c: Case)
    ensures Copied(c, [STAR]) == [STAR] && Copied(c, []) == []
  {
  }

  lemma CopiedClean(c: Case, x: seq<Byte>)
    requires Clean(x, 0, |x|)
    ensures Clean(Copied(c, x), 0, |x|)
  {
  }

  ghost predicate IsGlob(p: Pattern, b: seq<Byte>, caseSensitive: bool, c: Case, s: seq<Byte>) {
    Usable(p) && (Matches(p, s) <==> Glob(!caseSensitive, Copied(c, b), s))
  }

  lemma ExactIsGlob(x: seq<Byte>, caseSensitive: bool, c: Case, neg: bool, s: seq<Byte>)
    requires Clean(x, 0, |x|)
    ensures IsGlob(Simple(Exact, x, caseSensitive, c, neg), x, caseSensitive, c, s)
  {
    hide Glob, Agrees;
    CopiedStar(c);
    CopiedClean(c, x);
    GlobExact(!caseSensitive, Copied(c, x), s);
  }

  lemma BeginIsGlob(x: seq<Byte>, caseSensitive: bool, c: Case, neg: bool, s: seq<Byte>)
    requires Clean(x, 0, |x|)
    ensures IsGlob(Simple(Begin, x, caseSensitive, c, neg), x + [STAR], caseSensitive, c, s)
  {
    hide Glob, Copied, Agrees;
    CopiedClean(c, x);
    CopiedConcat(c, x, [STAR]);
    CopiedStar(c);
    GlobBegin(!caseSensitive, Copied(c, x), s);
  }

  lemma EndIsGlob(x: seq<Byte>, caseSensitive: bool, c: Case, neg: bool, s: seq<Byte>)
    requires Clean(x, 0, |x|)
    ensures IsGlob(Simple(End, x, caseSensitive, c, neg), [STAR] + x, caseSensitive, c, s)
  {
    hide Glob, Copied, Agrees;
    CopiedClean(c, x);
    CopiedConcat(c, [STAR], x);
    CopiedStar(c);
    GlobEnd(!caseSensitive, Copied(c, x), s);
  }

  lemma SubstringIsGlob(x: seq<Byte>, caseSensitive: bool, c: Case, neg: bool, s: seq<Byte>)
    requires Clean(x, 0, |x|) && x != []
    ensures IsGlob(Simple(Substring, x, caseSensitive, c, neg), [STAR] + (x + [STAR]), caseSensitive, c, s)
  {
    hide Glob, Copied, Agrees;
    CopiedClean(c, x);
    CopiedConcat(c, [STAR], x + [STAR]);
    CopiedConcat(c, x, [STAR]);
    CopiedStar(c);
    hide Contains;
    NeedleFits(!caseSensitive, s, Copied(c, x));
    GlobSubstring(!caseSensitive, Copied(c, x), s);
  }

  lemma MiddleIsGlob(x: seq<Byte>, y: seq<Byte>, caseSensitive: bool, c: Case, neg: bool, s: seq<Byte>)
    requires Clean(x, 0, |x|) && Clean(y, 0, |y|)
    ensures IsGlob(Pattern(Middle, Copied(c, x), Copied(c, y), |x| + |y|, caseSensitive, neg), x + ([STAR] + y),
      caseSensitive, c, s)
  {
    hide Glob, Copied, Agrees;
    CopiedClean(c, x);
    CopiedClean(c, y);
    CopiedConcat(c, x, [STAR] + y);
    CopiedConcat(c, [STAR], y);
    CopiedStar(c);
    GlobMiddle(!caseSensitive, Copied(c, x), Copied(c, y), s);
  }

  /** For every accepted pattern, the compiled form matches exactly the strings its glob matches. */
  lemma PatternIsGlob(test: seq<Byte>, caseSensitive: bool, c: Case, s: seq<Byte>)
    requires Accepted(test)
    ensures var p := Compiled(test, caseSensitive, c);
      Usable(p) && (Matches(p, s) <==> Glob(!caseSensitive, Copied(c, Body(test)), s))
  {
    BodyIsGlob(Body(test), caseSensitive, c, IsNegative(test), s);
  }

  lemma BodyIsGlob(b: seq<Byte>, caseSensitive: bool, c: Case, neg: bool, s: seq<Byte>)
    requires (exists i: nat :: OneStar(b, i)) || TwoStars(b)
    ensures IsGlob(CompiledBody(b, caseSensitive, c, neg), b, caseSensitive, c, s)
  {
    Stars(b);
    if b != [] && b[0] != STAR && b[|b| - 1] != STAR {
      InsideIsGlob(b, caseSensitive, c, neg, s);
    } else {
      OutsideIsGlob(b, caseSensitive, c, neg, s);
    }
  }

  // Stars at the ends, if anywhere.
  lemma OutsideIsGlob(b: seq<Byte>, caseSensitive: bool, c: Case, neg: bool, s: seq<Byte>)
    requires b == [] || b[0] == STAR || b[|b| - 1] == STAR
    requires (exists i: nat :: OneStar(b, i)) || TwoStars(b)
    ensures IsGlob(CompiledBody(b, caseSensitive, c, neg), b, caseSensitive, c, s)
  {
    Stars(b);
    hide IsGlob, Simple, Copied, InnerStar, OneStar;
    if b == [] {
      ExactIsGlob([], caseSensitive, c, neg, s);
    } else if b[0] == STAR {
      if |b| == 1 {
        BeginIsGlob([], caseSensitive, c, neg, s);
        assert b == [] + [STAR];
      } else if b[|b| - 1] == STAR {
        var x := b[1..|b| - 1];
        SubstringIsGlob(x, caseSensitive, c, neg, s);
        assert b == [STAR] + (x + [STAR]);
      } else {
        EndIsGlob(b[1..], caseSensitive, c, neg, s);
        assert b == [STAR] + b[1..];
      }
    } else {
      BeginIsGlob(b[..|b| - 1], caseSensitive, c, neg, s);
      assert b == b[..|b| - 1] + [STAR];
    }
  }

  // A star strictly inside, or none.
  lemma InsideIsGlob(b: seq<Byte>, caseSensitive: bool, c: Case, neg: bool, s: seq<Byte>)
    requires b != [] && b[0] != STAR && b[|b| - 1] != STAR
    requires (exists i: nat :: OneStar(b, i)) || TwoStars(b)
    ensures IsGlob(CompiledBody(b, caseSensitive, c, neg), b, caseSensitive, c, s)
  {
    Stars(b);
    SingleByte(b);
    if |b| == 1 || InnerStar(b, 1) == |b| - 1 {
      NoneInside(b, caseSensitive, c, neg, s);
    } else {
      OneInside(b, InnerStar(b, 1), caseSensitive, c, neg, s);
    }
  }

  lemma NoneInside(b: seq<Byte>, caseSensitive: bool, c: Case, neg: bool, s: seq<Byte>)
    requires b != [] && b[0] != STAR && b[|b| - 1] != STAR
    requires (|b| == 1 || InnerStar(b, 1) == |b| - 1) && Clean(b, 0, |b|)
    ensures IsGlob(CompiledBody(b, caseSensitive, c, neg), b, caseSensitive, c, s)
  {
    hide IsGlob, Simple, Copied;
    ExactIsGlob(b, caseSensitive, c, neg, s);
  }

  lemma OneInside(b: seq<Byte>, n: nat, caseSensitive: bool, c: Case, neg: bool, s: seq<Byte>)
    requires |b| > 1 && b[0] != STAR && b[|b| - 1] != STAR && n == InnerStar(b, 1) && n < |b| - 1
    requires b[n] == STAR && Clean(b, 0, n) && Clean(b, n + 1, |b|)
    ensures IsGlob(CompiledBody(b, caseSensitive, c, neg), b, caseSensitive, c, s)
  {
    hide IsGlob, CompiledBody, Copied, Clean, InnerStar;
    CleanParts(b, n);
    CompiledInside(b, n, caseSensitive, c, neg);
    MiddleIsGlob(b[..n], b[n + 1..], caseSensitive, c, neg, s);
  }

  lemma CompiledInside(b: seq<Byte>, n: nat, caseSensitive: bool, c: Case, neg: bool)
    requires |b| > 1 && b[0] != STAR && b[|b| - 1] != STAR && n == InnerStar(b, 1) && n < |b| - 1
    ensures CompiledBody(b, caseSensitive, c, neg) ==
      Pattern(Middle, Copied(c, b[..n]), Copied(c, b[n + 1..]), |b| - 1, caseSensitive, neg)
  {
    hide Copied, InnerStar;
  }

  lemma SingleByte(b: seq<Byte>)
    requires b != [] && b[0] != STAR
    ensures |b| == 1 ==> Clean(b, 0, |b|)
  {
  }

  lemma CleanParts(b: seq<Byte>, n: nat)
    requires n < |b| && b[n] == STAR && Clean(b, 0, n) && Clean(b, n + 1, |b|)
    ensures Clean(b[..n], 0, n) && Clean(b[n + 1..], 0, |b| - n - 1) && b == b[..n] + ([STAR] + b[n + 1..])
    ensures |b[..n]| == n && |b[n + 1..]| == |b| - n - 1
  {
  }
}
