/** Routes of src/ngx_http_route.c: match objects are compiled to tables, then interpreted with early exits. */
module Route {
  import opened Bytes
  import opened Strings
  import opened Pattern

  type Text = seq<Byte>

  const EQUALS: Byte := 0x3D
  const AMPERSAND: Byte := 0x26

  // ---------- configuration and requests

  datatype NamedRule = NamedRule(name: Text, patterns: seq<Text>)

  /** A match object; others counts its members that no test is compiled for. */
  datatype MatchConf = MatchConf(
    scheme: Option<Text>, uri: Option<seq<Text>>, verb: Option<seq<Text>>, host: Option<seq<Text>>,
    headers: Option<seq<seq<NamedRule>>>, arguments: Option<seq<seq<NamedRule>>>, others: nat)

  datatype Field = Field(name: Text, value: Text)

  datatype Request = Request(uri: Text, verb: Text, host: Text, headers: seq<Field>, args: Option<Text>, tls: bool)

  // ---------- what a pattern list means

  ghost predicate GlobText(text: Text, cs: bool, c: Case, s: Text) { Glob(!cs, Copied(c, Body(text)), s) }

  ghost predicate NoneRefuses(texts: seq<Text>, cs: bool, c: Case, s: Text) {
    forall t :: t in texts && IsNegative(t) ==> !GlobText(t, cs, c, s)
  }

  ghost predicate SomePositive(texts: seq<Text>) { exists t :: t in texts && !IsNegative(t) }

  ghost predicate SomeAdmits(texts: seq<Text>, cs: bool, c: Case, s: Text) {
    exists t :: t in texts && !IsNegative(t) && GlobText(t, cs, c, s)
  }

  /** No negative pattern's body matches, and some positive one does unless there is none. */
  ghost predicate ListMeans(texts: seq<Text>, cs: bool, c: Case, s: Text) {
    NoneRefuses(texts, cs, c, s) && (SomePositive(texts) ==> SomeAdmits(texts, cs, c, s))
  }

  // ---------- letter case in pattern lists

  /** Two lists that differ in nothing but the case of ASCII letters. */
  ghost predicate ListsButCase(texts: seq<Text>, us: seq<Text>) {
    |texts| == |us| && forall i :: 0 <= i < |texts| ==> SameButCase(texts[i], us[i])
  }

  /** The patterns for a method, or for a host, may be written in any case. */
  lemma CaseIsFolded(texts: seq<Text>, us: seq<Text>, cs: bool, c: Case, s: Text)
    requires !c.Nocase? && ListsButCase(texts, us)
    ensures ListMeans(texts, cs, c, s) <==> ListMeans(us, cs, c, s)
  {
    hide NoneRefuses, SomePositive, SomeAdmits, ListsButCase;
    OtherWayRound(texts, us);
    FoldedOneWay(texts, us, cs, c, s);
    FoldedOneWay(us, texts, cs, c, s);
  }

  lemma OtherWayRound(texts: seq<Text>, us: seq<Text>)
    requires ListsButCase(texts, us)
    ensures ListsButCase(us, texts)
  {
    hide SameButCase;
    forall i | 0 <= i < |us|
      ensures SameButCase(us[i], texts[i])
    {
      OtherWay(texts[i], us[i]);
    }
  }

  lemma OtherWay(s: Text, t: Text)
    requires SameButCase(s, t)
    ensures SameButCase(t, s)
  {
  }

  lemma FoldedOneWay(texts: seq<Text>, us: seq<Text>, cs: bool, c: Case, s: Text)
    requires !c.Nocase? && ListsButCase(texts, us)
    ensures NoneRefuses(texts, cs, c, s) ==> NoneRefuses(us, cs, c, s)
    ensures SomePositive(us) ==> SomePositive(texts)
    ensures SomeAdmits(texts, cs, c, s) ==> SomeAdmits(us, cs, c, s)
  {
    hide GlobText, IsNegative, SameButCase, ListsButCase;
    forall u | u in us && IsNegative(u) && GlobText(u, cs, c, s)
      ensures !NoneRefuses(texts, cs, c, s)
    {
      OtherWayRound(texts, us);
      var t := Twin(us, texts, u, cs, c, s);
    }
    if u :| u in us && !IsNegative(u) {
      OtherWayRound(texts, us);
      var t := Twin(us, texts, u, cs, c, s);
    }
    if t :| t in texts && !IsNegative(t) && GlobText(t, cs, c, s) {
      var u := Twin(texts, us, t, cs, c, s);
    }
  }

  // The same pattern in the other list.
  lemma Twin(texts: seq<Text>, us: seq<Text>, t: Text, cs: bool, c: Case, s: Text) returns (u: Text)
    requires !c.Nocase? && ListsButCase(texts, us) && t in texts
    ensures u in us && (IsNegative(t) <==> IsNegative(u)) && (GlobText(t, cs, c, s) <==> GlobText(u, cs, c, s))
  {
    hide GlobText, IsNegative, SameButCase;
    var i :| 0 <= i < |texts| && texts[i] == t;
    u := us[i];
    TextIsFolded(t, u, cs, c, s);
  }

  lemma TextIsFolded(t: Text, u: Text, cs: bool, c: Case, s: Text)
    requires !c.Nocase? && SameButCase(t, u)
    ensures IsNegative(t) <==> IsNegative(u)
    ensures GlobText(t, cs, c, s) <==> GlobText(u, cs, c, s)
  {
    var a, b := Body(t), Body(u);
    assert |a| == |b|;
    forall i | 0 <= i < |a|
      ensures Copied(c, a)[i] == Copied(c, b)[i]
    {
      FoldsLetters(c, a[i], b[i]);
    }
    assert Copied(c, a) == Copied(c, b);
  }

  /** A name without stars, in whatever case, admits exactly the method or the host it spells. */
  lemma SpelledInAnyCase(t: Text, c: Case, name: Text, s: Text)
    requires SameButCase(t, name) && STAR !in t && !IsNegative(t)
    requires c.Upper? ==> forall i :: 0 <= i < |name| ==> !(97 <= name[i] <= 122)
    requires c.Lower? ==> forall i :: 0 <= i < |name| ==> !(65 <= name[i] <= 90)
    requires !c.Nocase?
    ensures ListMeans([t], true, c, s) <==> s == name
  {
    var copied := Copied(c, t);
    forall i | 0 <= i < |t|
      ensures copied[i] == name[i] && copied[i] != STAR
    {
      FoldsLetters(c, t[i], name[i]);
      FoldsLetters(c, name[i], name[i]);
    }
    assert copied == name;
    StarlessGlob(false, name, s);
    OneText(t, true, c, s);
  }

  /** Any other pattern without stars admits itself: exactly, or up to case where headers are compared. */
  lemma SpelledAsIs(t: Text, cs: bool, s: Text)
    requires STAR !in t && !IsNegative(t)
    ensures ListMeans([t], cs, Nocase, s) <==> if cs then s == t else SameButCase(s, t)
  {
    assert Copied(Nocase, t) == t;
    StarlessGlob(!cs, t, s);
    OneText(t, cs, Nocase, s);
  }

  lemma OneText(t: Text, cs: bool, c: Case, s: Text)
    requires !IsNegative(t)
    ensures ListMeans([t], cs, c, s) <==> Glob(!cs, Copied(c, t), s)
  {
    hide Glob, Copied;
    assert t in [t] && GlobText(t, cs, c, s) == Glob(!cs, Copied(c, t), s);
  }

  ghost predicate AllAccepted(texts: seq<Text>) { forall t :: t in texts ==> Accepted(t) }

  // ---------- compiled pattern lists

  ghost predicate NegativesFirst(ps: seq<Pattern>) {
    forall i, j :: 0 <= i < j < |ps| && ps[j].negative ==> ps[i].negative
  }

  ghost predicate AllUsable(ps: seq<Pattern>) { forall i :: 0 <= i < |ps| ==> Usable(ps[i]) }

  /** What the loop of ngx_http_route_test_rule answers from pattern i on, having last computed ret. */
  ghost function Loop(ps: seq<Pattern>, i: nat, ret: bool, s: Text): bool
    decreases |ps| - i
  {
    if i >= |ps| then ret
    else
      var r := Matches(ps[i], s) != ps[i].negative;
      if r == !ps[i].negative then r else Loop(ps, i + 1, r, s)
  }

  /** ngx_http_route_test_rule: exits on the first pattern that decides. */
  method TestRule(ps: seq<Pattern>, s: Text) returns (ret: bool)
    requires AllUsable(ps)
    ensures ret == Loop(ps, 0, true, s)
  {
    ret := true;
    var i := 0;
    while i < |ps|
      invariant 0 <= i <= |ps| && Loop(ps, 0, true, s) == Loop(ps, i, ret, s)
    {
      ret := MatchPattern(ps[i], s);
      ret := ret != ps[i].negative;
      if ret == !ps[i].negative {
        return;
      }
      i := i + 1;
    }
  }

  ghost predicate Refused(ps: seq<Pattern>, i: nat, s: Text) {
    exists k :: i <= k < |ps| && ps[k].negative && Matches(ps[k], s)
  }

  ghost predicate Admitted(ps: seq<Pattern>, i: nat, s: Text) {
    exists k :: i <= k < |ps| && !ps[k].negative && Matches(ps[k], s)
  }

  ghost predicate HasPositive(ps: seq<Pattern>, i: nat) {
    exists k :: i <= k < |ps| && !ps[k].negative
  }

  /** With the negative patterns first, the early exits compute the meaning of the list. */
  lemma {:induction false} LoopIsMeaning(ps: seq<Pattern>, i: nat, ret: bool, s: Text)
    requires NegativesFirst(ps) && i <= |ps|
    ensures Loop(ps, i, ret, s)
      == (!Refused(ps, i, s) && (if HasPositive(ps, i) then Admitted(ps, i, s) else i < |ps| || ret))
    decreases |ps| - i
  {
    if i < |ps| {
      var r := Matches(ps[i], s) != ps[i].negative;
      if r == !ps[i].negative {
        if ps[i].negative {
          assert Refused(ps, i, s);
        } else {
          assert Admitted(ps, i, s) && HasPositive(ps, i);
          assert !Refused(ps, i, s);
        }
      } else {
        LoopIsMeaning(ps, i + 1, r, s);
        Unroll(ps, i, s);
        if !ps[i].negative {
          assert !Refused(ps, i, s);
        }
      }
    }
  }

  lemma Unroll(ps: seq<Pattern>, i: nat, s: Text)
    requires i < |ps|
    ensures Refused(ps, i, s) <==> (ps[i].negative && Matches(ps[i], s)) || Refused(ps, i + 1, s)
    ensures Admitted(ps, i, s) <==> (!ps[i].negative && Matches(ps[i], s)) || Admitted(ps, i + 1, s)
    ensures HasPositive(ps, i) <==> !ps[i].negative || HasPositive(ps, i + 1)
  {
  }

  // ---------- sorting and compiling a list

  ghost predicate NegativeTextsFirst(texts: seq<Text>) {
    forall i, j :: 0 <= i < j < |texts| && IsNegative(texts[j]) ==> IsNegative(texts[i])
  }

  /** nxt_conf_array_qsort with nxt_http_pattern_compare: some permutation with the negative patterns first. */
  method SortTexts(texts: seq<Text>) returns (sorted: seq<Text>)
    ensures multiset(sorted) == multiset(texts) && NegativeTextsFirst(sorted)
  {
    hide IsNegative;
    var neg: seq<Text>, pos: seq<Text> := [], [];
    for i := 0 to |texts|
      invariant multiset(neg) + multiset(pos) == multiset(texts[..i])
      invariant forall k :: 0 <= k < |neg| ==> IsNegative(neg[k])
      invariant forall k :: 0 <= k < |pos| ==> !IsNegative(pos[k])
    {
      assert texts[..i + 1] == texts[..i] + [texts[i]];
      if IsNegative(texts[i]) {
        neg := neg + [texts[i]];
      } else {
        pos := pos + [texts[i]];
      }
    }
    assert texts[..|texts|] == texts;
    sorted := neg + pos;
  }

  function CompiledAll(texts: seq<Text>, cs: bool, c: Case): (ps: seq<Pattern>)
    ensures |ps| == |texts| && forall i :: 0 <= i < |texts| ==> ps[i] == Compiled(texts[i], cs, c)
  {
    seq(|texts|, i requires 0 <= i < |texts| => Compiled(texts[i], cs, c))
  }

  lemma CompiledSign(text: Text, cs: bool, c: Case)
    ensures Compiled(text, cs, c).negative == IsNegative(text)
  {
  }

  /** A pattern list in any order that puts the negatives first answers the meaning of the list as it was written. */
  lemma OrderDoesNotMatter(texts: seq<Text>, sorted: seq<Text>, cs: bool, c: Case, s: Text)
    requires AllAccepted(texts) && multiset(sorted) == multiset(texts) && NegativeTextsFirst(sorted)
    ensures AllUsable(CompiledAll(sorted, cs, c))
    ensures Loop(CompiledAll(sorted, cs, c), 0, true, s) <==> ListMeans(texts, cs, c, s)
  {
    var ps := CompiledAll(sorted, cs, c);
    forall t
      ensures t in sorted <==> t in texts
    {
      assert t in multiset(sorted) <==> t in multiset(texts);
    }
    forall i | 0 <= i < |ps|
      ensures ps[i].negative == IsNegative(sorted[i]) && Usable(ps[i])
      ensures Matches(ps[i], s) <==> GlobText(sorted[i], cs, c, s)
    {
      assert sorted[i] in sorted;
      CompiledSign(sorted[i], cs, c);
      PatternIsGlob(sorted[i], cs, c, s);
    }
    LoopIsMeaning(ps, 0, true, s);
    ListByIndex(texts, sorted, ps, cs, c, s);
  }

  lemma ListByIndex(texts: seq<Text>, sorted: seq<Text>, ps: seq<Pattern>, cs: bool, c: Case, s: Text)
    requires |ps| == |sorted| && forall t :: t in sorted <==> t in texts
    requires forall i :: 0 <= i < |ps| ==>
      ps[i].negative == IsNegative(sorted[i]) && (Matches(ps[i], s) <==> GlobText(sorted[i], cs, c, s))
    ensures NoneRefuses(texts, cs, c, s) <==> !Refused(ps, 0, s)
    ensures SomePositive(texts) <==> HasPositive(ps, 0)
    ensures SomeAdmits(texts, cs, c, s) <==> Admitted(ps, 0, s)
  {
    forall i | 0 <= i < |ps|
      ensures sorted[i] in texts
    {
      assert sorted[i] in sorted;
    }
    forall t | t in texts
      ensures exists i :: 0 <= i < |ps| && sorted[i] == t
    {
      assert t in sorted;
    }
  }

  /** Without the sort the early exit can answer before a negative pattern is seen. */
  lemma UnsortedAnswersWrong()
    ensures var texts, s := [[0x61, STAR], [BANG, 0x61, 0x62]], [0x61, 0x62];
      AllAccepted(texts) && Loop(CompiledAll(texts, true, Nocase), 0, true, s) && !ListMeans(texts, true, Nocase, s)
  {
    var t0: Text, t1: Text, s: Text := [0x61, STAR], [BANG, 0x61, 0x62], [0x61, 0x62];
    var texts := [t0, t1];
    assert Body(t0) == t0 && Body(t1) == [0x61, 0x62];
    assert OneStar(Body(t0), 1) && OneStar(Body(t1), 2);
    var ps := CompiledAll(texts, true, Nocase);
    assert ps[0] == Simple(Begin, t0[..1], true, Nocase, false);
    assert StandsAt(false, s, 0, ps[0].start1);
    assert Matches(ps[0], s);
    GlobExact(false, Copied(Nocase, Body(t1)), s);
    assert GlobText(t1, true, Nocase, s);
    assert t1 in texts && IsNegative(t1);
  }

  // ---------- names

  // ngx_http_field_hash_char
  function HashChar(h: bv32, ch: Byte): bv32 { (h << 4) + h + (ch as bv32) }

  // ngx_http_field_hash_char over the bytes of a name, lower-cased when caseless.
  function HashFrom(h: bv32, name: Text, caseless: bool): bv32
    decreases |name|
  {
    if name == [] then h
    else HashFrom(HashChar(h, CaseFold(caseless, name[0])), name[1..], caseless)
  }

  function HashEnd(h: bv32): bv32 { ((h >> 16) ^ h) & 0xFFFF }

  const HASH_INIT: bv32 := 159406

  function NameHash(name: Text, caseless: bool): bv32 { HashEnd(HashFrom(HASH_INIT, name, caseless)) }

  predicate SameName(caseless: bool, a: Text, b: Text) { |a| == |b| && StandsAt(caseless, b, 0, a) }

  /** Header names are compared up to the case of ASCII letters, argument names exactly. */
  lemma NamesUpToCase(a: Text, b: Text)
    ensures SameName(true, a, b) <==> SameButCase(b, a)
    ensures SameName(false, a, b) <==> a == b
  {
    StandsUpToCase(b, 0, a);
    if |a| == |b| {
      assert b[0..|a|] == b;
    }
  }

  /** Equal names have equal hashes, so the hash test never drops a name that matches. */
  lemma {:induction false} SameNameSameHash(caseless: bool, a: Text, b: Text, h: bv32)
    requires SameName(caseless, a, b)
    ensures HashFrom(h, a, caseless) == HashFrom(h, b, caseless)
    decreases |a|
  {
    hide HashChar, HashEnd;
    if a != [] {
      assert CaseFold(caseless, b[0]) == CaseFold(caseless, a[0]);
      StandsTail(caseless, b, a);
      SameNameSameHash(caseless, a[1..], b[1..], HashChar(h, CaseFold(caseless, a[0])));
    }
  }

  lemma {:induction false} HashAppend(h: bv32, name: Text, ch: Byte)
    ensures HashFrom(h, name + [ch], false)
      == HashChar(HashFrom(h, name, false), ch)
    decreases |name|
  {
    hide HashChar, HashEnd;
    if name == [] {
      assert name + [ch] == [ch];
    } else {
      assert (name + [ch])[1..] == name[1..] + [ch];
      HashAppend(HashChar(h, name[0]), name[1..], ch);
    }
  }

  method HashOf(name: Text, caseless: bool) returns (hash: bv32)
    ensures hash == NameHash(name, caseless)
  {
    hide HashChar, HashEnd;
    var h, i := HASH_INIT, 0;
    assert name[0..] == name;
    while i < |name|
      invariant 0 <= i <= |name| && HashFrom(HASH_INIT, name, caseless) == HashFrom(h, name[i..], caseless)
    {
      assert name[i..][1..] == name[i + 1..];
      h := HashChar(h, CaseFold(caseless, name[i]));
      i := i + 1;
    }
    hash := HashEnd(h);
  }

  // ---------- arguments

  datatype NameValue = NameValue(hash: bv32, name: Text, value: Text)

  /**
   * The parser's view of the segment read so far: the last name, where the value starts, the running hash, validity.
   */
  datatype Scan = Scan(name: Option<Text>, start: nat, hash: bv32, valid: bool)

  function Fresh(q: nat): Scan { Scan(None, q, HASH_INIT, true) }

  // One byte of a segment.
  function Feed(sc: Scan, args: Text, p: nat): (r: Scan)
    requires p < |args| && sc.start <= p
    ensures r.start <= p + 1
  {
    if args[p] == EQUALS then Scan(Some(args[sc.start..p]), p + 1, sc.hash, p != sc.start)
    else if sc.name.None? then sc.(hash := HashChar(sc.hash, args[p]))
    else sc
  }

  // The segment that starts at q, read up to p.
  function ScanOf(args: Text, q: nat, p: nat): (r: Scan)
    requires q <= p <= |args|
    ensures q <= r.start <= p
    decreases p
  {
    if p == q then Fresh(q) else Feed(ScanOf(args, q, p - 1), args, p - 1)
  }

  // ngx_http_argument for a segment that ends at p.
  function Entry(args: Text, sc: Scan, p: nat): seq<NameValue>
    requires sc.start <= p <= |args|
  {
    if !sc.valid then []
    else if sc.name.None? then [NameValue(HashEnd(sc.hash), args[sc.start..p], [])]
    else [NameValue(HashEnd(sc.hash), sc.name.value, args[sc.start..p])]
  }

  function Ampersand(args: Text, p: nat): (e: nat)
    requires p <= |args|
    ensures p <= e <= |args|
    decreases |args| - p
  {
    if p < |args| && args[p] != AMPERSAND then Ampersand(args, p + 1) else p
  }

  // The entries of the segments from q on.
  function Entries(args: Text, q: nat): seq<NameValue>
    requires q <= |args|
    decreases |args| - q
  {
    var e := Ampersand(args, q);
    Entry(args, ScanOf(args, q, e), e) + if e == |args| then [] else Entries(args, e + 1)
  }

  // The segment that starts at q ends at p, or goes on there.
  lemma SegmentEnds(args: Text, q: nat, p: nat)
    requires q <= p <= |args| && Ampersand(args, q) == Ampersand(args, p) && (p < |args| ==> args[p] == AMPERSAND)
    ensures Entries(args, q) ==
      Entry(args, ScanOf(args, q, p), p) + if p == |args| then [] else Entries(args, p + 1)
  {
    hide ScanOf, Entry;
  }

  lemma SegmentGoesOn(args: Text, q: nat, p: nat)
    requires q <= p < |args| && args[p] != AMPERSAND
    ensures Ampersand(args, p) == Ampersand(args, p + 1) && ScanOf(args, q, p + 1) == Feed(ScanOf(args, q, p), args, p)
  {
    hide Feed;
  }

  lemma SegmentStarts(args: Text, p: nat)
    requires p <= |args|
    ensures ScanOf(args, p, p) == Fresh(p)
  {
  }

  /** ngx_http_arguments_parse: one scan over the query string. */
  method ParseArguments(args: Text) returns (r: seq<NameValue>)
    ensures r == Entries(args, 0)
  {
    hide HashChar, HashEnd, Feed, Entry, Entries, Ampersand, ScanOf;
    var p, q: nat, sc := 0, 0, Fresh(0);
    SegmentStarts(args, 0);
    r := [];
    while p < |args|
      invariant 0 <= q <= p <= |args| && Ampersand(args, q) == Ampersand(args, p)
      invariant sc == ScanOf(args, q, p)
      invariant Entries(args, 0) == r + Entries(args, q)
    {
      if args[p] == AMPERSAND {
        SegmentEnds(args, q, p);
        var one := Entry(args, sc, p);
        Joined(r, one, Entries(args, p + 1));
        r := r + one;
        p := p + 1;
        SegmentStarts(args, p);
        q, sc := p, Fresh(p);
      } else {
        SegmentGoesOn(args, q, p);
        sc := Feed(sc, args, p);
        p := p + 1;
      }
    }
    SegmentEnds(args, q, p);
    Joined(r, Entry(args, sc, p), []);
    r := r + Entry(args, sc, p);
  }

  lemma Joined(a: seq<NameValue>, b: seq<NameValue>, c: seq<NameValue>)
    ensures a + (b + c) == a + b + c && b + [] == b
  {
  }

  // ---------- what a segment means

  function FirstEquals(seg: Text, p: nat): (e: nat)
    requires p <= |seg|
    ensures p <= e <= |seg| && (e < |seg| ==> seg[e] == EQUALS) && forall k :: p <= k < e ==> seg[k] != EQUALS
    decreases |seg| - p
  {
    if p < |seg| && seg[p] != EQUALS then FirstEquals(seg, p + 1) else p
  }

  /** name=value, or a name alone; a segment that begins with '=' is no argument. */
  function Argument(seg: Text): seq<Field> {
    var e := FirstEquals(seg, 0);
    if e == |seg| then [Field(seg, [])]
    else if e == 0 then []
    else [Field(seg[..e], seg[e + 1..])]
  }

  predicate OneEquals(seg: Text) {
    var e := FirstEquals(seg, 0);
    e == |seg| || FirstEquals(seg, e + 1) == |seg|
  }

  predicate Free(args: Text, from: nat, to: nat)
    requires to <= |args|
  {
    forall k :: from <= k < to ==> args[k] != EQUALS
  }

  lemma {:induction false} ScanPlain(args: Text, q: nat, p: nat)
    requires q <= p <= |args| && Free(args, q, p)
    ensures ScanOf(args, q, p) == Scan(None, q, HashFrom(HASH_INIT, args[q..p], false), true)
    decreases p
  {
    hide HashChar;
    if p > q {
      ScanPlain(args, q, p - 1);
      assert args[q..p] == args[q..p - 1] + [args[p - 1]];
      HashAppend(HASH_INIT, args[q..p - 1], args[p - 1]);
    }
  }

  // Behind an '=' at position e, nothing changes until the next one.
  lemma {:induction false} ScanAfter(args: Text, q: nat, e: nat, p: nat)
    requires q <= e < p <= |args| && args[e] == EQUALS && Free(args, e + 1, p)
    ensures ScanOf(args, q, p) == ScanOf(args, q, e + 1)
    decreases p
  {
    if p > e + 1 {
      ScanAfter(args, q, e, p - 1);
    }
  }

  // The entry of a segment without '='.
  lemma EntryPlain(args: Text, q: nat, p: nat)
    requires q <= p <= |args| && Free(args, q, p)
    ensures Entry(args, ScanOf(args, q, p), p) == [NameValue(NameHash(args[q..p], false), args[q..p], [])]
  {
    hide HashChar, HashEnd;
    ScanPlain(args, q, p);
  }

  /** The text before the first '=', or all of it. */
  function FirstName(seg: Text): Text { seg[..FirstEquals(seg, 0)] }

  lemma FirstNameAppend(s: Text, c: Byte)
    ensures FirstName(s + [c]) == if Free(s, 0, |s|) && c != EQUALS then s + [c] else FirstName(s)
    ensures Free(s, 0, |s|) ==> FirstName(s) == s
  {
    var t := s + [c];
    var e, f := FirstEquals(s, 0), FirstEquals(t, 0);
    assert forall k :: 0 <= k < |s| ==> t[k] == s[k];
    if e < |s| {
      assert t[e] == EQUALS && f == e;
      assert t[..e] == s[..e];
    } else {
      assert s[..|s|] == s && t[..|s|] == s && t[..|t|] == t && t[|s|] == c;
      assert f == if c == EQUALS then |s| else |t|;
    }
  }

  // The running hash is that of the text before the first '=', however many there are.
  lemma {:induction false} ScanHash(args: Text, q: nat, p: nat)
    requires q <= p <= |args|
    ensures ScanOf(args, q, p).name.None? <==> Free(args, q, p)
    ensures ScanOf(args, q, p).hash == HashFrom(HASH_INIT, FirstName(args[q..p]), false)
    decreases p
  {
    hide HashChar, HashFrom, FirstName;
    if p == q {
      ScanPlain(args, q, p);
      FirstNameAppend([], EQUALS);
    } else {
      ScanHash(args, q, p - 1);
      var was := args[q..p - 1];
      assert args[q..p] == was + [args[p - 1]];
      assert Free(args, q, p - 1) <==> Free(was, 0, |was|) by {
        assert forall k :: q <= k < p - 1 ==> args[k] == was[k - q];
      }
      FirstNameAppend(was, args[p - 1]);
      HashAppend(HASH_INIT, was, args[p - 1]);
    }
  }

  // The name that an '=' at g ends begins behind the '=' before it.
  lemma {:induction false} ScanStart(args: Text, q: nat, g: nat)
    requires q <= g <= |args|
    ensures var s := ScanOf(args, q, g).start;
      q <= s <= g && Free(args, s, g) && (s == q || args[s - 1] == EQUALS)
    decreases g
  {
    if q < g {
      ScanStart(args, q, g - 1);
    }
  }

  /** A segment with its last '=' at g gets the name and the value around it, but the hash of its first name. */
  lemma LastEqualsNames(args: Text, q: nat, g: nat, p: nat)
    requires q <= g < p <= |args| && args[g] == EQUALS && Free(args, g + 1, p)
    ensures var s := ScanOf(args, q, g).start;
      && q <= s <= g && Free(args, s, g) && (s == q || args[s - 1] == EQUALS)
      && Entry(args, ScanOf(args, q, p), p)
           == if s == g then [] else [NameValue(NameHash(FirstName(args[q..p]), false), args[s..g], args[g + 1..p])]
  {
    hide HashChar, HashFrom, HashEnd, FirstName;
    ScanStart(args, q, g);
    ScanAfter(args, q, g, p);
    assert ScanOf(args, q, g + 1) == Feed(ScanOf(args, q, g), args, g);
    ScanHash(args, q, p);
  }

  // ---------- what a segment is taken for

  /** Where the bytes without '=' that end at p begin. */
  function Behind(seg: Text, p: nat): (s: nat)
    requires p <= |seg|
    ensures s <= p && Free(seg, s, p) && (s == 0 || seg[s - 1] == EQUALS)
  {
    if p == 0 || seg[p - 1] == EQUALS then p else Behind(seg, p - 1)
  }

  /** A parsed argument: its name, its value and the name that its hash is of. */
  datatype Occurrence = Occurrence(name: Text, value: Text, first: Text)

  /** The name and the value stand around the last '='; with no name there, the segment is no argument. */
  function Parsed(seg: Text): seq<Occurrence> {
    var v := Behind(seg, |seg|);
    if v == 0 then [Occurrence(seg, [], seg)]
    else
      var s := Behind(seg, v - 1);
      if s == v - 1 then [] else [Occurrence(seg[s..v - 1], seg[v..], FirstName(seg))]
  }

  lemma OneBehind(seg: Text, p: nat, s: nat)
    requires s <= p <= |seg| && Free(seg, s, p) && (s == 0 || seg[s - 1] == EQUALS)
    ensures s == Behind(seg, p)
  {
  }

  ghost predicate Tallies(nvs: seq<NameValue>, os: seq<Occurrence>) {
    |nvs| == |os| && forall i :: 0 <= i < |nvs| ==>
      nvs[i].name == os[i].name && nvs[i].value == os[i].value && nvs[i].hash == NameHash(os[i].first, false)
  }

  // Positions of a segment are positions of the query string.
  lemma Shift(args: Text, q: nat, p: nat, a: nat, b: nat)
    requires q <= p <= |args| && a <= b <= p - q
    ensures Free(args, q + a, q + b) <==> Free(args[q..p], a, b)
    ensures args[q..p][a..b] == args[q + a..q + b] && (0 < a ==> args[q..p][a - 1] == args[q + a - 1])
  {
    assert forall k :: a <= k < b ==> args[k + q] == args[q..p][k];
    assert forall k :: q + a <= k < q + b ==> args[k] == args[q..p][k - q];
  }

  /** The scan of a segment yields what it is taken for, whatever the segment. */
  lemma EntryIsParsed(args: Text, q: nat, p: nat)
    requires q <= p <= |args|
    ensures Tallies(Entry(args, ScanOf(args, q, p), p), Parsed(args[q..p]))
  {
    hide NameHash, HashChar, HashFrom, HashEnd, FirstName, ScanOf, Entry, Free, Behind, Parsed;
    var seg := args[q..p];
    var v := Behind(seg, |seg|);
    Shift(args, q, p, v, |seg|);
    assert args[q..p][..] == seg && seg[0..|seg|] == seg;
    if v == 0 {
      EntryPlain(args, q, p);
      ParsedPlain(seg);
    } else {
      var g := q + v - 1;
      LastEqualsNames(args, q, g, p);
      var s := ScanOf(args, q, g).start - q;
      Shift(args, q, p, s, v - 1);
      ParsedPair(seg, v, s);
    }
  }

  lemma ParsedPlain(seg: Text)
    requires Behind(seg, |seg|) == 0
    ensures Parsed(seg) == [Occurrence(seg, [], seg)]
  {
  }

  lemma ParsedPair(seg: Text, v: nat, s: nat)
    requires s < v == Behind(seg, |seg|) && Free(seg, s, v - 1) && (s == 0 || seg[s - 1] == EQUALS)
    ensures Parsed(seg) ==
      if s == v - 1 then [] else [Occurrence(seg[s..v - 1], seg[v..|seg|], FirstName(seg))]
  {
    hide Parsed, Free, Behind, FirstName;
    OneBehind(seg, v - 1, s);
    ParsedBehind(seg, v, s);
    ToTheEnd(seg, v);
  }

  lemma ParsedBehind(seg: Text, v: nat, s: nat)
    requires 0 < v == Behind(seg, |seg|) && s == Behind(seg, v - 1)
    ensures Parsed(seg) == if s == v - 1 then [] else [Occurrence(seg[s..v - 1], seg[v..], FirstName(seg))]
  {
    hide Behind, FirstName;
  }

  lemma ToTheEnd(seg: Text, v: nat)
    requires v <= |seg|
    ensures seg[v..|seg|] == seg[v..]
  {
  }

  /** With at most one '=' it is taken for what it means. */
  lemma ParsedIsArgument(seg: Text)
    requires OneEquals(seg)
    ensures |Parsed(seg)| == |Argument(seg)| <= 1
    ensures Parsed(seg) != [] ==>
      var o, f := Parsed(seg)[0], Argument(seg)[0];
      o.name == f.name && o.value == f.value && o.first == f.name
  {
    var e := FirstEquals(seg, 0);
    if e == |seg| {
      OneBehind(seg, |seg|, 0);
    } else {
      OneBehind(seg, |seg|, e + 1);
      OneBehind(seg, e, 0);
    }
  }

  /** A segment with at most one '=' is parsed to its meaning, and its hash is the hash of its name. */
  lemma EntryIsArgument(args: Text, q: nat, p: nat)
    requires q <= p <= |args| && OneEquals(args[q..p])
    ensures var es, fs := Entry(args, ScanOf(args, q, p), p), Argument(args[q..p]);
      && |es| == |fs| <= 1
      && (es != [] ==>
           es[0].name == fs[0].name && es[0].value == fs[0].value && es[0].hash == NameHash(es[0].name, false))
  {
    hide NameHash, ScanOf, Entry, Argument, Parsed, OneEquals;
    EntryIsParsed(args, q, p);
    ParsedIsArgument(args[q..p]);
  }

  // ---------- what a match object means

  const HTTP: Text := [0x68, 0x74, 0x74, 0x70]
  const HTTPS: Text := [0x68, 0x74, 0x74, 0x70, 0x73]

  // The arguments of a query string, segment by segment.
  function Arguments(args: Text, q: nat): seq<Field>
    requires q <= |args|
    decreases |args| - q
  {
    var e := Ampersand(args, q);
    Argument(args[q..e]) + if e == |args| then [] else Arguments(args, e + 1)
  }

  /** Arguments joined by '&', each as name, '=' and value. */
  function JoinArguments(fs: seq<Field>): Text
    requires fs != []
  {
    OneArgument(fs[0]) + if |fs| == 1 then [] else [38] + JoinArguments(fs[1..])
  }

  function OneArgument(f: Field): Text { f.name + [61] + f.value }

  // A field whose name and value need no escape.
  predicate Unmarked(f: Field) {
    f.name != [] && 61 !in f.name && 61 !in f.value && 38 !in f.name && 38 !in f.value
  }

  /** A query string made of arguments is read as those arguments. */
  lemma {:induction false} JoinedArguments(fs: seq<Field>, args: Text, q: nat)
    requires fs != [] && q <= |args| && args[q..] == JoinArguments(fs)
    requires forall i :: 0 <= i < |fs| ==> Unmarked(fs[i])
    ensures Arguments(args, q) == fs
    decreases |fs|
  {
    hide JoinArguments, Arguments, Unmarked, OneArgument;
    var f, e := fs[0], q + |OneArgument(fs[0])|;
    if |fs| == 1 {
      assert fs == [f];
      JoinedLast(f, args, q);
    } else {
      assert fs == [f] + fs[1..];
      JoinedMore(f, fs[1..], args, q);
      assert forall i :: 0 <= i < |fs[1..]| ==> fs[1..][i] == fs[i + 1];
      JoinedArguments(fs[1..], args, e + 1);
    }
  }

  // The last argument, and one before others.
  lemma JoinedLast(f: Field, args: Text, q: nat)
    requires q <= |args| && args[q..] == JoinArguments([f]) && Unmarked(f)
    ensures Arguments(args, q) == [f]
  {
    hide Arguments, Argument, Ampersand, Unmarked, OneArgument;
    ArgumentOf(f);
    SegmentOf(args, q, OneArgument(f), []);
    FirstSegment(args, q);
  }

  lemma JoinMore(f: Field, fs: seq<Field>)
    requires fs != []
    ensures JoinArguments([f] + fs) == OneArgument(f) + ([38] + JoinArguments(fs))
  {
    hide OneArgument;
    assert ([f] + fs)[1..] == fs;
  }

  lemma JoinedMore(f: Field, fs: seq<Field>, args: Text, q: nat)
    requires q <= |args| && fs != [] && args[q..] == JoinArguments([f] + fs) && Unmarked(f)
    ensures var e := q + |OneArgument(f)|;
      e < |args| && args[e + 1..] == JoinArguments(fs) && Arguments(args, q) == [f] + Arguments(args, e + 1)
  {
    hide Arguments, Argument, Ampersand, Unmarked, OneArgument, JoinArguments, Occurrences, Parsed, SimpleArgs;
    JoinMore(f, fs);
    ArgumentOf(f);
    SegmentBefore(args, q, OneArgument(f), JoinArguments(fs));
    FirstSegment(args, q);
  }

  lemma SegmentBefore(args: Text, q: nat, one: Text, tail: Text)
    requires q <= |args| && args[q..] == one + ([38] + tail) && 38 !in one
    ensures var e := Ampersand(args, q); e == q + |one| < |args| && args[q..e] == one && args[e + 1..] == tail
  {
    hide Ampersand;
    var rest := [38] + tail;
    SegmentOf(args, q, one, rest);
    assert rest[1..] == tail;
  }

  lemma ArgumentOf(f: Field)
    requires Unmarked(f)
    ensures Argument(OneArgument(f)) == [f] && 38 !in OneArgument(f)
  {
    var seg := OneArgument(f);
    assert seg[|f.name|] == 61;
    assert forall k :: 0 <= k < |f.name| ==> seg[k] == f.name[k] && seg[k] in f.name;
    FirstAt(seg, 0, |f.name|);
    assert seg[..|f.name|] == f.name && seg[|f.name| + 1..] == f.value;
  }

  lemma {:induction false} FirstAt(seg: Text, p: nat, e: nat)
    requires p <= e < |seg| && seg[e] == EQUALS && forall k :: p <= k < e ==> seg[k] != EQUALS
    ensures FirstEquals(seg, p) == e
    decreases e - p
  {
    if p < e {
      FirstAt(seg, p + 1, e);
    }
  }

  // A segment without '&' that ends the text or stands before one.
  lemma SegmentOf(args: Text, q: nat, one: Text, rest: Text)
    requires q <= |args| && args[q..] == one + rest && 38 !in one && (rest != [] ==> rest[0] == 38)
    ensures var e := Ampersand(args, q);
      && e == q + |one| && args[q..e] == one && (e == |args| <==> rest == [])
      && (e < |args| ==> args[e + 1..] == rest[1..])
  {
    var e := q + |one|;
    assert forall k :: 0 <= k < |one| ==> args[q + k] == args[q..][k] == one[k] && one[k] in one;
    assert rest != [] ==> args[e] == args[q..][|one|];
    AmpersandAt(args, q, e);
    assert args[q..e] == args[q..][..|one|] == one;
    if e < |args| {
      assert args[e + 1..] == args[q..][|one| + 1..];
    }
  }

  lemma {:induction false} AmpersandAt(args: Text, q: nat, e: nat)
    requires q <= e <= |args| && (e < |args| ==> args[e] == AMPERSAND)
    requires forall k :: q <= k < e ==> args[k] != AMPERSAND
    ensures Ampersand(args, q) == e
    decreases e - q
  {
    if q < e {
      AmpersandAt(args, q + 1, e);
    }
  }

  // What the segments of a query string are taken for.
  function Occurrences(args: Text, q: nat): seq<Occurrence>
    requires q <= |args|
    decreases |args| - q
  {
    var e := Ampersand(args, q);
    Parsed(args[q..e]) + if e == |args| then [] else Occurrences(args, e + 1)
  }

  /** No segment of the query string has more than one '='. */
  predicate SimpleArgs(args: Text, q: nat)
    requires q <= |args|
    decreases |args| - q
  {
    var e := Ampersand(args, q);
    OneEquals(args[q..e]) && (e < |args| ==> SimpleArgs(args, e + 1))
  }

  predicate SimpleRequest(req: Request) { req.args.Some? ==> SimpleArgs(req.args.value, 0) }

  /** How a query string is read: each segment by its meaning, or as the code takes it. */
  datatype Reading = Plain | Taken

  /** At least one occurrence of the name, and all of them pass. */
  ghost predicate FieldsMean(fields: seq<Field>, caseless: bool, rule: NamedRule) {
    && (exists i :: 0 <= i < |fields| && SameName(caseless, rule.name, fields[i].name))
    && (forall i :: 0 <= i < |fields| && SameName(caseless, rule.name, fields[i].name) ==>
          ListMeans(rule.patterns, !caseless, Nocase, fields[i].value))
  }

  /** A rule finds an argument by its name, provided that the name hashes like the first one of the segment. */
  predicate Finds(rule: NamedRule, o: Occurrence) {
    o.name == rule.name && NameHash(o.first, false) == NameHash(rule.name, false)
  }

  ghost predicate OccurrencesMean(os: seq<Occurrence>, rule: NamedRule) {
    && (exists i :: 0 <= i < |os| && Finds(rule, os[i]))
    && (forall i :: 0 <= i < |os| && Finds(rule, os[i]) ==> ListMeans(rule.patterns, true, Nocase, os[i].value))
  }

  ghost predicate NamedMeans(rule: NamedRule, header: bool, reading: Reading, req: Request) {
    if header then FieldsMean(req.headers, true, rule)
    else if req.args.None? then false
    else if reading.Plain? then FieldsMean(Arguments(req.args.value, 0), false, rule)
    else OccurrencesMean(Occurrences(req.args.value, 0), rule)
  }

  ghost predicate ObjectMeans(rules: seq<NamedRule>, header: bool, reading: Reading, req: Request) {
    forall i :: 0 <= i < |rules| ==> NamedMeans(rules[i], header, reading, req)
  }

  /** One of the objects, or no object at all. */
  ghost predicate TableMeans(table: seq<seq<NamedRule>>, header: bool, reading: Reading, req: Request) {
    table == [] || exists i :: 0 <= i < |table| && ObjectMeans(table[i], header, reading, req)
  }

  ghost predicate MatchMeans(m: MatchConf, reading: Reading, req: Request) {
    && (m.scheme.Some? ==> (req.tls <==> SameName(true, HTTPS, m.scheme.value)))
    && (m.uri.Some? ==> ListMeans(m.uri.value, true, Nocase, req.uri))
    && (m.verb.Some? ==> ListMeans(m.verb.value, true, Upper, req.verb))
    && (m.host.Some? ==> ListMeans(m.host.value, true, Lower, req.host))
    && (m.headers.Some? ==> TableMeans(m.headers.value, true, reading, req))
    && (m.arguments.Some? ==> TableMeans(m.arguments.value, false, reading, req))
  }

  ghost predicate TableAccepted(table: seq<seq<NamedRule>>) {
    forall i, j :: 0 <= i < |table| && 0 <= j < |table[i]| ==> AllAccepted(table[i][j].patterns)
  }

  // The occurrences of a simple query string are its arguments, each under its own name.
  ghost predicate Faithful(os: seq<Occurrence>, fs: seq<Field>) {
    |os| == |fs| && forall i :: 0 <= i < |os| ==>
      os[i].name == fs[i].name && os[i].value == fs[i].value && os[i].first == fs[i].name
  }

  lemma {:induction false} OccurrencesAreArguments(args: Text, q: nat)
    requires q <= |args| && SimpleArgs(args, q)
    ensures Faithful(Occurrences(args, q), Arguments(args, q))
    decreases |args| - q
  {
    hide Parsed, Argument, OneEquals, Faithful, SimpleArgs, Occurrences, Arguments;
    var e := Ampersand(args, q);
    var more: seq<Occurrence>, rest: seq<Field> := [], [];
    FirstSegment(args, q);
    OneFaithful(args[q..e]);
    if e < |args| {
      OccurrencesAreArguments(args, e + 1);
      more, rest := Occurrences(args, e + 1), Arguments(args, e + 1);
    } else {
      NoneFaithful();
    }
    FaithfulMore(Parsed(args[q..e]), more, Argument(args[q..e]), rest);
  }

  lemma FirstSegment(args: Text, q: nat)
    requires q <= |args|
    ensures var e := Ampersand(args, q);
      && Occurrences(args, q) == Parsed(args[q..e]) + (if e == |args| then [] else Occurrences(args, e + 1))
      && Arguments(args, q) == Argument(args[q..e]) + (if e == |args| then [] else Arguments(args, e + 1))
      && (SimpleArgs(args, q) <==> OneEquals(args[q..e]) && (e < |args| ==> SimpleArgs(args, e + 1)))
  {
    hide Parsed, Argument, OneEquals;
  }

  lemma NoneFaithful()
    ensures Faithful([], [])
  {
  }

  lemma OneFaithful(seg: Text)
    requires OneEquals(seg)
    ensures Faithful(Parsed(seg), Argument(seg))
  {
    hide Parsed, Argument, OneEquals;
    ParsedIsArgument(seg);
  }

  lemma FaithfulMore(os: seq<Occurrence>, more: seq<Occurrence>, fs: seq<Field>, gs: seq<Field>)
    requires Faithful(os, fs) && Faithful(more, gs)
    ensures Faithful(os + more, fs + gs)
  {
  }

  lemma ReadingsOfNamed(rule: NamedRule, header: bool, req: Request)
    requires SimpleRequest(req)
    ensures NamedMeans(rule, header, Taken, req) <==> NamedMeans(rule, header, Plain, req)
  {
    hide Occurrences, Arguments, ListMeans, NameHash;
    if !header && req.args.Some? {
      var args := req.args.value;
      OccurrencesAreArguments(args, 0);
      var os, fs := Occurrences(args, 0), Arguments(args, 0);
      forall i | 0 <= i < |os|
        ensures Finds(rule, os[i]) <==> SameName(false, rule.name, fs[i].name)
      {
        EqualNames(rule.name, fs[i].name);
      }
    }
  }

  lemma EqualNames(a: Text, b: Text)
    ensures SameName(false, a, b) <==> a == b
  {
  }

  lemma ReadingsOfTable(table: seq<seq<NamedRule>>, header: bool, req: Request)
    requires SimpleRequest(req)
    ensures TableMeans(table, header, Taken, req) <==> TableMeans(table, header, Plain, req)
  {
    hide NamedMeans;
    forall i | 0 <= i < |table|
      ensures ObjectMeans(table[i], header, Taken, req) <==> ObjectMeans(table[i], header, Plain, req)
    {
      forall j | 0 <= j < |table[i]|
        ensures NamedMeans(table[i][j], header, Taken, req) <==> NamedMeans(table[i][j], header, Plain, req)
      {
        ReadingsOfNamed(table[i][j], header, req);
      }
    }
  }

  /** Where no segment has several '=', the two readings of a match object agree. */
  lemma SimpleReading(m: MatchConf, req: Request)
    requires SimpleRequest(req)
    ensures MatchMeans(m, Taken, req) <==> MatchMeans(m, Plain, req)
  {
    hide TableMeans, ListMeans;
    if m.headers.Some? {
      ReadingsOfTable(m.headers.value, true, req);
    }
    if m.arguments.Some? {
      ReadingsOfTable(m.arguments.value, false, req);
    }
  }

  /** Match objects that differ in nothing but the case of the letters in their methods and hosts. */
  ghost predicate SpelledAlike(m: MatchConf, w: MatchConf) {
    && w == m.(verb := w.verb, host := w.host)
    && (m.verb.Some? <==> w.verb.Some?) && (m.verb.Some? ==> ListsButCase(m.verb.value, w.verb.value))
    && (m.host.Some? <==> w.host.Some?) && (m.host.Some? ==> ListsButCase(m.host.value, w.host.value))
  }

  /** They are true of the same requests. */
  lemma SpellingIsFree(m: MatchConf, w: MatchConf, reading: Reading, req: Request)
    requires SpelledAlike(m, w)
    ensures MatchMeans(m, reading, req) <==> MatchMeans(w, reading, req)
  {
    hide ListMeans, TableMeans, ListsButCase;
    if m.verb.Some? {
      CaseIsFolded(m.verb.value, w.verb.value, true, Upper, req.verb);
    }
    if m.host.Some? {
      CaseIsFolded(m.host.value, w.host.value, true, Lower, req.host);
    }
  }

  /** What the validator promises of a match object. */
  ghost predicate Validated(m: MatchConf) {
    && (m.scheme.Some? ==> SameName(true, HTTP, m.scheme.value) || SameName(true, HTTPS, m.scheme.value))
    && (m.uri.Some? ==> AllAccepted(m.uri.value))
    && (m.verb.Some? ==> AllAccepted(m.verb.value))
    && (m.host.Some? ==> AllAccepted(m.host.value))
    && (m.headers.Some? ==> TableAccepted(m.headers.value))
    && (m.arguments.Some? ==> TableAccepted(m.arguments.value))
  }

  // ---------- the compiled form

  datatype Target = Scheme | Uri | Verb | Host | Header | Query

  datatype Rule = Rule(target: Target, name: Text, hash: bv32, patterns: seq<Pattern>)

  datatype Test = RuleTest(rule: Rule) | TableTest(rulesets: seq<seq<Rule>>)

  ghost predicate RuleOk(rule: Rule) {
    AllUsable(rule.patterns) && (rule.target.Scheme? ==> rule.patterns != [])
  }

  predicate HeaderHit(rule: Rule, h: Field) {
    rule.hash == NameHash(h.name, true) && SameName(true, rule.name, h.name)
  }

  predicate QueryHit(rule: Rule, nv: NameValue) {
    rule.hash == nv.hash && rule.name == nv.name
  }

  ghost predicate HeadersHold(rule: Rule, hs: seq<Field>) {
    && (exists i :: 0 <= i < |hs| && HeaderHit(rule, hs[i]))
    && (forall i :: 0 <= i < |hs| && HeaderHit(rule, hs[i]) ==> Loop(rule.patterns, 0, true, hs[i].value))
  }

  ghost predicate QueryHolds(rule: Rule, nvs: seq<NameValue>) {
    && (exists i :: 0 <= i < |nvs| && QueryHit(rule, nvs[i]))
    && (forall i :: 0 <= i < |nvs| && QueryHit(rule, nvs[i]) ==> Loop(rule.patterns, 0, true, nvs[i].value))
  }

  ghost predicate RuleHolds(rule: Rule, req: Request)
    requires RuleOk(rule)
  {
    match rule.target
    case Scheme => req.tls <==> |rule.patterns[0].start1| == 5
    case Uri => Loop(rule.patterns, 0, true, req.uri)
    case Verb => Loop(rule.patterns, 0, true, req.verb)
    case Host => Loop(rule.patterns, 0, true, req.host)
    case Header => HeadersHold(rule, req.headers)
    case Query => req.args.Some? && QueryHolds(rule, Entries(req.args.value, 0))
  }

  ghost predicate AllOk(rules: seq<Rule>) { forall i :: 0 <= i < |rules| ==> RuleOk(rules[i]) }

  ghost predicate TestOk(t: Test) {
    match t
    case RuleTest(rule) => RuleOk(rule)
    case TableTest(table) => forall i :: 0 <= i < |table| ==> AllOk(table[i])
  }

  ghost predicate RulesetHolds(rules: seq<Rule>, req: Request)
    requires AllOk(rules)
  {
    forall i :: 0 <= i < |rules| ==> RuleHolds(rules[i], req)
  }

  ghost predicate TestHolds(t: Test, req: Request)
    requires TestOk(t)
  {
    match t
    case RuleTest(rule) => RuleHolds(rule, req)
    case TableTest(table) => table == [] || exists i :: 0 <= i < |table| && RulesetHolds(table[i], req)
  }

  // ---------- the interpreter

  /** ngx_http_route_headers: stops at the first occurrence that fails. */
  method TestHeaders(rule: Rule, hs: seq<Field>) returns (ret: bool)
    requires RuleOk(rule)
    ensures ret <==> HeadersHold(rule, hs)
  {
    ret := false;
    for i := 0 to |hs|
      invariant ret <==> exists k :: 0 <= k < i && HeaderHit(rule, hs[k])
      invariant forall k :: 0 <= k < i && HeaderHit(rule, hs[k]) ==> Loop(rule.patterns, 0, true, hs[k].value)
    {
      var hash := HashOf(hs[i].name, true);
      if rule.hash == hash && SameName(true, rule.name, hs[i].name) {
        ret := TestRule(rule.patterns, hs[i].value);
        if !ret {
          return;
        }
      }
    }
  }

  /** ngx_http_route_arguments */
  method TestArguments(rule: Rule, args: Option<Text>) returns (ret: bool)
    requires RuleOk(rule)
    ensures ret <==> args.Some? && QueryHolds(rule, Entries(args.value, 0))
  {
    hide HashChar, HashEnd, Entries, Loop;
    ret := false;
    if args.None? {
      return;
    }
    var nvs := ParseArguments(args.value);
    for i := 0 to |nvs|
      invariant ret <==> exists k :: 0 <= k < i && QueryHit(rule, nvs[k])
      invariant forall k :: 0 <= k < i && QueryHit(rule, nvs[k]) ==> Loop(rule.patterns, 0, true, nvs[k].value)
    {
      if QueryHit(rule, nvs[i]) {
        ret := TestRule(rule.patterns, nvs[i].value);
        if !ret {
          return;
        }
      }
    }
  }

  /** ngx_http_route_rule */
  method ApplyRule(rule: Rule, req: Request) returns (ret: bool)
    requires RuleOk(rule)
    ensures ret <==> RuleHolds(rule, req)
  {
    match rule.target
    case Scheme => ret := req.tls == (|rule.patterns[0].start1| == 5);
    case Uri => ret := TestRule(rule.patterns, req.uri);
    case Verb => ret := TestRule(rule.patterns, req.verb);
    case Host => ret := TestRule(rule.patterns, req.host);
    case Header => ret := TestHeaders(rule, req.headers);
    case Query => ret := TestArguments(rule, req.args);
  }

  /** ngx_http_route_ruleset */
  method ApplyRuleset(rules: seq<Rule>, req: Request) returns (ret: bool)
    requires AllOk(rules)
    ensures ret <==> RulesetHolds(rules, req)
  {
    for i := 0 to |rules|
      invariant forall k :: 0 <= k < i ==> RuleHolds(rules[k], req)
    {
      ret := ApplyRule(rules[i], req);
      if !ret {
        return;
      }
    }
    return true;
  }

  /** ngx_http_route_table and the choice between a rule and a table */
  method ApplyTest(t: Test, req: Request) returns (ret: bool)
    requires TestOk(t)
    ensures ret <==> TestHolds(t, req)
  {
    match t
    case RuleTest(rule) => ret := ApplyRule(rule, req);
    case TableTest(table) =>
      ret := true;
      for i := 0 to |table|
        invariant ret <==> i == 0
        invariant forall k :: 0 <= k < i ==> !RulesetHolds(table[k], req)
      {
        ret := ApplyRuleset(table[i], req);
        if ret {
          return;
        }
      }
  }

  /** A rule for the name of an entry finds it if and only if that name and the first one of the segment hash alike. */
  lemma FoundByItsName(args: Text, q: nat, p: nat, rule: Rule, nv: NameValue)
    requires q <= p <= |args| && nv in Entry(args, ScanOf(args, q, p), p)
    requires rule.name == nv.name && rule.hash == NameHash(nv.name, false)
    ensures QueryHit(rule, nv) <==> NameHash(FirstName(args[q..p]), false) == NameHash(nv.name, false)
    ensures OneEquals(args[q..p]) ==> QueryHit(rule, nv)
  {
    hide HashChar, HashFrom, HashEnd, ScanOf, Entry, FirstName, NameHash, OneEquals, Argument;
    EntryHash(args, q, p, nv);
    if OneEquals(args[q..p]) {
      EntryIsArgument(args, q, p);
    }
  }

  lemma EntryHash(args: Text, q: nat, p: nat, nv: NameValue)
    requires q <= p <= |args| && nv in Entry(args, ScanOf(args, q, p), p)
    ensures nv.hash == NameHash(FirstName(args[q..p]), false) && Entry(args, ScanOf(args, q, p), p) == [nv]
  {
    hide HashChar, HashFrom, HashEnd, ScanOf, FirstName;
    ScanHash(args, q, p);
  }

  /** The hashes of the names a and b differ: the entry named b of "a=b=c" is found under neither name. */
  lemma DroppedArgument(rule: Rule)
    requires rule.hash == NameHash(rule.name, false) && (rule.name == [0x61] || rule.name == [0x62])
    ensures var seg := [0x61, EQUALS, 0x62, EQUALS, 0x63];
      && Entry(seg, ScanOf(seg, 0, 5), 5) == [NameValue(NameHash([0x61], false), [0x62], [0x63])]
      && forall nv :: nv in Entry(seg, ScanOf(seg, 0, 5), 5) ==> !QueryHit(rule, nv)
  {
    var seg := [0x61, EQUALS, 0x62, EQUALS, 0x63];
    HashesDiffer();
    hide HashChar, HashFrom, HashEnd;
    ScanStart(seg, 0, 3);
    LastEqualsNames(seg, 0, 3, 5);
    assert seg[2..3] == [0x62] && seg[4..5] == [0x63] && seg[0..5] == seg && seg[..1] == [0x61];
  }

  lemma HashesDiffer()
    ensures NameHash([0x61], false) != NameHash([0x62], false)
  {
    assert HashFrom(HASH_INIT, [0x61], false) == HashChar(HASH_INIT, 0x61);
    assert HashFrom(HASH_INIT, [0x62], false) == HashChar(HASH_INIT, 0x62);
  }
}
