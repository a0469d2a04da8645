/** What the text of a path means: src/nxt_conf.c:1747-1880 and 2024-2197, src/nxt_parse.c:16-60. */
module ConfPaths {
  import opened Bytes
  import opened Strings
  import opened JsonPrint
  import opened ConfOps

  // ---------- decimal numbers

  /** The decimal text of a number, without leading zeros: '0' is 48. */
  function Decimal(n: nat): (t: Token)
    ensures t != []
  {
    if n < 10 then [48 + n] else Decimal(n / 10) + [48 + n % 10]
  }

  function Zeros(k: nat): Token { seq(k, i => 48) }

  predicate AllDigits(t: Token) { forall i :: 0 <= i < |t| ==> 48 <= t[i] <= 57 }

  // The number a text of digits writes down, read from its last digit on.
  function Worth(t: Token): nat
    requires AllDigits(t)
  {
    if t == [] then 0 else 10 * Worth(t[..|t| - 1]) + (t[|t| - 1] - 48)
  }

  lemma {:induction false} DecimalWorth(n: nat)
    ensures AllDigits(Decimal(n)) && Worth(Decimal(n)) == n
  {
    if n < 10 {
      assert Decimal(n)[..0] == [];
    } else {
      DecimalWorth(n / 10);
      var t := Decimal(n);
      assert t[..|t| - 1] == Decimal(n / 10);
    }
  }

  lemma {:induction false} ZerosWorth(k: nat, t: Token)
    requires AllDigits(t)
    ensures AllDigits(Zeros(k) + t) && Worth(Zeros(k) + t) == Worth(t)
    decreases |t|, k
  {
    var all := Zeros(k) + t;
    if t != [] {
      assert all[..|all| - 1] == Zeros(k) + t[..|t| - 1];
      ZerosWorth(k, t[..|t| - 1]);
    } else if k > 0 {
      assert all[..k - 1] == Zeros(k - 1) + [];
      ZerosWorth(k - 1, []);
    }
  }

  // Reading from the front, with what has been read so far.
  lemma {:induction false} ReadsWorth(done: Token, t: Token)
    requires AllDigits(done) && AllDigits(t) && Worth(done) <= INT64_MAX
    ensures AllDigits(done + t)
    ensures DigitsOf(t, Worth(done)) == if Worth(done + t) <= INT64_MAX then Some(Worth(done + t)) else None
    decreases |t|
  {
    if t == [] {
      assert done + t == done;
    } else {
      var more := done + [t[0]];
      assert more[..|more| - 1] == done;
      assert done + t == more + t[1..];
      if Worth(more) <= INT64_MAX {
        ReadsWorth(more, t[1..]);
      } else {
        NeverLess(more, t[1..]);
      }
    }
  }

  lemma {:induction false} NeverLess(done: Token, t: Token)
    requires AllDigits(done) && AllDigits(t)
    ensures AllDigits(done + t) && Worth(done + t) >= Worth(done)
    decreases |t|
  {
    if t == [] {
      assert done + t == done;
    } else {
      var init := t[..|t| - 1];
      assert (done + t)[..|done + t| - 1] == done + init;
      NeverLess(done, init);
    }
  }

  lemma {:induction false} BadDigits(t: Token, val: nat)
    requires !AllDigits(t)
    ensures DigitsOf(t, val) == None
    decreases |t|
  {
    if 48 <= t[0] <= 57 {
      assert !AllDigits(t[1..]) by {
        var i :| 0 <= i < |t| && !(48 <= t[i] <= 57);
        assert t[1..][i - 1] == t[i];
      }
      if val * 10 + (t[0] - 48) <= INT64_MAX {
        BadDigits(t[1..], val * 10 + (t[0] - 48));
      }
    }
  }

  /** A decimal number, with any leading zeros, is read as that number up to the largest 64-bit one. */
  lemma DecimalIsRead(k: nat, n: nat)
    ensures IntOf(Zeros(k) + Decimal(n)) == if n <= 0x7FFFFFFFFFFFFFFF then Some(n) else None
  {
    DecimalWorth(n);
    ZerosWorth(k, Decimal(n));
    ReadsWorth([], Zeros(k) + Decimal(n));
    assert [] + (Zeros(k) + Decimal(n)) == Zeros(k) + Decimal(n);
  }

  /** Any other text is not read, and what is read is such a number. */
  lemma OnlyDecimals(t: Token)
    ensures t == [] || !AllDigits(t) ==> IntOf(t) == None
    ensures IntOf(t).Some? ==> exists k: nat :: t == Zeros(k) + Decimal(IntOf(t).value)
  {
    if t != [] && !AllDigits(t) {
      BadDigits(t, 0);
    } else if t != [] {
      ReadsWorth([], t);
      assert [] + t == t;
      var k := Leading(t);
    }
  }

  lemma {:induction false} Leading(t: Token) returns (k: nat)
    requires t != [] && AllDigits(t)
    ensures t == Zeros(k) + Decimal(Worth(t))
    decreases |t|
  {
    var init, d := t[..|t| - 1], t[|t| - 1];
    assert t == init + [d];
    if init == [] {
      k := 0;
      assert Worth(t) == d - 48;
    } else {
      var j := Leading(init);
      if Worth(init) == 0 {
        k := j + 1;
        assert Zeros(j) + Decimal(0) == Zeros(k);
      } else {
        k := j;
        assert Decimal(Worth(t)) == Decimal(Worth(init)) + [d];
      }
    }
  }

  /** A decimal token names that element of an array; the first one behind the end is where an element is added. */
  lemma IndexNamesElement(es: seq<Value>, k: nat, i: nat)
    ensures var place := PlaceOf(Arr(es), Zeros(k) + Decimal(i));
      place == if i > 0x7FFFFFFF then Nowhere else if i < |es| then Here(i) else Beyond(i)
    ensures i < |es| && i <= 0x7FFFFFFF ==> Get(Arr(es), [Some(Zeros(k) + Decimal(i))]) == Some(es[i])
    ensures !(i < |es| && i <= 0x7FFFFFFF) ==> Get(Arr(es), [Some(Zeros(k) + Decimal(i))]) == None
  {
    DecimalIsRead(k, i);
  }

  // ---------- paths

  /** Segments, each behind a slash (47). */
  function Slashed(segs: seq<seq<Byte>>): seq<Byte> {
    if segs == [] then [] else [47] + segs[0] + Slashed(segs[1..])
  }

  // What the path parser makes of a segment.
  function Decoded(seg: seq<Byte>): Option<Token> { if |seg| > 256 then None else Unescaped(seg) }

  function DecodedAll(segs: seq<seq<Byte>>): (r: seq<Option<Token>>)
    ensures |r| == |segs| && forall i :: 0 <= i < |segs| ==> r[i] == Decoded(segs[i])
  {
    if segs == [] then [] else [Decoded(segs[0])] + DecodedAll(segs[1..])
  }

  ghost predicate Slashless(segs: seq<seq<Byte>>) { forall i :: 0 <= i < |segs| ==> 47 !in segs[i] }

  /** A path of segments without slashes is cut at the slashes, and each segment is decoded. */
  lemma {:induction false} SegmentsAreTokens(segs: seq<seq<Byte>>, path: seq<Byte>, p: nat)
    requires segs != [] && p <= |path| && path[p..] == Slashed(segs) && Slashless(segs)
    ensures Tokens(path, p) == DecodedAll(segs)
    decreases |segs|
  {
    hide Slashed, Decoded, Tokens;
    var rest := Slashed(segs[1..]);
    SlashedSplit(segs);
    Suffix(path, p, [47] + segs[0], rest);
    OneSegment(path, p, segs[0], rest);
    if |segs| > 1 {
      SegmentsAreTokens(segs[1..], path, p + 1 + |segs[0]|);
    }
  }

  lemma SlashedSplit(segs: seq<seq<Byte>>)
    requires segs != []
    ensures Slashed(segs) == [47] + segs[0] + Slashed(segs[1..])
    ensures Slashed(segs[1..]) == [] <==> |segs| == 1
    ensures |segs| > 1 ==> Slashed(segs[1..])[0] == 47
  {
  }

  lemma Suffix(path: seq<Byte>, p: nat, a: seq<Byte>, b: seq<Byte>)
    requires p <= |path| && path[p..] == a + b
    ensures p + |a| <= |path| && path[p..p + |a|] == a && path[p + |a|..] == b
  {
    assert path[p..p + |a|] == path[p..][..|a|];
    assert path[p + |a|..] == path[p..][|a|..];
  }

  // One token, and where the next one begins.
  lemma OneSegment(path: seq<Byte>, p: nat, seg: seq<Byte>, rest: seq<Byte>)
    requires var e := p + 1 + |seg|; e <= |path| && path[p..e] == [47] + seg && path[e..] == rest
    requires 47 !in seg && (rest != [] ==> rest[0] == 47)
    ensures var e := p + 1 + |seg|;
      Tokens(path, p) == [Decoded(seg)] + if rest == [] then [] else Tokens(path, e)
  {
    hide Unescaped;
    var e := p + 1 + |seg|;
    assert path[p + 1..e] == path[p..e][1..] == seg;
    assert forall k :: p + 1 <= k < e ==> path[k] == seg[k - p - 1] && seg[k - p - 1] in seg;
    assert rest != [] ==> path[e] == rest[0];
    SegmentEndsAt(path, p + 1, e);
  }

  lemma {:induction false} SegmentEndsAt(path: seq<Byte>, p: nat, e: nat)
    requires p <= e <= |path| && (e < |path| ==> path[e] == 47) && forall k :: p <= k < e ==> path[k] != 47
    ensures SegmentEnd(path, p) == e
    decreases e - p
  {
    if p < e {
      SegmentEndsAt(path, p + 1, e);
    }
  }

  function EscapedAll(names: seq<Token>): (r: seq<seq<Byte>>)
    ensures |r| == |names| && forall i :: 0 <= i < |names| ==> r[i] == EscapedUri(names[i])
  {
    seq(|names|, i requires 0 <= i < |names| => EscapedUri(names[i]))
  }

  /** Names without slashes, escaped and put behind slashes, are the tokens of the path; a longer one is refused. */
  lemma EscapedNamesAreTokens(names: seq<Token>, path: seq<Byte>)
    requires names != [] && forall i :: 0 <= i < |names| ==> 47 !in names[i]
    requires path == Slashed(EscapedAll(names))
    ensures |Tokens(path, 0)| == |names|
    ensures forall i :: 0 <= i < |names| ==>
      Tokens(path, 0)[i] == if |EscapedUri(names[i])| > 256 then None else Some(names[i])
  {
    hide EscapedUri, Unescaped, Slashed;
    var segs := EscapedAll(names);
    forall i | 0 <= i < |names|
      ensures 47 !in segs[i] && Unescaped(segs[i]) == Some(names[i])
    {
      EncodeDecodes(names[i]);
      NoSlash(names[i]);
    }
    assert path[0..] == path;
    SegmentsAreTokens(segs, path, 0);
  }

  lemma {:induction false} NoSlash(name: Token)
    requires 47 !in name
    ensures 47 !in EscapedUri(name)
  {
    if name != [] {
      assert name[0] != 47 && 47 !in name[1..];
      NoSlash(name[1..]);
    }
  }

  // ---------- when an edit succeeds

  /** What a list of tokens names, if none of them is broken: a token may also name the member with the empty name. */
  ghost function Named(v: Value, toks: seq<Option<Token>>): Option<Value>
    decreases |toks|
  {
    if toks == [] then Some(v)
    else if toks[0].None? || !PlaceOf(v, toks[0].value).Here? then None
    else Named(Child(v, PlaceOf(v, toks[0].value).index), toks[1..])
  }

  /** GET finds what a path names, if no token is empty. */
  lemma {:induction false} GetIsNamed(v: Value, toks: seq<Option<Token>>)
    requires toks != [] && NoEmptyTokens(toks)
    ensures Get(v, toks) == Named(v, toks)
    decreases |toks|
  {
    if toks[0].Some? && PlaceOf(v, toks[0].value).Here? {
      var c := Child(v, PlaceOf(v, toks[0].value).index);
      if |toks| > 1 {
        assert forall i :: 0 <= i < |toks[1..]| ==> toks[1..][i] == toks[i + 1];
        GetIsNamed(c, toks[1..]);
      } else {
        assert toks[1..] == [];
      }
    }
  }

  /** An empty last token names the value itself to GET, but to an edit the member with the empty name. */
  lemma {:induction false} EmptyLastToken(v: Value, toks: seq<Option<Token>>)
    requires NoEmptyTokens(toks)
    ensures Get(v, toks + [Some([])]) == Named(v, toks)
    ensures Apply(v, toks + [Some([])], Remove).Done? <==>
      Named(v, toks).Some? && Named(v, toks).value.Obj? && FindMember(Named(v, toks).value.members, [], 0).Some?
    decreases |toks|
  {
    var all := toks + [Some([])];
    if toks == [] {
      assert all == [Some([])];
    } else if toks[0].Some? && PlaceOf(v, toks[0].value).Here? {
      assert all[0] == toks[0] && all[1..] == toks[1..] + [Some([])];
      assert forall i :: 0 <= i < |toks[1..]| ==> toks[1..][i] == toks[i + 1];
      EmptyLastToken(Child(v, PlaceOf(v, toks[0].value).index), toks[1..]);
    } else {
      assert all[0] == toks[0];
    }
  }

  /** The broken token an edit meets: everything before it names something. */
  ghost predicate MeetsBroken(v: Value, toks: seq<Option<Token>>) {
    exists k :: 0 <= k < |toks| && toks[k].None? && Named(v, toks[..k]).Some?
  }

  /** When an edit is done, and how it is refused otherwise, by what its path names before it. */
  ghost function Verdict(v: Value, toks: seq<Option<Token>>, edit: Edit<Value>): Outcome<Value>
    requires toks != []
  {
    var there, parent := Named(v, toks), Named(v, toks[..|toks| - 1]);
    if MeetsBroken(v, toks) then Error
    else
      match edit
      case Remove => if there.Some? then Done(v) else NotFound
      case Post(_) => if there.None? then NotFound else if there.value.Arr? then Done(v) else NotAllowed
      case Put(_) =>
        if there.Some? || (parent.Some? && Takes(parent.value, toks[|toks| - 1])) then Done(v) else NotFound
  }

  // A container a new child can be put into: an object, or an array at the number of its elements.
  ghost predicate Takes(v: Value, t: Option<Token>) {
    v.Obj? || (v.Arr? && t.Some? && |v.elements| <= 0x7FFFFFFF
      && exists k: nat :: t.value == Zeros(k) + Decimal(|v.elements|))
  }

  ghost predicate SameKind(r: Outcome<Value>, w: Outcome<Value>) {
    (r.Done? <==> w.Done?) && (r.NotFound? <==> w.NotFound?) && (r.NotAllowed? <==> w.NotAllowed?)
  }

  /** An edit is done or refused as its path and the tree before it say. */
  lemma {:induction false} EditSucceeds(v: Value, toks: seq<Option<Token>>, edit: Edit<Value>)
    requires toks != []
    ensures SameKind(Apply(v, toks, edit), Verdict(v, toks, edit))
    decreases |toks|
  {
    if toks[0].None? {
      assert toks[..0] == [] && Named(v, toks[..0]) == Some(v);
    } else if |toks| == 1 {
      LastEdit(v, toks, edit);
    } else {
      var place := PlaceOf(v, toks[0].value);
      if place.Here? {
        EditSucceeds(Child(v, place.index), toks[1..], edit);
        BrokenBelow(v, toks);
        VerdictBelow(v, toks, edit);
      } else {
        NothingBelow(v, toks);
      }
    }
  }

  lemma LastEdit(v: Value, toks: seq<Option<Token>>, edit: Edit<Value>)
    requires |toks| == 1 && toks[0].Some?
    ensures SameKind(Apply(v, toks, edit), Verdict(v, toks, edit))
  {
    hide Takes;
    assert toks[1..] == [] && toks[..0] == [];
    TakesHere(v, toks[0].value);
    var place := PlaceOf(v, toks[0].value);
    assert Named(v, toks) == if place.Here? then Some(Child(v, place.index)) else None;
  }

  lemma TakesHere(v: Value, t: Token)
    ensures Takes(v, Some(t)) <==> v.Obj? || (v.Arr? && PlaceOf(v, t) == Beyond(|v.elements|))
  {
    if v.Arr? {
      AtTheEnd(v, t);
    }
  }

  lemma VerdictBelow(v: Value, toks: seq<Option<Token>>, edit: Edit<Value>)
    requires |toks| > 1 && toks[0].Some? && PlaceOf(v, toks[0].value).Here?
    ensures var c := Child(v, PlaceOf(v, toks[0].value).index);
      && Named(v, toks) == Named(c, toks[1..]) && Named(v, toks[..|toks| - 1]) == Named(c, toks[1..][..|toks| - 2])
      && toks[|toks| - 1] == toks[1..][|toks| - 2]
  {
    assert toks[..|toks| - 1][0] == toks[0] && toks[..|toks| - 1][1..] == toks[1..][..|toks| - 2];
  }

  lemma AtTheEnd(v: Value, t: Token)
    requires v.Arr?
    ensures PlaceOf(v, t) == Beyond(|v.elements|) <==> Takes(v, Some(t))
  {
    OnlyDecimals(t);
    if k: nat :| t == Zeros(k) + Decimal(|v.elements|) {
      DecimalIsRead(k, |v.elements|);
    }
  }

  lemma BrokenBelow(v: Value, toks: seq<Option<Token>>)
    requires |toks| > 1 && toks[0].Some? && PlaceOf(v, toks[0].value).Here?
    ensures MeetsBroken(v, toks) <==> MeetsBroken(Child(v, PlaceOf(v, toks[0].value).index), toks[1..])
  {
    var c, rest := Child(v, PlaceOf(v, toks[0].value).index), toks[1..];
    forall k | 0 < k <= |toks|
      ensures Named(v, toks[..k]) == Named(c, rest[..k - 1])
    {
      assert toks[..k][1..] == rest[..k - 1] && toks[..k][0] == toks[0];
    }
    if k :| 0 <= k < |toks| && toks[k].None? && Named(v, toks[..k]).Some? {
      assert rest[k - 1].None? && Named(c, rest[..k - 1]).Some?;
    }
    if k :| 0 <= k < |rest| && rest[k].None? && Named(c, rest[..k]).Some? {
      assert toks[k + 1].None? && Named(v, toks[..k + 1]).Some?;
    }
  }

  lemma NothingBelow(v: Value, toks: seq<Option<Token>>)
    requires |toks| > 1 && toks[0].Some? && !PlaceOf(v, toks[0].value).Here?
    ensures !MeetsBroken(v, toks) && Named(v, toks).None? && Named(v, toks[..|toks| - 1]).None?
  {
    assert forall k :: 0 < k <= |toks| ==> toks[..k][0] == toks[0];
  }
}
