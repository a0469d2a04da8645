/** String searching and URI escaping of src/nxt_string.c. */
module Strings {
  import opened Bytes

  const PERCENT: Byte := 0x25

  // ---------- searching

  function Lowcase(c: Byte): Byte { if 0x41 <= c <= 0x5A then c + 0x20 else c }

  function CaseFold(caseless: bool, c: Byte): Byte { if caseless then Lowcase(c) else c }

  /** The same byte, or the two cases of one ASCII letter: 'A' to 'Z' are 65 to 90, and 32 apart from 'a' to 'z'. */
  predicate LetterPair(a: Byte, b: Byte) {
    a == b || (65 <= a <= 90 && b == a + 32) || (65 <= b <= 90 && a == b + 32)
  }

  predicate SameButCase(s: seq<Byte>, t: seq<Byte>) {
    |s| == |t| && forall i :: 0 <= i < |s| ==> LetterPair(s[i], t[i])
  }

  lemma FoldedAlike(a: Byte, b: Byte)
    ensures CaseFold(true, a) == CaseFold(true, b) <==> LetterPair(a, b)
    ensures CaseFold(false, a) == CaseFold(false, b) <==> a == b
  {
  }

  /** A caseless match is one up to the case of ASCII letters, and any other is exact. */
  lemma StandsUpToCase(s: seq<Byte>, p: nat, needle: seq<Byte>)
    ensures StandsAt(true, s, p, needle) <==> p + |needle| <= |s| && SameButCase(s[p..p + |needle|], needle)
    ensures StandsAt(false, s, p, needle) <==> p + |needle| <= |s| && s[p..p + |needle|] == needle
  {
    if p + |needle| <= |s| {
      var t := s[p..p + |needle|];
      forall k | 0 <= k < |needle|
        ensures t[k] == s[p + k]
        ensures CaseFold(true, s[p + k]) == CaseFold(true, needle[k]) <==> LetterPair(t[k], needle[k])
        ensures CaseFold(false, s[p + k]) == CaseFold(false, needle[k]) <==> t[k] == needle[k]
      {
        FoldedAlike(s[p + k], needle[k]);
      }
      ByOffset(true, s, p, needle);
      ByOffset(false, s, p, needle);
    }
  }

  lemma ByOffset(caseless: bool, s: seq<Byte>, p: nat, needle: seq<Byte>)
    requires p + |needle| <= |s|
    ensures Agrees(caseless, s, p, needle, 0) <==>
      forall k :: 0 <= k < |needle| ==> CaseFold(caseless, s[p + k]) == CaseFold(caseless, needle[k])
  {
    hide CaseFold;
    if Agrees(caseless, s, p, needle, 0) {
      forall k | 0 <= k < |needle|
        ensures CaseFold(caseless, s[p + k]) == CaseFold(caseless, needle[k])
      {
        assert needle[p + k - p] == needle[k];
      }
    }
  }

  // The needle agrees with s at position p from its byte `from` on.
  predicate Agrees(caseless: bool, s: seq<Byte>, p: nat, needle: seq<Byte>, from: nat)
    requires p + |needle| <= |s|
  {
    forall k :: p + from <= k < p + |needle| ==> CaseFold(caseless, s[k]) == CaseFold(caseless, needle[k - p])
  }

  /** The needle stands in s at position p, up to case when caseless. */
  predicate StandsAt(caseless: bool, s: seq<Byte>, p: nat, needle: seq<Byte>) {
    p + |needle| <= |s| && Agrees(caseless, s, p, needle, 0)
  }

  /** nxt_memcmp and nxt_memcasecmp behind the first byte */
  method Compare(caseless: bool, s: seq<Byte>, p: nat, ss: seq<Byte>, from: nat) returns (same: bool)
    requires p + |ss| <= |s|
    ensures same <==> Agrees(caseless, s, p, ss, from)
  {
    var k := p + from;
    while k < p + |ss|
      invariant p + from <= k
      invariant forall j :: p + from <= j < k && j < p + |ss| ==>
        CaseFold(caseless, s[j]) == CaseFold(caseless, ss[j - p])
    {
      if CaseFold(caseless, s[k]) != CaseFold(caseless, ss[k - p]) {
        return false;
      }
      k := k + 1;
    }
    return true;
  }

  /**
   * nxt_memstrn and nxt_memcasestrn: the first place from `start` where the needle stands, or None if there is none.
   */
  method MemStrn(caseless: bool, s: seq<Byte>, start: nat, ss: seq<Byte>) returns (at: Option<nat>)
    requires ss != [] && start <= |s|
    ensures at.Some? ==> start <= at.value && StandsAt(caseless, s, at.value, ss)
    ensures at.Some? ==> forall p :: start <= p < at.value ==> !StandsAt(caseless, s, p, ss)
    ensures at.None? ==> forall p :: start <= p ==> !StandsAt(caseless, s, p, ss)
  {
    var p := start;
    var c2 := CaseFold(caseless, ss[0]);
    while p < |s|
      invariant start <= p <= |s|
      invariant forall k :: start <= k < p ==> !StandsAt(caseless, s, k, ss)
    {
      if CaseFold(caseless, s[p]) == c2 {
        if p + |ss| > |s| {
          return None;
        }
        var same := Compare(caseless, s, p, ss, 1);
        if same {
          return Some(p);
        }
      }
      p := p + 1;
    }
    return None;
  }

  // ---------- URI escaping

  function HexOf(ch: Byte): nat {
    if 0x30 <= ch <= 0x39 then ch - 0x30
    else if 0x41 <= ch <= 0x46 then ch - 0x41 + 10
    else if 0x61 <= ch <= 0x66 then ch - 0x61 + 10
    else 16
  }

  /** The character of a hexadecimal digit, in either case: '0' is 48, 'A' 65 and 'a' 97. */
  function DigitChar(d: nat, upper: bool): Byte
    requires d < 16
  {
    if d < 10 then 48 + d else if upper then 65 + (d - 10) else 97 + (d - 10)
  }

  /** A character is read as the digit it writes, in either case, and anything else as none. */
  lemma HexOfDigit(ch: Byte, d: nat)
    requires d < 16
    ensures HexOf(ch) == d <==> ch == DigitChar(d, true) || ch == DigitChar(d, false)
    ensures HexOf(ch) <= 16
  {
  }

  /** A percent and two digits, in whatever case, stand for sixteen times the first plus the second. */
  lemma EscapeUnescapes(hi: nat, lo: nat, a: bool, b: bool, rest: seq<Byte>)
    requires hi < 16 && lo < 16
    ensures Unescaped([37, DigitChar(hi, a), DigitChar(lo, b)] + rest) == Then(16 * hi + lo, Unescaped(rest))
  {
    var s := [37, DigitChar(hi, a), DigitChar(lo, b)] + rest;
    HexOfDigit(s[1], hi);
    HexOfDigit(s[2], lo);
    assert s[3..] == rest;
  }

  /** Any other byte stands for itself, and a percent without two digits behind it for nothing. */
  lemma OtherwiseUnescapes(s: seq<Byte>)
    requires s != []
    ensures s[0] != 37 ==> Unescaped(s) == Then(s[0], Unescaped(s[1..]))
    ensures s[0] == 37 && (|s| < 3 || NoDigit(s[1]) || NoDigit(s[2])) ==> Unescaped(s) == None
  {
    if |s| >= 3 && NoDigit(s[1]) && HexOf(s[1]) < 16 {
      HexOfDigit(s[1], HexOf(s[1]));
    }
    if |s| >= 3 && NoDigit(s[2]) && HexOf(s[2]) < 16 {
      HexOfDigit(s[2], HexOf(s[2]));
    }
  }

  predicate NoDigit(ch: Byte) {
    forall d: nat :: d < 16 ==> ch != DigitChar(d, true) && ch != DigitChar(d, false)
  }

  /** The bytes a percent-escaped text stands for; None for a broken escape. */
  function Unescaped(s: seq<Byte>): Option<seq<Byte>> {
    if s == [] then Some([])
    else if s[0] != PERCENT then Then(s[0], Unescaped(s[1..]))
    else if |s| < 3 || HexOf(s[1]) == 16 || HexOf(s[2]) == 16 then None
    else Then(HexOf(s[1]) * 16 + HexOf(s[2]), Unescaped(s[3..]))
  }

  function Then(b: Byte, rest: Option<seq<Byte>>): Option<seq<Byte>> {
    if rest.None? then None else Some([b] + rest.value)
  }

  /** nxt_decode_uri */
  method DecodeUri(src: seq<Byte>) returns (r: Option<seq<Byte>>)
    ensures r == Unescaped(src)
    ensures r.Some? ==> |r.value| <= |src|
  {
    var p, dst: seq<Byte> := 0, [];
    assert src[0..] == src;
    Joined([], Unescaped(src));
    while p < |src|
      invariant 0 <= p <= |src| && |dst| <= p && Unescaped(src) == Join(dst, Unescaped(src[p..]))
      decreases |src| - p
    {
      var ch := src[p];
      ghost var rest := src[p..];
      p := p + 1;
      assert rest[1..] == src[p..];
      if ch == PERCENT {
        if |src| - p < 2 {
          return None;
        }
        var d0, d1 := HexOf(src[p]), HexOf(src[p + 1]);
        if d0 == 16 || d1 == 16 {
          return None;
        }
        p := p + 2;
        ch := d0 * 16 + d1;
        assert rest[3..] == src[p..];
      }
      JoinOne(dst, ch, Unescaped(src[p..]));
      dst := dst + [ch];
    }
    Joined(dst, Unescaped(src[p..]));
    return Some(dst);
  }

  function Join(a: seq<Byte>, r: Option<seq<Byte>>): Option<seq<Byte>> {
    if r.None? then None else Some(a + r.value)
  }

  lemma Joined(a: seq<Byte>, r: Option<seq<Byte>>)
    ensures a == [] ==> Join(a, r) == r
    ensures r == Some([]) ==> Join(a, r) == Some(a)
  {
    if r.Some? {
      assert [] + r.value == r.value && a + [] == a;
    }
  }

  lemma JoinOne(a: seq<Byte>, b: Byte, r: Option<seq<Byte>>)
    ensures Join(a, Then(b, r)) == Join(a + [b], r)
  {
    if r.Some? {
      assert a + ([b] + r.value) == a + [b] + r.value;
    }
  }

  predicate MustEscape(ch: Byte) {
    ch < 0x20 || ch >= 0x7F || ch == 0x20 || ch == 0x23 || ch == 0x25 || ch == 0x3F
  }

  /** The bitmap of the encoder. */
  lemma EscapeTable(ch: bv8)
    ensures var word: bv32 := if ch >> 5 == 0 then 0xffffffff else if ch >> 5 == 1 then 0x80000029
                              else if ch >> 5 == 2 then 0 else if ch >> 5 == 3 then 0x80000000 else 0xffffffff;
      (word >> (ch as bv32 & 0x1f)) & 1 == 1 <==> MustEscape(ch as int)
  {
  }

  function HexChar(d: nat): Byte
    requires d < 16
  {
    if d < 10 then 0x30 + d else 0x41 + d - 10
  }

  function EscapedUri(s: seq<Byte>): seq<Byte> {
    if s == [] then []
    else if MustEscape(s[0]) then
      [PERCENT, HexChar(s[0] as int / 16), HexChar(s[0] as int % 16)] + EscapedUri(s[1..])
    else
      [s[0]] + EscapedUri(s[1..])
  }

  /** nxt_encode_uri, writing pass */
  method EncodeUri(src: seq<Byte>) returns (dst: seq<Byte>)
    ensures dst == EscapedUri(src)
  {
    var p := 0;
    dst := [];
    assert src[0..] == src && [] + EscapedUri(src) == EscapedUri(src);
    while p < |src|
      invariant 0 <= p <= |src| && dst + EscapedUri(src[p..]) == EscapedUri(src)
    {
      assert src[p..][1..] == src[p + 1..];
      ghost var rest := EscapedUri(src[p + 1..]);
      var one: seq<Byte> :=
        if MustEscape(src[p]) then [PERCENT, HexChar(src[p] as int / 16), HexChar(src[p] as int % 16)] else [src[p]];
      assert dst + (one + rest) == dst + one + rest;
      dst := dst + one;
      p := p + 1;
    }
    assert dst + [] == dst;
  }

  /** Decoding what the encoder writes gives any byte string back. */
  lemma {:induction false} EncodeDecodes(s: seq<Byte>)
    ensures Unescaped(EscapedUri(s)) == Some(s)
  {
    if s != [] {
      EncodeDecodes(s[1..]);
      var e, rest := EscapedUri(s), EscapedUri(s[1..]);
      assert s == [s[0]] + s[1..];
      if MustEscape(s[0]) {
        assert e[3..] == rest;
        HexPair(s[0]);
      } else {
        assert e[1..] == rest;
      }
    }
  }

  lemma HexPair(b: Byte)
    ensures var h, l := HexChar(b as int / 16), HexChar(b as int % 16);
      HexOf(h) < 16 && HexOf(l) < 16 && HexOf(h) * 16 + HexOf(l) == b
  {
  }
}
