/** UTF-8 encoding and decoding of src/nxt_utf8.c.  Shifts and masks are written as division and remainder. */
module Utf8 {
  import opened Bytes

  const LIMIT: nat := 0x110000

  /** The bytes of a code point; surrogates are encoded like any other. */
  function Encoded(u: nat): (s: seq<Byte>)
    requires u < LIMIT
    ensures 1 <= |s| <= 4
  {
    if u < 0x80 then [u]
    else if u < 0x800 then [0xC0 + u / 64, 0x80 + u % 64]
    else if u < 0x10000 then [0xE0 + u / 4096, 0x80 + u / 64 % 64, 0x80 + u % 64]
    else [0xF0 + u / 262144, 0x80 + u / 4096 % 64, 0x80 + u / 64 % 64, 0x80 + u % 64]
  }

  /** The masks and ors of the encoder are these sums and remainders. */
  lemma EncoderBits(u: bv32)
    requires u < 0x110000
    ensures u < 0x800 ==> (u >> 6) | 0xC0 == 0xC0 + u / 64
    ensures u < 0x10000 ==> (u >> 12) | 0xE0 == 0xE0 + u / 4096
    ensures (u >> 18) | 0xF0 == 0xF0 + u / 262144
    ensures (u & 0x3F) | 0x80 == 0x80 + u % 64
  {
  }

  lemma EncodedBytes(u: nat)
    requires u < LIMIT
    ensures u % 64 < 64 && u / 64 % 64 < 64 && u / 4096 % 64 < 64 && u / 262144 < 5
    ensures u < 0x80 ==> Encoded(u) == [u]
    ensures 0x80 <= u < 0x800 ==> u / 64 < 32 && Encoded(u) == [0xC0 + u / 64, 0x80 + u % 64]
    ensures 0x800 <= u < 0x10000 ==>
      u / 4096 < 16 && Encoded(u) == [0xE0 + u / 4096, 0x80 + u / 64 % 64, 0x80 + u % 64]
    ensures 0x10000 <= u ==>
      Encoded(u) == [0xF0 + u / 262144, 0x80 + u / 4096 % 64, 0x80 + u / 64 % 64, 0x80 + u % 64]
  {
  }

  function Bits(b: Byte, mark: int): int { b as int - mark }

  /**
   * The table in section 3 of RFC 3629: the marks of the first byte (none, 110, 1110, 11110) and of the others (10),
   * and the bits of the code point behind them, the highest first.
   */
  lemma EncodedTable(u: nat)
    requires u < 0x110000
    ensures var s := Encoded(u);
      if u < 128 then s == [u]
      else if u < 2048 then
        |s| == 2 && 192 <= s[0] < 224 && 128 <= s[1] < 192 && u == Bits(s[0], 192) * 64 + Bits(s[1], 128)
      else if u < 65536 then
        && |s| == 3 && 224 <= s[0] < 240 && 128 <= s[1] < 192 && 128 <= s[2] < 192
        && u == (Bits(s[0], 224) * 64 + Bits(s[1], 128)) * 64 + Bits(s[2], 128)
      else
        && |s| == 4 && 240 <= s[0] < 248 && 128 <= s[1] < 192 && 128 <= s[2] < 192 && 128 <= s[3] < 192
        && u == ((Bits(s[0], 240) * 64 + Bits(s[1], 128)) * 64 + Bits(s[2], 128)) * 64 + Bits(s[3], 128)
  {
    hide Encoded;
    EncodedBytes(u);
    ThreeDigits(u);
  }

  lemma ThreeDigits(u: nat)
    ensures u == u / 64 * 64 + u % 64
    ensures u / 64 == u / 4096 * 64 + u / 64 % 64
    ensures u / 4096 == u / 262144 * 64 + u / 4096 % 64
  {
    assert u / 4096 == u / 64 / 64;
    assert u / 262144 == u / 4096 / 64;
  }

  /** nxt_utf8_encode: writes at `at` and returns the position after, or None beyond the last code point. */
  method Encode(buf: array<Byte>, at: nat, u: nat) returns (end: Option<nat>)
    requires u < LIMIT ==> at + |Encoded(u)| <= buf.Length
    modifies buf
    ensures end.None? <==> u >= LIMIT
    ensures end.None? ==> buf[..] == old(buf[..])
    ensures end.Some? ==> at <= end.value <= buf.Length && buf[at..end.value] == Encoded(u)
    ensures end.Some? ==> buf[..at] == old(buf[..at]) && buf[end.value..] == old(buf[end.value..])
  {
    hide Encoded;
    if u < LIMIT {
      EncodedBytes(u);
    }
    if u < 0x80 {
      buf[at] := u;
      return Some(at + 1);
    }
    if u < 0x800 {
      buf[at] := 0xC0 + u / 64;
      buf[at + 1] := 0x80 + u % 64;
      return Some(at + 2);
    }
    if u < 0x10000 {
      buf[at] := 0xE0 + u / 4096;
      buf[at + 1] := 0x80 + u / 64 % 64;
      buf[at + 2] := 0x80 + u % 64;
      return Some(at + 3);
    }
    if u < LIMIT {
      buf[at] := 0xF0 + u / 262144;
      buf[at + 1] := 0x80 + u / 4096 % 64;
      buf[at + 2] := 0x80 + u / 64 % 64;
      buf[at + 3] := 0x80 + u % 64;
      return Some(at + 4);
    }
    return None;
  }

  /** A code point and the bytes that begin with it. */
  ghost predicate Starts(x: seq<Byte>, u: nat) {
    u < LIMIT && Encoded(u) <= x
  }

  datatype Lead = Lead(bits: nat, overlong: nat, n: nat)

  // What the first byte of a longer sequence announces.
  function LeadOf(b: Byte): (r: Option<Lead>)
    ensures r.Some? <==> 0xC2 <= b <= 0xF4
  {
    if b >= 0xE0 then
      if b >= 0xF0 then
        if b > 0xF4 then None else Some(Lead(b % 8, 0xFFFF, 3))
      else Some(Lead(b % 16, 0x7FF, 2))
    else if b >= 0xC2 then Some(Lead(b % 32, 0x7F, 1))
    else None
  }

  // c - 0x80 in an unsigned byte: values below 0x80 become 0x80 or more.
  function Rel(b: Byte): nat { (b as int + 128) % 256 }

  predicate Tail(b: Byte) { Rel(b) <= 0x3F }

  // Continuation bytes folded into the accumulated bits.
  function Fold(x: seq<Byte>, k: nat, n: nat, u: nat): Option<nat>
    requires k + n <= |x|
    decreases n
  {
    if n == 0 then Some(u)
    else if !Tail(x[k]) then None
    else Fold(x, k + 1, n - 1, u * 64 + Rel(x[k]))
  }

  /** nxt_utf8_decode: the code point at the start of a non-empty text and how many bytes it takes. */
  method Decode(x: seq<Byte>) returns (u: Option<nat>, n: nat)
    requires x != []
    ensures u.Some? ==> Starts(x, u.value) && n == |Encoded(u.value)|
    ensures u.None? ==> n == 0 && forall v :: !Starts(x, v)
  {
    if x[0] < 0x80 {
      assert [x[0]] == Encoded(x[0]);
      return Some(x[0]), 1;
    }
    u, n := DecodeLong(x);
  }

  /** nxt_utf8_decode2 */
  method DecodeLong(x: seq<Byte>) returns (u: Option<nat>, n: nat)
    requires x != [] && x[0] >= 0x80
    ensures u.Some? ==> Starts(x, u.value) && n == |Encoded(u.value)|
    ensures u.None? ==> n == 0 && forall v :: !Starts(x, v)
  {
    var lead := LeadOf(x[0]);
    if lead.None? {
      NoStart(x);
      return None, 0;
    }
    var m := lead.value.n;
    if 1 + m <= |x| {
      var bits := FoldLoop(x, 1, m, lead.value.bits);
      if bits.Some? && lead.value.overlong < bits.value < LIMIT {
        Accepted(x, lead.value, bits.value);
        return bits, 1 + m;
      }
    }
    NoStart(x);
    return None, 0;
  }

  // What DecodeLong tests for.
  predicate Accepts(x: seq<Byte>)
    requires x != []
  {
    LeadOf(x[0]).Some? &&
    var lead := LeadOf(x[0]).value;
    1 + lead.n <= |x| &&
    var bits := Fold(x, 1, lead.n, lead.bits);
    bits.Some? && lead.overlong < bits.value < LIMIT
  }

  lemma NoStart(x: seq<Byte>)
    requires x != [] && x[0] >= 0x80 && !Accepts(x)
    ensures forall v :: !Starts(x, v)
  {
    forall v
      ensures !Starts(x, v)
    {
      if Starts(x, v) {
        Complete(x, v);
      }
    }
  }

  method FoldLoop(x: seq<Byte>, from: nat, count: nat, bits: nat) returns (r: Option<nat>)
    requires from + count <= |x|
    ensures r == Fold(x, from, count, bits)
  {
    var k: nat, n: nat, u: nat := from, count, bits;
    while n != 0
      invariant n <= count && k + n == from + count && Fold(x, k, n, u) == Fold(x, from, count, bits)
    {
      if !Tail(x[k]) {
        return None;
      }
      u := u * 64 + Rel(x[k]);
      k, n := k + 1, n - 1;
    }
    return Some(u);
  }

  // An accepted sequence is the encoding of its code point: no overlong form passes.
  lemma Accepted(x: seq<Byte>, lead: Lead, u: nat)
    requires x != [] && x[0] >= 0x80 && LeadOf(x[0]) == Some(lead)
    requires 1 + lead.n <= |x| && Fold(x, 1, lead.n, lead.bits) == Some(u) && lead.overlong < u < LIMIT
    ensures Starts(x, u) && |Encoded(u)| == 1 + lead.n
  {
    FoldValue(x, lead);
    if lead.n == 1 {
      Accepted2(x, u);
    } else if lead.n == 2 {
      Accepted3(x, u);
    } else {
      Accepted4(x, u);
    }
  }

  lemma FoldValue(x: seq<Byte>, lead: Lead)
    requires 1 <= lead.n <= 3 && 1 + lead.n <= |x|
    ensures Fold(x, 1, lead.n, lead.bits).Some? <==> forall k :: 1 <= k <= lead.n ==> Tail(x[k])
    ensures lead.n == 1 && Tail(x[1]) ==> Fold(x, 1, 1, lead.bits) == Some(lead.bits * 64 + Rel(x[1]))
    ensures lead.n == 2 && Tail(x[1]) && Tail(x[2]) ==>
      Fold(x, 1, 2, lead.bits) == Some((lead.bits * 64 + Rel(x[1])) * 64 + Rel(x[2]))
    ensures lead.n == 3 && Tail(x[1]) && Tail(x[2]) && Tail(x[3]) ==>
      Fold(x, 1, 3, lead.bits) == Some(((lead.bits * 64 + Rel(x[1])) * 64 + Rel(x[2])) * 64 + Rel(x[3]))
  {
    var b := lead.bits;
    assert Fold(x, 1, 1, b) == if Tail(x[1]) then Some(b * 64 + Rel(x[1])) else None;
    if lead.n > 1 {
      var u := b * 64 + Rel(x[1]);
      if Tail(x[1]) {
        assert Fold(x, 2, 1, u) == if Tail(x[2]) then Some(u * 64 + Rel(x[2])) else None;
        assert Fold(x, 1, 2, b) == Fold(x, 2, 1, u);
        if Tail(x[2]) && lead.n > 2 {
          var v := u * 64 + Rel(x[2]);
          assert Fold(x, 3, 1, v) == if Tail(x[3]) then Some(v * 64 + Rel(x[3])) else None;
          assert Fold(x, 2, 2, u) == Fold(x, 3, 1, v);
          assert Fold(x, 1, 3, b) == Fold(x, 2, 2, u);
        }
      }
    }
  }

  lemma Accepted2(x: seq<Byte>, u: nat)
    requires |x| >= 2 && 0xC2 <= x[0] < 0xE0 && Tail(x[1]) && u == x[0] % 32 * 64 + Rel(x[1])
    ensures Starts(x, u) && |Encoded(u)| == 2
  {
    assert x[0] == 0xC0 + x[0] % 32;
    assert u / 64 == x[0] % 32 && u % 64 == Rel(x[1]);
    assert Encoded(u) == x[..2];
  }

  lemma Accepted3(x: seq<Byte>, u: nat)
    requires |x| >= 3 && 0xE0 <= x[0] < 0xF0 && Tail(x[1]) && Tail(x[2])
    requires u == (x[0] % 16 * 64 + Rel(x[1])) * 64 + Rel(x[2]) && u > 0x7FF
    ensures Starts(x, u) && |Encoded(u)| == 3
  {
    hide Encoded, Rel;
    var lead: nat, b, c := x[0] % 16, Rel(x[1]), Rel(x[2]);
    TailByte(x[1]);
    TailByte(x[2]);
    assert x[0] == 0xE0 + lead;
    Digits64(u, lead * 64 + b, c);
    Digits64(lead * 64 + b, lead, b);
    Quotient4096(u, lead, 64 * b + c);
    EncodedBytes(u);
    assert Encoded(u) == x[..3];
  }

  lemma Accepted4(x: seq<Byte>, u: nat)
    requires |x| >= 4 && 0xF0 <= x[0] <= 0xF4 && Tail(x[1]) && Tail(x[2]) && Tail(x[3])
    requires u == ((x[0] % 8 * 64 + Rel(x[1])) * 64 + Rel(x[2])) * 64 + Rel(x[3]) && 0xFFFF < u < LIMIT
    ensures Starts(x, u) && |Encoded(u)| == 4
  {
    hide Encoded, Rel;
    var lead: nat, b, c, d := x[0] % 8, Rel(x[1]), Rel(x[2]), Rel(x[3]);
    TailByte(x[1]);
    TailByte(x[2]);
    TailByte(x[3]);
    assert x[0] == 0xF0 + lead;
    Digits64(u, (lead * 64 + b) * 64 + c, d);
    Digits64((lead * 64 + b) * 64 + c, lead * 64 + b, c);
    Digits64(lead * 64 + b, lead, b);
    Quotient4096(u, lead * 64 + b, 64 * c + d);
    Quotient262144(u, lead, 4096 * b + 64 * c + d);
    EncodedBytes(u);
    assert Encoded(u) == x[..4];
  }

  lemma TailByte(b: Byte)
    requires Tail(b)
    ensures Rel(b) < 64 && b as int == 0x80 + Rel(b)
  {
  }

  lemma Digits64(v: nat, q: nat, r: nat)
    requires v == q * 64 + r && r < 64
    ensures v / 64 == q && v % 64 == r
  {
  }

  // Every encoding of two bytes or more is accepted.
  lemma Complete(x: seq<Byte>, u: nat)
    requires Starts(x, u) && x[0] >= 0x80
    ensures Accepts(x)
    ensures Fold(x, 1, LeadOf(x[0]).value.n, LeadOf(x[0]).value.bits) == Some(u)
  {
    hide Encoded, LeadOf, Rel, Fold;
    TailBits(u);
    if u < 0x800 {
      Bytes2(x, u);
    } else if u < 0x10000 {
      Bytes3(x, u);
    } else {
      Bytes4(x, u);
    }
    FoldValue(x, LeadOf(x[0]).value);
  }

  // The bytes of a code point, by their number.
  lemma Bytes2(x: seq<Byte>, u: nat)
    requires Starts(x, u) && x != [] && x[0] >= 0x80 && u < 0x800
    ensures |x| >= 2 && LeadOf(x[0]) == Some(Lead(u / 64, 0x7F, 1)) && u > 0x7F && Rel(x[1]) == u % 64
  {
    assert x[0] == Encoded(u)[0];
    LeadBits(u);
    assert x[1] == Encoded(u)[1];
    RelOf(u % 64);
  }

  lemma Bytes3(x: seq<Byte>, u: nat)
    requires Starts(x, u) && x != [] && 0x800 <= u < 0x10000
    ensures |x| >= 3 && LeadOf(x[0]) == Some(Lead(u / 4096, 0x7FF, 2))
    ensures Rel(x[1]) == u / 64 % 64 && Rel(x[2]) == u % 64
  {
    assert x[0] == Encoded(u)[0] && x[1] == Encoded(u)[1] && x[2] == Encoded(u)[2];
    LeadBits(u);
    RelOf(u / 64 % 64);
    RelOf(u % 64);
  }

  lemma Bytes4(x: seq<Byte>, u: nat)
    requires Starts(x, u) && x != [] && 0x10000 <= u
    ensures |x| >= 4 && LeadOf(x[0]) == Some(Lead(u / 262144, 0xFFFF, 3))
    ensures Rel(x[1]) == u / 4096 % 64 && Rel(x[2]) == u / 64 % 64 && Rel(x[3]) == u % 64
  {
    assert x[0] == Encoded(u)[0] && x[1] == Encoded(u)[1] && x[2] == Encoded(u)[2] && x[3] == Encoded(u)[3];
    LeadBits(u);
    RelOf(u / 4096 % 64);
    RelOf(u / 64 % 64);
    RelOf(u % 64);
  }

  lemma RelOf(r: nat)
    requires r < 64
    ensures Rel(0x80 + r) == r
  {
  }

  lemma LeadBits(u: nat)
    requires 0x80 <= u < LIMIT
    ensures u < 0x800 ==> LeadOf(Encoded(u)[0]) == Some(Lead(u / 64, 0x7F, 1))
    ensures 0x800 <= u < 0x10000 ==> LeadOf(Encoded(u)[0]) == Some(Lead(u / 4096, 0x7FF, 2))
    ensures 0x10000 <= u ==> LeadOf(Encoded(u)[0]) == Some(Lead(u / 262144, 0xFFFF, 3))
  {
    hide Encoded;
    EncodedBytes(u);
  }

  lemma TailBits(u: nat)
    ensures u / 64 * 64 + u % 64 == u
    ensures (u / 4096 * 64 + u / 64 % 64) * 64 + u % 64 == u
    ensures ((u / 262144 * 64 + u / 4096 % 64) * 64 + u / 64 % 64) * 64 + u % 64 == u
  {
    Divides64(u);
    Divides64(u / 64);
    Divides64(u / 64 / 64);
    Quotient4096(u, u / 64 / 64, 64 * (u / 64 % 64) + u % 64);
    Quotient262144(u, u / 64 / 64 / 64, 4096 * (u / 64 / 64 % 64) + 64 * (u / 64 % 64) + u % 64);
  }

  lemma Divides64(v: nat)
    ensures v / 64 * 64 + v % 64 == v
  {
  }

  lemma Quotient4096(u: nat, q: nat, r: nat)
    requires u == 4096 * q + r && r < 4096
    ensures u / 4096 == q
  {
  }

  lemma Quotient262144(u: nat, q: nat, r: nat)
    requires u == 262144 * q + r && r < 262144
    ensures u / 262144 == q
  {
  }

  /** At most one code point starts a text: encodings are prefix-free. */
  lemma Unambiguous(x: seq<Byte>, u: nat, v: nat)
    requires Starts(x, u) && Starts(x, v)
    ensures u == v
  {
    if x[0] >= 0x80 {
      Complete(x, u);
      Complete(x, v);
    } else {
      assert x[0] == Encoded(u)[0] == Encoded(v)[0];
    }
  }

  // ---------- whole texts

  function EncodeAll(us: seq<nat>): seq<Byte>
    requires forall k :: 0 <= k < |us| ==> us[k] < LIMIT
  {
    if us == [] then [] else Encoded(us[0]) + EncodeAll(us[1..])
  }

  ghost predicate EncodesAs(x: seq<Byte>, us: seq<nat>) {
    (forall k :: 0 <= k < |us| ==> us[k] < LIMIT) && x == EncodeAll(us)
  }

  /** A text encodes at most one sequence of code points. */
  lemma {:induction false} OneReading(x: seq<Byte>, us: seq<nat>, vs: seq<nat>)
    requires EncodesAs(x, us) && EncodesAs(x, vs)
    ensures us == vs
    decreases |us|
  {
    if us != [] && vs != [] {
      Unambiguous(x, us[0], vs[0]);
      var n := |Encoded(us[0])|;
      assert x[n..] == EncodeAll(us[1..]) && x[n..] == EncodeAll(vs[1..]);
      OneReading(x[n..], us[1..], vs[1..]);
    }
  }

  // The first code point of a text is read off its front.
  lemma SplitFirst(x: seq<Byte>, us: seq<nat>)
    requires EncodesAs(x, us) && x != []
    ensures us != [] && Starts(x, us[0]) && EncodesAs(x[|Encoded(us[0])|..], us[1..])
  {
    assert x[|Encoded(us[0])|..] == EncodeAll(us[1..]);
  }

  /** nxt_utf8_length: the number of code points, or -1 exactly when the text is no encoding. */
  method Length(x: seq<Byte>) returns (length: int, ghost us: seq<nat>)
    ensures length >= 0 ==> EncodesAs(x, us) && length == |us|
    ensures length < 0 ==> length == -1 && forall vs :: !EncodesAs(x, vs)
  {
    hide EncodesAs, Continues, Encoded, Starts;
    var p := 0;
    length, us := 0, [];
    NothingRead(x);
    while p < |x|
      invariant 0 <= p <= |x| && length == |us| && EncodesAs(x[..p], us)
      invariant forall vs :: EncodesAs(x, vs) ==> Continues(x, p, us, vs)
    {
      var u, n := Decode(x[p..]);
      if u.None? {
        NoReading(x, p, us);
        return -1, us;
      }
      ReadOne(x, p, us, u.value);
      us := us + [u.value];
      p := p + n;
      length := length + 1;
    }
    assert x[..p] == x;
  }

  // What has been read is the beginning of every reading.
  ghost predicate Continues(x: seq<Byte>, p: nat, us: seq<nat>, vs: seq<nat>)
    requires p <= |x|
  {
    us <= vs && EncodesAs(x[p..], vs[|us|..])
  }

  lemma NothingRead(x: seq<Byte>)
    ensures EncodesAs(x[..0], []) && forall vs :: EncodesAs(x, vs) ==> Continues(x, 0, [], vs)
  {
    forall vs | EncodesAs(x, vs)
      ensures Continues(x, 0, [], vs)
    {
      assert x[0..] == x && vs[0..] == vs;
    }
  }

  lemma NoReading(x: seq<Byte>, p: nat, us: seq<nat>)
    requires p < |x| && (forall vs :: EncodesAs(x, vs) ==> Continues(x, p, us, vs))
    requires forall v :: !Starts(x[p..], v)
    ensures forall vs :: !EncodesAs(x, vs)
  {
    forall vs
      ensures !EncodesAs(x, vs)
    {
      if EncodesAs(x, vs) {
        SplitFirst(x[p..], vs[|us|..]);
      }
    }
  }

  lemma ReadOne(x: seq<Byte>, p: nat, us: seq<nat>, u: nat)
    requires p < |x| && (forall vs :: EncodesAs(x, vs) ==> Continues(x, p, us, vs))
    requires EncodesAs(x[..p], us) && Starts(x[p..], u)
    ensures p + |Encoded(u)| <= |x| && EncodesAs(x[..p + |Encoded(u)|], us + [u])
    ensures forall vs :: EncodesAs(x, vs) ==> Continues(x, p + |Encoded(u)|, us + [u], vs)
  {
    hide Encoded, EncodeAll;
    ReadHere(x, p, us, u);
    forall vs | EncodesAs(x, vs)
      ensures Continues(x, p + |Encoded(u)|, us + [u], vs)
    {
      ReadOn(x, p, us, u, vs);
    }
  }

  lemma ReadHere(x: seq<Byte>, p: nat, us: seq<nat>, u: nat)
    requires p < |x| && EncodesAs(x[..p], us) && Starts(x[p..], u)
    ensures p + |Encoded(u)| <= |x| && EncodesAs(x[..p + |Encoded(u)|], us + [u])
  {
    hide Encoded, EncodeAll;
    AppendOne(us, u);
    assert x[..p + |Encoded(u)|] == x[..p] + x[p..][..|Encoded(u)|];
  }

  lemma ReadOn(x: seq<Byte>, p: nat, us: seq<nat>, u: nat, vs: seq<nat>)
    requires p < |x| && Starts(x[p..], u) && Continues(x, p, us, vs)
    ensures p + |Encoded(u)| <= |x| && Continues(x, p + |Encoded(u)|, us + [u], vs)
  {
    hide Encoded, EncodeAll, EncodesAs;
    var n := |Encoded(u)|;
    NextReading(x[p..], u, vs[|us|..]);
    assert x[p + n..] == x[p..][n..] && vs[|us| + 1..] == vs[|us|..][1..];
  }

  lemma NextReading(x: seq<Byte>, u: nat, vs: seq<nat>)
    requires x != [] && Starts(x, u) && EncodesAs(x, vs)
    ensures vs != [] && vs[0] == u && EncodesAs(x[|Encoded(u)|..], vs[1..])
  {
    SplitFirst(x, vs);
    Unambiguous(x, u, vs[0]);
  }

  lemma {:induction false} AppendOne(us: seq<nat>, u: nat)
    requires (forall k :: 0 <= k < |us| ==> us[k] < LIMIT) && u < LIMIT
    ensures EncodeAll(us + [u]) == EncodeAll(us) + Encoded(u)
  {
    if us == [] {
      assert EncodeAll([u]) == Encoded(u) + EncodeAll([]);
    } else {
      assert (us + [u])[1..] == us[1..] + [u];
      AppendOne(us[1..], u);
    }
  }
}
