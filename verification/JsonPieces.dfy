/** What a JSON string may consist of, written from the code points to the text: section 7 of RFC 8259. */
module JsonPieces {
  import opened Bytes
  import opened Strings
  import opened Utf8
  import opened JsonString

  /** A byte for itself, a one-letter escape, or a code point as \uXXXX or two of them, digits in either case. */
  datatype Piece = Raw(ch: Byte) | Letter(l: Byte) | Point(u: nat, upper: seq<bool>)

  /** The letters behind a backslash: quote, backslash and slash, and b, f, n, r, t. */
  function LetterMeans(l: Byte): Option<Byte> {
    if l == 34 || l == 92 || l == 47 then Some(l)
    else if l == 98 then Some(8)
    else if l == 102 then Some(12)
    else if l == 110 then Some(10)
    else if l == 114 then Some(13)
    else if l == 116 then Some(9)
    else None
  }

  predicate Proper(piece: Piece) {
    match piece
    case Raw(ch) => ch >= 32 && ch != 34 && ch != 92
    case Letter(l) => LetterMeans(l).Some?
    case Point(u, upper) => u < 0x110000 && !(0xD800 <= u <= 0xDFFF) && |upper| == if u < 0x10000 then 4 else 8
  }

  /** The four hexadecimal digits of a number, the highest first. */
  function Hex4(v: nat, upper: seq<bool>): seq<Byte>
    requires v < 0x10000 && |upper| == 4
  {
    [DigitChar(v / 4096, upper[0]), DigitChar(v / 256 % 16, upper[1]), DigitChar(v / 16 % 16, upper[2]),
     DigitChar(v % 16, upper[3])]
  }

  function Escape4(v: nat, upper: seq<bool>): seq<Byte>
    requires v < 0x10000 && |upper| == 4
  {
    [92, 117] + Hex4(v, upper)
  }

  // The surrogates of a code point behind the first plane.
  function Lead16(u: nat): (h: nat)
    requires 0x10000 <= u < 0x110000
    ensures 0xD800 <= h < 0xDC00
  {
    0xD800 + (u - 0x10000) / 1024
  }

  function Trail16(u: nat): (l: nat)
    requires 0x10000 <= u < 0x110000
    ensures 0xDC00 <= l < 0xE000
  {
    0xDC00 + (u - 0x10000) % 1024
  }

  /** The text of a piece. */
  function Written(piece: Piece): (t: seq<Byte>)
    requires Proper(piece)
    ensures t != []
  {
    match piece
    case Raw(ch) => [ch]
    case Letter(l) => [92, l]
    case Point(u, upper) =>
      if u < 0x10000 then Escape4(u, upper)
      else Escape4(Lead16(u), upper[..4]) + Escape4(Trail16(u), upper[4..])
  }

  /** The bytes it stands for. */
  function Means(piece: Piece): seq<Byte>
    requires Proper(piece)
  {
    match piece
    case Raw(ch) => [ch]
    case Letter(l) => [LetterMeans(l).value]
    case Point(u, _) => Encoded(u)
  }

  /** The room the first pass counts for it. */
  function Cost(piece: Piece): (n: nat)
    requires Proper(piece)
    ensures n <= |Written(piece)|
  {
    match piece
    case Point(u, _) => if u < 0x10000 then 3 else 6
    case _ => 1
  }

  ghost predicate AllProper(ps: seq<Piece>) { forall i :: 0 <= i < |ps| ==> Proper(ps[i]) }

  function WrittenAll(ps: seq<Piece>): seq<Byte>
    requires AllProper(ps)
  {
    if ps == [] then [] else Written(ps[0]) + WrittenAll(ps[1..])
  }

  function MeansAll(ps: seq<Piece>): seq<Byte>
    requires AllProper(ps)
  {
    if ps == [] then [] else Means(ps[0]) + MeansAll(ps[1..])
  }

  function CostAll(ps: seq<Piece>): (n: nat)
    requires AllProper(ps)
    ensures n <= |WrittenAll(ps)|
  {
    if ps == [] then 0 else Cost(ps[0]) + CostAll(ps[1..])
  }

  // ---------- one piece is read

  lemma DigitIsRead(ch: Byte, d: nat)
    requires d < 16
    ensures IsHex(ch) && HexValue(ch) == d <==> ch == DigitChar(d, true) || ch == DigitChar(d, false)
  {
  }

  lemma Hex4IsRead(x: seq<Byte>, p: nat, v: nat, upper: seq<bool>)
    requires v < 0x10000 && |upper| == 4 && At(x, p, Hex4(v, upper))
    ensures FourHex(x, p) && HexAt(x, p) == v
  {
    hide HexValue, IsHex, DigitChar;
    var t := Hex4(v, upper);
    assert x[p + 0] == t[0] && x[p + 1] == t[1] && x[p + 2] == t[2] && x[p + 3] == t[3];
    DigitIsRead(x[p], v / 4096);
    DigitIsRead(x[p + 1], v / 256 % 16);
    DigitIsRead(x[p + 2], v / 16 % 16);
    DigitIsRead(x[p + 3], v % 16);
    FourDigits(v);
  }

  lemma FourDigits(v: nat)
    requires v < 0x10000
    ensures ((v / 4096 * 16 + v / 256 % 16) * 16 + v / 16 % 16) * 16 + v % 16 == v
  {
    var a := v / 16;
    var b := a / 16;
    Quotient256(v, b, 16 * (a % 16) + v % 16);
    Quotient4096(v, b / 16, 256 * (b % 16) + 16 * (a % 16) + v % 16);
  }

  lemma TwoStand(x: seq<Byte>, p: nat, a: Byte, b: Byte)
    requires At(x, p, [a, b])
    ensures p + 1 < |x| && x[p] == a && x[p + 1] == b
  {
    var t := [a, b];
    assert x[p + 0] == t[0] && x[p + 1] == t[1];
  }

  lemma Escape4IsRead(x: seq<Byte>, p: nat, v: nat, upper: seq<bool>)
    requires v < 0x10000 && |upper| == 4 && At(x, p, Escape4(v, upper))
    ensures UnitAt(x, p) == JsonString.Code(v) && |Escape4(v, upper)| == 6
  {
    hide Hex4;
    SixLong(v, upper);
    AtSplit(x, p, [92, 117], Hex4(v, upper));
    TwoStand(x, p, 92, 117);
    Hex4IsRead(x, p + 2, v, upper);
  }

  lemma SurrogatesJoin(u: nat)
    requires 0x10000 <= u < 0x110000
    ensures High(Lead16(u)) && Low(Trail16(u)) && Pair(Lead16(u), Trail16(u)) == u
  {
  }

  lemma SixLong(v: nat, upper: seq<bool>)
    requires v < 0x10000 && |upper| == 4
    ensures |Escape4(v, upper)| == 6
  {
  }

  // What the decoder makes of the text before and behind a piece.
  ghost predicate ReadsAs(x: seq<Byte>, p: nat, q: nat, surplus: nat, s: seq<Byte>) {
    && CloseOf(x, p) == Plus(CloseOf(x, q), surplus)
    && (CloseOf(x, p).Some? ==> Meaning(x, p) == Before(s, Meaning(x, q)))
  }

  lemma PieceIsRead(x: seq<Byte>, p: nat, piece: Piece)
    requires Proper(piece) && At(x, p, Written(piece))
    ensures ReadsAs(x, p, p + |Written(piece)|, |Written(piece)| - Cost(piece), Means(piece))
  {
    hide CloseOf, Meaning, UnitAt, Escape4, Encoded, Pair, Escapee;
    CloseUnfolds(x, p);
    if CloseOf(x, p).Some? {
      MeaningUnfolds(x, p);
    }
    match piece
    case Raw(ch) => RawUnit(x, p, ch);
    case Letter(l) => LetterUnit(x, p, l);
    case Point(u, upper) =>
      if u < 0x10000 {
        Escape4IsRead(x, p, u, upper);
      } else {
        SixLong(Lead16(u), upper[..4]);
        SixLong(Trail16(u), upper[4..]);
        PairIsRead(x, p, u, upper);
      }
  }

  lemma RawUnit(x: seq<Byte>, p: nat, ch: Byte)
    requires At(x, p, [ch]) && ch >= 32 && ch != 34 && ch != 92
    ensures UnitAt(x, p) == Plain(ch)
  {
    Standing(x, p, ch);
  }

  lemma LetterUnit(x: seq<Byte>, p: nat, l: Byte)
    requires At(x, p, [92, l]) && LetterMeans(l).Some?
    ensures UnitAt(x, p) == Simple(LetterMeans(l).value)
  {
    TwoStand(x, p, 92, l);
  }

  lemma PairIsRead(x: seq<Byte>, p: nat, u: nat, upper: seq<bool>)
    requires 0x10000 <= u < 0x110000 && |upper| == 8
    requires At(x, p, Escape4(Lead16(u), upper[..4]) + Escape4(Trail16(u), upper[4..]))
    ensures ReadsAs(x, p, p + 12, 6, Encoded(u))
  {
    hide CloseOf, Meaning, UnitAt, Encoded, Pair, Hex4, Lead16, Trail16;
    SixLong(Lead16(u), upper[..4]);
    AtSplit(x, p, Escape4(Lead16(u), upper[..4]), Escape4(Trail16(u), upper[4..]));
    Escape4IsRead(x, p, Lead16(u), upper[..4]);
    Escape4IsRead(x, p + 6, Trail16(u), upper[4..]);
    SurrogatesJoin(u);
    CloseUnfolds(x, p);
    CloseUnfolds(x, p + 6);
    if CloseOf(x, p).Some? {
      MeaningUnfolds(x, p);
    }
  }

  /** Wherever a body of pieces and its closing quote stand, they are read as the pieces' meaning, within their cost. */
  lemma {:induction false} PiecesAreRead(x: seq<Byte>, p: nat, ps: seq<Piece>)
    requires AllProper(ps) && At(x, p, WrittenAll(ps) + [34])
    ensures CloseOf(x, p) == Some(Close(p + |WrittenAll(ps)|, |WrittenAll(ps)| - CostAll(ps)))
    ensures Meaning(x, p) == Some(MeansAll(ps))
    decreases |ps|
  {
    hide CloseOf, Meaning, Written, Means, Cost, At;
    if ps == [] {
      assert [] + [34] == [34];
      ClosesHere(x, p);
    } else {
      var w, rest := Written(ps[0]), WrittenAll(ps[1..]);
      assert (w + rest) + [34] == w + (rest + [34]);
      AtSplit(x, p, w, rest + [34]);
      PieceIsRead(x, p, ps[0]);
      PiecesAreRead(x, p + |w|, ps[1..]);
    }
  }

  // ---------- nothing else is read

  function CaseOf(ch: Byte): bool { ch < 97 }

  lemma HexIsDigit(ch: Byte)
    requires IsHex(ch)
    ensures ch == DigitChar(HexValue(ch), CaseOf(ch))
  {
  }

  lemma HexIsEscape(x: seq<Byte>, p: nat) returns (upper: seq<bool>)
    requires UnitAt(x, p).Code?
    ensures |upper| == 4 && UnitAt(x, p).u < 0x10000 && At(x, p, Escape4(UnitAt(x, p).u, upper))
  {
    hide IsHex, HexAt, Hex4, Escapee;
    upper := HexIsHex4(x, p + 2);
    AtJoin(x, p, [92, 117], Hex4(HexAt(x, p + 2), upper));
  }

  lemma HexIsHex4(x: seq<Byte>, p: nat) returns (upper: seq<bool>)
    requires FourHex(x, p)
    ensures |upper| == 4 && At(x, p, Hex4(HexAt(x, p), upper))
  {
    hide IsHex, HexValue, DigitChar, CaseOf;
    upper := [CaseOf(x[p]), CaseOf(x[p + 1]), CaseOf(x[p + 2]), CaseOf(x[p + 3])];
    HexIsDigit(x[p]);
    HexIsDigit(x[p + 1]);
    HexIsDigit(x[p + 2]);
    HexIsDigit(x[p + 3]);
    HexDigitsOf(HexValue(x[p]), HexValue(x[p + 1]), HexValue(x[p + 2]), HexValue(x[p + 3]));
  }

  lemma HexDigitsOf(a: nat, b: nat, c: nat, d: nat)
    requires a < 16 && b < 16 && c < 16 && d < 16
    ensures var v := ((a * 16 + b) * 16 + c) * 16 + d;
      v < 0x10000 && v / 4096 == a && v / 256 % 16 == b && v / 16 % 16 == c && v % 16 == d
  {
    var v := ((a * 16 + b) * 16 + c) * 16 + d;
    Quotient16(v, (a * 16 + b) * 16 + c, d);
    Quotient16((a * 16 + b) * 16 + c, a * 16 + b, c);
    Quotient16(a * 16 + b, a, b);
    Quotient256(v, a * 16 + b, 16 * c + d);
    Quotient4096(v, a, 256 * b + 16 * c + d);
  }

  lemma Quotient16(v: nat, q: nat, r: nat)
    requires v == 16 * q + r && r < 16
    ensures v / 16 == q && v % 16 == r
  {
  }

  lemma Quotient256(v: nat, q: nat, r: nat)
    requires v == 256 * q + r && r < 256
    ensures v / 256 == q
  {
  }

  lemma FromSurrogates(h: nat, l: nat)
    requires High(h) && Low(l)
    ensures var u := Pair(h, l); 0x10000 <= u < 0x110000 && Lead16(u) == h && Trail16(u) == l
  {
  }

  // The piece that stands at a position of a body that has a meaning.
  lemma PieceAt(x: seq<Byte>, p: nat) returns (piece: Piece)
    requires CloseOf(x, p).Some? && Meaning(x, p).Some? && CloseOf(x, p).value.last != p
    ensures Proper(piece) && At(x, p, Written(piece))
  {
    hide CloseOf, Meaning, Encoded, Pair, Hex4, HexAt;
    CloseUnfolds(x, p);
    MeaningUnfolds(x, p);
    match UnitAt(x, p)
    case Plain(ch) => piece := Raw(ch);
    case Simple(_) => piece := Letter(x[p + 1]);
    case Code(h) =>
      var upper := HexIsEscape(x, p);
      if High(h) {
        piece := PairAt(x, p, h, upper);
      } else {
        piece := Point(h, upper);
      }
  }

  lemma PairAt(x: seq<Byte>, p: nat, h: nat, upper: seq<bool>) returns (piece: Piece)
    requires |upper| == 4 && High(h) && At(x, p, Escape4(h, upper))
    requires UnitAt(x, p + 6).Code? && Low(UnitAt(x, p + 6).u)
    ensures Proper(piece) && At(x, p, Written(piece))
  {
    hide Pair, Hex4, UnitAt, Lead16, Trail16;
    var l := UnitAt(x, p + 6).u;
    var more := HexIsEscape(x, p + 6);
    FromSurrogates(h, l);
    piece := Point(Pair(h, l), upper + more);
    assert (upper + more)[..4] == upper && (upper + more)[4..] == more;
    SixLong(h, upper);
    AtJoin(x, p, Escape4(h, upper), Escape4(l, more));
  }

  /** A body that is read consists of such pieces. */
  lemma {:induction false} BodyIsPieces(x: seq<Byte>, p: nat) returns (ps: seq<Piece>)
    requires CloseOf(x, p).Some? && Meaning(x, p).Some?
    ensures AllProper(ps) && At(x, p, WrittenAll(ps) + [34])
    decreases |x| - p
  {
    hide Meaning, Written, Means, Cost, At, CloseOf;
    if CloseOf(x, p).value.last == p {
      ps := [];
      QuoteHere(x, p);
    } else {
      var piece := PieceAt(x, p);
      var w := Written(piece);
      PieceIsRead(x, p, piece);
      Inside(x, p, w);
      var rest := BodyIsPieces(x, p + |w|);
      ps := [piece] + rest;
      AtJoin(x, p, w, WrittenAll(rest) + [34]);
      assert ps[1..] == rest;
      assert (w + WrittenAll(rest)) + [34] == w + (WrittenAll(rest) + [34]);
    }
  }

  lemma QuoteHere(x: seq<Byte>, p: nat)
    requires CloseOf(x, p).Some? && CloseOf(x, p).value.last == p
    ensures At(x, p, WrittenAll([]) + [34])
  {
    assert WrittenAll([]) + [34] == [34];
  }

  lemma Inside(x: seq<Byte>, p: nat, w: seq<Byte>)
    requires At(x, p, w) && w != []
    ensures p + |w| <= |x| && |x| - (p + |w|) < |x| - p
  {
  }

  /**
   * A string value is read exactly when pieces and two quotes stand there: as the pieces' meaning, inline when they
   * cost at most 14 bytes, and refused when they cost 2 GB or more.
   */
  lemma StringIsPieces(x: seq<Byte>, q: nat, ps: seq<Piece>)
    requires AllProper(ps) && At(x, q, [34] + WrittenAll(ps) + [34])
    ensures q < |x| && x[q] == QUOTE
    ensures StringAt(x, q) ==
      if CostAll(ps) > 0x7FFFFFFF then None
      else Some(Parsed(CostAll(ps) <= 14, MeansAll(ps), q + |WrittenAll(ps)| + 2))
  {
    hide CloseOf, Meaning, WrittenAll, MeansAll, CostAll, At;
    var w := WrittenAll(ps);
    assert [34] + w + [34] == [34] + (w + [34]);
    AtSplit(x, q, [34], w + [34]);
    Standing(x, q, 34);
    PiecesAreRead(x, q + 1, ps);
  }

  lemma StringOnlyPieces(x: seq<Byte>, q: nat) returns (ps: seq<Piece>)
    requires q < |x| && x[q] == QUOTE && StringAt(x, q).Some?
    ensures AllProper(ps) && At(x, q, [34] + WrittenAll(ps) + [34]) && CostAll(ps) <= 0x7FFFFFFF
    ensures StringAt(x, q) == Some(Parsed(CostAll(ps) <= 14, MeansAll(ps), q + |WrittenAll(ps)| + 2))
  {
    hide CloseOf, Meaning, WrittenAll, MeansAll, CostAll;
    ps := BodyIsPieces(x, q + 1);
    var w := WrittenAll(ps);
    AtJoin(x, q, [34], w + [34]);
    assert [34] + w + [34] == [34] + (w + [34]);
    StringIsPieces(x, q, ps);
  }

  // ---------- what the printer writes

  /** The piece a byte is printed as. */
  function PieceOf(ch: Byte): (piece: Piece)
    ensures Proper(piece)
  {
    if ch == 34 || ch == 92 then Letter(ch)
    else if ch == 8 then Letter(98)
    else if ch == 9 then Letter(116)
    else if ch == 10 then Letter(110)
    else if ch == 12 then Letter(102)
    else if ch == 13 then Letter(114)
    else if ch < 32 then Point(ch as nat, [true, true, true, true])
    else Raw(ch)
  }

  function PiecesOf(s: seq<Byte>): (ps: seq<Piece>)
    ensures AllProper(ps)
  {
    if s == [] then [] else [PieceOf(s[0])] + PiecesOf(s[1..])
  }

  lemma ByteIsPiece(ch: Byte)
    ensures EscapedByte(ch) == Written(PieceOf(ch)) && Means(PieceOf(ch)) == [ch]
    ensures Cost(PieceOf(ch)) == if |EscapedByte(ch)| == 6 then 3 else 1
  {
    hide Encoded, Hex4;
    if ch < 32 {
      ControlIsEscape(ch);
    }
  }

  lemma ControlIsEscape(ch: Byte)
    requires ch < 32
    ensures Encoded(ch as nat) == [ch]
    ensures Escape4(ch as nat, [true, true, true, true])
      == [BACKSLASH, LOWER_U, 0x30, 0x30, 0x30 + (ch as int / 16), HexDigit(ch as int % 16)]
  {
  }

  /** The escaper writes one piece for each byte: a letter where there is one, else \u00XX below 32, else the byte. */
  lemma {:induction false} EscapedIsPieces(s: seq<Byte>)
    ensures Escaped(s) == WrittenAll(PiecesOf(s)) && MeansAll(PiecesOf(s)) == s && CostAll(PiecesOf(s)) == Weight(s)
  {
    hide EscapedByte, Written, Means, Cost, PieceOf;
    if s != [] {
      ByteIsPiece(s[0]);
      EscapedIsPieces(s[1..]);
      assert PiecesOf(s)[1..] == PiecesOf(s[1..]);
      assert s == [s[0]] + s[1..];
    }
  }
}
