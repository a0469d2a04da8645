/** The number texts the parser takes: what src/nxt_conf.c:935-1032 accepts, written as a grammar. */
module JsonFigures {
  import opened Bytes
  import opened JsonString
  import opened JsonParse

  /** A letter e (101) or E (69), a sign (43 or 45) if any, and digits. */
  datatype Exponent = Exponent(letter: Byte, sign: Option<Byte>, digits: seq<Byte>)

  /** A minus, digits, a fraction and an exponent.  There may be no digit at all before the fraction. */
  datatype Figure = Figure(minus: bool, whole: seq<Byte>, fraction: Option<seq<Byte>>, exponent: Option<Exponent>)

  predicate AllDigits(t: seq<Byte>) { forall i :: 0 <= i < |t| ==> 48 <= t[i] <= 57 }

  function ExponentText(e: Exponent): seq<Byte> {
    [e.letter] + (if e.sign.Some? then [e.sign.value] else []) + e.digits
  }

  function FractionText(f: Option<seq<Byte>>): seq<Byte> { if f.Some? then [46] + f.value else [] }

  function TailText(e: Option<Exponent>): seq<Byte> { if e.Some? then ExponentText(e.value) else [] }

  /** The text of a figure; 45 is '-', 46 is '.'. */
  function FigureText(f: Figure): seq<Byte> {
    (if f.minus then [45] else []) + f.whole + FractionText(f.fraction) + TailText(f.exponent)
  }

  predicate ExponentProper(e: Exponent) {
    && (e.letter == 101 || e.letter == 69) && (e.sign.Some? ==> e.sign.value == 43 || e.sign.value == 45)
    && e.digits != [] && AllDigits(e.digits)
  }

  /** At most 14 characters, and no leading zero unless there is a minus. */
  predicate FigureProper(f: Figure) {
    && AllDigits(f.whole) && (f.fraction.Some? ==> f.fraction.value != [] && AllDigits(f.fraction.value))
    && (f.exponent.Some? ==> ExponentProper(f.exponent.value))
    && |FigureText(f)| <= 14 && (!f.minus && |f.whole| > 1 ==> f.whole[0] != 48)
  }

  // ---------- a figure is scanned to its end

  // Nothing that could go on with a number.
  predicate Stops(x: seq<Byte>, q: nat) {
    q < |x| ==> !IsDigit(x[q]) && x[q] != DOT && x[q] != 101 && x[q] != 69
  }

  lemma {:induction false} DigitsScanned(x: seq<Byte>, p: nat, t: seq<Byte>)
    requires At(x, p, t) && AllDigits(t)
    ensures p + |t| <= |x| && Digits(x, p) == Digits(x, p + |t|)
    decreases |t|
  {
    if t != [] {
      FirstStands(x, p, t);
      DigitsScanned(x, p + 1, t[1..]);
    }
  }

  lemma {:induction false} WholeScanned(x: seq<Byte>, p: nat, t: seq<Byte>, dot: Option<nat>)
    requires At(x, p, t) && AllDigits(t) && (dot.Some? ==> dot.value <= p)
    ensures p + |t| <= |x| && Mantissa(x, p, dot) == Mantissa(x, p + |t|, dot)
    decreases |t|
  {
    if t != [] {
      FirstStands(x, p, t);
      WholeScanned(x, p + 1, t[1..], dot);
    }
  }

  lemma FirstStands(x: seq<Byte>, p: nat, t: seq<Byte>)
    requires At(x, p, t) && t != []
    ensures p < |x| && x[p] == t[0] && At(x, p + 1, t[1..])
  {
    assert x[p + 0] == t[0];
    forall k | 0 <= k < |t| - 1
      ensures x[p + 1 + k] == t[1..][k]
    {
      assert x[p + (k + 1)] == t[k + 1];
    }
  }

  lemma MantissaScanned(x: seq<Byte>, s: nat, whole: seq<Byte>, fraction: Option<seq<Byte>>)
    requires At(x, s, whole + FractionText(fraction)) && AllDigits(whole)
    requires fraction.Some? ==> AllDigits(fraction.value)
    requires var m := s + |whole| + |FractionText(fraction)|; m < |x| ==> !IsDigit(x[m]) && x[m] != DOT
    ensures var d, m := s + |whole|, s + |whole| + |FractionText(fraction)|;
      m <= |x| && Mantissa(x, s, None) == (m, if fraction.Some? then Some(d) else None)
  {
    AtSplit(x, s, whole, FractionText(fraction));
    WholeScanned(x, s, whole, None);
    if fraction.Some? {
      FirstStands(x, s + |whole|, FractionText(fraction));
      assert FractionText(fraction)[1..] == fraction.value;
      WholeScanned(x, s + |whole| + 1, fraction.value, Some(s + |whole|));
    }
  }

  lemma ExponentScanned(x: seq<Byte>, p: nat, e: Exponent)
    requires ExponentProper(e) && At(x, p, ExponentText(e)) && Stops(x, p + |ExponentText(e)|)
    ensures AtExponent(x, p) && ExponentEnd(x, p + 1) == Some(p + |ExponentText(e)|)
  {
    var sign := if e.sign.Some? then [e.sign.value] else [];
    assert ExponentText(e) == [e.letter] + (sign + e.digits);
    AtSplit(x, p, [e.letter], sign + e.digits);
    AtSplit(x, p + 1, sign, e.digits);
    Standing(x, p, e.letter);
    FirstStands(x, p + 1 + |sign|, e.digits);
    if e.sign.Some? {
      Standing(x, p + 1, e.sign.value);
    }
    DigitsScanned(x, p + 1 + |sign|, e.digits);
  }

  /** Where a figure stands and nothing goes on with it, the scan ends behind it. */
  lemma FigureIsScanned(x: seq<Byte>, p: nat, f: Figure)
    requires FigureProper(f) && At(x, p, FigureText(f)) && Stops(x, p + |FigureText(f)|) && p < |x|
    requires !f.minus ==> x[p] != MINUS
    ensures NumberEnd(x, p) == Some(p + |FigureText(f)|)
  {
    hide Mantissa, ExponentEnd, AtExponent, At, ExponentProper, ExponentText, FractionText;
    var sign := if f.minus then [45] else [];
    var s, body := p + |sign|, f.whole + FractionText(f.fraction);
    var m := s + |body|;
    assert FigureText(f) == sign + (body + TailText(f.exponent));
    AtSplit(x, p, sign, body + TailText(f.exponent));
    AtSplit(x, s, body, TailText(f.exponent));
    if f.minus {
      Standing(x, p, 45);
    }
    BehindMantissa(x, m, f.exponent);
    MantissaScanned(x, s, f.whole, f.fraction);
    ZeroFirst(x, p, f, s);
    LengthsOf(f.fraction);
  }

  lemma LengthsOf(f: Option<seq<Byte>>)
    ensures |FractionText(f)| == if f.Some? then 1 + |f.value| else 0
  {
  }

  lemma BehindMantissa(x: seq<Byte>, m: nat, e: Option<Exponent>)
    requires (e.Some? ==> ExponentProper(e.value)) && At(x, m, TailText(e)) && Stops(x, m + |TailText(e)|)
    ensures m <= |x| && (m < |x| ==> !IsDigit(x[m]) && x[m] != DOT) && (AtExponent(x, m) <==> e.Some?)
    ensures e.Some? ==> ExponentEnd(x, m + 1) == Some(m + |TailText(e)|)
  {
    if e.Some? {
      ExponentScanned(x, m, e.value);
    }
  }

  // The test for a leading zero looks at the first character.
  lemma ZeroFirst(x: seq<Byte>, p: nat, f: Figure, s: nat)
    requires FigureProper(f) && p < |x| && s == p + (if f.minus then 1 else 0)
    requires At(x, s, f.whole + FractionText(f.fraction))
    requires f.minus ==> x[p] == 45
    ensures |f.whole| > 1 ==> x[p] != 48
  {
    if |f.whole| > 1 && !f.minus {
      AtSplit(x, s, f.whole, FractionText(f.fraction));
      FirstStands(x, s, f.whole);
    }
  }

  // ---------- nothing else is

  lemma {:induction false} MantissaShape(x: seq<Byte>, p: nat, dot: Option<nat>)
    requires p <= |x| && (dot.Some? ==> dot.value < p)
    ensures var (m, d) := Mantissa(x, p, dot);
      && p <= m <= |x| && (dot.Some? ==> d == dot) && (dot.None? && d.Some? ==> p <= d.value < m && x[d.value] == 46)
      && (forall k :: p <= k < m && d != Some(k) ==> 48 <= x[k] <= 57)
    decreases |x| - p
  {
    if p < |x| && IsDigit(x[p]) {
      MantissaShape(x, p + 1, dot);
    } else if p < |x| && x[p] == DOT && dot.None? {
      MantissaShape(x, p + 1, Some(p));
    }
  }

  lemma {:induction false} DigitsShape(x: seq<Byte>, p: nat)
    requires p <= |x|
    ensures AllDigits(x[p..Digits(x, p)])
    decreases |x| - p
  {
    if p < |x| && IsDigit(x[p]) {
      DigitsShape(x, p + 1);
      var q := Digits(x, p);
      assert x[p..q] == [x[p]] + x[p + 1..q];
    }
  }

  lemma ExponentOf(x: seq<Byte>, p: nat) returns (e: Exponent)
    requires AtExponent(x, p) && ExponentEnd(x, p + 1).Some?
    ensures ExponentProper(e) && ExponentText(e) == x[p..ExponentEnd(x, p + 1).value]
  {
    var s, q := if AtSign(x, p + 1) then p + 2 else p + 1, ExponentEnd(x, p + 1).value;
    DigitsShape(x, s);
    e := Exponent(x[p], if AtSign(x, p + 1) then Some(x[p + 1]) else None, x[s..q]);
    Pieces(x, p, p, p + 1, s, q);
    assert x[p..p] == [] && x[p..p + 1] == [x[p]];
  }

  /** A scan that succeeds has read a figure. */
  lemma FigureOf(x: seq<Byte>, p: nat) returns (f: Figure)
    requires p < |x| && NumberEnd(x, p).Some?
    ensures FigureProper(f) && FigureText(f) == x[p..NumberEnd(x, p).value] && (f.minus <==> x[p] == 45)
  {
    hide Mantissa, ExponentEnd, AtExponent, ExponentProper, TailText, FractionText;
    var q := NumberEnd(x, p).value;
    var s := if x[p] == MINUS then p + 1 else p;
    var (m, dot) := Mantissa(x, s, None);
    MantissaShape(x, s, None);
    var fraction := FractionOf(x, s, m, dot);
    var exponent := TailOf(x, m, q);
    var d := if dot.Some? then dot.value else m;
    f := Figure(x[p] == MINUS, x[s..d], fraction, exponent);
    Pieces(x, p, s, d, m, q);
    assert x[p..s] == if f.minus then [45] else [];
    assert FigureText(f) == x[p..q];
  }

  lemma Pieces(x: seq<Byte>, p: nat, s: nat, d: nat, m: nat, q: nat)
    requires p <= s <= d <= m <= q <= |x|
    ensures x[p..q] == x[p..s] + x[s..d] + x[d..m] + x[m..q]
  {
    assert x[p..d] == x[p..s] + x[s..d];
    assert x[p..m] == x[p..d] + x[d..m];
    assert x[p..q] == x[p..m] + x[m..q];
  }

  lemma FractionOf(x: seq<Byte>, s: nat, m: nat, dot: Option<nat>) returns (f: Option<seq<Byte>>)
    requires s <= m <= |x| && (dot.Some? ==> s <= dot.value < m - 1 && x[dot.value] == 46)
    requires forall k :: s <= k < m && dot != Some(k) ==> 48 <= x[k] <= 57
    ensures FractionText(f) == x[(if dot.Some? then dot.value else m)..m] && (f.Some? <==> dot.Some?)
    ensures f.Some? ==> f.value != [] && AllDigits(f.value)
  {
    f := if dot.Some? then Some(x[dot.value + 1..m]) else None;
    if dot.Some? {
      assert x[dot.value..m] == [46] + x[dot.value + 1..m];
    }
  }

  lemma TailOf(x: seq<Byte>, m: nat, q: nat) returns (e: Option<Exponent>)
    requires m <= |x|
    requires if AtExponent(x, m) then ExponentEnd(x, m + 1) == Some(q) else q == m
    ensures m <= q <= |x| && TailText(e) == x[m..q] && (e.Some? ==> ExponentProper(e.value))
  {
    hide ExponentEnd, ExponentProper, ExponentText;
    if AtExponent(x, m) {
      var exponent := ExponentOf(x, m);
      e := Some(exponent);
    } else {
      e := None;
    }
  }
}
