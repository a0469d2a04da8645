/**
 * The grammar of the texts src/nxt_conf.c:161-1061 accepts: what a text looks like, white space and all, and what it
 * means.  A text is parsed to a value exactly when it is the text of a document with that value.
 */
module JsonGrammar {
  import opened Bytes
  import opened JsonString
  import opened JsonPrint
  import opened JsonParse
  import opened JsonPieces
  import opened JsonFigures

  /** A value as it is written: a literal, a number, a string, an array or an object. */
  datatype Doc =
    | Word(v: Value)
    | Amount(f: Figure)
    | Quoted(ps: seq<Piece>)
    | List(items: seq<Item>, trailing: bool, close: seq<Byte>)
    | Table(entries: seq<Entry>, trailing: bool, close: seq<Byte>)

  /** An element or a member with the white space around its parts. */
  datatype Item = Item(before: seq<Byte>, doc: Doc, after: seq<Byte>)

  datatype Entry = Entry(before: seq<Byte>, name: seq<Piece>, afterName: seq<Byte>, beforeValue: seq<Byte>, doc: Doc,
    after: seq<Byte>)

  // ---------- the text

  predicate WhiteSpace(w: seq<Byte>) {
    forall k :: 0 <= k < |w| ==> w[k] == 32 || w[k] == 9 || w[k] == 13 || w[k] == 10
  }

  function NameText(ps: seq<Piece>): seq<Byte>
    requires AllProper(ps)
  {
    [34] + WrittenAll(ps) + [34]
  }

  /** What is well-formed by itself; Doable says the rest. */
  ghost predicate Shaped(d: Doc)
    decreases d
  {
    match d
    case Word(v) => v.Null? || v.Bool?
    case Amount(f) => FigureProper(f)
    case Quoted(ps) => AllProper(ps) && CostAll(ps) <= 0x7FFFFFFF
    case List(items, trailing, close) =>
      WhiteSpace(close) && (trailing ==> items != []) && (items != [] && !trailing ==> close == [])
      && forall i :: 0 <= i < |items| ==>
        WhiteSpace(items[i].before) && WhiteSpace(items[i].after) && Shaped(items[i].doc)
    case Table(entries, trailing, close) =>
      WhiteSpace(close) && (trailing ==> entries != []) && (entries != [] && !trailing ==> close == [])
      && forall i :: 0 <= i < |entries| ==> EntryShaped(entries[i])
  }

  ghost predicate EntryShaped(e: Entry)
    decreases e
  {
    && WhiteSpace(e.before) && WhiteSpace(e.afterName) && WhiteSpace(e.beforeValue) && WhiteSpace(e.after)
    && AllProper(e.name) && CostAll(e.name) <= 0x7FFFFFFF && Shaped(e.doc)
  }

  ghost function DocText(d: Doc): seq<Byte>
    requires Shaped(d)
    decreases d, 1
  {
    match d
    case Word(v) =>
      if v.Null? then [110, 117, 108, 108] else if v.b then [116, 114, 117, 101] else [102, 97, 108, 115, 101]
    case Amount(f) => FigureText(f)
    case Quoted(ps) => NameText(ps)
    case List(items, trailing, close) => [91] + ItemsText(items, trailing, close)
    case Table(entries, trailing, close) => [123] + EntriesText(entries, trailing, close)
  }

  // What follows an opening bracket, or a comma.
  ghost function ItemsText(items: seq<Item>, trailing: bool, close: seq<Byte>): seq<Byte>
    requires forall i :: 0 <= i < |items| ==> Shaped(items[i].doc)
    decreases items, 0
  {
    if items == [] then close + [93]
    else
      items[0].before + (DocText(items[0].doc) + (items[0].after
        + if |items| == 1 && !trailing then [93] else [44] + ItemsText(items[1..], trailing, close)))
  }

  ghost function EntriesText(entries: seq<Entry>, trailing: bool, close: seq<Byte>): seq<Byte>
    requires forall i :: 0 <= i < |entries| ==> EntryShaped(entries[i])
    decreases entries, 0
  {
    if entries == [] then close + [125]
    else
      assert EntryShaped(entries[0]) && entries[0].doc < entries[0];
      var e := entries[0];
      e.before + (NameText(e.name) + (e.afterName + ([58] + (e.beforeValue + (DocText(e.doc) + (e.after
        + if |entries| == 1 && !trailing then [125] else [44] + EntriesText(entries[1..], trailing, close)))))))
  }

  // ---------- the value

  ghost function DocValue(d: Doc, env: Env): Value
    requires Shaped(d)
    decreases d, 1
  {
    match d
    case Word(v) => v
    case Amount(f) => if env.number(FigureText(f)).Whole? then Integer(FigureText(f)) else Number(FigureText(f))
    case Quoted(ps) => Str(MeansAll(ps))
    case List(items, _, _) => Arr(ItemValues(items, env))
    case Table(entries, _, _) => Obj(EntryMembers(entries, env))
  }

  ghost function ItemValues(items: seq<Item>, env: Env): (vs: seq<Value>)
    requires forall i :: 0 <= i < |items| ==> Shaped(items[i].doc)
    ensures |vs| == |items|
    decreases items, 0
  {
    if items == [] then [] else [DocValue(items[0].doc, env)] + ItemValues(items[1..], env)
  }

  ghost function EntryMembers(entries: seq<Entry>, env: Env): (ms: seq<Member>)
    requires forall i :: 0 <= i < |entries| ==> EntryShaped(entries[i])
    ensures |ms| == |entries|
    decreases entries, 0
  {
    if entries == [] then []
    else
      assert EntryShaped(entries[0]) && entries[0].doc < entries[0];
      [Member(MeansAll(entries[0].name), DocValue(entries[0].doc, env))] + EntryMembers(entries[1..], env)
  }

  // ---------- what may follow

  /** A number ends at white space, at a comma, a bracket, a brace or a quote, or with the text. */
  predicate EndsNumber(ch: Byte) {
    || ch == 32 || ch == 9 || ch == 13 || ch == 10
    || ch == 44 || ch == 125 || ch == 93 || ch == 123 || ch == 91 || ch == 34
  }

  // How a number begins: with a character up to '9' but no quote, and so does what follows a minus.
  predicate Leads(t: seq<Byte>, next: Option<Byte>) {
    var all := t + if next.Some? then [next.value] else [];
    && all != [] && all[0] <= 57 && all[0] != 34
    && (all[0] == 45 ==> |all| > 1 && all[1] <= 57)
  }

  // What an element or a member's value begins with is no white space, and no bracket that closes an array.
  predicate Begins(t: seq<Byte>, next: Byte, closes: bool) {
    var ch := (t + [next])[0];
    !WhiteSpace([ch]) && !(closes && ch == 93)
  }

  function NextOf(after: seq<Byte>, next: Byte): Byte { if after == [] then next else after[0] }

  /** A document the parser takes, given what follows it. */
  ghost predicate Doable(d: Doc, next: Option<Byte>, env: Env)
    requires Shaped(d)
    decreases d, 1
  {
    match d
    case Amount(f) =>
      !env.number(FigureText(f)).Refused? && Leads(FigureText(f), next) && (next.Some? ==> EndsNumber(next.value))
    case List(items, trailing, _) => ItemsDoable(items, trailing, env)
    case Table(entries, trailing, _) => EntriesDoable(entries, trailing, {}, env)
    case _ => true
  }

  ghost predicate ItemsDoable(items: seq<Item>, trailing: bool, env: Env)
    requires forall i :: 0 <= i < |items| ==> Shaped(items[i].doc)
    decreases items, 0
  {
    items != [] ==>
      var i := items[0];
      var next := NextOf(i.after, if |items| == 1 && !trailing then 93 else 44);
      Doable(i.doc, Some(next), env) && Begins(DocText(i.doc), next, true) && ItemsDoable(items[1..], trailing, env)
  }

  // No name is repeated.
  ghost predicate EntriesDoable(entries: seq<Entry>, trailing: bool, seen: set<seq<Byte>>, env: Env)
    requires forall i :: 0 <= i < |entries| ==> EntryShaped(entries[i])
    decreases entries, 0
  {
    entries != [] ==>
      assert EntryShaped(entries[0]) && entries[0].doc < entries[0];
      var e := entries[0];
      var next := NextOf(e.after, if |entries| == 1 && !trailing then 125 else 44);
      MeansAll(e.name) !in seen && Doable(e.doc, Some(next), env) && Begins(DocText(e.doc), next, false)
      && EntriesDoable(entries[1..], trailing, seen + {MeansAll(e.name)}, env)
  }

  function NextAt(x: seq<Byte>, q: nat): Option<Byte> { if q < |x| then Some(x[q]) else None }

  // ---------- every such text is read

  /** Where the text of a document stands and what follows it suits, the document's value is read. */
  lemma {:induction false} DocIsRead(x: seq<Byte>, p: nat, d: Doc, env: Env)
    requires Shaped(d) && p < |x| && At(x, p, DocText(d)) && Doable(d, NextAt(x, p + |DocText(d)|), env)
    ensures ParseValue(x, p, env) == Some((DocValue(d, env), p + |DocText(d)|))
    decreases d, 2
  {
    hide ItemsText, EntriesText, ItemValues, EntryMembers, ItemsDoable, EntriesDoable, At, ParseValue, ParseElements;
    hide ParseMembers, FigureProper, FigureText, Leads, EndsNumber, NameText, AllProper, CostAll, MeansAll, WhiteSpace;
    match d
    case Word(v) => WordIsRead(x, p, v, env);
    case Amount(f) => AmountIsRead(x, p, f, env);
    case Quoted(ps) => QuotedIsRead(x, p, ps, env);
    case List(items, trailing, close) =>
      AtSplit(x, p, [91], ItemsText(items, trailing, close));
      Standing(x, p, 91);
      ItemsAreRead(x, p, items, trailing, close, env);
      ArrayValue(x, p, env);
    case Table(entries, trailing, close) =>
      AtSplit(x, p, [123], EntriesText(entries, trailing, close));
      Standing(x, p, 123);
      EntriesAreRead(x, p, entries, trailing, close, {}, env);
      ObjectValue(x, p, env);
  }

  lemma WordIsRead(x: seq<Byte>, p: nat, v: Value, env: Env)
    requires Shaped(Word(v)) && p < |x| && At(x, p, DocText(Word(v)))
    ensures ParseValue(x, p, env) == Some((v, p + |DocText(Word(v))|))
  {
    assert x[p + 0] == DocText(Word(v))[0];
  }

  lemma QuotedIsRead(x: seq<Byte>, p: nat, ps: seq<Piece>, env: Env)
    requires Shaped(Doc.Quoted(ps)) && p < |x| && At(x, p, NameText(ps))
    ensures ParseValue(x, p, env) == Some((Str(MeansAll(ps)), p + |NameText(ps)|))
  {
    hide WrittenAll, MeansAll, CostAll, At, StringAt;
    StringIsPieces(x, p, ps);
  }

  lemma AmountIsRead(x: seq<Byte>, p: nat, f: Figure, env: Env)
    requires FigureProper(f) && p < |x| && At(x, p, FigureText(f))
    requires Doable(Amount(f), NextAt(x, p + |FigureText(f)|), env)
    ensures ParseValue(x, p, env) == Some((DocValue(Amount(f), env), p + |FigureText(f)|))
  {
    hide FigureProper, FigureText, NumberEnd;
    var t := FigureText(f);
    FirstOf(x, p, f);
    FigureIsScanned(x, p, f);
    assert x[p..p + |t|] == t;
  }

  // What stands first in a figure, or behind an empty one.
  lemma FirstOf(x: seq<Byte>, p: nat, f: Figure)
    requires FigureProper(f) && p < |x| && At(x, p, FigureText(f))
    requires var next := NextAt(x, p + |FigureText(f)|);
      Leads(FigureText(f), next) && (next.Some? ==> EndsNumber(next.value))
    ensures x[p] <= 57 && x[p] != 34 && (x[p] == 45 <==> f.minus) && Stops(x, p + |FigureText(f)|)
    ensures x[p] == 45 ==> p + 1 < |x| && x[p + 1] <= 57
    ensures var q := p + |FigureText(f)|; q < |x| ==> Terminates(x[q])
  {
    var t := FigureText(f);
    if |t| > 0 {
      assert x[p + 0] == t[0];
    }
    if |t| > 1 {
      assert x[p + 1] == t[1];
    }
  }

  /** The rest of an array: p is at the opening bracket or at a comma. */
  lemma {:induction false} ItemsAreRead(x: seq<Byte>, p: nat, items: seq<Item>, trailing: bool, close: seq<Byte>,
      env: Env)
    requires p < |x| && WhiteSpace(close) && (items != [] && !trailing ==> close == [])
    requires forall i :: 0 <= i < |items| ==>
      WhiteSpace(items[i].before) && WhiteSpace(items[i].after) && Shaped(items[i].doc)
    requires ItemsDoable(items, trailing, env) && At(x, p + 1, ItemsText(items, trailing, close))
    ensures ParseElements(x, p, env) == Some((ItemValues(items, env), p + 1 + |ItemsText(items, trailing, close)|))
    decreases items, 1
  {
    hide At, ParseValue, ParseElements, Skip, Shaped, Doable, DocText, DocValue, ItemsText, ItemValues, ItemsDoable;
    hide WhiteSpace, Begins;
    ItemsUnfold(items, trailing, close, env);
    if items == [] {
      ClosingIsRead(x, p, close, env);
    } else {
      var i, more := items[0], |items| > 1 || trailing;
      var t, ch := DocText(i.doc), if more then 44 else 93;
      var rest := if more then ItemsText(items[1..], trailing, close) else [];
      var q := p + 1 + |i.before|;
      var e := q + |t|;
      ItemStands(x, p + 1, i.before, t, i.after, ch, rest, true);
      DocIsRead(x, q, i.doc, env);
      var r := e + |i.after|;
      if more {
        ItemsAreRead(x, r, items[1..], trailing, close, env);
      }
      OneElement(x, p, q, DocValue(i.doc, env), e, r, env);
      assert [DocValue(i.doc, env)] + [] == [DocValue(i.doc, env)];
    }
  }

  lemma ItemsUnfold(items: seq<Item>, trailing: bool, close: seq<Byte>, env: Env)
    requires forall i :: 0 <= i < |items| ==> Shaped(items[i].doc)
    requires ItemsDoable(items, trailing, env)
    ensures items == [] ==> ItemsText(items, trailing, close) == close + [93] && ItemValues(items, env) == []
    ensures items != [] ==>
      var i, more := items[0], |items| > 1 || trailing;
      var ch, rest := if more then 44 else 93, if more then ItemsText(items[1..], trailing, close) else [];
      ItemsText(items, trailing, close) == i.before + (DocText(i.doc) + (i.after + ([ch] + rest)))
      && ItemValues(items, env) == [DocValue(i.doc, env)] + ItemValues(items[1..], env)
      && Doable(i.doc, Some(NextOf(i.after, ch)), env) && Begins(DocText(i.doc), NextOf(i.after, ch), true)
      && ItemsDoable(items[1..], trailing, env)
      && (!more ==> ItemValues(items[1..], env) == [])
  {
    hide Doable, Begins, DocText, Shaped;
  }

  lemma ClosingIsRead(x: seq<Byte>, p: nat, close: seq<Byte>, env: Env)
    requires p < |x| && WhiteSpace(close) && At(x, p + 1, close + [93])
    ensures var end: nat := p + 1 + |close + [93]|; ParseElements(x, p, env) == Some(([], end))
  {
    hide At, Skip, ParseValue;
    AtSplit(x, p + 1, close, [93]);
    SpacesThen(x, p + 1, close, 93);
  }

  // White space, a document, white space and a character behind it.
  lemma ItemStands(x: seq<Byte>, s: nat, before: seq<Byte>, t: seq<Byte>, after: seq<Byte>, ch: Byte, rest: seq<Byte>,
      closes: bool)
    requires WhiteSpace(before) && WhiteSpace(after) && ch != 32 && ch != 9 && ch != 13 && ch != 10
    requires At(x, s, before + (t + (after + ([ch] + rest)))) && Begins(t, NextOf(after, ch), closes)
    ensures var q := s + |before|;
      var e := q + |t|;
      && At(x, q, t) && q < |x| && Skip(x, s) == q && NextAt(x, e) == Some(NextOf(after, ch))
      && Skip(x, e) == e + |after| && e + |after| < |x| && x[e + |after|] == ch && At(x, e + |after| + 1, rest)
      && !IsSpace(x[q]) && (closes ==> x[q] != 93)
  {
    hide At, Skip;
    var q := s + |before|;
    var e := q + |t|;
    AtSplit(x, s, before, t + (after + ([ch] + rest)));
    AtSplit(x, q, t, after + ([ch] + rest));
    AtSplit(x, e, after, [ch] + rest);
    AtSplit(x, e + |after|, [ch], rest);
    SpacesThen(x, e, after, ch);
    FirstAt(x, e, after, ch);
    FirstAt(x, q, t, NextOf(after, ch));
    SkipSpaces(x, s, before);
  }

  lemma FirstAt(x: seq<Byte>, p: nat, t: seq<Byte>, next: Byte)
    requires At(x, p, t) && p + |t| < |x| && (t == [] ==> x[p] == next)
    ensures p < |x| && x[p] == (t + [next])[0]
  {
    if t != [] {
      assert x[p + 0] == t[0];
    }
  }

  /** The rest of an object: p is at the opening brace or at a comma. */
  lemma {:induction false} EntriesAreRead(x: seq<Byte>, p: nat, entries: seq<Entry>, trailing: bool, close: seq<Byte>,
      seen: set<seq<Byte>>, env: Env)
    requires p < |x| && WhiteSpace(close) && (entries != [] && !trailing ==> close == [])
    requires forall i :: 0 <= i < |entries| ==> EntryShaped(entries[i])
    requires EntriesDoable(entries, trailing, seen, env) && At(x, p + 1, EntriesText(entries, trailing, close))
    ensures ParseMembers(x, p, seen, env)
      == Some((EntryMembers(entries, env), p + 1 + |EntriesText(entries, trailing, close)|))
    decreases entries, 1
  {
    hide At, ParseValue, ParseMembers, ParseMember, Skip, Shaped, Doable, DocText, DocValue, EntryText, EntriesText;
    hide EntryMembers, EntriesDoable, WhiteSpace, Begins;
    EntriesUnfold(entries, trailing, close, seen, env);
    if entries == [] {
      BraceIsRead(x, p, close, seen, env);
    } else {
      var e, more := entries[0], |entries| > 1 || trailing;
      var ch := if more then 44 else 125;
      var rest := if more then EntriesText(entries[1..], trailing, close) else [];
      var m := Member(MeansAll(e.name), DocValue(e.doc, env));
      var q := p + 1 + |e.before|;
      var r := q + |EntryText(e)|;
      ToEntry(x, p + 1, e, ch, rest);
      EntryIsRead(x, q, e, ch, rest, seen, env);
      if more {
        EntriesAreRead(x, r, entries[1..], trailing, close, seen + {m.name}, env);
      }
      OneRound(x, p, q, m, r, seen, env);
      assert [m] + [] == [m];
    }
  }

  // From a member's name to what follows its value.
  ghost function EntryText(e: Entry): seq<Byte>
    requires EntryShaped(e)
  {
    NameText(e.name) + (e.afterName + ([58] + (e.beforeValue + (DocText(e.doc) + e.after))))
  }

  lemma EntriesUnfold(entries: seq<Entry>, trailing: bool, close: seq<Byte>, seen: set<seq<Byte>>, env: Env)
    requires forall i :: 0 <= i < |entries| ==> EntryShaped(entries[i])
    requires EntriesDoable(entries, trailing, seen, env)
    ensures entries == [] ==>
      EntriesText(entries, trailing, close) == close + [125] && EntryMembers(entries, env) == []
    ensures entries != [] ==>
      assert EntryShaped(entries[0]);
      var e, more := entries[0], |entries| > 1 || trailing;
      var ch, rest := if more then 44 else 125, if more then EntriesText(entries[1..], trailing, close) else [];
      var name := MeansAll(e.name);
      EntriesText(entries, trailing, close) == e.before + (EntryText(e) + ([ch] + rest))
      && EntryMembers(entries, env) == [Member(name, DocValue(e.doc, env))] + EntryMembers(entries[1..], env)
      && name !in seen && Doable(e.doc, Some(NextOf(e.after, ch)), env)
      && Begins(DocText(e.doc), NextOf(e.after, ch), false)
      && EntriesDoable(entries[1..], trailing, seen + {name}, env)
      && (!more ==> EntryMembers(entries[1..], env) == [])
  {
    hide Doable, Begins, DocText, Shaped, NameText, MeansAll;
    if entries != [] {
      assert EntryShaped(entries[0]);
      var e, more := entries[0], |entries| > 1 || trailing;
      var ch, rest := if more then 44 else 125, if more then EntriesText(entries[1..], trailing, close) else [];
      EntrySplits(e, [ch] + rest);
    }
  }

  lemma EntrySplits(e: Entry, z: seq<Byte>)
    requires EntryShaped(e)
    ensures EntryText(e) + z == NameText(e.name)
      + (e.afterName + ([58] + (e.beforeValue + (DocText(e.doc) + (e.after + z)))))
  {
    hide DocText, NameText, WhiteSpace;
    var t := DocText(e.doc);
    var v := t + e.after;
    assert v + z == t + (e.after + z);
    var c := [58] + (e.beforeValue + v);
    assert c + z == [58] + (e.beforeValue + (v + z));
    assert (e.afterName + c) + z == e.afterName + (c + z);
  }

  lemma BraceIsRead(x: seq<Byte>, p: nat, close: seq<Byte>, seen: set<seq<Byte>>, env: Env)
    requires p < |x| && WhiteSpace(close) && At(x, p + 1, close + [125])
    ensures var end: nat := p + 1 + |close + [125]|; ParseMembers(x, p, seen, env) == Some(([], end))
  {
    hide At, Skip, ParseMember;
    AtSplit(x, p + 1, close, [125]);
    SpacesThen(x, p + 1, close, 125);
  }

  // The white space before a name.
  lemma ToEntry(x: seq<Byte>, s: nat, e: Entry, ch: Byte, rest: seq<Byte>)
    requires EntryShaped(e) && At(x, s, e.before + (EntryText(e) + ([ch] + rest)))
    ensures var q := s + |e.before|;
      Skip(x, s) == q < |x| && x[q] == 34 && At(x, q, EntryText(e) + ([ch] + rest))
      && q + |EntryText(e)| < |x| && x[q + |EntryText(e)|] == ch && At(x, q + |EntryText(e)| + 1, rest)
  {
    hide At, Skip, DocText, Shaped, WrittenAll, CostAll;
    var q, t := s + |e.before|, EntryText(e);
    AtSplit(x, s, e.before, t + ([ch] + rest));
    AtSplit(x, q, t, [ch] + rest);
    AtSplit(x, q + |t|, [ch], rest);
    Standing(x, q + |t|, ch);
    QuoteFirst(x, q, e);
    SpacesThen(x, s, e.before, 34);
  }

  lemma QuoteFirst(x: seq<Byte>, q: nat, e: Entry)
    requires EntryShaped(e) && At(x, q, EntryText(e))
    ensures At(x, q, [34])
  {
    hide DocText, Shaped;
    var t := EntryText(e);
    assert t == [34] + t[1..];
    AtSplit(x, q, [34], t[1..]);
  }

  lemma EntryIsRead(x: seq<Byte>, q: nat, e: Entry, ch: Byte, rest: seq<Byte>, seen: set<seq<Byte>>, env: Env)
    requires EntryShaped(e) && q < |x| && x[q] == 34 && At(x, q, EntryText(e) + ([ch] + rest))
    requires MeansAll(e.name) !in seen && (ch == 44 || ch == 125)
    requires Doable(e.doc, Some(NextOf(e.after, ch)), env) && Begins(DocText(e.doc), NextOf(e.after, ch), false)
    ensures ParseMember(x, q, seen, env)
      == Some((Member(MeansAll(e.name), DocValue(e.doc, env)), q + |EntryText(e)|))
    decreases e, 3
  {
    hide At, ParseValue, ParseMember, Skip, Shaped, Doable, DocText, DocValue, WhiteSpace, Begins, MeansAll, StringAt;
    hide AllProper, CostAll, EntryText, NextOf, NextAt;
    var c, s := EntryStands(x, q, e, ch, rest);
    var r := s + |DocText(e.doc)|;
    DocIsRead(x, s, e.doc, env);
    OneMember(x, q, MeansAll(e.name), c, s, DocValue(e.doc, env), r, r + |e.after|, seen, env);
  }

  // Where the colon and the value of a member are.
  lemma EntryStands(x: seq<Byte>, q: nat, e: Entry, ch: Byte, rest: seq<Byte>) returns (c: nat, s: nat)
    requires EntryShaped(e) && q < |x| && x[q] == 34 && At(x, q, EntryText(e) + ([ch] + rest))
    requires ch == 44 || ch == 125
    requires Begins(DocText(e.doc), NextOf(e.after, ch), false)
    ensures StringAt(x, q).Some? && StringAt(x, q).value.bytes == MeansAll(e.name)
    ensures Skip(x, StringAt(x, q).value.next) == c < |x| && x[c] == 58 && Skip(x, c + 1) == s < |x|
    ensures At(x, s, DocText(e.doc)) && NextAt(x, s + |DocText(e.doc)|) == Some(NextOf(e.after, ch))
    ensures var r := s + |DocText(e.doc)| + |e.after|;
      Skip(x, s + |DocText(e.doc)|) == r < |x| && r == q + |EntryText(e)|
  {
    hide At, Skip, Shaped, DocText, NameText, WhiteSpace, Begins, MeansAll, StringAt, AllProper, CostAll, EntryText;
    hide NextOf, NextAt, EntryShaped;
    Parts(e);
    EntryCut(x, q, e, ch, rest);
    NameIsRead(x, q, e.name);
    c, s := ValueStands(x, q + |NameText(e.name)|, e.afterName, e.beforeValue, DocText(e.doc), e.after, ch, rest);
  }

  // White space, the colon, white space, a value's text, white space and a character behind it.
  lemma ValueStands(x: seq<Byte>, n: nat, v: seq<Byte>, w: seq<Byte>, t: seq<Byte>, after: seq<Byte>, ch: Byte,
      rest: seq<Byte>) returns (c: nat, s: nat)
    requires At(x, n, v + ([58] + (w + (t + (after + ([ch] + rest))))))
    requires WhiteSpace(v) && WhiteSpace(w) && WhiteSpace(after) && (ch == 44 || ch == 125)
    requires Begins(t, NextOf(after, ch), false)
    ensures c == n + |v| && Skip(x, n) == c < |x| && x[c] == 58 && s == c + 1 + |w| && Skip(x, c + 1) == s < |x|
    ensures At(x, s, t) && NextAt(x, s + |t|) == Some(NextOf(after, ch))
    ensures Skip(x, s + |t|) == s + |t| + |after| < |x|
  {
    hide At, Skip, WhiteSpace, Begins, NextOf, NextAt, IsSpace;
    c := n + |v|;
    s := c + 1 + |w|;
    ColonIsRead(x, n, v, w + (t + (after + ([ch] + rest))));
    ItemStands(x, c + 1, w, t, after, ch, rest, false);
  }

  lemma Parts(e: Entry)
    requires EntryShaped(e)
    ensures WhiteSpace(e.before) && WhiteSpace(e.afterName) && WhiteSpace(e.beforeValue) && WhiteSpace(e.after)
    ensures AllProper(e.name) && CostAll(e.name) <= 0x7FFFFFFF && Shaped(e.doc)
  {
    hide WhiteSpace, AllProper, CostAll, Shaped;
  }

  lemma EntryCut(x: seq<Byte>, q: nat, e: Entry, ch: Byte, rest: seq<Byte>)
    requires EntryShaped(e) && At(x, q, EntryText(e) + ([ch] + rest))
    ensures At(x, q, NameText(e.name))
    ensures At(x, q + |NameText(e.name)|,
      e.afterName + ([58] + (e.beforeValue + (DocText(e.doc) + (e.after + ([ch] + rest))))))
    ensures |EntryText(e)|
      == |NameText(e.name)| + |e.afterName| + 1 + |e.beforeValue| + |DocText(e.doc)| + |e.after|
  {
    hide At, Shaped, DocText, NameText;
    EntrySplits(e, [ch] + rest);
    AtSplit(x, q, NameText(e.name),
      e.afterName + ([58] + (e.beforeValue + (DocText(e.doc) + (e.after + ([ch] + rest))))));
  }

  lemma NameIsRead(x: seq<Byte>, q: nat, name: seq<Piece>)
    requires AllProper(name) && CostAll(name) <= 0x7FFFFFFF && At(x, q, NameText(name)) && q < |x| && x[q] == 34
    ensures var r := StringAt(x, q);
      r.Some? && r.value.bytes == MeansAll(name) && r.value.next == q + |NameText(name)|
  {
    hide WrittenAll, MeansAll, CostAll, At, StringAt;
    StringIsPieces(x, q, name);
  }

  lemma ColonIsRead(x: seq<Byte>, n: nat, w: seq<Byte>, rest: seq<Byte>)
    requires At(x, n, w + ([58] + rest)) && WhiteSpace(w)
    ensures var c := n + |w|; Skip(x, n) == c < |x| && x[c] == 58 && At(x, c + 1, rest)
  {
    hide At, Skip;
    AtSplit(x, n, w, [58] + rest);
    AtSplit(x, n + |w|, [58], rest);
    SpacesThen(x, n, w, 58);
  }

  // ---------- nothing else is read

  lemma {:induction false} SkipShape(x: seq<Byte>, p: nat)
    requires p <= |x|
    ensures WhiteSpace(x[p..Skip(x, p)]) && (Skip(x, p) < |x| ==> !IsSpace(x[Skip(x, p)]))
    decreases |x| - p
  {
    if p < |x| && IsSpace(x[p]) {
      SkipShape(x, p + 1);
      assert x[p..Skip(x, p)] == [x[p]] + x[p + 1..Skip(x, p)];
    }
  }

  lemma Cut(x: seq<Byte>, p: nat, q: nat)
    requires p <= q <= |x|
    ensures At(x, p, x[p..q])
  {
  }

  lemma AtNothing(x: seq<Byte>, r: nat)
    requires r <= |x|
    ensures At(x, r, [])
  {
  }

  // The white space from p on and the character behind it.
  lemma SpaceOf(x: seq<Byte>, p: nat, ch: Byte) returns (w: seq<Byte>)
    requires p <= |x| && Skip(x, p) < |x| && x[Skip(x, p)] == ch
    ensures WhiteSpace(w) && At(x, p, w) && At(x, p + |w|, [ch]) && Skip(x, p) == p + |w|
    ensures Some(NextOf(w, ch)) == NextAt(x, p)
  {
    w := x[p..Skip(x, p)];
    SkipShape(x, p);
    Cut(x, p, Skip(x, p));
  }

  /** Where a value is read, the text of a document stands. */
  lemma {:induction false} DocOf(x: seq<Byte>, p: nat, env: Env) returns (d: Doc)
    requires p < |x| && ParseValue(x, p, env).Some?
    ensures Shaped(d) && At(x, p, DocText(d)) && Doable(d, NextAt(x, p + |DocText(d)|), env)
    ensures ParseValue(x, p, env) == Some((DocValue(d, env), p + |DocText(d)|))
    decreases |x| - p, 1
  {
    hide ParseElements, ParseMembers, ParseNumber, StringAt, At, ItemsText, EntriesText, FigureText, WrittenAll;
    hide ItemsDoable, EntriesDoable, FigureProper, DocValue, CostAll, AllProper;
    var ch := x[p];
    if ch == 123 {
      var entries, trailing, close := EntriesOf(x, p, {}, env);
      d := Table(entries, trailing, close);
      Cut(x, p, p + 1);
      AtJoin(x, p, [123], EntriesText(entries, trailing, close));
    } else if ch == 91 {
      var items, trailing, close := ItemsOf(x, p, env);
      d := List(items, trailing, close);
      Cut(x, p, p + 1);
      AtJoin(x, p, [91], ItemsText(items, trailing, close));
    } else if ch == 34 {
      var ps := StringOnlyPieces(x, p);
      d := Doc.Quoted(ps);
    } else if ch == 116 || ch == 102 || ch == 110 {
      d := WordOf(x, p, env);
    } else {
      var f := AmountOf(x, p, env);
      d := Amount(f);
    }
    DocIsRead(x, p, d, env);
  }

  lemma WordOf(x: seq<Byte>, p: nat, env: Env) returns (d: Doc)
    requires p < |x| && ParseValue(x, p, env).Some? && (x[p] == 116 || x[p] == 102 || x[p] == 110)
    ensures d.Word? && Shaped(d) && At(x, p, DocText(d))
  {
    hide At;
    d := Word(ParseValue(x, p, env).value.0);
  }

  lemma AmountOf(x: seq<Byte>, p: nat, env: Env) returns (f: Figure)
    requires p < |x| && ParseNumber(x, p, env).Some? && x[p] <= 57 && x[p] != 34
    requires x[p] == 45 ==> p + 1 < |x| && x[p + 1] <= 57
    ensures FigureProper(f) && At(x, p, FigureText(f)) && Doable(Amount(f), NextAt(x, p + |FigureText(f)|), env)
  {
    hide FigureProper, FigureText, NumberEnd;
    f := FigureOf(x, p);
    Cut(x, p, NumberEnd(x, p).value);
  }

  lemma {:induction false} ItemsOf(x: seq<Byte>, p: nat, env: Env)
    returns (items: seq<Item>, trailing: bool, close: seq<Byte>)
    requires p < |x| && ParseElements(x, p, env).Some?
    ensures Shaped(List(items, trailing, close)) && ItemsDoable(items, trailing, env)
    ensures At(x, p + 1, ItemsText(items, trailing, close))
    decreases |x| - p, 0
  {
    hide At, ParseValue, Skip, Doable, DocText, DocValue, WhiteSpace, Begins, ItemsText, ItemsDoable;
    var q := Skip(x, p + 1);
    var before := SpaceOf(x, p + 1, x[q]);
    NoItems(env);
    if x[q] == 93 {
      items, trailing, close := [], false, before;
      AtJoin(x, p + 1, close, [93]);
    } else {
      var doc := DocOf(x, q, env);
      var t := DocText(doc);
      var r := Skip(x, q + |t|);
      var ch := x[r];
      var after := SpaceOf(x, q + |t|, ch);
      var item := Item(before, doc, after);
      var its, tr, cl := [], false, [];
      AtNothing(x, r + 1);
      if ch == 44 {
        its, tr, cl := ItemsOf(x, r, env);
      }
      items, trailing, close := [item] + its, ch == 44 && (its == [] || tr), cl;
      ItemBegins(x, p + 1, q, t, after, ch, true);
      ItemsFold(item, its, tr, trailing, cl, env);
      ItemJoins(x, p + 1, before, t, after, ch, if ch == 44 then ItemsText(its, tr, cl) else []);
    }
  }

  lemma NoItems(env: Env)
    ensures WhiteSpace([]) && ItemsDoable([], false, env)
    ensures forall close :: ItemsText([], false, close) == close + [93]
  {
  }

  lemma ItemBegins(x: seq<Byte>, s: nat, q: nat, t: seq<Byte>, after: seq<Byte>, ch: Byte, closes: bool)
    requires s <= |x| && Skip(x, s) == q < |x| && (closes ==> x[q] != 93)
    requires At(x, q, t) && Some(NextOf(after, ch)) == NextAt(x, q + |t|)
    ensures Begins(t, NextOf(after, ch), closes)
  {
    hide Skip;
    SkipShape(x, s);
    FirstAt(x, q, t, NextOf(after, ch));
    assert [x[q]][0] == x[q];
  }

  lemma ItemJoins(x: seq<Byte>, s: nat, before: seq<Byte>, t: seq<Byte>, after: seq<Byte>, ch: Byte, rest: seq<Byte>)
    requires At(x, s, before) && At(x, s + |before|, t) && At(x, s + |before| + |t|, after)
    requires At(x, s + |before| + |t| + |after|, [ch]) && At(x, s + |before| + |t| + |after| + 1, rest)
    ensures At(x, s, before + (t + (after + ([ch] + rest))))
  {
    hide At;
    AtJoin(x, s + |before| + |t| + |after|, [ch], rest);
    AtJoin(x, s + |before| + |t|, after, [ch] + rest);
    AtJoin(x, s + |before|, t, after + ([ch] + rest));
    AtJoin(x, s, before, t + (after + ([ch] + rest)));
  }

  // An item in front of others; a comma behind it, unless it is the last of a list without a trailing comma.
  lemma ItemsFold(item: Item, its: seq<Item>, tr: bool, trailing: bool, close: seq<Byte>, env: Env)
    requires Shaped(List(its, tr, close)) && ItemsDoable(its, tr, env)
    requires WhiteSpace(item.before) && WhiteSpace(item.after) && Shaped(item.doc)
    requires (its != [] ==> trailing == tr) && (its == [] && !trailing ==> close == [])
    requires var ch := if its != [] || trailing then 44 else 93;
      Doable(item.doc, Some(NextOf(item.after, ch)), env) && Begins(DocText(item.doc), NextOf(item.after, ch), true)
    ensures Shaped(List([item] + its, trailing, close)) && ItemsDoable([item] + its, trailing, env)
    ensures ItemsText([item] + its, trailing, close) == item.before + (DocText(item.doc) + (item.after
      + ([if its != [] || trailing then 44 else 93]
      + if its != [] || trailing then ItemsText(its, tr, close) else [])))
  {
    hide Doable, DocText, Begins, WhiteSpace;
    assert ([item] + its)[1..] == its;
  }

  // ---------- the members

  lemma {:induction false} EntriesOf(x: seq<Byte>, p: nat, seen: set<seq<Byte>>, env: Env)
    returns (entries: seq<Entry>, trailing: bool, close: seq<Byte>)
    requires p < |x| && ParseMembers(x, p, seen, env).Some?
    ensures Shaped(Table(entries, trailing, close)) && EntriesDoable(entries, trailing, seen, env)
    ensures At(x, p + 1, EntriesText(entries, trailing, close))
    decreases |x| - p, 0
  {
    hide At, ParseMember, Skip, Doable, DocText, EntryText, WhiteSpace, Begins, EntriesText, EntriesDoable, EntryShaped;
    var q := Skip(x, p + 1);
    var before := SpaceOf(x, p + 1, x[q]);
    NoEntries(seen, env);
    if x[q] == 125 {
      entries, trailing, close := [], false, before;
      AtJoin(x, p + 1, close, [125]);
    } else {
      var e := EntryOf(x, q, before, seen, env);
      var (m, r) := ParseMember(x, q, seen, env).value;
      var ch := x[r];
      var es, tr, cl := [], false, [];
      AtNothing(x, r + 1);
      if ch == 44 {
        es, tr, cl := EntriesOf(x, r, seen + {m.name}, env);
      }
      entries, trailing, close := [e] + es, ch == 44 && (es == [] || tr), cl;
      EntriesFold(e, es, tr, trailing, cl, seen, env);
      OneStands(x, r);
      EntryJoins(x, p + 1, before, EntryText(e), ch, if ch == 44 then EntriesText(es, tr, cl) else []);
    }
  }

  lemma OneStands(x: seq<Byte>, r: nat)
    requires r < |x|
    ensures At(x, r, [x[r]])
  {
  }

  lemma NoEntries(seen: set<seq<Byte>>, env: Env)
    ensures WhiteSpace([]) && forall names :: EntriesDoable([], false, names, env)
    ensures forall close :: EntriesText([], false, close) == close + [125]
  {
  }

  lemma EntryJoins(x: seq<Byte>, s: nat, before: seq<Byte>, t: seq<Byte>, ch: Byte, rest: seq<Byte>)
    requires At(x, s, before) && At(x, s + |before|, t) && At(x, s + |before| + |t|, [ch])
    requires At(x, s + |before| + |t| + 1, rest)
    ensures At(x, s, before + (t + ([ch] + rest)))
  {
    hide At;
    AtJoin(x, s + |before| + |t|, [ch], rest);
    AtJoin(x, s + |before|, t, [ch] + rest);
    AtJoin(x, s, before, t + ([ch] + rest));
  }

  lemma EntriesFold(e: Entry, es: seq<Entry>, tr: bool, trailing: bool, close: seq<Byte>, seen: set<seq<Byte>>,
      env: Env)
    requires EntryShaped(e) && MeansAll(e.name) !in seen
    requires Shaped(Table(es, tr, close)) && EntriesDoable(es, tr, seen + {MeansAll(e.name)}, env)
    requires (es != [] ==> trailing == tr) && (es == [] && !trailing ==> close == [])
    requires var ch := if es != [] || trailing then 44 else 125;
      Doable(e.doc, Some(NextOf(e.after, ch)), env) && Begins(DocText(e.doc), NextOf(e.after, ch), false)
    ensures Shaped(Table([e] + es, trailing, close)) && EntriesDoable([e] + es, trailing, seen, env)
    ensures EntriesText([e] + es, trailing, close) == e.before + (EntryText(e)
      + ([if es != [] || trailing then 44 else 125]
      + if es != [] || trailing then EntriesText(es, tr, close) else []))
  {
    hide Doable, DocText, Begins, WhiteSpace, NameText, EntryText, MeansAll, AllProper, CostAll;
    assert ([e] + es)[1..] == es;
    var more := es != [] || trailing;
    var ch, rest := if more then 44 else 125, if more then EntriesText(es, tr, close) else [];
    EntrySplits(e, [ch] + rest);
  }

  lemma {:induction false} EntryOf(x: seq<Byte>, q: nat, before: seq<Byte>, seen: set<seq<Byte>>, env: Env)
    returns (e: Entry)
    requires q < |x| && x[q] == QUOTE && ParseMember(x, q, seen, env).Some? && WhiteSpace(before)
    ensures EntryShaped(e) && e.before == before && At(x, q, EntryText(e)) && MeansAll(e.name) !in seen
    ensures var (m, r) := ParseMember(x, q, seen, env).value;
      m.name == MeansAll(e.name) && r == q + |EntryText(e)|
      && Doable(e.doc, Some(NextOf(e.after, x[r])), env) && Begins(DocText(e.doc), NextOf(e.after, x[r]), false)
    decreases |x| - q, 0
  {
    hide At, ParseValue, Skip, Doable, DocText, DocValue, WhiteSpace, Begins, StringAt, AllProper, WrittenAll, MeansAll;
    hide CostAll;
    var name := StringOnlyPieces(x, q);
    var n := StringAt(x, q).value.next;
    var c := Skip(x, n);
    var afterName := SpaceOf(x, n, 58);
    var s := Skip(x, c + 1);
    var beforeValue := SpaceOf(x, c + 1, x[s]);
    var doc := DocOf(x, s, env);
    var t := DocText(doc);
    var r := Skip(x, s + |t|);
    var after := SpaceOf(x, s + |t|, x[r]);
    ItemBegins(x, c + 1, s, t, after, x[r], false);
    e := Entry(before, name, afterName, beforeValue, doc, after);
    AtJoin(x, s, t, after);
    AtJoin(x, c + 1, beforeValue, t + after);
    AtJoin(x, c, [58], beforeValue + (t + after));
    AtJoin(x, n, afterName, [58] + (beforeValue + (t + after)));
    AtJoin(x, q, NameText(name), afterName + ([58] + (beforeValue + (t + after))));
  }

  // ---------- the whole text

  /** White space, a document and white space, where the first byte behind the first white space is none. */
  ghost predicate TextOf(x: seq<Byte>, before: seq<Byte>, d: Doc, after: seq<Byte>, env: Env) {
    && WhiteSpace(before) && WhiteSpace(after) && Shaped(d) && x == before + (DocText(d) + after)
    && |before| < |x| && !WhiteSpace([x[|before|]]) && Doable(d, NextAt(x, |before| + |DocText(d)|), env)
  }

  lemma TextIsRead(x: seq<Byte>, before: seq<Byte>, d: Doc, after: seq<Byte>, env: Env)
    requires TextOf(x, before, d, after, env)
    ensures Parse(x, env) == Some(DocValue(d, env))
  {
    hide At, DocText, DocValue, Doable, Shaped, Skip, ParseValue, WhiteSpace;
    var p, t := |before|, DocText(d);
    ThreeStand(x, before, t, after);
    Skipped(x, 0, before);
    DocIsRead(x, p, d, env);
    Skipped(x, p + |t|, after);
  }

  lemma Skipped(x: seq<Byte>, p: nat, w: seq<Byte>)
    requires At(x, p, w) && WhiteSpace(w) && (p + |w| < |x| ==> !WhiteSpace([x[p + |w|]]))
    ensures Skip(x, p) == p + |w|
  {
    SkipSpaces(x, p, w);
  }

  lemma ThreeStand(x: seq<Byte>, a: seq<Byte>, b: seq<Byte>, c: seq<Byte>)
    requires x == a + (b + c)
    ensures At(x, 0, a) && At(x, |a|, b) && At(x, |a| + |b|, c) && |x| == |a| + |b| + |c|
  {
  }

  lemma TextIsFound(x: seq<Byte>, env: Env) returns (before: seq<Byte>, d: Doc, after: seq<Byte>)
    requires Parse(x, env).Some?
    ensures TextOf(x, before, d, after, env)
  {
    hide DocText, DocValue, Doable, Shaped, Skip, ParseValue;
    var p := Skip(x, 0);
    d := DocOf(x, p, env);
    var e := p + |DocText(d)|;
    before, after := x[..p], x[e..];
    SkipShape(x, 0);
    SkipShape(x, e);
    assert x[0..p] == before && x[e..|x|] == after && [x[p]][0] == x[p];
    assert x[p..e] == DocText(d);
    assert x == before + (x[p..e] + after);
  }

  /** A text is parsed to a value exactly when it is the text of a document with that value. */
  lemma ParseIsGrammar(x: seq<Byte>, v: Value, env: Env)
    ensures Parse(x, env) == Some(v) <==>
      exists before, d, after :: TextOf(x, before, d, after, env) && DocValue(d, env) == v
  {
    hide Parse, DocValue, DocText, Doable, WhiteSpace, Shaped;
    forall before, d, after | TextOf(x, before, d, after, env)
      ensures Parse(x, env) == Some(DocValue(d, env))
    {
      TextIsRead(x, before, d, after, env);
    }
    if Parse(x, env).Some? {
      var before, d, after := TextIsFound(x, env);
      TextIsRead(x, before, d, after, env);
    }
  }
}
