/**
 * The layout of a printed value, src/nxt_conf.c:1353-1620, and its round trip: the printed text is one of the grammar's
 * texts for the value.
 */
module JsonLayout {
  import opened Bytes
  import opened JsonString
  import opened JsonPrint
  import opened JsonParse
  import opened JsonPieces
  import opened JsonFigures
  import opened JsonGrammar

  // ---------- the layout

  /** An array or an object that is not empty. */
  predicate Full(v: Value) { (v.Arr? && v.elements != []) || (v.Obj? && v.members != []) }

  /** CR, LF and a tab for each level. */
  function Fresh(st: Style): seq<Byte> { if st.Compact? then [] else [13, 10] + seq(st.level, i => 9) }

  function Inner(st: Style): Style { if st.Compact? then st else Pretty(st.level + 1, st.moreSpace) }

  function Plain(st: Style): Style { if st.Compact? then st else Pretty(st.level, false) }

  // An empty line, where one is due.
  function Empty(st: Style, due: bool): seq<Byte> { if due && st.Pretty? then [13, 10] else [] }

  // The space behind a colon.
  function Blank(st: Style): seq<Byte> { if st.Compact? then [] else [32] }

  predicate Owed(v: Value, st: Style) { Full(v) || (st.Pretty? && st.moreSpace) }

  /**
   * The text of a value: every element and member is on its own line, one level deeper than its container; an empty
   * line stands between a member that is a container with something in it and the next one.  Without a style nothing
   * but the value itself is written.
   */
  function Page(v: Value, st: Style): seq<Byte>
    decreases v, 0
  {
    match v
    case Null => [110, 117, 108, 108]
    case Bool(b) => if b then [116, 114, 117, 101] else [102, 97, 108, 115, 101]
    case Integer(text) => text
    case Number(_) => []
    case Str(s) => NameText(PiecesOf(s))
    case Arr(es) => if es == [] then [91, 93] else [91] + PageElements(es, Inner(st), st)
    case Obj(ms) => if ms == [] then [123, 125] else [123] + PageMembers(ms, Inner(st), false, st)
  }

  function PageElements(es: seq<Value>, st: Style, out: Style): seq<Byte>
    requires es != []
    decreases es, 0
  {
    Fresh(st) + (Page(es[0], st)
    + if |es| == 1 then Fresh(out) + [93] else [44] + PageElements(es[1..], Plain(st), out))
  }

  function PageMembers(ms: seq<Member>, st: Style, due: bool, out: Style): seq<Byte>
    requires ms != []
    decreases ms, 0
  {
    var m := ms[0];
    (Empty(st, due) + Fresh(st)) + (NameText(PiecesOf(m.name)) + ([58] + (Blank(st) + (Page(m.value, st)
    + if |ms| == 1 then Fresh(out) + [125]
      else [44] + PageMembers(ms[1..], Plain(st), Owed(m.value, st), out)))))
  }

  // ---------- the printer keeps to it

  function After(v: Value, st: Style): Style {
    if st.Compact? then st else Pretty(st.level, st.moreSpace || Full(v))
  }

  /** Behind a full container, and nowhere else, an empty line becomes due; the level is as before. */
  lemma StyleAfter(v: Value, st: Style)
    ensures Print(v, st).1 == After(v, st)
  {
    match v
    case Arr(es) =>
      if es != [] {
        ElementsFit(es, Deeper(st));
      }
    case Obj(ms) =>
      if ms != [] {
        MembersFit(ms, Deeper(st));
      }
    case _ =>
  }

  lemma QuotedIsName(s: seq<Byte>)
    ensures JsonPrint.Quoted(s) == NameText(PiecesOf(s))
  {
    EscapedIsPieces(s);
  }

  /** The printed text is laid out so, from any style. */
  lemma {:induction false} PrintIsPage(v: Value, st: Style)
    ensures Print(v, st).0 == Page(v, st)
    decreases v, 1
  {
    hide PrintElements, PrintMembers, PageElements, PageMembers, NameText, JsonPrint.Quoted, Fresh, Line, Break;
    match v
    case Str(s) => QuotedIsName(s);
    case Arr(es) =>
      if es != [] {
        ElementsFit(es, Deeper(st));
        LinesAre(st, PrintElements(es, Deeper(st)).1);
        ElementsArePage(es, Inner(st), st);
        var t := PrintElements(es, Inner(st)).0;
        assert ([91] + Fresh(Inner(st))) + t + (Fresh(st) + [93])
            == [91] + (Fresh(Inner(st)) + (t + (Fresh(st) + [93])));
      }
    case Obj(ms) =>
      if ms != [] {
        MembersFit(ms, Deeper(st));
        LinesAre(st, PrintMembers(ms, Deeper(st)).1);
        MembersArePage(ms, Inner(st), false, st);
        var t := PrintMembers(ms, Inner(st)).0;
        assert [] + Break(st) == Break(st);
        assert ([123] + Break(st)) + t + (Fresh(st) + [125]) == [123] + (Break(st) + (t + (Fresh(st) + [125])));
      }
    case _ =>
  }

  lemma LinesAre(st: Style, end: Style)
    requires Depth(end) == Depth(Deeper(st))
    ensures Line(Deeper(st)) == Fresh(Inner(st)) && Deeper(st) == Inner(st) && Line(Leave(end)) == Fresh(st)
    ensures Break(Inner(st)) == Break(st)
  {
  }

  function Indent(st: Style): seq<Byte> { if st.Compact? then [] else Indentation(st.level) }

  lemma ElementsPrint(es: seq<Value>, st: Style)
    requires es != []
    ensures var (t, st1) := Print(es[0], st);
      PrintElements(es, st).0 == t
        + if |es| == 1 then [] else [COMMA] + Line(st1) + PrintElements(es[1..], Tight(st1)).0
  {
  }

  // Line by line: what stands behind an element and what is written for the next one.
  lemma Between(v: Value, st: Style)
    ensures Line(After(v, st)) == Fresh(st) == Fresh(Plain(st)) && Tight(After(v, st)) == Plain(st)
    ensures Gap(After(v, st)) == Empty(st, Owed(v, st)) + Break(st)
    ensures forall due :: Empty(Plain(st), due) == Empty(st, due)
    ensures Break(Plain(st)) == Break(st) && Break(st) + Indent(st) == Fresh(st)
  {
  }

  lemma {:induction false} ElementsArePage(es: seq<Value>, st: Style, out: Style)
    requires es != []
    ensures PageElements(es, st, out) == Fresh(st) + (PrintElements(es, st).0 + (Fresh(out) + [93]))
    decreases es, 2
  {
    hide Page, Print, Fresh, PrintElements, After, Plain, Line, Tight;
    PrintIsPage(es[0], st);
    StyleAfter(es[0], st);
    ElementsPrint(es, st);
    Between(es[0], st);
    if |es| > 1 {
      ElementsArePage(es[1..], Plain(st), out);
      Nested(Page(es[0], st), [COMMA], Fresh(st), PrintElements(es[1..], Plain(st)).0, Fresh(out) + [93]);
    } else {
      assert Page(es[0], st) + [] == Page(es[0], st);
    }
  }

  lemma Nested(a: seq<Byte>, b: seq<Byte>, c: seq<Byte>, d: seq<Byte>, z: seq<Byte>)
    ensures (a + (b + c + d)) + z == a + (b + (c + (d + z)))
  {
  }

  lemma {:induction false} MembersArePage(ms: seq<Member>, st: Style, due: bool, out: Style)
    requires ms != []
    ensures PageMembers(ms, st, due, out)
      == (Empty(st, due) + Break(st)) + (PrintMembers(ms, st).0 + (Fresh(out) + [125]))
    decreases ms, 2
  {
    hide Page, PageMembers, Print, PrintMembers, Fresh, After, Plain, JsonPrint.Gap, Tight, Break, Empty, NameText;
    hide JsonPrint.Quoted, Owed, Blank, Indent;
    var m, z, owed := ms[0], Fresh(out) + [125], Owed(ms[0].value, st);
    PrintIsPage(m.value, st);
    StyleAfter(m.value, st);
    MembersPrint(ms, st);
    MembersUnfold(ms, st, due, out);
    QuotedIsName(m.name);
    Between(m.value, st);
    var e, name, t := Empty(st, due), NameText(PiecesOf(m.name)), Page(m.value, st);
    if |ms| > 1 {
      MembersArePage(ms[1..], Plain(st), owed, out);
      var gap, rest := Empty(st, owed) + Break(st), PrintMembers(ms[1..], Plain(st)).0;
      Behind([COMMA], gap, rest, z);
      Labelled(e, Break(st), Indent(st), name, [58], Blank(st), t, [COMMA] + gap + rest, z);
    } else {
      Behind([], [], [], z);
      Labelled(e, Break(st), Indent(st), name, [58], Blank(st), t, [], z);
    }
  }

  lemma MembersUnfold(ms: seq<Member>, st: Style, due: bool, out: Style)
    requires ms != []
    ensures var m := ms[0];
      PageMembers(ms, st, due, out)
        == (Empty(st, due) + Fresh(st)) + (NameText(PiecesOf(m.name)) + ([58] + (Blank(st) + (Page(m.value, st)
        + if |ms| == 1 then Fresh(out) + [125]
          else [44] + PageMembers(ms[1..], Plain(st), Owed(m.value, st), out)))))
  {
    hide Page, Fresh, NameText, Empty;
  }

  lemma MembersPrint(ms: seq<Member>, st: Style)
    requires ms != []
    ensures var (t, st1) := Print(ms[0].value, st);
      PrintMembers(ms, st).0 == (Indent(st) + JsonPrint.Quoted(ms[0].name) + [58] + Blank(st)) + t
        + if |ms| == 1 then [] else [COMMA] + Gap(st1) + PrintMembers(ms[1..], Tight(st1)).0
  {
    hide Print, Gap, JsonPrint.Quoted;
  }

  lemma Behind(c: seq<Byte>, g: seq<Byte>, rest: seq<Byte>, z: seq<Byte>)
    ensures (c + g + rest) + z == c + (g + (rest + z)) && [] + z == z
  {
  }

  lemma Labelled(e: seq<Byte>, b: seq<Byte>, i: seq<Byte>, name: seq<Byte>, c: seq<Byte>, w: seq<Byte>, t: seq<Byte>,
      s: seq<Byte>, z: seq<Byte>)
    ensures (e + b) + (((i + name + c + w) + t + s) + z) == (e + (b + i)) + (name + (c + (w + (t + (s + z)))))
  {
  }

  // ---------- it is one of the texts of the grammar

  // Whatever ends a number may follow, and the text begins like a value.
  ghost predicate Suits(d: Doc, env: Env)
    requires Shaped(d)
  {
    && (forall next: Option<Byte> :: (next.Some? ==> EndsNumber(next.value)) ==> Doable(d, next, env))
    && DocText(d) != [] && !WhiteSpace([DocText(d)[0]]) && DocText(d)[0] != 93
  }

  /** The printed text of a value that has one is a document's, and the document's value is that value. */
  lemma {:induction false} DocOfPage(v: Value, st: Style, env: Env) returns (d: Doc)
    requires Printable(v, env)
    ensures Shaped(d) && DocText(d) == Page(v, st) && DocValue(d, env) == v && Suits(d, env)
    decreases v, 1
  {
    hide PageElements, PageMembers, ItemsText, EntriesText, ItemsDoable, EntriesDoable, ItemValues, EntryMembers;
    hide NumberText, PiecesOf, Suits;
    match v
    case Integer(text) => d := NumberDoc(text, env);
    case Str(s) =>
      d := StringDoc(s, env);
    case Arr(es) =>
      var items := [];
      NoItems(env);
      if es != [] {
        items := ItemsOfPage(es, Inner(st), st, env);
      }
      d := List(items, false, []);
      ListSuits(items, es, env);
    case Obj(ms) =>
      var entries := [];
      NoEntries({}, env);
      if ms != [] {
        entries := EntriesOfPage(ms, Inner(st), false, st, {}, env);
      }
      d := Table(entries, false, []);
      TableSuits(entries, ms, env);
    case _ => d := WordDoc(v, env);
  }

  lemma ListSuits(items: seq<Item>, es: seq<Value>, env: Env)
    requires Shaped(List(items, false, [])) && ItemsDoable(items, false, env) && ItemValues(items, env) == es
    ensures Suits(List(items, false, []), env) && DocValue(List(items, false, []), env) == Arr(es)
  {
    hide ItemsDoable, ItemsText, ItemValues;
    var t := DocText(List(items, false, []));
    assert t[0] == 91 && [t[0]][0] == t[0];
  }

  lemma TableSuits(entries: seq<Entry>, ms: seq<Member>, env: Env)
    requires Shaped(Table(entries, false, [])) && EntriesDoable(entries, false, {}, env)
    requires EntryMembers(entries, env) == ms
    ensures Suits(Table(entries, false, []), env) && DocValue(Table(entries, false, []), env) == Obj(ms)
  {
    hide EntriesDoable, EntriesText, EntryMembers;
    var t := DocText(Table(entries, false, []));
    assert t[0] == 123 && [t[0]][0] == t[0];
  }

  lemma StringDoc(s: seq<Byte>, env: Env) returns (d: Doc)
    requires Weight(s) <= MAX_STRING
    ensures Shaped(d) && DocText(d) == NameText(PiecesOf(s)) && DocValue(d, env) == Str(s) && Suits(d, env)
  {
    hide Weight, PiecesOf, WrittenAll;
    EscapedIsPieces(s);
    d := Doc.Quoted(PiecesOf(s));
    assert [DocText(d)[0]][0] == 34;
  }

  lemma WordDoc(v: Value, env: Env) returns (d: Doc)
    requires v.Null? || v.Bool?
    ensures Shaped(d) && DocText(d) == Page(v, Compact) && DocValue(d, env) == v && Suits(d, env)
  {
    d := Word(v);
    assert [DocText(d)[0]][0] == DocText(d)[0];
  }

  lemma NumberDoc(text: seq<Byte>, env: Env) returns (d: Doc)
    requires NumberText(text, env)
    ensures Shaped(d) && DocText(d) == text && DocValue(d, env) == Integer(text) && Suits(d, env)
  {
    hide FigureText, FigureProper, NumberEnd;
    var f := FigureOf(text, 0);
    d := Amount(f);
    assert text[0..|text|] == text && [text[0]][0] == text[0];
  }

  lemma FreshIsSpace(st: Style, ch: Byte)
    ensures WhiteSpace(Fresh(st)) && (EndsNumber(ch) ==> EndsNumber(NextOf(Fresh(st), ch)))
  {
  }

  lemma SuitsBefore(d: Doc, next: Byte, closes: bool, env: Env)
    requires Shaped(d) && Suits(d, env) && EndsNumber(next)
    ensures Doable(d, Some(next), env) && Begins(DocText(d), next, closes)
  {
    hide DocText, Doable, Shaped;
    assert (DocText(d) + [next])[0] == DocText(d)[0];
  }

  lemma {:induction false} ItemsOfPage(es: seq<Value>, st: Style, out: Style, env: Env) returns (items: seq<Item>)
    requires es != [] && forall i :: 0 <= i < |es| ==> Printable(es[i], env)
    ensures Shaped(List(items, false, [])) && items != [] && ItemsDoable(items, false, env)
    ensures ItemsText(items, false, []) == PageElements(es, st, out) && ItemValues(items, env) == es
    decreases es, 0
  {
    hide Page, DocText, DocValue, Suits, ItemsDoable, ItemsText, PageElements, Shaped;
    var d := DocOfPage(es[0], st, env);
    var its := [];
    NoItems(env);
    ListShaped();
    if |es| > 1 {
      its := ItemsOfPage(es[1..], Plain(st), out, env);
    }
    items := [Item(Fresh(st), d, if |es| == 1 then Fresh(out) else [])] + its;
    ItemLaid(es, d, its, st, out, env);
    assert items[1..] == its;
  }

  lemma ListShaped()
    ensures Shaped(List([], false, [])) && Shaped(Table([], false, []))
  {
  }

  lemma ItemLaid(es: seq<Value>, d: Doc, its: seq<Item>, st: Style, out: Style, env: Env)
    requires es != [] && Shaped(d) && Suits(d, env) && DocText(d) == Page(es[0], st)
    requires Shaped(List(its, false, [])) && ItemsDoable(its, false, env) && (its == [] <==> |es| == 1)
    requires |es| > 1 ==> ItemsText(its, false, []) == PageElements(es[1..], Plain(st), out)
    ensures var items := [Item(Fresh(st), d, if |es| == 1 then Fresh(out) else [])] + its;
      Shaped(List(items, false, [])) && ItemsDoable(items, false, env)
      && ItemsText(items, false, []) == PageElements(es, st, out)
  {
    hide Page, Fresh, DocText, Suits, Doable, ItemsDoable, ItemsText, Begins, WhiteSpace, EndsNumber;
    var after, ch := if |es| == 1 then Fresh(out) else [], if |es| == 1 then 93 else 44;
    Enders(ch);
    FreshIsSpace(st, ch);
    FreshIsSpace(out, ch);
    SuitsBefore(d, NextOf(after, ch), true, env);
    ItemsFold(Item(Fresh(st), d, after), its, false, false, [], env);
    Nothing([ch] + if |es| == 1 then [] else ItemsText(its, false, []), ch);
  }

  lemma Nothing(t: seq<Byte>, ch: Byte)
    ensures [] + t == t && [ch] + [] == [ch]
  {
  }

  lemma Enders(ch: Byte)
    ensures EndsNumber(44) && EndsNumber(93) && EndsNumber(125) && NextOf([], ch) == ch && WhiteSpace([])
  {
  }

  lemma {:induction false} EntriesOfPage(ms: seq<Member>, st: Style, due: bool, out: Style, seen: set<seq<Byte>>,
      env: Env)
    returns (entries: seq<Entry>)
    requires ms != [] && Printable(Obj(ms), env) && forall i :: 0 <= i < |ms| ==> ms[i].name !in seen
    ensures Shaped(Table(entries, false, [])) && entries != [] && EntriesDoable(entries, false, seen, env)
    ensures EntriesText(entries, false, []) == PageMembers(ms, st, due, out) && EntryMembers(entries, env) == ms
    decreases ms, 0
  {
    hide Page, DocText, DocValue, Suits, EntriesDoable, EntriesText, PageMembers, Shaped, EntryShaped, NameText;
    var m := ms[0];
    var d := DocOfPage(m.value, st, env);
    var es := [];
    NoEntries(seen + {m.name}, env);
    ListShaped();
    if |ms| > 1 {
      es := EntriesOfPage(ms[1..], Plain(st), Owed(m.value, st), out, seen + {m.name}, env);
    }
    var e := Laid(m, d, st, due, if |ms| == 1 then Fresh(out) else []);
    entries := [e] + es;
    EscapedIsPieces(m.name);
    EntryLaid(ms, d, es, st, due, out, seen, env);
    assert entries[1..] == es;
  }

  // A member with its white space.
  function Laid(m: Member, d: Doc, st: Style, due: bool, after: seq<Byte>): Entry {
    Entry(Empty(st, due) + Fresh(st), PiecesOf(m.name), [], Blank(st), d, after)
  }

  lemma EntryLaid(ms: seq<Member>, d: Doc, es: seq<Entry>, st: Style, due: bool, out: Style, seen: set<seq<Byte>>,
      env: Env)
    requires ms != [] && Shaped(d) && Suits(d, env) && DocText(d) == Page(ms[0].value, st)
    requires Weight(ms[0].name) <= MAX_STRING && ms[0].name !in seen && MeansAll(PiecesOf(ms[0].name)) == ms[0].name
    requires Shaped(Table(es, false, [])) && EntriesDoable(es, false, seen + {ms[0].name}, env)
    requires (es == [] <==> |ms| == 1)
    requires |ms| > 1 ==> EntriesText(es, false, []) == PageMembers(ms[1..], Plain(st), Owed(ms[0].value, st), out)
    ensures var entries := [Laid(ms[0], d, st, due, if |ms| == 1 then Fresh(out) else [])] + es;
      EntryShaped(entries[0]) && Shaped(Table(entries, false, [])) && EntriesDoable(entries, false, seen, env)
      && EntriesText(entries, false, []) == PageMembers(ms, st, due, out)
  {
    hide Page, Fresh, DocText, Suits, Doable, EntriesDoable, EntriesText, Begins, WhiteSpace, EndsNumber;
    hide EntryText, PageMembers, EntryShaped, NameText, Laid, Blank, Empty, Weight;
    var after, ch := if |ms| == 1 then Fresh(out) else [], if |ms| == 1 then 125 else 44;
    Enders(ch);
    FreshIsSpace(out, ch);
    SuitsBefore(d, NextOf(after, ch), false, env);
    LaidShaped(ms[0], d, st, due, after);
    EntriesFold(Laid(ms[0], d, st, due, after), es, false, false, [], seen, env);
    MembersUnfold(ms, st, due, out);
    var z := [ch] + if |ms| == 1 then [] else EntriesText(es, false, []);
    LaidText(ms[0], d, st, due, after, z);
    Nothing(z, ch);
  }

  lemma LaidShaped(m: Member, d: Doc, st: Style, due: bool, after: seq<Byte>)
    requires Shaped(d) && Weight(m.name) <= MAX_STRING && WhiteSpace(after)
    ensures var e := Laid(m, d, st, due, after);
      EntryShaped(e) && e.name == PiecesOf(m.name) && e.doc == d && e.after == after
  {
    hide Shaped, Weight;
    EscapedIsPieces(m.name);
  }

  lemma LaidText(m: Member, d: Doc, st: Style, due: bool, after: seq<Byte>, z: seq<Byte>)
    requires Shaped(d) && EntryShaped(Laid(m, d, st, due, after))
    ensures var e := Laid(m, d, st, due, after);
      e.before + (EntryText(e) + z) == (Empty(st, due) + Fresh(st))
        + (NameText(PiecesOf(m.name)) + ([58] + (Blank(st) + (DocText(d) + (after + z)))))
  {
    hide Shaped, DocText, NameText, WhiteSpace, Fresh, Blank, Empty, EntryText;
    var e := Laid(m, d, st, due, after);
    EntrySplits(e, z);
    assert [] + ([58] + (Blank(st) + (DocText(d) + (after + z)))) == [58] + (Blank(st) + (DocText(d) + (after + z)));
  }

  // ---------- the round trip

  /** Parsing the printed text of a value where it stands gives the value back, members as written. */
  lemma PrintedParses(x: seq<Byte>, p: nat, v: Value, st: Style, env: Env)
    requires Printable(v, env) && At(x, p, Print(v, st).0)
    requires var q := p + |Print(v, st).0|; q < |x| ==> Terminates(x[q])
    ensures p < |x| && !IsSpace(x[p]) && x[p] != CLOSE_ARRAY
    ensures ParseValue(x, p, env) == Some((v, p + |Print(v, st).0|))
  {
    hide Print, At, ParseValue, Printable, Shaped, DocText, DocValue, Doable;
    var d := DocOfPage(v, st, env);
    PrintIsPage(v, st);
    FirstStands(x, p, DocText(d));
    assert [x[p]][0] == x[p];
    DocIsRead(x, p, d, env);
  }

  /** The top of the parser accepts the printed text of every printable value. */
  lemma RoundTrip(v: Value, st: Style, env: Env)
    requires Printable(v, env)
    ensures Parse(Print(v, st).0, env) == Some(v)
  {
    hide Print, Parse, Printable, Shaped, DocText, DocValue, Doable;
    var d := DocOfPage(v, st, env);
    PrintIsPage(v, st);
    TextIsRead(DocText(d), [], d, [], env);
  }
}
