/** What a match object asks of a request, src/ngx_http_route.c:242-362, written out test by test. */
module RouteWritten {
  import opened Bytes
  import opened Strings
  import opened Pattern
  import opened Route

  // ---------- lists of names

  /** A name without stars that is wanted, or with a '!' before it unwanted. */
  datatype Wish = Wish(wanted: bool, name: Text)

  predicate Spellable(w: Wish) { 42 !in w.name && (w.wanted && w.name != [] ==> w.name[0] != 33) }

  function Spelled(w: Wish): Text { if w.wanted then w.name else [33] + w.name }

  function SpelledAll(ws: seq<Wish>): (ts: seq<Text>)
    ensures |ts| == |ws| && forall i :: 0 <= i < |ws| ==> ts[i] == Spelled(ws[i])
  {
    seq(|ws|, i requires 0 <= i < |ws| => Spelled(ws[i]))
  }

  ghost predicate Same(caseless: bool, s: Text, name: Text) { if caseless then SameButCase(s, name) else s == name }

  /** A list of names: no unwanted one is met, and one of the wanted ones is, if there are any. */
  lemma NamesAndNegations(ws: seq<Wish>, cs: bool, s: Text)
    requires forall i :: 0 <= i < |ws| ==> Spellable(ws[i])
    ensures ListMeans(SpelledAll(ws), cs, Nocase, s) <==>
      && (forall i :: 0 <= i < |ws| && !ws[i].wanted ==> !Same(!cs, s, ws[i].name))
      && ((exists i :: 0 <= i < |ws| && ws[i].wanted) ==>
            exists i :: 0 <= i < |ws| && ws[i].wanted && Same(!cs, s, ws[i].name))
  {
    hide GlobText, Same;
    var ts := SpelledAll(ws);
    forall i | 0 <= i < |ws|
      ensures ts[i] in ts && (IsNegative(ts[i]) <==> !ws[i].wanted)
      ensures GlobText(ts[i], cs, Nocase, s) <==> Same(!cs, s, ws[i].name)
    {
      WishIsGlob(ws[i], cs, s);
    }
    ByWish(ts, ws, cs, s);
  }

  lemma ByWish(ts: seq<Text>, ws: seq<Wish>, cs: bool, s: Text)
    requires |ts| == |ws|
    requires forall i :: 0 <= i < |ws| ==> (IsNegative(ts[i]) <==> !ws[i].wanted)
    requires forall i :: 0 <= i < |ws| ==> (GlobText(ts[i], cs, Nocase, s) <==> Same(!cs, s, ws[i].name))
    ensures NoneRefuses(ts, cs, Nocase, s) <==>
      forall i :: 0 <= i < |ws| && !ws[i].wanted ==> !Same(!cs, s, ws[i].name)
    ensures SomePositive(ts) <==> exists i :: 0 <= i < |ws| && ws[i].wanted
    ensures SomeAdmits(ts, cs, Nocase, s) <==>
      exists i :: 0 <= i < |ws| && ws[i].wanted && Same(!cs, s, ws[i].name)
  {
    hide GlobText, Same, IsNegative;
    assert forall t :: t in ts ==> exists i :: 0 <= i < |ts| && ts[i] == t;
    assert forall i :: 0 <= i < |ts| ==> ts[i] in ts;
  }

  lemma WishIsGlob(w: Wish, cs: bool, s: Text)
    requires Spellable(w)
    ensures IsNegative(Spelled(w)) <==> !w.wanted
    ensures GlobText(Spelled(w), cs, Nocase, s) <==> Same(!cs, s, w.name)
  {
    assert Body(Spelled(w)) == w.name && Copied(Nocase, w.name) == w.name;
    StarlessGlob(!cs, w.name, s);
  }

  // ---------- one test at a time

  function NoTests(): MatchConf { MatchConf(None, None, None, None, None, None, 0) }

  /** A match object is true when each of its members, taken alone, is. */
  lemma MatchIsEach(m: MatchConf, reading: Reading, req: Request)
    ensures MatchMeans(m, reading, req) <==>
      && MatchMeans(NoTests().(scheme := m.scheme), reading, req)
      && MatchMeans(NoTests().(uri := m.uri), reading, req)
      && MatchMeans(NoTests().(verb := m.verb), reading, req)
      && MatchMeans(NoTests().(host := m.host), reading, req)
      && MatchMeans(NoTests().(headers := m.headers), reading, req)
      && MatchMeans(NoTests().(arguments := m.arguments), reading, req)
  {
    hide ListMeans, TableMeans, SameName;
  }

  /** The scheme asks for TLS exactly when it spells https; URIs are compared as they are. */
  lemma SchemeAndUri(t: Text, reading: Reading, req: Request)
    requires 42 !in t && !IsNegative(t)
    ensures MatchMeans(NoTests().(scheme := Some(t)), reading, req) <==>
      (req.tls <==> SameButCase(t, [104, 116, 116, 112, 115]))
    ensures MatchMeans(NoTests().(uri := Some([t])), reading, req) <==> req.uri == t
  {
    hide ListMeans, SameName;
    NamesUpToCase(HTTPS, t);
    SpelledAsIs(t, true, req.uri);
  }

  predicate NoSmall(s: Text) { forall i :: 0 <= i < |s| ==> !(97 <= s[i] <= 122) }

  predicate NoLarge(s: Text) { forall i :: 0 <= i < |s| ==> !(65 <= s[i] <= 90) }

  /** Methods and hosts are spelled in any case, and compared with the upper-case, or lower-case, form. */
  lemma MethodAndHost(t: Text, name: Text, reading: Reading, req: Request)
    requires 42 !in t && !IsNegative(t) && SameButCase(t, name)
    ensures NoSmall(name) ==> (MatchMeans(NoTests().(verb := Some([t])), reading, req) <==> req.verb == name)
    ensures NoLarge(name) ==> (MatchMeans(NoTests().(host := Some([t])), reading, req) <==> req.host == name)
  {
    hide ListMeans;
    if NoSmall(name) {
      SpelledInAnyCase(t, Upper, name, req.verb);
    }
    if NoLarge(name) {
      SpelledInAnyCase(t, Lower, name, req.host);
    }
  }

  /** One field of the name at least, and each of them with the value. */
  ghost predicate AllAre(fields: seq<Field>, caseless: bool, name: Text, value: Text) {
    && (exists i :: 0 <= i < |fields| && Same(caseless, fields[i].name, name))
    && forall i :: 0 <= i < |fields| && Same(caseless, fields[i].name, name) ==> Same(caseless, fields[i].value, value)
  }

  /** Headers are compared up to letter case, names and values; arguments as they are. */
  lemma HeaderAndArgument(name: Text, value: Text, reading: Reading, req: Request)
    requires 42 !in value && !IsNegative(value)
    ensures var table := [[NamedRule(name, [value])]];
      && (MatchMeans(NoTests().(headers := Some(table)), reading, req) <==> AllAre(req.headers, true, name, value))
      && (req.args.None? ==> !MatchMeans(NoTests().(arguments := Some(table)), Plain, req))
      && (req.args.Some? ==> (MatchMeans(NoTests().(arguments := Some(table)), Plain, req) <==>
            AllAre(Arguments(req.args.value, 0), false, name, value)))
  {
    hide ListMeans, SameName, SameButCase, Arguments, FieldsMean;
    var rule := NamedRule(name, [value]);
    OneRule(rule, true, reading, req);
    OneRule(rule, false, Plain, req);
    OneField(req.headers, true, rule, value);
    if req.args.Some? {
      OneField(Arguments(req.args.value, 0), false, rule, value);
    }
  }

  lemma OneRule(rule: NamedRule, header: bool, reading: Reading, req: Request)
    ensures TableMeans([[rule]], header, reading, req) <==> NamedMeans(rule, header, reading, req)
  {
    hide NamedMeans;
    assert [[rule]][0] == [rule] && [rule][0] == rule;
    assert ObjectMeans([rule], header, reading, req) <==> NamedMeans(rule, header, reading, req);
  }

  lemma OneField(fields: seq<Field>, caseless: bool, rule: NamedRule, value: Text)
    requires 42 !in value && !IsNegative(value) && rule.patterns == [value]
    ensures FieldsMean(fields, caseless, rule) <==> AllAre(fields, caseless, rule.name, value)
  {
    hide ListMeans, SameName, SameButCase;
    forall i | 0 <= i < |fields|
      ensures SameName(caseless, rule.name, fields[i].name) <==> Same(caseless, fields[i].name, rule.name)
      ensures ListMeans([value], !caseless, Nocase, fields[i].value) <==> Same(caseless, fields[i].value, value)
    {
      NamesUpToCase(rule.name, fields[i].name);
      SpelledAsIs(value, !caseless, fields[i].value);
    }
  }

  /** Several objects in a table are alternatives, and several rules in an object are all asked for. */
  lemma TablesAreAlternatives(one: seq<seq<NamedRule>>, two: seq<seq<NamedRule>>, header: bool, reading: Reading,
      req: Request)
    requires one != [] && two != []
    ensures TableMeans(one + two, header, reading, req) <==>
      TableMeans(one, header, reading, req) || TableMeans(two, header, reading, req)
  {
    hide ObjectMeans;
    var all := one + two;
    assert forall i :: 0 <= i < |one| ==> all[i] == one[i];
    assert forall i :: 0 <= i < |two| ==> all[|one| + i] == two[i];
    assert forall i :: |one| <= i < |all| ==> all[i] == two[i - |one|];
  }

  lemma RulesAreAllAsked(one: seq<NamedRule>, two: seq<NamedRule>, header: bool, reading: Reading, req: Request)
    ensures TableMeans([one + two], header, reading, req) <==>
      TableMeans([one], header, reading, req) && TableMeans([two], header, reading, req)
  {
    hide NamedMeans;
    var all := one + two;
    assert [all][0] == all && [one][0] == one && [two][0] == two;
    assert forall i :: 0 <= i < |one| ==> all[i] == one[i];
    assert forall i :: 0 <= i < |two| ==> all[|one| + i] == two[i];
    assert forall i :: |one| <= i < |all| ==> all[i] == two[i - |one|];
  }
}
