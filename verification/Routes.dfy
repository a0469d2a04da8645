/** Compiling and choosing routes: src/ngx_http_route.c:159-495 and 1059-1111. */
module Routes {
  import opened Bytes
  import opened Strings
  import opened Pattern
  import opened Route

  // ---------- compiling a rule

  /** ngx_http_route_rule_create: the list is sorted, then each pattern compiled. */
  method CreatePatterns(texts: seq<Text>, cs: bool, c: Case) returns (ps: seq<Pattern>)
    requires AllAccepted(texts)
    ensures |ps| == |texts| && AllUsable(ps) && forall s :: Loop(ps, 0, true, s) <==> ListMeans(texts, cs, c, s)
  {
    hide Compiled, Loop, ListMeans, AllAccepted, AllUsable, CompiledAll;
    var sorted := SortTexts(texts);
    ps := [];
    for i := 0 to |sorted|
      invariant |ps| == i && forall k :: 0 <= k < i ==> ps[k] == Compiled(sorted[k], cs, c)
    {
      var p := Create(sorted[i], cs, c);
      ps := ps + [p];
    }
    assert ps == CompiledAll(sorted, cs, c);
    assert |multiset(sorted)| == |multiset(texts)|;
    OrderDoesNotMatter(texts, sorted, cs, c, []);
    forall s
      ensures Loop(ps, 0, true, s) <==> ListMeans(texts, cs, c, s)
    {
      OrderDoesNotMatter(texts, sorted, cs, c, s);
    }
  }

  /** ngx_http_route_rule_name_create: header names and values match without case, arguments with it. */
  method CreateNamed(nr: NamedRule, header: bool) returns (rule: Rule)
    requires AllAccepted(nr.patterns)
    ensures RuleOk(rule) && rule.target == (if header then Header else Query)
    ensures forall req :: RuleHolds(rule, req) <==> NamedMeans(nr, header, Taken, req)
  {
    hide NameHash, Loop, ListMeans;
    var ps := CreatePatterns(nr.patterns, !header, Nocase);
    var hash := HashOf(nr.name, header);
    rule := Rule(if header then Header else Query, nr.name, hash, ps);
    forall req
      ensures RuleHolds(rule, req) <==> NamedMeans(nr, header, Taken, req)
    {
      NamedRequest(rule, nr, header, req);
    }
  }

  // The compiled rule, seen from one request.
  lemma NamedRequest(rule: Rule, nr: NamedRule, header: bool, req: Request)
    requires RuleOk(rule) && rule.target == (if header then Header else Query)
    requires rule.name == nr.name && rule.hash == NameHash(nr.name, header)
    requires forall s :: Loop(rule.patterns, 0, true, s) <==> ListMeans(nr.patterns, !header, Nocase, s)
    ensures RuleHolds(rule, req) <==> NamedMeans(nr, header, Taken, req)
  {
    hide NameHash, Loop, ListMeans, FieldsMean, OccurrencesMean, HeadersHold, QueryHolds;
    if header {
      HeadersMean(rule, nr, req.headers);
    } else if req.args.Some? {
      QueryMeans(rule, nr, req.args.value);
    }
  }

  lemma HeadersMean(rule: Rule, nr: NamedRule, hs: seq<Field>)
    requires rule.name == nr.name && rule.hash == NameHash(nr.name, true)
    requires forall s :: Loop(rule.patterns, 0, true, s) <==> ListMeans(nr.patterns, false, Nocase, s)
    ensures HeadersHold(rule, hs) <==> FieldsMean(hs, true, nr)
  {
    forall i | 0 <= i < |hs|
      ensures HeaderHit(rule, hs[i]) <==> SameName(true, nr.name, hs[i].name)
    {
      if SameName(true, nr.name, hs[i].name) {
        SameNameSameHash(true, nr.name, hs[i].name, HASH_INIT);
      }
    }
  }

  lemma {:induction false} EntriesAreOccurrences(args: Text, q: nat)
    requires q <= |args|
    ensures Tallies(Entries(args, q), Occurrences(args, q))
    decreases |args| - q
  {
    hide NameHash, ScanOf, Entry, Parsed;
    var e := Ampersand(args, q);
    EntryIsParsed(args, q, e);
    if e < |args| {
      EntriesAreOccurrences(args, e + 1);
    }
  }

  lemma QueryMeans(rule: Rule, nr: NamedRule, args: Text)
    requires rule.name == nr.name && rule.hash == NameHash(nr.name, false)
    requires forall s :: Loop(rule.patterns, 0, true, s) <==> ListMeans(nr.patterns, true, Nocase, s)
    ensures QueryHolds(rule, Entries(args, 0)) <==> OccurrencesMean(Occurrences(args, 0), nr)
  {
    hide NameHash, Entries, Occurrences, ListMeans, Loop;
    EntriesAreOccurrences(args, 0);
    var nvs, os := Entries(args, 0), Occurrences(args, 0);
    assert forall i :: 0 <= i < |nvs| ==> (QueryHit(rule, nvs[i]) <==> Finds(nr, os[i]));
  }

  // ---------- compiling a match object

  ghost predicate Fulfils(rule: Rule, nr: NamedRule, header: bool) {
    RuleOk(rule) && forall req :: RuleHolds(rule, req) <==> NamedMeans(nr, header, Taken, req)
  }

  /** ngx_http_route_ruleset_create */
  method CreateRuleset(nrs: seq<NamedRule>, header: bool) returns (rules: seq<Rule>)
    requires forall j :: 0 <= j < |nrs| ==> AllAccepted(nrs[j].patterns)
    ensures AllOk(rules) && forall req :: RulesetHolds(rules, req) <==> ObjectMeans(nrs, header, Taken, req)
  {
    hide NamedMeans, RuleHolds, AllAccepted;
    rules := [];
    for i := 0 to |nrs|
      invariant |rules| == i && forall k :: 0 <= k < i ==> Fulfils(rules[k], nrs[k], header)
    {
      var rule := CreateNamed(nrs[i], header);
      rules := rules + [rule];
    }
  }

  /** ngx_http_route_table_create */
  method CreateTable(table: seq<seq<NamedRule>>, header: bool) returns (t: Test)
    requires TableAccepted(table)
    ensures TestOk(t) && forall req :: TestHolds(t, req) <==> TableMeans(table, header, Taken, req)
  {
    hide ObjectMeans, RulesetHolds;
    var rulesets: seq<seq<Rule>> := [];
    for i := 0 to |table|
      invariant |rulesets| == i && forall k :: 0 <= k < i ==> AllOk(rulesets[k])
      invariant forall k, req :: 0 <= k < i ==>
        (RulesetHolds(rulesets[k], req) <==> ObjectMeans(table[k], header, Taken, req))
    {
      var rules := CreateRuleset(table[i], header);
      rulesets := rulesets + [rules];
    }
    t := TableTest(rulesets);
  }

  method CreateScheme(scheme: Text) returns (t: Test)
    requires SameName(true, HTTP, scheme) || SameName(true, HTTPS, scheme)
    ensures TestOk(t) && forall req :: TestHolds(t, req) <==> (req.tls <==> SameName(true, HTTPS, scheme))
  {
    var p := Create(scheme, true, Nocase);
    SchemePattern(scheme);
    t := RuleTest(Rule(Scheme, [], 0, [p]));
  }

  // Neither scheme has a '!' or a '*' in it, so the compiled length tells them apart.
  lemma SchemePattern(scheme: Text)
    requires SameName(true, HTTP, scheme) || SameName(true, HTTPS, scheme)
    ensures Usable(Compiled(scheme, true, Nocase)) && |Compiled(scheme, true, Nocase).start1| == |scheme|
    ensures SameName(true, HTTPS, scheme) <==> |scheme| == 5
  {
    forall k | 0 <= k < |scheme|
      ensures scheme[k] != STAR && scheme[k] != BANG
    {
      if SameName(true, HTTP, scheme) {
        assert CaseFold(true, scheme[k]) == CaseFold(true, HTTP[k]);
      } else {
        assert CaseFold(true, scheme[k]) == CaseFold(true, HTTPS[k]);
      }
    }
    assert OneStar(Body(scheme), |scheme|);
    PatternIsGlob(scheme, true, Nocase, []);
  }

  function Selected(target: Target, req: Request): Text {
    if target.Uri? then req.uri else if target.Verb? then req.verb else req.host
  }

  method CreateString(target: Target, texts: seq<Text>, c: Case) returns (t: Test)
    requires AllAccepted(texts) && (target.Uri? || target.Verb? || target.Host?)
    ensures TestOk(t) && t.RuleTest?
    ensures forall req :: TestHolds(t, req) <==> ListMeans(texts, true, c, Selected(target, req))
  {
    var ps := CreatePatterns(texts, true, c);
    t := RuleTest(Rule(target, [], 0, ps));
  }

  function CountOf<T>(o: Option<T>): nat { if o.Some? then 1 else 0 }

  /** The number of members of the match object: the size of the zeroed test array. */
  function Members(m: MatchConf): nat {
    CountOf(m.scheme) + CountOf(m.uri) + CountOf(m.verb) + CountOf(m.host) + CountOf(m.headers) + CountOf(m.arguments)
      + m.others
  }

  /** A compiled match object; the tests behind the compiled ones are null pointers. */
  datatype Match = Match(tests: seq<Test>, items: nat, action: int)

  ghost predicate TestsOk(ts: seq<Test>) { forall i :: 0 <= i < |ts| ==> TestOk(ts[i]) }

  ghost predicate AllHold(ts: seq<Test>, req: Request)
    requires TestsOk(ts)
  {
    forall i :: 0 <= i < |ts| ==> TestHolds(ts[i], req)
  }

  // Adding a test adds its condition.
  lemma OneMore(ts: seq<Test>, t: Test, req: Request)
    requires TestsOk(ts) && TestOk(t)
    ensures TestsOk(ts + [t]) && (AllHold(ts + [t], req) <==> AllHold(ts, req) && TestHolds(t, req))
  {
    var us := ts + [t];
    if AllHold(us, req) {
      forall i | 0 <= i < |ts|
        ensures TestHolds(ts[i], req)
      {
        assert us[i] == ts[i];
      }
      assert us[|ts|] == t;
    }
  }

  method Append(ts: seq<Test>, t: Test) returns (us: seq<Test>)
    requires TestsOk(ts) && TestOk(t)
    ensures TestsOk(us) && |us| == |ts| + 1 && forall req :: AllHold(us, req) <==> AllHold(ts, req) && TestHolds(t, req)
  {
    us := ts + [t];
    forall req
      ensures TestsOk(us) && (AllHold(us, req) <==> AllHold(ts, req) && TestHolds(t, req))
    {
      OneMore(ts, t, req);
    }
  }

  // The part of a match object's meaning that the first four tests express.
  ghost predicate StringsMean(m: MatchConf, req: Request) {
    && (m.scheme.Some? ==> (req.tls <==> SameName(true, HTTPS, m.scheme.value)))
    && (m.uri.Some? ==> ListMeans(m.uri.value, true, Nocase, req.uri))
    && (m.verb.Some? ==> ListMeans(m.verb.value, true, Upper, req.verb))
    && (m.host.Some? ==> ListMeans(m.host.value, true, Lower, req.host))
  }

  method CreateStrings(m: MatchConf) returns (ts: seq<Test>)
    requires Validated(m)
    ensures TestsOk(ts) && |ts| == CountOf(m.scheme) + CountOf(m.uri) + CountOf(m.verb) + CountOf(m.host)
    ensures forall req :: AllHold(ts, req) <==> StringsMean(m, req)
  {
    hide ListMeans;
    ts := [];
    if m.scheme.Some? {
      var t := CreateScheme(m.scheme.value);
      ts := Append(ts, t);
    }
    if m.uri.Some? {
      var t := CreateString(Uri, m.uri.value, Nocase);
      ts := Append(ts, t);
    }
    if m.verb.Some? {
      var t := CreateString(Verb, m.verb.value, Upper);
      ts := Append(ts, t);
    }
    if m.host.Some? {
      var t := CreateString(Host, m.host.value, Lower);
      ts := Append(ts, t);
    }
  }

  /** ngx_http_route_match_create: one test for each member it knows. */
  method CreateMatch(m: MatchConf, action: int) returns (r: Match)
    requires Validated(m)
    ensures TestsOk(r.tests) && r.items == Members(m) && |r.tests| == r.items - m.others && r.action == action
    ensures forall req :: AllHold(r.tests, req) <==> MatchMeans(m, Taken, req)
  {
    var ts := CreateStrings(m);
    if m.headers.Some? {
      var t := CreateTable(m.headers.value, true);
      ts := Append(ts, t);
    }
    if m.arguments.Some? {
      var t := CreateTable(m.arguments.value, false);
      ts := Append(ts, t);
    }
    r := Match(ts, Members(m), action);
  }

  // ---------- choosing a route

  /** What walking the test array comes to; NullTest is the dereference of a null test pointer. */
  datatype Verdict = Yes | No | NullTest

  /** ngx_http_route_match */
  method ApplyMatch(m: Match, req: Request) returns (v: Verdict)
    requires TestsOk(m.tests) && |m.tests| <= m.items
    ensures v.No? <==> !AllHold(m.tests, req)
    ensures v.NullTest? <==> AllHold(m.tests, req) && |m.tests| < m.items
  {
    for i := 0 to m.items
      invariant i <= |m.tests| && forall k :: 0 <= k < i ==> TestHolds(m.tests[k], req)
    {
      if i == |m.tests| {
        return NullTest;
      }
      var ret := ApplyTest(m.tests[i], req);
      if !ret {
        return No;
      }
    }
    return Yes;
  }

  datatype RouteConf = RouteConf(conf: MatchConf, action: int)

  /** Route i is the first one that is true of the request. */
  ghost predicate First(routes: seq<RouteConf>, reading: Reading, i: nat, req: Request) {
    i < |routes| && MatchMeans(routes[i].conf, reading, req) && NoneBefore(routes, reading, i, req)
  }

  ghost predicate NoneBefore(routes: seq<RouteConf>, reading: Reading, i: nat, req: Request) {
    forall k :: 0 <= k < i && k < |routes| ==> !MatchMeans(routes[k].conf, reading, req)
  }

  /**
   * The answer for a request: the action of the first route that is true of it, none if there is none, and a walk onto
   * a null pointer when that route has a member without a test.
   */
  ghost predicate Answer(routes: seq<RouteConf>, reading: Reading, req: Request, action: Option<int>, failed: bool) {
    if NoneBefore(routes, reading, |routes|, req) then action.None? && !failed
    else exists i: nat :: First(routes, reading, i, req) && Chosen(routes[i], action, failed)
  }

  predicate Chosen(route: RouteConf, action: Option<int>, failed: bool) {
    (failed <==> route.conf.others > 0) && action == if failed then None else Some(route.action)
  }

  /** ngx_http_routes_create */
  method CreateRoutes(routes: seq<RouteConf>) returns (ms: seq<Match>)
    requires forall i :: 0 <= i < |routes| ==> Validated(routes[i].conf)
    ensures |ms| == |routes| && forall i :: 0 <= i < |routes| ==> Compiles(routes[i], ms[i])
  {
    ms := [];
    for i := 0 to |routes|
      invariant |ms| == i && forall k :: 0 <= k < i ==> Compiles(routes[k], ms[k])
    {
      var m := CreateMatch(routes[i].conf, routes[i].action);
      ms := ms + [m];
    }
  }

  ghost predicate Compiles(route: RouteConf, m: Match) {
    && TestsOk(m.tests) && m.items == |m.tests| + route.conf.others && m.action == route.action
    && forall req :: AllHold(m.tests, req) <==> MatchMeans(route.conf, Taken, req)
  }

  /** ngx_http_route_action over compiled routes */
  method RouteAction(ghost routes: seq<RouteConf>, ms: seq<Match>, req: Request)
    returns (action: Option<int>, failed: bool)
    requires |ms| == |routes| && forall i :: 0 <= i < |routes| ==> Compiles(routes[i], ms[i])
    ensures Answer(routes, Taken, req, action, failed)
  {
    hide MatchMeans;
    for i := 0 to |ms|
      invariant NoneBefore(routes, Taken, i, req)
    {
      assert Compiles(routes[i], ms[i]);
      var v := ApplyMatch(ms[i], req);
      if !v.No? {
        assert First(routes, Taken, i, req);
        return if v.Yes? then Some(ms[i].action) else None, v.NullTest?;
      }
    }
    return None, false;
  }

  // The answer is unique.
  lemma OneAnswer(
      routes: seq<RouteConf>, reading: Reading, req: Request, a: Option<int>, f: bool, b: Option<int>, g: bool)
    requires Answer(routes, reading, req, a, f) && Answer(routes, reading, req, b, g)
    ensures a == b && f == g
  {
    hide MatchMeans;
    if !NoneBefore(routes, reading, |routes|, req) {
      var i: nat :| First(routes, reading, i, req) && Chosen(routes[i], a, f);
      var j: nat :| First(routes, reading, j, req) && Chosen(routes[j], b, g);
      assert i == j;
    }
  }

  /** The case of the letters in methods and hosts makes no difference to the answer. */
  lemma SpellingOfRoutes(
      routes: seq<RouteConf>, others: seq<RouteConf>, reading: Reading, req: Request, action: Option<int>, failed: bool)
    requires |routes| == |others|
    requires forall i :: 0 <= i < |routes| ==>
      SpelledAlike(routes[i].conf, others[i].conf) && others[i].action == routes[i].action
    ensures Answer(routes, reading, req, action, failed) <==> Answer(others, reading, req, action, failed)
  {
    hide SpelledAlike;
    forall i | 0 <= i < |routes|
      ensures MatchMeans(routes[i].conf, reading, req) <==> MatchMeans(others[i].conf, reading, req)
      ensures routes[i].conf.others == others[i].conf.others
    {
      SpellingIsFree(routes[i].conf, others[i].conf, reading, req);
      SameOthers(routes[i].conf, others[i].conf);
    }
    hide MatchMeans;
    forall i: nat | i < |routes|
      ensures First(routes, reading, i, req) <==> First(others, reading, i, req)
    {
    }
    assert NoneBefore(routes, reading, |routes|, req) <==> NoneBefore(others, reading, |others|, req);
  }

  lemma SameOthers(m: MatchConf, w: MatchConf)
    requires SpelledAlike(m, w)
    ensures m.others == w.others
  {
  }

  // Where the two readings of every route agree, so do the answers.
  lemma SimpleAnswer(routes: seq<RouteConf>, req: Request, action: Option<int>, failed: bool)
    requires SimpleRequest(req) && Answer(routes, Taken, req, action, failed)
    ensures Answer(routes, Plain, req, action, failed)
  {
    forall k | 0 <= k < |routes|
      ensures MatchMeans(routes[k].conf, Taken, req) <==> MatchMeans(routes[k].conf, Plain, req)
    {
      SimpleReading(routes[k].conf, req);
    }
    hide MatchMeans;
    if !NoneBefore(routes, Taken, |routes|, req) {
      var i: nat :| First(routes, Taken, i, req) && Chosen(routes[i], action, failed);
      assert First(routes, Plain, i, req);
    }
  }

  /** Compile, then match: the answer is that of the written routes, read as the code reads a query string. */
  method ChooseAction(routes: seq<RouteConf>, req: Request) returns (action: Option<int>, failed: bool)
    requires forall i :: 0 <= i < |routes| ==> Validated(routes[i].conf)
    ensures Answer(routes, Taken, req, action, failed)
    ensures SimpleRequest(req) ==> Answer(routes, Plain, req, action, failed)
  {
    var ms := CreateRoutes(routes);
    action, failed := RouteAction(routes, ms, req);
    if SimpleRequest(req) {
      SimpleAnswer(routes, req, action, failed);
    }
  }
}
