/** `RuleEvaluator.Alters`: every search of a rule becomes its list of filters,
    every condition its list of tokens, and every condition a query in which
    each token that names a search is replaced by that search's filters joined
    with " and ". */
module Rule {
  import opened Common
  import opened Condition
  import opened SearchEval
  import opened Synthetic
  import opened Modifiers

  datatype Logsource = Logsource(product: Str, service: Str)

  /** The detection section: named searches and the parsed conditions (their
      aggregations are not evaluated). */
  datatype Detection = Detection(searches: map<Str, Search>, conditions: seq<SearchExpr>)

  datatype SigmaRule = SigmaRule(logsource: Logsource, detection: Detection)

  /** `Result`. */
  datatype Result = Result(
    searches: map<Str, seq<Str>>,
    conditions: map<nat, Tokens>,
    sourceTypes: map<nat, Str>,
    queries: map<nat, Str>)

  /** `order` lists every search name exactly once: the order in which the map
      range visits them. */
  predicate ListsSearches(rule: SigmaRule, order: seq<Str>) {
    (forall k :: k in order ==> k in rule.detection.searches) &&
    (forall k :: k in rule.detection.searches ==> k in order) &&
    (forall a, b :: 0 <= a < b < |order| ==> order[a] != order[b])
  }

  // -------------------------------------------------------------- searches

  /** The loop over the searches from position `i` of the visiting order. */
  function SearchesFrom(rule: SigmaRule, env: Env, order: seq<Str>, i: nat, d: Draws, pos: nat,
                        acc: map<Str, seq<Str>>): Outcome<(map<Str, seq<Str>>, nat)>
    requires i <= |order|
    requires forall k :: k in order ==> k in rule.detection.searches
    decreases |order| - i
  {
    if i == |order| then Ok((acc, pos))
    else
      var k := order[i];
      match EvaluateSearch(env, rule.detection.searches[k], d, pos)
      case Fail(e) => Fail(SearchFailed(k, e))
      case Crash(f) => Crash(f)
      case Ok(fp) => SearchesFrom(rule, env, order, i + 1, d, fp.1, acc[k := fp.0])
  }

  /** The search names visited from position `i` on. */
  function Visited(order: seq<Str>, i: nat): set<Str>
    requires i <= |order|
  {
    set j | i <= j < |order| :: order[j]
  }

  /** The filters some evaluation of the search returns. */
  ghost predicate FiltersOfSearch(env: Env, s: Search, d: Draws, fs: seq<Str>) {
    exists q: nat, q2: nat :: EvaluateSearch(env, s, d, q) == Ok((fs, q2))
  }

  lemma {:induction false} SearchesFromSpec(rule: SigmaRule, env: Env, order: seq<Str>, i: nat, d: Draws, pos: nat,
                                            acc: map<Str, seq<Str>>)
    requires i <= |order|
    requires ListsSearches(rule, order)
    ensures var r := SearchesFrom(rule, env, order, i, d, pos, acc);
      (r.Ok? ==> r.value.0.Keys == acc.Keys + Visited(order, i)) &&
      (r.Ok? ==> forall j :: i <= j < |order| ==>
        FiltersOfSearch(env, rule.detection.searches[order[j]], d, r.value.0[order[j]])) &&
      (r.Ok? ==> forall k :: k in acc && k !in Visited(order, i) ==> r.value.0[k] == acc[k]) &&
      (r.Fail? ==> exists j :: i <= j < |order| && r.error.SearchFailed? && r.error.identifier == order[j])
  {
    SearchesFromKeys(rule, env, order, i, d, pos, acc);
    SearchesFromFilters(rule, env, order, i, d, pos, acc);
    SearchesFromKeeps(rule, env, order, i, d, pos, acc);
    SearchesFromFails(rule, env, order, i, d, pos, acc);
  }

  lemma {:induction false} SearchesFromKeys(rule: SigmaRule, env: Env, order: seq<Str>, i: nat, d: Draws, pos: nat,
                                            acc: map<Str, seq<Str>>)
    requires i <= |order|
    requires forall k :: k in order ==> k in rule.detection.searches
    ensures var r := SearchesFrom(rule, env, order, i, d, pos, acc);
      r.Ok? ==> r.value.0.Keys == acc.Keys + Visited(order, i)
    decreases |order| - i
  {
    if i < |order| {
      var k := order[i];
      var e := EvaluateSearch(env, rule.detection.searches[k], d, pos);
      if e.Ok? {
        SearchesFromKeys(rule, env, order, i + 1, d, e.value.1, acc[k := e.value.0]);
        assert Visited(order, i) == {k} + Visited(order, i + 1);
      }
    }
  }

  lemma {:induction false} SearchesFromFilters(rule: SigmaRule, env: Env, order: seq<Str>, i: nat, d: Draws, pos: nat,
                                               acc: map<Str, seq<Str>>)
    requires i <= |order|
    requires ListsSearches(rule, order)
    ensures var r := SearchesFrom(rule, env, order, i, d, pos, acc);
      r.Ok? && r.value.0.Keys == acc.Keys + Visited(order, i) ==> forall j :: i <= j < |order| ==>
        FiltersOfSearch(env, rule.detection.searches[order[j]], d, r.value.0[order[j]])
    decreases |order| - i
  {
    if i < |order| {
      var k := order[i];
      var e := EvaluateSearch(env, rule.detection.searches[k], d, pos);
      if e.Ok? {
        var acc' := acc[k := e.value.0];
        SearchesFromKeys(rule, env, order, i + 1, d, e.value.1, acc');
        SearchesFromFilters(rule, env, order, i + 1, d, e.value.1, acc');
        FirstSearchFilters(rule, env, order, i, d, pos, acc);
      }
    }
  }

  /** The entry for the search at `i` holds what its evaluation returned. */
  lemma FirstSearchFilters(rule: SigmaRule, env: Env, order: seq<Str>, i: nat, d: Draws, pos: nat,
                           acc: map<Str, seq<Str>>)
    requires i < |order|
    requires ListsSearches(rule, order)
    ensures var r := SearchesFrom(rule, env, order, i, d, pos, acc);
      r.Ok? && order[i] in r.value.0 ==>
        FiltersOfSearch(env, rule.detection.searches[order[i]], d, r.value.0[order[i]])
  {
    var k := order[i];
    var e := EvaluateSearch(env, rule.detection.searches[k], d, pos);
    if e.Ok? {
      var acc' := acc[k := e.value.0];
      var r := SearchesFrom(rule, env, order, i, d, pos, acc);
      assert r == SearchesFrom(rule, env, order, i + 1, d, e.value.1, acc');
      if r.Ok? {
        SearchesFromKeys(rule, env, order, i + 1, d, e.value.1, acc');
        SearchesFromKeeps(rule, env, order, i + 1, d, e.value.1, acc');
        VisitedOnce(order, i);
        assert r.value.0[k] == e.value.0;
        assert FiltersOfSearch(env, rule.detection.searches[k], d, e.value.0);
      }
    }
  }

  /** Map keys are visited once: the name at `i` does not come again. */
  lemma VisitedOnce(order: seq<Str>, i: nat)
    requires i < |order|
    requires forall a, b :: 0 <= a < b < |order| ==> order[a] != order[b]
    ensures order[i] !in Visited(order, i + 1)
  {
  }

  lemma {:induction false} SearchesFromKeeps(rule: SigmaRule, env: Env, order: seq<Str>, i: nat, d: Draws, pos: nat,
                                             acc: map<Str, seq<Str>>)
    requires i <= |order|
    requires forall k :: k in order ==> k in rule.detection.searches
    ensures var r := SearchesFrom(rule, env, order, i, d, pos, acc);
      r.Ok? && r.value.0.Keys == acc.Keys + Visited(order, i) ==>
        forall k :: k in acc && k !in Visited(order, i) ==> r.value.0[k] == acc[k]
    decreases |order| - i
  {
    if i < |order| {
      var k := order[i];
      var e := EvaluateSearch(env, rule.detection.searches[k], d, pos);
      if e.Ok? {
        SearchesFromKeeps(rule, env, order, i + 1, d, e.value.1, acc[k := e.value.0]);
        SearchesFromKeys(rule, env, order, i + 1, d, e.value.1, acc[k := e.value.0]);
        assert Visited(order, i) == {k} + Visited(order, i + 1);
      }
    }
  }

  lemma {:induction false} SearchesFromFails(rule: SigmaRule, env: Env, order: seq<Str>, i: nat, d: Draws, pos: nat,
                                             acc: map<Str, seq<Str>>)
    requires i <= |order|
    requires forall k :: k in order ==> k in rule.detection.searches
    ensures var r := SearchesFrom(rule, env, order, i, d, pos, acc);
      r.Fail? ==> exists j :: i <= j < |order| && r.error.SearchFailed? && r.error.identifier == order[j]
    decreases |order| - i
  {
    if i < |order| {
      var k := order[i];
      var e := EvaluateSearch(env, rule.detection.searches[k], d, pos);
      if e.Ok? {
        SearchesFromFails(rule, env, order, i + 1, d, e.value.1, acc[k := e.value.0]);
      }
    }
  }

  /** A search with keywords stops the evaluation: the loop never gets past it. */
  lemma {:induction false} KeywordsStop(rule: SigmaRule, env: Env, order: seq<Str>, i: nat, d: Draws, pos: nat,
                                        acc: map<Str, seq<Str>>, j: nat)
    requires i <= j < |order|
    requires forall k :: k in order ==> k in rule.detection.searches
    requires |rule.detection.searches[order[j]].keywords| > 0
    ensures !SearchesFrom(rule, env, order, i, d, pos, acc).Ok?
    decreases j - i
  {
    var e := EvaluateSearch(env, rule.detection.searches[order[i]], d, pos);
    if i < j && e.Ok? {
      KeywordsStop(rule, env, order, i + 1, d, e.value.1, acc[order[i] := e.value.0], j);
    }
  }

  // --------------------------------------------------------------- queries

  /** What one condition token becomes in the query: a search name is
      replaced by the search's filters joined with " and ", in parentheses
      when the condition has more than one token; any other token is kept. */
  function Substitute(filters: map<Str, seq<Str>>, tokens: Tokens, t: Str): Str
  {
    if t in filters then
      if |tokens| > 1 then Open + Join(filters[t], AndGlue) + Close
      else if |filters[t]| > 1 then Join(filters[t], AndGlue)
      else Join(filters[t], [])
    else t
  }

  /** The loop building `conditionList`. */
  function ConditionList(filters: map<Str, seq<Str>>, tokens: Tokens, i: nat, acc: seq<Str>): seq<Str>
    requires i <= |tokens|
    decreases |tokens| - i
  {
    if i == |tokens| then acc
    else ConditionList(filters, tokens, i + 1, acc + [Substitute(filters, tokens, tokens[i])])
  }

  /** The query of one condition. */
  function Query(filters: map<Str, seq<Str>>, tokens: Tokens): Str
  {
    Concat(ConditionList(filters, tokens, 0, []))
  }

  /** A search's filters joined with " and ". */
  function Conjunction(fs: seq<Str>): Str {
    Join(fs, AndGlue)
  }

  /** The query defined token by token instead of by accumulation. */
  function QueryRef(filters: map<Str, seq<Str>>, tokens: Tokens): Str
  {
    Concat(seq(|tokens|, k requires 0 <= k < |tokens| =>
      if tokens[k] in filters then Paren(|tokens| > 1, Conjunction(filters[tokens[k]])) else tokens[k]))
  }

  lemma {:induction false} ConditionListSpec(filters: map<Str, seq<Str>>, tokens: Tokens, i: nat, acc: seq<Str>)
    requires i <= |tokens|
    ensures var r := ConditionList(filters, tokens, i, acc);
      |r| == |acc| + |tokens| - i && r[..|acc|] == acc &&
      forall k :: i <= k < |tokens| ==> r[|acc| + k - i] == Substitute(filters, tokens, tokens[k])
    decreases |tokens| - i
  {
    if i < |tokens| {
      var acc' := acc + [Substitute(filters, tokens, tokens[i])];
      ConditionListSpec(filters, tokens, i + 1, acc');
      var r := ConditionList(filters, tokens, i, acc);
      assert r[..|acc'|][..|acc|] == acc;
      assert r[..|acc|] == r[..|acc'|][..|acc|];
    }
  }

  lemma JoinShort(fs: seq<Str>)
    requires |fs| <= 1
    ensures Join(fs, []) == Join(fs, AndGlue)
  {
  }

  /** The query is the concatenation of the tokens, each search name replaced
      by the conjunction of its filters, parenthesised when the condition has
      several tokens. */
  lemma QueryTokens(filters: map<Str, seq<Str>>, tokens: Tokens)
    ensures var l := ConditionList(filters, tokens, 0, []);
      Query(filters, tokens) == Concat(l) && |l| == |tokens| &&
      forall k :: 0 <= k < |tokens| ==>
        l[k] == (if tokens[k] in filters then Paren(|tokens| > 1, Conjunction(filters[tokens[k]])) else tokens[k])
  {
    ConditionListSpec(filters, tokens, 0, []);
    var l := ConditionList(filters, tokens, 0, []);
    forall k | 0 <= k < |tokens|
      ensures l[k] == (if tokens[k] in filters then Paren(|tokens| > 1, Conjunction(filters[tokens[k]])) else tokens[k])
    {
      assert l[k] == Substitute(filters, tokens, tokens[k]);
      if tokens[k] in filters && |tokens| <= 1 && |filters[tokens[k]]| <= 1 {
        JoinShort(filters[tokens[k]]);
      }
    }
  }

  lemma QueryIsRef(filters: map<Str, seq<Str>>, tokens: Tokens)
    ensures Query(filters, tokens) == QueryRef(filters, tokens)
  {
    QueryTokens(filters, tokens);
    var l := ConditionList(filters, tokens, 0, []);
    assert l == seq(|tokens|, k requires 0 <= k < |tokens| =>
      if tokens[k] in filters then Paren(|tokens| > 1, Conjunction(filters[tokens[k]])) else tokens[k]);
  }

  /** A condition that is a single search name queries the conjunction of
      that search's filters, without parentheses. */
  lemma SingleSearchQuery(filters: map<Str, seq<Str>>, name: Str)
    requires name in filters
    ensures Query(filters, [name]) == Conjunction(filters[name])
  {
    QueryTokens(filters, [name]);
    var l := ConditionList(filters, [name], 0, []);
    assert l == [l[0]];
  }

  /** `a or b` queries `(<filters of a>) or (<filters of b>)`. */
  lemma TwoSearchesOr(filters: map<Str, seq<Str>>, a: Str, b: Str, glob: (Str, Str) -> bool)
    requires a in filters && b in filters && OrGlue !in filters
    ensures var tokens := Walk(Scope([a, b], glob), Or([Ident(a), Ident(b)]), [], true);
      Query(filters, tokens) ==
        Open + Conjunction(filters[a]) + Close + OrGlue + Open + Conjunction(filters[b]) + Close
  {
    var s := Scope([a, b], glob);
    var e := Or([Ident(a), Ident(b)]);
    WalkEmit(s, e, [], true);
    assert EmitEach(s, e, 2, OrGlue, true) == [];
    assert EmitEach(s, e, 1, OrGlue, true) == [OrGlue] + [b] + [];
    assert EmitEach(s, e, 0, OrGlue, false) == [a] + [OrGlue, b];
    var tokens := [a, OrGlue, b];
    assert Walk(s, e, [], true) == tokens;
    QueryTokens(filters, tokens);
    var l := ConditionList(filters, tokens, 0, []);
    var pa := Open + Conjunction(filters[a]) + Close;
    var pb := Open + Conjunction(filters[b]) + Close;
    assert l == [pa, OrGlue, pb];
    ConcatCons(pa, [OrGlue, pb]);
    ConcatCons(OrGlue, [pb]);
    assert [pa, OrGlue, pb] == [pa] + [OrGlue, pb];
    assert [OrGlue, pb] == [OrGlue] + [pb];
    assert [pb] == [pb] + [];
  }

  // -------------------------------------------------------------- sourcetype

  /** The sourcetype: "product service", or the product alone, or none
      without a product. */
  function SourceType(ls: Logsource): (r: Option<Str>)
    ensures r.Some? <==> ls.product != []
    ensures r.Some? ==> HasPrefix(r.value, ls.product)
    ensures r.Some? && ls.service == [] ==> r.value == ls.product
    ensures r.Some? && ls.service != [] ==> r.value[|ls.product|..] == Txt(" ") + ls.service
  {
    if ls.product != [] && ls.service != [] then Some(ls.product + Txt(" ") + ls.service)
    else if ls.product != [] && ls.service == [] then Some(ls.product)
    else None
  }

  // ----------------------------------------------------------------- Alters

  /** `Alters`: a search that fails stops everything with an error naming it. */
  function Alters(rule: SigmaRule, env: Env, order: seq<Str>, glob: (Str, Str) -> bool, d: Draws, pos: nat): Outcome<(Result, nat)>
    requires ListsSearches(rule, order)
  {
    var sp :- SearchesFrom(rule, env, order, 0, d, pos, map[]);
    var searches := sp.0;
    var conds := rule.detection.conditions;
    var scope := Scope(order, glob);
    var conditions := map i: nat | i < |conds| :: Walk(scope, conds[i], [], true);
    var queries := map i | i in conditions :: Query(searches, conditions[i]);
    var st := SourceType(rule.logsource);
    var sourceTypes := if st.Some? then map i | i in conditions :: st.value else map[];
    Ok((Result(searches, conditions, sourceTypes, queries), sp.1))
  }

  /** Every search gets an entry, holding the filters an evaluation of that
      search returns. */
  lemma AltersSearches(rule: SigmaRule, env: Env, order: seq<Str>, glob: (Str, Str) -> bool, d: Draws, pos: nat)
    requires ListsSearches(rule, order)
    ensures var r := Alters(rule, env, order, glob, d, pos);
      (r.Ok? ==> r.value.0.searches.Keys == rule.detection.searches.Keys) &&
      (r.Ok? ==> forall k :: k in rule.detection.searches ==>
        FiltersOfSearch(env, rule.detection.searches[k], d, r.value.0.searches[k]))
  {
    SearchesFromSpec(rule, env, order, 0, d, pos, map[]);
    var r := Alters(rule, env, order, glob, d, pos);
    if r.Ok? {
      assert Visited(order, 0) == rule.detection.searches.Keys by {
        forall k | k in rule.detection.searches ensures k in Visited(order, 0) {
          var j :| 0 <= j < |order| && order[j] == k;
        }
      }
      forall k | k in rule.detection.searches
        ensures FiltersOfSearch(env, rule.detection.searches[k], d, r.value.0.searches[k])
      {
        var j :| 0 <= j < |order| && order[j] == k;
      }
    }
  }

  /** Condition `i` becomes the tokens of its expression, walked at the top
      level with nothing before it, and its query substitutes the searches'
      filters into those tokens; there is one entry per condition. */
  lemma AltersConditions(rule: SigmaRule, env: Env, order: seq<Str>, glob: (Str, Str) -> bool, d: Draws, pos: nat)
    requires ListsSearches(rule, order)
    ensures var r := Alters(rule, env, order, glob, d, pos);
      var conds := rule.detection.conditions;
      (r.Ok? ==> forall i: nat :: (i in r.value.0.conditions <==> i < |conds|) && (i in r.value.0.queries <==> i < |conds|)) &&
      (r.Ok? ==> forall i: nat :: i < |conds| ==>
        r.value.0.conditions[i] == Emit(Scope(order, glob), conds[i], true, false) &&
        r.value.0.queries[i] == QueryRef(r.value.0.searches, r.value.0.conditions[i]))
  {
    var r := Alters(rule, env, order, glob, d, pos);
    if r.Ok? {
      forall i: nat | i < |rule.detection.conditions|
        ensures r.value.0.conditions[i] == Emit(Scope(order, glob), rule.detection.conditions[i], true, false)
        ensures r.value.0.queries[i] == QueryRef(r.value.0.searches, r.value.0.conditions[i])
      {
        WalkEmit(Scope(order, glob), rule.detection.conditions[i], [], true);
        QueryIsRef(r.value.0.searches, r.value.0.conditions[i]);
      }
    }
  }

  /** Every condition gets the same sourcetype when the rule names a product:
      "product service", or the product alone without a service; none
      otherwise. */
  lemma AltersSourceTypes(rule: SigmaRule, env: Env, order: seq<Str>, glob: (Str, Str) -> bool, d: Draws, pos: nat)
    requires ListsSearches(rule, order)
    ensures var r := Alters(rule, env, order, glob, d, pos);
      var ls := rule.logsource;
      (r.Ok? ==> forall i: nat :: i in r.value.0.sourceTypes <==> (i < |rule.detection.conditions| && ls.product != [])) &&
      (r.Ok? ==> forall i: nat :: i in r.value.0.sourceTypes ==>
        r.value.0.sourceTypes[i] == (if ls.service == [] then ls.product else ls.product + Txt(" ") + ls.service))
  {
  }

  /** A failing search makes `Alters` fail with an error naming that search,
      and a search with keywords never lets the rule through. */
  lemma AltersErrors(rule: SigmaRule, env: Env, order: seq<Str>, glob: (Str, Str) -> bool, d: Draws, pos: nat)
    requires ListsSearches(rule, order)
    ensures var r := Alters(rule, env, order, glob, d, pos);
      (r.Fail? ==> exists k :: k in rule.detection.searches && r.error.SearchFailed? && r.error.identifier == k) &&
      ((exists k :: k in rule.detection.searches && |rule.detection.searches[k].keywords| > 0) ==> !r.Ok?)
  {
    SearchesFromSpec(rule, env, order, 0, d, pos, map[]);
    var r := Alters(rule, env, order, glob, d, pos);
    var sr := SearchesFrom(rule, env, order, 0, d, pos, map[]);
    if r.Fail? {
      var j :| 0 <= j < |order| && sr.error.SearchFailed? && sr.error.identifier == order[j];
      assert order[j] in rule.detection.searches;
    }
    if exists k :: k in rule.detection.searches && |rule.detection.searches[k].keywords| > 0 {
      var k :| k in rule.detection.searches && |rule.detection.searches[k].keywords| > 0;
      var j :| 0 <= j < |order| && order[j] == k;
      KeywordsStop(rule, env, order, 0, d, pos, map[], j);
    }
  }

  /** A rule whose only search is a single matcher and whose only condition
      names it gets the rendered filter as its query. */
  lemma OneSearchRule(name: Str, field: Str, v: Str, product: Str, service: Str,
                      parsers: Parsers, d: Draws, pos: nat, glob: (Str, Str) -> bool)
    requires product != [] && service != [] && !IsPlaceholder(v)
    ensures var rule := SigmaRule(Logsource(product, service),
      Detection(map[name := Search([], [[FieldMatcher(field, [], [VString(v)])]])], [Ident(name)]));
      var env := Env(map[], None, false, parsers, _ => []);
      ListsSearches(rule, [name]) &&
      Alters(rule, env, [name], glob, d, pos) == Ok((Result(
        map[name := [Render(Lower(field), Txt("equal"), Lower(v))]],
        map[0 := [name]],
        map[0 := product + Txt(" ") + service],
        map[0 := Render(Lower(field), Txt("equal"), Lower(v))]), pos))
  {
    var rule := SigmaRule(Logsource(product, service),
      Detection(map[name := Search([], [[FieldMatcher(field, [], [VString(v)])]])], [Ident(name)]));
    var env := Env(map[], None, false, parsers, _ => []);
    var f := Render(Lower(field), Txt("equal"), Lower(v));
    assert ListsSearches(rule, [name]);
    OneSearchFilters(rule, env, name, field, v, d, pos);
    SingleSearchQuery(map[name := [f]], name);
    assert Conjunction([f]) == f;
    OneIdentResult(rule, env, [name], glob, d, pos, map[name := [f]], name, f, product + Txt(" ") + service);
  }

  /** A rule whose only condition names one search: one token list holding
      that name, its query, and the rule's sourcetype under index 0. */
  lemma OneIdentResult(rule: SigmaRule, env: Env, order: seq<Str>, glob: (Str, Str) -> bool, d: Draws, pos: nat,
                       searches: map<Str, seq<Str>>, name: Str, q: Str, st: Str)
    requires ListsSearches(rule, order)
    requires rule.detection.conditions == [Ident(name)]
    requires SearchesFrom(rule, env, order, 0, d, pos, map[]) == Ok((searches, pos))
    requires Query(searches, [name]) == q
    requires SourceType(rule.logsource) == Some(st)
    ensures Alters(rule, env, order, glob, d, pos)
         == Ok((Result(searches, map[0 := [name]], map[0 := st], map[0 := q]), pos))
  {
    var r := Alters(rule, env, order, glob, d, pos);
    assert Walk(Scope(order, glob), Ident(name), [], true) == [name];
    assert r.value.0.conditions == map[0 := [name]];
    assert r.value.0.queries == map[0 := q];
    assert r.value.0.sourceTypes == map[0 := st];
  }

  /** The search loop over a rule whose only search is the one matcher
      `field: v` records its single rendered filter. */
  lemma OneSearchFilters(rule: SigmaRule, env: Env, name: Str, field: Str, v: Str, d: Draws, pos: nat)
    requires !IsPlaceholder(v)
    requires rule.detection.searches == map[name := Search([], [[FieldMatcher(field, [], [VString(v)])]])]
    requires !(field in env.fieldmappings && |env.fieldmappings[field]| > 0)
    ensures SearchesFrom(rule, env, [name], 0, d, pos, map[])
         == Ok((map[name := [Render(Lower(field), Txt("equal"), Lower(v))]], pos))
  {
    var s := rule.detection.searches[name];
    var fm := FieldMatcher(field, [], [VString(v)]);
    SingleEqualFilter(env, field, v, d, pos);
    var f := Render(Lower(field), Txt("equal"), Lower(v));
    EvaluateSearchIsFlat(env, s, d, pos);
    assert Flatten(s.eventMatchers) == [fm] by {
      assert s.eventMatchers[1..] == [];
    }
    assert [fm][1..] == [] && [f] + [] == [f];
    assert FiltersOf(env, [fm], d, pos) == Ok(([f], pos));
    assert EvaluateSearch(env, s, d, pos) == Ok(([f], pos));
    assert SearchesFrom(rule, env, [name], 1, d, pos, map[name := [f]]) == Ok((map[name := [f]], pos));
  }
}
