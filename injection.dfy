/** `getInjectedUrls` of utils.go: for every payload of a rule and every value of every query
    parameter, the URL with that one value replaced, the URL requested just before it (the
    baseline) and, when the rule has a heuristic payload, the URL carrying that payload instead. */
module Injection {
  import opened Wrappers
  import opened NetUrl
  import opened Types
  import opened Utils

  /** A mutation point: a parameter name and the position of one of its values. */
  type Point = (string, nat)

  /** Every value position of a query. */
  ghost function Points(v: Values): set<Point> {
    PointsOf(v, v.Keys)
  }

  /** The value positions of the parameters named in `keys`. */
  ghost function PointsOf(v: Values, keys: set<string>): set<Point> {
    set k, i: nat | k in keys && k in v && i < |v[k]| :: (k, i)
  }

  /** Every pair of a payload position below `n` and a value position of `v`. */
  ghost function Grid(n: nat, v: Values): set<(nat, Point)> {
    set i: nat, p | i < n && p in Points(v) :: (i, p)
  }

  /** Some parameter has more than one value. */
  predicate MultiValued(v: Values) {
    exists k :: k in v && |v[k]| >= 2
  }

  /** Some parameter with a non-empty name has more than one value. */
  predicate NamedMultiValued(v: Values) {
    exists k :: k in v && k != "" && |v[k]| >= 2
  }

  /** `m` is `v` with at most the list of `key` changed. */
  predicate MutatesOnly(v: Values, m: Values, key: string) {
    key in v && key in m && m == v[key := m[key]]
  }

  /** A payload rewrites the parameter it is injected into only when the parameter has a name
      and the payload is still a template. */
  predicate Rewrites(key: string, payload: string) {
    key != "" && Templated(payload)
  }

  /** What the tokens stand for while `u` shows `shown`. */
  function ContextAt(lib: UrlLibrary, u: Url, shown: string): TemplateContext {
    TemplateContext(lib.queryEscape(shown), u.hostname, lib.queryEscape(u.path))
  }

  /** The query map encoded for an injected URL: a payload that is still a template replaces the
      whole list of `key` by its expansion, in which `[[fullurl]]` is the URL requested just
      before (`shown`) and `[[originalvalue]]` the first value of `key`; any other payload leaves
      the query as parsed. */
  function MutatedQuery(lib: UrlLibrary, u: Url, v: Values, key: string, payload: string, shown: string): (m: Values)
    requires key in v
    ensures MutatesOnly(v, m, key)
    ensures !Rewrites(key, payload) ==> m == v
    ensures Rewrites(key, payload) ==> |m[key]| == 1
  {
    if Rewrites(key, payload)
    then v[key := [ExpandTemplate(payload, ContextAt(lib, u, shown), Some(GetFirst(v, key)))]]
    else v
  }

  /** The query map encoded for a heuristic URL, starting from `base`: the heuristic payload is
      expanded once without a parameter and then, if still a template, as a parameter value,
      with `[[fullurl]]` the injected URL just requested. */
  function HeuristicQuery(lib: UrlLibrary, u: Url, base: Values, key: string, heuristic: string,
                          injectedUrl: string): (m: Values)
    requires key in base
    ensures MutatesOnly(base, m, key)
    ensures m[key] == base[key] || |m[key]| == 1
  {
    var ctx := ContextAt(lib, u, injectedUrl);
    var first := ExpandTemplate(heuristic, ctx, None);
    if Rewrites(key, first) then base[key := [ExpandTemplate(first, ctx, Some(GetFirst(base, key)))]] else base
  }

  /** The URL a request left `u` showing: the heuristic URL when there is a heuristic payload,
      the injected URL otherwise. */
  function Shown(inj: UrlInjection, heuristic: string): string {
    if heuristic != "" then inj.heuristicsUrl else inj.injectedUrl
  }

  /** What `u` shows after a run of injections that started from `start`. */
  function LastShown(start: string, injs: seq<UrlInjection>, heuristic: string): string {
    if injs == [] then start else Shown(injs[|injs| - 1], heuristic)
  }

  /** `RawQuery` is never restored: each baseline URL is what the previous injection left. */
  predicate Drifting(start: string, injs: seq<UrlInjection>, heuristic: string) {
    forall j :: 0 <= j < |injs| ==> injs[j].baselineUrl == LastShown(start, injs[..j], heuristic)
  }

  lemma DriftAppend(start: string, injs: seq<UrlInjection>, inj: UrlInjection, heuristic: string)
    requires Drifting(start, injs, heuristic)
    requires inj.baselineUrl == LastShown(start, injs, heuristic)
    ensures Drifting(start, injs + [inj], heuristic)
    ensures LastShown(start, injs + [inj], heuristic) == Shown(inj, heuristic)
  {
    var all := injs + [inj];
    forall j | 0 <= j < |all| ensures all[j].baselineUrl == LastShown(start, all[..j], heuristic) {
      assert all[..j] == injs[..j];
    }
  }

  lemma DriftConcat(start: string, a: seq<UrlInjection>, b: seq<UrlInjection>, heuristic: string)
    requires Drifting(start, a, heuristic)
    requires Drifting(LastShown(start, a, heuristic), b, heuristic)
    ensures Drifting(start, a + b, heuristic)
    ensures LastShown(start, a + b, heuristic) == LastShown(LastShown(start, a, heuristic), b, heuristic)
  {
    var all := a + b;
    var mid := LastShown(start, a, heuristic);
    forall j | 0 <= j < |all| ensures all[j].baselineUrl == LastShown(start, all[..j], heuristic) {
      if j < |a| {
        assert all[..j] == a[..j];
      } else {
        var k := j - |a|;
        assert all[..j] == a + b[..k];
        assert all[j] == b[k];
        assert b[k].baselineUrl == LastShown(mid, b[..k], heuristic);
      }
    }
    if b == [] {
      assert all == a;
    }
  }

  /** One pass of the innermost loop, for the value at `index` of parameter `qs`: expand the
      payload (rewriting the parameter's list when the payload is a template), note the baseline
      URL, copy the value onto itself through the map the expansion returned, request the injected
      query, then, with a heuristic payload, restore the value, expand and request the heuristic
      query, and finally restore the value again. Indexing past a list cut to one value panics. */
  method InjectAt(lib: UrlLibrary, u: Url, queryStrings: QueryValues, ghost v: Values, qs: string,
                  index: nat, val: string, injection: string, heuristic: string, decodedParams: bool)
    returns (r: Outcome<UrlInjection>)
    requires qs in v && index < |v[qs]| && val == v[qs][index]
    requires ListState(v, queryStrings.entries, qs, index, injection, heuristic)
    modifies u, queryStrings
    ensures r.Panic? ==> |v[qs]| >= 2
    ensures r.Panic? && heuristic == "" ==> Rewrites(qs, injection)
    ensures old(queryStrings.entries[qs]) != v[qs] ==> r.Panic?
    ensures r.Return? ==> ListState(v, queryStrings.entries, qs, index + 1, injection, heuristic)
    ensures r.Return? ==> r.value.baselineUrl == old(u.String())
    ensures r.Return? ==> InjectionFor(lib, u, v, BaseFor(v, qs, injection), qs, injection, heuristic, r.value, decodedParams)
    ensures r.Return? ==> u.String() == Shown(r.value, heuristic)
  {
    var urlInjection := RequestInjected(lib, u, queryStrings, v, qs, index, injection, decodedParams);
    if urlInjection.Panic? {
      return Panic(urlInjection.reason);
    }
    var injected := urlInjection.value;
    assert queryStrings.entries[qs] == v[qs] || (|queryStrings.entries[qs]| == 1 && index == 0);
    if heuristic != "" {
      ghost var base := if Rewrites(qs, injection) then v[qs := [v[qs][0]]] else v;
      RestoreValue(v, queryStrings.entries, qs, index, val);
      assert queryStrings.entries[qs := queryStrings.entries[qs][index := val]] == base;
      var heuristicsUrl := RequestHeuristic(lib, u, queryStrings, qs, index, val, heuristic, decodedParams);
      if heuristicsUrl.Panic? {
        return Panic(heuristicsUrl.reason);
      }
      injected := injected.(heuristicsUrl := heuristicsUrl.value);
      MutatesOnlyTransitive(v, base, queryStrings.entries, qs);
      assert queryStrings.entries[qs] == v[qs] || (|queryStrings.entries[qs]| == 1 && index == 0);
    }
    // Set back to the original value so that only one parameter changes at a time.
    RestoreValue(v, queryStrings.entries, qs, index, val);
    queryStrings.SetAt(qs, index, val);
    return Return(injected);
  }

  /** Writing a value back where it already is changes nothing. */
  lemma SetSame(v: Values, key: string, i: nat)
    requires key in v && i < |v[key]|
    ensures v[key := v[key][i := v[key][i]]] == v
  {
    assert v[key][i := v[key][i]] == v[key];
  }

  lemma MutatesOnlyTransitive(v: Values, a: Values, b: Values, key: string)
    requires MutatesOnly(v, a, key) && MutatesOnly(a, b, key)
    ensures MutatesOnly(v, b, key)
  {
  }

  /** Writing a parameter's original value back, into its full list or into a list cut to one
      value, leaves a map that differs from the parsed one at most by that cut. */
  lemma RestoreValue(v: Values, e: Values, key: string, index: nat, val: string)
    requires MutatesOnly(v, e, key) && index < |v[key]| && val == v[key][index]
    requires e[key] == v[key] || (|e[key]| == 1 && index == 0)
    ensures var restored := e[key := e[key][index := val]];
      && MutatesOnly(v, restored, key)
      && (e[key] == v[key] ==> restored == v)
      && (|e[key]| == 1 && index == 0 ==> restored == v[key := [v[key][0]]])
  {
    if e[key] == v[key] {
      assert v[key][index := val] == v[key];
    }
    if |e[key]| == 1 && index == 0 {
      assert e[key][index := val] == [v[key][0]];
    }
  }

  /** The first half of the innermost loop: expand the payload for parameter `qs` (rewriting its
      list when the payload is a template), note the baseline URL, copy the value at `index` onto
      itself through the map the expansion returned, and request the injected query. */
  method RequestInjected(lib: UrlLibrary, u: Url, queryStrings: QueryValues, ghost v: Values, qs: string,
                         index: nat, injection: string, decodedParams: bool)
    returns (r: Outcome<UrlInjection>)
    requires qs in v && index < |v[qs]|
    requires MutatesOnly(v, queryStrings.entries, qs)
    requires queryStrings.entries[qs] == v[qs] || (index == 1 && queryStrings.entries[qs] == [v[qs][0]])
    modifies u, queryStrings
    ensures r.Panic? <==> index >= 1 && (Rewrites(qs, injection) || old(queryStrings.entries[qs]) != v[qs])
    ensures r.Return? ==> queryStrings.entries == MutatedQuery(lib, u, v, qs, injection, r.value.baselineUrl)
    ensures r.Return? ==> r.value.baselineUrl == old(u.String()) && r.value.heuristicsUrl == ""
    ensures r.Return? ==>
      r.value.injectedUrl == u.WithQuery(QueryOrEmpty(InjectedQueryString(lib, queryStrings.entries, decodedParams)))
    ensures r.Return? ==> u.String() == r.value.injectedUrl
  {
    ghost var cur := queryStrings.entries[qs];
    var ignored, expandedQs := ExpandTemplatedValues(lib, injection, u, qs, index, queryStrings);
    ghost var expandedEntries := queryStrings.entries;
    var baselineUrl := u.String();
    if index >= |expandedQs.entries[qs]| {
      return Panic("index out of range");
    }
    queryStrings.SetAt(qs, index, expandedQs.entries[qs][index]);
    assert queryStrings.entries == expandedEntries by {
      SetSame(expandedEntries, qs, index);
    }
    assert queryStrings.entries == MutatedQuery(lib, u, v, qs, injection, baselineUrl) by {
      if Rewrites(qs, injection) {
        assert ContextOf(lib, u) == ContextAt(lib, u, baselineUrl);
        assert GetFirst(old(queryStrings.entries), qs) == GetFirst(v, qs);
      } else {
        assert cur == v[qs];
      }
    }
    var query := QueryOrEmpty(InjectedQueryString(lib, queryStrings.entries, decodedParams));
    u.rawQuery := query;
    r := Return(UrlInjection(baselineUrl, u.String(), ""));
  }

  /** The heuristic half of the innermost loop: restore the value at `index`, expand the
      heuristic payload without a parameter and then for `qs`, copy the value onto itself through
      the returned map, and request the heuristic query. */
  method RequestHeuristic(lib: UrlLibrary, u: Url, queryStrings: QueryValues, qs: string, index: nat,
                          val: string, heuristic: string, decodedParams: bool)
    returns (r: Outcome<string>)
    requires qs in queryStrings.entries && index < |queryStrings.entries[qs]|
    modifies u, queryStrings
    ensures var base := old(queryStrings.entries)[qs := old(queryStrings.entries)[qs][index := val]];
      var query := HeuristicQuery(lib, u, base, qs, heuristic, old(u.String()));
      && (r.Panic? <==> index >= 1 && query != base)
      && (r.Return? ==> queryStrings.entries == query)
      && (r.Return? ==> r.value == u.WithQuery(QueryOrEmpty(InjectedQueryString(lib, query, decodedParams))))
    ensures r.Return? ==> u.String() == r.value
  {
    queryStrings.SetAt(qs, index, val);
    ghost var base := queryStrings.entries;
    var injectedUrl := u.String();
    var heuristicsInjection, unchangedQs := ExpandTemplatedValues(lib, heuristic, u, "", 0, queryStrings);
    var ignored, expandedQs := ExpandTemplatedValues(lib, heuristicsInjection, u, qs, index, queryStrings);
    ghost var expandedEntries := queryStrings.entries;
    assert expandedEntries == HeuristicQuery(lib, u, base, qs, heuristic, injectedUrl) by {
      assert ContextOf(lib, u) == ContextAt(lib, u, injectedUrl);
    }
    if index >= |expandedQs.entries[qs]| {
      return Panic("index out of range");
    }
    queryStrings.SetAt(qs, index, expandedQs.entries[qs][index]);
    assert queryStrings.entries == expandedEntries by {
      SetSame(expandedEntries, qs, index);
    }
    var query := QueryOrEmpty(InjectedQueryString(lib, queryStrings.entries, decodedParams));
    u.rawQuery := query;
    r := Return(u.String());
  }

  /** What an injection for parameter `key` and payload `payload` holds: the injected URL
      carries the parsed query `v` with at most `key` rewritten, and the heuristic URL (when there
      is a heuristic payload) the query `base` with the heuristic payload in its place. */
  predicate InjectionFor(lib: UrlLibrary, u: Url, v: Values, base: Values, key: string, payload: string,
                         heuristic: string, inj: UrlInjection, decodedParams: bool)
    requires key in v && key in base
  {
    && inj.injectedUrl
       == u.WithQuery(QueryOrEmpty(InjectedQueryString(lib, MutatedQuery(lib, u, v, key, payload, inj.baselineUrl),
                                                       decodedParams)))
    && (heuristic == "" ==> inj.heuristicsUrl == "")
    && (heuristic != "" ==>
          inj.heuristicsUrl
          == u.WithQuery(QueryOrEmpty(InjectedQueryString(lib, HeuristicQuery(lib, u, base, key, heuristic, inj.injectedUrl),
                                                          decodedParams))))
  }

  /** The list of `qs` before the value at `index` is visited: as parsed, or, once a template
      payload or a heuristic payload has rewritten it at index 0, cut to its first value; a
      template payload always cuts it. */
  predicate ListState(v: Values, e: Values, qs: string, index: nat, injection: string, heuristic: string) {
    && MutatesOnly(v, e, qs)
    && (e[qs] == v[qs] || (index == 1 && |v[qs]| > 0 && e[qs] == [v[qs][0]] && (Rewrites(qs, injection) || heuristic != "")))
    && (Rewrites(qs, injection) && index >= 1 ==> index == 1 && |v[qs]| > 0 && e[qs] == [v[qs][0]])
  }

  /** The map the heuristic payload starts from: the parsed one, with the list of `qs` cut to
      its first value when a template payload rewrote it. */
  function BaseFor(v: Values, qs: string, injection: string): (base: Values)
    requires qs in v
    ensures MutatesOnly(v, base, qs)
  {
    if Rewrites(qs, injection) && |v[qs]| > 0 then v[qs := [v[qs][0]]] else v
  }

  /** The state of the loop over the values of `qs` after `index` of them. */
  ghost predicate ParamState(lib: UrlLibrary, u: Url, v: Values, qs: string, injection: string, heuristic: string,
                             e: Values, index: nat, injs: seq<UrlInjection>, decodedParams: bool,
                             start: string, shown: string) {
    && ListState(v, e, qs, index, injection, heuristic)
    && |injs| == index
    && (forall j :: 0 <= j < |injs| ==>
          InjectionFor(lib, u, v, BaseFor(v, qs, injection), qs, injection, heuristic, injs[j], decodedParams))
    && Drifting(start, injs, heuristic)
    && shown == LastShown(start, injs, heuristic)
  }

  lemma ParamStep(lib: UrlLibrary, u: Url, v: Values, qs: string, injection: string, heuristic: string,
                  e: Values, e': Values, index: nat, injs: seq<UrlInjection>, inj: UrlInjection, decodedParams: bool,
                  start: string)
    requires ParamState(lib, u, v, qs, injection, heuristic, e, index, injs, decodedParams, start, inj.baselineUrl)
    requires ListState(v, e', qs, index + 1, injection, heuristic)
    requires InjectionFor(lib, u, v, BaseFor(v, qs, injection), qs, injection, heuristic, inj, decodedParams)
    ensures ParamState(lib, u, v, qs, injection, heuristic, e', index + 1, injs + [inj], decodedParams, start,
                       Shown(inj, heuristic))
  {
    DriftAppend(start, injs, inj, heuristic);
    var all := injs + [inj];
    forall j | 0 <= j < |all|
      ensures InjectionFor(lib, u, v, BaseFor(v, qs, injection), qs, injection, heuristic, all[j], decodedParams)
    {
      if j < |injs| {
        assert all[j] == injs[j];
      }
    }
  }

  /** The loop over the values of one parameter `qs`, in order. A template payload cuts the
      parameter's list to one value, so a second value panics. */
  method InjectParameter(lib: UrlLibrary, u: Url, queryStrings: QueryValues, ghost v: Values, qs: string,
                         values: seq<string>, injection: string, heuristic: string, decodedParams: bool)
    returns (r: Outcome<seq<UrlInjection>>)
    requires qs in v && values == v[qs] && queryStrings.entries == v
    modifies u, queryStrings
    ensures r.Panic? ==> |v[qs]| >= 2
    ensures r.Panic? && heuristic == "" ==> Rewrites(qs, injection)
    ensures Rewrites(qs, injection) && |v[qs]| >= 2 ==> r.Panic?
    ensures r.Return? ==> queryStrings.entries == v && |r.value| == |v[qs]|
    ensures r.Return? ==> Covered(lib, u, v, Positions(qs, |v[qs]|), injection, heuristic, r.value, decodedParams)
    ensures r.Return? ==>
      Drifting(old(u.String()), r.value, heuristic) && u.String() == LastShown(old(u.String()), r.value, heuristic)
  {
    ghost var start := u.String();
    var injections: seq<UrlInjection> := [];
    for index := 0 to |values|
      invariant ParamState(lib, u, v, qs, injection, heuristic, queryStrings.entries, index, injections, decodedParams,
                           start, u.String())
    {
      ghost var before := queryStrings.entries;
      var injected := InjectAt(lib, u, queryStrings, v, qs, index, values[index], injection, heuristic, decodedParams);
      if injected.Panic? {
        return Panic(injected.reason);
      }
      ParamStep(lib, u, v, qs, injection, heuristic, before, queryStrings.entries, index,
                injections, injected.value, decodedParams, start);
      injections := injections + [injected.value];
    }
    ParameterCovered(lib, u, v, queryStrings.entries, qs, injection, heuristic, injections, decodedParams, start,
                     u.String());
    return Return(injections);
  }

  /** After the last value the parameter's list is as parsed (a list a template cut had only one
      value), and every injection is the one for this parameter. */
  lemma ParameterCovered(lib: UrlLibrary, u: Url, v: Values, e: Values, qs: string, injection: string,
                         heuristic: string, injs: seq<UrlInjection>, decodedParams: bool, start: string, shown: string)
    requires qs in v
    requires ParamState(lib, u, v, qs, injection, heuristic, e, |v[qs]|, injs, decodedParams, start, shown)
    ensures e == v && !(Rewrites(qs, injection) && |v[qs]| >= 2)
    ensures Covered(lib, u, v, Positions(qs, |v[qs]|), injection, heuristic, injs, decodedParams)
  {
    assert e == v && !(Rewrites(qs, injection) && |v[qs]| >= 2) && BaseFor(v, qs, injection) == v by {
      ListDone(v, e, qs, injection, heuristic);
    }
    var points := Positions(qs, |v[qs]|);
    forall j | 0 <= j < |injs|
      ensures points[j].0 in v && InjectionFor(lib, u, v, v, points[j].0, injection, heuristic, injs[j], decodedParams)
    {
      assert points[j].0 == qs;
    }
  }

  /** Once every value is visited, the list is as parsed and the heuristic starts from the
      parsed map. */
  lemma ListDone(v: Values, e: Values, qs: string, injection: string, heuristic: string)
    requires qs in v && ListState(v, e, qs, |v[qs]|, injection, heuristic)
    ensures e == v && !(Rewrites(qs, injection) && |v[qs]| >= 2) && BaseFor(v, qs, injection) == v
  {
    if |v[qs]| == 1 {
      assert v[qs] == [v[qs][0]];
      assert v[qs := [v[qs][0]]] == v;
    }
  }

  /** Each injection is the one for the parameter of its mutation point. */
  predicate Covered(lib: UrlLibrary, u: Url, v: Values, points: seq<Point>, injection: string, heuristic: string,
                    injs: seq<UrlInjection>, decodedParams: bool) {
    && |injs| == |points|
    && forall j :: 0 <= j < |injs| ==>
         points[j].0 in v && InjectionFor(lib, u, v, v, points[j].0, injection, heuristic, injs[j], decodedParams)
  }

  lemma CoveredConcat(lib: UrlLibrary, u: Url, v: Values, points: seq<Point>, more: seq<Point>, injection: string,
                      heuristic: string, injs: seq<UrlInjection>, block: seq<UrlInjection>, decodedParams: bool)
    requires Covered(lib, u, v, points, injection, heuristic, injs, decodedParams)
    requires Covered(lib, u, v, more, injection, heuristic, block, decodedParams)
    ensures Covered(lib, u, v, points + more, injection, heuristic, injs + block, decodedParams)
  {
    var all, allInjs := points + more, injs + block;
    forall j | 0 <= j < |allInjs|
      ensures all[j].0 in v && InjectionFor(lib, u, v, v, all[j].0, injection, heuristic, allInjs[j], decodedParams)
    {
      if j >= |injs| {
        assert all[j] == more[j - |injs|] && allInjs[j] == block[j - |injs|];
      } else {
        assert all[j] == points[j] && allInjs[j] == injs[j];
      }
    }
  }

  /** Each injection is the one for the payload and the parameter its plan entry names. */
  predicate Planned(lib: UrlLibrary, u: Url, v: Values, plan: seq<(nat, Point)>, payloads: seq<string>,
                    heuristic: string, injs: seq<UrlInjection>, decodedParams: bool) {
    && |injs| == |plan|
    && forall j :: 0 <= j < |injs| ==>
         && plan[j].0 < |payloads| && plan[j].1.0 in v
         && InjectionFor(lib, u, v, v, plan[j].1.0, payloads[plan[j].0], heuristic, injs[j], decodedParams)
  }

  /** The plan entries of one payload: its index paired with each visited position. */
  function Tag(n: nat, points: seq<Point>): (tagged: seq<(nat, Point)>)
    ensures |tagged| == |points| && forall i :: 0 <= i < |points| ==> tagged[i] == (n, points[i])
  {
    seq(|points|, i requires 0 <= i < |points| => (n, points[i]))
  }

  lemma PlannedStep(lib: UrlLibrary, u: Url, v: Values, plan: seq<(nat, Point)>, payloads: seq<string>, n: nat,
                    points: seq<Point>, heuristic: string, injs: seq<UrlInjection>, block: seq<UrlInjection>,
                    decodedParams: bool)
    requires n < |payloads|
    requires Planned(lib, u, v, plan, payloads, heuristic, injs, decodedParams)
    requires Covered(lib, u, v, points, payloads[n], heuristic, block, decodedParams)
    ensures Planned(lib, u, v, plan + Tag(n, points), payloads, heuristic, injs + block, decodedParams)
  {
    var all, allInjs := plan + Tag(n, points), injs + block;
    forall j | 0 <= j < |allInjs|
      ensures && all[j].0 < |payloads| && all[j].1.0 in v
              && InjectionFor(lib, u, v, v, all[j].1.0, payloads[all[j].0], heuristic, allInjs[j], decodedParams)
    {
      if j >= |injs| {
        assert all[j] == (n, points[j - |injs|]) && allInjs[j] == block[j - |injs|];
      } else {
        assert all[j] == plan[j] && allInjs[j] == injs[j];
      }
    }
  }

  lemma PointsOfMember(v: Values, keys: set<string>, p: Point)
    ensures p in PointsOf(v, keys) <==> p.0 in keys && p.0 in v && p.1 < |v[p.0]|
  {
    if p.0 in keys && p.0 in v && p.1 < |v[p.0]| {
      assert p == (p.0, p.1);
    }
  }

  lemma GridMember(n: nat, v: Values, e: (nat, Point))
    ensures e in Grid(n, v) <==> e.0 < n && e.1 in Points(v)
  {
    if e.0 < n && e.1 in Points(v) {
      assert e == (e.0, e.1);
    }
  }

  /** No element occurs twice. */
  predicate Distinct<T(==)>(s: seq<T>) {
    forall i, j :: 0 <= i < j < |s| ==> s[i] != s[j]
  }

  /** A sequence without repetitions has as many elements as its set. */
  lemma {:induction false} DistinctSize<T>(s: seq<T>)
    requires Distinct(s)
    ensures |set x | x in s| == |s|
  {
    if s != [] {
      var rest := s[1..];
      assert Distinct(rest);
      DistinctSize(rest);
      assert (set x | x in s) == (set x | x in rest) + {s[0]};
      assert s[0] !in rest;
    }
  }

  /** The value positions of one parameter, in order. */
  function Positions(qs: string, n: nat): (ps: seq<Point>)
    ensures |ps| == n && forall i :: 0 <= i < n ==> ps[i] == (qs, i)
  {
    seq(n, i requires 0 <= i < n => (qs, i))
  }

  /** The loop over the parameters, in whatever order the map is visited, for one payload. Every
      value position is visited once; a template payload panics on a parameter with a name and
      more than one value. */
  method InjectPayload(lib: UrlLibrary, u: Url, queryStrings: QueryValues, ghost v: Values, injection: string,
                       heuristic: string, decodedParams: bool)
    returns (r: Outcome<seq<UrlInjection>>, ghost points: seq<Point>)
    requires queryStrings.entries == v
    modifies u, queryStrings
    ensures r.Panic? ==> MultiValued(v)
    ensures r.Panic? && heuristic == "" ==> Templated(injection)
    ensures Templated(injection) && NamedMultiValued(v) ==> r.Panic?
    ensures r.Return? ==> queryStrings.entries == v
    ensures r.Return? ==> Distinct(points) && (set p | p in points) == Points(v)
    ensures r.Return? ==> Covered(lib, u, v, points, injection, heuristic, r.value, decodedParams)
    ensures r.Return? ==>
      Drifting(old(u.String()), r.value, heuristic) && u.String() == LastShown(old(u.String()), r.value, heuristic)
  {
    ghost var start := u.String();
    var injections: seq<UrlInjection> := [];
    points := [];
    var remaining := queryStrings.entries.Keys;
    ghost var done: set<string> := {};
    while remaining != {}
      invariant queryStrings.entries == v
      invariant remaining + done == v.Keys && remaining !! done
      invariant Distinct(points) && (set p | p in points) == PointsOf(v, done)
      invariant Covered(lib, u, v, points, injection, heuristic, injections, decodedParams)
      invariant Templated(injection) ==> forall k :: k in done ==> k == "" || |v[k]| < 2
      invariant Drifting(start, injections, heuristic) && u.String() == LastShown(start, injections, heuristic)
      decreases remaining
    {
      var qs :| qs in remaining;
      var values := queryStrings.entries[qs];
      var block := InjectParameter(lib, u, queryStrings, v, qs, values, injection, heuristic, decodedParams);
      if block.Panic? {
        return Panic(block.reason), points;
      }
      DriftConcat(start, injections, block.value, heuristic);
      ghost var blockPoints := Positions(qs, |values|);
      AppendPositions(v, done, qs, points, blockPoints);
      CoveredConcat(lib, u, v, points, blockPoints, injection, heuristic, injections, block.value, decodedParams);
      injections := injections + block.value;
      points := points + blockPoints;
      remaining := remaining - {qs};
      done := done + {qs};
    }
    assert done == v.Keys;
    return Return(injections), points;
  }

  /** Appending the positions of a parameter not yet visited keeps the visited positions free of
      repetitions and adds exactly that parameter's positions. */
  lemma AppendPositions(v: Values, done: set<string>, qs: string, points: seq<Point>, block: seq<Point>)
    requires qs in v && qs !in done
    requires Distinct(points) && (set p | p in points) == PointsOf(v, done)
    requires block == Positions(qs, |v[qs]|)
    ensures Distinct(points + block)
    ensures (set p | p in points + block) == PointsOf(v, done + {qs})
  {
    var all := points + block;
    forall i, j | 0 <= i < j < |all| ensures all[i] != all[j] {
      if j < |points| {
        assert all[i] == points[i] && all[j] == points[j];
      } else if i < |points| {
        assert points[i] in (set p | p in points);
        PointsOfMember(v, done, points[i]);
        assert all[j] == block[j - |points|] && all[j].0 == qs;
      } else {
        assert all[i] == (qs, i - |points|) && all[j] == (qs, j - |points|);
      }
    }
    forall p: Point ensures p in all <==> p in PointsOf(v, done + {qs}) {
      PointsOfMember(v, done + {qs}, p);
      PointsOfMember(v, done, p);
      if p in all {
        var i :| 0 <= i < |all| && all[i] == p;
        if i < |points| {
          assert points[i] in (set p | p in points);
        } else {
          assert p == (qs, i - |points|);
        }
      }
      if p in PointsOf(v, done + {qs}) {
        if p.0 == qs {
          assert block[p.1] == p;
          assert all[|points| + p.1] == p;
        } else {
          assert p in (set p | p in points);
          var i :| 0 <= i < |points| && points[i] == p;
          assert all[i] == p;
        }
      }
    }
  }

  /** Tagging the visited positions of one more payload extends the grid by one row. */
  lemma GridStep(n: nat, v: Values, plan: seq<(nat, Point)>, points: seq<Point>)
    requires (set e | e in plan) == Grid(n, v)
    requires (set p | p in points) == Points(v)
    ensures (set e | e in plan + Tag(n, points)) == Grid(n + 1, v)
  {
    var tagged := Tag(n, points);
    forall e: (nat, Point) ensures e in plan + tagged <==> e in Grid(n + 1, v) {
      GridMember(n, v, e);
      GridMember(n + 1, v, e);
      if e in plan + tagged {
        if e in plan {
          assert e in (set e | e in plan);
        } else {
          var i :| 0 <= i < |tagged| && tagged[i] == e;
          assert points[i] in (set p | p in points);
        }
      }
      if e in Grid(n + 1, v) {
        if e.0 == n {
          assert e.1 in (set p | p in points);
          var i :| 0 <= i < |points| && points[i] == e.1;
          assert tagged[i] == e;
          assert (plan + tagged)[|plan| + i] == e;
        } else {
          assert e in (set e | e in plan);
          var i :| 0 <= i < |plan| && plan[i] == e;
          assert (plan + tagged)[i] == e;
        }
      }
    }
  }

  /** The first pass over the payloads: each is expanded without a parameter. */
  function Payloads(injections: seq<string>, ctx: TemplateContext): (ps: seq<string>)
    ensures |ps| == |injections|
    ensures forall n :: 0 <= n < |injections| ==> ps[n] == ExpandTemplate(injections[n], ctx, None)
  {
    seq(|injections|, n requires 0 <= n < |injections| => ExpandTemplate(injections[n], ctx, None))
  }

  /** `getInjectedUrls`. The query is parsed (a parse error ends it with that error); the
      extra-parameter block runs only on an empty query and then adds nothing, because it adds a
      parameter only when that parameter already has values; every payload is expanded once
      without a parameter; then for each payload, each parameter and each of its values, one
      injection is produced. `u` is left showing the last URL requested. */
  method GetInjectedUrls(lib: UrlLibrary, u: Url, rule: Rule, decodedParams: bool)
    returns (r: Outcome<Result<seq<UrlInjection>>>, ghost plan: seq<(nat, Point)>)
    modifies u
    ensures var parsed := lib.parseQuery(old(u.rawQuery));
      parsed.error.Some? ==> r == Return(Err(parsed.error.value)) && u.rawQuery == old(u.rawQuery)
    ensures var parsed := lib.parseQuery(old(u.rawQuery));
      var payloads := Payloads(rule.injections, old(ContextOf(lib, u)));
      parsed.error.None? ==>
        && (r.Return? ==> r.value.Ok?)
        && (r.Panic? ==> MultiValued(parsed.values))
        && (r.Panic? && rule.heuristics.injection == "" ==> exists n :: 0 <= n < |payloads| && Templated(payloads[n]))
        && (NamedMultiValued(parsed.values) && (exists n :: 0 <= n < |payloads| && Templated(payloads[n])) ==> r.Panic?)
    ensures r.Return? && r.value.Ok? ==>
      var v := lib.parseQuery(old(u.rawQuery)).values;
      var payloads := Payloads(rule.injections, old(ContextOf(lib, u)));
      var injs := r.value.value;
      && |injs| == |rule.injections| * |Points(v)|
      && (set e | e in plan) == Grid(|rule.injections|, v)
      && Planned(lib, u, v, plan, payloads, rule.heuristics.injection, injs, decodedParams)
      && Drifting(old(u.String()), injs, rule.heuristics.injection)
      && u.String() == LastShown(old(u.String()), injs, rule.heuristics.injection)
  {
    plan := [];
    var parsed := lib.parseQuery(u.rawQuery);
    if parsed.error.Some? {
      return Return(Err(parsed.error.value)), plan;
    }
    ghost var v := parsed.values;
    var queryStrings := new QueryValues(parsed.values);

    if |rule.extraParams| != 0 && |queryStrings.entries| == 0 {
      AddExtraParams(queryStrings, rule.extraParams);
      assert queryStrings.entries == map[] == v;
    }

    var expandedRuleInjections := ExpandPayloads(lib, u, rule.injections);
    var injected;
    injected, plan := InjectAll(lib, u, queryStrings, v, expandedRuleInjections, rule.heuristics.injection, decodedParams);
    if injected.Panic? {
      return Panic(injected.reason), plan;
    }
    return Return(Ok(injected.value)), plan;
  }

  /** `count` empty values. */
  function Blanks(count: nat): (b: seq<string>)
    ensures |b| == count && forall i :: 0 <= i < count ==> b[i] == ""
  {
    seq(count, _ => "")
  }

  /** The extra-parameter loop of `getInjectedUrls`: each listed parameter that already has a
      value gets one more, empty, value per mention; no parameter is added. */
  method AddExtraParams(queryStrings: QueryValues, params: seq<string>)
    modifies queryStrings
    ensures queryStrings.entries.Keys == old(queryStrings.entries).Keys
    ensures forall k :: k in old(queryStrings.entries) ==>
      queryStrings.entries[k]
      == old(queryStrings.entries)[k]
         + (if |old(queryStrings.entries)[k]| != 0 then Blanks(multiset(params)[k]) else [])
  {
    ghost var start := queryStrings.entries;
    for i := 0 to |params|
      invariant Extended(start, queryStrings.entries, params[..i])
    {
      var param := params[i];
      ghost var before := queryStrings.entries;
      if |Lookup(queryStrings.entries, param)| != 0 {
        queryStrings.entries := AddValue(queryStrings.entries, param, "");
      }
      assert params[..i + 1] == params[..i] + [param];
      ExtendStep(start, before, params[..i], param);
    }
    assert params[..|params|] == params;
  }

  /** The query after the extra parameters `params` were visited: every parameter that had a
      value has one more empty value per mention. */
  ghost predicate Extended(start: Values, e: Values, params: seq<string>) {
    && e.Keys == start.Keys
    && forall k :: k in start ==>
         e[k] == start[k] + (if |start[k]| != 0 then Blanks(multiset(params)[k]) else [])
  }

  lemma ExtendStep(start: Values, e: Values, params: seq<string>, param: string)
    requires Extended(start, e, params)
    ensures Extended(start, if |Lookup(e, param)| != 0 then AddValue(e, param, "") else e, params + [param])
  {
    var e' := if |Lookup(e, param)| != 0 then AddValue(e, param, "") else e;
    forall k | k in start
      ensures e'[k] == start[k] + (if |start[k]| != 0 then Blanks(multiset(params + [param])[k]) else [])
    {
      ExtendKey(start, e, params, param, k);
    }
  }

  /** One key of `ExtendStep`. */
  lemma ExtendKey(start: Values, e: Values, params: seq<string>, param: string, k: string)
    requires Extended(start, e, params) && k in start
    ensures var e' := if |Lookup(e, param)| != 0 then AddValue(e, param, "") else e;
      e'[k] == start[k] + (if |start[k]| != 0 then Blanks(multiset(params + [param])[k]) else [])
  {
    assert multiset(params + [param]) == multiset(params) + multiset{param};
    if k == param {
      if |start[k]| != 0 {
        BlanksSucc(multiset(params)[k]);
      }
    } else {
      assert multiset(params + [param])[k] == multiset(params)[k];
    }
  }

  lemma BlanksSucc(n: nat)
    ensures Blanks(n + 1) == Blanks(n) + [""]
  {
  }

  /** The main loop of `getInjectedUrls`: for each payload in order, every value position of the
      query, each visited once. */
  method InjectAll(lib: UrlLibrary, u: Url, queryStrings: QueryValues, ghost v: Values, payloads: seq<string>,
                   heuristic: string, decodedParams: bool)
    returns (r: Outcome<seq<UrlInjection>>, ghost plan: seq<(nat, Point)>)
    requires queryStrings.entries == v
    modifies u, queryStrings
    ensures r.Panic? ==> MultiValued(v)
    ensures r.Panic? && heuristic == "" ==> exists n :: 0 <= n < |payloads| && Templated(payloads[n])
    ensures NamedMultiValued(v) && (exists n :: 0 <= n < |payloads| && Templated(payloads[n])) ==> r.Panic?
    ensures r.Return? ==>
      && |r.value| == |payloads| * |Points(v)|
      && (set e | e in plan) == Grid(|payloads|, v)
      && Planned(lib, u, v, plan, payloads, heuristic, r.value, decodedParams)
      && Drifting(old(u.String()), r.value, heuristic)
      && u.String() == LastShown(old(u.String()), r.value, heuristic)
  {
    plan := [];
    ghost var start := u.String();
    var urlInjections: seq<UrlInjection> := [];
    for n := 0 to |payloads|
      invariant queryStrings.entries == v
      invariant PlanState(lib, u, v, payloads, n, plan, heuristic, urlInjections, decodedParams, start, u.String())
    {
      ghost var shown := u.String();
      var block, points := InjectPayload(lib, u, queryStrings, v, payloads[n], heuristic, decodedParams);
      if block.Panic? {
        return Panic(block.reason), plan;
      }
      PlanStep(lib, u, v, payloads, n, plan, heuristic, urlInjections, decodedParams, points, block.value, start, shown);
      urlInjections := urlInjections + block.value;
      plan := plan + Tag(n, points);
    }
    return Return(urlInjections), plan;
  }

  /** The main loop's state after `n` payloads. */
  ghost predicate PlanState(lib: UrlLibrary, u: Url, v: Values, payloads: seq<string>, n: nat, plan: seq<(nat, Point)>,
                            heuristic: string, injs: seq<UrlInjection>, decodedParams: bool,
                            start: string, shown: string) {
    && n <= |payloads|
    && |injs| == n * |Points(v)|
    && (set e | e in plan) == Grid(n, v)
    && Planned(lib, u, v, plan, payloads, heuristic, injs, decodedParams)
    && (NamedMultiValued(v) ==> forall m :: 0 <= m < n ==> !Templated(payloads[m]))
    && Drifting(start, injs, heuristic)
    && shown == LastShown(start, injs, heuristic)
  }

  lemma PlanStep(lib: UrlLibrary, u: Url, v: Values, payloads: seq<string>, n: nat, plan: seq<(nat, Point)>,
                 heuristic: string, injs: seq<UrlInjection>, decodedParams: bool,
                 points: seq<Point>, block: seq<UrlInjection>, start: string, shown: string)
    requires n < |payloads|
    requires PlanState(lib, u, v, payloads, n, plan, heuristic, injs, decodedParams, start, shown)
    requires Drifting(shown, block, heuristic)
    requires !Templated(payloads[n]) || !NamedMultiValued(v)
    requires Distinct(points) && (set p | p in points) == Points(v)
    requires Covered(lib, u, v, points, payloads[n], heuristic, block, decodedParams)
    ensures PlanState(lib, u, v, payloads, n + 1, plan + Tag(n, points), heuristic, injs + block, decodedParams,
                      start, LastShown(shown, block, heuristic))
  {
    assert Drifting(start, injs + block, heuristic)
           && LastShown(start, injs + block, heuristic) == LastShown(shown, block, heuristic) by {
      DriftConcat(start, injs, block, heuristic);
    }
    var size := |Points(v)|;
    assert |injs + block| == (n + 1) * size by {
      DistinctSize(points);
      assert (n + 1) * size == n * size + size;
    }
    assert (set e | e in plan + Tag(n, points)) == Grid(n + 1, v) by {
      GridStep(n, v, plan, points);
    }
    assert Planned(lib, u, v, plan + Tag(n, points), payloads, heuristic, injs + block, decodedParams) by {
      PlannedStep(lib, u, v, plan, payloads, n, points, heuristic, injs, block, decodedParams);
    }
    UntemplatedStep(payloads, n, v);
  }

  lemma UntemplatedStep(payloads: seq<string>, n: nat, v: Values)
    requires n < |payloads|
    requires NamedMultiValued(v) ==> forall m :: 0 <= m < n ==> !Templated(payloads[m])
    requires !Templated(payloads[n]) || !NamedMultiValued(v)
    ensures NamedMultiValued(v) ==> forall m :: 0 <= m < n + 1 ==> !Templated(payloads[m])
  {
  }

  /** The first loop of `getInjectedUrls`: every payload expanded without a parameter. */
  method ExpandPayloads(lib: UrlLibrary, u: Url, injections: seq<string>) returns (expanded: seq<string>)
    ensures expanded == Payloads(injections, ContextOf(lib, u))
  {
    expanded := [];
    for i := 0 to |injections|
      invariant expanded == Payloads(injections[..i], ContextOf(lib, u))
    {
      var payload, ignored := ExpandTemplatedValues(lib, injections[i], u, "", 0, null);
      expanded := expanded + [payload];
    }
    assert injections[..|injections|] == injections;
  }

  /** A payload that is no longer a template after the first pass injects nothing: the injected
      URL carries the parsed query, re-encoded. */
  lemma PlainPayloadInjectsNothing(lib: UrlLibrary, u: Url, v: Values, key: string, payload: string,
                                   heuristic: string, inj: UrlInjection, decodedParams: bool)
    requires key in v && InjectionFor(lib, u, v, v, key, payload, heuristic, inj, decodedParams)
    requires !Templated(payload)
    ensures inj.injectedUrl == u.WithQuery(QueryOrEmpty(InjectedQueryString(lib, v, decodedParams)))
  {
  }

  /** Only the first injection's baseline is the URL as it was given; each later baseline is
      the URL the previous injection left behind. */
  lemma BaselinesDrift(start: string, injs: seq<UrlInjection>, heuristic: string, j: nat)
    requires Drifting(start, injs, heuristic) && 0 < j < |injs|
    ensures injs[0].baselineUrl == start
    ensures injs[j].baselineUrl == Shown(injs[j - 1], heuristic)
  {
    assert injs[..0] == [];
    assert injs[..j][j - 1] == injs[j - 1];
  }
}
