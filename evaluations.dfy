/** The response evaluator of evaluations.go: which expectation categories a rule has, which of
    them a response matches (each optionally corroborated by comparing the heuristic response
    with the baseline response), and the success record kept for a rule that matched. */
module Evaluations {
  import opened Wrappers
  import opened GoStrings
  import opened GoNumbers
  import opened NetUrl
  import opened NetHttp
  import opened Types
  import opened Utils

  /** The four expectation categories. */
  datatype Category = HeaderCheck | ContentCheck | CodeCheck | LengthCheck

  /** The baseline-match names that guard a category; any other name is recorded and never read. */
  const CodeGuard: string := "responsecode"
  const LengthGuard: string := "responselength"
  const ContentGuard: string := "responsecontent"
  const HeaderGuard: string := "responseheader"

  /** A category is guarded when one of the rule's baseline-match names lower-cases to its name. */
  predicate Guarded(h: Heuristics, name: string) {
    exists i :: 0 <= i < |h.baselineMatches| && ToLower(h.baselineMatches[i]) == name
  }

  /** The categories a rule expects: those whose list or map is present, even when empty. */
  function ExpectedCategories(e: Expectation): (cs: set<Category>)
    ensures HeaderCheck in cs <==> e.headers.Some?
    ensures ContentCheck in cs <==> e.contents.Some?
    ensures CodeCheck in cs <==> e.codes.Some?
    ensures LengthCheck in cs <==> e.lengths.Some?
  {
    (if e.headers.Some? then {HeaderCheck} else {})
    + (if e.contents.Some? then {ContentCheck} else {})
    + (if e.codes.Some? then {CodeCheck} else {})
    + (if e.lengths.Some? then {LengthCheck} else {})
  }

  /** `heuristicsExpected`: the four guard names start out false and every baseline-match name,
      lower-cased, is set to true. */
  method HeuristicsExpected(baselineMatches: seq<string>) returns (flags: map<string, bool>)
    ensures flags.Keys == {CodeGuard, LengthGuard, ContentGuard, HeaderGuard}
                          + (set i | 0 <= i < |baselineMatches| :: ToLower(baselineMatches[i]))
    ensures forall name :: name in flags ==>
              (flags[name] <==> exists i :: 0 <= i < |baselineMatches| && ToLower(baselineMatches[i]) == name)
  {
    flags := map[CodeGuard := false, LengthGuard := false, ContentGuard := false, HeaderGuard := false];
    for n := 0 to |baselineMatches|
      invariant flags.Keys == {CodeGuard, LengthGuard, ContentGuard, HeaderGuard}
                              + (set i | 0 <= i < n :: ToLower(baselineMatches[i]))
      invariant forall name :: name in flags ==>
                  (flags[name] <==> exists i :: 0 <= i < n && ToLower(baselineMatches[i]) == name)
    {
      flags := flags[ToLower(baselineMatches[n]) := true];
    }
  }

  /** A content expectation holds when some expected text occurs in the body, ignoring ASCII
      case, and, if guarded, the heuristic and baseline bodies are the same. */
  predicate ContentMatch(contents: seq<string>, body: string, heuristics: Response, baseline: Response,
                         guarded: bool) {
    (exists i :: 0 <= i < |contents| && Contains(ToLower(body), ToLower(contents[i])))
    && (!guarded || heuristics.body == baseline.body)
  }

  /** A header expectation holds when, for some expected name, the response's value of that
      header contains the expected value, ignoring ASCII case, and, if guarded, the heuristic and
      baseline header maps are equal. */
  predicate HeaderMatch(expected: map<string, string>, headers: Header, heuristics: Response,
                        baseline: Response, guarded: bool) {
    (exists name :: name in expected && Contains(ToLower(HeaderGet(headers, name)), ToLower(expected[name])))
    && (!guarded || heuristics.headers == baseline.headers)
  }

  /** A status-code expectation holds when some expected code parses to the response's code and,
      if guarded, the heuristic and baseline codes agree and differ from the response's (three
      equal codes are a false positive). Codes that do not parse are skipped. */
  predicate CodeMatch(codes: seq<string>, responseCode: int, heuristics: Response, baseline: Response,
                      guarded: bool) {
    (exists i :: 0 <= i < |codes| && Atoi(codes[i]) == Some(responseCode))
    && (!guarded || (heuristics.statusCode == baseline.statusCode && baseline.statusCode != responseCode))
  }

  /** Some expected length parses. */
  predicate SomeLengthParses(lengths: seq<string>) {
    exists i :: 0 <= i < |lengths| && Atoi(lengths[i]).Some?
  }

  /** Some expected length parses and is within tolerance of a non-zero response length. */
  predicate SomeLengthWithin(lengths: seq<string>, responseLength: int) {
    responseLength != 0
    && exists i :: 0 <= i < |lengths| && Atoi(lengths[i]).Some?
                   && WithinTenPercent(Atoi(lengths[i]).value, responseLength)
  }

  /** The outcome of the length check. The tolerance test divides by the response length, and,
      when guarded, by the baseline length: the first expected length that parses divides by
      the response length, and the first one within tolerance, when guarded, by the baseline's. */
  function LengthOutcome(lengths: seq<string>, responseLength: int, heuristics: Response, baseline: Response,
                         guarded: bool): Outcome<bool> {
    if !SomeLengthParses(lengths) then Return(false)
    else if responseLength == 0 then Panic("integer divide by zero")
    else if !SomeLengthWithin(lengths, responseLength) then Return(false)
    else if !guarded then Return(true)
    else if baseline.contentLength == 0 then Panic("integer divide by zero")
    else Return(WithinTenPercent(heuristics.contentLength, baseline.contentLength))
  }

  /** `evaluateContent`: the search over the expected contents, returning at the first match. */
  method EvaluateContent(contents: seq<string>, responseContent: string, heuristics: Response,
                         baseline: Response, guarded: bool) returns (matched: bool)
    ensures matched <==> ContentMatch(contents, responseContent, heuristics, baseline, guarded)
  {
    var body := ToLower(responseContent);
    for i := 0 to |contents|
      invariant forall j :: 0 <= j < i ==>
                  !(Contains(body, ToLower(contents[j])) && (!guarded || heuristics.body == baseline.body))
    {
      if Contains(body, ToLower(contents[i])) {
        if !guarded {
          return true;
        }
        if heuristics.body == baseline.body {
          return true;
        }
      }
    }
    return false;
  }

  /** `evaluateHeaders`: the search over the expected headers, in whatever order the map is
      visited, returning at the first match. */
  method EvaluateHeaders(expected: map<string, string>, responseHeaders: Header, heuristics: Response,
                         baseline: Response, guarded: bool) returns (matched: bool)
    ensures matched <==> HeaderMatch(expected, responseHeaders, heuristics, baseline, guarded)
  {
    var remaining := expected.Keys;
    while remaining != {}
      invariant remaining <= expected.Keys
      invariant forall name :: name in expected && name !in remaining ==>
                  !(Contains(ToLower(HeaderGet(responseHeaders, name)), ToLower(expected[name]))
                    && (!guarded || heuristics.headers == baseline.headers))
      decreases remaining
    {
      var header :| header in remaining;
      if Contains(ToLower(HeaderGet(responseHeaders, header)), ToLower(expected[header])) {
        if !guarded {
          return true;
        }
        if heuristics.headers == baseline.headers {
          return true;
        }
      }
      remaining := remaining - {header};
    }
    return false;
  }

  /** `evaluateStatusCode`: codes that do not parse are skipped; at the first code equal to the
      response's, an unguarded check succeeds, and a guarded one decides by the heuristic and
      baseline codes when those agree. */
  method EvaluateStatusCode(codes: seq<string>, responseCode: int, heuristics: Response,
                            baseline: Response, guarded: bool) returns (matched: bool)
    ensures matched <==> CodeMatch(codes, responseCode, heuristics, baseline, guarded)
  {
    for i := 0 to |codes|
      invariant forall j :: 0 <= j < i ==> Atoi(codes[j]) != Some(responseCode) || guarded
      invariant forall j :: 0 <= j < i ==>
                  (Atoi(codes[j]) != Some(responseCode) || heuristics.statusCode != baseline.statusCode)
    {
      var statusCode := Atoi(codes[i]);
      if statusCode.None? {
        continue;
      }
      if statusCode.value == responseCode {
        if !guarded {
          return true;
        }
        if heuristics.statusCode == baseline.statusCode {
          if baseline.statusCode == responseCode {
            return false;
          }
          return true;
        }
      }
    }
    return false;
  }

  /** `evaluateContentLength`: lengths that do not parse are skipped; at the first length within
      tolerance, an unguarded check succeeds and a guarded one succeeds when the heuristic length
      is within tolerance of the baseline length. A zero divisor panics. */
  method EvaluateContentLength(lengths: seq<string>, responseLength: int, heuristics: Response,
                               baseline: Response, guarded: bool) returns (r: Outcome<bool>)
    ensures r == LengthOutcome(lengths, responseLength, heuristics, baseline, guarded)
  {
    for i := 0 to |lengths|
      invariant forall j :: 0 <= j < i ==>
                  (Atoi(lengths[j]).None?
                   || (responseLength != 0 && !WithinTenPercent(Atoi(lengths[j]).value, responseLength))
                   || (guarded && baseline.contentLength != 0
                       && !WithinTenPercent(heuristics.contentLength, baseline.contentLength)))
      invariant responseLength == 0 ==> forall j :: 0 <= j < i ==> Atoi(lengths[j]).None?
    {
      var expectedLength := Atoi(lengths[i]);
      if expectedLength.None? {
        continue;
      }
      if responseLength == 0 {
        return Panic("integer divide by zero");
      }
      if WithinTenPercent(expectedLength.value, responseLength) {
        if !guarded {
          return Return(true);
        }
        if baseline.contentLength == 0 {
          return Panic("integer divide by zero");
        }
        if WithinTenPercent(heuristics.contentLength, baseline.contentLength) {
          return Return(true);
        }
      }
    }
    return Return(false);
  }

  /** The list of a present expectation, or none to search. */
  function OrEmpty<T>(o: Option<seq<T>>): seq<T> {
    if o.Some? then o.value else []
  }

  /** The expected categories whose check returned true. */
  function Tally(e: Expectation, header: bool, content: bool, code: bool, length: bool): (cs: set<Category>)
    ensures cs <= ExpectedCategories(e)
    ensures |cs| == (if e.headers.Some? && header then 1 else 0) + (if e.contents.Some? && content then 1 else 0)
                    + (if e.codes.Some? && code then 1 else 0) + (if e.lengths.Some? && length then 1 else 0)
  {
    var cs := With({}, e.headers.Some? && header, HeaderCheck);
    var cs := With(cs, e.contents.Some? && content, ContentCheck);
    var cs := With(cs, e.codes.Some? && code, CodeCheck);
    With(cs, e.lengths.Some? && length, LengthCheck)
  }

  /** One more category, added when its check returned true. */
  function With(cs: set<Category>, matched: bool, c: Category): (r: set<Category>)
    requires c !in cs
    ensures |r| == |cs| + (if matched then 1 else 0)
    ensures c in r <==> matched
    ensures cs <= r <= cs + {c}
  {
    if matched then cs + {c} else cs
  }

  /** The categories a response matches; only expected categories are evaluated. The length
      category is included when its check returns true. */
  function MatchedCategories(rule: Rule, resp: Response, heuristics: Response, baseline: Response): set<Category> {
    var h := rule.heuristics;
    MatchedUnder(rule.expectation, resp, heuristics, baseline,
                 Guarded(h, HeaderGuard), Guarded(h, ContentGuard), Guarded(h, CodeGuard), Guarded(h, LengthGuard))
  }

  /** The categories a response matches under the given four guards. */
  function MatchedUnder(e: Expectation, resp: Response, heuristics: Response, baseline: Response,
                        headerGuarded: bool, contentGuarded: bool, codeGuarded: bool, lengthGuarded: bool): set<Category> {
    Tally(e,
          e.headers.Some? && HeaderMatch(e.headers.value, resp.headers, heuristics, baseline, headerGuarded),
          e.contents.Some? && ContentMatch(e.contents.value, resp.body, heuristics, baseline, contentGuarded),
          e.codes.Some? && CodeMatch(e.codes.value, resp.statusCode, heuristics, baseline, codeGuarded),
          e.lengths.Some? && LengthOutcome(e.lengths.value, resp.contentLength, heuristics, baseline,
                                           lengthGuarded) == Return(true))
  }


  /** The matched categories are the tally of the four checks' answers. */
  lemma MatchedIsTally(rule: Rule, resp: Response, heuristics: Response, baseline: Response,
                       header: bool, content: bool, code: bool, length: bool)
    requires var e, h := rule.expectation, rule.heuristics;
      && header == (e.headers.Some? && HeaderMatch(e.headers.value, resp.headers, heuristics, baseline, Guarded(h, HeaderGuard)))
      && content == (e.contents.Some? && ContentMatch(e.contents.value, resp.body, heuristics, baseline, Guarded(h, ContentGuard)))
      && code == (e.codes.Some? && CodeMatch(e.codes.value, resp.statusCode, heuristics, baseline, Guarded(h, CodeGuard)))
      && length == (e.lengths.Some? && LengthOutcome(e.lengths.value, resp.contentLength, heuristics, baseline,
                                                     Guarded(h, LengthGuard)) == Return(true))
    ensures MatchedCategories(rule, resp, heuristics, baseline) == Tally(rule.expectation, header, content, code, length)
  {
  }

  /** The length check panics. */
  predicate LengthPanics(rule: Rule, resp: Response, heuristics: Response, baseline: Response) {
    rule.expectation.lengths.Some?
    && LengthOutcome(rule.expectation.lengths.value, resp.contentLength, heuristics, baseline,
                     Guarded(rule.heuristics, LengthGuard)).Panic?
  }

  /** Where the evaluator starts decoding: the injected URL unescaped once, or as it is when that
      fails. */
  function DisplayStart(injectedUrl: string): string {
    match QueryUnescape(injectedUrl)
    case Ok(d) => d
    case Err(_) => injectedUrl
  }

  /** The line printed for a successful match. */
  function SuccessMessage(ruleName: string, injectedUrl: string): string {
    "[" + ruleName + "] successful match for " + DecodeForDisplay(DisplayStart(injectedUrl)) + "\n"
  }

  /** What `Rule.evaluate` returns: the number of matched categories, and success when at least
      one category matched and no fewer matched than were expected. */
  function EvaluationOf(rule: Rule, resp: Response, urlInjection: UrlInjection, ruleName: string,
                        heuristics: Response, baseline: Response): Outcome<RuleEvaluation> {
    if LengthPanics(rule, resp, heuristics, baseline) then Panic("integer divide by zero")
    else
      var n := |MatchedCategories(rule, resp, heuristics, baseline)|;
      var successful := n > 0 && n >= |ExpectedCategories(rule.expectation)|;
      Return(RuleEvaluation(n, if successful then SuccessMessage(ruleName, urlInjection.injectedUrl) else "",
                            successful))
  }

  /** The process-wide list of confirmed matches. */
  class ResultLog {
    var evaluationResults: seq<EvaluationResult>

    constructor ()
      ensures evaluationResults == []
    {
      evaluationResults := [];
    }
  }

  /** The four checks of `Rule.evaluate`, each run only for an expected category and guarded
      as the baseline-match names say: the number of categories matched, or the length check's
      panic. */
  method CountMatches(rule: Rule, resp: Response, heuristics: Response, baseline: Response)
    returns (r: Outcome<nat>)
    ensures r == if LengthPanics(rule, resp, heuristics, baseline) then Panic("integer divide by zero")
                 else Return(|MatchedCategories(rule, resp, heuristics, baseline)|)
  {
    var e := rule.expectation;
    var h := rule.heuristics;
    var flags := HeuristicsExpected(h.baselineMatches);
    var content, code, header, length := false, false, false, false;
    if e.contents.Some? {
      content := EvaluateContent(e.contents.value, resp.body, heuristics, baseline, flags[ContentGuard]);
    }
    if e.codes.Some? {
      code := EvaluateStatusCode(e.codes.value, resp.statusCode, heuristics, baseline, flags[CodeGuard]);
    }
    if e.headers.Some? {
      header := EvaluateHeaders(e.headers.value, resp.headers, heuristics, baseline, flags[HeaderGuard]);
    }
    if e.lengths.Some? {
      var m := EvaluateContentLength(e.lengths.value, resp.contentLength, heuristics, baseline, flags[LengthGuard]);
      if m.Panic? {
        return Panic(m.reason);
      }
      length := m.value;
    }
    MatchedIsTally(rule, resp, heuristics, baseline, header, content, code, length);
    var checksMatched := Count(e, header, content, code, length);
    return Return(checksMatched);
  }

  /** The increments of `ChecksMatched`, one per expected category whose check returned true. */
  method Count(e: Expectation, header: bool, content: bool, code: bool, length: bool) returns (checksMatched: nat)
    ensures checksMatched == |Tally(e, header, content, code, length)|
  {
    ghost var size := (if e.headers.Some? && header then 1 else 0) + (if e.contents.Some? && content then 1 else 0)
                      + (if e.codes.Some? && code then 1 else 0) + (if e.lengths.Some? && length then 1 else 0);
    checksMatched := 0;
    if e.contents.Some? && content {
      checksMatched := checksMatched + 1;
    }
    if e.codes.Some? && code {
      checksMatched := checksMatched + 1;
    }
    if e.headers.Some? && header {
      checksMatched := checksMatched + 1;
    }
    if e.lengths.Some? && length {
      checksMatched := checksMatched + 1;
    }
    assert checksMatched == size;
    assert checksMatched == |Tally(e, header, content, code, length)| by {
      assert |Tally(e, header, content, code, length)| == size;
    }
  }

  /** The display loop: unescape while the text holds a `%`, stopping at the first failure. It
      ends because each successful unescaping of a text with a `%` shortens it. */
  method DecodeUntilPlain(start: string) returns (u: string)
    ensures u == DecodeForDisplay(start)
  {
    u := start;
    ContainsChar(u, '%');
    while Contains(u, "%")
      invariant DecodeForDisplay(u) == DecodeForDisplay(start)
      invariant Contains(u, "%") <==> '%' in u
      decreases |u|
    {
      var decoded := QueryUnescape(u);
      if decoded.Err? {
        break;
      }
      u := decoded.value;
      ContainsChar(u, '%');
    }
    assert u == DecodeForDisplay(u);
  }

  /** `Rule.evaluate`: counts the expected categories and the matched ones, and on success
      decodes the injected URL for display and appends one record, holding the URL as it was
      requested, to the log. A panic leaves the log as it was. */
  method Evaluate(log: ResultLog, rule: Rule, resp: Response, urlInjection: UrlInjection, ruleName: string,
                  heuristics: Response, baseline: Response) returns (r: Outcome<RuleEvaluation>)
    modifies log
    ensures r == EvaluationOf(rule, resp, urlInjection, ruleName, heuristics, baseline)
    ensures log.evaluationResults
            == old(log.evaluationResults)
               + (if r.Return? && r.value.successful
                  then [EvaluationResult(ruleName, rule.description, urlInjection.injectedUrl)] else [])
  {
    var e := rule.expectation;
    var numOfChecks := 0;
    if e.headers.Some? { numOfChecks := numOfChecks + 1; }
    if e.contents.Some? { numOfChecks := numOfChecks + 1; }
    if e.codes.Some? { numOfChecks := numOfChecks + 1; }
    if e.lengths.Some? { numOfChecks := numOfChecks + 1; }
    assert numOfChecks == |ExpectedCategories(e)| by {
      CategoryCount(e);
    }

    var counted := CountMatches(rule, resp, heuristics, baseline);
    if counted.Panic? {
      return Panic(counted.reason);
    }
    var checksMatched := counted.value;
    var evaluation := RuleEvaluation(checksMatched, "", false);
    if checksMatched > 0 && checksMatched >= numOfChecks {
      var start := DisplayStart(urlInjection.injectedUrl);
      var u := DecodeUntilPlain(start);
      evaluation := RuleEvaluation(checksMatched, "[" + ruleName + "] successful match for " + u + "\n", true);
      assert evaluation.successMessage == SuccessMessage(ruleName, urlInjection.injectedUrl);
      log.evaluationResults := log.evaluationResults
                               + [EvaluationResult(ruleName, rule.description, urlInjection.injectedUrl)];
    }
    return Return(evaluation);
  }

  /** The number of expected categories is the number of present fields. */
  lemma CategoryCount(e: Expectation)
    ensures |ExpectedCategories(e)|
            == (if e.headers.Some? then 1 else 0) + (if e.contents.Some? then 1 else 0)
               + (if e.codes.Some? then 1 else 0) + (if e.lengths.Some? then 1 else 0)
  {
  }

  /** A subset at least as large as its superset is the whole superset. */
  lemma {:induction false} SubsetAsLarge<T>(a: set<T>, b: set<T>)
    requires a <= b && |a| >= |b|
    ensures a == b
  {
    if a != b {
      var x :| x in b && x !in a;
      assert a <= b - {x};
      SubsetSize(a, b - {x});
    }
  }

  /** A subset is no larger than its superset. */
  lemma {:induction false} SubsetSize<T>(a: set<T>, b: set<T>)
    requires a <= b
    ensures |a| <= |b|
    decreases b
  {
    if a != {} {
      var x :| x in a;
      SubsetSize(a - {x}, b - {x});
    }
  }

  /** Each category adds at most one to `ChecksMatched`, so it never exceeds the number of
      expected categories, which is at most four. */
  lemma ChecksMatchedBounded(rule: Rule, resp: Response, urlInjection: UrlInjection, ruleName: string,
                             heuristics: Response, baseline: Response)
    ensures var r := EvaluationOf(rule, resp, urlInjection, ruleName, heuristics, baseline);
      r.Return? ==> r.value.checksMatched <= |ExpectedCategories(rule.expectation)| <= 4
  {
    var matched := MatchedCategories(rule, resp, heuristics, baseline);
    var expected := ExpectedCategories(rule.expectation);
    SubsetSize(matched, expected);
    SubsetSize(expected, {HeaderCheck, ContentCheck, CodeCheck, LengthCheck});
    var r := EvaluationOf(rule, resp, urlInjection, ruleName, heuristics, baseline);
    assert r.Return? ==> r.value.checksMatched == |matched|;
  }

  /** A rule succeeds exactly when it expects at least one category and every expected
      category matched. */
  lemma SuccessfulIffAllExpectedMatch(rule: Rule, resp: Response, urlInjection: UrlInjection, ruleName: string,
                                      heuristics: Response, baseline: Response)
    ensures var r := EvaluationOf(rule, resp, urlInjection, ruleName, heuristics, baseline);
      r.Return? ==>
        (r.value.successful <==> ExpectedCategories(rule.expectation) != {}
                                 && MatchedCategories(rule, resp, heuristics, baseline) == ExpectedCategories(rule.expectation))
  {
    var matched := MatchedCategories(rule, resp, heuristics, baseline);
    var expected := ExpectedCategories(rule.expectation);
    if |matched| >= |expected| {
      SubsetAsLarge(matched, expected);
    }
  }

  /** A rule that expects nothing never succeeds, whatever the responses. */
  lemma NoExpectationNeverSucceeds(rule: Rule, resp: Response, urlInjection: UrlInjection, ruleName: string,
                                   heuristics: Response, baseline: Response)
    requires rule.expectation == Expectation(None, None, None, None)
    ensures EvaluationOf(rule, resp, urlInjection, ruleName, heuristics, baseline)
            == Return(RuleEvaluation(0, "", false))
  {
    assert MatchedCategories(rule, resp, heuristics, baseline) == {};
  }

  /** An expected category that does not match makes the rule fail, even when every other
      expected category matched. */
  lemma OneMissedCategoryFails(rule: Rule, resp: Response, urlInjection: UrlInjection, ruleName: string,
                               heuristics: Response, baseline: Response, missed: Category)
    requires missed in ExpectedCategories(rule.expectation)
    requires missed !in MatchedCategories(rule, resp, heuristics, baseline)
    ensures var r := EvaluationOf(rule, resp, urlInjection, ruleName, heuristics, baseline);
      r.Return? ==> !r.value.successful && r.value.successMessage == ""
  {
    SuccessfulIffAllExpectedMatch(rule, resp, urlInjection, ruleName, heuristics, baseline);
  }

  /** The success message shows the URL decoded until it holds no `%`, or until decoding fails. */
  lemma MessageShowsDecodedUrl(rule: Rule, resp: Response, urlInjection: UrlInjection, ruleName: string,
                               heuristics: Response, baseline: Response)
    ensures var r := EvaluationOf(rule, resp, urlInjection, ruleName, heuristics, baseline);
      r.Return? && r.value.successful ==>
        exists shown :: r.value.successMessage == "[" + ruleName + "] successful match for " + shown + "\n"
                        && ('%' in shown ==> QueryUnescape(shown).Err?)
                        && |shown| <= |urlInjection.injectedUrl|
  {
    var r := EvaluationOf(rule, resp, urlInjection, ruleName, heuristics, baseline);
    if r.Return? && r.value.successful {
      var start := DisplayStart(urlInjection.injectedUrl);
      var shown := DecodeForDisplay(start);
      assert |start| <= |urlInjection.injectedUrl|;
      assert r.value.successMessage == "[" + ruleName + "] successful match for " + shown + "\n";
    }
  }

  /** Baseline-match names other than the four guard names, in any case, change nothing. */
  lemma UnknownGuardNameIgnored(rule: Rule, name: string, resp: Response, urlInjection: UrlInjection,
                                ruleName: string, heuristics: Response, baseline: Response)
    requires ToLower(name) !in {CodeGuard, LengthGuard, ContentGuard, HeaderGuard}
    ensures var h := rule.heuristics;
      var rule' := rule.(heuristics := h.(baselineMatches := h.baselineMatches + [name]));
      EvaluationOf(rule', resp, urlInjection, ruleName, heuristics, baseline)
      == EvaluationOf(rule, resp, urlInjection, ruleName, heuristics, baseline)
  {
    var h := rule.heuristics;
    var h' := h.(baselineMatches := h.baselineMatches + [name]);
    var rule' := rule.(heuristics := h');
    GuardUnchanged(h, name, CodeGuard);
    GuardUnchanged(h, name, LengthGuard);
    GuardUnchanged(h, name, ContentGuard);
    GuardUnchanged(h, name, HeaderGuard);
    SameGuardsSameEvaluation(rule, rule', resp, urlInjection, ruleName, heuristics, baseline);
  }

  /** The evaluation reads the baseline-match names only through the four guards. */
  lemma SameGuardsSameEvaluation(rule: Rule, rule': Rule, resp: Response, urlInjection: UrlInjection,
                                 ruleName: string, heuristics: Response, baseline: Response)
    requires rule'.expectation == rule.expectation && rule'.description == rule.description
    requires forall g :: g in {CodeGuard, LengthGuard, ContentGuard, HeaderGuard} ==>
               Guarded(rule'.heuristics, g) == Guarded(rule.heuristics, g)
    ensures EvaluationOf(rule', resp, urlInjection, ruleName, heuristics, baseline)
            == EvaluationOf(rule, resp, urlInjection, ruleName, heuristics, baseline)
  {
    assert LengthPanics(rule', resp, heuristics, baseline) == LengthPanics(rule, resp, heuristics, baseline)
           && MatchedCategories(rule', resp, heuristics, baseline) == MatchedCategories(rule, resp, heuristics, baseline) by {
      assert Guarded(rule'.heuristics, CodeGuard) == Guarded(rule.heuristics, CodeGuard);
      assert Guarded(rule'.heuristics, LengthGuard) == Guarded(rule.heuristics, LengthGuard);
      assert Guarded(rule'.heuristics, ContentGuard) == Guarded(rule.heuristics, ContentGuard);
      assert Guarded(rule'.heuristics, HeaderGuard) == Guarded(rule.heuristics, HeaderGuard);
      SameGuardsSameMatches(rule, rule', resp, heuristics, baseline);
    }
  }

  /** Rules with the same expectations and the same four guards match the same categories. */
  lemma SameGuardsSameMatches(rule: Rule, rule': Rule, resp: Response, heuristics: Response, baseline: Response)
    requires rule'.expectation == rule.expectation
    requires Guarded(rule'.heuristics, CodeGuard) == Guarded(rule.heuristics, CodeGuard)
    requires Guarded(rule'.heuristics, LengthGuard) == Guarded(rule.heuristics, LengthGuard)
    requires Guarded(rule'.heuristics, ContentGuard) == Guarded(rule.heuristics, ContentGuard)
    requires Guarded(rule'.heuristics, HeaderGuard) == Guarded(rule.heuristics, HeaderGuard)
    ensures LengthPanics(rule', resp, heuristics, baseline) == LengthPanics(rule, resp, heuristics, baseline)
    ensures MatchedCategories(rule', resp, heuristics, baseline) == MatchedCategories(rule, resp, heuristics, baseline)
  {
  }

  /** Appending a name that lower-cases to something other than `g` leaves `g`'s guard as it was. */
  lemma GuardUnchanged(h: Heuristics, name: string, g: string)
    requires ToLower(name) != g
    ensures Guarded(h.(baselineMatches := h.baselineMatches + [name]), g) == Guarded(h, g)
  {
    var h' := h.(baselineMatches := h.baselineMatches + [name]);
    if Guarded(h', g) {
      var i :| 0 <= i < |h'.baselineMatches| && ToLower(h'.baselineMatches[i]) == g;
      assert i < |h.baselineMatches| && h'.baselineMatches[i] == h.baselineMatches[i];
    }
    if Guarded(h, g) {
      var i :| 0 <= i < |h.baselineMatches| && ToLower(h.baselineMatches[i]) == g;
      assert h'.baselineMatches[i] == h.baselineMatches[i];
    }
  }

  /** Because the tolerance test truncates the quotient, an unguarded length check on a known
      positive length succeeds when some expected length differs from it by less than the whole
      length, not by at most 10%; and it succeeds otherwise only through an expected length so
      far off that the quotient times 100 wraps around in 64 bits. */
  lemma LengthToleranceIsWholeLength(lengths: seq<string>, responseLength: int, heuristics: Response,
                                     baseline: Response)
    requires responseLength > 0
    ensures (exists i :: 0 <= i < |lengths| && Atoi(lengths[i]).Some?
                         && Abs(Atoi(lengths[i]).value - responseLength) < responseLength)
            ==> LengthOutcome(lengths, responseLength, heuristics, baseline, false) == Return(true)
    ensures LengthOutcome(lengths, responseLength, heuristics, baseline, false) == Return(true)
            ==> exists i :: 0 <= i < |lengths| && Atoi(lengths[i]).Some?
                            && (Abs(Atoi(lengths[i]).value - responseLength) < responseLength
                                || Quo(Abs(Atoi(lengths[i]).value - responseLength), responseLength) > MaxInt64 / 100)
  {
    LengthWithinWholeLength(lengths, responseLength, heuristics, baseline);
    LengthBeyondWholeLengthWraps(lengths, responseLength, heuristics, baseline);
  }

  lemma LengthWithinWholeLength(lengths: seq<string>, responseLength: int, heuristics: Response, baseline: Response)
    requires responseLength > 0
    ensures (exists i :: 0 <= i < |lengths| && Atoi(lengths[i]).Some?
                         && Abs(Atoi(lengths[i]).value - responseLength) < responseLength)
            ==> LengthOutcome(lengths, responseLength, heuristics, baseline, false) == Return(true)
  {
    if exists i :: 0 <= i < |lengths| && Atoi(lengths[i]).Some?
                   && Abs(Atoi(lengths[i]).value - responseLength) < responseLength {
      var i :| 0 <= i < |lengths| && Atoi(lengths[i]).Some?
               && Abs(Atoi(lengths[i]).value - responseLength) < responseLength;
      QuoOfDifference(Abs(Atoi(lengths[i]).value - responseLength), responseLength);
      assert WithinTenPercent(Atoi(lengths[i]).value, responseLength);
    }
  }

  lemma LengthBeyondWholeLengthWraps(lengths: seq<string>, responseLength: int, heuristics: Response,
                                     baseline: Response)
    requires responseLength > 0
    ensures LengthOutcome(lengths, responseLength, heuristics, baseline, false) == Return(true)
            ==> exists i :: 0 <= i < |lengths| && Atoi(lengths[i]).Some?
                            && (Abs(Atoi(lengths[i]).value - responseLength) < responseLength
                                || Quo(Abs(Atoi(lengths[i]).value - responseLength), responseLength) > MaxInt64 / 100)
  {
    if LengthOutcome(lengths, responseLength, heuristics, baseline, false) == Return(true) {
      var i :| 0 <= i < |lengths| && Atoi(lengths[i]).Some?
               && WithinTenPercent(Atoi(lengths[i]).value, responseLength);
      var diff := Abs(Atoi(lengths[i]).value - responseLength);
      assert diff < responseLength || Quo(diff, responseLength) > MaxInt64 / 100;
    }
  }

  /** An unknown (negative) length: the unguarded length check succeeds only when some
      expected length parses, and does succeed once one parses and differs from -1 by no more
      than a hundredth of the int64 range (beyond that the product can wrap and fail). */
  lemma UnknownLengthMatchesWithoutWrap(lengths: seq<string>, heuristics: Response, baseline: Response)
    ensures LengthOutcome(lengths, -1, heuristics, baseline, false) == Return(true) ==> SomeLengthParses(lengths)
    ensures (exists i :: 0 <= i < |lengths| && Atoi(lengths[i]).Some? && Abs(Atoi(lengths[i]).value + 1) <= MaxInt64 / 100)
            ==> LengthOutcome(lengths, -1, heuristics, baseline, false) == Return(true)
  {
    if exists i :: 0 <= i < |lengths| && Atoi(lengths[i]).Some? && Abs(Atoi(lengths[i]).value + 1) <= MaxInt64 / 100 {
      var i :| 0 <= i < |lengths| && Atoi(lengths[i]).Some? && Abs(Atoi(lengths[i]).value + 1) <= MaxInt64 / 100;
      var diff := Abs(Atoi(lengths[i]).value - -1);
      assert Quo(diff, -1) + diff == 0;
      assert WithinTenPercent(Atoi(lengths[i]).value, -1);
    }
  }

  /** Header names in an expectation are matched without regard to ASCII case. */
  lemma HeaderNameCaseIgnored(expected: map<string, string>, a: string, b: string, headers: Header,
                              heuristics: Response, baseline: Response, guarded: bool)
    requires a in expected && b !in expected && IsToken(a) && IsToken(b) && ToLower(a) == ToLower(b)
    ensures HeaderMatch(expected, headers, heuristics, baseline, guarded)
            == HeaderMatch(expected - {a} + map[b := expected[a]], headers, heuristics, baseline, guarded)
  {
    var moved := expected - {a} + map[b := expected[a]];
    assert HeaderGet(headers, a) == HeaderGet(headers, b) by {
      GetIgnoresCase(headers, a, b);
    }
    if exists name :: name in expected && Contains(ToLower(HeaderGet(headers, name)), ToLower(expected[name])) {
      var name :| name in expected && Contains(ToLower(HeaderGet(headers, name)), ToLower(expected[name]));
      var name' := if name == a then b else name;
      MovedAt(expected, a, b, name');
      assert name' in moved && moved[name'] == expected[name] && HeaderGet(headers, name') == HeaderGet(headers, name);
    }
    if exists name :: name in moved && Contains(ToLower(HeaderGet(headers, name)), ToLower(moved[name])) {
      var name :| name in moved && Contains(ToLower(HeaderGet(headers, name)), ToLower(moved[name]));
      var name' := if name == b then a else name;
      MovedAt(expected, a, b, name);
      assert name' in expected && expected[name'] == moved[name] && HeaderGet(headers, name') == HeaderGet(headers, name);
    }
  }

  /** The map with the entry of `a` moved to `b`, looked up at one name. */
  lemma MovedAt(expected: map<string, string>, a: string, b: string, name: string)
    requires a in expected && b !in expected
    ensures var moved := expected - {a} + map[b := expected[a]];
      && (name in moved <==> name == b || (name in expected && name != a))
      && (name in moved ==> moved[name] == if name == b then expected[a] else expected[name])
  {
  }
}
