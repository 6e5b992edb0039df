/** `runEvaluation` of main.go, the older evaluator with its own types: it counts every matching
    expected item rather than every matching category, compares case-sensitively, and succeeds
    as soon as the count reaches the number of expected categories. */
module LegacyMain {
  import opened Wrappers
  import opened GoStrings
  import opened NetHttp
  import Evaluations

  /** What a rule expects; a present (non-nil) field is one category, even when empty. */
  datatype ExpectedResponse = ExpectedResponse(
    contents: Option<seq<string>>,
    codes: Option<seq<int>>,
    headers: Option<map<string, string>>)

  datatype Rule = Rule(description: string, injections: seq<string>, expectation: ExpectedResponse)

  datatype Response = Response(statusCode: int, body: string, headers: Header)

  datatype RuleEvaluation = RuleEvaluation(checksMatched: int, successMessage: string, successful: bool)

  datatype EvaluationResult = EvaluationResult(ruleName: string, ruleDescription: string, injectedUrl: string)

  /** The process-wide list of confirmed matches. */
  class ResultLog {
    var evaluationResults: seq<EvaluationResult>

    constructor ()
      ensures evaluationResults == []
    {
      evaluationResults := [];
    }
  }

  /** The number of present expectation fields. */
  function NumOfChecks(e: ExpectedResponse): (n: nat)
    ensures n <= 3
    ensures n == 0 <==> e.contents.None? && e.codes.None? && e.headers.None?
  {
    (if e.headers.Some? then 1 else 0) + (if e.contents.Some? then 1 else 0) + (if e.codes.Some? then 1 else 0)
  }

  /** The expected contents found in the body, each counted. */
  function ContentHits(contents: seq<string>, body: string): (n: nat)
    ensures n <= |contents|
    decreases |contents|
  {
    if contents == [] then 0
    else
      var last := contents[|contents| - 1];
      ContentHits(contents[..|contents| - 1], body) + (if Contains(body, last) then 1 else 0)
  }

  /** The expected header names whose response value contains the expected text. */
  ghost function HeaderHits(expected: map<string, string>, headers: Header): set<string> {
    set name | name in expected && Contains(HeaderGet(headers, name), expected[name])
  }

  /** The sum `runEvaluation` builds: every hit of every present category. */
  ghost function ChecksMatched(e: ExpectedResponse, resp: Response): nat {
    (if e.contents.Some? then ContentHits(e.contents.value, resp.body) else 0)
    + (if e.codes.Some? then multiset(e.codes.value)[resp.statusCode] else 0)
    + (if e.headers.Some? then |HeaderHits(e.headers.value, resp.headers)| else 0)
  }

  /** The line printed for a successful match: the injected URL unescaped once, or as given
      when it does not unescape. */
  function SuccessMessage(ruleName: string, injectedUrl: string): string {
    "[" + ruleName + "] successful match for " + Evaluations.DisplayStart(injectedUrl) + "\n"
  }

  /** What `runEvaluation` returns. */
  ghost function EvaluationOf(rule: Rule, resp: Response, injectedUrl: string, ruleName: string): RuleEvaluation {
    var n := ChecksMatched(rule.expectation, resp);
    var successful := n >= NumOfChecks(rule.expectation);
    RuleEvaluation(n, if successful then SuccessMessage(ruleName, injectedUrl) else "", successful)
  }

  /** The content loop: one hit per expected string found, case-sensitively. */
  method CountContents(contents: seq<string>, body: string) returns (hits: nat)
    ensures hits == ContentHits(contents, body)
  {
    hits := 0;
    for i := 0 to |contents|
      invariant hits == ContentHits(contents[..i], body)
    {
      assert contents[..i + 1][..i] == contents[..i];
      if Contains(body, contents[i]) {
        hits := hits + 1;
      }
    }
    assert contents[..|contents|] == contents;
  }

  /** The code loop: one hit per expected code equal to the status, duplicates included. */
  method CountCodes(codes: seq<int>, statusCode: int) returns (hits: nat)
    ensures hits == multiset(codes)[statusCode]
  {
    hits := 0;
    for i := 0 to |codes|
      invariant hits == multiset(codes[..i])[statusCode]
    {
      assert codes[..i + 1] == codes[..i] + [codes[i]];
      if codes[i] == statusCode {
        hits := hits + 1;
      }
    }
    assert codes[..|codes|] == codes;
  }

  /** The header loop, in map iteration order: one hit per expected header found. */
  method CountHeaders(expected: map<string, string>, headers: Header) returns (hits: nat)
    ensures hits == |HeaderHits(expected, headers)|
  {
    hits := 0;
    var remaining := expected.Keys;
    ghost var found: set<string> := {};
    while remaining != {}
      invariant remaining <= expected.Keys
      invariant found == HeaderHits(expected, headers) - remaining
      invariant hits == |found|
      decreases remaining
    {
      var header :| header in remaining;
      if Contains(HeaderGet(headers, header), expected[header]) {
        hits := hits + 1;
        found := found + {header};
      }
      remaining := remaining - {header};
    }
  }

  /** `runEvaluation`: count every hit of every present category, succeed when the count
      reaches the number of present categories, and then log the match. */
  method RunEvaluation(log: ResultLog, resp: Response, ruleData: Rule, injectedUrl: string, ruleName: string)
    returns (ruleEvaluation: RuleEvaluation)
    modifies log
    ensures ruleEvaluation == EvaluationOf(ruleData, resp, injectedUrl, ruleName)
    ensures log.evaluationResults
            == old(log.evaluationResults)
               + (if ruleEvaluation.successful then [EvaluationResult(ruleName, ruleData.description, injectedUrl)]
                  else [])
  {
    var e := ruleData.expectation;
    var numOfChecks := NumOfChecks(e);
    var checksMatched := 0;
    if e.contents.Some? {
      var hits := CountContents(e.contents.value, resp.body);
      checksMatched := checksMatched + hits;
    }
    if e.codes.Some? {
      var hits := CountCodes(e.codes.value, resp.statusCode);
      checksMatched := checksMatched + hits;
    }
    if e.headers.Some? {
      var hits := CountHeaders(e.headers.value, resp.headers);
      checksMatched := checksMatched + hits;
    }
    ruleEvaluation := RuleEvaluation(checksMatched, "", false);
    if checksMatched >= numOfChecks {
      var u := Evaluations.DisplayStart(injectedUrl);
      ruleEvaluation := RuleEvaluation(checksMatched, "[" + ruleName + "] successful match for " + u + "\n", true);
      log.evaluationResults := log.evaluationResults + [EvaluationResult(ruleName, ruleData.description, injectedUrl)];
    }
  }

  /** A rule with no expectations always succeeds. */
  lemma NoExpectationsSucceed(rule: Rule, resp: Response, injectedUrl: string, ruleName: string)
    requires rule.expectation == ExpectedResponse(None, None, None)
    ensures EvaluationOf(rule, resp, injectedUrl, ruleName).successful
    ensures EvaluationOf(rule, resp, injectedUrl, ruleName).checksMatched == 0
  {
  }

  /** The count never exceeds the number of expected items. */
  lemma {:induction false} ChecksMatchedBounded(e: ExpectedResponse, resp: Response)
    ensures ChecksMatched(e, resp)
            <= (if e.contents.Some? then |e.contents.value| else 0)
               + (if e.codes.Some? then |e.codes.value| else 0)
               + (if e.headers.Some? then |e.headers.value| else 0)
  {
    if e.codes.Some? {
      assert multiset(e.codes.value)[resp.statusCode] <= |multiset(e.codes.value)|;
    }
    if e.headers.Some? {
      Evaluations.SubsetSize(HeaderHits(e.headers.value, resp.headers), e.headers.value.Keys);
    }
  }

  /** Surplus hits in one category make up for a category with none: two expected contents
      found, no expected code matching, and the rule still succeeds. */
  lemma SurplusCompensates(resp: Response, injectedUrl: string, ruleName: string)
    requires resp.body == "ab" && resp.statusCode == 500
    ensures var rule := Rule("", [], ExpectedResponse(Some(["a", "b"]), Some([200]), None));
      var r := EvaluationOf(rule, resp, injectedUrl, ruleName);
      r.successful && r.checksMatched == 2
  {
    assert OccursAt(resp.body, "a", 0) && OccursAt(resp.body, "b", 1);
    ContainsIff(resp.body, "a");
    ContainsIff(resp.body, "b");
    assert ["a", "b"][..1] == ["a"];
    assert ["a", "b"][..1][..0] == [];
  }

  /** Equal expected codes each count: a rule listing the response's status twice, and
      nothing else, matches twice and succeeds. */
  lemma DuplicateCodesCountTwice(resp: Response, injectedUrl: string, ruleName: string)
    ensures var e := ExpectedResponse(None, Some([resp.statusCode, resp.statusCode]), None);
      var r := EvaluationOf(Rule("", [], e), resp, injectedUrl, ruleName);
      && ChecksMatched(e, resp) == 2 && NumOfChecks(e) == 1
      && r.checksMatched == 2 && r.successful
  {
    assert multiset([resp.statusCode, resp.statusCode])[resp.statusCode] == 2;
  }
}
