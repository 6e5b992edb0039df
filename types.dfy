/** The records the fuzzer passes between its parts (package-level Go structs). */
module Types {
  import opened Wrappers
  import opened NetHttp

  /** What a rule expects of a response. Each field that is present (a non-nil Go slice or map,
      even an empty one) is one expectation category. Codes and lengths are kept as text and
      parsed when they are checked. */
  datatype Expectation = Expectation(
    headers: Option<map<string, string>>,
    contents: Option<seq<string>>,
    codes: Option<seq<string>>,
    lengths: Option<seq<string>>)

  /** The control mutation of a rule and the categories it corroborates. */
  datatype Heuristics = Heuristics(injection: string, baselineMatches: seq<string>)

  datatype Rule = Rule(
    description: string,
    injections: seq<string>,
    extraParams: seq<string>,
    expectation: Expectation,
    heuristics: Heuristics)

  /** One HTTP exchange; `contentLength` is -1 when the server did not announce a length. */
  datatype Response = Response(statusCode: int, body: string, headers: Header, contentLength: int)

  /** The URLs requested for one mutation point; `heuristicsUrl` is "" when the rule has no
      heuristic injection. */
  datatype UrlInjection = UrlInjection(baselineUrl: string, injectedUrl: string, heuristicsUrl: string)

  datatype RuleEvaluation = RuleEvaluation(checksMatched: int, successMessage: string, successful: bool)

  /** A confirmed match kept for the end of the run. */
  datatype EvaluationResult = EvaluationResult(ruleName: string, ruleDescription: string, injectedUrl: string)
}
