/** The helpers of utils.go: the length tolerance, the `[[token]]` templating and the
    serialisation of an injected query. */
module Utils {
  import opened Wrappers
  import opened GoStrings
  import opened GoNumbers
  import opened NetUrl

  /** `isLengthWithinTenPercent`: the difference is divided by the response length with
      truncation toward zero, and the quotient times 100, computed in 64-bit `int` and so
      wrapped, is compared with 10. While the product does not wrap, the check holds exactly
      when the difference is smaller than a positive response length (any difference up to,
      not including, 100%), and always for a negative (unknown) length. A zero response length
      divides by zero. */
  function WithinTenPercent(expectedLength: int, responseLength: int): (r: bool)
    requires responseLength != 0
    ensures var diff := Abs(expectedLength - responseLength);
      responseLength > 0 && Quo(diff, responseLength) <= MaxInt64 / 100 ==> (r <==> diff < responseLength)
    ensures var diff := Abs(expectedLength - responseLength);
      responseLength < 0 && Quo(diff, responseLength) >= -(MaxInt64 / 100) ==> r
  {
    var diff := Abs(expectedLength - responseLength);
    QuoOfDifference(diff, responseLength);
    Wrap64(Quo(diff, responseLength) * 100) <= 10
  }

  /** A difference of 2^62 against a response length of 1 is a quotient of 2^62, and 2^62 * 100
      wraps to 0: the check holds although the difference is far beyond the length. */
  lemma HugeDifferenceWrapsToMatch()
    ensures WithinTenPercent(0x4000_0000_0000_0001, 1)
    ensures Abs(0x4000_0000_0000_0001 - 1) >= 1
  {
  }

  /** Against an unknown length (-1) a large enough difference wraps to a positive product
      above 10, so the check fails although the length is unknown. For 2^57 - 1 the difference
      is 2^57 both exactly and through `float64` (which rounds 2^57 - 1 and 2^57 + 1 to 2^57),
      and -100 * 2^57 wraps to 4035225266123964416. */
  lemma UnknownLengthWrapsToMismatch()
    ensures Abs(0x1FF_FFFF_FFFF_FFFF - -1) == 0x200_0000_0000_0000
    ensures !WithinTenPercent(0x1FF_FFFF_FFFF_FFFF, -1)
  {
  }

  /** The truncated quotient of a difference by a positive length is zero exactly when the
      difference is smaller; by a negative length it is never positive. */
  lemma QuoOfDifference(diff: nat, responseLength: int)
    requires responseLength != 0
    ensures responseLength > 0 ==> Quo(diff, responseLength) >= 0
                                   && (Quo(diff, responseLength) == 0 <==> diff < responseLength)
    ensures responseLength < 0 ==> Quo(diff, responseLength) <= 0
  {
    DivisionBelow(diff, Abs(responseLength));
  }

  /** A natural number divided by a larger one gives zero, and by one no larger at least one. */
  lemma DivisionBelow(d: nat, n: nat)
    requires n > 0
    ensures d / n >= 0 && (d / n == 0 <==> d < n)
  {
    var q, r := d / n, d % n;
    assert d == n * q + r && 0 <= r < n;
    if q >= 1 {
      assert n * q == n * (q - 1) + n;
      assert n * (q - 1) >= 0;
    }
  }

  const FullUrlToken: string := "[[fullurl]]"
  const DomainToken: string := "[[domain]]"
  const PathToken: string := "[[path]]"
  const OriginalValueToken: string := "[[originalvalue]]"

  /** What the URL-dependent tokens stand for. */
  datatype TemplateContext = TemplateContext(fullUrl: string, domain: string, path: string)

  /** The replacement values taken from `u` as it is now: the escaped full URL, the host name
      without port, the escaped path. */
  function ContextOf(lib: UrlLibrary, u: Url): TemplateContext
    reads u
  {
    TemplateContext(lib.queryEscape(u.String()), u.hostname, lib.queryEscape(u.path))
  }

  /** A payload is treated as a template only if it holds both `[[` and `]]`. */
  predicate Templated(s: string) {
    Contains(s, "[[") && Contains(s, "]]")
  }

  /** The replacer's pairs: `[[originalvalue]]` takes part only when a parameter is known. */
  function TokenValues(ctx: TemplateContext, original: Option<string>): (pairs: Replacements)
    ensures NonEmptyPatterns(pairs)
    ensures forall k :: 0 <= k < |pairs| ==> HasPrefix(pairs[k].0, "[[")
  {
    [(FullUrlToken, ctx.fullUrl), (DomainToken, ctx.domain), (PathToken, ctx.path)]
    + (if original.Some? then [(OriginalValueToken, original.value)] else [])
  }

  /** The string part of `expandTemplatedValues`. */
  function ExpandTemplate(template: string, ctx: TemplateContext, original: Option<string>): string {
    if !Templated(template) then template else Replace(template, TokenValues(ctx, original))
  }

  /** Only the exact lower-case tokens are replaced: a template in which none of them occurs
      comes back unchanged, whatever else it holds between brackets. */
  lemma ExpandKeepsUnknownTokens(template: string, ctx: TemplateContext, original: Option<string>)
    requires forall i :: !OccursAt(template, FullUrlToken, i) && !OccursAt(template, DomainToken, i)
    requires forall i :: !OccursAt(template, PathToken, i) && !OccursAt(template, OriginalValueToken, i)
    ensures ExpandTemplate(template, ctx, original) == template
  {
    if Templated(template) {
      var pairs := TokenValues(ctx, original);
      forall i, k | 0 <= k < |pairs| ensures !OccursAt(template, pairs[k].0, i) {
        assert pairs[k].0 in [FullUrlToken, DomainToken, PathToken, OriginalValueToken];
      }
      ReplaceNoPattern(template, pairs);
    }
  }

  /** Token matching is case-sensitive: `[[DOMAIN]]` is not a token. */
  lemma UpperCaseTokenIsLiteral(ctx: TemplateContext, original: Option<string>)
    ensures ExpandTemplate("[[DOMAIN]]", ctx, original) == "[[DOMAIN]]"
  {
    var t := "[[DOMAIN]]";
    forall i ensures !OccursAt(t, FullUrlToken, i) && !OccursAt(t, DomainToken, i)
      && !OccursAt(t, PathToken, i) && !OccursAt(t, OriginalValueToken, i)
    {
      if 0 <= i <= 2 { assert t[i + 2] != 'o' && t[i + 2] != 'a'; }
    }
    ExpandKeepsUnknownTokens(t, ctx, original);
  }

  /** A token can only start where the text has `[[`. */
  lemma TokenStartsWithOpening(s: string, p: string, i: int)
    requires HasPrefix(p, "[[")
    ensures OccursAt(s, p, i) ==> OccursAt(s, "[[", i)
  {
    if 0 <= i && i + |p| <= |s| {
      assert s[i..i + 2] == s[i..i + |p|][..2];
    }
  }

  /** In `[[` followed by text without `[`, the only `[[` is the first one. */
  lemma OnlyLeadingOpening(rest: string, i: int)
    requires '[' !in rest
    ensures OccursAt("[[" + rest, "[[", i) ==> i == 0
  {
    var t := "[[" + rest;
    if 1 <= i && i + 2 <= |t| {
      assert t[i + 1] == rest[i - 1];
    }
  }

  /** Template text that is a single token `[[name]]`, with no other `[`, is only matched by
      the token with that name. */
  lemma OnlyTokenAtStart(rest: string, pairs: Replacements, k: int, i: int)
    requires '[' !in rest && 0 <= k < |pairs| && HasPrefix(pairs[k].0, "[[")
    requires |pairs[k].0| > 2 && |rest| > 0 && rest[0] != pairs[k].0[2]
    ensures !OccursAt("[[" + rest, pairs[k].0, i)
  {
    var t := "[[" + rest;
    TokenStartsWithOpening(t, pairs[k].0, i);
    OnlyLeadingOpening(rest, i);
    if i == 0 && |pairs[k].0| <= |t| {
      assert t[..|pairs[k].0|][2] == rest[0];
    }
  }

  /** Text that is exactly the first matching pattern becomes its replacement. */
  lemma ReplaceWholeToken(t: string, pairs: Replacements, k: nat)
    requires NonEmptyPatterns(pairs) && k < |pairs| && pairs[k].0 == t
    requires forall j :: 0 <= j < k ==> !HasPrefix(t, pairs[j].0)
    ensures Replace(t, pairs) == pairs[k].1
  {
    assert HasPrefix(t, pairs[k].0);
    assert FirstMatch(t, pairs) == Some(k);
    assert t[|t|..] == [];
  }

  /** Without a parameter, `[[originalvalue]]` stays literal. */
  lemma OriginalValueNeedsParameter(ctx: TemplateContext)
    ensures ExpandTemplate(OriginalValueToken, ctx, None) == OriginalValueToken
  {
    var rest := "originalvalue]]";
    assert OriginalValueToken == "[[" + rest;
    var pairs := TokenValues(ctx, None);
    forall i, k | 0 <= k < |pairs| ensures !OccursAt(OriginalValueToken, pairs[k].0, i) {
      OnlyTokenAtStart(rest, pairs, k, i);
    }
    ReplaceNoPattern(OriginalValueToken, pairs);
  }

  /** Both single-token templates are templates. */
  lemma TokensTemplated()
    ensures Templated(OriginalValueToken) && Templated(DomainToken)
  {
    var t, d := OriginalValueToken, DomainToken;
    assert OccursAt(t, "[[", 0) && OccursAt(t, "]]", 15);
    assert OccursAt(d, "[[", 0) && OccursAt(d, "]]", 8);
    ContainsIff(t, "[[");
    ContainsIff(t, "]]");
    ContainsIff(d, "[[");
    ContainsIff(d, "]]");
  }

  /** The replacer turns the whole text `[[originalvalue]]` into the parameter's value. */
  lemma ReplaceOriginalValue(ctx: TemplateContext, value: string)
    ensures Replace(OriginalValueToken, TokenValues(ctx, Some(value))) == value
  {
    var t := OriginalValueToken;
    var pairs := TokenValues(ctx, Some(value));
    assert t[2] == 'o';
    assert !HasPrefix(t, pairs[0].0) && !HasPrefix(t, pairs[1].0) && !HasPrefix(t, pairs[2].0) by {
      assert pairs[0].0[2] == 'f' && pairs[1].0[2] == 'd' && pairs[2].0[2] == 'p';
    }
    ReplaceWholeToken(t, pairs, 3);
  }

  /** With a parameter, `[[originalvalue]]` becomes its value. */
  lemma OriginalValueResolved(ctx: TemplateContext, value: string)
    ensures ExpandTemplate(OriginalValueToken, ctx, Some(value)) == value
  {
    TokensTemplated();
    ReplaceOriginalValue(ctx, value);
  }

  /** The replacer turns the whole text `[[domain]]` into the host name. */
  lemma ReplaceDomain(ctx: TemplateContext, original: Option<string>)
    ensures Replace(DomainToken, TokenValues(ctx, original)) == ctx.domain
  {
    var t := DomainToken;
    var pairs := TokenValues(ctx, original);
    assert t[2] == 'd';
    assert !HasPrefix(t, pairs[0].0) by { assert pairs[0].0[2] == 'f'; }
    ReplaceWholeToken(t, pairs, 1);
  }

  /** `[[domain]]` becomes the host name. */
  lemma DomainResolved(ctx: TemplateContext, original: Option<string>)
    ensures ExpandTemplate(DomainToken, ctx, original) == ctx.domain
  {
    TokensTemplated();
    ReplaceDomain(ctx, original);
  }

  /** `expandTemplatedValues`: the expanded payload, and, when a parameter `qs` is named and the
      payload is a template, the parameter's list replaced in place by that one value.
      `index` is not used, as in the source. */
  method ExpandTemplatedValues(lib: UrlLibrary, ruleInjection: string, u: Url, qs: string, index: int,
                               queryStrings: QueryValues?)
    returns (expanded: string, values: QueryValues?)
    requires qs != "" ==> queryStrings != null
    modifies queryStrings
    ensures values == queryStrings
    ensures expanded == ExpandTemplate(ruleInjection, ContextOf(lib, u),
                                       if qs != "" then Some(GetFirst(old(queryStrings.entries), qs)) else None)
    ensures queryStrings != null ==>
      queryStrings.entries == if qs != "" && Templated(ruleInjection)
                              then old(queryStrings.entries)[qs := [expanded]]
                              else old(queryStrings.entries)
    ensures !Templated(ruleInjection) ==> expanded == ruleInjection
  {
    if !Templated(ruleInjection) {
      return ruleInjection, queryStrings;
    }
    var ctx := ContextOf(lib, u);
    if qs != "" {
      var original := queryStrings.Get(qs);
      expanded := Replace(ruleInjection, TokenValues(ctx, Some(original)));
      queryStrings.Set(qs, expanded);
    } else {
      expanded := Replace(ruleInjection, TokenValues(ctx, None));
    }
    values := queryStrings;
  }

  /** `getInjectedQueryString`: the encoded query, or its unescaped form in decoded-parameter
      mode. The unescaping is tried in both modes, and its failure makes the result an error
      even when the encoded form was asked for. */
  function InjectedQueryString(lib: UrlLibrary, injectedQs: Values, decodedParams: bool): (r: Result<string>)
    ensures r.Err? <==> QueryUnescape(lib.encode(injectedQs)).Err?
    ensures r.Ok? && !decodedParams ==> r.value == lib.encode(injectedQs)
    ensures r.Ok? ==> |r.value| <= |lib.encode(injectedQs)|
  {
    var encoded := lib.encode(injectedQs);
    match QueryUnescape(encoded)
    case Err(e) => Err(e)
    case Ok(decoded) => Ok(if decodedParams then decoded else encoded)
  }

  /** The two modes agree on a query with nothing to unescape. */
  lemma DecodedModeAgreesOnPlainQuery(lib: UrlLibrary, injectedQs: Values)
    requires '%' !in lib.encode(injectedQs) && '+' !in lib.encode(injectedQs)
    ensures InjectedQueryString(lib, injectedQs, true) == InjectedQueryString(lib, injectedQs, false)
    ensures InjectedQueryString(lib, injectedQs, true) == Ok(lib.encode(injectedQs))
  {
  }

  /** The caller logs an error and carries on with an empty query. */
  function QueryOrEmpty(r: Result<string>): string {
    if r.Err? then "" else r.value
  }
}
