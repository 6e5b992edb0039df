/** The deduplication loop of `getUrlsFromFile` in utils.go, over lines already read: a URL is
    kept only if it parses, has a query (or some rule adds extra parameters), and is the first
    one seen for its host, escaped path and set of parameter names. */
module UrlSource {
  import opened Wrappers
  import opened GoStrings
  import opened NetUrl

  /** The names of a set, in some order. */
  ghost function Listed(s: set<string>): (r: seq<string>)
    ensures multiset(r) == multiset(s)
    decreases s
  {
    if s == {} then []
    else
      var x :| x in s;
      assert multiset(s) == multiset(s - {x}) + multiset{x};
      [x] + Listed(s - {x})
  }

  /** What identifies a URL for deduplication: host name (without port), escaped path and the
      parameter names in byte order joined with `&`. */
  function KeyFor(p: UrlParts, params: seq<string>): string {
    p.hostname + p.escapedPath + "?" + Join(Sort(params), "&")
  }

  /** The key of a parsed URL whose query holds `v`. */
  ghost function KeyOf(p: UrlParts, v: Values): string {
    KeyFor(p, Listed(v.Keys))
  }

  /** What one input line offers: nothing when it does not parse or has no query (and no rule
      adds parameters), else its key and the URL as `URL.String` renders it. */
  ghost function Offer(lib: UrlLibrary, line: string, hasExtraParams: bool): Option<(string, string)> {
    match lib.parse(line)
    case Err(_) => None
    case Ok(p) =>
      var v := lib.parseQuery(p.rawQuery).values;
      if |v| == 0 && !hasExtraParams then None else Some((KeyOf(p, v), PartsString(p)))
  }

  ghost function Offers(lib: UrlLibrary, lines: seq<string>, hasExtraParams: bool): (offers: seq<Option<(string, string)>>)
    ensures |offers| == |lines| && forall j :: 0 <= j < |lines| ==> offers[j] == Offer(lib, lines[j], hasExtraParams)
  {
    seq(|lines|, j requires 0 <= j < |lines| => Offer(lib, lines[j], hasExtraParams))
  }

  lemma OffersAppend(lib: UrlLibrary, lines: seq<string>, hasExtraParams: bool, i: nat)
    requires i < |lines|
    ensures Offers(lib, lines[..i + 1], hasExtraParams)
            == Offers(lib, lines[..i], hasExtraParams) + [Offer(lib, lines[i], hasExtraParams)]
  {
    var a, b := Offers(lib, lines[..i + 1], hasExtraParams), Offers(lib, lines[..i], hasExtraParams);
    forall j | 0 <= j < i ensures a[j] == b[j] {
      assert lines[..i + 1][j] == lines[..i][j];
    }
  }

  /** The keys offered. */
  function Keys(offers: seq<Option<(string, string)>>): set<string>
    decreases |offers|
  {
    if offers == [] then {}
    else
      var last := offers[|offers| - 1];
      Keys(offers[..|offers| - 1]) + (if last.Some? then {last.value.0} else {})
  }

  /** The (key, URL) pairs kept, in input order: an offer is kept when no earlier offer had the
      same key. */
  function Kept(offers: seq<Option<(string, string)>>): seq<(string, string)>
    decreases |offers|
  {
    if offers == [] then []
    else
      var before := offers[..|offers| - 1];
      var last := offers[|offers| - 1];
      if last.Some? && last.value.0 !in Keys(before) then Kept(before) + [last.value] else Kept(before)
  }

  /** One more offer: its key joins the keys, and it is kept iff its key is new. */
  lemma OfferStep(offers: seq<Option<(string, string)>>, offer: Option<(string, string)>)
    ensures Keys(offers + [offer]) == Keys(offers) + (if offer.Some? then {offer.value.0} else {})
    ensures Kept(offers + [offer])
            == if offer.Some? && offer.value.0 !in Keys(offers) then Kept(offers) + [offer.value] else Kept(offers)
  {
    assert (offers + [offer])[..|offers|] == offers;
  }

  function Urls(entries: seq<(string, string)>): (urls: seq<string>)
    ensures |urls| == |entries| && forall i :: 0 <= i < |entries| ==> urls[i] == entries[i].1
  {
    seq(|entries|, i requires 0 <= i < |entries| => entries[i].1)
  }

  /** The parameter names of a query, in map iteration order (left unspecified). */
  method ParamNames(v: Values) returns (params: seq<string>)
    ensures multiset(params) == multiset(v.Keys)
  {
    params := [];
    var remaining := v.Keys;
    while remaining != {}
      invariant remaining <= v.Keys
      invariant multiset(params) + multiset(remaining) == multiset(v.Keys)
      decreases remaining
    {
      var param :| param in remaining;
      assert multiset(remaining) == multiset(remaining - {param}) + multiset{param};
      params := params + [param];
      remaining := remaining - {param};
    }
  }

  /** The per-line part of `getUrlsFromFile`: parse the line, skip it when it has no query and
      no rule adds parameters, and build its deduplication key. */
  method OfferOf(lib: UrlLibrary, line: string, hasExtraParams: bool) returns (offer: Option<(string, string)>)
    ensures offer == Offer(lib, line, hasExtraParams)
  {
    var parsed := lib.parse(line);
    if parsed.Err? {
      return None;
    }
    var u := parsed.value;
    var queryStrings := lib.parseQuery(u.rawQuery).values;
    if |queryStrings| == 0 && !hasExtraParams {
      return None;
    }
    var params := ParamNames(queryStrings);
    var key := KeyFor(u, params);
    SortIgnoresOrder(params, Listed(queryStrings.Keys));
    return Some((key, PartsString(u)));
  }

  /** `getUrlsFromFile` over the lines read from standard input. */
  method GetUrlsFromFile(lib: UrlLibrary, lines: seq<string>, hasExtraParams: bool) returns (urls: seq<string>)
    ensures urls == Urls(Kept(Offers(lib, lines, hasExtraParams)))
  {
    var deduplicatedUrls: map<string, bool> := map[];
    urls := [];
    ghost var offers: seq<Option<(string, string)>> := [];
    for i := 0 to |lines|
      invariant offers == Offers(lib, lines[..i], hasExtraParams)
      invariant deduplicatedUrls.Keys == Keys(offers) && urls == Urls(Kept(offers))
    {
      var offer := OfferOf(lib, lines[i], hasExtraParams);
      OffersAppend(lib, lines, hasExtraParams, i);
      deduplicatedUrls, urls := Keep(deduplicatedUrls, urls, offers, offer);
      offers := offers + [offer];
    }
    assert lines[..|lines|] == lines;
  }

  /** The body of the loop of `getUrlsFromFile` once the line's offer is known: a new key is
      recorded and its URL appended; an offer without a key or with a seen one is skipped. */
  method Keep(deduplicatedUrls: map<string, bool>, urls: seq<string>, ghost offers: seq<Option<(string, string)>>,
              offer: Option<(string, string)>)
    returns (seen: map<string, bool>, kept: seq<string>)
    requires deduplicatedUrls.Keys == Keys(offers) && urls == Urls(Kept(offers))
    ensures seen.Keys == Keys(offers + [offer]) && kept == Urls(Kept(offers + [offer]))
  {
    OfferStep(offers, offer);
    if offer.None? {
      return deduplicatedUrls, urls;
    }
    var key := offer.value.0;
    if key in deduplicatedUrls {
      return deduplicatedUrls, urls;
    }
    assert deduplicatedUrls[key := true].Keys == deduplicatedUrls.Keys + {key};
    assert Urls(Kept(offers) + [offer.value]) == Urls(Kept(offers)) + [offer.value.1];
    return deduplicatedUrls[key := true], urls + [offer.value.1];
  }

  /** Every key offered is kept exactly once: the kept keys are the offered keys, without
      repetition. */
  lemma {:induction false} KeptKeysDistinct(offers: seq<Option<(string, string)>>)
    ensures var kept := Kept(offers);
      && (set i | 0 <= i < |kept| :: kept[i].0) == Keys(offers)
      && forall i, j :: 0 <= i < j < |kept| ==> kept[i].0 != kept[j].0
    decreases |offers|
  {
    if offers != [] {
      var before := offers[..|offers| - 1];
      var last := offers[|offers| - 1];
      KeptKeysDistinct(before);
      var kept := Kept(offers);
      var prev := Kept(before);
      if last.Some? && last.value.0 !in Keys(before) {
        assert kept == prev + [last.value];
        forall k ensures k in (set i | 0 <= i < |kept| :: kept[i].0) <==> k in Keys(offers) {
          if k == last.value.0 {
            assert kept[|prev|].0 == k;
          }
          if k in (set i | 0 <= i < |prev| :: prev[i].0) {
            var i :| 0 <= i < |prev| && prev[i].0 == k;
            assert kept[i].0 == k;
          }
          if k in (set i | 0 <= i < |kept| :: kept[i].0) {
            var i :| 0 <= i < |kept| && kept[i].0 == k;
            if i < |prev| {
              assert prev[i].0 == k;
            }
          }
        }
        forall i, j | 0 <= i < j < |kept| ensures kept[i].0 != kept[j].0 {
          if j == |prev| {
            assert prev[i].0 in (set i | 0 <= i < |prev| :: prev[i].0);
          }
        }
      }
    }
  }

  /** A kept pair is the offer of the first line offering its key. */
  lemma {:induction false} KeptIsFirst(offers: seq<Option<(string, string)>>, i: nat)
    requires i < |Kept(offers)|
    ensures exists j :: 0 <= j < |offers| && offers[j] == Some(Kept(offers)[i]) && Kept(offers)[i].0 !in Keys(offers[..j])
    decreases |offers|
  {
    var before := offers[..|offers| - 1];
    var prev := Kept(before);
    var e := Kept(offers)[i];
    if i < |prev| {
      KeptIsFirst(before, i);
      var j :| 0 <= j < |before| && before[j] == Some(e) && e.0 !in Keys(before[..j]);
      assert offers[j] == before[j] && offers[..j] == before[..j];
    } else {
      var j := |offers| - 1;
      assert offers[..j] == before;
    }
  }

  /** The key does not look at the scheme, the port or the values: two URLs with the same host
      name, escaped path and parameter names share it. */
  lemma KeyIgnoresValues(p: UrlParts, q: UrlParts, v: Values, w: Values)
    requires p.hostname == q.hostname && p.escapedPath == q.escapedPath && v.Keys == w.Keys
    ensures KeyOf(p, v) == KeyOf(q, w)
  {
  }

  /** Joining with `&` is ambiguous: one parameter named `a&b` and two parameters `a` and `b`
      give the same key, so the second URL is dropped as a duplicate of the first. */
  lemma AmpersandNameCollides(p: UrlParts)
    ensures KeyFor(p, ["a&b"]) == KeyFor(p, ["b", "a"])
  {
    SortTwoNames();
    SortOneName("a&b");
    assert Join(["a", "b"], "&") == "a&b";
  }

  lemma SortTwoNames()
    ensures Sort(["b", "a"]) == ["a", "b"]
  {
    assert "b"[0] > "a"[0];
    SortPair("b", "a");
  }
}
