/** The part of Go's `net/url` package the fuzzer relies on. `QueryUnescape` is given a full
    model; parsing, encoding and escaping are abstract functions gathered in `UrlLibrary`. */
module NetUrl {
  import opened Wrappers

  predicate IsHex(c: char) {
    '0' <= c <= '9' || 'a' <= c <= 'f' || 'A' <= c <= 'F'
  }

  function HexValue(c: char): (v: nat)
    requires IsHex(c)
    ensures v < 16
  {
    if '0' <= c <= '9' then c as int - '0' as int
    else if 'a' <= c <= 'f' then c as int - 'a' as int + 10
    else c as int - 'A' as int + 10
  }

  /** The number of occurrences of `c` in `s`. */
  function Count(s: string, c: char): (n: nat)
    ensures n > 0 <==> c in s
  {
    if s == [] then 0 else (if s[0] == c then 1 else 0) + Count(s[1..], c)
  }

  /** `url.QueryUnescape`: `%XX` with two hexadecimal digits becomes the byte XX, `+` becomes a
      space, every other byte is kept; a `%` not followed by two hexadecimal digits is an error.
      Each escape turns three bytes into one, so a successful decoding of a string holding a `%`
      is strictly shorter. */
  function QueryUnescape(s: string): (r: Result<string>)
    ensures r.Ok? ==> |r.value| + 2 * Count(s, '%') == |s|
    ensures r.Ok? && '%' in s ==> |r.value| < |s|
    ensures '%' !in s && '+' !in s ==> r == Ok(s)
    ensures '%' !in s ==> r.Ok?
    decreases |s|
  {
    if s == [] then Ok("")
    else if s[0] == '%' then
      if |s| < 3 || !IsHex(s[1]) || !IsHex(s[2]) then
        Err("invalid URL escape \"" + s[..if |s| < 3 then |s| else 3] + "\"")
      else
        assert Count(s[1..], '%') == Count(s[3..], '%') by {
          assert s[1..][1..] == s[2..] && s[2..][1..] == s[3..];
        }
        match QueryUnescape(s[3..])
        case Err(e) => Err(e)
        case Ok(t) => Ok([(HexValue(s[1]) * 16 + HexValue(s[2])) as char] + t)
    else
      assert s == [s[0]] + s[1..];
      match QueryUnescape(s[1..])
      case Err(e) => Err(e)
      case Ok(t) => Ok([if s[0] == '+' then ' ' else s[0]] + t)
  }

  /** What the evaluator shows of a URL: unescaped again and again while it still holds a `%`
      and unescaping succeeds. The result holds no `%` unless unescaping it fails. */
  function DecodeForDisplay(u: string): (r: string)
    ensures |r| <= |u|
    ensures '%' in r ==> QueryUnescape(r).Err?
    decreases |u|
  {
    if '%' !in u then u
    else match QueryUnescape(u)
      case Err(_) => u
      case Ok(d) => DecodeForDisplay(d)
  }

  /** Decoding for display is idempotent: what it shows is a fixed point. */
  lemma DecodeForDisplayIdempotent(u: string)
    ensures DecodeForDisplay(DecodeForDisplay(u)) == DecodeForDisplay(u)
  {
  }

  /** A parsed URL. `prefix` is everything `URL.String` writes before the query (scheme,
      authority and escaped path); `fragment` is already escaped. */
  datatype UrlParts = UrlParts(
    prefix: string,
    hostname: string,
    path: string,
    escapedPath: string,
    rawQuery: string,
    forceQuery: bool,
    fragment: string)

  /** `URL.String`: the query follows a `?` when it is not empty (or forced), the fragment a `#`. */
  function Render(prefix: string, rawQuery: string, forceQuery: bool, fragment: string): string {
    prefix
    + (if forceQuery || rawQuery != "" then "?" + rawQuery else "")
    + (if fragment != "" then "#" + fragment else "")
  }

  function PartsString(p: UrlParts): string {
    Render(p.prefix, p.rawQuery, p.forceQuery, p.fragment)
  }

  /** A `*url.URL` whose `RawQuery` the fuzzer overwrites in place. */
  class Url {
    const prefix: string
    const hostname: string
    const path: string
    const escapedPath: string
    const forceQuery: bool
    const fragment: string
    var rawQuery: string

    constructor (p: UrlParts)
      ensures prefix == p.prefix && hostname == p.hostname && path == p.path
      ensures escapedPath == p.escapedPath && forceQuery == p.forceQuery && fragment == p.fragment
      ensures rawQuery == p.rawQuery
    {
      prefix, hostname, path, escapedPath := p.prefix, p.hostname, p.path, p.escapedPath;
      forceQuery, fragment, rawQuery := p.forceQuery, p.fragment, p.rawQuery;
    }

    /** `u.String()` for the current query. */
    function String(): string
      reads this
    {
      Render(prefix, rawQuery, forceQuery, fragment)
    }

    /** What `u.String()` returns once `RawQuery` is set to `q`. */
    function WithQuery(q: string): string {
      Render(prefix, q, forceQuery, fragment)
    }
  }

  /** `url.Values`: parameter name to the list of its values. */
  type Values = map<string, seq<string>>

  /** `v[key]` in Go: a missing key reads as an empty (nil) list. */
  function Lookup(v: Values, key: string): seq<string> {
    if key in v then v[key] else []
  }

  /** `Values.Get`: the first value, or "" when there is none. */
  function GetFirst(v: Values, key: string): string {
    var l := Lookup(v, key);
    if |l| > 0 then l[0] else ""
  }

  /** `Values.Add`: appends one value to the list of `key`. */
  function AddValue(v: Values, key: string, value: string): (r: Values)
    ensures r.Keys == v.Keys + {key}
  {
    v[key := Lookup(v, key) + [value]]
  }

  /** A `url.Values` map that several functions share and update in place. */
  class QueryValues {
    var entries: Values

    constructor (v: Values)
      ensures entries == v
    {
      entries := v;
    }

    function Get(key: string): string
      reads this
    {
      GetFirst(entries, key)
    }

    /** `Values.Set`: the list of `key` becomes the single value given. */
    method Set(key: string, value: string)
      modifies this
      ensures entries == old(entries)[key := [value]]
    {
      entries := entries[key := [value]];
    }

    /** `v[key][index] = value`: one position of the list stored under `key` is overwritten. */
    method SetAt(key: string, index: nat, value: string)
      requires key in entries && index < |entries[key]|
      modifies this
      ensures entries == old(entries)[key := old(entries)[key][index := value]]
    {
      entries := entries[key := entries[key][index := value]];
    }
  }

  /** `url.ParseQuery`: the values it could parse, and the first error it met. */
  datatype ParsedQuery = ParsedQuery(values: Values, error: Option<string>)

  /** The functions of `net/url` whose internals are not modelled. */
  datatype UrlLibrary = UrlLibrary(
    parse: string -> Result<UrlParts>,
    parseQuery: string -> ParsedQuery,
    encode: Values -> string,
    queryEscape: string -> string)
}
