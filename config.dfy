/** The string handling of config.go: the `-H`/`-headers` flag parsed into a header map, the
    config-file and cookie flags, and the post-processing of a loaded configuration (the Slack
    channel prefix and the extra-parameter flag). */
module Config {
  import opened Wrappers
  import opened GoStrings
  import opened Types

  /** The command-line options the parsing looks at. */
  datatype CliOptions = CliOptions(configFile: string, cookies: string, headers: string, toSlack: bool)

  /** The global configuration, filled in place. */
  class Configuration {
    var rules: map<string, Rule>
    var slack: map<string, string>
    var cookies: string
    var headers: map<string, string>
    var hasExtraParams: bool

    constructor (rules: map<string, Rule>, slack: map<string, string>)
      ensures this.rules == rules && this.slack == slack
      ensures cookies == "" && headers == map[] && !hasExtraParams
    {
      this.rules, this.slack := rules, slack;
      cookies, headers, hasExtraParams := "", map[], false;
    }
  }

  const ConfigFileRequired: string := "config file flag is required"
  const HeadersMalformed: string := "headers flag not formatted properly (no colon to separate header and value)"

  /** One `;`-separated segment of the header flag: split on `": "` when it holds one, else on
      `":"`, else skipped. Name and value are the first two pieces, trimmed; later pieces are
      dropped. */
  function HeaderPair(header: string): (r: Option<(string, string)>)
    ensures r.None? <==> !Contains(header, ":")
  {
    if Contains(header, ": ") then
      ColonInColonSpace(header);
      var parts := Split(header, ": ");
      Some((TrimSpace(parts[0]), TrimSpace(parts[1])))
    else if Contains(header, ":") then
      var parts := Split(header, ":");
      Some((TrimSpace(parts[0]), TrimSpace(parts[1])))
    else
      assert !Contains(header, ":");
      None
  }

  lemma ColonInColonSpace(s: string)
    requires Contains(s, ": ")
    ensures Contains(s, ":")
  {
    ContainsIff(s, ": ");
    ContainsIff(s, ":");
    var j :| OccursAt(s, ": ", j);
    assert s[j..j + 1] == s[j..j + 2][..1];
    assert OccursAt(s, ":", j);
  }

  /** Segment `j` gives the name `name`. */
  predicate Gives(segments: seq<string>, j: int, name: string) {
    0 <= j < |segments| && HeaderPair(segments[j]).Some? && HeaderPair(segments[j]).value.0 == name
  }

  /** The map the segments build, each pair overwriting any earlier one with the same name. */
  function HeaderMap(segments: seq<string>): map<string, string>
    decreases |segments|
  {
    if segments == [] then map[]
    else
      var before := HeaderMap(segments[..|segments| - 1]);
      match HeaderPair(segments[|segments| - 1])
      case None => before
      case Some(pair) => before[pair.0 := pair.1]
  }

  /** A name is in the map exactly when some segment gives it. */
  lemma {:induction false} HeaderMapKeys(segments: seq<string>, name: string)
    ensures name in HeaderMap(segments) <==> exists j :: Gives(segments, j, name)
    decreases |segments|
  {
    if segments != [] {
      var before := segments[..|segments| - 1];
      HeaderMapKeys(before, name);
      assert name in HeaderMap(segments) <==> name in HeaderMap(before) || Gives(segments, |before|, name) by {
        HeaderMapLast(segments, name);
      }
      forall j | 0 <= j < |before| ensures Gives(segments, j, name) <==> Gives(before, j, name) {
        assert segments[j] == before[j];
      }
      if name in HeaderMap(segments) {
        if name in HeaderMap(before) {
          var j :| Gives(before, j, name);
          assert Gives(segments, j, name);
        } else {
          assert Gives(segments, |before|, name);
        }
      } else {
        forall j | 0 <= j < |segments| ensures !Gives(segments, j, name) {
          if j < |before| {
            assert !Gives(before, j, name);
          }
        }
      }
    }
  }

  /** The last segment adds its name, if it gives one, to the map of the others. */
  lemma HeaderMapLast(segments: seq<string>, name: string)
    requires segments != []
    ensures name in HeaderMap(segments)
            <==> name in HeaderMap(segments[..|segments| - 1]) || Gives(segments, |segments| - 1, name)
  {
  }

  /** The last segment that gives a name decides its value. */
  lemma {:induction false} LastHeaderWins(segments: seq<string>, j: nat)
    requires j < |segments| && HeaderPair(segments[j]).Some?
    requires forall l :: j < l < |segments| && HeaderPair(segments[l]).Some? ==>
               HeaderPair(segments[l]).value.0 != HeaderPair(segments[j]).value.0
    ensures var pair := HeaderPair(segments[j]).value;
      pair.0 in HeaderMap(segments) && HeaderMap(segments)[pair.0] == pair.1
    decreases |segments|
  {
    var before := segments[..|segments| - 1];
    if j < |before| {
      assert segments[j] == before[j];
      forall l | j < l < |before| && HeaderPair(before[l]).Some?
        ensures HeaderPair(before[l]).value.0 != HeaderPair(before[j]).value.0
      {
        assert before[l] == segments[l];
      }
      LastHeaderWins(before, j);
    }
  }

  /** The headers a flag gives: its `;`-separated segments, in order. */
  function FlagHeaders(flag: string): map<string, string> {
    HeaderMap(Split(flag, ";"))
  }

  /** The header-flag part of `verifyFlags`: split the flag on `;` and fill a fresh map. */
  method ParseHeaders(flag: string) returns (headers: map<string, string>)
    ensures headers == FlagHeaders(flag)
  {
    headers := map[];
    var rawHeaders := Split(flag, ";");
    for i := 0 to |rawHeaders|
      invariant headers == HeaderMap(rawHeaders[..i])
    {
      var header := rawHeaders[i];
      var parts: seq<string>;
      if Contains(header, ": ") {
        parts := Split(header, ": ");
      } else if Contains(header, ":") {
        parts := Split(header, ":");
      } else {
        assert headers == HeaderMap(rawHeaders[..i + 1]) by {
          HeaderMapStep(rawHeaders, i);
        }
        continue;
      }
      assert HeaderPair(header) == Some((TrimSpace(parts[0]), TrimSpace(parts[1])));
      headers := headers[TrimSpace(parts[0]) := TrimSpace(parts[1])];
      assert headers == HeaderMap(rawHeaders[..i + 1]) by {
        HeaderMapStep(rawHeaders, i);
      }
    }
    assert rawHeaders[..|rawHeaders|] == rawHeaders;
  }

  lemma HeaderMapStep(segments: seq<string>, i: nat)
    requires i < |segments|
    ensures HeaderMap(segments[..i + 1])
            == match HeaderPair(segments[i])
               case None => HeaderMap(segments[..i])
               case Some(pair) => HeaderMap(segments[..i])[pair.0 := pair.1]
  {
    assert segments[..i + 1][..i] == segments[..i];
  }

  /** The error `verifyFlags` reports: a missing config file first, then a header flag
      without any colon. */
  function FlagsError(options: CliOptions): (err: Option<string>)
    ensures err.None? <==> options.configFile != "" && (options.headers == "" || Contains(options.headers, ":"))
    ensures options.configFile == "" ==> err == Some(ConfigFileRequired)
  {
    if options.configFile == "" then Some(ConfigFileRequired)
    else if options.headers != "" && !Contains(options.headers, ":") then Some(HeadersMalformed)
    else None
  }

  /** `verifyFlags` after the flags are read: a config file is required, cookies replace the
      configured ones when given, and a header flag must hold a colon and then replaces the
      configured headers. */
  method VerifyFlags(config: Configuration, options: CliOptions) returns (err: Option<string>)
    modifies config
    ensures err == FlagsError(options)
    ensures config.cookies == if options.configFile != "" && options.cookies != "" then options.cookies
                              else old(config.cookies)
    ensures config.headers == if err.None? && options.headers != "" then FlagHeaders(options.headers)
                              else old(config.headers)
    ensures config.rules == old(config.rules) && config.slack == old(config.slack)
    ensures config.hasExtraParams == old(config.hasExtraParams)
  {
    if options.configFile == "" {
      return Some(ConfigFileRequired);
    }
    if options.cookies != "" {
      config.cookies := options.cookies;
    }
    if options.headers != "" {
      if !Contains(options.headers, ":") {
        return Some(HeadersMalformed);
      }
      var headers := ParseHeaders(options.headers);
      config.headers := headers;
    }
    return None;
  }

  /** The error `loadConfig` returns when Slack output is asked for without enough settings. */
  function SlackMissing(configFile: string): string {
    "Slack flag enabled, but Slack config not adequately provided in " + configFile + "\n"
  }

  /** The Slack channel with a `#` in front, added only when missing. */
  function WithHash(channel: string): (r: string)
    ensures HasPrefix(r, "#")
    ensures HasPrefix(channel, "#") ==> r == channel
    ensures !HasPrefix(channel, "#") ==> r == "#" + channel
  {
    if HasPrefix(channel, "#") then channel else "#" + channel
  }

  /** Normalising twice is normalising once. */
  lemma WithHashIdempotent(channel: string)
    ensures WithHash(WithHash(channel)) == WithHash(channel)
  {
  }

  /** The Slack settings after normalisation: unchanged when empty; otherwise the channel (read
      as "" when the key is missing) gets its `#`. */
  function NormalizedSlack(slack: map<string, string>): (r: map<string, string>)
    ensures |slack| == 0 ==> r == slack
    ensures |slack| != 0 ==> r.Keys == slack.Keys + {"channel"} && HasPrefix(r["channel"], "#")
    ensures forall k :: k in slack && k != "channel" ==> k in r && r[k] == slack[k]
  {
    if |slack| == 0 then slack
    else slack["channel" := WithHash(if "channel" in slack then slack["channel"] else "")]
  }

  lemma NormalizedSlackIdempotent(slack: map<string, string>)
    ensures NormalizedSlack(NormalizedSlack(slack)) == NormalizedSlack(slack)
  {
    if |slack| != 0 {
      var once := NormalizedSlack(slack);
      WithHashIdempotent(if "channel" in slack then slack["channel"] else "");
      assert once["channel" := WithHash(once["channel"])] == once;
    }
  }

  /** Some rule lists extra parameters. */
  predicate AnyExtraParams(rules: map<string, Rule>) {
    exists name :: name in rules && |rules[name].extraParams| != 0
  }

  /** The loop of `loadConfig` over the rules, in map iteration order. */
  method HasExtraParams(rules: map<string, Rule>) returns (found: bool)
    ensures found <==> AnyExtraParams(rules)
  {
    found := false;
    var remaining := rules.Keys;
    while remaining != {}
      invariant remaining <= rules.Keys
      invariant found <==> exists name :: name in rules.Keys - remaining && |rules[name].extraParams| != 0
      decreases remaining
    {
      var name :| name in remaining;
      if |rules[name].extraParams| != 0 {
        found := true;
      }
      remaining := remaining - {name};
    }
  }

  /** The end of `loadConfig`, once the file is read: too few Slack settings with Slack output
      on is an error; otherwise the channel is normalised and the extra-parameter flag set. */
  method FinishLoading(config: Configuration, configFile: string, toSlack: bool) returns (err: Option<string>)
    modifies config
    ensures err.Some? <==> |old(config.slack)| < 2 && toSlack
    ensures err.Some? ==> err.value == SlackMissing(configFile) && config.slack == old(config.slack)
    ensures err.Some? ==> config.hasExtraParams == old(config.hasExtraParams)
    ensures err.None? ==> config.slack == NormalizedSlack(old(config.slack))
    ensures err.None? ==> (config.hasExtraParams <==> AnyExtraParams(config.rules))
    ensures config.rules == old(config.rules) && config.headers == old(config.headers)
    ensures config.cookies == old(config.cookies)
  {
    if |config.slack| < 2 && toSlack {
      return Some(SlackMissing(configFile));
    }
    ghost var slack := config.slack;
    if |config.slack| != 0 {
      var channel := if "channel" in config.slack then config.slack["channel"] else "";
      if !HasPrefix(channel, "#") {
        config.slack := config.slack["channel" := "#" + channel];
      } else {
        assert config.slack["channel" := channel] == config.slack;
      }
    }
    assert config.slack == NormalizedSlack(slack);
    config.hasExtraParams := HasExtraParams(config.rules);
    return None;
  }

  /** Example of `HeaderPair`: a segment holding `": "` splits there, so `"Auth: a:b"` gives
      the value `"a:b"`. */
  lemma ColonSpaceTakesPrecedence()
    ensures HeaderPair("X: a:b") == Some(("X", "a:b"))
  {
    var h := "X: a:b";
    assert Split(h, ": ") == ["X", "a:b"] by {
      SplitAtColonSpace();
    }
    assert Contains(h, ": ") by {
      assert Index(h, ": ") == 1 by {
        SplitAtColonSpace();
      }
    }
    assert TrimSpace("X") == "X" && TrimSpace("a:b") == "a:b" by {
      assert TrimLeft("X") == "X" && TrimRight("X") == "X";
      assert TrimLeft("a:b") == "a:b" && TrimRight("a:b") == "a:b";
    }
  }

  /** The example segment holds `": "` once, after its first byte. */
  lemma SplitAtColonSpace()
    ensures Index("X: a:b", ": ") == 1
    ensures Split("X: a:b", ": ") == ["X", "a:b"]
  {
    var h := "X: a:b";
    assert h[..2][0] == 'X' && h[1..][..2] == ": ";
    assert !HasPrefix(h, ": ") && HasPrefix(h[1..], ": ");
    assert Index(h, ": ") == 1;
    var rest := "a:b";
    assert h[3..] == rest;
    assert rest[..2][0] == 'a' && rest[1..][..2][1] == 'b';
    assert !HasPrefix(rest, ": ") && !HasPrefix(rest[1..], ": ") && !HasPrefix(rest[2..], ": ");
    assert rest[1..][1..] == rest[2..] && rest[2..][1..] == [];
    assert Index(rest, ": ") == -1;
    assert Split(rest, ": ") == [rest];
    assert h[..1] == "X";
    assert Split(h, ": ") == [h[..1]] + Split(h[3..], ": ");
  }

}
