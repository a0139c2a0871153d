/**
 * HttpPolicy and its subclass HttpWildcardPolicy: accept an `http://` (or
 * `https://`) URL whose host, path and query are allowed and that holds no
 * `../` unless dot-segments are allowed; on acceptance, unless redirects
 * are followed, switch redirects off in the caller's stream context. The
 * two classes differ only in how hosts and paths are compared, so the
 * model keeps one policy with two kinds of rules.
 */
module HttpPolicy {
  import opened Common
  import opened Text
  import opened Platform
  import opened PolicyInterface
  import opened Glob

  /**
   * Literal: lowered host names and base-path prefixes (HttpPolicy).
   * Wildcard: compiled patterns matched in full (HttpWildcardPolicy).
   */
  datatype Rules =
    | Literal(hosts: seq<string>, basePaths: seq<string>)
    | Wildcard(hostPatterns: seq<Pattern>, pathPatterns: seq<Pattern>)

  datatype HttpPolicy = HttpPolicy(
    secured: bool,
    rules: Rules,
    queryString: seq<string>,
    allowDotSegment: bool,
    followRedirect: bool)
  {
    function Protocole(): string {
      if secured then "https" else "http"
    }

    function SupportedMode(): Mode {
      ModeRead
    }

    /**
     * validateHost: HttpPolicy looks the lowered host up among the lowered
     * hosts; HttpWildcardPolicy matches the host against each pattern with
     * the `i` flag.
     */
    predicate ValidateHost(host: string) {
      match rules
      case Literal(hosts, _) => Lower(host) in hosts
      case Wildcard(hostPatterns, _) => AnyMatch(hostPatterns, host, true)
    }

    /**
     * validatePath: HttpPolicy wants some base path as a string prefix;
     * HttpWildcardPolicy wants some pattern to match the whole path.
     */
    predicate ValidatePath(path: string) {
      match rules
      case Literal(_, basePaths) => AnyPrefix(basePaths, path)
      case Wildcard(_, pathPatterns) => AnyMatch(pathPatterns, path, false)
    }

    predicate ValidateDotSegment(filename: string) {
      allowDotSegment || !Contains(filename, "../")
    }

    /**
     * validateQueryString: an empty query passes; any other query needs a
     * non-empty allow-list holding every parameter name parse_str finds.
     */
    predicate ValidateQueryString(query: string, env: Platform) {
      if EmptyString(query) then true
      else if |queryString| == 0 then false
      else AllIn(env.queryKeys(query), queryString)
    }

    /**
     * validate, without its effect on the context: host, path,
     * dot-segments, query, in that order; an identifier that passes all
     * four is returned as given.
     */
    function Decide(filename: string, env: Platform): (o: Outcome)
      ensures o.Accepted? <==>
        var parts := env.parseUrl(filename);
        && ValidateHost(OrEmpty(parts.host))
        && ValidatePath(OrEmpty(parts.path))
        && ValidateDotSegment(filename)
        && ValidateQueryString(OrEmpty(parts.query), env)
      ensures o.Accepted? ==> o.id == filename
      // The checks in order, each failure with its own message.
      ensures !ValidateHost(OrEmpty(env.parseUrl(filename).host)) ==> o == Rejected("Host is not allowed")
      ensures ValidateHost(OrEmpty(env.parseUrl(filename).host)) && !ValidatePath(OrEmpty(env.parseUrl(filename).path))
        ==> o == Rejected("Path is not allowed")
      ensures o == Rejected("Dot-segments are not allowed") <==>
        var parts := env.parseUrl(filename);
        ValidateHost(OrEmpty(parts.host)) && ValidatePath(OrEmpty(parts.path)) && !ValidateDotSegment(filename)
      ensures o == Rejected("Query is not allowed") <==>
        var parts := env.parseUrl(filename);
        && ValidateHost(OrEmpty(parts.host)) && ValidatePath(OrEmpty(parts.path)) && ValidateDotSegment(filename)
        && !ValidateQueryString(OrEmpty(parts.query), env)
      ensures o.Rejected? ==>
        o.message in {"Host is not allowed", "Path is not allowed", "Dot-segments are not allowed", "Query is not allowed"}
    {
      var parts := env.parseUrl(filename);
      if !ValidateHost(OrEmpty(parts.host)) then Rejected("Host is not allowed")
      else if !ValidatePath(OrEmpty(parts.path)) then Rejected("Path is not allowed")
      else if !ValidateDotSegment(filename) then Rejected("Dot-segments are not allowed")
      else if !ValidateQueryString(OrEmpty(parts.query), env) then Rejected("Query is not allowed")
      else Accepted(filename)
    }

    /**
     * validate: decide, and on acceptance switch redirects off in the
     * caller's context unless they are followed. A rejection leaves the
     * context alone.
     */
    method Validate(filename: string, ctx: StreamContext, env: Platform) returns (o: Outcome)
      modifies ctx
      ensures o == Decide(filename, env)
      ensures ctx.options ==
        if o.Accepted? && !followRedirect then old(ctx.options)[FollowLocation := 0] else old(ctx.options)
    {
      var parts := env.parseUrl(filename);
      if !ValidateHost(OrEmpty(parts.host)) {
        return Rejected("Host is not allowed");
      }
      if !ValidatePath(OrEmpty(parts.path)) {
        return Rejected("Path is not allowed");
      }
      if !allowDotSegment && Contains(filename, "../") {
        return Rejected("Dot-segments are not allowed");
      }
      if !ValidateQueryString(OrEmpty(parts.query), env) {
        return Rejected("Query is not allowed");
      }
      if !followRedirect {
        ctx.SetOption(FollowLocation, 0);
      }
      return Accepted(filename);
    }
  }

  /** HttpPolicy's constructor: hosts are lowered, everything else kept. */
  function Create(secured: bool, hosts: seq<string>, basePaths: seq<string>, queryString: seq<string>,
                  allowDotSegment: bool, followRedirect: bool): HttpPolicy
  {
    HttpPolicy(secured, Literal(LowerAll(hosts), basePaths), queryString, allowDotSegment, followRedirect)
  }

  /**
   * Hosts are matched without regard to case: a host is accepted exactly
   * when it equals some configured host once both are lowered.
   */
  lemma HostIgnoresCase(secured: bool, hosts: seq<string>, basePaths: seq<string>, queryString: seq<string>,
                        allowDotSegment: bool, followRedirect: bool, host: string)
    ensures var p := Create(secured, hosts, basePaths, queryString, allowDotSegment, followRedirect);
      p.ValidateHost(host) <==> exists i :: 0 <= i < |hosts| && Lower(hosts[i]) == Lower(host)
  {
    var p := Create(secured, hosts, basePaths, queryString, allowDotSegment, followRedirect);
    if p.ValidateHost(host) {
      var i :| 0 <= i < |LowerAll(hosts)| && LowerAll(hosts)[i] == Lower(host);
      assert Lower(hosts[i]) == Lower(host);
    }
  }

  /** The protocol and supported mode: `https` or `http`, read only. */
  lemma HttpProtocolAndMode(p: HttpPolicy)
    ensures p.Protocole() == (if p.secured then "https" else "http")
    ensures p.SupportedMode() == ModeRead
    ensures !Covers(p.SupportedMode(), ModeWrite)
  {
  }

  /**
   * The query rule: an empty query (including "0") always passes; any
   * other query fails against an empty allow-list and otherwise passes
   * exactly when every parameter name is allowed.
   */
  lemma QueryStringRule(p: HttpPolicy, query: string, env: Platform)
    ensures EmptyString(query) ==> p.ValidateQueryString(query, env)
    ensures !EmptyString(query) && |p.queryString| == 0 ==> !p.ValidateQueryString(query, env)
    ensures !EmptyString(query) && |p.queryString| > 0 ==>
      (p.ValidateQueryString(query, env) <==>
       forall i :: 0 <= i < |env.queryKeys(query)| ==> env.queryKeys(query)[i] in p.queryString)
  {
  }
}
