/**
 * HttpWildcardPolicy: an HttpPolicy whose hosts and base paths are
 * wildcard patterns. The constructor compiles each one with preparePattern
 * and hands the compiled patterns to HttpPolicy's constructor, which lowers
 * the host patterns; hosts then match with the `i` flag, paths exactly,
 * and a pattern must cover the whole host or path.
 */
module HttpWildcardPolicy {
  import opened Common
  import opened Text
  import opened Platform
  import opened Glob
  import opened HttpPolicy

  /** Each configured host compiled by preparePattern, then lowered by the parent constructor. */
  function HostPatterns(hosts: seq<string>): seq<Pattern> {
    seq(|hosts|, i requires 0 <= i < |hosts| => LowerPattern(Prepare(hosts[i])))
  }

  /** Each configured base path compiled by preparePattern. */
  function PathPatterns(basePaths: seq<string>): seq<Pattern> {
    seq(|basePaths|, i requires 0 <= i < |basePaths| => Prepare(basePaths[i]))
  }

  /** The constructor. */
  function CreateWildcard(secured: bool, hosts: seq<string>, basePaths: seq<string>, queryString: seq<string>,
                          allowDotSegment: bool, followRedirect: bool): HttpPolicy
  {
    HttpPolicy(secured, Wildcard(HostPatterns(hosts), PathPatterns(basePaths)), queryString, allowDotSegment, followRedirect)
  }

  /** Lowering the subject changes no match under the `i` flag, newline rule included. */
  lemma PregMatchCaseless(p: Pattern, t: string)
    ensures PregMatch(p, t, true) == PregMatch(p, Lower(t), true)
  {
    CaselessIsLowered(p, t);
    CaselessIsLowered(p, Lower(t));
    LowerIsLower(t);
    if |t| > 0 {
      var u := t[..|t| - 1];
      assert Lower(t)[..|t| - 1] == Lower(u);
      CaselessIsLowered(p, u);
      CaselessIsLowered(p, Lower(u));
      LowerIsLower(u);
    }
  }

  /**
   * A configured host pattern, compiled and lowered, matches a host under
   * the `i` flag exactly when the compiled lowered pattern matches the
   * lowered host case-sensitively.
   */
  lemma HostMatchIsLowered(glob: string, host: string)
    ensures PregMatch(LowerPattern(Prepare(glob)), host, true) == PregMatch(Prepare(Lower(glob)), Lower(host), false)
  {
    var p := Prepare(Lower(glob));
    LowerPrepare(glob);
    LowerPatternIdempotent(Prepare(glob));
    CaselessIsLowered(p, host);
    if |host| > 0 {
      var u := host[..|host| - 1];
      assert Lower(host)[..|host| - 1] == Lower(u);
      CaselessIsLowered(p, u);
    }
  }

  /** A host is accepted exactly when its lowered form is: hosts match without regard to case. */
  lemma {:induction false} PatternsIgnoreCase(patterns: seq<Pattern>, host: string)
    ensures AnyMatch(patterns, host, true) == AnyMatch(patterns, Lower(host), true)
  {
    if |patterns| > 0 {
      PregMatchCaseless(patterns[0], host);
      PatternsIgnoreCase(patterns[1..], host);
    }
  }

  /**
   * Patterns without `*` make the wildcard policy accept the same hosts as
   * HttpPolicy configured with the same names, for hosts that do not end
   * in a newline.
   */
  lemma StarFreeHostsAsLiteral(secured: bool, hosts: seq<string>, basePaths: seq<string>, queryString: seq<string>,
                               allowDotSegment: bool, followRedirect: bool, host: string)
    requires forall i :: 0 <= i < |hosts| ==> '*' !in hosts[i]
    requires |host| == 0 || host[|host| - 1] != '\n'
    ensures CreateWildcard(secured, hosts, basePaths, queryString, allowDotSegment, followRedirect).ValidateHost(host) <==>
      Create(secured, hosts, basePaths, queryString, allowDotSegment, followRedirect).ValidateHost(host)
  {
    HostIgnoresCase(secured, hosts, basePaths, queryString, allowDotSegment, followRedirect, host);
    var patterns := HostPatterns(hosts);
    forall i | 0 <= i < |hosts| ensures PregMatch(patterns[i], host, true) <==> Lower(hosts[i]) == Lower(host) {
      LoweredPatternCaseless(Prepare(hosts[i]), host);
      CaselessLiteral(hosts[i], host);
    }
  }

  /**
   * Base paths of the form `b*`, with `b` free of `*`, make the wildcard
   * policy accept the same newline-free paths as HttpPolicy with base
   * paths `b`: a pattern ending in a wildcard is a prefix test.
   */
  lemma PrefixPathsAsLiteral(secured: bool, hosts: seq<string>, prefixes: seq<string>, queryString: seq<string>,
                             allowDotSegment: bool, followRedirect: bool, path: string)
    requires forall i :: 0 <= i < |prefixes| ==> '*' !in prefixes[i]
    requires '\n' !in path
    ensures var starred := seq(|prefixes|, i requires 0 <= i < |prefixes| => prefixes[i] + "*");
      CreateWildcard(secured, hosts, starred, queryString, allowDotSegment, followRedirect).ValidatePath(path) <==>
      Create(secured, hosts, prefixes, queryString, allowDotSegment, followRedirect).ValidatePath(path)
  {
    var starred := seq(|prefixes|, i requires 0 <= i < |prefixes| => prefixes[i] + "*");
    var patterns := PathPatterns(starred);
    forall i | 0 <= i < |prefixes| ensures PregMatch(patterns[i], path, false) <==> prefixes[i] <= path {
      LiteralThenStar(prefixes[i], path);
      if prefixes[i] <= path {
        assert forall k :: 0 <= k < |path| - |prefixes[i]| ==> path[|prefixes[i]|..][k] == path[|prefixes[i]| + k];
      }
      if |path| > 0 {
        assert path[|path| - 1] in path;
      }
    }
  }

  /**
   * The empty base path compiles to `#^$#`: unlike HttpPolicy's empty
   * prefix, which admits every path, it admits only the empty path (and,
   * by the `$` rule, a lone newline).
   */
  lemma EmptyPatternAdmitsOnlyEmpty(t: string)
    ensures PregMatch(Prepare(""), t, false) <==> t == "" || t == "\n"
  {
    if |t| > 0 && t[|t| - 1] == '\n' && |t[..|t| - 1]| == 0 {
      assert t == "\n";
    }
  }
}
