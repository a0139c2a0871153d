/**
 * The policies' decisions on the situations their tests set up. The URL
 * parser is an oracle, so each statement takes the components PHP's
 * parse_url gives for the test's URL as preconditions on the platform,
 * and whether the URL holds `../` as a precondition on the URL.
 */
module PolicyExamples {
  import opened Common
  import opened Text
  import opened Platform
  import opened PolicyInterface
  import opened Glob
  import opened HttpPolicy
  import opened HttpWildcardPolicy
  import FtpPolicy

  /** The platform splits `url` into these host, path and query components. */
  predicate Parses(env: Platform, url: string, host: string, path: string, query: string) {
    OrEmpty(env.parseUrl(url).host) == host &&
    OrEmpty(env.parseUrl(url).path) == path &&
    OrEmpty(env.parseUrl(url).query) == query
  }

  /** A leading `*` swallows any newline-free text before a literal suffix. */
  lemma StarThenSuffix(sub: string, suffix: string)
    requires '*' !in suffix && '\n' !in sub
    ensures Matches(Prepare("*" + suffix), sub + suffix, false)
  {
    PrepareConcat("*", suffix);
    assert Prepare("*") == [Star];
    NoStarIsLiteral(suffix, suffix);
    StarSkips(Prepare(suffix), sub, suffix, false);
  }

  /** `*` followed by a literal suffix refuses a subject that does not end in that suffix. */
  lemma StarThenSuffixRefuses(suffix: string, t: string)
    requires '*' !in suffix
    requires |suffix| <= |t| ==> t[|t| - |suffix|..] != suffix
    ensures !Matches(Prepare("*" + suffix), t, false)
  {
    PrepareConcat("*", suffix);
    assert Prepare("*") == [Star];
    if Matches([Star] + Prepare(suffix), t, false) {
      StarThenLiteral(suffix, t, false);
      NoStarIsLiteral(suffix, t[|t| - |suffix|..]);
      assert false;
    }
  }

  /**
   * The host pattern `*.php.net`, in any case, accepts `www.php.net` and
   * `Www.Php.Net` and refuses `www.php.com`.
   */
  lemma PhpNetHostPattern()
    ensures PregMatch(LowerPattern(Prepare("*.php.net")), "www.php.net", true)
    ensures PregMatch(LowerPattern(Prepare("*.phP.neT")), "Www.Php.Net", true)
    ensures !PregMatch(LowerPattern(Prepare("*.php.net")), "www.php.com", true)
  {
    assert Lower("*.php.net") == "*.php.net" && Lower("*.phP.neT") == "*.php.net";
    assert Lower("www.php.net") == "www.php.net" && Lower("Www.Php.Net") == "www.php.net";
    assert Lower("www.php.com") == "www.php.com";
    HostMatchIsLowered("*.php.net", "www.php.net");
    HostMatchIsLowered("*.phP.neT", "Www.Php.Net");
    HostMatchIsLowered("*.php.net", "www.php.com");
    StarThenSuffix("www", ".php.net");
    assert "*" + ".php.net" == "*.php.net" && "www" + ".php.net" == "www.php.net";
    StarThenSuffixRefuses(".php.net", "www.php.com");
  }

  /** A host pattern without `*` accepts its own name, in any case. */
  lemma LiteralHostPattern(name: string, host: string)
    requires '*' !in name && Lower(host) == Lower(name)
    ensures PregMatch(LowerPattern(Prepare(name)), host, true)
  {
    HostMatchIsLowered(name, host);
    CaselessLiteral(name, host);
    LowerPrepare(name);
    LoweredPatternCaseless(Prepare(name), host);
  }

  /**
   * The pattern `/manual/` + `*` + `/function` + `*` accepts
   * `/manual/<lang>/function<rest>`
   * for any newline-free language and rest, such as
   * `/manual/fr/function.file-get-contents.php`.
   */
  lemma ManualFunctionPath(lang: string, rest: string)
    requires '\n' !in lang && '\n' !in rest
    ensures PregMatch(Prepare("/manual/*/function*"), "/manual/" + lang + "/function" + rest, false)
  {
    var t := "/manual/" + lang + "/function" + rest;
    LiteralThenStar("/function", "/function" + rest);
    assert ("/function" + rest)[|"/function"|..] == rest;
    assert "/function" + "*" == "/function*";
    StarSkips(Prepare("/function*"), lang, "/function" + rest, false);
    assert "*" + "/function*" == "*/function*";
    PrepareConcat("*", "/function*");
    assert Prepare("*") == [Star];
    assert "/manual/" + "*/function*" == "/manual/*/function*";
    PrepareConcat("/manual/", "*/function*");
    LiteralPrefix("/manual/", Prepare("*/function*"), t);
    assert t[|"/manual/"|..] == lang + ("/function" + rest);
  }

  /** `/manual/` + `*` needs the `/manual/` prefix, so it refuses the empty path; `/manual/../` passes it. */
  lemma ManualStarPaths()
    ensures !PregMatch(Prepare("/manual/*"), "", false)
    ensures PregMatch(Prepare("/manual/*"), "/manual/../", false)
  {
    assert "/manual/" + "*" == "/manual/*";
    LiteralThenStar("/manual/", "");
    LiteralThenStar("/manual/", "/manual/../");
    assert "/manual/../"[|"/manual/"|..] == "../";
  }

  /** `/manual*` accepts `/manual-lookup.php`. */
  lemma ManualLookupPath()
    ensures PregMatch(Prepare("/manual*"), "/manual-lookup.php", false)
  {
    assert "/manual" + "*" == "/manual*";
    LiteralThenStar("/manual", "/manual-lookup.php");
    assert "/manual-lookup.php"[|"/manual"|..] == "-lookup.php";
  }

  /**
   * HttpWildcardPolicy with host `*.php.net` (in any case) and base path
   * `''`: a URL with no path, no query and no `../` whose host is
   * `www.php.net` or `Www.Php.Net` is accepted as given; with host
   * `www.php.com` it is refused for its host.
   */
  lemma WildcardHostDecisions(url: string, host: string, env: Platform)
    requires Parses(env, url, host, "", "") && !Contains(url, "../")
    ensures host == "www.php.net" ==>
      CreateWildcard(true, ["*.php.net"], [""], [], false, false).Decide(url, env) == Accepted(url)
    ensures host == "Www.Php.Net" ==>
      CreateWildcard(true, ["*.phP.neT"], [""], [], false, false).Decide(url, env) == Accepted(url)
    ensures host == "www.php.com" ==>
      CreateWildcard(true, ["*.php.net"], [""], [], false, false).Decide(url, env) == Rejected("Host is not allowed")
  {
    PhpNetHostPattern();
    EmptyPatternAdmitsOnlyEmpty("");
    assert HostPatterns(["*.php.net"]) == [LowerPattern(Prepare("*.php.net"))];
    assert HostPatterns(["*.phP.neT"]) == [LowerPattern(Prepare("*.phP.neT"))];
    assert PathPatterns([""]) == [Prepare("")];
  }

  /**
   * HttpWildcardPolicy with host `www.php.net`: base path
   * `/manual/` + `*` + `/function` + `*` accepts the manual page of a
   * function in any language (such as `fr` and
   * `.file-get-contents.php`); `/manual/` + `*` refuses the empty path, and, once the path passes, a URL
   * holding `../`; `/manual*` passes `/manual-lookup.php` but refuses its
   * query when no parameter is allowed.
   */
  lemma WildcardPathDecisions(url: string, path: string, query: string, lang: string, rest: string, env: Platform)
    requires Parses(env, url, "www.php.net", path, query)
    requires '\n' !in lang && '\n' !in rest
    ensures path == "/manual/" + lang + "/function" + rest && query == "" && !Contains(url, "../") ==>
      CreateWildcard(true, ["www.php.net"], ["/manual/*/function*"], [], false, false).Decide(url, env) == Accepted(url)
    ensures path == "" ==>
      CreateWildcard(true, ["www.php.net"], ["/manual/*"], [], false, false).Decide(url, env) == Rejected("Path is not allowed")
    ensures path == "/manual/../" && Contains(url, "../") ==>
      CreateWildcard(true, ["www.php.net"], ["/manual/*"], [], false, false).Decide(url, env) == Rejected("Dot-segments are not allowed")
    ensures path == "/manual-lookup.php" && query == "pattern=test" && !Contains(url, "../") ==>
      CreateWildcard(true, ["www.php.net"], ["/manual*"], [], false, false).Decide(url, env) == Rejected("Query is not allowed")
  {
    LiteralHostPattern("www.php.net", "www.php.net");
    assert HostPatterns(["www.php.net"]) == [LowerPattern(Prepare("www.php.net"))];
    ManualFunctionPath(lang, rest);
    ManualStarPaths();
    ManualLookupPath();
    assert PathPatterns(["/manual/*/function*"]) == [Prepare("/manual/*/function*")];
    assert PathPatterns(["/manual/*"]) == [Prepare("/manual/*")];
    assert PathPatterns(["/manual*"]) == [Prepare("/manual*")];
  }

  /**
   * HttpPolicy accepting: `www.php.net`, with or without following
   * redirects; a host in any case against `wwW.phP.neT`; a manual page
   * under base paths `''` and `/manual`, and one holding `../` when
   * dot-segments are allowed; a query whose only parameter is allowed.
   */
  lemma HttpAcceptances(url: string, host: string, path: string, query: string, env: Platform)
    requires Parses(env, url, host, path, query)
    ensures host == "www.php.net" && path == "" && query == "" && !Contains(url, "../") ==>
      && Create(true, ["www.php.net"], [""], [], false, false).Decide(url, env) == Accepted(url)
      && Create(true, ["www.php.net"], [""], [], false, true).Decide(url, env) == Accepted(url)
    ensures host == "Www.Php.Net" && path == "" && query == "" && !Contains(url, "../") ==>
      Create(true, ["wwW.phP.neT"], [""], [], false, false).Decide(url, env) == Accepted(url)
    ensures host == "www.php.net" && "/manual" <= path && query == "" && !Contains(url, "../") ==>
      Create(true, ["www.php.net"], ["", "/manual"], [], false, false).Decide(url, env) == Accepted(url)
    ensures host == "www.php.net" && "/manual" <= path && query == "" ==>
      Create(true, ["www.php.net"], ["", "/manual"], [], true, false).Decide(url, env) == Accepted(url)
    ensures host == "www.php.net" && path == "/manual-lookup.php" && query == "pattern=test" &&
            env.queryKeys(query) == ["pattern"] && !Contains(url, "../") ==>
      Create(true, ["www.php.net"], ["/manual"], ["pattern"], false, false).Decide(url, env) == Accepted(url)
  {
    assert Lower("Www.Php.Net") == "www.php.net" && Lower("wwW.phP.neT") == "www.php.net";
    assert Lower("www.php.net") == "www.php.net";
    assert LowerAll(["wwW.phP.neT"]) == ["www.php.net"];
    assert LowerAll(["www.php.net"]) == ["www.php.net"];
    assert "" <= path;
    assert "/manual" <= "/manual-lookup.php";
  }

  /**
   * HttpPolicy refusing, each for the first check that fails: host
   * `www.php.com`; the empty path against `/manual`; `../` once host and
   * path pass; a query when no parameter, or not that one, is allowed.
   */
  lemma HttpRefusals(url: string, host: string, path: string, query: string, env: Platform)
    requires Parses(env, url, host, path, query)
    ensures host == "www.php.com" ==>
      Create(true, ["www.php.net"], [""], [], false, false).Decide(url, env) == Rejected("Host is not allowed")
    ensures host == "www.php.net" && path == "" ==>
      Create(true, ["www.php.net"], ["/manual"], [], false, false).Decide(url, env) == Rejected("Path is not allowed")
    ensures host == "www.php.net" && path == "/manual/../" && Contains(url, "../") ==>
      Create(true, ["www.php.net"], ["/manual"], [], false, false).Decide(url, env) == Rejected("Dot-segments are not allowed")
    ensures host == "www.php.net" && path == "/manual-lookup.php" && query == "pattern=test" && !Contains(url, "../") ==>
      Create(true, ["www.php.net"], ["/manual"], [], false, false).Decide(url, env) == Rejected("Query is not allowed")
    ensures host == "www.php.net" && path == "/manual-lookup.php" && query == "unknown=test" &&
            env.queryKeys(query) == ["unknown"] && !Contains(url, "../") ==>
      Create(true, ["www.php.net"], ["/manual"], ["pattern"], false, false).Decide(url, env) == Rejected("Query is not allowed")
  {
    assert Lower("www.php.net") == "www.php.net" && Lower("www.php.com") == "www.php.com";
    assert LowerAll(["www.php.net"]) == ["www.php.net"];
    assert "/manual" <= "/manual/../";
    assert "/manual" <= "/manual-lookup.php";
    assert !("/manual" <= "");
  }

  /**
   * FtpPolicy on host `example.com`: paths under base path `/` or
   * `/path` are accepted, `../` too when dot-segments are allowed; host
   * `unknown.com`, a path outside `/path`, and `../` when dot-segments
   * are not allowed are refused, each with its own message.
   */
  lemma FtpDecisions(url: string, host: string, path: string, env: Platform)
    requires Parses(env, url, host, path, "")
    ensures host == "example.com" && path == "/example.txt" && !Contains(url, "../") ==>
      FtpPolicy.Create(true, ["example.com"], ["/"], false).Decide(url, env) == Accepted(url)
    ensures host == "example.com" && path == "/path/example.txt" && !Contains(url, "../") ==>
      FtpPolicy.Create(true, ["example.com"], ["/path"], false).Decide(url, env) == Accepted(url)
    ensures host == "example.com" && path == "/path/../example.txt" ==>
      FtpPolicy.Create(true, ["example.com"], ["/path"], true).Decide(url, env) == Accepted(url)
    ensures host == "unknown.com" ==>
      FtpPolicy.Create(true, ["example.com"], ["/"], false).Decide(url, env) == Rejected("Host is not allowed")
    ensures host == "example.com" && path == "/unknown-path/example.txt" ==>
      FtpPolicy.Create(true, ["example.com"], ["/path"], false).Decide(url, env) == Rejected("Path is not allowed")
    ensures host == "example.com" && path == "/path/../example.txt" && Contains(url, "../") ==>
      FtpPolicy.Create(true, ["example.com"], ["/path"], false).Decide(url, env) == Rejected("Dot-segments are not allowed")
  {
    assert Lower("example.com") == "example.com" && Lower("unknown.com") == "unknown.com";
    assert LowerAll(["example.com"]) == ["example.com"];
    assert "/" <= "/example.txt";
    assert "/path" <= "/path/example.txt" && "/path" <= "/path/../example.txt";
    assert "/unknown-path/example.txt"[1] != "/path"[1];
  }
}
