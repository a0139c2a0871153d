/**
 * FtpPolicy: accepts an `ftp://` (or `ftps://`) URL whose host is one of
 * the configured hosts, ignoring case, and whose path starts with one of
 * the configured base paths, and refuses `../` unless dot-segments are
 * allowed. It hands the identifier back unchanged.
 */
module FtpPolicy {
  import opened Common
  import opened Text
  import opened Platform
  import opened PolicyInterface

  /** The configuration, with the hosts as the constructor stores them (lowered). */
  datatype FtpPolicy = FtpPolicy(secured: bool, hosts: seq<string>, basePaths: seq<string>, allowDotSegment: bool)
  {
    function Protocole(): string {
      if secured then "ftps" else "ftp"
    }

    /** MODE_READ | MODE_READ, as written: read only. */
    function SupportedMode(): Mode {
      ModeRead | ModeRead
    }

    /** validateHost: the lowered host is one of the stored hosts. */
    predicate ValidateHost(host: string) {
      Lower(host) in hosts
    }

    /** validatePath: some base path is a string prefix of the path. */
    predicate ValidatePath(path: string) {
      AnyPrefix(basePaths, path)
    }

    /** The dot-segment test of validate, on the raw identifier. */
    predicate ValidateDotSegment(filename: string) {
      allowDotSegment || !Contains(filename, "../")
    }

    /**
     * validate: host, then path, then dot-segments; the first failing check
     * names the rejection, and an identifier that passes all three is
     * returned as given.
     */
    function Decide(filename: string, env: Platform): (o: Outcome)
      ensures o.Accepted? <==>
        var parts := env.parseUrl(filename);
        ValidateHost(OrEmpty(parts.host)) && ValidatePath(OrEmpty(parts.path)) && ValidateDotSegment(filename)
      ensures o.Accepted? ==> o.id == filename
      ensures !ValidateHost(OrEmpty(env.parseUrl(filename).host)) ==> o == Rejected("Host is not allowed")
      ensures ValidateHost(OrEmpty(env.parseUrl(filename).host)) && !ValidatePath(OrEmpty(env.parseUrl(filename).path))
        ==> o == Rejected("Path is not allowed")
      ensures o == Rejected("Dot-segments are not allowed") <==>
        var parts := env.parseUrl(filename);
        ValidateHost(OrEmpty(parts.host)) && ValidatePath(OrEmpty(parts.path)) && !ValidateDotSegment(filename)
      ensures o.Rejected? ==> o.message in {"Host is not allowed", "Path is not allowed", "Dot-segments are not allowed"}
    {
      var parts := env.parseUrl(filename);
      if !ValidateHost(OrEmpty(parts.host)) then Rejected("Host is not allowed")
      else if !ValidatePath(OrEmpty(parts.path)) then Rejected("Path is not allowed")
      else if !ValidateDotSegment(filename) then Rejected("Dot-segments are not allowed")
      else Accepted(filename)
    }
  }

  /** The constructor. */
  function Create(secured: bool, hosts: seq<string>, basePaths: seq<string>, allowDotSegment: bool): FtpPolicy
  {
    FtpPolicy(secured, LowerAll(hosts), basePaths, allowDotSegment)
  }

  /**
   * Hosts are matched without regard to case: a host is accepted exactly
   * when it equals some configured host once both are lowered.
   */
  lemma HostIgnoresCase(secured: bool, hosts: seq<string>, basePaths: seq<string>, allowDotSegment: bool, host: string)
    ensures Create(secured, hosts, basePaths, allowDotSegment).ValidateHost(host) <==>
      exists i :: 0 <= i < |hosts| && Lower(hosts[i]) == Lower(host)
    ensures Create(secured, hosts, basePaths, allowDotSegment).ValidateHost(host) ==
      Create(secured, hosts, basePaths, allowDotSegment).ValidateHost(Lower(host))
  {
    LowerIsLower(host);
    var p := Create(secured, hosts, basePaths, allowDotSegment);
    if p.ValidateHost(host) {
      var i :| 0 <= i < |p.hosts| && p.hosts[i] == Lower(host);
      assert Lower(hosts[i]) == Lower(host);
    }
  }

  /** The protocol and supported mode: `ftps` or `ftp`, read only. */
  lemma FtpProtocolAndMode(p: FtpPolicy)
    ensures p.Protocole() == (if p.secured then "ftps" else "ftp")
    ensures p.SupportedMode() == ModeRead
    ensures !Covers(p.SupportedMode(), ModeWrite)
  {
  }

  /**
   * A dot-segment in the identifier is refused only once host and path are
   * accepted, and never when dot-segments are allowed.
   */
  lemma DotSegmentRefusal(p: FtpPolicy, filename: string, env: Platform)
    requires p.ValidateHost(OrEmpty(env.parseUrl(filename).host))
    requires p.ValidatePath(OrEmpty(env.parseUrl(filename).path))
    ensures p.Decide(filename, env).Rejected? <==> !p.allowDotSegment && Contains(filename, "../")
    ensures p.Decide(filename, env).Rejected? ==> p.Decide(filename, env).message == "Dot-segments are not allowed"
  {
  }

  /** The empty base path admits every path. */
  lemma EmptyBasePathAdmitsAll(p: FtpPolicy, path: string)
    requires "" in p.basePaths
    ensures p.ValidatePath(path)
  {
    EmptyPrefixAdmitsAll(p.basePaths, path);
  }
}
