/**
 * PolicyInterface as the dispatcher sees it: any policy has a protocol, a
 * supported mode and a `validate` operation. The library's three policies
 * are variants of one sum type; `Custom` stands for any other
 * implementation of the interface, given by its protocol, its supported
 * mode and its verdict on an identifier and a requested mode.
 */
module Policies {
  import opened Common
  import opened Text
  import opened Platform
  import opened PolicyInterface
  import opened FilePolicy
  import opened FtpPolicy
  import opened HttpPolicy

  /** The base directory each file policy works with, as a snapshot of their caches. */
  type Bases = map<FilePolicy, Result<string>>

  datatype Policy =
    | File(file: FilePolicy)
    | Ftp(ftp: FtpPolicy)
    | Http(http: HttpPolicy)
    | Custom(protocole: string, supportedMode: Mode, verdict: (string, Mode) -> Outcome)
  {
    /** getProtocole. */
    function Protocole(): string {
      match this
      case File(f) => f.Protocole()
      case Ftp(p) => p.Protocole()
      case Http(p) => p.Protocole()
      case Custom(protocole, _, _) => protocole
    }

    /** getSupportedMode. */
    function SupportedMode(): Mode {
      match this
      case File(f) => f.SupportedMode()
      case Ftp(p) => p.SupportedMode()
      case Http(p) => p.SupportedMode()
      case Custom(_, supportedMode, _) => supportedMode
    }

    /** The objects `validate` may update: a file policy's cache. */
    ghost function Footprint(): set<object> {
      if File? then {file} else {}
    }

    /**
     * What `validate` decides, given the base directory each file policy
     * works with (`bases`); the other policies need no state.
     */
    function Decide(filename: string, mode: Mode, env: Platform, bases: Bases): Outcome
      requires File? ==> file in bases
    {
      match this
      case File(f) => f.Decide(bases[f], filename, env)
      case Ftp(p) => p.Decide(filename, env)
      case Http(p) => p.Decide(filename, env)
      case Custom(_, _, verdict) => verdict(filename, mode)
    }

    /** Whether accepting through this policy switches redirects off in the caller's context. */
    predicate TurnsRedirectsOff() {
      Http? && !http.followRedirect
    }

    /**
     * validate: decides as `Decide` with the base directory the policy
     * would use now; a file policy keeps that base directory and caches it
     * if it had not yet, and only an accepting HTTP policy that does not
     * follow redirects writes to the context.
     */
    method Validate(filename: string, ctx: StreamContext, mode: Mode, env: Platform, ghost bases: Bases) returns (o: Outcome)
      requires File? ==> file in bases && bases[file] == file.EffectiveBase(env)
      modifies Footprint(), ctx
      ensures o == Decide(filename, mode, env, bases)
      ensures File? ==> file.EffectiveBase(env) == bases[file]
      ensures File? ==> file.realBaseDirectory == Refresh(old(file.realBaseDirectory), file.ResolveBaseDirectory(env))
      ensures ctx.options ==
        if o.Accepted? && TurnsRedirectsOff() then old(ctx.options)[FollowLocation := 0] else old(ctx.options)
    {
      match this
      case File(f) =>
        o := f.Validate(filename, env);
      case Ftp(p) =>
        o := p.Decide(filename, env);
      case Http(p) =>
        o := p.Validate(filename, ctx, env);
      case Custom(_, _, verdict) =>
        o := verdict(filename, mode);
    }
  }

  /**
   * The library's policies register under lower-case protocols, the form
   * the dispatcher derives from an identifier, and support reading only.
   */
  lemma LibraryPolicies(p: Policy)
    requires !p.Custom?
    ensures p.Protocole() in {"file", "ftp", "ftps", "http", "https"}
    ensures IsLower(p.Protocole())
    ensures p.SupportedMode() == ModeRead
  {
    var s := p.Protocole();
    assert forall i :: 0 <= i < |s| ==> 'a' <= s[i] <= 'z';
  }
}
