/**
 * LPFile, the dispatcher: policies are registered per protocol, and every
 * access first derives the protocol of the identifier and tries the
 * policies registered for it, in registration order, until one accepts.
 * The messages of the ones that reject are kept as the last violations.
 */
module Dispatcher {
  import opened Common
  import opened Text
  import opened Platform
  import opened PolicyInterface
  import opened FilePolicy
  import opened Policies

  /** One entry of a protocol's chain: the policy and the mode it was registered for. */
  datatype Registration = Registration(policy: Policy, mode: Mode)

  /**
   * The outcome of trying a chain: the messages of the entries that
   * rejected, then either the entry that accepted and the identifier it
   * returned, or nothing more.
   */
  datatype ChainRun =
    | Won(log: seq<string>, id: string)
    | Exhausted(log: seq<string>)

  /** FILE_USE_INCLUDE_PATH. */
  const FileUseIncludePath: bv64 := 1

  /**
   * The protocol of an identifier: the lowered text before the first
   * `://`, or `file` when there is none.
   */
  function Scheme(filename: string): string {
    match IndexOf(filename, "://")
    case None => "file"
    case Some(k) => Lower(filename[..k])
  }

  /** The text before `://` is the protocol, lowered, when `://` does not occur in it. */
  lemma SchemeOfUrl(scheme: string, rest: string)
    requires forall j :: !OccursAt(scheme, "://", j)
    ensures Scheme(scheme + "://" + rest) == Lower(scheme)
  {
    var s := scheme + "://" + rest;
    var n := |scheme|;
    assert OccursAt(s, "://", n) by {
      assert s[n..n + 3] == "://";
    }
    forall j | 0 <= j < n
      ensures !OccursAt(s, "://", j)
    {
      if j + 3 <= n {
        assert s[j..j + 3] == scheme[j..j + 3];
        assert !OccursAt(scheme, "://", j);
      } else if j + 2 == n {
        // the window straddles the end of the protocol: its `:` sits where `/` is due
        assert s[j..j + 3][2] == s[n] == ':';
      } else {
        assert j + 1 == n;
        assert s[j..j + 3][1] == s[n] == ':';
      }
    }
    var k := IndexOf(s, "://").value;
    assert k == n;
    assert s[..k] == scheme;
  }

  /** A text without ':' holds no `://`. */
  lemma NoColonNoSeparator(t: string)
    requires ':' !in t
    ensures forall j :: !OccursAt(t, "://", j)
  {
    forall j | OccursAt(t, "://", j)
      ensures false
    {
      OccursAtFirst(t, "://", j);
    }
  }

  /** An identifier in which `://` does not occur is a local path: its protocol is `file`. */
  lemma PlainPathIsFile(filename: string)
    requires forall j :: !OccursAt(filename, "://", j)
    ensures Scheme(filename) == "file"
  {
  }

  /** The protocol is always lower case, so it can equal a registered lower-case protocol. */
  lemma SchemeIsLower(filename: string)
    ensures IsLower(Scheme(filename))
  {
    match IndexOf(filename, "://")
    case None =>
    case Some(k) => LowerIsLower(filename[..k]);
  }

  /**
   * resolveFopenMode: `r` reads; `r+`, `w+`, `a+`, `x+`, `c+` read and
   * write; `w`, `a`, `x`, `c` write; anything else is unknown.
   */
  function ResolveFopenMode(mode: string): (r: Result<Mode>)
    ensures r.Ok? <==> mode in {"r", "r+", "w+", "a+", "x+", "c+", "w", "a", "x", "c"}
    ensures r.Err? ==> r.message == "Unknown mode"
    ensures r.Ok? ==> (Covers(r.value, ModeRead) <==> mode[0] == 'r' || '+' in mode)
    ensures r.Ok? ==> (Covers(r.value, ModeWrite) <==> mode != "r")
    ensures r.Ok? ==> Covers(ModeRead | ModeWrite, r.value) && r.value != 0
  {
    if mode == "r" then Ok(ModeRead)
    else if mode in ["r+", "w+", "a+", "x+", "c+"] then Ok(ModeRead | ModeWrite)
    else if mode in ["w", "a", "x", "c"] then Ok(ModeWrite)
    else Err("Unknown mode")
  }

  /** `$flags &= ~FILE_USE_INCLUDE_PATH`: that flag is cleared and every other bit kept. */
  function StripIncludePath(flags: bv64): (r: bv64)
    ensures r & FileUseIncludePath == 0
    ensures r | FileUseIncludePath == flags | FileUseIncludePath
  {
    flags & !FileUseIncludePath
  }

  /** Clearing the flag twice is clearing it once, and flags without it pass unchanged. */
  lemma StripIncludePathIdempotent(flags: bv64)
    ensures StripIncludePath(StripIncludePath(flags)) == StripIncludePath(flags)
    ensures flags & FileUseIncludePath == 0 ==> StripIncludePath(flags) == flags
  {
  }

  /** Every file policy of the chain has its base directory in `bases`. */
  predicate Covered(chain: seq<Registration>, bases: Bases) {
    forall j :: 0 <= j < |chain| && chain[j].policy.File? ==> chain[j].policy.file in bases
  }

  /** One step of the loop of validatePolicies: the mode test, then the policy's own decision. */
  function Attempt(reg: Registration, filename: string, mode: Mode, env: Platform, bases: Bases): Outcome
    requires reg.policy.File? ==> reg.policy.file in bases
  {
    if !Covers(reg.mode, mode) then Rejected("Invalid mode") else reg.policy.Decide(filename, mode, env, bases)
  }

  /**
   * First match wins, on the outcomes of a chain's entries in order: the
   * run is won by the first acceptance, after the rejections before it,
   * and is exhausted when every entry rejects, with one message per entry.
   */
  function Scan(outcomes: seq<Outcome>): (r: ChainRun)
    ensures r.Exhausted? ==>
      && |r.log| == |outcomes|
      && forall j :: 0 <= j < |outcomes| ==> outcomes[j] == Rejected(r.log[j])
    ensures r.Won? ==>
      && |r.log| < |outcomes|
      && outcomes[|r.log|] == Accepted(r.id)
      && forall j :: 0 <= j < |r.log| ==> outcomes[j] == Rejected(r.log[j])
  {
    if |outcomes| == 0 then Exhausted([])
    else
      match outcomes[0]
      case Accepted(id) => Won([], id)
      case Rejected(message) =>
        var rest := Scan(outcomes[1..]);
        rest.(log := [message] + rest.log)
  }

  /**
   * The run is fixed by the outcomes: after the rejections in `log`, an
   * acceptance wins with that log, and rejections all the way exhaust
   * the chain with it.
   */
  lemma ScanFixed(outcomes: seq<Outcome>, log: seq<string>)
    requires |log| <= |outcomes|
    requires forall j :: 0 <= j < |log| ==> outcomes[j] == Rejected(log[j])
    ensures |log| < |outcomes| && outcomes[|log|].Accepted? ==> Scan(outcomes) == Won(log, outcomes[|log|].id)
    ensures |log| == |outcomes| ==> Scan(outcomes) == Exhausted(log)
  {
    var r := Scan(outcomes);
    if |log| < |outcomes| && outcomes[|log|].Accepted? {
      assert r.Won? && |r.log| == |log|;
    }
  }

  /** The outcome of each entry of a chain, in order. */
  function Outcomes(chain: seq<Registration>, filename: string, mode: Mode, env: Platform, bases: Bases): (os: seq<Outcome>)
    requires Covered(chain, bases)
    ensures |os| == |chain|
  {
    seq(|chain|, j requires 0 <= j < |chain| => Attempt(chain[j], filename, mode, env, bases))
  }

  /**
   * Trying a chain as validatePolicies does: the entries that reject
   * before the first one that accepts, or all of them.
   */
  function Run(chain: seq<Registration>, filename: string, mode: Mode, env: Platform, bases: Bases): (r: ChainRun)
    requires Covered(chain, bases)
    ensures r.Exhausted? ==>
      && |r.log| == |chain|
      && forall j :: 0 <= j < |chain| ==> Attempt(chain[j], filename, mode, env, bases) == Rejected(r.log[j])
    ensures r.Won? ==>
      && |r.log| < |chain|
      && Attempt(chain[|r.log|], filename, mode, env, bases) == Accepted(r.id)
      && forall j :: 0 <= j < |r.log| ==> Attempt(chain[j], filename, mode, env, bases) == Rejected(r.log[j])
  {
    Scan(Outcomes(chain, filename, mode, env, bases))
  }

  /** Every chain's file policies have their base directory in `bases`. */
  predicate AllCovered(policies: map<string, seq<Registration>>, bases: Bases) {
    forall k :: k in policies ==> Covered(policies[k], bases)
  }

  /** The verdict of validatePolicies on an identifier, given the registered chains. */
  function Verdict(policies: map<string, seq<Registration>>, filename: string, mode: Mode, env: Platform, bases: Bases): Result<string>
    requires AllCovered(policies, bases)
  {
    var scheme := Scheme(filename);
    if scheme !in policies then Err("Protocole is not allowed")
    else
      match Run(policies[scheme], filename, mode, env, bases)
      case Won(_, id) => Ok(id)
      case Exhausted(_) => Err("No policy validated")
  }

  /**
   * The violations after validatePolicies: the rejections of the chain's
   * run when the protocol has a chain, the `previous` ones otherwise.
   */
  function Violations(policies: map<string, seq<Registration>>, filename: string, mode: Mode, env: Platform,
                      bases: Bases, previous: seq<string>): seq<string>
    requires AllCovered(policies, bases)
  {
    var scheme := Scheme(filename);
    if scheme in policies then Run(policies[scheme], filename, mode, env, bases).log else previous
  }

  /** Whether a chain's run ends in an entry that switches redirects off. */
  predicate RunTurnsRedirectsOff(chain: seq<Registration>, run: ChainRun) {
    run.Won? && |run.log| < |chain| && chain[|run.log|].policy.TurnsRedirectsOff()
  }

  /**
   * The options of a stream context after validatePolicies, given those
   * before: `follow_location` is set to 0 when the identifier's chain is
   * won by a policy that switches redirects off, and nothing else changes.
   */
  function ContextAfter(policies: map<string, seq<Registration>>, filename: string, mode: Mode, env: Platform,
                        bases: Bases, before: map<(string, string), int>): map<(string, string), int>
    requires AllCovered(policies, bases)
  {
    var scheme := Scheme(filename);
    if scheme in policies && RunTurnsRedirectsOff(policies[scheme], Run(policies[scheme], filename, mode, env, bases))
    then before[FollowLocation := 0]
    else before
  }

  /** How many entries of a chain a run tries: up to and including the winner, or all of them. */
  function Tried(chain: seq<Registration>, run: ChainRun): nat {
    if run.Won? then |run.log| + 1 else |chain|
  }

  /** Whether `reg` asks the file policy `f` to validate: it holds `f` and is registered for the mode. */
  predicate Asks(reg: Registration, f: FilePolicy, mode: Mode) {
    reg.policy.File? && reg.policy.file == f && Covers(reg.mode, mode)
  }

  /** One of the first `n` entries of the chain asks the file policy `f`. */
  predicate AskedWithin(chain: seq<Registration>, n: nat, f: FilePolicy, mode: Mode)
    ensures AskedWithin(chain, n, f, mode) <==> exists j :: 0 <= j < n && j < |chain| && Asks(chain[j], f, mode)
  {
    if n == 0 || |chain| == 0 then false
    else if n > |chain| then AskedWithin(chain, |chain|, f, mode)
    else AskedWithin(chain, n - 1, f, mode) || Asks(chain[n - 1], f, mode)
  }

  /**
   * The cache of the file policy `f` after validatePolicies, given the one
   * before: refreshed when the identifier's chain asks `f` to validate
   * before it is won, unchanged otherwise.
   */
  function CacheAfter(policies: map<string, seq<Registration>>, filename: string, mode: Mode, env: Platform,
                      bases: Bases, f: FilePolicy, before: Option<string>): Option<string>
    requires AllCovered(policies, bases)
  {
    var scheme := Scheme(filename);
    if scheme in policies
       && AskedWithin(policies[scheme], Tried(policies[scheme], Run(policies[scheme], filename, mode, env, bases)), f, mode)
    then Refresh(before, f.ResolveBaseDirectory(env))
    else before
  }

  /** A file policy that no entry of the chain holds is never asked. */
  lemma NotHeldNotAsked(chain: seq<Registration>, n: nat, f: FilePolicy, mode: Mode)
    requires forall j :: 0 <= j < |chain| && chain[j].policy.File? ==> chain[j].policy.file != f
    ensures !AskedWithin(chain, n, f, mode)
  {
  }

  /** A chain of one entry is won or exhausted by that entry alone. */
  lemma RunOne(reg: Registration, filename: string, mode: Mode, env: Platform, bases: Bases)
    requires reg.policy.File? ==> reg.policy.file in bases
    ensures Covered([reg], bases)
    ensures Run([reg], filename, mode, env, bases) ==
      match Attempt(reg, filename, mode, env, bases)
      case Accepted(id) => Won([], id)
      case Rejected(message) => Exhausted([message])
  {
    var outcomes := Outcomes([reg], filename, mode, env, bases);
    match outcomes[0]
    case Accepted(_) => ScanFixed(outcomes, []);
    case Rejected(message) => ScanFixed(outcomes, [message]);
  }

  /**
   * A request whose mode a chain's entries were never registered for is
   * refused by each of them with "Invalid mode", without asking the
   * policies.
   */
  lemma UncoveredModeExhausts(chain: seq<Registration>, filename: string, mode: Mode, env: Platform, bases: Bases)
    requires Covered(chain, bases)
    requires forall j :: 0 <= j < |chain| ==> !Covers(chain[j].mode, mode)
    ensures Run(chain, filename, mode, env, bases) == Exhausted(seq(|chain|, _ => "Invalid mode"))
  {
    ScanFixed(Outcomes(chain, filename, mode, env, bases), seq(|chain|, _ => "Invalid mode"));
  }

  /**
   * With only the library's policies registered, every one of them for a
   * mode it supports, a request that asks to write is refused: each entry
   * of the chain answers "Invalid mode" and none is asked to validate.
   * Writing through LPFile needs a policy of one's own.
   */
  lemma WritesNeedCustomPolicy(policies: map<string, seq<Registration>>, filename: string, mode: Mode,
                               env: Platform, bases: Bases)
    requires AllCovered(policies, bases)
    requires forall k :: k in policies ==> forall j :: 0 <= j < |policies[k]| ==>
      !policies[k][j].policy.Custom? && Covers(policies[k][j].policy.SupportedMode(), policies[k][j].mode)
    requires mode & ModeWrite != 0
    ensures Verdict(policies, filename, mode, env, bases).Err?
    ensures Scheme(filename) in policies ==>
      Run(policies[Scheme(filename)], filename, mode, env, bases) ==
        Exhausted(seq(|policies[Scheme(filename)]|, _ => "Invalid mode"))
  {
    var k := Scheme(filename);
    if k in policies {
      var chain := policies[k];
      forall j | 0 <= j < |chain|
        ensures !Covers(chain[j].mode, mode)
      {
        LibraryPolicies(chain[j].policy);
        ReadOnlyRefusesWrite(chain[j].mode, mode);
      }
      UncoveredModeExhausts(chain, filename, mode, env, bases);
    }
  }

  /** The chain registered for a protocol; none is an empty chain. */
  function ChainOf(policies: map<string, seq<Registration>>, protocole: string): seq<Registration> {
    if protocole in policies then policies[protocole] else []
  }

  /** The chains after registering `reg` under its policy's protocol. */
  function Register(policies: map<string, seq<Registration>>, reg: Registration): map<string, seq<Registration>> {
    var k := reg.policy.Protocole();
    policies[k := ChainOf(policies, k) + [reg]]
  }

  /**
   * Registering appends to the chain of the policy's protocol, after the
   * entries already there, and leaves every other chain as it was.
   */
  lemma RegisterAppends(policies: map<string, seq<Registration>>, reg: Registration, k: string)
    ensures k in Register(policies, reg) <==> k in policies || k == reg.policy.Protocole()
    ensures k == reg.policy.Protocole() ==>
      && |ChainOf(Register(policies, reg), k)| == |ChainOf(policies, k)| + 1
      && ChainOf(Register(policies, reg), k)[..|ChainOf(policies, k)|] == ChainOf(policies, k)
      && ChainOf(Register(policies, reg), k)[|ChainOf(policies, k)|] == reg
    ensures k != reg.policy.Protocole() ==> ChainOf(Register(policies, reg), k) == ChainOf(policies, k)
  {
  }

  /** The first registration makes a chain of its own. */
  lemma RegisterFirst(reg: Registration)
    ensures Register(map[], reg) == map[reg.policy.Protocole() := [reg]]
  {
    assert ChainOf(map[], reg.policy.Protocole()) + [reg] == [reg];
  }

  /** The file policies of a chain: the objects trying it may update. */
  ghost function ChainFiles(chain: seq<Registration>): set<FilePolicy> {
    set j | 0 <= j < |chain| && chain[j].policy.File? :: chain[j].policy.file
  }

  /** Every file policy of the chain currently uses the base directory `bases` records for it. */
  ghost predicate InSnapshot(chain: seq<Registration>, env: Platform, bases: Bases)
    reads ChainFiles(chain)
  {
    forall j :: 0 <= j < |chain| && chain[j].policy.File? ==>
      chain[j].policy.file in bases && chain[j].policy.file.EffectiveBase(env) == bases[chain[j].policy.file]
  }

  /** The cached base directories of a set of file policies. */
  ghost function Caches(fs: set<FilePolicy>): (m: map<FilePolicy, Option<string>>)
    reads fs
    ensures m.Keys == fs
  {
    map f | f in fs :: f.realBaseDirectory
  }

  /**
   * The caches `now`, against the caches `before` the chain was tried: a
   * file policy asked by one of the first `n` entries has its cache
   * refreshed, every other keeps it.
   */
  predicate ExpectedCaches(chain: seq<Registration>, n: nat, mode: Mode, env: Platform,
                           before: map<FilePolicy, Option<string>>, now: map<FilePolicy, Option<string>>)
  {
    forall f :: f in before ==>
      f in now && now[f] == if AskedWithin(chain, n, f, mode) then Refresh(before[f], f.ResolveBaseDirectory(env)) else before[f]
  }

  /** The caches after trying `reg`: the file policy it asks, if any, has its cache refreshed. */
  function StepCaches(prev: map<FilePolicy, Option<string>>, reg: Registration, mode: Mode, env: Platform)
    : (m: map<FilePolicy, Option<string>>)
    ensures m.Keys == prev.Keys
  {
    if reg.policy.File? && reg.policy.file in prev && Covers(reg.mode, mode)
    then prev[reg.policy.file := Refresh(prev[reg.policy.file], reg.policy.file.ResolveBaseDirectory(env))]
    else prev
  }

  /** Trying entry `n` takes the expected caches after `n` entries to those after `n + 1`. */
  lemma ExpectedStep(chain: seq<Registration>, n: nat, mode: Mode, env: Platform,
                     before: map<FilePolicy, Option<string>>, prev: map<FilePolicy, Option<string>>)
    requires n < |chain|
    requires ExpectedCaches(chain, n, mode, env, before, prev)
    ensures ExpectedCaches(chain, n + 1, mode, env, before, StepCaches(prev, chain[n], mode, env))
  {
    forall f | f in before
      ensures AskedWithin(chain, n + 1, f, mode) <==> AskedWithin(chain, n, f, mode) || Asks(chain[n], f, mode)
    {
    }
  }

  /**
   * One pass of the loop of validatePolicies: an entry not registered for
   * the requested mode is refused with "Invalid mode" and its policy is
   * not asked; otherwise the policy validates.
   */
  method TryEntry(reg: Registration, filename: string, ctx: StreamContext, mode: Mode, env: Platform, ghost bases: Bases)
    returns (o: Outcome)
    requires reg.policy.File? ==> reg.policy.file in bases && bases[reg.policy.file] == reg.policy.file.EffectiveBase(env)
    modifies reg.policy.Footprint(), ctx
    ensures o == Attempt(reg, filename, mode, env, bases)
    ensures reg.policy.File? ==> reg.policy.file.EffectiveBase(env) == bases[reg.policy.file]
    ensures reg.policy.File? ==>
      reg.policy.file.realBaseDirectory ==
        if Covers(reg.mode, mode)
        then Refresh(old(reg.policy.file.realBaseDirectory), reg.policy.file.ResolveBaseDirectory(env))
        else old(reg.policy.file.realBaseDirectory)
    ensures ctx.options ==
      if o.Accepted? && reg.policy.TurnsRedirectsOff() then old(ctx.options)[FollowLocation := 0] else old(ctx.options)
  {
    if reg.mode & mode != mode {
      return Rejected("Invalid mode");
    }
    o := reg.policy.Validate(filename, ctx, mode, env, bases);
  }

  /**
   * Entry `i` of a chain tried as the loop of validatePolicies tries it:
   * the attempt's outcome, with the caches of the file policies advanced
   * by that entry.
   */
  method TryNext(chain: seq<Registration>, i: nat, filename: string, ctx: StreamContext, mode: Mode, env: Platform,
                 ghost bases: Bases, ghost before: map<FilePolicy, Option<string>>)
    returns (o: Outcome)
    requires i < |chain| && Covered(chain, bases) && InSnapshot(chain, env, bases)
    requires ExpectedCaches(chain, i, mode, env, before, Caches(ChainFiles(chain)))
    modifies ChainFiles(chain), ctx
    ensures o == Attempt(chain[i], filename, mode, env, bases)
    ensures InSnapshot(chain, env, bases)
    ensures ExpectedCaches(chain, i + 1, mode, env, before, Caches(ChainFiles(chain)))
    ensures ctx.options ==
      if o.Accepted? && chain[i].policy.TurnsRedirectsOff() then old(ctx.options)[FollowLocation := 0] else old(ctx.options)
  {
    ghost var prev := Caches(ChainFiles(chain));
    o := TryEntry(chain[i], filename, ctx, mode, env, bases);
    assert Caches(ChainFiles(chain)) == StepCaches(prev, chain[i], mode, env) by {
      forall f | f in ChainFiles(chain)
        ensures f.realBaseDirectory == StepCaches(prev, chain[i], mode, env)[f]
      {
        if !(chain[i].policy.File? && chain[i].policy.file == f) {
          assert f.realBaseDirectory == old(f.realBaseDirectory);
        }
      }
    }
    ExpectedStep(chain, i, mode, env, before, prev);
  }

  /**
   * The loop of validatePolicies over one chain: the entries are tried in
   * order and the loop stops at the first acceptance. The result is the
   * chain's run; the file policies keep their base directories, and only
   * a winning HTTP policy that does not follow redirects writes to the
   * context.
   */
  method TryChain(chain: seq<Registration>, filename: string, ctx: StreamContext, mode: Mode, env: Platform, ghost bases: Bases)
    returns (run: ChainRun)
    requires Covered(chain, bases) && InSnapshot(chain, env, bases)
    modifies ChainFiles(chain), ctx
    ensures InSnapshot(chain, env, bases)
    ensures run == Run(chain, filename, mode, env, bases)
    ensures forall f :: f in ChainFiles(chain) ==>
      f.realBaseDirectory ==
        if AskedWithin(chain, Tried(chain, run), f, mode)
        then Refresh(old(f.realBaseDirectory), f.ResolveBaseDirectory(env))
        else old(f.realBaseDirectory)
    ensures ctx.options ==
      if RunTurnsRedirectsOff(chain, run) then old(ctx.options)[FollowLocation := 0] else old(ctx.options)
  {
    ghost var outcomes := Outcomes(chain, filename, mode, env, bases);
    ghost var before := Caches(ChainFiles(chain));
    assert ExpectedCaches(chain, 0, mode, env, before, before);
    var log := [];
    var i := 0;
    while i < |chain|
      invariant 0 <= i <= |chain| && |log| == i
      invariant forall j :: 0 <= j < i ==> outcomes[j] == Rejected(log[j])
      invariant InSnapshot(chain, env, bases)
      invariant ctx.options == old(ctx.options)
      invariant ExpectedCaches(chain, i, mode, env, before, Caches(ChainFiles(chain)))
    {
      var o := TryNext(chain, i, filename, ctx, mode, env, bases, before);
      if o.Accepted? {
        ScanFixed(outcomes, log);
        return Won(log, o.id);
      }
      log := log + [o.message];
      i := i + 1;
    }
    ScanFixed(outcomes, log);
    return Exhausted(log);
  }

  /** `$context ?? stream_context_create()`: the given context, or a new empty one. */
  method ContextOrNew(ctx: StreamContext?) returns (used: StreamContext)
    ensures ctx != null ==> used == ctx
    ensures ctx == null ==> fresh(used) && used.options == map[]
  {
    if ctx == null {
      used := new StreamContext();
    } else {
      used := ctx;
    }
  }

  class LPFile {
    /** The chains, by protocol. */
    var policies: map<string, seq<Registration>>
    /** The messages of the last rejected attempts. */
    var violations: seq<string>

    /**
     * Every chain is non-empty, holds policies whose protocol is its key,
     * and each was registered for a mode the policy supports.
     */
    ghost predicate Valid()
      reads this`policies
    {
      forall k :: k in policies ==>
        |policies[k]| > 0 &&
        forall j :: 0 <= j < |policies[k]| ==>
          policies[k][j].policy.Protocole() == k && Covers(policies[k][j].policy.SupportedMode(), policies[k][j].mode)
    }

    /** The file policies registered in some chain: the objects validatePolicies may update. */
    ghost function FilePolicies(): set<FilePolicy>
      reads this`policies
    {
      set k, r | k in policies && r in policies[k] && r.policy.File? :: r.policy.file
    }

    /** The base directory each registered file policy would use now. */
    ghost function CurrentBases(env: Platform): (b: Bases)
      reads this`policies, FilePolicies()
      ensures AllCovered(policies, b)
    {
      var b := map f | f in FilePolicies() :: f.EffectiveBase(env);
      assert forall k, j :: k in policies && 0 <= j < |policies[k]| && policies[k][j].policy.File? ==>
        policies[k][j] in policies[k];
      b
    }

    constructor ()
      ensures Valid()
      ensures policies == map[] && violations == []
    {
      policies := map[];
      violations := [];
    }

    /**
     * addPolicy: a policy is registered for a mode only if it supports
     * all of it; it is then appended to the chain of its own protocol and
     * no other chain changes.
     */
    method AddPolicy(policy: Policy, mode: Mode := ModeRead) returns (r: Result<()>)
      requires Valid()
      modifies this`policies
      ensures Valid()
      ensures r.Err? <==> !Covers(policy.SupportedMode(), mode)
      ensures r.Err? ==> r.message == "Unsupported mode" && policies == old(policies)
      ensures r.Ok? ==> policies == Register(old(policies), Registration(policy, mode))
    {
      if policy.SupportedMode() & mode != mode {
        return Err("Unsupported mode");
      }
      var k := policy.Protocole();
      var chain := ChainOf(policies, k) + [Registration(policy, mode)];
      assert forall j :: 0 <= j < |chain| ==>
        chain[j].policy.Protocole() == k && Covers(chain[j].policy.SupportedMode(), chain[j].mode);
      policies := policies[k := chain];
      return Ok(());
    }

    /**
     * validatePolicies: an unknown protocol is refused and the violations
     * are left as they were; otherwise the violations are reset and the
     * protocol's chain is tried in order. The answer and the new
     * violations are those of the chain's run with the base directories
     * the file policies had before the call; only a winning HTTP policy
     * that does not follow redirects writes to the context; and every file
     * policy keeps its base directory, so the same call decides alike
     * again.
     */
    method ValidatePolicies(filename: string, ctx: StreamContext, mode: Mode, env: Platform) returns (r: Result<string>)
      requires Valid()
      modifies this`violations, ctx, FilePolicies()
      ensures policies == old(policies)
      ensures forall f :: f in FilePolicies() ==> f.EffectiveBase(env) == old(f.EffectiveBase(env))
      ensures forall f :: f in FilePolicies() ==>
        f.realBaseDirectory == CacheAfter(policies, filename, mode, env, old(CurrentBases(env)), f, old(f.realBaseDirectory))
      ensures r == Verdict(policies, filename, mode, env, old(CurrentBases(env)))
      ensures violations == Violations(policies, filename, mode, env, old(CurrentBases(env)), old(violations))
      ensures ctx.options == ContextAfter(policies, filename, mode, env, old(CurrentBases(env)), old(ctx.options))
    {
      ghost var bases := CurrentBases(env);
      var scheme := Scheme(filename);
      if scheme !in policies {
        return Err("Protocole is not allowed");
      }
      var chain := policies[scheme];
      assert ChainFiles(chain) <= FilePolicies() by {
        forall f | f in ChainFiles(chain)
          ensures f in FilePolicies()
        {
          var j :| 0 <= j < |chain| && chain[j].policy.File? && chain[j].policy.file == f;
          assert chain[j] in policies[scheme];
        }
      }
      var run := TryChain(chain, filename, ctx, mode, env, bases);
      forall f | f in FilePolicies() && f !in ChainFiles(chain)
        ensures !AskedWithin(chain, Tried(chain, run), f, mode)
      {
        NotHeldNotAsked(chain, Tried(chain, run), f, mode);
      }
      violations := run.log;
      match run
      case Won(_, id) => return Ok(id);
      case Exhausted(_) => return Err("No policy validated");
    }

    /**
     * file: validates for reading, with a fresh context when none is
     * given, and clears FILE_USE_INCLUDE_PATH from the flags passed on.
     * The answer is the identifier to read (or the reason for refusing
     * it), the flags and the context the read would use.
     */
    method File(filename: string, flags: bv64, ctx: StreamContext?, env: Platform)
      returns (r: Result<string>, passedFlags: bv64, used: StreamContext)
      requires Valid()
      modifies this`violations, ctx, FilePolicies()
      ensures policies == old(policies)
      ensures r == Verdict(policies, filename, ModeRead, env, old(CurrentBases(env)))
      ensures violations == Violations(policies, filename, ModeRead, env, old(CurrentBases(env)), old(violations))
      ensures passedFlags == StripIncludePath(flags)
      ensures forall f :: f in FilePolicies() ==> f.EffectiveBase(env) == old(f.EffectiveBase(env))
      ensures forall f :: f in FilePolicies() ==>
        f.realBaseDirectory == CacheAfter(policies, filename, ModeRead, env, old(CurrentBases(env)), f, old(f.realBaseDirectory))
      ensures ctx != null ==> ctx.options == ContextAfter(policies, filename, ModeRead, env, old(CurrentBases(env)), old(ctx.options))
      ensures ctx == null ==> used.options == ContextAfter(policies, filename, ModeRead, env, old(CurrentBases(env)), map[])
      ensures ctx != null ==> used == ctx
      ensures ctx == null ==> fresh(used)
    {
      used := ContextOrNew(ctx);
      r := ValidatePolicies(filename, used, ModeRead, env);
      passedFlags := flags & !FileUseIncludePath;
    }

    /** fileGetContents: validates for reading, with a fresh context when none is given. */
    method FileGetContents(filename: string, ctx: StreamContext?, env: Platform)
      returns (r: Result<string>, used: StreamContext)
      requires Valid()
      modifies this`violations, ctx, FilePolicies()
      ensures policies == old(policies)
      ensures r == Verdict(policies, filename, ModeRead, env, old(CurrentBases(env)))
      ensures violations == Violations(policies, filename, ModeRead, env, old(CurrentBases(env)), old(violations))
      ensures forall f :: f in FilePolicies() ==> f.EffectiveBase(env) == old(f.EffectiveBase(env))
      ensures forall f :: f in FilePolicies() ==>
        f.realBaseDirectory == CacheAfter(policies, filename, ModeRead, env, old(CurrentBases(env)), f, old(f.realBaseDirectory))
      ensures ctx != null ==> ctx.options == ContextAfter(policies, filename, ModeRead, env, old(CurrentBases(env)), old(ctx.options))
      ensures ctx == null ==> used.options == ContextAfter(policies, filename, ModeRead, env, old(CurrentBases(env)), map[])
      ensures ctx != null ==> used == ctx
      ensures ctx == null ==> fresh(used)
    {
      used := ContextOrNew(ctx);
      r := ValidatePolicies(filename, used, ModeRead, env);
    }

    /**
     * filePutContents: validates for writing, with a fresh context when
     * none is given, and clears FILE_USE_INCLUDE_PATH from the flags
     * passed on.
     */
    method FilePutContents(filename: string, flags: bv64, ctx: StreamContext?, env: Platform)
      returns (r: Result<string>, passedFlags: bv64, used: StreamContext)
      requires Valid()
      modifies this`violations, ctx, FilePolicies()
      ensures policies == old(policies)
      ensures r == Verdict(policies, filename, ModeWrite, env, old(CurrentBases(env)))
      ensures violations == Violations(policies, filename, ModeWrite, env, old(CurrentBases(env)), old(violations))
      ensures passedFlags == StripIncludePath(flags)
      ensures forall f :: f in FilePolicies() ==> f.EffectiveBase(env) == old(f.EffectiveBase(env))
      ensures forall f :: f in FilePolicies() ==>
        f.realBaseDirectory == CacheAfter(policies, filename, ModeWrite, env, old(CurrentBases(env)), f, old(f.realBaseDirectory))
      ensures ctx != null ==> ctx.options == ContextAfter(policies, filename, ModeWrite, env, old(CurrentBases(env)), old(ctx.options))
      ensures ctx == null ==> used.options == ContextAfter(policies, filename, ModeWrite, env, old(CurrentBases(env)), map[])
      ensures ctx != null ==> used == ctx
      ensures ctx == null ==> fresh(used)
    {
      used := ContextOrNew(ctx);
      r := ValidatePolicies(filename, used, ModeWrite, env);
      passedFlags := flags & !FileUseIncludePath;
    }

    /**
     * fopen: an unknown mode string is refused before any policy is
     * asked, leaving the violations as they were; otherwise the identifier
     * is validated for the mode the string resolves to.
     */
    method Fopen(filename: string, mode: string, ctx: StreamContext?, env: Platform)
      returns (r: Result<string>, used: StreamContext)
      requires Valid()
      modifies this`violations, ctx, FilePolicies()
      ensures policies == old(policies)
      ensures ResolveFopenMode(mode).Err? ==> r == Err("Unknown mode") && violations == old(violations)
      ensures ResolveFopenMode(mode).Ok? ==>
        && r == Verdict(policies, filename, ResolveFopenMode(mode).value, env, old(CurrentBases(env)))
        && violations == Violations(policies, filename, ResolveFopenMode(mode).value, env, old(CurrentBases(env)), old(violations))
      ensures forall f :: f in FilePolicies() ==> f.EffectiveBase(env) == old(f.EffectiveBase(env))
      ensures ResolveFopenMode(mode).Err? ==> forall f :: f in FilePolicies() ==> f.realBaseDirectory == old(f.realBaseDirectory)
      ensures ResolveFopenMode(mode).Ok? ==> forall f :: f in FilePolicies() ==>
        f.realBaseDirectory ==
          CacheAfter(policies, filename, ResolveFopenMode(mode).value, env, old(CurrentBases(env)), f, old(f.realBaseDirectory))
      ensures ResolveFopenMode(mode).Err? && ctx != null ==> ctx.options == old(ctx.options)
      ensures ResolveFopenMode(mode).Err? && ctx == null ==> used.options == map[]
      ensures ResolveFopenMode(mode).Ok? && ctx != null ==>
        ctx.options == ContextAfter(policies, filename, ResolveFopenMode(mode).value, env, old(CurrentBases(env)), old(ctx.options))
      ensures ResolveFopenMode(mode).Ok? && ctx == null ==>
        used.options == ContextAfter(policies, filename, ResolveFopenMode(mode).value, env, old(CurrentBases(env)), map[])
      ensures ctx != null ==> used == ctx
      ensures ctx == null ==> fresh(used)
    {
      used := ContextOrNew(ctx);
      var resolved := ResolveFopenMode(mode);
      if resolved.Err? {
        return Err(resolved.message), used;
      }
      r := ValidatePolicies(filename, used, resolved.value, env);
    }

    /** getLastViolations: the messages the last call with a registered protocol collected. */
    method GetLastViolations() returns (r: seq<string>)
      ensures r == violations
    {
      return violations;
    }
  }
}
