/**
 * The dispatcher's behaviour on the situations its tests set up: a stub
 * policy that accepts whatever it is given (a `Custom` policy returning
 * its first argument), registered for various modes, and the answers of
 * the wrappers.
 */
module Scenarios {
  import opened Common
  import opened Text
  import opened Platform
  import opened PolicyInterface
  import opened Policies
  import opened Dispatcher

  /** A stub for the given protocol and support whose validate hands the identifier back. */
  function Echo(protocole: string, supported: Mode): Policy {
    Custom(protocole, supported, (filename, _) => Accepted(filename))
  }

  /** `file://` followed by a path names the `file` protocol. */
  lemma FileUrlScheme(path: string)
    ensures Scheme("file://" + path) == "file"
  {
    NoColonNoSeparator("file");
    SchemeOfUrl("file", path);
    assert "file" + "://" + path == "file://" + path;
    assert Lower("file") == "file";
  }

  /**
   * With a stub as the only entry of the identifier's protocol, the
   * identifier is accepted as given when the stub's registration covers
   * the requested mode, and refused after one "Invalid mode" otherwise.
   */
  lemma EchoVerdict(filename: string, supported: Mode, registered: Mode, mode: Mode, env: Platform, bases: Bases)
    ensures var chain := [Registration(Echo(Scheme(filename), supported), registered)];
      && AllCovered(map[Scheme(filename) := chain], bases)
      && Run(chain, filename, mode, env, bases) ==
           (if Covers(registered, mode) then Won([], filename) else Exhausted(["Invalid mode"]))
      && Verdict(map[Scheme(filename) := chain], filename, mode, env, bases) ==
           (if Covers(registered, mode) then Ok(filename) else Err("No policy validated"))
  {
    var reg := Registration(Echo(Scheme(filename), supported), registered);
    RunOne(reg, filename, mode, env, bases);
  }

  /** `FILE://` followed by a path names the `file` protocol too. */
  lemma UpperFileUrlScheme(path: string)
    ensures Scheme("FILE://" + path) == "file"
  {
    NoColonNoSeparator("FILE");
    SchemeOfUrl("FILE", path);
    assert "FILE" + "://" + path == "FILE://" + path;
    assert Lower("FILE") == "file";
  }

  /**
   * A read-only stub registered for `file` accepts every identifier of
   * that protocol as given (a local path, or one prefixed with `file://`
   * in any case), and the read leaves no violations.
   */
  method ReadThroughStub(filename: string, env: Platform) returns (r: Result<string>, log: seq<string>)
    requires Scheme(filename) == "file"
    ensures r == Ok(filename)
    ensures log == []
  {
    var lp := new LPFile();
    var reg := Registration(Echo("file", ModeRead), ModeRead);
    var added := lp.AddPolicy(reg.policy);
    RegisterFirst(reg);
    assert lp.policies == map["file" := [reg]];
    EchoVerdict(filename, ModeRead, ModeRead, ModeRead, env, lp.CurrentBases(env));
    var used;
    r, used := lp.FileGetContents(filename, null, env);
    log := lp.GetLastViolations();
  }

  /** Without any policy every identifier is refused with "Protocole is not allowed". */
  method NoPolicy(filename: string, env: Platform) returns (r: Result<string>, log: seq<string>)
    ensures r == Err("Protocole is not allowed")
    ensures log == []
  {
    var lp := new LPFile();
    var used;
    r, used := lp.FileGetContents(filename, null, env);
    log := lp.GetLastViolations();
  }

  /** An identifier whose protocol has no chain is refused with "Protocole is not allowed". */
  method UnknownProtocol(env: Platform) returns (r: Result<string>, log: seq<string>)
    ensures r == Err("Protocole is not allowed")
    ensures log == []
  {
    var lp := new LPFile();
    var added := lp.AddPolicy(Echo("file", ModeRead));
    NoColonNoSeparator("unknown");
    SchemeOfUrl("unknown", "");
    assert "unknown" + "://" + "" == "unknown://";
    assert Lower("unknown") == "unknown";
    var used;
    r, used := lp.FileGetContents("unknown://", null, env);
    log := lp.GetLastViolations();
  }

  /**
   * A stub registered for writing only is not asked when reading: the
   * read fails with "No policy validated" and the violations hold
   * "Invalid mode".
   */
  method ReadFromWriteOnly(env: Platform) returns (r: Result<string>, log: seq<string>)
    ensures r == Err("No policy validated")
    ensures log == ["Invalid mode"]
  {
    var lp := new LPFile();
    var reg := Registration(Echo("file", ModeWrite), ModeWrite);
    var added := lp.AddPolicy(reg.policy, reg.mode);
    RegisterFirst(reg);
    assert lp.policies == map["file" := [reg]];
    FileUrlScheme("");
    assert "file://" + "" == "file://";
    EchoVerdict("file://", ModeWrite, ModeWrite, ModeRead, env, lp.CurrentBases(env));
    var used;
    r, used := lp.FileGetContents("file://", null, env);
    log := lp.GetLastViolations();
  }

  /**
   * filePutContents through a read-write stub registered for `registered`:
   * accepted when that covers writing (MODE_WRITE, or both modes), and
   * refused after one "Invalid mode" when it is MODE_READ alone.
   */
  method WriteThroughStub(filename: string, flags: bv64, registered: Mode, env: Platform)
    returns (r: Result<string>, passedFlags: bv64, log: seq<string>)
    requires Scheme(filename) == "file"
    requires registered in {ModeRead, ModeWrite, ModeRead | ModeWrite}
    ensures registered != ModeRead ==> r == Ok(filename) && log == []
    ensures registered == ModeRead ==> r == Err("No policy validated") && log == ["Invalid mode"]
    ensures passedFlags & FileUseIncludePath == 0
  {
    var lp := new LPFile();
    var reg := Registration(Echo("file", ModeRead | ModeWrite), registered);
    var added := lp.AddPolicy(reg.policy, reg.mode);
    RegisterFirst(reg);
    assert lp.policies == map["file" := [reg]];
    EchoVerdict(filename, ModeRead | ModeWrite, registered, ModeWrite, env, lp.CurrentBases(env));
    var used;
    r, passedFlags, used := lp.FilePutContents(filename, flags, null, env);
    log := lp.GetLastViolations();
  }

  /** The supported/registered pairs addPolicy accepts, each registering the stub. */
  method RegisterSupported(supported: Mode, registered: Mode) returns (r: Result<()>)
    requires || (supported == ModeRead && registered == ModeRead)
             || (supported == ModeRead | ModeWrite && registered == ModeRead)
             || (supported == ModeRead | ModeWrite && registered == ModeWrite)
             || (supported == ModeWrite && registered == ModeWrite)
             || (supported == ModeRead | ModeWrite && registered == ModeRead | ModeWrite)
    ensures r.Ok?
  {
    var lp := new LPFile();
    r := lp.AddPolicy(Echo("file", supported), registered);
  }

  /** The pairs addPolicy refuses with "Unsupported mode": a registration outside the support. */
  method RegisterUnsupported(supported: Mode, registered: Mode) returns (r: Result<()>)
    requires || (supported == ModeRead && registered == ModeWrite)
             || (supported == ModeWrite && registered == ModeRead)
             || (supported == ModeRead && registered == ModeWrite | ModeRead)
             || (supported == ModeWrite && registered == ModeWrite | ModeRead)
    ensures r == Err("Unsupported mode")
  {
    var lp := new LPFile();
    r := lp.AddPolicy(Echo("file", supported), registered);
  }
}
