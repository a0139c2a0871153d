/**
 * FilePolicy: confines local-file access to a base directory, a list of
 * extensions and (optionally) identifiers without parent-directory segments.
 * The canonical base directory is resolved on the first `validate` and kept
 * in the object once it resolves.
 */
module FilePolicy {
  import opened Common
  import opened Text
  import opened Platform
  import opened PolicyInterface

  const FileScheme: string := "file://"

  /** Strip a leading (case-sensitive) `file://` from an identifier. */
  function StripFileScheme(filename: string): (path: string)
    ensures FileScheme <= filename ==> filename == FileScheme + path
    ensures !(FileScheme <= filename) ==> path == filename
  {
    if FileScheme <= filename then filename[|FileScheme|..] else filename
  }

  /** Drop the trailing '/' characters of a path. */
  function TrimTrailingSlashes(s: string): (r: string)
    ensures r <= s
    ensures |r| == 0 || r[|r| - 1] != '/'
    ensures forall i :: |r| <= i < |s| ==> s[i] == '/'
  {
    if |s| == 0 || s[|s| - 1] != '/' then s
    else TrimTrailingSlashes(s[..|s| - 1])
  }

  /** The last component of a path, as PHP's basename sees it. */
  function Basename(path: string): (b: string)
    ensures '/' !in b
  {
    var t := TrimTrailingSlashes(path);
    match LastIndexOf(t, '/')
    case None => t
    case Some(i) => t[i + 1..]
  }

  /**
   * pathinfo($path)['extension']: the text after the last '.' of the
   * basename, or None when the basename has no '.'.
   */
  function PathExtension(path: string): (r: Option<string>)
    ensures r.None? <==> '.' !in Basename(path)
    ensures r.Some? ==> '.' !in r.value && '/' !in r.value
    ensures r.Some? ==> var b := Basename(path);
      |r.value| < |b| && b[|b| - |r.value| - 1] == '.' && b[|b| - |r.value|..] == r.value
  {
    var b := Basename(path);
    match LastIndexOf(b, '.')
    case None => None
    case Some(i) =>
      assert b[i + 1..] == b[|b| - |b[i + 1..]|..];
      Some(b[i + 1..])
  }

  /**
   * A path that ends in `.ext`, where `ext` has neither '.' nor '/', has
   * extension `ext`.
   */
  lemma {:induction false} ExtensionOfDottedName(stem: string, ext: string)
    requires '.' !in ext && '/' !in ext
    ensures PathExtension(stem + "." + ext) == Some(ext)
  {
    var s := stem + "." + ext;
    assert s[|s| - 1] != '/' by {
      if ext == "" {
        assert s[|s| - 1] == '.';
      } else {
        assert s[|s| - 1] == ext[|ext| - 1];
      }
    }
    assert TrimTrailingSlashes(s) == s;
    var d := |stem|;
    assert s[d] == '.';
    assert s[d + 1..] == ext;
    var b := Basename(s);
    var slash := LastIndexOf(s, '/');
    if slash.Some? {
      var k := slash.value;
      assert k < d;
      assert b == s[k + 1..];
    } else {
      assert b == s;
    }
    assert b[|b| - |ext| - 1] == '.' && b[|b| - |ext|..] == ext;
    var r := PathExtension(s);
    assert r.Some?;
    var e := r.value;
    assert |e| == |ext|;
  }

  /**
   * The cached base directory after a `validate`: a cache already set is
   * kept for the policy's lifetime; an empty one takes the resolved base
   * directory when there is one and stays empty otherwise.
   */
  function Refresh(cached: Option<string>, resolved: Result<string>): (r: Option<string>)
    ensures cached.Some? ==> r == cached
    ensures cached.None? ==> (r.Some? <==> resolved.Ok?)
    ensures r.Some? ==> r == cached || r == Some(resolved.value)
  {
    if cached.None? && resolved.Ok? then Some(resolved.value) else cached
  }

  /** A second `validate` on the same platform leaves the cache as the first left it. */
  lemma RefreshIdempotent(cached: Option<string>, resolved: Result<string>)
    ensures Refresh(Refresh(cached, resolved), resolved) == Refresh(cached, resolved)
  {
  }

  class FilePolicy {
    const baseDirectory: string
    const extensions: seq<string>
    const allowParentDirectory: bool
    /** The canonical base directory, once it has been resolved. */
    var realBaseDirectory: Option<string>

    constructor (baseDirectory: string, extensions: seq<string>, allowParentDirectory: bool)
      requires !EmptyString(baseDirectory)
      ensures this.baseDirectory == baseDirectory && this.extensions == extensions
      ensures this.allowParentDirectory == allowParentDirectory
      ensures realBaseDirectory == None
    {
      this.baseDirectory := baseDirectory;
      this.extensions := extensions;
      this.allowParentDirectory := allowParentDirectory;
      realBaseDirectory := None;
    }

    /** The source's constructor: a base directory PHP's empty() holds true of ("" or "0") is refused. */
    static method Create(baseDirectory: string, extensions: seq<string>, allowParentDirectory: bool)
      returns (r: Result<FilePolicy>)
      ensures r.Err? <==> EmptyString(baseDirectory)
      ensures r.Err? ==> r.message == "Base directory is empty"
      ensures r.Ok? ==> fresh(r.value) && r.value.realBaseDirectory == None
      ensures r.Ok? ==> r.value.baseDirectory == baseDirectory && r.value.extensions == extensions
      ensures r.Ok? ==> r.value.allowParentDirectory == allowParentDirectory
    {
      if EmptyString(baseDirectory) {
        return Err("Base directory is empty");
      }
      var p := new FilePolicy(baseDirectory, extensions, allowParentDirectory);
      return Ok(p);
    }

    function Protocole(): string {
      "file"
    }

    /** As written in the source: MODE_READ | MODE_READ. */
    function SupportedMode(): Mode {
      ModeRead | ModeRead
    }

    /** validateBaseDirectory: the canonical base directory, which must exist and be a directory. */
    function ResolveBaseDirectory(env: Platform): (r: Result<string>)
      ensures r.Ok? <==> env.realpath(baseDirectory).Some? && env.isDir(env.realpath(baseDirectory).value)
      ensures r.Ok? ==> env.realpath(baseDirectory) == Some(r.value)
      ensures env.realpath(baseDirectory).None? ==> r == Err("Base directory is invalid")
      ensures env.realpath(baseDirectory).Some? && r.Err? ==> r == Err("Base directory must be a directory")
    {
      match env.realpath(baseDirectory)
      case None => Err("Base directory is invalid")
      case Some(canonical) =>
        if !env.isDir(canonical) then Err("Base directory must be a directory") else Ok(canonical)
    }

    /** The base directory the next `validate` uses: the cached one, else a fresh resolution. */
    function EffectiveBase(env: Platform): Result<string>
      reads this
    {
      if realBaseDirectory.Some? then Ok(realBaseDirectory.value) else ResolveBaseDirectory(env)
    }

    /** validateParentDirectory: no `../` nor `..\` unless parent directories are allowed. */
    predicate ValidateParentDirectory(filename: string) {
      allowParentDirectory || (!Contains(filename, "../") && !Contains(filename, "..\\"))
    }

    /** validateExtensions: there is an extension and it is one of the configured ones. */
    predicate ValidateExtensions(extension: Option<string>) {
      extension.Some? && extension.value in extensions
    }

    /**
     * The decision of `validate` given the base directory it works with.
     * The identifier is accepted exactly when every check passes, and then
     * the canonical path, which starts with the canonical base directory,
     * is returned behind `file://`.
     */
    function Decide(base: Result<string>, filename: string, env: Platform): (o: Outcome)
      ensures o.Accepted? <==>
        var path := StripFileScheme(filename);
        && base.Ok?
        && ValidateParentDirectory(filename)
        && ValidateExtensions(PathExtension(path))
        && env.realpath(path).Some?
        && base.value <= env.realpath(path).value
        && !env.isDir(env.realpath(path).value)
      ensures o.Accepted? ==>
        var canonical := env.realpath(StripFileScheme(filename)).value;
        o.id == FileScheme + canonical && base.value <= canonical
      // The checks in order, each failure with its own message.
      ensures base.Err? ==> o == Rejected(base.message)
      ensures base.Ok? && !ValidateParentDirectory(filename) ==> o == Rejected("Parent directory is not allowed")
      ensures base.Ok? && ValidateParentDirectory(filename) && !ValidateExtensions(PathExtension(StripFileScheme(filename)))
        ==> o == Rejected("File extensions not allowed")
      ensures base.Ok? && ValidateParentDirectory(filename) && ValidateExtensions(PathExtension(StripFileScheme(filename)))
        ==> var found := env.realpath(StripFileScheme(filename));
          && (found.None? ==> o == Rejected("File does not exist"))
          && (found.Some? && !(base.value <= found.value) ==> o == Rejected("File is outside the base directory"))
          && (found.Some? && base.value <= found.value && env.isDir(found.value) ==> o == Rejected("File is a directory"))
    {
      if base.Err? then Rejected(base.message)
      else if !ValidateParentDirectory(filename) then Rejected("Parent directory is not allowed")
      else
        var path := StripFileScheme(filename);
        if !ValidateExtensions(PathExtension(path)) then Rejected("File extensions not allowed")
        else match env.realpath(path)
          case None => Rejected("File does not exist")
          case Some(canonical) =>
            if !(base.value <= canonical) then Rejected("File is outside the base directory")
            else if env.isDir(canonical) then Rejected("File is a directory")
            else Accepted(FileScheme + canonical)
    }

    /**
     * validate: resolve and cache the base directory if not yet cached,
     * then run the checks in order. The effective base directory is the same
     * afterwards, so the next call with the same platform decides alike.
     */
    method Validate(filename: string, env: Platform) returns (o: Outcome)
      modifies this
      ensures o == Decide(old(EffectiveBase(env)), filename, env)
      ensures EffectiveBase(env) == old(EffectiveBase(env))
      ensures realBaseDirectory == Refresh(old(realBaseDirectory), ResolveBaseDirectory(env))
    {
      if realBaseDirectory.None? {
        var base := ResolveBaseDirectory(env);
        if base.Err? {
          return Rejected(base.message);
        }
        realBaseDirectory := Some(base.value);
      }
      var realBase := realBaseDirectory.value;

      if !ValidateParentDirectory(filename) {
        return Rejected("Parent directory is not allowed");
      }

      var path := filename;
      if FileScheme <= filename {
        path := filename[|FileScheme|..];
      }

      if !ValidateExtensions(PathExtension(path)) {
        return Rejected("File extensions not allowed");
      }

      var realPath := env.realpath(path);
      if realPath.None? {
        return Rejected("File does not exist");
      }

      if !(realBase <= realPath.value) {
        return Rejected("File is outside the base directory");
      }

      if env.isDir(realPath.value) {
        return Rejected("File is a directory");
      }

      return Accepted(FileScheme + realPath.value);
    }
  }

  /** MODE_READ | MODE_READ is MODE_READ: the policy can be registered for reading only. */
  lemma SupportsReadOnly(p: FilePolicy)
    ensures p.SupportedMode() == ModeRead
    ensures Covers(p.SupportedMode(), ModeRead)
    ensures !Covers(p.SupportedMode(), ModeWrite) && !Covers(p.SupportedMode(), ModeRead | ModeWrite)
  {
  }

  /**
   * A parent-directory segment is refused on the raw identifier, before the
   * file system is consulted: the platform does not matter.
   */
  lemma ParentCheckPrecedesLookup(p: FilePolicy, base: string, filename: string, env1: Platform, env2: Platform)
    requires !p.allowParentDirectory
    requires Contains(filename, "../") || Contains(filename, "..\\")
    ensures p.Decide(Ok(base), filename, env1) == p.Decide(Ok(base), filename, env2)
    ensures p.Decide(Ok(base), filename, env1) == Rejected("Parent directory is not allowed")
  {
  }

  /** The extension check runs before existence: the platform does not matter. */
  lemma ExtensionCheckPrecedesLookup(p: FilePolicy, base: string, filename: string, env1: Platform, env2: Platform)
    requires p.ValidateParentDirectory(filename)
    requires !p.ValidateExtensions(PathExtension(StripFileScheme(filename)))
    ensures p.Decide(Ok(base), filename, env1) == p.Decide(Ok(base), filename, env2)
    ensures p.Decide(Ok(base), filename, env1) == Rejected("File extensions not allowed")
  {
  }

  /**
   * Containment is a raw string prefix: a canonical path that merely starts
   * with the characters of the base directory is accepted, even when the
   * next character is not a separator, so it is not below `base + "/"`.
   */
  lemma RawPrefixAdmitsSibling(p: FilePolicy, env: Platform, filename: string, base: string, canonical: string)
    requires p.ValidateParentDirectory(filename)
    requires p.ValidateExtensions(PathExtension(StripFileScheme(filename)))
    requires env.realpath(StripFileScheme(filename)) == Some(canonical) && !env.isDir(canonical)
    requires base <= canonical && |base| < |canonical| && canonical[|base|] != '/'
    ensures p.Decide(Ok(base), filename, env) == Accepted(FileScheme + canonical)
    ensures !(base + "/" <= canonical)
  {
    assert (base + "/")[|base|] == '/';
  }
}
