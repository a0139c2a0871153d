# lp-file policy engine, in Dafny

lp-file wraps PHP's `file`, `file_get_contents`, `file_put_contents` and
`fopen` so that no identifier (a local path or a URL) reaches the real
function unless a policy registered for its protocol accepts it.

This project models the policy engine:

- `Dispatcher`: the `LPFile` class.
  - `addPolicy` registers a policy for an access mode. It refuses a mode the policy does not support, and otherwise appends the policy to the chain of its protocol.
  - `validatePolicies` derives the protocol of the identifier. That is the text before the first `://`, lowered, or `file` when there is none. It then tries that protocol's chain in order: an entry not registered for the requested mode is skipped with "Invalid mode", and the first policy that accepts wins. The messages of the entries that refuse become the last violations.
  - The four wrappers choose the mode. `fopen` resolves its mode string to a mode. `file` and `file_put_contents` clear `FILE_USE_INCLUDE_PATH` from the flags they pass on.
- `PolicyInterface`: the `MODE_READ` and `MODE_WRITE` flags, the mode-covering test and the outcome of `validate`.
- `Policies`: the policy interface as a sum type. It holds the three library policies and `Custom`, which stands for any other implementation.
- `FilePolicy`: a base directory, an extension allow-list and parent-directory refusal. The canonical base directory is resolved once and cached.
- `FtpPolicy`, `HttpPolicy` and `HttpWildcardPolicy`: allowed hosts, base paths, dot-segments and, for HTTP, query parameter names. An HTTP policy that does not follow redirects sets `follow_location` to 0 in the caller's stream context when it accepts.
- `Glob`: the regular expressions HttpWildcardPolicy compiles from `*` patterns, with PCRE's meaning of `.`, `$` and the `i` flag. It also has a reference semantics, proved equivalent to the matcher.
- `Platform`: what the policies ask of PHP, given as parameters. That is `realpath`, `is_dir`, `parse_url`, the parameter names `parse_str` finds, and the stream context.
- `Scenarios` and `PolicyExamples`: the situations the repository's tests set up, stated and proved about the model.

`Common` and `Text` hold the Option/Result types and string helpers (ASCII lowering, substring search, prefix tests).

The base directory each file policy works with is passed to the decision
functions as a snapshot (`Policies.Bases`). `ValidatePolicies` proves
that the snapshot taken before the call decides the call, and that every
file policy ends with the same effective base directory, so the same call
decides alike again. The cache itself (`realBaseDirectory`) is stated
exactly: a cache once set is kept; a file policy the run asks, that is one
registered for the mode at or before the winning entry, caches its resolved
base directory when it had none and the base resolves; every other cache is
unchanged.

## Model

| member | source | states |
|---|---|---|
| PolicyInterface.ModeFlags | src/Policy/PolicyInterface.php:9-10 | MODE_READ and MODE_WRITE are distinct single bits whose union is 3 |
| PolicyInterface.CoversFlags | src/LPFile.php:17-19 | the test `(supported & mode) === mode`: read-only covers only reads, write-only only writes, read-write both |
| PolicyInterface.CoversPreorder | src/LPFile.php:41-43 | covering is reflexive and transitive, so a request inside a registration inside the support is supported |
| PolicyInterface.ReadOnlyRefusesWrite | src/Policy/FilePolicy.php:33-36 | a registration inside read-only support never covers a request with the write bit |
| Policies.Policy.Validate | src/Policy/PolicyInterface.php:12-19 | validate decides as the policy's decision with its current base directory, keeps that base directory, and writes the context only when an HTTP policy that does not follow redirects accepts; a file policy's cache is refreshed: kept once set, else set to the resolved base when it resolves |
| Policies.LibraryPolicies | src/Policy/FilePolicy.php:28-36 | the library policies register under `file`, `ftp`, `ftps`, `http` or `https`, all lower case, and support reading only |
| Dispatcher.SchemeOfUrl | src/LPFile.php:32-34 | the protocol of `scheme://rest` is the lowered scheme, whenever `://` does not occur in the scheme itself |
| Dispatcher.NoColonNoSeparator | src/LPFile.php:32-34 | a scheme without ':' (every scheme of RFC 3986) holds no `://` |
| Dispatcher.PlainPathIsFile | src/LPFile.php:32-34 | an identifier in which `://` occurs nowhere (a plain path, `C:\x.txt`, `a:b`) has protocol `file` |
| Dispatcher.SchemeIsLower | src/LPFile.php:32-34 | the derived protocol is always lower case |
| Dispatcher.ResolveFopenMode | src/LPFile.php:171-186 | exactly the ten known mode strings resolve; read is covered iff the string is `r` or has `+`; write iff it is not `r`; otherwise "Unknown mode" |
| Dispatcher.StripIncludePath | src/LPFile.php:76-77 | FILE_USE_INCLUDE_PATH is cleared and every other bit is kept |
| Dispatcher.StripIncludePathIdempotent | src/LPFile.php:134-135 | clearing twice is clearing once; flags without the bit pass unchanged |
| Dispatcher.Scan | src/LPFile.php:39-51 | first match wins: a won run has the first acceptance after rejections with their messages; an exhausted run has one message per entry |
| Dispatcher.ScanFixed | src/LPFile.php:39-51 | after rejections collected in order, the next acceptance wins with that log, and rejections all the way exhaust the chain with it |
| Dispatcher.Run | src/LPFile.php:39-51 | the run of a chain in terms of each entry's attempt: the mode test, then the policy's decision |
| Dispatcher.RunOne | src/LPFile.php:39-51 | a one-entry chain is won or exhausted by that entry alone |
| Dispatcher.UncoveredModeExhausts | src/LPFile.php:41-43 | entries not registered for the mode each answer "Invalid mode", without asking the policy |
| Dispatcher.WritesNeedCustomPolicy | src/LPFile.php:41-51 | with only library policies registered, a request with the write bit is refused, each entry logging "Invalid mode" |
| Dispatcher.RegisterAppends | src/LPFile.php:21-24 | registering appends to its protocol's chain after the existing entries and leaves every other chain unchanged |
| Dispatcher.RegisterFirst | src/LPFile.php:21-24 | the first registration for a protocol makes a chain of its own |
| Dispatcher.TryEntry | src/LPFile.php:40-47 | one pass of the loop: "Invalid mode" without calling validate when the registration does not cover the mode, else the policy's outcome; an uncovered entry's file policy keeps its cache, a covered one's cache is refreshed |
| Dispatcher.TryNext | src/LPFile.php:40-47 | one pass of the loop keeps the caches of the chain's file policies as the run so far prescribes, one entry further |
| Dispatcher.ExpectedStep | src/LPFile.php:40-47 | the prescribed caches after one more entry are the prescribed caches so far with that entry's cache refreshed when it is asked |
| Dispatcher.AskedWithin | src/LPFile.php:40-47 | a file policy is asked within the first n entries iff one of them holds it and is registered for the mode |
| Dispatcher.NotHeldNotAsked | src/LPFile.php:37-47 | a file policy no entry of the chain holds is never asked |
| Dispatcher.TryChain | src/LPFile.php:39-49 | the loop returns the chain's run; file policies keep their effective base directories; a file policy's cache is refreshed iff an entry registered for the mode, at or before the winner, holds it, and is otherwise unchanged; the context changes only when the winner turns redirects off |
| Dispatcher.ContextOrNew | src/LPFile.php:70-72 | the given stream context, or a fresh empty one |
| Dispatcher.LPFile.constructor | src/LPFile.php:12-13 | no chains and no violations |
| Dispatcher.LPFile.AddPolicy | src/LPFile.php:15-25 | refused with "Unsupported mode" iff the policy does not support the whole mode, with nothing changed; otherwise the policy is appended to its protocol's chain; the chain invariant is kept |
| Dispatcher.LPFile.ValidatePolicies | src/LPFile.php:30-55 | "Protocole is not allowed" with the violations unchanged for an unknown protocol; otherwise the chain's run decides and its log becomes the violations; "No policy validated" when every entry refuses; file policies keep their effective base directory, and each cache is refreshed iff the run asks that policy, unchanged otherwise (also for an unknown protocol); context written only by a winning HTTP policy that does not follow redirects |
| Dispatcher.LPFile.File | src/LPFile.php:65-86 | validates for reading with the given or a fresh context, and passes the flags with FILE_USE_INCLUDE_PATH cleared; the context gains `follow_location` 0 only when a winning HTTP policy does not follow redirects; file policies keep their effective base directories, and each cache is refreshed iff the read's run asks that policy |
| Dispatcher.LPFile.FileGetContents | src/LPFile.php:93-116 | validates for reading with the given or a fresh context; the context gains `follow_location` 0 only when a winning HTTP policy does not follow redirects; file policies keep their effective base directories, and each cache is refreshed iff the read's run asks that policy |
| Dispatcher.LPFile.FilePutContents | src/LPFile.php:122-144 | validates for writing with the given or a fresh context, and passes the flags with FILE_USE_INCLUDE_PATH cleared; the context changes as for a read; file policies keep their effective base directories, and each cache is refreshed iff the write's run asks that policy |
| Dispatcher.LPFile.Fopen | src/LPFile.php:151-169 | an unknown mode string gives "Unknown mode" before any policy is asked, with violations and context unchanged; otherwise validates for the resolved mode, the context changing as for the other wrappers; file policies keep their effective base directories; an unknown mode changes no cache, a known one refreshes exactly the caches its run asks |
| Dispatcher.LPFile.GetLastViolations | src/LPFile.php:57-60 | returns the violations of the last call with a registered protocol |
| FilePolicy.StripFileScheme | src/Policy/FilePolicy.php:51-53 | a leading `file://` is removed, and nothing else is |
| FilePolicy.TrimTrailingSlashes | src/Policy/FilePolicy.php:55-59 | the result is a prefix without a final '/', and only '/' characters were dropped |
| FilePolicy.PathExtension | src/Policy/FilePolicy.php:55-59 | no extension iff the basename has no '.'; otherwise the text after the basename's last '.' |
| FilePolicy.ExtensionOfDottedName | src/Policy/FilePolicy.php:55-59 | `stem.ext`, with `ext` free of '.' and '/', has extension `ext` |
| FilePolicy.Refresh | src/Policy/FilePolicy.php:43-45 | a set cache is kept; an empty one is set iff the base resolves, and then to the resolved base |
| FilePolicy.RefreshIdempotent | src/Policy/FilePolicy.php:43-45 | refreshing twice is refreshing once |
| FilePolicy.FilePolicy.constructor | src/Policy/FilePolicy.php:17-26 | the configuration is stored and no base directory is cached |
| FilePolicy.FilePolicy.Create | src/Policy/FilePolicy.php:17-26 | refused with "Base directory is empty" iff PHP's empty() holds of the base directory: `""` or `"0"` |
| FilePolicy.FilePolicy.ResolveBaseDirectory | src/Policy/FilePolicy.php:78-91 | "Base directory is invalid" when realpath fails, "Base directory must be a directory" when it is not a directory, else the canonical path |
| FilePolicy.FilePolicy.Decide | src/Policy/FilePolicy.php:41-76 | accepted iff the base resolves, no parent segment, an allowed extension, the file exists, its canonical path starts with the base and is not a directory; the result is `file://` + canonical path; the checks run in that order, the first failure giving the base directory's error, "Parent directory is not allowed", "File extensions not allowed", "File does not exist", "File is outside the base directory" or "File is a directory" |
| FilePolicy.FilePolicy.Validate | src/Policy/FilePolicy.php:41-76 | decides as Decide with the base directory in effect before the call; the cache becomes the refresh of the old cache by the resolved base: kept once set, else set when the base resolves; the effective base is unchanged |
| FilePolicy.SupportsReadOnly | src/Policy/FilePolicy.php:33-36 | `MODE_READ \| MODE_READ` is MODE_READ: registering for writing is impossible |
| FilePolicy.ParentCheckPrecedesLookup | src/Policy/FilePolicy.php:47-49 | `../` or `..\` in the raw identifier is refused whatever the file system says |
| FilePolicy.ExtensionCheckPrecedesLookup | src/Policy/FilePolicy.php:55-59 | a disallowed extension is refused before existence is checked |
| FilePolicy.RawPrefixAdmitsSibling | src/Policy/FilePolicy.php:67-69 | containment is a raw string prefix: a sibling such as `/dx` of base `/d` is accepted |
| FtpPolicy.FtpPolicy.Decide | src/Policy/FtpPolicy.php:47-64 | accepted iff host, path and dot-segment checks pass, in that order; the identifier is returned unchanged; the first failing check names the rejection: "Host is not allowed", "Path is not allowed", "Dot-segments are not allowed" |
| FtpPolicy.HostIgnoresCase | src/Policy/FtpPolicy.php:18-28 | a host is accepted iff it equals a configured host once both are lowered |
| FtpPolicy.FtpProtocolAndMode | src/Policy/FtpPolicy.php:30-42 | protocol `ftps` or `ftp`; read only |
| FtpPolicy.DotSegmentRefusal | src/Policy/FtpPolicy.php:59-61 | once host and path pass, refused iff `../` occurs and dot-segments are not allowed |
| FtpPolicy.EmptyBasePathAdmitsAll | src/Policy/FtpPolicy.php:71-80 | the empty base path admits every path |
| HttpPolicy.HttpPolicy.Decide | src/Policy/HttpPolicy.php:53-78 | accepted iff host, path, dot-segment and query checks pass, in that order; the identifier is returned unchanged; the first failing check names the rejection: "Host is not allowed", "Path is not allowed", "Dot-segments are not allowed", "Query is not allowed" |
| HttpPolicy.HttpPolicy.Validate | src/Policy/HttpPolicy.php:53-78 | decides as Decide; sets `follow_location` to 0 only on acceptance without followRedirect, every other option kept |
| HttpPolicy.HostIgnoresCase | src/Policy/HttpPolicy.php:20-34 | a host is accepted iff it equals a configured host once both are lowered |
| HttpPolicy.HttpProtocolAndMode | src/Policy/HttpPolicy.php:36-48 | protocol `https` or `http`; read only |
| HttpPolicy.QueryStringRule | src/Policy/HttpPolicy.php:96-115 | empty (or "0") query passes; otherwise an empty allow-list refuses, else every parameter name must be allowed |
| Glob.LowerPrepare | src/Policy/HttpWildcardPolicy.php:43-46 | lowering the compiled pattern is compiling the lowered text |
| Glob.MatchesIffDenotes | src/Policy/HttpWildcardPolicy.php:43-46 | the matcher accepts exactly the subjects that split into one piece per token, newline-free text for `*` |
| Glob.CaselessIsLowered | src/Policy/HttpWildcardPolicy.php:21-30 | matching with the `i` flag is matching lowered pattern against lowered subject |
| Glob.LiteralThenStar | src/Policy/HttpWildcardPolicy.php:32-41 | `b*` matches exactly the newline-free extensions of `b` |
| Glob.NoStarIsLiteral | src/Policy/HttpWildcardPolicy.php:32-41 | a pattern without `*` matches only its own text, in full |
| Glob.CaselessLiteral | src/Policy/HttpWildcardPolicy.php:21-30 | a `*`-free host pattern matches exactly its text up to case |
| Glob.SensitiveImpliesCaseless | src/Policy/HttpWildcardPolicy.php:21-30 | every case-sensitive match is a caseless one |
| Glob.AnyMatch | src/Policy/HttpWildcardPolicy.php:21-41 | true iff some pattern matches |
| HttpWildcardPolicy.HostMatchIsLowered | src/Policy/HttpWildcardPolicy.php:13-30 | a configured host pattern matches a host with the `i` flag iff the lowered pattern matches the lowered host exactly |
| HttpWildcardPolicy.PatternsIgnoreCase | src/Policy/HttpWildcardPolicy.php:21-30 | a host is accepted iff its lowered form is |
| HttpWildcardPolicy.StarFreeHostsAsLiteral | src/Policy/HttpWildcardPolicy.php:13-30 | with `*`-free hosts the wildcard policy accepts the same hosts as HttpPolicy, for every host that does not end in a newline |
| HttpWildcardPolicy.PrefixPathsAsLiteral | src/Policy/HttpWildcardPolicy.php:32-41 | base paths `b*` accept the same newline-free paths as HttpPolicy's base paths `b`: patterns match in full |
| HttpWildcardPolicy.EmptyPatternAdmitsOnlyEmpty | src/Policy/HttpWildcardPolicy.php:43-46 | the empty base path compiles to `#^$#` and admits only the empty path or a lone newline |
| PolicyExamples.PhpNetHostPattern | tests/Policy/HttpWildcardPolicyTest.php:37-83 | `*.php.net` in any case accepts `www.php.net` and `Www.Php.Net` and refuses `www.php.com` |
| PolicyExamples.ManualFunctionPath | tests/Policy/HttpWildcardPolicyTest.php:37-83 | `/manual/` + `*` + `/function` + `*` accepts a function page in any language |
| PolicyExamples.ManualStarPaths | tests/Policy/HttpWildcardPolicyTest.php:101-142 | `/manual/` + `*` refuses the empty path and passes `/manual/../` |
| PolicyExamples.WildcardHostDecisions | tests/Policy/HttpWildcardPolicyTest.php:37-142 | the wildcard policy's decisions on the tested hosts |
| PolicyExamples.WildcardPathDecisions | tests/Policy/HttpWildcardPolicyTest.php:37-142 | the wildcard policy's decisions on the tested paths and queries |
| PolicyExamples.HttpAcceptances | tests/Policy/HttpPolicyTest.php:48-103 | HttpPolicy, configured as in each test case, accepts the tested URLs as given |
| PolicyExamples.HttpRefusals | tests/Policy/HttpPolicyTest.php:121-172 | HttpPolicy refuses the tested URLs with the tested messages |
| PolicyExamples.FtpDecisions | tests/Policy/FtpPolicyTest.php:40-105 | FtpPolicy accepts and refuses the tested URLs with the tested messages |
| Scenarios.FileUrlScheme | tests/FileGetContentsTest.php:17-31 | `file://` + path has protocol `file` |
| Scenarios.UpperFileUrlScheme | src/LPFile.php:32-34 | `FILE://` + path has protocol `file` |
| Scenarios.EchoVerdict | tests/FileGetContentsTest.php:90-153 | a one-stub chain accepts the identifier as given iff its registration covers the mode, else one "Invalid mode" |
| Scenarios.ReadThroughStub | tests/FileGetContentsTest.php:17-31 | a read-only stub accepts every `file` identifier, with no violations |
| Scenarios.NoPolicy | tests/FileGetContentsTest.php:33-41 | without policies every identifier gets "Protocole is not allowed" |
| Scenarios.UnknownProtocol | tests/FileGetContentsTest.php:43-56 | a protocol without a chain gets "Protocole is not allowed" |
| Scenarios.ReadFromWriteOnly | tests/FileGetContentsTest.php:58-73 | a write-only stub is not asked on a read: "No policy validated", violations `["Invalid mode"]` |
| Scenarios.WriteThroughStub | tests/FilePutContentsTest.php:17-57 | writing passes with a registration covering writes and fails with "Invalid mode" for a read-only one; the include-path bit is cleared |
| Scenarios.RegisterSupported | tests/FileGetContentsTest.php:90-114 | the supported/registered pairs the tests register are accepted |
| Scenarios.RegisterUnsupported | tests/FileGetContentsTest.php:133-153 | the unsupported pairs are refused with "Unsupported mode" |

## Left out

- The I/O itself: reading, writing and opening files, with the offset and length arguments of `file_get_contents`. The RuntimeExceptions thrown when the underlying PHP function fails are also left out. The wrappers return the identifier and the context they would pass on.
- `realpath`, `is_dir`, `parse_url` and `parse_str` are oracles in `Platform.Platform`. Their own rules, such as path canonicalisation and URL splitting, are not modelled. Of `parse_str` only the list of parameter names is kept.
- Case folding is ASCII. `mb_strtolower` and PCRE's `i` flag on non-ASCII letters are not modelled.
- PCRE: only `.` (no newline), `$` (end or before a final newline) and the `i` flag are modelled. `preg_quote` is modelled as the identity on the non-`*` characters, which is what it means inside the compiled expression.
- `in_array` is loose in the source, and so is `==` between strings: two numeric strings compare as numbers, so `"1e1"` equals `"10"` and `"01"` equals `"1"`. The model compares strings exactly. The extension list, the Ftp and Http host lists and the allowed query keys therefore admit, in the source, numeric strings that only equal an allowed one as numbers; the model does not.
- The `(array)` cast of string arguments to the policy constructors: the model takes sequences.
- The requested mode passed to the library policies' `validate` is unused by them. It is passed on only to `Custom` policies.
- Custom policies are pure functions of the identifier and mode. Their effects on the context or other state are not modelled, and neither are exceptions other than PolicyException.
- Dispatcher.LPFile.ValidatePolicies: the rejection messages are collected in a local sequence and assigned at the end, rather than appended to the field one by one. The result is the same, because no exception other than a rejection is modelled.
- Not a gap, a property of the source kept as written: containment in the base directory is a raw string prefix test. RawPrefixAdmitsSibling shows that a sibling directory sharing the prefix is admitted.
- Not a gap, a property of the source kept as written: FilePolicy's supported mode `MODE_READ | MODE_READ` is read only, so it can only be registered for reading. WritesNeedCustomPolicy shows that writes then need a policy of one's own.
- FtpPolicy's supported mode is `MODE_READ | MODE_READ` too, kept as written.
- As in the source, the Http and Ftp dot-segment test looks only for `../`; `..\` is not refused for URLs.
- Paths are POSIX paths: FilePolicy.PathExtension and its basename split only at '/'. PHP's `basename` and `pathinfo` on Windows also split at '\', which the model does not.
