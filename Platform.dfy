/**
 * What the policies ask of the platform, given to the model as parameters:
 * the file system (realpath and is_dir), PHP's URL splitter (parse_url) and
 * query-string parser (parse_str, reduced to the list of parameter names),
 * and the caller-owned stream context the HTTP policies write into.
 */
module Platform {
  import opened Common

  /** The components of a URL that parse_url reports; absent ones are None. */
  datatype UrlParts = UrlParts(host: Option<string>, path: Option<string>, query: Option<string>)

  /**
   * The oracles. `realpath` returns the canonical path of an existing file
   * or directory and None otherwise; `isDir` tells whether a path names a
   * directory; `parseUrl` splits a URL; `queryKeys` lists the parameter
   * names parse_str finds in a query string.
   */
  datatype Platform = Platform(
    realpath: string -> Option<string>,
    isDir: string -> bool,
    parseUrl: string -> UrlParts,
    queryKeys: string -> seq<string>)

  /** `$parts['x'] ?? ''`: an absent URL component reads as the empty string. */
  function OrEmpty(component: Option<string>): string {
    if component.Some? then component.value else ""
  }

  /** The option written by stream_context_set_option(['http' => ['follow_location' => 0]]). */
  const FollowLocation: (string, string) := ("http", "follow_location")

  /** A stream context: a map from (wrapper, option) to the option's value. */
  class StreamContext {
    var options: map<(string, string), int>

    /** stream_context_create(): a context with no options set. */
    constructor ()
      ensures options == map[]
    {
      options := map[];
    }

    /** stream_context_set_option for one option: that option is set, every other one kept. */
    method SetOption(key: (string, string), value: int)
      modifies this
      ensures options == old(options)[key := value]
    {
      options := options[key := value];
    }
  }
}
