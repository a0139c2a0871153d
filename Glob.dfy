/**
 * The wildcard patterns of HttpWildcardPolicy. preparePattern quotes every
 * character of the configured text and turns each `*` into `.*`, between
 * `^` and `$`; the model keeps the resulting regular expression as a
 * sequence of tokens, a wildcard or one literal character, and gives it
 * the meaning PCRE gives the compiled expression: `.` matches any character
 * except a newline, and `$` matches at the end of the subject or just
 * before a final newline.
 */
module Glob {
  import opened Text

  datatype Token = Star | Char(c: char)

  type Pattern = seq<Token>

  /** The token preparePattern makes of one character of the configured text. */
  function TokenOf(c: char): Token {
    if c == '*' then Star else Char(c)
  }

  /** preparePattern: `*` becomes a wildcard, every other character stands for itself. */
  function Prepare(glob: string): Pattern {
    seq(|glob|, i requires 0 <= i < |glob| => TokenOf(glob[i]))
  }

  /**
   * mb_strtolower applied by HttpPolicy's constructor to the compiled host
   * patterns: literal letters are lowered, wildcards are kept.
   */
  function LowerToken(tok: Token): Token {
    if tok.Star? then Star else Char(LowerChar(tok.c))
  }

  function LowerPattern(p: Pattern): Pattern {
    seq(|p|, i requires 0 <= i < |p| => LowerToken(p[i]))
  }

  /** Lowering the compiled pattern is compiling the lowered text. */
  lemma {:induction false} LowerPrepare(glob: string)
    ensures LowerPattern(Prepare(glob)) == Prepare(Lower(glob))
  {
    if |glob| > 0 {
      LowerPrepare(glob[1..]);
      assert Lower(glob)[1..] == Lower(glob[1..]);
      assert Prepare(glob)[1..] == Prepare(glob[1..]);
    }
  }

  /** Character comparison, with or without PCRE's `i` flag (ASCII case folding). */
  predicate SameChar(c: char, d: char, caseless: bool) {
    if caseless then LowerChar(c) == LowerChar(d) else c == d
  }

  /**
   * Whether `p` matches all of `t`: some split of the subject gives each
   * wildcard a run of non-newline characters and each literal token an
   * equal character. Only whether a match exists is modelled, not the
   * greedy search order of the regular expression engine.
   */
  predicate Matches(p: Pattern, t: string, caseless: bool)
    decreases |p| + |t|
  {
    if |p| == 0 then |t| == 0
    else if p[0].Star? then
      Matches(p[1..], t, caseless) || (|t| > 0 && t[0] != '\n' && Matches(p, t[1..], caseless))
    else
      |t| > 0 && SameChar(p[0].c, t[0], caseless) && Matches(p[1..], t[1..], caseless)
  }

  /** preg_match on `#^...$#`: the whole subject, or the subject without its final newline. */
  predicate PregMatch(p: Pattern, t: string, caseless: bool) {
    Matches(p, t, caseless) || (|t| > 0 && t[|t| - 1] == '\n' && Matches(p, t[..|t| - 1], caseless))
  }

  // Reference semantics: the subject splits into one piece per token.

  function Concat(pieces: seq<string>): string {
    if |pieces| == 0 then [] else pieces[0] + Concat(pieces[1..])
  }

  /** The piece a token stands for: newline-free text for a wildcard, one equal character otherwise. */
  predicate Fits(tok: Token, piece: string, caseless: bool) {
    match tok
    case Star => '\n' !in piece
    case Char(c) => |piece| == 1 && SameChar(c, piece[0], caseless)
  }

  predicate Splits(p: Pattern, t: string, pieces: seq<string>, caseless: bool) {
    |pieces| == |p| && Concat(pieces) == t &&
    forall i :: 0 <= i < |p| ==> Fits(p[i], pieces[i], caseless)
  }

  ghost predicate Denotes(p: Pattern, t: string, caseless: bool) {
    exists pieces :: Splits(p, t, pieces, caseless)
  }

  lemma {:induction false} MatchesSplits(p: Pattern, t: string, caseless: bool) returns (pieces: seq<string>)
    requires Matches(p, t, caseless)
    ensures Splits(p, t, pieces, caseless)
    decreases |p| + |t|
  {
    if |p| == 0 {
      pieces := [];
    } else if p[0].Star? {
      if Matches(p[1..], t, caseless) {
        var rest := MatchesSplits(p[1..], t, caseless);
        pieces := [[]] + rest;
        assert pieces[1..] == rest;
      } else {
        var rest := MatchesSplits(p, t[1..], caseless);
        pieces := [[t[0]] + rest[0]] + rest[1..];
        assert pieces[1..] == rest[1..];
        assert Concat(rest) == rest[0] + Concat(rest[1..]);
        assert t == [t[0]] + t[1..];
      }
    } else {
      var rest := MatchesSplits(p[1..], t[1..], caseless);
      pieces := [[t[0]]] + rest;
      assert pieces[1..] == rest;
      assert t == [t[0]] + t[1..];
    }
  }

  lemma {:induction false} SplitsMatches(p: Pattern, t: string, pieces: seq<string>, caseless: bool)
    requires Splits(p, t, pieces, caseless)
    ensures Matches(p, t, caseless)
    decreases |p| + |t|
  {
    if |p| > 0 {
      var rest := pieces[1..];
      assert t == pieces[0] + Concat(rest);
      assert Splits(p[1..], Concat(rest), rest, caseless) by {
        forall i | 0 <= i < |p[1..]| ensures Fits(p[1..][i], rest[i], caseless) {
          assert Fits(p[i + 1], pieces[i + 1], caseless);
        }
      }
      if p[0].Star? && |pieces[0]| > 0 {
        var shorter := [pieces[0][1..]] + rest;
        assert shorter[1..] == rest;
        assert t[1..] == pieces[0][1..] + Concat(rest);
        assert Splits(p, t[1..], shorter, caseless) by {
          forall i | 0 <= i < |p| ensures Fits(p[i], shorter[i], caseless) {
            if i > 0 {
              assert shorter[i] == pieces[i];
            }
          }
        }
        SplitsMatches(p, t[1..], shorter, caseless);
      } else if p[0].Star? {
        assert t == Concat(rest);
        SplitsMatches(p[1..], t, rest, caseless);
      } else {
        assert t[1..] == Concat(rest);
        SplitsMatches(p[1..], t[1..], rest, caseless);
      }
    }
  }

  /** The engine's search finds a match exactly when the subject splits along the pattern. */
  lemma MatchesIffDenotes(p: Pattern, t: string, caseless: bool)
    ensures Matches(p, t, caseless) <==> Denotes(p, t, caseless)
  {
    if Matches(p, t, caseless) {
      var pieces := MatchesSplits(p, t, caseless);
    }
    if Denotes(p, t, caseless) {
      var pieces :| Splits(p, t, pieces, caseless);
      SplitsMatches(p, t, pieces, caseless);
    }
  }

  /** Under the `i` flag, matching is matching the lowered pattern against the lowered subject. */
  lemma {:induction false} CaselessIsLowered(p: Pattern, t: string)
    ensures Matches(p, t, true) == Matches(LowerPattern(p), Lower(t), false)
    decreases |p| + |t|
  {
    if |p| > 0 {
      assert LowerPattern(p)[1..] == LowerPattern(p[1..]);
      if |t| > 0 {
        assert Lower(t)[1..] == Lower(t[1..]);
        CaselessIsLowered(p[1..], t[1..]);
        if p[0].Star? {
          CaselessIsLowered(p, t[1..]);
        }
      }
      CaselessIsLowered(p[1..], t);
    }
  }

  /** So lowering the pattern, as the constructor does to hosts, changes nothing under the `i` flag. */
  lemma LoweredPatternCaseless(p: Pattern, t: string)
    ensures Matches(LowerPattern(p), t, true) == Matches(p, t, true)
  {
    CaselessIsLowered(p, t);
    CaselessIsLowered(LowerPattern(p), t);
    LowerPatternIdempotent(p);
  }

  lemma {:induction false} LowerPatternIdempotent(p: Pattern)
    ensures LowerPattern(LowerPattern(p)) == LowerPattern(p)
  {
    if |p| > 0 {
      assert LowerPattern(p)[1..] == LowerPattern(p[1..]);
      LowerPatternIdempotent(p[1..]);
    }
  }

  /** A literal prefix of the pattern consumes exactly that prefix of the subject. */
  lemma {:induction false} LiteralPrefix(lit: string, q: Pattern, t: string)
    requires '*' !in lit
    ensures Matches(Prepare(lit) + q, t, false) <==> lit <= t && Matches(q, t[|lit|..], false)
  {
    if |lit| > 0 {
      var p := Prepare(lit) + q;
      assert p[0] == Char(lit[0]);
      assert p[1..] == Prepare(lit[1..]) + q;
      if |t| > 0 {
        LiteralPrefix(lit[1..], q, t[1..]);
        assert lit <= t <==> lit[0] == t[0] && lit[1..] <= t[1..];
        if |lit| <= |t| {
          assert t[1..][|lit| - 1..] == t[|lit|..];
        }
      }
    } else {
      assert Prepare(lit) + q == q;
      assert t[|lit|..] == t;
    }
  }

  /** A pattern without `*` matches only its own text. */
  lemma NoStarIsLiteral(lit: string, t: string)
    requires '*' !in lit
    ensures Matches(Prepare(lit), t, false) <==> t == lit
  {
    LiteralPrefix(lit, [], t);
    assert Prepare(lit) + [] == Prepare(lit);
  }

  /** A lone wildcard matches exactly the newline-free subjects. */
  lemma {:induction false} StarAlone(t: string)
    ensures Matches([Star], t, false) <==> '\n' !in t
  {
    assert [Star][1..] == [];
    if |t| > 0 {
      StarAlone(t[1..]);
      assert t == [t[0]] + t[1..];
    }
  }

  /** `lit*`, the shape of a base path such as `/manual*`: a prefix test on a newline-free rest. */
  lemma LiteralThenStar(lit: string, t: string)
    requires '*' !in lit
    ensures Matches(Prepare(lit + "*"), t, false) <==> lit <= t && '\n' !in t[|lit|..]
  {
    assert Prepare(lit + "*") == Prepare(lit) + [Star] by {
      PrepareConcat(lit, "*");
    }
    LiteralPrefix(lit, [Star], t);
    if lit <= t {
      StarAlone(t[|lit|..]);
    }
  }

  lemma {:induction false} PrepareConcat(a: string, b: string)
    ensures Prepare(a + b) == Prepare(a) + Prepare(b)
  {
    if |a| > 0 {
      assert (a + b)[1..] == a[1..] + b;
      PrepareConcat(a[1..], b);
    }
  }

  /** A wildcard can swallow any newline-free text before what the rest of the pattern matches. */
  lemma {:induction false} StarSkips(q: Pattern, s: string, u: string, caseless: bool)
    requires '\n' !in s && Matches(q, u, caseless)
    ensures Matches([Star] + q, s + u, caseless)
  {
    assert ([Star] + q)[1..] == q;
    if |s| > 0 {
      StarSkips(q, s[1..], u, caseless);
      assert (s + u)[0] == s[0] && (s + u)[1..] == s[1..] + u;
    } else {
      assert s + u == u;
    }
  }

  /** A pattern without wildcards matches only subjects of its own length. */
  lemma {:induction false} LiteralLength(lit: string, t: string, caseless: bool)
    requires '*' !in lit && Matches(Prepare(lit), t, caseless)
    ensures |t| == |lit|
  {
    if |lit| > 0 {
      assert Prepare(lit)[1..] == Prepare(lit[1..]);
      LiteralLength(lit[1..], t[1..], caseless);
    }
  }

  /** Under the `i` flag, a pattern without wildcards matches the subjects equal to it up to case. */
  lemma CaselessLiteral(lit: string, t: string)
    requires '*' !in lit
    ensures Matches(Prepare(lit), t, true) <==> Lower(t) == Lower(lit)
  {
    CaselessIsLowered(Prepare(lit), t);
    LowerPrepare(lit);
    assert '*' !in Lower(lit) by {
      forall i | 0 <= i < |lit| ensures Lower(lit)[i] != '*' {
        assert lit[i] != '*';
      }
    }
    NoStarIsLiteral(Lower(lit), Lower(t));
  }

  /**
   * `*lit`, the shape of a host pattern such as `*.php.net`: whatever the
   * wildcard swallows, the subject ends with text the literal matches.
   */
  lemma {:induction false} StarThenLiteral(lit: string, t: string, caseless: bool)
    requires '*' !in lit && Matches([Star] + Prepare(lit), t, caseless)
    ensures |lit| <= |t| && Matches(Prepare(lit), t[|t| - |lit|..], caseless)
  {
    assert ([Star] + Prepare(lit))[1..] == Prepare(lit);
    if Matches(Prepare(lit), t, caseless) {
      LiteralLength(lit, t, caseless);
      assert t[|t| - |lit|..] == t;
    } else {
      StarThenLiteral(lit, t[1..], caseless);
      assert t[1..][|t[1..]| - |lit|..] == t[|t| - |lit|..];
    }
  }

  /** A case-sensitive match is also a match under the `i` flag. */
  lemma {:induction false} SensitiveImpliesCaseless(p: Pattern, t: string)
    requires Matches(p, t, false)
    ensures Matches(p, t, true)
    decreases |p| + |t|
  {
    if |p| > 0 {
      if p[0].Star? {
        if Matches(p[1..], t, false) {
          SensitiveImpliesCaseless(p[1..], t);
        } else {
          SensitiveImpliesCaseless(p, t[1..]);
        }
      } else {
        SensitiveImpliesCaseless(p[1..], t[1..]);
      }
    }
  }

  /**
   * The validateHost and validatePath loops of HttpWildcardPolicy: true as
   * soon as one pattern matches.
   */
  function AnyMatch(patterns: seq<Pattern>, t: string, caseless: bool): (r: bool)
    ensures r <==> exists i :: 0 <= i < |patterns| && PregMatch(patterns[i], t, caseless)
  {
    if |patterns| == 0 then false
    else if PregMatch(patterns[0], t, caseless) then true
    else
      var rest := AnyMatch(patterns[1..], t, caseless);
      assert forall i :: 1 <= i < |patterns| ==> patterns[i] == patterns[1..][i - 1];
      rest
  }
}
