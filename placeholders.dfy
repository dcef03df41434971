/**
 * The `${NAME}` substitution that the acceptor applies to its configuration
 * text before the FIX engine reads it.
 *
 * The pattern is `\$\{([^}]+)\}`: a dollar sign, an opening brace, a
 * non-empty run of characters other than `}`, and the closing brace.  The
 * matcher scans left to right for non-overlapping matches; each key is looked
 * up first in the dotenv store, then in the process environment; a found
 * value replaces the placeholder, an unresolved placeholder is kept as it
 * stands and its key is reported in a warning.
 *
 * Lemmas without a doc comment of their own, and `PlaceholderResult`,
 * `UnboundKeptStep`, `KeptStep` and `PortStep`, state no property of the
 * resolver: they are single proof steps split off so that each proof
 * obligation about the recursive definitions stays small for the solver.
 */
module ConfigResolver {
  import opened Wrappers

  /** A key the pattern's group `([^}]+)` can capture. */
  predicate IsKey(k: string)
  {
    |k| > 0 && forall m :: 0 <= m < |k| ==> k[m] != '}'
  }

  /** The first closing brace at or after `k`. */
  function FirstClose(s: string, k: nat): (r: Option<nat>)
    requires k <= |s|
    decreases |s| - k
    ensures r.Some? ==> k <= r.value < |s|
  {
    if k == |s| then None
    else if s[k] == '}' then Some(k)
    else FirstClose(s, k + 1)
  }

  /**
   * `s[i..j+1]` is an occurrence of the pattern `\$\{([^}]+)\}`, its key
   * being `s[i+2..j]`: `${`, then one or more characters other than `}`,
   * then `}`.
   */
  predicate MatchAt(s: string, i: int, j: int)
  {
    && 0 <= i && i + 2 < j < |s|
    && s[i] == '$' && s[i + 1] == '{' && s[j] == '}'
    && forall m :: i + 2 <= m < j ==> s[m] != '}'
  }

  /** Where an occurrence starting at `i` closes, if one starts there. */
  function MatchEndAt(s: string, i: nat): (r: Option<nat>)
    ensures r.Some? ==> i + 2 < r.value < |s|
  {
    if i + 1 < |s| && s[i] == '$' && s[i + 1] == '{' then
      match FirstClose(s, i + 2)
      case Some(j) => if j > i + 2 then Some(j) else None
      case None => None
    else None
  }

  /** One `Matcher.find()` resuming at `from`: the leftmost occurrence there. */
  function FindFrom(s: string, from: nat): (r: Option<(nat, nat)>)
    requires from <= |s|
    decreases |s| - from
    ensures r.Some? ==> from <= r.value.0 && r.value.0 + 2 < r.value.1 < |s|
  {
    if from == |s| then None
    else
      match MatchEndAt(s, from)
      case Some(j) => Some((from, j))
      case None => FindFrom(s, from + 1)
  }

  /** `dotenv.get(key)`, and `System.getenv(key)` only when that gave null. */
  function Lookup(dotenv: map<string, string>, env: map<string, string>, key: string): (r: Option<string>)
  {
    if key in dotenv then Some(dotenv[key])
    else if key in env then Some(env[key])
    else None
  }

  /** The resolved text and the keys warned about, in the order of the warnings. */
  datatype Resolution = Resolution(text: string, unresolved: seq<string>)

  /** Reference definition of the substitution of every occurrence at or after `from`. */
  function ResolveFrom(s: string, dotenv: map<string, string>, env: map<string, string>, from: nat): (r: Resolution)
    requires from <= |s|
    decreases |s| - from
  {
    match FindFrom(s, from)
    case None => Resolution(s[from..], [])
    case Some((i, j)) =>
      var key := s[i + 2..j];
      var rest := ResolveFrom(s, dotenv, env, j + 1);
      match Lookup(dotenv, env, key)
      case Some(v) => Resolution(s[from..i] + v + rest.text, rest.unresolved)
      case None => Resolution(s[from..j + 1] + rest.text, [key] + rest.unresolved)
  }

  function Resolve(s: string, dotenv: map<string, string>, env: map<string, string>): (r: Resolution)
  {
    ResolveFrom(s, dotenv, env, 0)
  }

  /** The keys of all occurrences at or after `from`, in text order. */
  function Occurrences(s: string, from: nat): (keys: seq<string>)
    requires from <= |s|
    decreases |s| - from
  {
    match FindFrom(s, from)
    case None => []
    case Some((i, j)) => [s[i + 2..j]] + Occurrences(s, j + 1)
  }

  /** The keys of `keys` that neither source binds, in order. */
  function Unbound(keys: seq<string>, dotenv: map<string, string>, env: map<string, string>): (unbound: seq<string>)
  {
    if keys == [] then []
    else (if Lookup(dotenv, env, keys[0]).None? then [keys[0]] else []) + Unbound(keys[1..], dotenv, env)
  }

  /** A value `Matcher.appendReplacement` copies literally: no `$` group reference, no `\` escape. */
  predicate Plain(v: string)
  {
    '$' !in v && '\\' !in v
  }

  /** Every value substituted into `config` is plain; values no placeholder names may hold anything. */
  predicate SubstitutedPlain(config: string, dotenv: map<string, string>, env: map<string, string>)
  {
    forall k <- Occurrences(config, 0) :: Lookup(dotenv, env, k).Some? ==> Plain(Lookup(dotenv, env, k).value)
  }

  /**
   * The loop below, read as a recursion over its own state: the text built
   * so far, where the next append starts, where the next search starts and
   * the warnings given so far.
   */
  ghost function ResolveLoop(config: string, dotenv: map<string, string>, env: map<string, string>,
                             sb: string, appendPos: nat, searchPos: nat, warnings: seq<string>): (r: Resolution)
    requires appendPos <= searchPos <= |config|
    decreases |config| - searchPos
  {
    match FindFrom(config, searchPos)
    case None => Resolution(sb + config[appendPos..], warnings)
    case Some((i, j)) =>
      match Lookup(dotenv, env, config[i + 2..j])
      case Some(v) => ResolveLoop(config, dotenv, env, sb + config[appendPos..i] + v, j + 1, j + 1, warnings)
      case None => ResolveLoop(config, dotenv, env, sb, appendPos, j + 1, warnings + [config[i + 2..j]])
  }

  /**
   * One pass of the loop body: `appendReplacement` with the found value, or,
   * for an unresolved key, only the warning.
   */
  method AppendMatch(config: string, dotenv: map<string, string>, env: map<string, string>,
                     sb: string, appendPos: nat, searchPos: nat, warnings: seq<string>, i: nat, j: nat)
    returns (sb': string, appendPos': nat, warnings': seq<string>)
    requires appendPos <= searchPos <= |config|
    requires FindFrom(config, searchPos) == Some((i, j))
    ensures appendPos' <= j + 1 <= |config|
    ensures Lookup(dotenv, env, config[i + 2..j]).Some? ==>
      && sb' == sb + config[appendPos..i] + Lookup(dotenv, env, config[i + 2..j]).value
      && appendPos' == j + 1 && warnings' == warnings
    ensures Lookup(dotenv, env, config[i + 2..j]).None? ==>
      sb' == sb && appendPos' == appendPos && warnings' == warnings + [config[i + 2..j]]
    ensures ResolveLoop(config, dotenv, env, sb', appendPos', j + 1, warnings')
            == ResolveLoop(config, dotenv, env, sb, appendPos, searchPos, warnings)
  {
    ResolveLoopStep(config, dotenv, env, sb, appendPos, searchPos, warnings, i, j);
    var key := config[i + 2..j];
    var value := if key in dotenv then Some(dotenv[key]) else None;
    if value.None? {
      value := if key in env then Some(env[key]) else None;
    }
    if value.Some? {
      sb', appendPos', warnings' := sb + config[appendPos..i] + value.value, j + 1, warnings;
    } else {
      sb', appendPos', warnings' := sb, appendPos, warnings + [key];
    }
  }

  /**
   * The `while (matcher.find())` loop with its `StringBuffer`: `appendPos`
   * is where the matcher's next append starts, `searchPos` where its next
   * search starts.  An unresolved occurrence moves only the latter, so the
   * placeholder is copied by the next append.
   */
  method ResolvePlaceholders(config: string, dotenv: map<string, string>, env: map<string, string>)
    returns (resolved: string, warnings: seq<string>)
    requires SubstitutedPlain(config, dotenv, env)
    ensures Resolution(resolved, warnings) == Resolve(config, dotenv, env)
  {
    ghost var goal := ResolveLoop(config, dotenv, env, "", 0, 0, []);
    var sb := "";
    var appendPos: nat, searchPos: nat := 0, 0;
    warnings := [];
    var found := FindFrom(config, 0);
    while found.Some?
      invariant appendPos <= searchPos <= |config|
      invariant found == FindFrom(config, searchPos)
      invariant ResolveLoop(config, dotenv, env, sb, appendPos, searchPos, warnings) == goal
      decreases |config| - searchPos
    {
      var i, j := found.value.0, found.value.1;
      sb, appendPos, warnings := AppendMatch(config, dotenv, env, sb, appendPos, searchPos, warnings, i, j);
      searchPos := j + 1;
      found := FindFrom(config, searchPos);
    }
    resolved := sb + config[appendPos..];
    LoopComputesResolve(config, dotenv, env);
  }

  /**
   * The start-up boundary: without the `acceptor.cfg` resource nothing is
   * resolved and nothing is started; otherwise its text is resolved.
   */
  method LoadConfiguration(resource: Option<string>, dotenv: map<string, string>, env: map<string, string>)
    returns (config: Option<string>, warnings: seq<string>)
    requires resource.Some? ==> SubstitutedPlain(resource.value, dotenv, env)
    ensures resource.None? ==> config.None? && warnings == []
    ensures resource.Some? ==> config == Some(Resolve(resource.value, dotenv, env).text)
    ensures resource.Some? ==> warnings == Unbound(Occurrences(resource.value, 0), dotenv, env)
  {
    if resource.None? {
      return None, [];
    }
    var text;
    text, warnings := ResolvePlaceholders(resource.value, dotenv, env);
    config := Some(text);
    WarningsAreUnboundOccurrences(resource.value, dotenv, env);
  }

  // ----- Properties of the reference definition -----

  /** `FirstClose` finds the first closing brace, or reports there is none. */
  lemma {:induction false} FirstCloseIsFirst(s: string, k: nat)
    requires k <= |s|
    ensures FirstClose(s, k).Some? ==>
      s[FirstClose(s, k).value] == '}' && forall m :: k <= m < FirstClose(s, k).value ==> s[m] != '}'
    ensures FirstClose(s, k).None? ==> forall m :: k <= m < |s| ==> s[m] != '}'
    decreases |s| - k
  {
    if k < |s| && s[k] != '}' {
      FirstCloseIsFirst(s, k + 1);
    }
  }

  /** A brace with none before it from `k` on is the first one. */
  lemma FirstCloseIs(s: string, k: nat, j: nat)
    requires k <= j < |s| && s[j] == '}'
    requires forall m :: k <= m < j ==> s[m] != '}'
    ensures FirstClose(s, k) == Some(j)
  {
    FirstCloseIsFirst(s, k);
  }


  /** `MatchEndAt` reports exactly the occurrence that starts at `i`. */
  lemma MatchEndAtIs(s: string, i: nat)
    ensures forall j :: MatchAt(s, i, j) <==> MatchEndAt(s, i) == Some(j)
  {
    if i + 2 <= |s| {
      FirstCloseIsFirst(s, i + 2);
    }
    forall j | MatchAt(s, i, j)
      ensures MatchEndAt(s, i) == Some(j)
    {
      FirstCloseIs(s, i + 2, j);
    }
  }

  /**
   * `find()` from `from` reports the leftmost occurrence at or after `from`,
   * and reports none only when there is none.
   */
  lemma {:induction false} FindIsLeftmostMatch(s: string, from: nat)
    requires from <= |s|
    ensures var r := FindFrom(s, from);
      r.Some? ==> MatchAt(s, r.value.0, r.value.1)
    ensures var r := FindFrom(s, from);
      r.Some? ==> forall i, j :: from <= i < r.value.0 ==> !MatchAt(s, i, j)
    ensures FindFrom(s, from).None? ==> forall i, j :: from <= i ==> !MatchAt(s, i, j)
    decreases |s| - from
  {
    MatchEndAtIs(s, from);
    if from < |s| && MatchEndAt(s, from).None? {
      FindIsLeftmostMatch(s, from + 1);
    }
  }

  /** The key `group(1)` of every occurrence `find()` reports is non-empty and free of `}`. */
  lemma MatchKey(s: string, from: nat, i: nat, j: nat)
    requires from <= |s| && FindFrom(s, from) == Some((i, j))
    ensures IsKey(s[i + 2..j])
  {
    FindIsLeftmostMatch(s, from);
  }

  lemma ConsSlice(s: string, from: nat, k: nat, x: string, y: string)
    requires from < k <= |s|
    ensures s[from..k] + x + y == [s[from]] + (s[from + 1..k] + x + y)
    ensures s[from..k] + y == [s[from]] + (s[from + 1..k] + y)
  {
    assert s[from..k] == [s[from]] + s[from + 1..k];
  }

  /** No occurrence starts at `from`, so `find()` moves on by one character. */
  lemma ResolveFromSkipOne(s: string, dotenv: map<string, string>, env: map<string, string>,
                            from: nat, next: nat, rest: Resolution)
    requires from < |s| && MatchEndAt(s, from).None?
    requires next == from + 1 && ResolveFrom(s, dotenv, env, next) == rest
    ensures ResolveFrom(s, dotenv, env, from) == Resolution([s[from]] + rest.text, rest.unresolved)
  {
    assert FindFrom(s, from) == FindFrom(s, next);
    match FindFrom(s, next)
    case None =>
      assert s[from..] == [s[from]] + s[next..];
    case Some((i, j)) =>
      var key, after := s[i + 2..j], j + 1;
      var tail := ResolveFrom(s, dotenv, env, after);
      ResolveFromAt(s, dotenv, env, from, i, j, key, after, tail);
      ResolveFromAt(s, dotenv, env, next, i, j, key, after, tail);
      match Lookup(dotenv, env, key)
      case Some(v) =>
        ConsSlice(s, from, i, v, tail.text);
      case None =>
        ConsSlice(s, from, after, "", tail.text);
  }

  /** Text in which no occurrence starts is copied as it stands. */
  lemma {:induction false} ResolveSkip(s: string, dotenv: map<string, string>, env: map<string, string>, from: nat, to: nat)
    requires from <= to <= |s|
    requires forall i :: from <= i < to ==> MatchEndAt(s, i).None?
    ensures ResolveFrom(s, dotenv, env, from)
            == Resolution(s[from..to] + ResolveFrom(s, dotenv, env, to).text,
                          ResolveFrom(s, dotenv, env, to).unresolved)
    decreases |s| - from
  {
    if from < to {
      var next := from + 1;
      ResolveFromSkipOne(s, dotenv, env, from, next, ResolveFrom(s, dotenv, env, next));
      ResolveSkip(s, dotenv, env, next, to);
      ConsSlice(s, from, to, "", ResolveFrom(s, dotenv, env, to).text);
    }
  }

  /** A text none of whose `$` can start an occurrence, whatever follows it. */
  predicate Inert(t: string)
  {
    forall i :: 0 <= i < |t| && t[i] == '$' ==>
      i + 1 < |t| && (t[i + 1] != '{' || (i + 2 < |t| && t[i + 2] == '}'))
  }

  /** An inert text at `from` is copied, and resolving goes on after it. */
  lemma ResolveInertAt(s: string, dotenv: map<string, string>, env: map<string, string>,
                        from: nat, t: string, next: nat, rest: Resolution)
    requires Inert(t) && next == from + |t| && next <= |s| && s[from..next] == t
    requires ResolveFrom(s, dotenv, env, next) == rest
    ensures ResolveFrom(s, dotenv, env, from) == Resolution(t + rest.text, rest.unresolved)
  {
    forall i | from <= i < next
      ensures MatchEndAt(s, i).None?
    {
      var m := i - from;
      assert s[i] == t[m];
      if t[m] == '$' {
        assert m + 1 < |t|;
        assert s[i + 1] == t[m + 1];
        if t[m + 1] == '{' {
          assert m + 2 < |t| && t[m + 2] == '}';
          var open := i + 2;
          assert s[open] == t[m + 2];
          assert FirstClose(s, open) == Some(open);
        }
      }
    }
    ResolveSkip(s, dotenv, env, from, next);
  }

  /** The characters of a placeholder `${k}` written at `from`. */
  lemma PlaceholderChars(s: string, from: nat, k: string)
    requires from + |k| + 3 <= |s| && s[from..from + |k| + 3] == "${" + k + "}"
    ensures s[from] == '$' && s[from + 1] == '{' && s[from + |k| + 2] == '}'
    ensures s[from + 2..from + |k| + 2] == k
  {
    var p := "${" + k + "}";
    assert s[from] == p[0] && s[from + 1] == p[1] && s[from + |k| + 2] == p[|k| + 2];
    assert forall m :: 0 <= m < |k| ==> s[from + 2..from + |k| + 2][m] == p[m + 2] == k[m];
  }

  /** `find()` at a placeholder `${k}` reports it. */
  lemma FindPlaceholderAt(s: string, from: nat, k: string, close: nat, next: nat)
    requires IsKey(k) && close == from + |k| + 2 && next == close + 1 && next <= |s|
    requires s[from..next] == "${" + k + "}"
    ensures FindFrom(s, from) == Some((from, close))
    ensures s[from + 2..close] == k
  {
    PlaceholderChars(s, from, k);
    var open := from + 2;
    forall m | open <= m < close
      ensures s[m] != '}'
    {
      assert s[m] == s[open..close][m - open] == k[m - open];
    }
    FirstCloseIs(s, open, close);
  }

  /** A placeholder `${k}` at `from` is substituted or kept, and resolving goes on after it. */
  lemma ResolvePlaceholderAt(s: string, dotenv: map<string, string>, env: map<string, string>,
                              from: nat, k: string, next: nat, rest: Resolution)
    requires IsKey(k) && next == from + |k| + 3 && next <= |s| && s[from..next] == "${" + k + "}"
    requires ResolveFrom(s, dotenv, env, next) == rest
    ensures ResolveFrom(s, dotenv, env, from) ==
      match Lookup(dotenv, env, k)
      case Some(v) => Resolution(v + rest.text, rest.unresolved)
      case None => Resolution("${" + k + "}" + rest.text, [k] + rest.unresolved)
  {
    var close := from + |k| + 2;
    FindPlaceholderAt(s, from, k, close, next);
    ResolveFromAt(s, dotenv, env, from, from, close, k, next, rest);
    assert s[from..from] == [];
    PlaceholderResult(s[from..from], s[from..next], k, Lookup(dotenv, env, k), rest);
  }

  /** The result of one placeholder step, read with the key and the empty prefix in place. */
  lemma PlaceholderResult(e: string, p: string, k: string, found: Option<string>, rest: Resolution)
    requires e == [] && p == "${" + k + "}"
    ensures (match found
             case Some(v) => Resolution(e + v + rest.text, rest.unresolved)
             case None => Resolution(p + rest.text, [k] + rest.unresolved))
         == (match found
             case Some(v) => Resolution(v + rest.text, rest.unresolved)
             case None => Resolution("${" + k + "}" + rest.text, [k] + rest.unresolved))
  {
    if found.Some? {
      assert e + found.value == found.value;
    }
  }

  /** A configuration text written as literal text and placeholders. */
  datatype Piece = Text(chars: string) | Placeholder(key: string)

  function RenderPiece(p: Piece): (r: string)
  {
    match p
    case Text(t) => t
    case Placeholder(k) => "${" + k + "}"
  }

  function Render(ps: seq<Piece>): (r: string)
  {
    if ps == [] then "" else RenderPiece(ps[0]) + Render(ps[1..])
  }

  /**
   * A piece as written in front of the text `after`: a placeholder has a key
   * the pattern can capture, and no occurrence starts inside literal text.
   * A literal `$` is allowed wherever it cannot begin a match: at the very
   * end, before another `$`, or in a `${` that is never closed.
   */
  ghost predicate Fits(p: Piece, after: string)
  {
    match p
    case Text(t) => forall i, j :: 0 <= i < |t| ==> !MatchAt(t + after, i, j)
    case Placeholder(k) => IsKey(k)
  }

  /** Every piece fits in front of the rendering of the pieces after it. */
  ghost predicate WellFormed(ps: seq<Piece>)
  {
    ps == [] || (Fits(ps[0], Render(ps[1..])) && WellFormed(ps[1..]))
  }

  /**
   * What substitution is meant to produce, piece by piece: literal text
   * copied, a bound key replaced by its value, an unbound placeholder kept
   * and its key warned about.
   */
  function Expand(ps: seq<Piece>, dotenv: map<string, string>, env: map<string, string>): (r: Resolution)
  {
    if ps == [] then Resolution("", [])
    else Prepend(ps[0], Expand(ps[1..], dotenv, env), dotenv, env)
  }

  /** The expansion of one piece put in front of the expansion of what follows it. */
  function Prepend(p: Piece, rest: Resolution, dotenv: map<string, string>, env: map<string, string>): (r: Resolution)
  {
    match p
    case Text(t) => Resolution(t + rest.text, rest.unresolved)
    case Placeholder(k) =>
      match Lookup(dotenv, env, k)
      case Some(v) => Resolution(v + rest.text, rest.unresolved)
      case None => Resolution("${" + k + "}" + rest.text, [k] + rest.unresolved)
  }

  /** An occurrence read in a suffix of the text is the same occurrence in the whole text, shifted. */
  lemma MatchShift(s: string, from: nat, i: nat, j: int)
    requires from <= |s|
    ensures MatchAt(s[from..], i, j) <==> MatchAt(s, from + i, from + j)
  {
    var t := s[from..];
    if MatchAt(s, from + i, from + j) {
      forall m | i + 2 <= m < j
        ensures t[m] != '}'
      {
        assert t[m] == s[from + m];
      }
    }
    if MatchAt(t, i, j) {
      forall m | from + i + 2 <= m < from + j
        ensures s[m] != '}'
      {
        assert s[m] == t[m - from];
      }
    }
  }

  /** Literal text at `from` in which no occurrence starts is copied, and resolving goes on after it. */
  lemma ResolveTextAt(s: string, dotenv: map<string, string>, env: map<string, string>,
                      from: nat, t: string, next: nat, rest: Resolution)
    requires next == from + |t| && next <= |s| && s[from..next] == t
    requires forall i, j :: 0 <= i < |t| ==> !MatchAt(t + s[next..], i, j)
    requires ResolveFrom(s, dotenv, env, next) == rest
    ensures ResolveFrom(s, dotenv, env, from) == Resolution(t + rest.text, rest.unresolved)
  {
    assert t + s[next..] == s[from..];
    forall i | from <= i < next
      ensures MatchEndAt(s, i).None?
    {
      forall j
        ensures !MatchAt(s, i, j)
      {
        MatchShift(s, from, i - from, j - from);
      }
      MatchEndAtIs(s, i);
    }
    ResolveSkip(s, dotenv, env, from, next);
  }

  /** Resolving over one piece that fits what follows it prepends that piece's expansion. */
  lemma ResolvePieceAt(s: string, dotenv: map<string, string>, env: map<string, string>,
                       from: nat, p: Piece, next: nat, rest: Resolution)
    requires next == from + |RenderPiece(p)| && next <= |s| && s[from..next] == RenderPiece(p)
    requires Fits(p, s[next..])
    requires ResolveFrom(s, dotenv, env, next) == rest
    ensures ResolveFrom(s, dotenv, env, from) == Prepend(p, rest, dotenv, env)
  {
    match p
    case Text(t) =>
      ResolveTextAt(s, dotenv, env, from, t, next, rest);
    case Placeholder(k) =>
      ResolvePlaceholderAt(s, dotenv, env, from, k, next, rest);
  }

  /** A suffix that spells `x + y` spells `x` first and then `y`. */
  lemma SplitSuffix(s: string, from: nat, x: string, y: string)
    requires from <= |s| && s[from..] == x + y
    ensures from + |x| <= |s| && s[from..from + |x|] == x && s[from + |x|..] == y
  {
    assert s[from..from + |x|] == s[from..][..|x|];
    assert s[from + |x|..] == s[from..][|x|..];
  }

  /** The substitution agrees with the piece-by-piece reading of the text from `from` on. */
  lemma {:induction false} ResolveRenderedAt(s: string, dotenv: map<string, string>, env: map<string, string>,
                                             from: nat, ps: seq<Piece>)
    requires WellFormed(ps)
    requires from <= |s| && s[from..] == Render(ps)
    ensures ResolveFrom(s, dotenv, env, from) == Expand(ps, dotenv, env)
    decreases ps
  {
    if ps == [] {
      assert from == |s|;
    } else {
      var first, later := ps[0], ps[1..];
      var next := from + |RenderPiece(first)|;
      PiecesCons(ps);
      RenderedCons(s, from, first, later, next);
      ResolveRenderedAt(s, dotenv, env, next, later);
      ExpandCons(ps, dotenv, env);
      ResolvePieceAt(s, dotenv, env, from, first, next, Expand(later, dotenv, env));
    }
  }

  /** A rendering that starts at `from` with its first piece, followed by the rendering of the rest. */
  lemma RenderedCons(s: string, from: nat, first: Piece, later: seq<Piece>, next: nat)
    requires from <= |s| && s[from..] == RenderPiece(first) + Render(later)
    requires next == from + |RenderPiece(first)|
    ensures next <= |s| && s[from..next] == RenderPiece(first) && s[next..] == Render(later)
  {
    SplitSuffix(s, from, RenderPiece(first), Render(later));
  }

  lemma PiecesCons(ps: seq<Piece>)
    requires ps != []
    ensures Render(ps) == RenderPiece(ps[0]) + Render(ps[1..])
    ensures WellFormed(ps) <==> Fits(ps[0], Render(ps[1..])) && WellFormed(ps[1..])
  {
  }

  lemma ExpandCons(ps: seq<Piece>, dotenv: map<string, string>, env: map<string, string>)
    requires ps != []
    ensures Expand(ps, dotenv, env) == Prepend(ps[0], Expand(ps[1..], dotenv, env), dotenv, env)
  {
  }

  /** The substitution agrees with the piece-by-piece reading of the text. */
  lemma ResolveRendered(ps: seq<Piece>, dotenv: map<string, string>, env: map<string, string>)
    requires WellFormed(ps)
    ensures Resolve(Render(ps), dotenv, env) == Expand(ps, dotenv, env)
  {
    var s := Render(ps);
    assert s[0..] == s;
    ResolveRenderedAt(s, dotenv, env, 0, ps);
  }

  /**
   * The text from `from` on, cut at the occurrences `find()` reports: the
   * literal stretch before each one, the placeholder, and the literal tail.
   */
  function Split(s: string, from: nat): (ps: seq<Piece>)
    requires from <= |s|
    decreases |s| - from
  {
    match FindFrom(s, from)
    case None => [Text(s[from..])]
    case Some((i, j)) => [Text(s[from..i])] + ([Placeholder(s[i + 2..j])] + Split(s, j + 1))
  }

  /** The cut pieces spell the text and are well formed. */
  lemma {:induction false} SplitRendersAt(s: string, from: nat)
    requires from <= |s|
    ensures Render(Split(s, from)) == s[from..] && WellFormed(Split(s, from))
    decreases |s| - from
  {
    var whole := Split(s, from);
    match FindFrom(s, from)
    case None =>
      SplitTail(s, from, whole);
    case Some((i, j)) =>
      var t, k, next := s[from..i], s[i + 2..j], j + 1;
      var rest := Split(s, next);
      var mid := [Placeholder(k)] + rest;
      assert whole == [Text(t)] + mid;
      SplitRendersAt(s, next);
      FoundOccurrence(s, from, i, j, t, k, next);
      SplitStep(s, from, i, t, k, next, rest, mid, whole);
  }

  /** Text with no occurrence from `from` on is one well-formed literal piece. */
  lemma SplitTail(s: string, from: nat, whole: seq<Piece>)
    requires from <= |s| && FindFrom(s, from).None? && whole == Split(s, from)
    ensures Render(whole) == s[from..] && WellFormed(whole)
  {
    assert whole == [Text(s[from..])];
    FindIsLeftmostMatch(s, from);
    var t := s[from..];
    forall i, j | 0 <= i < |t|
      ensures !MatchAt(t + "", i, j)
    {
      assert t + "" == t;
      MatchShift(s, from, i, j);
    }
    ConsPieces(Text(t), [], [Text(t)]);
  }

  /** What `find()` reports from `from`: the literal stretch before it and the placeholder it spells. */
  lemma FoundOccurrence(s: string, from: nat, i: nat, j: nat, t: string, k: string, next: nat)
    requires from <= |s| && FindFrom(s, from) == Some((i, j))
    requires t == s[from..i] && k == s[i + 2..j] && next == j + 1
    ensures Fits(Text(t), s[i..]) && t + s[i..] == s[from..]
    ensures IsKey(k) && s[i..] == "${" + k + "}" + s[next..]
  {
    FindIsLeftmostMatch(s, from);
    OccurrenceSpelled(s, i, j, k, next);
    LiteralBefore(s, from, i, t);
  }

  /** A literal stretch and a placeholder in front of a well-formed, spelled-out rest. */
  lemma SplitStep(s: string, from: nat, i: nat, t: string, k: string, next: nat,
                  rest: seq<Piece>, mid: seq<Piece>, whole: seq<Piece>)
    requires from <= i <= next <= |s|
    requires Fits(Text(t), s[i..]) && t + s[i..] == s[from..]
    requires IsKey(k) && s[i..] == "${" + k + "}" + s[next..]
    requires Render(rest) == s[next..] && WellFormed(rest)
    requires mid == [Placeholder(k)] + rest && whole == [Text(t)] + mid
    ensures Render(whole) == s[from..] && WellFormed(whole)
  {
    ConsPieces(Placeholder(k), rest, mid);
    assert Render(mid) == s[i..];
    ConsPieces(Text(t), mid, whole);
  }

  /** An occurrence spells `${`, its key and `}`, followed by the rest of the text. */
  lemma OccurrenceSpelled(s: string, i: nat, j: nat, k: string, next: nat)
    requires MatchAt(s, i, j) && k == s[i + 2..j] && next == j + 1
    ensures IsKey(k) && s[i..] == "${" + k + "}" + s[next..]
  {
    assert s[i..next] == "${" + k + "}";
    assert s[i..] == s[i..next] + s[next..];
  }

  /** The stretch before the leftmost occurrence fits in front of it. */
  lemma LiteralBefore(s: string, from: nat, i: nat, t: string)
    requires from <= i <= |s| && t == s[from..i]
    requires forall p, q :: from <= p < i ==> !MatchAt(s, p, q)
    ensures Fits(Text(t), s[i..]) && t + s[i..] == s[from..]
  {
    assert t + s[i..] == s[from..];
    forall p, q | 0 <= p < |t|
      ensures !MatchAt(t + s[i..], p, q)
    {
      MatchShift(s, from, p, q);
    }
  }

  /** A piece sequence with a first piece: its spelling and its well-formedness, one piece at a time. */
  lemma ConsPieces(p: Piece, rest: seq<Piece>, ps: seq<Piece>)
    requires ps == [p] + rest
    ensures Render(ps) == RenderPiece(p) + Render(rest)
    ensures WellFormed(ps) <==> Fits(p, Render(rest)) && WellFormed(rest)
  {
    assert ps[0] == p && ps[1..] == rest;
  }

  /** Every text is the rendering of its well-formed pieces, so the piece-by-piece reading covers all of them. */
  lemma EveryTextSplits(s: string, dotenv: map<string, string>, env: map<string, string>)
    ensures Render(Split(s, 0)) == s && WellFormed(Split(s, 0))
    ensures Resolve(s, dotenv, env) == Expand(Split(s, 0), dotenv, env)
  {
    SplitRendersAt(s, 0);
    assert s[0..] == s;
    ResolveRendered(Split(s, 0), dotenv, env);
  }

  /** A text with no occurrence comes out unchanged and without warnings. */
  lemma NoPlaceholderUnchanged(s: string, dotenv: map<string, string>, env: map<string, string>)
    requires forall i, j :: !MatchAt(s, i, j)
    ensures Resolve(s, dotenv, env) == Resolution(s, [])
  {
    FindIsLeftmostMatch(s, 0);
    assert s[0..] == s;
  }

  // ----- The loop and the reference definition agree -----

  /** `ResolveFrom` unfolded once at an occurrence, with the key and the rest named. */
  lemma ResolveFromAt(s: string, dotenv: map<string, string>, env: map<string, string>, from: nat, i: nat, j: nat,
                      key: string, next: nat, rest: Resolution)
    requires from <= |s|
    requires FindFrom(s, from) == Some((i, j))
    requires key == s[i + 2..j] && next == j + 1 && ResolveFrom(s, dotenv, env, next) == rest
    ensures ResolveFrom(s, dotenv, env, from) ==
      match Lookup(dotenv, env, key)
      case Some(v) => Resolution(s[from..i] + v + rest.text, rest.unresolved)
      case None => Resolution(s[from..next] + rest.text, [key] + rest.unresolved)
  {
  }

  /** `ResolveLoop` unfolded once at an occurrence. */
  lemma ResolveLoopStep(config: string, dotenv: map<string, string>, env: map<string, string>,
                        sb: string, appendPos: nat, searchPos: nat, warnings: seq<string>, i: nat, j: nat)
    requires appendPos <= searchPos <= |config|
    requires FindFrom(config, searchPos) == Some((i, j))
    ensures ResolveLoop(config, dotenv, env, sb, appendPos, searchPos, warnings) ==
      match Lookup(dotenv, env, config[i + 2..j])
      case Some(v) => ResolveLoop(config, dotenv, env, sb + config[appendPos..i] + v, j + 1, j + 1, warnings)
      case None => ResolveLoop(config, dotenv, env, sb, appendPos, j + 1, warnings + [config[i + 2..j]])
  {
  }

  lemma Regroup(sb: string, c: string, a: nat, p: nat, i: nat, j: nat, v: string, r: string)
    requires a <= p <= i < j < |c|
    ensures sb + c[a..p] + (c[p..i] + v + r) == (sb + c[a..i] + v) + c[j + 1..j + 1] + r
    ensures sb + c[a..p] + (c[p..j + 1] + r) == sb + c[a..j + 1] + r
  {
    assert c[a..p] + c[p..i] == c[a..i];
    assert c[a..p] + c[p..j + 1] == c[a..j + 1];
  }

  lemma Associative<T>(a: seq<T>, b: seq<T>, c: seq<T>)
    ensures a + b + c == a + (b + c)
  {
  }

  lemma TailRegroup(sb: string, c: string, a: nat, p: nat)
    requires a <= p <= |c|
    ensures sb + c[a..p] + c[p..] == sb + c[a..]
  {
    assert c[a..p] + c[p..] == c[a..];
  }

  /** The loop state `(sb, appendPos, searchPos, warnings)` stands for this much of the result. */
  ghost function Finished(config: string, dotenv: map<string, string>, env: map<string, string>,
                          sb: string, appendPos: nat, searchPos: nat, warnings: seq<string>): (r: Resolution)
    requires appendPos <= searchPos <= |config|
  {
    Resolution(sb + config[appendPos..searchPos] + ResolveFrom(config, dotenv, env, searchPos).text,
               warnings + ResolveFrom(config, dotenv, env, searchPos).unresolved)
  }

  lemma LoopAgreesAtEnd(config: string, dotenv: map<string, string>, env: map<string, string>,
                        sb: string, appendPos: nat, searchPos: nat, warnings: seq<string>)
    requires appendPos <= searchPos <= |config|
    requires FindFrom(config, searchPos) == None
    ensures ResolveLoop(config, dotenv, env, sb, appendPos, searchPos, warnings) == Finished(config, dotenv, env, sb, appendPos, searchPos, warnings)
  {
    TailRegroup(sb, config, appendPos, searchPos);
  }

  /** A substituted occurrence: the state after it agrees, so the state before it does. */
  lemma LoopAgreesSubstituted(config: string, dotenv: map<string, string>, env: map<string, string>,
                              sb: string, appendPos: nat, searchPos: nat, warnings: seq<string>,
                              i: nat, j: nat, v: string, sb': string, next: nat)
    requires appendPos <= searchPos <= |config|
    requires FindFrom(config, searchPos) == Some((i, j))
    requires Lookup(dotenv, env, config[i + 2..j]) == Some(v)
    requires sb' == sb + config[appendPos..i] + v && next == j + 1
    requires ResolveLoop(config, dotenv, env, sb', next, next, warnings)
             == Finished(config, dotenv, env, sb', next, next, warnings)
    ensures ResolveLoop(config, dotenv, env, sb, appendPos, searchPos, warnings)
            == Finished(config, dotenv, env, sb, appendPos, searchPos, warnings)
  {
    ResolveLoopStep(config, dotenv, env, sb, appendPos, searchPos, warnings, i, j);
    var rest := ResolveFrom(config, dotenv, env, next);
    ResolveFromAt(config, dotenv, env, searchPos, i, j, config[i + 2..j], next, rest);
    Regroup(sb, config, appendPos, searchPos, i, j, v, rest.text);
  }

  /** An unresolved occurrence: the state after it agrees, so the state before it does. */
  lemma LoopAgreesUnresolved(config: string, dotenv: map<string, string>, env: map<string, string>,
                             sb: string, appendPos: nat, searchPos: nat, warnings: seq<string>,
                             i: nat, j: nat, warnings': seq<string>, next: nat)
    requires appendPos <= searchPos <= |config|
    requires FindFrom(config, searchPos) == Some((i, j))
    requires Lookup(dotenv, env, config[i + 2..j]) == None
    requires warnings' == warnings + [config[i + 2..j]] && next == j + 1
    requires ResolveLoop(config, dotenv, env, sb, appendPos, next, warnings')
             == Finished(config, dotenv, env, sb, appendPos, next, warnings')
    ensures ResolveLoop(config, dotenv, env, sb, appendPos, searchPos, warnings)
            == Finished(config, dotenv, env, sb, appendPos, searchPos, warnings)
  {
    ResolveLoopStep(config, dotenv, env, sb, appendPos, searchPos, warnings, i, j);
    var rest := ResolveFrom(config, dotenv, env, next);
    ResolveFromAt(config, dotenv, env, searchPos, i, j, config[i + 2..j], next, rest);
    Regroup(sb, config, appendPos, searchPos, i, j, "", rest.text);
    Associative(warnings, [config[i + 2..j]], rest.unresolved);
  }

  /** Whatever state the loop is in, finishing it gives the reference result. */
  lemma {:induction false} LoopAgreesWithResolve(config: string, dotenv: map<string, string>, env: map<string, string>,
                                                 sb: string, appendPos: nat, searchPos: nat, warnings: seq<string>)
    requires appendPos <= searchPos <= |config|
    ensures ResolveLoop(config, dotenv, env, sb, appendPos, searchPos, warnings)
            == Finished(config, dotenv, env, sb, appendPos, searchPos, warnings)
    decreases |config| - searchPos
  {
    match FindFrom(config, searchPos)
    case None =>
      LoopAgreesAtEnd(config, dotenv, env, sb, appendPos, searchPos, warnings);
    case Some((i, j)) =>
      var next := j + 1;
      match Lookup(dotenv, env, config[i + 2..j])
      case Some(v) =>
        var sb' := sb + config[appendPos..i] + v;
        LoopAgreesWithResolve(config, dotenv, env, sb', next, next, warnings);
        LoopAgreesSubstituted(config, dotenv, env, sb, appendPos, searchPos, warnings, i, j, v, sb', next);
      case None =>
        var warnings' := warnings + [config[i + 2..j]];
        LoopAgreesWithResolve(config, dotenv, env, sb, appendPos, next, warnings');
        LoopAgreesUnresolved(config, dotenv, env, sb, appendPos, searchPos, warnings, i, j, warnings', next);
  }

  /** Running the loop from its initial state gives the reference result. */
  lemma LoopComputesResolve(config: string, dotenv: map<string, string>, env: map<string, string>)
    ensures ResolveLoop(config, dotenv, env, "", 0, 0, []) == Resolve(config, dotenv, env)
  {
    LoopAgreesWithResolve(config, dotenv, env, "", 0, 0, []);
    assert config[0..0] == "";
  }

  // ----- Warnings -----

  /** One warning per unbound occurrence, in text order. */
  lemma {:induction false} WarningsFrom(s: string, dotenv: map<string, string>, env: map<string, string>, from: nat)
    requires from <= |s|
    ensures ResolveFrom(s, dotenv, env, from).unresolved == Unbound(Occurrences(s, from), dotenv, env)
    decreases |s| - from
  {
    match FindFrom(s, from)
    case None =>
    case Some((i, j)) =>
      WarningsFrom(s, dotenv, env, j + 1);
      var keys := Occurrences(s, from);
      assert keys[1..] == Occurrences(s, j + 1);
  }

  lemma WarningsAreUnboundOccurrences(s: string, dotenv: map<string, string>, env: map<string, string>)
    ensures Resolve(s, dotenv, env).unresolved == Unbound(Occurrences(s, 0), dotenv, env)
  {
    WarningsFrom(s, dotenv, env, 0);
  }

  /** When no key of the text is bound, every placeholder stays and each is warned about. */
  lemma {:induction false} UnboundKeptFrom(s: string, dotenv: map<string, string>, env: map<string, string>, from: nat)
    requires from <= |s|
    requires forall k <- Occurrences(s, from) :: k !in dotenv && k !in env
    ensures ResolveFrom(s, dotenv, env, from) == Resolution(s[from..], Occurrences(s, from))
    decreases |s| - from
  {
    match FindFrom(s, from)
    case None =>
    case Some((i, j)) =>
      var key, next := s[i + 2..j], j + 1;
      var keys, later := Occurrences(s, from), Occurrences(s, next);
      OccurrencesAt(s, from, i, j, key, next);
      UnboundTail(keys, key, later, dotenv, env);
      UnboundKeptFrom(s, dotenv, env, next);
      UnboundKeptStep(s, dotenv, env, from, i, j, key, next, keys, later);
  }

  /** `Occurrences` unfolded once at an occurrence. */
  lemma OccurrencesAt(s: string, from: nat, i: nat, j: nat, key: string, next: nat)
    requires from <= |s| && FindFrom(s, from) == Some((i, j))
    requires key == s[i + 2..j] && next == j + 1
    ensures Occurrences(s, from) == [key] + Occurrences(s, next)
  {
  }

  /** Keys none of which is bound: the first is unbound, and so are the rest. */
  lemma UnboundTail(keys: seq<string>, key: string, later: seq<string>,
                    dotenv: map<string, string>, env: map<string, string>)
    requires keys == [key] + later
    requires forall k <- keys :: k !in dotenv && k !in env
    ensures Lookup(dotenv, env, key).None?
    ensures forall k <- later :: k !in dotenv && k !in env
    ensures |keys| > 0 && keys[0] == key && keys[1..] == later
  {
    assert keys[0] == key && keys[0] in keys;
    assert keys[1..] == later;
    forall k <- later
      ensures k !in dotenv && k !in env
    {
      assert k in keys;
    }
  }

  /** An unbound occurrence in front of a remainder kept as it stands. */
  lemma UnboundKeptStep(s: string, dotenv: map<string, string>, env: map<string, string>, from: nat,
                        i: nat, j: nat, key: string, next: nat, keys: seq<string>, later: seq<string>)
    requires from <= |s| && FindFrom(s, from) == Some((i, j))
    requires key == s[i + 2..j] && next == j + 1 && Lookup(dotenv, env, key).None?
    requires |keys| > 0 && keys[0] == key && keys[1..] == later
    requires ResolveFrom(s, dotenv, env, next) == Resolution(s[next..], later)
    ensures ResolveFrom(s, dotenv, env, from) == Resolution(s[from..], keys)
  {
    var rest := ResolveFrom(s, dotenv, env, next);
    ResolveFromAt(s, dotenv, env, from, i, j, key, next, rest);
    KeptStep(s[from..], s[from..next], s[next..], key, keys, rest, Lookup(dotenv, env, key), s[from..i]);
  }

  /** One kept placeholder in front of a kept remainder. */
  lemma KeptStep(whole: string, head: string, tail: string, key: string, keys: seq<string>,
                 rest: Resolution, found: Option<string>, before: string)
    requires |keys| > 0 && keys[0] == key
    requires whole == head + tail && found.None? && rest == Resolution(tail, keys[1..])
    ensures (match found
             case Some(v) => Resolution(before + v + rest.text, rest.unresolved)
             case None => Resolution(head + rest.text, [key] + rest.unresolved))
            == Resolution(whole, keys)
  {
    assert keys == [key] + keys[1..];
  }

  lemma UnboundKeptLiterally(s: string, dotenv: map<string, string>, env: map<string, string>)
    requires forall k <- Occurrences(s, 0) :: k !in dotenv && k !in env
    ensures Resolve(s, dotenv, env) == Resolution(s, Occurrences(s, 0))
  {
    UnboundKeptFrom(s, dotenv, env, 0);
    assert s[0..] == s;
  }

  /** The environment is consulted only for keys the dotenv store lacks. */
  lemma {:induction false} EnvShadowedFrom(s: string, dotenv: map<string, string>, env1: map<string, string>, env2: map<string, string>, from: nat)
    requires from <= |s|
    requires forall k :: k !in dotenv ==> (k in env1 <==> k in env2)
    requires forall k :: k !in dotenv && k in env1 ==> env1[k] == env2[k]
    ensures ResolveFrom(s, dotenv, env1, from) == ResolveFrom(s, dotenv, env2, from)
    decreases |s| - from
  {
    match FindFrom(s, from)
    case None =>
    case Some((i, j)) =>
      var key, next := s[i + 2..j], j + 1;
      assert Lookup(dotenv, env1, key) == Lookup(dotenv, env2, key);
      EnvShadowedFrom(s, dotenv, env1, env2, next);
      var rest := ResolveFrom(s, dotenv, env1, next);
      ResolveFromAt(s, dotenv, env1, from, i, j, key, next, rest);
      ResolveFromAt(s, dotenv, env2, from, i, j, key, next, rest);
  }

  lemma EnvConsultedOnlyWithoutDotenv(s: string, dotenv: map<string, string>, env1: map<string, string>, env2: map<string, string>)
    requires forall k :: k !in dotenv ==> (k in env1 <==> k in env2)
    requires forall k :: k !in dotenv && k in env1 ==> env1[k] == env2[k]
    ensures Resolve(s, dotenv, env1) == Resolve(s, dotenv, env2)
  {
    EnvShadowedFrom(s, dotenv, env1, env2, 0);
  }

  // ----- Worked instances -----

  /** `port=${P}` under any stores: the bound value, or the text kept with one warning. */
  lemma PortResolves(s: string, dotenv: map<string, string>, env: map<string, string>)
    requires s == "port=${P}"
    ensures Resolve(s, dotenv, env) ==
      match Lookup(dotenv, env, "P")
      case Some(v) => Resolution("port=" + v, [])
      case None => Resolution("port=${P}", ["P"])
  {
    assert s[0..5] == "port=";
    assert s[5..9] == "${" + "P" + "}";
    var tail := ResolveFrom(s, dotenv, env, 9);
    assert tail == Resolution("", []);
    var mid := ResolveFrom(s, dotenv, env, 5);
    ResolvePlaceholderAt(s, dotenv, env, 5, "P", 9, tail);
    ResolveInertAt(s, dotenv, env, 0, "port=", 5, mid);
    PortStep(Lookup(dotenv, env, "P"), mid);
  }

  /** The `port=` prefix in front of the resolved placeholder. */
  lemma PortStep(found: Option<string>, mid: Resolution)
    requires mid == (match found
                     case Some(v) => Resolution(v + "", [])
                     case None => Resolution("${" + "P" + "}" + "", ["P"] + []))
    ensures Resolution("port=" + mid.text, mid.unresolved) ==
      match found
      case Some(v) => Resolution("port=" + v, [])
      case None => Resolution("port=${P}", ["P"])
  {
    match found
    case Some(v) => assert v + "" == v;
    case None =>
  }

  /** `port=${P}` with P only in the environment takes the environment's value. */
  lemma PortFromEnvExample(s: string, dotenv: map<string, string>, env: map<string, string>)
    requires s == "port=${P}" && dotenv == map[] && env == map["P" := "5001"]
    ensures Resolve(s, dotenv, env) == Resolution("port=5001", [])
  {
    assert Lookup(dotenv, env, "P") == Some("5001");
    PortResolves(s, dotenv, env);
  }

  /** `port=${P}` with P in both stores takes the dotenv value. */
  lemma PortFromDotenvExample(s: string, dotenv: map<string, string>, env: map<string, string>)
    requires s == "port=${P}" && dotenv == map["P" := "6001"] && env == map["P" := "5001"]
    ensures Resolve(s, dotenv, env) == Resolution("port=6001", [])
  {
    assert Lookup(dotenv, env, "P") == Some("6001");
    PortResolves(s, dotenv, env);
  }

  /** `port=${P}` with P in neither store is kept, with one warning. */
  lemma PortUnboundExample(s: string, dotenv: map<string, string>, env: map<string, string>)
    requires s == "port=${P}" && dotenv == map[] && env == map[]
    ensures Resolve(s, dotenv, env) == Resolution("port=${P}", ["P"])
  {
    assert Lookup(dotenv, env, "P") == None;
    PortResolves(s, dotenv, env);
  }

  /** `${}` has an empty name, so it is not a placeholder even when "" is bound. */
  lemma EmptyNameNotPlaceholder(dotenv: map<string, string>, env: map<string, string>)
    ensures Resolve("${}", dotenv, env) == Resolution("${}", [])
  {
    var s := "${}";
    assert s[0..3] == s;
    var tail := ResolveFrom(s, dotenv, env, 3);
    assert tail == Resolution("", []);
    ResolveInertAt(s, dotenv, env, 0, s, 3, tail);
  }

  /**
   * Substituted values are not scanned again: in `$${A}` with A bound to
   * `{B}` the result spells `${B}`, which stays although B is bound.
   */
  lemma SinglePassExample()
    ensures Resolve("$${A}", map["A" := "{B}"], map["B" := "x"]) == Resolution("${B}", [])
  {
    var d, e := map["A" := "{B}"], map["B" := "x"];
    var s := "$${A}";
    assert s[1..5] == "${" + "A" + "}";
    var tail := ResolveFrom(s, d, e, 5);
    assert tail == Resolution("", []);
    ResolvePlaceholderAt(s, d, e, 1, "A", 5, tail);
    assert MatchEndAt(s, 0).None?;
    ResolveFromSkipOne(s, d, e, 0, 1, ResolveFrom(s, d, e, 1));
  }
}
