/**
 * The three decision functions of the build configuration (vite.config.js):
 * the public base path, the chunk a module is bundled into, and which
 * bundler warnings are passed on.
 */
module ViteConfig {
  import opened Wrappers
  import opened Text

  // ---------------------------------------------------------------------------
  // `split` and its inverse

  /** `s.split(sep)` for a one-character separator: the pieces between separators, at least one. */
  function Split(s: string, sep: char): (r: seq<string>)
    ensures |r| >= 1
    decreases |s|
  {
    match Find(s, [sep], 0)
    case None => [s]
    case Some(i) => [s[..i]] + Split(s[i + 1..], sep)
  }

  /** `parts.join(sep)`. */
  function Join(parts: seq<string>, sep: char): string
    decreases |parts|
  {
    if |parts| == 0 then ""
    else if |parts| == 1 then parts[0]
    else parts[0] + [sep] + Join(parts[1..], sep)
  }

  /** No piece of a split contains the separator, and joining the pieces gives the string back. */
  lemma {:induction false} SplitJoin(s: string, sep: char)
    ensures forall i :: 0 <= i < |Split(s, sep)| ==> sep !in Split(s, sep)[i]
    ensures Join(Split(s, sep), sep) == s
    decreases |s|
  {
    FindSpec(s, [sep], 0);
    match Find(s, [sep], 0)
    case None =>
      forall k | 0 <= k < |s| ensures s[k] != sep {
        assert !StartsAt(s, k, [sep]);
      }
    case Some(i) =>
      forall k | 0 <= k < i ensures s[k] != sep {
        assert !StartsAt(s, k, [sep]);
      }
      SplitJoin(s[i + 1..], sep);
      var rest := Split(s[i + 1..], sep);
      assert s[i..i + 1] == [sep];
      assert s == s[..i] + [sep] + s[i + 1..];
      assert Split(s, sep) == [s[..i]] + rest;
      assert Join(Split(s, sep), sep) == s[..i] + [sep] + Join(rest, sep);
  }

  /** A separator-free first piece is split off whole. */
  lemma {:induction false} SplitFirst(head: string, sep: char, rest: string)
    requires sep !in head
    ensures Split(head + [sep] + rest, sep) == [head] + Split(rest, sep)
  {
    var s := head + [sep] + rest;
    assert StartsAt(s, |head|, [sep]) by { assert s[|head|..|head| + 1] == [sep]; }
    forall k | 0 <= k < |head| ensures !StartsAt(s, k, [sep]) {
      assert s[k] == head[k];
      assert s[k..k + 1][0] == s[k];
    }
    FindIs(s, [sep], 0, |head|);
    assert s[..|head|] == head;
    assert s[|head| + 1..] == rest;
  }

  /** A string without the separator is one piece. */
  lemma {:induction false} SplitNone(s: string, sep: char)
    requires sep !in s
    ensures Split(s, sep) == [s]
  {
    forall k | 0 <= k < |s| ensures !StartsAt(s, k, [sep]) {
      assert s[k] != sep;
    }
    FindSpec(s, [sep], 0);
  }

  // ---------------------------------------------------------------------------
  // getBase

  /** An environment variable as a condition: set and not empty. */
  predicate Truthy(v: Option<string>) {
    v.Some? && |v.value| > 0
  }

  /** `${x}` for an element that may be past the end of the array: `undefined` prints as such. */
  function Show(parts: seq<string>, i: nat): string {
    if i < |parts| then parts[i] else "undefined"
  }

  /** The public base path, from `GITHUB_REPOSITORY` (`owner/name`) first, then `VITE_BASE`, then the root. */
  function GetBase(githubRepository: Option<string>, viteBase: Option<string>): string {
    if Truthy(githubRepository) then "/" + Show(Split(githubRepository.value, '/'), 1) + "/"
    else if Truthy(viteBase) then viteBase.value
    else "/"
  }

  /** On GitHub Actions the base is the repository name between slashes, and `VITE_BASE` does not matter. */
  lemma {:induction false} GetBaseRepository(owner: string, name: string, viteBase: Option<string>)
    requires '/' !in owner && '/' !in name
    ensures GetBase(Some(owner + "/" + name), viteBase) == "/" + name + "/"
  {
    SplitFirst(owner, '/', name);
    SplitNone(name, '/');
    assert owner + "/" + name == owner + ['/'] + name;
  }

  /** Any other non-empty `GITHUB_REPOSITORY` still decides alone: the piece after its first slash, or "undefined" without one. */
  lemma {:induction false} GetBaseRepositoryFirst(repo: string, b1: Option<string>, b2: Option<string>)
    requires |repo| > 0
    ensures GetBase(Some(repo), b1) == GetBase(Some(repo), b2)
    ensures '/' !in repo ==> GetBase(Some(repo), b1) == "/undefined/"
  {
    if '/' !in repo {
      SplitNone(repo, '/');
    }
  }

  /** Without `GITHUB_REPOSITORY`, a non-empty `VITE_BASE` is taken verbatim, else the root. */
  lemma {:induction false} GetBaseFallback(githubRepository: Option<string>, viteBase: Option<string>)
    requires !Truthy(githubRepository)
    ensures Truthy(viteBase) ==> GetBase(githubRepository, viteBase) == viteBase.value
    ensures !Truthy(viteBase) ==> GetBase(githubRepository, viteBase) == "/"
  {
  }

  /** The base always starts with a slash, except when it is a `VITE_BASE` given without one. */
  lemma {:induction false} GetBaseShape(githubRepository: Option<string>, viteBase: Option<string>)
    ensures var b := GetBase(githubRepository, viteBase);
      |b| > 0 && (b[0] == '/' || (!Truthy(githubRepository) && Truthy(viteBase) && b == viteBase.value))
    ensures Truthy(githubRepository) ==> var b := GetBase(githubRepository, viteBase); 2 <= |b| && b[|b| - 1] == '/'
  {
  }

  // ---------------------------------------------------------------------------
  // manualChunks

  datatype Chunk = Three | Mediapipe | Vendor

  const ThreeDir: string := "node_modules/three"
  const MediapipeDir: string := "node_modules/@mediapipe"
  const NodeModules: string := "node_modules"

  /** The chunk a module id goes into; `None` leaves the choice to the bundler. */
  function ManualChunks(id: string): Option<Chunk> {
    if Contains(id, ThreeDir) then Some(Three)
    else if Contains(id, MediapipeDir) then Some(Mediapipe)
    else if Contains(id, NodeModules) then Some(Vendor)
    else None
  }

  /** Each chunk, by the substrings of the id, in priority order. */
  lemma {:induction false} ManualChunksSpec(id: string)
    ensures ManualChunks(id) == Some(Three) <==> Contains(id, ThreeDir)
    ensures ManualChunks(id) == Some(Mediapipe) <==> !Contains(id, ThreeDir) && Contains(id, MediapipeDir)
    ensures ManualChunks(id) == Some(Vendor) <==>
      !Contains(id, ThreeDir) && !Contains(id, MediapipeDir) && Contains(id, NodeModules)
  {
  }

  /** Exactly the ids inside `node_modules` get a chunk. */
  lemma {:induction false} ManualChunksNone(id: string)
    ensures ManualChunks(id).None? <==> !Contains(id, NodeModules)
  {
    if Contains(id, ThreeDir) {
      assert StartsAt(ThreeDir, 0, NodeModules);
      ContainsTransitive(id, ThreeDir, NodeModules, 0);
    } else if Contains(id, MediapipeDir) {
      assert StartsAt(MediapipeDir, 0, NodeModules);
      ContainsTransitive(id, MediapipeDir, NodeModules, 0);
    }
  }

  // ---------------------------------------------------------------------------
  // onwarn

  /** The fields of a bundler warning that the filter reads; either may be missing. */
  datatype Warning = Warning(code: Option<string>, message: Option<string>)

  /** What `onwarn` does with a warning: drops it, or calls `warn` once with it. */
  datatype Verdict = Suppress | Forward(warning: Warning)

  const SourcemapError: string := "SOURCEMAP_ERROR"
  const SourceMap: string := "source map"

  /** `warning.message?.includes('source map')`: false when there is no message. */
  predicate MentionsSourceMap(message: Option<string>) {
    message.Some? && Contains(message.value, SourceMap)
  }

  function OnWarn(w: Warning): Verdict {
    if w.code == Some(SourcemapError) || MentionsSourceMap(w.message) then Suppress else Forward(w)
  }

  /**
   * A warning is dropped exactly when its code is `SOURCEMAP_ERROR` or its
   * message has "source map" at some position; any other one is passed on
   * unchanged.
   */
  lemma {:induction false} OnWarnSpec(w: Warning)
    ensures OnWarn(w) == Suppress <==>
      w.code == Some(SourcemapError) || (w.message.Some? && exists k :: StartsAt(w.message.value, k, SourceMap))
    ensures OnWarn(w) != Suppress ==> OnWarn(w) == Forward(w)
  {
    if w.message.Some? {
      ContainsIff(w.message.value, SourceMap);
    }
  }

  /** A warning without a message is dropped only for its code. */
  lemma {:induction false} OnWarnNoMessage(code: Option<string>)
    ensures OnWarn(Warning(code, None)) == if code == Some(SourcemapError) then Suppress else Forward(Warning(code, None))
  {
  }
}
