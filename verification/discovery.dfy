/**
  Which file pairs the sync engine works on: the recursive walk of the repo directories,
  the repo directory a path falls under, and the pairs named on the command line or
  listed by git. Everything here reads a snapshot of the `Config` fields involved.
 */
module PairDiscovery {

  import opened Wrappers
  import opened Strs
  import opened ODict
  import opened PosixPath
  import opened FileSystem
  import opened SyncRules
  import opened Lists

  /**
    How the walk tests a path against `ignore_map`: `bin/syncfiles.py` asks `should_ignore`
    (an ignored path as a string prefix, or a glob pattern); the older `syncfiles/syncfiles.py`
    asks whether the path is itself a key.
   */
  datatype IgnoreRule = PrefixOrPattern | ExactPath

  /** What the pair queries read of a `Config`. */
  datatype Env = Env(
    disk: Disk,
    dirToSrc: Dict<Path, Path>,
    srcToDir: Dict<Path, string>,
    srcToSrc: Dict<Path, string>,
    ignoreMap: set<Path>,
    ignorePattern: set<string>,
    fnmatch: (string, string) -> bool,
    rule: IgnoreRule)

  /**
    `should_ignore`: the path starts with an ignored path (a plain string prefix), or
    matches an ignore pattern; under the older rule, `full_dir_file in self.ignore_map`.
   */
  predicate ShouldIgnore(e: Env, path: Path) {
    match e.rule
    case PrefixOrPattern =>
      (exists p :: p in e.ignoreMap && StartsWith(path, p))
      || (exists q :: q in e.ignorePattern && e.fnmatch(path, q))
    case ExactPath => path in e.ignoreMap
  }

  /** An ignored path hides everything whose name extends it. */
  lemma IgnoredExtends(e: Env, path: Path, p: Path, rest: string)
    requires e.rule == PrefixOrPattern && p in e.ignoreMap && StartsWith(path, p)
    ensures ShouldIgnore(e, path + rest)
  {
    assert (path + rest)[..|p|] == path[..|p|];
  }

  // ---------------------------------------------------------------------------------------
  // The walk of `discover_file_pairs`

  /** The directory searched for one mapping: its repo directory, or `rel` below it. */
  function SearchDir(dir: Path, rel: Option<Path>): Path {
    if rel.None? then dir else Join(dir, rel.value)
  }

  /** A listed name relative to the mapping's repo directory. */
  function RelFile(rel: Option<Path>, name: string): Path {
    if rel.None? then name else Join(rel.value, name)
  }

  /** `rel_src and rel_src != src`: the walk is restricted to another live directory. */
  predicate SkipSrc(relSrc: Option<Path>, src: Path) {
    relSrc.Some? && relSrc.value != "" && relSrc.value != src
  }

  /** How many components `rel` adds below the repo directory. */
  function Depth(rel: Option<Path>): nat {
    if rel.None? then 0 else |Comps(rel.value)|
  }

  /** How much deeper the walk can go: no directory on the disk is deeper than `MaxDepth`. */
  ghost function Budget(e: Env, rel: Option<Path>): nat {
    var b := MaxDepth(e.disk.nodes.Keys) + 1;
    if Depth(rel) < b then b - Depth(rel) else 0
  }

  /** A name the walk descends into exists as a directory, so one more level is within the budget. */
  lemma DescendBudget(e: Env, rel: Option<Path>, dir: Path, name: string)
    requires IsProperName(name) && e.disk.IsDir(Join(SearchDir(dir, rel), name))
    ensures Budget(e, Some(RelFile(rel, name))) < Budget(e, rel)
  {
    var sd := SearchDir(dir, rel);
    var full := Join(sd, name);
    assert name[0] in name;
    NameComps(name);
    JoinComps(sd, name);
    JoinComps(e.disk.cwd, full);
    if rel.Some? {
      JoinComps(dir, rel.value);
      JoinComps(rel.value, name);
    }
    assert e.disk.KeyOf(full) in e.disk.nodes.Keys;
  }

  /**
    `discover_file_pairs(rel, rel_src)` from the mapping entries `maps` on: the pairs below
    each entry's repo directory (or `rel` below it), in dictionary order.
   */
  function DiscoverAll(e: Env, rel: Option<Path>, relSrc: Option<Path>, maps: Dict<Path, Path>): seq<FilePair>
    requires e.disk.WellFormed()
    decreases Budget(e, rel), 3, |maps|
  {
    if maps == [] then []
    else
      var (dir, src) := maps[|maps| - 1];
      DiscoverAll(e, rel, relSrc, maps[..|maps| - 1]) + DiscoverMapping(e, rel, relSrc, dir, src)
  }

  /** One more mapping entry appends what it gives. */
  lemma DiscoverAllNext(e: Env, rel: Option<Path>, relSrc: Option<Path>, maps: Dict<Path, Path>, i: nat)
    requires e.disk.WellFormed() && i < |maps|
    ensures DiscoverAll(e, rel, relSrc, maps[..i + 1]) == DiscoverAll(e, rel, relSrc, maps[..i]) + DiscoverMapping(e, rel, relSrc, maps[i].0, maps[i].1)
  {
    assert maps[..i + 1][..i] == maps[..i];
  }

  /** One more listed name appends what it gives. */
  lemma DiscoverNamesNext(e: Env, rel: Option<Path>, dir: Path, src: Path, names: seq<string>, j: nat)
    requires e.disk.WellFormed() && j < |names|
    requires forall k :: 0 <= k < |names| ==> IsProperName(names[k])
    ensures DiscoverNames(e, rel, dir, src, names[..j + 1]) == DiscoverNames(e, rel, dir, src, names[..j]) + DiscoverName(e, rel, dir, src, names[j])
  {
    assert names[..j + 1][..j] == names[..j];
  }

  /** One mapping entry: skipped for another live directory or a missing search directory, else its listing. */
  function DiscoverMapping(e: Env, rel: Option<Path>, relSrc: Option<Path>, dir: Path, src: Path): seq<FilePair>
    requires e.disk.WellFormed()
    decreases Budget(e, rel), 2, 0
  {
    var searchDir := SearchDir(dir, rel);
    if SkipSrc(relSrc, src) || !e.disk.IsDir(searchDir) then []
    else
      assert ProperListing(e.disk.nodes[e.disk.KeyOf(searchDir)]);
      DiscoverNames(e, rel, dir, src, e.disk.Listing(searchDir))
  }

  /** The listed names of one search directory, in listing order. */
  function DiscoverNames(e: Env, rel: Option<Path>, dir: Path, src: Path, names: seq<string>): seq<FilePair>
    requires e.disk.WellFormed()
    requires forall i :: 0 <= i < |names| ==> IsProperName(names[i])
    decreases Budget(e, rel), 1, |names|
  {
    if names == [] then []
    else DiscoverNames(e, rel, dir, src, names[..|names| - 1]) + DiscoverName(e, rel, dir, src, names[|names| - 1])
  }

  /**
    One listed name: ignored paths and mapped repo roots are passed over, a directory is
    walked (with the live directory fixed to `src`), and any other name is a pair.
   */
  function DiscoverName(e: Env, rel: Option<Path>, dir: Path, src: Path, name: string): seq<FilePair>
    requires e.disk.WellFormed() && IsProperName(name)
    decreases Budget(e, rel), 0, 0
  {
    var full := Join(SearchDir(dir, rel), name);
    if ShouldIgnore(e, full) then []
    else if e.disk.IsDir(full) then
      if HasKey(e.dirToSrc, full) then []
      else
        DescendBudget(e, rel, dir, name);
        DiscoverAll(e, Some(RelFile(rel, name)), Some(src), e.dirToSrc)
    else if HasKey(e.dirToSrc, full) then []
    else [FilePair(dir, src, RelFile(rel, name))]
  }

  /** The walk passes over a directory that is itself a mapped repo root. */
  lemma StopsAtMappedRoot(e: Env, rel: Option<Path>, dir: Path, src: Path, name: string)
    requires e.disk.WellFormed() && IsProperName(name)
    requires HasKey(e.dirToSrc, Join(SearchDir(dir, rel), name))
    ensures DiscoverName(e, rel, dir, src, name) == []
  {
  }

  /** Where a listed name lands, as a path below its mapping's repo directory. */
  lemma FullIsDirFile(dir: Path, rel: Option<Path>, name: string)
    requires IsProperName(name)
    ensures Join(SearchDir(dir, rel), name) == Join(dir, RelFile(rel, name))
  {
    assert name[0] in name;
    if rel.Some? {
      JoinAssoc(dir, rel.value, name);
    }
  }

  /**
    What every discovered pair satisfies: it comes from a mapping entry, its repo-side file
    is neither ignored nor a mapped repo root nor a directory, and its relative path names
    at least one component.
   */
  predicate Sound(e: Env, x: FilePair) {
    (x.dir, x.src) in e.dirToSrc
    && !ShouldIgnore(e, x.DirFile())
    && !HasKey(e.dirToSrc, x.DirFile())
    && !e.disk.IsDir(x.DirFile())
    && Comps(x.rel) != []
  }

  /** The relative path of a pair found below `rel` extends `rel`, and is relative when `rel` is. */
  predicate Below(rel: Option<Path>, x: FilePair) {
    (rel.Some? ==> StartsWith(x.rel, rel.value))
    && ((rel.None? || !IsAbs(rel.value)) ==> !IsAbs(x.rel))
  }

  lemma {:induction false} DiscoverAllSound(e: Env, rel: Option<Path>, relSrc: Option<Path>, maps: Dict<Path, Path>, x: FilePair)
    requires e.disk.WellFormed() && maps <= e.dirToSrc
    requires x in DiscoverAll(e, rel, relSrc, maps)
    ensures Sound(e, x) && Below(rel, x) && !SkipSrc(relSrc, x.src)
    decreases Budget(e, rel), 3, |maps|
  {
    var (dir, src) := maps[|maps| - 1];
    if x in DiscoverAll(e, rel, relSrc, maps[..|maps| - 1]) {
      DiscoverAllSound(e, rel, relSrc, maps[..|maps| - 1], x);
    } else {
      assert maps[|maps| - 1] == e.dirToSrc[|maps| - 1];
      DiscoverMappingSound(e, rel, relSrc, dir, src, x);
    }
  }

  lemma {:induction false} DiscoverMappingSound(e: Env, rel: Option<Path>, relSrc: Option<Path>, dir: Path, src: Path, x: FilePair)
    requires e.disk.WellFormed() && (dir, src) in e.dirToSrc
    requires x in DiscoverMapping(e, rel, relSrc, dir, src)
    ensures Sound(e, x) && Below(rel, x) && !SkipSrc(relSrc, x.src)
    decreases Budget(e, rel), 2, 0
  {
    var searchDir := SearchDir(dir, rel);
    assert ProperListing(e.disk.nodes[e.disk.KeyOf(searchDir)]);
    DiscoverNamesSound(e, rel, dir, src, e.disk.Listing(searchDir), x);
  }

  lemma {:induction false} DiscoverNamesSound(e: Env, rel: Option<Path>, dir: Path, src: Path, names: seq<string>, x: FilePair)
    requires e.disk.WellFormed() && (dir, src) in e.dirToSrc
    requires forall i :: 0 <= i < |names| ==> IsProperName(names[i])
    requires x in DiscoverNames(e, rel, dir, src, names)
    ensures Sound(e, x) && Below(rel, x) && (src == "" || x.src == src)
    decreases Budget(e, rel), 1, |names|
  {
    if x in DiscoverNames(e, rel, dir, src, names[..|names| - 1]) {
      DiscoverNamesSound(e, rel, dir, src, names[..|names| - 1], x);
    } else {
      DiscoverNameSound(e, rel, dir, src, names[|names| - 1], x);
    }
  }

  lemma {:induction false} DiscoverNameSound(e: Env, rel: Option<Path>, dir: Path, src: Path, name: string, x: FilePair)
    requires e.disk.WellFormed() && (dir, src) in e.dirToSrc && IsProperName(name)
    requires x in DiscoverName(e, rel, dir, src, name)
    ensures Sound(e, x) && Below(rel, x) && (src == "" || x.src == src)
    decreases Budget(e, rel), 0, 0
  {
    var full := Join(SearchDir(dir, rel), name);
    var rf := RelFile(rel, name);
    RelFileBelow(rel, name);
    if e.disk.IsDir(full) {
      DescendBudget(e, rel, dir, name);
      DiscoverAllSound(e, Some(rf), Some(src), e.dirToSrc, x);
      if rel.Some? {
        StartsWithTrans(x.rel, rf, rel.value);
      }
    } else {
      FullIsDirFile(dir, rel, name);
      NameComps(name);
      if rel.Some? {
        assert name[0] in name;
        JoinComps(rel.value, name);
      }
    }
  }

  /** One more name below `rel` still extends `rel`, and stays relative. */
  lemma RelFileBelow(rel: Option<Path>, name: string)
    requires IsProperName(name)
    ensures rel.Some? ==> StartsWith(RelFile(rel, name), rel.value)
    ensures (rel.None? || !IsAbs(rel.value)) ==> !IsAbs(RelFile(rel, name))
  {
    assert name[0] in name;
    if rel.Some? {
      JoinExtends(rel.value, name);
      if !IsAbs(rel.value) && rel.value != "" {
        JoinStart(rel.value, name);
      }
    }
  }

  lemma StartsWithTrans(a: string, b: string, c: string)
    requires StartsWith(a, b) && StartsWith(b, c)
    ensures StartsWith(a, c)
  {
    assert a[..|c|] == a[..|b|][..|c|];
  }

  /** `discover_file_pairs()`: every pair it returns is sound. */
  lemma DiscoverSound(e: Env, x: FilePair)
    requires e.disk.WellFormed() && x in DiscoverAll(e, None, None, e.dirToSrc)
    ensures Sound(e, x) && !IsAbs(x.rel)
  {
    DiscoverAllSound(e, None, None, e.dirToSrc, x);
  }

  // ---------------------------------------------------------------------------------------
  // The repo directory a path falls under

  /**
    The mapping entry whose repo directory is the longest string prefix of `path`, as the
    loops of `construct_file_pairs` and `construct_git_pairs` pick it.
   */
  function LongestPrefix(maps: Dict<Path, Path>, path: Path): Option<(Path, Path)>
    decreases |maps|
  {
    if maps == [] then None
    else
      var r := LongestPrefix(maps[..|maps| - 1], path);
      var last := maps[|maps| - 1];
      if StartsWith(path, last.0) && (r.None? || |last.0| > |r.value.0|) then Some(last) else r
  }

  /** The entry found is a prefix of the path and no prefix entry is longer; None when no entry is a prefix. */
  lemma {:induction false} LongestPrefixIsLongest(maps: Dict<Path, Path>, path: Path)
    ensures var r := LongestPrefix(maps, path);
      && (r.Some? ==> r.value in maps && StartsWith(path, r.value.0))
      && (r.Some? ==> forall p :: p in maps && StartsWith(path, p.0) ==> |p.0| <= |r.value.0|)
      && (r.None? ==> forall p :: p in maps ==> !StartsWith(path, p.0))
    decreases |maps|
  {
    if maps != [] {
      var init := maps[..|maps| - 1];
      LongestPrefixIsLongest(init, path);
      assert maps == init + [maps[|maps| - 1]];
    }
  }

  /** `path[len(dir) + 1:]`: what follows the repo directory and its separator; empty when nothing does. */
  function RelAfter(path: Path, dir: Path): Path {
    if |dir| + 1 <= |path| then path[|dir| + 1..] else ""
  }

  // ---------------------------------------------------------------------------------------
  // `construct_file_pairs`

  /** The pair a file argument gives for one mapping: the first `dir/` in the path is cut out. */
  function FileArgPair(candidate: Path, dir: Path, src: Path): FilePair {
    FilePair(dir, src, ReplaceFirst(candidate, dir + "/", ""))
  }

  /** The mapping's repo directory is a string prefix of the path and both sides of its pair are files. */
  predicate FileArgHit(d: Disk, candidate: Path, dir: Path, src: Path) {
    StartsWith(candidate, dir)
    && d.IsFile(FileArgPair(candidate, dir, src).DirFile())
    && d.IsFile(FileArgPair(candidate, dir, src).SrcFile())
  }

  /** What one mapping gives an existing file argument. */
  function FileArgEntry(d: Disk, candidate: Path): ((Path, Path)) -> seq<FilePair> {
    (entry: (Path, Path)) => if FileArgHit(d, candidate, entry.0, entry.1) then [FileArgPair(candidate, entry.0, entry.1)] else []
  }

  /** An existing file argument: one pair for every mapping it hits, in dictionary order. */
  function FileArgPairs(d: Disk, candidate: Path, maps: Dict<Path, Path>): seq<FilePair> {
    Collect(maps, FileArgEntry(d, candidate))
  }

  /** Entry `i` of `expand_dir_to_src` is hit by the file argument and gives pair `x`. */
  predicate FileHit(d: Disk, candidate: Path, maps: Dict<Path, Path>, i: int, x: FilePair) {
    0 <= i < |maps| && FileArgHit(d, candidate, maps[i].0, maps[i].1) && x == FileArgPair(candidate, maps[i].0, maps[i].1)
  }

  /** The pairs of a file argument are exactly those of the mappings it hits. */
  lemma FileArgPairsIff(d: Disk, candidate: Path, maps: Dict<Path, Path>, x: FilePair)
    ensures x in FileArgPairs(d, candidate, maps) <==> exists i :: FileHit(d, candidate, maps, i, x)
  {
    CollectIn(maps, FileArgEntry(d, candidate), x);
    if x in FileArgPairs(d, candidate, maps) {
      var i :| GivenBy(maps, FileArgEntry(d, candidate), i, x);
      assert FileHit(d, candidate, maps, i, x);
    }
    if exists i :: FileHit(d, candidate, maps, i, x) {
      var i :| FileHit(d, candidate, maps, i, x);
      assert GivenBy(maps, FileArgEntry(d, candidate), i, x);
    }
  }

  /** When the path continues the repo directory with a `/`, the pair's repo-side file is the argument itself. */
  lemma FileArgAligned(candidate: Path, dir: Path, src: Path)
    requires dir != "" && !EndsInSlash(dir) && StartsWith(candidate, dir + "/")
    requires !IsAbs(candidate[|dir| + 1..])
    ensures FileArgPair(candidate, dir, src).rel == candidate[|dir| + 1..]
    ensures FileArgPair(candidate, dir, src).DirFile() == candidate
  {
    var rest := candidate[|dir| + 1..];
    assert candidate == (dir + "/") + rest;
  }

  /**
    When the repo directory is a prefix without a following `/`, nothing is cut out: the
    absolute argument is kept as the relative path, and both sides of the pair are the
    argument itself.
   */
  lemma FileArgUnaligned(candidate: Path, dir: Path, src: Path)
    requires IsAbs(candidate) && IndexOf(candidate, dir + "/").None?
    ensures FileArgPair(candidate, dir, src).DirFile() == candidate
    ensures FileArgPair(candidate, dir, src).SrcFile() == candidate
  {
  }

  /** A directory argument: the walk below it, from the mapping with the longest repo-directory prefix. */
  function DirArgPairs(e: Env, x: string): seq<FilePair>
    requires e.disk.WellFormed()
  {
    var candidate := if x == "." then e.disk.cwd else Join(e.disk.cwd, x);
    match LongestPrefix(e.dirToSrc, candidate)
    case None => []
    case Some((found, foundSrc)) =>
      if found == "" then []
      else DiscoverAll(e, Some(RelAfter(candidate, found)), Some(foundSrc), e.dirToSrc)
  }

  /** The directory a directory argument names. */
  function DirArgPath(e: Env, x: string): Path {
    if x == "." then e.disk.cwd else Join(e.disk.cwd, x)
  }

  /**
    Every pair a directory argument gives is sound, lies below the part of the argument
    that follows the longest mapped repo directory, and is taken from that mapping's live
    directory.
   */
  lemma DirArgSound(e: Env, x: string, y: FilePair)
    requires e.disk.WellFormed() && y in DirArgPairs(e, x)
    ensures var f := LongestPrefix(e.dirToSrc, DirArgPath(e, x));
      && f.Some? && f.value.0 != "" && Sound(e, y)
      && StartsWith(y.rel, RelAfter(DirArgPath(e, x), f.value.0))
      && (f.value.1 == "" || y.src == f.value.1)
  {
    var f := LongestPrefix(e.dirToSrc, DirArgPath(e, x));
    DiscoverAllSound(e, Some(RelAfter(DirArgPath(e, x), f.value.0)), Some(f.value.1), e.dirToSrc, y);
  }

  /** What one live directory gives a bare name: a pair when it holds a file of that relative name. */
  function NameArgEntry(d: Disk, x: string): ((Path, string)) -> seq<FilePair> {
    (entry: (Path, string)) => if d.IsFile(Join(entry.0, x)) then [FilePair(entry.1, entry.0, x)] else []
  }

  /** Any other argument: a pair for every live directory holding a file of that relative name. */
  function NameArgPairs(d: Disk, x: string, srcs: Dict<Path, string>): seq<FilePair> {
    Collect(srcs, NameArgEntry(d, x))
  }

  /** Entry `i` of `expand_src_to_dir` holds the name and gives pair `y`. */
  predicate NameHit(d: Disk, x: string, srcs: Dict<Path, string>, i: int, y: FilePair) {
    0 <= i < |srcs| && d.IsFile(Join(srcs[i].0, x)) && y == FilePair(srcs[i].1, srcs[i].0, x)
  }

  /** The pairs of a bare name are exactly the live directories holding it, each with its unexpanded `dirmap` key. */
  lemma NameArgPairsIff(d: Disk, x: string, srcs: Dict<Path, string>, y: FilePair)
    ensures y in NameArgPairs(d, x, srcs) <==> exists i :: NameHit(d, x, srcs, i, y)
  {
    CollectIn(srcs, NameArgEntry(d, x), y);
    if y in NameArgPairs(d, x, srcs) {
      var i :| GivenBy(srcs, NameArgEntry(d, x), i, y);
      assert NameHit(d, x, srcs, i, y);
    }
    if exists i :: NameHit(d, x, srcs, i, y) {
      var i :| NameHit(d, x, srcs, i, y);
      assert GivenBy(srcs, NameArgEntry(d, x), i, y);
    }
  }

  /**
    A bare name that ends as a directory (`""`, `f/`, `f/.`) gives no pair: joined onto a live
    directory it still ends that way, and `isfile` is false on such a path.
   */
  lemma NameArgEndsAsDir(d: Disk, x: string, srcs: Dict<Path, string>)
    requires EndsAsDir(x)
    ensures NameArgPairs(d, x, srcs) == []
  {
    ProperBasename(x);
    forall i | 0 <= i < |srcs|
      ensures NameArgEntry(d, x)(srcs[i]) == []
    {
      JoinBasename(srcs[i].0, x);
      ProperBasename(Join(srcs[i].0, x));
    }
    CollectNothing(srcs, NameArgEntry(d, x));
  }

  /** One command-line argument: a file, a directory, or a name looked up in every live directory. */
  function ArgPairs(e: Env, x: string): seq<FilePair>
    requires e.disk.WellFormed()
  {
    if e.disk.IsFile(x) then FileArgPairs(e.disk, Join(e.disk.cwd, x), e.dirToSrc)
    else if e.disk.IsDir(x) then DirArgPairs(e, x)
    else NameArgPairs(e.disk, x, e.srcToDir)
  }

  /** The empty argument is neither a file nor a directory, and no live directory holds it: it gives no pair. */
  lemma EmptyArgNoPairs(e: Env)
    requires e.disk.WellFormed()
    ensures ArgPairs(e, "") == []
  {
    NameArgEndsAsDir(e.disk, "", e.srcToDir);
  }

  /** `f/` for a regular file `f` is neither a file nor a directory, and no live directory holds it: it gives no pair. */
  lemma SlashedFileArgNoPairs(e: Env, f: Path)
    requires e.disk.WellFormed() && e.disk.IsFile(f)
    ensures ArgPairs(e, f + "/") == []
  {
    SlashKey(e.disk, f);
    NameArgEndsAsDir(e.disk, f + "/", e.srcToDir);
  }

  /** `construct_file_pairs(files)`: the pairs of each argument in turn. */
  function FilesPairs(e: Env, files: seq<string>): seq<FilePair>
    requires e.disk.WellFormed()
    decreases |files|
  {
    if files == [] then []
    else FilesPairs(e, files[..|files| - 1]) + ArgPairs(e, files[|files| - 1])
  }

  // ---------------------------------------------------------------------------------------
  // `construct_git_pairs`

  /** One path git lists: a pair from the mapping with the longest repo-directory prefix, unless ignored. */
  function GitPair(e: Env, one: Path): seq<FilePair> {
    var full := Join(e.disk.cwd, one);
    match LongestPrefix(e.dirToSrc, full)
    case None => []
    case Some((found, src)) =>
      if found == "" || ShouldIgnore(e, full) then [] else [FilePair(found, src, RelAfter(full, found))]
  }

  /** `construct_git_pairs`: the pairs of the listed paths, in order. */
  function GitPairs(e: Env, files: seq<Path>): seq<FilePair> {
    Collect(files, GitEntry(e))
  }

  function GitEntry(e: Env): Path -> seq<FilePair> {
    (one: Path) => GitPair(e, one)
  }

  /**
    Every pair from git comes from a listed path that is not ignored, under the mapping with
    the longest repo-directory prefix, with the rest of the path after that directory's `/`.
   */
  lemma GitPairsFrom(e: Env, files: seq<Path>, y: FilePair)
    requires y in GitPairs(e, files)
    ensures exists i :: 0 <= i < |files| && GitSource(e, files[i], y)
  {
    CollectIn(files, GitEntry(e), y);
    var i :| GivenBy(files, GitEntry(e), i, y);
    assert GitSource(e, files[i], y);
  }

  /** `y` is the pair git's path `one` gives. */
  predicate GitSource(e: Env, one: Path, y: FilePair) {
    var full := Join(e.disk.cwd, one);
    LongestPrefix(e.dirToSrc, full) == Some((y.dir, y.src)) && y.dir != ""
    && !ShouldIgnore(e, full) && y.rel == RelAfter(full, y.dir)
  }

  // ---------------------------------------------------------------------------------------
  // `list_file_pairs`

  /**
    The pairs a command works on: git's listing when a work-tree top is known (None when the
    listing failed and `construct_git_pairs` stops on its unset variable), else the
    command-line arguments, else the whole walk.
   */
  function ListPairs(e: Env, gitRoot: Option<Path>, files: seq<string>, gitFiles: Option<seq<Path>>): Option<seq<FilePair>>
    requires e.disk.WellFormed()
  {
    if gitRoot.Some? && gitRoot.value != "" then
      if gitFiles.None? then None else Some(GitPairs(e, gitFiles.value))
    else if files != [] then Some(FilesPairs(e, files))
    else Some(DiscoverAll(e, None, None, e.dirToSrc))
  }

  /** The live directory of a pair can be shown: it is a key of both display dictionaries. */
  predicate Displayable(e: Env, src: Path) {
    HasKey(e.srcToDir, src) && HasKey(e.srcToSrc, src)
  }

  /** What `expand_dirs` guarantees the display lookups: every live directory of the mappings is displayable. */
  ghost predicate Agrees(e: Env) {
    (forall p :: p in e.dirToSrc ==> Displayable(e, p.1))
    && (forall k :: HasKey(e.srcToDir, k) ==> HasKey(e.srcToSrc, k))
  }

  /** No pair a command works on makes `display_dir_file` or `display_src_file` fail their lookups. */
  lemma ListPairsDisplayable(e: Env, gitRoot: Option<Path>, files: seq<string>, gitFiles: Option<seq<Path>>, y: FilePair)
    requires e.disk.WellFormed() && Agrees(e)
    requires ListPairs(e, gitRoot, files, gitFiles).Some? && y in ListPairs(e, gitRoot, files, gitFiles).value
    ensures Displayable(e, y.src)
  {
    if gitRoot.Some? && gitRoot.value != "" {
      GitPairsFrom(e, gitFiles.value, y);
      var i :| 0 <= i < |gitFiles.value| && GitSource(e, gitFiles.value[i], y);
      LongestPrefixIsLongest(e.dirToSrc, Join(e.disk.cwd, gitFiles.value[i]));
    } else if files != [] {
      FilesPairsDisplayable(e, files, y);
    } else {
      DiscoverSound(e, y);
    }
  }

  lemma {:induction false} FilesPairsDisplayable(e: Env, files: seq<string>, y: FilePair)
    requires e.disk.WellFormed() && Agrees(e) && y in FilesPairs(e, files)
    ensures Displayable(e, y.src)
    decreases |files|
  {
    var init := files[..|files| - 1];
    var x := files[|files| - 1];
    if y in FilesPairs(e, init) {
      FilesPairsDisplayable(e, init, y);
    } else if e.disk.IsFile(x) {
      FileArgPairsIff(e.disk, Join(e.disk.cwd, x), e.dirToSrc, y);
      var i :| FileHit(e.disk, Join(e.disk.cwd, x), e.dirToSrc, i, y);
      assert e.dirToSrc[i] in e.dirToSrc;
    } else if e.disk.IsDir(x) {
      DirArgSound(e, x, y);
    } else {
      NameArgPairsIff(e.disk, x, e.srcToDir, y);
      var i :| NameHit(e.disk, x, e.srcToDir, i, y);
      assert Keys(e.srcToDir)[i] == y.src;
    }
  }

  /** `display_dir_file` / `display_src_file` without the padding: the `dirmap` side as written, joined with the relative path. */
  function Shown(names: Dict<Path, string>, x: FilePair): string
    requires HasKey(names, x.src)
  {
    var d := Get(names, x.src).value;
    if d == "." then x.rel else Join(d, x.rel)
  }
}
