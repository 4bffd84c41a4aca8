/**
  The `Config` object of the file-tree sync engine: it finds `.syncfiles` above the working
  directory, expands the `dirmap` into its three dictionaries and the ignore lists, turns
  the command line into file pairs, and runs the status and copy commands over them.
 */
module SyncFiles {

  import opened Wrappers
  import opened Strs
  import opened ODict
  import opened PosixPath
  import opened FileSystem
  import opened SyncRules
  import opened Lists
  import opened PairDiscovery

  /** The command-line options the engine reads. */
  datatype Args = Args(all: bool, force: bool, execute: bool, verbose: bool, nogit: bool, files: seq<string>)

  /**
    `.syncfiles` once parsed: the `dirmap` (repo directory relative to the base, live
    directory), the optional `ignore` list, and the `validate` expression with the truth
    value it evaluates to.
   */
  datatype Defs = Defs(dirmap: Dict<string, string>, ignore: Option<seq<string>>, validate: Option<(string, bool)>)

  /** Whether the program is still running, has called `exit`, or has stopped on an uncaught exception. */
  datatype Outcome = Running | Exited(code: int) | Crashed

  /** The three dictionaries `expand_dirs` builds. */
  datatype Maps = Maps(dirToSrc: Dict<Path, Path>, srcToDir: Dict<Path, string>, srcToSrc: Dict<Path, string>)

  const ConfigName: string := ".syncfiles"
  const NotFoundLine: string := "Couldn't locate a .syncfile"
  const PreviewLine: string := "Preview mode. Files were not copied, add --execute option to copy"
  const UpToDateLine: string := "All up to date"

  /** The file looked for in the directory that `comps` joined with `/` names. */
  function Candidate(comps: seq<string>): Path {
    Join(JoinWith(comps, "/"), ConfigName)
  }

  /**
    The lookup of `find_config_file`: the working directory's `/`-separated parts, cut
    back one at a time until the directory they name holds `.syncfiles`.
   */
  function FindBase(has: seq<string> -> bool, comps: seq<string>): Option<seq<string>>
    decreases |comps|
  {
    if comps == [] then None
    else if has(comps) then Some(comps)
    else FindBase(has, comps[..|comps| - 1])
  }

  /** Whether the directory `comps` names holds `.syncfiles` on disk `d`. */
  function HasConfig(d: Disk): seq<string> -> bool {
    (comps: seq<string>) => d.IsFile(Candidate(comps))
  }

  /**
    The configuration found is the nearest one: a non-empty prefix of the parts whose
    directory holds `.syncfiles` while no longer prefix does; None when no prefix does.
   */
  lemma {:induction false} FindBaseNearest(has: seq<string> -> bool, comps: seq<string>)
    ensures var r := FindBase(has, comps);
      && (r.Some? ==> 0 < |r.value| <= |comps| && r.value == comps[..|r.value|] && has(r.value))
      && (r.Some? ==> forall k :: |r.value| < k <= |comps| ==> !has(comps[..k]))
      && (r.None? ==> forall k :: 0 < k <= |comps| ==> !has(comps[..k]))
    decreases |comps|
  {
    if comps != [] {
      var n := |comps| - 1;
      assert comps[..|comps|] == comps;
      if !has(comps) {
        FindBaseNearest(has, comps[..n]);
        forall k | 0 < k <= n ensures comps[..n][..k] == comps[..k] {
        }
      }
    }
  }

  /** The run goes on past `validate_config`: no `validate`, a true one, or `--force`. */
  predicate Proceeds(validate: Option<(string, bool)>, force: bool) {
    validate.None? || validate.value.1 || force
  }

  /** A `dirmap` key as a repo directory: `.` is the base directory itself. */
  function ExpandDir(basedir: Path, dir: string): Path {
    if dir == "." then basedir else Join(basedir, dir)
  }

  /** Every repo directory's live directory is a key of the other two dictionaries. */
  ghost predicate MapsAgree(m: Maps) {
    forall k :: AgreeAt(m, k)
  }

  ghost predicate AgreeAt(m: Maps, k: Path) {
    (HasKey(m.dirToSrc, k) ==> HasKey(m.srcToDir, Get(m.dirToSrc, k).value))
    && (HasKey(m.srcToDir, k) <==> HasKey(m.srcToSrc, k))
  }

  /** One `dirmap` entry entered into the three dictionaries. */
  function ExpandStep(m: Maps, basedir: Path, home: Path, entry: (string, string)): Maps {
    var (dir, src) := entry;
    var ed := ExpandDir(basedir, dir);
    var es := ExpandUser(home, src);
    Maps(Put(m.dirToSrc, ed, es), Put(m.srcToDir, es, dir), Put(m.srcToSrc, es, src))
  }

  /** `expand_dirs` over the `dirmap` entries in order; a later entry overwrites an earlier one with the same key. */
  function Expanded(basedir: Path, home: Path, dirmap: Dict<string, string>): Maps
    decreases |dirmap|
  {
    if dirmap == [] then Maps([], [], [])
    else ExpandStep(Expanded(basedir, home, dirmap[..|dirmap| - 1]), basedir, home, dirmap[|dirmap| - 1])
  }

  /** Entering one mapping keeps every live directory a key of the other two dictionaries. */
  lemma ExpandStepAgrees(m: Maps, basedir: Path, home: Path, entry: (string, string))
    requires MapsAgree(m)
    ensures MapsAgree(ExpandStep(m, basedir, home, entry))
  {
    var (dir, src) := entry;
    var ed := ExpandDir(basedir, dir);
    var es := ExpandUser(home, src);
    var r := ExpandStep(m, basedir, home, entry);
    forall k ensures AgreeAt(r, k) {
      assert AgreeAt(m, k);
      GetPut(m.dirToSrc, ed, es, k);
      GetPut(m.srcToDir, es, dir, k);
      GetPut(m.srcToSrc, es, src, k);
      if HasKey(r.dirToSrc, k) {
        GetPut(m.srcToDir, es, dir, Get(r.dirToSrc, k).value);
      }
    }
  }

  /** No repo directory is entered twice, as in any Python dict. */
  lemma {:induction false} ExpandedDistinct(basedir: Path, home: Path, dirmap: Dict<string, string>)
    ensures Distinct(Expanded(basedir, home, dirmap).dirToSrc)
    decreases |dirmap|
  {
    if dirmap != [] {
      var m := Expanded(basedir, home, dirmap[..|dirmap| - 1]);
      ExpandedDistinct(basedir, home, dirmap[..|dirmap| - 1]);
      var (dir, src) := dirmap[|dirmap| - 1];
      PutDistinct(m.dirToSrc, ExpandDir(basedir, dir), ExpandUser(home, src));
    }
  }

  lemma ExpandedPrefix(basedir: Path, home: Path, dirmap: Dict<string, string>, i: nat)
    requires i < |dirmap|
    ensures Expanded(basedir, home, dirmap[..i + 1]) == ExpandStep(Expanded(basedir, home, dirmap[..i]), basedir, home, dirmap[i])
  {
    assert dirmap[..i + 1][..i] == dirmap[..i];
  }

  /** The dictionaries `expand_dirs` builds agree with each other and hold no key twice. */
  lemma {:induction false} ExpandedAgrees(basedir: Path, home: Path, dirmap: Dict<string, string>)
    ensures MapsAgree(Expanded(basedir, home, dirmap))
    decreases |dirmap|
  {
    if dirmap != [] {
      ExpandedAgrees(basedir, home, dirmap[..|dirmap| - 1]);
      ExpandStepAgrees(Expanded(basedir, home, dirmap[..|dirmap| - 1]), basedir, home, dirmap[|dirmap| - 1]);
    }
  }

  /** Each `dirmap` key expanded against the base directory, in order. */
  function RepoDirs(basedir: Path, dirmap: Dict<string, string>): (r: seq<Path>)
    ensures |r| == |dirmap|
  {
    seq(|dirmap|, i requires 0 <= i < |dirmap| => ExpandDir(basedir, dirmap[i].0))
  }

  lemma ExpandStepKeys(basedir: Path, home: Path, dirmap: Dict<string, string>, k: Path)
    requires dirmap != []
    requires HasKey(Expanded(basedir, home, dirmap[..|dirmap| - 1]).dirToSrc, k) <==> k in RepoDirs(basedir, dirmap[..|dirmap| - 1])
    ensures HasKey(Expanded(basedir, home, dirmap).dirToSrc, k) <==> k in RepoDirs(basedir, dirmap)
  {
    var init := dirmap[..|dirmap| - 1];
    var (dir, src) := dirmap[|dirmap| - 1];
    GetPut(Expanded(basedir, home, init).dirToSrc, ExpandDir(basedir, dir), ExpandUser(home, src), k);
    RepoDirsLast(basedir, dirmap);
  }

  lemma RepoDirsLast(basedir: Path, dirmap: Dict<string, string>)
    requires dirmap != []
    ensures RepoDirs(basedir, dirmap) == RepoDirs(basedir, dirmap[..|dirmap| - 1]) + [ExpandDir(basedir, dirmap[|dirmap| - 1].0)]
  {
  }

  /** The repo directories are exactly the expanded `dirmap` keys. */
  lemma {:induction false} ExpandedKeys(basedir: Path, home: Path, dirmap: Dict<string, string>, k: Path)
    ensures HasKey(Expanded(basedir, home, dirmap).dirToSrc, k) <==> k in RepoDirs(basedir, dirmap)
    decreases |dirmap|
  {
    if dirmap != [] {
      ExpandedKeys(basedir, home, dirmap[..|dirmap| - 1], k);
      ExpandStepKeys(basedir, home, dirmap, k);
    }
  }

  /**
    The ignore pass of `expand_dirs`: `ignore_map` starts with the configuration file, and
    each entry that exists under the base goes there; the others are kept as patterns.
   */
  function Ignores(d: Disk, basedir: Path, entries: seq<string>): (set<Path>, set<string>)
    decreases |entries|
  {
    if entries == [] then ({Join(basedir, ConfigName)}, {})
    else
      var (paths, patterns) := Ignores(d, basedir, entries[..|entries| - 1]);
      var e := entries[|entries| - 1];
      if d.Exists(Join(basedir, e)) then (paths + {Join(basedir, e)}, patterns)
      else (paths, patterns + {e})
  }

  lemma IgnoresNext(d: Disk, basedir: Path, entries: seq<string>, j: nat)
    requires j < |entries|
    ensures var (paths, patterns) := Ignores(d, basedir, entries[..j]);
      Ignores(d, basedir, entries[..j + 1]) ==
        if d.Exists(Join(basedir, entries[j])) then (paths + {Join(basedir, entries[j])}, patterns)
        else (paths, patterns + {entries[j]})
  {
    assert entries[..j + 1][..j] == entries[..j];
  }

  lemma {:induction false} IgnoresKeepsConfig(d: Disk, basedir: Path, entries: seq<string>)
    ensures Join(basedir, ConfigName) in Ignores(d, basedir, entries).0
    decreases |entries|
  {
    if entries != [] {
      IgnoresKeepsConfig(d, basedir, entries[..|entries| - 1]);
    }
  }

  /**
    Every ignore entry lands in exactly one place: its path in `ignore_map` when it exists,
    the entry itself in `ignore_pattern` when it does not; nothing else is added.
   */
  lemma {:induction false} IgnoresSort(d: Disk, basedir: Path, entries: seq<string>)
    ensures forall e :: e in entries && d.Exists(Join(basedir, e)) ==> Join(basedir, e) in Ignores(d, basedir, entries).0
    ensures forall e :: e in Ignores(d, basedir, entries).1 <==> e in entries && !d.Exists(Join(basedir, e))
    ensures forall p :: p in Ignores(d, basedir, entries).0 ==>
      p == Join(basedir, ConfigName) || exists e :: e in entries && d.Exists(Join(basedir, e)) && p == Join(basedir, e)
    decreases |entries|
  {
    if entries != [] {
      var init := entries[..|entries| - 1];
      var last := entries[|entries| - 1];
      IgnoresSort(d, basedir, init);
      assert entries == init + [last];
      assert forall e :: e in entries <==> e in init || e == last;
    }
  }

  /** The `ignore` entries, none when the key is absent. */
  function IgnoreList(defs: Defs): seq<string> {
    match defs.ignore
    case None => []
    case Some(l) => l
  }

  /** `expand_dirs` leaves every live directory displayable, since its three dictionaries agree. */
  lemma MapsAgreeDisplayable(e: Env)
    requires MapsAgree(Maps(e.dirToSrc, e.srcToDir, e.srcToSrc)) && Distinct(e.dirToSrc)
    ensures Agrees(e)
  {
    var m := Maps(e.dirToSrc, e.srcToDir, e.srcToSrc);
    forall p | p in e.dirToSrc ensures Displayable(e, p.1) {
      var i :| 0 <= i < |e.dirToSrc| && e.dirToSrc[i] == p;
      GetEntry(e.dirToSrc, i);
      assert Keys(e.dirToSrc)[i] == p.0;
      assert AgreeAt(m, p.0) && AgreeAt(m, p.1);
    }
    forall k | HasKey(e.srcToDir, k) ensures HasKey(e.srcToSrc, k) {
      assert AgreeAt(m, k);
    }
  }

  /** The pairs a copying command goes through: all of them for `install`, those whose live file exists otherwise. */
  function Selected(cmd: Command, d: Disk, xs: seq<FilePair>): seq<FilePair> {
    if cmd == Install then xs else Existing(d, xs)
  }

  /** What `execute_warning` prints: a blank line and the preview notice, unless `--execute`. */
  function WarningLines(execute: bool): (r: seq<string>)
    ensures r == [] <==> execute
  {
    if execute then [] else ["", PreviewLine]
  }

  /** The line `output_status` prints for one pair, if any. */
  function StatusEntry(e: Env, hash: Content -> Digest, all: bool): FilePair -> seq<string> {
    (x: FilePair) =>
      if !Displayable(e, x.src) then []
      else
        var s := FormatStatus(e.disk, hash, all, x, Shown(e.srcToDir, x), Shown(e.srcToSrc, x));
        if s == "" then [] else [s]
  }

  /** The lines `output_status` prints over a list of pairs. */
  function StatusLines(e: Env, hash: Content -> Digest, all: bool, xs: seq<FilePair>): seq<string> {
    Collect(xs, StatusEntry(e, hash, all))
  }

  /**
    `cmd_status`: the lines of the pairs whose live file exists, then of those whose live
    file is missing, then `All up to date` when nothing was printed and `--all` is off.
   */
  function StatusReport(e: Env, hash: Content -> Digest, all: bool, xs: seq<FilePair>): seq<string> {
    WithUpToDate(StatusLines(e, hash, all, Existing(e.disk, xs)) + StatusLines(e, hash, all, Missing(e.disk, xs)), all)
  }

  function WithUpToDate(lines: seq<string>, all: bool): seq<string> {
    lines + (if lines == [] && !all then [UpToDateLine] else [])
  }

  /** Over displayable pairs and without `--all`, no status line is printed exactly when every pair matches. */
  lemma StatusLinesEmpty(e: Env, hash: Content -> Digest, xs: seq<FilePair>)
    requires forall x :: x in xs ==> Displayable(e, x.src)
    ensures StatusLines(e, hash, false, xs) == [] <==> forall x :: x in xs ==> IsMatch(e.disk, hash, x)
  {
    var f := StatusEntry(e, hash, false);
    if StatusLines(e, hash, false, xs) == [] {
      forall x | x in xs ensures IsMatch(e.disk, hash, x) {
        var i :| 0 <= i < |xs| && xs[i] == x;
        var s := FormatStatus(e.disk, hash, false, x, Shown(e.srcToDir, x), Shown(e.srcToSrc, x));
        if s != "" {
          assert s in f(xs[i]);
          CollectIn(xs, f, s);
          assert GivenBy(xs, f, i, s);
        }
      }
    } else {
      var s := StatusLines(e, hash, false, xs)[0];
      CollectIn(xs, f, s);
      var i :| GivenBy(xs, f, i, s);
      assert xs[i] in xs;
    }
  }

  /**
    Without `--all`, `cmd_status` prints `All up to date` and nothing else exactly when every
    pair matches; a pair whose live file is missing never does.
   */
  lemma StatusUpToDate(e: Env, hash: Content -> Digest, xs: seq<FilePair>)
    requires forall x :: x in xs ==> Displayable(e, x.src)
    ensures StatusReport(e, hash, false, xs) == [UpToDateLine] <==> forall x :: x in xs ==> IsMatch(e.disk, hash, x)
  {
    var ex := Existing(e.disk, xs);
    var mi := Missing(e.disk, xs);
    forall x | x in ex || x in mi ensures x in xs {
      ExistingMissing(e.disk, xs, x);
    }
    var a := StatusLines(e, hash, false, ex);
    var b := StatusLines(e, hash, false, mi);
    StatusLinesEmpty(e, hash, ex);
    StatusLinesEmpty(e, hash, mi);
    forall s | s in a + b ensures |s| >= 2 && s[1] == ' ' {
      if s in a {
        StatusLineShape(e, hash, false, ex, s);
      } else {
        StatusLineShape(e, hash, false, mi, s);
      }
    }
    UpToDateOnlyWhenEmpty(a + b);
    assert a + b == [] <==> a == [] && b == [];
    forall x | x in xs ensures x in ex || x in mi {
      ExistingMissing(e.disk, xs, x);
    }
  }

  /** A list of status lines followed by the up-to-date notice is the notice alone only when the list is empty. */
  lemma UpToDateOnlyWhenEmpty(lines: seq<string>)
    requires forall s :: s in lines ==> |s| >= 2 && s[1] == ' '
    ensures WithUpToDate(lines, false) == [UpToDateLine] <==> lines == []
  {
    if lines != [] {
      UpToDateShape();
      assert lines[0] in lines;
      assert WithUpToDate(lines, false)[0] == lines[0];
    }
  }

  lemma UpToDateShape()
    ensures |UpToDateLine| >= 2 && UpToDateLine[1] != ' '
  {
  }

  /** A status line starts with its one-letter mark and a space, so it is never `All up to date`. */
  lemma StatusLineShape(e: Env, hash: Content -> Digest, all: bool, xs: seq<FilePair>, s: string)
    requires s in StatusLines(e, hash, all, xs)
    ensures |s| >= 2 && s[1] == ' '
  {
    CollectIn(xs, StatusEntry(e, hash, all), s);
  }

  /** The search loop of `find_config_file`: the longest prefix of the working directory's parts holding `.syncfiles`. */
  method LocateConfig(disk: Disk, cwd: Path) returns (found: Option<seq<string>>)
    ensures found == FindBase(HasConfig(disk), Split(cwd, '/'))
  {
    var comps := Split(cwd, '/');
    ghost var all := comps;
    var hit := false;
    while !hit && comps != []
      invariant |comps| <= |all| && comps == all[..|comps|]
      invariant FindBase(HasConfig(disk), all) == if hit then Some(comps) else FindBase(HasConfig(disk), comps)
      decreases |comps| + (if hit then 0 else 1)
    {
      if disk.IsFile(Candidate(comps)) {
        hit := true;
      } else {
        comps := comps[..|comps| - 1];
      }
    }
    found := if hit then Some(comps) else None;
  }

  class Config {

    const args: Args
    /** `file_hash`: the digest of a file's bytes. */
    const hash: Content -> Digest
    /** `fnmatch.fnmatch(name, pattern)`. */
    const fnmatch: (string, string) -> bool
    /** The home directory `~` expands to. */
    const home: Path
    /** `json.load` of the configuration file. */
    const parse: Content -> Defs
    /** The first line `git rev-parse --show-toplevel` prints, or None when it fails. */
    const gitTop: Option<Path>
    /** The lines `git ls-files` prints, or None when it fails. */
    const gitFiles: Option<seq<Path>>
    const cwd: Path

    var disk: Disk
    /** The lines printed so far. */
    var out: seq<string>
    var outcome: Outcome
    var verbose: bool
    var basedir: Path
    var defs: Defs
    var gitRoot: Option<Path>
    var dirToSrc: Dict<Path, Path>
    var srcToDir: Dict<Path, string>
    var srcToSrc: Dict<Path, string>
    var ignoreMap: set<Path>
    var ignorePattern: set<string>

    /** The state every query and command needs: a well-formed disk and consistent dictionaries. */
    ghost predicate Valid()
      reads this`disk, this`outcome, this`basedir, this`dirToSrc, this`srcToDir, this`srcToSrc, this`ignoreMap
    {
      disk.cwd == cwd && disk.WellFormed() && outcome == Running
      && MapsAgree(Maps(dirToSrc, srcToDir, srcToSrc)) && Distinct(dirToSrc)
      && Join(basedir, ConfigName) in ignoreMap
    }

    /** What the pair queries read of this object. */
    function View(): Env
      reads this`disk, this`dirToSrc, this`srcToDir, this`srcToSrc, this`ignoreMap, this`ignorePattern
    {
      Env(disk, dirToSrc, srcToDir, srcToSrc, ignoreMap, ignorePattern, fnmatch, PrefixOrPattern)
    }

    /** `Config.__init__`: locate and load the configuration, then expand its mappings. */
    constructor (args: Args, disk: Disk, home: Path, hash: Content -> Digest, fnmatch: (string, string) -> bool,
                 parse: Content -> Defs, gitTop: Option<Path>, gitFiles: Option<seq<Path>>)
      requires disk.WellFormed()
      ensures this.args == args && this.disk == disk && this.cwd == disk.cwd && this.hash == hash
      ensures this.fnmatch == fnmatch && this.home == home && this.parse == parse
      ensures this.gitTop == gitTop && this.gitFiles == gitFiles
      ensures outcome == Running ==> Valid()
      ensures outcome == Running ==> Maps(dirToSrc, srcToDir, srcToSrc) == Expanded(basedir, home, defs.dirmap)
    {
      this.args := args;
      this.disk := disk;
      this.cwd := disk.cwd;
      this.hash := hash;
      this.fnmatch := fnmatch;
      this.home := home;
      this.parse := parse;
      this.gitTop := gitTop;
      this.gitFiles := gitFiles;
      out := [];
      outcome := Running;
      verbose := args.verbose;
      new;
      FindConfigFile();
      if outcome == Running {
        ExpandDirs();
      }
    }

    /**
      `find_config_file`: walks up from the working directory to the nearest `.syncfiles`,
      prints a message and exits with status 1 when there is none, loads it, and applies
      `validate_config`; then asks git for the top of the work tree unless `--nogit`.
     */
    method FindConfigFile()
      requires outcome == Running && disk.cwd == cwd
      modifies this`basedir, this`defs, this`out, this`outcome, this`gitRoot
      ensures var found := FindBase(HasConfig(disk), Split(cwd, '/'));
        && (found.None? ==> outcome == Exited(1) && out == old(out) + [NotFoundLine])
        && (found.Some? ==> basedir == JoinWith(found.value, "/"))
        && (found.Some? && !disk.Readable(Candidate(found.value)) ==> outcome == Crashed)
        && (found.Some? && disk.Readable(Candidate(found.value)) ==>
              defs == parse(disk.Content(Candidate(found.value)))
              && (outcome == Running <==> Proceeds(defs.validate, args.force)))
      ensures outcome == Running ==> gitRoot == (if args.nogit then None else gitTop)
      ensures outcome != Running ==> outcome == Crashed || outcome == Exited(1) || outcome == Exited(0)
    {
      var found := LocateConfig(disk, cwd);
      if found.None? {
        out := out + [NotFoundLine];
        outcome := Exited(1);
        return;
      }
      var comps := found.value;
      var candidate := Candidate(comps);
      basedir := JoinWith(comps, "/");
      if !disk.Readable(candidate) {
        outcome := Crashed;
        return;
      }
      defs := parse(disk.Content(candidate));
      var valid := ValidateConfig();
      if outcome != Running {
        return;
      }
      gitRoot := None;
      if !args.nogit {
        gitRoot := gitTop;
      }
    }

    /**
      `validate_config`: a `validate` expression that evaluates to false stops the run with
      status 0, unless `--force` is given.
     */
    method ValidateConfig() returns (valid: bool)
      requires outcome == Running
      modifies this`out, this`outcome
      ensures valid == (defs.validate.None? || defs.validate.value.1)
      ensures outcome == (if Proceeds(defs.validate, args.force) then Running else Exited(0))
      ensures !Proceeds(defs.validate, args.force) ==>
        out == old(out) + ["Skipping, Validation \"" + defs.validate.value.0 + "\" evaluates to False"]
      ensures Proceeds(defs.validate, args.force) ==> out == old(out)
    {
      valid := true;
      if defs.validate.Some? {
        valid := defs.validate.value.1;
        if !valid && !args.force {
          out := out + ["Skipping, Validation \"" + defs.validate.value.0 + "\" evaluates to False"];
          outcome := Exited(0);
        }
      }
    }

    /**
      `expand_dirs`: the three dictionaries from the `dirmap`, then `ignore_map` (the
      configuration file itself and every ignore entry that exists under the base) and
      `ignore_pattern` (the entries that do not, kept as glob patterns).
     */
    method ExpandDirs()
      requires disk.cwd == cwd && disk.WellFormed() && outcome == Running
      modifies this`dirToSrc, this`srcToDir, this`srcToSrc, this`ignoreMap, this`ignorePattern
      ensures Valid()
      ensures Maps(dirToSrc, srcToDir, srcToSrc) == Expanded(basedir, home, defs.dirmap)
      ensures (ignoreMap, ignorePattern) == Ignores(disk, basedir, IgnoreList(defs))
    {
      ExpandMappings();
      ExpandIgnores();
    }

    /** The `dirmap` loop of `expand_dirs`. */
    method ExpandMappings()
      modifies this`dirToSrc, this`srcToDir, this`srcToSrc
      ensures Maps(dirToSrc, srcToDir, srcToSrc) == Expanded(basedir, home, defs.dirmap)
      ensures MapsAgree(Maps(dirToSrc, srcToDir, srcToSrc)) && Distinct(dirToSrc)
    {
      dirToSrc, srcToDir, srcToSrc := [], [], [];
      var entries := defs.dirmap;
      var i := 0;
      while i < |entries|
        invariant 0 <= i <= |entries|
        invariant Maps(dirToSrc, srcToDir, srcToSrc) == Expanded(basedir, home, entries[..i])
      {
        ExpandedPrefix(basedir, home, entries, i);
        var (dir, src) := entries[i];
        var expandDir := if dir == "." then basedir else Join(basedir, dir);
        var expandSrc := ExpandUser(home, src);
        dirToSrc := Put(dirToSrc, expandDir, expandSrc);
        srcToDir := Put(srcToDir, expandSrc, dir);
        srcToSrc := Put(srcToSrc, expandSrc, src);
        i := i + 1;
      }
      assert entries[..i] == entries;
      ExpandedAgrees(basedir, home, entries);
      ExpandedDistinct(basedir, home, entries);
    }

    /** The ignore loop of `expand_dirs`. */
    method ExpandIgnores()
      modifies this`ignoreMap, this`ignorePattern
      ensures (ignoreMap, ignorePattern) == Ignores(disk, basedir, IgnoreList(defs))
      ensures Join(basedir, ConfigName) in ignoreMap
    {
      ignoreMap := {Join(basedir, ConfigName)};
      ignorePattern := {};
      var ignore := IgnoreList(defs);
      var j := 0;
      while j < |ignore|
        invariant 0 <= j <= |ignore|
        invariant (ignoreMap, ignorePattern) == Ignores(disk, basedir, ignore[..j])
      {
        IgnoresNext(disk, basedir, ignore, j);
        var toIgnore := Join(basedir, ignore[j]);
        if disk.Exists(toIgnore) {
          ignoreMap := ignoreMap + {toIgnore};
        } else {
          ignorePattern := ignorePattern + {ignore[j]};
        }
        j := j + 1;
      }
      assert ignore[..j] == ignore;
      IgnoresKeepsConfig(disk, basedir, ignore);
    }

    /**
      `should_ignore(filepath, rel_file)`: true on the first ignored path that is a string
      prefix of `filepath`, then on the first pattern it matches; the relative name is unused.
     */
    method ShouldIgnore(filepath: Path, relFile: Path) returns (r: bool)
      ensures r == PairDiscovery.ShouldIgnore(View(), filepath)
    {
      var paths := ignoreMap;
      while paths != {}
        invariant paths <= ignoreMap
        invariant forall p :: p in ignoreMap && p !in paths ==> !StartsWith(filepath, p)
        decreases |paths|
      {
        var ignorePath :| ignorePath in paths;
        if StartsWith(filepath, ignorePath) {
          return true;
        }
        paths := paths - {ignorePath};
      }
      var patterns := ignorePattern;
      while patterns != {}
        invariant patterns <= ignorePattern
        invariant forall q :: q in ignorePattern && q !in patterns ==> !fnmatch(filepath, q)
        decreases |patterns|
      {
        var pattern :| pattern in patterns;
        if fnmatch(filepath, pattern) {
          return true;
        }
        patterns := patterns - {pattern};
      }
      return false;
    }

    /**
      `discover_file_pairs(rel_dir, rel_src)`: for each mapping (restricted to `rel_src` when
      one is given) whose search directory exists, each listed name is passed over when
      ignored, walked when it is an unmapped directory, and paired when it is anything else
      that is not a mapped repo root.
     */
    method DiscoverFilePairs(relDir: Option<Path>, relSrc: Option<Path>) returns (filePairs: seq<FilePair>)
      requires disk.WellFormed()
      ensures filePairs == DiscoverAll(View(), relDir, relSrc, dirToSrc)
      decreases Budget(View(), relDir), 2
    {
      filePairs := [];
      var i := 0;
      while i < |dirToSrc|
        invariant 0 <= i <= |dirToSrc|
        invariant filePairs == DiscoverAll(View(), relDir, relSrc, dirToSrc[..i])
      {
        var (dir, src) := dirToSrc[i];
        DiscoverAllNext(View(), relDir, relSrc, dirToSrc, i);
        var searchDir := SearchDir(dir, relDir);
        if !SkipSrc(relSrc, src) && disk.IsDir(searchDir) {
          var dirFiles := disk.Listing(searchDir);
          assert ProperListing(disk.nodes[disk.KeyOf(searchDir)]);
          var listed := DiscoverListing(relDir, dir, src, dirFiles);
          filePairs := filePairs + listed;
        }
        i := i + 1;
      }
      assert dirToSrc[..i] == dirToSrc;
    }

    /** The inner loop of `discover_file_pairs`, over the listing of one search directory. */
    method DiscoverListing(relDir: Option<Path>, dir: Path, src: Path, dirFiles: seq<string>) returns (filePairs: seq<FilePair>)
      requires disk.WellFormed()
      requires forall k :: 0 <= k < |dirFiles| ==> IsProperName(dirFiles[k])
      ensures filePairs == DiscoverNames(View(), relDir, dir, src, dirFiles)
      decreases Budget(View(), relDir), 1
    {
      filePairs := [];
      var j := 0;
      while j < |dirFiles|
        invariant 0 <= j <= |dirFiles|
        invariant filePairs == DiscoverNames(View(), relDir, dir, src, dirFiles[..j])
      {
        DiscoverNamesNext(View(), relDir, dir, src, dirFiles, j);
        var found := DiscoverEntry(relDir, dir, src, dirFiles[j]);
        filePairs := filePairs + found;
        j := j + 1;
      }
      assert dirFiles[..j] == dirFiles;
    }

    /** The body of the inner loop of `discover_file_pairs`, for one listed name. */
    method DiscoverEntry(relDir: Option<Path>, dir: Path, src: Path, dirFile: string) returns (found: seq<FilePair>)
      requires disk.WellFormed() && IsProperName(dirFile)
      ensures found == DiscoverName(View(), relDir, dir, src, dirFile)
      decreases Budget(View(), relDir), 0
    {
      found := [];
      var searchDir := SearchDir(dir, relDir);
      var relFile := RelFile(relDir, dirFile);
      var fullDirFile := Join(searchDir, dirFile);
      var ignore := ShouldIgnore(fullDirFile, relFile);
      if !ignore {
        if disk.IsDir(fullDirFile) {
          if !HasKey(dirToSrc, fullDirFile) {
            DescendBudget(View(), relDir, dir, dirFile);
            found := DiscoverFilePairs(Some(relFile), Some(src));
          }
        } else if !HasKey(dirToSrc, fullDirFile) {
          found := [FilePair(dir, src, relFile)];
        }
      }
    }

    /** The two longest-prefix loops: the mapping whose repo directory is the longest string prefix of `path`. */
    method LongestRepoDir(path: Path) returns (found: Option<(Path, Path)>)
      ensures found == LongestPrefix(dirToSrc, path)
    {
      found := None;
      var i := 0;
      while i < |dirToSrc|
        invariant 0 <= i <= |dirToSrc|
        invariant found == LongestPrefix(dirToSrc[..i], path)
      {
        assert dirToSrc[..i + 1][..i] == dirToSrc[..i];
        var (dirPath, src) := dirToSrc[i];
        if StartsWith(path, dirPath) && (found.None? || |dirPath| > |found.value.0|) {
          found := Some((dirPath, src));
        }
        i := i + 1;
      }
      assert dirToSrc[..i] == dirToSrc;
    }

    /**
      `construct_file_pairs(files)`: an existing file gives a pair for each mapping it hits,
      a directory the walk below it from its longest mapping, and any other argument a pair
      for each live directory holding a file of that name. It also switches `verbose` off.
     */
    method ConstructFilePairs(files: seq<string>) returns (rv: seq<FilePair>)
      requires disk.cwd == cwd && disk.WellFormed()
      modifies this`verbose
      ensures rv == FilesPairs(View(), files) && !verbose
    {
      rv := [];
      verbose := false;
      var k := 0;
      while k < |files|
        invariant 0 <= k <= |files| && !verbose
        invariant rv == FilesPairs(View(), files[..k])
      {
        var x := files[k];
        assert files[..k + 1][..k] == files[..k];
        var more := ArgFilePairs(x);
        rv := rv + more;
        k := k + 1;
      }
      assert files[..k] == files;
    }

    /** The body of `construct_file_pairs` for one argument. */
    method ArgFilePairs(x: string) returns (rv: seq<FilePair>)
      requires disk.cwd == cwd && disk.WellFormed()
      ensures rv == ArgPairs(View(), x)
    {
      rv := [];
      if disk.IsFile(x) {
        var candidate := Join(cwd, x);
        assert candidate == Join(disk.cwd, x);
        var i := 0;
        while i < |dirToSrc|
          invariant 0 <= i <= |dirToSrc|
          invariant rv == Collect(dirToSrc[..i], FileArgEntry(disk, candidate))
        {
          CollectPrefix(dirToSrc, FileArgEntry(disk, candidate), i);
          var (dirPath, src) := dirToSrc[i];
          if StartsWith(candidate, dirPath) {
            var relPath := ReplaceFirst(candidate, dirPath + "/", "");
            var tryDirPath := Join(dirPath, relPath);
            var trySrcPath := Join(src, relPath);
            if disk.IsFile(tryDirPath) && disk.IsFile(trySrcPath) {
              rv := rv + [FilePair(dirPath, src, relPath)];
            }
          }
          i := i + 1;
        }
        assert dirToSrc[..i] == dirToSrc;
      } else if disk.IsDir(x) {
        var candidate := if x == "." then cwd else Join(cwd, x);
        var found := LongestRepoDir(candidate);
        if found.Some? && found.value.0 != "" {
          var relDir := RelAfter(candidate, found.value.0);
          rv := DiscoverFilePairs(Some(relDir), Some(found.value.1));
        }
      } else {
        var i := 0;
        while i < |srcToDir|
          invariant 0 <= i <= |srcToDir|
          invariant rv == Collect(srcToDir[..i], NameArgEntry(disk, x))
        {
          CollectPrefix(srcToDir, NameArgEntry(disk, x), i);
          var (srcPath, dir) := srcToDir[i];
          var candidate := Join(srcPath, x);
          if disk.IsFile(candidate) {
            rv := rv + [FilePair(dir, srcPath, x)];
          }
          i := i + 1;
        }
        assert srcToDir[..i] == srcToDir;
      }
    }

    /**
      `construct_git_pairs`: each path git lists, taken from the working directory, is paired
      under its longest mapped repo directory unless ignored. When `git ls-files` fails the
      list of paths is never bound and the method stops on the exception (None).
     */
    method ConstructGitPairs() returns (r: Option<seq<FilePair>>)
      requires disk.cwd == cwd && Distinct(dirToSrc)
      ensures r == if gitFiles.None? then None else Some(GitPairs(View(), gitFiles.value))
    {
      if gitFiles.None? {
        return None;
      }
      var files := gitFiles.value;
      var filePairs := [];
      var i := 0;
      while i < |files|
        invariant 0 <= i <= |files|
        invariant filePairs == GitPairs(View(), files[..i])
      {
        CollectPrefix(files, GitEntry(View()), i);
        var one := files[i];
        var fullPathFile := Join(cwd, one);
        var found := LongestRepoDir(fullPathFile);
        if found.Some? && found.value.0 != "" {
          var foundDir := found.value.0;
          var fileRelPath := RelAfter(fullPathFile, foundDir);
          var ignore := ShouldIgnore(fullPathFile, fileRelPath);
          if !ignore {
            LongestPrefixIsLongest(dirToSrc, fullPathFile);
            var n :| 0 <= n < |dirToSrc| && dirToSrc[n] == found.value;
            GetEntry(dirToSrc, n);
            filePairs := filePairs + [FilePair(foundDir, Get(dirToSrc, foundDir).value, fileRelPath)];
          }
        }
        i := i + 1;
      }
      assert files[..i] == files;
      r := Some(filePairs);
    }

    /** `list_file_pairs`: git's listing inside a work tree, else the arguments, else the whole walk. */
    method ListFilePairs() returns (r: Option<seq<FilePair>>)
      requires disk.cwd == cwd && disk.WellFormed() && Distinct(dirToSrc)
      modifies this`verbose
      ensures r == ListPairs(View(), gitRoot, args.files, gitFiles)
    {
      if gitRoot.Some? && gitRoot.value != "" {
        r := ConstructGitPairs();
      } else if args.files != [] {
        var pairs := ConstructFilePairs(args.files);
        r := Some(pairs);
      } else {
        var pairs := DiscoverFilePairs(None, None);
        r := Some(pairs);
      }
    }

    /** The object's disk, output and outcome are what effect `e` leaves after output `o0`. */
    ghost predicate Stepped(e: Effect, o0: seq<string>)
      reads this`disk, this`out, this`outcome
    {
      disk == e.disk && out == o0 + e.lines && outcome == (if e.crashed then Crashed else Running)
    }

    /**
      `copyfile`: prints the `cp` line; with `--execute` copies, and when that fails makes the
      destination's directory and copies again, an exception from either stopping the run.
     */
    method CopyFile(fromPath: Path, toPath: Path)
      requires outcome == Running
      modifies this`disk, this`out, this`outcome
      ensures Stepped(CopyStep(old(disk), args.execute, fromPath, toPath), old(out))
    {
      if args.execute {
        out := out + [CpLine(fromPath, toPath)];
        var copied := disk.CopyFile(fromPath, toPath);
        if copied.Some? {
          disk := copied.value;
        } else {
          var toDir := Dirname(toPath);
          var made := disk.MakeDirs(toDir);
          if made.None? {
            outcome := Crashed;
            return;
          }
          var again := made.value.CopyFile(fromPath, toPath);
          disk := made.value;
          if again.None? {
            outcome := Crashed;
            return;
          }
          disk := again.value;
        }
      } else {
        out := out + [CpLine(fromPath, toPath)];
      }
    }

    /** `execute_warning`. */
    method ExecuteWarning()
      modifies this`out
      ensures out == old(out) + WarningLines(args.execute)
    {
      if !args.execute {
        out := out + [""];
        out := out + [PreviewLine];
      }
    }

    /**
      What a copying command has done, from the disk `d0` and output `o0` it started with and
      the pairs `list_file_pairs` gave (None when it stopped on an exception): the command's
      run over its selected pairs, and the preview notice when nothing stopped it.
     */
    ghost predicate Ran(cmd: Command, d0: Disk, o0: seq<string>, pairs: Option<seq<FilePair>>)
      reads this`disk, this`out, this`outcome
    {
      if pairs.None? then outcome == Crashed && disk == d0 && out == o0
      else
        var e := RunPairs(cmd, d0, hash, args.execute, Selected(cmd, d0, pairs.value));
        disk == e.disk && outcome == (if e.crashed then Crashed else Running)
        && out == (if e.crashed then o0 + e.lines else o0 + e.lines + WarningLines(args.execute))
    }

    /** `cmd_sync` on one pair: an unreadable side is reported, otherwise the newer side is copied over the older. */
    method SyncPair(x: FilePair)
      requires outcome == Running
      modifies this`disk, this`out, this`outcome
      ensures Stepped(PairStep(Sync, old(disk), hash, args.execute, x), old(out))
    {
      if !IsMatch(disk, hash, x) {
        if !disk.Readable(x.SrcFile()) {
          out := out + [CannotRead(x.SrcFile())];
        } else if !disk.Readable(x.DirFile()) {
          out := out + [CannotRead(x.DirFile())];
        } else {
          var mSrc := disk.MTime(x.SrcFile());
          var mDir := disk.MTime(x.DirFile());
          if mDir < mSrc {
            CopyFile(x.SrcFile(), x.DirFile());
          } else {
            CopyFile(x.DirFile(), x.SrcFile());
          }
        }
      }
    }

    /** `cmd_pull` on one pair: an unreadable side is reported, otherwise the live file is copied into the repository. */
    method PullPair(x: FilePair)
      requires outcome == Running
      modifies this`disk, this`out, this`outcome
      ensures Stepped(PairStep(Pull, old(disk), hash, args.execute, x), old(out))
    {
      if !IsMatch(disk, hash, x) {
        if !disk.Readable(x.SrcFile()) {
          out := out + [CannotRead(x.SrcFile())];
        } else if !disk.Readable(x.DirFile()) {
          out := out + [CannotRead(x.DirFile())];
        } else {
          CopyFile(x.SrcFile(), x.DirFile());
        }
      }
    }

    /** `cmd_push` on one pair: the repo copy is copied over a differing live file. */
    method PushPair(x: FilePair)
      requires outcome == Running
      modifies this`disk, this`out, this`outcome
      ensures Stepped(PairStep(Push, old(disk), hash, args.execute, x), old(out))
    {
      if !IsMatch(disk, hash, x) {
        CopyFile(x.DirFile(), x.SrcFile());
      }
    }

    /** `cmd_install` on one pair: the repo copy is copied over a missing or differing live file. */
    method InstallPair(x: FilePair)
      requires outcome == Running
      modifies this`disk, this`out, this`outcome
      ensures Stepped(PairStep(Install, old(disk), hash, args.execute, x), old(out))
    {
      if !disk.IsFile(x.SrcFile()) || !IsMatch(disk, hash, x) {
        CopyFile(x.DirFile(), x.SrcFile());
      }
    }

    /**
      The loop the four copying commands share: each pair in turn gets the command's step,
      and an exception from a copy stops the loop.
     */
    /** The loop body of the command `cmd` for one pair. */
    method PairCommand(cmd: Command, x: FilePair)
      requires outcome == Running
      modifies this`disk, this`out, this`outcome
      ensures Stepped(PairStep(cmd, old(disk), hash, args.execute, x), old(out))
    {
      match cmd {
        case Sync => SyncPair(x);
        case Pull => PullPair(x);
        case Push => PushPair(x);
        case Install => InstallPair(x);
      }
    }

    method RunCommand(cmd: Command, pairs: seq<FilePair>)
      requires outcome == Running
      modifies this`disk, this`out, this`outcome
      ensures Stepped(RunPairs(cmd, old(disk), hash, args.execute, pairs), old(out))
    {
      ghost var d0, o0 := disk, out;
      var i := 0;
      while i < |pairs| && outcome == Running
        invariant 0 <= i <= |pairs|
        invariant Stepped(RunPairs(cmd, d0, hash, args.execute, pairs[..i]), o0)
      {
        RunPairsNext(cmd, d0, hash, args.execute, pairs, i);
        ConcatAssoc(o0, RunPairs(cmd, d0, hash, args.execute, pairs[..i]).lines, PairStep(cmd, disk, hash, args.execute, pairs[i]).lines);
        PairCommand(cmd, pairs[i]);
        i := i + 1;
      }
      if i < |pairs| {
        RunPairsStopped(cmd, d0, hash, args.execute, pairs, i);
      } else {
        assert pairs[..i] == pairs;
      }
    }

    /** `cmd_sync`: the pairs whose live file exists, each copied from its newer side. */
    method CmdSync()
      requires Valid()
      modifies this`disk, this`out, this`outcome, this`verbose
      ensures Ran(Sync, old(disk), old(out), ListPairs(old(View()), gitRoot, args.files, gitFiles))
    {
      var pairs := ListFilePairs();
      if pairs.None? {
        outcome := Crashed;
        return;
      }
      var existing := Existing(disk, pairs.value);
      RunCommand(Sync, existing);
      if outcome == Running {
        ExecuteWarning();
      }
    }

    /** `cmd_pull`: the pairs whose live file exists, each copied into the repository. */
    method CmdPull()
      requires Valid()
      modifies this`disk, this`out, this`outcome, this`verbose
      ensures Ran(Pull, old(disk), old(out), ListPairs(old(View()), gitRoot, args.files, gitFiles))
    {
      var pairs := ListFilePairs();
      if pairs.None? {
        outcome := Crashed;
        return;
      }
      var existing := Existing(disk, pairs.value);
      RunCommand(Pull, existing);
      if outcome == Running {
        ExecuteWarning();
      }
    }

    /** `cmd_push`: the pairs whose live file exists, each copied out of the repository. */
    method CmdPush()
      requires Valid()
      modifies this`disk, this`out, this`outcome, this`verbose
      ensures Ran(Push, old(disk), old(out), ListPairs(old(View()), gitRoot, args.files, gitFiles))
    {
      var pairs := ListFilePairs();
      if pairs.None? {
        outcome := Crashed;
        return;
      }
      var existing := Existing(disk, pairs.value);
      RunCommand(Push, existing);
      if outcome == Running {
        ExecuteWarning();
      }
    }

    /** `cmd_install`: every pair, the repo copy installed where the live file is missing or differs. */
    method CmdInstall()
      requires Valid()
      modifies this`disk, this`out, this`outcome, this`verbose
      ensures Ran(Install, old(disk), old(out), ListPairs(old(View()), gitRoot, args.files, gitFiles))
    {
      var pairs := ListFilePairs();
      if pairs.None? {
        outcome := Crashed;
        return;
      }
      RunCommand(Install, pairs.value);
      if outcome == Running {
        ExecuteWarning();
      }
    }

    /** `output_status`: prints the pair's status line when it is not empty, and returns it. */
    method OutputStatus(filePair: FilePair) returns (status: string)
      requires Displayable(View(), filePair.src)
      modifies this`out
      ensures status == FormatStatus(disk, hash, args.all, filePair, Shown(srcToDir, filePair), Shown(srcToSrc, filePair))
      ensures out == old(out) + StatusEntry(View(), hash, args.all)(filePair)
    {
      status := FormatStatus(disk, hash, args.all, filePair, Shown(srcToDir, filePair), Shown(srcToSrc, filePair));
      if status != "" {
        out := out + [status];
      }
    }

    /**
      `cmd_status`: lists the pairs twice, prints the status of those whose live file exists,
      then of those whose live file is missing, and `All up to date` when nothing was printed
      and `--all` is off.
     */
    /** The `output_status` loop of `cmd_status` over one list: whether it printed anything. */
    method OutputStatuses(xs: seq<FilePair>) returns (printed: bool)
      requires forall x :: x in xs ==> Displayable(View(), x.src)
      modifies this`out
      ensures out == old(out) + StatusLines(View(), hash, args.all, xs)
      ensures printed <==> StatusLines(View(), hash, args.all, xs) != []
    {
      ghost var o0 := out;
      var f := StatusEntry(View(), hash, args.all);
      printed := false;
      var i := 0;
      while i < |xs|
        invariant 0 <= i <= |xs|
        invariant out == o0 + Collect(xs[..i], f)
        invariant printed <==> Collect(xs[..i], f) != []
      {
        CollectPrefix(xs, f, i);
        ConcatAssoc(o0, Collect(xs[..i], f), f(xs[i]));
        var status := OutputStatus(xs[i]);
        if status != "" {
          printed := true;
        }
        i := i + 1;
      }
      assert xs[..i] == xs;
    }

    /** The two `output_status` loops of `cmd_status`, then `All up to date` when neither printed and `--all` is off. */
    method ReportStatus(existing: seq<FilePair>, unknown: seq<FilePair>)
      requires forall x :: x in existing || x in unknown ==> Displayable(View(), x.src)
      modifies this`out
      ensures out == old(out) + WithUpToDate(StatusLines(View(), hash, args.all, existing) + StatusLines(View(), hash, args.all, unknown), args.all)
    {
      ghost var o0 := out;
      var printed := OutputStatuses(existing);
      var more := OutputStatuses(unknown);
      var done := printed || more;
      ConcatAssoc(o0, StatusLines(View(), hash, args.all, existing), StatusLines(View(), hash, args.all, unknown));
      if !done && !args.all {
        out := out + [UpToDateLine];
      }
    }

    method CmdStatus()
      requires Valid()
      modifies this`out, this`outcome, this`verbose
      ensures var r := ListPairs(old(View()), gitRoot, args.files, gitFiles);
        && (r.None? ==> outcome == Crashed && out == old(out))
        && (r.Some? ==> outcome == Running && out == old(out) + StatusReport(View(), hash, args.all, r.value))
    {
      ghost var o0 := out;
      var listed := ListFilePairs();
      if listed.None? {
        outcome := Crashed;
        return;
      }
      var existing := Existing(disk, listed.value);
      var again := ListFilePairs();
      var unknown := Missing(disk, again.value);
      MapsAgreeDisplayable(View());
      forall x | x in listed.value ensures Displayable(View(), x.src) {
        ListPairsDisplayable(View(), gitRoot, args.files, gitFiles, x);
      }
      forall x | x in existing || x in unknown ensures Displayable(View(), x.src) {
        ExistingMissing(disk, listed.value, x);
      }
      ReportStatus(existing, unknown);
    }
  }
}
