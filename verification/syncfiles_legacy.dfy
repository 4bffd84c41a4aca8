/**
  The older sync engine, `syncfiles/syncfiles.py`. It shares the pair walk and the per-pair
  queries of the newer one and differs in these rules: mappings whose repo directory does
  not start with the working directory are dropped; ignore entries that do not exist are
  dropped, and the walk skips a path only when it is itself an ignored path; a file argument
  that is not a file is looked up by name, never walked as a directory; every pair, a
  matching one included, gets a status line; `pull` and `push` copy once and do not retry.
 */
module SyncFilesLegacy {

  import opened Wrappers
  import opened Strs
  import opened ODict
  import opened PosixPath
  import opened FileSystem
  import opened SyncRules
  import opened Lists
  import opened PairDiscovery
  import SyncFiles

  /** The command-line options the older script reads. */
  datatype Args = Args(execute: bool, verbose: bool, files: seq<string>)

  /** Which way a command copies: `pull` from the live file to the repo copy, `push` back. */
  datatype Direction = ToRepo | ToLive

  // ---------------------------------------------------------------------------------------
  // `expand_dirs`

  /** `expand_dir.startswith(self.cwd)`: the mapping's repo directory lies under the working directory as a string. */
  function InCwd(basedir: Path, cwd: Path): ((string, string)) -> bool {
    (entry: (string, string)) => StartsWith(SyncFiles.ExpandDir(basedir, entry.0), cwd)
  }

  /** The `dirmap` entries `expand_dirs` keeps, in order. */
  function Kept(basedir: Path, cwd: Path, dirmap: Dict<string, string>): Dict<string, string> {
    Filter(dirmap, InCwd(basedir, cwd))
  }

  /** `expand_dirs`: the three dictionaries of the newer engine, built from the kept entries only. */
  function ExpandedInCwd(basedir: Path, home: Path, cwd: Path, dirmap: Dict<string, string>): SyncFiles.Maps {
    SyncFiles.Expanded(basedir, home, Kept(basedir, cwd, dirmap))
  }

  /**
    A repo directory is mapped exactly when some `dirmap` key expands to it and it starts
    with the working directory.
   */
  lemma ExpandedInCwdKeys(basedir: Path, home: Path, cwd: Path, dirmap: Dict<string, string>, k: Path)
    ensures HasKey(ExpandedInCwd(basedir, home, cwd, dirmap).dirToSrc, k)
      <==> StartsWith(k, cwd) && k in SyncFiles.RepoDirs(basedir, dirmap)
  {
    var kept := Kept(basedir, cwd, dirmap);
    SyncFiles.ExpandedKeys(basedir, home, kept, k);
    if k in SyncFiles.RepoDirs(basedir, kept) {
      var i :| 0 <= i < |kept| && SyncFiles.RepoDirs(basedir, kept)[i] == k;
      FilterIn(dirmap, InCwd(basedir, cwd), kept[i]);
      var j :| 0 <= j < |dirmap| && dirmap[j] == kept[i];
      assert SyncFiles.RepoDirs(basedir, dirmap)[j] == k;
    }
    if StartsWith(k, cwd) && k in SyncFiles.RepoDirs(basedir, dirmap) {
      var j :| 0 <= j < |dirmap| && SyncFiles.RepoDirs(basedir, dirmap)[j] == k;
      FilterIn(dirmap, InCwd(basedir, cwd), dirmap[j]);
      var i :| 0 <= i < |kept| && kept[i] == dirmap[j];
      assert SyncFiles.RepoDirs(basedir, kept)[i] == k;
    }
  }

  /** One more `dirmap` entry extends the kept dictionaries exactly when it lies under the working directory. */
  lemma KeptNext(basedir: Path, home: Path, cwd: Path, dirmap: Dict<string, string>, i: nat)
    requires i < |dirmap|
    ensures ExpandedInCwd(basedir, home, cwd, dirmap[..i + 1]) ==
      if StartsWith(SyncFiles.ExpandDir(basedir, dirmap[i].0), cwd)
      then SyncFiles.ExpandStep(ExpandedInCwd(basedir, home, cwd, dirmap[..i]), basedir, home, dirmap[i])
      else ExpandedInCwd(basedir, home, cwd, dirmap[..i])
  {
    var keep := InCwd(basedir, cwd);
    var kept := Kept(basedir, cwd, dirmap[..i]);
    FilterPrefix(dirmap, keep, i);
    if keep(dirmap[i]) {
      assert (kept + [dirmap[i]])[..|kept|] == kept;
    } else {
      assert kept + [] == kept;
    }
  }

  /** The kept dictionaries agree with each other and hold no repo directory twice. */
  lemma ExpandedInCwdAgrees(basedir: Path, home: Path, cwd: Path, dirmap: Dict<string, string>)
    ensures SyncFiles.MapsAgree(ExpandedInCwd(basedir, home, cwd, dirmap))
    ensures Distinct(ExpandedInCwd(basedir, home, cwd, dirmap).dirToSrc)
  {
    SyncFiles.ExpandedAgrees(basedir, home, Kept(basedir, cwd, dirmap));
    SyncFiles.ExpandedDistinct(basedir, home, Kept(basedir, cwd, dirmap));
  }

  // ---------------------------------------------------------------------------------------
  // The pairs a command works on

  /** No ignore patterns in the older script: nothing matches. */
  function NoPattern(): (string, string) -> bool {
    (path: string, pattern: string) => false
  }

  /** The pair queries of the older script: exact ignore test, no patterns. */
  function EnvOf(d: Disk, dirToSrc: Dict<Path, Path>, srcToDir: Dict<Path, string>, srcToSrc: Dict<Path, string>, ignoreMap: set<Path>): (e: Env)
    ensures forall p :: ShouldIgnore(e, p) <==> p in ignoreMap
  {
    Env(d, dirToSrc, srcToDir, srcToSrc, ignoreMap, {}, NoPattern(), ExactPath)
  }

  /** One argument of `construct_file_pairs`: an existing file, else a name looked up in every live directory. */
  function LookupPairs(e: Env, x: string): seq<FilePair> {
    if e.disk.IsFile(x) then FileArgPairs(e.disk, Join(e.disk.cwd, x), e.dirToSrc)
    else NameArgPairs(e.disk, x, e.srcToDir)
  }

  /** The empty argument, and `f/` for a regular file `f`, are not files, and no live directory holds them: no pair. */
  lemma LookupNoPairs(e: Env, f: Path)
    requires e.disk.IsFile(f)
    ensures LookupPairs(e, "") == [] && LookupPairs(e, f + "/") == []
  {
    NameArgEndsAsDir(e.disk, "", e.srcToDir);
    NameArgEndsAsDir(e.disk, f + "/", e.srcToDir);
  }

  function LookupEntry(e: Env): string -> seq<FilePair> {
    (x: string) => LookupPairs(e, x)
  }

  /** `construct_file_pairs(files)`: the pairs of each argument in turn. */
  function ArgumentPairs(e: Env, files: seq<string>): seq<FilePair> {
    Collect(files, LookupEntry(e))
  }

  /** `list_file_pairs`: the arguments when there are any, else the whole walk. */
  function CommandPairs(e: Env, files: seq<string>): seq<FilePair>
    requires e.disk.WellFormed()
  {
    if files != [] then ArgumentPairs(e, files) else DiscoverAll(e, None, None, e.dirToSrc)
  }

  /**
    The walk of the older script never gives a pair whose repo-side file is an ignored path
    or a mapped repo root; each pair comes from a mapping entry.
   */
  lemma DiscoverSkipsIgnored(e: Env, x: FilePair)
    requires e.rule == ExactPath && e.disk.WellFormed()
    requires x in DiscoverAll(e, None, None, e.dirToSrc)
    ensures (x.dir, x.src) in e.dirToSrc
    ensures x.DirFile() !in e.ignoreMap && !HasKey(e.dirToSrc, x.DirFile())
  {
    DiscoverSound(e, x);
  }

  /** Every pair a command works on has a displayable live directory, given what `expand_dirs` guarantees. */
  lemma CommandPairsDisplayable(e: Env, files: seq<string>, y: FilePair)
    requires e.disk.WellFormed() && Agrees(e) && y in CommandPairs(e, files)
    ensures Displayable(e, y.src)
  {
    if files != [] {
      CollectIn(files, LookupEntry(e), y);
      var k :| GivenBy(files, LookupEntry(e), k, y);
      var x := files[k];
      if e.disk.IsFile(x) {
        FileArgPairsIff(e.disk, Join(e.disk.cwd, x), e.dirToSrc, y);
        var i :| FileHit(e.disk, Join(e.disk.cwd, x), e.dirToSrc, i, y);
        assert e.dirToSrc[i] in e.dirToSrc;
      } else {
        NameArgPairsIff(e.disk, x, e.srcToDir, y);
        var i :| NameHit(e.disk, x, e.srcToDir, i, y);
        assert Keys(e.srcToDir)[i] == y.src;
      }
    } else {
      DiscoverSound(e, y);
    }
  }

  // ---------------------------------------------------------------------------------------
  // `format_status` and `cmd_status`

  /** `format_status` of the older script: a matching pair is shown with `.` as well. */
  function StatusLine(e: Env, hash: Content -> Digest, x: FilePair): (s: string)
    requires Displayable(e, x.src)
    ensures |s| >= 2 && s[0] == StatusMark(e.disk, hash, x) && s[1] == ' '
  {
    FormatStatus(e.disk, hash, true, x, Shown(e.srcToDir, x), Shown(e.srcToSrc, x))
  }

  /** The line `format_status` gives for one pair; a pair the display lookups would fail on has none. */
  function LineOf(e: Env, hash: Content -> Digest): FilePair -> string {
    (x: FilePair) => if Displayable(e, x.src) then StatusLine(e, hash, x) else ""
  }

  /** The lines the status loop prints over a list of pairs: one per pair, in order. */
  function StatusColumn(e: Env, hash: Content -> Digest, xs: seq<FilePair>): seq<string> {
    Map(xs, LineOf(e, hash))
  }

  /** The loop `for x in ...: print self.format_status(x)`, collecting what it prints. */
  method StatusLines(e: Env, hash: Content -> Digest, xs: seq<FilePair>) returns (lines: seq<string>)
    requires forall x :: x in xs ==> Displayable(e, x.src)
    ensures lines == StatusColumn(e, hash, xs)
  {
    lines := [];
    var i := 0;
    while i < |xs|
      invariant 0 <= i <= |xs|
      invariant lines == StatusColumn(e, hash, xs[..i])
    {
      MapPrefix(xs, LineOf(e, hash), i);
      var line := FormatStatus(e.disk, hash, true, xs[i], Shown(e.srcToDir, xs[i]), Shown(e.srcToSrc, xs[i]));
      lines := lines + [line];
      i := i + 1;
    }
    assert xs[..i] == xs;
  }

  /** `cmd_status`: the pairs whose live file exists, a blank line, then those whose live file is missing. */
  function StatusReport(e: Env, hash: Content -> Digest, xs: seq<FilePair>): seq<string> {
    StatusColumn(e, hash, Existing(e.disk, xs)) + [""] + StatusColumn(e, hash, Missing(e.disk, xs))
  }

  /**
    The report's one blank line separates the two lists: every line before it is a pair
    whose live file exists (never marked `?`), every line after it one whose live file is
    missing (always marked `?`).
   */
  lemma StatusReportShape(e: Env, hash: Content -> Digest, xs: seq<FilePair>)
    requires forall x :: x in xs ==> Displayable(e, x.src)
    ensures var r := StatusReport(e, hash, xs);
      var n := |Existing(e.disk, xs)|;
      && |r| == n + 1 + |Missing(e.disk, xs)|
      && r[n] == ""
      && (forall i :: 0 <= i < n ==> r[i] != "" && r[i][0] != '?')
      && (forall i :: n < i < |r| ==> r[i] != "" && r[i][0] == '?')
  {
    var ex := Existing(e.disk, xs);
    var mi := Missing(e.disk, xs);
    forall x | x in ex ensures x in xs && e.disk.IsFile(x.SrcFile()) {
      ExistingMissing(e.disk, xs, x);
    }
    forall x | x in mi ensures x in xs && !e.disk.IsFile(x.SrcFile()) {
      ExistingMissing(e.disk, xs, x);
    }
    ColumnMarks(e, hash, ex, true);
    ColumnMarks(e, hash, mi, false);
    var a := StatusColumn(e, hash, ex);
    var b := StatusColumn(e, hash, mi);
    assert StatusReport(e, hash, xs) == a + [""] + b;
  }

  /** Over pairs that agree on whether their live file exists, every line is marked `?` or none is. */
  lemma ColumnMarks(e: Env, hash: Content -> Digest, xs: seq<FilePair>, live: bool)
    requires forall x :: x in xs ==> Displayable(e, x.src)
    requires forall x :: x in xs ==> e.disk.IsFile(x.SrcFile()) == live
    ensures var r := StatusColumn(e, hash, xs);
      |r| == |xs| && forall i :: 0 <= i < |r| ==> r[i] != "" && (r[i][0] == '?' <==> !live)
  {
    MapAt(xs, LineOf(e, hash));
    forall i | 0 <= i < |xs| ensures StatusColumn(e, hash, xs)[i] != "" && (StatusColumn(e, hash, xs)[i][0] == '?' <==> !live) {
      assert xs[i] in xs;
    }
  }

  // ---------------------------------------------------------------------------------------
  // `cmd_pull` and `cmd_push`

  /** `print 'cp ...'`, then with `--execute` one `shutil.copyfile`, whose error is not caught. */
  function CopyOnce(d: Disk, execute: bool, from: Path, to: Path): (e: Effect)
    ensures e.disk.cwd == d.cwd
  {
    var lines := [CpLine(from, to)];
    if !execute then Effect(d, lines, false)
    else match d.CopyFile(from, to)
      case Some(d1) => Effect(d1, lines, false)
      case None => Effect(d, lines, true)
  }

  /**
    The loop body of `cmd_pull` (toward the repo: a report when either side is unreadable)
    and of `cmd_push` (toward the live file, whatever can be read), for a pair that does not match.
   */
  function Step(dir: Direction, d: Disk, hash: Content -> Digest, execute: bool, x: FilePair): (e: Effect)
    ensures e.disk.cwd == d.cwd
  {
    if IsMatch(d, hash, x) then Effect(d, [], false)
    else match dir
      case ToRepo =>
        if !d.Readable(x.SrcFile()) then Effect(d, [CannotRead(x.SrcFile())], false)
        else if !d.Readable(x.DirFile()) then Effect(d, [CannotRead(x.DirFile())], false)
        else CopyOnce(d, execute, x.SrcFile(), x.DirFile())
      case ToLive => CopyOnce(d, execute, x.DirFile(), x.SrcFile())
  }

  /** Where a step of direction `dir` copies from. */
  function From(dir: Direction, x: FilePair): Path {
    if dir == ToRepo then x.SrcFile() else x.DirFile()
  }

  /** Where a step of direction `dir` copies to. */
  function To(dir: Direction, x: FilePair): Path {
    if dir == ToRepo then x.DirFile() else x.SrcFile()
  }

  /** The step copies: the pair does not match, and for `pull` both sides can be read. */
  predicate Copies(dir: Direction, d: Disk, hash: Content -> Digest, x: FilePair) {
    !IsMatch(d, hash, x) && (dir == ToRepo ==> d.Readable(x.SrcFile()) && d.Readable(x.DirFile()))
  }

  /**
    One step changes the disk only when it copies with `--execute`; it prints `cp` exactly
    when it copies; it stops exactly when that copy fails; otherwise the destination then
    holds the source's bytes.
   */
  lemma StepEffect(dir: Direction, d: Disk, hash: Content -> Digest, execute: bool, x: FilePair)
    ensures var e := Step(dir, d, hash, execute, x);
      && (e.disk != d ==> execute && Copies(dir, d, hash, x))
      && (e.lines == [CpLine(From(dir, x), To(dir, x))] <==> Copies(dir, d, hash, x))
      && (e.crashed <==> execute && Copies(dir, d, hash, x) && d.CopyFile(From(dir, x), To(dir, x)).None?)
      && (execute && Copies(dir, d, hash, x) && !e.crashed ==>
            e.disk.IsFile(To(dir, x)) && e.disk.Content(To(dir, x)) == d.Content(From(dir, x)))
  {
    CopyFileSpec(d, From(dir, x), To(dir, x));
    if !IsMatch(d, hash, x) && dir == ToRepo {
      if !d.Readable(x.SrcFile()) {
        assert CannotRead(x.SrcFile())[1] != CpLine(From(dir, x), To(dir, x))[1];
      } else if !d.Readable(x.DirFile()) {
        assert CannotRead(x.DirFile())[1] != CpLine(From(dir, x), To(dir, x))[1];
      }
    }
  }

  /** A command's loop over its pairs, in order; an escaped exception stops it. */
  function Run(dir: Direction, d: Disk, hash: Content -> Digest, execute: bool, xs: seq<FilePair>): (e: Effect)
    ensures e.disk.cwd == d.cwd
    decreases |xs|
  {
    if xs == [] then Effect(d, [], false)
    else
      var before := Run(dir, d, hash, execute, xs[..|xs| - 1]);
      if before.crashed then before
      else
        var last := Step(dir, before.disk, hash, execute, xs[|xs| - 1]);
        Effect(last.disk, before.lines + last.lines, last.crashed)
  }

  lemma RunNext(dir: Direction, d: Disk, hash: Content -> Digest, execute: bool, xs: seq<FilePair>, i: nat)
    requires i < |xs|
    ensures var before := Run(dir, d, hash, execute, xs[..i]);
      Run(dir, d, hash, execute, xs[..i + 1]) ==
        if before.crashed then before
        else
          var step := Step(dir, before.disk, hash, execute, xs[i]);
          Effect(step.disk, before.lines + step.lines, step.crashed)
  {
    assert xs[..i + 1][..i] == xs[..i];
  }

  lemma {:induction false} RunStopped(dir: Direction, d: Disk, hash: Content -> Digest, execute: bool, xs: seq<FilePair>, k: nat)
    requires k <= |xs| && Run(dir, d, hash, execute, xs[..k]).crashed
    ensures Run(dir, d, hash, execute, xs) == Run(dir, d, hash, execute, xs[..k])
    decreases |xs| - k
  {
    if k < |xs| {
      assert xs[..k + 1][..k] == xs[..k];
      RunStopped(dir, d, hash, execute, xs, k + 1);
    } else {
      assert xs[..k] == xs;
    }
  }

  /** Without `--execute` neither command changes the disk or stops early. */
  lemma {:induction false} PreviewKeepsDisk(dir: Direction, d: Disk, hash: Content -> Digest, xs: seq<FilePair>)
    ensures Run(dir, d, hash, false, xs).disk == d
    ensures !Run(dir, d, hash, false, xs).crashed
    decreases |xs|
  {
    if xs != [] {
      PreviewKeepsDisk(dir, d, hash, xs[..|xs| - 1]);
      StepEffect(dir, d, hash, false, xs[|xs| - 1]);
    }
  }

  // ---------------------------------------------------------------------------------------
  // The `Config` object

  class Config {

    const args: Args
    /** `file_hash`: the digest of a file's bytes. */
    const hash: Content -> Digest
    /** The home directory `~` expands to. */
    const home: Path
    /** `json.load` of the configuration file. */
    const parse: Content -> SyncFiles.Defs
    const cwd: Path

    var disk: Disk
    /** The lines printed so far. */
    var out: seq<string>
    var outcome: SyncFiles.Outcome
    var verbose: bool
    var basedir: Path
    var defs: SyncFiles.Defs
    var dirToSrc: Dict<Path, Path>
    var srcToDir: Dict<Path, string>
    var srcToSrc: Dict<Path, string>
    var ignoreMap: set<Path>

    /** The state the commands need: a well-formed disk and consistent dictionaries. */
    ghost predicate Valid()
      reads this`disk, this`outcome, this`dirToSrc, this`srcToDir, this`srcToSrc
    {
      disk.cwd == cwd && disk.WellFormed() && outcome == SyncFiles.Running
      && SyncFiles.MapsAgree(SyncFiles.Maps(dirToSrc, srcToDir, srcToSrc)) && Distinct(dirToSrc)
    }

    /** What the pair queries read of this object. */
    function View(): Env
      reads this`disk, this`dirToSrc, this`srcToDir, this`srcToSrc, this`ignoreMap
    {
      EnvOf(disk, dirToSrc, srcToDir, srcToSrc, ignoreMap)
    }

    /** `Config.__init__`: locate and load the configuration, then expand its mappings. */
    constructor (args: Args, disk: Disk, home: Path, hash: Content -> Digest, parse: Content -> SyncFiles.Defs)
      requires disk.WellFormed()
      ensures this.args == args && this.disk == disk && this.cwd == disk.cwd && this.hash == hash
      ensures this.home == home && this.parse == parse
      ensures outcome == SyncFiles.Running ==> Valid()
      ensures outcome == SyncFiles.Running ==>
        SyncFiles.Maps(dirToSrc, srcToDir, srcToSrc) == ExpandedInCwd(basedir, home, cwd, defs.dirmap)
        && ignoreMap == SyncFiles.Ignores(disk, basedir, SyncFiles.IgnoreList(defs)).0
    {
      this.args := args;
      this.disk := disk;
      this.cwd := disk.cwd;
      this.hash := hash;
      this.home := home;
      this.parse := parse;
      out := [];
      outcome := SyncFiles.Running;
      verbose := args.verbose;
      new;
      FindConfigFile();
      if outcome == SyncFiles.Running {
        ExpandDirs();
      }
    }

    /**
      `find_config_file`: the nearest `.syncfiles` above the working directory, loaded; a
      message and exit status 1 when there is none.
     */
    method FindConfigFile()
      requires outcome == SyncFiles.Running
      modifies this`basedir, this`defs, this`out, this`outcome
      ensures var found := SyncFiles.FindBase(SyncFiles.HasConfig(disk), Split(cwd, '/'));
        && (found.None? ==> outcome == SyncFiles.Exited(1) && out == old(out) + [SyncFiles.NotFoundLine])
        && (found.Some? ==> basedir == JoinWith(found.value, "/") && out == old(out))
        && (found.Some? && !disk.Readable(SyncFiles.Candidate(found.value)) ==> outcome == SyncFiles.Crashed)
        && (found.Some? && disk.Readable(SyncFiles.Candidate(found.value)) ==>
              outcome == SyncFiles.Running && defs == parse(disk.Content(SyncFiles.Candidate(found.value))))
    {
      var found := SyncFiles.LocateConfig(disk, cwd);
      if found.None? {
        out := out + [SyncFiles.NotFoundLine];
        outcome := SyncFiles.Exited(1);
        return;
      }
      var comps := found.value;
      var candidate := SyncFiles.Candidate(comps);
      basedir := JoinWith(comps, "/");
      if !disk.Readable(candidate) {
        outcome := SyncFiles.Crashed;
        return;
      }
      defs := parse(disk.Content(candidate));
    }

    /** `expand_dirs`: the kept mappings, then the existing ignore entries. */
    method ExpandDirs()
      requires disk.cwd == cwd && disk.WellFormed() && outcome == SyncFiles.Running
      modifies this`dirToSrc, this`srcToDir, this`srcToSrc, this`ignoreMap
      ensures Valid()
      ensures SyncFiles.Maps(dirToSrc, srcToDir, srcToSrc) == ExpandedInCwd(basedir, home, cwd, defs.dirmap)
      ensures ignoreMap == SyncFiles.Ignores(disk, basedir, SyncFiles.IgnoreList(defs)).0
    {
      ExpandMappings();
      ExpandIgnores();
    }

    /** The `dirmap` loop of `expand_dirs`: an entry outside the working directory is skipped. */
    method ExpandMappings()
      modifies this`dirToSrc, this`srcToDir, this`srcToSrc
      ensures SyncFiles.Maps(dirToSrc, srcToDir, srcToSrc) == ExpandedInCwd(basedir, home, cwd, defs.dirmap)
      ensures SyncFiles.MapsAgree(SyncFiles.Maps(dirToSrc, srcToDir, srcToSrc)) && Distinct(dirToSrc)
    {
      dirToSrc, srcToDir, srcToSrc := [], [], [];
      var entries := defs.dirmap;
      var i := 0;
      while i < |entries|
        invariant 0 <= i <= |entries|
        invariant SyncFiles.Maps(dirToSrc, srcToDir, srcToSrc) == ExpandedInCwd(basedir, home, cwd, entries[..i])
      {
        KeptNext(basedir, home, cwd, entries, i);
        var (dir, src) := entries[i];
        var expandDir := if dir == "." then basedir else Join(basedir, dir);
        var expandSrc := ExpandUser(home, src);
        if StartsWith(expandDir, cwd) {
          dirToSrc := Put(dirToSrc, expandDir, expandSrc);
          srcToDir := Put(srcToDir, expandSrc, dir);
          srcToSrc := Put(srcToSrc, expandSrc, src);
        }
        i := i + 1;
      }
      assert entries[..i] == entries;
      ExpandedInCwdAgrees(basedir, home, cwd, entries);
    }

    /** The ignore loop of `expand_dirs`: only entries that exist under the base are kept. */
    method ExpandIgnores()
      modifies this`ignoreMap
      ensures ignoreMap == SyncFiles.Ignores(disk, basedir, SyncFiles.IgnoreList(defs)).0
      ensures Join(basedir, SyncFiles.ConfigName) in ignoreMap
    {
      ignoreMap := {Join(basedir, SyncFiles.ConfigName)};
      var ignore := SyncFiles.IgnoreList(defs);
      var j := 0;
      while j < |ignore|
        invariant 0 <= j <= |ignore|
        invariant ignoreMap == SyncFiles.Ignores(disk, basedir, ignore[..j]).0
      {
        SyncFiles.IgnoresNext(disk, basedir, ignore, j);
        var toIgnore := Join(basedir, ignore[j]);
        if disk.Exists(toIgnore) {
          ignoreMap := ignoreMap + {toIgnore};
        }
        j := j + 1;
      }
      assert ignore[..j] == ignore;
      SyncFiles.IgnoresKeepsConfig(disk, basedir, ignore);
    }

    /** `construct_file_pairs(files)`: turns verbose output off, then collects each argument's pairs. */
    method ConstructFilePairs(files: seq<string>) returns (rv: seq<FilePair>)
      requires disk.cwd == cwd
      modifies this`verbose
      ensures rv == ArgumentPairs(View(), files) && !verbose
    {
      rv := [];
      verbose := false;
      var k := 0;
      while k < |files|
        invariant 0 <= k <= |files| && !verbose
        invariant rv == Collect(files[..k], LookupEntry(View()))
      {
        CollectPrefix(files, LookupEntry(View()), k);
        var more := ArgFilePairs(files[k]);
        rv := rv + more;
        k := k + 1;
      }
      assert files[..k] == files;
    }

    /** The body of `construct_file_pairs` for one argument. */
    method ArgFilePairs(x: string) returns (rv: seq<FilePair>)
      requires disk.cwd == cwd
      ensures rv == LookupPairs(View(), x)
    {
      rv := [];
      if disk.IsFile(x) {
        var candidate := Join(cwd, x);
        var i := 0;
        while i < |dirToSrc|
          invariant 0 <= i <= |dirToSrc|
          invariant rv == Collect(dirToSrc[..i], FileArgEntry(disk, candidate))
        {
          CollectPrefix(dirToSrc, FileArgEntry(disk, candidate), i);
          var (dirPath, src) := dirToSrc[i];
          if StartsWith(candidate, dirPath) {
            var relPath := ReplaceFirst(candidate, dirPath + "/", "");
            var tryDirPath := Join(dirPath, relPath);
            var trySrcPath := Join(src, relPath);
            if disk.IsFile(tryDirPath) && disk.IsFile(trySrcPath) {
              rv := rv + [FilePair(dirPath, src, relPath)];
            }
          }
          i := i + 1;
        }
        assert dirToSrc[..i] == dirToSrc;
      } else {
        var i := 0;
        while i < |srcToDir|
          invariant 0 <= i <= |srcToDir|
          invariant rv == Collect(srcToDir[..i], NameArgEntry(disk, x))
        {
          CollectPrefix(srcToDir, NameArgEntry(disk, x), i);
          var (srcPath, dir) := srcToDir[i];
          var candidate := Join(srcPath, x);
          if disk.IsFile(candidate) {
            rv := rv + [FilePair(dir, srcPath, x)];
          }
          i := i + 1;
        }
        assert srcToDir[..i] == srcToDir;
      }
    }

    /** `discover_file_pairs(rel_dir, rel_src)`: the walk, skipping a path that is itself ignored. */
    method DiscoverFilePairs(relDir: Option<Path>, relSrc: Option<Path>) returns (filePairs: seq<FilePair>)
      requires disk.WellFormed()
      ensures filePairs == DiscoverAll(View(), relDir, relSrc, dirToSrc)
      decreases Budget(View(), relDir), 2
    {
      filePairs := [];
      var i := 0;
      while i < |dirToSrc|
        invariant 0 <= i <= |dirToSrc|
        invariant filePairs == DiscoverAll(View(), relDir, relSrc, dirToSrc[..i])
      {
        var (dir, src) := dirToSrc[i];
        DiscoverAllNext(View(), relDir, relSrc, dirToSrc, i);
        var searchDir := SearchDir(dir, relDir);
        if !SkipSrc(relSrc, src) && disk.IsDir(searchDir) {
          var dirFiles := disk.Listing(searchDir);
          assert ProperListing(disk.nodes[disk.KeyOf(searchDir)]);
          var listed := DiscoverListing(relDir, dir, src, dirFiles);
          filePairs := filePairs + listed;
        }
        i := i + 1;
      }
      assert dirToSrc[..i] == dirToSrc;
    }

    /** The inner loop of `discover_file_pairs`, over the listing of one search directory. */
    method DiscoverListing(relDir: Option<Path>, dir: Path, src: Path, dirFiles: seq<string>) returns (filePairs: seq<FilePair>)
      requires disk.WellFormed()
      requires forall k :: 0 <= k < |dirFiles| ==> IsProperName(dirFiles[k])
      ensures filePairs == DiscoverNames(View(), relDir, dir, src, dirFiles)
      decreases Budget(View(), relDir), 1
    {
      filePairs := [];
      var j := 0;
      while j < |dirFiles|
        invariant 0 <= j <= |dirFiles|
        invariant filePairs == DiscoverNames(View(), relDir, dir, src, dirFiles[..j])
      {
        DiscoverNamesNext(View(), relDir, dir, src, dirFiles, j);
        var found := DiscoverEntry(relDir, dir, src, dirFiles[j]);
        filePairs := filePairs + found;
        j := j + 1;
      }
      assert dirFiles[..j] == dirFiles;
    }

    /** The body of the inner loop of `discover_file_pairs`, for one listed name. */
    method DiscoverEntry(relDir: Option<Path>, dir: Path, src: Path, dirFile: string) returns (found: seq<FilePair>)
      requires disk.WellFormed() && IsProperName(dirFile)
      ensures found == DiscoverName(View(), relDir, dir, src, dirFile)
      decreases Budget(View(), relDir), 0
    {
      found := [];
      var searchDir := SearchDir(dir, relDir);
      var relFile := RelFile(relDir, dirFile);
      var fullDirFile := Join(searchDir, dirFile);
      if fullDirFile !in ignoreMap {
        if disk.IsDir(fullDirFile) {
          if !HasKey(dirToSrc, fullDirFile) {
            DescendBudget(View(), relDir, dir, dirFile);
            found := DiscoverFilePairs(Some(relFile), Some(src));
          }
        } else if !HasKey(dirToSrc, fullDirFile) {
          found := [FilePair(dir, src, relFile)];
        }
      }
    }

    /** `list_file_pairs`. */
    method ListFilePairs() returns (r: seq<FilePair>)
      requires disk.cwd == cwd && disk.WellFormed()
      modifies this`verbose
      ensures r == CommandPairs(View(), args.files)
    {
      if args.files != [] {
        r := ConstructFilePairs(args.files);
      } else {
        r := DiscoverFilePairs(None, None);
      }
    }

    /** The object's disk, output and outcome are what effect `e` leaves after output `o0`. */
    ghost predicate Stepped(e: Effect, o0: seq<string>)
      reads this`disk, this`out, this`outcome
    {
      disk == e.disk && out == o0 + e.lines
      && outcome == (if e.crashed then SyncFiles.Crashed else SyncFiles.Running)
    }

    /** `print 'cp ...'` and, with `--execute`, `shutil.copyfile(from, to)`. */
    method CopyFile(fromPath: Path, toPath: Path)
      requires outcome == SyncFiles.Running
      modifies this`disk, this`out, this`outcome
      ensures Stepped(CopyOnce(old(disk), args.execute, fromPath, toPath), old(out))
    {
      out := out + [CpLine(fromPath, toPath)];
      if args.execute {
        var copied := disk.CopyFile(fromPath, toPath);
        if copied.None? {
          outcome := SyncFiles.Crashed;
        } else {
          disk := copied.value;
        }
      }
    }

    /** The loop body of `cmd_pull` or `cmd_push` for one pair. */
    method StepPair(dir: Direction, x: FilePair)
      requires outcome == SyncFiles.Running
      modifies this`disk, this`out, this`outcome
      ensures Stepped(Step(dir, old(disk), hash, args.execute, x), old(out))
    {
      if !IsMatch(disk, hash, x) {
        match dir {
          case ToRepo =>
            if !disk.Readable(x.SrcFile()) {
              out := out + [CannotRead(x.SrcFile())];
            } else if !disk.Readable(x.DirFile()) {
              out := out + [CannotRead(x.DirFile())];
            } else {
              CopyFile(x.SrcFile(), x.DirFile());
            }
          case ToLive =>
            CopyFile(x.DirFile(), x.SrcFile());
        }
      }
    }

    /** The loop of `cmd_pull` or `cmd_push` over the pairs whose live file exists; an exception stops it. */
    method RunCommand(dir: Direction, pairs: seq<FilePair>)
      requires outcome == SyncFiles.Running
      modifies this`disk, this`out, this`outcome
      ensures Stepped(Run(dir, old(disk), hash, args.execute, pairs), old(out))
    {
      ghost var d0, o0 := disk, out;
      var i := 0;
      while i < |pairs| && outcome == SyncFiles.Running
        invariant 0 <= i <= |pairs|
        invariant Stepped(Run(dir, d0, hash, args.execute, pairs[..i]), o0)
      {
        RunNext(dir, d0, hash, args.execute, pairs, i);
        ConcatAssoc(o0, Run(dir, d0, hash, args.execute, pairs[..i]).lines, Step(dir, disk, hash, args.execute, pairs[i]).lines);
        StepPair(dir, pairs[i]);
        i := i + 1;
      }
      if i < |pairs| {
        RunStopped(dir, d0, hash, args.execute, pairs, i);
      } else {
        assert pairs[..i] == pairs;
      }
    }

    /** `cmd_pull` (toward the repo) and `cmd_push` (toward the live files), over the pairs whose live file exists. */
    method CmdCopy(dir: Direction)
      requires Valid()
      modifies this`disk, this`out, this`outcome, this`verbose
      ensures Stepped(Run(dir, old(disk), hash, args.execute, Existing(old(disk), CommandPairs(old(View()), args.files))), old(out))
    {
      var pairs := ListFilePairs();
      var existing := Existing(disk, pairs);
      RunCommand(dir, existing);
    }

    /** The two list comprehensions of `cmd_status`, each over its own call of `list_file_pairs`. */
    method StatusPairs() returns (existing: seq<FilePair>, unknown: seq<FilePair>)
      requires Valid()
      modifies this`verbose
      ensures existing == Existing(disk, CommandPairs(View(), args.files))
      ensures unknown == Missing(disk, CommandPairs(View(), args.files))
      ensures forall x :: x in CommandPairs(View(), args.files) ==> Displayable(View(), x.src)
    {
      var listed := ListFilePairs();
      existing := Existing(disk, listed);
      var again := ListFilePairs();
      unknown := Missing(disk, again);
      SyncFiles.MapsAgreeDisplayable(View());
      forall x | x in listed ensures Displayable(View(), x.src) {
        CommandPairsDisplayable(View(), args.files, x);
      }
    }

    /** `cmd_status`: the pairs whose live file exists, a blank line, then the others. */
    method CmdStatus()
      requires Valid()
      modifies this`out, this`verbose
      ensures var xs := CommandPairs(View(), args.files);
        (forall x :: x in xs ==> Displayable(View(), x.src))
        && out == old(out) + StatusReport(View(), hash, xs)
    {
      var existing, unknown := StatusPairs();
      var e := View();
      ghost var xs := CommandPairs(e, args.files);
      forall x | x in existing || x in unknown ensures Displayable(e, x.src) {
        ExistingMissing(disk, xs, x);
      }
      var shown := StatusLines(e, hash, existing);
      var missing := StatusLines(e, hash, unknown);
      assert shown + [""] + missing == StatusReport(e, hash, xs);
      out := out + (shown + [""] + missing);
    }
  }
}
