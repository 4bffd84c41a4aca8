/**
  The per-pair rules of the file-tree sync engine: a pair of a repo-side copy and its live
  location, when the two match, how a pair is reported, and what `sync`, `pull`, `push` and
  `install` do to one pair and to a list of pairs.
 */
module SyncRules {

  import opened Wrappers
  import opened Strs
  import opened PosixPath
  import opened FileSystem
  import opened Lists

  /** The hex digest `file_hash` returns; the hash itself is a parameter of the model. */
  type Digest = string

  /** `dir/rel` is the copy kept in the repository, `src/rel` the live file. */
  datatype FilePair = FilePair(dir: Path, src: Path, rel: Path) {

    function DirFile(): Path {
      Join(dir, rel)
    }

    function SrcFile(): Path {
      Join(src, rel)
    }
  }

  /** `FilePair.is_match`: both sides readable and their digests equal. */
  predicate IsMatch(d: Disk, hash: Content -> Digest, x: FilePair) {
    d.Readable(x.SrcFile()) && d.Readable(x.DirFile())
    && hash(d.Content(x.DirFile())) == hash(d.Content(x.SrcFile()))
  }

  /** What running a step leaves behind: the disk, the lines printed, and whether an exception escaped. */
  datatype Effect = Effect(disk: Disk, lines: seq<string>, crashed: bool)

  function CpLine(from: Path, to: Path): string {
    "cp " + from + " " + to
  }

  /**
    `Config.copyfile`: always prints the `cp` line; with `--execute` copies, and when that
    raises, makes the destination's directory and copies once more. An exception from the
    retry, or from making the directory, is not caught.
   */
  function CopyStep(d: Disk, execute: bool, from: Path, to: Path): (e: Effect)
    ensures e.disk.cwd == d.cwd
  {
    var lines := [CpLine(from, to)];
    if !execute then Effect(d, lines, false)
    else match d.CopyFile(from, to)
      case Some(d1) => Effect(d1, lines, false)
      case None =>
        match d.MakeDirs(Dirname(to))
        case None => Effect(d, lines, true)
        case Some(d2) =>
          match d2.CopyFile(from, to)
          case Some(d3) => Effect(d3, lines, false)
          case None => Effect(d2, lines, true)
  }

  /**
    A copy step prints its `cp` line; without `--execute` it changes nothing; when it does not
    stop on an exception the destination holds the source's bytes; and it stops exactly when
    the copy fails and so does making the directory or the second copy.
   */
  lemma CopyStepEffect(d: Disk, execute: bool, from: Path, to: Path)
    ensures var e := CopyStep(d, execute, from, to);
      && e.lines == [CpLine(from, to)]
      && (!execute ==> e.disk == d && !e.crashed)
      && (execute && !e.crashed ==>
           d.Readable(from) && d.KeyOf(from) != d.KeyOf(to) && e.disk.IsFile(to) && e.disk.Content(to) == d.Content(from))
      && (e.crashed <==> (execute && d.CopyFile(from, to).None?
           && (d.MakeDirs(Dirname(to)).None? || d.MakeDirs(Dirname(to)).value.CopyFile(from, to).None?)))
  {
    if execute {
      CopyFileSpec(d, from, to);
      if d.CopyFile(from, to).None? && d.MakeDirs(Dirname(to)).Some? {
        MakeDirsSpec(d, Dirname(to));
        var d2 := d.MakeDirs(Dirname(to)).value;
        CopyFileSpec(d2, from, to);
        if d2.CopyFile(from, to).Some? {
          assert d2.nodes[d2.KeyOf(from)] == d.nodes[d.KeyOf(from)];
        }
      }
    }
  }

  /** `display_compare_dir_src`: how the repo copy's mtime compares with the live file's. */
  function CompareMark(d: Disk, x: FilePair): (c: char)
    requires d.IsFile(x.SrcFile()) && d.IsFile(x.DirFile())
    ensures c == '=' <==> d.MTime(x.DirFile()) == d.MTime(x.SrcFile())
    ensures c == '<' <==> d.MTime(x.DirFile()) < d.MTime(x.SrcFile())
    ensures c == '>' <==> d.MTime(x.DirFile()) > d.MTime(x.SrcFile())
  {
    var mSrc := d.MTime(x.SrcFile());
    var mDir := d.MTime(x.DirFile());
    if mSrc == mDir then '=' else if mDir < mSrc then '<' else '>'
  }

  /**
    The mark that opens a status line: `?` when the live file is missing, `!` when it is
    unreadable, `A` when the repo copy is unreadable, `.` for a match and `M` otherwise.
   */
  function StatusMark(d: Disk, hash: Content -> Digest, x: FilePair): (c: char)
    ensures c == '?' <==> !d.IsFile(x.SrcFile())
    ensures c == '!' <==> d.IsFile(x.SrcFile()) && !d.Readable(x.SrcFile())
    ensures c == 'A' <==> d.Readable(x.SrcFile()) && !d.Readable(x.DirFile())
    ensures c == '.' <==> IsMatch(d, hash, x)
    ensures c == 'M' <==> d.Readable(x.SrcFile()) && d.Readable(x.DirFile()) && !IsMatch(d, hash, x)
  {
    if !d.IsFile(x.SrcFile()) then '?'
    else if !d.Readable(x.SrcFile()) then '!'
    else if !d.Readable(x.DirFile()) then 'A'
    else if IsMatch(d, hash, x) then '.'
    else 'M'
  }

  /**
    `format_status`, given the two display names: the status mark first, and nothing at all
    for a match without `--all`; a modified pair carries the mtime mark after the repo-side name.
   */
  function FormatStatus(d: Disk, hash: Content -> Digest, all: bool, x: FilePair, dd: string, ds: string): (s: string)
    ensures s == "" <==> IsMatch(d, hash, x) && !all
    ensures s != "" ==> |s| >= 2 && s[0] == StatusMark(d, hash, x) && s[1] == ' '
    ensures StatusMark(d, hash, x) == 'M' ==> |s| > 3 + |dd| && s[3 + |dd|] == CompareMark(d, x)
  {
    if d.IsFile(x.SrcFile()) then
      if !d.Readable(x.SrcFile()) then Marked('!', dd + "   " + ds)
      else if !d.Readable(x.DirFile()) then Marked('A', dd + "   " + ds)
      else if IsMatch(d, hash, x) then
        if all then Marked('.', dd + " = " + ds) else ""
      else
        var s := Marked('M', dd + " " + [CompareMark(d, x)] + " " + ds);
        assert s[3 + |dd|] == CompareMark(d, x);
        s
    else Marked('?', dd + "  [" + ds + "]")
  }

  /** A status line: its mark, a space, then the rest. */
  function Marked(mark: char, rest: string): (s: string)
    ensures |s| == 2 + |rest| && s[0] == mark && s[1] == ' ' && s[2..] == rest
  {
    [mark, ' '] + rest
  }

  /** The four commands that copy files. */
  datatype Command = Sync | Pull | Push | Install

  function CannotRead(p: Path): string {
    "cannot read: " + p
  }

  /** What one command does with one pair, in `cmd_sync`, `cmd_pull`, `cmd_push` and `cmd_install`. */
  function PairStep(cmd: Command, d: Disk, hash: Content -> Digest, execute: bool, x: FilePair): (e: Effect)
    ensures e.disk.cwd == d.cwd
  {
    var nothing := Effect(d, [], false);
    match cmd
    case Sync =>
      if IsMatch(d, hash, x) then nothing
      else if !d.Readable(x.SrcFile()) then Effect(d, [CannotRead(x.SrcFile())], false)
      else if !d.Readable(x.DirFile()) then Effect(d, [CannotRead(x.DirFile())], false)
      else if d.MTime(x.DirFile()) < d.MTime(x.SrcFile()) then CopyStep(d, execute, x.SrcFile(), x.DirFile())
      else CopyStep(d, execute, x.DirFile(), x.SrcFile())
    case Pull =>
      if IsMatch(d, hash, x) then nothing
      else if !d.Readable(x.SrcFile()) then Effect(d, [CannotRead(x.SrcFile())], false)
      else if !d.Readable(x.DirFile()) then Effect(d, [CannotRead(x.DirFile())], false)
      else CopyStep(d, execute, x.SrcFile(), x.DirFile())
    case Push =>
      if IsMatch(d, hash, x) then nothing
      else CopyStep(d, execute, x.DirFile(), x.SrcFile())
    case Install =>
      if !d.IsFile(x.SrcFile()) || !IsMatch(d, hash, x) then CopyStep(d, execute, x.DirFile(), x.SrcFile())
      else nothing
  }

  /** A command's loop over its pairs, in order, each on the disk the previous one left; an escaped exception stops it. */
  function RunPairs(cmd: Command, d: Disk, hash: Content -> Digest, execute: bool, xs: seq<FilePair>): (e: Effect)
    ensures e.disk.cwd == d.cwd
    decreases |xs|
  {
    if xs == [] then Effect(d, [], false)
    else
      var before := RunPairs(cmd, d, hash, execute, xs[..|xs| - 1]);
      if before.crashed then before
      else
        var last := PairStep(cmd, before.disk, hash, execute, xs[|xs| - 1]);
        Effect(last.disk, before.lines + last.lines, last.crashed)
  }

  /** One more pair: the step it takes on the disk the pairs before it left, unless they stopped the run. */
  lemma RunPairsNext(cmd: Command, d: Disk, hash: Content -> Digest, execute: bool, xs: seq<FilePair>, i: nat)
    requires i < |xs|
    ensures var before := RunPairs(cmd, d, hash, execute, xs[..i]);
      RunPairs(cmd, d, hash, execute, xs[..i + 1]) ==
        if before.crashed then before
        else
          var step := PairStep(cmd, before.disk, hash, execute, xs[i]);
          Effect(step.disk, before.lines + step.lines, step.crashed)
  {
    assert xs[..i + 1][..i] == xs[..i];
  }

  /** Once a run has stopped on an exception, the pairs after it change nothing. */
  lemma {:induction false} RunPairsStopped(cmd: Command, d: Disk, hash: Content -> Digest, execute: bool, xs: seq<FilePair>, k: nat)
    requires k <= |xs| && RunPairs(cmd, d, hash, execute, xs[..k]).crashed
    ensures RunPairs(cmd, d, hash, execute, xs) == RunPairs(cmd, d, hash, execute, xs[..k])
    decreases |xs| - k
  {
    if k < |xs| {
      assert xs[..k + 1][..k] == xs[..k];
      RunPairsStopped(cmd, d, hash, execute, xs, k + 1);
    } else {
      assert xs[..k] == xs;
    }
  }

  /** Whether a pair's live file exists: `src_file_exists`. */
  function LiveExists(d: Disk): FilePair -> bool {
    (x: FilePair) => d.IsFile(x.SrcFile())
  }

  function LiveMissing(d: Disk): FilePair -> bool {
    (x: FilePair) => !d.IsFile(x.SrcFile())
  }

  /** The pairs whose live file exists, as the commands' first list comprehension keeps them. */
  function Existing(d: Disk, xs: seq<FilePair>): seq<FilePair> {
    Filter(xs, LiveExists(d))
  }

  /** The pairs whose live file is missing. */
  function Missing(d: Disk, xs: seq<FilePair>): seq<FilePair> {
    Filter(xs, LiveMissing(d))
  }

  /** The two comprehensions split the pairs by whether the live file exists. */
  lemma ExistingMissing(d: Disk, xs: seq<FilePair>, x: FilePair)
    ensures x in Existing(d, xs) <==> x in xs && d.IsFile(x.SrcFile())
    ensures x in Missing(d, xs) <==> x in xs && !d.IsFile(x.SrcFile())
  {
    FilterIn(xs, LiveExists(d), x);
    FilterIn(xs, LiveMissing(d), x);
  }

  /** Without `--execute` no command changes the disk, and none stops early. */
  lemma {:induction false} PreviewKeepsDisk(cmd: Command, d: Disk, hash: Content -> Digest, xs: seq<FilePair>)
    ensures RunPairs(cmd, d, hash, false, xs).disk == d
    ensures !RunPairs(cmd, d, hash, false, xs).crashed
    decreases |xs|
  {
    if xs != [] {
      PreviewKeepsDisk(cmd, d, hash, xs[..|xs| - 1]);
    }
  }

  /** A copy step changes no file but its destination, whether or not it crashes. */
  lemma CopyStepKeepsOtherFiles(d: Disk, execute: bool, from: Path, to: Path, p: Path)
    requires d.IsFile(p) && d.KeyOf(p) != d.KeyOf(to)
    ensures CopyStep(d, execute, from, to).disk.IsFile(p)
    ensures CopyStep(d, execute, from, to).disk.nodes[d.KeyOf(p)] == d.nodes[d.KeyOf(p)]
  {
    if execute {
      if d.CopyFile(from, to).Some? {
        WriteKeepsOtherFiles(d, to, d.Content(from), p);
      } else if d.MakeDirs(Dirname(to)).Some? {
        MakeDirsSpec(d, Dirname(to));
        var d2 := d.MakeDirs(Dirname(to)).value;
        assert d2.IsFile(p) && d2.nodes[d.KeyOf(p)] == d.nodes[d.KeyOf(p)];
        if d2.CopyFile(from, to).Some? {
          WriteKeepsOtherFiles(d2, to, d2.Content(from), p);
        }
      }
    }
  }

  /** The files a command may write for one pair: the repo copy for `pull`, the live file for `push` and `install`, either for `sync`. */
  predicate MayWrite(cmd: Command, cwd: Path, x: FilePair, k: Key) {
    var repo := Comps(Join(cwd, x.DirFile()));
    var live := Comps(Join(cwd, x.SrcFile()));
    match cmd
    case Pull => k == repo
    case Push => k == live
    case Install => k == live
    case Sync => k == repo || k == live
  }

  /** One step writes only what its command may write. */
  lemma PairStepWritesOnly(cmd: Command, d: Disk, hash: Content -> Digest, execute: bool, x: FilePair, p: Path)
    requires d.IsFile(p) && !MayWrite(cmd, d.cwd, x, d.KeyOf(p))
    ensures PairStep(cmd, d, hash, execute, x).disk.IsFile(p)
    ensures PairStep(cmd, d, hash, execute, x).disk.nodes[d.KeyOf(p)] == d.nodes[d.KeyOf(p)]
  {
    var rd := d.Readable(x.SrcFile()) && d.Readable(x.DirFile());
    match cmd
    case Sync =>
      if !IsMatch(d, hash, x) && rd {
        if d.MTime(x.DirFile()) < d.MTime(x.SrcFile()) {
          CopyStepKeepsOtherFiles(d, execute, x.SrcFile(), x.DirFile(), p);
        } else {
          CopyStepKeepsOtherFiles(d, execute, x.DirFile(), x.SrcFile(), p);
        }
      }
    case Pull =>
      if !IsMatch(d, hash, x) && rd {
        CopyStepKeepsOtherFiles(d, execute, x.SrcFile(), x.DirFile(), p);
      }
    case Push =>
      if !IsMatch(d, hash, x) {
        CopyStepKeepsOtherFiles(d, execute, x.DirFile(), x.SrcFile(), p);
      }
    case Install =>
      if !d.IsFile(x.SrcFile()) || !IsMatch(d, hash, x) {
        CopyStepKeepsOtherFiles(d, execute, x.DirFile(), x.SrcFile(), p);
      }
  }

  /**
    A whole run leaves alone every file that no pair's command may write: `pull` never
    touches a live file, `push` and `install` never touch a repo copy.
   */
  lemma {:induction false} RunPairsWritesOnly(cmd: Command, d: Disk, hash: Content -> Digest, execute: bool, xs: seq<FilePair>, p: Path)
    requires d.IsFile(p)
    requires forall x :: x in xs ==> !MayWrite(cmd, d.cwd, x, d.KeyOf(p))
    ensures RunPairs(cmd, d, hash, execute, xs).disk.IsFile(p)
    ensures RunPairs(cmd, d, hash, execute, xs).disk.nodes[d.KeyOf(p)] == d.nodes[d.KeyOf(p)]
    decreases |xs|
  {
    if xs != [] {
      var init := xs[..|xs| - 1];
      assert forall x :: x in init ==> x in xs;
      RunPairsWritesOnly(cmd, d, hash, execute, init, p);
      var before := RunPairs(cmd, d, hash, execute, init);
      if !before.crashed {
        var x := xs[|xs| - 1];
        assert x in xs;
        var last := PairStep(cmd, before.disk, hash, execute, x);
        assert RunPairs(cmd, d, hash, execute, xs) == Effect(last.disk, before.lines + last.lines, last.crashed);
        PairStepWritesOnly(cmd, before.disk, hash, execute, x, p);
      }
    }
  }

  /** `pull` and `sync` only report a pair with an unreadable side: one line, no copy. */
  lemma UnreadableIsReported(cmd: Command, d: Disk, hash: Content -> Digest, execute: bool, x: FilePair)
    requires cmd == Pull || cmd == Sync
    requires !d.Readable(x.SrcFile()) || !d.Readable(x.DirFile())
    ensures PairStep(cmd, d, hash, execute, x).disk == d
    ensures !PairStep(cmd, d, hash, execute, x).crashed
    ensures PairStep(cmd, d, hash, execute, x).lines ==
      [CannotRead(if !d.Readable(x.SrcFile()) then x.SrcFile() else x.DirFile())]
  {
  }

  /**
    `sync` copies the newer side over the older one: the live file over the repo copy when
    the copy is strictly older, the repo copy over the live file otherwise, ties included.
   */
  lemma SyncCopiesNewer(d: Disk, hash: Content -> Digest, x: FilePair)
    requires d.Readable(x.SrcFile()) && d.Readable(x.DirFile()) && !IsMatch(d, hash, x)
    requires !PairStep(Sync, d, hash, true, x).crashed
    ensures var e := PairStep(Sync, d, hash, true, x);
      if d.MTime(x.DirFile()) < d.MTime(x.SrcFile())
      then e.disk.IsFile(x.DirFile()) && e.disk.Content(x.DirFile()) == d.Content(x.SrcFile())
      else e.disk.IsFile(x.SrcFile()) && e.disk.Content(x.SrcFile()) == d.Content(x.DirFile())
  {
    if d.MTime(x.DirFile()) < d.MTime(x.SrcFile()) {
      CopyStepEffect(d, true, x.SrcFile(), x.DirFile());
    } else {
      CopyStepEffect(d, true, x.DirFile(), x.SrcFile());
    }
  }

  /** An executed `push` of a mismatched pair leaves it matching, unless the live file it wrote is unreadable. */
  lemma PushMakesMatch(d: Disk, hash: Content -> Digest, x: FilePair)
    requires !IsMatch(d, hash, x)
    requires !PairStep(Push, d, hash, true, x).crashed
    requires PairStep(Push, d, hash, true, x).disk.Readable(x.SrcFile())
    ensures IsMatch(PairStep(Push, d, hash, true, x).disk, hash, x)
  {
    var e := PairStep(Push, d, hash, true, x);
    CopyStepEffect(d, true, x.DirFile(), x.SrcFile());
    CopyStepKeepsOtherFiles(d, true, x.DirFile(), x.SrcFile(), x.DirFile());
    assert e.disk.Content(x.SrcFile()) == d.Content(x.DirFile()) == e.disk.Content(x.DirFile());
  }

  /** `install` puts the repo copy's bytes at the live location of every missing or mismatched pair. */
  lemma InstallCopiesRepo(d: Disk, hash: Content -> Digest, x: FilePair)
    requires !d.IsFile(x.SrcFile()) || !IsMatch(d, hash, x)
    requires !PairStep(Install, d, hash, true, x).crashed
    ensures d.Readable(x.DirFile())
    ensures PairStep(Install, d, hash, true, x).disk.IsFile(x.SrcFile())
    ensures PairStep(Install, d, hash, true, x).disk.Content(x.SrcFile()) == d.Content(x.DirFile())
  {
    assert PairStep(Install, d, hash, true, x) == CopyStep(d, true, x.DirFile(), x.SrcFile());
    CopyStepEffect(d, true, x.DirFile(), x.SrcFile());
  }
}
