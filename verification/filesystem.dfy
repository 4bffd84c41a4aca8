/**
  The disk the sync scripts read and write, as a value: every existing path, keyed by the
  components it names, is a regular file or a directory with its listing. Writes stamp the
  file with the disk's clock and advance it.
 */
module FileSystem {

  import opened Wrappers
  import opened Strs
  import opened PosixPath

  type Content = seq<bv8>

  /** A path once resolved: its components from the root. */
  type Key = seq<string>

  datatype Node =
    | File(readable: bool, writable: bool, content: Content, mtime: int)
    | Dir(names: seq<string>)

  datatype Disk = Disk(cwd: Path, nodes: map<Key, Node>, clock: int) {

    /** Where a path the program names lands, relative paths being taken from the working directory. */
    function KeyOf(p: Path): Key {
      Comps(Join(cwd, p))
    }

    /** `os.path.exists`: the empty path names nothing, and a path ending in `/` or `/.` names only a directory. */
    predicate Exists(p: Path) {
      p != "" && KeyOf(p) in nodes && (!EndsAsDir(p) || nodes[KeyOf(p)].Dir?)
    }

    /** `os.path.isfile`: a regular file, named by a path that does not end as a directory (not `f/`, not `f/.`). */
    predicate IsFile(p: Path) {
      !EndsAsDir(p) && KeyOf(p) in nodes && nodes[KeyOf(p)].File?
    }

    /** `os.path.isdir`: the empty path names nothing. */
    predicate IsDir(p: Path) {
      p != "" && KeyOf(p) in nodes && nodes[KeyOf(p)].Dir?
    }

    /** `os.access(p, os.R_OK)`, held only by a readable regular file: a directory never counts as readable. */
    predicate Readable(p: Path) {
      IsFile(p) && nodes[KeyOf(p)].readable
    }

    function Content(p: Path): Content
      requires IsFile(p)
    {
      nodes[KeyOf(p)].content
    }

    /** `os.path.getmtime`. */
    function MTime(p: Path): int
      requires IsFile(p)
    {
      nodes[KeyOf(p)].mtime
    }

    /** `os.listdir`. */
    function Listing(p: Path): seq<string>
      requires IsDir(p)
    {
      nodes[KeyOf(p)].names
    }

    /** What the kernel guarantees of a listing: every name is one proper component. */
    predicate WellFormed() {
      forall k :: k in nodes ==> ProperListing(nodes[k])
    }

    /** `open(dst, 'wb')` succeeds: a proper name in an existing directory, not a directory, not read-only. */
    predicate CanWrite(dst: Path) {
      IsProperName(Basename(Join(cwd, dst)))
      && ParentKey(dst) in nodes && nodes[ParentKey(dst)].Dir?
      && (KeyOf(dst) in nodes ==> nodes[KeyOf(dst)].File? && nodes[KeyOf(dst)].writable)
    }

    /** Writes `data` to `dst`: an existing file keeps its permissions, a new one is entered in its directory. */
    function Write(dst: Path, data: Content): (r: Disk)
      requires CanWrite(dst)
      ensures r.cwd == cwd
    {
      var name := Basename(Join(cwd, dst));
      var key := KeyOf(dst);
      var pkey := ParentKey(dst);
      if key in nodes then
        Disk(cwd, nodes[key := nodes[key].(content := data, mtime := clock)], clock + 1)
      else
        Disk(cwd, nodes[pkey := Dir(nodes[pkey].names + [name])][key := File(true, true, data, clock)], clock + 1)
    }

    /**
      `shutil.copyfile(src, dst)`, or None where it raises an `OSError`: the source is not a
      readable regular file, the two name the same file, or `dst` cannot be written.
     */
    function CopyFile(src: Path, dst: Path): (r: Option<Disk>)
      ensures r.Some? ==> r.value.cwd == cwd
    {
      if Readable(src) && KeyOf(src) != KeyOf(dst) && CanWrite(dst) then Some(Write(dst, Content(src)))
      else None
    }

    /** The directory a new file named by `p` is entered in. */
    function ParentKey(p: Path): Key {
      Comps(Dirname(Join(cwd, p)))
    }

    /** `os.mkdir(p)` succeeds: `p` is not empty, nothing is there yet and the parent is a directory. */
    predicate CanMkdir(p: Path) {
      var key := KeyOf(p);
      p != "" && key != [] && key !in nodes && key[..|key| - 1] in nodes && nodes[key[..|key| - 1]].Dir?
    }

    function Mkdir(p: Path): (r: Disk)
      requires CanMkdir(p)
      ensures r.cwd == cwd
    {
      var key := KeyOf(p);
      var pkey := key[..|key| - 1];
      Disk(cwd, nodes[pkey := Dir(nodes[pkey].names + [key[|key| - 1]])][key := Dir([])], clock)
    }

    /**
      `os.makedirs(p)` without `exist_ok`: missing ancestors are made first, then `p` itself,
      which must not exist yet and whose parent must be a directory. None where it raises.
     */
    function MakeDirs(p: Path): (r: Option<Disk>)
      ensures r.Some? ==> r.value.cwd == cwd
      decreases |p|
    {
      var (head, tail) := SplitPath(p);
      if head != "" && tail != "" && !Exists(head) then
        var made := MakeDirs(head);
        if made.None? then None
        else if tail == "." then
          // `makedirs("a/.")` returns once `a` is made, and `a/.` names `a`.
          made
        else if made.value.CanMkdir(p) then Some(made.value.Mkdir(p))
        else None
      else if CanMkdir(p) then Some(Mkdir(p))
      else None
    }
  }

  predicate ProperListing(n: Node) {
    n.Dir? ==> forall i :: 0 <= i < |n.names| ==> IsProperName(n.names[i])
  }

  /** A write leaves `dst` a file holding `data`, stamped with the old clock, and advances the clock. */
  lemma WriteSpec(d: Disk, dst: Path, data: Content)
    requires d.CanWrite(dst)
    ensures var r := d.Write(dst, data);
      r.IsFile(dst) && r.Content(dst) == data && r.MTime(dst) == d.clock && r.clock == d.clock + 1
  {
    JoinBasename(d.cwd, dst);
    ProperBasename(dst);
  }

  /**
    `copyfile` succeeds exactly when the source is a readable file, the two paths name different
    files and the destination can be written; the destination then holds the source's bytes.
   */
  lemma CopyFileSpec(d: Disk, src: Path, dst: Path)
    ensures var r := d.CopyFile(src, dst);
      (r.Some? <==> d.Readable(src) && d.KeyOf(src) != d.KeyOf(dst) && d.CanWrite(dst))
      && (r.Some? ==> r.value.IsFile(dst) && r.value.Content(dst) == d.Content(src))
  {
    if d.CopyFile(src, dst).Some? {
      WriteSpec(d, dst, d.Content(src));
    }
  }

  /** Every file of `d` is in `r` unchanged, and `r` has no other files. */
  predicate SameFiles(d: Disk, r: Disk) {
    (forall k :: k in d.nodes ==> k in r.nodes && (d.nodes[k].File? ==> r.nodes[k] == d.nodes[k]))
    && (forall k :: k in r.nodes && r.nodes[k].File? ==> k in d.nodes && d.nodes[k] == r.nodes[k])
  }

  /** `mkdir` makes `p` a directory and touches no file or clock. */
  lemma MkdirSpec(d: Disk, p: Path)
    requires d.CanMkdir(p)
    ensures var r := d.Mkdir(p); r.IsDir(p) && r.clock == d.clock && SameFiles(d, r)
  {
  }

  /** `makedirs` that succeeds makes `p` a directory and touches no file or clock. */
  lemma {:induction false} MakeDirsSpec(d: Disk, p: Path)
    ensures var r := d.MakeDirs(p);
      r.Some? ==> r.value.IsDir(p) && r.value.clock == d.clock && SameFiles(d, r.value)
    decreases |p|
  {
    var (head, tail) := SplitPath(p);
    if head != "" && tail != "" && !d.Exists(head) {
      MakeDirsSpec(d, head);
      MakeDirsAfterHead(d, p);
    } else {
      MakeDirsDirect(d, p);
    }
  }

  /** The step of `makedirs` when no missing head is made first. */
  lemma MakeDirsDirect(d: Disk, p: Path)
    requires !(SplitPath(p).0 != "" && SplitPath(p).1 != "" && !d.Exists(SplitPath(p).0))
    ensures var r := d.MakeDirs(p);
      r.Some? ==> r.value.IsDir(p) && r.value.clock == d.clock && SameFiles(d, r.value)
  {
    if d.CanMkdir(p) {
      MkdirSpec(d, p);
    }
  }

  /** The step of `makedirs` once the missing head has been made. */
  lemma MakeDirsAfterHead(d: Disk, p: Path)
    requires SplitPath(p).0 != "" && SplitPath(p).1 != "" && !d.Exists(SplitPath(p).0)
    requires var m := d.MakeDirs(SplitPath(p).0);
      m.Some? ==> m.value.IsDir(SplitPath(p).0) && m.value.clock == d.clock && SameFiles(d, m.value)
    ensures var r := d.MakeDirs(p);
      r.Some? ==> r.value.IsDir(p) && r.value.clock == d.clock && SameFiles(d, r.value)
  {
    var (head, tail) := SplitPath(p);
    var made := d.MakeDirs(head);
    if made.Some? {
      if tail == "." {
        assert p != "";
        SameKeyAsHead(d.cwd, p);
      } else if made.value.CanMkdir(p) {
        MkdirSpec(made.value, p);
      }
    }
  }

  /** A trailing `/` lands on the same place: `f/` and `f` have one key, so `f/` names no directory when `f` is a file. */
  lemma SlashKey(d: Disk, f: Path)
    requires f != ""
    ensures d.KeyOf(f + "/") == d.KeyOf(f)
  {
    assert f + "/" == f + ['/'] + "";
    assert IsAbs(f + "/") <==> IsAbs(f);
    CompsAppend(f, "");
    CompsEmpty();
    JoinComps(d.cwd, f + "/");
    JoinComps(d.cwd, f);
  }

  /** Writing one file leaves every other file as it was. */
  lemma WriteKeepsOtherFiles(d: Disk, dst: Path, data: Content, p: Path)
    requires d.CanWrite(dst) && d.IsFile(p) && d.KeyOf(p) != d.KeyOf(dst)
    ensures d.Write(dst, data).IsFile(p) && d.Write(dst, data).nodes[d.KeyOf(p)] == d.nodes[d.KeyOf(p)]
  {
  }

  /** The longest key: no directory is deeper than this. */
  ghost function MaxDepth(ks: set<Key>): (m: nat)
    ensures forall k :: k in ks ==> |k| <= m
    decreases ks
  {
    if ks == {} then 0
    else
      var k :| k in ks;
      var m := MaxDepth(ks - {k});
      if |k| > m then |k| else m
  }

  /** When `os.path.split` leaves `.` as the last component, the path names its head. */
  lemma SameKeyAsHead(cwd: Path, p: Path)
    requires SplitPath(p).0 != "" && SplitPath(p).1 == "."
    ensures Comps(Join(cwd, p)) == Comps(Join(cwd, SplitPath(p).0))
  {
    var head := SplitPath(p).0;
    DotComps();
    assert Comps(p) == Comps(head);
    JoinComps(cwd, p);
    JoinComps(cwd, head);
  }

  lemma DotComps()
    ensures Comps(".") == []
  {
    SplitNoSep(".", '/');
  }

  /** `os.path.split(p)` as `makedirs` uses it: a trailing slash is split off first. */
  function SplitPath(p: Path): (r: (Path, Path))
    ensures Comps(p) == Comps(r.0) + Comps(r.1)
    ensures r.1 != "" ==> |r.0| < |p|
    ensures r.0 != "" ==> (IsAbs(r.0) <==> IsAbs(p))
    ensures p == "" ==> r == ("", "")
  {
    DirnameBasenameComps(p);
    if Basename(p) == "" then
      var d := Dirname(p);
      DirnameBasenameComps(d);
      assert Comps("") == [];
      (Dirname(d), Basename(d))
    else (Dirname(p), Basename(p))
  }
}
