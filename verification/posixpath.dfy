/**
  The parts of Python's `posixpath` the scripts use: `join`, `dirname`, `basename`,
  `expanduser`, and the component list of a path once repeated `/` and `.` are dropped.
 */
module PosixPath {

  import opened Strs

  type Path = string

  predicate IsAbs(p: Path) {
    p != "" && p[0] == '/'
  }

  /** `p` ends with a separator, so joining adds none. */
  predicate EndsInSlash(p: Path) {
    p != "" && p[|p| - 1] == '/'
  }

  /** `os.path.join(a, b)`: an absolute `b` wins, otherwise one `/` is put between the two. */
  function Join(a: Path, b: Path): Path {
    if IsAbs(b) then b
    else if a == "" || EndsInSlash(a) then a + b
    else a + "/" + b
  }

  /** Splits off the last component: `head` is empty or ends with `/`, `tail` holds no `/`. */
  function SplitLast(p: Path): (r: (Path, Path))
    ensures r.0 + r.1 == p
    ensures '/' !in r.1
    ensures r.0 == "" || r.0[|r.0| - 1] == '/'
    decreases |p|
  {
    if p == "" then ("", "")
    else if p[|p| - 1] == '/' then (p, "")
    else
      var (h, t) := SplitLast(p[..|p| - 1]);
      assert h + (t + [p[|p| - 1]]) == (h + t) + [p[|p| - 1]];
      (h, t + [p[|p| - 1]])
  }

  predicate AllSlashes(s: string) {
    forall i :: 0 <= i < |s| ==> s[i] == '/'
  }

  function RstripSlashes(s: string): (r: string)
    ensures |r| <= |s| && s[..|r|] == r && AllSlashes(s[|r|..])
    ensures r == "" || r[|r| - 1] != '/'
    decreases |s|
  {
    if s != "" && s[|s| - 1] == '/' then
      var r := RstripSlashes(s[..|s| - 1]);
      assert s[|r|..] == s[..|s| - 1][|r|..] + "/";
      r
    else s
  }

  /** `os.path.basename(p)`: what follows the last `/`. */
  function Basename(p: Path): (r: Path)
    ensures '/' !in r && EndsWith(p, r)
  {
    var (h, t) := SplitLast(p);
    assert p[|p| - |t|..] == t;
    t
  }

  /** `os.path.dirname(p)`: what precedes the last `/`, trailing slashes removed unless it is all slashes. */
  function Dirname(p: Path): (r: Path)
    ensures StartsWith(p, r) && |r| + |Basename(p)| <= |p|
  {
    var (h, t) := SplitLast(p);
    var d := if h != "" && !AllSlashes(h) then RstripSlashes(h) else h;
    assert p[..|d|] == d by {
      assert p == h + t;
      assert h[..|d|] == d;
    }
    d
  }

  /** `os.path.expanduser(p)` for `~` and `~/...`; the `~user` form is returned unchanged. */
  function ExpandUser(home: Path, p: Path): (r: Path)
    ensures !StartsWith(p, "~") ==> r == p
    ensures p == "~" ==> r == (if RstripSlashes(home) == "" then "/" else RstripSlashes(home))
  {
    if p == "~" || StartsWith(p, "~/") then
      var e := RstripSlashes(home) + p[1..];
      if e == "" then "/" else e
    else p
  }

  /**
    The path's components: the parts between `/`, with empty and `.` parts skipped. A `..` part
    is kept as a name; it is not resolved against the component before it.
   */
  function Comps(p: Path): seq<string> {
    Proper(Split(p, '/'))
  }

  /** Every component is a proper name. */
  lemma CompsProper(p: Path)
    ensures forall i :: 0 <= i < |Comps(p)| ==> IsProperName(Comps(p)[i])
  {
    var parts := Split(p, '/');
    var r := Proper(parts);
    forall i | 0 <= i < |r| ensures '/' !in r[i] {
      var j :| 0 <= j < |parts| && parts[j] == r[i];
    }
  }

  predicate IsProperName(n: string) {
    n != "" && n != "." && '/' !in n
  }

  function Proper(parts: seq<string>): (r: seq<string>)
    ensures |r| <= |parts|
    ensures forall i :: 0 <= i < |r| ==> r[i] != "" && r[i] != "."
    ensures forall i :: 0 <= i < |r| ==> r[i] in parts
    decreases |parts|
  {
    if parts == [] then []
    else if parts[0] == "" || parts[0] == "." then Proper(parts[1..])
    else [parts[0]] + Proper(parts[1..])
  }

  lemma {:induction false} ProperAppend(a: seq<string>, b: seq<string>)
    ensures Proper(a + b) == Proper(a) + Proper(b)
    decreases |a|
  {
    if a == [] {
      assert a + b == b;
    } else {
      assert (a + b)[1..] == a[1..] + b;
      ProperAppend(a[1..], b);
    }
  }

  /** A name without `/` that is neither empty nor `.` is one component. */
  lemma NameComps(n: string)
    requires IsProperName(n)
    ensures Comps(n) == [n]
  {
    SplitNoSep(n, '/');
  }

  /** Joining a relative path appends its components. */
  lemma JoinComps(a: Path, b: Path)
    ensures Comps(Join(a, b)) == if IsAbs(b) then Comps(b) else Comps(a) + Comps(b)
  {
    if !IsAbs(b) {
      if a == "" {
        assert Join(a, b) == b;
        CompsEmpty();
      } else if EndsInSlash(a) {
        var a' := a[..|a| - 1];
        assert a == a' + ['/'] + "";
        assert Join(a, b) == a' + ['/'] + b;
        CompsAppend(a', b);
        CompsAppend(a', "");
        CompsEmpty();
      } else {
        assert Join(a, b) == a + ['/'] + b;
        CompsAppend(a, b);
      }
    }
  }

  /** A separator between two paths concatenates their components. */
  lemma CompsAppend(a: Path, b: Path)
    ensures Comps(a + ['/'] + b) == Comps(a) + Comps(b)
  {
    SplitAppend(a, b, '/');
    ProperAppend(Split(a, '/'), Split(b, '/'));
  }

  lemma CompsEmpty()
    ensures Comps("") == []
  {
    assert Split("", '/') == [""];
  }

  /** Trailing slashes do not change what a path names. */
  lemma {:induction false} RstripComps(s: string)
    ensures Comps(RstripSlashes(s)) == Comps(s)
    decreases |s|
  {
    if s != "" && s[|s| - 1] == '/' {
      var s' := s[..|s| - 1];
      assert s == s' + ['/'] + "";
      CompsAppend(s', "");
      CompsEmpty();
      RstripComps(s');
    }
  }

  /** A path names its directory's components followed by its base name. */
  lemma DirnameBasenameComps(p: Path)
    ensures Comps(p) == Comps(Dirname(p)) + Comps(Basename(p))
  {
    var (h, t) := SplitLast(p);
    if h == "" {
      assert Dirname(p) == "" && Basename(p) == p;
      CompsEmpty();
    } else {
      var h' := h[..|h| - 1];
      assert h == h' + "/";
      assert p == h' + ['/'] + t;
      CompsAppend(h', t);
      assert h' + ['/'] + "" == h;
      CompsAppend(h', "");
      CompsEmpty();
      assert Comps(h) == Comps(h');
      if !AllSlashes(h) {
        RstripComps(h);
      }
    }
  }

  /** Joining is associative when the last part is a relative name. */
  lemma JoinAssoc(a: Path, b: Path, c: Path)
    requires !IsAbs(c) && c != ""
    ensures Join(Join(a, b), c) == Join(a, Join(b, c))
  {
    if IsAbs(b) {
      JoinAbs(a, b, c);
    } else if b == "" {
      JoinEmpty(a, c);
    } else {
      JoinRel(a, b, c);
    }
  }

  lemma JoinAbs(a: Path, b: Path, c: Path)
    requires IsAbs(b) && !IsAbs(c) && c != ""
    ensures Join(Join(a, b), c) == Join(a, Join(b, c))
  {
    assert Join(a, b) == b;
    assert Join(b, c)[0] == b[0];
  }

  lemma JoinEmpty(a: Path, c: Path)
    requires !IsAbs(c) && c != ""
    ensures Join(Join(a, ""), c) == Join(a, Join("", c))
  {
    assert Join("", c) == c;
    if a == "" {
      assert Join(a, "") == "";
    } else if EndsInSlash(a) {
      assert a + "" == a;
      assert Join(a, "") == a;
    } else {
      var x := a + "/";
      assert Join(a, "") == x + "";
      assert x + "" == x;
      assert x[|x| - 1] == '/';
      assert Join(x, c) == x + c;
    }
  }

  lemma JoinRel(a: Path, b: Path, c: Path)
    requires !IsAbs(c) && c != "" && !IsAbs(b) && b != ""
    ensures Join(Join(a, b), c) == Join(a, Join(b, c))
  {
    var x := Join(a, b);
    var y := Join(b, c);
    JoinSep(a, b);
    JoinSep(b, c);
    JoinEnds(a, b);
    JoinStart(b, c);
    JoinSep(x, c);
    JoinSep(a, y);
    assert Sep(x) == Sep(b);
    AppendAssoc(a + Sep(a), b, Sep(b));
    AppendAssoc(a + Sep(a), b + Sep(b), c);
  }

  /** The separator `join` puts after `a`. */
  function Sep(a: Path): string {
    if a == "" || EndsInSlash(a) then "" else "/"
  }

  lemma JoinSep(a: Path, b: Path)
    requires !IsAbs(b)
    ensures Join(a, b) == (a + Sep(a)) + b
  {
    if Sep(a) == "" {
      assert a + Sep(a) == a;
    }
  }

  lemma JoinEnds(a: Path, b: Path)
    requires b != ""
    ensures Join(a, b) != "" && (EndsInSlash(Join(a, b)) <==> EndsInSlash(b))
  {
    var x := Join(a, b);
    assert x[|x| - 1] == b[|b| - 1];
  }

  lemma JoinStart(b: Path, c: Path)
    requires b != "" && !IsAbs(b) && !IsAbs(c)
    ensures !IsAbs(Join(b, c))
  {
    assert Join(b, c)[0] == b[0];
  }

  lemma AppendAssoc(x: string, y: string, z: string)
    ensures (x + y) + z == x + (y + z)
  {
  }

  /** The joined path starts with its relative first part. */
  lemma JoinExtends(a: Path, b: Path)
    requires !IsAbs(b)
    ensures StartsWith(Join(a, b), a)
  {
    assert Join(a, b)[..|a|] == a;
  }

  /** Whatever a prefix ending in `/` is, the last component is the one the rest ends with. */
  lemma {:induction false} SplitLastAfterSep(h: Path, b: Path)
    requires h == "" || EndsInSlash(h)
    ensures SplitLast(h + b).1 == SplitLast(b).1
    decreases |b|
  {
    if b == "" {
      assert h + b == h;
    } else if b[|b| - 1] == '/' {
      assert (h + b)[|h + b| - 1] == '/';
    } else {
      assert (h + b)[..|h + b| - 1] == h + b[..|b| - 1];
      SplitLastAfterSep(h, b[..|b| - 1]);
    }
  }

  /** Joining onto a directory does not change the name a path ends with. */
  lemma JoinBasename(a: Path, b: Path)
    ensures Basename(Join(a, b)) == Basename(b)
  {
    if !IsAbs(b) {
      JoinSep(a, b);
      if Sep(a) != "" {
        assert EndsInSlash(a + Sep(a));
      }
      SplitLastAfterSep(a + Sep(a), b);
    }
  }

  /**
    The path can name nothing but a directory: it is empty, or its last part is empty or `.`
    (`f/`, `f/.`), so the kernel wants a directory there.
   */
  predicate EndsAsDir(p: Path) {
    p == "" || p[|p| - 1] == '/' || p == "." || (|p| >= 2 && p[|p| - 2..] == "/.")
  }

  /** A path ends in a proper name exactly when it does not end as a directory. */
  lemma ProperBasename(p: Path)
    ensures IsProperName(Basename(p)) <==> !EndsAsDir(p)
  {
    if EndsAsDir(p) {
      EndsAsDirBasename(p);
    } else {
      var (h, t) := SplitLast(p);
      assert p == h + t;
      assert t != "" && t != "." by {
        assert h == "" || p[..|h|] == h;
      }
    }
  }

  lemma EndsAsDirBasename(p: Path)
    requires EndsAsDir(p)
    ensures Basename(p) == "" || Basename(p) == "."
  {
    if p != "" && p[|p| - 1] != '/' {
      if p == "." {
        assert p[..0] == "";
      } else {
        assert p[..|p| - 1][|p| - 2] == '/';
        assert SplitLast(p[..|p| - 1]) == (p[..|p| - 1], "");
      }
    }
  }
}
