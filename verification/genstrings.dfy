/**
  The `.strings` reader of `bin/genstrings.py`: a file of comment blocks, each followed by
  `"key" = "translation";` lines, read line by line into localization entries.
 */
module GenStrings {

  import opened Wrappers
  import opened Strs
  import opened Lists

  // ---------------------------------------------------------------------------------------
  // Lines and the three patterns

  /** What `readline()` returns at line `p` of the file: the empty string past its end. */
  function LineAt(lines: seq<string>, p: nat): string {
    if p < |lines| then lines[p] else ""
  }

  /** `readline()` returned the empty string: the end of the file. */
  predicate Eof(line: string) {
    |line| == 0
  }

  /** The line is a bare newline, an empty line of the file. */
  predicate Blank(line: string) {
    |line| == 1 && line[0] == '\n'
  }

  /** The text a pattern ending in `$` must match: the line without one trailing newline. */
  function Chomp(line: string): string {
    if !Eof(line) && line[|line| - 1] == '\n' then line[..|line| - 1] else line
  }

  /** Chomping drops at most one trailing newline. */
  lemma ChompSpec(line: string)
    ensures line == Chomp(line) || line == Chomp(line) + "\n"
  {
    if !Eof(line) && line[|line| - 1] == '\n' {
      assert line == line[..|line| - 1] + "\n";
    }
  }

  /** `.` matches any character but a newline. */
  predicate NoNewline(t: string) {
    '\n' !in t
  }

  /** `re_comment_single`: the line is one whole `/* ... */` comment. */
  predicate CommentSingle(line: string) {
    var t := Chomp(line);
    NoNewline(t) && |t| >= 4 && t[..2] == "/*" && t[|t| - 2..] == "*/"
  }

  /** `re_comment_end`: the line closes a comment. */
  predicate CommentEnd(line: string) {
    var t := Chomp(line);
    NoNewline(t) && |t| >= 2 && t[|t| - 2..] == "*/"
  }

  /** `"`, a key ending at `i`, `" = "`, a translation, `";`: both parts non-empty. */
  predicate SplitAt(t: string, i: int) {
    NoNewline(t) && 2 <= i && i + 8 <= |t| && t[0] == '"' && t[i..i + 5] == "\" = \"" && t[|t| - 2..] == "\";"
  }

  /** `re_translation`: the line is a `"key" = "translation";` line. */
  predicate IsTranslation(line: string) {
    Groups(Chomp(line)).Some?
  }

  /** The last place at or before `i` where a key can end. */
  function LastSplit(t: string, i: int): (r: Option<nat>)
    ensures r.Some? ==> 2 <= r.value <= i
    decreases i
  {
    if i < 2 then None else if SplitAt(t, i) then Some(i) else LastSplit(t, i - 1)
  }

  /** `LastSplit` finds a split at or before `i` with none between it and `i`, and finds none only when there is none. */
  lemma {:induction false} LastSplitSpec(t: string, i: int)
    ensures var r := LastSplit(t, i); r.Some? ==> SplitAt(t, r.value) && forall j :: r.value < j <= i ==> !SplitAt(t, j)
    ensures LastSplit(t, i).None? ==> forall j :: j <= i ==> !SplitAt(t, j)
    decreases i
  {
    if 2 <= i && !SplitAt(t, i) {
      LastSplitSpec(t, i - 1);
    }
  }

  /**
    The two groups of `re_translation`. The first group is greedy, so the key runs to the last
    separator that still leaves a non-empty translation.
   */
  function Groups(t: string): Option<(string, string)> {
    match LastSplit(t, |t| - 8)
    case None => None
    case Some(i) => Some((t[1..i], t[i + 5..|t| - 2]))
  }

  /** The text has groups exactly when a key can end somewhere; the groups put back together give the text. */
  lemma GroupsSpec(t: string)
    ensures Groups(t).Some? <==> exists i :: SplitAt(t, i)
    ensures Groups(t).Some? ==> t == "\"" + Groups(t).value.0 + "\" = \"" + Groups(t).value.1 + "\";"
  {
    var r := LastSplit(t, |t| - 8);
    assert Groups(t).Some? <==> r.Some?;
    if r.Some? {
      LastSplitSpec(t, |t| - 8);
      SplitAssemble(t, r.value);
    } else {
      NoSplit(t);
    }
  }

  /** No key can end anywhere when none can end where the translation is shortest. */
  lemma NoSplit(t: string)
    requires LastSplit(t, |t| - 8).None?
    ensures forall i :: !SplitAt(t, i)
  {
    LastSplitSpec(t, |t| - 8);
    forall i | SplitAt(t, i) ensures i <= |t| - 8 {
    }
  }

  /** A text split at `i` is its key and its translation put back together. */
  lemma SplitAssemble(t: string, i: int)
    requires SplitAt(t, i)
    ensures t == "\"" + t[1..i] + "\" = \"" + t[i + 5..|t| - 2] + "\";"
  {
    assert t == [t[0]] + t[1..i] + t[i..i + 5] + t[i + 5..|t| - 2] + t[|t| - 2..];
  }

  /** A `"key" = "translation";` line is newline-free when both its parts are. */
  lemma AssembleNoNewline(key: string, translation: string)
    requires NoNewline(key) && NoNewline(translation)
    ensures NoNewline("\"" + key + "\" = \"" + translation + "\";")
  {
    var t := "\"" + key + "\" = \"" + translation + "\";";
    forall c | c in t ensures c != '\n' {
      var k :| 0 <= k < |t| && t[k] == c;
      if 1 <= k < |key| + 1 {
        assert t[k] == key[k - 1];
      } else if |key| + 6 <= k < |t| - 2 {
        assert t[k] == translation[k - |key| - 6];
      }
    }
  }

  /** No key can end past the real one when the translation, with its opening quote, holds no separator. */
  lemma AssembleNoLaterSplit(key: string, translation: string, j: int)
    requires !Contains("\"" + translation, "\" = \"")
    requires |key| + 1 < j
    ensures !SplitAt("\"" + key + "\" = \"" + translation + "\";", j)
  {
    var t := "\"" + key + "\" = \"" + translation + "\";";
    var i := |key| + 1;
    var u := "\"" + translation;
    assert t[i..i + 5] == "\" = \"";
    assert t[i + 1] != '"' && t[i + 2] != '"' && t[i + 3] != '"';
    if SplitAt(t, j) {
      if j >= i + 4 {
        assert u == t[i + 4..|t| - 2];
        assert t[j..j + 5] == u[j - i - 4..j - i + 1];
        ContainsIffOccurs(u, "\" = \"");
        assert OccursAt(u, "\" = \"", j - i - 4);
      }
    }
  }

  /** The groups of a text whose key ends at `i` and nowhere later. */
  lemma GroupsAt(t: string, i: int)
    requires SplitAt(t, i) && forall j :: i < j ==> !SplitAt(t, j)
    ensures Groups(t) == Some((t[1..i], t[i + 5..|t| - 2]))
  {
    LastSplitSpec(t, |t| - 8);
    match LastSplit(t, |t| - 8)
    case None =>
    case Some(r) =>
  }

  /**
    Putting a key and a translation together and matching again gives them back, provided the
    separator occurs nowhere after the key, counting from the translation's opening quote.
   */
  lemma GroupsAssemble(key: string, translation: string)
    requires key != "" && translation != "" && NoNewline(key) && NoNewline(translation)
    requires !Contains("\"" + translation, "\" = \"")
    ensures Groups("\"" + key + "\" = \"" + translation + "\";") == Some((key, translation))
  {
    var t := "\"" + key + "\" = \"" + translation + "\";";
    var i := |key| + 1;
    AssembleNoNewline(key, translation);
    assert t[1..i] == key;
    assert t[i..i + 5] == "\" = \"";
    assert t[i + 5..|t| - 2] == translation;
    assert SplitAt(t, i);
    forall j | i < j ensures !SplitAt(t, j) {
      AssembleNoLaterSplit(key, translation, j);
    }
    GroupsAt(t, i);
  }

  // ---------------------------------------------------------------------------------------
  // `LocalizationEntry` and `Localizations`

  /** A `LocalizationEntry`: the block's comment, the right-stripped line, and the line's two groups. */
  datatype Entry = Entry(comment: seq<string>, localization: string, key: string, translation: string)

  /** `LocalizationEntry(comment, localization)`; None where `.groups()` of a failed match raises. */
  function LocalizationEntry(comment: seq<string>, localization: string): Option<Entry> {
    match Groups(Chomp(localization))
    case None => None
    case Some((k, v)) => Some(Entry(comment, localization, k, v))
  }

  /**
    A line that matched `re_translation` still matches once right-stripped, so building its
    entry never raises; the entry's key and translation put back together give the line.
   */
  lemma LocalizationOk(comment: seq<string>, line: string)
    requires IsTranslation(line)
    ensures Rstrip(line) == Chomp(line)
    ensures LocalizationEntry(comment, Rstrip(line)).Some?
    ensures var e := LocalizationEntry(comment, Rstrip(line)).value;
      e.comment == comment && e.localization == Chomp(line)
      && e.localization == "\"" + e.key + "\" = \"" + e.translation + "\";"
  {
    var t := Chomp(line);
    GroupsSpec(t);
    var g := Groups(t).value;
    assert t == "\"" + g.0 + "\" = \"" + g.1 + "\";";
    assert t[|t| - 1] == ';';
    RstripSemicolon(line);
  }

  /** A line whose text ends in `;` loses exactly its newline to `rstrip()`, and has no second one to chomp. */
  lemma RstripSemicolon(line: string)
    requires Chomp(line) != [] && Chomp(line)[|Chomp(line)| - 1] == ';'
    ensures Rstrip(line) == Chomp(line) && Chomp(Chomp(line)) == Chomp(line)
  {
    var t := Chomp(line);
    if line == t + "\n" {
      assert line[..|line| - 1] == t;
      assert Rstrip(line) == Rstrip(t);
    }
  }

  /** `Localizations`: the entries read so far, in order. */
  class Localizations {
    var localizations: seq<Entry>

    constructor ()
      ensures localizations == []
    {
      localizations := [];
    }

    /** `add_localization(entry)`. */
    method AddLocalization(entry: Entry)
      modifies this
      ensures localizations == old(localizations) + [entry]
    {
      localizations := localizations + [entry];
    }
  }

  /**
    The entry `LocalizationEntry(comment, line.rstrip())` builds for a translation line. The reader
    never hands it any other line (`EntryOfSpec`); for one it would raise, and here its groups are empty.
   */
  function EntryOf(comment: seq<string>, line: string): Entry {
    match LocalizationEntry(comment, Rstrip(line))
    case Some(e) => e
    case None => Entry(comment, Rstrip(line), "", "")
  }

  /** The entry of a translation line carries the comment and the line's text, which its key and translation rebuild. */
  lemma EntryOfSpec(comment: seq<string>, line: string)
    requires IsTranslation(line)
    ensures Some(EntryOf(comment, line)) == LocalizationEntry(comment, Rstrip(line))
    ensures var e := EntryOf(comment, line);
      e.comment == comment && e.localization == Chomp(line)
      && e.localization == "\"" + e.key + "\" = \"" + e.translation + "\";"
  {
    LocalizationOk(comment, line);
  }

  // ---------------------------------------------------------------------------------------
  // `read_strings`

  /**
    What the reading loop relies on: the patterns it matches lines against (`re_comment_single`,
    `re_comment_end`, `re_translation`) and how it builds an entry from the comment and a line.
    The loop is stated over these so that its proofs need not look inside the patterns.
   */
  datatype Reader = Reader(
    single: string -> bool,
    closing: string -> bool,
    translation: string -> bool,
    entry: (seq<string>, string) -> Entry)

  /** The reader `read_strings` uses. */
  function Strings(): Reader {
    Reader(CommentSingle, CommentEnd, IsTranslation, EntryOf)
  }

  /** The first line from `r` on that is the end of the file or not an `ok` line. */
  function RunWhile(lines: seq<string>, r: nat, ok: string -> bool): (e: nat)
    ensures r <= e
    decreases |lines| - r
  {
    if Eof(LineAt(lines, r)) || !ok(LineAt(lines, r)) then r else RunWhile(lines, r + 1, ok)
  }

  /** The run stops at the end of the file or at the first line from `r` on that is not an `ok` line. */
  lemma {:induction false} RunWhileSpec(lines: seq<string>, r: nat, ok: string -> bool)
    ensures LineAt(lines, RunWhile(lines, r, ok)) == "" || !ok(LineAt(lines, RunWhile(lines, r, ok)))
    ensures forall j :: r <= j < RunWhile(lines, r, ok) ==> !Eof(LineAt(lines, j)) && ok(LineAt(lines, j))
    decreases |lines| - r
  {
    if !Eof(LineAt(lines, r)) && ok(LineAt(lines, r)) {
      RunWhileSpec(lines, r + 1, ok);
    }
  }

  /** A line inside the run that is still an `ok` line is not where the run stops. */
  lemma RunWhileOn(lines: seq<string>, r: nat, ok: string -> bool, e: nat)
    requires r <= e <= RunWhile(lines, r, ok) && !Eof(LineAt(lines, e)) && ok(LineAt(lines, e))
    ensures e < RunWhile(lines, r, ok)
  {
    RunWhileSpec(lines, r, ok);
  }

  /** A run reaches at least past the `ok` lines that follow its start. */
  lemma RunWhilePast(lines: seq<string>, r: nat, ok: string -> bool, e: nat)
    requires r <= e && forall j :: r <= j < e ==> !Eof(LineAt(lines, j)) && ok(LineAt(lines, j))
    ensures e <= RunWhile(lines, r, ok)
  {
    RunWhileSpec(lines, r, ok);
  }

  /** The run stops at the first line inside it that is the end of the file or not an `ok` line. */
  lemma RunWhileOff(lines: seq<string>, r: nat, ok: string -> bool, e: nat)
    requires r <= e <= RunWhile(lines, r, ok) && (Eof(LineAt(lines, e)) || !ok(LineAt(lines, e)))
    ensures e == RunWhile(lines, r, ok)
  {
    RunWhileSpec(lines, r, ok);
  }

  /** Lines that do not close a comment. */
  function Open(closing: string -> bool): string -> bool {
    line => !closing(line)
  }

  /** The last line of the comment begun at `p`: `p` itself for a one-line comment, else the first line that closes it. */
  function CommentLast(rd: Reader, lines: seq<string>, p: nat): (q: nat)
    ensures p <= q
  {
    if rd.single(LineAt(lines, p)) then p else RunWhile(lines, p, Open(rd.closing))
  }

  /** The block's comment: its lines from `p` through `q`, right-stripped (the end of the file as an empty line). */
  function CommentLines(lines: seq<string>, p: nat, q: nat): (c: seq<string>)
    requires p <= q
    ensures |c| == q - p + 1
    decreases q - p
  {
    if q == p then [Rstrip(LineAt(lines, p))] else CommentLines(lines, p, q - 1) + [Rstrip(LineAt(lines, q))]
  }

  /** The comment holds each of its lines, right-stripped, in file order. */
  lemma {:induction false} CommentLinesAt(lines: seq<string>, p: nat, q: nat, i: nat)
    requires p <= q && i <= q - p
    ensures CommentLines(lines, p, q)[i] == Rstrip(LineAt(lines, p + i))
    decreases q - p
  {
    if p < q && i < q - p {
      CommentLinesAt(lines, p, q - 1, i);
    }
  }

  /** The first line from `s` on that is not an empty line. */
  function SkipBlank(lines: seq<string>, s: nat): (t: nat)
    ensures s <= t && !Blank(LineAt(lines, t))
    ensures forall j :: s <= j < t ==> Blank(LineAt(lines, j))
    decreases |lines| - s
  {
    if !Blank(LineAt(lines, s)) then s else SkipBlank(lines, s + 1)
  }

  /** The entries the reader makes of the lines from `a` up to `b` under `comment`, in file order. */
  function RunEntries(rd: Reader, comment: seq<string>, lines: seq<string>, a: nat, b: nat): (es: seq<Entry>)
    requires a <= b
    ensures |es| == b - a
    decreases b - a
  {
    if a == b then [] else RunEntries(rd, comment, lines, a, b - 1) + [rd.entry(comment, LineAt(lines, b - 1))]
  }

  /** Every line of a run becomes its entry, in file order. */
  lemma {:induction false} RunEntriesAt(rd: Reader, comment: seq<string>, lines: seq<string>, a: nat, b: nat, i: nat)
    requires a <= b && i < b - a
    ensures RunEntries(rd, comment, lines, a, b)[i] == rd.entry(comment, LineAt(lines, a + i))
    decreases b - a
  {
    if i < b - 1 - a {
      RunEntriesAt(rd, comment, lines, a, b - 1, i);
    }
  }

  /**
    One pass of the outer loop of `read_strings` from line `p`: the entries of the block (its
    comment, then its run of translation lines) and the line the next pass starts at, after the
    line read unconditionally and the empty lines that follow it.
   */
  function Block(rd: Reader, lines: seq<string>, p: nat): (b: (seq<Entry>, nat))
    ensures p < b.1
  {
    var q := CommentLast(rd, lines, p);
    var r := RunWhile(lines, q + 1, rd.translation);
    (RunEntries(rd, CommentLines(lines, p, q), lines, q + 1, r), SkipBlank(lines, r + 1))
  }

  /** `read_strings` from the line at `p`: one block after another until the end of the file. */
  function ReadFrom(rd: Reader, lines: seq<string>, p: nat): seq<Entry>
    decreases |lines| - p
  {
    if Eof(LineAt(lines, p)) then [] else Block(rd, lines, p).0 + ReadFrom(rd, lines, Block(rd, lines, p).1)
  }

  /** One block read from line `p`: its comment ends at `q`, its run of translation lines at `r`, and reading resumes at `s`. */
  lemma {:induction false} ReadFromStep(rd: Reader, lines: seq<string>, p: nat, q: nat, r: nat, s: nat)
    requires !Eof(LineAt(lines, p)) && q == CommentLast(rd, lines, p) && r == RunWhile(lines, q + 1, rd.translation)
    requires s == SkipBlank(lines, r + 1)
    ensures ReadFrom(rd, lines, p) == RunEntries(rd, CommentLines(lines, p, q), lines, q + 1, r) + ReadFrom(rd, lines, s)
  {
    var b := Block(rd, lines, p);
    assert b == (RunEntries(rd, CommentLines(lines, p, q), lines, q + 1, r), s);
    assert ReadFrom(rd, lines, p) == b.0 + ReadFrom(rd, lines, b.1);
  }

  /** The `k`-th entry of a run starting at `a` is the reader's entry for the run's `k`-th line, a translation line. */
  lemma RunOrigin(rd: Reader, comment: seq<string>, lines: seq<string>, a: nat, k: nat) returns (j: nat)
    requires 0 < a && k < RunWhile(lines, a, rd.translation) - a
    ensures a <= j < |lines| && rd.translation(lines[j])
    ensures RunEntries(rd, comment, lines, a, RunWhile(lines, a, rd.translation))[k] == rd.entry(comment, lines[j])
  {
    RunWhileSpec(lines, a, rd.translation);
    assert !Eof(LineAt(lines, a + k)) && rd.translation(LineAt(lines, a + k));
    RunEntriesAt(rd, comment, lines, a, RunWhile(lines, a, rd.translation), k);
    j := a + k;
  }

  /** Every entry of the block at `p` is the reader's entry, under some comment, for a translation line after `p`. */
  lemma BlockOrigin(rd: Reader, lines: seq<string>, p: nat, k: nat) returns (j: nat, c: seq<string>)
    requires k < |Block(rd, lines, p).0|
    ensures p < j < |lines| && rd.translation(lines[j]) && Block(rd, lines, p).0[k] == rd.entry(c, lines[j])
  {
    var q := CommentLast(rd, lines, p);
    c := CommentLines(lines, p, q);
    j := RunOrigin(rd, c, lines, q + 1, k);
  }

  /** Every entry read from line `p` on is the reader's entry, under some comment, for a translation line after `p`. */
  lemma {:induction false} ReadFromOrigin(rd: Reader, lines: seq<string>, p: nat, k: nat) returns (j: nat, c: seq<string>)
    requires k < |ReadFrom(rd, lines, p)|
    ensures p < j < |lines| && rd.translation(lines[j]) && ReadFrom(rd, lines, p)[k] == rd.entry(c, lines[j])
    decreases |lines| - p
  {
    var b := Block(rd, lines, p);
    ReadFromSplit(rd, lines, p);
    Lists.ConcatAt(b.0, ReadFrom(rd, lines, b.1), ReadFrom(rd, lines, p), k);
    if k < |b.0| {
      j, c := BlockOrigin(rd, lines, p, k);
    } else {
      j, c := ReadFromOrigin(rd, lines, b.1, k - |b.0|);
    }
  }

  /** What is read from a line that is not the end of the file is its block, then what is read after the block. */
  lemma ReadFromSplit(rd: Reader, lines: seq<string>, p: nat)
    requires 0 < |ReadFrom(rd, lines, p)|
    ensures ReadFrom(rd, lines, p) == Block(rd, lines, p).0 + ReadFrom(rd, lines, Block(rd, lines, p).1)
  {
  }

  /**
    Every entry `read_strings` produces comes from a translation line of the file: its localization
    is that line's text, it is what `LocalizationEntry` builds from the line, and its key and
    translation put back together give the line.
   */
  lemma ReadStringsOrigin(lines: seq<string>, k: nat)
    requires k < |ReadFrom(Strings(), lines, 0)|
    ensures var e := ReadFrom(Strings(), lines, 0)[k];
      exists j :: 0 < j < |lines| && IsTranslation(lines[j]) && e.localization == Chomp(lines[j])
        && Some(e) == LocalizationEntry(e.comment, Rstrip(lines[j]))
        && e.localization == "\"" + e.key + "\" = \"" + e.translation + "\";"
  {
    var e := ReadFrom(Strings(), lines, 0)[k];
    var j, c := ReadFromOrigin(Strings(), lines, 0, k);
    EntryOfSpec(c, lines[j]);
  }

  /**
    A block whose one-line comment is followed by `n` translation lines and then an empty line
    yields one entry per translation line, in order, and reading resumes after the empty lines.
   */
  lemma {:induction false} BlockRead(rd: Reader, lines: seq<string>, p: nat, n: nat)
    requires !Eof(LineAt(lines, p)) && rd.single(LineAt(lines, p))
    requires forall j :: p < j <= p + n ==> !Eof(LineAt(lines, j)) && rd.translation(LineAt(lines, j))
    requires Blank(LineAt(lines, p + n + 1)) && !rd.translation(LineAt(lines, p + n + 1))
    ensures ReadFrom(rd, lines, p) ==
      RunEntries(rd, [Rstrip(LineAt(lines, p))], lines, p + 1, p + n + 1) + ReadFrom(rd, lines, SkipBlank(lines, p + n + 2))
  {
    RunWhilePast(lines, p + 1, rd.translation, p + n + 1);
    RunWhileOff(lines, p + 1, rd.translation, p + n + 1);
    assert CommentLines(lines, p, p) == [Rstrip(LineAt(lines, p))];
    ReadFromStep(rd, lines, p, p, p + n + 1, SkipBlank(lines, p + n + 2));
  }

  /** An empty line is not a translation line. */
  lemma BlankNotTranslation(line: string)
    requires Blank(line)
    ensures !IsTranslation(line)
  {
    assert Chomp(line) == "";
    LastSplitSpec("", -8);
  }

  /**
    In a file laid out as `genstrings` writes it, a one-line comment, its translation lines and an
    empty line give exactly one entry per translation line, each carrying that comment.
   */
  lemma WellFormedBlock(lines: seq<string>, p: nat, n: nat)
    requires CommentSingle(LineAt(lines, p))
    requires forall j :: p < j <= p + n ==> !Eof(LineAt(lines, j)) && IsTranslation(LineAt(lines, j))
    requires Blank(LineAt(lines, p + n + 1))
    ensures ReadFrom(Strings(), lines, p) ==
      RunEntries(Strings(), [Rstrip(LineAt(lines, p))], lines, p + 1, p + n + 1)
      + ReadFrom(Strings(), lines, SkipBlank(lines, p + n + 2))
  {
    BlankNotTranslation(LineAt(lines, p + n + 1));
    assert !Eof(LineAt(lines, p));
    BlockRead(Strings(), lines, p, n);
  }

  // ---------------------------------------------------------------------------------------
  // The reading loop

  /** Reads the comment that begins at line `p`: returns its last line and its right-stripped lines. */
  method ReadComment(rd: Reader, lines: seq<string>, p: nat) returns (q: nat, comment: seq<string>)
    ensures q == CommentLast(rd, lines, p) && comment == CommentLines(lines, p, q)
  {
    q := p;
    var line := LineAt(lines, q);
    comment := [Rstrip(line)];
    if !rd.single(line) {
      while !Eof(line) && !rd.closing(line)
        invariant p <= q <= RunWhile(lines, p, Open(rd.closing))
        invariant line == LineAt(lines, q) && comment == CommentLines(lines, p, q)
        decreases RunWhile(lines, p, Open(rd.closing)) - q
      {
        RunWhileOn(lines, p, Open(rd.closing), q);
        q := q + 1;
        line := LineAt(lines, q);
        comment := comment + [Rstrip(line)];
      }
      RunWhileOff(lines, p, Open(rd.closing), q);
    }
  }

  /** Adds an entry for each translation line from `r` on; returns the line that stopped the run. */
  method AddRun(localizations: Localizations, rd: Reader, comment: seq<string>, lines: seq<string>, r: nat)
    returns (e: nat)
    modifies localizations
    ensures e == RunWhile(lines, r, rd.translation)
    ensures localizations.localizations == old(localizations.localizations) + RunEntries(rd, comment, lines, r, e)
  {
    e := r;
    var line := LineAt(lines, e);
    while !Eof(line) && rd.translation(line)
      invariant r <= e <= RunWhile(lines, r, rd.translation) && line == LineAt(lines, e)
      invariant localizations.localizations == old(localizations.localizations) + RunEntries(rd, comment, lines, r, e)
      decreases RunWhile(lines, r, rd.translation) - e
    {
      RunWhileOn(lines, r, rd.translation, e);
      localizations.AddLocalization(rd.entry(comment, line));
      e := e + 1;
      line := LineAt(lines, e);
    }
    RunWhileOff(lines, r, rd.translation, e);
  }

  /** Skips the empty lines from `s` on; returns the first other line. */
  method SkipBlanks(lines: seq<string>, s: nat) returns (t: nat)
    ensures t == SkipBlank(lines, s)
  {
    t := s;
    var line := LineAt(lines, t);
    while !Eof(line) && Blank(line)
      invariant s <= t <= SkipBlank(lines, s) && line == LineAt(lines, t)
      decreases SkipBlank(lines, s) - t
    {
      t := t + 1;
      line := LineAt(lines, t);
    }
  }

  /**
    One pass of the outer loop of `read_strings` at line `p`: the comment, its translation lines,
    and the empty lines after them. Returns the line the next pass starts at.
   */
  method ReadBlock(localizations: Localizations, rd: Reader, lines: seq<string>, p: nat) returns (s: nat)
    requires !Eof(LineAt(lines, p))
    modifies localizations
    ensures p < s
    ensures old(localizations.localizations) + ReadFrom(rd, lines, p) == localizations.localizations + ReadFrom(rd, lines, s)
  {
    var q, comment := ReadComment(rd, lines, p);
    ghost var before := localizations.localizations;
    var r := AddRun(localizations, rd, comment, lines, q + 1);
    s := SkipBlanks(lines, r + 1);
    ReadFromStep(rd, lines, p, q, r, s);
    ConcatAssoc(before, RunEntries(rd, comment, lines, q + 1, r), ReadFrom(rd, lines, s));
  }

  /** The reading loop of `read_strings`, over the lines `readline()` returns in turn. */
  method Read(rd: Reader, lines: seq<string>) returns (localizations: Localizations)
    ensures fresh(localizations)
    ensures localizations.localizations == ReadFrom(rd, lines, 0)
  {
    var p := 0;
    var line := LineAt(lines, p);
    localizations := new Localizations();
    while !Eof(line)
      invariant line == LineAt(lines, p)
      invariant localizations.localizations + ReadFrom(rd, lines, p) == ReadFrom(rd, lines, 0)
      decreases |lines| - p
    {
      p := ReadBlock(localizations, rd, lines, p);
      line := LineAt(lines, p);
    }
  }

  /** `Driver.read_strings`: the file's entries, read with the module's patterns. */
  method ReadStrings(lines: seq<string>) returns (localizations: Localizations)
    ensures fresh(localizations)
    ensures localizations.localizations == ReadFrom(Strings(), lines, 0)
  {
    localizations := Read(Strings(), lines);
  }
}
