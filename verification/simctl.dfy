/**
  The simulator picker of `bin/simctl.py`: the stand-in for `fuzz.ratio` used when
  fuzzywuzzy is missing, the `--system`/`--name`/`--booted` filter, the runtime lookup
  by identifier, and the ranked list of every device of every runtime.

  The JSON that `xcrun simctl list -j` prints is a parameter (`SimData`): its runtimes in
  listed order, and its devices grouped by runtime identifier in the order of the JSON object.
 */
module SimCtl {

  import opened Wrappers
  import opened Strs
  import Lists

  // ---------------------------------------------------------------------------
  // fuzz.ratio (the fallback class)
  // ---------------------------------------------------------------------------

  /** The fallback `fuzz.ratio(s1, s2)`: 1 when `s1` is in `s2`, else 0. */
  function Ratio(s1: string, s2: string): (r: int)
    ensures r == 0 || r == 1
  {
    if Contains(s2, s1) then 1 else 0
  }

  /** The ratio is 1 exactly when `s1` occurs somewhere in `s2`, and 0 exactly when it occurs nowhere. */
  lemma RatioSpec(s1: string, s2: string)
    ensures Ratio(s1, s2) == 1 <==> exists i :: OccursAt(s2, s1, i)
    ensures Ratio(s1, s2) == 0 <==> forall i :: !OccursAt(s2, s1, i)
  {
    ContainsIffOccurs(s2, s1);
  }

  /** Any text scores 1 against a text it is part of. */
  lemma RatioOfPart(before: string, s1: string, after: string)
    ensures Ratio(s1, before + s1 + after) == 1
  {
    var s2 := before + s1 + after;
    assert s2[|before|..|before| + |s1|] == s1;
    assert OccursAt(s2, s1, |before|);
    RatioSpec(s1, s2);
  }

  // ---------------------------------------------------------------------------
  // SimFilter.valid
  // ---------------------------------------------------------------------------

  /**
    The filtering arguments. An option left unset (None) and an empty text are both
    falsy in the source, so both are the empty string here.
   */
  datatype Args = Args(system: string, name: string, booted: bool)

  /** A runtime entry: the three keys the script reads. */
  datatype Runtime = Runtime(identifier: string, name: string, version: string)

  /** A device entry: the two keys the filter and the ranking read. */
  datatype Device = Device(name: string, state: string)

  /** `--system` is set and is not in the runtime's name, ignoring letter case. */
  predicate SystemRejects(args: Args, runtime: Runtime) {
    args.system != "" && !Contains(Lower(runtime.name), Lower(args.system))
  }

  /** `--name` is set and is not in the device's name, ignoring letter case. */
  predicate NameRejects(args: Args, device: Device) {
    args.name != "" && !Contains(Lower(device.name), Lower(args.name))
  }

  /** `--booted` is set and the device's state is not `booted` in any letter case. */
  predicate StateRejects(args: Args, device: Device) {
    args.booted && Lower(device.state) != "booted"
  }

  /**
    `SimFilter.valid(runtime, device)`: the flag starts true and each failed test clears it;
    a missing runtime or device skips its tests.
   */
  function Valid(args: Args, runtime: Option<Runtime>, device: Option<Device>): (rv: bool)
    ensures !rv <==> (runtime.Some? && SystemRejects(args, runtime.value))
                     || (device.Some? && NameRejects(args, device.value))
                     || (device.Some? && StateRejects(args, device.value))
  {
    var rv0 := true;
    var rv1 := if runtime.Some? && SystemRejects(args, runtime.value) then false else rv0;
    var rv2 := if device.Some? && NameRejects(args, device.value) then false else rv1;
    if device.Some? && StateRejects(args, device.value) then false else rv2
  }

  /** With no filter set, every runtime and device is valid. */
  lemma ValidUnfiltered(runtime: Option<Runtime>, device: Option<Device>)
    ensures Valid(Args("", "", false), runtime, device)
  {
  }

  /**
    A runtime whose name holds the `--system` text, and a device whose name holds the
    `--name` text and that is booted, pass the filter — whatever the letter case of either side.
   */
  lemma {:induction false} ValidWhenMatching(args: Args, runtime: Runtime, device: Device,
                                             r1: string, r2: string, d1: string, d2: string)
    requires Lower(runtime.name) == Lower(r1) + Lower(args.system) + Lower(r2)
    requires Lower(device.name) == Lower(d1) + Lower(args.name) + Lower(d2)
    requires Lower(device.state) == "booted"
    ensures Valid(args, Some(runtime), Some(device))
  {
    RatioOfPart(Lower(r1), Lower(args.system), Lower(r2));
    RatioOfPart(Lower(d1), Lower(args.name), Lower(d2));
  }

  /** A name that differs from the `--name` text only in letter case passes; so does `Booted` for `--booted`. */
  lemma ValidSameName(args: Args, runtime: Option<Runtime>, device: Device)
    requires Lower(device.name) == Lower(args.name)
    requires device.state == "Booted"
    requires runtime.None?
    ensures Valid(args, runtime, Some(device))
  {
    ContainsSelf(Lower(args.name));
    assert Lower(device.state) == "booted";
  }

  // ---------------------------------------------------------------------------
  // SimData.getruntime
  // ---------------------------------------------------------------------------

  /** The text `getruntime` strips from an unlisted identifier. */
  const RuntimePrefix: string := "com.apple.CoreSimulator.SimRuntime."

  /** The JSON of `simctl list -j`: runtimes in listed order, device groups keyed by runtime identifier. */
  datatype SimData = SimData(runtimes: seq<Runtime>, devices: seq<(string, seq<Device>)>)

  function HasIdentifier(identifier: string): Runtime -> bool {
    (r: Runtime) => r.identifier == identifier
  }

  /**
    The runtime `getruntime` makes up for an identifier nobody lists: the prefix removed, the
    rest split on `-`, the first piece the system and the others, joined by `.`, the version.
   */
  function Derived(identifier: string): (r: Runtime)
    ensures r.identifier == identifier
  {
    var parts := Split(ReplaceAll(identifier, RuntimePrefix, ""), '-');
    var version := JoinWith(parts[1..], ".");
    Runtime(identifier, parts[0] + " " + version, version)
  }

  /** `getruntime(identifier)`: the first listed runtime with that identifier, or the derived one. */
  function GetRuntime(runtimes: seq<Runtime>, identifier: string): (r: Runtime)
    ensures r.identifier == identifier
    ensures r in runtimes || r == Derived(identifier)
  {
    Lists.FirstSpec(runtimes, HasIdentifier(identifier));
    match Lists.First(runtimes, HasIdentifier(identifier))
    case Some(r) => r
    case None => Derived(identifier)
  }

  /** A listed identifier gives the first runtime that carries it. */
  lemma GetRuntimeFirst(runtimes: seq<Runtime>, identifier: string, i: nat)
    requires i < |runtimes| && runtimes[i].identifier == identifier
    requires forall j :: 0 <= j < i ==> runtimes[j].identifier != identifier
    ensures GetRuntime(runtimes, identifier) == runtimes[i]
  {
    Lists.FirstAt(runtimes, HasIdentifier(identifier), i);
  }

  /** An identifier no runtime carries gives the derived runtime. */
  lemma GetRuntimeUnlisted(runtimes: seq<Runtime>, identifier: string)
    requires forall j :: 0 <= j < |runtimes| ==> runtimes[j].identifier != identifier
    ensures GetRuntime(runtimes, identifier) == Derived(identifier)
  {
    Lists.FirstNone(runtimes, HasIdentifier(identifier));
  }

  /**
    For `com.apple.CoreSimulator.SimRuntime.<system>-<v1>-…-<vn>` the derived name is
    `<system> <v1>.….<vn>` and the version `<v1>.….<vn>`.
   */
  lemma DerivedName(system: string, versionParts: seq<string>)
    requires '-' !in system && forall i :: 0 <= i < |versionParts| ==> '-' !in versionParts[i]
    requires !Contains(JoinWith([system] + versionParts, "-"), RuntimePrefix)
    ensures Derived(RuntimePrefix + JoinWith([system] + versionParts, "-")).version
            == JoinWith(versionParts, ".")
    ensures Derived(RuntimePrefix + JoinWith([system] + versionParts, "-")).name
            == system + " " + JoinWith(versionParts, ".")
  {
    var parts := [system] + versionParts;
    ReplaceLeading(RuntimePrefix, JoinWith(parts, "-"));
    SplitJoin(parts, '-');
    assert parts[1..] == versionParts;
  }

  /** The identifier `com.apple.CoreSimulator.SimRuntime.iOS-14-2`, unlisted, is named `iOS 14.2`. */
  lemma DerivedExample()
    ensures Derived(RuntimePrefix + "iOS-14-2").name == "iOS 14.2"
  {
    var versionParts := ["14", "2"];
    var parts := ["iOS"] + versionParts;
    var rest := JoinWith(parts, "-");
    assert parts[1..] == versionParts && versionParts[1..] == ["2"];
    assert JoinWith(versionParts, "-") == "14-2";
    assert rest == "iOS-14-2";
    assert JoinWith(versionParts, ".") == "14.2";
    ContainsIffOccurs(rest, RuntimePrefix);
    DerivedName("iOS", versionParts);
  }

  // ---------------------------------------------------------------------------
  // SimData.sorted_list
  // ---------------------------------------------------------------------------

  /** A device of the ranked list with the keys `sorted_list` gives it. */
  datatype Listed = Listed(device: Device, runtime: Runtime, searchNameRatio: int, runtimeRatio: int)

  /** The tuple the list is sorted by. */
  datatype SortKey = SortKey(searchNameRatio: int, runtimeRatio: int, booted: int, version: string)

  function KeyOf(l: Listed): SortKey {
    SortKey(l.searchNameRatio, l.runtimeRatio, if l.device.state == "Booted" then 1 else 0, l.runtime.version)
  }

  /** Python's `<=` on the key tuples: lexicographic, the version compared as a string. */
  predicate KeyLe(a: SortKey, b: SortKey) {
    a.searchNameRatio < b.searchNameRatio
    || (a.searchNameRatio == b.searchNameRatio
        && (a.runtimeRatio < b.runtimeRatio
            || (a.runtimeRatio == b.runtimeRatio
                && (a.booted < b.booted || (a.booted == b.booted && LexLe(a.version, b.version))))))
  }

  lemma KeyLeTotal(a: SortKey, b: SortKey)
    ensures KeyLe(a, b) || KeyLe(b, a)
  {
    LexLeTotal(a.version, b.version);
  }

  lemma KeyLeTransitive(a: SortKey, b: SortKey, c: SortKey)
    requires KeyLe(a, b) && KeyLe(b, c)
    ensures KeyLe(a, c)
  {
    if a.searchNameRatio == b.searchNameRatio == c.searchNameRatio
       && a.runtimeRatio == b.runtimeRatio == c.runtimeRatio
       && a.booted == b.booted == c.booted
    {
      LexLeTransitive(a.version, b.version, c.version);
    }
  }

  /** One device with its runtime and the two ratios against the search texts (0 when a search text is unset). */
  function Annotate(runtime: Runtime, device: Device, searchname: string, searchruntime: string): Listed {
    Listed(device, runtime,
           if searchname != "" then Ratio(Lower(searchname), Lower(device.name)) else 0,
           if searchruntime != "" then Ratio(Lower(searchruntime), Lower(runtime.name)) else 0)
  }

  function AnnotateWith(runtime: Runtime, searchname: string, searchruntime: string): Device -> Listed {
    device => Annotate(runtime, device, searchname, searchruntime)
  }

  /** The devices of one group, each with the runtime its identifier resolves to. */
  function ListGroup(runtimes: seq<Runtime>, searchname: string, searchruntime: string)
    : ((string, seq<Device>)) -> seq<Listed>
  {
    (group: (string, seq<Device>)) => Lists.Map(group.1, AnnotateWith(GetRuntime(runtimes, group.0), searchname, searchruntime))
  }

  /** Every device of every group, in listing order, before the sort. */
  function Listing(data: SimData, searchname: string, searchruntime: string): seq<Listed> {
    Lists.Collect(data.devices, ListGroup(data.runtimes, searchname, searchruntime))
  }

  /** Each element's key is at most the one before it. */
  predicate Descending(s: seq<Listed>) {
    forall i :: 0 < i < |s| ==> KeyLe(KeyOf(s[i]), KeyOf(s[i - 1]))
  }

  /** Places `x` before the first element whose key is below its own, so equal keys keep their order. */
  function Insert(s: seq<Listed>, x: Listed): seq<Listed>
    decreases |s|
  {
    if s == [] then [x]
    else if !KeyLe(KeyOf(x), KeyOf(s[0])) then [x] + s
    else [s[0]] + Insert(s[1..], x)
  }

  /** `list.sort(key=KeyOf, reverse=True)`: a stable sort into descending key order. */
  function SortDesc(xs: seq<Listed>): seq<Listed>
    decreases |xs|
  {
    if xs == [] then [] else Insert(SortDesc(xs[..|xs| - 1]), xs[|xs| - 1])
  }

  /** Inserting adds exactly `x`, starts with `x` or with the old head, and keeps the order descending. */
  lemma {:induction false} InsertSpec(s: seq<Listed>, x: Listed)
    ensures multiset(Insert(s, x)) == multiset(s) + multiset{x}
    ensures Insert(s, x)[0] == x || (s != [] && Insert(s, x)[0] == s[0])
    ensures Descending(s) ==> Descending(Insert(s, x))
    decreases |s|
  {
    if s != [] {
      if !KeyLe(KeyOf(x), KeyOf(s[0])) {
        KeyLeTotal(KeyOf(x), KeyOf(s[0]));
      } else {
        InsertSpec(s[1..], x);
        assert s == [s[0]] + s[1..];
        var r := Insert(s[1..], x);
        assert Insert(s, x) == [s[0]] + r;
        if Descending(s) {
          assert Descending(s[1..]) by {
            forall i | 0 < i < |s[1..]| ensures KeyLe(KeyOf(s[1..][i]), KeyOf(s[1..][i - 1])) {
              assert s[1..][i] == s[i + 1] && s[1..][i - 1] == s[i];
            }
          }
          forall i | 0 < i < |[s[0]] + r| ensures KeyLe(KeyOf(([s[0]] + r)[i]), KeyOf(([s[0]] + r)[i - 1])) {
            if i > 1 {
              assert ([s[0]] + r)[i] == r[i - 1] && ([s[0]] + r)[i - 1] == r[i - 2];
            }
          }
        }
      }
    }
  }

  /** Sorting keeps every element, as often as it occurs, and puts them in descending key order. */
  lemma {:induction false} SortDescSpec(xs: seq<Listed>)
    ensures multiset(SortDesc(xs)) == multiset(xs)
    ensures Descending(SortDesc(xs))
    decreases |xs|
  {
    if xs != [] {
      var n := |xs| - 1;
      SortDescSpec(xs[..n]);
      InsertSpec(SortDesc(xs[..n]), xs[n]);
      assert xs == xs[..n] + [xs[n]];
    }
  }

  /** In a descending list every later key is at most every earlier one. */
  lemma {:induction false} DescendingOrdered(s: seq<Listed>, i: nat, j: nat)
    requires Descending(s) && i < j < |s|
    ensures KeyLe(KeyOf(s[j]), KeyOf(s[i]))
    decreases j - i
  {
    if j - 1 > i {
      DescendingOrdered(s, i, j - 1);
      KeyLeTransitive(KeyOf(s[j]), KeyOf(s[j - 1]), KeyOf(s[i]));
    }
  }

  /** An element whose key is at most every key of the list goes to its end. */
  lemma {:induction false} InsertLast(s: seq<Listed>, x: Listed)
    requires forall i :: 0 <= i < |s| ==> KeyLe(KeyOf(x), KeyOf(s[i]))
    ensures Insert(s, x) == s + [x]
    decreases |s|
  {
    if s != [] {
      assert forall i :: 0 <= i < |s[1..]| ==> s[1..][i] == s[i + 1];
      InsertLast(s[1..], x);
      assert s == [s[0]] + s[1..];
    }
  }

  /** The sort is stable: a list already in descending order comes back unchanged. */
  lemma {:induction false} SortDescSorted(xs: seq<Listed>)
    requires Descending(xs)
    ensures SortDesc(xs) == xs
    decreases |xs|
  {
    if xs != [] {
      var n := |xs| - 1;
      assert Descending(xs[..n]) by {
        forall i | 0 < i < n ensures KeyLe(KeyOf(xs[..n][i]), KeyOf(xs[..n][i - 1])) {
          assert xs[..n][i] == xs[i] && xs[..n][i - 1] == xs[i - 1];
        }
      }
      SortDescSorted(xs[..n]);
      forall i | 0 <= i < n ensures KeyLe(KeyOf(xs[n]), KeyOf(xs[..n][i])) {
        DescendingOrdered(xs, i, n);
      }
      InsertLast(xs[..n], xs[n]);
      assert xs == xs[..n] + [xs[n]];
    }
  }

  /** Sorting twice is sorting once. */
  lemma SortDescIdempotent(xs: seq<Listed>)
    ensures SortDesc(SortDesc(xs)) == SortDesc(xs)
  {
    SortDescSpec(xs);
    SortDescSorted(SortDesc(xs));
  }

  /** The inner loop of `sorted_list`: appends each device of one group with its runtime and ratios. */
  method AppendGroup(rv: seq<Listed>, runtime: Runtime, devices: seq<Device>,
                     searchname: string, searchruntime: string)
    returns (out: seq<Listed>)
    ensures out == rv + Lists.Map(devices, AnnotateWith(runtime, searchname, searchruntime))
  {
    out := rv;
    for j := 0 to |devices|
      invariant out == rv + Lists.Map(devices[..j], AnnotateWith(runtime, searchname, searchruntime))
    {
      var device := devices[j];
      var searchNameRatio := if searchname != "" then Ratio(Lower(searchname), Lower(device.name)) else 0;
      var runtimeRatio := if searchruntime != "" then Ratio(Lower(searchruntime), Lower(runtime.name)) else 0;
      Lists.MapPrefix(devices, AnnotateWith(runtime, searchname, searchruntime), j);
      out := out + [Listed(device, runtime, searchNameRatio, runtimeRatio)];
    }
    assert devices[..|devices|] == devices;
  }

  /**
    `sorted_list(searchname, searchruntime)`: every device of every runtime group, with its runtime
    and ratios, sorted by (name ratio, runtime ratio, booted, runtime version), largest first.
   */
  method SortedList(data: SimData, searchname: string, searchruntime: string) returns (rv: seq<Listed>)
    ensures rv == SortDesc(Listing(data, searchname, searchruntime))
    ensures multiset(rv) == multiset(Listing(data, searchname, searchruntime))
    ensures forall i, j :: 0 <= i < j < |rv| ==> KeyLe(KeyOf(rv[j]), KeyOf(rv[i]))
  {
    rv := [];
    for i := 0 to |data.devices|
      invariant rv == Lists.Collect(data.devices[..i], ListGroup(data.runtimes, searchname, searchruntime))
    {
      var (runtimeid, devices) := data.devices[i];
      var runtime := GetRuntime(data.runtimes, runtimeid);
      Lists.CollectPrefix(data.devices, ListGroup(data.runtimes, searchname, searchruntime), i);
      rv := AppendGroup(rv, runtime, devices, searchname, searchruntime);
    }
    assert data.devices[..|data.devices|] == data.devices;
    ghost var listing := rv;
    rv := SortDesc(rv);
    SortDescSpec(listing);
    forall i, j | 0 <= i < j < |rv| ensures KeyLe(KeyOf(rv[j]), KeyOf(rv[i])) {
      DescendingOrdered(rv, i, j);
    }
  }

  /** A device of the ranked list is one of the listed devices, and each listed device is in it. */
  lemma SortedListHasEvery(data: SimData, searchname: string, searchruntime: string, l: Listed)
    ensures l in SortDesc(Listing(data, searchname, searchruntime))
            <==> exists i :: Lists.GivenBy(data.devices, ListGroup(data.runtimes, searchname, searchruntime), i, l)
  {
    var listing := Listing(data, searchname, searchruntime);
    SortDescSpec(listing);
    assert l in SortDesc(listing) <==> l in multiset(SortDesc(listing));
    Lists.CollectIn(data.devices, ListGroup(data.runtimes, searchname, searchruntime), l);
  }
}
