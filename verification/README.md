# quickutils in Dafny

A model of the command-line utilities of the `quickutils` repository, with
proofs about what they do:

- **syncfiles** (`bin/syncfiles.py`, and the older Python 2 script
  `syncfiles/syncfiles.py`). It keeps repo-side copies of configuration files in
  step with their live locations. The model covers:
  - finding the nearest `.syncfiles` above the working directory;
  - expanding its `dirmap` into the three lookup dictionaries, and building the
    ignore set;
  - discovering file pairs: by walking the tree, from command-line arguments, or
    from git's listing;
  - the status marks `! A . M ?` and the mtime mark `= < >`;
  - the copy rules of `sync`, `pull`, `push` and `install`;
  - the preview/execute copy step, with its single `makedirs` retry.

  The filesystem is a value, `FileSystem.Disk`. It maps path components to
  files (readable flag, content, integer mtime) and directories (listings in
  order), and it has a clock that stamps every write. Its `Exists`, `IsFile` and
  `IsDir` follow `os.path`: the empty path names nothing, and a path ending in
  `/` or `/.` names only a directory. Each script's `Config` is
  a Dafny class. Its fields are the dictionaries, the ignore set, the disk and
  the printed lines. Its methods update those fields in the same loops the
  script runs.
- **lancheck** (`network/lancheck.py`). The model covers:
  - `Device`: a dictionary that remembers the first change of each field;
  - `DeviceList`: a mac-keyed table with the merges `update_with` and
    `add_missing_fields`, the change counters, the filters `unknown_devices`
    and `extract_incomplete`, the column-width cache, and field-name
    resolution.

  Both are classes. A device is held in the list as a `LanCheck.Record` value.
- **unifi** (`bin/unifi.py` and `network/unifi.py`). The model covers
  configuration validation and lookup, url construction, turning a controller
  record into a device and into its access-point devices, merging all records
  into one device list, and the guard and payload of `change_user_info`. The
  two files hold the same transforms; they differ only in Python 2 `iteritems`
  against `items` and in where the configuration file is looked for. One
  module, `Unifi`, models both. `device_from_unifi` raises on a mac that is not text, and on a
  record with an `ip` but no mac, since `add_vendor` then looks up the vendor
  of None. The model returns that exception as the outcome `Raises`, which
  also ends `wifi_devices_from_unifi` and `device_list_from_unifi`.
- **genstrings** (`bin/genstrings.py`). `read_strings` is a state machine over
  the lines `readline()` returns; the end of the file is the empty line. It
  groups each comment block with the `"key" = "translation";` lines that follow
  it. The regular expressions become string predicates.
- **simctl** (`bin/simctl.py`). The model covers:
  - the fallback `fuzz.ratio`;
  - the `--system`/`--name`/`--booted` filter;
  - the runtime lookup, which makes up a name for an unlisted identifier;
  - the ranking of `sorted_list`.

Helper modules model the Python library calls the scripts rely on:

| module | models |
|---|---|
| `Strs` | `str` methods |
| `Lists` | list comprehensions and `for` accumulations |
| `ODict` | dictionaries that keep insertion order |
| `PosixPath` | `os.path.join`, `split`, `expanduser` |
| `FileSystem` | `shutil.copyfile`, `os.makedirs` |

A Python dictionary is modelled as a list of pairs in insertion order. Every
loop over a dictionary visits its entries in that order.

## Model

| member | source | states |
|---|---|---|
| FileSystem.CopyFileSpec | bin/syncfiles.py:446 | `shutil.copyfile` succeeds exactly when the source is a readable file, the destination is another path and it can be written (not a directory, parent directory exists); the destination then holds the source's bytes |
| FileSystem.MakeDirsSpec | bin/syncfiles.py:449 | a successful `os.makedirs` leaves the path a directory and changes no file and no clock |
| FileSystem.SlashKey | bin/syncfiles.py:208-232 | `f/` lands where `f` does, so when `f` is a file `os.path.isdir("f/")` is false |
| FileSystem.WriteKeepsOtherFiles | bin/syncfiles.py:446 | a copy writes its destination and leaves every other file as it was |
| SyncRules.StatusMark | bin/syncfiles.py:372-387 | the mark is `?` iff the live file is missing, `!` iff it exists but is unreadable, `A` iff live is readable and the repo copy is not, `.` iff the pair matches (both readable, equal digests), `M` iff both are readable and differ |
| SyncRules.CompareMark | bin/syncfiles.py:389-395 | `=` iff the two mtimes are equal, `<` iff the repo copy is older, `>` iff it is newer |
| SyncRules.FormatStatus | bin/syncfiles.py:372-387 | the line is empty exactly for a matching pair without `--all`; otherwise it starts with the status mark and a space, and an `M` line carries the mtime mark after the repo name |
| SyncRules.CopyStepEffect | bin/syncfiles.py:442-452 | `copyfile` always prints one `cp from to` line; without `--execute` the disk is unchanged; the command stops exactly when the first copy, the `makedirs` of the parent and the retry do not all lead to a successful copy; a copy that does not stop it puts the source's bytes at the destination |
| SyncRules.CopyStepKeepsOtherFiles | bin/syncfiles.py:442-452 | a copy step changes no file but its destination, whether or not it fails |
| SyncRules.PreviewKeepsDisk | bin/syncfiles.py:454-457 | without `--execute` no command changes the disk and none stops early |
| SyncRules.UnreadableIsReported | bin/syncfiles.py:403-406 | for `sync` and `pull`, a mismatched pair with an unreadable side gives one `cannot read:` line naming the unreadable side (live first) and no copy |
| SyncRules.SyncCopiesNewer | bin/syncfiles.py:408-413 | an executed `sync` of a readable mismatched pair copies live over repo when the repo mtime is strictly older, and repo over live otherwise, equal mtimes included |
| SyncRules.PushMakesMatch | bin/syncfiles.py:432-439 | an executed `push` of a mismatched pair leaves the pair matching when the live file it wrote is readable |
| SyncRules.InstallCopiesRepo | bin/syncfiles.py:459-464 | an executed `install` of a missing or mismatched pair puts the repo copy's bytes at the live location |
| SyncRules.PairStepWritesOnly | bin/syncfiles.py:398-464 | one pair step writes only the file its command may write: `pull` only the repo side, `push` and `install` only the live side |
| SyncRules.RunPairsWritesOnly | bin/syncfiles.py:398-464 | a whole command run leaves alone every file that no pair's command may write |
| SyncRules.RunPairsStopped | bin/syncfiles.py:442-452 | once an uncaught copy error has stopped the run, the remaining pairs change nothing |
| SyncRules.ExistingMissing | bin/syncfiles.py:467-468 | the two comprehensions split the pairs by whether the live file exists |
| PairDiscovery.IgnoredExtends | bin/syncfiles.py:188-197 | an ignored path hides every path that extends it as a string |
| PairDiscovery.StopsAtMappedRoot | bin/syncfiles.py:289-297 | the walk gives nothing for a name that is itself a mapped repo root |
| PairDiscovery.DiscoverSound | bin/syncfiles.py:259-305 | every pair the walk gives comes from one mapping entry, is not ignored, is not a mapped root, is not a directory, and has a relative path of at least one component |
| PairDiscovery.DiscoverAllSound | bin/syncfiles.py:270-277 | pairs found below `rel_dir` extend it, and a walk restricted to `rel_src` only gives pairs of that live directory |
| PairDiscovery.DescendBudget | bin/syncfiles.py:289-292 | the recursion only descends into existing directories, so it ends |
| PairDiscovery.LongestPrefixIsLongest | bin/syncfiles.py:237-240 | the entry found is a string prefix of the path and no prefix entry is longer; none is found only when no entry is a prefix |
| PairDiscovery.FileArgPairsIff | bin/syncfiles.py:208-231 | a file argument gives a pair for every mapping whose repo directory is a string prefix of it and under which both sides exist, not only the longest |
| PairDiscovery.FileArgAligned | bin/syncfiles.py:216-218 | when the path continues the repo directory with `/`, the pair's repo-side file is the argument itself |
| PairDiscovery.FileArgUnaligned | bin/syncfiles.py:216-218 | when the repo directory is a prefix without a following `/`, `replace` removes nothing and both sides of the pair are the argument itself |
| PairDiscovery.DirArgSound | bin/syncfiles.py:232-244 | a directory argument walks below the part of it after the longest mapped prefix and `/`, restricted to that mapping's live directory; every pair it gives is sound |
| PairDiscovery.NameArgPairsIff | bin/syncfiles.py:245-255 | a bare name gives one pair for every live directory holding a file of that name, with that directory's unexpanded `dirmap` key |
| PairDiscovery.NameArgEndsAsDir | bin/syncfiles.py:245-255 | a bare name that ends as a directory (`""`, `f/`, `f/.`) gives no pair: joined onto any live directory it is still no file for `os.path.isfile` |
| PairDiscovery.EmptyArgNoPairs | bin/syncfiles.py:208-255 | the argument `""` is neither a file nor a directory, takes the name branch and gives no pair |
| PairDiscovery.SlashedFileArgNoPairs | bin/syncfiles.py:208-255 | `f/` for a regular file `f` is neither a file nor a directory, takes the name branch and gives no pair |
| PairDiscovery.GitPairsFrom | bin/syncfiles.py:317-335 | every pair from git's listing comes from a listed path that is not ignored, under the mapping with the longest repo-directory prefix, with the rest after `/` as its relative path |
| PairDiscovery.ListPairsDisplayable | bin/syncfiles.py:341-362 | no pair a command works on makes the display lookups in the two dictionaries fail |
| SyncFiles.FindBaseNearest | bin/syncfiles.py:100-116 | the base directory is the longest prefix of the working directory's components holding `.syncfiles`; none is found only when no prefix holds one |
| SyncFiles.LocateConfig | bin/syncfiles.py:100-112 | the search loop computes that nearest base |
| SyncFiles.ExpandedKeys | bin/syncfiles.py:165-175 | the repo directories are exactly the `dirmap` keys, `.` expanded to the base directory and any other key joined to it |
| SyncFiles.ExpandedAgrees | bin/syncfiles.py:165-175 | every live directory is a key of both display dictionaries |
| SyncFiles.ExpandedDistinct | bin/syncfiles.py:165-175 | no repo directory is entered twice |
| SyncFiles.IgnoresSort | bin/syncfiles.py:177-186 | an ignore entry that exists becomes a path in `ignore_map`, any other becomes a pattern, and `ignore_map` holds only those paths and `basedir/.syncfiles` |
| SyncFiles.IgnoresKeepsConfig | bin/syncfiles.py:178 | `basedir/.syncfiles` is always ignored |
| SyncFiles.MapsAgreeDisplayable | bin/syncfiles.py:349-362 | after `expand_dirs` every live directory can be displayed |
| SyncFiles.WarningLines | bin/syncfiles.py:454-457 | the preview notice is printed iff `--execute` is off |
| SyncFiles.StatusLinesEmpty | bin/syncfiles.py:471-477 | without `--all`, no status line is printed exactly when every pair matches |
| SyncFiles.StatusUpToDate | bin/syncfiles.py:466-479 | without `--all`, `cmd_status` prints `All up to date` and nothing else exactly when every pair matches |
| SyncFiles.StatusLineShape | bin/syncfiles.py:372-387 | a status line starts with its mark and a space, so it never equals `All up to date` |
| SyncFiles.Config.constructor | bin/syncfiles.py:87-94 | the configuration is located and loaded, and while the run goes on, the three dictionaries are those `expand_dirs` builds |
| SyncFiles.Config.FindConfigFile | bin/syncfiles.py:96-131 | no configuration: `Couldn't locate a .syncfile` and exit status 1; otherwise `basedir` is the nearest base and `defs` is its parsed content, and an unreadable file stops the run |
| SyncFiles.Config.ValidateConfig | bin/syncfiles.py:133-149 | a `validate` value of false without `--force` prints the skipping line and exits with status 0; otherwise the run continues and nothing is printed |
| SyncFiles.Config.ExpandDirs | bin/syncfiles.py:151-186 | the three dictionaries, `ignore_map` and `ignore_pattern` are those of the `dirmap` and `ignore` entries |
| SyncFiles.Config.ExpandMappings | bin/syncfiles.py:165-175 | the `dirmap` loop builds the expanded dictionaries, which agree and repeat no key |
| SyncFiles.Config.ExpandIgnores | bin/syncfiles.py:177-186 | the ignore loop sorts entries into paths and patterns and keeps `basedir/.syncfiles` |
| SyncFiles.Config.ShouldIgnore | bin/syncfiles.py:188-197 | true iff some ignore path is a string prefix of the path or some pattern matches it |
| SyncFiles.Config.DiscoverFilePairs | bin/syncfiles.py:259-305 | the walk's loops compute the discovered pairs, which `PairDiscovery.DiscoverSound` describes |
| SyncFiles.Config.DiscoverListing | bin/syncfiles.py:280-304 | the inner loop appends the pairs of each listed name in listing order |
| SyncFiles.Config.DiscoverEntry | bin/syncfiles.py:281-304 | one listed name: ignored and mapped-root paths give nothing, a directory is walked, a file is a pair |
| SyncFiles.Config.LongestRepoDir | bin/syncfiles.py:237-240 | the loop finds the mapping with the longest repo-directory prefix |
| SyncFiles.Config.ConstructFilePairs | bin/syncfiles.py:199-257 | each argument in turn: a file, a directory or a bare name, as `PairDiscovery` states (so `""` and `f/` for a file give nothing); verbose output is turned off |
| SyncFiles.Config.ArgFilePairs | bin/syncfiles.py:208-255 | the body for one argument picks the file, directory or name branch with `os.path`'s `isfile` and `isdir` |
| SyncFiles.Config.ConstructGitPairs | bin/syncfiles.py:308-339 | the pairs of git's listing, or a stop on the unbound `files` when the listing failed |
| SyncFiles.Config.ListFilePairs | bin/syncfiles.py:341-347 | git's listing inside a work tree, else the arguments, else the whole walk |
| SyncFiles.Config.CopyFile | bin/syncfiles.py:442-452 | the copy step, with printed line and disk as `SyncRules.CopyStepEffect` states |
| SyncFiles.Config.ExecuteWarning | bin/syncfiles.py:454-457 | appends the preview notice iff `--execute` is off |
| SyncFiles.Config.SyncPair | bin/syncfiles.py:401-413 | one pair of `cmd_sync`, as `SyncRules.SyncCopiesNewer` and `SyncRules.UnreadableIsReported` state |
| SyncFiles.Config.PullPair | bin/syncfiles.py:420-427 | one pair of `cmd_pull`: report an unreadable side, else copy live over repo |
| SyncFiles.Config.PushPair | bin/syncfiles.py:435-437 | one pair of `cmd_push`: copy repo over live when they differ |
| SyncFiles.Config.InstallPair | bin/syncfiles.py:460-462 | one pair of `cmd_install`: copy repo over a missing or differing live file |
| SyncFiles.Config.RunCommand | bin/syncfiles.py:398-464 | the command loop runs the pairs in order and stops at an uncaught copy error |
| SyncFiles.Config.CmdSync | bin/syncfiles.py:398-415 | the pairs whose live file exists, each run through the `sync` rule, then the preview notice |
| SyncFiles.Config.CmdPull | bin/syncfiles.py:417-429 | the pairs whose live file exists, each run through the `pull` rule, then the preview notice |
| SyncFiles.Config.CmdPush | bin/syncfiles.py:432-439 | the pairs whose live file exists, each run through the `push` rule, then the preview notice |
| SyncFiles.Config.CmdInstall | bin/syncfiles.py:459-464 | every pair run through the `install` rule, then the preview notice |
| SyncFiles.Config.OutputStatus | bin/syncfiles.py:365-370 | prints the pair's status line when it is not empty, and returns it |
| SyncFiles.Config.OutputStatuses | bin/syncfiles.py:471-477 | prints the status lines of a list; reports whether it printed any |
| SyncFiles.Config.ReportStatus | bin/syncfiles.py:470-479 | the two status loops, then `All up to date` when neither printed and `--all` is off |
| SyncFiles.Config.CmdStatus | bin/syncfiles.py:466-479 | the status report of the listed pairs, or a stop when git's listing failed |
| SyncFilesLegacy.ExpandedInCwdKeys | syncfiles/syncfiles.py:88-99 | a repo directory is kept exactly when it is an expanded `dirmap` key that starts with the working directory |
| SyncFilesLegacy.ExpandedInCwdAgrees | syncfiles/syncfiles.py:88-99 | the kept dictionaries agree and hold no repo directory twice |
| SyncFilesLegacy.EnvOf | syncfiles/syncfiles.py:164 | the older script ignores a path exactly when it is a key of `ignore_map` |
| SyncFilesLegacy.DiscoverSkipsIgnored | syncfiles/syncfiles.py:150-183 | the walk never gives a pair whose repo-side file is an ignored path or a mapped root, and each pair comes from one mapping |
| SyncFilesLegacy.LookupNoPairs | syncfiles/syncfiles.py:111-145 | the argument `""`, and `f/` for a regular file `f`, are no files and give no pair |
| SyncFilesLegacy.CommandPairsDisplayable | syncfiles/syncfiles.py:185-204 | every pair a command works on can be displayed |
| SyncFilesLegacy.StatusLine | syncfiles/syncfiles.py:207-220 | every pair gets a line, a matching one included, starting with its status mark and a space |
| SyncFilesLegacy.StatusReportShape | syncfiles/syncfiles.py:258-266 | `cmd_status` prints one line per pair whose live file exists, none marked `?`, then one blank line, then one `?` line per other pair |
| SyncFilesLegacy.ColumnMarks | syncfiles/syncfiles.py:262-266 | over pairs that agree on whether the live file exists, every line is marked `?` or none is |
| SyncFilesLegacy.StepEffect | syncfiles/syncfiles.py:231-253 | a step prints `cp` exactly when it copies: `pull` when the pair differs and both sides are readable, `push` when it differs; only an executed copy changes the disk, and an uncaught copy error stops the command |
| SyncFilesLegacy.RunStopped | syncfiles/syncfiles.py:231-253 | once a copy error has stopped the run, the remaining pairs change nothing |
| SyncFilesLegacy.PreviewKeepsDisk | syncfiles/syncfiles.py:231-253 | without `--execute` neither command changes the disk or stops early |
| SyncFilesLegacy.Config.constructor | syncfiles/syncfiles.py:56-63 | the configuration is located and loaded, and while the run goes on, the kept dictionaries and `ignore_map` are those `expand_dirs` builds |
| SyncFilesLegacy.Config.FindConfigFile | syncfiles/syncfiles.py:65-81 | the nearest `.syncfiles`, loaded; none gives the message and exit status 1 |
| SyncFilesLegacy.Config.ExpandDirs | syncfiles/syncfiles.py:83-106 | the kept mappings, then the existing ignore entries |
| SyncFilesLegacy.Config.ExpandMappings | syncfiles/syncfiles.py:88-99 | an entry whose repo directory does not start with the working directory is skipped |
| SyncFilesLegacy.Config.ExpandIgnores | syncfiles/syncfiles.py:101-106 | only ignore entries that exist are kept, and `basedir/.syncfiles` always is |
| SyncFilesLegacy.Config.ConstructFilePairs | syncfiles/syncfiles.py:108-147 | each argument in turn: a file against every mapping that prefixes it, any other argument as a bare name (so `""` and `f/` for a file give nothing) |
| SyncFilesLegacy.Config.ArgFilePairs | syncfiles/syncfiles.py:111-145 | the body for one argument |
| SyncFilesLegacy.Config.DiscoverFilePairs | syncfiles/syncfiles.py:150-183 | the walk, skipping paths that are exactly ignored |
| SyncFilesLegacy.Config.DiscoverListing | syncfiles/syncfiles.py:159-182 | the inner loop over one listing |
| SyncFilesLegacy.Config.DiscoverEntry | syncfiles/syncfiles.py:160-182 | one listed name |
| SyncFilesLegacy.Config.ListFilePairs | syncfiles/syncfiles.py:185-189 | the arguments when given, else the whole walk |
| SyncFilesLegacy.Config.CopyFile | syncfiles/syncfiles.py:241-243 | prints `cp` and, with `--execute`, copies once with no retry |
| SyncFilesLegacy.Config.StepPair | syncfiles/syncfiles.py:234-253 | one pair of `cmd_pull` or `cmd_push` |
| SyncFilesLegacy.Config.RunCommand | syncfiles/syncfiles.py:234-253 | the loop over the pairs, stopped by an uncaught copy error |
| SyncFilesLegacy.Config.CmdCopy | syncfiles/syncfiles.py:231-253 | `cmd_pull` and `cmd_push` over the pairs whose live file exists |
| SyncFilesLegacy.Config.StatusPairs | syncfiles/syncfiles.py:259-260 | the two comprehensions, each over its own call of `list_file_pairs` |
| SyncFilesLegacy.Config.CmdStatus | syncfiles/syncfiles.py:258-266 | the report `SyncFilesLegacy.StatusReportShape` describes |
| LanCheck.FirstChangeRemembered | network/lancheck.py:68-73 | after any run of assignments a field's remembered value is the one it had before its first real change; a new key or an equal value records nothing |
| LanCheck.AssignAllInfo | network/lancheck.py:73 | after the assignments every field holds the value last given to it, or its old value |
| LanCheck.AssignWellFormed | network/lancheck.py:68-73 | an assignment repeats no key |
| LanCheck.AsNew | network/lancheck.py:102-103 | after `record_as_new`, `is_new` holds and the fields are unchanged |
| LanCheck.ClearedChanges | network/lancheck.py:105-118 | after `clear_changes` no field has changed, and the device is new only when it has no fields |
| LanCheck.Device.constructor | network/lancheck.py:51-53 | a copy of the fields with nothing changed |
| LanCheck.Device.SetItem | network/lancheck.py:68-73 | `device[key] = value`: the assignment whose properties `LanCheck.FirstChangeRemembered` states |
| LanCheck.Device.HasChanged | network/lancheck.py:108-115 | with a non-empty `check`, true iff some key of it has changed; otherwise true iff anything has changed |
| LanCheck.Device.RecordAsNew | network/lancheck.py:102-103 | `changed` becomes a copy of `info` |
| LanCheck.Device.ClearChanges | network/lancheck.py:105-106 | `changed` becomes empty and `info` is kept |
| LanCheck.Device.Matches | network/lancheck.py:90-95 | true iff the text is in the string form of some field value |
| LanCheck.Device.IsDisabled | network/lancheck.py:98-99 | true iff `ipv4` is `0.0.0.0`; no answer (the `KeyError`) without `ipv4` |
| LanCheck.FromDevicesKeys | network/lancheck.py:140-147 | a mac is in a new list exactly when it is the non-empty mac of some device |
| LanCheck.FromDevicesFirst | network/lancheck.py:143-147 | the device kept for a mac is the first device with it |
| LanCheck.FromDevicesEntries | network/lancheck.py:140-147 | every entry is one of the devices under its own non-empty mac |
| LanCheck.FromDevicesDistinct | network/lancheck.py:140-147 | no mac is entered twice |
| LanCheck.DeviceList.constructor | network/lancheck.py:136-151 | the mac table, no column cache, both counters zero |
| LanCheck.UpdateStepInserts | network/lancheck.py:334-337 | a device with an unseen mac is inserted marked new and counted as added |
| LanCheck.UpdateStepTable | network/lancheck.py:320-337 | one incoming device touches only its own mac's entry, and adds an entry exactly when it is counted as added |
| LanCheck.UpdateAllTable | network/lancheck.py:314-338 | after `update_with` a mac is known exactly when it was before or some incoming device has it; no mac is repeated; `added` counts the new entries; `changed` grows by at most one per incoming device |
| LanCheck.UpdateWithoutOverride | network/lancheck.py:325 | without `override` known devices are untouched and nothing counts as changed |
| LanCheck.UpdateInsertsFirst | network/lancheck.py:334-337 | without `override` every unseen mac ends up holding its first incoming device, marked new |
| LanCheck.UpdateKnownFields | network/lancheck.py:325-333 | with `override`, a field of a known device keeps its value or takes the truthy, differing value of an incoming device with that mac, and only for an override key |
| LanCheck.OverrideFields | network/lancheck.py:327-331 | overriding touches only the listed keys, each with a truthy incoming value |
| LanCheck.OverrideUnflagged | network/lancheck.py:326-333 | when no key was assigned the device is unchanged, so `changed` is not counted |
| LanCheck.OverrideDevice | network/lancheck.py:326-331 | the `override` loop on one known device |
| LanCheck.DeviceList.UpdateDevice | network/lancheck.py:321-337 | the loop body of `update_with` for one device |
| LanCheck.DeviceList.UpdateWith | network/lancheck.py:314-338 | the table and counters `LanCheck.UpdateAllTable` describes, and the column cache cleared |
| LanCheck.FillFromFields | network/lancheck.py:307-309 | filling from another device never overwrites: a field present keeps its value, an absent one takes the other's |
| LanCheck.FillFromChanged | network/lancheck.py:307-309 | filling records no change |
| LanCheck.AddVendorFields | network/lancheck.py:120-125 | only a falsy vendor is replaced, and only by a truthy looked-up vendor |
| LanCheck.AddMissingFields | network/lancheck.py:299-312 | every device keeps its changes and every field it had, except that a falsy vendor may be filled in |
| LanCheck.AddMissing | network/lancheck.py:304-310 | the table keeps its macs |
| LanCheck.CompleteDevice | network/lancheck.py:305-310 | the loop body for one device: the fields it lacks from `other`, then the vendor |
| LanCheck.DeviceList.AddMissingFields | network/lancheck.py:299-312 | the table `LanCheck.AddMissingFields` describes, counters kept, column cache cleared |
| LanCheck.UnknownDevicesSpec | network/lancheck.py:191-197 | the unknown devices are exactly the devices whose name is missing or empty, under their own macs |
| LanCheck.DeviceList.UnknownDevices | network/lancheck.py:191-197 | a new list of those devices |
| LanCheck.IncompleteSpec | network/lancheck.py:340-361 | the extracted devices are the live devices whose mac is known here and whose known record lacks one of `keys` or has it empty |
| LanCheck.HasMissing | network/lancheck.py:352-356 | the `keys` loop finds whether the known record lacks one of them |
| LanCheck.DeviceList.ExtractIncomplete | network/lancheck.py:340-361 | a new list of those devices |
| LanCheck.ClearedTable | network/lancheck.py:202-203 | every device's changes are cleared and its fields kept |
| LanCheck.DeviceList.ClearChanges | network/lancheck.py:199-206 | both counters reset and every device cleared, so `has_changes` is false |
| LanCheck.WidthsCover | network/lancheck.py:394-396 | every field of every device has a width at least as long as its text |
| LanCheck.WidthsOfAttained | network/lancheck.py:394-396 | each width is the length of one of the field's texts |
| LanCheck.WidthsOfKeys | network/lancheck.py:394-396 | a field has a width exactly when some device has it |
| LanCheck.AllFieldsIn | network/lancheck.py:394-395 | the width loop sees exactly the fields of the devices |
| LanCheck.AllFieldsCleared | network/lancheck.py:199-203 | clearing the changes does not change the widths |
| LanCheck.AddWidths | network/lancheck.py:395-396 | the inner loop adds one device's fields to the widths |
| LanCheck.DeviceList.ColWidth | network/lancheck.py:389-398 | a non-empty cached table is returned as it is; otherwise the widths are computed and cached |
| LanCheck.FindFieldSpec | network/lancheck.py:457-474 | a case-insensitive exact match wins over a substring match; the result is a column that contains the field; none only when no column does |
| LanCheck.FindIn | network/lancheck.py:461-472 | the two loops over the column names |
| LanCheck.DeviceList.FindOneField | network/lancheck.py:457-474 | `find_one_field` over the cached column names |
| LanCheck.ResolvedIn | network/lancheck.py:480-483 | the displayed names are exactly the resolved display fields |
| LanCheck.ExtraIn | network/lancheck.py:481-484 | the extra names are resolved minimum fields that are not displayed |
| LanCheck.BuildFieldsSpec | network/lancheck.py:476-489 | the resolved display fields, then the resolved minimum fields not among them, or the minimum fields when both are empty |
| LanCheck.DeviceList.BuildFields | network/lancheck.py:476-489 | `build_fields` over the cached column names |
| Unifi.ValidateConfigSpec | bin/unifi.py:74-80 | a configuration is accepted iff it has `login`, `site` and `baseurl`, and `login` has `username` and `password` |
| Unifi.AllInObject | bin/unifi.py:75-77 | the membership tests over an object |
| Unifi.TemplateAccepted | network/unifi.py:31-44 | the template saved for an invalid configuration passes validation |
| Unifi.ConfigFilePath | bin/unifi.py:58-64 | `./.unifi.json` when it exists, else `~/.unifi.json` when that exists, else `./.unifi.json` |
| Unifi.ConstructUrlPlain | bin/unifi.py:83-87 | a definition without braces is appended to the base url |
| Unifi.ConstructUrlSite | network/unifi.py:47-51 | `{site}` in a definition is replaced by the configured site, after the base url |
| Unifi.FormatField | bin/unifi.py:84-85 | a named field of the format string is replaced by its value |
| Unifi.DefsRenamed | bin/unifi.py:192-197 | the renaming table sends `ip` to `ipv4` and keeps `name`, `hostname`, `mac`, `model`, `_id` |
| Unifi.RenameFields | bin/unifi.py:194-197 | the renaming loop |
| Unifi.DeviceFromOutcome | bin/unifi.py:199-225 | `device_from_unifi` raises exactly when the mac is not text, or when there is an `ip` but no mac, because `add_vendor` then looks up the vendor of None; it returns None exactly for a record without `ip` that does not raise; otherwise it makes a device with no changes |
| Unifi.DeviceInfoKeys | bin/unifi.py:191-207 | the built fields have an address exactly when the record has `ip`, and a mac exactly when the record has one |
| Unifi.DeviceFromMade | bin/unifi.py:221-226 | a record with an `ip` and a text mac gives its built fields with the vendor added |
| Unifi.DeviceFromAddress | bin/unifi.py:205-207 | the address is the record's `ip`, except that the gateway's public address becomes `192.168.1.1` |
| Unifi.DeviceFromMac | bin/unifi.py:199-200 | the device's mac is the record's mac upper-cased |
| Unifi.DeviceFromName | network/unifi.py:156-157 | `name` is the record's name, or its hostname when it has none |
| Unifi.DeviceFromModel | bin/unifi.py:209-219 | a known model code gives that model's full name and image; any other model is copied and no image is set |
| Unifi.ExpandModelFields | network/unifi.py:170-173 | the model loop writes the table entry's fields in turn |
| Unifi.DeviceFromOnly | bin/unifi.py:191-226 | the device holds only the renamed fields, `image` and `vendor` |
| Unifi.DeviceFromVendor | bin/unifi.py:224-225 | the vendor is the one looked up for the record's upper-cased mac, when that is truthy |
| Unifi.DeviceInfoVendor | bin/unifi.py:191-219 | the built fields hold no vendor, and the record's text mac upper-cased |
| Unifi.DeviceFromUnifi | bin/unifi.py:191-226 | `device_from_unifi` returns, or raises, as the `Unifi.DeviceFrom…` lemmas describe |
| Unifi.WifiInfoGet | bin/unifi.py:236-246 | an access point's device has the entry's channel and network name, its upper-cased bssid as mac, `5 Ghz` iff the channel is above 20, the fixed network, and the main device's other fields |
| Unifi.WifiDevicesOutcome | network/unifi.py:182-206 | `wifi_devices_from_unifi` raises exactly when `device_from_unifi` does; otherwise there is a list exactly when the record makes a device and has at least one `vap_table` entry |
| Unifi.WifiDevicesKeys | bin/unifi.py:228-252 | the list holds exactly the non-empty upper-cased bssids of the entries |
| Unifi.WifiDevicesFirst | network/unifi.py:186-204 | the device kept for a bssid is built from the first entry with that bssid |
| Unifi.WifiMacs | bin/unifi.py:245-246 | the entries' devices have the entries' upper-cased bssids as macs |
| Unifi.WifiEntry | bin/unifi.py:236-246 | the loop body for one entry |
| Unifi.WifiRecords | bin/unifi.py:235-248 | one device per entry, in order |
| Unifi.WifiDevicesFromUnifi | bin/unifi.py:228-252 | `wifi_devices_from_unifi` gives the list the lemmas above describe, or none, or raises |
| Unifi.MergeRecordSpec | bin/unifi.py:182-188 | merging one record raises exactly when the record crashes `device_from_unifi`; otherwise it keeps every known device, counts no change, repeats no mac, and adds exactly the macs the record brings |
| Unifi.MergeRecordsStays | bin/unifi.py:182-188 | once a record has raised, the whole merge raises |
| Unifi.MergeRecordsSpec | network/unifi.py:133-143 | the merge raises exactly when some record crashes `device_from_unifi`; otherwise a mac is known afterwards exactly when some record brings it, known devices are kept and no mac is repeated |
| Unifi.MergeInsertsDevice | bin/unifi.py:183-185 | a record's own device with a new mac is inserted marked new, before its access points |
| Unifi.MergeTwice | bin/unifi.py:185-188 | two merges without `override` keep known devices and count no change |
| Unifi.DeviceListFromUnifi | bin/unifi.py:179-189 | `device_list_from_unifi` over the controller's records computes that merge, or raises where it does |
| Unifi.MergeRecordInto | bin/unifi.py:182-188 | the loop body merges one record into the list, or raises where `MergeRecord` does |
| Unifi.MergeNewDevice | bin/unifi.py:183-188 | a device with a new mac, merged and then followed by its access points, is kept marked new |
| Unifi.UserUpdateSpec | bin/unifi.py:166-177 | without `_id` the call raises; with a text `_id` the request goes to `/api/s/<site>/rest/user/<id>` with the new fields key for key, or no payload when there are none |
| Unifi.CopiedSame | network/unifi.py:124-126 | the copying loop gives the same dictionary |
| Unifi.ChangeUserInfo | network/unifi.py:120-131 | the guard, the copying loop and the request `put` would send |
| GenStrings.GroupsSpec | bin/genstrings.py:32 | a line matches `re_translation` exactly when a key can end somewhere, and the groups rebuild the line |
| GenStrings.GroupsAssemble | bin/genstrings.py:32 | building `"key" = "translation";` and matching it again gives the key and the translation back, when the translation holds no separator |
| GenStrings.LastSplitSpec | bin/genstrings.py:32 | the greedy key group ends at the last place a key can end |
| GenStrings.ChompSpec | bin/genstrings.py:32-35 | `$` allows at most one trailing newline |
| GenStrings.EntryOfSpec | bin/genstrings.py:37-41 | an entry built from a translation line carries the comment and the stripped line, which its key and translation rebuild |
| GenStrings.LocalizationOk | bin/genstrings.py:88 | a line that matched `re_translation` still matches once right-stripped, so building its entry does not fail |
| GenStrings.Localizations.constructor | bin/genstrings.py:46-48 | the list starts empty |
| GenStrings.Localizations.AddLocalization | bin/genstrings.py:50-51 | appends the entry |
| GenStrings.RunWhileSpec | bin/genstrings.py:87-89 | a run of translation lines stops at the end of the file or the first other line |
| GenStrings.CommentLinesAt | bin/genstrings.py:78-83 | the comment holds each of its lines right-stripped, in file order, the end of the file as an empty line |
| GenStrings.SkipBlank | bin/genstrings.py:92-94 | the skip loop stops at the first line that is not exactly `\n` |
| GenStrings.RunEntriesAt | bin/genstrings.py:87-89 | every line of a run becomes its entry, in file order |
| GenStrings.ReadFromStep | bin/genstrings.py:76-94 | one block: its comment, the entries of its translation lines, then reading resumes after one unconditional line and the empty lines |
| GenStrings.Block | bin/genstrings.py:76-94 | every outer pass consumes at least one line |
| GenStrings.ReadStringsOrigin | bin/genstrings.py:86-89 | every entry comes from a translation line of the file, with its key and translation rebuilding that line |
| GenStrings.WellFormedBlock | bin/genstrings.py:76-94 | in a file laid out as the `genstrings` tool writes it, a one-line comment, its `n` translation lines and an empty line give those `n` entries, and reading goes on after the empty lines |
| GenStrings.ReadComment | bin/genstrings.py:78-83 | the comment loop |
| GenStrings.AddRun | bin/genstrings.py:86-89 | the translation loop appends one entry per line of the run |
| GenStrings.SkipBlanks | bin/genstrings.py:92-94 | the skip loop |
| GenStrings.ReadBlock | bin/genstrings.py:77-94 | one outer pass, which moves forward and appends what `GenStrings.ReadFromStep` says |
| GenStrings.ReadStrings | bin/genstrings.py:69-96 | `read_strings` collects the entries of the whole file in order |
| SimCtl.RatioSpec | bin/simctl.py:40-44 | the fallback ratio is 1 iff `s1` occurs in `s2`, and 0 otherwise |
| SimCtl.RatioOfPart | bin/simctl.py:40-44 | any text scores 1 against a text it is part of |
| SimCtl.Valid | bin/simctl.py:51-61 | false iff a set `--system` is not in the runtime's name, or a set `--name` is not in the device's name, or `--booted` is set and the state is not `booted`, all ignoring letter case |
| SimCtl.ValidUnfiltered | bin/simctl.py:51-61 | with no filter set everything is valid |
| SimCtl.ValidWhenMatching | bin/simctl.py:53-60 | a runtime and a device whose names contain the filter texts, ignoring case, and that are booted, are valid |
| SimCtl.ValidSameName | bin/simctl.py:57-59 | a name that differs from `--name` only in case passes, as does the state `Booted` for `--booted` |
| SimCtl.GetRuntime | bin/simctl.py:104-112 | the runtime returned has the identifier asked for, and is a listed runtime or the derived one |
| SimCtl.GetRuntimeFirst | bin/simctl.py:105-107 | a listed identifier gives the first runtime carrying it |
| SimCtl.GetRuntimeUnlisted | bin/simctl.py:108-112 | an unlisted identifier gives the derived runtime |
| SimCtl.DerivedName | bin/simctl.py:108-112 | for `com.apple.CoreSimulator.SimRuntime.<system>-<v1>-…-<vn>` the version is `<v1>.….<vn>` and the name is `<system> <version>` |
| SimCtl.DerivedExample | bin/simctl.py:108-112 | the unlisted `com.apple.CoreSimulator.SimRuntime.iOS-14-2` is named `iOS 14.2` |
| SimCtl.KeyLeTotal | bin/simctl.py:138 | the sort key order is total |
| SimCtl.KeyLeTransitive | bin/simctl.py:138 | the sort key order is transitive |
| SimCtl.InsertSpec | bin/simctl.py:138 | inserting adds exactly the element and keeps the order descending |
| SimCtl.SortDescSpec | bin/simctl.py:138 | sorting keeps every element as often as it occurs and orders them by descending key |
| SimCtl.SortDescSorted | bin/simctl.py:138 | a list already in descending order comes back unchanged |
| SimCtl.SortDescIdempotent | bin/simctl.py:138 | sorting twice is sorting once |
| SimCtl.AppendGroup | bin/simctl.py:126-136 | the inner loop appends each device of a group with its runtime and both ratios, 0 when the search text is empty |
| SimCtl.SortedList | bin/simctl.py:122-139 | every device of every runtime group, once each, ordered by descending (name ratio, runtime ratio, booted, runtime version) |
| SimCtl.SortedListHasEvery | bin/simctl.py:122-139 | a ranked entry is one of the listed devices, and every listed device is ranked |

## Left out

- Real I/O is not modelled: the filesystem, `open`, printing and `sys.exit`. The filesystem is the value `FileSystem.Disk`. Printed lines are a sequence of strings. Exits and uncaught exceptions are an `Outcome`.
- Modification times are integers taken from the disk's clock, not floats.
- `file_hash` (SHA-1) is a function parameter `hash`, and `fnmatch` is a predicate parameter.
- `os.path.expanduser` uses a `home` parameter.
- The JSON parser of `.syncfiles` is a `parse` parameter.
- SyncFiles.Config.FindConfigFile: `parse` is total and its result always has a `dirmap`. So two errors are not modelled: the exception `json.load` raises on a malformed `.syncfiles`, and the `KeyError` of a file without `"dirmap"` (in `expand_dirs`).
- SyncFilesLegacy.Config.FindConfigFile: the same two errors are not modelled for the older script.
- The disk has no symbolic links. A path is looked up by its components: repeated `/` and `.` parts are skipped, and `..` is kept as a name and is not resolved (`PosixPath.Comps`). On a real disk a link, or a path through `..`, can name a file that also has another path.
- FileSystem.CopyFileSpec: "the two paths name different files" compares components as written. `/a/x` and `/a/b/../x`, or a link and its target, are two different files here. `shutil.copyfile` raises SameFileError on such a pair; the model copies.
- FileSystem.WriteKeepsOtherFiles: holds on a disk without links or `..` aliases only. On a real disk, a write through an alias also changes the file it aliases.
- SyncRules.CopyStepKeepsOtherFiles, SyncRules.PairStepWritesOnly and SyncRules.RunPairsWritesOnly: the same limitation. Another path to the destination is not tracked.
- PairDiscovery.FileArgPairsIff: a relative argument through `..`, such as `../x`, is not a file in the model, so it takes the bare-name branch. The script's `os.path.isfile` resolves it and takes the file branch.
- SyncRules.StatusMark: a directory never counts as readable in the model. `os.access` does allow reading a directory, and `is_match` then hashes it, so `open` raises IsADirectoryError. So when a live file's repo side is a directory, the model shows `A`, but the script's `status` stops with that exception.
- SyncRules.UnreadableIsReported: for the same pair, the model's `sync` and `pull` print `cannot read:`. The script raises from `file_hash` instead. `SyncRules.FormatStatus`, `SyncRules.PairStep` and the older script's status and copy loops model that pair the same way.
- `eval` of the `validate` expression is not modelled. The configuration carries the expression's text and its truth value.
- `git rev-parse` and `git ls-files` are not run. The work-tree top and the listed paths are parameters; a listing that failed is `None`.
- `cmd_diff`, `cmd_difftool` and `cmd_apply` are not modelled: they run external diff programs.
- Verbose-mode printing is not modelled. The `verbose` flag itself is kept, including its reset in `construct_file_pairs`.
- Display padding is not modelled: `ljust` and the running maxima `max_len_dir`/`max_len_src` it uses. The display names are the unpadded names.
- Argument parsing and the `__main__` dispatch are not modelled.
- SyncFiles.Config.CmdStatus: the model reads every pair's status from the one disk. In the script, two list comprehensions each call `list_file_pairs`. The walk is re-run, but it cannot see a different disk.
- Python 2 dictionaries iterate in hash order. `network/lancheck.py`, `network/unifi.py` and `syncfiles/syncfiles.py` are Python 2 scripts, and the model iterates their dictionaries in insertion order. That picks one of the possible orders for these members:
  - `LanCheck.FindFieldSpec`, `LanCheck.FindIn` and `LanCheck.DeviceList.FindOneField`: the first substring match over the `cols` dictionary;
  - `LanCheck.UpdateAllTable`, `LanCheck.AddMissingFields` and the other merges: the order in which a `DeviceList`'s devices are visited;
  - `SyncFilesLegacy.Config.ExpandMappings`, `SyncFilesLegacy.Config.ConstructFilePairs` and `SyncFilesLegacy.Config.DiscoverFilePairs`: the order of the `dirmap` walk, and so the order of the pairs.
- Case mapping (`lower`, `upper`) covers ASCII letters only.
- lancheck's input parsers are not modelled: `from_nmap_xml_file`, `from_csv_file`, `from_json`, `from_wifi_json`, and the `firstseen` date parsing.
- The mac-vendor file lookup is a `vendorOf` parameter.
- LanCheck.Value: a device field is text, an integer or None. JSON booleans, floats and lists are not modelled. `Truthy`, the `str()` behind the widths and `matches`, and the comparisons would treat them differently.
- LanCheck.AddVendorFields: the model's `AddVendor` calls `vendorOf` on whatever mac the device has. In the script `mac_vendor` upper-cases the mac, which raises on an integer mac. `add_missing_fields` can reach it with one. That exception is not modelled. `LanCheck.AddMissingFields` and `LanCheck.DeviceList.AddMissingFields` inherit this.
- LanCheck.DeviceList.constructor: the `Duplicate` line printed for a repeated mac is not modelled. The first device with that mac is kept, as `LanCheck.FromDevicesFirst` states.
- `devices_list_ordered_by` is not modelled: its `inet_aton` ordering is a foreign call.
- The lancheck saving and display methods are not modelled.
- `show_changes` and `__str__` are not modelled: they are printers.
- Object identity in lancheck is not modelled. A `DeviceList` holds device values. In the script, `update_with` inserts the caller's own `Device`, `record_as_new` changes that caller's object, and `add_missing_fields` changes devices shared with other lists. The model does not show these effects through other references.
- The unifi network calls are not modelled: the `requests` session, login, `get`/`post` and `urllib3`. `Unifi.ChangeUserInfo` returns the url and payload that `put` would send.
- In the unifi transforms, `vap_table` entries are typed records. The `KeyError` or `TypeError` of a malformed entry is not modelled.
- `network/unifi.py` reads `.unifi.json` from the working directory only. `Unifi.ConfigFilePath` models the lookup of `bin/unifi.py`.
- The remaining unifi commands are not modelled: `add_client`, port forwarding, `change_name_for_mac` and the `cmd_*` methods. They are network calls and printers.
- `bin/xcodeserver.py` is not part of this model: it is a REST wrapper.
- `bin/bonjour.py` is not part of this model: it is an asynchronous zeroconf listener.
- genstrings: `run_genstrings` is not modelled. It runs the `genstrings` tool, `iconv` and `os.rename` through `os.system`.
- genstrings: the file's lines are given as the sequence `readline()` returns.
- GenStrings.EntryOfSpec: `LocalizationEntry` on a line that does not match would raise. The model's entry is total. Its fallback is unreachable from `read_strings`, as `GenStrings.ReadStringsOrigin` shows.
- simctl: `xcrun simctl list -j` is not run; its parsed data is the `SimData` value.
- simctl: the real `fuzzywuzzy` library is not modelled. Only the fallback ratio is.
- simctl: `get_app_container`, `list`, `find` and the `cmd_*` printers are not modelled. They are subprocess calls and output.
- SimCtl.SortedList: the script writes `runtime` and both ratios into the device dictionaries held in the simulator data, and sorts that list in place. The model returns fresh `Listed` records; the write-back through shared dictionaries is not modelled.
- SimCtl.SortedList: the ordering and the permutation are stated. Stability is stated only as `SimCtl.SortDescSorted`. That lemma says an already-ordered list is unchanged. The general rule, that devices with equal keys keep their listing order, is not stated.

## Behaviour of note

Some of what the code does, which the model follows:

- The command stops on a second copy failure. After `makedirs`, `copyfile` retries once, and that error is not caught. A failing `makedirs` also stops it. The command does not go on to the next pair.
- `sync` on equal mtimes copies the repo copy over the live file.
- `install` copies the repo copy to the live location.
- In the file-argument branch, a mapping whose repo directory is a string prefix of the path without a following `/` still gives a pair. `replace` then removes nothing, so both sides of that pair are the argument itself (`PairDiscovery.FileArgUnaligned`).
- A bare-name argument pairs with the unexpanded `dirmap` key as its repo directory. That relative path is resolved against the working directory.
- genstrings reads the line after a run of translation lines unconditionally. So without an empty line between blocks, the next block's first comment line is dropped.
