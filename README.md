# Secure_Command: file integrity and permission reconciliation

This project models the core of the `wp secure` command of wp-cli, the class
`Secure_Command` in `php/commands/secure.php`, and proves properties of the model.
The command does four things:

- It walks a pristine copy of WordPress, the *baseline* (the working directory).
  Each baseline file is compared with its live counterpart under `ABSPATH` by MD5.
  Each path goes into a report as `missing`, `changed` or, when verbose, `matched`.
- It walks the live tree and warns about every path outside the content directory
  that has no baseline counterpart.
- It repairs every report row flagged `changed` or `missing` by copying the
  baseline file over the live one, and marks the row `updated`.
- It walks a tree and sets each entry's mode. The mode starts from the default for
  files or directories; the pattern rules of the active profile are tested in
  declared order, and the last matching rule wins.

The model is split into modules:

- `PhpStrings` (`php_strings.dfy`) provides the PHP built-ins used on paths:
  `str_replace`, `rtrim`, `ltrim`, `strstr` with PHP truthiness, `dirname`,
  `basename` and `octdec`.
- `Reports` (`reports.dfy`) holds the report. It is a map from a path to four
  yes/no flags, plus the insertion order PHP keeps for array keys.
- `FileSystem` (`filesystem.dfy`) holds the filesystem as a value, `Disk`.
  - It has two parts: the entries by path, and their permission bits.
  - `chmod`, `copy` and `mkdir` are functions from one `Disk` to the next.
  - A directory's readability is a flag on the directory; its listing includes
    `.` and `..`, in the order the system returns them.
- `Walker` (`walker.dfy`) gives `iterate_dir` as a function of the tree. The
  result is the sequence of entries handed to the callback, plus the path at
  which the walk stopped with an error.
- `PermPolicy` (`perm_policy.dfy`) covers the parsed `fileperms.yml`, the
  defaulting of `load_perms_options`, and the last-match-wins resolution of
  `checkPerms`.
- `Integrity` (`integrity.dfy`) covers the path mirroring of lines 189, 210 and
  266, the classification of `check_file`, the warning of `check_install`,
  `isWPContent`, and `syncFile` as a transition of the filesystem.
- `Secure` (`secure.dfy`) is the class `SecureCommand`:
  - fields: the fields of the PHP class, the printed warnings and the filesystem;
  - methods: the PHP methods, each proved against the functions above;
  - `iterate_dir` is proved against `WalkDir`, with the effect of the callbacks
    given by `Step` and folded over the walk by `ApplyAll`.

The model takes these as parameters of the class:

- `ABSPATH` and `WP_CONTENT_DIR`;
- the MD5 function, as an uninterpreted function from bytes to a string;
- `preg_match("#$pattern#", $path)`, as an uninterpreted predicate on the pattern
  and the path.

Behaviour kept as the code has it:

- `iterate_dir` hands a directory to the callback twice: before descending into
  it (line 174) and again after (line 181). `DirectoryVisitedTwice` proves it.
- The `WP_CLI::error` of line 178 ends the process. The walk therefore stops at
  the first unreadable directory, after that directory's first callback. The walk
  also stops when the starting directory cannot be opened, where the
  `DirectoryIterator` constructor throws.
- `$this->permprofile` is `'default'` unless `perms` was given `--profile`. With
  that value, `checkPerms` iterates over the default table itself, so its keys
  `file` and `directory` are used as regular expressions.
  `DefaultKeysArePatterns` shows a directory receiving the *file* default this way.
- `isWPContent` (294-300) computes a path with ABSPATH removed, but never uses it.
  It searches the whole path for `WP_CONTENT_DIR`.
- `strstr` with an empty needle is `false`, as in PHP 5. The result `"0"` counts
  as false.
- `octdec` skips characters that are not octal digits. `chmod` keeps the low
  twelve bits of the mode.
- A missing `default.file` or `default.directory` entry reads as `null`. That
  converts to `""`, and `octdec("")` is 0.
- `syncFile` calls `mkdir` on the parent directory only when it already exists
  (line 270), so that call never creates anything.
- The copy is made in place, with no temporary file and no rename.

## Model

| member | source | states |
|---|---|---|
| PhpStrings.ReplaceAbsent | php/commands/secure.php:189 | `str_replace` leaves a subject that does not contain the search string unchanged; the requires excludes an empty search string |
| PhpStrings.RTrimSpec | php/commands/secure.php:210 | `rtrim` returns a prefix of its input that does not end in the character, and everything removed is that character |
| PhpStrings.LTrimSpec | php/commands/secure.php:210 | `ltrim` returns a suffix of its input that does not start with the character, and everything removed is that character |
| PhpStrings.StrStrSpec | php/commands/secure.php:296 | `strstr` finds something exactly when the needle is non-empty and occurs; what it returns is the suffix of the haystack that starts with the needle, and no occurrence comes before it |
| PhpStrings.StrStrFirst | php/commands/secure.php:296 | no occurrence of the needle starts before the suffix `strstr` returns |
| PhpStrings.SplitJoin | php/commands/secure.php:270 | `dirname` and `basename` of `dir/name` give back `dir` and `name` |
| PhpStrings.OctdecLeadingZero | php/commands/secure.php:249 | a leading `0` (or a leading non-octal character) does not change `octdec` |
| PhpStrings.OctdecBelow | php/commands/secure.php:249 | `octdec` of a string of `k` characters is below 8 to the power `k`, whatever the characters |
| PhpStrings.OctdecFallback | php/commands/secure.php:97-98 | the fallback permission `0755` reads as 0x1ED |
| FileSystem.ChmodSpec | php/commands/secure.php:249 | chmod changes only the permission bits of an existing path; a missing path changes nothing; the structure is never touched |
| FileSystem.CopySpec | php/commands/secure.php:273 | after a possible copy the target is a file with the origin's bytes; an existing target keeps its mode and nothing else changes; a new one gets the new-file mode and is added to its directory's listing, whose other names stay in order; an impossible copy changes nothing; no other path changes |
| FileSystem.CopyKeeps | php/commands/secure.php:273 | a copy leaves the set of directories as it was and every file other than the target with its bytes |
| FileSystem.MkdirSpec | php/commands/secure.php:271 | an existing directory is left alone; a new readable, empty directory is created inside an existing one and added to its listing, whose other names stay in order; in every other case nothing changes; no other path changes |
| Reports.Flags.Set | php/commands/secure.php:313 | setting a flag makes it 'y' and leaves the other three as they were |
| Reports.RecordSpec | php/commands/secure.php:302-315 | a new path gets a row with only the given flag 'y', appended to the order; an existing path gets that flag set and keeps the others; no other row changes |
| Reports.RecordValid | php/commands/secure.php:302-315 | recording keeps the order listing every path of the report exactly once |
| Reports.RecordIdempotent | php/commands/secure.php:312-314 | recording the same status twice is the same as recording it once |
| Reports.RecordNeverClears | php/commands/secure.php:312-314 | no flag of any row goes from 'y' back to 'n' |
| Reports.SetCommutes | php/commands/secure.php:313 | setting two flags gives the same row in either order |
| Reports.RecordCommutes | php/commands/secure.php:302-315 | two recordings give the same rows in either order |
| Reports.RecordCommutesOrder | php/commands/secure.php:302-315 | two recordings list the same paths in either order |
| Reports.ChangedThenUpdated | php/commands/secure.php:260 | a row recorded `changed` and then `updated` by the repair has both flags 'y' |
| Walker.FailureSticks | php/commands/secure.php:178 | once an entry has stopped the walk with an error, later entries of the listing add no callback calls |
| Walker.NoSkippedVisits | php/commands/secure.php:170-171 | at no depth does the callback receive `.`, `..` or a name of the skip list |
| Walker.WalkPassesEveryEntry | php/commands/secure.php:169-182 | a walk without error hands every other entry of the start directory to the callback, and of every directory it reaches; every directory it reaches was readable |
| Walker.DirectoryBeforeContents | php/commands/secure.php:173-177 | every call for an entry below the start directory comes after a call for the directory that holds it |
| Walker.EveryVisitIsListed | php/commands/secure.php:168-176 | every callback call is for an entry listed by a readable directory, which is the start directory or one visited earlier |
| Walker.DirectoryVisitedTwice | php/commands/secure.php:174-181 | in a walk without error, every directory reached is handed to the callback at least twice |
| Walker.DirFailure | php/commands/secure.php:175-179 | the path a walk stops at is never a readable directory |
| PermPolicy.LookupSpec | php/commands/secure.php:236-238 | an array lookup finds a value exactly when the key is present, and the value found is stored under that key |
| PermPolicy.WithDefaults | php/commands/secure.php:92-101 | afterwards `default` is always an array; an array `default` is kept as parsed; otherwise both defaults become `0755`; every other key is kept |
| PermPolicy.LastMatchWins | php/commands/secure.php:241-246 | with no matching rule the default stands; otherwise the permission of the last matching rule wins; the result is always the default or the permission of a matching rule |
| PermPolicy.LaterRuleWins | php/commands/secure.php:241-246 | of two matching rules the later one decides, and a rule that does not match is passed over |
| PermPolicy.DefaultKeysArePatterns | php/commands/secure.php:241-246 | with the profile `default`, a directory whose path matches `file` but not `directory` is given the file default |
| PermPolicy.PermsAppliedSpec | php/commands/secure.php:229-253 | a missing path is left alone; an existing one gets the octal value of its resolved permission, and no other mode or entry changes |
| PermPolicy.PolicyModeStored | php/commands/secure.php:249 | a permission string of at most four characters fits the twelve permission bits, so chmod stores exactly the value `octdec` reads; `0755` is stored as 0x1ED |
| Integrity.MirrorIntoLive | php/commands/secure.php:210 | for the baseline path `workingdir/rel`, `check_file` compares with ABSPATH's `/rel` with its leading slashes trimmed, `syncFile` writes ABSPATH's `/rel` (line 266), and the two agree when `rel` does not start with a slash |
| Integrity.MirrorRoundTrip | php/commands/secure.php:189 | `check_install`'s mirror of a live path into the baseline, followed by `syncFile`'s mirror back into the live tree, gives the live path back |
| Integrity.IsWPContentSpec | php/commands/secure.php:294-300 | true only for paths that contain the content directory, and for every such path when the directory name is truthy |
| Integrity.ClassifyCases | php/commands/secure.php:207-227 | a directory is neither compared nor recorded; `missing` exactly when the live counterpart is absent; `changed` exactly when the hashes differ; true exactly when they agree, recorded `matched` only when verbose; never `updated` |
| Integrity.InstallWarningCases | php/commands/secure.php:185-193 | a warning exactly for a path outside the content directory that exists live while its baseline mirror does not, with the path shown without ABSPATH; never one for a path inside the content directory |
| Integrity.SyncSpec | php/commands/secure.php:264-280 | when the copy is possible and the live path exists or the call is strict, the live path ends up with the baseline bytes; otherwise nothing changes; the baseline file and every path other than the live path and its directory stay as they were |
| Integrity.SyncKeeps | php/commands/secure.php:264-280 | a sync leaves the set of directories as it was and every file other than the live path with its bytes |
| Integrity.WpPaths | php/commands/secure.php:266 | one live path per baseline path, each the ABSPATH mirror that `syncFile` writes |
| Integrity.SyncAllKeeps | php/commands/secure.php:255-262 | syncing a list of paths in turn leaves the directories as they were and every file that is none of their live paths with its bytes |
| Integrity.SyncAllRestores | php/commands/secure.php:255-262 | when the live paths are distinct and none of them is one of the baseline paths, every live path whose copy was possible at the start ends with the bytes of its own baseline file, whatever order the repairs run in |
| Integrity.RepairThenMatch | php/commands/secure.php:207-227 | after a strict repair of a path, `check_file` of that path finds equal hashes and returns true |
| Integrity.FlaggedSpec | php/commands/secure.php:257-258 | the paths `update_changed` repairs are exactly the report rows flagged `changed` or `missing` |
| Secure.StepFrames | php/commands/secure.php:174 | no callback changes the directory structure; only `checkPerms` changes the filesystem, only `check_file` the report, and only `check_install` the warnings |
| Secure.ApplyAllKeepsTree | php/commands/secure.php:166-183 | a whole walk of callbacks leaves the directory structure it walks unchanged |
| Secure.CheckFilePassNeverUpdates | php/commands/secure.php:207-227 | a `check_file` walk never marks a row `updated` |
| Secure.CheckFilePassRecordsVisited | php/commands/secure.php:207-227 | a `check_file` walk changes neither the filesystem nor the warnings; it adds rows only for visited paths, leaves unvisited rows alone and clears no flag; a visited path that `Classify` gives a status ends with exactly its old row, or the all-`n` row, with that flag set, and a visited path with no status keeps its row or its absence |
| Secure.CheckInstallPassOnlyWarns | php/commands/secure.php:185-193 | a `check_install` walk leaves the report and the filesystem unchanged and appends, in visiting order, the warning of each visit that has one |
| Secure.CheckPermsPassOnlyChmods | php/commands/secure.php:229-253 | after a `checkPerms` walk every visited existing path has the mode its resolved permission gives; every other path keeps its mode; the report, the warnings and the structure are unchanged |
| Secure.SecureCommand.constructor | php/commands/secure.php:24-32 | the defaults of the class: working directory `/tmp/wp-test`, skip list `wp-config.php`, verbose, profile `default`, empty report |
| Secure.SecureCommand.Report | php/commands/secure.php:302-315 | the report becomes the old one with the status recorded, and stays consistent |
| Secure.SecureCommand.CheckFile | php/commands/secure.php:207-227 | returns and records what `Classify` states |
| Secure.SecureCommand.CheckInstall | php/commands/secure.php:185-193 | appends exactly the warning `InstallWarning` states |
| Secure.SecureCommand.CheckPerms | php/commands/secure.php:229-253 | the loop over the rules leaves the last match's permission, and the filesystem becomes what `PermsApplied` states |
| Secure.SecureCommand.LoadPermsOptions | php/commands/secure.php:92-101 | `perms` becomes the parsed document with the defaults that `WithDefaults` states |
| Secure.SecureCommand.Invoke | php/commands/secure.php:174 | the state changes by one `Step` of the named callback |
| Secure.SecureCommand.IterateDir | php/commands/secure.php:166-183 | stops exactly at the path `WalkDir` stops at, and leaves the state that the callbacks produce over `WalkDir`'s visits in order |
| Secure.SecureCommand.IterateEntries | php/commands/secure.php:169-182 | the loop over one listing stops exactly where `WalkEntries` stops and leaves the state the callbacks produce over its visits |
| Secure.SecureCommand.EntryTurn | php/commands/secure.php:169-182 | after entries that passed without error, one more entry of the listing extends the walk by that entry's visits and outcome |
| Secure.SecureCommand.VisitEntry | php/commands/secure.php:170-181 | one pass of the loop has the effect and the outcome of `WalkEntry` |
| Secure.SecureCommand.SyncFile | php/commands/secure.php:264-280 | the filesystem becomes what `Sync` states for the mirrored live path |
| Secure.SecureCommand.UpdateChanged | php/commands/secure.php:255-262 | rows flagged `changed` or `missing` get `updated` and no other row changes; the paths and their order are kept; each flagged path is repaired in report order; when no row was `updated` before, afterwards exactly the drifted rows are |
| Secure.SecureCommand.RepairRow | php/commands/secure.php:257-261 | one row of the loop: the row is marked `updated` exactly when it needs repair, and the filesystem is synced for exactly the flagged rows so far |
| Secure.SecureCommand.RepairDisk | php/commands/secure.php:258-259 | the path is synced exactly when its row is flagged `changed` or `missing` |

## Left out

- `build_core_files` and `build_plugin_files` (103-164) are left out. They are HTTP downloads, archive extraction and calls into the WordPress plugin API. The working directory is a field of the class.
- The `filecheck` and `perms` entry points (45-90) are left out. They handle arguments and call the modelled methods. As written, `filecheck` calls `build_plugin_files()` and then `exit()` at line 54, so the rest of it is never reached.
- `printReport`, `__destruct` and every `WP_CLI::log` and `WP_CLI::success` line are left out, because they only produce console output. `WP_CLI::warning` is kept as the `warnings` field.
- `__construct` is left out: it only loads the Symfony `Filesystem` class. The Symfony `exists`, `chmod`, `copy` and `mkdir` are the `Disk` functions.
- MD5 and the regular-expression engine are left out. They are uninterpreted parameters, so nothing is assumed about collisions or pattern syntax.
- `findDirs` (195-205) is left out: it iterates over an undefined `$dir` and cannot run. `isPlugin` and `isTheme` (282-292) are never called.
- Parsing `fileperms.yml` with the YAML library is left out. `LoadPermsOptions` takes the parsed document as input, and YAML's typing of values (numbers against strings) is not modelled.
- `php/commands/vars.php` is not part of this model. It dumps runtime constants to a console table.
- Integrity.SyncSpec does not restore a live file whose directory is missing. The `mkdir` at line 271 runs only when the directory already exists, and the copy is modelled to fail when there is no directory to hold the target. Symfony's own `copy` would create the missing directories, so for such a file the library's internals promise more than the model does.
- Secure.SecureCommand.SyncFile does not restore a live file whose directory is missing, for the same reason: it does what `Sync` states, and `Sync` leaves such a file alone.
- FileSystem.MkdirSpec does not create missing ancestors the way Symfony's recursive `mkdir` does. In the code it is only reached for a directory that already exists.
- Files are always readable in the model. PHP's `file_get_contents` of an unreadable file returns `false`, which `md5` hashes like an empty string; `check_file` then compares that hash, where the model compares the file's bytes.
- Symbolic links are not modelled. An entry is a file or a directory, so the way `is_dir`, `file_exists` and `DirectoryIterator::isDir` follow links, and a link cycle, are not captured.
- chmod is not modelled as affecting readability. Whether `DirectoryIterator` can open a directory is a fixed flag of the directory, so a `checkPerms` walk that removes read permission does not change what the walk sees.
- Paths are joined as `parent + "/" + name`. The `DirectoryIterator` normalisation of a starting directory that ends in a slash is not modelled.
- `in_array` against the skip list is treated as string equality. PHP's loose comparison behaves the same on non-numeric file names.
- A `default` entry that is a string, not an array, reads as an empty permission. PHP would take a string offset instead. `load_perms_options` replaces such a value before `checkPerms` runs.
- The exceptions that Symfony's `chmod` and `copy` throw on an OS failure, such as a denied permission, are not modelled. A copy the model cannot make leaves the filesystem unchanged.
