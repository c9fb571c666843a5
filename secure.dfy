/**
 * `Secure_Command` (php/commands/secure.php) as a class: its fields, the
 * operations that update them, and the filesystem they change. Each method
 * is proved against the pure functions of the other modules; `Step` and
 * `ApplyAll` state what a walk with one callback does to the command's state.
 */
module Secure {
  import opened Wrappers
  import opened PhpStrings
  import opened Reports
  import opened FileSystem
  import opened Walker
  import opened PermPolicy
  import opened Integrity

  /** The three methods `iterate_dir` is called with. */
  datatype Callback = CheckFileCallback | CheckInstallCallback | CheckPermsCallback

  /** What the callbacks read and never change. */
  datatype Settings = Settings(
    abspath: string, contentDir: string, workingdir: string, verbose: bool,
    perms: Perms, permprofile: string,
    md5: seq<bv8> -> string, matches: (string, string) -> bool)

  /** What the callbacks change: the report, the printed warnings and the filesystem. */
  datatype Effects = Effects(report: ReportTable, warnings: seq<string>, disk: Disk)

  /** The warnings after `check_install` printed `w`, if anything. */
  function Warned(ws: seq<string>, w: Option<string>): seq<string> {
    if w.Some? then ws + [w.value] else ws
  }

  /** One callback call on `path`. */
  function Step(s: Settings, cb: Callback, e: Effects, path: string): Effects {
    match cb
    case CheckFileCallback =>
      e.(report := e.report.RecordIf(path, Classify(e.disk, s.md5, s.abspath, s.workingdir, s.verbose, path).record))
    case CheckInstallCallback =>
      e.(warnings := Warned(e.warnings, InstallWarning(e.disk, s.abspath, s.workingdir, s.contentDir, path)))
    case CheckPermsCallback =>
      e.(disk := PermsApplied(e.disk, s.perms, s.permprofile, s.matches, path))
  }

  /**
   * No callback changes the directory structure; only `checkPerms` changes
   * the filesystem, only `check_file` the report and only `check_install` the
   * warnings.
   */
  lemma StepFrames(s: Settings, cb: Callback, e: Effects, path: string)
    ensures var r := Step(s, cb, e, path);
            && r.disk.tree == e.disk.tree
            && (cb != CheckPermsCallback ==> r.disk == e.disk)
            && (cb != CheckFileCallback ==> r.report == e.report)
            && (cb != CheckInstallCallback ==> r.warnings == e.warnings)
  {
    PermsAppliedSpec(e.disk, s.perms, s.permprofile, s.matches, path);
  }

  /** The callback called on each visit in turn. */
  function ApplyAll(s: Settings, cb: Callback, e: Effects, vs: seq<Visit>): Effects
    decreases |vs|
  {
    if vs == [] then e
    else Step(s, cb, ApplyAll(s, cb, e, vs[..|vs| - 1]), vs[|vs| - 1].Path())
  }

  /** The callback's arguments, in order. */
  function Paths(vs: seq<Visit>): (r: seq<string>)
    ensures |r| == |vs| && forall i :: 0 <= i < |vs| ==> r[i] == vs[i].Path()
    decreases |vs|
  {
    if vs == [] then [] else Paths(vs[..|vs| - 1]) + [vs[|vs| - 1].Path()]
  }

  lemma {:induction false} ApplyAllConcat(s: Settings, cb: Callback, e: Effects, a: seq<Visit>, b: seq<Visit>)
    ensures ApplyAll(s, cb, e, a + b) == ApplyAll(s, cb, ApplyAll(s, cb, e, a), b)
    decreases |b|
  {
    if b == [] {
      assert a + b == a;
    } else {
      assert (a + b)[..|a + b| - 1] == a + b[..|b| - 1];
      ApplyAllConcat(s, cb, e, a, b[..|b| - 1]);
    }
  }

  /** One more entry of the listing: its visits follow the earlier ones, and so do their callbacks. */
  lemma WalkStep(s: Settings, cb: Callback, e: Effects, tree: map<string, Entry>, skip: seq<string>, dir: string, names: seq<string>, i: nat)
    requires i < |names| && WalkEntries(tree, skip, dir, names[..i]).failure.None?
    ensures var done := WalkEntries(tree, skip, dir, names[..i]).visits;
            var entry := WalkEntry(tree, skip, dir, names[i]);
            && WalkEntries(tree, skip, dir, names[..i + 1]) == Walked(done + entry.visits, entry.failure)
            && ApplyAll(s, cb, e, done + entry.visits) == ApplyAll(s, cb, ApplyAll(s, cb, e, done), entry.visits)
  {
    assert names[..i + 1][..i] == names[..i];
    ApplyAllConcat(s, cb, e, WalkEntries(tree, skip, dir, names[..i]).visits, WalkEntry(tree, skip, dir, names[i]).visits);
  }

  /** No callback changes the directory structure, so the walk sees the tree it started with. */
  lemma {:induction false} ApplyAllKeepsTree(s: Settings, cb: Callback, e: Effects, vs: seq<Visit>)
    ensures ApplyAll(s, cb, e, vs).disk.tree == e.disk.tree
    decreases |vs|
  {
    if vs != [] {
      ApplyAllKeepsTree(s, cb, e, vs[..|vs| - 1]);
      StepFrames(s, cb, ApplyAll(s, cb, e, vs[..|vs| - 1]), vs[|vs| - 1].Path());
    }
  }

  /** A pass of `check_file` never records `updated`. */
  predicate NoneUpdated(t: ReportTable) {
    forall p :: p in t.entries ==> !t.entries[p].updated
  }

  lemma RecordKeepsNoneUpdated(t: ReportTable, path: string, st: Status)
    requires NoneUpdated(t) && st != Updated
    ensures NoneUpdated(t.Record(path, st))
  {
    var r := t.Record(path, st);
    forall p | p in r.entries
      ensures !r.entries[p].updated
    {
      assert !r.entries[p].Get(Updated);
    }
  }

  lemma {:induction false} CheckFilePassNeverUpdates(s: Settings, e: Effects, vs: seq<Visit>)
    requires NoneUpdated(e.report)
    ensures NoneUpdated(ApplyAll(s, CheckFileCallback, e, vs).report)
    decreases |vs|
  {
    if vs != [] {
      var prev := ApplyAll(s, CheckFileCallback, e, vs[..|vs| - 1]);
      var path := vs[|vs| - 1].Path();
      CheckFilePassNeverUpdates(s, e, vs[..|vs| - 1]);
      var c := Classify(prev.disk, s.md5, s.abspath, s.workingdir, s.verbose, path);
      if c.record.Some? {
        RecordKeepsNoneUpdated(prev.report, path, c.record.value);
      }
    }
  }

  /**
   * A pass of `check_file` leaves the filesystem and the warnings alone. It
   * adds rows only for the paths it visited, changes no row it did not visit
   * and clears no flag; every visited path that `Classify` gives a status
   * ends with a row carrying that flag.
   */
  lemma {:induction false} CheckFilePassRecordsVisited(s: Settings, e: Effects, vs: seq<Visit>)
    ensures var r := ApplyAll(s, CheckFileCallback, e, vs);
            && r.disk == e.disk && r.warnings == e.warnings
            && (forall p :: p in r.report.entries ==> p in e.report.entries || p in Paths(vs))
            && (forall p :: p in e.report.entries ==>
                  p in r.report.entries && NoneCleared(e.report.entries[p], r.report.entries[p]))
            && (forall p :: p in e.report.entries && p !in Paths(vs) ==> r.report.entries[p] == e.report.entries[p])
            && (forall p :: p in Paths(vs) && Classify(e.disk, s.md5, s.abspath, s.workingdir, s.verbose, p).record.Some? ==>
                  p in r.report.entries &&
                  r.report.entries[p].Get(Classify(e.disk, s.md5, s.abspath, s.workingdir, s.verbose, p).record.value))
            && (forall p :: p in Paths(vs) ==> RowAfterChecks(e.report, r.report, p, Classify(e.disk, s.md5, s.abspath, s.workingdir, s.verbose, p).record))
    decreases |vs|
  {
    if vs != [] {
      var init := vs[..|vs| - 1];
      var path := vs[|vs| - 1].Path();
      CheckFilePassRecordsVisited(s, e, init);
      var prev := ApplyAll(s, CheckFileCallback, e, init);
      var r := ApplyAll(s, CheckFileCallback, e, vs);
      var c := Classify(e.disk, s.md5, s.abspath, s.workingdir, s.verbose, path);
      assert Paths(vs) == Paths(init) + [path];
      CheckFileRowsStep(e.report, prev.report, r.report, Paths(init), path, c.record,
                        p => Classify(e.disk, s.md5, s.abspath, s.workingdir, s.verbose, p).record);
      if c.record.Some? {
        RecordSpec(prev.report, path, c.record.value);
        RecordNeverClears(prev.report, path, c.record.value);
        assert r.report == prev.report.Record(path, c.record.value);
        forall p | p in e.report.entries
          ensures p in r.report.entries && NoneCleared(e.report.entries[p], r.report.entries[p])
        {
          assert NoneCleared(prev.report.entries[p], r.report.entries[p]);
        }
        forall p | p in Paths(vs) && Classify(e.disk, s.md5, s.abspath, s.workingdir, s.verbose, p).record.Some?
          ensures p in r.report.entries &&
                  r.report.entries[p].Get(Classify(e.disk, s.md5, s.abspath, s.workingdir, s.verbose, p).record.value)
        {
          if p != path {
            assert p in Paths(init);
            assert NoneCleared(prev.report.entries[p], r.report.entries[p]);
          }
        }
      } else {
        assert r.report == prev.report;
      }
    }
  }

  /**
   * The row of `p` after `check_file` calls on `p` that all record `c`, and
   * calls on other paths: the old row, or the all-'n' row, with flag `c` set
   * when there is one; with no status the row is as it was, or still absent.
   */
  ghost predicate RowAfterChecks(before: ReportTable, after: ReportTable, p: string, c: Option<Status>) {
    if c.Some? then
      p in after.entries && after.entries[p] == (if p in before.entries then before.entries[p] else AllNo).Set(c.value)
    else
      (p in after.entries <==> p in before.entries) && (p in before.entries ==> after.entries[p] == before.entries[p])
  }

  /** One more `check_file` call on `path`, which records `c`, keeps `RowAfterChecks` for every visited path. */
  lemma CheckFileRowsStep(e: ReportTable, prev: ReportTable, r: ReportTable, done: seq<string>, path: string,
                          c: Option<Status>, status: string -> Option<Status>)
    requires c == status(path)
    requires forall p :: p in done ==> RowAfterChecks(e, prev, p, status(p))
    requires forall p :: p in prev.entries ==> p in e.entries || p in done
    requires forall p :: p in e.entries && p !in done ==> p in prev.entries && prev.entries[p] == e.entries[p]
    requires r == prev.RecordIf(path, c)
    ensures forall p :: p in done + [path] ==> RowAfterChecks(e, r, p, status(p))
  {
    if c.Some? {
      RecordSpec(prev, path, c.value);
      RecordEntries(prev, path, c.value);
    }
    forall p | p in done + [path]
      ensures RowAfterChecks(e, r, p, status(p))
    {
      if p == path && c.Some? {
        var base := if p in e.entries then e.entries[p] else AllNo;
        if p in done {
          SetTwice(base, c.value);
        }
      } else if p != path {
        assert p in done;
      }
    }
  }

  /** The warnings `check_install` prints for the visits `vs` on the filesystem `d`, in order. */
  function InstallWarnings(s: Settings, d: Disk, vs: seq<Visit>): seq<string>
    decreases |vs|
  {
    if vs == [] then []
    else InstallWarnings(s, d, vs[..|vs| - 1]) + ToList(InstallWarning(d, s.abspath, s.workingdir, s.contentDir, vs[|vs| - 1].Path()))
  }

  /** The printed line, if there is one, as a list. */
  function ToList(w: Option<string>): seq<string> {
    if w.Some? then [w.value] else []
  }

  /**
   * A pass of `check_install` only appends warnings: the report and the
   * filesystem stay as they were, and what is appended is, in visiting
   * order, the warning of each visit that has one, at most one per visit.
   */
  lemma {:induction false} CheckInstallPassOnlyWarns(s: Settings, e: Effects, vs: seq<Visit>)
    ensures var r := ApplyAll(s, CheckInstallCallback, e, vs);
            && r.report == e.report && r.disk == e.disk
            && r.warnings == e.warnings + InstallWarnings(s, e.disk, vs)
            && |e.warnings| <= |r.warnings| <= |e.warnings| + |vs|
    decreases |vs|
  {
    if vs != [] {
      CheckInstallPassOnlyWarns(s, e, vs[..|vs| - 1]);
    }
  }

  /**
   * A pass of `checkPerms` changes only permission bits: the tree, the
   * report and the warnings are as they were. Every visited path that exists
   * ends with the mode its resolved permission gives, and every other path
   * keeps its mode.
   */
  lemma {:induction false} CheckPermsPassOnlyChmods(s: Settings, e: Effects, vs: seq<Visit>)
    ensures var r := ApplyAll(s, CheckPermsCallback, e, vs);
            && r.report == e.report && r.warnings == e.warnings && r.disk.tree == e.disk.tree
            && (forall p :: p in Paths(vs) && e.disk.Exists(p) ==>
                  p in r.disk.modes &&
                  r.disk.modes[p] == PermissionBits(Octdec(Resolve(s.perms, s.permprofile, p, e.disk.IsDir(p), s.matches))))
            && (forall p :: !(p in Paths(vs) && e.disk.Exists(p)) ==>
                  (p in r.disk.modes <==> p in e.disk.modes) && (p in e.disk.modes ==> r.disk.modes[p] == e.disk.modes[p]))
    decreases |vs|
  {
    if vs != [] {
      var init := vs[..|vs| - 1];
      var path := vs[|vs| - 1].Path();
      CheckPermsPassOnlyChmods(s, e, init);
      var prev := ApplyAll(s, CheckPermsCallback, e, init);
      PermsAppliedSpec(prev.disk, s.perms, s.permprofile, s.matches, path);
      assert Paths(vs) == Paths(init) + [path];
    }
  }

  class SecureCommand {
    const abspath: string
    const contentDir: string
    const md5: seq<bv8> -> string
    const matches: (string, string) -> bool

    var workingdir: string
    var skipfiles: seq<string>
    var verbose: bool
    var perms: Perms
    var permprofile: string
    var report: ReportTable
    /** The lines `WP_CLI::warning` printed. */
    var warnings: seq<string>
    /** The filesystem the command works on. */
    var disk: Disk

    ghost predicate Valid()
      reads this`report
    {
      report.Valid()
    }

    function Cfg(): Settings
      reads this`workingdir, this`verbose, this`perms, this`permprofile
    {
      Settings(abspath, contentDir, workingdir, verbose, perms, permprofile, md5, matches)
    }

    function Eff(): Effects
      reads this`report, this`warnings, this`disk
    {
      Effects(report, warnings, disk)
    }

    /** The property defaults of the class (lines 24-32). */
    constructor (abspath: string, contentDir: string, md5: seq<bv8> -> string, matches: (string, string) -> bool, disk: Disk)
      ensures Valid()
      ensures this.abspath == abspath && this.contentDir == contentDir && this.md5 == md5 && this.matches == matches
      ensures this.disk == disk
      ensures workingdir == "/tmp/wp-test" && skipfiles == ["wp-config.php"] && verbose
      ensures perms == map[] && permprofile == "default"
      ensures report == ReportTable(map[], []) && warnings == []
    {
      this.abspath := abspath;
      this.contentDir := contentDir;
      this.md5 := md5;
      this.matches := matches;
      this.disk := disk;
      workingdir := "/tmp/wp-test";
      skipfiles := ["wp-config.php"];
      verbose := true;
      perms := map[];
      permprofile := "default";
      report := ReportTable(map[], []);
      warnings := [];
    }

    /** `report($path, $status)`. */
    method Report(path: string, status: Status)
      requires Valid()
      modifies this`report
      ensures Valid()
      ensures report == old(report).Record(path, status)
    {
      RecordValid(report, path, status);
      report := report.Record(path, status);
    }

    /** `check_file($path)`. */
    method CheckFile(path: string) returns (same: bool)
      requires Valid()
      modifies this`report
      ensures Valid()
      ensures var c := Classify(disk, md5, abspath, workingdir, verbose, path);
              same == c.same && report == old(report).RecordIf(path, c.record)
    {
      if disk.IsDir(path) {
        return false;
      }
      var matchfile := LiveRoot(abspath) + "/" + LTrim(Replace(path, workingdir, ""), '/');
      if !disk.Exists(matchfile) {
        Report(path, Missing);
        return false;
      }
      if md5(disk.Read(matchfile)) == md5(disk.Read(path)) {
        if verbose {
          Report(path, Matched);
        }
        return true;
      }
      Report(path, Changed);
      return false;
    }

    /** `check_install($path)`. */
    method CheckInstall(path: string)
      modifies this`warnings
      ensures warnings == Warned(old(warnings), InstallWarning(disk, abspath, workingdir, contentDir, path))
    {
      if IsWPContent(path, contentDir) {
        return;
      }
      var corepath := Replace(path, LiveRoot(abspath), workingdir);
      if disk.Exists(path) && !disk.Exists(corepath) {
        warnings := warnings + ["Non-core path found - " + Replace(path, LiveRoot(abspath), "")];
      }
    }

    /** `checkPerms($path)`: resolve the permission rule by rule, then chmod. */
    method CheckPerms(path: string)
      modifies this`disk
      ensures disk == PermsApplied(old(disk), perms, permprofile, matches, path)
    {
      if !disk.Exists(path) {
        return;
      }
      var perm := DefaultPerm(perms, disk.IsDir(path));
      ghost var start := perm;
      if Truthy(permprofile) {
        var rules := ProfileRules(perms, permprofile);
        var i := 0;
        while i < |rules|
          invariant 0 <= i <= |rules|
          invariant perm == LastMatch(rules[..i], path, start, matches)
        {
          assert rules[..i + 1][..i] == rules[..i];
          if matches(rules[i].pattern, path) {
            perm := rules[i].perm;
          }
          i := i + 1;
        }
        assert rules[..i] == rules;
      }
      disk := disk.Chmod(path, Octdec(perm));
    }

    /** `load_perms_options()`, given what the YAML parser returned for `fileperms.yml`. */
    method LoadPermsOptions(parsed: Perms)
      modifies this`perms
      ensures perms == WithDefaults(parsed)
    {
      perms := parsed;
      if !("default" in perms && perms["default"].Table?) {
        perms := perms["default" := FallbackDefault];
      }
    }

    /** `call_user_func_array(array($this, $callback), array($path))`. */
    method Invoke(cb: Callback, path: string)
      requires Valid()
      modifies this`report, this`warnings, this`disk
      ensures Valid()
      ensures Eff() == Step(Cfg(), cb, old(Eff()), path)
    {
      match cb
      case CheckFileCallback =>
        var _ := CheckFile(path);
      case CheckInstallCallback =>
        CheckInstall(path);
      case CheckPermsCallback =>
        CheckPerms(path);
    }

    /**
     * `iterate_dir($dir, $callback)`: the callback is called on the visits of
     * `WalkDir` in order, and the walk stops at the path `WalkDir` fails on.
     */
    method IterateDir(dir: string, cb: Callback) returns (failure: Option<string>)
      requires Valid()
      modifies this`report, this`warnings, this`disk
      ensures Valid()
      ensures disk.tree == old(disk.tree)
      ensures var w := WalkDir(old(disk.tree), skipfiles, dir);
              && failure == w.failure
              && Eff() == ApplyAll(Cfg(), cb, old(Eff()), w.visits)
      decreases Below(disk.tree.Keys, dir), 3
    {
      if !(dir in disk.tree && disk.tree[dir].Directory? && disk.tree[dir].readable) {
        return Some(dir);
      }
      failure := IterateEntries(dir, disk.tree[dir].names, cb);
    }

    /** The `foreach` of `iterate_dir` over the listing `names` of `dir`. */
    method IterateEntries(dir: string, names: seq<string>, cb: Callback) returns (failure: Option<string>)
      requires Valid()
      modifies this`report, this`warnings, this`disk
      ensures Valid()
      ensures disk.tree == old(disk.tree)
      ensures var w := WalkEntries(old(disk.tree), skipfiles, dir, names);
              && failure == w.failure
              && Eff() == ApplyAll(Cfg(), cb, old(Eff()), w.visits)
      decreases Below(disk.tree.Keys, dir), 2
    {
      ghost var tree0 := disk.tree;
      ghost var e0 := Eff();
      var i := 0;
      while i < |names|
        invariant 0 <= i <= |names|
        invariant Valid()
        invariant disk.tree == tree0
        invariant WalkEntries(tree0, skipfiles, dir, names[..i]).failure.None?
        invariant Eff() == ApplyAll(Cfg(), cb, e0, WalkEntries(tree0, skipfiles, dir, names[..i]).visits)
      {
        var f := EntryTurn(dir, names, i, cb, tree0, e0);
        if f.Some? {
          FailureSticks(tree0, skipfiles, dir, names, i + 1);
          return f;
        }
        i := i + 1;
      }
      assert names[..i] == names;
      return None;
    }

    /** One turn of that `foreach`: the entry `names[i]`, after the first `i` passed without failure. */
    method EntryTurn(dir: string, names: seq<string>, i: nat, cb: Callback, ghost tree0: map<string, Entry>, ghost e0: Effects)
        returns (failure: Option<string>)
      requires i < |names| && Valid() && disk.tree == tree0
      requires WalkEntries(tree0, skipfiles, dir, names[..i]).failure.None?
      requires Eff() == ApplyAll(Cfg(), cb, e0, WalkEntries(tree0, skipfiles, dir, names[..i]).visits)
      modifies this`report, this`warnings, this`disk
      ensures Valid() && disk.tree == tree0
      ensures var w := WalkEntries(tree0, skipfiles, dir, names[..i + 1]);
              && failure == w.failure
              && Eff() == ApplyAll(Cfg(), cb, e0, w.visits)
      decreases Below(tree0.Keys, dir), 1
    {
      WalkStep(Cfg(), cb, e0, tree0, skipfiles, dir, names, i);
      failure := VisitEntry(dir, names[i], cb);
    }

    /**
     * One pass of `iterate_dir`'s loop (lines 170-181): a dot entry or a
     * name of the skip list is passed over; a directory is handed to the
     * callback, walked when readable (an error when not) and handed to the
     * callback again; any other entry is handed to the callback once.
     */
    method VisitEntry(dir: string, name: string, cb: Callback) returns (failure: Option<string>)
      requires Valid()
      modifies this`report, this`warnings, this`disk
      ensures Valid()
      ensures disk.tree == old(disk.tree)
      ensures var w := WalkEntry(old(disk.tree), skipfiles, dir, name);
              && failure == w.failure
              && Eff() == ApplyAll(Cfg(), cb, old(Eff()), w.visits)
      decreases Below(disk.tree.Keys, dir), 0
    {
      if name == "." || name == ".." || name in skipfiles {
        return None;
      }
      ghost var tree0 := disk.tree;
      ghost var e0 := Eff();
      var path := dir + "/" + name;
      ghost var v := Visit(dir, name);
      assert v.Path() == path;
      assert ApplyAll(Cfg(), cb, e0, [v]) == Step(Cfg(), cb, e0, path);
      if path in disk.tree && disk.tree[path].Directory? {
        Invoke(cb, path);
        if disk.tree[path].readable {
          BelowShrinks(tree0.Keys, dir, path);
          var sub := IterateDir(path, cb);
          ghost var w := WalkDir(tree0, skipfiles, path).visits;
          ApplyAllConcat(Cfg(), cb, e0, [v], w);
          if sub.Some? {
            return sub;
          }
          ghost var e2 := Eff();
          Invoke(cb, path);
          ApplyAllKeepsTree(Cfg(), cb, e0, [v] + w);
          assert ApplyAll(Cfg(), cb, e2, [v]) == Step(Cfg(), cb, e2, path);
          ApplyAllConcat(Cfg(), cb, e0, [v] + w, [v]);
        } else {
          return Some(path);
        }
      } else {
        Invoke(cb, path);
      }
      return None;
    }

    /** `syncFile($file, $strict)`. */
    method SyncFile(file: string, strict: bool)
      modifies this`disk
      ensures disk == Sync(old(disk), file, WpPath(abspath, workingdir, file), strict)
    {
      var wppath := Replace(file, workingdir, LiveRoot(abspath));
      var tmppath := file;
      if strict {
        if disk.Exists(tmppath) && !disk.Exists(wppath) {
          if disk.IsDir(Dirname(wppath)) {
            disk := disk.Mkdir(Dirname(wppath));
          }
          disk := disk.Copy(tmppath, wppath);
        }
      }
      if disk.Exists(tmppath) && disk.Exists(wppath) {
        disk := disk.Copy(tmppath, wppath);
      }
    }

    /**
     * `update_changed()`: every row flagged `changed` or `missing` is synced
     * strictly, in report order, and marked `updated`; other rows stay as
     * they were.
     */
    method UpdateChanged()
      requires Valid()
      modifies this`report, this`disk
      ensures Valid()
      ensures report.order == old(report.order) && report.entries.Keys == old(report.entries.Keys)
      ensures forall p :: p in old(report.entries) ==>
                report.entries[p] == if NeedsRepair(old(report.entries[p])) then old(report.entries[p]).Set(Updated)
                                     else old(report.entries[p])
      ensures disk == SyncAll(old(disk), abspath, workingdir, Flagged(old(report.order), old(report.entries)))
      ensures NoneUpdated(old(report)) ==>
                forall p :: p in report.entries ==> (report.entries[p].updated <==> NeedsRepair(old(report.entries[p])))
    {
      var order := report.order;
      ghost var entries0 := report.entries;
      ghost var disk0 := disk;
      var i := 0;
      while i < |order|
        invariant 0 <= i <= |order|
        invariant Valid()
        invariant report.order == order
        invariant MarkedFor(report.entries, entries0, order[..i])
        invariant disk == SyncAll(disk0, abspath, workingdir, Flagged(order[..i], entries0))
      {
        RepairRow(order, i, entries0, disk0);
        i := i + 1;
      }
      assert order[..i] == order;
    }

    /** One turn of `update_changed()`'s loop: the row at `order[i]`. */
    method RepairRow(order: seq<string>, i: nat, ghost entries0: map<string, Flags>, ghost disk0: Disk)
      requires i < |order| && Valid() && report.order == order
      requires MarkedFor(report.entries, entries0, order[..i])
      requires disk == SyncAll(disk0, abspath, workingdir, Flagged(order[..i], entries0))
      modifies this`report, this`disk
      ensures Valid() && report.order == order
      ensures MarkedFor(report.entries, entries0, order[..i + 1])
      ensures disk == SyncAll(disk0, abspath, workingdir, Flagged(order[..i + 1], entries0))
    {
      var path := order[i];
      MarkStep(report.entries, entries0, order, i);
      var info := report.entries[path];
      RepairDisk(order, i, entries0, disk0, NeedsRepair(info));
      if NeedsRepair(info) {
        RecordEntries(report, path, Updated);
        Report(path, Updated);
      }
    }

    /** The file side of one turn: `order[i]` is synced when its row needs repair. */
    method RepairDisk(order: seq<string>, i: nat, ghost entries0: map<string, Flags>, ghost disk0: Disk, needs: bool)
      requires i < |order| && (forall j, k :: 0 <= j < k < |order| ==> order[j] != order[k])
      requires needs == (order[i] in entries0 && NeedsRepair(entries0[order[i]]))
      requires disk == SyncAll(disk0, abspath, workingdir, Flagged(order[..i], entries0))
      modifies this`disk
      ensures disk == SyncAll(disk0, abspath, workingdir, Flagged(order[..i + 1], entries0))
    {
      RepairStep(order, i, entries0, disk0, abspath, workingdir);
      if needs {
        SyncFile(order[i], true);
      }
    }
  }

  /** `now` is `before` with `updated` set on the rows of `done` that need repair. */
  ghost predicate MarkedFor(now: map<string, Flags>, before: map<string, Flags>, done: seq<string>) {
    && now.Keys == before.Keys
    && forall p :: p in before ==>
         now[p] == if p in done && NeedsRepair(before[p]) then before[p].Set(Updated) else before[p]
  }

  lemma MarkStep(now: map<string, Flags>, before: map<string, Flags>, order: seq<string>, i: nat)
    requires i < |order| && (forall j, k :: 0 <= j < k < |order| ==> order[j] != order[k])
    requires MarkedFor(now, before, order[..i]) && order[i] in before
    ensures now[order[i]] == before[order[i]]
    ensures NeedsRepair(before[order[i]]) ==>
              MarkedFor(now[order[i] := now[order[i]].Set(Updated)], before, order[..i + 1])
    ensures !NeedsRepair(before[order[i]]) ==> MarkedFor(now, before, order[..i + 1])
  {
    assert order[..i + 1] == order[..i] + [order[i]];
    assert order[i] !in order[..i];
  }

  lemma RepairStep(order: seq<string>, i: nat, entries: map<string, Flags>, d: Disk, abspath: string, workingdir: string)
    requires i < |order| && (forall j, k :: 0 <= j < k < |order| ==> order[j] != order[k])
    ensures order[i] !in order[..i]
    ensures var f := Flagged(order[..i], entries);
            && (order[i] in entries && NeedsRepair(entries[order[i]]) ==>
                  && Flagged(order[..i + 1], entries) == f + [order[i]]
                  && SyncAll(d, abspath, workingdir, f + [order[i]])
                       == Sync(SyncAll(d, abspath, workingdir, f), order[i], WpPath(abspath, workingdir, order[i]), true))
            && (!(order[i] in entries && NeedsRepair(entries[order[i]])) ==> Flagged(order[..i + 1], entries) == f)
  {
    assert order[..i + 1][..i] == order[..i];
    var f := Flagged(order[..i], entries);
    assert (f + [order[i]])[..|f|] == f;
  }
}
