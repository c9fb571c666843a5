/**
 * The integrity checks of php/commands/secure.php: how `check_file`
 * (207-227) classifies a baseline path against the live tree, when
 * `check_install` (185-193) warns about a live path, `isWPContent`
 * (294-300), and what `syncFile` (264-280) does to the filesystem. The
 * baseline tree is the working directory; the live tree is under ABSPATH.
 */
module Integrity {
  import opened Wrappers
  import opened PhpStrings
  import opened Reports
  import opened FileSystem

  /** `rtrim(ABSPATH, '/')`: the live root. */
  function LiveRoot(abspath: string): string {
    RTrim(abspath, '/')
  }

  /** The live file `check_file` compares a baseline path with (line 210). */
  function MatchFile(abspath: string, workingdir: string, path: string): string {
    LiveRoot(abspath) + "/" + LTrim(Replace(path, workingdir, ""), '/')
  }

  /** The baseline path `check_install` looks for (line 189). */
  function CorePath(abspath: string, workingdir: string, path: string): string {
    Replace(path, LiveRoot(abspath), workingdir)
  }

  /** The live path `syncFile` writes for a baseline path (line 266). */
  function WpPath(abspath: string, workingdir: string, file: string): string {
    Replace(file, workingdir, LiveRoot(abspath))
  }

  lemma ReplaceLeading(root: string, rel: string, repl: string)
    requires root != [] && !Contains("/" + rel, root)
    ensures Replace(root + "/" + rel, root, repl) == repl + "/" + rel
  {
    var s := root + "/" + rel;
    assert s[..|root|] == root;
    assert s[|root|..] == "/" + rel;
    ReplaceAbsent("/" + rel, root, repl);
    calc {
      Replace(s, root, repl);
      repl + Replace(s[|root|..], root, repl);
      repl + Replace("/" + rel, root, repl);
      repl + ("/" + rel);
    }
    assert repl + ("/" + rel) == repl + "/" + rel;
  }

  /**
   * For a baseline path `workingdir/rel` (the working directory not occurring
   * again), `check_file` compares with `rtrim(ABSPATH)/rel` with the leading
   * slashes of `rel` dropped, and `syncFile` writes `rtrim(ABSPATH)/rel`.
   */
  lemma MirrorIntoLive(abspath: string, workingdir: string, rel: string)
    requires workingdir != [] && !Contains("/" + rel, workingdir)
    ensures MatchFile(abspath, workingdir, workingdir + "/" + rel) == LiveRoot(abspath) + "/" + LTrim(rel, '/')
    ensures WpPath(abspath, workingdir, workingdir + "/" + rel) == LiveRoot(abspath) + "/" + rel
    ensures rel == [] || rel[0] != '/' ==>
              MatchFile(abspath, workingdir, workingdir + "/" + rel) == WpPath(abspath, workingdir, workingdir + "/" + rel)
  {
    ReplaceLeading(workingdir, rel, "");
    assert "" + "/" + rel == "/" + rel;
    assert LTrim("/" + rel, '/') == LTrim(rel, '/');
    ReplaceLeading(workingdir, rel, LiveRoot(abspath));
  }

  /**
   * `check_install`'s mirror of a live path into the baseline and
   * `syncFile`'s mirror back are inverse when neither root occurs in the
   * relative part.
   */
  lemma MirrorRoundTrip(abspath: string, workingdir: string, rel: string)
    requires LiveRoot(abspath) != [] && workingdir != []
    requires !Contains("/" + rel, LiveRoot(abspath)) && !Contains("/" + rel, workingdir)
    ensures CorePath(abspath, workingdir, LiveRoot(abspath) + "/" + rel) == workingdir + "/" + rel
    ensures WpPath(abspath, workingdir, CorePath(abspath, workingdir, LiveRoot(abspath) + "/" + rel))
              == LiveRoot(abspath) + "/" + rel
  {
    ReplaceLeading(LiveRoot(abspath), rel, workingdir);
    ReplaceLeading(workingdir, rel, LiveRoot(abspath));
  }

  /** `isWPContent`: `strstr($path, WP_CONTENT_DIR)` is truthy. */
  function IsWPContent(path: string, contentDir: string): bool {
    match StrStr(path, contentDir)
    case None => false
    case Some(tail) => Truthy(tail)
  }

  /**
   * Only a path that contains the content directory is content, and every
   * such path is when the directory's name is truthy.
   */
  lemma IsWPContentSpec(path: string, contentDir: string)
    ensures IsWPContent(path, contentDir) ==> Contains(path, contentDir)
    ensures contentDir != "" && contentDir != "0" ==> (IsWPContent(path, contentDir) <==> Contains(path, contentDir))
  {
    StrStrSpec(path, contentDir);
    var r := StrStr(path, contentDir);
    if r.Some? {
      assert r.value[..|contentDir|] == contentDir;
    }
  }

  /** What one `check_file` call returns and which status it records. */
  datatype FileCheck = FileCheck(same: bool, record: Option<Status>)

  /**
   * `check_file(path)`: a directory is neither compared nor recorded; a
   * baseline path without a live counterpart is `missing`; equal hashes
   * return true and are recorded `matched` only when verbose; anything else
   * is `changed`.
   */
  function Classify(d: Disk, md5: seq<bv8> -> string, abspath: string, workingdir: string, verbose: bool, path: string): FileCheck {
    var live := MatchFile(abspath, workingdir, path);
    if d.IsDir(path) then FileCheck(false, None)
    else if !d.Exists(live) then FileCheck(false, Some(Missing))
    else if md5(d.Read(live)) == md5(d.Read(path)) then FileCheck(true, if verbose then Some(Matched) else None)
    else FileCheck(false, Some(Changed))
  }

  /** The cases of `check_file`, each stated on its own. */
  lemma ClassifyCases(d: Disk, md5: seq<bv8> -> string, abspath: string, workingdir: string, verbose: bool, path: string)
    ensures var c := Classify(d, md5, abspath, workingdir, verbose, path);
            var live := MatchFile(abspath, workingdir, path);
            && (d.IsDir(path) ==> c == FileCheck(false, None))
            && (c.same <==> !d.IsDir(path) && d.Exists(live) && md5(d.Read(live)) == md5(d.Read(path)))
            && (c.record == Some(Missing) <==> !d.IsDir(path) && !d.Exists(live))
            && (c.record == Some(Changed) <==> !d.IsDir(path) && d.Exists(live) && md5(d.Read(live)) != md5(d.Read(path)))
            && (c.record == Some(Matched) <==> c.same && verbose)
            && (!d.IsDir(path) && d.Exists(live) && d.Read(live) == d.Read(path) ==> c.same)
            && c.record != Some(Updated)
  {
  }

  /**
   * The warning `check_install(path)` prints: only for a path outside the
   * content directory that exists live while its baseline mirror does not.
   */
  function InstallWarning(d: Disk, abspath: string, workingdir: string, contentDir: string, path: string): Option<string> {
    if IsWPContent(path, contentDir) then None
    else if d.Exists(path) && !d.Exists(CorePath(abspath, workingdir, path)) then
      Some("Non-core path found - " + Replace(path, LiveRoot(abspath), ""))
    else None
  }

  /** When `check_install` warns, and what it prints. */
  lemma InstallWarningCases(d: Disk, abspath: string, workingdir: string, contentDir: string, path: string)
    ensures var w := InstallWarning(d, abspath, workingdir, contentDir, path);
            && (w.Some? <==> !IsWPContent(path, contentDir) && d.Exists(path) && !d.Exists(CorePath(abspath, workingdir, path)))
            && (w.Some? ==> w.value == "Non-core path found - " + Replace(path, LiveRoot(abspath), ""))
            && (contentDir != "" && contentDir != "0" && Contains(path, contentDir) ==> w.None?)
  {
    IsWPContentSpec(path, contentDir);
  }

  /**
   * `syncFile(file, strict)` with `wppath` its live path. When the copy is
   * possible (see `Disk.CanCopy`) and the live path exists or `strict` is
   * set, the live path ends up holding the baseline bytes; otherwise nothing
   * changes. Only the live path and its directory's listing can change.
   */
  function Sync(d: Disk, file: string, wppath: string, strict: bool): Disk {
    var d1 :=
      if strict && d.Exists(file) && !d.Exists(wppath) then
        var d0 := if d.IsDir(Dirname(wppath)) then d.Mkdir(Dirname(wppath)) else d;
        d0.Copy(file, wppath)
      else d;
    if d1.Exists(file) && d1.Exists(wppath) then d1.Copy(file, wppath) else d1
  }

  /**
   * When the copy is possible and the live path exists or the call is
   * strict, the live path ends up with the baseline bytes; otherwise nothing
   * changes. The baseline file, and every path but the live path and its
   * directory, stay as they were.
   */
  lemma SyncSpec(d: Disk, file: string, wppath: string, strict: bool)
    ensures var r := Sync(d, file, wppath, strict);
            && (!d.CanCopy(file, wppath) ==> r == d)
            && (d.CanCopy(file, wppath) && (strict || d.Exists(wppath)) ==> r.IsFile(wppath) && r.Read(wppath) == d.Read(file))
            && (!strict && !d.Exists(wppath) ==> r == d)
            && (d.IsFile(file) ==> r.IsFile(file) && r.Read(file) == d.Read(file))
            && (forall q :: q != wppath && q != Dirname(wppath) ==>
                  (q in r.tree <==> q in d.tree) && (q in d.tree ==> r.tree[q] == d.tree[q]))
  {
    var d0 := if d.IsDir(Dirname(wppath)) then d.Mkdir(Dirname(wppath)) else d;
    MkdirSpec(d, Dirname(wppath));
    CopySpec(d0, file, wppath);
    var d1 :=
      if strict && d.Exists(file) && !d.Exists(wppath) then d0.Copy(file, wppath) else d;
    CopySpec(d1, file, wppath);
  }

  /** `syncFile` makes no directory and removes none, and every file but the live path keeps its bytes. */
  lemma SyncKeeps(d: Disk, file: string, wppath: string, strict: bool)
    ensures var r := Sync(d, file, wppath, strict);
            && (forall q :: r.IsDir(q) <==> d.IsDir(q))
            && (forall q :: q != wppath && d.IsFile(q) ==> r.IsFile(q) && r.Read(q) == d.Read(q))
  {
    var d0 := if d.IsDir(Dirname(wppath)) then d.Mkdir(Dirname(wppath)) else d;
    MkdirSpec(d, Dirname(wppath));
    assert d0 == d;
    var d1 := if strict && d.Exists(file) && !d.Exists(wppath) then d.Copy(file, wppath) else d;
    CopyKeeps(d, file, wppath);
    CopyKeeps(d1, file, wppath);
  }

  /**
   * A strict repair makes the next `check_file` of that path succeed: when
   * the path `check_file` compares with is the one `syncFile` writes and the
   * copy is possible, the hashes agree afterwards.
   */
  lemma RepairThenMatch(d: Disk, md5: seq<bv8> -> string, abspath: string, workingdir: string, verbose: bool, file: string)
    requires MatchFile(abspath, workingdir, file) == WpPath(abspath, workingdir, file)
    requires d.CanCopy(file, WpPath(abspath, workingdir, file))
    ensures var c := Classify(Sync(d, file, WpPath(abspath, workingdir, file), true), md5, abspath, workingdir, verbose, file);
            c.same && c.record == (if verbose then Some(Matched) else None)
  {
    SyncSpec(d, file, WpPath(abspath, workingdir, file), true);
  }

  /** Rows that `update_changed` repairs: `changed` or `missing` is 'y'. */
  predicate NeedsRepair(f: Flags) {
    f.changed || f.missing
  }

  /** The paths of `keys`, in order, whose rows need repair. */
  function Flagged(keys: seq<string>, entries: map<string, Flags>): seq<string>
    decreases |keys|
  {
    if keys == [] then []
    else
      var k := keys[|keys| - 1];
      Flagged(keys[..|keys| - 1], entries) + (if k in entries && NeedsRepair(entries[k]) then [k] else [])
  }

  /** A path is repaired exactly when it is a key whose row needs repair. */
  lemma {:induction false} FlaggedSpec(keys: seq<string>, entries: map<string, Flags>)
    ensures forall p :: p in Flagged(keys, entries) <==> p in keys && p in entries && NeedsRepair(entries[p])
    decreases |keys|
  {
    if keys != [] {
      var init := keys[..|keys| - 1];
      FlaggedSpec(init, entries);
      assert keys == init + [keys[|keys| - 1]];
    }
  }

  /** The filesystem after `syncFile(f, true)` for each of `files` in turn. */
  function SyncAll(d: Disk, abspath: string, workingdir: string, files: seq<string>): Disk
    decreases |files|
  {
    if files == [] then d
    else
      var f := files[|files| - 1];
      Sync(SyncAll(d, abspath, workingdir, files[..|files| - 1]), f, WpPath(abspath, workingdir, f), true)
  }

  /** The live paths `syncFile` writes for `files`, in order. */
  function WpPaths(abspath: string, workingdir: string, files: seq<string>): (r: seq<string>)
    ensures |r| == |files| && forall i :: 0 <= i < |files| ==> r[i] == WpPath(abspath, workingdir, files[i])
    decreases |files|
  {
    if files == [] then [] else WpPaths(abspath, workingdir, files[..|files| - 1]) + [WpPath(abspath, workingdir, files[|files| - 1])]
  }

  /** A run of syncs makes no directory and removes none, and a file no sync writes keeps its bytes. */
  lemma {:induction false} SyncAllKeeps(d: Disk, abspath: string, workingdir: string, files: seq<string>)
    ensures var r := SyncAll(d, abspath, workingdir, files);
            && (forall q :: r.IsDir(q) <==> d.IsDir(q))
            && (forall q :: q !in WpPaths(abspath, workingdir, files) && d.IsFile(q) ==> r.IsFile(q) && r.Read(q) == d.Read(q))
    decreases |files|
  {
    if files != [] {
      var init := files[..|files| - 1];
      var f := files[|files| - 1];
      SyncAllKeeps(d, abspath, workingdir, init);
      SyncKeeps(SyncAll(d, abspath, workingdir, init), f, WpPath(abspath, workingdir, f), true);
      assert WpPaths(abspath, workingdir, files) == WpPaths(abspath, workingdir, init) + [WpPath(abspath, workingdir, f)];
    }
  }

  /**
   * `update_changed`'s syncs do not undo one another: when the live paths of
   * the files are pairwise distinct and none of them is one of the files,
   * every file whose copy was possible at the start has its live path
   * holding its baseline bytes at the end.
   */
  lemma {:induction false} SyncAllRestores(d: Disk, abspath: string, workingdir: string, files: seq<string>)
    requires forall i, j :: 0 <= i < j < |files| ==> WpPath(abspath, workingdir, files[i]) != WpPath(abspath, workingdir, files[j])
    requires forall i, j :: 0 <= i < |files| && 0 <= j < |files| ==> WpPath(abspath, workingdir, files[i]) != files[j]
    ensures var r := SyncAll(d, abspath, workingdir, files);
            forall i :: 0 <= i < |files| && d.CanCopy(files[i], WpPath(abspath, workingdir, files[i])) ==>
              r.IsFile(WpPath(abspath, workingdir, files[i])) && r.Read(WpPath(abspath, workingdir, files[i])) == d.Read(files[i])
    decreases |files|
  {
    if files != [] {
      var n := |files| - 1;
      var init, f := files[..n], files[n];
      var wp := WpPath(abspath, workingdir, f);
      assert forall i :: 0 <= i < n ==> init[i] == files[i];
      SyncAllRestores(d, abspath, workingdir, init);
      SyncAllKeeps(d, abspath, workingdir, init);
      var m := SyncAll(d, abspath, workingdir, init);
      var r := SyncAll(d, abspath, workingdir, files);
      assert r == Sync(m, f, wp, true);
      SyncSpec(m, f, wp, true);
      SyncKeeps(m, f, wp, true);
      var ws := WpPaths(abspath, workingdir, init);
      forall i | 0 <= i < |files| && d.CanCopy(files[i], WpPath(abspath, workingdir, files[i]))
        ensures r.IsFile(WpPath(abspath, workingdir, files[i])) && r.Read(WpPath(abspath, workingdir, files[i])) == d.Read(files[i])
      {
        if i == n {
          assert f !in ws by {
            forall k | 0 <= k < n ensures ws[k] != f {
              assert ws[k] == WpPath(abspath, workingdir, files[k]);
            }
          }
          assert wp !in ws by {
            forall k | 0 <= k < n ensures ws[k] != wp {
              assert ws[k] == WpPath(abspath, workingdir, files[k]);
            }
          }
          assert m.CanCopy(f, wp);
        } else {
          assert m.IsFile(WpPath(abspath, workingdir, files[i]));
        }
      }
    }
  }
}
