/**
 * The filesystem that php/commands/secure.php reads through `file_exists`,
 * `is_dir`, `is_readable`, `file_get_contents` and `DirectoryIterator`, and
 * changes through the Symfony `Filesystem` object's `chmod`, `copy` and
 * `mkdir`, held as a value: the entries by path, and their permission bits.
 */
module FileSystem {
  import opened PhpStrings

  /**
   * A file holds bytes. A directory knows whether this process may read it and
   * lists its entry names in the order the system returns them, "." and ".."
   * included.
   */
  datatype Entry = File(content: seq<bv8>) | Directory(readable: bool, names: seq<string>)

  /** `is_dir` on a tree of entries. */
  predicate IsDirIn(tree: map<string, Entry>, p: string) {
    p in tree && tree[p].Directory?
  }

  /** A directory `DirectoryIterator` can open. */
  predicate ReadableDir(tree: map<string, Entry>, p: string) {
    IsDirIn(tree, p) && tree[p].readable
  }

  /**
   * `after` is the listing `before` once `name` has been added to it: the
   * old names stay in their order, `name` is listed, nothing else is, and an
   * already listed name changes nothing.
   */
  predicate ListingAdds(before: seq<string>, after: seq<string>, name: string) {
    && before <= after && name in after && |after| <= |before| + 1
    && (name in before ==> after == before)
  }

  /** The mode that chmod(2) stores: the low twelve permission bits. */
  function PermissionBits(mode: int): (bits: int)
    ensures 0 <= bits < 0x1000
  {
    mode % 0x1000
  }

  /**
   * `tree` holds the entries and `modes` their permission bits; `newFileMode`
   * and `newDirMode` are what a new file or directory receives under the
   * process umask.
   */
  datatype Disk = Disk(tree: map<string, Entry>, modes: map<string, int>, newFileMode: int, newDirMode: int) {
    /** Every entry has a mode and every mode belongs to an entry. */
    predicate Consistent() {
      tree.Keys == modes.Keys
    }

    /** `file_exists` and Symfony's `exists`. */
    predicate Exists(p: string) {
      p in tree
    }

    /** `is_dir`. */
    predicate IsDir(p: string) {
      IsDirIn(tree, p)
    }

    predicate IsFile(p: string) {
      p in tree && tree[p].File?
    }

    /** `is_readable` on a directory. */
    predicate IsReadableDir(p: string) {
      ReadableDir(tree, p)
    }

    /**
     * `file_get_contents`: the bytes of a file; for a directory or a missing
     * path PHP yields an empty string or `false`, and both hash like "".
     */
    function Read(p: string): seq<bv8> {
      if IsFile(p) then tree[p].content else []
    }

    /** `chmod(p, mode)`: sets the permission bits of an existing entry. */
    function Chmod(p: string, mode: int): Disk {
      if Exists(p) then this.(modes := modes[p := PermissionBits(mode)]) else this
    }

    /**
     * What PHP's `copy` needs: the origin is a file, the target is not a
     * directory, and the target either is a file or sits in an existing
     * directory.
     */
    predicate CanCopy(origin: string, target: string) {
      && IsFile(origin)
      && !IsDir(target)
      && (IsFile(target) || IsDir(Dirname(target)))
    }

    /**
     * `copy(origin, target, true)`: the target becomes a file with the
     * origin's bytes; a new target is added to the listing of its directory.
     */
    function Copy(origin: string, target: string): Disk {
      if !CanCopy(origin, target) then this
      else if IsFile(target) then
        this.(tree := tree[target := File(tree[origin].content)])
      else
        var parent := Dirname(target);
        var listing := tree[parent];
        var name := Basename(target);
        var names := if name in listing.names then listing.names else listing.names + [name];
        this.(tree := tree[parent := listing.(names := names)][target := File(tree[origin].content)],
              modes := modes[target := newFileMode])
    }

    /** Symfony's `mkdir(p)` for one level: a new readable, empty directory inside an existing one. */
    function Mkdir(p: string): Disk {
      if Exists(p) || !IsDir(Dirname(p)) then this
      else
        var parent := Dirname(p);
        var listing := tree[parent];
        var name := Basename(p);
        var names := if name in listing.names then listing.names else listing.names + [name];
        this.(tree := tree[parent := listing.(names := names)][p := Directory(true, [".", ".."])],
              modes := modes[p := newDirMode])
    }
  }

  /** chmod changes only the permission bits of an existing entry; nothing else changes. */
  lemma ChmodSpec(d: Disk, p: string, mode: int)
    ensures var r := d.Chmod(p, mode);
            && r.tree == d.tree && r.newFileMode == d.newFileMode && r.newDirMode == d.newDirMode
            && (d.Exists(p) ==> r.modes == d.modes[p := PermissionBits(mode)])
            && (!d.Exists(p) ==> r == d)
            && (d.Consistent() ==> r.Consistent())
  {
  }

  /**
   * After a possible copy the target is a file with the origin's bytes. An
   * existing target keeps its mode and nothing else changes; a new one gets
   * the new-file mode and is added to its directory's listing, which keeps its
   * other names in order. An impossible copy changes nothing.
   */
  lemma CopySpec(d: Disk, origin: string, target: string)
    ensures var r := d.Copy(origin, target);
            && (!d.CanCopy(origin, target) ==> r == d)
            && (d.CanCopy(origin, target) ==> r.IsFile(target) && r.Read(target) == d.Read(origin))
            && (d.CanCopy(origin, target) && d.IsFile(target) ==> r.modes == d.modes)
            && (d.CanCopy(origin, target) && !d.Exists(target) ==>
                  && r.modes == d.modes[target := d.newFileMode]
                  && r.IsDir(Dirname(target))
                  && r.tree[Dirname(target)].readable == d.tree[Dirname(target)].readable
                  && ListingAdds(d.tree[Dirname(target)].names, r.tree[Dirname(target)].names, Basename(target)))
            && (forall q :: q != target && (q != Dirname(target) || d.Exists(target)) ==>
                  (q in r.tree <==> q in d.tree) && (q in d.tree ==> r.tree[q] == d.tree[q]))
            && (forall q :: q != target ==> (q in r.modes <==> q in d.modes) && (q in d.modes ==> r.modes[q] == d.modes[q]))
            && r.newFileMode == d.newFileMode && r.newDirMode == d.newDirMode
            && (d.Consistent() ==> r.Consistent())
  {
  }

  /**
   * An existing directory is left alone; a new readable, empty directory is
   * created inside an existing one and added to its listing, which keeps its
   * other names in order; a path that is a file, or whose parent is not a
   * directory, changes nothing.
   */
  lemma MkdirSpec(d: Disk, p: string)
    ensures var r := d.Mkdir(p);
            && (d.IsDir(p) ==> r == d)
            && (!d.Exists(p) && d.IsDir(Dirname(p)) ==>
                  && r.IsReadableDir(p) && r.tree[p].names == [".", ".."]
                  && r.modes == d.modes[p := d.newDirMode]
                  && r.IsDir(Dirname(p)) && r.tree[Dirname(p)].readable == d.tree[Dirname(p)].readable
                  && ListingAdds(d.tree[Dirname(p)].names, r.tree[Dirname(p)].names, Basename(p)))
            && ((d.IsFile(p) || (!d.Exists(p) && !d.IsDir(Dirname(p)))) ==> r == d)
            && (forall q :: q != p && q != Dirname(p) ==>
                  (q in r.tree <==> q in d.tree) && (q in d.tree ==> r.tree[q] == d.tree[q]))
            && (d.Consistent() ==> r.Consistent())
  {
  }

  /** A copy makes no directory and removes none, and every file but the target keeps its bytes. */
  lemma CopyKeeps(d: Disk, origin: string, target: string)
    ensures var r := d.Copy(origin, target);
            && (forall q :: r.IsDir(q) <==> d.IsDir(q))
            && (forall q :: q != target && d.IsFile(q) ==> r.IsFile(q) && r.Read(q) == d.Read(q))
  {
    CopySpec(d, origin, target);
  }
}
