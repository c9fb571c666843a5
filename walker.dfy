/**
 * `iterate_dir` (php/commands/secure.php:166-183) as a function of the
 * directory tree: the sequence of paths it hands to its callback, and the
 * directory at which it stops with an error, if any.
 */
module Walker {
  import opened Wrappers
  import opened FileSystem

  /** The callback's argument: the directory's path and the entry name, joined by '/'. */
  datatype Visit = Visit(parent: string, name: string) {
    function Path(): string {
      parent + "/" + name
    }
  }

  /** The callback calls in order, and the path that stopped the walk. */
  datatype Walked = Walked(visits: seq<Visit>, failure: Option<string>)

  /** An entry the walk does not skip: not a dot entry and not in the skip list. */
  predicate Listed(name: string, skip: seq<string>) {
    name != "." && name != ".." && name !in skip
  }

  /** The paths longer than `d`: a child path is longer than its parent, so this shrinks on descent. */
  function Below(keys: set<string>, d: string): set<string> {
    set k | k in keys && |k| > |d|
  }

  lemma BelowShrinks(keys: set<string>, d: string, p: string)
    requires p in keys && |p| > |d|
    ensures Below(keys, p) < Below(keys, d)
  {
    assert p in Below(keys, d) && p !in Below(keys, p);
  }

  /** `b` after `a`, unless `a` already stopped the walk. */
  function Then(a: Walked, b: Walked): Walked {
    if a.failure.Some? then a else Walked(a.visits + b.visits, b.failure)
  }

  /** The walk of `dir`: the listing of a readable directory, or an error when it cannot be opened. */
  function WalkDir(tree: map<string, Entry>, skip: seq<string>, dir: string): Walked
    decreases Below(tree.Keys, dir), 2
  {
    if ReadableDir(tree, dir) then WalkEntries(tree, skip, dir, tree[dir].names)
    else Walked([], Some(dir))
  }

  /** The walk of the first `|names|` entries of `dir`'s listing. */
  function WalkEntries(tree: map<string, Entry>, skip: seq<string>, dir: string, names: seq<string>): Walked
    decreases Below(tree.Keys, dir), 1, |names|
  {
    if names == [] then Walked([], None)
    else Then(WalkEntries(tree, skip, dir, names[..|names| - 1]), WalkEntry(tree, skip, dir, names[|names| - 1]))
  }

  /**
   * One entry: skipped when it is a dot entry or in the skip list; a
   * directory is visited, walked if readable (an error if not) and visited
   * again; anything else is visited once.
   */
  function WalkEntry(tree: map<string, Entry>, skip: seq<string>, dir: string, name: string): Walked
    decreases Below(tree.Keys, dir), 0
  {
    if !Listed(name, skip) then Walked([], None)
    else
      var v := Visit(dir, name);
      if IsDirIn(tree, v.Path()) then
        if tree[v.Path()].readable then
          BelowShrinks(tree.Keys, dir, v.Path());
          var sub := WalkDir(tree, skip, v.Path());
          if sub.failure.Some? then Walked([v] + sub.visits, sub.failure)
          else Walked([v] + sub.visits + [v], None)
        else Walked([v], Some(v.Path()))
      else Walked([v], None)
  }

  /** Once a prefix of the listing has failed, the later entries add nothing. */
  lemma {:induction false} FailureSticks(tree: map<string, Entry>, skip: seq<string>, dir: string, names: seq<string>, k: nat)
    requires k <= |names|
    requires WalkEntries(tree, skip, dir, names[..k]).failure.Some?
    ensures WalkEntries(tree, skip, dir, names) == WalkEntries(tree, skip, dir, names[..k])
    decreases |names| - k
  {
    if k < |names| {
      var init := names[..|names| - 1];
      assert init[..k] == names[..k];
      FailureSticks(tree, skip, dir, init, k);
    } else {
      assert names[..k] == names;
    }
  }

  // ---- no dot entry and no skipped name is ever passed to the callback ----

  predicate AllListed(vs: seq<Visit>, skip: seq<string>) {
    forall i :: 0 <= i < |vs| ==> Listed(vs[i].name, skip)
  }

  lemma {:induction false} DirListed(tree: map<string, Entry>, skip: seq<string>, dir: string)
    ensures AllListed(WalkDir(tree, skip, dir).visits, skip)
    decreases Below(tree.Keys, dir), 2
  {
    if ReadableDir(tree, dir) {
      EntriesListed(tree, skip, dir, tree[dir].names);
    }
  }

  lemma {:induction false} EntriesListed(tree: map<string, Entry>, skip: seq<string>, dir: string, names: seq<string>)
    ensures AllListed(WalkEntries(tree, skip, dir, names).visits, skip)
    decreases Below(tree.Keys, dir), 1, |names|
  {
    if names != [] {
      EntriesListed(tree, skip, dir, names[..|names| - 1]);
      EntryListed(tree, skip, dir, names[|names| - 1]);
    }
  }

  lemma {:induction false} EntryListed(tree: map<string, Entry>, skip: seq<string>, dir: string, name: string)
    ensures AllListed(WalkEntry(tree, skip, dir, name).visits, skip)
    decreases Below(tree.Keys, dir), 0
  {
    var v := Visit(dir, name);
    if Listed(name, skip) && IsDirIn(tree, v.Path()) && tree[v.Path()].readable {
      BelowShrinks(tree.Keys, dir, v.Path());
      DirListed(tree, skip, v.Path());
    }
  }

  /** `iterate_dir` never hands a dot entry or a name of the skip list to its callback, at any depth. */
  lemma NoSkippedVisits(tree: map<string, Entry>, skip: seq<string>, dir: string)
    ensures forall v :: v in WalkDir(tree, skip, dir).visits ==> v.name != "." && v.name != ".." && v.name !in skip
  {
    DirListed(tree, skip, dir);
  }

  // ---- every visit is an entry of a readable directory's listing ----

  /** Each visit names an entry listed by its readable parent directory. */
  predicate FromListings(tree: map<string, Entry>, vs: seq<Visit>) {
    forall i :: 0 <= i < |vs| ==> ReadableDir(tree, vs[i].parent) && vs[i].name in tree[vs[i].parent].names
  }

  lemma FromListingsConcat(tree: map<string, Entry>, a: seq<Visit>, b: seq<Visit>)
    requires FromListings(tree, a) && FromListings(tree, b)
    ensures FromListings(tree, a + b)
  {
    forall i | 0 <= i < |a + b|
      ensures ReadableDir(tree, (a + b)[i].parent) && (a + b)[i].name in tree[(a + b)[i].parent].names
    {
      if i >= |a| {
        assert (a + b)[i] == b[i - |a|];
      }
    }
  }

  lemma {:induction false} DirFromListings(tree: map<string, Entry>, skip: seq<string>, dir: string)
    ensures FromListings(tree, WalkDir(tree, skip, dir).visits)
    decreases Below(tree.Keys, dir), 2
  {
    if ReadableDir(tree, dir) {
      EntriesFromListings(tree, skip, dir, tree[dir].names);
    }
  }

  lemma {:induction false} EntriesFromListings(tree: map<string, Entry>, skip: seq<string>, dir: string, names: seq<string>)
    requires ReadableDir(tree, dir) && forall n :: n in names ==> n in tree[dir].names
    ensures FromListings(tree, WalkEntries(tree, skip, dir, names).visits)
    decreases Below(tree.Keys, dir), 1, |names|
  {
    if names != [] {
      var init, last := names[..|names| - 1], names[|names| - 1];
      assert forall n :: n in init ==> n in names;
      EntriesFromListings(tree, skip, dir, init);
      EntryFromListings(tree, skip, dir, last);
      var a, b := WalkEntries(tree, skip, dir, init), WalkEntry(tree, skip, dir, last);
      if a.failure.None? {
        FromListingsConcat(tree, a.visits, b.visits);
      }
    }
  }

  lemma {:induction false} EntryFromListings(tree: map<string, Entry>, skip: seq<string>, dir: string, name: string)
    requires ReadableDir(tree, dir) && name in tree[dir].names
    ensures FromListings(tree, WalkEntry(tree, skip, dir, name).visits)
    decreases Below(tree.Keys, dir), 0
  {
    var v := Visit(dir, name);
    if Listed(name, skip) && IsDirIn(tree, v.Path()) && tree[v.Path()].readable {
      BelowShrinks(tree.Keys, dir, v.Path());
      var sub := WalkDir(tree, skip, v.Path());
      DirFromListings(tree, skip, v.Path());
      FromListingsConcat(tree, [v], sub.visits);
      if sub.failure.None? {
        FromListingsConcat(tree, [v] + sub.visits, [v]);
      }
    }
  }

  // ---- every other entry is passed, at every depth ----

  /** Every name of `dir`'s listing that is not skipped appears as a visit in `within`. */
  predicate Covers(tree: map<string, Entry>, skip: seq<string>, within: seq<Visit>, dir: string)
    requires IsDirIn(tree, dir)
  {
    forall n :: n in tree[dir].names && Listed(n, skip) ==> Visit(dir, n) in within
  }

  /** Each directory visited in `vs` is readable and has its whole listing visited in `within`. */
  predicate ClosedIn(tree: map<string, Entry>, skip: seq<string>, vs: seq<Visit>, within: seq<Visit>) {
    forall i :: 0 <= i < |vs| && IsDirIn(tree, vs[i].Path()) ==>
      tree[vs[i].Path()].readable && Covers(tree, skip, within, vs[i].Path())
  }

  lemma ClosedWider(tree: map<string, Entry>, skip: seq<string>, vs: seq<Visit>, within: seq<Visit>, wider: seq<Visit>)
    requires ClosedIn(tree, skip, vs, within)
    requires forall x :: x in within ==> x in wider
    ensures ClosedIn(tree, skip, vs, wider)
  {
  }

  lemma ClosedConcat(tree: map<string, Entry>, skip: seq<string>, a: seq<Visit>, b: seq<Visit>, within: seq<Visit>)
    requires ClosedIn(tree, skip, a, within) && ClosedIn(tree, skip, b, within)
    ensures ClosedIn(tree, skip, a + b, within)
  {
    forall i | 0 <= i < |a + b| && IsDirIn(tree, (a + b)[i].Path())
      ensures tree[(a + b)[i].Path()].readable && Covers(tree, skip, within, (a + b)[i].Path())
    {
      if i >= |a| {
        assert (a + b)[i] == b[i - |a|];
      }
    }
  }

  lemma {:induction false} DirComplete(tree: map<string, Entry>, skip: seq<string>, dir: string)
    ensures var w := WalkDir(tree, skip, dir);
            w.failure.None? ==>
              ReadableDir(tree, dir) && Covers(tree, skip, w.visits, dir) && ClosedIn(tree, skip, w.visits, w.visits)
    decreases Below(tree.Keys, dir), 2
  {
    if ReadableDir(tree, dir) {
      EntriesComplete(tree, skip, dir, tree[dir].names);
    }
  }

  lemma {:induction false} EntriesComplete(tree: map<string, Entry>, skip: seq<string>, dir: string, names: seq<string>)
    ensures var w := WalkEntries(tree, skip, dir, names);
            w.failure.None? ==>
              (forall n :: n in names && Listed(n, skip) ==> Visit(dir, n) in w.visits)
              && ClosedIn(tree, skip, w.visits, w.visits)
    decreases Below(tree.Keys, dir), 1, |names|
  {
    if names != [] {
      var init, last := names[..|names| - 1], names[|names| - 1];
      var a, b := WalkEntries(tree, skip, dir, init), WalkEntry(tree, skip, dir, last);
      EntriesComplete(tree, skip, dir, init);
      EntryComplete(tree, skip, dir, last);
      if a.failure.None? && b.failure.None? {
        var w := a.visits + b.visits;
        ClosedWider(tree, skip, a.visits, a.visits, w);
        ClosedWider(tree, skip, b.visits, b.visits, w);
        ClosedConcat(tree, skip, a.visits, b.visits, w);
        forall n | n in names && Listed(n, skip) ensures Visit(dir, n) in w {
          if n != last {
            assert n in init;
          }
        }
      }
    }
  }

  lemma {:induction false} EntryComplete(tree: map<string, Entry>, skip: seq<string>, dir: string, name: string)
    ensures var w := WalkEntry(tree, skip, dir, name);
            w.failure.None? ==>
              (Listed(name, skip) ==> Visit(dir, name) in w.visits)
              && ClosedIn(tree, skip, w.visits, w.visits)
    decreases Below(tree.Keys, dir), 0
  {
    var v := Visit(dir, name);
    if Listed(name, skip) && IsDirIn(tree, v.Path()) && tree[v.Path()].readable {
      BelowShrinks(tree.Keys, dir, v.Path());
      var sub := WalkDir(tree, skip, v.Path());
      DirComplete(tree, skip, v.Path());
      if sub.failure.None? {
        var w := [v] + sub.visits + [v];
        assert w == WalkEntry(tree, skip, dir, name).visits;
        ClosedWider(tree, skip, sub.visits, sub.visits, w);
        assert ClosedIn(tree, skip, [v], w);
        ClosedConcat(tree, skip, [v], sub.visits, w);
        ClosedConcat(tree, skip, [v] + sub.visits, [v], w);
      }
    }
  }

  /**
   * A walk that ends without error passes every entry of `dir` that is
   * neither a dot entry nor skipped, and the same holds in every directory
   * it visits, each of which was readable.
   */
  lemma WalkPassesEveryEntry(tree: map<string, Entry>, skip: seq<string>, dir: string)
    requires WalkDir(tree, skip, dir).failure.None?
    ensures var vs := WalkDir(tree, skip, dir).visits;
            && (forall n :: n in tree[dir].names && Listed(n, skip) ==> Visit(dir, n) in vs)
            && (forall v, n :: v in vs && IsDirIn(tree, v.Path()) && n in tree[v.Path()].names && Listed(n, skip) ==>
                  Visit(v.Path(), n) in vs)
            && (forall v :: v in vs && IsDirIn(tree, v.Path()) ==> tree[v.Path()].readable)
  {
    DirComplete(tree, skip, dir);
    var vs := WalkDir(tree, skip, dir).visits;
    forall v | v in vs && IsDirIn(tree, v.Path())
      ensures tree[v.Path()].readable
    {
      var i :| 0 <= i < |vs| && vs[i] == v;
    }
    forall v, n | v in vs && IsDirIn(tree, v.Path()) && n in tree[v.Path()].names && Listed(n, skip)
      ensures Visit(v.Path(), n) in vs
    {
      var i :| 0 <= i < |vs| && vs[i] == v;
    }
  }

  // ---- a directory is passed to the callback before anything inside it ----

  /** Every visit not directly under `root` comes after a visit of its own directory. */
  predicate ParentsFirst(vs: seq<Visit>, root: string) {
    forall j :: 0 <= j < |vs| && vs[j].parent != root ==>
      exists i :: 0 <= i < j && vs[i].Path() == vs[j].parent
  }

  lemma ParentsFirstConcat(a: seq<Visit>, b: seq<Visit>, root: string)
    requires ParentsFirst(a, root) && ParentsFirst(b, root)
    ensures ParentsFirst(a + b, root)
  {
    var w := a + b;
    forall j | 0 <= j < |w| && w[j].parent != root
      ensures exists i :: 0 <= i < j && w[i].Path() == w[j].parent
    {
      if j < |a| {
        var i :| 0 <= i < j && a[i].Path() == a[j].parent;
        assert w[i] == a[i];
      } else {
        assert w[j] == b[j - |a|];
        var i :| 0 <= i < j - |a| && b[i].Path() == b[j - |a|].parent;
        assert w[i + |a|] == b[i];
      }
    }
  }

  lemma {:induction false} DirParentsFirst(tree: map<string, Entry>, skip: seq<string>, dir: string)
    ensures ParentsFirst(WalkDir(tree, skip, dir).visits, dir)
    decreases Below(tree.Keys, dir), 2
  {
    if ReadableDir(tree, dir) {
      EntriesParentsFirst(tree, skip, dir, tree[dir].names);
    }
  }

  lemma {:induction false} EntriesParentsFirst(tree: map<string, Entry>, skip: seq<string>, dir: string, names: seq<string>)
    ensures ParentsFirst(WalkEntries(tree, skip, dir, names).visits, dir)
    decreases Below(tree.Keys, dir), 1, |names|
  {
    if names != [] {
      var init, last := names[..|names| - 1], names[|names| - 1];
      EntriesParentsFirst(tree, skip, dir, init);
      EntryParentsFirst(tree, skip, dir, last);
      var a, b := WalkEntries(tree, skip, dir, init), WalkEntry(tree, skip, dir, last);
      if a.failure.None? {
        ParentsFirstConcat(a.visits, b.visits, dir);
      }
    }
  }

  /** A directory's visit followed by its own walk keeps parents first. */
  lemma ParentsFirstCons(v: Visit, sub: seq<Visit>, root: string)
    requires v.parent == root && ParentsFirst(sub, v.Path())
    ensures ParentsFirst([v] + sub, root)
  {
    var w := [v] + sub;
    forall j | 0 <= j < |w| && w[j].parent != root
      ensures exists i :: 0 <= i < j && w[i].Path() == w[j].parent
    {
      assert w[j] == sub[j - 1];
      if sub[j - 1].parent == v.Path() {
        assert w[0].Path() == w[j].parent;
      } else {
        var i :| 0 <= i < j - 1 && sub[i].Path() == sub[j - 1].parent;
        assert w[i + 1] == sub[i];
      }
    }
  }

  lemma {:induction false} EntryParentsFirst(tree: map<string, Entry>, skip: seq<string>, dir: string, name: string)
    ensures ParentsFirst(WalkEntry(tree, skip, dir, name).visits, dir)
    decreases Below(tree.Keys, dir), 0
  {
    var v := Visit(dir, name);
    if Listed(name, skip) && IsDirIn(tree, v.Path()) && tree[v.Path()].readable {
      BelowShrinks(tree.Keys, dir, v.Path());
      var sub := WalkDir(tree, skip, v.Path()).visits;
      DirParentsFirst(tree, skip, v.Path());
      ParentsFirstCons(v, sub, dir);
      ParentsFirstConcat([v] + sub, [v], dir);
    }
  }

  /**
   * The first call for a directory not directly under the walk's root always
   * comes after the call for the directory that holds it: a directory's
   * callback runs before any callback inside it.
   */
  lemma DirectoryBeforeContents(tree: map<string, Entry>, skip: seq<string>, dir: string)
    ensures var vs := WalkDir(tree, skip, dir).visits;
            forall j :: 0 <= j < |vs| && vs[j].parent != dir ==>
              exists i :: 0 <= i < j && vs[i].Path() == vs[j].parent
  {
    DirParentsFirst(tree, skip, dir);
  }

  /**
   * The converse of `WalkPassesEveryEntry`: every call of the callback is
   * for an entry listed by a readable directory, which is the start
   * directory or a directory visited before it.
   */
  lemma EveryVisitIsListed(tree: map<string, Entry>, skip: seq<string>, dir: string)
    ensures var vs := WalkDir(tree, skip, dir).visits;
            forall j :: 0 <= j < |vs| ==>
              && ReadableDir(tree, vs[j].parent) && vs[j].name in tree[vs[j].parent].names
              && (vs[j].parent == dir || exists i :: 0 <= i < j && vs[i].Path() == vs[j].parent)
  {
    DirFromListings(tree, skip, dir);
    DirParentsFirst(tree, skip, dir);
  }

  // ---- a directory is passed to the callback twice ----

  /** Each directory visited in `vs` is visited at least twice. */
  predicate DirsTwice(tree: map<string, Entry>, vs: seq<Visit>) {
    forall v :: v in vs && IsDirIn(tree, v.Path()) ==> multiset(vs)[v] >= 2
  }

  lemma DirsTwiceConcat(tree: map<string, Entry>, a: seq<Visit>, b: seq<Visit>)
    requires DirsTwice(tree, a) && DirsTwice(tree, b)
    ensures DirsTwice(tree, a + b)
  {
    assert multiset(a + b) == multiset(a) + multiset(b);
  }

  lemma {:induction false} DirTwice(tree: map<string, Entry>, skip: seq<string>, dir: string)
    ensures var w := WalkDir(tree, skip, dir); w.failure.None? ==> DirsTwice(tree, w.visits)
    decreases Below(tree.Keys, dir), 2
  {
    if ReadableDir(tree, dir) {
      EntriesTwice(tree, skip, dir, tree[dir].names);
    }
  }

  lemma {:induction false} EntriesTwice(tree: map<string, Entry>, skip: seq<string>, dir: string, names: seq<string>)
    ensures var w := WalkEntries(tree, skip, dir, names); w.failure.None? ==> DirsTwice(tree, w.visits)
    decreases Below(tree.Keys, dir), 1, |names|
  {
    if names != [] {
      var init, last := names[..|names| - 1], names[|names| - 1];
      EntriesTwice(tree, skip, dir, init);
      EntryTwice(tree, skip, dir, last);
      var a, b := WalkEntries(tree, skip, dir, init), WalkEntry(tree, skip, dir, last);
      if a.failure.None? && b.failure.None? {
        DirsTwiceConcat(tree, a.visits, b.visits);
      }
    }
  }

  lemma {:induction false} EntryTwice(tree: map<string, Entry>, skip: seq<string>, dir: string, name: string)
    ensures var w := WalkEntry(tree, skip, dir, name); w.failure.None? ==> DirsTwice(tree, w.visits)
    decreases Below(tree.Keys, dir), 0
  {
    var v := Visit(dir, name);
    if Listed(name, skip) && IsDirIn(tree, v.Path()) && tree[v.Path()].readable {
      BelowShrinks(tree.Keys, dir, v.Path());
      var sub := WalkDir(tree, skip, v.Path());
      DirTwice(tree, skip, v.Path());
      if sub.failure.None? {
        var w := [v] + sub.visits + [v];
        assert multiset(w) == multiset([v]) + multiset(sub.visits) + multiset([v]);
        forall x | x in w && IsDirIn(tree, x.Path()) ensures multiset(w)[x] >= 2 {
          if x != v {
            assert x in sub.visits;
          }
        }
      }
    }
  }

  /**
   * In a walk that ends without error, the callback runs at least twice for
   * every directory it reaches: once before descending into it, once after.
   */
  lemma DirectoryVisitedTwice(tree: map<string, Entry>, skip: seq<string>, dir: string)
    ensures var w := WalkDir(tree, skip, dir);
            w.failure.None? ==>
              forall v :: v in w.visits && IsDirIn(tree, v.Path()) ==> multiset(w.visits)[v] >= 2
  {
    DirTwice(tree, skip, dir);
  }

  // ---- an unreadable directory stops the walk ----

  lemma {:induction false} DirFailure(tree: map<string, Entry>, skip: seq<string>, dir: string)
    ensures var w := WalkDir(tree, skip, dir); w.failure.Some? ==> !ReadableDir(tree, w.failure.value)
    decreases Below(tree.Keys, dir), 2
  {
    if ReadableDir(tree, dir) {
      EntriesFailure(tree, skip, dir, tree[dir].names);
    }
  }

  lemma {:induction false} EntriesFailure(tree: map<string, Entry>, skip: seq<string>, dir: string, names: seq<string>)
    ensures var w := WalkEntries(tree, skip, dir, names); w.failure.Some? ==> !ReadableDir(tree, w.failure.value)
    decreases Below(tree.Keys, dir), 1, |names|
  {
    if names != [] {
      EntriesFailure(tree, skip, dir, names[..|names| - 1]);
      EntryFailure(tree, skip, dir, names[|names| - 1]);
    }
  }

  lemma {:induction false} EntryFailure(tree: map<string, Entry>, skip: seq<string>, dir: string, name: string)
    ensures var w := WalkEntry(tree, skip, dir, name); w.failure.Some? ==> !ReadableDir(tree, w.failure.value)
    decreases Below(tree.Keys, dir), 0
  {
    var v := Visit(dir, name);
    if Listed(name, skip) && IsDirIn(tree, v.Path()) && tree[v.Path()].readable {
      BelowShrinks(tree.Keys, dir, v.Path());
      DirFailure(tree, skip, v.Path());
    }
  }
}
