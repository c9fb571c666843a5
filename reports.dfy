/**
 * The report that `Secure_Command::report` maintains: an ordered map from a
 * path to its four yes/no flags (php/commands/secure.php:302-315). PHP keeps
 * the insertion order of an array's keys, so the table records it next to the
 * map.
 */
module Reports {
  import opened Wrappers

  datatype Status = Changed | Updated | Missing | Matched

  /** One row: `true` stands for 'y' and `false` for 'n'. */
  datatype Flags = Flags(changed: bool, updated: bool, missing: bool, matched: bool) {
    function Get(s: Status): bool {
      match s
      case Changed => changed
      case Updated => updated
      case Missing => missing
      case Matched => matched
    }

    /** The row with the flag `s` set to 'y'. */
    function Set(s: Status): (f: Flags)
      ensures f.Get(s)
      ensures forall t :: t != s ==> f.Get(t) == Get(t)
    {
      match s
      case Changed => this.(changed := true)
      case Updated => this.(updated := true)
      case Missing => this.(missing := true)
      case Matched => this.(matched := true)
    }
  }

  /** The default row of a new entry: every flag 'n'. */
  const AllNo := Flags(false, false, false, false)

  /** Flag `s` is at least as set in `b` as in `a`. */
  predicate NoneCleared(a: Flags, b: Flags) {
    forall s :: a.Get(s) ==> b.Get(s)
  }

  datatype ReportTable = ReportTable(entries: map<string, Flags>, order: seq<string>) {
    /** The order lists every key exactly once. */
    ghost predicate Valid() {
      && (forall i, j :: 0 <= i < j < |order| ==> order[i] != order[j])
      && (forall i :: 0 <= i < |order| ==> order[i] in entries)
      && (forall p :: p in entries ==> p in order)
    }

    /** `report($path, $status)`: upsert of one flag. */
    function Record(path: string, status: Status): ReportTable {
      if path !in entries then
        ReportTable(entries[path := AllNo.Set(status)], order + [path])
      else
        ReportTable(entries[path := entries[path].Set(status)], order)
    }

    /** Records `status` for `path` when there is one; otherwise the table stays as it is. */
    function RecordIf(path: string, status: Option<Status>): ReportTable {
      if status.Some? then Record(path, status.value) else this
    }
  }

  /**
   * A new path gets a row with only the given flag 'y', appended to the
   * order; an existing path gets that flag set and keeps its other flags and
   * its place; no other row changes.
   */
  lemma RecordSpec(t: ReportTable, path: string, status: Status)
    ensures var r := t.Record(path, status);
            && r.entries.Keys == t.entries.Keys + {path}
            && (path !in t.entries ==> forall u :: r.entries[path].Get(u) == (u == status))
            && (path in t.entries ==> r.entries[path].Get(status))
            && (path in t.entries ==> forall u :: u != status ==> r.entries[path].Get(u) == t.entries[path].Get(u))
            && (forall q :: q in t.entries && q != path ==> r.entries[q] == t.entries[q])
            && r.order == if path in t.entries then t.order else t.order + [path]
  {
    var f := if path in t.entries then t.entries[path] else AllNo;
    assert t.Record(path, status).entries[path] == f.Set(status);
  }

  /** Recording keeps the order listing every key exactly once. */
  lemma RecordValid(t: ReportTable, path: string, s: Status)
    requires t.Valid()
    ensures t.Record(path, s).Valid()
  {
  }

  /** Recording the same status twice is the same as recording it once. */
  lemma RecordIdempotent(t: ReportTable, path: string, s: Status)
    ensures t.Record(path, s).Record(path, s) == t.Record(path, s)
  {
    var once := t.Record(path, s);
    assert once.entries[path].Set(s) == once.entries[path];
  }

  /** No call ever turns a 'y' back into 'n', for any path. */
  lemma RecordNeverClears(t: ReportTable, path: string, s: Status)
    ensures forall q :: q in t.entries ==> NoneCleared(t.entries[q], t.Record(path, s).entries[q])
  {
  }

  /** Setting a flag that is already set changes nothing. */
  lemma SetTwice(f: Flags, s: Status)
    ensures f.Set(s).Set(s) == f.Set(s)
  {
  }

  /** Setting two flags of a row gives the same row in either order. */
  lemma SetCommutes(f: Flags, s: Status, u: Status)
    ensures f.Set(s).Set(u) == f.Set(u).Set(s)
  {
    var x, y := f.Set(s).Set(u), f.Set(u).Set(s);
    assert x.Get(Changed) == y.Get(Changed) && x.Get(Updated) == y.Get(Updated);
    assert x.Get(Missing) == y.Get(Missing) && x.Get(Matched) == y.Get(Matched);
  }

  /**
   * Recording two statuses gives the same rows in either order; only the order
   * of the rows can differ, and only by which new path comes first.
   */
  lemma RecordCommutes(t: ReportTable, p: string, s: Status, q: string, u: Status)
    ensures t.Record(p, s).Record(q, u).entries == t.Record(q, u).Record(p, s).entries
  {
    if p == q {
      RecordCommutesSamePath(t, p, s, u);
    } else {
      RecordCommutesTwoPaths(t, p, s, q, u);
    }
  }

  lemma RecordCommutesSamePath(t: ReportTable, p: string, s: Status, u: Status)
    ensures t.Record(p, s).Record(p, u).entries == t.Record(p, u).Record(p, s).entries
  {
    var f := if p in t.entries then t.entries[p] else AllNo;
    SetCommutes(f, s, u);
    assert t.Record(p, s).Record(p, u).entries == t.entries[p := f.Set(s).Set(u)];
    assert t.Record(p, u).Record(p, s).entries == t.entries[p := f.Set(u).Set(s)];
  }

  lemma RecordCommutesTwoPaths(t: ReportTable, p: string, s: Status, q: string, u: Status)
    requires p != q
    ensures t.Record(p, s).Record(q, u).entries == t.Record(q, u).Record(p, s).entries
  {
    var f := if p in t.entries then t.entries[p] else AllNo;
    var g := if q in t.entries then t.entries[q] else AllNo;
    RecordEntries(t, p, s);
    RecordEntries(t, q, u);
    RecordEntries(t.Record(p, s), q, u);
    RecordEntries(t.Record(q, u), p, s);
    UpdatesCommute(t.entries, p, f.Set(s), q, g.Set(u));
  }

  /** The rows after one recording, as a map update. */
  lemma RecordEntries(t: ReportTable, p: string, s: Status)
    ensures t.Record(p, s).entries == t.entries[p := (if p in t.entries then t.entries[p] else AllNo).Set(s)]
  {
  }

  lemma UpdatesCommute(m: map<string, Flags>, p: string, a: Flags, q: string, b: Flags)
    requires p != q
    ensures m[p := a][q := b] == m[q := b][p := a]
  {
  }

  /** Two recordings list the same paths in either order. */
  lemma RecordCommutesOrder(t: ReportTable, p: string, s: Status, q: string, u: Status)
    requires t.Valid()
    ensures forall x :: x in t.Record(p, s).Record(q, u).order <==> x in t.Record(q, u).Record(p, s).order
  {
    var a := t.Record(p, s).Record(q, u).order;
    var b := t.Record(q, u).Record(p, s).order;
    assert forall x :: x in a <==> x in t.order || x == p || x == q;
    assert forall x :: x in b <==> x in t.order || x == p || x == q;
  }

  /** Recording `changed` and then `updated` for a path leaves both flags 'y'. */
  lemma ChangedThenUpdated(t: ReportTable, path: string)
    ensures var r := t.Record(path, Changed).Record(path, Updated).entries[path];
            r.changed && r.updated
  {
    var r := t.Record(path, Changed).Record(path, Updated).entries[path];
    assert r.Get(Changed) && r.Get(Updated);
  }
}
