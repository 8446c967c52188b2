/**
 * The SQLite index as the indexers see it: one picture record per path and
 * a tag set per path. Which statements the database refuses is fixed by the
 * `rejects` predicate, so every error path of the indexers can be reached
 * and stated. Every statement the indexers issue touches one path only, so
 * each is specified by its effect on the `Entry` of that path.
 */
module Store {
  import opened Wrappers
  import opened Sequences
  import opened Paths

  /** Go's zero `time.Time`, in Unix seconds (January 1 of year 1, UTC). */
  const ZeroTime: int := -62135596800

  /** The picture record; absent EXIF fields are `None`, never a zero value. */
  datatype Picture = Picture(
    path: Path,
    jsonPath: seq<string>,
    dir: Path,
    dir1: string,
    dir2: string,
    dir3: string,
    createdAt: int,
    updatedAt: int,
    make: Option<string>,
    model: Option<string>,
    dateTimeOriginal: Option<int>,
    rating: Option<int>,
    tags: string)

  /** The record value the indexers start from for a path the database does not hold. */
  function Blank(path: Path): (r: Picture)
    ensures r.path == path && r.createdAt == ZeroTime && r.updatedAt == ZeroTime
    ensures r.make.None? && r.model.None? && r.dateTimeOriginal.None? && r.rating.None?
  {
    Picture(path, [], "", "", "", "", ZeroTime, ZeroTime, None, None, None, None, "")
  }

  /** What the database holds for one path: the record, if any, and its tags. */
  datatype Entry = Entry(record: Option<Picture>, tags: set<string>)

  const Absent: Entry := Entry(None, {})

  /** Every statement the indexers send. */
  datatype Statement =
    | Find(path: Path)
    | Create(path: Path)
    | Save(path: Path)
    | AppendTags(path: Path)
    | DeleteTagsNotIn(path: Path)
    | DeleteTags(path: Path)
    | SelectUnder(root: Path)
    | Delete(path: Path)

  /** An insert: CreatedAt is filled in when it is zero, UpdatedAt is set to the clock. */
  function Inserted(pic: Picture, now: int): (r: Picture)
    ensures r.updatedAt == now
    ensures r.createdAt == if pic.createdAt == ZeroTime then now else pic.createdAt
    ensures r.(createdAt := pic.createdAt, updatedAt := pic.updatedAt) == pic
  {
    pic.(createdAt := if pic.createdAt == ZeroTime then now else pic.createdAt, updatedAt := now)
  }

  /** `db.Create`: an insert, refused when the path already has a record. */
  function CreateEffect(e: Entry, pic: Picture, rejects: Statement -> bool, now: int): (Outcome, Entry) {
    if rejects(Create(pic.path)) || e.record.Some? then (Fail("cannot create record"), e)
    else (Pass, e.(record := Some(Inserted(pic, now))))
  }

  /**
   * `db.Save`: an update of every column that sets UpdatedAt to the clock,
   * or an insert when the path has no record yet.
   */
  function SaveEffect(e: Entry, pic: Picture, rejects: Statement -> bool, now: int): (Outcome, Entry) {
    if rejects(Save(pic.path)) then (Fail("cannot save record"), e)
    else if e.record.Some? then (Pass, e.(record := Some(pic.(updatedAt := now))))
    else (Pass, e.(record := Some(Inserted(pic, now))))
  }

  /** Appending tags to a record's tag association. */
  function AppendEffect(e: Entry, path: Path, added: set<string>, rejects: Statement -> bool): (Outcome, Entry) {
    if rejects(AppendTags(path)) then (Fail("cannot append tags"), e)
    else (Pass, e.(tags := e.tags + added))
  }

  /** Deleting the tags of a path that are not in `keep`. */
  function RetainEffect(e: Entry, path: Path, keep: set<string>, rejects: Statement -> bool): (Outcome, Entry) {
    if rejects(DeleteTagsNotIn(path)) then (Fail("cannot delete tags"), e)
    else (Pass, e.(tags := e.tags * keep))
  }

  /** Deleting every tag of a path. */
  function ClearEffect(e: Entry, path: Path, rejects: Statement -> bool): (Outcome, Entry) {
    if rejects(DeleteTags(path)) then (Fail("cannot delete tags"), e)
    else (Pass, e.(tags := {}))
  }

  /** Deleting a record; its tags go with it. */
  function DeleteEffect(e: Entry, path: Path, rejects: Statement -> bool): (Outcome, Entry) {
    if rejects(Delete(path)) then (Fail("cannot delete record"), e)
    else (Pass, Absent)
  }

  /** The record of an entry, if any, belongs to path `p`. */
  predicate Keyed(e: Entry, p: Path) {
    e.record.Some? ==> e.record.value.path == p
  }

  /** Whether the purge query selects an entry: it has a record whose directory lies in `root` or below it. */
  predicate Selected(e: Entry, root: Path) {
    e.record.Some? && UnderRoot(e.record.value.dir, root)
  }

  /** An open database. */
  class Database {
    /** The picture table, keyed by path. */
    var records: map<Path, Picture>
    /** The tag association: the tags of each path that has any. */
    var tags: map<Path, set<string>>
    /** The statements the database answers with an error. */
    const rejects: Statement -> bool

    ghost predicate Valid()
      reads this
    {
      && (forall p :: p in records ==> records[p].path == p)
      && tags.Keys <= records.Keys
    }

    /** Each path's record is keyed by that path. */
    lemma EntriesKeyed(p: Path)
      requires Valid()
      ensures Keyed(EntryAt(p), p)
    {
    }

    /** The entry of one path. */
    function EntryAt(p: Path): Entry
      reads this
    {
      Entry(if p in records then Some(records[p]) else None, if p in tags then tags[p] else {})
    }

    constructor (records: map<Path, Picture>, tags: map<Path, set<string>>, rejects: Statement -> bool)
      requires forall p :: p in records ==> records[p].path == p
      requires tags.Keys <= records.Keys
      ensures Valid()
      ensures this.records == records && this.tags == tags && this.rejects == rejects
    {
      this.records := records;
      this.tags := tags;
      this.rejects := rejects;
    }

    /** Loads the record of `path`; a failing query finds nothing. */
    method Find(path: Path) returns (r: Option<Picture>)
      ensures r.Some? <==> !rejects(Statement.Find(path)) && EntryAt(path).record.Some?
      ensures r.Some? ==> r == EntryAt(path).record
    {
      if rejects(Statement.Find(path)) || path !in records {
        r := None;
      } else {
        r := Some(records[path]);
      }
    }

    method Create(pic: Picture, now: int) returns (o: Outcome)
      requires Valid()
      modifies this
      ensures Valid()
      ensures (o, EntryAt(pic.path)) == CreateEffect(old(EntryAt(pic.path)), pic, rejects, now)
      ensures forall q :: q != pic.path ==> EntryAt(q) == old(EntryAt(q))
    {
      if rejects(Statement.Create(pic.path)) || pic.path in records {
        return Fail("cannot create record");
      }
      records := records[pic.path := Inserted(pic, now)];
      o := Pass;
    }

    method Save(pic: Picture, now: int) returns (o: Outcome)
      requires Valid()
      modifies this
      ensures Valid()
      ensures (o, EntryAt(pic.path)) == SaveEffect(old(EntryAt(pic.path)), pic, rejects, now)
      ensures forall q :: q != pic.path ==> EntryAt(q) == old(EntryAt(q))
    {
      if rejects(Statement.Save(pic.path)) {
        return Fail("cannot save record");
      }
      if pic.path in records {
        records := records[pic.path := pic.(updatedAt := now)];
      } else {
        records := records[pic.path := Inserted(pic, now)];
      }
      o := Pass;
    }

    method AppendTags(path: Path, added: set<string>) returns (o: Outcome)
      requires Valid() && EntryAt(path).record.Some?
      modifies this
      ensures Valid()
      ensures (o, EntryAt(path)) == AppendEffect(old(EntryAt(path)), path, added, rejects)
      ensures forall q :: q != path ==> EntryAt(q) == old(EntryAt(q))
    {
      if rejects(Statement.AppendTags(path)) {
        return Fail("cannot append tags");
      }
      tags := tags[path := EntryAt(path).tags + added];
      o := Pass;
    }

    method DeleteTagsNotIn(path: Path, keep: set<string>) returns (o: Outcome)
      requires Valid() && EntryAt(path).record.Some?
      modifies this
      ensures Valid()
      ensures (o, EntryAt(path)) == RetainEffect(old(EntryAt(path)), path, keep, rejects)
      ensures forall q :: q != path ==> EntryAt(q) == old(EntryAt(q))
    {
      if rejects(Statement.DeleteTagsNotIn(path)) {
        return Fail("cannot delete tags");
      }
      tags := tags[path := EntryAt(path).tags * keep];
      o := Pass;
    }

    method DeleteTags(path: Path) returns (o: Outcome)
      requires Valid()
      modifies this
      ensures Valid()
      ensures (o, EntryAt(path)) == ClearEffect(old(EntryAt(path)), path, rejects)
      ensures forall q :: q != path ==> EntryAt(q) == old(EntryAt(q))
    {
      if rejects(Statement.DeleteTags(path)) {
        return Fail("cannot delete tags");
      }
      tags := tags - {path};
      o := Pass;
    }

    method Delete(path: Path) returns (o: Outcome)
      requires Valid()
      modifies this
      ensures Valid()
      ensures (o, EntryAt(path)) == DeleteEffect(old(EntryAt(path)), path, rejects)
      ensures forall q :: q != path ==> EntryAt(q) == old(EntryAt(q))
    {
      if rejects(Statement.Delete(path)) {
        return Fail("cannot delete record");
      }
      records := records - {path};
      tags := tags - {path};
      o := Pass;
    }

    /** The paths of the records in `root` or below it, each once, in the database's order. */
    method SelectUnder(root: Path) returns (r: Result<seq<Path>>)
      ensures r.Err? <==> rejects(Statement.SelectUnder(root))
      ensures r.Ok? ==> Distinct(r.value) && forall p :: p in r.value <==> Selected(EntryAt(p), root)
    {
      if rejects(Statement.SelectUnder(root)) {
        return Err("cannot select records");
      }
      var selected: seq<Path> := [];
      var rest := records.Keys;
      while rest != {}
        invariant rest <= records.Keys
        invariant forall q :: q in selected <==> q in records && UnderRoot(records[q].dir, root) && q !in rest
        invariant Distinct(selected)
        decreases |rest|
      {
        var p :| p in rest;
        if UnderRoot(records[p].dir, root) {
          selected := selected + [p];
        }
        rest := rest - {p};
      }
      r := Ok(selected);
    }
  }
}
