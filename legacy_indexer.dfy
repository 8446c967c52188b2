/**
 * The older indexer of the top-level program. It differs from the current
 * one in four ways: it stores the first three directory levels in Dir1,
 * Dir2 and Dir3 and the keywords as one `;`-delimited string; its `index`
 * only fills in the record and never touches the database, and the scan
 * saves the record whatever `index` returned; a failed save aborts the
 * scan; and the existing record is looked up only when re-indexing is not
 * forced.
 */
module LegacyIndexer {
  import opened Wrappers
  import opened Paths
  import opened Store
  import Indexer

  /** What became of one candidate in the older indexing loop. */
  datatype Verdict = StatFailed | Skipped | Saved | SaveFailed(error: string)

  // ---------------------------------------------------------------------------
  // The directory levels
  // ---------------------------------------------------------------------------

  /** The segments of a directory after one leading separator is dropped. */
  function DirParts(dir: Path): (r: seq<string>)
    ensures |r| >= 1
  {
    Split(if |dir| > 0 && dir[0] == Separator then dir[1..] else dir, Separator)
  }

  /**
   * The directory fields: Dir, its first segment as Dir1, and its second and
   * third segments as Dir2 and Dir3 when it has that many; otherwise Dir2
   * and Dir3 keep what the record held.
   */
  function WithDirFields(pic: Picture): (r: Picture)
    ensures r.(dir := pic.dir, dir1 := pic.dir1, dir2 := pic.dir2, dir3 := pic.dir3) == pic
  {
    var dir := Dir(pic.path);
    var parts := DirParts(dir);
    pic.(dir := dir,
         dir1 := parts[0],
         dir2 := if |parts| > 1 then parts[1] else pic.dir2,
         dir3 := if |parts| > 2 then parts[2] else pic.dir3)
  }

  /** An absolute path's segments are the pieces of what follows its leading separator. */
  lemma AbsoluteSegments(p: Path)
    requires IsAbsolute(p)
    ensures PathSegments(p) == Split(p[1..], Separator)
  {
    PathSegmentsRoundTrip(p);
  }

  /** A path is its directory, a separator, and the rest. */
  lemma DirThenRest(p: Path)
    requires Separator in p && Dir(p) != "/"
    ensures p == Dir(p) + [Separator] + p[|Dir(p)| + 1..]
  {
    var d := Dir(p);
    assert p[..|d| + 1] == d + [Separator];
    assert p == p[..|d| + 1] + p[|d| + 1..];
  }

  /** The segments of a directory, a separator and a rest are the directory's segments followed by the rest's pieces. */
  lemma SegmentsOfDirAndRest(d: Path, rest: Path)
    requires |d| > 0
    ensures PathSegments(d + [Separator] + rest) == DirParts(d) + Split(rest, Separator)
  {
    var p := d + [Separator] + rest;
    if d[0] == Separator {
      AbsoluteSegments(p);
      assert p[1..] == d[1..] + [Separator] + rest;
      SplitConcat(d[1..], Separator, rest);
    } else {
      PathSegmentsRoundTrip(p);
      SplitConcat(d, Separator, rest);
    }
  }

  /** The JSON path segments of a path are its directory segments followed by the pieces after the directory. */
  lemma SegmentsAfterDir(p: Path)
    requires Separator in p && Dir(p) != "/"
    ensures PathSegments(p) == DirParts(Dir(p)) + Split(p[|Dir(p)| + 1..], Separator)
  {
    DirThenRest(p);
    SegmentsOfDirAndRest(Dir(p), p[|Dir(p)| + 1..]);
  }

  /**
   * For a path below some directory other than the root, the directory
   * segments are the leading segments of the JSON path segment list of the
   * current indexer, so Dir1, Dir2 and Dir3 are its first three entries as
   * far as the directory reaches; the file name is never one of them.
   */
  lemma {:induction false} DirFieldsAreLeadingSegments(pic: Picture)
    requires Separator in pic.path && Dir(pic.path) != "/"
    ensures var parts := DirParts(Dir(pic.path));
            var segments := PathSegments(pic.path);
            var r := WithDirFields(pic);
            && |parts| < |segments| && parts == segments[..|parts|]
            && r.dir1 == segments[0]
            && r.dir2 == (if |parts| > 1 then segments[1] else pic.dir2)
            && r.dir3 == (if |parts| > 2 then segments[2] else pic.dir3)
  {
    var parts := DirParts(Dir(pic.path));
    var tail := Split(pic.path[|Dir(pic.path)| + 1..], Separator);
    SegmentsAfterDir(pic.path);
    assert (parts + tail)[..|parts|] == parts;
  }

  // ---------------------------------------------------------------------------
  // The older index
  // ---------------------------------------------------------------------------

  /** The `;`-delimited tag column, replaced only when the file carries keywords. */
  function WithTagString(pic: Picture, info: Indexer.FileInfo): Picture {
    if info.keywords.Some? then pic.(tags := TagString(info.keywords.value)) else pic
  }

  /** The older `index`: its error, and the record it leaves behind in either case. */
  function LegacyIndexEffect(picture: Picture, infos: seq<Indexer.FileInfo>): (Outcome, Picture) {
    var pic := WithDirFields(picture);
    if |infos| == 0 then (Fail("cannot extract EXIF data"), pic)
    else if infos[0].err.Some? then (Fail(infos[0].err.value), pic)
    else (Pass, WithTagString(Indexer.WithMetadata(pic, infos[0]), infos[0]))
  }

  /** The older `index`: fills in the record in place and reports whether extraction worked. */
  method LegacyIndex(path: Path, picture: Picture, infos: seq<Indexer.FileInfo>) returns (o: Outcome, pic: Picture)
    requires picture.path == path
    ensures pic.path == path
    ensures (o, pic) == LegacyIndexEffect(picture, infos)
  {
    var dir := Dir(path);
    pic := picture.(dir := dir);
    if dir[0] == Separator {
      dir := dir[1..];
    }
    var dirSplit := Split(dir, Separator);
    pic := pic.(dir1 := dirSplit[0]);
    if |dirSplit| > 1 {
      pic := pic.(dir2 := dirSplit[1]);
    }
    if |dirSplit| > 2 {
      pic := pic.(dir3 := dirSplit[2]);
    }
    assert pic == WithDirFields(picture);

    if |infos| == 0 {
      return Fail("cannot extract EXIF data"), pic;
    }
    var info := infos[0];
    if info.err.Some? {
      return Fail(info.err.value), pic;
    }
    if info.dateTimeOriginal.Some? {
      pic := pic.(dateTimeOriginal := info.dateTimeOriginal);
    }
    if info.make.Some? {
      pic := pic.(make := info.make);
    }
    if info.model.Some? {
      pic := pic.(model := info.model);
    }
    if info.rating.Some? {
      pic := pic.(rating := info.rating);
    }
    if info.keywords.Some? {
      pic := pic.(tags := TagString(info.keywords.value));
    }
    o := Pass;
  }

  /**
   * The record the older `index` leaves: the directory fields always; after
   * a successful extraction each optional field from the file when the file
   * carries it and as loaded otherwise, and the tag column as the
   * `;`-delimited keywords when the file has a keyword list; after a failed
   * extraction everything else as loaded.
   */
  lemma LegacyIndexFields(picture: Picture, infos: seq<Indexer.FileInfo>)
    ensures var (o, r) := LegacyIndexEffect(picture, infos);
            && r.path == picture.path && r.dir == Dir(picture.path)
            && r.createdAt == picture.createdAt && r.updatedAt == picture.updatedAt
            && (o.Fail? <==> |infos| == 0 || infos[0].err.Some?)
            && (o.Fail? ==> r == WithDirFields(picture))
            && (o.Pass? ==> && r.make == (if infos[0].make.Some? then infos[0].make else picture.make)
                            && r.model == (if infos[0].model.Some? then infos[0].model else picture.model)
                            && r.rating == (if infos[0].rating.Some? then infos[0].rating else picture.rating)
                            && r.dateTimeOriginal == (if infos[0].dateTimeOriginal.Some? then infos[0].dateTimeOriginal
                                                      else picture.dateTimeOriginal)
                            && r.tags == (if infos[0].keywords.Some? then TagString(infos[0].keywords.value)
                                          else picture.tags))
  {
  }

  // ---------------------------------------------------------------------------
  // The older scan
  // ---------------------------------------------------------------------------

  /**
   * One iteration of the older indexing loop: a file that cannot be stat-ed
   * is passed over; without forcing, a found record that is newer than the
   * file is skipped; anything else is indexed, from the found record or a
   * blank one, and saved whether or not the extraction worked.
   */
  function LegacyVisitEffect(e: Entry, path: Path, disk: Indexer.Disk, force: bool,
                             rejects: Statement -> bool, now: int): (Verdict, Entry)
  {
    if disk.stat(path).None? then (StatFailed, e)
    else
      var found := !force && !rejects(Find(path)) && e.record.Some?;
      if found && disk.stat(path).value < e.record.value.updatedAt then (Skipped, e)
      else
        var picture := if found then e.record.value else Blank(path);
        var indexed := LegacyIndexEffect(picture, disk.extract(path));
        var saved := SaveEffect(e, indexed.1, rejects, now);
        (if saved.0.Pass? then Saved else SaveFailed(saved.0.error), saved.1)
  }

  method LegacyVisitPath(db: Database, path: Path, disk: Indexer.Disk, force: bool, now: int) returns (v: Verdict)
    requires db.Valid()
    modifies db
    ensures db.Valid()
    ensures (v, db.EntryAt(path)) == LegacyVisitEffect(old(db.EntryAt(path)), path, disk, force, db.rejects, now)
    ensures forall q :: q != path ==> db.EntryAt(q) == old(db.EntryAt(q))
  {
    db.EntriesKeyed(path);
    var mtime := disk.stat(path);
    if mtime.None? {
      return StatFailed;
    }
    var picture := Blank(path);
    if !force {
      var found := db.Find(path);
      if found.Some? {
        picture := found.value;
        if mtime.value < picture.updatedAt {
          return Skipped;
        }
      }
    }
    var _, pic := LegacyIndex(path, picture, disk.extract(path));
    var o := db.Save(pic, now);
    v := if o.Pass? then Saved else SaveFailed(o.error);
  }

  /** The older loop over the candidates: any order, and the first failed save aborts it. */
  method LegacyVisitAll(db: Database, candidates: set<Path>, disk: Indexer.Disk, force: bool, now: int)
    returns (o: Outcome)
    requires db.Valid()
    modifies db
    ensures db.Valid()
    ensures o.Pass? <==> forall p :: p in candidates ==>
              !LegacyVisitEffect(old(db.EntryAt(p)), p, disk, force, db.rejects, now).0.SaveFailed?
    ensures o.Pass? ==> forall p :: db.EntryAt(p) == if p in candidates
                                                     then LegacyVisitEffect(old(db.EntryAt(p)), p, disk, force, db.rejects, now).1
                                                     else old(db.EntryAt(p))
    ensures forall p :: p !in candidates ==> db.EntryAt(p) == old(db.EntryAt(p))
  {
    var todo := candidates;
    while todo != {}
      invariant db.Valid() && todo <= candidates
      invariant forall p :: p in candidates && p !in todo ==>
                  !LegacyVisitEffect(old(db.EntryAt(p)), p, disk, force, db.rejects, now).0.SaveFailed?
      invariant forall p :: db.EntryAt(p) == if p in candidates && p !in todo
                                               then LegacyVisitEffect(old(db.EntryAt(p)), p, disk, force, db.rejects, now).1
                                               else old(db.EntryAt(p))
      decreases |todo|
    {
      var path :| path in todo;
      var v := LegacyVisitPath(db, path, disk, force, now);
      if v.SaveFailed? {
        return Fail(v.error);
      }
      todo := todo - {path};
    }
    o := Pass;
  }

  /** The entry of one path after a successful older scan. */
  function LegacyScanEntry(e: Entry, p: Path, candidates: set<Path>, root: Path, disk: Indexer.Disk, force: bool,
                           rejects: Statement -> bool, now: int): Entry
  {
    if p in candidates then LegacyVisitEffect(e, p, disk, force, rejects, now).1
    else if Selected(e, root) then Absent
    else e
  }

  /**
   * The older `scan`: the same walk and purge as the current one, around
   * the older loop; a walk error, a failed save, a failed purge query or a
   * failed delete each abort it.
   */
  method LegacyScan(db: Database, walk: seq<Indexer.WalkEntry>, root: Path, disk: Indexer.Disk, force: bool, now: int)
    returns (o: Outcome)
    requires db.Valid()
    modifies db
    ensures db.Valid()
    ensures Indexer.WalkFails(walk) ==> o.Fail? && forall p :: db.EntryAt(p) == old(db.EntryAt(p))
    ensures o.Pass? <==>
              && !Indexer.WalkFails(walk)
              && (forall p :: p in Indexer.Candidates(walk) ==>
                    !LegacyVisitEffect(old(db.EntryAt(p)), p, disk, force, db.rejects, now).0.SaveFailed?)
              && !db.rejects(SelectUnder(root))
              && forall p :: Indexer.Purged(old(db.EntryAt(p)), p, Indexer.Candidates(walk), root) ==> !db.rejects(Delete(p))
    ensures o.Pass? ==> forall p :: db.EntryAt(p) == LegacyScanEntry(old(db.EntryAt(p)), p, Indexer.Candidates(walk), root,
                                                                     disk, force, db.rejects, now)
  {
    var candidates := Indexer.CollectCandidates(walk);
    if candidates.Err? {
      return Fail(candidates.error);
    }
    var paths := candidates.value;
    o := LegacyVisitAll(db, paths, disk, force, now);
    if o.Fail? {
      return;
    }
    var selected := db.SelectUnder(root);
    if selected.Err? {
      return Fail(selected.error);
    }
    assert forall p :: p !in paths ==> db.EntryAt(p) == old(db.EntryAt(p));
    assert forall p :: p in selected.value && p !in paths <==> Indexer.Purged(old(db.EntryAt(p)), p, paths, root);
    o := Indexer.Purge(db, selected.value, paths);
  }

  /**
   * A candidate that is not skipped is saved even when its extraction
   * fails: the saved record carries the directory fields of its path, and
   * keeps the loaded values of every other field; with re-indexing forced
   * nothing is loaded, so the metadata and tag column are cleared.
   */
  lemma FailedExtractionStillSaves(e: Entry, path: Path, disk: Indexer.Disk, force: bool,
                                   rejects: Statement -> bool, now: int)
    requires Keyed(e, path)
    requires var infos := disk.extract(path); |infos| == 0 || infos[0].err.Some?
    ensures var (v, after) := LegacyVisitEffect(e, path, disk, force, rejects, now);
            v == Saved ==>
              && after.record.Some?
              && after.record.value.dir == Dir(path)
              && after.record.value.dir1 == DirParts(Dir(path))[0]
              && (force ==> && after.record.value.make.None? && after.record.value.model.None?
                            && after.record.value.rating.None? && after.record.value.dateTimeOriginal.None?
                            && after.record.value.tags == "")
              && (!force && !rejects(Find(path)) && e.record.Some? ==>
                    && after.record.value.make == e.record.value.make
                    && after.record.value.model == e.record.value.model
                    && after.record.value.rating == e.record.value.rating
                    && after.record.value.dateTimeOriginal == e.record.value.dateTimeOriginal
                    && after.record.value.tags == e.record.value.tags)
  {
    var (v, after) := LegacyVisitEffect(e, path, disk, force, rejects, now);
    if v == Saved {
      var found := !force && !rejects(Find(path)) && e.record.Some?;
      var picture := if found then e.record.value else Blank(path);
      LegacyIndexFields(picture, disk.extract(path));
    }
  }

  /**
   * Without forcing, a candidate is skipped exactly when its file can be
   * stat-ed, its record is found and the file is strictly older than the
   * record's UpdatedAt; with forcing it is never skipped.
   */
  lemma LegacySkipIff(e: Entry, path: Path, disk: Indexer.Disk, force: bool, rejects: Statement -> bool, now: int)
    ensures LegacyVisitEffect(e, path, disk, force, rejects, now).0 == Skipped <==>
              && disk.stat(path).Some? && !force && !rejects(Find(path)) && e.record.Some?
              && disk.stat(path).value < e.record.value.updatedAt
    ensures LegacyVisitEffect(e, path, disk, force, rejects, now).0 in {Skipped, StatFailed} ==>
              LegacyVisitEffect(e, path, disk, force, rejects, now).1 == e
  {
  }

  /**
   * Scanning again without forcing, after a successful older scan and before
   * any file changes, leaves every entry as the first scan left it: every
   * saved record is newer than its file.
   */
  lemma {:induction false} LegacyRescanIsNoOp(e: Entry, p: Path, candidates: set<Path>, root: Path, disk: Indexer.Disk,
                                               force: bool, rejects: Statement -> bool, now: int, later: int)
    requires p in candidates && disk.stat(p).Some? ==> disk.stat(p).value < now && !rejects(Find(p))
    requires p in candidates ==> !LegacyVisitEffect(e, p, disk, force, rejects, now).0.SaveFailed?
    ensures var first := LegacyScanEntry(e, p, candidates, root, disk, force, rejects, now);
            && (p in candidates && disk.stat(p).Some? ==> LegacyVisitEffect(first, p, disk, false, rejects, later).0 == Skipped)
            && LegacyScanEntry(first, p, candidates, root, disk, false, rejects, later) == first
  {
    var first := LegacyScanEntry(e, p, candidates, root, disk, force, rejects, now);
    if p in candidates && disk.stat(p).Some? {
      LegacySkipIff(e, p, disk, force, rejects, now);
      var (v, after) := LegacyVisitEffect(e, p, disk, force, rejects, now);
      if v == Saved {
        assert after.record.Some? && after.record.value.updatedAt == now;
      }
      LegacySkipIff(first, p, disk, false, rejects, later);
    }
  }
}
