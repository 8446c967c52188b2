/**
 * The incremental indexer: a directory walk collects the candidate image
 * files, each candidate whose record is not fresher than the file is
 * re-extracted and upserted together with its tag set, and the records of
 * files that are no longer on disk are purged.
 *
 * The filesystem and exiftool are oracles (`Disk`), the directory walk is the
 * sequence of callbacks it makes, and the clock is one reading `now`.
 */
module Indexer {
  import opened Wrappers
  import opened Sequences
  import opened Paths
  import opened Store

  /** One exiftool result; a field the file does not carry is `None`. */
  datatype FileInfo = FileInfo(
    err: Option<string>,
    dateTimeOriginal: Option<int>,
    make: Option<string>,
    model: Option<string>,
    rating: Option<int>,
    keywords: Option<seq<string>>)

  /** The files as the scanner sees them: modification time (None when stat fails) and extractor output. */
  datatype Disk = Disk(stat: Path -> Option<int>, extract: Path -> seq<FileInfo>)

  /** One callback of the directory walk: a visited path, or an error reported for an entry. */
  datatype WalkEntry = Visit(path: Path) | WalkError(message: string)

  /** What became of one candidate in the indexing loop. */
  datatype Verdict = StatFailed | Skipped | Indexed | IndexFailed(error: string)

  // ---------------------------------------------------------------------------
  // The candidate set
  // ---------------------------------------------------------------------------

  predicate WalkFails(walk: seq<WalkEntry>) {
    exists i :: 0 <= i < |walk| && walk[i].WalkError?
  }

  /** The `i`th callback is the walk's first error. */
  predicate FirstError(walk: seq<WalkEntry>, i: int) {
    0 <= i < |walk| && walk[i].WalkError? && forall j :: 0 <= j < i ==> walk[j].Visit?
  }

  /** The visited paths that satisfy `keep` among the first `n` callbacks. */
  function VisitedUpTo(walk: seq<WalkEntry>, n: nat, keep: Path -> bool): set<Path>
    requires n <= |walk|
  {
    if n == 0 then {}
    else
      var w := walk[n - 1];
      VisitedUpTo(walk, n - 1, keep) + if w.Visit? && keep(w.path) then {w.path} else {}
  }

  /** The visited paths with an allowed extension. */
  function Candidates(walk: seq<WalkEntry>): set<Path> {
    VisitedUpTo(walk, |walk|, IsCandidate)
  }

  /** A path is kept exactly when the walk visits it and it satisfies `keep`. */
  lemma {:induction false} VisitedIff(walk: seq<WalkEntry>, n: nat, keep: Path -> bool, p: Path)
    requires n <= |walk|
    ensures p in VisitedUpTo(walk, n, keep) <==> Visit(p) in walk[..n] && keep(p)
  {
    if n > 0 {
      VisitedIff(walk, n - 1, keep, p);
      assert walk[..n] == walk[..n - 1] + [walk[n - 1]];
    }
  }

  /** A path is a candidate exactly when the walk visits it and its extension is allowed. */
  lemma CandidatesIff(walk: seq<WalkEntry>, p: Path)
    ensures p in Candidates(walk) <==> Visit(p) in walk && IsCandidate(p)
  {
    VisitedIff(walk, |walk|, IsCandidate, p);
    assert walk[..|walk|] == walk;
  }

  /**
   * The walk callback: a reported error stops the walk and becomes the
   * result; otherwise each visited candidate is recorded.
   */
  method CollectCandidates(walk: seq<WalkEntry>) returns (r: Result<set<Path>>)
    ensures r.Err? <==> WalkFails(walk)
    ensures r.Err? ==> exists i :: FirstError(walk, i) && walk[i].message == r.error
    ensures r.Ok? ==> r.value == Candidates(walk)
  {
    var keep: Path -> bool := IsCandidate;
    var paths: set<Path> := {};
    for i := 0 to |walk|
      invariant forall j :: 0 <= j < i ==> walk[j].Visit?
      invariant paths == VisitedUpTo(walk, i, keep)
    {
      if walk[i].WalkError? {
        assert FirstError(walk, i);
        return Err(walk[i].message);
      }
      if keep(walk[i].path) {
        paths := paths + {walk[i].path};
      }
    }
    r := Ok(paths);
  }

  // ---------------------------------------------------------------------------
  // index: one file into the database
  // ---------------------------------------------------------------------------

  /** The keywords of a file; a missing field reads as no keywords. */
  function Keywords(info: FileInfo): seq<string> {
    info.keywords.GetOr([])
  }

  /** The record with its path-derived fields set. */
  function WithPathFields(pic: Picture): Picture {
    pic.(jsonPath := PathSegments(pic.path), dir := Dir(pic.path))
  }

  /** The record with every optional field the file carries overwritten; the others are kept. */
  function WithMetadata(pic: Picture, info: FileInfo): Picture {
    pic.(dateTimeOriginal := if info.dateTimeOriginal.Some? then info.dateTimeOriginal else pic.dateTimeOriginal,
         make := if info.make.Some? then info.make else pic.make,
         model := if info.model.Some? then info.model else pic.model,
         rating := if info.rating.Some? then info.rating else pic.rating)
  }

  /** The record `index` writes: path fields set, then the file's metadata. */
  function Prepared(picture: Picture, info: FileInfo): Picture {
    WithMetadata(WithPathFields(picture), info)
  }

  /** The upsert: an insert for a record without CreatedAt, a save otherwise. */
  function UpsertEffect(e: Entry, pic: Picture, rejects: Statement -> bool, now: int): (Outcome, Entry) {
    if pic.createdAt == ZeroTime then CreateEffect(e, pic, rejects, now) else SaveEffect(e, pic, rejects, now)
  }

  /** The tag statements: append then delete the others, or delete all when there are no keywords. */
  function TagEffect(e: Entry, path: Path, keywords: seq<string>, rejects: Statement -> bool): (Outcome, Entry) {
    if |keywords| > 0 then
      var appended := AppendEffect(e, path, Elems(keywords), rejects);
      if appended.0.Fail? then appended else RetainEffect(appended.1, path, Elems(keywords), rejects)
    else ClearEffect(e, path, rejects)
  }

  /** What `index` does to the entry of `picture.path`. */
  function IndexEffect(e: Entry, picture: Picture, infos: seq<FileInfo>, rejects: Statement -> bool, now: int): (Outcome, Entry) {
    if |infos| == 0 then (Fail("cannot extract EXIF data"), e)
    else if infos[0].err.Some? then (Fail(infos[0].err.value), e)
    else
      var pic := Prepared(picture, infos[0]);
      var upserted := UpsertEffect(e, pic, rejects, now);
      if upserted.0.Fail? then upserted else TagEffect(upserted.1, pic.path, Keywords(infos[0]), rejects)
  }

  method Upsert(db: Database, pic: Picture, now: int) returns (o: Outcome)
    requires db.Valid()
    modifies db
    ensures db.Valid()
    ensures (o, db.EntryAt(pic.path)) == UpsertEffect(old(db.EntryAt(pic.path)), pic, db.rejects, now)
    ensures forall q :: q != pic.path ==> db.EntryAt(q) == old(db.EntryAt(q))
  {
    if pic.createdAt == ZeroTime {
      o := db.Create(pic, now);
    } else {
      o := db.Save(pic, now);
    }
  }

  method ReplaceTags(db: Database, path: Path, keywords: seq<string>) returns (o: Outcome)
    requires db.Valid() && db.EntryAt(path).record.Some?
    modifies db
    ensures db.Valid()
    ensures (o, db.EntryAt(path)) == TagEffect(old(db.EntryAt(path)), path, keywords, db.rejects)
    ensures forall q :: q != path ==> db.EntryAt(q) == old(db.EntryAt(q))
  {
    if |keywords| > 0 {
      o := db.AppendTags(path, Elems(keywords));
      if o.Fail? {
        return;
      }
      o := db.DeleteTagsNotIn(path, Elems(keywords));
    } else {
      o := db.DeleteTags(path);
    }
  }

  /** The in-place assignments of the optional fields the file carries. */
  method FillMetadata(picture: Picture, info: FileInfo) returns (pic: Picture)
    ensures pic == WithMetadata(picture, info)
  {
    pic := picture;
    if info.dateTimeOriginal.Some? {
      pic := pic.(dateTimeOriginal := info.dateTimeOriginal);
    }
    if info.make.Some? {
      pic := pic.(make := info.make);
    }
    if info.model.Some? {
      pic := pic.(model := info.model);
    }
    if info.rating.Some? {
      pic := pic.(rating := info.rating);
    }
  }

  /** `index`: sets the path fields, extracts, creates or saves the record, then replaces its tags. */
  method Index(db: Database, path: Path, picture: Picture, infos: seq<FileInfo>, now: int) returns (o: Outcome)
    requires db.Valid() && picture.path == path
    modifies db
    ensures db.Valid()
    ensures (o, db.EntryAt(path)) == IndexEffect(old(db.EntryAt(path)), picture, infos, db.rejects, now)
    ensures forall q :: q != path ==> db.EntryAt(q) == old(db.EntryAt(q))
  {
    var pic := picture.(jsonPath := PathSegments(path), dir := Dir(path));
    if |infos| == 0 {
      return Fail("cannot extract EXIF data");
    }
    var info := infos[0];
    if info.err.Some? {
      return Fail(info.err.value);
    }
    pic := FillMetadata(pic, info);
    assert pic == Prepared(picture, info) && pic.path == path;

    o := Upsert(db, pic, now);
    if o.Fail? {
      return;
    }
    o := ReplaceTags(db, path, Keywords(info));
  }

  /**
   * After a successful `index` the tag set of the path is exactly the set of
   * extracted keywords, whatever it was before; a file without keywords
   * ends with no tags.
   */
  lemma TagsReplacedExactly(e: Entry, picture: Picture, infos: seq<FileInfo>, rejects: Statement -> bool, now: int)
    ensures var r := IndexEffect(e, picture, infos, rejects, now);
            r.0.Pass? ==> |infos| > 0 && r.1.tags == Elems(Keywords(infos[0]))
  {
    var r := IndexEffect(e, picture, infos, rejects, now);
    if r.0.Pass? {
      var upserted := UpsertEffect(e, Prepared(picture, infos[0]), rejects, now);
      var keywords := Elems(Keywords(infos[0]));
      if |Keywords(infos[0])| > 0 {
        assert r.1.tags == (upserted.1.tags + keywords) * keywords;
      } else {
        assert Keywords(infos[0]) == [];
      }
    }
  }

  /** A successful upsert stores the record with the clock as UpdatedAt, and as CreatedAt when it had none. */
  lemma UpsertStores(e: Entry, pic: Picture, rejects: Statement -> bool, now: int)
    ensures var r := UpsertEffect(e, pic, rejects, now);
            r.0.Pass? ==> r.1.record == Some(pic.(createdAt := if pic.createdAt == ZeroTime then now else pic.createdAt,
                                                  updatedAt := now))
  {
  }

  /** The tag statements leave the record alone. */
  lemma TagsKeepRecord(e: Entry, path: Path, keywords: seq<string>, rejects: Statement -> bool)
    ensures TagEffect(e, path, keywords, rejects).1.record == e.record
  {
  }

  /**
   * A successful `index` stores the path fields of the path, each optional
   * field from the file when the file carries it and as loaded otherwise,
   * the clock as UpdatedAt, and a CreatedAt that is the clock exactly when
   * the loaded record had none.
   */
  lemma StoredRecord(e: Entry, picture: Picture, infos: seq<FileInfo>, rejects: Statement -> bool, now: int)
    ensures var after := IndexEffect(e, picture, infos, rejects, now);
            after.0.Pass? ==>
              && |infos| > 0 && infos[0].err.None? && after.1.record.Some?
              && var r := after.1.record.value;
              && r.path == picture.path
              && r.jsonPath == PathSegments(picture.path) && r.dir == Dir(picture.path)
              && r.make == (if infos[0].make.Some? then infos[0].make else picture.make)
              && r.model == (if infos[0].model.Some? then infos[0].model else picture.model)
              && r.rating == (if infos[0].rating.Some? then infos[0].rating else picture.rating)
              && r.dateTimeOriginal == (if infos[0].dateTimeOriginal.Some? then infos[0].dateTimeOriginal
                                        else picture.dateTimeOriginal)
              && r.updatedAt == now
              && r.createdAt == (if picture.createdAt == ZeroTime then now else picture.createdAt)
  {
    var r := IndexEffect(e, picture, infos, rejects, now);
    if r.0.Pass? {
      var pic := Prepared(picture, infos[0]);
      UpsertStores(e, pic, rejects, now);
      var upserted := UpsertEffect(e, pic, rejects, now);
      TagsKeepRecord(upserted.1, pic.path, Keywords(infos[0]), rejects);
    }
  }

  /**
   * A file that yields no extraction result, or an extraction error, fails
   * `index` before any statement: the record and its tags stay as they were.
   * So does a picture without CreatedAt whose path already has a record,
   * since the insert is refused.
   */
  lemma IndexFailsWithoutWrites(e: Entry, picture: Picture, infos: seq<FileInfo>, rejects: Statement -> bool, now: int)
    ensures |infos| == 0 || infos[0].err.Some? ==> IndexEffect(e, picture, infos, rejects, now) .0.Fail?
    ensures |infos| == 0 || infos[0].err.Some? ==> IndexEffect(e, picture, infos, rejects, now).1 == e
    ensures picture.createdAt == ZeroTime && e.record.Some? ==>
              IndexEffect(e, picture, infos, rejects, now).0.Fail? && IndexEffect(e, picture, infos, rejects, now).1 == e
  {
  }

  /** `index` never removes a record: a failure after the upsert leaves the upserted record. */
  lemma IndexKeepsRecord(e: Entry, picture: Picture, infos: seq<FileInfo>, rejects: Statement -> bool, now: int)
    ensures e.record.Some? ==> IndexEffect(e, picture, infos, rejects, now).1.record.Some?
  {
  }

  // ---------------------------------------------------------------------------
  // scan: one candidate
  // ---------------------------------------------------------------------------

  /**
   * One iteration of the indexing loop: a file that cannot be stat-ed is
   * passed over; a record that exists, with no forced re-index and a file
   * modified strictly before the record's UpdatedAt, is skipped; anything
   * else is indexed from the loaded record or from a blank one.
   */
  function VisitEffect(e: Entry, path: Path, disk: Disk, force: bool, rejects: Statement -> bool, now: int): (Verdict, Entry) {
    if disk.stat(path).None? then (StatFailed, e)
    else
      var found := !rejects(Find(path)) && e.record.Some?;
      var picture := if found then e.record.value else Blank(path);
      if found && !force && disk.stat(path).value < picture.updatedAt then (Skipped, e)
      else
        var (o, after) := IndexEffect(e, picture, disk.extract(path), rejects, now);
        (if o.Pass? then Indexed else IndexFailed(o.error), after)
  }

  method VisitPath(db: Database, path: Path, disk: Disk, force: bool, now: int) returns (v: Verdict)
    requires db.Valid()
    modifies db
    ensures db.Valid()
    ensures (v, db.EntryAt(path)) == VisitEffect(old(db.EntryAt(path)), path, disk, force, db.rejects, now)
    ensures forall q :: q != path ==> db.EntryAt(q) == old(db.EntryAt(q))
  {
    db.EntriesKeyed(path);
    var mtime := disk.stat(path);
    if mtime.None? {
      return StatFailed;
    }
    var picture := Blank(path);
    var found := db.Find(path);
    if found.Some? {
      picture := found.value;
      if !force && mtime.value < picture.updatedAt {
        return Skipped;
      }
    }
    var o := Index(db, path, picture, disk.extract(path), now);
    v := if o.Pass? then Indexed else IndexFailed(o.error);
  }

  /**
   * A candidate is skipped exactly when its file can be stat-ed, its record
   * is found, re-indexing is not forced and the file is strictly older than
   * the record's UpdatedAt; a skipped or unreadable candidate is left as it
   * was.
   */
  lemma SkipIff(e: Entry, path: Path, disk: Disk, force: bool, rejects: Statement -> bool, now: int)
    ensures VisitEffect(e, path, disk, force, rejects, now).0 == Skipped <==>
              && disk.stat(path).Some? && !rejects(Find(path)) && e.record.Some? && !force
              && disk.stat(path).value < e.record.value.updatedAt
    ensures VisitEffect(e, path, disk, force, rejects, now).0 in {Skipped, StatFailed} ==>
              VisitEffect(e, path, disk, force, rejects, now).1 == e
  {
  }

  /**
   * The loop over the candidate set, in any order: each candidate is
   * visited once and every other path is left alone.
   */
  method VisitAll(db: Database, candidates: set<Path>, disk: Disk, force: bool, now: int)
    requires db.Valid()
    modifies db
    ensures db.Valid()
    ensures forall p :: db.EntryAt(p) == if p in candidates then VisitEffect(old(db.EntryAt(p)), p, disk, force, db.rejects, now).1
                                         else old(db.EntryAt(p))
  {
    var todo := candidates;
    while todo != {}
      invariant db.Valid() && todo <= candidates
      invariant forall p :: db.EntryAt(p) == if p in candidates && p !in todo
                                               then VisitEffect(old(db.EntryAt(p)), p, disk, force, db.rejects, now).1
                                               else old(db.EntryAt(p))
      decreases |todo|
    {
      var path :| path in todo;
      var _ := VisitPath(db, path, disk, force, now);
      todo := todo - {path};
    }
  }

  // ---------------------------------------------------------------------------
  // scan: the purge and the whole run
  // ---------------------------------------------------------------------------

  /**
   * Deletes, in the order given, every selected record whose path is not a
   * candidate, and stops at the first failed delete.
   */
  method Purge(db: Database, selected: seq<Path>, candidates: set<Path>) returns (o: Outcome)
    requires db.Valid()
    modifies db
    ensures db.Valid()
    ensures o.Pass? <==> forall p :: p in selected && p !in candidates ==> !db.rejects(Delete(p))
    ensures o.Pass? ==> forall p :: db.EntryAt(p) == if p in selected && p !in candidates then Absent
                                                     else old(db.EntryAt(p))
    ensures forall p :: db.EntryAt(p) != old(db.EntryAt(p)) ==> p in selected && p !in candidates && db.EntryAt(p) == Absent
  {
    for i := 0 to |selected|
      invariant db.Valid()
      invariant forall j :: 0 <= j < i && selected[j] !in candidates ==> !db.rejects(Delete(selected[j]))
      invariant forall p :: db.EntryAt(p) == if p in selected[..i] && p !in candidates then Absent
                                             else old(db.EntryAt(p))
    {
      var path := selected[i];
      assert selected[..i + 1] == selected[..i] + [path];
      if path !in candidates {
        o := db.Delete(path);
        if o.Fail? {
          return;
        }
      }
    }
    assert selected[..|selected|] == selected;
    o := Pass;
  }

  /** A record that the purge deletes: selected under the root, and not a candidate. */
  predicate Purged(e: Entry, p: Path, candidates: set<Path>, root: Path) {
    p !in candidates && Selected(e, root)
  }

  /** The entry of one path after a successful scan. */
  function ScanEntry(e: Entry, p: Path, candidates: set<Path>, root: Path, disk: Disk, force: bool,
                     rejects: Statement -> bool, now: int): Entry
  {
    if p in candidates then VisitEffect(e, p, disk, force, rejects, now).1
    else if Selected(e, root) then Absent
    else e
  }

  /**
   * `scan`: collect the candidates, visit each, then purge the records under
   * the root that are not candidates. A walk error aborts before any
   * statement; an error of the purge query or of a delete aborts the run.
   */
  method Scan(db: Database, walk: seq<WalkEntry>, root: Path, disk: Disk, force: bool, now: int) returns (o: Outcome)
    requires db.Valid()
    modifies db
    ensures db.Valid()
    ensures WalkFails(walk) ==> o.Fail? && forall p :: db.EntryAt(p) == old(db.EntryAt(p))
    ensures o.Pass? <==> && !WalkFails(walk) && !db.rejects(SelectUnder(root))
                         && forall p :: Purged(old(db.EntryAt(p)), p, Candidates(walk), root) ==> !db.rejects(Delete(p))
    ensures o.Pass? ==> forall p :: db.EntryAt(p) == ScanEntry(old(db.EntryAt(p)), p, Candidates(walk), root,
                                                               disk, force, db.rejects, now)
  {
    var candidates := CollectCandidates(walk);
    if candidates.Err? {
      return Fail(candidates.error);
    }
    var paths := candidates.value;
    VisitAll(db, paths, disk, force, now);
    label Visited:
    var selected := db.SelectUnder(root);
    if selected.Err? {
      return Fail(selected.error);
    }
    assert forall p :: p !in paths ==> db.EntryAt(p) == old(db.EntryAt(p));
    assert forall p :: p in selected.value && p !in paths <==> Purged(old(db.EntryAt(p)), p, paths, root);
    o := Purge(db, selected.value, paths);
  }

  /**
   * What a successful scan does to one path: a candidate keeps any record it
   * had, whatever its visit did; a record that is not a candidate is
   * deleted exactly when it lies under the root, and is otherwise untouched.
   */
  lemma ScanKeepsCandidatesPurgesTheRest(e: Entry, p: Path, candidates: set<Path>, root: Path, disk: Disk,
                                         force: bool, rejects: Statement -> bool, now: int)
    ensures var after := ScanEntry(e, p, candidates, root, disk, force, rejects, now);
            && (p in candidates && e.record.Some? ==> after.record.Some?)
            && (p !in candidates ==> (after == Absent <==> Selected(e, root) || e == Absent))
            && (p !in candidates && !Selected(e, root) ==> after == e)
  {
    if p in candidates {
      var found := !rejects(Find(p)) && e.record.Some?;
      var picture := if found then e.record.value else Blank(p);
      IndexKeepsRecord(e, picture, disk.extract(p), rejects, now);
    }
  }

  /**
   * Scanning again without forcing, after a scan in which no candidate failed
   * to index and before any file changes, leaves every entry as the first scan
   * left it: indexed records are now newer than their files and are skipped.
   */
  lemma {:induction false} RescanIsNoOp(e: Entry, p: Path, candidates: set<Path>, root: Path, disk: Disk,
                                         force: bool, rejects: Statement -> bool, now: int, later: int)
    requires p in candidates && disk.stat(p).Some? ==> disk.stat(p).value < now && !rejects(Find(p))
    requires p in candidates ==> !VisitEffect(e, p, disk, force, rejects, now).0.IndexFailed?
    ensures var first := ScanEntry(e, p, candidates, root, disk, force, rejects, now);
            && (p in candidates && disk.stat(p).Some? ==> VisitEffect(first, p, disk, false, rejects, later).0 == Skipped)
            && ScanEntry(first, p, candidates, root, disk, false, rejects, later) == first
  {
    var first := ScanEntry(e, p, candidates, root, disk, force, rejects, now);
    if p in candidates && disk.stat(p).Some? {
      var (v, after) := VisitEffect(e, p, disk, force, rejects, now);
      if v == Indexed {
        var found := !rejects(Find(p)) && e.record.Some?;
        var picture := if found then e.record.value else Blank(p);
        StoredRecord(e, picture, disk.extract(p), rejects, now);
      } else {
        SkipIff(e, p, disk, force, rejects, now);
      }
      SkipIff(first, p, disk, false, rejects, later);
    }
  }
}
