# picture-db: the indexer and the PhotoPrism album reconciler in Dafny

picture-db keeps a SQLite index of a photo collection and mirrors albums
into a PhotoPrism server. This project models the parts of the program that
change state:

- **The incremental indexer** (`scan` and `index` of `pkg/index.go`). A
  directory walk collects the `.jpg`/`.heic` files under a root. Each file
  whose record is not fresher than the file is re-extracted. The record is
  then created or saved, together with its tag set. Finally the records of
  files that are gone from under the root are purged.
- **The older indexer** (`index` and `scan` of `main.go`). It stores the
  first three directory levels in Dir1, Dir2 and Dir3 and the keywords as one
  `;`-delimited string. It saves the record even when extraction failed, and
  a failed save aborts the run.
- **The album reconciler** (`syncPhotoprismAlbum` and `syncPhotoprismAlbums`
  of `pkg/photoprism.go`, and the older copy in `main.go`). It groups the
  rows of a query by album title. For each title it finds or creates the
  album and resolves every desired picture by a filename search. The photos
  the album lacks are added in one batch. The photos nobody asked for are
  removed, or only reported when deletion is off.
- **The pure helpers** behind these: `strings.Split`, the JSON path segment
  list, `filepath.Dir`, `filepath.Ext` with ASCII lower-casing, the
  extension allow-list, the purge selection and the `;`-delimited tag string.

Modules:

| module | file | models |
|---|---|---|
| `Wrappers` | wrappers.dfy | `Option`, `Result` and `Outcome` (Go's `error`) |
| `Sequences` | sequences.dfy | `Elems` and `Distinct` |
| `Paths` | paths.dfy | the string and path helpers |
| `PhotoPrism` | photoprism.dfy | the PhotoPrism client as a class `Client` |
| `AlbumSync` | albums.dfy | `pkg/photoprism.go` |
| `LegacyAlbumSync` | legacy_albums.dfy | the album sync of `main.go` |
| `Store` | store.dfy | the picture table and tag association as a class `Database` |
| `Indexer` | indexer.dfy | `pkg/index.go` |
| `LegacyIndexer` | legacy_indexer.dfy | the indexer of `main.go` |

The environment becomes data:
- The PhotoPrism server and the SQLite database are classes. Each carries a
  constant `rejects` predicate naming the requests or statements it answers
  with an error, so every error path of the Go code can be reached and
  stated.
- The filesystem and exiftool are a `Disk` value: a modification time per
  path (`None` when `os.Stat` fails) and the extractor's output per path.
- The directory walk is the sequence of callbacks it makes.
- The clock is one reading `now`.
- The filename search is a function from query to the first matching
  photo.
- Go map iteration order is a free choice (`:|`) in each loop.

Each database statement touches one path. So every indexer operation is
specified by an effect function on the `Entry` of a path, meaning its record
and tag set, together with "every other path is unchanged". Lemmas about
those effect functions state the guarantees. The album methods are
specified the same way through the pure `Swept` function over the desired
search strings.

## Model

| member | source | states |
|---|---|---|
| Paths.Split | pkg/index.go:19 | `strings.Split` yields at least one piece, and no piece contains the separator |
| Paths.JoinSplit | pkg/index.go:19 | joining the pieces of a split with the separator gives the string back |
| Paths.SplitJoin | pkg/index.go:19 | splitting a join of separator-free pieces gives the pieces back |
| Paths.SplitConcat | main.go:56 | splitting `a + sep + b` is the split of `a` followed by the split of `b` |
| Paths.FirstPieceEmpty | pkg/index.go:20 | the first piece is empty exactly when the string is empty or starts with the separator |
| Paths.PathSegments | pkg/index.go:19-23 | no JSON path segment contains the separator |
| Paths.PathSegmentsRoundTrip | pkg/index.go:19-23 | only the leading empty piece of an absolute path is dropped, and a separator (for an absolute path) plus the joined segments gives the path back |
| Paths.Dir | pkg/index.go:29 | `filepath.Dir` is non-empty; it is "." without a separator; it has no trailing separator except for "/"; otherwise it followed by a separator is a prefix of the path |
| Paths.DirOfJoin | pkg/index.go:29 | the directory of `d/name`, for a directory without a trailing separator and a file name without one, is exactly `d`; the directory of `/name` is the root |
| Paths.TrimTrailingSeparators | pkg/index.go:29 | the result is a prefix without a trailing separator, and only separators were removed |
| Paths.LastIndex | pkg/index.go:29 | the index found holds the separator and none follows it; `None` means there is none |
| Paths.Ext | pkg/index.go:124 | `filepath.Ext` is a suffix of the path that is empty or starts with its only dot and holds no separator |
| Paths.ExtOfSuffix | pkg/index.go:124 | a name ending in a dot and a dot-free, separator-free word has that dot and word as its extension |
| Paths.Lower | pkg/index.go:124 | lower-casing keeps the length |
| Paths.CandidateIff | pkg/index.go:124-128 | a walked path is collected exactly when it ends in ".jpg" or ".heic" in any ASCII letter case |
| Paths.TagString | main.go:89-91 | the tag column starts and ends with ';' |
| Paths.TagStringRoundTrip | main.go:89-91 | when no keyword holds ';', splitting the tag column on ';' gives the keywords between two empty pieces |
| Paths.TagStringContains | main.go:89-91 | every keyword occurs in the tag column delimited by ';' on both sides |
| PhotoPrism.Client.Login | pkg/photoprism.go:141-145 | authentication fails exactly when the server refuses it |
| PhotoPrism.Client.GetAlbums | pkg/photoprism.go:159-162 | the album listing is the server's albums, unless refused |
| PhotoPrism.Client.CreateAlbum | pkg/photoprism.go:30-37 | a new album gets a non-empty UID the server never handed out and an empty photo set; a refusal changes no album |
| PhotoPrism.Client.GetPhotos | pkg/photoprism.go:43-55 | the photo listing of an album holds each of its photos exactly once |
| PhotoPrism.Client.FindPhoto | pkg/photoprism.go:70-82 | the filename search returns the first match or none, unless refused |
| PhotoPrism.Client.AddPhotos | pkg/photoprism.go:96-102 | the batch joins the album's photo set and no other album changes; a refusal changes nothing |
| PhotoPrism.Client.RemovePhotos | pkg/photoprism.go:115-121 | the batch leaves the album's photo set and no other album changes; a refusal changes nothing |
| AlbumSync.QueryPaths | pkg/photoprism.go:65-68 | each row is searched by its PhotoPrism path when set, by its local path otherwise |
| AlbumSync.FirstTitledIsFirstMatch | pkg/photoprism.go:21-27 | the album found is the first with exactly that title, or the zero album when no title matches |
| AlbumSync.FindAlbum | pkg/photoprism.go:21-27 | the search loop returns the first exact title match or the zero album |
| AlbumSync.FirstTitledFound | pkg/photoprism.go:21-30 | an album with a non-empty UID came from the listing and carries the title |
| AlbumSync.DistinctTitlesDistinctAlbums | pkg/photoprism.go:21-27 | two different titles never resolve to the same existing album |
| AlbumSync.FoundSnoc | pkg/photoprism.go:78-93 | one more search adds its hit, if any, to the resolved photos |
| AlbumSync.SweptLeftAreExtras | pkg/photoprism.go:84-93 | the photos left in the working map after the loop are the album's photos no search resolved to |
| AlbumSync.SweptAccounting | pkg/photoprism.go:58-94 | every added photo was resolved, every resolved photo missing from the album is added, the photos seen as present were in the album, each search lands in exactly one of added, present and not found, and the not-found list is exactly the searches with no hit |
| AlbumSync.UnambiguousSweep | pkg/photoprism.go:84-93 | when no two searches hit the same photo, the add batch holds exactly the resolved photos missing from the album and the present list exactly the resolved photos already in it |
| AlbumSync.SweptPrefix | pkg/photoprism.go:84-93 | the loop only appends: the add and present lists after the first rows begin the final ones |
| AlbumSync.Converges | pkg/photoprism.go:58-121 | after the add and remove batches the album holds exactly the resolved photos with deletion on, and its old photos plus the resolved ones with deletion off |
| AlbumSync.RerunIsNoOp | pkg/photoprism.go:84-97 | a rerun over an album that already holds every resolved photo, with no two searches hitting the same photo, adds nothing, reports every resolved photo as present and leaves exactly the unrequested photos |
| AlbumSync.RerunSendsNothing | pkg/photoprism.go:84-121 | a rerun over an existing album that holds exactly the resolved photos, with no two searches hitting the same photo, reports them all present, finds no extras and sends no add or remove request |
| AlbumSync.DuplicateRowIsAddedAgain | pkg/photoprism.go:84-93 | when two rows resolve to a photo already in the album, the first of them marks it present and the later one puts it in the add batch again |
| AlbumSync.ResolveDesired | pkg/photoprism.go:58-94 | the search loop fails exactly when some search is refused; otherwise it computes the sweep of the desired search strings |
| AlbumSync.CollectExtras | pkg/photoprism.go:104-113 | with deletion on, the delete batch holds each leftover photo once and nothing is warned; with it off, the batch is empty and every leftover is warned about |
| AlbumSync.PlannedWritesCompose | pkg/photoprism.go:30-121 | the requests of the album head and of the batches compose into the planned request sequence |
| AlbumSync.SyncedAlbumIntro | pkg/photoprism.go:17-124 | the facts the album head and the batches establish make up a synced album |
| AlbumSync.LoadAlbumPhotos | pkg/photoprism.go:43-55 | the working map of an existing album is its photo set, unless the listing is refused |
| AlbumSync.ApplySweep | pkg/photoprism.go:96-121 | exactly the non-empty batches are sent, and it fails exactly when one of them is refused; no other album changes; on success the album holds the reconciled photo set and the delete batch is the leftovers (deletion on) or empty (off); after a refused add batch the album is unchanged, after a refused remove batch it holds its photos plus the added ones |
| AlbumSync.BatchRefused | pkg/photoprism.go:96-121 | the batches sent are refused exactly when the non-empty add batch or the non-empty remove batch is refused |
| AlbumSync.RemoveExtras | pkg/photoprism.go:104-121 | the delete batch is each leftover once (deletion on) or empty (off); it is sent only when non-empty and fails exactly when refused; the album loses exactly the batch on success and is untouched otherwise |
| AlbumSync.OpenAlbum | pkg/photoprism.go:29-56 | an untitled album is created (with a fresh UID and no photos), a titled one is loaded unchanged; the working set is the album's current photos; it fails exactly when the creation (new album) or the photo listing (existing album) is refused |
| AlbumSync.OpeningRefused | pkg/photoprism.go:29-50 | a refused opening is a refused listing of the existing album or a refused creation request among those sent |
| AlbumSync.SweepAlbum | pkg/photoprism.go:58-121 | on an open album: fails exactly when a search or a batch it sent is refused; no other album changes; on success the report is the sweep of the rows, the album holds the reconciled set and exactly the non-empty batches were sent |
| AlbumSync.SyncAlbum | pkg/photoprism.go:17-124 | no album other than the resolved one changes; it fails exactly when the listing of the existing album, a search, or a request it sent is refused, so it succeeds when nothing is refused; on success the album holds what `Converges` describes, the report lists the additions, present photos, misses and removals, and the requests sent are exactly the planned ones |
| AlbumSync.TitlesSnoc | pkg/photoprism.go:147-156 | one more row adds its album to the titles |
| AlbumSync.OfAlbumPartitions | pkg/photoprism.go:147-156 | each group holds only rows of its title, every row of that title is in it, and it is non-empty exactly for titles that occur |
| AlbumSync.GroupByAlbum | pkg/photoprism.go:147-156 | the grouping has one key per title, each mapped to that title's rows in row order |
| AlbumSync.TouchedGrows | pkg/photoprism.go:164-170 | syncing one more title adds its album to the albums touched |
| AlbumSync.TitleSyncedFrame | pkg/photoprism.go:164-170 | a synced title stays synced while its album is not touched again |
| AlbumSync.NotTouchedBefore | pkg/photoprism.go:164-170 | the album of a title not yet synced was not touched by the titles synced so far |
| AlbumSync.NewTitleSynced | pkg/photoprism.go:164-170 | a title synced from an untouched album is synced against the state before the loop |
| AlbumSync.ExtendSynced | pkg/photoprism.go:164-170 | one more synced title on an untouched album extends the set of synced titles |
| AlbumSync.ResolvedAlbumUnchanged | pkg/photoprism.go:164-170 | the current photos of an untouched album are those it had before the loop |
| AlbumSync.SyncOneMore | pkg/photoprism.go:164-170 | one more album sync extends the synced titles and keeps every earlier one synced |
| AlbumSync.FailedSyncKeepsSynced | pkg/photoprism.go:164-170 | a failed sync of one more title leaves every title synced before it synced |
| AlbumSync.SyncNext | pkg/photoprism.go:165-170 | one loop iteration keeps every title synced so far, also when it fails, and adds the new one on success; it fails exactly when the album sync does |
| AlbumSync.SyncTitles | pkg/photoprism.go:164-170 | every title it reports is synced against the state before the loop, also after a failure; it fails exactly when a request it sent, or a listing or search of a title it did not finish, is refused; on success every title is synced and no album disappears |
| AlbumSync.SyncAlbums | pkg/photoprism.go:126-173 | a failed query, login or album listing fails before any request that changes state; it fails exactly when one of those, a request it sent, or a listing or search of an unfinished title is refused, so with good rows and nothing refused it succeeds; the titles it reports are synced, and on success every title of the rows is |
| AlbumSync.SyncAlbumsConverge | pkg/photoprism.go:126-173 | after a successful run each title's album holds exactly its resolved photos (deletion on), or its old photos plus them (off) |
| LegacyAlbumSync.Lift | main.go:237-243 | an older row is searched by its local path |
| LegacyAlbumSync.SearchesAreLocalPaths | main.go:237-243 | the searches of the older album sync are the local paths of its rows |
| LegacyAlbumSync.LiftedGroupsSearchLocalPaths | main.go:318-327 | every album group of the older rows is searched by local path |
| LegacyAlbumSync.LegacySyncAlbum | main.go:194-295 | the older album sync has the guarantees of the current one, with every picture searched by its local path: the same frame and success state, and it fails exactly when the album listing, a search by local path or a request it sent is refused |
| LegacyAlbumSync.LegacySyncAlbums | main.go:297-344 | the older run has the guarantees of the current one over its rows: the same failure condition, the reported titles stay synced after a failure, and every title is synced on success |
| Store.Blank | pkg/index.go:146-148 | the record a scan starts from carries the path, zero timestamps and no EXIF fields |
| Store.Inserted | pkg/index.go:62-66 | an insert sets UpdatedAt to the clock, sets CreatedAt only when it is zero, and keeps every other column |
| Store.Database.EntriesKeyed | pkg/models.go:8 | every record is stored under its own path, the primary key |
| Store.Database.Find | pkg/index.go:150-151 | the lookup finds the path's record exactly when it exists and the query is not refused |
| Store.Database.Create | pkg/index.go:62-66 | the insert fails when refused or when the path already has a record; no other path changes |
| Store.Database.Save | pkg/index.go:67-72 | the save overwrites an existing record with UpdatedAt set to the clock, or inserts; no other path changes |
| Store.Database.AppendTags | pkg/index.go:85-89 | the keywords join the path's tag set; no other path changes |
| Store.Database.DeleteTagsNotIn | pkg/index.go:91-94 | only the path's tags among the keywords stay; no other path changes |
| Store.Database.DeleteTags | pkg/index.go:95-99 | the path's tag set becomes empty; no other path changes |
| Store.Database.Delete | pkg/index.go:179-182 | the record and its tags go; no other path changes |
| Store.Database.SelectUnder | pkg/index.go:168-173 | the purge query fails exactly when refused; otherwise it lists, each once, exactly the paths whose record lies in the root or below |
| Indexer.VisitedIff | pkg/index.go:118-130 | a path is collected from a walk prefix exactly when the prefix visits it and it passes the filter |
| Indexer.CandidatesIff | pkg/index.go:118-130 | a path is a candidate exactly when the walk visits it and its extension is allowed |
| Indexer.CollectCandidates | pkg/index.go:118-133 | the walk fails exactly when it reports an error, and then with the first error reported; otherwise it yields exactly the candidates |
| Indexer.FillMetadata | pkg/index.go:42-55 | each EXIF field the file carries overwrites the record's field; the others are kept |
| Indexer.Upsert | pkg/index.go:61-72 | a record with zero CreatedAt is inserted, any other is saved; no other path changes |
| Indexer.ReplaceTags | pkg/index.go:74-100 | keywords are appended and the others deleted, or every tag is deleted when there are none; no other path changes |
| Indexer.Index | pkg/index.go:17-103 | `index` changes only the entry of its path, as the index effect says |
| Indexer.UpsertStores | pkg/index.go:61-72 | a successful upsert stores the record with UpdatedAt set to the clock and CreatedAt set only when it was zero |
| Indexer.TagsKeepRecord | pkg/index.go:83-100 | the tag statements never change the record |
| Indexer.TagsReplacedExactly | pkg/index.go:74-100 | after a successful `index` the path's tag set is exactly the file's keywords |
| Indexer.StoredRecord | pkg/index.go:17-72 | after a successful `index` the stored record has the path's segments and directory, each EXIF field from the file when present and kept otherwise, UpdatedAt at the clock and CreatedAt kept or set to the clock |
| Indexer.IndexFailsWithoutWrites | pkg/index.go:31-40 | a file without EXIF data, and a new record whose path already has a row, fail without touching the database |
| Indexer.IndexKeepsRecord | pkg/index.go:17-103 | `index` never loses an existing record, even when it fails |
| Indexer.VisitPath | pkg/index.go:137-166 | one iteration changes only the entry of its path, as the visit effect says |
| Indexer.SkipIff | pkg/index.go:140-158 | a file is skipped exactly when it can be stat-ed, its record is found, re-indexing is not forced and the file is older than the record's UpdatedAt; a skipped or unreadable file changes nothing |
| Indexer.VisitAll | pkg/index.go:135-166 | after the loop every candidate's entry is its visit effect and every other entry is unchanged, whatever the order |
| Indexer.Purge | pkg/index.go:175-184 | the purge succeeds exactly when no delete of a selected non-candidate is refused; on success exactly those records are gone; only such records ever change |
| Indexer.Scan | pkg/index.go:105-187 | a walk error fails before any statement; the scan succeeds exactly when the walk, the purge query and every needed delete succeed; then every path ends as the scan entry says |
| Indexer.ScanKeepsCandidatesPurgesTheRest | pkg/index.go:135-184 | a candidate's record survives the scan; a non-candidate ends absent exactly when it was selected or already absent, and is unchanged when not selected |
| Indexer.RescanIsNoOp | pkg/index.go:135-184 | after a scan in which no candidate failed to index, with every candidate's modification time before that scan's clock and its lookup not refused, a second unforced scan skips every candidate that still stats and changes nothing |
| LegacyIndexer.DirParts | main.go:53-56 | the directory split has at least one piece |
| LegacyIndexer.WithDirFields | main.go:50-63 | only Dir, Dir1, Dir2 and Dir3 change |
| LegacyIndexer.AbsoluteSegments | pkg/index.go:19-23 | an absolute path's segments are the pieces after its leading separator |
| LegacyIndexer.DirThenRest | main.go:50 | a path is its directory, a separator and the rest |
| LegacyIndexer.SegmentsOfDirAndRest | main.go:53-56 | the segments of a directory, a separator and a rest are the directory's pieces and then the rest's |
| LegacyIndexer.SegmentsAfterDir | main.go:50-56 | a path's JSON segments are its directory's pieces followed by the pieces of the rest |
| LegacyIndexer.DirFieldsAreLeadingSegments | main.go:50-63 | Dir1, Dir2 and Dir3 are the leading JSON path segments as far as the directory reaches, and never the file name |
| LegacyIndexer.LegacyIndex | main.go:49-98 | the older `index` changes the record as its effect says and keeps the path |
| LegacyIndexer.LegacyIndexFields | main.go:49-98 | it fails exactly without usable EXIF data; it always sets the directory fields and keeps the timestamps; on success each EXIF field and the tag column come from the file when present |
| LegacyIndexer.LegacyVisitPath | main.go:135-164 | one iteration changes only the entry of its path, as the older visit effect says |
| LegacyIndexer.LegacyVisitAll | main.go:130-164 | the loop succeeds exactly when no save fails; then every candidate's entry is its visit effect; non-candidates never change |
| LegacyIndexer.LegacyScan | main.go:100-187 | a walk error fails before any statement; success needs the walk, every save, the purge query and every needed delete; then every path ends as the older scan entry says |
| LegacyIndexer.FailedExtractionStillSaves | main.go:157-163 | a file without usable EXIF data is still saved with its directory fields, blank when forced and with the old EXIF fields otherwise |
| LegacyIndexer.LegacySkipIff | main.go:145-154 | the older loop skips exactly when not forced, the record is found and the file is older than it; skipping changes nothing |
| LegacyIndexer.LegacyRescanIsNoOp | main.go:130-184 | after an older scan in which no save failed, with every candidate's modification time before that scan's clock and its lookup not refused, a second unforced scan skips every candidate that still stats and changes nothing |

## Left out

- The command line, the configuration file, `pkg/main.go`, `pkg/sql.go` and `pkg/util.go` (the SQL helper commands) are not part of this model.
- exiftool, `os.Stat`, `filepath.WalkDir`, the PhotoPrism HTTP API and the filename search are oracles: the model fixes their answers as parameters and does not model how they compute them.
- Opening the database, starting exiftool and the raw album query are not modelled beyond their result. The query result is a parameter of `AlbumSync.SyncAlbums`.
- Progress and warning output and logging are left out. A file that cannot be stat-ed or fails to index only has its verdict recorded.
- JSON marshalling of the segment list is not modelled. The record holds the segment list itself, and the marshal error path cannot be taken for a list of strings.
- Store.Database.SelectUnder: the SQL `dir||'/' LIKE root||'/%'` is modelled as a case-sensitive prefix test. SQLite's `LIKE` ignores ASCII case, and a `%` or `_` inside the root would act as a wildcard.
- Paths.Dir: only trailing separators are removed from the directory. The further `filepath.Clean` rewriting of `.`, `..` and repeated separators is not modelled; the walk hands out cleaned paths.
- Paths.Lower: only ASCII letters are lower-cased, not the full Unicode case mapping of `strings.ToLower`.
- Store.Database.Save: the model assumes how gorm behaves. A save of an existing row writes every column as given, with UpdatedAt set to the clock. A save of a missing row inserts, and sets CreatedAt when it is zero. Deleting a record removes its tags.
- Store.Database.Find: the lookup is by primary key, and a refused lookup finds nothing.
- PhotoPrism.Client.GetPhotos: the listing holds every photo of the album. The limit of 1000 photos per request is not modelled.
- AlbumSync.SyncAlbum: after an error part-way through, the contract states why it failed, that no other album changed and that the earlier requests stay in the log, but not which photos the resolved album then holds. `AlbumSync.ApplySweep` states that partial photo set for a refused batch.
- Indexer.Scan: after a refused purge query or delete, the contract does not describe the entries. The indexing loop's changes persist in that case.
- LegacyIndexer.LegacyScan: after a failed save or purge, the contract does not describe the entries.
- LegacyIndexer.LegacyIndex: the panic of the older `index` on an empty directory is not modelled, because `filepath.Dir` never returns an empty string.
- Timestamps are whole seconds on one clock reading per run, and the file modification time is compared with `<` as `Before` does. Nanoseconds and time zones are not modelled.
- Integers are unbounded. Go's `int64` rating and Unix seconds are far from overflow for real files.
- Concurrency is left out. The program runs each loop sequentially.
