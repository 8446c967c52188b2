/**
 * The album reconciler of pkg/photoprism.go: for each album title, find or
 * create the album, walk the desired pictures against the album's current
 * photos, add the missing ones in one batch and remove (or only report) the
 * photos nobody asked for.
 */
module AlbumSync {
  import opened Wrappers
  import opened Sequences
  import opened PhotoPrism

  /** One row of the grouping query: the album, the local path, an optional PhotoPrism search path. */
  datatype PhotoprismPicture = PhotoprismPicture(album: string, path: string, photoprismPath: string)

  /** The string searched for in PhotoPrism: the override when it is set, the local path otherwise. */
  function QueryPath(p: PhotoprismPicture): string {
    if p.photoprismPath != "" then p.photoprismPath else p.path
  }

  function QueryPaths(pictures: seq<PhotoprismPicture>): (r: seq<string>)
    ensures |r| == |pictures| && forall i :: 0 <= i < |pictures| ==> r[i] == QueryPath(pictures[i])
  {
    seq(|pictures|, i requires 0 <= i < |pictures| => QueryPath(pictures[i]))
  }

  // ---------------------------------------------------------------------------
  // Album resolution
  // ---------------------------------------------------------------------------

  /** The first album of the listing whose title is exactly `title`, or the zero album. */
  function FirstTitled(albums: seq<Album>, title: string): Album
    decreases |albums|
  {
    if |albums| == 0 then NoAlbum
    else if albums[0].title == title then albums[0]
    else FirstTitled(albums[1..], title)
  }

  /**
   * The title search picks the first exact match: either some album at index
   * `i` carries the title and no album before it does, or no album carries it
   * and the zero album (empty UID) comes back.
   */
  lemma {:induction false} FirstTitledIsFirstMatch(albums: seq<Album>, title: string)
    ensures var a := FirstTitled(albums, title);
      || (exists i :: 0 <= i < |albums| && albums[i] == a && a.title == title
            && forall j :: 0 <= j < i ==> albums[j].title != title)
      || (a == NoAlbum && forall i :: 0 <= i < |albums| ==> albums[i].title != title)
    decreases |albums|
  {
    if |albums| > 0 && albums[0].title != title {
      FirstTitledIsFirstMatch(albums[1..], title);
      var a := FirstTitled(albums, title);
      if a != NoAlbum || exists i :: 0 <= i < |albums| - 1 && albums[1..][i].title == title {
        var i :| 0 <= i < |albums| - 1 && albums[1..][i] == a && a.title == title
                 && forall j :: 0 <= j < i ==> albums[1..][j].title != title;
        assert albums[i + 1] == a;
        forall j | 0 <= j < i + 1 ensures albums[j].title != title {
          if j > 0 { assert albums[j] == albums[1..][j - 1]; }
        }
      } else {
        forall i | 0 <= i < |albums| ensures albums[i].title != title {
          if i > 0 { assert albums[i] == albums[1..][i - 1]; }
        }
      }
    }
  }

  /** The loop at the top of syncPhotoprismAlbum: stop at the first exact title match. */
  method FindAlbum(albums: seq<Album>, title: string) returns (album: Album)
    ensures album == FirstTitled(albums, title)
    ensures album == NoAlbum || (album in albums && album.title == title)
  {
    album := NoAlbum;
    var i := 0;
    while i < |albums|
      invariant 0 <= i <= |albums|
      invariant FirstTitled(albums, title) == FirstTitled(albums[i..], title)
    {
      if albums[i].title == title {
        album := albums[i];
        break;
      }
      assert albums[i..][1..] == albums[i + 1..];
      i := i + 1;
    }
  }

  /** A title match with a non-empty UID is an album of the listing carrying that title. */
  lemma {:induction false} FirstTitledFound(albums: seq<Album>, title: string)
    requires FirstTitled(albums, title).uid != ""
    ensures exists i :: 0 <= i < |albums| && albums[i] == FirstTitled(albums, title)
    ensures FirstTitled(albums, title).title == title
  {
    FirstTitledIsFirstMatch(albums, title);
  }

  /**
   * Two different titles never resolve to the same existing album when the
   * listing's UIDs are distinct, so syncing one title never touches the
   * album another title resolved to.
   */
  lemma DistinctTitlesDistinctAlbums(albums: seq<Album>, t1: string, t2: string)
    requires Distinct(Client.AlbumUids(albums))
    requires t1 != t2
    requires FirstTitled(albums, t1).uid != "" && FirstTitled(albums, t2).uid != ""
    ensures FirstTitled(albums, t1).uid != FirstTitled(albums, t2).uid
  {
    FirstTitledFound(albums, t1);
    FirstTitledFound(albums, t2);
    var i :| 0 <= i < |albums| && albums[i] == FirstTitled(albums, t1);
    var j :| 0 <= j < |albums| && albums[j] == FirstTitled(albums, t2);
    assert i != j;
    assert Client.AlbumUids(albums)[i] == albums[i].uid;
    assert Client.AlbumUids(albums)[j] == albums[j].uid;
  }

  // ---------------------------------------------------------------------------
  // The desired-member walk
  // ---------------------------------------------------------------------------

  /**
   * The state of the desired-member loop: the add-list, the photos found
   * already in the album, the searches that found nothing, and what is left
   * of the album's current photos.
   */
  datatype Sweep = Sweep(adds: seq<PhotoUID>, present: seq<PhotoUID>, missing: seq<string>, left: set<PhotoUID>)

  /** One iteration of the loop, given what the search for `query` returned. */
  function Step(s: Sweep, query: string, hit: Option<PhotoUID>): Sweep {
    match hit
    case None => s.(missing := s.missing + [query])
    case Some(uid) =>
      if uid in s.left then s.(left := s.left - {uid}, present := s.present + [uid])
      else s.(adds := s.adds + [uid])
  }

  /** The loop run over all `queries`, starting from the album's `current` photos. */
  function Swept(find: string -> Option<PhotoUID>, current: set<PhotoUID>, queries: seq<string>): Sweep
    decreases |queries|
  {
    if |queries| == 0 then Sweep([], [], [], current)
    else
      var q := queries[|queries| - 1];
      Step(Swept(find, current, queries[..|queries| - 1]), q, find(q))
  }

  /** The photos the searches for `queries` find. */
  function Found(find: string -> Option<PhotoUID>, queries: seq<string>): set<PhotoUID> {
    set i | 0 <= i < |queries| && find(queries[i]).Some? :: find(queries[i]).value
  }

  lemma FoundSnoc(find: string -> Option<PhotoUID>, queries: seq<string>, q: string)
    ensures Found(find, queries + [q]) == Found(find, queries) + (if find(q).Some? then {find(q).value} else {})
  {
    var qs := queries + [q];
    forall u | u in Found(find, qs) ensures u in Found(find, queries) || (find(q).Some? && u == find(q).value) {
      var i :| 0 <= i < |qs| && find(qs[i]).Some? && u == find(qs[i]).value;
      if i < |queries| { assert qs[i] == queries[i]; }
    }
    forall u | u in Found(find, queries) ensures u in Found(find, qs) {
      var i :| 0 <= i < |queries| && find(queries[i]).Some? && u == find(queries[i]).value;
      assert qs[i] == queries[i];
    }
    if find(q).Some? {
      assert qs[|queries|] == q;
    }
  }

  /**
   * After the loop, exactly the current photos that no search found are
   * left: these are the album's extras.
   */
  lemma {:induction false} SweptLeftAreExtras(find: string -> Option<PhotoUID>, current: set<PhotoUID>, queries: seq<string>)
    ensures Swept(find, current, queries).left == current - Found(find, queries)
    decreases |queries|
  {
    if |queries| > 0 {
      var init := queries[..|queries| - 1];
      var q := queries[|queries| - 1];
      SweptLeftAreExtras(find, current, init);
      FoundSnoc(find, init, q);
      assert init + [q] == queries;
    }
  }

  /**
   * The add-list holds only found photos, and holds every found photo that
   * was not already in the album; the photos seen as present were all in the
   * album; every query lands in exactly one of add, present or missing, and
   * the missing ones are exactly the searches that found nothing.
   */
  lemma {:induction false} SweptAccounting(find: string -> Option<PhotoUID>, current: set<PhotoUID>, queries: seq<string>)
    ensures var s := Swept(find, current, queries);
      && Elems(s.adds) <= Found(find, queries)
      && Found(find, queries) - current <= Elems(s.adds)
      && Elems(s.present) <= current
      && |s.adds| + |s.present| + |s.missing| == |queries|
      && (forall q :: q in s.missing ==> q in queries && find(q).None?)
      && (forall q :: q in queries && find(q).None? ==> q in s.missing)
    decreases |queries|
  {
    if |queries| > 0 {
      var init := queries[..|queries| - 1];
      var q := queries[|queries| - 1];
      SweptAccounting(find, current, init);
      SweptLeftAreExtras(find, current, init);
      FoundSnoc(find, init, q);
      assert init + [q] == queries;
      var s0 := Swept(find, current, init);
      var s := Swept(find, current, queries);
      assert s == Step(s0, q, find(q));
      forall x | x in s.missing ensures x in queries && find(x).None? {
        if x !in s0.missing { assert x == q; }
      }
      forall x | x in queries && find(x).None? ensures x in s.missing {
        if x != q {
          var k :| 0 <= k < |queries| && queries[k] == x;
          assert k < |init| && init[k] == x;
        }
      }
      if find(q).Some? {
        var u := find(q).value;
        assert u in Found(find, queries);
        if u in s0.left {
          assert s.present == s0.present + [u];
        } else {
          assert u !in current || u in Found(find, init);
          assert s.adds == s0.adds + [u];
          assert Elems(s.adds) == Elems(s0.adds) + {u};
        }
      }
    }
  }

  /** The album's photo set the reconciler leaves behind: additions applied, extras removed when asked. */
  function Reconciled(current: set<PhotoUID>, s: Sweep, deleteFromAlbum: bool): set<PhotoUID> {
    if deleteFromAlbum then (current + Elems(s.adds)) - s.left else current + Elems(s.adds)
  }

  /**
   * Reconciliation converges: with deletion the album ends up holding
   * exactly the photos found for the desired rows; without it, those photos
   * plus whatever it held before.
   */
  lemma Converges(find: string -> Option<PhotoUID>, current: set<PhotoUID>, queries: seq<string>, deleteFromAlbum: bool)
    ensures Reconciled(current, Swept(find, current, queries), deleteFromAlbum)
            == if deleteFromAlbum then Found(find, queries) else current + Found(find, queries)
  {
    SweptLeftAreExtras(find, current, queries);
    SweptAccounting(find, current, queries);
  }

  /** No two searches that succeed return the same photo. */
  ghost predicate Unambiguous(find: string -> Option<PhotoUID>, queries: seq<string>) {
    forall i, j :: 0 <= i < j < |queries| && find(queries[i]).Some? && find(queries[j]).Some? ==>
      find(queries[i]).value != find(queries[j]).value
  }

  /**
   * Dropping the last query keeps the searches unambiguous, and the photo the
   * last query finds, if any, is found by none of the others.
   */
  lemma UnambiguousInit(find: string -> Option<PhotoUID>, queries: seq<string>)
    requires Unambiguous(find, queries) && |queries| > 0
    ensures Unambiguous(find, queries[..|queries| - 1])
    ensures var q := queries[|queries| - 1];
            find(q).Some? ==> find(q).value !in Found(find, queries[..|queries| - 1])
  {
    var init := queries[..|queries| - 1];
    var q := queries[|queries| - 1];
    forall i, j | 0 <= i < j < |init| && find(init[i]).Some? && find(init[j]).Some?
      ensures find(init[i]).value != find(init[j]).value
    {
      assert init[i] == queries[i] && init[j] == queries[j];
    }
    if find(q).Some? {
      forall i | 0 <= i < |init| && find(init[i]).Some? ensures find(init[i]).value != find(q).value {
        assert queries[i] == init[i];
      }
    }
  }

  /**
   * When no two searches find the same photo, the add-list holds exactly the
   * found photos that were not in the album, and the photos reported present
   * are exactly the found photos that were.
   */
  lemma {:induction false} UnambiguousSweep(find: string -> Option<PhotoUID>, current: set<PhotoUID>, queries: seq<string>)
    requires Unambiguous(find, queries)
    ensures Elems(Swept(find, current, queries).adds) == Found(find, queries) - current
    ensures Elems(Swept(find, current, queries).present) == Found(find, queries) * current
    decreases |queries|
  {
    if |queries| > 0 {
      var init := queries[..|queries| - 1];
      var q := queries[|queries| - 1];
      UnambiguousInit(find, queries);
      UnambiguousSweep(find, current, init);
      SweptLeftAreExtras(find, current, init);
      FoundSnoc(find, init, q);
      assert init + [q] == queries;
      var s0 := Swept(find, current, init);
      var s := Swept(find, current, queries);
      assert s == Step(s0, q, find(q));
      if find(q).Some? {
        var u := find(q).value;
        if u in s0.left {
          assert Elems(s.present) == Elems(s0.present) + {u};
        } else {
          assert Elems(s.adds) == Elems(s0.adds) + {u};
        }
      }
    }
  }

  /**
   * Re-running against an album that already holds every found photo adds
   * nothing, reports every found photo as present and leaves exactly the
   * photos no row found, provided no two desired rows resolve to the same
   * photo.
   */
  lemma RerunIsNoOp(find: string -> Option<PhotoUID>, queries: seq<string>, current: set<PhotoUID>)
    requires Unambiguous(find, queries)
    requires Found(find, queries) <= current
    ensures Swept(find, current, queries).adds == []
    ensures Elems(Swept(find, current, queries).present) == Found(find, queries)
    ensures Swept(find, current, queries).left == current - Found(find, queries)
  {
    UnambiguousSweep(find, current, queries);
    SweptLeftAreExtras(find, current, queries);
  }

  /**
   * The prefix runs of the loop only ever append: the add-list and the
   * present-list after the first `m` queries begin the final ones.
   */
  lemma {:induction false} SweptPrefix(find: string -> Option<PhotoUID>, current: set<PhotoUID>, queries: seq<string>, m: nat)
    requires m <= |queries|
    ensures Swept(find, current, queries[..m]).adds <= Swept(find, current, queries).adds
    ensures Swept(find, current, queries[..m]).present <= Swept(find, current, queries).present
    decreases |queries|
  {
    if m < |queries| {
      var init := queries[..|queries| - 1];
      SweptPrefix(find, current, init, m);
      assert init[..m] == queries[..m];
    } else {
      assert queries[..m] == queries;
    }
  }

  /**
   * A photo that is already in the album and that two rows resolve to is
   * reported present by the first of them and queued for adding again by the
   * second.
   */
  lemma DuplicateRowIsAddedAgain(find: string -> Option<PhotoUID>, current: set<PhotoUID>, queries: seq<string>,
                                 i: nat, j: nat, u: PhotoUID)
    requires u in current
    requires i < j < |queries| && find(queries[i]) == Some(u) && find(queries[j]) == Some(u)
    requires forall k :: 0 <= k < i ==> find(queries[k]) != Some(u)
    ensures u in Elems(Swept(find, current, queries).present)
    ensures u in Elems(Swept(find, current, queries).adds)
  {
    SweptLeftAreExtras(find, current, queries[..i]);
    assert u !in Found(find, queries[..i]);
    assert queries[..i + 1][..i] == queries[..i];
    SweptPrefix(find, current, queries, i + 1);
    SweptLeftAreExtras(find, current, queries[..j]);
    assert queries[..j][i] == queries[i];
    assert u in Found(find, queries[..j]);
    assert queries[..j + 1][..j] == queries[..j];
    SweptPrefix(find, current, queries, j + 1);
    var s := Swept(find, current, queries);
    assert Swept(find, current, queries[..i + 1]).present[|Swept(find, current, queries[..i]).present|] == u;
    assert s.present[|Swept(find, current, queries[..i]).present|] == u;
    assert s.adds[|Swept(find, current, queries[..j]).adds|] == u;
  }

  /**
   * A rerun over an album that holds exactly the photos its rows find, with
   * no two rows finding the same photo, reports every found photo as present,
   * finds no extras and sends no request at all.
   */
  lemma RerunSendsNothing(before: map<AlbumUID, set<PhotoUID>>, albums: seq<Album>, title: string,
                          find: string -> Option<PhotoUID>, queries: seq<string>, deleteFromAlbum: bool,
                          rep: AlbumReport)
    requires ReportFor(before, albums, title, find, queries, deleteFromAlbum, rep)
    requires FirstTitled(albums, title).uid != ""
    requires Unambiguous(find, queries) && CurrentPhotos(before, albums, title) == Found(find, queries)
    ensures Elems(rep.present) == Found(find, queries) && rep.extras == {}
    ensures PlannedWrites(title, rep) == []
  {
    RerunIsNoOp(find, queries, Found(find, queries));
    NoElems(rep.removed);
  }

  /**
   * The desired-member loop of syncPhotoprismAlbum: one search per row, in
   * row order; the first failing search aborts.
   */
  method ResolveDesired(client: Client, current: set<PhotoUID>, pictures: seq<PhotoprismPicture>)
    returns (r: Result<Sweep>)
    ensures r.Err? <==> exists i :: 0 <= i < |pictures| && client.rejects(FindPhoto(QueryPath(pictures[i])))
    ensures r.Ok? ==> r.value == Swept(client.find, current, QueryPaths(pictures))
  {
    var albumPictures := current;
    var newPictures: seq<PhotoUID> := [];
    var present: seq<PhotoUID> := [];
    var missing: seq<string> := [];
    var i := 0;
    while i < |pictures|
      invariant 0 <= i <= |pictures|
      invariant forall k :: 0 <= k < i ==> !client.rejects(FindPhoto(QueryPath(pictures[k])))
      invariant Sweep(newPictures, present, missing, albumPictures)
                == Swept(client.find, current, QueryPaths(pictures)[..i])
    {
      var queryPath := QueryPath(pictures[i]);
      var photos := client.FindPhoto(queryPath);
      if photos.Err? {
        return Err(photos.error);
      }
      assert QueryPaths(pictures)[..i + 1][..i] == QueryPaths(pictures)[..i];
      if photos.value.None? {
        // warning: not found in PhotoPrism
        missing := missing + [queryPath];
      } else {
        var photoUID := photos.value.value;
        if photoUID in albumPictures {
          albumPictures := albumPictures - {photoUID};
          present := present + [photoUID];
        } else {
          newPictures := newPictures + [photoUID];
        }
      }
      i := i + 1;
    }
    assert QueryPaths(pictures)[..i] == QueryPaths(pictures);
    r := Ok(Sweep(newPictures, present, missing, albumPictures));
  }

  /**
   * The extras loop: every photo left over is queued for removal when
   * deletion is enabled, and only reported otherwise.
   */
  method CollectExtras(left: set<PhotoUID>, deleteFromAlbum: bool)
    returns (deletePictures: seq<PhotoUID>, warned: set<PhotoUID>)
    ensures Distinct(deletePictures)
    ensures deleteFromAlbum ==> Elems(deletePictures) == left && warned == {}
    ensures !deleteFromAlbum ==> deletePictures == [] && warned == left
  {
    deletePictures := [];
    warned := {};
    var rest := left;
    while rest != {}
      invariant rest <= left
      invariant deleteFromAlbum ==> Elems(deletePictures) == left - rest && warned == {}
      invariant !deleteFromAlbum ==> deletePictures == [] && warned == left - rest
      invariant Distinct(deletePictures)
      decreases |rest|
    {
      var picture :| picture in rest;
      if deleteFromAlbum {
        assert Elems(deletePictures + [picture]) == Elems(deletePictures) + {picture};
        deletePictures := deletePictures + [picture];
      } else {
        warned := warned + {picture};
      }
      rest := rest - {picture};
    }
  }

  // ---------------------------------------------------------------------------
  // One album
  // ---------------------------------------------------------------------------

  /** What syncing one album did. */
  datatype AlbumReport = AlbumReport(
    album: AlbumUID,
    created: bool,
    added: seq<PhotoUID>,
    present: seq<PhotoUID>,
    missing: seq<string>,
    extras: set<PhotoUID>,
    removed: seq<PhotoUID>)

  /** The state-changing requests a successful album sync sends, in order. */
  function PlannedWrites(title: string, rep: AlbumReport): seq<Request> {
    (if rep.created then [CreateAlbum(title)] else []) + BatchWrites(rep.album, rep.added, rep.removed)
  }

  /** The add batch, when there is something to add, then the removal batch, when there is something to remove. */
  function BatchWrites(album: AlbumUID, added: seq<PhotoUID>, removed: seq<PhotoUID>): seq<Request> {
    (if |added| > 0 then [AddPhotos(album, added)] else [])
    + (if |removed| > 0 then [RemovePhotos(album, removed)] else [])
  }

  /** The batches are refused exactly when the add batch or the removal batch that is sent is refused. */
  lemma BatchRefused(rejects: Request -> bool, album: AlbumUID, added: seq<PhotoUID>, removed: seq<PhotoUID>)
    ensures AnyRefused(rejects, BatchWrites(album, added, removed)) <==>
              || (|added| > 0 && rejects(AddPhotos(album, added)))
              || (|removed| > 0 && rejects(RemovePhotos(album, removed)))
  {
    var batches := BatchWrites(album, added, removed);
    if |added| > 0 {
      assert batches[0] == AddPhotos(album, added);
    }
    if |removed| > 0 {
      assert batches[|batches| - 1] == RemovePhotos(album, removed);
    }
  }

  /** The request log of the batches is the add batch, if sent, followed by the removal batch, if sent. */
  lemma BatchLog(w0: seq<Request>, w1: seq<Request>, w2: seq<Request>, album: AlbumUID,
                 added: seq<PhotoUID>, removed: seq<PhotoUID>)
    requires w1 == w0 + (if |added| > 0 then [AddPhotos(album, added)] else [])
    requires w2 == w1 + (if |removed| > 0 then [RemovePhotos(album, removed)] else [])
    ensures w2 == w0 + BatchWrites(album, added, removed)
  {
  }

  /** The request log of an album sync is the creation, if any, followed by the batches. */
  lemma PlannedWritesCompose(w0: seq<Request>, w1: seq<Request>, w2: seq<Request>, title: string, rep: AlbumReport)
    requires w1 == w0 + (if rep.created then [CreateAlbum(title)] else [])
    requires w2 == w1 + BatchWrites(rep.album, rep.added, rep.removed)
    ensures w2 == w0 + PlannedWrites(title, rep)
  {
  }

  /** The photos of the album `title` resolves to, as the sync starts (none for a new album). */
  function CurrentPhotos(members: map<AlbumUID, set<PhotoUID>>, albums: seq<Album>, title: string): set<PhotoUID> {
    var a := FirstTitled(albums, title);
    if a.uid != "" && a.uid in members then members[a.uid] else {}
  }

  /** The photo set a sync of `title` gives its album. */
  function AlbumTarget(before: map<AlbumUID, set<PhotoUID>>, albums: seq<Album>, title: string,
                       find: string -> Option<PhotoUID>, queries: seq<string>, deleteFromAlbum: bool): set<PhotoUID>
  {
    var current := CurrentPhotos(before, albums, title);
    Reconciled(current, Swept(find, current, queries), deleteFromAlbum)
  }

  /**
   * The report of a successful sync of `title` against the listing `albums`:
   * it used the first exact title match or a new album, and swept the
   * desired rows against the album's photos.
   */
  ghost predicate ReportFor(before: map<AlbumUID, set<PhotoUID>>, albums: seq<Album>, title: string,
                            find: string -> Option<PhotoUID>, queries: seq<string>, deleteFromAlbum: bool,
                            rep: AlbumReport)
  {
    var a := FirstTitled(albums, title);
    var s := Swept(find, CurrentPhotos(before, albums, title), queries);
    && rep.created == (a.uid == "")
    && (!rep.created ==> rep.album == a.uid)
    && (rep.created ==> rep.album !in before && rep.album != "")
    && rep.added == s.adds && rep.present == s.present && rep.missing == s.missing && rep.extras == s.left
    && (deleteFromAlbum ==> Elems(rep.removed) == s.left && Distinct(rep.removed))
    && (!deleteFromAlbum ==> rep.removed == [])
  }

  /** A successful sync of `title`: the album holds the reconciled set and every other album is untouched. */
  ghost predicate SyncedAlbum(before: map<AlbumUID, set<PhotoUID>>, after: map<AlbumUID, set<PhotoUID>>,
                              albums: seq<Album>, title: string, find: string -> Option<PhotoUID>,
                              queries: seq<string>, deleteFromAlbum: bool, rep: AlbumReport)
  {
    && ReportFor(before, albums, title, find, queries, deleteFromAlbum, rep)
    && after == before[rep.album := AlbumTarget(before, albums, title, find, queries, deleteFromAlbum)]
  }

  /** No album disappeared, and only the albums in `changed` hold other photos than before. */
  ghost predicate UnchangedOutside(before: map<AlbumUID, set<PhotoUID>>, after: map<AlbumUID, set<PhotoUID>>,
                                   changed: set<AlbumUID>)
  {
    && before.Keys <= after.Keys
    && forall u :: u in before && u !in changed ==> after[u] == before[u]
  }

  /** The album an album sync works on, and its photos as the sync starts. */
  datatype Opened = Opened(album: Album, created: bool, current: set<PhotoUID>)

  /** Assembles SyncedAlbum from what the head and the tail of the album sync establish. */
  lemma SyncedAlbumIntro(before: map<AlbumUID, set<PhotoUID>>, mid: map<AlbumUID, set<PhotoUID>>,
                         after: map<AlbumUID, set<PhotoUID>>, albums: seq<Album>, title: string,
                         find: string -> Option<PhotoUID>, queries: seq<string>, deleteFromAlbum: bool,
                         head: Opened, s: Sweep, removed: seq<PhotoUID>)
    requires head.created == (FirstTitled(albums, title).uid == "")
    requires !head.created ==> head.album == FirstTitled(albums, title) && mid == before
    requires head.created ==> head.album.uid !in before && head.album.uid != "" && mid == before[head.album.uid := {}]
    requires head.current == CurrentPhotos(before, albums, title)
    requires s == Swept(find, head.current, queries)
    requires deleteFromAlbum ==> Elems(removed) == s.left && Distinct(removed)
    requires !deleteFromAlbum ==> removed == []
    requires after == mid[head.album.uid := Reconciled(head.current, s, deleteFromAlbum)]
    ensures SyncedAlbum(before, after, albums, title, find, queries, deleteFromAlbum,
                        AlbumReport(head.album.uid, head.created, s.adds, s.present, s.missing, s.left, removed))
  {
    var target := Reconciled(head.current, s, deleteFromAlbum);
    if head.created {
      assert mid[head.album.uid := target] == before[head.album.uid := target];
    }
  }

  /** The photo-UID map of an existing album, filled from the album's photo listing. */
  method LoadAlbumPhotos(client: Client, uid: AlbumUID) returns (r: Result<set<PhotoUID>>)
    requires uid in client.members
    ensures r.Err? <==> client.rejects(ListPhotos(uid))
    ensures r.Ok? ==> r.value == client.members[uid]
  {
    var photos := client.GetPhotos(uid);
    if photos.Err? {
      return Err(photos.error);
    }
    var albumPictures: set<PhotoUID> := {};
    var i := 0;
    while i < |photos.value|
      invariant 0 <= i <= |photos.value|
      invariant albumPictures == Elems(photos.value[..i])
    {
      assert Elems(photos.value[..i + 1]) == Elems(photos.value[..i]) + {photos.value[i]} by {
        assert photos.value[..i + 1] == photos.value[..i] + [photos.value[i]];
      }
      albumPictures := albumPictures + {photos.value[i]};
      i := i + 1;
    }
    assert photos.value[..i] == photos.value;
    r := Ok(albumPictures);
  }

  /** Some request in `sent` was refused. */
  predicate AnyRefused(rejects: Request -> bool, sent: seq<Request>) {
    exists i :: 0 <= i < |sent| && rejects(sent[i])
  }

  lemma AnyRefusedConcat(rejects: Request -> bool, a: seq<Request>, b: seq<Request>)
    ensures AnyRefused(rejects, a + b) <==> AnyRefused(rejects, a) || AnyRefused(rejects, b)
  {
    if AnyRefused(rejects, a + b) {
      var i :| 0 <= i < |a + b| && rejects((a + b)[i]);
      if i >= |a| {
        assert b[i - |a|] == (a + b)[i];
      }
    }
    if AnyRefused(rejects, a) {
      var i :| 0 <= i < |a| && rejects(a[i]);
      assert (a + b)[i] == a[i];
    }
    if AnyRefused(rejects, b) {
      var i :| 0 <= i < |b| && rejects(b[i]);
      assert (a + b)[|a| + i] == b[i];
    }
  }

  /**
   * A read an album sync depends on is refused: the photo listing of the
   * existing album `title` resolves to (a new album is not listed), or the
   * search for one of `queries`.
   */
  predicate ReadRefused(rejects: Request -> bool, albums: seq<Album>, title: string, queries: seq<string>) {
    || (FirstTitled(albums, title).uid != "" && rejects(ListPhotos(FirstTitled(albums, title).uid)))
    || SearchRefused(rejects, queries)
  }

  /** The search for one of `queries` is refused. */
  predicate SearchRefused(rejects: Request -> bool, queries: seq<string>) {
    exists i :: 0 <= i < |queries| && rejects(FindPhoto(queries[i]))
  }

  /** A server that refuses nothing refuses no read and no request sent. */
  lemma NothingRefused(rejects: Request -> bool, albums: seq<Album>, title: string, queries: seq<string>,
                       sent: seq<Request>)
    ensures (forall q :: !rejects(q)) ==> !ReadRefused(rejects, albums, title, queries) && !AnyRefused(rejects, sent)
  {
  }

  /** A refused opening of the album is a refused listing or a refused creation request. */
  lemma OpeningRefused(rejects: Request -> bool, albums: seq<Album>, title: string, queries: seq<string>)
    requires if FirstTitled(albums, title).uid == "" then rejects(CreateAlbum(title))
             else rejects(ListPhotos(FirstTitled(albums, title).uid))
    ensures || ReadRefused(rejects, albums, title, queries)
            || AnyRefused(rejects, if FirstTitled(albums, title).uid == "" then [CreateAlbum(title)] else [])
  {
    if FirstTitled(albums, title).uid == "" {
      assert [CreateAlbum(title)][0] == CreateAlbum(title);
    }
  }

  /**
   * The extras and the removal batch of syncPhotoprismAlbum: with deletion
   * every photo left over is removed in one batch, when there is one.
   */
  method RemoveExtras(client: Client, uid: AlbumUID, left: set<PhotoUID>, deleteFromAlbum: bool)
    returns (o: Outcome, deletePictures: seq<PhotoUID>)
    requires client.Valid() && uid in client.members
    modifies client
    ensures client.Valid()
    ensures deleteFromAlbum ==> Elems(deletePictures) == left && Distinct(deletePictures)
    ensures !deleteFromAlbum ==> deletePictures == []
    ensures client.writes == old(client.writes) + BatchWrites(uid, [], deletePictures)
    ensures o.Fail? <==> |deletePictures| > 0 && client.rejects(RemovePhotos(uid, deletePictures))
    ensures client.members.Keys == old(client.members).Keys
    ensures forall u :: u in old(client.members) && u != uid ==> client.members[u] == old(client.members)[u]
    ensures client.members[uid] == if o.Fail? then old(client.members)[uid]
                                   else old(client.members)[uid] - Elems(deletePictures)
  {
    var warned;
    deletePictures, warned := CollectExtras(left, deleteFromAlbum);
    if |deletePictures| > 0 {
      o := client.RemovePhotos(uid, deletePictures);
    } else {
      assert old(client.members)[uid] - Elems(deletePictures) == old(client.members)[uid];
      o := Pass;
    }
  }

  /**
   * The tail of syncPhotoprismAlbum: one add batch when something is to be
   * added, then the extras, then one removal batch when something is to be
   * removed.
   */
  method ApplySweep(client: Client, uid: AlbumUID, s: Sweep, deleteFromAlbum: bool)
    returns (o: Outcome, deletePictures: seq<PhotoUID>)
    requires client.Valid() && uid in client.members
    modifies client
    ensures client.Valid()
    ensures client.members.Keys == old(client.members).Keys
    ensures forall u :: u in old(client.members) && u != uid ==> client.members[u] == old(client.members)[u]
    ensures o.Pass? && deleteFromAlbum ==> Elems(deletePictures) == s.left && Distinct(deletePictures)
    ensures o.Pass? && !deleteFromAlbum ==> deletePictures == []
    ensures o.Pass? ==> client.members[uid] == Reconciled(old(client.members)[uid], s, deleteFromAlbum)
    ensures o.Fail? ==> client.members[uid] == if |s.adds| > 0 && client.rejects(AddPhotos(uid, s.adds))
                                               then old(client.members)[uid]
                                               else old(client.members)[uid] + Elems(s.adds)
    ensures client.writes == old(client.writes) + BatchWrites(uid, s.adds, deletePictures)
    ensures o.Fail? <==> AnyRefused(client.rejects, BatchWrites(uid, s.adds, deletePictures))
  {
    deletePictures := [];
    ghost var before := client.members;
    ghost var grown := before[uid] + Elems(s.adds);
    if |s.adds| > 0 {
      o := client.AddPhotos(uid, s.adds);
      if o.Fail? {
        BatchRefused(client.rejects, uid, s.adds, deletePictures);
        return;
      }
    } else {
      assert Elems(s.adds) == {};
    }
    assert client.members.Keys == before.Keys && client.members[uid] == grown;
    ghost var added := client.writes;
    o, deletePictures := RemoveExtras(client, uid, s.left, deleteFromAlbum);
    BatchLog(old(client.writes), added, client.writes, uid, s.adds, deletePictures);
    BatchRefused(client.rejects, uid, s.adds, deletePictures);
  }

  /**
   * The head of syncPhotoprismAlbum: the first album titled `title`, created
   * when there is none, and the photos it holds.
   */
  method OpenAlbum(client: Client, albums: seq<Album>, title: string) returns (r: Result<Opened>)
    requires client.Valid()
    requires forall i :: 0 <= i < |albums| ==> albums[i].uid in client.members
    modifies client
    ensures client.Valid()
    ensures client.writes == old(client.writes) + (if FirstTitled(albums, title).uid == "" then [CreateAlbum(title)] else [])
    ensures FirstTitled(albums, title).uid != "" || r.Err? ==> client.members == old(client.members)
    ensures r.Err? <==> if FirstTitled(albums, title).uid == "" then client.rejects(CreateAlbum(title))
                        else client.rejects(ListPhotos(FirstTitled(albums, title).uid))
    ensures r.Ok? ==> var o := r.value;
              && o.created == (FirstTitled(albums, title).uid == "")
              && (!o.created ==> o.album == FirstTitled(albums, title))
              && (o.created ==> && o.album.uid !in old(client.members) && o.album.uid != ""
                                && client.members == old(client.members)[o.album.uid := {}])
              && o.album.uid in client.members
              && o.current == client.members[o.album.uid] == CurrentPhotos(old(client.members), albums, title)
  {
    var album := FindAlbum(albums, title);
    if album.uid == "" {
      // creating album
      var newAlbum := client.CreateAlbum(title);
      if newAlbum.Err? {
        return Err(newAlbum.error);
      }
      r := Ok(Opened(newAlbum.value, true, {}));
    } else {
      FirstTitledFound(albums, title);
      var loaded := LoadAlbumPhotos(client, album.uid);
      if loaded.Err? {
        return Err(loaded.error);
      }
      r := Ok(Opened(album, false, loaded.value));
    }
  }

  /**
   * The rest of syncPhotoprismAlbum once the album `uid` is open with the
   * photos `current`: sweep the desired pictures against them, then send the
   * batches. A refused search or batch ends it with its error.
   */
  method SweepAlbum(client: Client, uid: AlbumUID, created: bool, current: set<PhotoUID>,
                    pictures: seq<PhotoprismPicture>, deleteFromAlbum: bool) returns (r: Result<AlbumReport>)
    requires client.Valid() && uid in client.members && current == client.members[uid]
    modifies client
    ensures client.Valid()
    ensures client.members.Keys == old(client.members).Keys
    ensures forall u :: u in old(client.members) && u != uid ==> client.members[u] == old(client.members)[u]
    ensures old(client.writes) <= client.writes
    ensures r.Err? <==> || SearchRefused(client.rejects, QueryPaths(pictures))
                        || AnyRefused(client.rejects, client.writes[|old(client.writes)|..])
    ensures r.Ok? ==> var s := Swept(client.find, current, QueryPaths(pictures));
              && r.value.album == uid && r.value.created == created
              && r.value.added == s.adds && r.value.present == s.present
              && r.value.missing == s.missing && r.value.extras == s.left
              && (deleteFromAlbum ==> Elems(r.value.removed) == s.left && Distinct(r.value.removed))
              && (!deleteFromAlbum ==> r.value.removed == [])
              && client.members == old(client.members)[uid := Reconciled(current, s, deleteFromAlbum)]
              && client.writes == old(client.writes) + BatchWrites(uid, s.adds, r.value.removed)
  {
    var sweep := ResolveDesired(client, current, pictures);
    if sweep.Err? {
      assert client.writes[|old(client.writes)|..] == [];
      return Err(sweep.error);
    }
    var s := sweep.value;
    var o, deletePictures := ApplySweep(client, uid, s, deleteFromAlbum);
    assert client.writes[|old(client.writes)|..] == BatchWrites(uid, s.adds, deletePictures);
    if o.Fail? {
      return Err(o.error);
    }
    UpdatedAt(old(client.members), client.members, uid);
    r := Ok(AlbumReport(uid, created, s.adds, s.present, s.missing, s.left, deletePictures));
  }

  /** The requests sent across two steps are those of the first step followed by those of the second. */
  lemma SentSplit(w0: seq<Request>, w1: seq<Request>, w2: seq<Request>, first: seq<Request>)
    requires w1 == w0 + first && w1 <= w2
    ensures w0 <= w2 && w2[|w0|..] == first + w2[|w1|..]
  {
  }

  /** A map that kept its keys and changed at most the entry `uid` is the old map with that entry updated. */
  lemma UpdatedAt(before: map<AlbumUID, set<PhotoUID>>, after: map<AlbumUID, set<PhotoUID>>, uid: AlbumUID)
    requires after.Keys == before.Keys && uid in after
    requires forall u :: u in before && u != uid ==> after[u] == before[u]
    ensures after == before[uid := after[uid]]
  {
  }

  /** A request sent across two steps was refused exactly when one sent in either step was. */
  lemma SentAcross(rejects: Request -> bool, w0: seq<Request>, w1: seq<Request>, w2: seq<Request>)
    requires w0 <= w1 && w1 <= w2
    ensures w0 <= w2
    ensures AnyRefused(rejects, w2[|w0|..]) <==> AnyRefused(rejects, w1[|w0|..]) || AnyRefused(rejects, w2[|w1|..])
  {
    assert w2[|w0|..] == w1[|w0|..] + w2[|w1|..];
    AnyRefusedConcat(rejects, w1[|w0|..], w2[|w1|..]);
  }

  /** Only the existing album a title resolves to changes when the album is opened and swept. */
  lemma OpenedUnchangedOutside(before: map<AlbumUID, set<PhotoUID>>, mid: map<AlbumUID, set<PhotoUID>>,
                               after: map<AlbumUID, set<PhotoUID>>, albums: seq<Album>, title: string, head: Opened)
    requires head.created == (FirstTitled(albums, title).uid == "")
    requires !head.created ==> head.album == FirstTitled(albums, title) && mid == before
    requires head.created ==> head.album.uid !in before && mid == before[head.album.uid := {}]
    requires mid.Keys == after.Keys
    requires forall u :: u in mid && u != head.album.uid ==> after[u] == mid[u]
    ensures UnchangedOutside(before, after,
                             if FirstTitled(albums, title).uid == "" then {} else {FirstTitled(albums, title).uid})
  {
  }

  /**
   * `syncPhotoprismAlbum`: resolve or create the album, sweep the desired
   * pictures against its photos, then send the add and remove batches. Any
   * refused request ends the sync with its error.
   */
  method SyncAlbum(client: Client, albums: seq<Album>, title: string, pictures: seq<PhotoprismPicture>,
                   deleteFromAlbum: bool) returns (r: Result<AlbumReport>)
    requires client.Valid()
    requires forall i :: 0 <= i < |albums| ==> albums[i].uid in client.members
    modifies client
    ensures client.Valid()
    ensures UnchangedOutside(old(client.members), client.members,
                             if FirstTitled(albums, title).uid == "" then {} else {FirstTitled(albums, title).uid})
    ensures r.Ok? ==> SyncedAlbum(old(client.members), client.members, albums, title, client.find,
                                  QueryPaths(pictures), deleteFromAlbum, r.value)
    ensures r.Ok? ==> client.writes == old(client.writes) + PlannedWrites(title, r.value)
    ensures old(client.writes) <= client.writes
    ensures r.Err? <==> || ReadRefused(client.rejects, albums, title, QueryPaths(pictures))
                        || AnyRefused(client.rejects, client.writes[|old(client.writes)|..])
    ensures (forall q :: !client.rejects(q)) ==> r.Ok?
  {
    var start := OpenAlbum(client, albums, title);
    if start.Err? {
      assert client.writes[|old(client.writes)|..] == if FirstTitled(albums, title).uid == "" then [CreateAlbum(title)] else [];
      OpeningRefused(client.rejects, albums, title, QueryPaths(pictures));
      r := Err(start.error);
    } else {
      var album, created, current := start.value.album, start.value.created, start.value.current;
      ghost var mid := client.members;
      ghost var midWrites := client.writes;
      ghost var opening := if created then [CreateAlbum(title)] else [];
      r := SweepAlbum(client, album.uid, created, current, pictures, deleteFromAlbum);
      OpenedUnchangedOutside(old(client.members), mid, client.members, albums, title, start.value);
      SentSplit(old(client.writes), midWrites, client.writes, opening);
      AnyRefusedConcat(client.rejects, opening, client.writes[|midWrites|..]);
      if r.Ok? {
        ghost var s := Swept(client.find, current, QueryPaths(pictures));
        SyncedAlbumIntro(old(client.members), mid, client.members, albums, title, client.find, QueryPaths(pictures),
                         deleteFromAlbum, start.value, s, r.value.removed);
        PlannedWritesCompose(old(client.writes), midWrites, client.writes, title, r.value);
      }
    }
    NothingRefused(client.rejects, albums, title, QueryPaths(pictures), client.writes[|old(client.writes)|..]);
  }

  // ---------------------------------------------------------------------------
  // All albums
  // ---------------------------------------------------------------------------

  /** The album titles the rows name. */
  function Titles(rows: seq<PhotoprismPicture>): set<string> {
    set i | 0 <= i < |rows| :: rows[i].album
  }

  /** The rows of album `title`, in row order. */
  function OfAlbum(rows: seq<PhotoprismPicture>, title: string): seq<PhotoprismPicture>
    decreases |rows|
  {
    if |rows| == 0 then []
    else
      var last := rows[|rows| - 1];
      OfAlbum(rows[..|rows| - 1], title) + (if last.album == title then [last] else [])
  }

  lemma TitlesSnoc(rows: seq<PhotoprismPicture>, row: PhotoprismPicture)
    ensures Titles(rows + [row]) == Titles(rows) + {row.album}
  {
    var all := rows + [row];
    forall t | t in Titles(all) ensures t in Titles(rows) + {row.album} {
      var i :| 0 <= i < |all| && all[i].album == t;
      if i < |rows| { assert all[i] == rows[i]; }
    }
    forall t | t in Titles(rows) ensures t in Titles(all) {
      var i :| 0 <= i < |rows| && rows[i].album == t;
      assert all[i] == rows[i];
    }
    assert all[|rows|] == row;
  }

  /**
   * Grouping partitions the rows: the group of a title holds only rows of
   * that title, every row of that title is in it, and the group is non-empty
   * exactly when some row names the title.
   */
  lemma {:induction false} OfAlbumPartitions(rows: seq<PhotoprismPicture>, title: string)
    ensures forall k :: 0 <= k < |OfAlbum(rows, title)| ==> OfAlbum(rows, title)[k].album == title
    ensures forall i :: 0 <= i < |rows| && rows[i].album == title ==> rows[i] in OfAlbum(rows, title)
    ensures |OfAlbum(rows, title)| > 0 <==> title in Titles(rows)
    decreases |rows|
  {
    if |rows| > 0 {
      var init := rows[..|rows| - 1];
      var last := rows[|rows| - 1];
      OfAlbumPartitions(init, title);
      TitlesSnoc(init, last);
      assert init + [last] == rows;
      var g := OfAlbum(rows, title);
      assert g == OfAlbum(init, title) + (if last.album == title then [last] else []);
      forall i | 0 <= i < |rows| && rows[i].album == title ensures rows[i] in g {
        if i < |init| {
          assert rows[i] == init[i];
        }
      }
    }
  }

  /** The grouping loop of syncPhotoprismAlbums: each title's rows, in row order. */
  method GroupByAlbum(rows: seq<PhotoprismPicture>) returns (groups: map<string, seq<PhotoprismPicture>>)
    ensures groups.Keys == Titles(rows)
    ensures forall t :: t in groups ==> groups[t] == OfAlbum(rows, t)
  {
    groups := map[];
    var i := 0;
    while i < |rows|
      invariant 0 <= i <= |rows|
      invariant groups.Keys == Titles(rows[..i])
      invariant forall t :: t in groups ==> groups[t] == OfAlbum(rows[..i], t)
    {
      var picture := rows[i];
      assert rows[..i + 1] == rows[..i] + [picture];
      assert rows[..i + 1][..i] == rows[..i];
      TitlesSnoc(rows[..i], picture);
      if picture.album in groups {
        groups := groups[picture.album := groups[picture.album] + [picture]];
      } else {
        OfAlbumPartitions(rows[..i], picture.album);
        groups := groups[picture.album := [picture]];
      }
      i := i + 1;
    }
    assert rows[..i] == rows;
  }

  /** The albums a set of reports worked on. */
  function Touched(synced: map<string, AlbumReport>): set<AlbumUID> {
    set t | t in synced :: synced[t].album
  }

  /**
   * The title `title` was synced against the listing `albums` and the album
   * state `before`: its report is the one a lone sync of that title would
   * give, and its album holds that sync's target.
   */
  ghost predicate TitleSynced(before: map<AlbumUID, set<PhotoUID>>, after: map<AlbumUID, set<PhotoUID>>,
                              albums: seq<Album>, find: string -> Option<PhotoUID>, rows: seq<PhotoprismPicture>,
                              deleteFromAlbum: bool, title: string, rep: AlbumReport)
  {
    var queries := QueryPaths(OfAlbum(rows, title));
    && ReportFor(before, albums, title, find, queries, deleteFromAlbum, rep)
    && rep.album in after
    && after[rep.album] == AlbumTarget(before, albums, title, find, queries, deleteFromAlbum)
  }

  /** Every title of `synced` is synced, and every album no title worked on is untouched. */
  ghost predicate AllSynced(before: map<AlbumUID, set<PhotoUID>>, after: map<AlbumUID, set<PhotoUID>>,
                            albums: seq<Album>, find: string -> Option<PhotoUID>, rows: seq<PhotoprismPicture>,
                            deleteFromAlbum: bool, synced: map<string, AlbumReport>)
  {
    && before.Keys <= after.Keys
    && (forall t :: t in synced ==> TitleSynced(before, after, albums, find, rows, deleteFromAlbum, t, synced[t]))
    && (forall u :: u in before && u !in Touched(synced) ==> after[u] == before[u])
  }

  lemma TouchedGrows(synced: map<string, AlbumReport>, title: string, rep: AlbumReport)
    requires title !in synced
    ensures Touched(synced) + {rep.album} <= Touched(synced[title := rep])
  {
    var synced' := synced[title := rep];
    forall x | x in Touched(synced) ensures x in Touched(synced') {
      var t :| t in synced && synced[t].album == x;
      assert synced'[t] == synced[t];
    }
    assert synced'[title] == rep;
  }

  /** A synced title stays synced while its album is left alone. */
  lemma TitleSyncedFrame(before: map<AlbumUID, set<PhotoUID>>, mid: map<AlbumUID, set<PhotoUID>>,
                         after: map<AlbumUID, set<PhotoUID>>, albums: seq<Album>, find: string -> Option<PhotoUID>,
                         rows: seq<PhotoprismPicture>, deleteFromAlbum: bool, title: string, rep: AlbumReport)
    requires TitleSynced(before, mid, albums, find, rows, deleteFromAlbum, title, rep)
    requires rep.album in after && after[rep.album] == mid[rep.album]
    ensures TitleSynced(before, after, albums, find, rows, deleteFromAlbum, title, rep)
  {
  }

  /**
   * The album a further title resolves to is one no earlier title worked on:
   * a different title resolves to a different existing album, and a created
   * album is new.
   */
  lemma NotTouchedBefore(before: map<AlbumUID, set<PhotoUID>>, mid: map<AlbumUID, set<PhotoUID>>,
                         albums: seq<Album>, find: string -> Option<PhotoUID>, rows: seq<PhotoprismPicture>,
                         deleteFromAlbum: bool, synced: map<string, AlbumReport>, title: string, rep: AlbumReport)
    requires Distinct(Client.AlbumUids(albums))
    requires forall i :: 0 <= i < |albums| ==> albums[i].uid in before
    requires AllSynced(before, mid, albums, find, rows, deleteFromAlbum, synced)
    requires title !in synced
    requires ReportFor(mid, albums, title, find, QueryPaths(OfAlbum(rows, title)), deleteFromAlbum, rep)
    ensures rep.album !in Touched(synced)
  {
    if rep.created {
      forall t | t in synced ensures synced[t].album != rep.album {
        assert TitleSynced(before, mid, albums, find, rows, deleteFromAlbum, t, synced[t]);
      }
    } else {
      FirstTitledFound(albums, title);
      forall t | t in synced ensures synced[t].album != rep.album {
        assert TitleSynced(before, mid, albums, find, rows, deleteFromAlbum, t, synced[t]);
        if !synced[t].created {
          DistinctTitlesDistinctAlbums(albums, t, title);
        }
      }
    }
  }

  /** The title just synced is synced relative to the state before the run. */
  lemma NewTitleSynced(before: map<AlbumUID, set<PhotoUID>>, mid: map<AlbumUID, set<PhotoUID>>,
                       after: map<AlbumUID, set<PhotoUID>>, albums: seq<Album>, find: string -> Option<PhotoUID>,
                       rows: seq<PhotoprismPicture>, deleteFromAlbum: bool, title: string, rep: AlbumReport)
    requires before.Keys <= mid.Keys
    requires CurrentPhotos(mid, albums, title) == CurrentPhotos(before, albums, title)
    requires SyncedAlbum(mid, after, albums, title, find, QueryPaths(OfAlbum(rows, title)), deleteFromAlbum, rep)
    ensures TitleSynced(before, after, albums, find, rows, deleteFromAlbum, title, rep)
  {
  }

  /**
   * Titles synced earlier stay synced when an album none of them worked on
   * changes, and the title that changed it joins them.
   */
  lemma ExtendSynced(before: map<AlbumUID, set<PhotoUID>>, mid: map<AlbumUID, set<PhotoUID>>,
                     after: map<AlbumUID, set<PhotoUID>>, albums: seq<Album>, find: string -> Option<PhotoUID>,
                     rows: seq<PhotoprismPicture>, deleteFromAlbum: bool, synced: map<string, AlbumReport>,
                     title: string, rep: AlbumReport, photos: set<PhotoUID>)
    requires AllSynced(before, mid, albums, find, rows, deleteFromAlbum, synced)
    requires title !in synced
    requires rep.album !in Touched(synced)
    requires after == mid[rep.album := photos]
    requires TitleSynced(before, after, albums, find, rows, deleteFromAlbum, title, rep)
    ensures AllSynced(before, after, albums, find, rows, deleteFromAlbum, synced[title := rep])
  {
    forall t | t in synced
      ensures TitleSynced(before, after, albums, find, rows, deleteFromAlbum, t, synced[t])
    {
      assert synced[t].album in Touched(synced);
      TitleSyncedFrame(before, mid, after, albums, find, rows, deleteFromAlbum, t, synced[t]);
    }
    TouchedGrows(synced, title, rep);
  }

  /** The album a title resolves to still holds what it held before the run, if no earlier title worked on it. */
  lemma ResolvedAlbumUnchanged(before: map<AlbumUID, set<PhotoUID>>, mid: map<AlbumUID, set<PhotoUID>>,
                               albums: seq<Album>, synced: map<string, AlbumReport>, title: string)
    requires forall i :: 0 <= i < |albums| ==> albums[i].uid in before
    requires before.Keys <= mid.Keys
    requires forall u :: u in before && u !in Touched(synced) ==> mid[u] == before[u]
    requires FirstTitled(albums, title).uid !in Touched(synced)
    ensures CurrentPhotos(mid, albums, title) == CurrentPhotos(before, albums, title)
  {
    if FirstTitled(albums, title).uid != "" {
      FirstTitledFound(albums, title);
    }
  }

  /** Syncing one more title keeps AllSynced. */
  lemma SyncOneMore(before: map<AlbumUID, set<PhotoUID>>, mid: map<AlbumUID, set<PhotoUID>>,
                    after: map<AlbumUID, set<PhotoUID>>, albums: seq<Album>, find: string -> Option<PhotoUID>,
                    rows: seq<PhotoprismPicture>, deleteFromAlbum: bool, synced: map<string, AlbumReport>,
                    title: string, rep: AlbumReport)
    requires Distinct(Client.AlbumUids(albums))
    requires forall i :: 0 <= i < |albums| ==> albums[i].uid in before
    requires AllSynced(before, mid, albums, find, rows, deleteFromAlbum, synced)
    requires title !in synced
    requires SyncedAlbum(mid, after, albums, title, find, QueryPaths(OfAlbum(rows, title)), deleteFromAlbum, rep)
    ensures AllSynced(before, after, albums, find, rows, deleteFromAlbum, synced[title := rep])
    ensures forall t :: t in synced ==> TitleSynced(before, after, albums, find, rows, deleteFromAlbum, t, synced[t])
  {
    var queries := QueryPaths(OfAlbum(rows, title));
    NotTouchedBefore(before, mid, albums, find, rows, deleteFromAlbum, synced, title, rep);
    if !rep.created {
      ResolvedAlbumUnchanged(before, mid, albums, synced, title);
    }
    NewTitleSynced(before, mid, after, albums, find, rows, deleteFromAlbum, title, rep);
    ExtendSynced(before, mid, after, albums, find, rows, deleteFromAlbum, synced, title, rep,
                 AlbumTarget(mid, albums, title, find, queries, deleteFromAlbum));
  }

  /**
   * A failed sync of one more title leaves every earlier title synced: it can
   * only have changed the existing album that title resolves to, which no
   * earlier title worked on.
   */
  lemma FailedSyncKeepsSynced(before: map<AlbumUID, set<PhotoUID>>, mid: map<AlbumUID, set<PhotoUID>>,
                              after: map<AlbumUID, set<PhotoUID>>, albums: seq<Album>, find: string -> Option<PhotoUID>,
                              rows: seq<PhotoprismPicture>, deleteFromAlbum: bool, synced: map<string, AlbumReport>,
                              title: string)
    requires Distinct(Client.AlbumUids(albums))
    requires forall i :: 0 <= i < |albums| ==> albums[i].uid in before
    requires forall t :: t in synced ==> TitleSynced(before, mid, albums, find, rows, deleteFromAlbum, t, synced[t])
    requires title !in synced
    requires UnchangedOutside(mid, after,
                              if FirstTitled(albums, title).uid == "" then {} else {FirstTitled(albums, title).uid})
    ensures forall t :: t in synced ==> TitleSynced(before, after, albums, find, rows, deleteFromAlbum, t, synced[t])
  {
    forall t | t in synced ensures TitleSynced(before, after, albums, find, rows, deleteFromAlbum, t, synced[t]) {
      var rep := synced[t];
      assert TitleSynced(before, mid, albums, find, rows, deleteFromAlbum, t, rep);
      if FirstTitled(albums, title).uid != "" {
        FirstTitledFound(albums, title);
        if !rep.created {
          DistinctTitlesDistinctAlbums(albums, t, title);
        }
      }
      TitleSyncedFrame(before, mid, after, albums, find, rows, deleteFromAlbum, t, rep);
    }
  }

  /** One iteration of the loop of syncPhotoprismAlbums: sync one more title. */
  method SyncNext(client: Client, photoprismAlbums: seq<Album>, rows: seq<PhotoprismPicture>,
                  pictures: seq<PhotoprismPicture>, deleteFromAlbum: bool, ghost before: map<AlbumUID, set<PhotoUID>>,
                  synced: map<string, AlbumReport>, title: string)
    returns (r: Result<AlbumReport>)
    requires client.Valid()
    requires Distinct(Client.AlbumUids(photoprismAlbums))
    requires forall i :: 0 <= i < |photoprismAlbums| ==> photoprismAlbums[i].uid in before
    requires AllSynced(before, client.members, photoprismAlbums, client.find, rows, deleteFromAlbum, synced)
    requires title !in synced && pictures == OfAlbum(rows, title)
    modifies client
    ensures client.Valid()
    ensures before.Keys <= client.members.Keys
    ensures r.Ok? ==> AllSynced(before, client.members, photoprismAlbums, client.find, rows, deleteFromAlbum,
                                synced[title := r.value])
    ensures forall t :: t in synced ==>
              TitleSynced(before, client.members, photoprismAlbums, client.find, rows, deleteFromAlbum, t, synced[t])
    ensures old(client.writes) <= client.writes
    ensures r.Err? <==> || ReadRefused(client.rejects, photoprismAlbums, title, QueryPaths(pictures))
                        || AnyRefused(client.rejects, client.writes[|old(client.writes)|..])
  {
    ghost var mid := client.members;
    r := SyncAlbum(client, photoprismAlbums, title, pictures, deleteFromAlbum);
    if r.Ok? {
      SyncOneMore(before, mid, client.members, photoprismAlbums, client.find, rows, deleteFromAlbum, synced, title, r.value);
    } else {
      FailedSyncKeepsSynced(before, mid, client.members, photoprismAlbums, client.find, rows, deleteFromAlbum,
                            synced, title);
    }
  }

  /** The loop of syncPhotoprismAlbums over the grouped rows, against one album listing. */
  method SyncTitles(client: Client, photoprismAlbums: seq<Album>, rows: seq<PhotoprismPicture>,
                    picturesByAlbum: map<string, seq<PhotoprismPicture>>, deleteFromAlbum: bool)
    returns (o: Outcome, synced: map<string, AlbumReport>)
    requires client.Valid()
    requires Distinct(Client.AlbumUids(photoprismAlbums))
    requires forall i :: 0 <= i < |photoprismAlbums| ==> photoprismAlbums[i].uid in client.members
    requires forall t :: t in picturesByAlbum ==> picturesByAlbum[t] == OfAlbum(rows, t)
    modifies client
    ensures client.Valid()
    ensures old(client.members).Keys <= client.members.Keys
    ensures o.Pass? ==> && synced.Keys == picturesByAlbum.Keys
                        && AllSynced(old(client.members), client.members, photoprismAlbums, client.find,
                                     rows, deleteFromAlbum, synced)
    ensures synced.Keys <= picturesByAlbum.Keys
    ensures forall t :: t in synced ==>
              TitleSynced(old(client.members), client.members, photoprismAlbums, client.find, rows, deleteFromAlbum,
                          t, synced[t])
    ensures old(client.writes) <= client.writes
    ensures o.Fail? <==> || AnyRefused(client.rejects, client.writes[|old(client.writes)|..])
                         || exists t :: t in picturesByAlbum && t !in synced
                                        && ReadRefused(client.rejects, photoprismAlbums, t, QueryPaths(picturesByAlbum[t]))
  {
    synced := map[];
    var todo := picturesByAlbum.Keys;
    while todo != {}
      invariant client.Valid()
      invariant todo <= picturesByAlbum.Keys
      invariant synced.Keys == picturesByAlbum.Keys - todo
      invariant AllSynced(old(client.members), client.members, photoprismAlbums, client.find,
                          rows, deleteFromAlbum, synced)
      invariant old(client.writes) <= client.writes
      invariant !AnyRefused(client.rejects, client.writes[|old(client.writes)|..])
      decreases todo
    {
      var album :| album in todo;
      ghost var sentBefore := client.writes;
      var r := SyncNext(client, photoprismAlbums, rows, picturesByAlbum[album], deleteFromAlbum,
                        old(client.members), synced, album);
      SentAcross(client.rejects, old(client.writes), sentBefore, client.writes);
      if r.Err? {
        return Fail(r.error), synced;
      }
      synced := synced[album := r.value];
      todo := todo - {album};
    }
    assert synced.Keys == picturesByAlbum.Keys;
    o := Pass;
  }

  /**
   * syncPhotoprismAlbums, from the rows of the grouping query on: sign in,
   * group the rows by album title, take one album listing, and sync every
   * title against it; the first failure aborts.
   */
  method SyncAlbums(client: Client, rows: Result<seq<PhotoprismPicture>>, deleteFromAlbum: bool)
    returns (o: Outcome, synced: map<string, AlbumReport>)
    requires client.Valid()
    modifies client
    ensures client.Valid()
    ensures old(client.members).Keys <= client.members.Keys
    ensures rows.Err? || client.rejects(Request.Login) || client.rejects(ListAlbums) ==>
              o.Fail? && client.members == old(client.members) && client.writes == old(client.writes)
    ensures o.Pass? ==> && rows.Ok? && synced.Keys == Titles(rows.value)
                        && AllSynced(old(client.members), client.members, old(client.albums), client.find,
                                     rows.value, deleteFromAlbum, synced)
    ensures rows.Ok? ==> && synced.Keys <= Titles(rows.value)
                         && forall t :: t in synced ==>
                              TitleSynced(old(client.members), client.members, old(client.albums), client.find,
                                          rows.value, deleteFromAlbum, t, synced[t])
    ensures old(client.writes) <= client.writes
    ensures o.Fail? <==> || rows.Err? || client.rejects(Request.Login) || client.rejects(ListAlbums)
                         || AnyRefused(client.rejects, client.writes[|old(client.writes)|..])
                         || exists t :: t in Titles(rows.value) && t !in synced
                                        && ReadRefused(client.rejects, old(client.albums), t,
                                                       QueryPaths(OfAlbum(rows.value, t)))
    ensures rows.Ok? && (forall q :: !client.rejects(q)) ==> o.Pass?
  {
    synced := map[];
    if rows.Err? {
      return Fail(rows.error), synced;
    }
    var login := client.Login();
    if login.Fail? {
      return login, synced;
    }
    var picturesByAlbum := GroupByAlbum(rows.value);
    var listing := client.GetAlbums();
    if listing.Err? {
      return Fail(listing.error), synced;
    }
    o, synced := SyncTitles(client, listing.value, rows.value, picturesByAlbum, deleteFromAlbum);
  }

  /**
   * What a successful run leaves behind: with deletion every title's album
   * holds exactly the photos its rows find; without it, those photos plus
   * what the album held before.
   */
  lemma SyncAlbumsConverge(before: map<AlbumUID, set<PhotoUID>>, after: map<AlbumUID, set<PhotoUID>>,
                           albums: seq<Album>, find: string -> Option<PhotoUID>, rows: seq<PhotoprismPicture>,
                           deleteFromAlbum: bool, synced: map<string, AlbumReport>, title: string)
    requires AllSynced(before, after, albums, find, rows, deleteFromAlbum, synced)
    requires title in synced
    ensures after[synced[title].album] ==
              if deleteFromAlbum then Found(find, QueryPaths(OfAlbum(rows, title)))
              else CurrentPhotos(before, albums, title) + Found(find, QueryPaths(OfAlbum(rows, title)))
  {
    Converges(find, CurrentPhotos(before, albums, title), QueryPaths(OfAlbum(rows, title)), deleteFromAlbum);
  }
}
