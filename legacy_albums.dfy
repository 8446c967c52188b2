/**
 * The older album reconciler of the top-level program. Its rows carry no
 * PhotoPrism search path, so every desired picture is searched by its local
 * path; apart from that it resolves, sweeps, adds and removes exactly as the
 * current reconciler does. It is modelled by lifting each older row into a
 * current row with an empty search path and running the current reconciler.
 */
module LegacyAlbumSync {
  import opened Wrappers
  import opened PhotoPrism
  import opened AlbumSync

  /** One row of the older grouping query: the album and the local path. */
  datatype LegacyPicture = LegacyPicture(album: string, path: string)

  /** An older row as a current row: no search path, so the search uses the local path. */
  function Lift(p: LegacyPicture): (r: PhotoprismPicture)
    ensures r.album == p.album && r.path == p.path && QueryPath(r) == p.path
  {
    PhotoprismPicture(p.album, p.path, "")
  }

  function LiftAll(rows: seq<LegacyPicture>): (r: seq<PhotoprismPicture>)
    ensures |r| == |rows| && forall i :: 0 <= i < |rows| ==> r[i] == Lift(rows[i])
  {
    seq(|rows|, i requires 0 <= i < |rows| => Lift(rows[i]))
  }

  /** The local paths of the rows, in row order. */
  function LocalPaths(rows: seq<LegacyPicture>): (r: seq<string>)
    ensures |r| == |rows| && forall i :: 0 <= i < |rows| ==> r[i] == rows[i].path
  {
    seq(|rows|, i requires 0 <= i < |rows| => rows[i].path)
  }

  /** The searches of lifted rows are the local paths of the older rows. */
  lemma SearchesAreLocalPaths(rows: seq<LegacyPicture>)
    ensures QueryPaths(LiftAll(rows)) == LocalPaths(rows)
  {
    assert forall i :: 0 <= i < |rows| ==> QueryPaths(LiftAll(rows))[i] == LocalPaths(rows)[i];
  }

  /**
   * Grouping lifted rows keeps the search path empty, so every album's
   * searches are the local paths of its own rows.
   */
  lemma {:induction false} LiftedGroupsSearchLocalPaths(rows: seq<LegacyPicture>, title: string)
    ensures var group := OfAlbum(LiftAll(rows), title);
            forall k :: 0 <= k < |group| ==> group[k].photoprismPath == "" && QueryPaths(group)[k] == group[k].path
    decreases |rows|
  {
    if |rows| > 0 {
      var init := rows[..|rows| - 1];
      LiftedGroupsSearchLocalPaths(init, title);
      var lifted := LiftAll(rows);
      assert lifted[..|rows| - 1] == LiftAll(init);
      var last := lifted[|rows| - 1];
      var group := OfAlbum(lifted, title);
      assert group == OfAlbum(LiftAll(init), title) + (if last.album == title then [last] else []);
      forall k | 0 <= k < |group| ensures group[k].photoprismPath == "" {
        if k < |OfAlbum(LiftAll(init), title)| {
          assert group[k] == OfAlbum(LiftAll(init), title)[k];
        }
      }
    }
  }

  /** The older syncPhotoprismAlbum: the current one, searching by local path. */
  method LegacySyncAlbum(client: Client, albums: seq<Album>, title: string, pictures: seq<LegacyPicture>,
                         deleteFromAlbum: bool) returns (r: Result<AlbumReport>)
    requires client.Valid()
    requires forall i :: 0 <= i < |albums| ==> albums[i].uid in client.members
    modifies client
    ensures client.Valid()
    ensures UnchangedOutside(old(client.members), client.members,
                             if FirstTitled(albums, title).uid == "" then {} else {FirstTitled(albums, title).uid})
    ensures r.Ok? ==> SyncedAlbum(old(client.members), client.members, albums, title, client.find,
                                  LocalPaths(pictures), deleteFromAlbum, r.value)
    ensures r.Ok? ==> client.writes == old(client.writes) + PlannedWrites(title, r.value)
    ensures old(client.writes) <= client.writes
    ensures r.Err? <==> || ReadRefused(client.rejects, albums, title, LocalPaths(pictures))
                        || AnyRefused(client.rejects, client.writes[|old(client.writes)|..])
    ensures (forall q :: !client.rejects(q)) ==> r.Ok?
  {
    SearchesAreLocalPaths(pictures);
    r := SyncAlbum(client, albums, title, LiftAll(pictures), deleteFromAlbum);
  }

  /** The older syncPhotoprismAlbums: the current one over the lifted rows. */
  method LegacySyncAlbums(client: Client, rows: Result<seq<LegacyPicture>>, deleteFromAlbum: bool)
    returns (o: Outcome, synced: map<string, AlbumReport>)
    requires client.Valid()
    modifies client
    ensures client.Valid()
    ensures old(client.members).Keys <= client.members.Keys
    ensures rows.Err? || client.rejects(Request.Login) || client.rejects(ListAlbums) ==>
              o.Fail? && client.members == old(client.members) && client.writes == old(client.writes)
    ensures o.Pass? ==> && rows.Ok? && synced.Keys == Titles(LiftAll(rows.value))
                        && AllSynced(old(client.members), client.members, old(client.albums), client.find,
                                     LiftAll(rows.value), deleteFromAlbum, synced)
    ensures rows.Ok? ==> && synced.Keys <= Titles(LiftAll(rows.value))
                         && forall t :: t in synced ==>
                              TitleSynced(old(client.members), client.members, old(client.albums), client.find,
                                          LiftAll(rows.value), deleteFromAlbum, t, synced[t])
    ensures old(client.writes) <= client.writes
    ensures o.Fail? <==> || rows.Err? || client.rejects(Request.Login) || client.rejects(ListAlbums)
                         || AnyRefused(client.rejects, client.writes[|old(client.writes)|..])
                         || exists t :: t in Titles(LiftAll(rows.value)) && t !in synced
                                        && ReadRefused(client.rejects, old(client.albums), t,
                                                       QueryPaths(OfAlbum(LiftAll(rows.value), t)))
    ensures rows.Ok? && (forall q :: !client.rejects(q)) ==> o.Pass?
  {
    var lifted := if rows.Ok? then Ok(LiftAll(rows.value)) else Err(rows.error);
    o, synced := SyncAlbums(client, lifted, deleteFromAlbum);
  }
}
