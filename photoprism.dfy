/**
 * The PhotoPrism service as the album reconciler sees it: a list of albums,
 * the photo set of each album, a filename search, and the batch calls that
 * change album membership. Which requests the service refuses is fixed by the
 * `rejects` predicate, so each failure path of the reconciler can be reached
 * and stated.
 */
module PhotoPrism {
  import opened Wrappers
  import opened Sequences

  type AlbumUID = string
  type PhotoUID = string

  datatype Album = Album(uid: AlbumUID, title: string)

  /** Go's zero `api.Album`: what the title search yields when nothing matches. */
  const NoAlbum: Album := Album("", "")

  /** Every request the client can send. */
  datatype Request =
    | Login
    | ListAlbums
    | CreateAlbum(title: string)
    | ListPhotos(album: AlbumUID)
    | FindPhoto(query: string)
    | AddPhotos(album: AlbumUID, photos: seq<PhotoUID>)
    | RemovePhotos(album: AlbumUID, photos: seq<PhotoUID>)

  /** A PhotoPrism server together with an authenticated session on it. */
  class Client {
    /** The server's albums, in the order the album listing returns them. */
    var albums: seq<Album>
    /** The photos of each album. */
    var members: map<AlbumUID, set<PhotoUID>>
    /** Every state-changing request sent so far, in order, refused ones included. */
    var writes: seq<Request>
    /** How many album UIDs the server has handed out; it mints longer ones from here on. */
    var minted: nat
    /** The filename search: the first photo whose file name contains the query, if any. */
    const find: string -> Option<PhotoUID>
    /** The requests the server answers with an error. */
    const rejects: Request -> bool

    ghost predicate Valid()
      reads this
    {
      && (forall i :: 0 <= i < |albums| ==> albums[i].uid in members)
      && Distinct(AlbumUids(albums))
      && (forall u :: u in members ==> |u| <= minted)
    }

    static function AlbumUids(albums: seq<Album>): (r: seq<AlbumUID>)
      ensures |r| == |albums| && forall i :: 0 <= i < |albums| ==> r[i] == albums[i].uid
    {
      seq(|albums|, i requires 0 <= i < |albums| => albums[i].uid)
    }

    constructor (albums: seq<Album>, members: map<AlbumUID, set<PhotoUID>>,
                 minted: nat, find: string -> Option<PhotoUID>, rejects: Request -> bool)
      requires forall i :: 0 <= i < |albums| ==> albums[i].uid in members
      requires Distinct(AlbumUids(albums))
      requires forall u :: u in members ==> |u| <= minted
      ensures Valid()
      ensures this.albums == albums && this.members == members && this.writes == []
      ensures this.find == find && this.rejects == rejects
    {
      this.albums := albums;
      this.members := members;
      this.writes := [];
      this.minted := minted;
      this.find := find;
      this.rejects := rejects;
    }

    /** Authentication with the configured credentials. */
    method Login() returns (o: Outcome)
      ensures o.Fail? <==> rejects(Request.Login)
    {
      if rejects(Request.Login) {
        o := Fail("authentication failed");
      } else {
        o := Pass;
      }
    }

    /** The album listing. */
    method GetAlbums() returns (r: Result<seq<Album>>)
      ensures r.Err? <==> rejects(Request.ListAlbums)
      ensures r.Ok? ==> r.value == albums
    {
      if rejects(Request.ListAlbums) {
        r := Err("cannot list albums");
      } else {
        r := Ok(albums);
      }
    }

    /** Creates an album with a UID the server has never handed out. */
    method CreateAlbum(title: string) returns (r: Result<Album>)
      requires Valid()
      modifies this
      ensures Valid()
      ensures writes == old(writes) + [Request.CreateAlbum(title)]
      ensures r.Err? <==> rejects(Request.CreateAlbum(title))
      ensures r.Err? ==> albums == old(albums) && members == old(members)
      ensures r.Ok? ==> && r.value.title == title && r.value.uid != ""
                        && r.value.uid !in old(members)
                        && albums == old(albums) + [r.value]
                        && members == old(members)[r.value.uid := {}]
    {
      writes := writes + [Request.CreateAlbum(title)];
      if rejects(Request.CreateAlbum(title)) {
        r := Err("cannot create album");
        return;
      }
      var uid: AlbumUID := seq(minted + 1, _ => 'a');
      var album := Album(uid, title);
      assert forall i :: 0 <= i < |albums| ==> albums[i].uid != uid;
      albums := albums + [album];
      members := members[uid := {}];
      minted := minted + 1;
      r := Ok(album);
    }

    /** The photo listing of one album, each photo once, in the server's order. */
    method GetPhotos(album: AlbumUID) returns (r: Result<seq<PhotoUID>>)
      requires album in members
      ensures r.Err? <==> rejects(Request.ListPhotos(album))
      ensures r.Ok? ==> Elems(r.value) == members[album] && Distinct(r.value)
    {
      if rejects(Request.ListPhotos(album)) {
        r := Err("cannot list album photos");
        return;
      }
      var listing: seq<PhotoUID> := [];
      var rest := members[album];
      while rest != {}
        invariant Elems(listing) + rest == members[album]
        invariant Elems(listing) !! rest
        invariant Distinct(listing)
        decreases |rest|
      {
        var photo :| photo in rest;
        listing := listing + [photo];
        rest := rest - {photo};
      }
      r := Ok(listing);
    }

    /** The filename search, limited to one result. */
    method FindPhoto(query: string) returns (r: Result<Option<PhotoUID>>)
      ensures r.Err? <==> rejects(Request.FindPhoto(query))
      ensures r.Ok? ==> r.value == find(query)
    {
      if rejects(Request.FindPhoto(query)) {
        r := Err("photo search failed");
      } else {
        r := Ok(find(query));
      }
    }

    /** Adds a batch of photos to an album. */
    method AddPhotos(album: AlbumUID, photos: seq<PhotoUID>) returns (o: Outcome)
      requires Valid() && album in members
      modifies this
      ensures Valid()
      ensures writes == old(writes) + [Request.AddPhotos(album, photos)]
      ensures albums == old(albums)
      ensures o.Fail? <==> rejects(Request.AddPhotos(album, photos))
      ensures members == if o.Fail? then old(members)
                         else old(members)[album := old(members)[album] + Elems(photos)]
    {
      writes := writes + [Request.AddPhotos(album, photos)];
      if rejects(Request.AddPhotos(album, photos)) {
        o := Fail("cannot add photos to album");
      } else {
        members := members[album := members[album] + Elems(photos)];
        o := Pass;
      }
    }

    /** Removes a batch of photos from an album. */
    method RemovePhotos(album: AlbumUID, photos: seq<PhotoUID>) returns (o: Outcome)
      requires Valid() && album in members
      modifies this
      ensures Valid()
      ensures writes == old(writes) + [Request.RemovePhotos(album, photos)]
      ensures albums == old(albums)
      ensures o.Fail? <==> rejects(Request.RemovePhotos(album, photos))
      ensures members == if o.Fail? then old(members)
                         else old(members)[album := old(members)[album] - Elems(photos)]
    {
      writes := writes + [Request.RemovePhotos(album, photos)];
      if rejects(Request.RemovePhotos(album, photos)) {
        o := Fail("cannot remove photos from album");
      } else {
        members := members[album := members[album] - Elems(photos)];
        o := Pass;
      }
    }
  }
}
