/**
 * The store logic of the app.py routes that change the database: uploading,
 * editing and deleting a video and registering a user. The logged-in user
 * arrives as a key, the clock as `now`, the salted password hash as a value.
 */
module AppRoutes {
  import opened Catalog
  import FindExtractor

  /** app.py `upload_video`: a new video is committed exactly when the
      `find` extractor yields a non-empty id, with that id, the current
      user as owner and both timestamps at `now`; otherwise nothing changes. */
  method UploadVideo(db: Database, title: string, description: string, url: string, userId: nat, now: int)
    returns (created: bool)
    requires db.Valid() && HasUser(db.users, userId)
    modifies db
    ensures db.Valid()
    ensures created <==> FindExtractor.GetVideoId(url).Some? && FindExtractor.GetVideoId(url).value != ""
    ensures db.users == old(db.users)
    ensures created ==>
      db.videos == AddVideo(old(db.videos), title, description, url, FindExtractor.GetVideoId(url).value, userId, now)
    ensures !created ==> db.videos == old(db.videos)
  {
    var videoId := FindExtractor.GetVideoId(url);
    if videoId.Some? && videoId.value != "" {
      var videos := AddVideo(db.videos, title, description, url, videoId.value, userId, now);
      OwnersExistAfterAddVideo(db.users, db.videos, videos[|db.videos|]);
      assert videos == db.videos + [videos[|db.videos|]];
      db.videos := videos;
      created := true;
    } else {
      created := false;
    }
  }

  /** What the form of `edit_video` does to the row: title, description and
      URL take the submitted values; the stored id is not derived again from
      the new URL; key, owner and creation time stay; the update time moves
      to `now` exactly when one of the three fields has changed, as
      `onupdate` fires only for an UPDATE that changes something. */
  function Edited(v: Video, title: string, description: string, url: string, now: int): (r: Video)
    ensures r.id == v.id && r.userId == v.userId && r.videoId == v.videoId && r.createdAt == v.createdAt
    ensures r.title == title && r.description == description && r.youtubeUrl == url
    ensures r != v ==> r.updatedAt == now
    ensures r.updatedAt != v.updatedAt ==> r.updatedAt == now
    ensures r == v <==> title == v.title && description == v.description && url == v.youtubeUrl
  {
    if title == v.title && description == v.description && url == v.youtubeUrl then v
    else v.(title := title, description := description, youtubeUrl := url, updatedAt := now)
  }

  /** Submitting the same form twice changes nothing the second time, not
      even the update time. */
  lemma EditedTwice(v: Video, title: string, description: string, url: string, now: int, later: int)
    ensures Edited(Edited(v, title, description, url, now), title, description, url, later)
         == Edited(v, title, description, url, now)
  {
  }

  /** app.py `edit_video`: the video with that key becomes `Edited` of it;
      every other video, their order and every user stay as they were. The
      source fails on a missing key, so the key must exist. */
  method EditVideo(db: Database, id: nat, title: string, description: string, url: string, now: int)
    requires db.Valid() && VideoIndex(db.videos, id).Some?
    modifies db
    ensures db.Valid()
    ensures db.users == old(db.users)
    ensures var k := VideoIndex(old(db.videos), id).value;
      db.videos == old(db.videos)[k := Edited(old(db.videos)[k], title, description, url, now)]
  {
    var k := VideoIndex(db.videos, id).value;
    var videos := db.videos[k := Edited(db.videos[k], title, description, url, now)];
    assert forall j :: 0 <= j < |videos| ==> videos[j].id == db.videos[j].id && videos[j].userId == db.videos[j].userId;
    db.videos := videos;
  }

  /** app.py `delete_video`: exactly the video with that key is gone, the
      others keep their order, and the users stay. There is no check that
      the current user owns the video. The source fails on a missing key,
      so the key must exist. */
  method DeleteVideo(db: Database, id: nat)
    requires db.Valid() && VideoIndex(db.videos, id).Some?
    modifies db
    ensures db.Valid()
    ensures db.users == old(db.users)
    ensures db.videos == RemoveVideoAt(old(db.videos), VideoIndex(old(db.videos), id).value)
    ensures forall v :: v in db.videos <==> v in old(db.videos) && v.id != id
  {
    var k := VideoIndex(db.videos, id).value;
    var videos := RemoveVideoAt(db.videos, k);
    OwnersExistAfterFewerVideos(db.users, db.videos, videos);
    db.videos := videos;
  }

  /** app.py `registro`: a taken name adds nobody; a free one adds exactly
      one user with that name and hash, so names stay unique. */
  method Registro(db: Database, username: string, passwordHash: string) returns (registered: bool)
    requires db.Valid()
    modifies db
    ensures db.Valid()
    ensures registered <==> !NameTaken(old(db.users), username)
    ensures registered ==> db.users == AddUser(old(db.users), username, passwordHash)
    ensures !registered ==> db.users == old(db.users)
    ensures db.videos == old(db.videos)
  {
    var existing := UserIndexByName(db.users, username);
    if existing.Some? {
      registered := false;
    } else {
      var users := AddUser(db.users, username, passwordHash);
      OwnersExistAfterAddUser(db.users, db.videos, users[|db.users|]);
      assert users == db.users + [users[|db.users|]];
      db.users := users;
      registered := true;
    }
  }
}
