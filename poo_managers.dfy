/**
 * The two manager classes of the object-oriented variant (app_poo.py):
 * `UserManager` registers users, checks credentials and edits a profile;
 * `VideoManager` uploads a video through the regular-expression extractor
 * and deletes one by key. As in the source they hold no state of their own:
 * every method works on the database it is given.
 */
module PooManagers {
  import opened Wrappers
  import opened Catalog
  import FileNames
  import RegexExtractor

  /** A file sent with the profile form: the name the browser gave it and
      the URL at which the application serves it once it is saved. */
  datatype Upload = Upload(filename: string, servedAt: string)

  /** The profile row after `edit_profile` assigned its fields, before the
      commit. */
  function Profiled(u: User, username: string, description: string, picture: Option<Upload>): (r: User)
    ensures r.id == u.id && r.passwordHash == u.passwordHash && r.name == u.name
    ensures r.username == username && r.description == Some(description)
    ensures r.profilePicture != u.profilePicture ==>
              picture.Some? && FileNames.AllowedFile(picture.value.filename) && r.profilePicture == Some(picture.value.servedAt)
    ensures picture.Some? && FileNames.AllowedFile(picture.value.filename) ==> r.profilePicture == Some(picture.value.servedAt)
  {
    var u' := u.(username := username, description := Some(description));
    if picture.Some? && FileNames.AllowedFile(picture.value.filename) then
      u'.(profilePicture := Some(picture.value.servedAt))
    else
      u'
  }

  /** No user other than the one with key `id` has the name `username`. */
  predicate NameFreeFor(users: seq<User>, id: nat, username: string) {
    forall j :: 0 <= j < |users| && users[j].id != id ==> users[j].username != username
  }

  /** Keys are distinct, so "another user" is "another row". */
  lemma NameFreeForAt(users: seq<User>, k: nat, username: string)
    requires UserIdsAscending(users) && k < |users|
    ensures NameFreeFor(users, users[k].id, username) <==>
              forall j :: 0 <= j < |users| && j != k ==> users[j].username != username
  {
    assert forall j :: 0 <= j < |users| ==> (j != k <==> users[j].id != users[k].id);
  }

  class UserManager {

    /** `UserManager.register`: `false` and no change for a taken name;
        otherwise exactly one user added and `true`. */
    static method Register(db: Database, username: string, passwordHash: string) returns (ok: bool)
      requires db.Valid()
      modifies db
      ensures db.Valid()
      ensures ok <==> !NameTaken(old(db.users), username)
      ensures ok ==> db.users == AddUser(old(db.users), username, passwordHash)
      ensures !ok ==> db.users == old(db.users)
      ensures db.videos == old(db.videos)
    {
      var existing := UserIndexByName(db.users, username);
      if existing.Some? {
        return false;
      }
      var users := AddUser(db.users, username, passwordHash);
      OwnersExistAfterAddUser(db.users, db.videos, users[|db.users|]);
      assert users == db.users + [users[|db.users|]];
      db.users := users;
      return true;
    }

    /** `UserManager.login`: the first user with that name is looked up and
        its stored hash checked against the password. While names are
        unique, that is: some user has the name and the check passes. The
        records are only read. */
    static function Login(users: seq<User>, username: string, password: string,
                          checkPassword: (string, string) -> bool): (ok: bool)
      ensures ok ==> exists k :: 0 <= k < |users| && users[k].username == username
                                 && checkPassword(users[k].passwordHash, password)
      ensures UsernamesUnique(users) ==>
                (ok <==> exists k :: 0 <= k < |users| && users[k].username == username
                                     && checkPassword(users[k].passwordHash, password))
    {
      match UserIndexByName(users, username)
      case None => false
      case Some(k) => checkPassword(users[k].passwordHash, password)
    }

    /** `UserManager.edit_profile` for the logged-in user with key `id`: the
        name and description are always set; the picture only for a file
        with an allowed extension. The name is not checked against the other
        users, so the commit is refused by the unique constraint when another
        user has it, and then nothing is stored. Nothing else changes. */
    static method EditProfile(db: Database, id: nat, username: string, description: string,
                              picture: Option<Upload>) returns (committed: bool)
      requires db.Valid() && UserIndex(db.users, id).Some?
      modifies db
      ensures db.Valid()
      ensures committed <==> NameFreeFor(old(db.users), id, username)
      ensures var k := UserIndex(old(db.users), id).value;
        committed ==> db.users == old(db.users)[k := Profiled(old(db.users)[k], username, description, picture)]
      ensures !committed ==> db.users == old(db.users)
      ensures db.videos == old(db.videos)
    {
      var k := UserIndex(db.users, id).value;
      var u := Profiled(db.users[k], username, description, picture);
      NameFreeForAt(db.users, k, username);
      committed := NameFreeFor(db.users, id, username);
      if committed {
        ConsistentAfterUserUpdate(db.users, db.videos, k, u);
        db.users := db.users[k := u];
      }
    }
  }

  /** A user who has just registered can log in with the password whose
      hash was stored. */
  lemma LoginAfterRegister(users: seq<User>, username: string, passwordHash: string, password: string,
                           checkPassword: (string, string) -> bool)
    requires UserIdsAscending(users) && UsernamesUnique(users) && !NameTaken(users, username)
    requires checkPassword(passwordHash, password)
    ensures UserManager.Login(AddUser(users, username, passwordHash), username, password, checkPassword)
  {
    var r := AddUser(users, username, passwordHash);
    assert r[|users|].username == username && r[|users|].passwordHash == passwordHash;
  }

  class VideoManager {

    /** `VideoManager.upload_video`: `false` and nothing added when the
        regular expression finds no id; otherwise one video with that id,
        the owner given and both timestamps at `now`, and `true`. */
    static method UploadVideo(db: Database, title: string, description: string, url: string,
                              userId: nat, now: int) returns (ok: bool)
      requires db.Valid() && HasUser(db.users, userId)
      modifies db
      ensures db.Valid()
      ensures ok <==> RegexExtractor.GetVideoId(url).Some?
      ensures ok ==>
        db.videos == AddVideo(old(db.videos), title, description, url, RegexExtractor.GetVideoId(url).value, userId, now)
      ensures !ok ==> db.videos == old(db.videos)
      ensures db.users == old(db.users)
    {
      var videoId := RegexExtractor.GetVideoId(url);
      if videoId.None? || videoId.value == "" {
        return false;
      }
      var videos := AddVideo(db.videos, title, description, url, videoId.value, userId, now);
      OwnersExistAfterAddVideo(db.users, db.videos, videos[|db.videos|]);
      assert videos == db.videos + [videos[|db.videos|]];
      db.videos := videos;
      return true;
    }

    /** `VideoManager.delete_video`: for a key that exists, exactly that
        video is removed and the result is `true`; for a missing key the
        result is `false` and nothing changes. */
    static method DeleteVideo(db: Database, id: nat) returns (ok: bool)
      requires db.Valid()
      modifies db
      ensures db.Valid()
      ensures ok <==> exists k :: 0 <= k < |old(db.videos)| && old(db.videos)[k].id == id
      ensures forall v :: v in db.videos <==> v in old(db.videos) && v.id != id
      ensures !ok ==> db.videos == old(db.videos)
      ensures db.users == old(db.users)
    {
      var found := VideoIndex(db.videos, id);
      if found.None? {
        return false;
      }
      var videos := RemoveVideoAt(db.videos, found.value);
      OwnersExistAfterFewerVideos(db.users, db.videos, videos);
      db.videos := videos;
      return true;
    }
  }
}
