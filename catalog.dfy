/**
 * The two tables shared by app.py and app_poo.py, `user` and `video`, held in
 * memory in a `Database` object. A table is a sequence of records kept in
 * the order of their integer primary key, which is how SQLite stores a table
 * whose key is an `INTEGER PRIMARY KEY`. The pure table operations below are
 * what a `session.add`, `session.delete` or a field assignment followed by
 * `session.commit` does to a table.
 */
module Catalog {
  import opened Wrappers

  /** A row of `user`. `profile_picture`, `name` and `description` are
      nullable columns. */
  datatype User = User(
    id: nat,
    username: string,
    passwordHash: string,
    profilePicture: Option<string>,
    name: Option<string>,
    description: Option<string>)

  /** A row of `video`. The two timestamps are taken from a clock; here they
      are plain integers. */
  datatype Video = Video(
    id: nat,
    title: string,
    description: string,
    youtubeUrl: string,
    videoId: string,
    createdAt: int,
    updatedAt: int,
    userId: nat)

  /** The first index from `from` on whose element satisfies `p`: what a
      `query.filter_by(...).first()` or a `query.get(id)` finds. */
  function FirstIndex<T>(s: seq<T>, p: T -> bool, from: nat): (r: Option<nat>)
    decreases |s| - from
    ensures r.Some? ==> from <= r.value < |s| && p(s[r.value])
    ensures r.Some? ==> forall k :: from <= k < r.value ==> !p(s[k])
    ensures r.None? ==> forall k :: from <= k < |s| ==> !p(s[k])
  {
    if from >= |s| then None
    else if p(s[from]) then Some(from)
    else FirstIndex(s, p, from + 1)
  }

  /** `Video.query.get(id)`: where the video with that key stands, if any. */
  function VideoIndex(videos: seq<Video>, id: nat): (r: Option<nat>)
    ensures r.Some? ==> r.value < |videos| && videos[r.value].id == id
    ensures r.None? <==> forall k :: 0 <= k < |videos| ==> videos[k].id != id
  {
    FirstIndex(videos, (v: Video) => v.id == id, 0)
  }

  /** `User.query.get(id)`: where the user with that key stands, if any. */
  function UserIndex(users: seq<User>, id: nat): (r: Option<nat>)
    ensures r.Some? ==> r.value < |users| && users[r.value].id == id
    ensures r.None? <==> forall k :: 0 <= k < |users| ==> users[k].id != id
  {
    FirstIndex(users, (u: User) => u.id == id, 0)
  }

  /** `User.query.filter_by(username=username).first()`: the first user with
      that name, if any. */
  function UserIndexByName(users: seq<User>, username: string): (r: Option<nat>)
    ensures r.Some? ==> r.value < |users| && users[r.value].username == username
    ensures r.Some? ==> forall k :: 0 <= k < r.value ==> users[k].username != username
    ensures r.None? <==> !NameTaken(users, username)
  {
    FirstIndex(users, (u: User) => u.username == username, 0)
  }

  predicate NameTaken(users: seq<User>, username: string) {
    exists k :: 0 <= k < |users| && users[k].username == username
  }

  predicate HasUser(users: seq<User>, id: nat) {
    exists k :: 0 <= k < |users| && users[k].id == id
  }

  predicate UserIdsAscending(users: seq<User>) {
    forall i, j :: 0 <= i < j < |users| ==> users[i].id < users[j].id
  }

  predicate VideoIdsAscending(videos: seq<Video>) {
    forall i, j :: 0 <= i < j < |videos| ==> videos[i].id < videos[j].id
  }

  /** The `unique=True` constraint of `user.username`. */
  predicate UsernamesUnique(users: seq<User>) {
    forall i, j :: 0 <= i < j < |users| ==> users[i].username != users[j].username
  }

  /** The foreign key `video.user_id` → `user.id`. SQLite does not enforce
      it here; the store operations keep it because a video is only ever
      given the key of an existing user and no user is ever deleted. */
  predicate OwnersExist(users: seq<User>, videos: seq<Video>) {
    forall k :: 0 <= k < |videos| ==> HasUser(users, videos[k].userId)
  }

  /** The invariant the store operations keep: keys in storage order,
      unique names and an existing owner for every video. */
  predicate Consistent(users: seq<User>, videos: seq<Video>) {
    && UserIdsAscending(users)
    && VideoIdsAscending(videos)
    && UsernamesUnique(users)
    && OwnersExist(users, videos)
  }

  /** The key SQLite gives a new `user` row: one more than the largest key
      in the table, or 1 for an empty table. */
  function NextUserId(users: seq<User>): (id: nat)
    requires UserIdsAscending(users)
    ensures id >= 1
    ensures forall k :: 0 <= k < |users| ==> users[k].id < id
    ensures users == [] ==> id == 1
    ensures users == [] || exists k :: 0 <= k < |users| && users[k].id + 1 == id
  {
    if users == [] then 1 else users[|users| - 1].id + 1
  }

  /** The key SQLite gives a new `video` row, by the same rule. */
  function NextVideoId(videos: seq<Video>): (id: nat)
    requires VideoIdsAscending(videos)
    ensures id >= 1
    ensures forall k :: 0 <= k < |videos| ==> videos[k].id < id
    ensures videos == [] ==> id == 1
    ensures videos == [] || exists k :: 0 <= k < |videos| && videos[k].id + 1 == id
  {
    if videos == [] then 1 else videos[|videos| - 1].id + 1
  }

  /** A committed `User(username=...)` with its password hash set: the new
      row gets the next key and no picture, name or description. Adding a
      name that is free keeps the keys in order and the names unique. */
  function AddUser(users: seq<User>, username: string, passwordHash: string): (r: seq<User>)
    requires UserIdsAscending(users) && UsernamesUnique(users)
    requires !NameTaken(users, username)
    ensures UserIdsAscending(r) && UsernamesUnique(r) && NameTaken(r, username)
    ensures |r| == |users| + 1 && r[..|users|] == users
    ensures r[|users|] == User(NextUserId(users), username, passwordHash, None, None, None)
  {
    var r := users + [User(NextUserId(users), username, passwordHash, None, None, None)];
    assert r[|users|].username == username;
    r
  }

  /** A committed `Video(...)`: the new row gets the next key, and both
      timestamps are the time of the commit. */
  function AddVideo(videos: seq<Video>, title: string, description: string, youtubeUrl: string,
                    videoId: string, userId: nat, now: int): (r: seq<Video>)
    requires VideoIdsAscending(videos)
    ensures VideoIdsAscending(r)
    ensures |r| == |videos| + 1 && r[..|videos|] == videos
    ensures r[|videos|] == Video(NextVideoId(videos), title, description, youtubeUrl, videoId, now, now, userId)
  {
    videos + [Video(NextVideoId(videos), title, description, youtubeUrl, videoId, now, now, userId)]
  }

  /** A committed `session.delete(video)`: exactly the row with that key
      leaves the table, the others keep their order. */
  function RemoveVideoAt(videos: seq<Video>, k: nat): (r: seq<Video>)
    requires VideoIdsAscending(videos) && k < |videos|
    ensures VideoIdsAscending(r)
    ensures |r| == |videos| - 1
    ensures forall v :: v in r <==> v in videos && v.id != videos[k].id
  {
    var r := videos[..k] + videos[k + 1..];
    assert forall i :: 0 <= i < |r| ==> r[i] == videos[if i < k then i else i + 1];
    forall v | v in videos && v.id != videos[k].id
      ensures v in r
    {
      var i :| 0 <= i < |videos| && videos[i] == v;
      assert r[if i < k then i else i - 1] == v;
    }
    r
  }

  /** Adding a user keeps every video's owner. */
  lemma OwnersExistAfterAddUser(users: seq<User>, videos: seq<Video>, u: User)
    requires OwnersExist(users, videos)
    ensures OwnersExist(users + [u], videos)
  {
    forall k | 0 <= k < |videos|
      ensures HasUser(users + [u], videos[k].userId)
    {
      var j :| 0 <= j < |users| && users[j].id == videos[k].userId;
      assert (users + [u])[j] == users[j];
    }
  }

  /** A new video of an existing user keeps every video's owner. */
  lemma OwnersExistAfterAddVideo(users: seq<User>, videos: seq<Video>, v: Video)
    requires OwnersExist(users, videos) && HasUser(users, v.userId)
    ensures OwnersExist(users, videos + [v])
  {
    assert forall k :: 0 <= k < |videos| ==> (videos + [v])[k] == videos[k];
  }

  /** Keeping only some of the videos keeps every video's owner. */
  lemma OwnersExistAfterFewerVideos(users: seq<User>, videos: seq<Video>, videos': seq<Video>)
    requires OwnersExist(users, videos)
    requires forall v :: v in videos' ==> v in videos
    ensures OwnersExist(users, videos')
  {
    forall k | 0 <= k < |videos'|
      ensures HasUser(users, videos'[k].userId)
    {
      assert videos'[k] in videos;
      var j :| 0 <= j < |videos| && videos[j] == videos'[k];
    }
  }

  /** Changing users without changing their keys keeps every video's owner. */
  lemma OwnersExistAfterSameKeys(users: seq<User>, users': seq<User>, videos: seq<Video>)
    requires OwnersExist(users, videos)
    requires |users'| == |users| && forall k :: 0 <= k < |users| ==> users'[k].id == users[k].id
    ensures OwnersExist(users', videos)
  {
    forall k | 0 <= k < |videos|
      ensures HasUser(users', videos[k].userId)
    {
      var j :| 0 <= j < |users| && users[j].id == videos[k].userId;
      assert users'[j].id == videos[k].userId;
    }
  }

  /** A row changed in place, keeping its key, to a name no other row has
      leaves the tables consistent. */
  lemma ConsistentAfterUserUpdate(users: seq<User>, videos: seq<Video>, k: nat, u: User)
    requires Consistent(users, videos) && k < |users| && u.id == users[k].id
    requires forall j :: 0 <= j < |users| && j != k ==> users[j].username != u.username
    ensures Consistent(users[k := u], videos)
  {
    OwnersExistAfterSameKeys(users, users[k := u], videos);
  }

  /** The in-memory database: the `user` and the `video` tables. */
  class Database {
    var users: seq<User>
    var videos: seq<Video>

    predicate Valid()
      reads this
    {
      Consistent(users, videos)
    }

    /** `db.create_all()` on a fresh file: both tables empty. */
    constructor ()
      ensures Valid() && users == [] && videos == []
    {
      users := [];
      videos := [];
    }
  }
}
