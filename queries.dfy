/**
 * The read-only queries behind the listing pages: the front page in key
 * order (app.py `index`), the substring search (app.py `search`) and one
 * user's videos newest first (`mis_videos`, the same query in app.py and
 * app_poo.py). Each takes the `video` table as it is stored, in key order.
 */
module Queries {
  import opened Wrappers
  import opened Strings
  import opened Catalog

  predicate VideoIdsDescending(s: seq<Video>) {
    forall i, j :: 0 <= i < j < |s| ==> s[i].id > s[j].id
  }

  /** The rows of `s` that satisfy `p`, in their order: a `WHERE` clause. */
  function Filter(s: seq<Video>, p: Video -> bool): (r: seq<Video>)
    ensures forall v :: v in r <==> v in s && p(v)
    ensures |r| <= |s|
  {
    if s == [] then []
    else
      assert s == [s[0]] + s[1..];
      if p(s[0]) then [s[0]] + Filter(s[1..], p) else Filter(s[1..], p)
  }

  /** A first row with a smaller key than all the others keeps the keys in
      order. */
  lemma AscendingCons(v: Video, t: seq<Video>)
    requires VideoIdsAscending(t)
    requires forall w :: w in t ==> v.id < w.id
    ensures VideoIdsAscending([v] + t)
  {
    assert forall j :: 0 < j <= |t| ==> ([v] + t)[j] == t[j - 1];
  }

  /** Filtering keeps the table in key order. */
  lemma {:induction false} FilterAscending(s: seq<Video>, p: Video -> bool)
    requires VideoIdsAscending(s)
    ensures VideoIdsAscending(Filter(s, p))
  {
    if s != [] {
      assert s == [s[0]] + s[1..];
      var rest := Filter(s[1..], p);
      FilterAscending(s[1..], p);
      forall w | w in rest
        ensures s[0].id < w.id
      {
        var m :| 0 <= m < |s[1..]| && s[1..][m] == w;
        assert s[m + 1] == w;
      }
      if p(s[0]) {
        AscendingCons(s[0], rest);
      }
    }
  }

  /** Every row kept, the table comes back whole. */
  lemma {:induction false} FilterKeepsAll(s: seq<Video>, p: Video -> bool)
    requires forall v :: v in s ==> p(v)
    ensures Filter(s, p) == s
  {
    if s != [] {
      assert s == [s[0]] + s[1..];
      FilterKeepsAll(s[1..], p);
    }
  }

  /** The table in the opposite order: the same rows, and a table in
      ascending key order comes out in descending key order. */
  function Reverse(s: seq<Video>): (r: seq<Video>)
    ensures |r| == |s|
    ensures forall v :: v in r <==> v in s
    ensures VideoIdsAscending(s) ==> VideoIdsDescending(r)
  {
    var r := seq(|s|, k requires 0 <= k < |s| => s[|s| - 1 - k]);
    assert forall k :: 0 <= k < |s| ==> s[k] == r[|s| - 1 - k];
    r
  }

  /** app.py `index`: with `orden` missing it is `"desc"`; every video is
      listed, in ascending key order exactly when `orden` is `"asc"` and in
      descending key order for any other value. */
  function Index(videos: seq<Video>, orden: Option<string>): (r: seq<Video>)
    ensures |r| == |videos|
    ensures forall v :: v in r <==> v in videos
    ensures VideoIdsAscending(videos) && orden == Some("asc") ==> VideoIdsAscending(r)
    ensures VideoIdsAscending(videos) && orden != Some("asc") ==> VideoIdsDescending(r)
  {
    var o := if orden.Some? then orden.value else "desc";
    if o == "asc" then videos else Reverse(videos)
  }

  /** The search condition: the query occurs in the title or in the
      description. */
  predicate Matches(v: Video, query: string) {
    Contains(v.title, query) || Contains(v.description, query)
  }

  /** app.py `search`: exactly the videos whose title or description holds
      the query, in key order. */
  function Search(videos: seq<Video>, query: string): (r: seq<Video>)
    ensures forall v :: v in r <==> v in videos && Matches(v, query)
    ensures VideoIdsAscending(videos) ==> VideoIdsAscending(r)
  {
    var r := Filter(videos, (v: Video) => Matches(v, query));
    if !VideoIdsAscending(videos) then r
    else
      FilterAscending(videos, (v: Video) => Matches(v, query));
      r
  }

  /** The empty query is in every text, so it finds the whole table. */
  lemma SearchEmptyQuery(videos: seq<Video>)
    ensures Search(videos, "") == videos
  {
    forall v | v in videos
      ensures Matches(v, "")
    {
      assert OccursAt(v.title, "", 0);
    }
    FilterKeepsAll(videos, (v: Video) => Matches(v, ""));
  }

  /** Dates never increase along the sequence. */
  predicate NewestFirst(s: seq<Video>) {
    forall i, j :: 0 <= i < j < |s| ==> s[i].createdAt >= s[j].createdAt
  }

  /** A first row at least as new as the next one keeps the list newest
      first. */
  lemma NewestFirstCons(v: Video, t: seq<Video>)
    requires NewestFirst(t)
    requires t == [] || v.createdAt >= t[0].createdAt
    ensures NewestFirst([v] + t)
  {
    assert forall j :: 0 < j <= |t| ==> ([v] + t)[j] == t[j - 1];
  }

  /** `v` put in place in a list that is newest first. */
  function InsertNewestFirst(v: Video, s: seq<Video>): (r: seq<Video>)
    requires NewestFirst(s)
    ensures NewestFirst(r)
    ensures multiset(r) == multiset(s) + multiset{v}
    ensures r[0] == v || r[0] == s[0]
  {
    if s == [] || v.createdAt >= s[0].createdAt then
      NewestFirstCons(v, s);
      [v] + s
    else
      assert s == [s[0]] + s[1..];
      var t := InsertNewestFirst(v, s[1..]);
      NewestFirstCons(s[0], t);
      [s[0]] + t
  }

  /** `ORDER BY fecha_creacion DESC`: the same rows, newest first. */
  function SortNewestFirst(s: seq<Video>): (r: seq<Video>)
    ensures NewestFirst(r)
    ensures multiset(r) == multiset(s)
  {
    if s == [] then []
    else
      assert s == [s[0]] + s[1..];
      InsertNewestFirst(s[0], SortNewestFirst(s[1..]))
  }

  /** The rows owned by a user, in key order. */
  function OwnedBy(videos: seq<Video>, userId: nat): (r: seq<Video>)
    ensures forall v :: v in r <==> v in videos && v.userId == userId
  {
    Filter(videos, (v: Video) => v.userId == userId)
  }

  /** `mis_videos`: the current user's videos and no others, each as often
      as it is stored, newest first. */
  function MisVideos(videos: seq<Video>, userId: nat): (r: seq<Video>)
    ensures forall v :: v in r <==> v in videos && v.userId == userId
    ensures multiset(r) == multiset(OwnedBy(videos, userId))
    ensures NewestFirst(r)
  {
    var owned := OwnedBy(videos, userId);
    var r := SortNewestFirst(owned);
    assert forall v :: v in r <==> v in multiset(owned);
    r
  }
}
