/**
 * The video-id extraction of the main application (app.py): the id is the
 * text after the first `v=` of the URL, up to the next `&` or to the end,
 * and the player URL is built from it when it is not empty.
 */
module FindExtractor {
  import opened Wrappers
  import opened Strings

  /** The player prefix put before the id, by this builder and by the one
      of app2.py. */
  const EmbedPrefix := "https://www.youtube.com/embed/"

  /** `i` is where the first `pat` of `s` starts. */
  ghost predicate FirstAt(s: string, pat: string, i: nat) {
    OccursAt(s, pat, i) && forall j: nat :: j < i ==> !OccursAt(s, pat, j)
  }

  /** `id` stands in `s` from `start` and runs up to the next `&` or to the end. */
  predicate RunsToAmpersand(s: string, start: nat, id: string) {
    && start + |id| <= |s|
    && s[start..start + |id|] == id
    && '&' !in id
    && (start + |id| == |s| || s[start + |id|] == '&')
  }

  /** What app.py takes after a `v=` at `from`: up to the next `&`, or to
      the end when no `&` follows. */
  function UpToAmpersand(s: string, from: nat): (id: string)
    requires from <= |s|
    ensures RunsToAmpersand(s, from, id)
  {
    var end := Find(s, "&", from);
    FindChar(s, '&', from);
    if end == -1 then
      assert s[from..from + |s[from..]|] == s[from..];
      assert forall k :: 0 <= k < |s[from..]| ==> s[from..][k] == s[from + k];
      s[from..]
    else
      assert forall k :: 0 <= k < |s[from..end]| ==> s[from..end][k] == s[from + k];
      s[from..end]
  }

  /** app.py `get_video_id`: `None` exactly when `v=` does not occur; otherwise
      the text after the first `v=`, up to the first `&` after it or to the end. */
  function GetVideoId(url: string): (r: Option<string>)
    ensures r.None? <==> Absent(url, "v=")
    ensures r.Some? ==> exists i: nat :: FirstAt(url, "v=", i) && RunsToAmpersand(url, i + 2, r.value)
  {
    var start := Find(url, "v=", 0);
    if start == -1 then None
    else
      assert FirstAt(url, "v=", start);
      Some(UpToAmpersand(url, start + 2))
  }

  /** Only one text starts at a given place and runs up to the next `&`. */
  lemma RunsToAmpersandUnique(s: string, start: nat, a: string, b: string)
    requires RunsToAmpersand(s, start, a) && RunsToAmpersand(s, start, b)
    ensures a == b
  {
  }

  /** No `v=` can start inside `p + "v="` before the `v=` that ends it. */
  lemma FirstAtAfterPrefix(p: string, tail: string)
    requires Absent(p, "v=")
    ensures FirstAt(p + "v=" + tail, "v=", |p|)
  {
    var url := p + "v=" + tail;
    assert url[|p|..|p| + 2] == "v=";
    forall j: nat | j < |p|
      ensures !OccursAt(url, "v=", j)
    {
      if j + 2 <= |p| {
        assert url[j..j + 2] == p[j..j + 2];
        assert !OccursAt(p, "v=", j);
      } else {
        assert url[j + 1] == 'v';
        assert "v="[1] == '=';
      }
    }
  }

  /** Round trip: an id put after the first `v=` and ended by `&` (or by the
      end of the URL) is the id extracted. */
  lemma {:induction false} RoundTrip(p: string, id: string, rest: string)
    requires Absent(p, "v=")
    requires '&' !in id
    requires rest == [] || rest[0] == '&'
    ensures GetVideoId(p + "v=" + id + rest) == Some(id)
  {
    var url := p + "v=" + id + rest;
    assert url == p + "v=" + (id + rest);
    FirstAtAfterPrefix(p, id + rest);
    assert !Absent(url, "v=");
    var r := GetVideoId(url);
    var i: nat :| FirstAt(url, "v=", i) && RunsToAmpersand(url, i + 2, r.value);
    assert i == |p|;
    assert url[|p| + 2..|p| + 2 + |id|] == id;
    assert RunsToAmpersand(url, |p| + 2, id);
    RunsToAmpersandUnique(url, |p| + 2, r.value, id);
  }

  /** A URL without any `v=` has no id, whatever its shape (short URLs too). */
  lemma {:induction false} NoVEqualsNoId(url: string)
    requires 'v' !in url || '=' !in url
    ensures GetVideoId(url) == None
  {
    forall i: nat
      ensures !OccursAt(url, "v=", i)
    {
      if i + 2 <= |url| {
        assert url[i..i + 2][0] == url[i] && url[i..i + 2][1] == url[i + 1];
      }
    }
  }

  /** app.py `embed_youtube_url`: the player URL of the extracted id, or `None`
      when the id is `None` or empty. */
  function EmbedYoutubeUrl(url: string): (r: Option<string>)
    ensures r.Some? <==> GetVideoId(url).Some? && GetVideoId(url).value != ""
    ensures r.Some? ==> r.value == EmbedPrefix + GetVideoId(url).value
  {
    var id := GetVideoId(url);
    if id.Some? && id.value != "" then Some(EmbedPrefix + id.value) else None
  }

  /** The player URL of a well-formed watch URL is built from its id; a URL
      whose first `v=` carries nothing has none. */
  lemma {:induction false} EmbedOfWatchUrl(p: string, id: string, rest: string)
    requires Absent(p, "v=")
    requires '&' !in id
    requires rest == [] || rest[0] == '&'
    ensures EmbedYoutubeUrl(p + "v=" + id + rest) ==
              if id == "" then None else Some(EmbedPrefix + id)
  {
    RoundTrip(p, id, rest);
  }

  /** The worked example of a watch URL with a time parameter. */
  lemma EmbedExample()
    ensures GetVideoId("https://youtube.com/watch?v=abc123&t=5s") == Some("abc123")
    ensures EmbedYoutubeUrl("https://youtube.com/watch?v=abc123&t=5s") ==
              Some(EmbedPrefix + "abc123")
  {
    var p := "https://youtube.com/watch?";
    assert "https://youtube.com/watch?v=abc123&t=5s" == p + "v=" + "abc123" + "&t=5s";
    assert 'v' !in p;
    NoVEqualsNoId(p);
    RoundTrip(p, "abc123", "&t=5s");
  }
}
