/**
 * The embed-URL builder of the small prototype (app2.py): the id is the last
 * piece of the URL split on `=`, and it is framed by the player prefix and a
 * fixed share suffix. It never fails.
 */
module SplitEmbed {
  import opened Strings
  import FindExtractor

  /** The share token of the suffix app2.py appends to every player URL. */
  const ShareToken := "RSU935ew-UDTDonW"

  /** The suffix itself, `?si=RSU935ew-UDTDonW`. */
  const ShareSuffix := "?si=" + ShareToken

  /** `youtube_url.split("=")[-1]`: the text after the last `=`, or the whole
      input when it has no `=`; it never holds a `=`. */
  function VideoIdOf(url: string): (id: string)
    ensures IsTextAfterLast(url, '=', id)
    ensures '=' !in id
  {
    var parts := Split(url, '=');
    SplitLast(url, '=');
    parts[|parts| - 1]
  }

  /** app2.py `embed_youtube_url`: defined for every string; the player
      prefix, then the text after the last `=` of the input, then the share
      suffix. */
  function EmbedYoutubeUrl(url: string): (r: string)
    ensures |r| >= |FindExtractor.EmbedPrefix| + |ShareSuffix|
    ensures r[..|FindExtractor.EmbedPrefix|] == FindExtractor.EmbedPrefix
    ensures r[|r| - |ShareSuffix|..] == ShareSuffix
    ensures IsTextAfterLast(url, '=', r[|FindExtractor.EmbedPrefix|..|r| - |ShareSuffix|])
  {
    var id := VideoIdOf(url);
    var r := FindExtractor.EmbedPrefix + id + ShareSuffix;
    assert r[|FindExtractor.EmbedPrefix|..|r| - |ShareSuffix|] == id;
    r
  }

  /** Round trip: whatever precedes the last `=`, an id without `=` after it
      is the id used. */
  lemma RoundTrip(p: string, id: string)
    requires '=' !in id
    ensures VideoIdOf(p + "=" + id) == id
    ensures EmbedYoutubeUrl(p + "=" + id) == FindExtractor.EmbedPrefix + id + ShareSuffix
  {
    TextAfterLastOfAppend(p, '=', id);
    TextAfterLastUnique(p + "=" + id, '=', VideoIdOf(p + "=" + id), id);
  }

  /** Without any `=`, the whole input is taken as the id (a `youtu.be` URL,
      for one, ends up inside the player URL as it is). */
  lemma WholeInputWithoutEquals(url: string)
    requires '=' !in url
    ensures VideoIdOf(url) == url
  {
    assert IsTextAfterLast(url, '=', url) by {
      assert url[|url| - |url|..] == url;
    }
    TextAfterLastUnique(url, '=', VideoIdOf(url), url);
  }

  /** Feeding a player URL back in does not give its id back: the share
      suffix holds a `=` and what follows it is taken instead. */
  lemma ReEmbedTakesShareToken(url: string)
    ensures VideoIdOf(EmbedYoutubeUrl(url)) == ShareToken
  {
    var id := VideoIdOf(url);
    assert EmbedYoutubeUrl(url) == (FindExtractor.EmbedPrefix + id + "?si") + "=" + ShareToken;
    RoundTrip(FindExtractor.EmbedPrefix + id + "?si", ShareToken);
  }
}
