/**
 * The video-id extraction of the object-oriented variant (app_poo.py), a
 * regular-expression search. The search takes the leftmost position at
 * which `v=` or `/` is followed by eleven characters of the id alphabet
 * (digits, letters, `_` and `-`), and the id is those eleven characters.
 */
module RegexExtractor {
  import opened Wrappers
  import FindExtractor

  /** The length of every id the pattern captures. */
  const IdLength := 11

  /** The character class `[0-9A-Za-z_-]`. */
  predicate IsIdChar(c: char) {
    ('0' <= c <= '9') || ('A' <= c <= 'Z') || ('a' <= c <= 'z') || c == '_' || c == '-'
  }

  /** Eleven characters of the class, and nothing else. */
  predicate IsVideoId(id: string) {
    |id| == IdLength && forall k :: 0 <= k < |id| ==> IsIdChar(id[k])
  }

  /** Eleven characters of the class stand in `s` from index `i`. */
  predicate IdRunAt(s: string, i: nat) {
    i + IdLength <= |s| && forall k :: i <= k < i + IdLength ==> IsIdChar(s[k])
  }

  /** What the pattern captures when the search is anchored at `i`. The first
      alternative `v=` is tried before `/`; as the two start with different
      characters, at most one of them can apply at a given index. The group
      is exactly eleven characters, so further id characters are ignored. */
  function MatchAt(s: string, i: nat): (r: Option<string>)
    ensures r.Some? ==> IsVideoId(r.value)
  {
    if i + 2 <= |s| && s[i] == 'v' && s[i + 1] == '=' && IdRunAt(s, i + 2) then
      Some(s[i + 2..i + 2 + IdLength])
    else if i < |s| && s[i] == '/' && IdRunAt(s, i + 1) then
      Some(s[i + 1..i + 1 + IdLength])
    else
      None
  }

  /** The leftmost index from `from` on at which the pattern matches. */
  function FirstMatch(s: string, from: nat): (r: Option<nat>)
    decreases |s| - from
    ensures r.Some? ==> from <= r.value < |s| && MatchAt(s, r.value).Some?
    ensures r.Some? ==> forall j: nat :: from <= j < r.value ==> MatchAt(s, j).None?
    ensures r.None? ==> forall j: nat :: from <= j ==> MatchAt(s, j).None?
  {
    if from >= |s| then None
    else if MatchAt(s, from).Some? then Some(from)
    else FirstMatch(s, from + 1)
  }

  /** app_poo.py `get_video_id`: `None` exactly when the pattern matches
      nowhere; otherwise the eleven id characters captured at the leftmost
      index where it matches. */
  function GetVideoId(url: string): (r: Option<string>)
    ensures r.None? <==> forall i: nat :: MatchAt(url, i).None?
    ensures r.Some? ==> IsVideoId(r.value)
    ensures r.Some? ==> exists i: nat :: MatchAt(url, i) == r && forall j: nat :: j < i ==> MatchAt(url, j).None?
  {
    match FirstMatch(url, 0)
    case None => None
    case Some(i) => MatchAt(url, i)
  }

  /** Conversely, a match with no match to its left is the id returned. */
  lemma LeftmostMatchIsResult(url: string, i: nat)
    requires MatchAt(url, i).Some?
    requires forall j: nat :: j < i ==> MatchAt(url, j).None?
    ensures GetVideoId(url) == MatchAt(url, i)
  {
    var j: nat :| MatchAt(url, j) == GetVideoId(url) && forall k: nat :: k < j ==> MatchAt(url, k).None?;
    if j < i {
      assert MatchAt(url, j).None?;
    }
  }

  /** A URL that is `/` followed by an id and anything at all gives that id:
      characters after the eleventh are ignored. */
  lemma SlashThenId(id: string, tail: string)
    requires IsVideoId(id)
    ensures GetVideoId("/" + id + tail) == Some(id)
  {
    var url := "/" + id + tail;
    assert forall k :: 1 <= k < 1 + IdLength ==> url[k] == id[k - 1];
    assert url[1..1 + IdLength] == id;
    LeftmostMatchIsResult(url, 0);
  }

  /** A shortened `youtu.be` URL with an id gives that id. */
  lemma ShortUrl(id: string)
    requires IsVideoId(id)
    ensures GetVideoId("https://youtu.be/" + id) == Some(id)
  {
    var url := "https://youtu.be/" + id;
    assert forall k :: 17 <= k < 17 + IdLength ==> url[k] == id[k - 17];
    assert url[17..17 + IdLength] == id;
    assert MatchAt(url, 16) == Some(id);
    forall j: nat | j < 16
      ensures MatchAt(url, j).None?
    {
      if j == 6 {
        assert url[7] == '/';
      } else if j == 7 {
        assert url[13] == '.';
      } else {
        assert url[j] != 'v' && url[j] != '/';
      }
    }
    LeftmostMatchIsResult(url, 16);
  }

  /** `v=` followed by an id and anything at all gives that id. */
  lemma VEqualsThenId(id: string, tail: string)
    requires IsVideoId(id)
    ensures GetVideoId("v=" + id + tail) == Some(id)
  {
    var url := "v=" + id + tail;
    assert forall k :: 2 <= k < 2 + IdLength ==> url[k] == id[k - 2];
    assert url[2..2 + IdLength] == id;
    LeftmostMatchIsResult(url, 0);
  }

  /** The two extractors of the application are different functions. Past
      the eleventh id character the app.py extractor keeps going up to the
      next `&`, this one stops. */
  lemma VariantsDisagreeOnLongId(id: string)
    requires IsVideoId(id)
    ensures FindExtractor.GetVideoId("v=" + id + "XY") == Some(id + "XY")
    ensures GetVideoId("v=" + id + "XY") == Some(id)
  {
    VEqualsThenId(id, "XY");
    assert '&' !in id + "XY" by {
      assert forall k :: 0 <= k < |id| ==> IsIdChar((id + "XY")[k]);
    }
    FindExtractor.RoundTrip("", id + "XY", "");
    assert "" + "v=" + (id + "XY") + "" == "v=" + id + "XY";
  }

  /** The app.py extractor ignores `/`, this one accepts an id after it. */
  lemma VariantsDisagreeOnSlash(id: string)
    requires IsVideoId(id)
    ensures FindExtractor.GetVideoId("/" + id) == None
    ensures GetVideoId("/" + id) == Some(id)
  {
    SlashThenId(id, "");
    assert "/" + id + "" == "/" + id;
    assert '=' !in "/" + id by {
      assert forall k :: 1 <= k < |"/" + id| ==> ("/" + id)[k] == id[k - 1];
    }
    FindExtractor.NoVEqualsNoId("/" + id);
  }

  /** An id shorter than eleven characters is accepted by the app.py
      extractor and refused by this one. */
  lemma VariantsDisagreeOnShortId()
    ensures FindExtractor.GetVideoId("v=abc") == Some("abc")
    ensures GetVideoId("v=abc") == None
  {
    FindExtractor.RoundTrip("", "abc", "");
    assert "" + "v=" + "abc" + "" == "v=abc";
  }
}
