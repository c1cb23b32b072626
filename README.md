# YouTube video catalogue — a Dafny model

This project models the logic inside a small Flask application in which users
register, log in and keep a catalogue of YouTube videos. The model covers:

- the two video-id extractors: the `find`/slice one of `app.py` and the
  regular-expression one of `app_poo.py`;
- the two embed-URL builders of `app.py` and `app2.py`;
- the profile-picture extension check `allowed_file`;
- the `user` and `video` tables, and what the routes and the manager
  classes do to them;
- the seconds-to-days converter of `ejercicio.py`.

The database is an object of class `Catalog.Database` that holds the two
tables as sequences. Each table is kept in primary-key order, as SQLite
stores it.

Route logic that changes the store becomes methods that modify the database
(`AppRoutes`, `PooManagers`). Each such method states its whole new state.
Each also keeps `Consistent`, the invariant the store operations keep, which says:

- keys are ascending;
- usernames are unique (the `unique=True` constraint);
- every video's owner exists.

Read-only queries (`Queries`) and string logic are functions. The Python
string operations they use (`find`, `in`, `split`, `rsplit`, `lower`) are
modelled in `Strings`.

Modules, one per source file or component:

| module | models |
|---|---|
| `Strings` | Python `str.find`, `in`, `split`, `join`, `rsplit(sep, 1)`, ASCII `lower` |
| `FindExtractor` | `app.py` `get_video_id`, `embed_youtube_url` |
| `RegexExtractor` | `app_poo.py` `get_video_id` (`re.search` of `(?:v=\|\/)([0-9A-Za-z_-]{11})`) |
| `SplitEmbed` | `app2.py` `embed_youtube_url` |
| `FileNames` | `allowed_file` (identical in `app.py` and `app_poo.py`) |
| `Seconds` | `ejercicio.py` `convertir_segundo` |
| `Catalog` | the `User` and `Video` models, their keys and the table operations |
| `Queries` | `index`, `search`, `mis_videos` |
| `AppRoutes` | `app.py` `upload_video`, `edit_video`, `delete_video`, `registro` |
| `PooManagers` | `app_poo.py` `UserManager`, `VideoManager` |

Notes on how the model reads the code:

- **Search with an empty query.** `search` with an empty query returns
  every video, because every text contains the empty string. The model
  follows the code: see `Queries.SearchEmptyQuery`.
- **Editing a video.** `edit_video` does not derive `video_id` again from
  the new URL. The update time moves only when a field actually changes:
  SQLAlchemy's `onupdate` fires only for an UPDATE, and no UPDATE is
  emitted when the assigned values equal the stored ones.
- **No owner checks.** `delete_video` (both variants) and `edit_video` do
  not check that the current user owns the video.
- **Editing a profile.** `UserManager.edit_profile` does not check the new
  username against the other users. The `unique=True` constraint then makes
  the commit fail, and nothing is stored. This is modelled as a `committed`
  result.
- **New keys.** A new row's key is one more than the largest key in the
  table, or 1 in an empty table. This is SQLite's rule for an
  `INTEGER PRIMARY KEY` without `AUTOINCREMENT`.
- **The `find` extractor.** It gives `Some("")` for a URL that ends in
  `v=`. The upload route refuses it (`if video_id:`), and so does
  `embed_youtube_url`. It ignores `youtu.be/ID` short URLs. The regular
  expression accepts them when at least eleven id characters follow the
  `/`, and then takes the first eleven (`RegexExtractor.SlashThenId`).

## Model

| member | source | states |
|---|---|---|
| Strings.Find | app.py:101-104 | `str.find`: -1 exactly when the pattern occurs nowhere from `start` on; otherwise an occurrence at the result with none between `start` and it |
| Strings.Contains | app.py:224-225 | `Column.contains` as a substring test: true exactly when the query occurs at some index |
| Strings.Split | app2.py:7 | `split("=")`: at least one piece, no piece holds the separator, one piece exactly when the separator is absent |
| Strings.JoinSplit | app2.py:7 | the pieces of `split` joined back with the separator give the input |
| Strings.SplitLast | app2.py:8 | the last piece, `parts[-1]`, is the text after the last separator, or the whole input when it has none |
| Strings.RSplitOnce | app.py:43 | `rsplit('.', 1)`: one piece (the input) when `.` is absent, else the text before and the text after the last `.`, which rebuild the input |
| Strings.Lower | app.py:43 | The result has the input's length, each ASCII capital becomes its small letter (code point plus 32), and every other character is unchanged, so no ASCII capital is left. |
| FindExtractor.UpToAmpersand | app.py:104-108 | the slice after `v=` runs up to the next `&`, or to the end when no `&` follows |
| FindExtractor.GetVideoId | app.py:100-110 | `None` exactly when `v=` does not occur; otherwise the text after the first `v=`, ended by the first `&` after it or by the end |
| FindExtractor.RoundTrip | app.py:101-108 | with no `v=` in `p`, no `&` in `id`, and `r` empty or starting with `&`, the id extracted from `p + "v=" + id + r` is `id` |
| FindExtractor.NoVEqualsNoId | app.py:101-110 | a URL lacking `v` or `=` (a `youtu.be` URL, say) has no id |
| FindExtractor.EmbedYoutubeUrl | app.py:115-120 | a player URL exactly when the extracted id is present and non-empty, and then it is the embed prefix followed by the id |
| FindExtractor.EmbedOfWatchUrl | app.py:116-120 | for a well-formed watch URL: `None` when its id is empty, else the embed prefix plus the id |
| FindExtractor.EmbedExample | app.py:115-120 | `https://youtube.com/watch?v=abc123&t=5s` gives the id `abc123` and the player URL of `abc123` |
| RegexExtractor.MatchAt | app_poo.py:133 | what the pattern captures anchored at one index is always 11 characters of `[0-9A-Za-z_-]`; the two alternatives start with different characters, so at most one applies at an index |
| RegexExtractor.FirstMatch | app_poo.py:133 | the leftmost index at which the pattern matches, and no match before it |
| RegexExtractor.GetVideoId | app_poo.py:132-134 | `None` exactly when the pattern matches at no index; otherwise an 11-character id captured at the leftmost matching index |
| RegexExtractor.LeftmostMatchIsResult | app_poo.py:133-134 | conversely, a match with no match to its left is the id returned |
| RegexExtractor.SlashThenId | app_poo.py:133 | `/` then an id then anything gives that id: characters after the eleventh are ignored |
| RegexExtractor.VEqualsThenId | app_poo.py:133 | `v=` then an id then anything gives that id |
| RegexExtractor.ShortUrl | app_poo.py:133 | `https://youtu.be/` followed by an 11-character id gives that id |
| RegexExtractor.VariantsDisagreeOnLongId | app_poo.py:132-134 | on `v=` + id + `XY` the `find` extractor keeps `XY`, the regular expression stops after 11 characters |
| RegexExtractor.VariantsDisagreeOnSlash | app_poo.py:132-134 | on `/` + id the `find` extractor finds nothing, the regular expression finds the id |
| RegexExtractor.VariantsDisagreeOnShortId | app_poo.py:132-134 | on `v=abc` the `find` extractor gives `abc`, the regular expression nothing |
| SplitEmbed.VideoIdOf | app2.py:7-8 | the id is the text after the last `=` (the whole input when there is none) and never holds `=` |
| SplitEmbed.EmbedYoutubeUrl | app2.py:6-10 | total: for every input, the embed prefix, then the text after the last `=`, then `?si=RSU935ew-UDTDonW` |
| SplitEmbed.RoundTrip | app2.py:7-9 | for any `p` and any `id` without `=`, `p + "=" + id` yields `id` and the player URL built from it |
| SplitEmbed.WholeInputWithoutEquals | app2.py:7-8 | an input without `=` is taken whole as the id |
| SplitEmbed.ReEmbedTakesShareToken | app2.py:7-9 | a player URL fed back in yields the share token, not the id |
| FileNames.AllowedFile | app.py:42-43 | accepted only with a `.`, and only when some `.` is followed by a text that lowers to an allowed extension |
| FileNames.AllowedFileIsExtensionCheck | app.py:43 | for `stem + "." + ext` with no `.` in `ext`: accepted exactly when `ext` lowered is `png`, `jpg`, `jpeg` or `gif`, whatever the stem |
| FileNames.AllowedFileIgnoresCase | app.py:43 | lowering the whole name first does not change the decision |
| FileNames.UpperCaseExtensionAllowed | app.py:43 | a `.JPG` name is accepted |
| FileNames.OnlyLastExtensionCounts | app.py:43 | `x.png.zip` is refused: only the last extension counts |
| FileNames.HiddenFileAllowed | app.py:43 | the name `.png` is accepted |
| Seconds.FloorDiv | ejercicio.py:19 | `//` by a positive divisor is the floor: `b*q <= a < b*q + b` |
| Seconds.FloorMod | ejercicio.py:20 | `%` by a positive divisor is in `[0, b)` and completes `a == b * (a // b) + r` |
| Seconds.Convert | ejercicio.py:18-24 | for every integer: days·86400 + hours·3600 + minutes·60 + seconds is the input, hours in [0,24), minutes and seconds in [0,60), days the floor of input/86400 |
| Seconds.ConvertUnique | ejercicio.py:19-24 | any breakdown in range that adds up to the input is the one computed |
| Seconds.ConvertNoDays | ejercicio.py:19 | no whole days exactly when the input is in [0, 86400) |
| Seconds.ConvertExamples | ejercicio.py:19-24 | 86400 is one day; -1 is day -1 at 23:59:59 |
| Seconds.NatToString | ejercicio.py:25 | `str` of a natural number: non-empty decimal digits without a leading zero |
| Seconds.IntToString | ejercicio.py:25 | `str` of an integer contains no space |
| Seconds.ParseIntToString | ejercicio.py:25 | reading back the written integer gives the integer |
| Seconds.SentenceInjective | ejercicio.py:25 | the sentence `": {d} dias,  {h} horas, {m} minutos,{s} segundos"` determines its four numbers |
| Seconds.ConvertirSegundo | ejercicio.py:18-25 | the sentence writes out, in the order days, hours, minutes, seconds, a breakdown in range that adds up to the input, which `ConvertUnique` shows is the one `Convert` computes |
| Seconds.ConvertirSegundoInjective | ejercicio.py:18-25 | two inputs with the same sentence are equal |
| Catalog.FirstIndex | app.py:287 | `filter_by(...).first()`: the first index whose row matches, none matching before it; `None` when no row matches |
| Catalog.VideoIndex | app.py:196 | `Video.query.get(id)`: an index holding that key, `None` exactly when no row has it |
| Catalog.UserIndex | app.py:322 | `User.query.get(id)`: an index holding that key, `None` exactly when no row has it |
| Catalog.UserIndexByName | app.py:305 | the first user with that name; `None` exactly when the name is not taken |
| Catalog.NextUserId | app.py:309-312 | a new user's key: 1 for an empty table, otherwise above every key and one more than the largest |
| Catalog.NextVideoId | app.py:149-157 | a new video's key: 1 for an empty table, otherwise above every key and one more than the largest |
| Catalog.AddUser | app.py:309-312 | a free name added keeps keys ascending and names unique; the old rows stay, the new one has the next key and no picture, name or description |
| Catalog.AddVideo | app.py:149-157 | the old rows stay, the new one has the next key and both timestamps at the commit time; keys stay ascending |
| Catalog.RemoveVideoAt | app.py:211-213 | exactly the row with that key leaves; keys stay ascending |
| Catalog.OwnersExistAfterAddUser | app.py:75 | adding a user keeps every video's owner |
| Catalog.OwnersExistAfterAddVideo | app.py:75 | a new video of an existing user keeps every video's owner |
| Catalog.OwnersExistAfterFewerVideos | app.py:75 | removing videos keeps every video's owner |
| Catalog.OwnersExistAfterSameKeys | app.py:75 | changing user rows without changing keys keeps every video's owner |
| Catalog.ConsistentAfterUserUpdate | app_poo.py:74-81 | a user row changed in place, keeping its key, to a name no other row has leaves the tables consistent |
| Catalog.Database.constructor | app.py:325-327 | `create_all` on a fresh file: both tables empty and consistent |
| Queries.Filter | app.py:224-225 | a `WHERE`: exactly the rows that satisfy the test |
| Queries.FilterAscending | app.py:224-225 | filtering keeps key order |
| Queries.FilterKeepsAll | app.py:224-225 | when every row passes, the whole table comes back |
| Queries.Reverse | app.py:132 | descending order: the same rows, and a table in ascending key order comes out in descending key order |
| Queries.Index | app.py:128-132 | every video listed once; ascending by key exactly when `orden` is `asc`, descending for any other value and for the default `desc` |
| Queries.Search | app.py:224-225 | exactly the videos whose title or description contains the query, in key order |
| Queries.SearchEmptyQuery | app.py:222-225 | the empty query returns the whole table |
| Queries.InsertNewestFirst | app.py:187 | one video put in place keeps the list newest first, with the same rows plus that one |
| Queries.SortNewestFirst | app.py:187 | `ORDER BY fecha_creacion DESC`: the same rows, newest first |
| Queries.OwnedBy | app.py:186 | `filter_by(user_id=...)`: exactly the user's videos |
| Queries.MisVideos | app.py:185-187 | exactly the current user's videos, each as often as stored, newest first |
| AppRoutes.UploadVideo | app.py:147-162 | a video is added exactly when the `find` id is non-empty, with that id, the current user as owner and the next key; otherwise nothing changes; users never change |
| AppRoutes.Edited | app.py:198-201 | title, description and URL take the new values; key, owner, creation time and stored id stay; the row is unchanged exactly when the three values equal the stored ones, and a changed row has its update time at `now` |
| AppRoutes.EditedTwice | app.py:198-201 | submitting the same edit twice changes nothing the second time, the update time included |
| AppRoutes.EditVideo | app.py:196-201 | only the chosen video changes, to `Edited` of it; other videos, their order and users stay |
| AppRoutes.DeleteVideo | app.py:211-213 | exactly the video with that key is removed; users stay |
| AppRoutes.Registro | app.py:305-312 | a taken name adds nobody; a free name adds exactly one user; names stay unique; videos stay |
| PooManagers.Profiled | app_poo.py:74-80 | name and description are always set; key, hash and display name stay; the picture changes only to an uploaded file with an allowed extension, and is set whenever one is given |
| PooManagers.NameFreeForAt | app_poo.py:73-81 | with distinct keys, "no other user has the name" means "no other row has it" |
| PooManagers.UserManager.Register | app_poo.py:50-60 | `false` and no change for a taken name; otherwise `true` and exactly one user added |
| PooManagers.UserManager.Login | app_poo.py:63-70 | `true` only for a stored user with that name whose hash passes the check; with unique names, exactly then; nothing is modified |
| PooManagers.LoginAfterRegister | app_poo.py:50-70 | a user who has just registered can log in with the password whose hash was stored |
| PooManagers.UserManager.EditProfile | app_poo.py:73-81 | committed exactly when no other user has the new name; then only that user's row changes, to `Profiled` of it; otherwise nothing changes |
| PooManagers.VideoManager.UploadVideo | app_poo.py:87-102 | `false` and nothing added when the regular expression finds no id; otherwise `true` and one video with that id and owner |
| PooManagers.VideoManager.DeleteVideo | app_poo.py:105-113 | `true` and exactly that video removed when the key exists; `false` and no change otherwise |

## Left out

- Flask routing, templates, `flash`, `redirect` and `url_for`, the 404 handler and the login session (`login_user`, `current_user`): framework glue without logic of its own. The logged-in user arrives as a key.
- The SQLAlchemy session, `commit` and migrations: the tables are sequences, and a commit is a single assignment.
- Password hashing: `generate_password_hash` is salted and random, so the stored hash is a parameter; `check_password_hash` is an abstract predicate.
- The clock (`datetime.utcnow`): the time of the commit is a parameter `now`.
- Saving uploaded files, `secure_filename`, `os.path.join` and `send_from_directory`: only the `allowed_file` decision is modelled, and the URL of the saved picture is a parameter.
- The `LIKE` translation of `contains` (`%` and `_` wildcards) and SQLite's case-insensitive `LIKE` for ASCII: search is a plain, case-sensitive substring test. A missing `query` parameter (`None`) is not modelled.
- Strings.Lower: lowers ASCII letters only. No other character lowers to an ASCII letter except U+212A (Kelvin sign, to `k`) and U+0130 (to `i` plus a combining dot). Neither can produce `png`, `jpg`, `jpeg` or `gif`, so `allowed_file` decides the same.
- Queries.SortNewestFirst: puts rows with equal creation times in key order. SQL leaves that order unspecified.
- `show_video_detail` and the rendering of lists: they only read a row or pass data to templates.
- `app.py` `login`: the same logic as `UserManager.login`, modelled once as `PooManagers.UserManager.Login`.
- `app.py` `edit_profile`: it reads a form field that is commented out, and fails before changing anything. The `app_poo.py` version is modelled instead.
- `app_poo.py` never imports `re` or `secure_filename`, so its `get_video_id` and a profile edit with an allowed picture would fail at run time. The model gives their evident intended behaviour.
- `edit_video` and `delete_video` of `app.py` fail on a missing key: the methods require the key to exist.
- `SEOManager.update_seo` and the `inicio` page: they build a dictionary of page metadata and contain no logic.
- `app3.py` and `app4.py` (Google Sheets clients driven by the network and the environment) and `static/js/main.js` (a page-theme toggle): not part of this model.
- `ejercicio.py` `actualiza_hora` (an endless clock loop using `os.system` and `print`) and the module-level `input()` call: I/O.
