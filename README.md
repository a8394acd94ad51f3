# Song recommendation: scoring and ranking

This project models the core of a small Flask web application that recommends songs.
A user gives an artist and a genre. The `/recommend` handler looks the artist up in
the Spotify catalog and asks the catalog for recommended tracks seeded by that artist
and the lower-cased genre. It then scores every returned track and lists the tracks
from best to worst score.

The model covers the handler's own logic, in `app.py`:

- the guard on the artist search. When the search returns no artist, the handler
  returns an error naming the artist and builds no list (`Pipeline.Recommend`,
  `Pipeline.ErrorMessage`);
- the artist-match score. It is 100 when one of the track's artists is the seed
  artist, else 50 (`Scoring.ArtistMatch`);
- the genre-match score. It is 100 when the seed genre equals one of the album's
  genres, ignoring case on both sides, else 50 (`Scoring.GenreMatch`);
- the adjusted score `0.5·popularity + 0.3·artistMatch + 0.2·genreMatch`. It is held
  exactly as a whole number of tenths, `5·popularity + 3·artistMatch + 2·genreMatch`
  (`Scoring.ScoreTenths`). Rounding it to two decimals changes nothing
  (`Scoring.RoundKeepsScore`);
- the loop that appends one record per track, in catalog order. Each record holds
  the title, the artist names joined with ", ", the link, the cover image and the
  score (`Pipeline.BuildRecommendations`);
- the in-place stable sort of that list, descending by score (`Ranking.SortInPlace`).
  It is proved equal to the reference sort `Ranking.SortDesc`. That sort is proved
  to return a list in order, to be a permutation of its input, and to be stable.

The catalog calls are not modelled. The artist search result is an input sequence.
The recommendation call is a function parameter from (genre seed, artist id) to the
list of tracks.

Modules: `Text` (lower-casing, joining, and a split that undoes the join), `Scoring`
(tracks, match scores, adjusted score, records), `Ranking` (the stable descending
sort), `Pipeline` (the handler's body).

The score uses the catalog's raw 0–100 popularity, as app.py:47 reads it.

## Model

| member | source | states |
|---|---|---|
| `Scoring.HasArtistId` | app.py:50 | the `any(...)` scan is true exactly when some artist of the list has the seed artist id |
| `Scoring.ArtistMatch` | app.py:50 | the artist-match score is 100 or 50, and 100 exactly when some artist on the track has the seed artist id |
| `Text.Lower` | app.py:53 | `lower()` keeps the length, maps every character by the case mapping, and leaves no capital letter |
| `Text.LowerIdempotent` | app.py:53 | lower-casing an already lower-cased string changes nothing |
| `Scoring.LowerAll` | app.py:53 | the list comprehension lower-cases each album genre and keeps their number and order |
| `Scoring.GenreMatch` | app.py:53 | the genre-match score is 100 or 50, and 100 exactly when some album genre equals the seed genre up to case |
| `Scoring.GenreMatchIgnoresCase` | app.py:53 | the genre match is the same when the seed genre and every album genre are lower-cased beforehand: the comparison ignores case on both sides |
| `Scoring.ScoreTenths` | app.py:56 | the integer score, read as a real, is exactly ten times `0.5·popularity + 0.3·artistMatch + 0.2·genreMatch` |
| `Scoring.Round2` | app.py:64 | `round(_, 2)` returns a value with at most two decimals that lies within half a hundredth of its argument (rounding halves up), and returns a value that already has at most two decimals unchanged; `Scoring.RoundKeepsScore` applies this to the score |
| `Scoring.RoundKeepsScore` | app.py:64 | rounding the adjusted score to two decimals returns it unchanged |
| `Scoring.ScoreBounds` | app.py:47-56 | with popularity in 0..100 and both match scores in {50, 100}, the adjusted score lies in [25, 100] |
| `Scoring.ScoreMonotone` | app.py:56 | the adjusted score does not decrease when popularity or either match score grows, the other inputs fixed |
| `Scoring.TrackScoreDominance` | app.py:47-56 | a track that has at least the popularity, the artist match and the genre match of another scores at least as high |
| `Scoring.TrackScore` | app.py:47-56 | a track's score in tenths is exactly ten times `0.5·popularity + 0.3·artistMatch + 0.2·genreMatch` for its own match scores, and lies in [250, 1000] when its popularity is in 0..100 |
| `Text.Join` | app.py:61 | `", ".join` of no parts is empty, and a join of one or more parts starts with the first part; `Text.JoinPartAt` and `Text.JoinLength` state the rest |
| `Text.JoinPartAt` | app.py:61 | every part sits, in order, at its offset in the joined string (the parts before it, each followed by one separator) |
| `Text.JoinSeparatorAt` | app.py:61 | every part but the last is followed, in the joined string, by the separator |
| `Scoring.ArtistNames` | app.py:61 | the comprehension `[artist['name'] for artist in track['artists']]` gives one name per artist, in track order |
| `Text.JoinLength` | app.py:61 | the joined length is the parts' total length plus one separator per neighbouring pair |
| `Text.SplitJoin` | app.py:61 | splitting a `", "`-joined string at `", "` gives the parts back, for at least one part and no part with a comma |
| `Scoring.MakeRecommendation` | app.py:59-65 | the record dict: title, link and image copied from the track, artist the joined names, score the track's score; `Scoring.RecommendationFields` (for a track with at least one artist and no comma in any artist name) and `Pipeline.BuildRecommendations` state what these fields mean |
| `Scoring.RecommendationFields` | app.py:59-65 | for a track with popularity in 0..100, a record's score lies in [25, 100]; for a track with at least one artist and no comma in any artist name, its artist field splits back into the track's artist names in track order |
| `Pipeline.ErrorMessage` | app.py:33 | the error text names the artist that was searched for, at a fixed place in the message |
| `Pipeline.Recommendations` | app.py:44-65 | the list the loop builds: one record per track, the record of track i at position i |
| `Pipeline.BuildRecommendations` | app.py:44-65 | the loop makes exactly one record per track in input order, each with the track's title, its artist names joined with ", ", its link and image, and its adjusted score; nothing is filtered, merged or cut |
| `Ranking.InsertPermutes` | app.py:68 | one insertion step adds exactly the inserted record to the list |
| `Ranking.InsertSorted` | app.py:68 | one insertion step keeps a non-increasing list non-increasing |
| `Ranking.SortDescSortedPermutation` | app.py:68 | the reference sort `Ranking.SortDesc` returns a list non-increasing by score that is a permutation of its input |
| `Ranking.SortDescStable` | app.py:68 | for every score value, the records with that score keep their input order |
| `Ranking.SortDescOfSorted` | app.py:68 | a list already in order is left unchanged |
| `Ranking.SortDescIdempotent` | app.py:68 | sorting the sorted list again changes nothing |
| `Ranking.InsertAt` | app.py:68 | swapping one record rightwards past the higher-scored records after it leaves in the array the old prefix followed by the reference insertion step on the suffix |
| `Ranking.SortInPlace` | app.py:68 | the in-place sort leaves in the array the reference stable descending sort of its old contents |
| `Pipeline.Recommend` | app.py:31-68 | with no artist hit, the result is the not-found error for the given artist; otherwise it is the stable descending sort of the loop's records for the tracks the catalog returns for the lower-cased genre and the first hit's id |
| `Pipeline.RankedList` | app.py:44-68 | the ranked list has one entry per track, is non-increasing, is a permutation of the loop's records, and keeps records of equal score in track order |
| `Pipeline.RankedHoldsEveryTrack` | app.py:44-68 | every track's record is in the ranked list, and every entry is some track's record |
| `Pipeline.HigherScoreRanksFirst` | app.py:44-68 | a track with a strictly higher score is listed before a track with a lower one |

## Left out

- Flask routing, form reading and page rendering (app.py:1-5, 17-28, 70, 76-77) are web plumbing and are not modelled. This includes `strip()` on the form fields and the defaults 'Pop' and 'Taylor Swift'. The seed artist and genre are inputs, taken as already trimmed.
- The Spotify client and its credentials (app.py:7-15, 31, 39-41) are network calls to a library outside the repository. The artist search result is an input sequence. The recommendation call is a function parameter. The `limit=10` passed to it belongs to the catalog.
- The catch-all `except` (app.py:72-74) is not modelled. It turns any exception into an error page, for example a track whose album has no images (`images[0]`) or a response without an expected key. Tracks here always carry a link and an image URL.
- `link` and `image` are opaque strings copied into the record unchanged.
- The float arithmetic of `adjusted_score` is not modelled. The score is held exactly as an integer number of tenths.
- Scoring.Round2: models `round(_, 2)` with halves rounded up on exact reals. Python rounds the binary float, with ties to even. The two agree on every value the score can take, since no such value is a tie.
- Text.Lower: maps only the ASCII capitals A–Z. Python's `str.lower()` also maps non-ASCII letters (for example 'É'), which this model does not.
- Scoring.ScoreBounds: requires popularity in 0..100. That is the catalog's documented range; `app.py` does not check it.
- Text.SplitJoin: needs at least one part and no comma in any part. An artist name with a comma makes the joined `artist` field ambiguous.
- `static/script.js` is browser-side page handling with no scoring logic.
- Mood affinity, deduplication, tiered candidate sources and truncation to a result limit are not modelled, because `app.py` does none of them.
