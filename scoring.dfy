/** The per-track scoring of the `/recommend` handler (app.py:47-64): the
    artist-match and genre-match scores, the weighted adjusted score, and the
    record built for each candidate track.

    Scores are kept exact as integers in tenths: with a popularity `p` and match
    scores `a`, `g` in {50, 100}, `0.5*p + 0.3*a + 0.2*g` is `(5*p + 3*a + 2*g) / 10`. */
module Scoring {
  import Text

  /** An artist as the catalog reports it on a track. */
  datatype Artist = Artist(id: string, name: string)

  /** A candidate track returned by the catalog's recommendation call; `link`
      and `image` are the track's external URL and its album's first cover URL,
      carried through unchanged. */
  datatype Track = Track(
    name: string,
    artists: seq<Artist>,
    popularity: int,
    albumGenres: seq<string>,
    link: string,
    image: string)

  /** One entry of the result list; `scoreTenths` is ten times `adjusted_score`. */
  datatype Recommendation = Recommendation(
    title: string,
    artist: string,
    link: string,
    image: string,
    scoreTenths: int)

  /** `any(artist['id'] == artist_id for artist in artists)`, scanned front to back. */
  function HasArtistId(artists: seq<Artist>, artistId: string): (r: bool)
    ensures r <==> exists i :: 0 <= i < |artists| && artists[i].id == artistId
  {
    if artists == [] then false
    else artists[0].id == artistId || HasArtistId(artists[1..], artistId)
  }

  /** The artist-match score: 100 when one of the track's artists is the seed artist. */
  function ArtistMatch(t: Track, artistId: string): (r: int)
    ensures r == 100 || r == 50
    ensures r == 100 <==> exists i :: 0 <= i < |t.artists| && t.artists[i].id == artistId
  {
    if HasArtistId(t.artists, artistId) then 100 else 50
  }

  /** `[g.lower() for g in genres]`. */
  function LowerAll(genres: seq<string>): (r: seq<string>)
    ensures |r| == |genres|
    ensures forall i :: 0 <= i < |genres| ==> r[i] == Text.Lower(genres[i])
  {
    if genres == [] then [] else [Text.Lower(genres[0])] + LowerAll(genres[1..])
  }

  /** The genre-match score: 100 when the seed genre equals, up to case, one of
      the album genres of the track. */
  function GenreMatch(t: Track, userGenre: string): (r: int)
    ensures r == 100 || r == 50
    ensures r == 100 <==>
      exists i :: 0 <= i < |t.albumGenres| && Text.EqualIgnoringCase(t.albumGenres[i], userGenre)
  {
    if Text.Lower(userGenre) in LowerAll(t.albumGenres) then 100 else 50
  }

  /** The genre match does not depend on the case of either side: lower-casing
      the seed genre and every album genre beforehand changes nothing. */
  lemma GenreMatchIgnoresCase(t: Track, userGenre: string)
    ensures GenreMatch(t.(albumGenres := LowerAll(t.albumGenres)), Text.Lower(userGenre))
         == GenreMatch(t, userGenre)
  {
    Text.LowerIdempotent(userGenre);
    forall i | 0 <= i < |t.albumGenres| {
      Text.LowerIdempotent(t.albumGenres[i]);
    }
  }

  /** Ten times the adjusted score `0.5*popularity + 0.3*artistMatch + 0.2*genreMatch`. */
  function ScoreTenths(popularity: int, artistMatch: int, genreMatch: int): (r: int)
    ensures r as real
         == 10.0 * (0.5 * popularity as real + 0.3 * artistMatch as real + 0.2 * genreMatch as real)
  {
    5 * popularity + 3 * artistMatch + 2 * genreMatch
  }

  /** `round(x, 2)`, rounding halves up: the nearest multiple of 0.01, and `x`
      itself when `x` already has at most two decimals. */
  function Round2(x: real): (r: real)
    ensures x - 0.005 < r <= x + 0.005
    ensures (x * 100.0).Floor as real == x * 100.0 ==> r == x
    ensures (r * 100.0).Floor as real == r * 100.0
  {
    var f := (x * 100.0 + 0.5).Floor;
    var n := (x * 100.0).Floor;
    assert f as real <= x * 100.0 + 0.5 < f as real + 1.0;
    assert n as real == x * 100.0 ==> n <= f < n + 1;
    assert (f as real / 100.0) * 100.0 == f as real;
    f as real / 100.0
  }

  /** Rounding the adjusted score to two decimals leaves it unchanged: the score
      is a whole number of tenths. */
  lemma RoundKeepsScore(popularity: int, artistMatch: int, genreMatch: int)
    ensures Round2(ScoreTenths(popularity, artistMatch, genreMatch) as real / 10.0)
         == ScoreTenths(popularity, artistMatch, genreMatch) as real / 10.0
  {
    var n := ScoreTenths(popularity, artistMatch, genreMatch);
    var x := n as real / 10.0;
    assert x * 100.0 == (10 * n) as real;
    assert ((10 * n) as real).Floor == 10 * n;
  }

  /** With popularity in 0..100 and both match scores in {50, 100}, the
      adjusted score lies in [25, 100]. */
  lemma ScoreBounds(popularity: int, artistMatch: int, genreMatch: int)
    requires 0 <= popularity <= 100
    requires artistMatch == 50 || artistMatch == 100
    requires genreMatch == 50 || genreMatch == 100
    ensures 250 <= ScoreTenths(popularity, artistMatch, genreMatch) <= 1000
  {
  }

  /** The adjusted score never decreases when popularity or either match score grows. */
  lemma ScoreMonotone(p1: int, a1: int, g1: int, p2: int, a2: int, g2: int)
    requires p1 <= p2 && a1 <= a2 && g1 <= g2
    ensures ScoreTenths(p1, a1, g1) <= ScoreTenths(p2, a2, g2)
  {
  }

  /** The artist names of a track, in track order. */
  function ArtistNames(artists: seq<Artist>): (names: seq<string>)
    ensures |names| == |artists|
    ensures forall i :: 0 <= i < |artists| ==> names[i] == artists[i].name
  {
    seq(|artists|, i requires 0 <= i < |artists| => artists[i].name)
  }

  /** Ten times the adjusted score of track `t` for the seed artist and genre. */
  function TrackScore(t: Track, artistId: string, userGenre: string): (r: int)
    ensures r as real == 10.0 * (0.5 * t.popularity as real
                                 + 0.3 * ArtistMatch(t, artistId) as real
                                 + 0.2 * GenreMatch(t, userGenre) as real)
    ensures 0 <= t.popularity <= 100 ==> 250 <= r <= 1000
  {
    ScoreTenths(t.popularity, ArtistMatch(t, artistId), GenreMatch(t, userGenre))
  }

  /** The record appended for track `t` (app.py:59-65). */
  function MakeRecommendation(t: Track, artistId: string, userGenre: string): (r: Recommendation)
    ensures r.title == t.name && r.link == t.link && r.image == t.image
    ensures r.artist == Text.Join(ArtistNames(t.artists), ", ")
    ensures r.scoreTenths == TrackScore(t, artistId, userGenre)
  {
    Recommendation(
      t.name,
      Text.Join(ArtistNames(t.artists), ", "),
      t.link,
      t.image,
      TrackScore(t, artistId, userGenre))
  }

  /** The record of a track with popularity in 0..100 scores within [25, 100],
      and its `artist` field lists the track's artists in order: splitting it
      at ", " gives their names back when no name holds a comma. */
  lemma RecommendationFields(t: Track, artistId: string, userGenre: string)
    requires 0 <= t.popularity <= 100
    requires |t.artists| > 0
    requires forall i :: 0 <= i < |t.artists| ==> Text.NoComma(t.artists[i].name)
    ensures 250 <= MakeRecommendation(t, artistId, userGenre).scoreTenths <= 1000
    ensures Text.Split(MakeRecommendation(t, artistId, userGenre).artist) == ArtistNames(t.artists)
  {
    ScoreBounds(t.popularity, ArtistMatch(t, artistId), GenreMatch(t, userGenre));
    Text.SplitJoin(ArtistNames(t.artists));
  }

  /** A track that beats another on popularity and on both matches scores at
      least as high. */
  lemma TrackScoreDominance(t1: Track, t2: Track, artistId: string, userGenre: string)
    requires t1.popularity <= t2.popularity
    requires ArtistMatch(t1, artistId) <= ArtistMatch(t2, artistId)
    requires GenreMatch(t1, userGenre) <= GenreMatch(t2, userGenre)
    ensures TrackScore(t1, artistId, userGenre) <= TrackScore(t2, artistId, userGenre)
  {
    ScoreMonotone(t1.popularity, ArtistMatch(t1, artistId), GenreMatch(t1, userGenre),
                  t2.popularity, ArtistMatch(t2, artistId), GenreMatch(t2, userGenre));
  }
}
