/** The body of the `/recommend` handler (app.py:30-68) once the catalog calls
    are replaced by data: the guard on the artist search, the loop that scores
    every candidate track and appends its record, and the final sort. */
module Pipeline {
  import Text
  import opened Scoring
  import opened Ranking

  /** The one error the scoring step reports itself: the artist search found nothing. */
  datatype Error = ArtistNotFound(artist: string)

  datatype Result<T> = Ok(value: T) | Err(error: Error)

  /** The text shown on the start page for an error. */
  function ErrorMessage(e: Error): (m: string)
    ensures |m| == |e.artist| + 43
    ensures m[17..17 + |e.artist|] == e.artist
  {
    "No artist named '" + e.artist + "' found. Please try again!"
  }

  /** The list the loop builds: one record per candidate track, in the order
      the catalog returned them. */
  function Recommendations(tracks: seq<Track>, artistId: string, userGenre: string): (recs: seq<Recommendation>)
    ensures |recs| == |tracks|
    ensures forall i :: 0 <= i < |tracks| ==> recs[i] == MakeRecommendation(tracks[i], artistId, userGenre)
  {
    seq(|tracks|, i requires 0 <= i < |tracks| => MakeRecommendation(tracks[i], artistId, userGenre))
  }

  /** The scoring loop (app.py:44-65): scores each track and appends its record. */
  method BuildRecommendations(tracks: seq<Track>, artistId: string, userGenre: string)
    returns (recs: seq<Recommendation>)
    ensures |recs| == |tracks|
    ensures forall i :: 0 <= i < |tracks| ==>
      recs[i].title == tracks[i].name &&
      recs[i].artist == Text.Join(ArtistNames(tracks[i].artists), ", ") &&
      recs[i].link == tracks[i].link &&
      recs[i].image == tracks[i].image &&
      recs[i].scoreTenths
        == ScoreTenths(tracks[i].popularity, ArtistMatch(tracks[i], artistId), GenreMatch(tracks[i], userGenre))
    ensures recs == Recommendations(tracks, artistId, userGenre)
  {
    recs := [];
    for i := 0 to |tracks|
      invariant |recs| == i
      invariant forall k :: 0 <= k < i ==> recs[k] == MakeRecommendation(tracks[k], artistId, userGenre)
    {
      var track := tracks[i];
      var popularity := track.popularity;
      var artistMatch := ArtistMatch(track, artistId);
      var genreMatch := GenreMatch(track, userGenre);
      var score := ScoreTenths(popularity, artistMatch, genreMatch);
      recs := recs + [Recommendation(
        track.name,
        Text.Join(ArtistNames(track.artists), ", "),
        track.link,
        track.image,
        score)];
    }
  }

  /** The whole step. `artistHits` is what the artist search returned (at most
      one item is asked for); `recommendationsFor(genreSeed, artistId)` stands for
      the catalog's recommendation call. */
  method Recommend(
    artistHits: seq<Artist>,
    userArtist: string,
    userGenre: string,
    recommendationsFor: (string, string) -> seq<Track>)
    returns (result: Result<seq<Recommendation>>)
    ensures artistHits == [] ==> result == Err(ArtistNotFound(userArtist))
    ensures artistHits != [] ==>
      var artistId := artistHits[0].id;
      result == Ok(SortDesc(Recommendations(
        recommendationsFor(Text.Lower(userGenre), artistId), artistId, userGenre)))
  {
    if artistHits == [] {
      return Err(ArtistNotFound(userArtist));
    }
    var artistId := artistHits[0].id;
    var tracks := recommendationsFor(Text.Lower(userGenre), artistId);
    var recs := BuildRecommendations(tracks, artistId, userGenre);
    var list := new Recommendation[|recs|](i requires 0 <= i < |recs| => recs[i]);
    assert list[..] == recs;
    SortInPlace(list);
    result := Ok(list[..]);
  }

  /** The ranked list: in order, holding exactly the loop's records, each score
      keeping its records in the order of the candidate tracks. */
  lemma {:induction false} RankedList(tracks: seq<Track>, artistId: string, userGenre: string, v: int)
    ensures var ranked := SortDesc(Recommendations(tracks, artistId, userGenre));
      |ranked| == |tracks| &&
      SortedDesc(ranked) &&
      multiset(ranked) == multiset(Recommendations(tracks, artistId, userGenre)) &&
      WithScore(ranked, v) == WithScore(Recommendations(tracks, artistId, userGenre), v)
  {
    var recs := Recommendations(tracks, artistId, userGenre);
    SortDescStable(recs, v);
    SortDescSortedPermutation(recs);
    assert |multiset(SortDesc(recs))| == |multiset(recs)|;
  }

  /** Every candidate track has its record in the ranked list, and every entry
      of the ranked list is the record of some candidate track. */
  lemma RankedHoldsEveryTrack(tracks: seq<Track>, artistId: string, userGenre: string)
    ensures var ranked := SortDesc(Recommendations(tracks, artistId, userGenre));
      (forall i :: 0 <= i < |tracks| ==> MakeRecommendation(tracks[i], artistId, userGenre) in ranked) &&
      (forall p :: 0 <= p < |ranked| ==>
        exists i :: 0 <= i < |tracks| && ranked[p] == MakeRecommendation(tracks[i], artistId, userGenre))
  {
    var recs := Recommendations(tracks, artistId, userGenre);
    var ranked := SortDesc(recs);
    SortDescSortedPermutation(recs);
    forall i | 0 <= i < |tracks|
      ensures MakeRecommendation(tracks[i], artistId, userGenre) in ranked
    {
      assert recs[i] in multiset(recs);
    }
    forall p | 0 <= p < |ranked|
      ensures exists i :: 0 <= i < |tracks| && ranked[p] == MakeRecommendation(tracks[i], artistId, userGenre)
    {
      assert ranked[p] in multiset(ranked);
      assert ranked[p] in recs;
    }
  }

  /** A track whose score is strictly higher than another's is listed before it. */
  lemma HigherScoreRanksFirst(tracks: seq<Track>, artistId: string, userGenre: string, i: int, j: int)
    requires 0 <= i < |tracks| && 0 <= j < |tracks|
    requires TrackScore(tracks[i], artistId, userGenre) > TrackScore(tracks[j], artistId, userGenre)
    ensures var ranked := SortDesc(Recommendations(tracks, artistId, userGenre));
      forall p, q ::
        (0 <= p < |ranked| && 0 <= q < |ranked| &&
         ranked[p] == MakeRecommendation(tracks[i], artistId, userGenre) &&
         ranked[q] == MakeRecommendation(tracks[j], artistId, userGenre)) ==> p < q
  {
    var ranked := SortDesc(Recommendations(tracks, artistId, userGenre));
    SortDescSortedPermutation(Recommendations(tracks, artistId, userGenre));
    var hi := MakeRecommendation(tracks[i], artistId, userGenre);
    var lo := MakeRecommendation(tracks[j], artistId, userGenre);
    assert hi.scoreTenths > lo.scoreTenths;
    forall p, q | 0 <= p < |ranked| && 0 <= q < |ranked| && ranked[p] == hi && ranked[q] == lo
      ensures p < q
    {
      SortedOrder(ranked, p, q);
    }
  }
}
