/**
 The "currently playing" highlight of the playlist view: an entry is drawn as
 playing when its identifier equals the current track's (app/page.tsx, the
 class and badge conditions on each playlist button).
 */
module Highlight {
  import opened Wrappers
  import opened Catalog
  import opened Playback

  /** `currentTrack?.id === track.id`: false when nothing is selected. */
  predicate IsPlaying(s: State, t: Track) {
    s.Some? && s.value.id == t.id
  }

  /** The catalog positions drawn as playing. */
  function HighlightedIndices(cat: seq<Track>, s: State): set<int> {
    set i | 0 <= i < |cat| && IsPlaying(s, cat[i])
  }

  /** With distinct identifiers at most one entry is highlighted: exactly the
      first (and only) entry with the current identifier, or none when nothing
      is selected or the current identifier is not in the catalog. */
  lemma AtMostOneHighlighted(cat: seq<Track>, s: State)
    requires UniqueIds(cat)
    ensures |HighlightedIndices(cat, s)| <= 1
    ensures s.Some? && HasId(cat, s.value.id) ==> HighlightedIndices(cat, s) == {FindIndex(cat, s.value.id)}
    ensures s.None? || !HasId(cat, s.value.id) ==> HighlightedIndices(cat, s) == {}
  {
    var h := HighlightedIndices(cat, s);
    if s.Some? && HasId(cat, s.value.id) {
      var k := FindIndex(cat, s.value.id);
      assert k in h;
      forall i | i in h
        ensures i == k
      {
      }
      assert h == {k};
    } else {
      forall i | i in h
        ensures false
      {
      }
      assert h == {};
    }
  }

  /** Selecting a catalog entry highlights that entry and no other. */
  lemma SelectHighlightsEntry(cat: seq<Track>, s: State, k: int)
    requires UniqueIds(cat)
    requires 0 <= k < |cat|
    ensures HighlightedIndices(cat, Select(s, cat[k])) == {k}
  {
    AtMostOneHighlighted(cat, Select(s, cat[k]));
    FindIndexOfEntry(cat, k);
  }
}
