/**
 The playback controller's selection state and its two transitions:
 `handleTrackSelect` and `handleNextTrack` (app/page.tsx). The React state hook
 is modelled as an explicit `State` value and each handler as a pure function
 from the old state to the new one.
 */
module Playback {
  import opened Wrappers
  import opened Catalog

  /** `currentTrack`: `None` until the listener picks a track. */
  type State = Option<Track>

  /** The value the state hook is created with. */
  const Initial: State := None

  /** `handleTrackSelect`: the chosen track becomes current, whatever was
      current before and whether or not the track is in the catalog. */
  function Select(s: State, t: Track): (r: State)
    ensures r.Some? && r.value == t
  {
    Some(t)
  }

  /** Selection is last-writer-wins: a second selection erases the first, and
      re-selecting the current track leaves the state as it is. */
  lemma SelectOverwrites(s: State, t1: Track, t2: Track)
    ensures Select(Select(s, t1), t2) == Select(s, t2)
    ensures Select(Select(s, t1), t1) == Select(s, t1)
    ensures s == Some(t1) ==> Select(s, t1) == s
  {
  }

  /** The index after `i` in a catalog of `n` entries: the source's
      "last entry goes back to 0, otherwise add one" is successor modulo `n`. */
  function NextIndex(i: nat, n: nat): (r: nat)
    requires i < n
    ensures r < n
    ensures r == (i + 1) % n
  {
    if i == n - 1 then 0 else i + 1
  }

  /** `handleNextTrack`, run when the audio element reports `ended`.
      Nothing selected: no change. Current identifier not in the catalog: no
      change. Otherwise the entry after the first one with that identifier,
      wrapping from the last entry to the first. */
  function Next(cat: seq<Track>, s: State): (r: State)
    ensures s.None? ==> r.None?
    ensures s.Some? && !HasId(cat, s.value.id) ==> r == s
    ensures forall i :: s.Some? && IsFirstMatch(cat, s.value.id, i) ==> r == Some(cat[(i + 1) % |cat|])
    ensures s.Some? ==> r.Some?
  {
    match s
    case None => None
    case Some(t) =>
      var i := FindIndex(cat, t.id);
      if i == -1 then s else Some(cat[NextIndex(i, |cat|)])
  }

  /** A `Next` that moves the state always lands on a catalog entry. */
  lemma NextLandsInCatalog(cat: seq<Track>, s: State)
    ensures Next(cat, s) != s ==> Next(cat, s).Some? && Next(cat, s).value in cat
    ensures s.Some? && HasId(cat, s.value.id) ==> Next(cat, s).value in cat
  {
    if s.Some? && HasId(cat, s.value.id) {
      var i := FindIndex(cat, s.value.id);
      assert IsFirstMatch(cat, s.value.id, i);
      assert cat[(i + 1) % |cat|] in cat;
    }
  }

  /** From entry `i` short of the last, `Next` moves to entry `i + 1`; from
      the last entry it wraps to entry 0. */
  lemma NextSuccessorOrWrap(cat: seq<Track>, i: int)
    requires UniqueIds(cat)
    requires 0 <= i < |cat|
    ensures i < |cat| - 1 ==> Next(cat, Some(cat[i])) == Some(cat[i + 1])
    ensures i == |cat| - 1 ==> Next(cat, Some(cat[i])) == Some(cat[0])
  {
    FindIndexOfEntry(cat, i);
  }

  /** `m` auto-advances in a row. */
  function NextN(cat: seq<Track>, s: State, m: nat): State
    decreases m
  {
    if m == 0 then s else NextN(cat, Next(cat, s), m - 1)
  }

  /** Advancing `a + b` times is advancing `a` times and then `b` times. */
  lemma {:induction false} NextNAdd(cat: seq<Track>, s: State, a: nat, b: nat)
    ensures NextN(cat, s, a + b) == NextN(cat, NextN(cat, s, a), b)
    decreases a
  {
    if a != 0 {
      NextNAdd(cat, Next(cat, s), a - 1, b);
    }
  }

  /** With distinct identifiers, `m` advances from entry `k` that stay short of
      the end of the catalog reach entry `k + m`. */
  lemma {:induction false} NextNFromEntry(cat: seq<Track>, k: int, m: nat)
    requires UniqueIds(cat)
    requires 0 <= k && k + m < |cat|
    ensures NextN(cat, Some(cat[k]), m) == Some(cat[k + m])
    decreases m
  {
    if m != 0 {
      NextSuccessorOrWrap(cat, k);
      NextNFromEntry(cat, k + 1, m - 1);
    }
  }

  /** Full cycle: `|cat|` advances from any catalog entry come back to it. The
      walk runs to the last entry, wraps to entry 0 and climbs back to `k`. */
  lemma {:induction false} FullCycle(cat: seq<Track>, k: int)
    requires UniqueIds(cat)
    requires 0 <= k < |cat|
    ensures NextN(cat, Some(cat[k]), |cat|) == Some(cat[k])
  {
    var n := |cat|;
    var a := n - 1 - k;
    NextNAdd(cat, Some(cat[k]), a, k + 1);
    NextNFromEntry(cat, k, a);
    var last := Some(cat[n - 1]);
    assert NextN(cat, Some(cat[k]), n) == NextN(cat, last, k + 1);
    NextNAdd(cat, last, 1, k);
    NextSuccessorOrWrap(cat, n - 1);
    assert NextN(cat, last, 1) == NextN(cat, Next(cat, last), 0);
    NextNFromEntry(cat, 0, k);
  }

  /** The four-track catalog: track 1 advances to track 2, and track 4 wraps to track 1. */
  lemma AudioTracksAdvance()
    ensures Next(AudioTracks, Some(AudioTracks[0])) == Some(AudioTracks[1])
    ensures Next(AudioTracks, Some(AudioTracks[3])) == Some(AudioTracks[0])
  {
    AudioTracksShape();
    NextSuccessorOrWrap(AudioTracks, 0);
    NextSuccessorOrWrap(AudioTracks, 3);
  }
}
