/**
 The bridge to the audio element (app/page.tsx): the effect that runs after a
 render in which `currentTrack` changed, and the events that reach the
 controller. The element itself is abstract: the model records the commands
 sent to it, in order, as a trace.
 */
module Device {
  import opened Wrappers
  import opened Catalog
  import opened Playback
  import opened Highlight

  /** A command to the audio element: assign `src`, call `load()`, call `play()`. */
  datatype Command = SetSource(url: string) | Load | Play

  /** How a `play()` promise settles. A rejection is caught and logged. */
  datatype PlayOutcome = Started | Rejected

  /** What reaches the controller: a playlist button click, the element's
      `ended` notification, or a `play()` promise settling. */
  datatype Event = Choose(track: Track) | Ended | PlaySettled(outcome: PlayOutcome)

  /** The selection state together with every command issued so far. */
  datatype Player = Player(current: State, trace: seq<Command>)

  /** The page right after mounting: nothing selected, nothing sent. */
  const Mounted: Player := Player(Initial, [])

  /** The effect keyed on `currentTrack`. It runs only when the new value
      differs from the one of the previous render, and then sends commands
      only when a track is selected. */
  function SyncEffect(before: State, after: State): seq<Command> {
    if after != before && after.Some? then [SetSource(after.value.url), Load, Play] else []
  }

  /** One event, handled to completion, followed by the effect. */
  function Step(cat: seq<Track>, p: Player, e: Event): (r: Player)
    ensures e.Choose? ==> r.current == Some(e.track)
    ensures e.Ended? ==> r.current == Next(cat, p.current)
    ensures e.PlaySettled? ==> r == p
    ensures p.current.None? && e.Ended? ==> r == p
    ensures r.current == p.current ==> r.trace == p.trace
    ensures r.current != p.current ==>
      r.current.Some? && r.trace == p.trace + [SetSource(r.current.value.url), Load, Play]
  {
    match e
    case Choose(t) =>
      var after := Select(p.current, t);
      Player(after, p.trace + SyncEffect(p.current, after))
    case Ended =>
      var after := Next(cat, p.current);
      Player(after, p.trace + SyncEffect(p.current, after))
    case PlaySettled(_) =>
      p
  }

  /** A sequence of events, handled one after another. */
  function Run(cat: seq<Track>, p: Player, es: seq<Event>): Player
    decreases |es|
  {
    if es == [] then p else Run(cat, Step(cat, p, es[0]), es[1..])
  }

  /** A trace is a run of complete `src` / `load()` / `play()` triples. */
  predicate WellFormedTrace(trace: seq<Command>)
    decreases |trace|
  {
    trace == [] ||
    (&& |trace| >= 3
     && trace[|trace| - 3].SetSource?
     && trace[|trace| - 2] == Load
     && trace[|trace| - 1] == Play
     && WellFormedTrace(trace[..|trace| - 3]))
  }

  /** The element agrees with the selection: commands were sent only once a
      track was selected, in complete triples, and the latest source is the
      current track's url. */
  predicate Consistent(p: Player) {
    && WellFormedTrace(p.trace)
    && (p.current.None? ==> p.trace == [])
    && (p.trace != [] ==> p.current.Some? && p.trace[|p.trace| - 3] == SetSource(p.current.value.url))
  }

  lemma MountedConsistent()
    ensures Consistent(Mounted)
  {
  }

  /** Every event keeps the element in agreement with the selection. */
  lemma StepKeepsConsistent(cat: seq<Track>, p: Player, e: Event)
    requires Consistent(p)
    ensures Consistent(Step(cat, p, e))
  {
    var r := Step(cat, p, e);
    if r.current != p.current {
      assert r.trace[..|r.trace| - 3] == p.trace;
    }
  }

  /** Any sequence of events keeps the element in agreement with the selection. */
  lemma {:induction false} RunKeepsConsistent(cat: seq<Track>, p: Player, es: seq<Event>)
    requires Consistent(p)
    ensures Consistent(Run(cat, p, es))
    decreases |es|
  {
    if es != [] {
      StepKeepsConsistent(cat, p, es[0]);
      RunKeepsConsistent(cat, Step(cat, p, es[0]), es[1..]);
    }
  }

  /** Running `xs ++ ys` is running `xs` and then `ys`. */
  lemma {:induction false} RunAppend(cat: seq<Track>, p: Player, xs: seq<Event>, ys: seq<Event>)
    ensures Run(cat, p, xs + ys) == Run(cat, Run(cat, p, xs), ys)
    decreases |xs|
  {
    if xs != [] {
      assert (xs + ys)[0] == xs[0];
      assert (xs + ys)[1..] == xs[1..] + ys;
      RunAppend(cat, Step(cat, p, xs[0]), xs[1..], ys);
    } else {
      assert xs + ys == ys;
    }
  }

  /** A `play()` promise settling, successfully or not and however late,
      changes neither the selection nor the commands sent. */
  lemma {:induction false} PlaySettledIsInvisible(cat: seq<Track>, p: Player, xs: seq<Event>, o: PlayOutcome, ys: seq<Event>)
    ensures Run(cat, p, xs + [PlaySettled(o)] + ys) == Run(cat, p, xs + ys)
  {
    RunAppend(cat, p, xs + [PlaySettled(o)], ys);
    RunAppend(cat, p, xs, [PlaySettled(o)]);
    RunAppend(cat, p, xs, ys);
  }

  /** The playlist buttons only ever choose catalog entries. */
  predicate FromPlaylist(cat: seq<Track>, es: seq<Event>) {
    forall k :: 0 <= k < |es| && es[k].Choose? ==> es[k].track in cat
  }

  /** When every choice comes from the playlist, the current track is always
      a catalog entry or nothing. */
  lemma {:induction false} RunStaysInCatalog(cat: seq<Track>, p: Player, es: seq<Event>)
    requires p.current.Some? ==> p.current.value in cat
    requires FromPlaylist(cat, es)
    ensures Run(cat, p, es).current.Some? ==> Run(cat, p, es).current.value in cat
    decreases |es|
  {
    if es != [] {
      var q := Step(cat, p, es[0]);
      if es[0].Ended? && p.current.Some? {
        var k :| 0 <= k < |cat| && cat[k] == p.current.value;
        assert HasId(cat, cat[k].id);
        NextLandsInCatalog(cat, p.current);
      } else if es[0].Choose? {
        assert es[0].track in cat;
      }
      assert FromPlaylist(cat, es[1..]) by {
        forall k | 0 <= k < |es[1..]| && es[1..][k].Choose?
          ensures es[1..][k].track in cat
        {
          assert es[1..][k] == es[k + 1];
        }
      }
      RunStaysInCatalog(cat, q, es[1..]);
    }
  }

  /** From mount, with playlist-only choices and distinct identifiers, the
      playlist highlights exactly one entry once a track is selected, and that
      entry is the current track. */
  lemma HighlightAfterRun(cat: seq<Track>, es: seq<Event>)
    requires UniqueIds(cat)
    requires FromPlaylist(cat, es)
    ensures var s := Run(cat, Mounted, es).current;
      s.Some? ==> exists k :: 0 <= k < |cat| && cat[k] == s.value && HighlightedIndices(cat, s) == {k}
  {
    RunStaysInCatalog(cat, Mounted, es);
    var s := Run(cat, Mounted, es).current;
    if s.Some? {
      var k :| 0 <= k < |cat| && cat[k] == s.value;
      SelectHighlightsEntry(cat, s, k);
    }
  }
}
