# Audio playlist controller — Dafny model

This project models the playback logic of a single-page audio playlist
("My Audio Diary"). It has a fixed catalog of four tracks and one piece of
state, the currently selected track. A playlist button selects a track. The
audio element's `ended` notification advances to the next track, wrapping
from the last track to the first. An effect keyed on the selection points the
audio element at the selected track's url, reloads it and starts playback.

Modules:

- `Wrappers` (`wrappers.dfy`): `Option`, standing for `AudioTrack | null`.
- `Catalog` (`catalog.dfy`): the `Track` record, the four-entry catalog
  `AudioTracks`, and `FindIndex`, the first-match lookup by identifier that
  `findIndex` performs (−1 when nothing matches).
- `Playback` (`playback.dfy`): the selection state, `Select`
  (`handleTrackSelect`), `Next` (`handleNextTrack`) and the wraparound and
  full-cycle properties.
- `Highlight` (`highlight.dfy`): the "currently playing" predicate the
  playlist uses to highlight an entry, and the at-most-one property.
- `Device` (`device.dfy`): the effect as an appended trace of commands
  (`SetSource(url)`, `Load`, `Play`), the events reaching the controller
  (button click, `ended`, a `play()` promise settling), and the invariants
  that link the trace to the selection.

Re-selecting the current track does not restart playback. The selection is a
React state hook and the effect is keyed on it. Setting the state to the value
it already holds leaves the effect's dependency unchanged, so the effect does
not run again. `Device.Step` therefore issues no commands when the selection
does not change. The same applies when `Next` maps the current track to
itself, which happens only in a one-entry catalog. React compares by object
identity. Every track the page can select is one of the catalog's objects, and
catalog entries have distinct identifiers, so identity and value equality
coincide for them. The model compares tracks by value.

## Model

| member | source | states |
|---|---|---|
| `Catalog.AudioTracksShape` | app/page.tsx:13-42 | The catalog has four entries with identifiers 1, 2, 3, 4 in order, so its identifiers are pairwise distinct. |
| `Catalog.FindIndexFrom` | app/page.tsx:56-58 | The search from a start index returns -1 exactly when no later entry has the identifier, and otherwise the first later index whose entry has it. |
| `Catalog.FindIndex` | app/page.tsx:56-58 | The lookup returns -1 exactly when no entry has the identifier, and otherwise the first index whose entry has it. |
| `Catalog.FindIndexOfEntry` | app/page.tsx:56-60 | With distinct identifiers, looking up entry k's identifier finds k, so the not-found guard never fires for a catalog track. |
| `Playback.Select` | app/page.tsx:48-50 | After selecting a track, that track is current, whatever was current before and whether or not it is in the catalog. |
| `Playback.SelectOverwrites` | app/page.tsx:48-50 | Selection is last-writer-wins, and re-selecting the current track leaves the state unchanged. |
| `Playback.NextIndex` | app/page.tsx:62-64 | The conditional "last index goes to 0, otherwise add one" equals (i + 1) mod n and stays in range. |
| `Playback.Next` | app/page.tsx:53-68 | With nothing selected it yields nothing. With an identifier not in the catalog it leaves the state unchanged. With the first match at i it yields entry (i + 1) mod n. It never clears a selection. |
| `Playback.NextLandsInCatalog` | app/page.tsx:63-67 | Whenever Next changes the state, and whenever the current identifier is in the catalog, the result is a catalog entry. |
| `Playback.NextSuccessorOrWrap` | app/page.tsx:56-65 | From entry i before the last, Next yields entry i + 1; from the last entry it wraps to entry 0. |
| `Playback.NextNAdd` | app/page.tsx:53-68 | Advancing a + b times equals advancing a times and then b times. |
| `Playback.NextNFromEntry` | app/page.tsx:63-65 | With distinct identifiers, m advances from entry k that stay before the end reach entry k + m. |
| `Playback.FullCycle` | app/page.tsx:53-68 | With distinct identifiers, advancing catalog-length times from any catalog entry returns to that entry. |
| `Playback.AudioTracksAdvance` | app/page.tsx:13-68 | In the four-track catalog, track 1 advances to track 2 and track 4 wraps to track 1. |
| `Highlight.AtMostOneHighlighted` | app/page.tsx:166-184 | With distinct identifiers, at most one entry is highlighted. It is the entry with the current identifier, or none when nothing is selected or the identifier is not in the catalog. |
| `Highlight.SelectHighlightsEntry` | app/page.tsx:162-184 | Clicking catalog entry k highlights entry k and no other. |
| `Device.Step` | app/page.tsx:71-79 | A click makes its track current. An `ended` event applies Next. A settled `play()` changes nothing. When the selection changes, the trace gains exactly SetSource(url of the new track), Load, Play in that order; otherwise it gains nothing. |
| `Device.MountedConsistent` | app/page.tsx:45-46 | At mount nothing is selected and no command has been sent. |
| `Device.StepKeepsConsistent` | app/page.tsx:71-79 | Every event keeps the trace a series of complete set-source/load/play triples whose latest source is the current track's url. |
| `Device.RunKeepsConsistent` | app/page.tsx:71-79 | Any sequence of events keeps the trace in agreement with the selection in the same way. |
| `Device.RunAppend` | app/page.tsx:141-165 | Handling two event sequences one after the other equals handling their concatenation. |
| `Device.PlaySettledIsInvisible` | app/page.tsx:75-77 | A play() promise settling at any point, successfully or with an error, changes neither the selection nor the commands sent. |
| `Device.RunStaysInCatalog` | app/page.tsx:162-165 | When every click chooses a playlist entry, the current track is always nothing or a catalog entry. |
| `Device.HighlightAfterRun` | app/page.tsx:162-184 | From mount, with playlist-only clicks and distinct identifiers, once a track is selected exactly one entry is highlighted, and it is the current track. |

## Left out

- Page layout, CSS classes, SVG icons, the cover image and the "now playing" card (app/page.tsx:81-234): presentation with no behaviour. Only the highlight condition is modelled.
- React hook mechanics (`useState`, `useRef`, effect scheduling, re-rendering): the state is an explicit value, each handler is a function, and the effect runs right after each handled event.
- The `HTMLAudioElement`, its decoding and the asynchronous `play()` promise: the element is an abstract command trace, and a settling promise is an event with no effect.
- `console.error` on a rejected `play()`: logging is I/O and is not traced.
- The `audioRef.current` null check: the `<audio>` element is rendered whenever a track is selected, so the check never skips the effect while a selection exists.
- Asset urls and file contents: urls are opaque strings.
- Playback.FullCycle: assumes distinct identifiers. With a duplicated identifier the lookup always finds the first of the two entries, so the cycle can skip entries.
- Device.Step: compares the old and new selection by value, where React compares object identity. The two differ only for a track outside the catalog that equals the current track field by field; the page never produces one, because its buttons pass only catalog objects.
