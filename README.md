# Tomahawk welcome panel: recent-tracks history

A Dafny model of the logic in Tomahawk's welcome panel
(`src/libtomahawk/widgets/welcomewidget.cpp`): that is, the part that is not
widget layout or painting.

- **Recent tracks.** When a source reports that a track finished playing,
  `WelcomeWidget::onPlaybackFinished` adds it to the recent-tracks model.
  The model's rows stay ordered newest first by play time. A track that is
  not newer than the oldest row is ignored. A track at least as new as the
  newest row goes to row 0. Any other track goes right after the first
  adjacent pair of rows that brackets it. An empty model takes the track as
  its only row. After an insert, row 25 (`HISTORY_TRACK_ITEMS`) is removed
  when the model has more than 25 rows. Each accepted track then restarts the
  resolve timer: a repeating timer that `checkQueries` stops when it fires.
- **Resolve timer.** When the timer fires, `WelcomeWidget::checkQueries`
  stops it and asks the tracks model to resolve its queries.
- **Playlist overlay.** `updatePlaylists` shows the "no recently created
  playlists" overlay exactly when the playlist model has no rows.
- **Author label.** `PlaylistDelegate::paint` shows an author's friendly
  name cut at its first `'@'`.

Files:

- `recent_tracks.dfy` (module `RecentTracks`) holds the history as values.
  A row is an `Entry(item, playedAt)`. `Record(s, e)` is the list after
  event `e`. The lemmas prove its ordering, bound, no-op and
  order-keeping properties.
- `welcome_widget.dfy` (module `Welcome`) holds the class `WelcomeWidget`.
  Its fields are the model's rows (`tracks`), the timer's state
  (`timerActive`) and the number of resolve requests made
  (`resolveRequests`). The panel starts with an empty tracks model;
  `OnSourcesReady` loads the history into it. `OnPlaybackFinished` is written as the source's
  in-place code: the same early return and the same index loop with
  `break`. It is proved to leave `tracks == Record(old(tracks), e)`. The
  file also holds the overlay rule.
- `playlist_delegate.dfy` (module `PlaylistDelegate`) holds the author label.

Play times are `nat`. The source's `unsigned int` play time is only
compared, never computed with, so no wrap-around can occur.

The middle-of-list scan needs no sortedness to succeed. Once the track is
newer than the last row and older than row 0, some adjacent pair must
bracket it (`SlotFound`). So every accepted track is inserted, even into an
unsorted list.

## Model

| member | source | states |
|---|---|---|
| `RecentTracks.FindSlot` | src/libtomahawk/widgets/welcomewidget.cpp:188-198 | the scan returns the first adjacent pair (i, i+1) at or after its start with row i no older and row i+1 no newer than the play time; when it finds none, no such pair exists |
| `RecentTracks.SlotFound` | src/libtomahawk/widgets/welcomewidget.cpp:188-198 | if the start row is no older than the play time and the last row no newer, the scan finds a pair, whatever the order of the rows in between |
| `RecentTracks.Place` | src/libtomahawk/widgets/welcomewidget.cpp:174-202 | the event is ignored iff the list is non-empty and its last row is no older than the event; an empty list, or an event at least as new as row 0, gives index 0; otherwise the index is one past the first bracketing pair; the index is always a valid insert position |
| `RecentTracks.Insert` | src/libtomahawk/widgets/welcomewidget.cpp:195 | the event becomes row i, the rows before i are unchanged, and the rows from i on move down by one |
| `RecentTracks.RemoveAt` | src/libtomahawk/widgets/welcomewidget.cpp:205 | row i goes, the rows before it stay, and the rows after it move up by one |
| `RecentTracks.RemoveInserted` | src/libtomahawk/widgets/welcomewidget.cpp:195-205 | removing the row just inserted gives back the original list |
| `RecentTracks.Trim` | src/libtomahawk/widgets/welcomewidget.cpp:204-205 | a list of at most 25 rows is unchanged; a longer one loses exactly the row at index 25, and all other rows keep their order |
| `RecentTracks.Record` | src/libtomahawk/widgets/welcomewidget.cpp:172-205 | a stale event leaves the list unchanged; an empty list becomes exactly the one-row list; an accepted event grows the list by one below capacity and keeps its length otherwise; a list within 25 rows stays within 25 |
| `RecentTracks.InsertBetween` | src/libtomahawk/widgets/welcomewidget.cpp:193-195 | an entry no newer than the row above its insert position and no older than the row below keeps a newest-first list newest first |
| `RecentTracks.InsertKeepsNewestFirst` | src/libtomahawk/widgets/welcomewidget.cpp:183-198 | inserting an accepted event at its chosen index keeps a newest-first list newest first |
| `RecentTracks.TrimKeepsNewestFirst` | src/libtomahawk/widgets/welcomewidget.cpp:204-205 | the cut keeps a newest-first list newest first |
| `RecentTracks.RecordKeepsNewestFirst` | src/libtomahawk/widgets/welcomewidget.cpp:172-205 | a newest-first list is newest first after any playback event, cut included |
| `RecentTracks.NewestGoesToHead` | src/libtomahawk/widgets/welcomewidget.cpp:183-185 | an accepted event at least as new as row 0 becomes row 0 and the old rows follow in order; a full list also loses its old last row |
| `RecentTracks.RecordKeepsOrder` | src/libtomahawk/widgets/welcomewidget.cpp:183-205 | for a list within capacity, the accepted event is at its chosen index, and removing it leaves the old list in its old order, less its last row when the list held 25 |
| `RecentTracks.RecordAllKeepsInvariant` | src/libtomahawk/widgets/welcomewidget.cpp:172-210 | after any run of playback events, a newest-first history of at most 25 rows is still newest first and at most 25 rows |
| `Welcome.PlaylistsOverlay` | src/libtomahawk/widgets/welcomewidget.cpp:142-149 | the overlay is shown, with the "no recently created playlists" text, iff the playlist model has 0 rows |
| `Welcome.WelcomeWidget.constructor` | src/libtomahawk/widgets/welcomewidget.cpp:75-86 | the panel starts with an empty tracks model, an idle timer and no resolve requests, so its history is newest first and within 25 rows |
| `Welcome.WelcomeWidget.OnSourcesReady` | src/libtomahawk/widgets/welcomewidget.cpp:122-125 | the tracks become the loaded history and the timer state and request count are unchanged; the panel's invariant holds afterwards iff the loaded history is newest first and at most 25 rows |
| `Welcome.WelcomeWidget.CheckQueries` | src/libtomahawk/widgets/welcomewidget.cpp:162-168 | the timer is inactive afterwards, exactly one resolve request is added, and the tracks are unchanged |
| `Welcome.WelcomeWidget.OnPlaybackFinished` | src/libtomahawk/widgets/welcomewidget.cpp:172-210 | the in-place insert, scan and cut leave the tracks equal to `Record` of the old tracks; the timer is active after an accepted event and unchanged after a stale one; no resolve request is made; a newest-first history within 25 rows stays so |
| `PlaylistDelegate.IndexOf` | src/libtomahawk/widgets/welcomewidget.cpp:322 | the result is -1 iff the character is absent; otherwise it is the position of the first occurrence |
| `PlaylistDelegate.AuthorLabel` | src/libtomahawk/widgets/welcomewidget.cpp:321-322 | the label is a prefix of the name with no '@' in it; it stops right before the first '@' when there is one, and is the whole name otherwise |
| `PlaylistDelegate.AuthorLabelIdempotent` | src/libtomahawk/widgets/welcomewidget.cpp:321-322 | cutting a label again changes nothing |

## Left out

- Widget construction, splitter stretch, frame attributes, layout margins and overlay sizing (lines 46-92): these only set up the UI.
- Signal and slot wiring, the loop of `onSourcesReady` over the sources (lines 127-128), `onSourceAdded`, `onPlaylistActivated`, `isBeingPlayed`, `playlistInterface` and `jumpToCurrentTrack` (lines 88-91, 101-119, 153-158, 213-221): these are event plumbing and calls into the `SourceList`, `ViewManager` and `AudioEngine` singletons, whose code is not part of this model.
- `PlaylistModel::loadHistory`, `ensureResolved` and `AlbumModel::addFilteredCollection` (lines 83, 125, 135, 167): library and database code that is not part of this model. The rows that `loadHistory` returns are the parameter of `OnSourcesReady`, which replaces the model's rows with them. `ensureResolved` is counted in `resolveRequests`.
- Welcome.WelcomeWidget.CheckQueries: the timer's real time is not modelled, only its armed state. This covers the 2500 ms `HISTORY_RESOLVING_TIMEOUT` and the moment the repeating timer fires after a quiet period; `checkQueries` stopping it is what makes it fire once per arming (lines 41, 85-86, 164-165, 209). The model does not say *when* `CheckQueries` runs, only what it does.
- The query behind a row: it is an opaque item here, and `playedBy().second` is its `playedAt` field (line 175).
- Rendering in `PlaylistDelegate::paint` and `sizeHint` other than the author cut (lines 240-360): pixmaps, fonts, rectangles and font metrics.
- `changeEvent` retranslation, the `tr()` translation of the overlay text (line 145) and the `PlaylistWidget` constructor (lines 224-237, 363-367): UI glue. `NO_PLAYLISTS_TEXT` is the untranslated source string.
- Welcome.WelcomeWidget.OnSourcesReady: `loadHistory`'s own code is not part of this model, so the method promises only that the rows become the loaded ones. It does not promise that they are newest first or at most 25 rows; the invariant holds afterwards exactly when they are.
