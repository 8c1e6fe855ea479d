/** The welcome panel's state that its event handlers change: the rows of
    the recent-tracks model and the resolve timer, a repeating timer that is
    stopped when it fires and then asks that model to resolve its queries.
    Painting, layout and the signal wiring are not modelled. */
module Welcome {
  import opened RecentTracks

  /** Text of the playlist overlay when no playlist is listed. */
  const NO_PLAYLISTS_TEXT: string := "No recently created playlists in your network."

  /** The playlist view's overlay. */
  datatype Overlay = Hidden | Shown(text: string)

  /** updatePlaylists: the overlay for a playlist model with rowCount rows. */
  function PlaylistsOverlay(rowCount: int): (o: Overlay)
    ensures o.Shown? <==> rowCount == 0
    ensures o.Shown? ==> o.text == NO_PLAYLISTS_TEXT
  {
    if rowCount == 0 then Shown(NO_PLAYLISTS_TEXT) else Hidden
  }

  class WelcomeWidget<T> {
    /** Rows of the recent-tracks model, row 0 first. */
    var tracks: seq<Entry<T>>
    /** Whether the resolve timer is running. */
    var timerActive: bool
    /** How many times the tracks model was asked to resolve its queries. */
    var resolveRequests: nat

    /** The history is newest first and within capacity. */
    predicate Valid()
      reads this
    {
      NewestFirst(tracks) && |tracks| <= HISTORY_TRACK_ITEMS
    }

    /** A new panel: an empty tracks model and an idle timer. */
    constructor ()
      ensures tracks == [] && !timerActive && resolveRequests == 0
      ensures Valid()
    {
      tracks := [];
      timerActive := false;
      resolveRequests := 0;
    }

    /** onSourcesReady: the tracks model's rows become `history`, the
        rows its history load returns. The timer is not touched. */
    method OnSourcesReady(history: seq<Entry<T>>)
      modifies this
      ensures tracks == history
      ensures timerActive == old(timerActive) && resolveRequests == old(resolveRequests)
      ensures Valid() <==> NewestFirst(history) && |history| <= HISTORY_TRACK_ITEMS
    {
      tracks := history;
    }

    /** checkQueries: the timer fired; stop it and ask for resolution. */
    method CheckQueries()
      modifies this
      ensures tracks == old(tracks)
      ensures !timerActive
      ensures resolveRequests == old(resolveRequests) + 1
    {
      if timerActive {
        timerActive := false;
      }
      resolveRequests := resolveRequests + 1;
    }

    /** onPlaybackFinished: record the finished track e in the history and,
        unless e was stale, (re)start the resolve timer. */
    method OnPlaybackFinished(e: Entry<T>)
      modifies this
      ensures tracks == Record(old(tracks), e)
      ensures timerActive == (old(timerActive) || !IsStale(old(tracks), e.playedAt))
      ensures resolveRequests == old(resolveRequests)
      ensures old(Valid()) ==> Valid()
    {
      ghost var before := tracks;
      var count := |tracks|;
      var playtime := e.playedAt;

      if count > 0 {
        if tracks[count - 1].playedAt >= playtime {
          return;
        }

        if tracks[0].playedAt <= playtime {
          tracks := Insert(tracks, 0, e);
          assert Place(before, playtime) == At(0);
        } else {
          SlotFound(tracks, playtime, 0);
          var i := 0;
          while i < count - 1
            invariant 0 <= i <= count - 1
            invariant tracks == before
            invariant FindSlot(before, playtime, i) == FindSlot(before, playtime, 0)
          {
            if tracks[i].playedAt >= playtime && tracks[i + 1].playedAt <= playtime {
              assert FindSlot(before, playtime, i) == Some(i);
              assert Place(before, playtime) == At(i + 1);
              tracks := Insert(tracks, i + 1, e);
              break;
            }
            i := i + 1;
          }
        }
      } else {
        tracks := Insert(tracks, 0, e);
      }
      assert tracks == Insert(before, Place(before, playtime).index, e);

      if |tracks| > HISTORY_TRACK_ITEMS {
        tracks := RemoveAt(tracks, HISTORY_TRACK_ITEMS);
      }

      if timerActive {
        timerActive := false;
      }
      timerActive := true;

      if NewestFirst(before) {
        RecordKeepsNewestFirst(before, e);
      }
    }
  }

  /** A caller's view: two tracks finish in a row, then a replay of the
      first one, as old as the oldest row, is ignored; when the timer then
      fires, the history holds the two tracks newest first and one resolve
      request has been made. */
  method TwoPlaybacksThenTimeout<T>(a: T, b: T)
  {
    var w := new WelcomeWidget<T>();
    w.OnPlaybackFinished(Entry(a, 100));
    assert w.tracks == [Entry(a, 100)] && w.timerActive;
    w.OnPlaybackFinished(Entry(b, 250));
    assert Place([Entry(a, 100)], 250) == At(0);
    assert w.tracks == [Entry(b, 250), Entry(a, 100)] && w.timerActive;
    w.OnPlaybackFinished(Entry(a, 100));
    assert w.tracks == [Entry(b, 250), Entry(a, 100)];
    w.CheckQueries();
    assert !w.timerActive && w.resolveRequests == 1;
  }
}
