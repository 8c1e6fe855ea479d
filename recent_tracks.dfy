/** The "recent tracks" history of the welcome panel, as values.

    The history is the list of rows of the tracks model. Each row is a played
    query together with the time it was played; the list is kept newest
    first, and at most HISTORY_TRACK_ITEMS rows survive an insertion. This
    module states, as functions on sequences, what one "playback finished"
    event does to that list, and proves the ordering, bounds and no-op
    properties of it. The widget class in module Welcome is proved against
    Record. */
module RecentTracks {

  /** Capacity of the history list. */
  const HISTORY_TRACK_ITEMS: nat := 25

  datatype Option<T> = None | Some(value: T)

  /** One row of the tracks model: the played query (opaque here) and the
      time at which it was played. */
  datatype Entry<T> = Entry(item: T, playedAt: nat)

  /** What a finished track does to the list: nothing, because it is not
      newer than the oldest row, or an insertion at a row index. */
  datatype Placement = Stale | At(index: nat)

  /** Rows ordered by play time, newest first (equal times allowed). */
  predicate NewestFirst<T>(s: seq<Entry<T>>) {
    forall i, j :: 0 <= i < j < |s| ==> s[j].playedAt <= s[i].playedAt
  }

  /** A track played at time t is ignored: the list has rows and its oldest
      (last) row was played no earlier than t. */
  predicate IsStale<T>(s: seq<Entry<T>>, t: nat) {
    |s| > 0 && t <= s[|s| - 1].playedAt
  }

  /** Rows i and i + 1 exist and bracket t: the first is no older than t,
      the second no newer. */
  predicate Brackets<T>(s: seq<Entry<T>>, t: nat, i: nat) {
    i + 1 < |s| && t <= s[i].playedAt && s[i + 1].playedAt <= t
  }

  /** The scan over adjacent pairs, starting at pair `from`: the first pair
      that brackets t, if any. */
  function FindSlot<T>(s: seq<Entry<T>>, t: nat, from: nat): (r: Option<nat>)
    decreases |s| - from
    ensures r.Some? ==> from <= r.value && Brackets(s, t, r.value)
    ensures forall k: nat :: from <= k && (r.None? || k < r.value) ==> !Brackets(s, t, k)
  {
    if from + 1 >= |s| then None
    else if Brackets(s, t, from) then Some(from)
    else FindSlot(s, t, from + 1)
  }

  /** When the row at `from` is no older than t and the last row no newer,
      the scan from `from` finds a bracketing pair. No ordering of the rows
      in between is needed. */
  lemma {:induction false} SlotFound<T>(s: seq<Entry<T>>, t: nat, from: nat)
    requires from + 1 < |s|
    requires t <= s[from].playedAt && s[|s| - 1].playedAt <= t
    ensures FindSlot(s, t, from).Some?
    decreases |s| - from
  {
    if !Brackets(s, t, from) {
      assert t < s[from + 1].playedAt;
      SlotFound(s, t, from + 1);
    }
  }

  /** Where a track played at time t goes in the list s. */
  function Place<T>(s: seq<Entry<T>>, t: nat): (p: Placement)
    ensures p.Stale? <==> IsStale(s, t)
    ensures s == [] ==> p == At(0)
    ensures !IsStale(s, t) && s != [] && s[0].playedAt <= t ==> p == At(0)
    ensures !IsStale(s, t) && s != [] && t < s[0].playedAt ==>
      p.At? && 1 <= p.index && Brackets(s, t, p.index - 1) &&
      forall k: nat :: k < p.index - 1 ==> !Brackets(s, t, k)
    ensures p.At? ==> p.index <= |s| && (s != [] ==> p.index < |s|)
  {
    if |s| == 0 then At(0)
    else if t <= s[|s| - 1].playedAt then Stale
    else if s[0].playedAt <= t then At(0)
    else
      SlotFound(s, t, 0);
      At(FindSlot(s, t, 0).value + 1)
  }

  /** The tracks model's insert: e becomes row i, the rows from i on move
      down by one. */
  function Insert<T>(s: seq<Entry<T>>, i: nat, e: Entry<T>): (r: seq<Entry<T>>)
    requires i <= |s|
    ensures |r| == |s| + 1 && r[i] == e
    ensures forall k :: 0 <= k < i ==> r[k] == s[k]
    ensures forall k :: i <= k < |s| ==> r[k + 1] == s[k]
  {
    s[..i] + [e] + s[i..]
  }

  /** The tracks model's remove: row i goes, the rows after it move up. */
  function RemoveAt<T>(s: seq<Entry<T>>, i: nat): (r: seq<Entry<T>>)
    requires i < |s|
    ensures |r| == |s| - 1
    ensures forall k :: 0 <= k < i ==> r[k] == s[k]
    ensures forall k :: i <= k < |r| ==> r[k] == s[k + 1]
  {
    s[..i] + s[i + 1..]
  }

  /** Removing the row just inserted gives back the list. */
  lemma RemoveInserted<T>(s: seq<Entry<T>>, i: nat, e: Entry<T>)
    requires i <= |s|
    ensures RemoveAt(Insert(s, i, e), i) == s
  {
  }

  /** The cut after an insert: when the list is longer than the capacity,
      the single row at index HISTORY_TRACK_ITEMS is dropped; every other
      row stays, in order. */
  function Trim<T>(s: seq<Entry<T>>): (r: seq<Entry<T>>)
    ensures |s| <= HISTORY_TRACK_ITEMS ==> r == s
    ensures |s| > HISTORY_TRACK_ITEMS ==> |r| == |s| - 1
    ensures forall k :: 0 <= k < |r| ==>
      r[k] == if k < HISTORY_TRACK_ITEMS then s[k] else s[k + 1]
  {
    if |s| > HISTORY_TRACK_ITEMS then RemoveAt(s, HISTORY_TRACK_ITEMS) else s
  }

  /** The history after a track played at e.playedAt has finished. */
  function Record<T>(s: seq<Entry<T>>, e: Entry<T>): (r: seq<Entry<T>>)
    ensures IsStale(s, e.playedAt) ==> r == s
    ensures s == [] ==> r == [e]
    ensures !IsStale(s, e.playedAt) ==>
      |r| == if |s| < HISTORY_TRACK_ITEMS then |s| + 1 else |s|
    ensures |s| <= HISTORY_TRACK_ITEMS ==> |r| <= HISTORY_TRACK_ITEMS
  {
    match Place(s, e.playedAt)
    case Stale => s
    case At(i) => Trim(Insert(s, i, e))
  }

  /** An entry no newer than its upper neighbour and no older than its
      lower one keeps a newest-first list newest first. */
  lemma InsertBetween<T>(s: seq<Entry<T>>, i: nat, e: Entry<T>)
    requires i <= |s| && NewestFirst(s)
    requires 0 < i ==> e.playedAt <= s[i - 1].playedAt
    requires i < |s| ==> s[i].playedAt <= e.playedAt
    ensures NewestFirst(Insert(s, i, e))
  {
    var r := Insert(s, i, e);
    forall a, b | 0 <= a < b < |r| ensures r[b].playedAt <= r[a].playedAt {
      if b < i {
        assert r[a] == s[a] && r[b] == s[b];
      } else if b == i {
        assert r[a] == s[a] && s[i - 1].playedAt <= s[a].playedAt;
      } else if a < i {
        assert r[a] == s[a] && r[b] == s[b - 1];
      } else if a == i {
        assert r[b] == s[b - 1] && s[b - 1].playedAt <= s[i].playedAt;
      } else {
        assert r[a] == s[a - 1] && r[b] == s[b - 1];
      }
    }
  }

  /** Inserting at the place Place picks keeps a newest-first list
      newest first. */
  lemma InsertKeepsNewestFirst<T>(s: seq<Entry<T>>, e: Entry<T>)
    requires NewestFirst(s) && !IsStale(s, e.playedAt)
    ensures NewestFirst(Insert(s, Place(s, e.playedAt).index, e))
  {
    var i := Place(s, e.playedAt).index;
    if i > 0 {
      assert Brackets(s, e.playedAt, i - 1);
    }
    InsertBetween(s, i, e);
  }

  /** Dropping rows keeps a newest-first list newest first. */
  lemma TrimKeepsNewestFirst<T>(s: seq<Entry<T>>)
    requires NewestFirst(s)
    ensures NewestFirst(Trim(s))
  {
  }

  /** A playback event keeps the history newest first, trim included. */
  lemma RecordKeepsNewestFirst<T>(s: seq<Entry<T>>, e: Entry<T>)
    requires NewestFirst(s)
    ensures NewestFirst(Record(s, e))
  {
    if !IsStale(s, e.playedAt) {
      InsertKeepsNewestFirst(s, e);
      TrimKeepsNewestFirst(Insert(s, Place(s, e.playedAt).index, e));
    }
  }

  /** A track at least as new as the newest row goes to the head; every
      other row moves down by one, in order, and when the list was full
      its last row falls off. */
  lemma NewestGoesToHead<T>(s: seq<Entry<T>>, e: Entry<T>)
    requires s != [] && s[|s| - 1].playedAt < e.playedAt && s[0].playedAt <= e.playedAt
    ensures |s| < HISTORY_TRACK_ITEMS ==> Record(s, e) == [e] + s
    ensures |s| >= HISTORY_TRACK_ITEMS ==>
      Record(s, e) == [e] + RemoveAt(s, HISTORY_TRACK_ITEMS - 1)
  {
  }

  /** An accepted track into a history within capacity: it sits at the row
      Place picks, and the other rows are the old list in its old order,
      less its last row when the list was full. */
  lemma RecordKeepsOrder<T>(s: seq<Entry<T>>, e: Entry<T>)
    requires |s| <= HISTORY_TRACK_ITEMS && !IsStale(s, e.playedAt)
    ensures Place(s, e.playedAt).index < |Record(s, e)|
    ensures Record(s, e)[Place(s, e.playedAt).index] == e
    ensures |s| < HISTORY_TRACK_ITEMS ==>
      RemoveAt(Record(s, e), Place(s, e.playedAt).index) == s
    ensures |s| == HISTORY_TRACK_ITEMS ==>
      RemoveAt(Record(s, e), Place(s, e.playedAt).index) == s[..HISTORY_TRACK_ITEMS - 1]
  {
  }

  /** The history after a run of playback events, oldest event first. */
  function RecordAll<T>(s: seq<Entry<T>>, events: seq<Entry<T>>): (r: seq<Entry<T>>)
    decreases |events|
  {
    if events == [] then s else RecordAll(Record(s, events[0]), events[1..])
  }

  /** Whatever the events, a newest-first history within capacity stays
      newest first and within capacity. */
  lemma {:induction false} RecordAllKeepsInvariant<T>(s: seq<Entry<T>>, events: seq<Entry<T>>)
    requires NewestFirst(s) && |s| <= HISTORY_TRACK_ITEMS
    ensures NewestFirst(RecordAll(s, events)) && |RecordAll(s, events)| <= HISTORY_TRACK_ITEMS
    decreases |events|
  {
    if events != [] {
      RecordKeepsNewestFirst(s, events[0]);
      RecordAllKeepsInvariant(Record(s, events[0]), events[1..]);
    }
  }
}
