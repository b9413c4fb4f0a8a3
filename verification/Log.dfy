/** The log of the controller: a ring of entries with a reading position. */
module Log {
  import opened Wrappers

  // ---- The ring seen from its history ----

  /** The entries still held by a ring of n places: one place always stays free. */
  function Window<T>(history: seq<T>, n: nat): seq<T>
    requires n > 0
  {
    if |history| < n then history else history[|history| - (n - 1)..]
  }

  /** The last m entries of s, or all of them. */
  function Last<T>(s: seq<T>, m: nat): seq<T> {
    if |s| <= m then s else s[|s| - m..]
  }

  /** What reading the window from place p on returns, one entry a call. */
  function FirstRead<T>(window: seq<T>, cursor: nat, max: nat): (p: nat)
    requires cursor <= |window|
    ensures p <= |window|
  {
    if cursor == 0 && |window| > max then |window| - max else cursor
  }

  lemma WindowGrows<T>(history: seq<T>, n: nat, e: T)
    requires n > 0
    ensures Window(history + [e], n) == if |Window(history, n)| < n - 1 then Window(history, n) + [e]
                                        else (Window(history, n) + [e])[1..]
  {
  }

  lemma LastOfWindow<T>(history: seq<T>, n: nat, m: nat)
    requires n > 0
    ensures Last(Window(history, n), m) == Last(history, if m < n then m else n - 1)
    ensures |Last(Window(history, n), m)|
            == if |history| <= m && |history| < n then |history| else if m < n then m else n - 1
  {
  }

  // ---- The ring ----

  /** The place i steps after start on a ring of n. */
  function Place(start: nat, i: nat, n: nat): (p: nat)
    requires n > 0
    ensures p < n
  {
    (start + i) % n
  }

  /** size entries from start on are the given window. */
  ghost predicate Holds<T>(log: seq<T>, start: nat, end: nat, next: nat, window: seq<T>, cursor: nat) {
    var n := |log|;
    && start < n && |window| < n && cursor <= |window|
    && end == Place(start, |window|, n) && next == Place(start, cursor, n)
    && forall i :: 0 <= i < |window| ==> log[Place(start, i, n)] == window[i]
  }

  // ---- Places on the ring ----

  lemma PlaceIs(start: nat, i: nat, n: nat)
    requires start < n && i <= n
    ensures Place(start, i, n) == if start + i < n then start + i else start + i - n
  {
    if start + i < n {
      assert (start + i) / n == 0;
    } else {
      assert (start + i) / n == 1;
    }
  }

  lemma PlaceSteps(start: nat, i: nat, n: nat)
    requires start < n && i < n
    ensures Place(start, 0, n) == start && Place(start, n, n) == start
    ensures Place(Place(start, i, n), 1, n) == Place(start, i + 1, n)
    ensures Place(Place(start, 1, n), i, n) == Place(start, i + 1, n)
  {
    hide Place;
    PlaceIs(start, 0, n);
    PlaceIs(start, n, n);
    PlaceIs(start, i, n);
    PlaceIs(start, i + 1, n);
    PlaceIs(start, 1, n);
    PlaceIs(Place(start, i, n), 1, n);
    PlaceIs(Place(start, 1, n), i, n);
  }

  /** Fewer than n steps lead to different places. */
  lemma PlacesDiffer(start: nat, i: nat, j: nat, n: nat)
    requires start < n && i < j < i + n && j <= n
    ensures Place(start, i, n) != Place(start, j, n)
  {
    hide Place;
    PlaceIs(start, i, n);
    PlaceIs(start, j, n);
  }

  /** The distance from the start to a place, as the code computes it. */
  lemma Distance(start: nat, size: nat, n: nat)
    requires start < n && size < n
    ensures var end := Place(start, size, n); size == if start <= end then end - start else n - start + end
  {
    hide Place;
    PlaceIs(start, size, n);
  }

  // ---- What the calls do ----

  lemma AddKeepsRoom<T>(log: seq<T>, start: nat, end: nat, next: nat, window: seq<T>, cursor: nat, e: T)
    requires Holds(log, start, end, next, window, cursor) && |window| < |log| - 1
    ensures end < |log| && Place(end, 1, |log|) != start
    ensures Holds(log[end := e], start, Place(end, 1, |log|), next, window + [e], cursor)
  {
    var n := |log|;
    hide Place;
    PlaceSteps(start, |window|, n);
    PlacesDiffer(start, 0, |window| + 1, n);
    forall i | 0 <= i < |window|
      ensures Place(start, i, n) != end
    {
      PlacesDiffer(start, i, |window|, n);
    }
  }

  lemma AddDropsOldest<T>(log: seq<T>, start: nat, end: nat, next: nat, window: seq<T>, cursor: nat, e: T)
    requires Holds(log, start, end, next, window, cursor) && |window| == |log| - 1
    ensures end < |log| && Place(end, 1, |log|) == start
    ensures var start' := Place(start, 1, |log|);
            Holds(log[end := e], start', start, start', (window + [e])[1..], 0)
  {
    var n := |log|;
    hide Place;
    PlaceSteps(start, |window|, n);
    PlaceSteps(Place(start, 1, n), 0, n);
    var window' := (window + [e])[1..];
    forall i | 0 <= i < |window'|
      ensures log[end := e][Place(Place(start, 1, n), i, n)] == window'[i]
    {
      PlaceSteps(start, i, n);
      if i + 1 < |window| {
        PlacesDiffer(start, i + 1, |window|, n);
      }
    }
    PlaceSteps(start, n - 1, n);
  }

  lemma CursorIs<T>(log: seq<T>, start: nat, end: nat, next: nat, window: seq<T>, cursor: nat)
    requires Holds(log, start, end, next, window, cursor)
    ensures start < |log| && next == Place(start, cursor, |log|)
    ensures next == start <==> cursor == 0
    ensures next == end <==> cursor == |window|
    ensures |window| == if start <= end then end - start else |log| - start + end
  {
    var n := |log|;
    hide Place;
    PlaceIs(start, 0, n);
    Distance(start, |window|, n);
    if cursor > 0 {
      PlacesDiffer(start, 0, cursor, n);
    }
    if cursor < |window| {
      PlacesDiffer(start, cursor, |window|, n);
    }
  }

  lemma MoveCursor<T>(log: seq<T>, start: nat, end: nat, next: nat, window: seq<T>, cursor: nat, p: nat)
    requires Holds(log, start, end, next, window, cursor) && p <= |window|
    ensures Holds(log, start, end, Place(start, p, |log|), window, p)
    ensures Place(start, 0, |log|) == start
    ensures p < |window| ==>
              && log[Place(start, p, |log|)] == window[p]
              && Place(Place(start, p, |log|), 1, |log|) == Place(start, p + 1, |log|)
  {
    hide Place;
    if p < |window| {
      PlaceSteps(start, p, |log|);
    }
    PlaceIs(start, 0, |log|);
  }

  class LogRing<T> {
    const log: array<T>
    var start: nat
    var end: nat
    var next: nat
    /** Everything added, and how many entries of the window the reader has passed; 0 when it is not reading. */
    ghost var history: seq<T>
    ghost var cursor: nat

    ghost predicate Valid()
      reads this, log
    {
      && log.Length > 0 && cursor <= |Window(history, log.Length)|
      && Holds(log[..], start, end, next, Window(history, log.Length), cursor)
    }

    constructor (entries: array<T>)
      requires entries.Length > 0
      ensures Valid() && log == entries && history == [] && cursor == 0
    {
      log := entries;
      start, end, next, history, cursor := 0, 0, 0, [], 0;
    }

    /** log_add for an entry that passes the level filter and for which there is memory. */
    method Add(e: T)
      requires Valid()
      modifies this, log
      ensures Valid() && history == old(history) + [e]
      ensures cursor == if |old(history)| < log.Length - 1 then old(cursor) else 0
    {
      hide Holds, Place, Window;
      var n := log.Length;
      WindowGrows(history, n, e);
      WindowSize(history, n);
      ghost var was, window := log[..], Window(history, n);
      if |window| < n - 1 {
        AddKeepsRoom(was, start, end, next, window, cursor, e);
      } else {
        AddDropsOldest(was, start, end, next, window, cursor, e);
      }
      log[end] := e;
      assert log[..] == was[end := e];
      history := history + [e];
      end := Place(end, 1, n);
      if end == start {
        start := Place(start, 1, n);
        next := start;
        cursor := 0;
      }
    }

    /** log_cycle: the next entry, or nothing at the end. The first call of a round skips to the last max entries. */
    method Cycle(max: nat) returns (entry: Option<T>)
      requires Valid()
      modifies this
      ensures Valid() && history == old(history) && start == old(start) && end == old(end)
      ensures var window := Window(history, log.Length);
              var p := FirstRead(window, old(cursor), max);
              && entry == (if p == |window| then None else Some(window[p]))
              && cursor == if p == |window| then 0 else p + 1
    {
      hide Holds, Place, Window;
      var n := log.Length;
      ghost var window := Window(history, n);
      CursorIs(log[..], start, end, next, window, cursor);
      ghost var p := FirstRead(window, cursor, max);
      MoveCursor(log[..], start, end, next, window, cursor, p);
      if next == start {
        var size := if start <= end then end - start else n - start + end;
        if size > max {
          next := Place(next, size - max, n);
        }
      }
      assert next == Place(start, p, n);
      CursorIs(log[..], start, end, next, window, p);
      var at := next;
      if next == end {
        next := start;
        cursor := 0;
        MoveCursor(log[..], start, end, at, window, p, 0);
        return None;
      }
      next := Place(next, 1, n);
      cursor := p + 1;
      MoveCursor(log[..], start, end, at, window, p, p + 1);
      entry := Some(log[at]);
    }

    /** A complete round, as the renderer does it: call until there is nothing. It visits exactly the last max entries
        held, oldest first, and the reading position is back at the start. */
    method Drain(max: nat) returns (seen: seq<T>)
      requires Valid() && cursor == 0
      modifies this
      ensures Valid() && history == old(history) && start == old(start) && end == old(end)
      ensures seen == Last(Window(history, log.Length), max)
      ensures cursor == 0 && next == start
    {
      hide Holds, Window;
      ghost var window := Window(history, log.Length);
      ghost var first := FirstRead(window, 0, max);
      seen := [];
      var entry := Cycle(max);
      while entry.Some?
        invariant Valid() && history == old(history) && start == old(start) && end == old(end)
        invariant if entry.Some? then 0 < cursor <= |window| && cursor == first + |seen| + 1
                  && entry.value == window[cursor - 1]
                  else cursor == 0 && first + |seen| == |window|
        invariant first + |seen| <= |window| && seen == window[first..first + |seen|]
        decreases |window| - |seen|, if entry.Some? then 1 else 0
      {
        seen := seen + [entry.value];
        entry := Cycle(max);
      }
      CursorIs(log[..], start, end, next, window, cursor);
    }
  }

  lemma WindowSize<T>(history: seq<T>, n: nat)
    requires n > 0
    ensures |Window(history, n)| == if |history| < n then |history| else n - 1
  {
  }
}
