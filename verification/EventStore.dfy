/** The events table: insertion, the two ordered listings, and paging through the newest-first one. */
module EventStore {
  import opened Wrappers
  import opened Timeline
  import opened Ordering

  // --- Listings ---

  function OtherId(): (Event, Event) -> bool {
    (a: Event, b: Event) => a.id != b.id
  }

  ghost predicate DistinctIds(events: seq<Event>) {
    Pairwise(OtherId(), events)
  }

  function Rank(e: Event, newestFirst: bool): int {
    if newestFirst then -e.timestamp else e.timestamp
  }

  function NotBefore(newestFirst: bool): (Event, Event) -> bool {
    (a, b) => Rank(a, newestFirst) <= Rank(b, newestFirst)
  }

  ghost predicate Ordered(events: seq<Event>, newestFirst: bool) {
    Pairwise(NotBefore(newestFirst), events)
  }

  /** Puts an event behind everything that does not rank after it. */
  function Placed(events: seq<Event>, e: Event, newestFirst: bool): seq<Event> {
    if events == [] || Rank(e, newestFirst) < Rank(events[0], newestFirst) then [e] + events
    else [events[0]] + Placed(events[1..], e, newestFirst)
  }

  /** ORDER BY timestamp_ms; ties stay in insertion order. */
  function Arranged(events: seq<Event>, newestFirst: bool): seq<Event> {
    if events == [] then []
    else Placed(Arranged(events[..|events| - 1], newestFirst), events[|events| - 1], newestFirst)
  }

  function Tagged(events: seq<Event>, scenarioId: string): seq<Event> {
    if events == [] then []
    else Tagged(events[..|events| - 1], scenarioId) +
         if events[|events| - 1].scenarioId == Some(scenarioId) then [events[|events| - 1]] else []
  }

  function ListByScenario(events: seq<Event>, scenarioId: string): seq<Event> {
    Arranged(Tagged(events, scenarioId), false)
  }

  /** A cursor that is not positive means no cursor. */
  predicate Below(e: Event, cursor: int) {
    cursor > 0 ==> e.timestamp < cursor
  }

  function Selected(events: seq<Event>, cursor: int): seq<Event> {
    if events == [] then []
    else Selected(events[..|events| - 1], cursor) +
         if Below(events[|events| - 1], cursor) then [events[|events| - 1]] else []
  }

  function ListByTimestamp(events: seq<Event>, limit: nat, cursor: int): seq<Event> {
    var rows := Arranged(Selected(events, cursor), true);
    if |rows| <= limit then rows else rows[..limit]
  }

  // --- Pages ---

  function Different(): (Event, Event) -> bool {
    (a: Event, b: Event) => a != b
  }

  ghost predicate NoDuplicates(events: seq<Event>) {
    Pairwise(Different(), events)
  }

  /** What the query promises whatever order the database gives to rows of one timestamp. */
  ghost predicate IsPage(events: seq<Event>, limit: nat, cursor: int, page: seq<Event>) {
    && |page| <= limit
    && NoDuplicates(page) && Ordered(page, true)
    && (forall e | e in page :: e in events && Below(e, cursor))
    && forall e | e in events && Below(e, cursor) && e !in page ::
         |page| == limit && (limit > 0 ==> e.timestamp <= page[limit - 1].timestamp)
  }

  /** The same in terms of timestamps. */
  lemma PageByTimestamps(events: seq<Event>, limit: nat, cursor: int, page: seq<Event>)
    requires IsPage(events, limit, cursor, page)
    ensures forall i, j :: 0 <= i < j < |page| ==> page[i].timestamp >= page[j].timestamp && page[i] != page[j]
    ensures forall e | e in page :: e in events && (cursor > 0 ==> e.timestamp < cursor)
    ensures forall e | e in events && (cursor > 0 ==> e.timestamp < cursor) && e !in page ::
      |page| == limit && (limit > 0 ==> e.timestamp <= page[limit - 1].timestamp)
  {
    assert forall i, j :: 0 <= i < j < |page| ==> NotBefore(true)(page[i], page[j]) && Different()(page[i], page[j]);
  }

  lemma {:induction false} PlacedMembers(events: seq<Event>, e: Event, newestFirst: bool)
    ensures forall x :: x in Placed(events, e, newestFirst) <==> x == e || x in events
    ensures |Placed(events, e, newestFirst)| == |events| + 1
  {
    if events != [] && Rank(e, newestFirst) >= Rank(events[0], newestFirst) {
      PlacedMembers(events[1..], e, newestFirst);
      HeadAndTail(Different(), events);
    }
  }

  lemma {:induction false} PlacedInOrder(events: seq<Event>, e: Event, newestFirst: bool)
    requires Ordered(events, newestFirst)
    ensures Ordered(Placed(events, e, newestFirst), newestFirst)
  {
    var placed := Placed(events, e, newestFirst);
    HeadAndTail(NotBefore(newestFirst), placed);
    if events != [] {
      HeadAndTail(NotBefore(newestFirst), events);
    }
    if events == [] || Rank(e, newestFirst) < Rank(events[0], newestFirst) {
      assert placed[1..] == events;
    } else {
      assert placed[1..] == Placed(events[1..], e, newestFirst);
      PlacedMembers(events[1..], e, newestFirst);
      PlacedInOrder(events[1..], e, newestFirst);
    }
  }

  lemma {:induction false} PlacedOnce(events: seq<Event>, e: Event, newestFirst: bool)
    requires NoDuplicates(events) && e !in events
    ensures NoDuplicates(Placed(events, e, newestFirst))
  {
    var placed := Placed(events, e, newestFirst);
    HeadAndTail(Different(), placed);
    if events == [] || Rank(e, newestFirst) < Rank(events[0], newestFirst) {
      assert placed[1..] == events;
    } else {
      HeadAndTail(Different(), events);
      assert placed[1..] == Placed(events[1..], e, newestFirst);
      PlacedMembers(events[1..], e, newestFirst);
      PlacedOnce(events[1..], e, newestFirst);
    }
  }

  lemma EventsBefore(events: seq<Event>) returns (init: seq<Event>, last: Event)
    requires events != []
    ensures init == events[..|events| - 1] && last == events[|events| - 1]
    ensures forall x :: x in events <==> x == last || x in init
    ensures NoDuplicates(events) ==> NoDuplicates(init) && last !in init
  {
    init, last := events[..|events| - 1], events[|events| - 1];
    assert events == init + [last];
  }

  lemma {:induction false} ArrangedRows(events: seq<Event>, newestFirst: bool)
    ensures forall x :: x in Arranged(events, newestFirst) <==> x in events
    ensures |Arranged(events, newestFirst)| == |events|
    ensures Ordered(Arranged(events, newestFirst), newestFirst)
    ensures NoDuplicates(events) ==> NoDuplicates(Arranged(events, newestFirst))
  {
    if events != [] {
      var init, last := EventsBefore(events);
      ArrangedRows(init, newestFirst);
      PlacedMembers(Arranged(init, newestFirst), last, newestFirst);
      PlacedInOrder(Arranged(init, newestFirst), last, newestFirst);
      if NoDuplicates(events) {
        PlacedOnce(Arranged(init, newestFirst), last, newestFirst);
      }
    }
  }

  lemma {:induction false} TaggedRows(events: seq<Event>, scenarioId: string)
    ensures forall e :: e in Tagged(events, scenarioId) <==> e in events && e.scenarioId == Some(scenarioId)
    ensures NoDuplicates(events) ==> NoDuplicates(Tagged(events, scenarioId))
  {
    if events != [] {
      var init, last := events[..|events| - 1], events[|events| - 1];
      assert events == init + [last];
      TaggedRows(init, scenarioId);
    }
  }

  /** A scenario's listing is exactly its events, each once, oldest first. */
  lemma ListByScenarioIsComplete(events: seq<Event>, scenarioId: string)
    requires DistinctIds(events)
    ensures var listed := ListByScenario(events, scenarioId);
      && (forall i, j :: 0 <= i < j < |listed| ==> listed[i].timestamp <= listed[j].timestamp)
      && (forall i, j :: 0 <= i < j < |listed| ==> listed[i] != listed[j])
      && |listed| == |Tagged(events, scenarioId)|
      && forall e :: e in listed <==> e in events && e.scenarioId == Some(scenarioId)
  {
    TaggedRows(events, scenarioId);
    ArrangedRows(Tagged(events, scenarioId), false);
    var listed := ListByScenario(events, scenarioId);
    assert forall i, j :: 0 <= i < j < |listed| ==>
      NotBefore(false)(listed[i], listed[j]) && Different()(listed[i], listed[j]);
  }

  lemma {:induction false} SelectedRows(events: seq<Event>, cursor: int)
    ensures forall e :: e in Selected(events, cursor) <==> e in events && Below(e, cursor)
    ensures NoDuplicates(events) ==> NoDuplicates(Selected(events, cursor))
  {
    if events != [] {
      var init, last := events[..|events| - 1], events[|events| - 1];
      assert events == init + [last];
      SelectedRows(init, cursor);
    }
  }

  lemma ListByTimestampIsPage(events: seq<Event>, limit: nat, cursor: int)
    requires DistinctIds(events)
    ensures IsPage(events, limit, cursor, ListByTimestamp(events, limit, cursor))
    ensures var page := ListByTimestamp(events, limit, cursor);
      && |page| <= limit
      && (forall i, j :: 0 <= i < j < |page| ==> page[i].timestamp >= page[j].timestamp && page[i] != page[j])
      && (forall e | e in page :: e in events && (cursor > 0 ==> e.timestamp < cursor))
      && forall e | e in events && (cursor > 0 ==> e.timestamp < cursor) && e !in page ::
           |page| == limit && (limit > 0 ==> e.timestamp <= page[limit - 1].timestamp)
  {
    var rows := Arranged(Selected(events, cursor), true);
    SelectedRows(events, cursor);
    ArrangedRows(Selected(events, cursor), true);
    if |rows| > limit {
      assert forall j :: 0 <= j < limit ==> rows[..limit][j] == rows[j];
      forall e | e in rows && e !in rows[..limit]
        ensures limit > 0 ==> e.timestamp <= rows[limit - 1].timestamp
      {
        var i :| 0 <= i < |rows| && rows[i] == e;
        assert limit > 0 ==> Rank(rows[limit - 1], true) <= Rank(rows[i], true);
      }
    }
    PageByTimestamps(events, limit, cursor, ListByTimestamp(events, limit, cursor));
  }

  /** A client's walk: ask again below the last timestamp until a page comes back short. */
  ghost predicate IsWalk(events: seq<Event>, limit: nat, cursor: int, pages: seq<seq<Event>>)
    requires limit > 0
    decreases |pages|
  {
    && pages != []
    && IsPage(events, limit, cursor, pages[0])
    && if |pages[0]| < limit then |pages| == 1
       else IsWalk(events, limit, pages[0][limit - 1].timestamp, pages[1..])
  }

  function Joined(pages: seq<seq<Event>>): seq<Event> {
    if pages == [] then [] else pages[0] + Joined(pages[1..])
  }

  ghost predicate Positive(events: seq<Event>) {
    forall e | e in events :: e.timestamp > 0
  }

  ghost predicate DistinctTimestamps(events: seq<Event>) {
    forall a, b | a in events && b in events && a.timestamp == b.timestamp :: a == b
  }

  /** A full page ends on the event's timestamp without the event: the next page starts below it. */
  ghost predicate CutOff(limit: nat, pages: seq<seq<Event>>, e: Event)
    requires limit > 0
  {
    exists k :: 0 <= k < |pages| && |pages[k]| == limit && pages[k][limit - 1].timestamp == e.timestamp &&
      e !in pages[k]
  }

  /** No repeats, newest first across page borders, and the events missed are exactly those cut
      off by the end of a full page. */
  ghost predicate Covers(events: seq<Event>, limit: nat, cursor: int, pages: seq<seq<Event>>)
    requires limit > 0
  {
    var joined := Joined(pages);
    && NoDuplicates(joined) && Ordered(joined, true)
    && (forall e | e in joined :: e in events && Below(e, cursor))
    && forall e | e in events && Below(e, cursor) :: e !in joined <==> CutOff(limit, pages, e)
  }

  lemma FullPageCovers(events: seq<Event>, limit: nat, cursor: int, pages: seq<seq<Event>>)
    requires limit > 0 && Positive(events) && pages != [] && |pages[0]| == limit
    requires IsPage(events, limit, cursor, pages[0])
    requires Covers(events, limit, pages[0][limit - 1].timestamp, pages[1..])
    ensures Covers(events, limit, cursor, pages)
  {
    var page, tail := pages[0], Joined(pages[1..]);
    var last := page[limit - 1];
    assert last in page;
    forall x | x in page ensures last.timestamp <= x.timestamp {
      EndsPage(page, x);
    }
    JoinInOrder(page, tail);
    forall e | e in events && Below(e, cursor)
      ensures e !in page + tail <==> CutOff(limit, pages, e)
    {
      CutOffHereOrLater(events, limit, pages, e);
    }
  }

  /** Behind a full page lie only older events, so its end cuts off exactly its own ties. */
  lemma CutOffHereOrLater(events: seq<Event>, limit: nat, pages: seq<seq<Event>>, e: Event)
    requires limit > 0 && pages != [] && |pages[0]| == limit && pages[0][limit - 1].timestamp > 0
    requires Covers(events, limit, pages[0][limit - 1].timestamp, pages[1..])
    ensures CutOff(limit, pages, e) <==>
      if e.timestamp < pages[0][limit - 1].timestamp then CutOff(limit, pages[1..], e)
      else e.timestamp == pages[0][limit - 1].timestamp && e !in pages[0]
  {
    var t, rest := pages[0][limit - 1].timestamp, pages[1..];
    if CutOff(limit, pages, e) {
      var k :| 0 <= k < |pages| && |pages[k]| == limit && pages[k][limit - 1].timestamp == e.timestamp &&
        e !in pages[k];
      if k > 0 {
        assert rest[k - 1] == pages[k];
        PageInJoined(rest, k - 1, pages[k][limit - 1]);
      }
    }
    if CutOff(limit, rest, e) {
      var k :| 0 <= k < |rest| && |rest[k]| == limit && rest[k][limit - 1].timestamp == e.timestamp && e !in rest[k];
      assert pages[k + 1] == rest[k];
    }
  }

  lemma ShortPageCovers(events: seq<Event>, limit: nat, cursor: int, pages: seq<seq<Event>>)
    requires |pages| == 1 && |pages[0]| < limit && IsPage(events, limit, cursor, pages[0])
    ensures Covers(events, limit, cursor, pages)
  {
    assert Joined(pages) == pages[0] + Joined([]) == pages[0];
  }

  /** In any walk an event is missed if and only if the end of a full page cuts it off from others
      of its timestamp; what is not missed comes once, newest first. */
  lemma {:induction false} WalkMissesExactlyTheCutOff(events: seq<Event>, limit: nat, cursor: int,
      pages: seq<seq<Event>>)
    requires limit > 0 && Positive(events) && IsWalk(events, limit, cursor, pages)
    ensures Covers(events, limit, cursor, pages)
    decreases |pages|
  {
    if |pages[0]| < limit {
      ShortPageCovers(events, limit, cursor, pages);
    } else {
      WalkMissesExactlyTheCutOff(events, limit, pages[0][limit - 1].timestamp, pages[1..]);
      FullPageCovers(events, limit, cursor, pages);
    }
  }

  predicate Filled(limit: nat, pages: seq<seq<Event>>) {
    |pages| <= 1 || (|pages[0]| == limit && Filled(limit, pages[1..]))
  }

  /** Every page but the last is full. */
  lemma {:induction false} WalkFillsPages(events: seq<Event>, limit: nat, cursor: int, pages: seq<seq<Event>>)
    requires limit > 0 && IsWalk(events, limit, cursor, pages)
    ensures Filled(limit, pages)
    decreases |pages|
  {
    if |pages[0]| == limit {
      WalkFillsPages(events, limit, pages[0][limit - 1].timestamp, pages[1..]);
    }
  }

  lemma {:induction false} FilledPagesHold(limit: nat, pages: seq<seq<Event>>)
    requires Filled(limit, pages)
    ensures |Joined(pages)| >= (|pages| - 1) * limit
  {
    if |pages| > 1 {
      var rest := pages[1..];
      FilledPagesHold(limit, rest);
      assert (|pages| - 1) * limit == (|rest| - 1) * limit + limit;
    }
  }

  lemma EndsPage(page: seq<Event>, x: Event)
    requires Ordered(page, true) && x in page
    ensures page[|page| - 1].timestamp <= x.timestamp
  {
    var i :| 0 <= i < |page| && page[i] == x;
    assert Rank(page[i], true) <= Rank(page[|page| - 1], true);
  }

  lemma JoinInOrder(page: seq<Event>, tail: seq<Event>)
    requires NoDuplicates(page) && Ordered(page, true) && NoDuplicates(tail) && Ordered(tail, true)
    requires forall x, y | x in page && y in tail :: y.timestamp < x.timestamp
    ensures NoDuplicates(page + tail) && Ordered(page + tail, true)
  {
    forall i, j | 0 <= i < j < |page + tail|
      ensures (page + tail)[i] != (page + tail)[j]
      ensures Rank((page + tail)[i], true) <= Rank((page + tail)[j], true)
    {
      if i < |page| <= j {
        assert page[i] in page && tail[j - |page|] in tail;
      }
    }
  }

  function Dropped(b: seq<Event>, k: nat): seq<Event>
    requires k < |b|
  {
    b[..k] + b[k + 1..]
  }

  lemma DroppedRows(b: seq<Event>, k: nat, e: Event)
    requires k < |b| && e in b && e != b[k]
    ensures e in Dropped(b, k)
  {
    var i :| 0 <= i < |b| && b[i] == e;
    assert i < k ==> Dropped(b, k)[i] == e;
    assert i > k ==> Dropped(b, k)[i - 1] == e;
  }

  lemma {:induction false} NoDuplicatesFit(a: seq<Event>, b: seq<Event>)
    requires NoDuplicates(a) && forall e | e in a :: e in b
    ensures |a| <= |b|
  {
    if a != [] {
      assert a[0] in b;
      var k :| 0 <= k < |b| && b[k] == a[0];
      forall e | e in a[1..] ensures e in Dropped(b, k) {
        assert e in a;
        DroppedRows(b, k, e);
      }
      NoDuplicatesFit(a[1..], Dropped(b, k));
    }
  }

  lemma HeadsAgree(a: seq<Event>, b: seq<Event>)
    requires Ordered(a, true) && Ordered(b, true) && DistinctTimestamps(a)
    requires a != [] && b != [] && a[0] in b && b[0] in a
    ensures a[0] == b[0]
  {
    var i :| 0 <= i < |a| && a[i] == b[0];
    var j :| 0 <= j < |b| && b[j] == a[0];
    assert Rank(a[0], true) <= Rank(a[i], true) && Rank(b[0], true) <= Rank(b[j], true);
    assert a[0] in a && a[i] in a;
  }

  /** Two strictly descending lists of the same events are the same list. */
  lemma {:induction false} DescendingIsUnique(a: seq<Event>, b: seq<Event>)
    requires NoDuplicates(a) && NoDuplicates(b) && Ordered(a, true) && Ordered(b, true)
    requires DistinctTimestamps(a) && forall e :: e in a <==> e in b
    ensures a == b
  {
    assert a != [] ==> a[0] in b;
    assert b != [] ==> b[0] in a;
    if a != [] {
      HeadsAgree(a, b);
      HeadAndTail(Different(), a);
      HeadAndTail(Different(), b);
      HeadAndTail(NotBefore(true), a);
      HeadAndTail(NotBefore(true), b);
      DescendingIsUnique(a[1..], b[1..]);
      assert a == [a[0]] + a[1..] && b == [b[0]] + b[1..];
    }
  }

  // --- Which tables page completely ---

  lemma SameSizeSameRows(a: seq<Event>, b: seq<Event>, e: Event)
    requires NoDuplicates(a) && (forall x | x in a :: x in b) && |a| >= |b| && e in b
    ensures e in a
  {
    if e !in a {
      var k :| 0 <= k < |b| && b[k] == e;
      forall x | x in a ensures x in Dropped(b, k) {
        DroppedRows(b, k, x);
      }
      NoDuplicatesFit(a, Dropped(b, k));
    }
  }

  lemma SomeRowLeftOut(a: seq<Event>, b: seq<Event>) returns (e: Event)
    requires NoDuplicates(a) && |a| > |b|
    ensures e in a && e !in b
  {
    if forall x | x in a :: x in b {
      NoDuplicatesFit(a, b);
    }
    e :| e in a && e !in b;
  }

  /** `rows` are the events below the cursor, newest first. */
  ghost predicate RowsBelow(events: seq<Event>, cursor: int, rows: seq<Event>) {
    NoDuplicates(rows) && Ordered(rows, true) && forall e :: e in rows <==> e in events && Below(e, cursor)
  }

  lemma SplitRows(rows: seq<Event>, n: nat) returns (top: seq<Event>, rest: seq<Event>)
    requires 0 < n <= |rows| && NoDuplicates(rows) && Ordered(rows, true)
    ensures top == rows[..n] && rest == rows[n..]
    ensures NoDuplicates(top) && NoDuplicates(rest) && Ordered(rest, true)
    ensures forall e | e in rows :: e in top || e in rest
    ensures forall e | e in top :: e in rows && e !in rest && e.timestamp >= rows[n - 1].timestamp
    ensures forall e | e in rest :: e in rows && e.timestamp <= rows[n].timestamp
  {
    top, rest := rows[..n], rows[n..];
    TwoParts(Different(), rows, n);
    TwoParts(NotBefore(true), rows, n);
    forall e | e in top ensures e.timestamp >= rows[n - 1].timestamp {
      var k :| 0 <= k < n && rows[k] == e;
      assert k < n - 1 ==> NotBefore(true)(rows[k], rows[n - 1]);
    }
    forall e | e in rest ensures e.timestamp <= rows[n].timestamp {
      var k :| 0 <= k < |rest| && rest[k] == e;
      assert k > 0 ==> NotBefore(true)(rest[0], rest[k]);
    }
  }

  /** A page that could be full is. */
  lemma PageIsFull(events: seq<Event>, limit: nat, cursor: int, page: seq<Event>, rows: seq<Event>)
    requires IsPage(events, limit, cursor, page) && RowsBelow(events, cursor, rows) && |rows| >= limit
    ensures |page| == limit
  {
    if |page| < limit {
      var e := SomeRowLeftOut(rows, page);
    }
  }

  /** And it ends on the timestamp on which its share of the rows ends. */
  lemma PageEndsLikeRows(events: seq<Event>, limit: nat, cursor: int, page: seq<Event>, rows: seq<Event>)
    requires limit > 0 && IsPage(events, limit, cursor, page) && RowsBelow(events, cursor, rows) && |rows| >= limit
    ensures |page| == limit && page[limit - 1].timestamp == rows[limit - 1].timestamp
  {
    PageIsFull(events, limit, cursor, page, rows);
    var above := rows[..limit - 1];
    var low := SomeRowLeftOut(page, above);
    EndsPage(page, low);
    NotAboveShare(rows, limit, low);
    var top, rest := SplitRows(rows, limit);
    var high := SomeRowLeftOut(top, page[..limit - 1]);
    assert high in events;
    assert high in page ==> high == page[limit - 1] by {
      assert page == page[..limit - 1] + [page[limit - 1]];
    }
  }

  lemma NotAboveShare(rows: seq<Event>, limit: nat, e: Event)
    requires 0 < limit <= |rows| && Ordered(rows, true) && e in rows && e !in rows[..limit - 1]
    ensures e.timestamp <= rows[limit - 1].timestamp
  {
    var above := rows[..limit - 1];
    assert forall j :: 0 <= j < limit - 1 ==> above[j] == rows[j];
    var k :| 0 <= k < |rows| && rows[k] == e;
    assert k > limit - 1 ==> NotBefore(true)(rows[limit - 1], rows[k]);
  }

  /** A caller's check on the table alone: where a multiple of the limit divides the newest-first
      rows, the timestamps on both sides differ. */
  ghost predicate NoTieAtBorders(rows: seq<Event>, limit: nat)
    requires limit > 0
  {
    forall i | 0 < i < |rows| && i % limit == 0 :: rows[i - 1].timestamp != rows[i].timestamp
  }

  lemma NextBorder(rows: seq<Event>, limit: nat)
    requires 0 < limit < |rows|
    ensures NoTieAtBorders(rows, limit) <==>
      rows[limit - 1].timestamp != rows[limit].timestamp && NoTieAtBorders(rows[limit..], limit)
  {
    var rest := rows[limit..];
    OneLimitOn(0, limit);
    if NoTieAtBorders(rows, limit) {
      forall i | 0 < i < |rest| && i % limit == 0 ensures rest[i - 1].timestamp != rest[i].timestamp {
        OneLimitOn(i, limit);
        assert rest[i - 1] == rows[i + limit - 1] && rest[i] == rows[i + limit];
      }
    }
    if NoTieAtBorders(rest, limit) && rows[limit - 1].timestamp != rows[limit].timestamp {
      forall i | 0 < i < |rows| && i % limit == 0 ensures rows[i - 1].timestamp != rows[i].timestamp {
        FirstMultiple(i, limit);
        if i > limit {
          OneLimitOn(i - limit, limit);
          assert rest[i - limit] == rows[i];
        }
      }
    }
  }

  lemma NoBorder(rows: seq<Event>, limit: nat)
    requires limit > 0 && |rows| <= limit
    ensures NoTieAtBorders(rows, limit)
  {
    if !NoTieAtBorders(rows, limit) {
      var i :| 0 < i < |rows| && i % limit == 0 && rows[i - 1].timestamp == rows[i].timestamp;
      FirstMultiple(i, limit);
    }
  }

  lemma FirstMultiple(i: int, limit: int)
    requires 0 < i && 0 < limit && i % limit == 0
    ensures i >= limit
  {
    assert i == i / limit * limit;
    assert i / limit >= 1;
    AtLeastOnce(i / limit, limit);
  }

  lemma AtLeastOnce(k: int, limit: int)
    requires k >= 1 && limit > 0
    ensures k * limit >= limit
  {
    assert (k - 1) * limit >= 0;
  }

  lemma OneLimitOn(i: int, limit: int)
    requires limit > 0
    ensures (i + limit) % limit == i % limit
  {
    var q, r, q', r' := i / limit, i % limit, (i + limit) / limit, (i + limit) % limit;
    assert i == q * limit + r && i + limit == q' * limit + r';
    var k := q' - q - 1;
    assert k * limit == q' * limit - q * limit - limit == r - r';
    if k >= 1 {
      AtLeastOnce(k, limit);
    } else if k <= -1 {
      AtLeastOnce(-k, limit);
    }
  }

  ghost predicate AllSeen(rows: seq<Event>, pages: seq<seq<Event>>) {
    forall e | e in rows :: e in Joined(pages)
  }

  /** A tie across the first border: the page has no room for one of the tied events. */
  lemma TieLosesOne(events: seq<Event>, limit: nat, cursor: int, pages: seq<seq<Event>>, rows: seq<Event>)
    requires limit > 0 && Positive(events) && IsWalk(events, limit, cursor, pages) && RowsBelow(events, cursor, rows)
    requires |rows| > limit && rows[limit - 1].timestamp == rows[limit].timestamp
    ensures !AllSeen(rows, pages)
  {
    var page := pages[0];
    PageEndsLikeRows(events, limit, cursor, page, rows);
    WalkMissesExactlyTheCutOff(events, limit, cursor, pages);
    var top, rest := SplitRows(rows, limit + 1);
    var e := SomeRowLeftOut(top, page);
    assert e in rows;
    assert CutOff(limit, pages, e);
  }

  /** No tie across the first border: the page is the first share, and the rest is below it. */
  lemma FirstShareSeen(events: seq<Event>, limit: nat, cursor: int, page: seq<Event>, rows: seq<Event>)
    requires limit > 0 && Positive(events) && IsPage(events, limit, cursor, page) && RowsBelow(events, cursor, rows)
    requires |rows| > limit && rows[limit - 1].timestamp != rows[limit].timestamp
    ensures |page| == limit && RowsBelow(events, page[limit - 1].timestamp, rows[limit..])
    ensures forall e | e in rows :: e in page <==> e !in rows[limit..]
  {
    PageEndsLikeRows(events, limit, cursor, page, rows);
    var top, rest := SplitRows(rows, limit);
    var last := page[limit - 1];
    assert last in page;
    assert Rank(rows[limit - 1], true) <= Rank(rows[limit], true);
    forall e | e in page ensures e in top {
      EndsPage(page, e);
      assert e in rows;
    }
    forall e | e in top ensures e in page {
      SameSizeSameRows(page, top, e);
    }
  }

  lemma {:induction false} CompleteIffNoTie(events: seq<Event>, limit: nat, cursor: int, pages: seq<seq<Event>>,
      rows: seq<Event>)
    requires limit > 0 && Positive(events) && IsWalk(events, limit, cursor, pages) && RowsBelow(events, cursor, rows)
    ensures AllSeen(rows, pages) <==> NoTieAtBorders(rows, limit)
    decreases |pages|
  {
    var page := pages[0];
    if |rows| > limit {
      NextBorder(rows, limit);
    }
    if |rows| <= limit {
      NoBorder(rows, limit);
      forall e | e in rows ensures e in page {
        if e !in page {
          SameSizeSameRows(page, rows, e);
        }
      }
    } else if rows[limit - 1].timestamp == rows[limit].timestamp {
      TieLosesOne(events, limit, cursor, pages, rows);
    } else {
      FirstShareSeen(events, limit, cursor, page, rows);
      var top, rest := SplitRows(rows, limit);
      CompleteIffNoTie(events, limit, page[limit - 1].timestamp, pages[1..], rest);
      assert Joined(pages) == page + Joined(pages[1..]);
    }
  }

  /** Over a fixed table a walk from the start, whatever order ties come in, returns every event if
      and only if no tie lies across a multiple of the limit in the newest-first rows. Always, its
      pages hold no repeats, newest first, and number at most |events| / limit + 1; with distinct
      timestamps they join to the whole table. */
  lemma PagingIsCompleteIff(events: seq<Event>, limit: nat, pages: seq<seq<Event>>)
    requires limit > 0 && DistinctIds(events) && Positive(events) && IsWalk(events, limit, 0, pages)
    ensures AllSeen(events, pages) <==> NoTieAtBorders(Arranged(events, true), limit)
    ensures var joined := Joined(pages);
      && (forall i, j :: 0 <= i < j < |joined| ==> joined[i].timestamp >= joined[j].timestamp && joined[i] != joined[j])
      && forall e | e in joined :: e in events
    ensures (|pages| - 1) * limit <= |events|
    ensures DistinctTimestamps(events) ==> Joined(pages) == Arranged(events, true)
  {
    var joined, rows := Joined(pages), Arranged(events, true);
    assert forall i, j :: 0 <= i < j < |joined| && Ordered(joined, true) && NoDuplicates(joined) ==>
      NotBefore(true)(joined[i], joined[j]) && Different()(joined[i], joined[j]);
    ArrangedRows(events, true);
    assert NoDuplicates(events);
    WalkMissesExactlyTheCutOff(events, limit, 0, pages);
    CompleteIffNoTie(events, limit, 0, pages, rows);
    WalkFillsPages(events, limit, 0, pages);
    FilledPagesHold(limit, pages);
    NoDuplicatesFit(joined, events);
    if DistinctTimestamps(events) {
      NoTiesAnywhere(rows, limit);
      DescendingIsUnique(joined, rows);
    }
  }

  lemma NoTiesAnywhere(rows: seq<Event>, limit: nat)
    requires limit > 0 && NoDuplicates(rows) && DistinctTimestamps(rows)
    ensures NoTieAtBorders(rows, limit)
  {
    forall i | 0 < i < |rows| && i % limit == 0 ensures rows[i - 1].timestamp != rows[i].timestamp {
      assert rows[i - 1] in rows && rows[i] in rows;
    }
  }

  /** Two events of one timestamp, read one at a time: every walk loses one of them. */
  lemma TiedEventIsLost(e: Event, f: Event, pages: seq<seq<Event>>)
    requires e.id != f.id && e.timestamp == f.timestamp > 0 && IsWalk([e, f], 1, 0, pages)
    ensures e !in Joined(pages) || f !in Joined(pages)
  {
    TiedRows(e, f);
    PagingIsCompleteIff([e, f], 1, pages);
  }

  lemma TiedRows(e: Event, f: Event)
    requires e.timestamp == f.timestamp
    ensures !NoTieAtBorders(Arranged([e, f], true), 1)
  {
    var rows := Arranged([e, f], true);
    ArrangedRows([e, f], true);
    assert rows[0] in rows && rows[1] in rows;
    assert 1 % 1 == 0 && rows[1 - 1].timestamp == rows[1].timestamp;
  }

  lemma {:induction false} PageInJoined(pages: seq<seq<Event>>, k: nat, e: Event)
    requires k < |pages| && e in pages[k]
    ensures e in Joined(pages)
  {
    if k > 0 {
      PageInJoined(pages[1..], k - 1, e);
    }
  }

  /** The walk that `ListByTimestamp` produces ends. */
  lemma {:induction false} WalkEnds(events: seq<Event>, limit: nat, cursor: int) returns (pages: seq<seq<Event>>)
    requires limit > 0 && DistinctIds(events) && Positive(events)
    ensures IsWalk(events, limit, cursor, pages)
    decreases |Selected(events, cursor)|
  {
    var page := ListByTimestamp(events, limit, cursor);
    ListByTimestampIsPage(events, limit, cursor);
    if |page| < limit {
      pages := [page];
    } else {
      var last := page[limit - 1];
      assert last in page;
      FewerBelow(events, cursor, last);
      var rest := WalkEnds(events, limit, last.timestamp);
      pages := [page] + rest;
      assert pages[1..] == rest;
    }
  }

  lemma FewerBelow(events: seq<Event>, cursor: int, last: Event)
    requires DistinctIds(events) && last in events && Below(last, cursor) && last.timestamp > 0
    ensures |Selected(events, last.timestamp)| < |Selected(events, cursor)|
  {
    var here, there := Selected(events, cursor), Selected(events, last.timestamp);
    SelectedRows(events, cursor);
    SelectedRows(events, last.timestamp);
    var k :| 0 <= k < |here| && here[k] == last;
    forall e | e in there ensures e in Dropped(here, k) {
      DroppedRows(here, k, e);
    }
    NoDuplicatesFit(there, Dropped(here, k));
  }
}
