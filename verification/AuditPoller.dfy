/** The Postgres adapter's poll over the audit table: at least once, with a processed flag. */
module AuditPoller {
  import opened Ordering

  const WINDOW: nat := 100

  /** A visible row of _localcloud_audit. */
  datatype Row = Row(id: int, processed: bool)

  function Lower(): (Row, Row) -> bool {
    (a: Row, b: Row) => a.id < b.id
  }

  function Less(): (int, int) -> bool {
    (a: int, b: int) => a < b
  }

  ghost predicate Ascending(rows: seq<Row>) {
    Pairwise(Lower(), rows)
  }

  ghost predicate Increasing(ids: seq<int>) {
    Pairwise(Less(), ids)
  }

  // --- One poll, statement by statement ---

  /** WHERE processed = FALSE ORDER BY id ASC. */
  function Pending(rows: seq<Row>): seq<int> {
    if rows == [] then [] else (if rows[0].processed then [] else [rows[0].id]) + Pending(rows[1..])
  }

  /** LIMIT 100. */
  function Batch(pending: seq<int>): seq<int> {
    if |pending| <= WINDOW then pending else pending[..WINDOW]
  }

  /** The cursor may stop after `readable` rows. */
  function Read(rows: seq<Row>, readable: nat): seq<int> {
    var batch := Batch(Pending(rows));
    if readable < |batch| then batch[..readable] else batch
  }

  /** The rows of a batch whose event the sink takes. */
  function Taken(ids: seq<int>, accepts: int -> bool): seq<int> {
    if ids == [] then [] else (if accepts(ids[0]) then [ids[0]] else []) + Taken(ids[1..], accepts)
  }

  function Refused(ids: seq<int>, accepts: int -> bool): seq<int> {
    if ids == [] then [] else (if accepts(ids[0]) then [] else [ids[0]]) + Refused(ids[1..], accepts)
  }

  /** UPDATE ... SET processed = TRUE WHERE id IN ids. */
  function Marked(rows: seq<Row>, ids: seq<int>): seq<Row> {
    seq(|rows|, i requires 0 <= i < |rows| => Row(rows[i].id, rows[i].processed || rows[i].id in ids))
  }

  /** A row becomes visible when its transaction commits, in the middle of the id order if
      a later id committed first. */
  function Shown(rows: seq<Row>, id: int): seq<Row> {
    if rows == [] || id < rows[0].id then [Row(id, false)] + rows
    else if id == rows[0].id then rows
    else [rows[0]] + Shown(rows[1..], id)
  }

  predicate HasId(rows: seq<Row>, id: int) {
    exists r | r in rows :: r.id == id
  }

  lemma {:induction false} ShownRows(rows: seq<Row>, id: int)
    requires Ascending(rows)
    ensures Ascending(Shown(rows, id))
    ensures forall r :: r in Shown(rows, id) <==> r in rows || (r == Row(id, false) && !HasId(rows, id))
  {
    if rows != [] {
      HeadAndTail(Lower(), rows);
      var shown := Shown(rows, id);
      HeadAndTail(Lower(), shown);
      if id < rows[0].id {
        assert shown[1..] == rows;
      } else if id > rows[0].id {
        assert shown[1..] == Shown(rows[1..], id);
        ShownRows(rows[1..], id);
      } else {
        var head := rows[0];
        assert head in rows && HasId(rows, id);
      }
    }
  }

  lemma {:induction false} PendingRows(rows: seq<Row>)
    requires Ascending(rows)
    ensures Increasing(Pending(rows))
    ensures forall id :: id in Pending(rows) <==> Row(id, false) in rows
  {
    if rows != [] {
      HeadAndTail(Lower(), rows);
      PendingRows(rows[1..]);
      var pending := Pending(rows);
      if rows[0].processed {
        assert pending == Pending(rows[1..]);
      } else {
        assert pending[1..] == Pending(rows[1..]);
        HeadAndTail(Less(), pending);
      }
    }
  }

  lemma {:induction false} TakenIds(ids: seq<int>, accepts: int -> bool)
    requires Increasing(ids)
    ensures Increasing(Taken(ids, accepts))
    ensures forall id :: id in Taken(ids, accepts) <==> id in ids && accepts(id)
  {
    if ids != [] {
      HeadAndTail(Less(), ids);
      TakenIds(ids[1..], accepts);
      var taken := Taken(ids, accepts);
      if accepts(ids[0]) {
        assert taken[1..] == Taken(ids[1..], accepts);
        HeadAndTail(Less(), taken);
      } else {
        assert taken == Taken(ids[1..], accepts);
      }
    }
  }

  lemma {:induction false} TakenMore(ids: seq<int>, id: int, accepts: int -> bool)
    ensures Taken(ids + [id], accepts) == Taken(ids, accepts) + if accepts(id) then [id] else []
  {
    var more := ids + [id];
    if ids == [] {
      assert more == [id] && more[1..] == [];
    } else {
      var head := if accepts(ids[0]) then [ids[0]] else [];
      var last := if accepts(id) then [id] else [];
      assert more[0] == ids[0] && more[1..] == ids[1..] + [id];
      TakenMore(ids[1..], id, accepts);
      assert head + (Taken(ids[1..], accepts) + last) == (head + Taken(ids[1..], accepts)) + last;
    }
  }

  lemma {:induction false} OnceEach(ids: seq<int>, id: int)
    requires Increasing(ids)
    ensures multiset(ids)[id] == if id in ids then 1 else 0
  {
    if ids != [] {
      assert ids == [ids[0]] + ids[1..];
      OnceEach(ids[1..], id);
    }
  }

  /** The rows that the query lists ahead of id `y`. */
  ghost function AheadOf(rows: seq<Row>, y: int): set<Row> {
    set r | r in rows && !r.processed && r.id < y
  }

  lemma AheadIsEarlier(rows: seq<Row>, k: nat, r: Row)
    requires Ascending(rows) && k < |Pending(rows)| && r in AheadOf(rows, Pending(rows)[k])
    ensures exists i :: 0 <= i < k && Pending(rows)[i] == r.id
  {
    var p := Pending(rows);
    PendingRows(rows);
    assert r == Row(r.id, false) && r.id in p;
    var i :| 0 <= i < |p| && p[i] == r.id;
    assert forall a, b :: 0 <= a < b < |p| ==> Less()(p[a], p[b]);
  }

  lemma EarlierIsAhead(rows: seq<Row>, k: nat, i: nat)
    requires Ascending(rows) && i < k < |Pending(rows)|
    ensures Row(Pending(rows)[i], false) in AheadOf(rows, Pending(rows)[k])
  {
    var p := Pending(rows);
    PendingRows(rows);
    assert p[i] in p && Less()(p[i], p[k]);
  }

  lemma {:induction false} PendingAhead(rows: seq<Row>, k: nat)
    requires Ascending(rows) && k < |Pending(rows)|
    ensures |AheadOf(rows, Pending(rows)[k])| == k
  {
    var p := Pending(rows);
    if k == 0 {
      forall r ensures r !in AheadOf(rows, p[0]) {
        if r in AheadOf(rows, p[0]) {
          AheadIsEarlier(rows, 0, r);
        }
      }
      assert AheadOf(rows, p[0]) == {};
    } else {
      PendingAhead(rows, k - 1);
      var before, last := AheadOf(rows, p[k - 1]), Row(p[k - 1], false);
      forall r ensures r in AheadOf(rows, p[k]) <==> r in before + {last} {
        if r in AheadOf(rows, p[k]) {
          AheadIsEarlier(rows, k, r);
          var i :| 0 <= i < k && p[i] == r.id;
          if i < k - 1 {
            EarlierIsAhead(rows, k - 1, i);
          }
        }
        if r in before {
          AheadIsEarlier(rows, k - 1, r);
          var i :| 0 <= i < k - 1 && p[i] == r.id;
          EarlierIsAhead(rows, k, i);
        }
        EarlierIsAhead(rows, k, k - 1);
      }
      assert AheadOf(rows, p[k]) == before + {last};
    }
  }

  /** A poll emits, in id order, exactly the unprocessed rows with fewer than 100, and fewer than the
      cursor gets through, ahead of them that the sink takes. */
  lemma PollTakesFirstRows(rows: seq<Row>, readable: nat, accepts: int -> bool)
    requires Ascending(rows)
    ensures var ids := Taken(Read(rows, readable), accepts);
      && (forall i, j :: 0 <= i < j < |ids| ==> ids[i] < ids[j])
      && forall y :: y in ids <==>
           Row(y, false) in rows && accepts(y) && |AheadOf(rows, y)| < 100 && |AheadOf(rows, y)| < readable
    ensures readable >= 100 ==> Taken(Read(rows, readable), accepts) == Taken(Batch(Pending(rows)), accepts)
  {
    var p, read := Pending(rows), Read(rows, readable);
    PendingRows(rows);
    assert read == p[..|read|];
    TakenIds(read, accepts);
    var ids := Taken(read, accepts);
    assert forall i, j :: 0 <= i < j < |ids| ==> Less()(ids[i], ids[j]);
    forall y ensures y in read <==>
      Row(y, false) in rows && |AheadOf(rows, y)| < 100 && |AheadOf(rows, y)| < readable
    {
      if y in p {
        var k :| 0 <= k < |p| && p[k] == y;
        PendingAhead(rows, k);
        assert k < |read| ==> read[k] == y;
      }
      if y in read {
        var i :| 0 <= i < |read| && read[i] == y;
        assert p[i] == y;
        PendingAhead(rows, i);
      }
    }
  }

  /** The UPDATE sets the flag of exactly the rows whose ids it lists. */
  lemma MarkedById(rows: seq<Row>, ids: seq<int>)
    ensures |Marked(rows, ids)| == |rows|
    ensures forall i :: 0 <= i < |rows| ==>
      && Marked(rows, ids)[i].id == rows[i].id
      && (rows[i].id in ids ==> Marked(rows, ids)[i].processed)
      && (rows[i].id !in ids ==> Marked(rows, ids)[i] == rows[i])
  {
  }

  // --- Delivery over whole runs ---

  /** Every row was emitted once if it is marked processed, and once more for each failed UPDATE
      it was part of. So no processed row was lost, and only failed UPDATEs repeat an event. */
  ghost predicate Conserved(rows: seq<Row>, emitted: seq<int>, unmarked: multiset<int>) {
    forall id :: multiset(emitted)[id] == unmarked[id] + if Row(id, true) in rows then 1 else 0
  }

  class Adapter {
    var rows: seq<Row>
    var eventCount: nat
    var emitted: seq<int>             // ids in the order in which the sink took their events
    ghost var unmarked: multiset<int> // ids in the failed UPDATEs so far

    ghost predicate Valid()
      reads this
    {
      Ascending(rows) && Conserved(rows, emitted, unmarked) && eventCount == |emitted|
    }

    constructor ()
      ensures Valid() && rows == [] && emitted == [] && unmarked == multiset{}
    {
      rows, eventCount, emitted, unmarked := [], 0, [], multiset{};
    }

    /** A row becomes visible. Ids come from a sequence and are never used twice. */
    method Show(id: int)
      requires Valid()
      modifies this`rows
      ensures Valid() && rows == Shown(old(rows), id)
      ensures forall r :: r in rows <==>
        r in old(rows) || (r == Row(id, false) && forall o | o in old(rows) :: o.id != id)
      ensures forall i, j :: 0 <= i < j < |rows| ==> rows[i].id < rows[j].id
    {
      ShownRows(rows, id);
      assert HasId(rows, id) <==> !forall o | o in rows :: o.id != id;
      rows := Shown(rows, id);
      assert forall i, j :: 0 <= i < j < |rows| ==> Lower()(rows[i], rows[j]);
    }

    /** One poll. The query or the UPDATE may fail, the cursor may stop after `readable` rows,
        and the sink or the row scan may refuse any row. */
    method ProcessAuditRows(queryFails: bool, readable: nat, accepts: int -> bool, updateFails: bool)
      requires Valid()
      modifies this
      ensures Valid()
      ensures var ids := if queryFails then [] else Taken(Read(old(rows), readable), accepts);
        && emitted == old(emitted) + ids
        && rows == (if updateFails then old(rows) else Marked(old(rows), ids))
        && unmarked == old(unmarked) + if updateFails then multiset(ids) else multiset{}
    {
      MarkedNone(rows);
      if queryFails {
        return;
      }
      PollConserves(rows, emitted, unmarked, readable, accepts);
      var processedIDs := EmitBatch(Read(rows, readable), accepts);
      if |processedIDs| > 0 {
        if !updateFails {
          rows := Marked(rows, processedIDs);
        } else {
          unmarked := unmarked + multiset(processedIDs);
        }
      }
    }

    /** The row loop: emits row by row and collects the ids to mark. */
    method EmitBatch(batch: seq<int>, accepts: int -> bool) returns (processedIDs: seq<int>)
      requires eventCount == |emitted|
      modifies this`emitted, this`eventCount
      ensures processedIDs == Taken(batch, accepts)
      ensures emitted == old(emitted) + processedIDs && eventCount == |emitted|
    {
      processedIDs := [];
      for i := 0 to |batch|
        invariant processedIDs == Taken(batch[..i], accepts)
        invariant emitted == old(emitted) + processedIDs && eventCount == |emitted|
      {
        assert batch[..i + 1] == batch[..i] + [batch[i]];
        TakenMore(batch[..i], batch[i], accepts);
        if accepts(batch[i]) {
          emitted := emitted + [batch[i]];
          eventCount := eventCount + 1;
          processedIDs := processedIDs + [batch[i]];
        }
      }
      assert batch[..|batch|] == batch;
    }
  }

  lemma MarkedNone(rows: seq<Row>)
    ensures Marked(rows, []) == rows
  {
  }

  lemma PollConserves(rows: seq<Row>, emitted: seq<int>, unmarked: multiset<int>, readable: nat, accepts: int -> bool)
    requires Ascending(rows) && Conserved(rows, emitted, unmarked)
    ensures var ids := Taken(Read(rows, readable), accepts);
      && Ascending(Marked(rows, ids))
      && Conserved(Marked(rows, ids), emitted + ids, unmarked)
      && Conserved(rows, emitted + ids, unmarked + multiset(ids))
  {
    PendingRows(rows);
    TakenIds(Read(rows, readable), accepts);
    MarkConserves(rows, emitted, unmarked, Taken(Read(rows, readable), accepts));
  }

  lemma MarkConserves(rows: seq<Row>, emitted: seq<int>, unmarked: multiset<int>, ids: seq<int>)
    requires Ascending(rows) && Conserved(rows, emitted, unmarked)
    requires Increasing(ids) && forall id | id in ids :: Row(id, false) in rows
    ensures Ascending(Marked(rows, ids))
    ensures Conserved(Marked(rows, ids), emitted + ids, unmarked)
    ensures Conserved(rows, emitted + ids, unmarked + multiset(ids))
  {
    forall id
      ensures multiset(emitted + ids)[id] == multiset(emitted)[id] + if id in ids then 1 else 0
      ensures Row(id, true) in Marked(rows, ids) <==> Row(id, true) in rows || id in ids
      ensures multiset(ids)[id] == if id in ids then 1 else 0
      ensures id in ids ==> Row(id, true) !in rows
    {
      OnceEach(ids, id);
      MarkedRow(rows, ids, id);
    }
  }

  lemma MarkedRow(rows: seq<Row>, ids: seq<int>, id: int)
    requires Ascending(rows) && forall x | x in ids :: Row(x, false) in rows
    ensures Row(id, true) in Marked(rows, ids) <==> Row(id, true) in rows || id in ids
    ensures id in ids ==> Row(id, true) !in rows
  {
    var after := Marked(rows, ids);
    if Row(id, true) in after {
      var i :| 0 <= i < |after| && after[i] == Row(id, true);
      assert rows[i].id == id;
      assert rows[i].processed ==> rows[i] == Row(id, true);
    }
    if Row(id, true) in rows {
      var i :| 0 <= i < |rows| && rows[i] == Row(id, true);
      assert after[i] == Row(id, true);
      assert forall j :: 0 <= j < |rows| && rows[j].id == id ==> i == j;
    }
    if id in ids {
      var j :| 0 <= j < |rows| && rows[j] == Row(id, false);
      assert after[j] == Row(id, true);
    }
  }

  // --- Progress with rows the sink never takes ---

  /** The table after a poll in which nothing fails but the sink. */
  function Polled(rows: seq<Row>, accepts: int -> bool): seq<Row> {
    Marked(rows, Taken(Batch(Pending(rows)), accepts))
  }

  /** The table after `n` such polls with no row added. */
  function AfterPolls(rows: seq<Row>, accepts: int -> bool, n: nat): seq<Row>
    decreases n
  {
    if n == 0 then rows
    else AfterPolls(Polled(rows, accepts), accepts, n - 1)
  }

  /** The same, seen on the list of pending ids: the taken ones leave the window. */
  function Left(pending: seq<int>, accepts: int -> bool): seq<int> {
    Refused(Batch(pending), accepts) + pending[|Batch(pending)|..]
  }

  function LeftAfter(pending: seq<int>, accepts: int -> bool, n: nat): seq<int>
    decreases n
  {
    if n == 0 then pending else LeftAfter(Left(pending, accepts), accepts, n - 1)
  }

  function Outside(pending: seq<int>, ids: seq<int>): seq<int> {
    if pending == [] then [] else (if pending[0] in ids then [] else [pending[0]]) + Outside(pending[1..], ids)
  }

  lemma {:induction false} PendingMarked(rows: seq<Row>, ids: seq<int>)
    ensures Pending(Marked(rows, ids)) == Outside(Pending(rows), ids)
  {
    if rows != [] {
      PendingMarked(rows[1..], ids);
      assert Marked(rows, ids)[1..] == Marked(rows[1..], ids);
      if !rows[0].processed {
        assert Pending(rows)[1..] == Pending(rows[1..]);
      } else {
        assert Pending(rows) == Pending(rows[1..]);
      }
    }
  }

  lemma {:induction false} NoneOfThem(rest: seq<int>, ids: seq<int>)
    requires forall id | id in rest :: id !in ids
    ensures Outside(rest, ids) == rest
  {
    if rest != [] {
      var head := rest[0];
      assert head in rest;
      NoneOfThem(rest[1..], ids);
    }
  }

  lemma {:induction false} OutsideSplits(batch: seq<int>, rest: seq<int>, ids: seq<int>, accepts: int -> bool)
    requires forall id | id in batch :: id in ids <==> accepts(id)
    requires forall id | id in rest :: id !in ids
    ensures Outside(batch + rest, ids) == Refused(batch, accepts) + rest
  {
    if batch == [] {
      NoneOfThem(rest, ids);
      assert batch + rest == rest;
    } else {
      var head := batch[0];
      assert head in batch;
      assert (batch + rest)[1..] == batch[1..] + rest;
      OutsideSplits(batch[1..], rest, ids, accepts);
    }
  }

  lemma RestIsNotTaken(p: seq<int>, batch: seq<int>, rest: seq<int>, ids: seq<int>)
    requires Increasing(p) && p == batch + rest && forall id | id in ids :: id in batch
    ensures forall id | id in rest :: id !in ids
  {
    forall id | id in rest ensures id !in ids {
      var k :| 0 <= k < |rest| && rest[k] == id;
      assert p[|batch| + k] == id;
      assert forall i :: 0 <= i < |batch| ==> p[i] == batch[i];
    }
  }

  lemma BatchIsPrefix(p: seq<int>) returns (batch: seq<int>, rest: seq<int>)
    ensures batch == Batch(p) && rest == p[|Batch(p)|..] && p == batch + rest
    ensures Increasing(p) ==> Increasing(batch)
  {
    batch, rest := Batch(p), p[|Batch(p)|..];
  }

  lemma PollLeaves(rows: seq<Row>, accepts: int -> bool)
    requires Ascending(rows)
    ensures Pending(Marked(rows, Taken(Batch(Pending(rows)), accepts))) == Left(Pending(rows), accepts)
  {
    var p := Pending(rows);
    PendingRows(rows);
    var batch, rest := BatchIsPrefix(p);
    var ids := Taken(batch, accepts);
    TakenIds(batch, accepts);
    PendingMarked(rows, ids);
    RestIsNotTaken(p, batch, rest, ids);
    OutsideSplits(batch, rest, ids, accepts);
  }

  lemma {:induction false} PollsKeepIds(rows: seq<Row>, accepts: int -> bool, n: nat)
    ensures |AfterPolls(rows, accepts, n)| == |rows|
    ensures forall i :: 0 <= i < |rows| ==> AfterPolls(rows, accepts, n)[i].id == rows[i].id
    decreases n
  {
    if n > 0 {
      PollsKeepIds(Marked(rows, Taken(Batch(Pending(rows)), accepts)), accepts, n - 1);
    }
  }

  lemma {:induction false} PollsLeave(rows: seq<Row>, accepts: int -> bool, n: nat)
    requires Ascending(rows)
    ensures Pending(AfterPolls(rows, accepts, n)) == LeftAfter(Pending(rows), accepts, n)
    decreases n
  {
    if n > 0 {
      PollLeaves(rows, accepts);
      PollsLeave(Marked(rows, Taken(Batch(Pending(rows)), accepts)), accepts, n - 1);
    }
  }

  /** How many of the ids the sink never takes. */
  function Poison(ids: seq<int>, accepts: int -> bool): nat {
    |Refused(ids, accepts)|
  }

  lemma {:induction false} RefusedSplits(a: seq<int>, b: seq<int>, accepts: int -> bool)
    ensures Refused(a + b, accepts) == Refused(a, accepts) + Refused(b, accepts)
  {
    if a == [] {
      assert a + b == b;
    } else {
      assert (a + b)[1..] == a[1..] + b;
      RefusedSplits(a[1..], b, accepts);
    }
  }

  lemma {:induction false} RefusedIds(ids: seq<int>, accepts: int -> bool)
    ensures Refused(Refused(ids, accepts), accepts) == Refused(ids, accepts)
    ensures |Refused(ids, accepts)| <= |ids|
    ensures forall id :: id in Refused(ids, accepts) <==> id in ids && !accepts(id)
  {
    if ids != [] {
      RefusedIds(ids[1..], accepts);
      assert ids == [ids[0]] + ids[1..];
      if !accepts(ids[0]) {
        assert Refused(ids, accepts)[1..] == Refused(ids[1..], accepts);
      } else {
        assert Refused(ids, accepts) == Refused(ids[1..], accepts);
      }
    }
  }

  lemma WindowInside(p: seq<int>, before: seq<int>, rest: seq<int>)
    requires p == before + rest && |before| >= WINDOW
    ensures Batch(p) == before[..WINDOW] && p[|Batch(p)|..] == before[WINDOW..] + rest
  {
  }

  /** One poll seen from behind a full window: `before` gives up what the sink takes of the window. */
  function Thinned(before: seq<int>, accepts: int -> bool): seq<int>
    requires |before| >= WINDOW
  {
    Refused(before[..WINDOW], accepts) + before[WINDOW..]
  }

  lemma PollFrom(p: seq<int>, before: seq<int>, rest: seq<int>, accepts: int -> bool)
    requires p == before + rest && |before| >= WINDOW
    ensures Left(p, accepts) == Thinned(before, accepts) + rest
  {
    WindowInside(p, before, rest);
    var head := Refused(before[..WINDOW], accepts);
    assert head + (before[WINDOW..] + rest) == (head + before[WINDOW..]) + rest;
  }

  lemma ThinnedPoison(before: seq<int>, accepts: int -> bool)
    requires |before| >= WINDOW
    ensures Poison(Thinned(before, accepts), accepts) == Poison(before, accepts)
    ensures |Thinned(before, accepts)| <= |before| - WINDOW + Poison(before, accepts)
    ensures Poison(before, accepts) <= |Thinned(before, accepts)|
    ensures forall x :: x in Thinned(before, accepts) ==> x in before
  {
    var head, tail := before[..WINDOW], before[WINDOW..];
    assert before == head + tail;
    RefusedSplits(head, tail, accepts);
    RefusedSplits(Refused(head, accepts), tail, accepts);
    RefusedIds(head, accepts);
    RefusedIds(tail, accepts);
  }

  lemma {:induction false} GoneStaysGone(pending: seq<int>, accepts: int -> bool, n: nat, x: int)
    requires x !in pending
    ensures x !in LeftAfter(pending, accepts, n)
    decreases n
  {
    if n > 0 {
      RefusedIds(Batch(pending), accepts);
      GoneStaysGone(Left(pending, accepts), accepts, n - 1, x);
    }
  }

  lemma TakenAtOnce(p: seq<int>, before: seq<int>, x: int, behind: seq<int>, accepts: int -> bool)
    requires p == before + ([x] + behind) && accepts(x) && x !in before && x !in behind && |before| < WINDOW
    ensures x !in Left(p, accepts)
  {
    var batch := Batch(p);
    var rest := p[|batch|..];
    RefusedIds(batch, accepts);
    forall i | 0 <= i < |rest| ensures rest[i] != x {
      assert rest[i] == p[|batch| + i] == behind[|batch| + i - |before| - 1];
    }
  }

  /** What `n` polls make room for, at `step` rows each. */
  function Room(n: nat, step: nat): nat {
    if n == 0 then 0 else step + Room(n - 1, step)
  }

  lemma {:induction false} RoomIsProduct(n: nat, step: nat)
    ensures Room(n, step) == n * step
  {
    if n > 0 {
      RoomIsProduct(n - 1, step);
      assert n * step == (n - 1) * step + step;
    }
  }

  lemma {:induction false} TakenWithin(p: seq<int>, before: seq<int>, x: int, behind: seq<int>, accepts: int -> bool,
      n: nat, poison: nat)
    requires p == before + ([x] + behind) && accepts(x) && x !in before && x !in behind
    requires poison == Poison(before, accepts) < WINDOW && poison <= |before|
    requires Room(n, WINDOW - poison) > |before| - poison
    ensures x !in LeftAfter(p, accepts, n)
    decreases n
  {
    if |before| < WINDOW {
      TakenAtOnce(p, before, x, behind, accepts);
      GoneStaysGone(Left(p, accepts), accepts, n - 1, x);
    } else {
      PollFrom(p, before, [x] + behind, accepts);
      ThinnedPoison(before, accepts);
      TakenWithin(Left(p, accepts), Thinned(before, accepts), x, behind, accepts, n - 1, poison);
    }
  }

  lemma {:induction false} StarvedForever(p: seq<int>, before: seq<int>, x: int, behind: seq<int>,
      accepts: int -> bool, n: nat)
    requires p == before + ([x] + behind) && Poison(before, accepts) >= WINDOW
    ensures x in LeftAfter(p, accepts, n)
    decreases n
  {
    if n == 0 {
      assert p[|before|] == x;
    } else {
      RefusedIds(before, accepts);
      PollFrom(p, before, [x] + behind, accepts);
      ThinnedPoison(before, accepts);
      StarvedForever(Left(p, accepts), Thinned(before, accepts), x, behind, accepts, n - 1);
    }
  }

  /** The pending ids below row `x`. */
  function PendingBelow(rows: seq<Row>, x: int): seq<int> {
    if rows == [] || rows[0].id >= x then []
    else (if rows[0].processed then [] else [rows[0].id]) + PendingBelow(rows[1..], x)
  }

  lemma {:induction false} SplitAt(rows: seq<Row>, x: int) returns (behind: seq<int>)
    requires Ascending(rows) && Row(x, false) in rows
    ensures Pending(rows) == PendingBelow(rows, x) + ([x] + behind)
  {
    if rows[0].id == x {
      var i :| 0 <= i < |rows| && rows[i] == Row(x, false);
      assert i == 0;
      behind := Pending(rows[1..]);
    } else {
      var i :| 0 <= i < |rows| && rows[i] == Row(x, false);
      assert rows[1..][i - 1] == Row(x, false);
      behind := SplitAt(rows[1..], x);
    }
  }

  lemma ProcessedIffNotPending(rows: seq<Row>, accepts: int -> bool, n: nat, x: int)
    requires Ascending(rows) && Row(x, false) in rows
    ensures Row(x, true) in AfterPolls(rows, accepts, n) <==> x !in LeftAfter(Pending(rows), accepts, n)
  {
    PollsLeave(rows, accepts, n);
    PollsKeepIds(rows, accepts, n);
    var after := AfterPolls(rows, accepts, n);
    assert Ascending(after);
    PendingRows(after);
    var i :| 0 <= i < |rows| && rows[i] == Row(x, false);
    assert after[i].id == x;
    assert after[i] == Row(x, true) || after[i] == Row(x, false);
    assert forall j :: 0 <= j < |after| && after[j].id == x ==> i == j;
  }

  lemma FoundAt(rows: seq<Row>, x: int) returns (behind: seq<int>)
    requires Ascending(rows) && Row(x, false) in rows
    ensures Pending(rows) == PendingBelow(rows, x) + ([x] + behind)
    ensures x !in PendingBelow(rows, x) && x !in behind
  {
    behind := SplitAt(rows, x);
    PendingRows(rows);
    var p, below := Pending(rows), PendingBelow(rows, x);
    assert p[|below|] == x;
    assert forall i :: 0 <= i < |below| ==> p[i] == below[i];
    assert forall i :: 0 <= i < |behind| ==> p[|below| + 1 + i] == behind[i];
  }

  lemma ProcessedInTime(rows: seq<Row>, accepts: int -> bool, x: int, below: seq<int>, poison: nat, n: nat)
    requires Ascending(rows) && Row(x, false) in rows && accepts(x)
    requires below == PendingBelow(rows, x) && poison == Poison(below, accepts) < WINDOW
    requires Room(n, WINDOW - poison) > |below| - poison
    ensures Row(x, true) in AfterPolls(rows, accepts, n)
  {
    var behind := FoundAt(rows, x);
    RefusedIds(below, accepts);
    TakenWithin(Pending(rows), below, x, behind, accepts, n, poison);
    ProcessedIffNotPending(rows, accepts, n, x);
  }

  lemma NeverProcessed(rows: seq<Row>, accepts: int -> bool, x: int, n: nat)
    requires Ascending(rows) && Row(x, false) in rows
    requires Poison(PendingBelow(rows, x), accepts) >= WINDOW
    ensures Row(x, true) !in AfterPolls(rows, accepts, n)
  {
    var behind := FoundAt(rows, x);
    StarvedForever(Pending(rows), PendingBelow(rows, x), x, behind, accepts, n);
    ProcessedIffNotPending(rows, accepts, n, x);
  }

  // --- Progress while higher rows keep arriving ---

  function ShownAll(rows: seq<Row>, ids: seq<int>): seq<Row>
    decreases |ids|
  {
    if ids == [] then rows else ShownAll(Shown(rows, ids[0]), ids[1..])
  }

  /** The table after `n` more polls in which nothing fails but the sink, where the rows of
      `arrivals(k)` become visible ahead of poll `k`. */
  function AfterArrivals(rows: seq<Row>, accepts: int -> bool, arrivals: nat -> seq<int>, polls: nat, n: nat): seq<Row>
    decreases n
  {
    if n == 0 then rows
    else AfterArrivals(Polled(ShownAll(rows, arrivals(polls)), accepts), accepts, arrivals, polls + 1, n - 1)
  }

  predicate Above(ids: seq<int>, x: int) {
    forall id | id in ids :: id > x
  }

  /** The rows up to `x`. */
  function UpTo(rows: seq<Row>, x: int): seq<Row> {
    if rows == [] || rows[0].id > x then [] else [rows[0]] + UpTo(rows[1..], x)
  }

  lemma {:induction false} UpToSplits(rows: seq<Row>, x: int) returns (rest: seq<Row>)
    requires Ascending(rows)
    ensures rows == UpTo(rows, x) + rest && Ascending(UpTo(rows, x)) && Ascending(rest)
    ensures forall r | r in UpTo(rows, x) :: r.id <= x
    ensures forall r | r in rest :: r.id > x
  {
    if rows == [] {
      rest := [];
    } else {
      HeadAndTail(Lower(), rows);
      if rows[0].id > x {
        rest := rows;
      } else {
        rest := UpToSplits(rows[1..], x);
        var low := UpTo(rows, x);
        assert low[1..] == UpTo(rows[1..], x);
        assert rows == [rows[0]] + rows[1..];
        HeadAndTail(Lower(), low);
      }
    }
  }

  lemma {:induction false} ShownAbove(rows: seq<Row>, id: int, x: int)
    requires Ascending(rows) && id > x
    ensures UpTo(Shown(rows, id), x) == UpTo(rows, x)
  {
    if rows != [] && id > rows[0].id {
      HeadAndTail(Lower(), rows);
      ShownAbove(rows[1..], id, x);
      assert Shown(rows, id)[1..] == Shown(rows[1..], id);
    }
  }

  lemma {:induction false} ShownAllAbove(rows: seq<Row>, ids: seq<int>, x: int)
    requires Ascending(rows) && Above(ids, x)
    ensures Ascending(ShownAll(rows, ids)) && UpTo(ShownAll(rows, ids), x) == UpTo(rows, x)
    decreases |ids|
  {
    if ids != [] {
      var id := ids[0];
      assert id in ids;
      assert forall y | y in ids[1..] :: y in ids;
      ShownRows(rows, id);
      ShownAbove(rows, id, x);
      ShownAllAbove(Shown(rows, id), ids[1..], x);
    }
  }

  lemma {:induction false} PendingSplits(a: seq<Row>, b: seq<Row>, rows: seq<Row>)
    requires rows == a + b
    ensures Pending(rows) == Pending(a) + Pending(b)
  {
    if a == [] {
      assert rows == b;
    } else {
      assert rows[0] == a[0] && rows[1..] == a[1..] + b;
      PendingSplits(a[1..], b, rows[1..]);
      var head := if a[0].processed then [] else [a[0].id];
      assert head + (Pending(a[1..]) + Pending(b)) == (head + Pending(a[1..])) + Pending(b);
    }
  }

  lemma BatchOfFront(p: seq<int>, a: seq<int>, b: seq<int>, y: int)
    requires p == a + b && y !in b
    ensures y in Batch(p) <==> y in Batch(a)
  {
    var batch, front := Batch(p), Batch(a);
    assert front <= batch;
    if y in batch {
      var k :| 0 <= k < |batch| && batch[k] == y;
      assert p[k] == y;
      assert forall j :: 0 <= j < |b| ==> p[|a| + j] == b[j];
      assert front[k] == y;
    }
    if y in front {
      var k :| 0 <= k < |front| && front[k] == y;
      assert batch[k] == y;
    }
  }

  /** Which rows up to `x` a poll takes is decided by the rows up to `x`. */
  lemma TakenUpTo(rows: seq<Row>, accepts: int -> bool, x: int, y: int)
    requires Ascending(rows) && y <= x
    ensures y in Taken(Batch(Pending(rows)), accepts) <==> y in Taken(Batch(Pending(UpTo(rows, x))), accepts)
  {
    var low := UpTo(rows, x);
    var rest := UpToSplits(rows, x);
    PendingSplits(low, rest, rows);
    PendingRows(rows);
    PendingRows(low);
    PendingRows(rest);
    assert y in Pending(rest) ==> Row(y, false) in rest;
    BatchOfFront(Pending(rows), Pending(low), Pending(rest), y);
    TakenIds(Batch(Pending(rows)), accepts);
    TakenIds(Batch(Pending(low)), accepts);
  }

  lemma {:induction false} UpToIs(rows: seq<Row>, x: int, k: nat)
    requires k <= |rows| && (forall i :: 0 <= i < k ==> rows[i].id <= x) && (k < |rows| ==> rows[k].id > x)
    ensures UpTo(rows, x) == rows[..k]
  {
    if k > 0 {
      UpToIs(rows[1..], x, k - 1);
      assert rows[..k] == [rows[0]] + rows[1..][..k - 1];
    }
  }

  lemma FrontOf(rows: seq<Row>, x: int) returns (k: nat)
    ensures k <= |rows| && UpTo(rows, x) == rows[..k]
    ensures (forall i :: 0 <= i < k ==> rows[i].id <= x) && (k < |rows| ==> rows[k].id > x)
  {
    k := 0;
    while k < |rows| && rows[k].id <= x
      invariant k <= |rows| && forall i :: 0 <= i < k ==> rows[i].id <= x
    {
      k := k + 1;
    }
    UpToIs(rows, x, k);
  }

  lemma MarkedUpTo(rows: seq<Row>, ids: seq<int>, low: seq<int>, x: int)
    requires forall y | y <= x :: y in ids <==> y in low
    ensures UpTo(Marked(rows, ids), x) == Marked(UpTo(rows, x), low)
  {
    var k := FrontOf(rows, x);
    UpToIs(Marked(rows, ids), x, k);
  }

  lemma PollUpTo(rows: seq<Row>, accepts: int -> bool, x: int)
    requires Ascending(rows)
    ensures Ascending(Polled(rows, accepts))
    ensures UpTo(Polled(rows, accepts), x) == Polled(UpTo(rows, x), accepts)
  {
    forall y | y <= x
      ensures y in Taken(Batch(Pending(rows)), accepts) <==> y in Taken(Batch(Pending(UpTo(rows, x))), accepts)
    {
      TakenUpTo(rows, accepts, x, y);
    }
    MarkedUpTo(rows, Taken(Batch(Pending(rows)), accepts), Taken(Batch(Pending(UpTo(rows, x))), accepts), x);
  }

  ghost predicate SameUpTo(busy: seq<Row>, still: seq<Row>, x: int) {
    Ascending(busy) && Ascending(still) && UpTo(busy, x) == UpTo(still, x)
  }

  lemma SameAfterPoll(busy: seq<Row>, still: seq<Row>, arrived: seq<int>, accepts: int -> bool, x: int)
      returns (nextBusy: seq<Row>, nextStill: seq<Row>)
    requires SameUpTo(busy, still, x) && Above(arrived, x)
    ensures nextBusy == Polled(ShownAll(busy, arrived), accepts) && nextStill == Polled(still, accepts)
    ensures SameUpTo(nextBusy, nextStill, x)
  {
    ShownAllAbove(busy, arrived, x);
    PollUpTo(ShownAll(busy, arrived), accepts, x);
    PollUpTo(still, accepts, x);
    nextBusy, nextStill := Polled(ShownAll(busy, arrived), accepts), Polled(still, accepts);
  }

  /** Rows that arrive above `x` change nothing up to `x`. */
  lemma {:induction false} ArrivalsAboveDoNotMatter(busy: seq<Row>, still: seq<Row>, accepts: int -> bool,
                                                    arrivals: nat -> seq<int>, x: int, polls: nat, n: nat)
      returns (busyAfter: seq<Row>, stillAfter: seq<Row>)
    requires SameUpTo(busy, still, x) && forall k: nat :: Above(arrivals(k), x)
    ensures busyAfter == AfterArrivals(busy, accepts, arrivals, polls, n) && stillAfter == AfterPolls(still, accepts, n)
    ensures SameUpTo(busyAfter, stillAfter, x)
    decreases n
  {
    if n == 0 {
      busyAfter, stillAfter := busy, still;
    } else {
      var nextBusy, nextStill := SameAfterPoll(busy, still, arrivals(polls), accepts, x);
      busyAfter, stillAfter := ArrivalsAboveDoNotMatter(nextBusy, nextStill, accepts, arrivals, x, polls + 1, n - 1);
    }
  }

  lemma ProcessedAllTheSame(rows: seq<Row>, accepts: int -> bool, arrivals: nat -> seq<int>, x: int, n: nat)
    requires Ascending(rows) && forall k: nat :: Above(arrivals(k), x)
    ensures Row(x, true) in AfterArrivals(rows, accepts, arrivals, 0, n) <==>
      Row(x, true) in AfterPolls(rows, accepts, n)
  {
    var busy, still := ArrivalsAboveDoNotMatter(rows, rows, accepts, arrivals, x, 0, n);
    var busyRest := UpToSplits(busy, x);
    var stillRest := UpToSplits(still, x);
  }

  ghost predicate EventuallyProcessed(rows: seq<Row>, accepts: int -> bool, arrivals: nat -> seq<int>, x: int) {
    exists n: nat :: Row(x, true) in AfterArrivals(rows, accepts, arrivals, 0, n)
  }

  /** When nothing else fails, a row the sink would take is processed after finitely many polls if
      and only if fewer than 100 pending rows below it are never taken, whatever rows arrive above
      it meanwhile. */
  lemma ProcessedIffWindowNotClogged(rows: seq<Row>, accepts: int -> bool, arrivals: nat -> seq<int>, x: int)
    requires Ascending(rows) && Row(x, false) in rows && accepts(x)
    requires forall k: nat :: Above(arrivals(k), x)
    ensures EventuallyProcessed(rows, accepts, arrivals, x) <==> Poison(PendingBelow(rows, x), accepts) < WINDOW
  {
    var below := PendingBelow(rows, x);
    var poison := Poison(below, accepts);
    if poison < WINDOW {
      var n := |below| + 1;
      EnoughRoom(n, WINDOW - poison);
      ProcessedInTime(rows, accepts, x, below, poison, n);
      ProcessedAllTheSame(rows, accepts, arrivals, x, n);
    } else {
      forall n: nat ensures Row(x, true) !in AfterArrivals(rows, accepts, arrivals, 0, n) {
        NeverProcessed(rows, accepts, x, n);
        ProcessedAllTheSame(rows, accepts, arrivals, x, n);
      }
    }
  }

  lemma {:induction false} EnoughRoom(n: nat, step: nat)
    requires step > 0
    ensures Room(n, step) >= n
  {
    if n > 0 {
      EnoughRoom(n - 1, step);
    }
  }

  /** And it is processed within any `n` polls with n * (100 - poison) > the other pending rows
      below it. */
  lemma ProcessedWithin(rows: seq<Row>, accepts: int -> bool, arrivals: nat -> seq<int>, x: int, n: nat)
    requires Ascending(rows) && Row(x, false) in rows && accepts(x)
    requires forall k: nat :: Above(arrivals(k), x)
    requires Poison(PendingBelow(rows, x), accepts) < WINDOW
    requires n * (WINDOW - Poison(PendingBelow(rows, x), accepts))
      > |PendingBelow(rows, x)| - Poison(PendingBelow(rows, x), accepts)
    ensures Row(x, true) in AfterArrivals(rows, accepts, arrivals, 0, n)
  {
    var below := PendingBelow(rows, x);
    var poison := Poison(below, accepts);
    RoomIsProduct(n, WINDOW - poison);
    ProcessedInTime(rows, accepts, x, below, poison, n);
    ProcessedAllTheSame(rows, accepts, arrivals, x, n);
  }

  // --- Progress while rows arrive on both sides ---

  /** Every row below `x` is one of `known`. */
  ghost predicate KnownBelow(rows: seq<Row>, x: int, known: set<int>) {
    forall r | r in rows && r.id < x :: r.id in known
  }

  ghost predicate IdsKnownBelow(ids: seq<int>, x: int, known: set<int>) {
    forall id | id in ids && id < x :: id in known
  }

  /** The known ids that the sink never takes. */
  function Refusable(known: set<int>, accepts: int -> bool): set<int> {
    set id | id in known && !accepts(id)
  }

  /** The known ids that the sink would take and that are not processed yet. */
  function Unmarked(rows: seq<Row>, known: set<int>, accepts: int -> bool): set<int> {
    set id | id in known && accepts(id) && Row(id, true) !in rows
  }

  ghost function Members(ids: seq<int>): set<int> {
    set id | id in ids
  }

  lemma {:induction false} DistinctMembers(ids: seq<int>)
    requires Increasing(ids)
    ensures |Members(ids)| == |ids|
  {
    if ids != [] {
      HeadAndTail(Less(), ids);
      DistinctMembers(ids[1..]);
      assert Members(ids) == {ids[0]} + Members(ids[1..]);
      assert ids[0] !in ids[1..];
    }
  }

  lemma {:induction false} RefusedIncrease(ids: seq<int>, accepts: int -> bool)
    requires Increasing(ids)
    ensures Increasing(Refused(ids, accepts))
  {
    if ids != [] {
      HeadAndTail(Less(), ids);
      RefusedIncrease(ids[1..], accepts);
      RefusedIds(ids[1..], accepts);
      var refused := Refused(ids, accepts);
      if accepts(ids[0]) {
        assert refused == Refused(ids[1..], accepts);
      } else {
        assert refused[1..] == Refused(ids[1..], accepts);
        HeadAndTail(Less(), refused);
      }
    }
  }

  lemma {:induction false} ShownAllRows(rows: seq<Row>, ids: seq<int>)
    requires Ascending(rows)
    ensures Ascending(ShownAll(rows, ids)) && forall r | r in rows :: r in ShownAll(rows, ids)
    ensures forall r | r in ShownAll(rows, ids) && r !in rows :: !r.processed && r.id in ids
    decreases |ids|
  {
    if ids != [] {
      ShownRows(rows, ids[0]);
      ShownAllRows(Shown(rows, ids[0]), ids[1..]);
      assert ids == [ids[0]] + ids[1..];
    }
  }

  /** A full window below `x` holds at least 100 - poison rows to take. */
  lemma WindowTakes(batch: seq<int>, accepts: int -> bool, known: set<int>)
    requires Increasing(batch) && |batch| == WINDOW && forall id | id in batch :: id in known
    ensures |Members(Taken(batch, accepts))| >= WINDOW - |Refusable(known, accepts)|
  {
    TakenIds(batch, accepts);
    RefusedIds(batch, accepts);
    RefusedIncrease(batch, accepts);
    DistinctMembers(Taken(batch, accepts));
    DistinctMembers(Refused(batch, accepts));
    TakenAndRefused(batch, accepts);
    FitsInto(Members(Refused(batch, accepts)), Refusable(known, accepts));
  }

  lemma FitsInto(a: set<int>, b: set<int>)
    requires a <= b
    ensures |a| <= |b|
  {
    assert b == a + (b - a);
  }

  lemma {:induction false} FullBelow(pending: seq<int>, x: int)
    requires Increasing(pending) && x in pending && x !in Batch(pending)
    ensures |Batch(pending)| == WINDOW && Increasing(Batch(pending))
    ensures forall id | id in Batch(pending) :: id < x && id in pending
  {
    var k :| 0 <= k < |pending| && pending[k] == x;
    var batch := Batch(pending);
    assert forall i :: 0 <= i < |batch| ==> batch[i] == pending[i];
    forall id | id in batch ensures id < x && id in pending {
      var i :| 0 <= i < |batch| && batch[i] == id;
      assert Less()(pending[i], pending[k]);
    }
  }

  /** While row `x` waits, every poll processes at least 100 - poison rows below it. */
  lemma WaitingPollMarks(rows: seq<Row>, accepts: int -> bool, x: int, known: set<int>)
    requires Ascending(rows) && Row(x, false) in rows && accepts(x) && KnownBelow(rows, x, known)
    ensures var after := Polled(rows, accepts);
      && Ascending(after) && KnownBelow(after, x, known)
      && (Row(x, true) in after
          || (Row(x, false) in after
              && |Unmarked(after, known, accepts)| + WINDOW
                 <= |Unmarked(rows, known, accepts)| + |Refusable(known, accepts)|))
  {
    var pending := Pending(rows);
    PendingRows(rows);
    var batch, rest := BatchIsPrefix(pending);
    var ids := Taken(batch, accepts);
    TakenIds(batch, accepts);
    MarkedKeepsIds(rows, ids, x, known);
    MarkedRow(rows, ids, x);
    if x !in batch {
      FullBelow(pending, x);
      WindowTakes(batch, accepts, known);
      TakenLeave(rows, ids, known, accepts);
      WaitingStays(rows, ids, x);
    }
  }

  lemma MarkedKeepsIds(rows: seq<Row>, ids: seq<int>, x: int, known: set<int>)
    requires Ascending(rows) && KnownBelow(rows, x, known)
    ensures Ascending(Marked(rows, ids)) && KnownBelow(Marked(rows, ids), x, known)
  {
    var after := Marked(rows, ids);
    forall r | r in after && r.id < x ensures r.id in known {
      var i :| 0 <= i < |after| && after[i] == r;
      assert rows[i] in rows && rows[i].id == r.id;
    }
  }

  lemma WaitingStays(rows: seq<Row>, ids: seq<int>, x: int)
    requires Row(x, false) in rows && x !in ids
    ensures Row(x, false) in Marked(rows, ids)
  {
    var i :| 0 <= i < |rows| && rows[i] == Row(x, false);
    assert Marked(rows, ids)[i] == Row(x, false);
  }

  lemma TakenLeave(rows: seq<Row>, ids: seq<int>, known: set<int>, accepts: int -> bool)
    requires Ascending(rows) && forall id | id in ids :: Row(id, false) in rows && id in known && accepts(id)
    ensures |Unmarked(Marked(rows, ids), known, accepts)| + |Members(ids)| == |Unmarked(rows, known, accepts)|
  {
    var before, after := Unmarked(rows, known, accepts), Unmarked(Marked(rows, ids), known, accepts);
    forall id ensures id in before <==> id in after || id in Members(ids) {
      MarkedRow(rows, ids, id);
    }
    forall id | id in Members(ids) ensures id !in after {
      MarkedRow(rows, ids, id);
    }
    assert before == after + Members(ids) && after !! Members(ids);
  }

  lemma ArrivalsKeepUnmarked(rows: seq<Row>, arrived: seq<int>, accepts: int -> bool, x: int, known: set<int>)
    requires Ascending(rows) && KnownBelow(rows, x, known) && IdsKnownBelow(arrived, x, known)
    ensures var shown := ShownAll(rows, arrived);
      && Ascending(shown) && KnownBelow(shown, x, known)
      && (forall r | r in rows :: r in shown)
      && Unmarked(shown, known, accepts) == Unmarked(rows, known, accepts)
  {
    ShownAllRows(rows, arrived);
  }

  lemma ProcessedStays(rows: seq<Row>, accepts: int -> bool, arrived: seq<int>, x: int) returns (next: seq<Row>)
    requires Ascending(rows) && Row(x, true) in rows
    ensures next == Polled(ShownAll(rows, arrived), accepts) && Ascending(next) && Row(x, true) in next
  {
    var shown := ShownAll(rows, arrived);
    ShownAllRows(rows, arrived);
    PollUpTo(shown, accepts, x);
    PendingRows(shown);
    TakenIds(Batch(Pending(shown)), accepts);
    MarkedRow(shown, Taken(Batch(Pending(shown)), accepts), x);
    next := Polled(shown, accepts);
  }

  lemma {:induction false} ProcessedForGood(rows: seq<Row>, accepts: int -> bool, arrivals: nat -> seq<int>, x: int,
      polls: nat, n: nat)
      returns (after: seq<Row>)
    requires Ascending(rows) && Row(x, true) in rows
    ensures after == AfterArrivals(rows, accepts, arrivals, polls, n) && Row(x, true) in after
    decreases n
  {
    if n == 0 {
      after := rows;
    } else {
      var next := ProcessedStays(rows, accepts, arrivals(polls), x);
      after := ProcessedForGood(next, accepts, arrivals, x, polls + 1, n - 1);
    }
  }

  /** Row `x` waits, and `left` rows below it are still to be processed at most. */
  ghost predicate Waits(rows: seq<Row>, accepts: int -> bool, x: int, known: set<int>, left: int) {
    && Ascending(rows) && Row(x, false) in rows && KnownBelow(rows, x, known)
    && |Unmarked(rows, known, accepts)| <= left
  }

  lemma WaitOrBeProcessed(
      rows: seq<Row>, accepts: int -> bool, arrived: seq<int>, x: int, known: set<int>, left: nat, step: nat)
      returns (next: seq<Row>)
    requires Waits(rows, accepts, x, known, left) && accepts(x) && IdsKnownBelow(arrived, x, known)
    requires step == WINDOW - |Refusable(known, accepts)| > 0
    ensures next == Polled(ShownAll(rows, arrived), accepts)
    ensures (Ascending(next) && Row(x, true) in next) || (left >= step && Waits(next, accepts, x, known, left - step))
  {
    ArrivalsKeepUnmarked(rows, arrived, accepts, x, known);
    WaitingPollMarks(ShownAll(rows, arrived), accepts, x, known);
    next := Polled(ShownAll(rows, arrived), accepts);
  }

  lemma OnePollLess(n: nat, step: nat, left: nat)
    requires Room(n, step) > left
    ensures n > 0 && (left >= step ==> Room(n - 1, step) > left - step)
  {
  }

  lemma {:induction false} ProcessedAmidArrivals(
      rows: seq<Row>, accepts: int -> bool, arrivals: nat -> seq<int>, x: int, known: set<int>, left: nat, step: nat,
      polls: nat, n: nat)
      returns (after: seq<Row>)
    requires Waits(rows, accepts, x, known, left) && accepts(x)
    requires forall k: nat :: IdsKnownBelow(arrivals(k), x, known)
    requires step == WINDOW - |Refusable(known, accepts)| > 0 && Room(n, step) > left
    ensures after == AfterArrivals(rows, accepts, arrivals, polls, n) && Row(x, true) in after
    decreases n
  {
    OnePollLess(n, step, left);
    var next := WaitOrBeProcessed(rows, accepts, arrivals(polls), x, known, left, step);
    if Row(x, true) in next && Ascending(next) {
      after := ProcessedForGood(next, accepts, arrivals, x, polls + 1, n - 1);
    } else {
      after := ProcessedAmidArrivals(next, accepts, arrivals, x, known, left - step, step, polls + 1, n - 1);
    }
  }

  /** Rows may also arrive below `x`: if all ids that ever show below it are among `known`, fewer
      than 100 of which the sink never takes, then `x` is processed within any `n` polls with
      n * (100 - poison) > the other known ids. */
  lemma ProcessedWithinKnown(rows: seq<Row>, accepts: int -> bool, arrivals: nat -> seq<int>, x: int, known: set<int>,
      n: nat)
    requires Ascending(rows) && Row(x, false) in rows && accepts(x) && KnownBelow(rows, x, known)
    requires forall k: nat :: IdsKnownBelow(arrivals(k), x, known)
    requires |Refusable(known, accepts)| < WINDOW
    requires n * (WINDOW - |Refusable(known, accepts)|) > |known| - |Refusable(known, accepts)|
    ensures Row(x, true) in AfterArrivals(rows, accepts, arrivals, 0, n)
  {
    var refusable, unmarked := Refusable(known, accepts), Unmarked(rows, known, accepts);
    assert refusable !! unmarked && refusable + unmarked <= known;
    FitsInto(refusable + unmarked, known);
    RoomIsProduct(n, WINDOW - |refusable|);
    var after := ProcessedAmidArrivals(
      rows, accepts, arrivals, x, known, |unmarked|, WINDOW - |refusable|, 0, n);
  }

  // --- A clogged table ---

  lemma {:induction false} AllBelow(rows: seq<Row>, x: int, accepts: int -> bool)
    requires forall r | r in rows :: !r.processed && r.id < x && !accepts(r.id)
    ensures Poison(PendingBelow(rows + [Row(x, false)], x), accepts) == |rows|
  {
    var all := rows + [Row(x, false)];
    if rows != [] {
      var head := rows[0];
      assert head in rows && all[0] == head && all[1..] == rows[1..] + [Row(x, false)];
      AllBelow(rows[1..], x, accepts);
      var below := PendingBelow(all, x);
      assert below[1..] == PendingBelow(all[1..], x);
    }
  }

  /** A hundred rows that the sink never takes, and one behind them that it would: that one waits
      for ever. */
  lemma CloggedRowWaits(arrivals: nat -> seq<int>, n: nat)
    requires forall k: nat :: Above(arrivals(k), WINDOW)
    ensures var rows := seq(WINDOW, i requires 0 <= i < WINDOW => Row(i, false)) + [Row(WINDOW, false)];
      Row(WINDOW, true) !in AfterArrivals(rows, (id: int) => id >= WINDOW, arrivals, 0, n)
  {
    var front := seq(WINDOW, i requires 0 <= i < WINDOW => Row(i, false));
    var rows, accepts := front + [Row(WINDOW, false)], (id: int) => id >= WINDOW;
    assert Ascending(rows);
    assert rows[WINDOW] == Row(WINDOW, false);
    AllBelow(front, WINDOW, accepts);
    NeverProcessed(rows, accepts, WINDOW, n);
    ProcessedAllTheSame(rows, accepts, arrivals, WINDOW, n);
  }

  lemma {:induction false} TakenAndRefused(ids: seq<int>, accepts: int -> bool)
    ensures |Taken(ids, accepts)| + |Refused(ids, accepts)| == |ids|
  {
    if ids != [] {
      TakenAndRefused(ids[1..], accepts);
    }
  }

  /** A poll whose UPDATE succeeds marks at least min(100 - poison, good rows pending). */
  lemma PollMarksEnough(rows: seq<Row>, accepts: int -> bool)
    ensures var pending := Pending(rows);
      var poison := Poison(pending, accepts);
      var marked := |Taken(Batch(pending), accepts)|;
      marked >= WINDOW - poison || marked == |pending| - poison
  {
    var pending := Pending(rows);
    var batch := Batch(pending);
    assert pending == batch + pending[|batch|..];
    TakenAndRefused(batch, accepts);
    RefusedSplits(batch, pending[|batch|..], accepts);
  }
}
