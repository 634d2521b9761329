/** The Mailpit adapter's poll: a time watermark over a window of the 50 newest messages. */
module MailpitPoller {
  import opened Ordering

  const WINDOW: nat := 50

  datatype Message = Message(id: string, created: int)

  /** What the adapter remembers between polls. */
  datatype Mark = Mark(id: string, time: int)

  predicate IsNew(m: Message, mark: Mark) {
    m.created > mark.time && m.id != mark.id
  }

  // --- The loop, on the listing read from its end ---

  function MarkAfter(oldestFirst: seq<Message>, mark: Mark): Mark {
    if oldestFirst == [] then mark
    else
      var m := oldestFirst[0];
      MarkAfter(oldestFirst[1..], if IsNew(m, mark) then Mark(m.id, m.created) else mark)
  }

  function Attempts(oldestFirst: seq<Message>, mark: Mark): seq<Message> {
    if oldestFirst == [] then []
    else
      var m := oldestFirst[0];
      if IsNew(m, mark) then [m] + Attempts(oldestFirst[1..], Mark(m.id, m.created))
      else Attempts(oldestFirst[1..], mark)
  }

  function Reversed(s: seq<Message>): (r: seq<Message>)
    ensures |r| == |s| && forall i :: 0 <= i < |s| ==> r[i] == s[|s| - 1 - i]
  {
    if s == [] then [] else Reversed(s[1..]) + [s[0]]
  }

  ghost predicate StrictlyLater(messages: seq<Message>) {
    forall i, j :: 0 <= i < j < |messages| ==> messages[i].created < messages[j].created
  }

  ghost predicate AllAfter(messages: seq<Message>, time: int) {
    forall m | m in messages :: time < m.created
  }

  lemma HeadIsEarliest(m: Message, tail: seq<Message>, time: int)
    requires StrictlyLater(tail) && AllAfter(tail, m.created) && time < m.created
    ensures StrictlyLater([m] + tail) && AllAfter([m] + tail, time)
  {
    forall i | 0 <= i < |tail| ensures m.created < tail[i].created {
      assert tail[i] in tail;
    }
  }

  /** The attempted messages come in strictly increasing time behind the mark, and the new mark
      is the last of them, whatever the listing. */
  lemma {:induction false} AttemptsAscend(oldestFirst: seq<Message>, mark: Mark)
    ensures StrictlyLater(Attempts(oldestFirst, mark)) && AllAfter(Attempts(oldestFirst, mark), mark.time)
    ensures var tried := Attempts(oldestFirst, mark);
      MarkAfter(oldestFirst, mark) == if tried == [] then mark
        else Mark(tried[|tried| - 1].id, tried[|tried| - 1].created)
    ensures forall m | m in Attempts(oldestFirst, mark) :: m in oldestFirst
  {
    if oldestFirst != [] {
      var m, rest := oldestFirst[0], oldestFirst[1..];
      if IsNew(m, mark) {
        AttemptsAscend(rest, Mark(m.id, m.created));
        HeadIsEarliest(m, Attempts(rest, Mark(m.id, m.created)), mark.time);
      } else {
        AttemptsAscend(rest, mark);
      }
    }
  }

  class Adapter {
    var lastSeen: Mark
    var eventCount: nat
    var attempted: seq<Message> // the messages given to the sink, in order

    /** No message was ever attempted twice: attempts strictly increase in time up to the mark. */
    ghost predicate Valid()
      reads this
    {
      && StrictlyLater(attempted)
      && (forall m | m in attempted :: m.created <= lastSeen.time)
      && eventCount == |attempted|
    }

    constructor (startTime: int)
      ensures Valid() && lastSeen == Mark("", startTime) && attempted == []
    {
      lastSeen := Mark("", startTime);
      eventCount := 0;
      attempted := [];
    }

    /** A failed fetch changes nothing here. The sink's refusals are logged, and the message is
        counted and passed over all the same. */
    method FetchNewMessages(fetchFails: bool, listing: seq<Message>)
      requires Valid()
      modifies this
      ensures Valid()
      ensures attempted == old(attempted) + if fetchFails then [] else Attempts(Reversed(listing), old(lastSeen))
      ensures lastSeen == if fetchFails then old(lastSeen) else MarkAfter(Reversed(listing), old(lastSeen))
    {
      if fetchFails {
        return;
      }
      var i := |listing| - 1;
      ghost var todo := Reversed(listing);
      while i >= 0
        invariant -1 <= i < |listing| && Valid()
        invariant todo == Reversed(listing)[|listing| - 1 - i..]
        invariant attempted + Attempts(todo, lastSeen) == old(attempted) + Attempts(Reversed(listing), old(lastSeen))
        invariant MarkAfter(todo, lastSeen) == MarkAfter(Reversed(listing), old(lastSeen))
      {
        var msg := listing[i];
        ghost var rest := todo[1..];
        assert todo[0] == msg;
        if msg.created > lastSeen.time && msg.id != lastSeen.id {
          assert attempted + ([msg] + Attempts(rest, Mark(msg.id, msg.created))) ==
            (attempted + [msg]) + Attempts(rest, Mark(msg.id, msg.created));
          attempted := attempted + [msg];
          lastSeen := Mark(msg.id, msg.created);
          eventCount := eventCount + 1;
        }
        todo := rest;
        i := i - 1;
      }
    }
  }

  // --- Runs over an append-only mailbox ---

  /** Newest first, at most 50. */
  function Listing(mailbox: seq<Message>): seq<Message> {
    Reversed(if |mailbox| <= WINDOW then mailbox else mailbox[|mailbox| - WINDOW..])
  }

  function NewerThan(mailbox: seq<Message>, time: int): seq<Message> {
    if mailbox == [] then []
    else (if mailbox[0].created > time then [mailbox[0]] else []) + NewerThan(mailbox[1..], time)
  }

  ghost function NewerAt(mailbox: seq<Message>, time: int): nat -> bool {
    (k: nat) => k < |mailbox| && mailbox[k].created > time
  }

  /** The filter keeps exactly the messages created after `time`, in order. */
  lemma {:induction false} NewerAreKept(mailbox: seq<Message>, time: int, n: nat) returns (at: seq<nat>)
    requires n <= |mailbox|
    ensures Selection(NewerThan(mailbox[..n], time), at, n, NewerAt(mailbox, time), ElementAt(mailbox))
  {
    if n == 0 {
      at := [];
    } else {
      var k := n - 1;
      var earlier := NewerAreKept(mailbox, time, k);
      var m := mailbox[k];
      assert mailbox[..n] == mailbox[..k] + [m];
      NewerSplits(mailbox[..k], [m], time);
      assert NewerThan([m], time) == if m.created > time then [m] else [];
      at := SelectNext(NewerThan(mailbox[..k], time), earlier, k, NewerAt(mailbox, time), ElementAt(mailbox),
                       NewerThan([m], time));
    }
  }

  function Newest(messages: seq<Message>, n: nat): seq<Message> {
    if |messages| <= n then messages else messages[|messages| - n..]
  }

  /** Mailbox ids are neither empty nor used twice. */
  ghost predicate ProperIds(mailbox: seq<Message>) {
    && (forall m | m in mailbox :: m.id != "")
    && forall i, j :: 0 <= i < j < |mailbox| ==> mailbox[i].id != mailbox[j].id
  }

  function AttemptsByTime(oldestFirst: seq<Message>, time: int): seq<Message> {
    if oldestFirst == [] then []
    else
      var m := oldestFirst[0];
      if m.created > time then [m] + AttemptsByTime(oldestFirst[1..], m.created)
        else AttemptsByTime(oldestFirst[1..], time)
  }

  /** Where ids are not empty and determine the creation time, the test against the last seen id
      never changes the outcome of a poll: the time test alone decides. */
  lemma {:induction false} IdTestIsRedundant(oldestFirst: seq<Message>, mark: Mark, known: seq<Message>)
    requires forall a, b | a in known && b in known && a.id == b.id :: a.created == b.created
    requires forall m | m in oldestFirst :: m in known && m.id != ""
    requires mark.id == "" || Message(mark.id, mark.time) in known
    ensures Attempts(oldestFirst, mark) == AttemptsByTime(oldestFirst, mark.time)
  {
    if oldestFirst != [] {
      var m := oldestFirst[0];
      assert m in oldestFirst && m == Message(m.id, m.created);
      IdTestIsRedundant(oldestFirst[1..], if IsNew(m, mark) then Mark(m.id, m.created) else mark, known);
    }
  }

  /** Newer than `time` and than every message ahead of it. */
  ghost function RecordAt(messages: seq<Message>, time: int): nat -> bool {
    (k: nat) => k < |messages| && messages[k].created > time
                && forall i :: 0 <= i < k ==> messages[i].created < messages[k].created
  }

  ghost function ElementAt(messages: seq<Message>): (Message, nat) -> bool {
    (m: Message, k: nat) => k < |messages| && m == messages[k]
  }

  /** The time that the test compares with behind `messages`. */
  function Latest(messages: seq<Message>, time: int): int {
    if messages == [] then time
    else Latest(messages[1..], if messages[0].created > time then messages[0].created else time)
  }

  lemma {:induction false} LatestIsHighest(messages: seq<Message>, time: int)
    ensures Latest(messages, time) >= time
    ensures forall i :: 0 <= i < |messages| ==> messages[i].created <= Latest(messages, time)
    ensures Latest(messages, time) == time
      || exists i :: 0 <= i < |messages| && messages[i].created == Latest(messages, time)
  {
    if messages != [] {
      var m, rest := messages[0], messages[1..];
      LatestIsHighest(rest, if m.created > time then m.created else time);
      assert forall i :: 0 < i < |messages| ==> messages[i] == rest[i - 1];
      assert forall i :: 0 <= i < |rest| ==> rest[i] == messages[i + 1];
    }
  }

  lemma {:induction false} TimeTestSplits(a: seq<Message>, m: Message, time: int)
    ensures AttemptsByTime(a + [m], time) ==
      AttemptsByTime(a, time) + if m.created > Latest(a, time) then [m] else []
  {
    var all := a + [m];
    if a == [] {
      assert all[1..] == [];
    } else {
      assert all[0] == a[0] && all[1..] == a[1..] + [m];
      var first := if a[0].created > time then [a[0]] else [];
      var next := if a[0].created > time then a[0].created else time;
      TimeTestSplits(a[1..], m, next);
      var more := if m.created > Latest(a, time) then [m] else [];
      assert first + (AttemptsByTime(a[1..], next) + more) == (first + AttemptsByTime(a[1..], next)) + more;
    }
  }

  /** The time test alone chooses, in the order of the loop, exactly the messages newer than the mark
      and than every message ahead of them, for any listing at all. */
  lemma {:induction false} TimeTestTakesRecords(messages: seq<Message>, time: int, n: nat) returns (at: seq<nat>)
    requires n <= |messages|
    ensures Selection(AttemptsByTime(messages[..n], time), at, n, RecordAt(messages, time), ElementAt(messages))
  {
    if n == 0 {
      at := [];
    } else {
      var k := n - 1;
      var m := messages[k];
      var earlier := TimeTestTakesRecords(messages, time, k);
      assert messages[..n] == messages[..k] + [m];
      TimeTestSplits(messages[..k], m, time);
      LatestIsHighest(messages[..k], time);
      assert forall i :: 0 <= i < k ==> messages[..k][i] == messages[i];
      at := SelectNext(AttemptsByTime(messages[..k], time), earlier, k, RecordAt(messages, time), ElementAt(messages),
                       if m.created > Latest(messages[..k], time) then [m] else []);
    }
  }

  /** No message bears the id of the one before it, where `id` comes before the first. */
  predicate NoIdTwiceRunning(id: string, messages: seq<Message>)
    decreases |messages|
  {
    messages == [] || (messages[0].id != id && NoIdTwiceRunning(messages[0].id, messages[1..]))
  }

  /** For any listing at all, the test against the last seen id is without effect exactly when
      the messages the time test would choose never repeat an id in a row. */
  lemma {:induction false} IdTestMattersIffRepeated(oldestFirst: seq<Message>, mark: Mark)
    ensures Attempts(oldestFirst, mark) == AttemptsByTime(oldestFirst, mark.time)
      <==> NoIdTwiceRunning(mark.id, AttemptsByTime(oldestFirst, mark.time))
  {
    if oldestFirst != [] {
      var m, rest := oldestFirst[0], oldestFirst[1..];
      if m.created <= mark.time {
        IdTestMattersIffRepeated(rest, mark);
      } else if m.id != mark.id {
        IdTestMattersIffRepeated(rest, Mark(m.id, m.created));
        assert Attempts(oldestFirst, mark)[1..] == Attempts(rest, Mark(m.id, m.created));
        assert AttemptsByTime(oldestFirst, mark.time)[1..] == AttemptsByTime(rest, m.created);
      } else {
        FirstAttemptHasNewId(rest, mark);
      }
    }
  }

  lemma {:induction false} FirstAttemptHasNewId(oldestFirst: seq<Message>, mark: Mark)
    ensures var tried := Attempts(oldestFirst, mark); tried == [] || tried[0].id != mark.id
  {
    if oldestFirst != [] {
      FirstAttemptHasNewId(oldestFirst[1..], mark);
    }
  }

  /** Without non-empty ids it does: the very first message is passed over. */
  lemma EmptyIdIsLost(created: int, start: int)
    requires created > start
    ensures Attempts([Message("", created)], Mark("", start)) == []
  {
  }

  /** Creation times never go back, but may repeat. */
  ghost predicate InOrder(messages: seq<Message>) {
    forall i, j :: 0 <= i < j < |messages| ==> messages[i].created <= messages[j].created
  }

  /** The messages created at another time than the one before, where `before` is the time ahead
      of the first. */
  function FirstAtItsTime(before: int, messages: seq<Message>): seq<Message>
    decreases |messages|
  {
    if messages == [] then []
    else
      var m := messages[0];
      (if m.created == before then [] else [m]) + FirstAtItsTime(m.created, messages[1..])
  }

  lemma {:induction false} FirstsAreTried(messages: seq<Message>, mark: Mark)
    requires InOrder(messages) && ProperIds(messages)
    requires forall m | m in messages :: m.created >= mark.time && m.id != mark.id
    ensures Attempts(messages, mark) == FirstAtItsTime(mark.time, messages)
  {
    if messages != [] {
      var m, rest := messages[0], messages[1..];
      assert m in messages;
      forall k | k in rest ensures m.created <= k.created && m.id != k.id && k in messages {
        var i :| 0 <= i < |rest| && rest[i] == k;
        assert messages[i + 1] == k;
      }
      FirstsAreTried(rest, if m.created > mark.time then Mark(m.id, m.created) else mark);
    }
  }

  lemma {:induction false} AllAreFirst(before: int, messages: seq<Message>)
    requires StrictlyLater(messages) && AllAfter(messages, before)
    ensures FirstAtItsTime(before, messages) == messages
    decreases |messages|
  {
    if messages != [] {
      var m, rest := messages[0], messages[1..];
      assert m in messages;
      forall k | k in rest ensures m.created < k.created {
        var i :| 0 <= i < |rest| && rest[i] == k;
        assert messages[i + 1] == k;
      }
      AllAreFirst(m.created, rest);
    }
  }

  lemma {:induction false} LastOfFirsts(before: int, messages: seq<Message>)
    ensures var firsts := FirstAtItsTime(before, messages);
      if firsts == [] then forall m | m in messages :: m.created == before
      else messages != [] && firsts[|firsts| - 1] in messages
           && firsts[|firsts| - 1].created == messages[|messages| - 1].created
    decreases |messages|
  {
    if messages != [] {
      var rest := messages[1..];
      assert messages == [messages[0]] + rest;
      LastOfFirsts(messages[0].created, rest);
      assert rest != [] ==> rest[|rest| - 1] in rest;
    }
  }

  lemma {:induction false} OldOnesSkipped(old_: seq<Message>, rest: seq<Message>, mark: Mark)
    requires forall m | m in old_ :: m.created <= mark.time
    ensures Attempts(old_ + rest, mark) == Attempts(rest, mark)
  {
    if old_ == [] {
      assert old_ + rest == rest;
    } else {
      var m := old_[0];
      assert m in old_;
      assert (old_ + rest)[1..] == old_[1..] + rest;
      OldOnesSkipped(old_[1..], rest, mark);
    }
  }

  lemma {:induction false} NewerSplits(a: seq<Message>, b: seq<Message>, time: int)
    ensures NewerThan(a + b, time) == NewerThan(a, time) + NewerThan(b, time)
  {
    if a == [] {
      assert a + b == b;
    } else {
      assert (a + b)[1..] == a[1..] + b;
      NewerSplits(a[1..], b, time);
    }
  }

  lemma {:induction false} NoneNewer(a: seq<Message>, time: int)
    requires forall m | m in a :: m.created <= time
    ensures NewerThan(a, time) == []
  {
    if a != [] {
      var m := a[0];
      assert m in a;
      NoneNewer(a[1..], time);
    }
  }

  lemma {:induction false} AllNewer(a: seq<Message>, time: int)
    requires AllAfter(a, time)
    ensures NewerThan(a, time) == a
  {
    if a != [] {
      var m := a[0];
      assert m in a;
      AllNewer(a[1..], time);
      assert a == [a[0]] + a[1..];
    }
  }

  /** Where the messages newer than `time` begin. */
  lemma Border(mailbox: seq<Message>, time: int) returns (k: nat)
    requires InOrder(mailbox)
    ensures k <= |mailbox|
    ensures forall i :: 0 <= i < k ==> mailbox[i].created <= time
    ensures forall i :: k <= i < |mailbox| ==> mailbox[i].created > time
  {
    k := 0;
    while k < |mailbox| && mailbox[k].created <= time
      invariant k <= |mailbox| && forall i :: 0 <= i < k ==> mailbox[i].created <= time
    {
      k := k + 1;
    }
  }

  lemma NewerIsSuffix(mailbox: seq<Message>, time: int, k: nat)
    requires k <= |mailbox|
    requires forall i :: 0 <= i < k ==> mailbox[i].created <= time
    requires forall i :: k <= i < |mailbox| ==> mailbox[i].created > time
    ensures NewerThan(mailbox, time) == mailbox[k..]
  {
    assert mailbox == mailbox[..k] + mailbox[k..];
    NewerSplits(mailbox[..k], mailbox[k..], time);
    NoneNewer(mailbox[..k], time);
    AllNewer(mailbox[k..], time);
  }

  /** The mark fits the mailbox of the last poll: its time is the newest there, or the start. */
  ghost predicate Fits(mark: Mark, polled: seq<Message>, start: int) {
    && mark.time ==
         (if polled != [] && polled[|polled| - 1].created > start then polled[|polled| - 1].created else start)
    && (mark.id == "" || exists i :: 0 <= i < |polled| && polled[i].id == mark.id && polled[i].created <= mark.time)
  }

  /** Messages behind the polled ones carry new ids. */
  lemma UnseenIds(mailbox: seq<Message>, mark: Mark, polled: seq<Message>, start: int, cut: nat)
    requires ProperIds(mailbox) && polled <= mailbox && Fits(mark, polled, start) && cut <= |mailbox|
    requires forall i :: cut <= i < |mailbox| ==> mailbox[i].created > mark.time
    ensures forall m | m in mailbox[cut..] :: m.id != mark.id && m.created > mark.time
  {
    forall j | cut <= j < |mailbox| ensures mailbox[j].id != mark.id {
      var m := mailbox[j];
      assert m in mailbox;
      if mark.id != "" {
        var i :| 0 <= i < |polled| && polled[i].id == mark.id && polled[i].created <= mark.time;
        assert mailbox[i] == polled[i] && i < cut;
      }
    }
  }

  lemma SliceKeepsOrder(mailbox: seq<Message>, cut: nat)
    requires InOrder(mailbox) && ProperIds(mailbox) && cut <= |mailbox|
    ensures InOrder(mailbox[cut..]) && ProperIds(mailbox[cut..])
  {
    assert forall i :: 0 <= i < |mailbox[cut..]| ==> mailbox[cut..][i] == mailbox[cut + i];
    assert forall m | m in mailbox[cut..] :: m in mailbox;
  }

  lemma ListingFromItsEnd(mailbox: seq<Message>)
    ensures Reversed(Listing(mailbox)) == Newest(mailbox, WINDOW)
  {
    var window := Newest(mailbox, WINDOW);
    var twice := Reversed(Reversed(window));
    assert forall i :: 0 <= i < |window| ==> twice[i] == Reversed(window)[|window| - 1 - i] == window[i];
  }

  lemma NewestOfSuffix(mailbox: seq<Message>, k: nat) returns (cut: nat)
    requires k <= |mailbox|
    ensures k <= cut <= |mailbox| && Newest(mailbox[k..], WINDOW) == mailbox[cut..]
    ensures |mailbox| - cut <= |Newest(mailbox, WINDOW)|
    ensures var first := |mailbox| - |Newest(mailbox, WINDOW)|; cut == if k <= first then first else k
    ensures var first := |mailbox| - |Newest(mailbox, WINDOW)|;
      first <= cut && Newest(mailbox, WINDOW) == mailbox[first..cut] + mailbox[cut..]
  {
    var first := |mailbox| - |Newest(mailbox, WINDOW)|;
    cut := if k <= first then first else k;
  }

  /** A window of messages already polled, followed by unseen ones, yields the unseen ones, less
      those created at the same time as the one before. */
  lemma WindowYieldsUnseen(
      mailbox: seq<Message>, window: seq<Message>, first: nat, cut: nat, mark: Mark, polled: seq<Message>, start: int)
    requires InOrder(mailbox) && ProperIds(mailbox) && polled <= mailbox && Fits(mark, polled, start)
    requires first <= cut <= |mailbox| && window == mailbox[first..cut] + mailbox[cut..]
    requires forall i :: first <= i < cut ==> mailbox[i].created <= mark.time
    requires forall i :: cut <= i < |mailbox| ==> mailbox[i].created > mark.time
    ensures Attempts(window, mark) == FirstAtItsTime(mark.time, mailbox[cut..])
  {
    forall m | m in mailbox[first..cut] ensures m.created <= mark.time {
      var i :| 0 <= i < |mailbox[first..cut]| && mailbox[first..cut][i] == m;
      assert mailbox[first + i] == m;
    }
    OldOnesSkipped(mailbox[first..cut], mailbox[cut..], mark);
    UnseenIds(mailbox, mark, polled, start, cut);
    SliceKeepsOrder(mailbox, cut);
    FirstsAreTried(mailbox[cut..], mark);
  }

  /** One poll attempts, oldest first, the newest min(50, new) of the new messages, of messages
      created at the same time only the first. */
  lemma PollTakesNewest(mailbox: seq<Message>, mark: Mark, polled: seq<Message>, start: int)
    requires InOrder(mailbox) && ProperIds(mailbox) && polled <= mailbox && Fits(mark, polled, start)
    ensures var newest := Newest(NewerThan(mailbox, mark.time), 50);
      && Attempts(Reversed(Listing(mailbox)), mark) == FirstAtItsTime(mark.time, newest)
      && (NoTies(mailbox, mark.time) ==> Attempts(Reversed(Listing(mailbox)), mark) == newest)
  {
    var k := Border(mailbox, mark.time);
    NewerIsSuffix(mailbox, mark.time, k);
    ListingFromItsEnd(mailbox);
    var cut := NewestOfSuffix(mailbox, k);
    var window := Newest(mailbox, WINDOW);
    WindowYieldsUnseen(mailbox, window, |mailbox| - |window|, cut, mark, polled, start);
    if NoTies(mailbox, mark.time) {
      UntiedSuffix(mailbox, mark.time, cut);
      AllAreFirst(mark.time, mailbox[cut..]);
    }
  }

  /** No message from after `time` was created at the same time as an earlier one. */
  ghost predicate NoTies(mailbox: seq<Message>, time: int) {
    forall i, j :: 0 <= i < j < |mailbox| && mailbox[j].created > time ==> mailbox[i].created < mailbox[j].created
  }

  lemma UntiedSuffix(mailbox: seq<Message>, time: int, k: nat)
    requires NoTies(mailbox, time) && k <= |mailbox|
    requires forall i :: k <= i < |mailbox| ==> mailbox[i].created > time
    ensures StrictlyLater(mailbox[k..]) && AllAfter(mailbox[k..], time)
  {
    var suffix := mailbox[k..];
    assert forall i :: 0 <= i < |suffix| ==> suffix[i] == mailbox[k + i];
  }

  /** The polled messages are not after the mark, and what arrived since is after it just when it
      is after the start. */
  lemma MarkDivides(mailbox: seq<Message>, mark: Mark, polled: seq<Message>, start: int)
    requires InOrder(mailbox) && polled <= mailbox && Fits(mark, polled, start)
    ensures forall m | m in polled :: m.created <= mark.time
    ensures mark.time >= start
    ensures NoTies(mailbox, start) ==> mark.time == start || AllAfter(mailbox[|polled|..], mark.time)
  {
    forall i | 0 <= i < |polled| ensures polled[i].created <= mark.time {
      assert polled[i] == mailbox[i] && polled[|polled| - 1] == mailbox[|polled| - 1];
    }
    var arrived := mailbox[|polled|..];
    if mark.time != start && NoTies(mailbox, start) {
      forall i | 0 <= i < |arrived| ensures mark.time < arrived[i].created {
        assert arrived[i] == mailbox[|polled| + i] && polled[|polled| - 1] == mailbox[|polled| - 1];
      }
    }
  }

  /** The new messages of a poll are those that arrived since the last one, less the ones from
      before the start. */
  lemma NewIsArrived(mailbox: seq<Message>, mark: Mark, polled: seq<Message>, start: int)
    requires InOrder(mailbox) && NoTies(mailbox, start) && polled <= mailbox && Fits(mark, polled, start)
    ensures NewerThan(mailbox, mark.time) == NewerThan(mailbox[|polled|..], start)
  {
    var arrived := mailbox[|polled|..];
    MarkDivides(mailbox, mark, polled, start);
    assert mailbox == polled + arrived;
    NewerSplits(polled, arrived, mark.time);
    NoneNewer(polled, mark.time);
    if mark.time != start {
      AllNewer(arrived, mark.time);
      AllNewer(arrived, start);
    }
  }

  lemma QuietPollFits(mailbox: seq<Message>, mark: Mark, polled: seq<Message>, start: int)
    requires InOrder(mailbox) && polled <= mailbox && Fits(mark, polled, start)
    requires forall i :: 0 <= i < |mailbox| ==> mailbox[i].created <= mark.time
    ensures Fits(mark, mailbox, start)
  {
    if polled != [] {
      assert mailbox[|polled| - 1] == polled[|polled| - 1];
    }
    if mark.id != "" {
      var i :| 0 <= i < |polled| && polled[i].id == mark.id && polled[i].created <= mark.time;
      assert mailbox[i] == polled[i];
    }
  }

  /** The mark stays where it is or moves to a message as new as the newest of the mailbox. */
  lemma MarkMovesToNewest(oldestFirst: seq<Message>, mark: Mark, mailbox: seq<Message>, cut: nat)
    requires cut <= |mailbox| && AllAfter(mailbox[cut..], mark.time)
    requires Attempts(oldestFirst, mark) == FirstAtItsTime(mark.time, mailbox[cut..])
    ensures if cut == |mailbox| then MarkAfter(oldestFirst, mark) == mark
            else exists m | m in mailbox ::
              MarkAfter(oldestFirst, mark) == Mark(m.id, m.created) && m.created == mailbox[|mailbox| - 1].created
  {
    var unseen := mailbox[cut..];
    AttemptsAscend(oldestFirst, mark);
    LastOfFirsts(mark.time, unseen);
    if cut < |mailbox| {
      assert unseen[0] in unseen;
      var firsts := FirstAtItsTime(mark.time, unseen);
      assert firsts[|firsts| - 1] in mailbox;
    }
  }

  lemma PollKeepsFit(mailbox: seq<Message>, mark: Mark, polled: seq<Message>, start: int)
    requires InOrder(mailbox) && ProperIds(mailbox) && polled <= mailbox && Fits(mark, polled, start)
    ensures Fits(MarkAfter(Reversed(Listing(mailbox)), mark), mailbox, start)
  {
    var k := Border(mailbox, mark.time);
    PollTakesNewest(mailbox, mark, polled, start);
    NewerIsSuffix(mailbox, mark.time, k);
    var cut := NewestOfSuffix(mailbox, k);
    MarkMovesToNewest(Reversed(Listing(mailbox)), mark, mailbox, cut);
    if k == |mailbox| {
      QuietPollFits(mailbox, mark, polled, start);
    } else {
      var m :| m in mailbox && MarkAfter(Reversed(Listing(mailbox)), mark) == Mark(m.id, m.created)
               && m.created == mailbox[|mailbox| - 1].created;
      NewOneFits(mailbox, m, mark.time, start);
    }
  }

  lemma NewOneFits(mailbox: seq<Message>, m: Message, time: int, start: int)
    requires m in mailbox && m.created == mailbox[|mailbox| - 1].created > time >= start
    ensures Fits(Mark(m.id, m.created), mailbox, start)
  {
    var i :| 0 <= i < |mailbox| && mailbox[i] == m;
  }

  /** All attempts of a run that polls the mailbox at each of the given stages of its growth. */
  function Run(boxes: seq<seq<Message>>, mark: Mark): seq<Message> {
    if boxes == [] then []
    else
      var oldestFirst := Reversed(Listing(boxes[0]));
      Attempts(oldestFirst, mark) + Run(boxes[1..], MarkAfter(oldestFirst, mark))
  }

  /** Append-only: each stage extends the one before, in creation order. */
  ghost predicate Grows(polled: seq<Message>, boxes: seq<seq<Message>>)
    decreases |boxes|
  {
    boxes == [] || (polled <= boxes[0] && InOrder(boxes[0]) && ProperIds(boxes[0]) && Grows(boxes[0], boxes[1..]))
  }

  /** At most 50 messages from after the start arrive before each poll. */
  predicate Timely(polled: seq<Message>, boxes: seq<seq<Message>>, start: int)
    decreases |boxes|
  {
    boxes == [] || (|polled| <= |boxes[0]| && |NewerThan(boxes[0][|polled|..], start)| <= WINDOW &&
      Timely(boxes[0], boxes[1..], start))
  }

  function Final(polled: seq<Message>, boxes: seq<seq<Message>>): seq<Message> {
    if boxes == [] then polled else boxes[|boxes| - 1]
  }

  lemma Stage(polled: seq<Message>, box: seq<Message>, mark: Mark, start: int)
    requires InOrder(box) && NoTies(box, start) && ProperIds(box) && polled <= box && Fits(mark, polled, start)
    ensures Attempts(Reversed(Listing(box)), mark) == Newest(NewerThan(box[|polled|..], start), WINDOW)
    ensures Fits(MarkAfter(Reversed(Listing(box)), mark), box, start)
  {
    assert mark.time >= start;
    PollTakesNewest(box, mark, polled, start);
    NewIsArrived(box, mark, polled, start);
    PollKeepsFit(box, mark, polled, start);
  }

  lemma ArrivedInStages(polled: seq<Message>, box: seq<Message>, final: seq<Message>, start: int)
    requires polled <= box <= final
    ensures NewerThan(final[|polled|..], start) == NewerThan(box[|polled|..], start) + NewerThan(final[|box|..], start)
  {
    assert final[|polled|..] == box[|polled|..] + final[|box|..];
    NewerSplits(box[|polled|..], final[|box|..], start);
  }

  lemma {:induction false} FinalGrows(polled: seq<Message>, boxes: seq<seq<Message>>)
    requires Grows(polled, boxes)
    ensures polled <= Final(polled, boxes)
    decreases |boxes|
  {
    if boxes != [] {
      FinalGrows(boxes[0], boxes[1..]);
    }
  }

  /** The first poll of a run, apart from the polls after it. */
  lemma FirstStage(
      polled: seq<Message>, boxes: seq<seq<Message>>, mark: Mark, start: int, final: seq<Message>)
    requires Grows(polled, boxes) && Fits(mark, polled, start) && boxes != []
    requires final == Final(polled, boxes) && NoTies(final, start)
    ensures var box, rest, next := boxes[0], boxes[1..], MarkAfter(Reversed(Listing(boxes[0])), mark);
      && Grows(box, rest) && Fits(next, box, start) && polled <= box <= final == Final(box, rest)
      && Run(boxes, mark) == Newest(NewerThan(box[|polled|..], start), WINDOW) + Run(rest, next)
  {
    FinalGrows(boxes[0], boxes[1..]);
    UntiedPrefix(boxes[0], final, start);
    Stage(polled, boxes[0], mark, start);
  }

  lemma UntiedPrefix(box: seq<Message>, final: seq<Message>, start: int)
    requires box <= final && NoTies(final, start)
    ensures NoTies(box, start)
  {
    assert forall i :: 0 <= i < |box| ==> box[i] == final[i];
  }

  lemma {:induction false} RunFrom(
      polled: seq<Message>, boxes: seq<seq<Message>>, mark: Mark, start: int, final: seq<Message>)
    requires Grows(polled, boxes) && Fits(mark, polled, start) && polled <= final == Final(polled, boxes)
    requires NoTies(final, start)
    ensures var due := NewerThan(final[|polled|..], start);
      if Timely(polled, boxes, start) then Run(boxes, mark) == due else |Run(boxes, mark)| < |due|
    decreases |boxes|
  {
    if boxes == [] {
      assert final[|polled|..] == [];
    } else {
      var box, rest := boxes[0], boxes[1..];
      var next := MarkAfter(Reversed(Listing(box)), mark);
      FirstStage(polled, boxes, mark, start, final);
      RunFrom(box, rest, next, start, final);
      ArrivedInStages(polled, box, final, start);
      JoinStages(NewerThan(box[|polled|..], start), Run(rest, next), NewerThan(final[|box|..], start),
                 Timely(box, rest, start));
    }
  }

  /** A poll that reports the newest 50 of what arrived, before a rest of the run that reports all
      that is due exactly when it is timely. */
  lemma JoinStages(arrived: seq<Message>, later: seq<Message>, due: seq<Message>, timely: bool)
    requires if timely then later == due else |later| < |due|
    ensures var run, all := Newest(arrived, WINDOW) + later, arrived + due;
      if |arrived| <= WINDOW && timely then run == all else |run| < |all|
  {
  }

  lemma JoinAscending(a: seq<Message>, b: seq<Message>, time: int, mid: int)
    requires StrictlyLater(a) && AllAfter(a, time) && StrictlyLater(b) && AllAfter(b, mid) && time <= mid
    requires forall m | m in a :: m.created <= mid
    ensures StrictlyLater(a + b) && AllAfter(a + b, time)
  {
    var all := a + b;
    forall i, j | 0 <= i < j < |all| ensures all[i].created < all[j].created {
      assert i < |a| ==> all[i] in a;
      assert j >= |a| ==> all[j] in b;
    }
  }

  lemma TriedUpToMark(oldestFirst: seq<Message>, mark: Mark)
    ensures forall m | m in Attempts(oldestFirst, mark) :: m.created <= MarkAfter(oldestFirst, mark).time
    ensures MarkAfter(oldestFirst, mark).time >= mark.time
  {
    AttemptsAscend(oldestFirst, mark);
    var tried := Attempts(oldestFirst, mark);
    forall m | m in tried ensures m.created <= tried[|tried| - 1].created {
      var i :| 0 <= i < |tried| && tried[i] == m;
    }
    if tried != [] {
      assert tried[|tried| - 1] in tried;
    }
  }

  /** A run never attempts two messages of one creation time, whatever the mailboxes. */
  lemma {:induction false} RunAscends(boxes: seq<seq<Message>>, mark: Mark)
    ensures StrictlyLater(Run(boxes, mark)) && AllAfter(Run(boxes, mark), mark.time)
    decreases |boxes|
  {
    if boxes != [] {
      var oldestFirst := Reversed(Listing(boxes[0]));
      var next := MarkAfter(oldestFirst, mark);
      AttemptsAscend(oldestFirst, mark);
      TriedUpToMark(oldestFirst, mark);
      RunAscends(boxes[1..], next);
      JoinAscending(Attempts(oldestFirst, mark), Run(boxes[1..], next), mark.time, next.time);
    }
  }

  lemma UntiedIfNewerAscend(mailbox: seq<Message>, time: int)
    requires InOrder(mailbox) && StrictlyLater(NewerThan(mailbox, time))
    ensures NoTies(mailbox, time)
  {
    var k := Border(mailbox, time);
    NewerIsSuffix(mailbox, time, k);
    var newer := mailbox[k..];
    forall i, j | 0 <= i < j < |mailbox| && mailbox[j].created > time
      ensures mailbox[i].created < mailbox[j].created
    {
      if i >= k {
        assert newer[i - k].created < newer[j - k].created;
      }
    }
  }

  lemma {:induction false} FinalInOrder(polled: seq<Message>, boxes: seq<seq<Message>>)
    requires Grows(polled, boxes) && boxes != []
    ensures InOrder(Final(polled, boxes))
    decreases |boxes|
  {
    if |boxes| > 1 {
      FinalInOrder(boxes[0], boxes[1..]);
    }
  }

  /** The poller refines the simple filter exactly when it keeps up and nothing ties: its attempts
      over a run are the mailbox filtered by the start time if and only if no poll finds more
      than 50 messages that arrived since the one before and no two messages from after the
      start were created at the same time. */
  lemma RunIsFilterIff(boxes: seq<seq<Message>>, start: int)
    requires Grows([], boxes) && boxes != []
    ensures var final := boxes[|boxes| - 1];
      Run(boxes, Mark("", start)) == NewerThan(final, start) <==> Timely([], boxes, start) && NoTies(final, start)
  {
    var final := boxes[|boxes| - 1];
    FinalInOrder([], boxes);
    RunAscends(boxes, Mark("", start));
    if Run(boxes, Mark("", start)) == NewerThan(final, start) {
      UntiedIfNewerAscend(final, start);
    }
    if NoTies(final, start) {
      FinalGrows([], boxes);
      assert final[0..] == final;
      RunFrom([], boxes, Mark("", start), start, final);
    }
  }

  lemma SinglePoll(box: seq<Message>, mark: Mark)
    ensures Run([box], mark) == Attempts(Newest(box, WINDOW), mark)
  {
    var oldestFirst := Reversed(Listing(box));
    ListingFromItsEnd(box);
    assert [box][1..] == [];
    assert Run([box], mark) == Attempts(oldestFirst, mark) + Run([], MarkAfter(oldestFirst, mark));
  }

  /** Of two messages created at the same time a timely run never attempts the second. */
  lemma TiedMessageIsLost(a: Message, b: Message, start: int)
    requires a.id != b.id && a.id != "" && b.id != "" && a.created == b.created > start
    ensures Grows([], [[a, b]]) && Timely([], [[a, b]], start)
    ensures NewerThan([a, b], start) == [a, b] && Run([[a, b]], Mark("", start)) == [a]
  {
    var box := [a, b];
    AllNewer(box, start);
    var boxes := [box];
    assert box[0..] == box && |boxes[1..]| == 0;
    SinglePoll(box, Mark("", start));
    assert box[1..] == [b] && box[1..][1..] == [];
    assert Attempts([b], Mark(a.id, a.created)) == [];
  }

  /** Of more than 50 messages found by one poll the oldest is never attempted. */
  lemma OverflowIsLost(box: seq<Message>, start: int)
    requires ProperIds(box) && AllAfter(box, start) && |box| > WINDOW
    ensures box[0] in NewerThan(box, start) && box[0] !in Run([box], Mark("", start))
  {
    AllNewer(box, start);
    SinglePoll(box, Mark("", start));
    var window := Newest(box, WINDOW);
    AttemptsAscend(window, Mark("", start));
    forall m | m in window ensures m.id != box[0].id {
      var i :| 0 <= i < |window| && window[i] == m;
      assert m == box[|box| - WINDOW + i];
    }
  }
}
