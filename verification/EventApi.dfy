/** The events endpoint: how it prints the next cursor, and what it makes of a cursor it is given. */
module EventApi {
  import opened Wrappers
  import opened Timeline
  import EventBus
  import EventStore

  predicate AllDigits(s: string) {
    forall i :: 0 <= i < |s| ==> '0' <= s[i] <= '9'
  }

  /** Base-ten parsing into 64 bits, with an optional sign. */
  function ParseInt(s: string): Option<int> {
    var signed := s != "" && (s[0] == '-' || s[0] == '+');
    var digits := if signed then s[1..] else s;
    if digits == "" || !AllDigits(digits) then None
    else
      var n := if signed && s[0] == '-' then -EventBus.Value(digits) else EventBus.Value(digits);
      if -EventBus.MAX_INT - 1 <= n <= EventBus.MAX_INT then Some(n) else None
  }

  /** A cursor that does not parse counts as none. */
  function CursorOf(s: string): int {
    match ParseInt(s)
    case None => 0
    case Some(n) => n
  }

  function Signed(n: int): string {
    if n < 0 then "-" + EventBus.Decimal(-n) else EventBus.Decimal(n)
  }

  function NextCursor(page: seq<Event>, limit: nat): string
    requires limit > 0
  {
    if |page| == limit then Signed(page[limit - 1].timestamp) + (":" + page[limit - 1].id) else ""
  }

  /** A plain number, which the storage layer pages with, is understood. */
  lemma PlainNumberIsUnderstood(n: int)
    requires -0x8000_0000_0000_0000 <= n <= 0x7fff_ffff_ffff_ffff
    ensures n >= 0 ==> CursorOf(EventBus.Decimal(n)) == n
    ensures n < 0 ==> CursorOf("-" + EventBus.Decimal(-n)) == n
  {
    var digits := EventBus.Decimal(if n < 0 then -n else n);
    EventBus.DecimalReadsBack(if n < 0 then -n else n);
    assert '0' <= digits[0] <= '9';
    assert ("-" + digits)[1..] == digits;
  }

  /** A string with anything but digits behind its first character is no cursor. */
  lemma OtherTextIsNoCursor(s: string, i: nat)
    requires 0 < i < |s| && !('0' <= s[i] <= '9')
    ensures CursorOf(s) == 0
  {
    assert s[1..][i - 1] == s[i];
  }

  /** The cursor the endpoint itself prints is not: with it a client gets the first page again,
      whatever the table. */
  lemma PrintedCursorStartsOver(events: seq<Event>, limit: nat, page: seq<Event>)
    requires limit > 0
    ensures |page| != limit ==> NextCursor(page, limit) == ""
    ensures |page| == limit ==>
      var last := page[|page| - 1];
      NextCursor(page, limit) ==
        (if last.timestamp < 0 then "-" + EventBus.Decimal(-last.timestamp) else EventBus.Decimal(last.timestamp))
             + (":" + last.id)
    ensures EventStore.ListByTimestamp(events, limit, CursorOf(NextCursor(page, limit))) ==
            EventStore.ListByTimestamp(events, limit, 0)
  {
    var cursor := NextCursor(page, limit);
    if cursor != "" {
      var ms := Signed(page[limit - 1].timestamp);
      assert cursor[|ms|] == ':';
      EventBus.DecimalReadsBack(if page[limit - 1].timestamp < 0 then -page[limit - 1].timestamp
        else page[limit - 1].timestamp);
      assert |ms| > 0;
      OtherTextIsNoCursor(cursor, |ms|);
    }
  }
}
