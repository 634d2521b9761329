/** Header redaction on capture, and what it means for a later replay. Lower-casing belongs to
    Go's library and enters as the parameter `lower`. */
module Redaction {

  const REDACTED := "[REDACTED]"

  /** A Go map is shared by reference; this is one such map. */
  class HeaderMap {
    var entries: map<string, string>

    constructor (entries: map<string, string>)
      ensures this.entries == entries
    {
      this.entries := entries;
    }
  }

  predicate Denied(denylist: seq<string>, lower: string -> string, name: string) {
    exists h | h in denylist :: lower(h) == lower(name)
  }

  function Redacted(headers: map<string, string>, denylist: seq<string>, lower: string -> string): map<string, string> {
    map k | k in headers :: if Denied(denylist, lower, k) then REDACTED else headers[k]
  }

  function Lowered(denylist: seq<string>, lower: string -> string): set<string> {
    if denylist == [] then {} else Lowered(denylist[..|denylist| - 1], lower) + {lower(denylist[|denylist| - 1])}
  }

  lemma {:induction false} LoweredIsDenied(denylist: seq<string>, lower: string -> string, name: string)
    ensures lower(name) in Lowered(denylist, lower) <==> Denied(denylist, lower, name)
  {
    if denylist != [] {
      var init, last := denylist[..|denylist| - 1], denylist[|denylist| - 1];
      assert denylist == init + [last];
      LoweredIsDenied(init, lower, name);
    }
  }

  method LowerAll(denylist: seq<string>, lower: string -> string) returns (deny: set<string>)
    ensures deny == Lowered(denylist, lower)
  {
    deny := {};
    for i := 0 to |denylist|
      invariant deny == Lowered(denylist[..i], lower)
    {
      assert denylist[..i + 1][..i] == denylist[..i];
      deny := deny + {lower(denylist[i])};
    }
    assert denylist[..|denylist|] == denylist;
  }

  /** Works in place, entry by entry in whatever order the map yields them, and counts the
      entries it changes. */
  method RedactHeaders(headers: HeaderMap, denylist: seq<string>, lower: string -> string) returns (count: nat)
    modifies headers
    ensures headers.entries == Redacted(old(headers.entries), denylist, lower)
    ensures count == |Differing(old(headers.entries), headers.entries)|
  {
    count := 0;
    var deny := LowerAll(denylist, lower);
    var todo := headers.entries.Keys;
    ghost var before := headers.entries;
    assert Differing(before, before) == {};
    while todo != {}
      invariant todo <= before.Keys && HalfWay(before, Redacted(before, denylist, lower), todo, headers.entries)
      invariant count == |Differing(before, headers.entries)|
      decreases |todo|
    {
      var k :| k in todo;
      EntryDone(before, denylist, lower, todo, headers.entries, k);
      var hit := RedactEntry(headers, deny, lower, k);
      count := if hit then count + 1 else count;
      todo := todo - {k};
    }
  }

  function Marked(entries: map<string, string>, name: string, hit: bool): map<string, string> {
    if hit then entries[name := REDACTED] else entries
  }

  /** One turn of the loop. */
  method RedactEntry(headers: HeaderMap, deny: set<string>, lower: string -> string, k: string) returns (hit: bool)
    requires k in headers.entries
    modifies headers
    ensures hit <==> lower(k) in deny && old(headers.entries)[k] != REDACTED
    ensures headers.entries == Marked(old(headers.entries), k, hit)
  {
    hit := lower(k) in deny && headers.entries[k] != REDACTED;
    if hit {
      headers.entries := headers.entries[k := REDACTED];
    }
  }

  /** The entries whose values differ. */
  ghost function Differing(before: map<string, string>, after: map<string, string>): set<string> {
    set k | k in before && k in after && after[k] != before[k]
  }

  /** The entries still to do are as before, the others as they should be. */
  ghost predicate HalfWay(before: map<string, string>, after: map<string, string>, todo: set<string>,
                          now: map<string, string>) {
    && now.Keys == before.Keys == after.Keys
    && forall k | k in now :: now[k] == if k in todo then before[k] else after[k]
  }

  lemma OneEntry(before: map<string, string>, after: map<string, string>, todo: set<string>,
                 now: map<string, string>, k: string, hit: bool)
    requires HalfWay(before, after, todo, now) && k in todo && k in now
    requires if hit then before[k] != REDACTED == after[k] else after[k] == before[k]
    ensures HalfWay(before, after, todo - {k}, Marked(now, k, hit))
    ensures |Differing(before, Marked(now, k, hit))| == |Differing(before, now)| + if hit then 1 else 0
  {
    if hit {
      assert Differing(before, now[k := REDACTED]) == Differing(before, now) + {k};
    }
  }

  lemma EntryDone(before: map<string, string>, denylist: seq<string>, lower: string -> string,
                  todo: set<string>, now: map<string, string>, k: string)
    requires HalfWay(before, Redacted(before, denylist, lower), todo, now) && k in todo && todo <= before.Keys
    ensures k in now
    ensures var hit := lower(k) in Lowered(denylist, lower) && now[k] != REDACTED;
      && HalfWay(before, Redacted(before, denylist, lower), todo - {k}, Marked(now, k, hit))
      && |Differing(before, Marked(now, k, hit))| == |Differing(before, now)| + if hit then 1 else 0
  {
    LoweredIsDenied(denylist, lower, k);
    OneEntry(before, Redacted(before, denylist, lower), todo, now, k,
             lower(k) in Lowered(denylist, lower) && now[k] != REDACTED);
  }

  /** What `RedactHeaders` leaves: exactly the entries on the denylist that were not marked have
      changed, every entry on it is marked now, and a second call changes nothing. */
  lemma RedactionIsExactAndIdempotent(headers: map<string, string>, denylist: seq<string>, lower: string -> string)
    ensures var after := Redacted(headers, denylist, lower);
      && after.Keys == headers.Keys
      && (forall k | k in headers :: after[k] != headers[k] <==>
           (exists h | h in denylist :: lower(h) == lower(k)) && headers[k] != "[REDACTED]")
      && (forall k, h | k in headers && h in denylist && lower(h) == lower(k) :: after[k] == "[REDACTED]")
      && Redacted(after, denylist, lower) == after
  {
  }
}
