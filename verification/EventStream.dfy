/** The API's live stream: broadcasts fan out to clients with bounded buffers, and a broadcast
    that finds a client's buffer full is dropped for that client. */
module EventStream {
  import opened Wrappers
  import EventBus

  const CAPACITY: nat := 64

  /** One broadcast as one client met it: `read` entries had been read, `backlog` were waiting. */
  datatype Offer = Offer(data: string, read: nat, backlog: nat, accepted: bool)

  /** A client's channel, with the history of what went in and what was read from it. */
  datatype Client = Client(joinedAt: nat, buffer: seq<string>, received: seq<string>, offers: seq<Offer>)

  function Offered(c: Client, data: string): Client {
    var accepted := |c.buffer| < CAPACITY;
    c.(buffer := if accepted then c.buffer + [data] else c.buffer,
       offers := c.offers + [Offer(data, |c.received|, |c.buffer|, accepted)])
  }

  function Read(c: Client): Client {
    if c.buffer == [] then c else c.(buffer := c.buffer[1..], received := c.received + [c.buffer[0]])
  }

  function ClientId(n: int): string {
    "sse_" + if n < 0 then "" else EventBus.Decimal(n)
  }

  lemma ClientIdsDiffer(m: nat, n: nat)
    requires ClientId(m) == ClientId(n)
    ensures m == n
  {
    assert ClientId(m)[4..] == EventBus.Decimal(m);
    assert ClientId(n)[4..] == EventBus.Decimal(n);
    EventBus.DecimalIsInjective(m, n);
  }

  function DataOf(offers: seq<Offer>): seq<string> {
    seq(|offers|, i requires 0 <= i < |offers| => offers[i].data)
  }

  /** The accepted offers' data: an in-order selection of `DataOf(offers)`. */
  function AcceptedOf(offers: seq<Offer>): seq<string> {
    if offers == [] then []
    else AcceptedOf(offers[..|offers| - 1]) + if offers[|offers| - 1].accepted then [offers[|offers| - 1].data] else []
  }

  function DroppedOf(offers: seq<Offer>): seq<string> {
    if offers == [] then []
    else DroppedOf(offers[..|offers| - 1]) + if offers[|offers| - 1].accepted then [] else [offers[|offers| - 1].data]
  }

  /** What holds of a client at any time, given all broadcasts so far. */
  ghost predicate Faithful(c: Client, broadcasts: seq<string>) {
    && |c.buffer| <= CAPACITY
    && c.joinedAt <= |broadcasts| && DataOf(c.offers) == broadcasts[c.joinedAt..]
    && c.received + c.buffer == AcceptedOf(c.offers)
    && forall i :: 0 <= i < |c.offers| ==> Sincere(c, i)
  }

  /** The backlog an offer met is what had been accepted by then less what had been read by then,
      and the offer was accepted exactly when that left room among 64. */
  ghost predicate Sincere(c: Client, i: nat)
    requires i < |c.offers|
  {
    var offer := c.offers[i];
    && offer.backlog == |AcceptedOf(c.offers[..i])| - offer.read
    && offer.read <= |c.received|
    && (offer.accepted <==> offer.backlog < 64)
  }

  lemma OfferKeepsFaith(c: Client, broadcasts: seq<string>, data: string)
    requires Faithful(c, broadcasts)
    ensures Faithful(Offered(c, data), broadcasts + [data])
  {
    var c' := Offered(c, data);
    assert c'.offers[..|c'.offers| - 1] == c.offers;
    assert c.received + (c.buffer + [data]) == (c.received + c.buffer) + [data];
    assert DataOf(c'.offers) == DataOf(c.offers) + [data];
    assert (broadcasts + [data])[c.joinedAt..] == broadcasts[c.joinedAt..] + [data];
    forall i | 0 <= i < |c'.offers| ensures Sincere(c', i) {
      if i < |c.offers| {
        assert Sincere(c, i) && c'.offers[..i] == c.offers[..i] && c'.offers[i] == c.offers[i];
      }
    }
  }

  lemma ReadKeepsFaith(c: Client, broadcasts: seq<string>)
    requires Faithful(c, broadcasts)
    ensures Faithful(Read(c), broadcasts)
  {
    if c.buffer != [] {
      assert (c.received + [c.buffer[0]]) + c.buffer[1..] == c.received + c.buffer;
    }
    forall i | 0 <= i < |c.offers| ensures Sincere(Read(c), i) {
      assert Sincere(c, i);
    }
  }

  ghost predicate GivenOut(ids: set<string>, nextID: int) {
    forall id | id in ids :: exists k: nat :: 1 <= k <= nextID && id == ClientId(k)
  }

  ghost predicate AllFaithful(clients: map<string, Client>, broadcasts: seq<string>) {
    forall id | id in clients :: Faithful(clients[id], broadcasts)
  }

  lemma BroadcastKeepsFaith(clients: map<string, Client>, broadcasts: seq<string>, data: string)
    requires AllFaithful(clients, broadcasts)
    ensures AllFaithful(OfferedToAll(clients, data), broadcasts + [data])
  {
    forall id | id in clients ensures Faithful(Offered(clients[id], data), broadcasts + [data]) {
      OfferKeepsFaith(clients[id], broadcasts, data);
    }
  }

  lemma ReceiveKeepsFaith(clients: map<string, Client>, broadcasts: seq<string>, id: string)
    requires AllFaithful(clients, broadcasts) && id in clients
    ensures AllFaithful(clients[id := Read(clients[id])], broadcasts)
  {
    ReadKeepsFaith(clients[id], broadcasts);
  }

  /** What a broadcast does to one client: with room among 64 the data is put behind what waits, and
      without it nothing moves; the offer on record met what was waiting. */
  ghost predicate Sent(before: Client, after: Client, data: string) {
    && after.joinedAt == before.joinedAt && after.received == before.received
    && (|before.buffer| < 64 ==> after.buffer == before.buffer + [data])
    && (|before.buffer| >= 64 ==> after.buffer == before.buffer)
    && after.offers == before.offers + [Offer(data, |before.received|, |before.buffer|, |before.buffer| < 64)]
  }

  /** What a receive does: the oldest waiting entry moves from the buffer to what was received. */
  ghost predicate HandedOut(before: Client, after: Client, data: Option<string>) {
    && after.joinedAt == before.joinedAt && after.offers == before.offers
    && match data
       case None => before.buffer == [] && after == before
       case Some(d) => before.buffer == [d] + after.buffer && after.received == before.received + [d]
  }

  lemma ReadHandsOut(c: Client, data: Option<string>)
    requires data == if c.buffer == [] then None else Some(c.buffer[0])
    ensures HandedOut(c, Read(c), data)
  {
  }

  class Server {
    var clients: map<string, Client>
    var nextID: int
    var broadcasts: seq<string>

    ghost predicate Valid()
      reads this
    {
      && 0 <= nextID <= EventBus.MAX_INT
      && GivenOut(clients.Keys, nextID)
      && AllFaithful(clients, broadcasts)
    }

    ghost function Now(): State
      requires Valid()
      reads this
    {
      State(clients, nextID, |broadcasts|)
    }

    constructor ()
      ensures Valid() && clients == map[] && nextID == 0 && broadcasts == []
    {
      clients, nextID, broadcasts := map[], 0, [];
    }

    method AddClient() returns (id: string)
      requires Valid() && nextID < EventBus.MAX_INT
      modifies this`clients, this`nextID
      ensures Valid() && nextID == old(nextID) + 1 && id == "sse_" + EventBus.Decimal(nextID)
      ensures id !in old(clients) && Now() == Next(old(Now()), Join)
      ensures clients == old(clients)[id := Client(|broadcasts|, [], [], [])]
    {
      nextID := nextID + 1;
      var digits := EventBus.Itoa(nextID);
      id := "sse_" + digits;
      assert id == ClientId(nextID);
      if id in clients {
        var k: nat :| 1 <= k < nextID && id == ClientId(k);
        ClientIdsDiffer(k, nextID);
      }
      clients := clients[id := Client(|broadcasts|, [], [], [])];
      assert DataOf([]) == broadcasts[|broadcasts|..];
    }

    method RemoveClient(id: string)
      requires Valid()
      modifies this`clients
      ensures Valid() && Now() == Next(old(Now()), Leave(id))
      ensures clients.Keys == old(clients).Keys - {id} && forall k | k in clients :: clients[k] == old(clients)[k]
    {
      clients := clients - {id};
    }

    /** A send that never blocks, to each client in turn. */
    method Broadcast(data: string)
      requires Valid()
      modifies this`clients, this`broadcasts
      ensures Valid() && broadcasts == old(broadcasts) + [data]
      ensures Now() == Next(old(Now()), Send(data))
      ensures clients.Keys == old(clients).Keys
      ensures forall id | id in clients :: Sent(old(clients)[id], clients[id], data)
    {
      BroadcastKeepsFaith(clients, broadcasts, data);
      SendToAll(data);
      broadcasts := broadcasts + [data];
    }

    /** The loop over the clients, in whatever order the map yields them. */
    method SendToAll(data: string)
      modifies this`clients
      ensures clients == OfferedToAll(old(clients), data)
    {
      var todo := clients.Keys;
      while todo != {}
        invariant todo <= clients.Keys == old(clients).Keys
        invariant forall id | id in todo :: clients[id] == old(clients)[id]
        invariant forall id | id in clients && id !in todo :: clients[id] == Offered(old(clients)[id], data)
        decreases |todo|
      {
        var id :| id in todo;
        var c := TrySend(clients[id], data);
        clients := clients[id := c];
        todo := todo - {id};
      }
    }

    /** The select with a default branch. */
    method TrySend(c: Client, data: string) returns (c': Client)
      ensures c' == Offered(c, data)
    {
      if |c.buffer| < CAPACITY {
        c' := c.(buffer := c.buffer + [data], offers := c.offers + [Offer(data, |c.received|, |c.buffer|, true)]);
      } else {
        c' := c.(offers := c.offers + [Offer(data, |c.received|, |c.buffer|, false)]);
      }
    }

    /** One turn of a client's receive loop; it waits while its buffer is empty. */
    method Receive(id: string) returns (data: Option<string>)
      requires Valid() && id in clients
      modifies this`clients
      ensures Valid() && Now() == Next(old(Now()), Take(id))
      ensures clients.Keys == old(clients).Keys && forall k | k in clients && k != id :: clients[k] == old(clients)[k]
      ensures HandedOut(old(clients)[id], clients[id], data)
    {
      var c := clients[id];
      ReceiveKeepsFaith(clients, broadcasts, id);
      data := if c.buffer == [] then None else Some(c.buffer[0]);
      ReadHandsOut(c, data);
      var c' := Read(c);
      clients := clients[id := c'];
    }
  }

  function OfferedToAll(clients: map<string, Client>, data: string): map<string, Client> {
    map id | id in clients :: Offered(clients[id], data)
  }

  // --- What a client sees ---

  lemma {:induction false} OffersSplit(offers: seq<Offer>)
    ensures |AcceptedOf(offers)| + |DroppedOf(offers)| == |offers|
    ensures (forall i :: 0 <= i < |offers| ==> offers[i].accepted) ==> AcceptedOf(offers) == DataOf(offers)
    ensures DroppedOf(offers) == [] ==> forall i :: 0 <= i < |offers| ==> offers[i].accepted
  {
    if offers != [] {
      var init := offers[..|offers| - 1];
      OffersSplit(init);
      assert forall i :: 0 <= i < |init| ==> init[i] == offers[i];
    }
  }

  /** Every broadcast since a client joined was received, is buffered, or was dropped; and the
      client misses nothing if and only if no broadcast found its buffer full. */
  lemma StreamIsAccountedFor(c: Client, broadcasts: seq<string>)
    requires Faithful(c, broadcasts)
    ensures |c.received| + |c.buffer| + |DroppedOf(c.offers)| == |broadcasts| - c.joinedAt
    ensures c.received + c.buffer == broadcasts[c.joinedAt..] <==>
      forall i :: 0 <= i < |c.offers| ==> |AcceptedOf(c.offers[..i])| - c.offers[i].read < 64
  {
    forall i | 0 <= i < |c.offers|
      ensures c.offers[i].accepted <==> |AcceptedOf(c.offers[..i])| - c.offers[i].read < 64
    {
      assert Sincere(c, i);
    }
    OffersSplit(c.offers);
    assert |DataOf(c.offers)| == |c.offers|;
    assert |c.received + c.buffer| == |c.received| + |c.buffer|;
    if c.received + c.buffer == broadcasts[c.joinedAt..] {
      assert DroppedOf(c.offers) == [];
    }
  }

  datatype Step = Join | Leave(id: string) | Send(data: string) | Take(id: string)

  datatype State = State(clients: map<string, Client>, nextID: nat, sent: nat)

  ghost predicate IdsGivenOut(s: State) {
    GivenOut(s.clients.Keys, s.nextID)
  }

  function Next(s: State, step: Step): State {
    match step
    case Join => State(s.clients[ClientId(s.nextID + 1) := Client(s.sent, [], [], [])], s.nextID + 1, s.sent)
    case Leave(id) => s.(clients := s.clients - {id})
    case Send(data) => s.(clients := OfferedToAll(s.clients, data), sent := s.sent + 1)
    case Take(id) => if id in s.clients then s.(clients := s.clients[id := Read(s.clients[id])]) else s
  }

  function After(s: State, steps: seq<Step>): State
    decreases |steps|
  {
    if steps == [] then s else After(Next(s, steps[0]), steps[1..])
  }

  /** The steps that concern a client: the broadcasts and its own reads. */
  function Own(steps: seq<Step>, id: string): seq<Step> {
    if steps == [] then []
    else (if steps[0].Send? || steps[0] == Take(id) then [steps[0]] else []) + Own(steps[1..], id)
  }

  function Moved(c: Client, step: Step): Client {
    match step
    case Send(data) => Offered(c, data)
    case Take(_) => Read(c)
    case _ => c
  }

  /** A client that has the server for itself. */
  function Alone(c: Client, steps: seq<Step>): Client
    decreases |steps|
  {
    if steps == [] then c
    else Alone(Moved(c, steps[0]), steps[1..])
  }

  lemma StepOnClient(s: State, step: Step, id: string)
    requires IdsGivenOut(s) && id in s.clients && step != Leave(id)
    ensures IdsGivenOut(Next(s, step)) && id in Next(s, step).clients
    ensures Next(s, step).clients[id] ==
      if step.Send? || step == Take(id) then Moved(s.clients[id], step) else s.clients[id]
  {
    if step.Join? {
      JoinIsNew(s);
    } else {
      FewerAreGivenOut(s.clients.Keys, Next(s, step).clients.Keys, s.nextID);
    }
  }

  lemma FewerAreGivenOut(ids: set<string>, fewer: set<string>, nextID: int)
    requires GivenOut(ids, nextID) && fewer <= ids
    ensures GivenOut(fewer, nextID)
  {
  }

  lemma {:induction false} ClientIsAlone(s: State, steps: seq<Step>, id: string)
    requires IdsGivenOut(s) && id in s.clients && Leave(id) !in steps
    ensures id in After(s, steps).clients && After(s, steps).clients[id] == Alone(s.clients[id], Own(steps, id))
    decreases |steps|
  {
    if steps != [] {
      var step := steps[0];
      assert step in steps;
      StepOnClient(s, step, id);
      ClientIsAlone(Next(s, step), steps[1..], id);
      var own := Own(steps[1..], id);
      assert ([step] + own)[1..] == own && [] + own == own;
    }
  }

  lemma JoinIsNew(s: State)
    requires IdsGivenOut(s)
    ensures ClientId(s.nextID + 1) !in s.clients && IdsGivenOut(Next(s, Join))
  {
    var id := ClientId(s.nextID + 1);
    if id in s.clients {
      var k: nat :| 1 <= k <= s.nextID && id == ClientId(k);
      ClientIdsDiffer(k, s.nextID + 1);
    }
    forall other | other in Next(s, Join).clients
      ensures exists k: nat :: 1 <= k <= s.nextID + 1 && other == ClientId(k)
    {
      if other != id {
        var k: nat :| 1 <= k <= s.nextID && other == ClientId(k);
      }
    }
  }

  /** No client can disturb another: over any two runs with the same broadcasts and the same reads
      of one client, interleaved alike, that client's buffer and stream come out the same,
      whoever else joins, leaves or reads. */
  lemma ClientsAreIndependent(s1: State, steps1: seq<Step>, s2: State, steps2: seq<Step>, id: string)
    requires IdsGivenOut(s1) && IdsGivenOut(s2)
    requires id in s1.clients && id in s2.clients && s1.clients[id] == s2.clients[id]
    requires Leave(id) !in steps1 && Leave(id) !in steps2 && Own(steps1, id) == Own(steps2, id)
    ensures id in After(s1, steps1).clients && id in After(s2, steps2).clients
    ensures After(s1, steps1).clients[id] == After(s2, steps2).clients[id]
  {
    ClientIsAlone(s1, steps1, id);
    ClientIsAlone(s2, steps2, id);
  }
}
