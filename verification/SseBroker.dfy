/** The event broker: a ring of recent events, and buffered clients that are sent what they
    missed. */
module SseBroker {

  const HISTORY_CAPACITY := 100
  const CLIENT_CAPACITY := 128

  datatype Event = Event(timestamp: int, isOnline: bool, deviceId: string)

  /** The receiving end of a client's bounded channel. */
  class Client {
    const id: string
    var events: seq<Event>

    constructor (id: string)
      ensures this.id == id && events == []
    {
      this.id, events := id, [];
    }

    /** Sends without blocking. */
    method Offer(event: Event) returns (sent: bool)
      modifies this`events
      ensures sent <==> |old(events)| < 128
      ensures events == if sent then old(events) + [event] else old(events)
    {
      if |events| < CLIENT_CAPACITY {
        events := events + [event];
        return true;
      }
      return false;
    }
  }

  function Latest(events: seq<Event>, n: nat): seq<Event> {
    if |events| <= n then events else events[|events| - n..]
  }

  /** The events a client that has seen everything up to `since` is sent again; devices that are
      online now are not announced again. */
  predicate Missed(e: Event, since: int, online: set<string>) {
    e.timestamp > since && !(e.isOnline && e.deviceId in online)
  }

  function Replay(events: seq<Event>, since: int, online: set<string>): (r: seq<Event>)
    ensures |r| <= |events|
    ensures forall e :: e in r <==> e in events && Missed(e, since, online)
  {
    if events == [] then []
    else
      var init, last := events[..|events| - 1], events[|events| - 1];
      assert events == init + [last];
      Replay(init, since, online) + if Missed(last, since, online) then [last] else []
  }

  lemma {:induction false} ReplayOfParts(a: seq<Event>, b: seq<Event>, since: int, online: set<string>)
    ensures Replay(a + b, since, online) == Replay(a, since, online) + Replay(b, since, online)
  {
    if b == [] {
      assert a + b == a;
    } else {
      var init, last := b[..|b| - 1], b[|b| - 1];
      assert (a + b)[..|a + b| - 1] == a + init;
      ReplayOfParts(a, init, since, online);
    }
  }

  class Broker {
    var clients: map<string, Client>
    var history: seq<Event>
    var histHead: nat

    /** Every event ever broadcast. */
    ghost var broadcast: seq<Event>

    /** The ring, read from its head on. */
    ghost function InOrder(): seq<Event>
      reads this
      requires histHead <= |history|
    {
      history[histHead..] + history[..histHead]
    }

    /** Read from its head on, the ring holds the latest events in order; it turns only when full. */
    ghost predicate Valid()
      reads this
    {
      && histHead <= |history| <= HISTORY_CAPACITY && histHead < HISTORY_CAPACITY
      && (|history| < HISTORY_CAPACITY ==> histHead == 0 && |history| == |broadcast|)
      && InOrder() == Latest(broadcast, HISTORY_CAPACITY)
      && forall a, b | a in clients && b in clients && a != b :: clients[a] != clients[b]
    }

    constructor ()
      ensures Valid() && broadcast == [] && clients == map[]
    {
      clients, history, histHead, broadcast := map[], [], 0, [];
    }

    /** The event replaces the oldest one; every client with room is sent it, in any order. */
    method Broadcast(event: Event)
      requires Valid()
      modifies this`history, this`histHead, this`broadcast, clients.Values`events
      ensures Valid() && broadcast == old(broadcast) + [event]
      ensures forall id | id in clients ::
                clients[id].events == if |old(clients[id].events)| < CLIENT_CAPACITY
                                      then old(clients[id].events) + [event] else old(clients[id].events)
    {
      Record(event);
      SendToAll(event);
    }

    /** The part of a broadcast about the ring. */
    method Record(event: Event)
      requires Valid()
      modifies this`history, this`histHead, this`broadcast
      ensures Valid() && broadcast == old(broadcast) + [event]
    {
      broadcast := broadcast + [event];
      if |history| < HISTORY_CAPACITY {
        history := history + [event];
      } else {
        TurnOfRing(history, histHead, old(broadcast), event);
        history := history[histHead := event];
        histHead := (histHead + 1) % HISTORY_CAPACITY;
      }
    }

    /** The loop over the clients, in any order. */
    method SendToAll(event: Event)
      requires forall a, b | a in clients && b in clients && a != b :: clients[a] != clients[b]
      modifies clients.Values`events
      ensures forall id | id in clients ::
                clients[id].events == if |old(clients[id].events)| < CLIENT_CAPACITY
                                      then old(clients[id].events) + [event] else old(clients[id].events)
    {
      var remaining := clients.Keys;
      while remaining != {}
        invariant remaining <= clients.Keys
        invariant forall id | id in clients ::
                    clients[id].events ==
                    if id in remaining || |old(clients[id].events)| >= CLIENT_CAPACITY then old(clients[id].events)
                    else old(clients[id].events) + [event]
      {
        var id :| id in remaining;
        remaining := remaining - {id};
        var _ := clients[id].Offer(event);
      }
    }

    /** A new client is sent what it missed, as it lies in the ring, and nothing of it is cut. */
    method Subscribe(clientId: string, lastEventId: int, online: set<string>) returns (client: Client)
      requires Valid()
      modifies this`clients
      ensures Valid() && fresh(client) && clients == old(clients)[clientId := client]
      ensures client.events == if lastEventId > 0 then Replay(history, lastEventId, online) else []
      ensures multiset(client.events) ==
              multiset(if lastEventId > 0 then Replay(Latest(broadcast, 100), lastEventId, online) else [])
      ensures forall e :: e in client.events <==>
                && lastEventId > 0 && e in Latest(broadcast, 100)
                && e.timestamp > lastEventId && !(e.isOnline && e.deviceId in online)
    {
      RingReplayIsComplete(history, histHead, broadcast, lastEventId, online);
      client := new Client(clientId);
      clients := clients[clientId := client];
      if lastEventId > 0 {
        ReplayEvents(client, lastEventId, online);
      }
    }

    method ReplayEvents(client: Client, lastEventId: int, online: set<string>)
      requires client.events == [] && |history| <= CLIENT_CAPACITY
      modifies client`events
      ensures client.events == Replay(history, lastEventId, online)
    {
      for i := 0 to |history|
        invariant client.events == Replay(history[..i], lastEventId, online)
      {
        assert history[..i + 1][..i] == history[..i];
        if history[i].timestamp > lastEventId {
          if history[i].isOnline {
            if history[i].deviceId in online {
              continue;
            }
          }
          var sent := client.Offer(history[i]);
          if !sent {
            return;
          }
        }
      }
      assert history[..|history|] == history;
    }

    method Unsubscribe(clientId: string)
      requires Valid()
      modifies this`clients
      ensures Valid() && clients == old(clients) - {clientId}
    {
      if clientId in clients {
        clients := clients - {clientId};
      }
    }
  }

  /** Writing over the head of a full ring and moving it on drops the oldest event. */
  lemma TurnOfRing(history: seq<Event>, head: nat, broadcast: seq<Event>, event: Event)
    requires |history| == HISTORY_CAPACITY && head < HISTORY_CAPACITY
    requires history[head..] + history[..head] == Latest(broadcast, HISTORY_CAPACITY)
    ensures var turned, next := history[head := event], (head + 1) % HISTORY_CAPACITY;
            turned[next..] + turned[..next] == Latest(broadcast + [event], HISTORY_CAPACITY)
  {
    var turned, next := history[head := event], (head + 1) % HISTORY_CAPACITY;
    var before, after := Latest(broadcast, HISTORY_CAPACITY), Latest(broadcast + [event], HISTORY_CAPACITY);
    assert |before| == HISTORY_CAPACITY;
    assert after == before[1..] + [event];
    forall k | 0 <= k < HISTORY_CAPACITY ensures (turned[next..] + turned[..next])[k] == after[k] {
      if k < HISTORY_CAPACITY - 1 {
        assert after[k] == before[k + 1] == (history[head..] + history[..head])[k + 1];
      }
    }
  }

  /** A ring that lies as `newer + older` holds the latest events as `older + newer`. */
  ghost predicate LiesAs(history: seq<Event>, head: nat, newer: seq<Event>, older: seq<Event>, broadcast: seq<Event>) {
    && head <= |history| && newer == history[..head] && older == history[head..]
    && history == newer + older && older + newer == Latest(broadcast, HISTORY_CAPACITY)
  }

  /** A new client misses none of the latest events, and gets each as often as it was broadcast. */
  lemma ReplayIsComplete(
      history: seq<Event>, head: nat, newer: seq<Event>, older: seq<Event>, broadcast: seq<Event>, since: int,
      online: set<string>)
    requires LiesAs(history, head, newer, older, broadcast)
    ensures multiset(Replay(history, since, online)) ==
            multiset(Replay(Latest(broadcast, HISTORY_CAPACITY), since, online))
  {
    ReplayOfParts(newer, older, since, online);
    ReplayOfParts(older, newer, since, online);
  }

  lemma RingReplayIsComplete(history: seq<Event>, head: nat, broadcast: seq<Event>, since: int, online: set<string>)
    requires head <= |history| && history[head..] + history[..head] == Latest(broadcast, HISTORY_CAPACITY)
    ensures multiset(Replay(history, since, online)) ==
            multiset(Replay(Latest(broadcast, HISTORY_CAPACITY), since, online))
  {
    assert history == history[..head] + history[head..];
    ReplayIsComplete(history, head, history[..head], history[head..], broadcast, since, online);
  }

  lemma NothingMissed(events: seq<Event>, since: int, online: set<string>)
    ensures Replay(events, since, online) == [] <==> forall e | e in events :: !Missed(e, since, online)
  {
    var r := Replay(events, since, online);
    assert r != [] ==> r[0] in r;
    assert forall e | e in events && Missed(e, since, online) :: e in r;
  }

  /** With events that are all different, a replay is in the order of the broadcasts exactly when
      what was missed lies on one side of the head: the newer events before it are sent before the
      older ones behind it. */
  lemma ReplayInOrderIff(
      history: seq<Event>, head: nat, newer: seq<Event>, older: seq<Event>, broadcast: seq<Event>, since: int,
      online: set<string>)
    requires LiesAs(history, head, newer, older, broadcast) && forall e | e in newer :: e !in older
    ensures Replay(history, since, online) == Replay(Latest(broadcast, HISTORY_CAPACITY), since, online) <==>
            (forall e | e in newer :: !Missed(e, since, online)) || (forall e | e in older :: !Missed(e, since, online))
  {
    var front, back := Replay(newer, since, online), Replay(older, since, online);
    ReplayOfParts(newer, older, since, online);
    ReplayOfParts(older, newer, since, online);
    NothingMissed(newer, since, online);
    NothingMissed(older, since, online);
    SwapsIff(front, back);
  }

  lemma SwapsIff(a: seq<Event>, b: seq<Event>)
    requires forall e | e in a :: e !in b
    ensures a + b == b + a <==> a == [] || b == []
  {
    if a != [] && b != [] {
      assert (a + b)[0] == a[0] && a[0] in a && (b + a)[0] == b[0] && b[0] in b;
    }
  }
}
