/** The event emitter and the channels to its subscribers, one call after the other. */
module EventHandler {
  import opened EventLists

  /** A channel: its receiver may be dropped; what was sent before stays delivered. */
  class Channel<E> {
    var connected: bool
    var delivered: seq<E>

    constructor ()
      ensures connected && delivered == []
    {
      connected, delivered := true, [];
    }

    method Send(event: E) returns (ok: bool)
      modifies this
      ensures ok == old(connected) == connected
      ensures delivered == old(delivered) + if ok then [event] else []
    {
      if connected {
        delivered := delivered + [event];
      }
      return connected;
    }
  }

  class Emitter<E> {
    var subscribers: seq<Channel<E>>
    /** Every channel ever subscribed, with the number of events issued before it was. */
    ghost var since: map<Channel<E>, nat>
    /** Every event issued. */
    ghost var log: seq<E>

    /** A channel is served: listed, and delivered exactly the events since its subscription. */
    ghost predicate Served(c: Channel<E>)
      reads this, c
    {
      c in since && since[c] <= |log| && c in subscribers && c.delivered == log[since[c]..]
    }

    ghost predicate Valid()
      reads this, since.Keys
    {
      && Distinct(subscribers)
      && (forall c :: c in subscribers ==> c in since)
      && (forall c :: c in since && c.connected ==> Served(c))
    }

    constructor ()
      ensures Valid() && subscribers == [] && since == map[] && log == []
    {
      subscribers, since, log := [], map[], [];
    }

    method Subscribe() returns (receiver: Channel<E>)
      requires Valid()
      modifies this
      ensures Valid() && fresh(receiver) && receiver.connected
      ensures subscribers == old(subscribers) + [receiver]
      ensures since == old(since)[receiver := |log|] && log == old(log)
    {
      receiver := new Channel();
      subscribers := subscribers + [receiver];
      since := since[receiver := |log|];
    }

    method DropReceiver(receiver: Channel<E>)
      requires Valid() && receiver in since
      modifies receiver`connected
      ensures Valid() && !receiver.connected
    {
      receiver.connected := false;
    }

    /**
     Sends an event to every subscriber and removes those whose receiver is gone.
     Valid afterwards says that every live receiver has got every event since its
     subscription, in order and once.
     */
    method SendEvent(event: E)
      requires Valid()
      modifies this, since.Keys
      ensures Valid() && log == old(log) + [event] && since == old(since)
      ensures forall c :: c in since ==> c.connected == old(c.connected) && (!c.connected ==> c.delivered == old(c.delivered))
      ensures subscribers == Without(old(subscribers), old(Disconnected()))
    {
      ghost var before, issued := subscribers, log;
      var gone := Deliver(event);
      assert forall c :: c in since && c.connected ==> c in before && c.delivered == issued[since[c]..] + [event];
      if gone != {} {
        RemoveDisconnectedSubscribers(gone);
      } else {
        WithoutNothing(before, gone);
      }
      log := log + [event];
      AllServed(before, issued, event, gone);
    }

    /** What a send leaves behind: every live receiver was listed and got the event. */
    lemma AllServed(before: seq<Channel<E>>, issued: seq<E>, event: E, gone: set<nat>)
      requires Distinct(before) && forall c :: c in before ==> c in since
      requires gone == set i: nat | i < |before| && !before[i].connected
      requires subscribers == Without(before, gone) && log == issued + [event]
      requires forall c :: c in since && c.connected ==>
                 c in before && since[c] <= |issued| && c.delivered == issued[since[c]..] + [event]
      ensures Valid()
    {
      WithoutIsDistinct(before, gone);
      forall c | c in since && c.connected
        ensures Served(c)
      {
        StillListed(before, gone, c);
        LaterEvents(issued, event, since[c]);
      }
    }

    static lemma StillListed(before: seq<Channel<E>>, gone: set<nat>, c: Channel<E>)
      requires Distinct(before) && c in before && c.connected
      requires gone == set i: nat | i < |before| && !before[i].connected
      ensures c in Without(before, gone)
    {
      var i :| 0 <= i < |before| && before[i] == c;
      WithoutKeeps(before, gone, i);
    }

    static lemma LaterEvents(log: seq<E>, event: E, n: nat)
      requires n <= |log|
      ensures (log + [event])[n..] == log[n..] + [event]
    {
    }

    ghost function Disconnected(): set<nat>
      reads this, since.Keys
      requires forall c :: c in subscribers ==> c in since
    {
      set i: nat | i < |subscribers| && !subscribers[i].connected
    }

    /** The read-locked part of SendEvent: sends to all, and collects the indices of those that are gone. */
    method Deliver(event: E) returns (gone: set<nat>)
      requires Distinct(subscribers) && forall c :: c in subscribers ==> c in since
      modifies since.Keys
      ensures gone == old(Disconnected())
      ensures forall c :: c in since ==> c.connected == old(c.connected)
      ensures forall c :: c in since ==>
                c.delivered == old(c.delivered) + if c in subscribers && c.connected then [event] else []
    {
      gone := {};
      for i := 0 to |subscribers|
        invariant forall c :: c in since ==> c.connected == old(c.connected)
        invariant gone == set k: nat | k < i && !subscribers[k].connected
        invariant forall c :: c in since ==>
                    c.delivered == old(c.delivered) + if c in subscribers[..i] && c.connected then [event] else []
      {
        var c := subscribers[i];
        assert c in subscribers && c !in subscribers[..i];
        assert subscribers[..i + 1] == subscribers[..i] + [c];
        var ok := c.Send(event);
        if !ok {
          gone := gone + {i};
        }
      }
      assert subscribers[..|subscribers|] == subscribers;
    }

    /** The write-locked part of SendEvent: drops the subscribers at the given indices. */
    method RemoveDisconnectedSubscribers(gone: set<nat>)
      modifies `subscribers
      ensures subscribers == Without(old(subscribers), gone)
    {
      var kept: seq<Channel<E>> := [];
      for i := 0 to |subscribers|
        invariant kept == Without(subscribers[..i], gone)
      {
        assert subscribers[..i + 1][..i] == subscribers[..i];
        if i !in gone {
          kept := kept + [subscribers[i]];
        }
      }
      assert subscribers[..|subscribers|] == subscribers;
      subscribers := kept;
    }
  }
}
