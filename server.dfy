/** The chat server: a registry from channel names to the addresses
    subscribed to them, and the dispatch of each inbound datagram. The UDP
    socket is replaced by an outbox that records every send in order. */
module ChatServer {
  import opened Wrappers
  import opened Protocol

  /** A peer's network address (IP and port). Only equality matters: a
      subscriber is identified by the address its datagrams come from. */
  type Addr(==)

  /** One `send_to` call: the frame and where it went. */
  datatype Packet = Packet(frame: string, to: Addr)

  type Registry = map<string, set<Addr>>

  /** The subscribers of a channel; an absent channel has none. */
  function SubscribersOf(reg: Registry, channel: string): set<Addr> {
    if channel in reg then reg[channel] else {}
  }

  /** The registry after `address` subscribes to `channel`: its set gains the
      address (a missing channel starts out empty) and nothing else changes. */
  function AddSubscriber(reg: Registry, channel: string, address: Addr): (r: Registry)
    ensures r.Keys == reg.Keys + {channel}
    ensures r[channel] == SubscribersOf(reg, channel) + {address}
    ensures forall c :: c in reg && c != channel ==> r[c] == reg[c]
  {
    reg[channel := SubscribersOf(reg, channel) + {address}]
  }

  /** The registry after `address` unsubscribes from `channel`: the address
      leaves an existing channel's set, whose entry stays even when empty. */
  function RemoveSubscriber(reg: Registry, channel: string, address: Addr): (r: Registry)
    ensures r.Keys == reg.Keys
    ensures channel in reg ==> r[channel] == reg[channel] - {address}
    ensures forall c :: c in reg && c != channel ==> r[c] == reg[c]
  {
    if channel in reg then reg[channel := reg[channel] - {address}] else reg
  }

  /** The addresses of a run of packets, in order. */
  function Destinations(packets: seq<Packet>): seq<Addr> {
    seq(|packets|, i requires 0 <= i < |packets| => packets[i].to)
  }

  /** The frame the server sends for a Publish: a fresh copy, serialised. */
  function PublishFrame(p: PublishDatagram): string {
    Serialize(Publish(Copy(p)))
  }

  /** A frame that parses back to a Publish. */
  predicate IsPublishFrame(frame: string) {
    Parse(frame).Ok? && Parse(frame).value.Publish?
  }

  /** `after` is `before` followed by one packet carrying `frame` to each of
      `dests`, in some order. */
  ghost predicate FansOut(before: seq<Packet>, after: seq<Packet>, frame: string, dests: set<Addr>) {
    && |before| <= |after|
    && after[..|before|] == before
    && (forall i :: |before| <= i < |after| ==> after[i].frame == frame)
    && multiset(Destinations(after[|before|..])) == multiset(dests)
  }

  /** What handling datagram `d` from `address` does to the registry and the
      outbox: Subscribe and Unsubscribe use the source address, Publish fans
      out to the channel's subscribers, Error does nothing. */
  ghost predicate Handles(reg: Registry, out: seq<Packet>, d: Datagram, address: Addr,
                          reg': Registry, out': seq<Packet>)
  {
    match d
    case Subscribe(s) => reg' == AddSubscriber(reg, s.channel, address) && out' == out
    case Unsubscribe(u) => reg' == RemoveSubscriber(reg, u.channel, address) && out' == out
    case Publish(p) => reg' == reg && FansOut(out, out', PublishFrame(p), SubscribersOf(reg, p.channel))
    case Error(_) => reg' == reg && out' == out
  }

  class Server {
    var subscriptions: Registry
    var outbox: seq<Packet>

    /** Everything the server has sent is a frame that parses to a Publish. */
    ghost predicate Valid()
      reads this
    {
      forall i :: 0 <= i < |outbox| ==> IsPublishFrame(outbox[i].frame)
    }

    /** A server with an empty registry that has sent nothing. */
    constructor ()
      ensures Valid() && subscriptions == map[] && outbox == []
    {
      subscriptions := map[];
      outbox := [];
    }

    /** Sends a copy of the Publish to one address. A failed send is only
        logged, so the attempt is all there is to record. */
    method Send(p: PublishDatagram, address: Addr)
      requires Valid()
      modifies this`outbox
      ensures Valid()
      ensures outbox == old(outbox) + [Packet(PublishFrame(p), address)]
    {
      var datagram := Publish(Copy(p));
      PublishFrameParses(p);
      outbox := outbox + [Packet(Serialize(datagram), address)];
    }

    method HandleSubscribe(d: SubscribeDatagram, address: Addr)
      modifies this`subscriptions
      ensures subscriptions == AddSubscriber(old(subscriptions), d.channel, address)
    {
      if d.channel in subscriptions {
        var addresses := subscriptions[d.channel];
        subscriptions := subscriptions[d.channel := addresses + {address}];
      } else {
        assert SubscribersOf(subscriptions, d.channel) + {address} == {address};
        subscriptions := subscriptions[d.channel := {address}];
      }
    }

    method HandleUnsubscribe(d: UnsubscribeDatagram, address: Addr)
      modifies this`subscriptions
      ensures subscriptions == RemoveSubscriber(old(subscriptions), d.channel, address)
    {
      if d.channel in subscriptions {
        var addresses := subscriptions[d.channel];
        subscriptions := subscriptions[d.channel := addresses - {address}];
      }
    }

    /** Sends the Publish once to every subscriber of its channel, visiting
        the subscriber set in no particular order. */
    method HandlePublish(d: PublishDatagram)
      requires Valid()
      modifies this`outbox
      ensures Valid()
      ensures FansOut(old(outbox), outbox, PublishFrame(d), SubscribersOf(subscriptions, d.channel))
    {
      if d.channel in subscriptions {
        var addresses := subscriptions[d.channel];
        var remaining := addresses;
        ghost var start := outbox;
        while remaining != {}
          invariant Valid()
          invariant remaining <= addresses
          invariant |start| <= |outbox| && outbox[..|start|] == start
          invariant forall i :: |start| <= i < |outbox| ==> outbox[i].frame == PublishFrame(d)
          invariant multiset(Destinations(outbox[|start|..])) + multiset(remaining) == multiset(addresses)
          decreases remaining
        {
          var address :| address in remaining;
          ghost var before := outbox;
          Send(d, address);
          DestinationsAppend(before[|start|..], Packet(PublishFrame(d), address));
          assert outbox[|start|..] == before[|start|..] + [Packet(PublishFrame(d), address)];
          assert multiset(remaining) == multiset(remaining - {address}) + multiset{address};
          remaining := remaining - {address};
        }
      } else {
        assert outbox[|outbox|..] == [];
      }
    }

    method HandleDatagram(d: Datagram, address: Addr)
      requires Valid()
      modifies this
      ensures Valid()
      ensures Handles(old(subscriptions), old(outbox), d, address, subscriptions, outbox)
    {
      match d
      case Subscribe(s) => HandleSubscribe(s, address);
      case Unsubscribe(u) => HandleUnsubscribe(u, address);
      case Publish(p) => HandlePublish(p);
      case Error(_) =>
    }

    /** A frame that does not parse is logged and otherwise ignored. */
    method HandleDatagramString(s: string, address: Addr)
      requires Valid()
      modifies this
      ensures Valid()
      ensures Parse(s).Err? ==> subscriptions == old(subscriptions) && outbox == old(outbox)
      ensures Parse(s).Ok? ==> Handles(old(subscriptions), old(outbox), Parse(s).value, address, subscriptions, outbox)
    {
      match Parse(s)
      case Ok(d) => HandleDatagram(d, address);
      case Err(_) =>
    }

    /** An inbound buffer is decoded as UTF-8 first; `fromUtf8` stands for
        that decoding, and a buffer it rejects is logged and ignored. */
    method HandleDatagramBuffer(buf: seq<bv8>, address: Addr, fromUtf8: seq<bv8> -> Option<string>)
      requires Valid()
      modifies this
      ensures Valid()
      ensures fromUtf8(buf).None? ==> subscriptions == old(subscriptions) && outbox == old(outbox)
      ensures fromUtf8(buf).Some? ==>
        var s := fromUtf8(buf).value;
        && (Parse(s).Err? ==> subscriptions == old(subscriptions) && outbox == old(outbox))
        && (Parse(s).Ok? ==> Handles(old(subscriptions), old(outbox), Parse(s).value, address, subscriptions, outbox))
    {
      match fromUtf8(buf)
      case Some(s) => HandleDatagramString(s, address);
      case None =>
    }
  }

  // ---------------------------------------------------------------------
  // Lemmas

  lemma {:induction false} DestinationsAppend(packets: seq<Packet>, p: Packet)
    ensures Destinations(packets + [p]) == Destinations(packets) + [p.to]
  {
  }

  /** The frame sent for a Publish parses back to the copy. */
  lemma {:induction false} PublishFrameParses(p: PublishDatagram)
    ensures Parse(PublishFrame(p)) == Ok(Publish(Copy(p)))
    ensures IsPublishFrame(PublishFrame(p))
  {
    RoundTrip(Publish(Copy(p)));
  }

  /** A Publish that arrived as frame `s` is forwarded as exactly `s`. */
  lemma {:induction false} ForwardsReceivedFrame(s: string)
    requires Parse(s).Ok? && Parse(s).value.Publish?
    ensures PublishFrame(Parse(s).value.publish) == s
  {
    ParseInverse(s);
  }

  /** A fan-out sends exactly one packet to each destination and none
      elsewhere. */
  lemma {:induction false} FansOutOnce(before: seq<Packet>, after: seq<Packet>, frame: string, dests: set<Addr>)
    requires FansOut(before, after, frame, dests)
    ensures |after| == |before| + |dests|
    ensures forall a :: multiset(Destinations(after[|before|..]))[a] == if a in dests then 1 else 0
  {
    var sent := Destinations(after[|before|..]);
    assert |multiset(sent)| == |sent|;
    SetMultisetSize(dests);
  }

  lemma {:induction false} SetMultisetSize(s: set<Addr>)
    ensures |multiset(s)| == |s|
    decreases |s|
  {
    if s != {} {
      var a :| a in s;
      SetMultisetSize(s - {a});
      assert multiset(s) == multiset(s - {a}) + multiset{a};
    }
  }

  /** Subscribing twice is subscribing once. */
  lemma {:induction false} SubscribeIdempotent(reg: Registry, channel: string, address: Addr)
    ensures AddSubscriber(AddSubscriber(reg, channel, address), channel, address) == AddSubscriber(reg, channel, address)
  {
  }

  /** Unsubscribing from an absent channel, or an address that is not
      subscribed, leaves the registry as it was. */
  lemma {:induction false} UnsubscribeAbsent(reg: Registry, channel: string, address: Addr)
    requires address !in SubscribersOf(reg, channel)
    ensures RemoveSubscriber(reg, channel, address) == reg
  {
    if channel in reg {
      assert reg[channel] - {address} == reg[channel];
    }
  }

  /** Unsubscribing undoes a subscription but keeps the channel's entry. */
  lemma {:induction false} UnsubscribeAfterSubscribe(reg: Registry, channel: string, address: Addr)
    ensures var r := RemoveSubscriber(AddSubscriber(reg, channel, address), channel, address);
            && r.Keys == reg.Keys + {channel}
            && r[channel] == SubscribersOf(reg, channel) - {address}
  {
  }

  /** The dispatch of a Publish or an Error does not depend on the source
      address, and neither changes the registry. */
  lemma {:induction false} SourceAddressIgnored(reg: Registry, out: seq<Packet>, d: Datagram, a: Addr, b: Addr,
                             reg': Registry, out': seq<Packet>)
    requires d.Publish? || d.Error?
    requires Handles(reg, out, d, a, reg', out')
    ensures Handles(reg, out, d, b, reg', out') && reg' == reg
  {
  }

  // ---------------------------------------------------------------------
  // The server's own scenario: two clients subscribe, a third publishes

  /** Client 1 subscribes to "testing123" and "nope" and leaves "nope";
      client 2 subscribes to "testing123" and "client2"; then a sender
      publishes to "testing123", "client2" and "nope". Each subscriber of
      "testing123" gets that Publish once, client 2 also gets its own, and
      the publish to "nope" reaches nobody. */
  method BasicServer(client1: Addr, client2: Addr, sender: Addr) returns (sent: seq<Packet>)
    requires client1 != client2
    ensures |sent| == 3
    ensures multiset([sent[0].to, sent[1].to]) == multiset{client1, client2}
    ensures sent[0].frame == sent[1].frame == Serialize(Publish(PublishDatagram("testing123", "hi clients!", "sender")))
    ensures sent[2] == Packet(Serialize(Publish(PublishDatagram("client2", "hi client 2!", "sender"))), client2)
  {
    var server := new Server();
    ClientsSubscribe(server, client1, client2);

    var hi := PublishDatagram("testing123", "hi clients!", "sender");
    var hi2 := PublishDatagram("client2", "hi client 2!", "sender");
    var bad := PublishDatagram("nope", "bad!", "sender");
    DeliverPublish(server, hi, sender);
    ghost var out1 := server.outbox;
    FansOutToTwo(out1, Serialize(Publish(hi)), client1, client2);
    DeliverPublish(server, hi2, sender);
    ghost var out2 := server.outbox;
    FansOutToOne(out1, out2, Serialize(Publish(hi2)), client2);
    DeliverPublish(server, bad, sender);
    FansOutToNone(out2, server.outbox, Serialize(Publish(bad)));
    sent := server.outbox;
  }

  lemma {:induction false} FansOutToTwo(after: seq<Packet>, frame: string, a: Addr, b: Addr)
    requires a != b && FansOut([], after, frame, {a, b})
    ensures |after| == 2 && after[0].frame == after[1].frame == frame
    ensures multiset([after[0].to, after[1].to]) == multiset{a, b}
  {
    FansOutOnce([], after, frame, {a, b});
    assert after[0..] == after;
    assert Destinations(after) == [after[0].to, after[1].to];
    assert multiset({a, b}) == multiset{a, b};
  }

  lemma {:induction false} FansOutToOne(before: seq<Packet>, after: seq<Packet>, frame: string, a: Addr)
    requires FansOut(before, after, frame, {a})
    ensures after == before + [Packet(frame, a)]
  {
    FansOutOnce(before, after, frame, {a});
    assert multiset(Destinations(after[|before|..]))[a] == 1;
    assert Destinations(after[|before|..]) == [after[|before|].to];
    assert after == after[..|before|] + [after[|before|]];
  }

  lemma {:induction false} FansOutToNone(before: seq<Packet>, after: seq<Packet>, frame: string)
    requires FansOut(before, after, frame, {})
    ensures after == before
  {
    FansOutOnce(before, after, frame, {});
  }

  /** The subscription half of BasicServer. */
  method ClientsSubscribe(server: Server, client1: Addr, client2: Addr)
    requires server.Valid() && server.subscriptions == map[] && server.outbox == []
    modifies server
    ensures server.Valid() && server.outbox == []
    ensures SubscribersOf(server.subscriptions, "testing123") == {client1, client2}
    ensures SubscribersOf(server.subscriptions, "client2") == {client2}
    ensures SubscribersOf(server.subscriptions, "nope") == {}
  {
    DeliverSubscribe(server, "testing123", client1);
    DeliverSubscribe(server, "nope", client1);
    DeliverUnsubscribe(server, "nope", client1);
    DeliverSubscribe(server, "testing123", client2);
    DeliverSubscribe(server, "client2", client2);
  }

  /** A client sends Subscribe(channel) from `address`; the server handles it. */
  method DeliverSubscribe(server: Server, channel: string, address: Addr)
    requires server.Valid()
    modifies server
    ensures server.Valid() && server.outbox == old(server.outbox)
    ensures server.subscriptions == AddSubscriber(old(server.subscriptions), channel, address)
  {
    var d := Subscribe(SubscribeDatagram(channel));
    RoundTrip(d);
    server.HandleDatagramString(Serialize(d), address);
  }

  /** A client sends Unsubscribe(channel) from `address`; the server handles it. */
  method DeliverUnsubscribe(server: Server, channel: string, address: Addr)
    requires server.Valid()
    modifies server
    ensures server.Valid() && server.outbox == old(server.outbox)
    ensures server.subscriptions == RemoveSubscriber(old(server.subscriptions), channel, address)
  {
    var d := Unsubscribe(UnsubscribeDatagram(channel));
    RoundTrip(d);
    server.HandleDatagramString(Serialize(d), address);
  }

  /** A client sends Publish(p) from `address`; the server fans out the very
      frame the client sent, which parses back to `p`. */
  method DeliverPublish(server: Server, p: PublishDatagram, address: Addr)
    requires server.Valid() && WellFormedPublish(p)
    modifies server
    ensures server.Valid() && server.subscriptions == old(server.subscriptions)
    ensures FansOut(old(server.outbox), server.outbox, Serialize(Publish(p)), SubscribersOf(server.subscriptions, p.channel))
  {
    var d := Publish(p);
    RoundTrip(d);
    ForwardsReceivedFrame(Serialize(d));
    server.HandleDatagramString(Serialize(d), address);
  }
}
