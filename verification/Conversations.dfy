/** Flows against written headers: which frames src/stats.c counts as one conversation, said in the
    header fields that the frames carry. */
module Conversations {
  import opened Bytes
  import opened Headers
  import opened Dissection
  import opened DissectionTheorems
  import opened FrameRoundTrip
  import opened FlowTable
  import opened FlowTrace
  import opened Statistics

  // ----- Who talks to whom -----

  /** The headers carry a `proto` message from one endpoint to the other: addresses from the network
      header, ports from a TCP or UDP header, and port 0 otherwise. */
  predicate Carry(n: Network, t: Transport, proto: Proto, from: Endpoint, to: Endpoint) {
    && (match n
        case OverIPv4(h) => from.addr == h.source && to.addr == h.destination
        case OverIPv6(h) => from.addr == h.source && to.addr == h.destination
        case _ => false)
    && (match t
        case OverTcp(h) => proto == TCP && from.port == h.sourcePort && to.port == h.destinationPort
        case OverUdp(h) => proto == UDP && from.port == h.sourcePort && to.port == h.destinationPort
        case OverIcmp(_) => proto == ICMP && from.port == 0 && to.port == 0
        case OverIcmpv6(_) => proto == ICMPv6 && from.port == 0 && to.port == 0
        case NoTransport => false)
  }

  ghost predicate SegmentWritten(data: seq<byte>, e: Ethernet, n: Network, t: Transport, next: nat,
                                 proto: Proto, from: Endpoint, to: Endpoint) {
    FrameWritten(data, e, n, t, next) && Carry(n, t, proto, from, to)
  }

  /** An ARP packet speaks for its sender's address to its target's. */
  ghost predicate ArpFrameWritten(data: seq<byte>, e: Ethernet, a: Arp, proto: Proto, from: Endpoint, to: Endpoint) {
    && EthernetWritten(data, e) && LinkLength(e) <= |data| && e.ethertype == 0x0806
    && HeaderWritten(data[LinkLength(e)..], OverArp(a))
    && proto == ARP && from == Endpoint(a.senderIp, 0) && to == Endpoint(a.targetIp, 0)
  }

  /** The frame's written headers take a message from one endpoint to the other. */
  ghost predicate Travels(data: seq<byte>, proto: Proto, from: Endpoint, to: Endpoint) {
    || (exists e, n, t, next :: SegmentWritten(data, e, n, t, next, proto, from, to))
    || (exists e, a :: ArpFrameWritten(data, e, a, proto, from, to))
  }

  lemma ShownTravels(data: seq<byte>, original: nat, c: Conversation)
    requires ConversationOf(Dissect(data, original, EthernetLink)) == Some(c)
    ensures Travels(data, c.proto, c.from, c.to)
  {
    hide Dissect, FrameWritten, EthernetWritten, HeaderWritten;
    var p := Dissect(data, original, EthernetLink);
    if p.network.OverArp? {
      ShownHeadersExactly(data, original, if p.eth.Some? then p.eth.value else Ethernet([], [], 0, false, 0), p.network);
      assert ArpFrameWritten(data, p.eth.value, p.network.arp, c.proto, c.from, c.to);
    } else {
      var next := FrameSound(data, original);
      assert SegmentWritten(data, p.eth.value, p.network, p.transport, next, c.proto, c.from, c.to);
    }
  }

  lemma SegmentShown(data: seq<byte>, original: nat, e: Ethernet, n: Network, t: Transport, next: nat, c: Conversation)
    requires SegmentWritten(data, e, n, t, next, c.proto, c.from, c.to)
    ensures ConversationOf(Dissect(data, original, EthernetLink)) == Some(c)
  {
    hide Dissect, FrameWritten, DnsShown;
    FrameRoundTrip.FrameRoundTrip(data, original, e, n, t, next);
  }

  lemma ArpShown(data: seq<byte>, original: nat, e: Ethernet, a: Arp, c: Conversation)
    requires ArpFrameWritten(data, e, a, c.proto, c.from, c.to)
    ensures ConversationOf(Dissect(data, original, EthernetLink)) == Some(c)
  {
    hide Dissect, EthernetWritten, HeaderWritten;
    ShownHeadersExactly(data, original, e, OverArp(a));
  }

  /** The program takes a frame to belong to a conversation exactly when its headers say so. */
  lemma ConversationExactly(data: seq<byte>, original: nat, c: Conversation)
    ensures ConversationOf(Dissect(data, original, EthernetLink)) == Some(c) <==> Travels(data, c.proto, c.from, c.to)
  {
    hide Dissect, ConversationOf, SegmentWritten, ArpFrameWritten;
    if ConversationOf(Dissect(data, original, EthernetLink)) == Some(c) {
      ShownTravels(data, original, c);
    }
    if e, n, t, next :| SegmentWritten(data, e, n, t, next, c.proto, c.from, c.to) {
      SegmentShown(data, original, e, n, t, next, c);
    }
    if e, a :| ArpFrameWritten(data, e, a, c.proto, c.from, c.to) {
      ArpShown(data, original, e, a, c);
    }
  }

  // ----- Flow identity -----

  /** The flow that a frame is recorded in, if it is recorded. */
  function FlowOf(data: seq<byte>, original: nat): Option<Key> {
    DissectionIsWellLayered(data, original, EthernetLink);
    match EventOf(Dissect(data, original, EthernetLink))
    case None => None
    case Some(e) => Some(e.key)
  }

  lemma FlowOfTraveller(data: seq<byte>, original: nat, c: Conversation)
    requires Travels(data, c.proto, c.from, c.to)
    ensures IsAddress(c.from.addr) && IsAddress(c.to.addr) && FlowOf(data, original) == Some(KeyOf(c))
  {
    hide Dissect, Travels, KeyOf;
    ConversationExactly(data, original, c);
    DissectionIsWellLayered(data, original, EthernetLink);
    ConversationIsAddressed(Dissect(data, original, EthernetLink));
  }

  /** A frame is recorded in a flow exactly when its headers take a message somewhere. */
  lemma RecordedExactly(data: seq<byte>, original: nat)
    ensures FlowOf(data, original).Some? <==> exists proto, from, to :: Travels(data, proto, from, to)
  {
    hide Dissect, Travels, KeyOf, ConversationOf;
    DissectionIsWellLayered(data, original, EthernetLink);
    var d := ConversationOf(Dissect(data, original, EthernetLink));
    if d.Some? {
      ConversationExactly(data, original, d.value);
      assert Travels(data, d.value.proto, d.value.from, d.value.to);
    }
    if proto, from, to :| Travels(data, proto, from, to) {
      ConversationExactly(data, original, Conversation(proto, from, to));
    }
  }

  /** End-to-end flow identity: two frames fall into one flow exactly when they have the same protocol
      and the same two endpoints (address bytes and port), whichever way they travel. */
  lemma FlowIdentity(x: seq<byte>, ox: nat, p: Proto, a: Endpoint, b: Endpoint,
                     y: seq<byte>, oy: nat, q: Proto, c: Endpoint, d: Endpoint)
    requires Travels(x, p, a, b) && Travels(y, q, c, d)
    ensures FlowOf(x, ox).Some? && FlowOf(y, oy).Some?
    ensures FlowOf(x, ox) == FlowOf(y, oy) <==> p == q && ((a == c && b == d) || (a == d && b == c))
  {
    hide FlowOf, Travels, KeyOf;
    FlowOfTraveller(x, ox, Conversation(p, a, b));
    FlowOfTraveller(y, oy, Conversation(q, c, d));
    KeysIdentifyConversations(Conversation(p, a, b), Conversation(q, c, d));
  }

  // ----- What a flow counts -----

  /** The frame travels between the two endpoints, in either direction. */
  ghost predicate Between(f: Frame, proto: Proto, a: Endpoint, b: Endpoint) {
    Travels(f.data, proto, a, b) || Travels(f.data, proto, b, a)
  }

  ghost function FramesBetween(frames: seq<Frame>, proto: Proto, a: Endpoint, b: Endpoint): seq<Frame> {
    if frames == [] then []
    else
      var front, last := FramesBetween(frames[..|frames| - 1], proto, a, b), frames[|frames| - 1];
      if Between(last, proto, a, b) then front + [last] else front
  }

  lemma TakesExactly(f: Frame, proto: Proto, a: Endpoint, b: Endpoint)
    ensures Takes(f, EthernetLink, Conversation(proto, a, b)) <==> Between(f, proto, a, b)
  {
    hide Dissect, Travels, ConversationOf;
    ConversationExactly(f.data, f.original, Conversation(proto, a, b));
    ConversationExactly(f.data, f.original, Conversation(proto, b, a));
  }

  lemma {:induction false} FramesExactly(frames: seq<Frame>, proto: Proto, a: Endpoint, b: Endpoint)
    ensures FramesOf(frames, EthernetLink, Conversation(proto, a, b)) == FramesBetween(frames, proto, a, b)
  {
    hide Takes, Between;
    if frames != [] {
      FramesExactly(frames[..|frames| - 1], proto, a, b);
      TakesExactly(frames[|frames| - 1], proto, a, b);
    }
  }

  /** After any run, the entry of any frame's flow, if the flow is tracked, holds the number and the
      captured bytes of exactly the frames that travel between the same two endpoints. */
  lemma FlowCountsConversation(frames: seq<Frame>, f: Frame, proto: Proto, a: Endpoint, b: Endpoint)
    requires Travels(f.data, proto, a, b)
    ensures FlowOf(f.data, f.original).Some?
    ensures var key, table := FlowOf(f.data, f.original).value, Replay(EventsOf(frames, EthernetLink), 1024);
      var mine := FramesBetween(frames, proto, a, b);
      key in table ==> table[key] == Totals(|mine|, CapturedBytes(mine))
  {
    hide FlowOf, Travels, KeyOf, FramesBetween, FramesOf, Replay, EventsOf, PacketsOf, BytesOf, Tracked, CapturedBytes;
    var c := Conversation(proto, a, b);
    FlowOfTraveller(f.data, f.original, c);
    CountsConversation(frames, EthernetLink, c);
    FramesExactly(frames, proto, a, b);
    ReplayIsExact(EventsOf(frames, EthernetLink), 1024);
  }

  /** And it is tracked, if the run has at most 1024 flows and the frame is part of it. */
  lemma FlowIsTracked(frames: seq<Frame>, i: nat)
    requires i < |frames| && |KeysOf(EventsOf(frames, EthernetLink))| <= 1024
    requires FlowOf(frames[i].data, frames[i].original).Some?
    ensures FlowOf(frames[i].data, frames[i].original).value in Replay(EventsOf(frames, EthernetLink), 1024)
  {
    hide Replay, FlowOf;
    var key := FlowOf(frames[i].data, frames[i].original).value;
    KeyIsCollected(frames, i);
    ReplayTotals(EventsOf(frames, EthernetLink), 1024);
  }

  lemma {:induction false} CollectHas<A, B>(f: A -> seq<B>, xs: seq<A>, i: nat, y: B)
    requires i < |xs| && y in f(xs[i])
    ensures y in Collect(f, xs)
    decreases |xs|
  {
    if i < |xs| - 1 {
      CollectHas(f, xs[..|xs| - 1], i, y);
    }
  }

  lemma EventOfFlow(f: Frame) returns (e: Event)
    requires FlowOf(f.data, f.original).Some?
    ensures e.key == FlowOf(f.data, f.original).value && FrameEvents(EthernetLink)(f) == [e]
  {
    hide Dissect, EventOf;
    DissectionIsWellLayered(f.data, f.original, EthernetLink);
    e := EventOf(Dissect(f.data, f.original, EthernetLink)).value;
  }

  lemma KeyIsCollected(frames: seq<Frame>, i: nat)
    requires i < |frames| && FlowOf(frames[i].data, frames[i].original).Some?
    ensures FlowOf(frames[i].data, frames[i].original).value in KeysOf(EventsOf(frames, EthernetLink))
  {
    hide FlowOf, Collect, FrameEvents;
    var e := EventOfFlow(frames[i]);
    CollectHas(FrameEvents(EthernetLink), frames, i, e);
  }
}
