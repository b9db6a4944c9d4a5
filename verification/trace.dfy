/**
  The observable history of a client: what went through the dispatcher and
  which authentication steps were invoked, in order.
 */
module Trace {
  import opened Packets

  datatype Event =
    | Sent(packet: Packet)                          // dispatcher send_packet
    | Received(packet: Packet)                      // dispatcher recv_packet
    | NegotiateStepCalled                           // ntlmssp_negotiate invoked
    | AuthStepCalled(challenge: SessionSetupResponse) // ntlmssp_auth invoked with a challenge
  {
    predicate IsTransport() {
      Sent? || Received?
    }
  }

  /** One request/response round trip as the dispatcher sees it. */
  function Exchange(request: Packet, response: Packet): seq<Event> {
    [Sent(request), Received(response)]
  }

  /** The dispatcher's view of a history: its sends and receives, in order. */
  function Transport(log: seq<Event>): (t: seq<Event>)
    ensures |t| <= |log|
    ensures forall i :: 0 <= i < |t| ==> t[i].IsTransport()
  {
    if log == [] then []
    else if log[0].IsTransport() then [log[0]] + Transport(log[1..])
    else Transport(log[1..])
  }

  /** The authentication steps of a history, in order. */
  function Calls(log: seq<Event>): (c: seq<Event>)
    ensures |c| <= |log|
    ensures forall i :: 0 <= i < |c| ==> !c[i].IsTransport()
  {
    if log == [] then []
    else if log[0].IsTransport() then Calls(log[1..])
    else [log[0]] + Calls(log[1..])
  }

  /** Strict ping-pong: every send is answered by a receive before the next send. */
  predicate PingPong(t: seq<Event>)
    decreases |t|
  {
    t == [] || (2 <= |t| && t[0].Sent? && t[1].Received? && PingPong(t[2..]))
  }

  /** A round trip is all transport, invokes no step, and is one ping-pong. */
  lemma ExchangeShape(request: Packet, response: Packet)
    ensures var x := Exchange(request, response);
      Transport(x) == x && Calls(x) == [] && PingPong(x)
  {
  }

  /** A step invocation followed by a round trip. */
  lemma StepThenExchange(step: Event, request: Packet, response: Packet)
    requires !step.IsTransport()
    ensures var x := [step] + Exchange(request, response);
      Transport(x) == Exchange(request, response) && Calls(x) == [step]
  {
    var x := [step] + Exchange(request, response);
    assert x[1..] == Exchange(request, response);
    ExchangeShape(request, response);
  }

  /** A lone send, with or without its receive. */
  lemma SendShape(request: Packet, delivered: seq<Event>)
    requires delivered == [] || (|delivered| == 1 && delivered[0].Received?)
    ensures Transport([Sent(request)] + delivered) == [Sent(request)] + delivered
    ensures Calls([Sent(request)] + delivered) == []
  {
  }

  lemma {:induction false} TransportAppend(a: seq<Event>, b: seq<Event>)
    ensures Transport(a + b) == Transport(a) + Transport(b)
    decreases |a|
  {
    if a == [] {
      assert a + b == b;
    } else {
      assert (a + b)[1..] == a[1..] + b;
      TransportAppend(a[1..], b);
    }
  }

  lemma {:induction false} CallsAppend(a: seq<Event>, b: seq<Event>)
    ensures Calls(a + b) == Calls(a) + Calls(b)
    decreases |a|
  {
    if a == [] {
      assert a + b == b;
    } else {
      assert (a + b)[1..] == a[1..] + b;
      CallsAppend(a[1..], b);
    }
  }

  /** Two ping-pong histories run back to back are one ping-pong history. */
  lemma {:induction false} PingPongAppend(a: seq<Event>, b: seq<Event>)
    requires PingPong(a) && PingPong(b)
    ensures PingPong(a + b)
    decreases |a|
  {
    if a == [] {
      assert a + b == b;
    } else {
      assert (a + b)[2..] == a[2..] + b;
      PingPongAppend(a[2..], b);
    }
  }

  /** A history extended by two step invocations, each followed by its round
      trip: the dispatcher sees the two round trips, the steps appear in order. */
  lemma TwoSteps(log: seq<Event>, s1: Event, r1: Packet, a1: Packet, s2: Event, r2: Packet, a2: Packet)
    requires !s1.IsTransport() && !s2.IsTransport()
    ensures var full := log + ([s1] + Exchange(r1, a1)) + ([s2] + Exchange(r2, a2));
      && Transport(full) == Transport(log) + Exchange(r1, a1) + Exchange(r2, a2)
      && Calls(full) == Calls(log) + [s1, s2]
      && (PingPong(Transport(log)) ==> PingPong(Transport(full)))
  {
    var a := [s1] + Exchange(r1, a1);
    var b := [s2] + Exchange(r2, a2);
    StepThenExchange(s1, r1, a1);
    StepThenExchange(s2, r2, a2);
    TransportAppend(log + a, b);
    TransportAppend(log, a);
    CallsAppend(log + a, b);
    CallsAppend(log, a);
    if PingPong(Transport(log)) {
      ExchangeShape(r1, a1);
      ExchangeShape(r2, a2);
      PingPongAppend(Exchange(r1, a1), Exchange(r2, a2));
      assert Transport(log) + Exchange(r1, a1) + Exchange(r2, a2)
          == Transport(log) + (Exchange(r1, a1) + Exchange(r2, a2));
      PingPongAppend(Transport(log), Exchange(r1, a1) + Exchange(r2, a2));
    }
  }

  /** A ping-pong history has as many receives as sends; a dangling send breaks it. */
  lemma {:induction false} PingPongEven(t: seq<Event>)
    requires PingPong(t)
    ensures |t| % 2 == 0
    decreases |t|
  {
    if t != [] {
      PingPongEven(t[2..]);
    }
  }
}
