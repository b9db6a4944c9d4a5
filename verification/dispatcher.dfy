/**
  The socket dispatcher the client borrows, as a scripted peer: it delivers
  canned responses in order and records every packet the client sends and
  receives. Running out of responses stands for a transport fault.
 */
module Dispatcher {
  import opened Wrappers
  import opened Packets
  import opened Trace

  datatype Fault =
    | TransportError                    // no response arrived
    | UnexpectedResponse(packet: Packet) // a response of the wrong command arrived

  datatype Link = Link(inbox: seq<Packet>, log: seq<Event>)

  datatype Reply = Reply(link: Link, result: Result<Packet, Fault>)

  /** Record an event that does not touch the wire. */
  function Note(link: Link, e: Event): Link {
    link.(log := link.log + [e])
  }

  /** What recv_packet records on a link with these pending responses. */
  function Delivered(inbox: seq<Packet>): seq<Event> {
    if inbox == [] then [] else [Received(inbox[0])]
  }

  /** The responses still pending after one recv_packet. */
  function Remaining(inbox: seq<Packet>): seq<Packet> {
    if inbox == [] then [] else inbox[1..]
  }

  /** send_packet followed by a blocking recv_packet: exactly one send, then
      one receive when a response is pending and a transport fault otherwise. */
  function RoundTrip(link: Link, request: Packet): (r: Reply)
    ensures r.result.Success? <==> link.inbox != []
    ensures r.result.Success? ==> r.result.value == link.inbox[0]
    ensures r.result.Failure? ==> r.result.error == TransportError
    ensures r.link == Link(Remaining(link.inbox), link.log + [Sent(request)] + Delivered(link.inbox))
  {
    var sent := Note(link, Sent(request));
    if sent.inbox == [] then Reply(sent, Failure(TransportError))
    else Reply(Link(sent.inbox[1..], sent.log + [Received(sent.inbox[0])]), Success(sent.inbox[0]))
  }
}
