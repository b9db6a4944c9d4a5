/**
  The SMB2 client handshake: NEGOTIATE, then the two-step NTLMSSP
  SESSION_SETUP exchange. Each operation is a pure function from the client,
  its dispatcher link and (for authentication) the token provider to the
  client afterwards, the link afterwards and the operation's result.
 */
module Smb2Client {
  import opened Wrappers
  import opened Packets
  import opened NtStatus
  import opened Trace
  import opened Dispatcher

  datatype State = Initial | Negotiated | Authenticated | AuthenticationFailed

  /** One client per connection. The sequence number and the capabilities stay
      unset until negotiation completes. */
  datatype Client = Client(
    state: State,
    sequenceNumber: Option<uint64>,
    capabilities: Option<uint32>,
    username: string,
    password: string)

  /** The NTLMSSP token producer: the NEGOTIATE message, and the AUTHENTICATE
      message computed from the server's CHALLENGE token. Its cryptography is opaque. */
  datatype Provider = Provider(negotiateToken: Blob, authToken: Blob -> Blob)

  datatype Outcome<T> = Outcome(client: Client, link: Link, result: Result<T, Fault>)

  /** The fields that negotiation sets are set exactly when it has happened. */
  predicate Consistent(c: Client) {
    && (c.sequenceNumber.None? <==> c.state == Initial)
    && (c.capabilities.None? <==> c.state == Initial)
  }

  /** How far along the handshake a state is; no operation moves it back. */
  function Rank(s: State): nat {
    match s
    case Initial => 0
    case Negotiated => 1
    case Authenticated => 2
    case AuthenticationFailed => 2
  }

  /** The state a final session-setup status leads to. */
  function AuthState(s: Status): State {
    if s == StatusSuccess then Authenticated else AuthenticationFailed
  }

  function New(username: string, password: string): (c: Client)
    ensures c.state == Initial && Consistent(c)
    ensures c.username == username && c.password == password
  {
    Client(Initial, None, None, username, password)
  }

  /** The single request negotiation sends. */
  const NegotiateRequest: Packet := NegotiateRequestPacket

  /** negotiate: one round trip; on a NEGOTIATE response the sequence number is
      reset to 0, the server's capabilities are copied verbatim and the client
      is negotiated. Any fault leaves the client as it was. */
  function Negotiate(c: Client, link: Link): (o: Outcome<NegotiateResponse>)
    requires c.state == Initial
    ensures o.result.Success? <==> link.inbox != [] && link.inbox[0].NegotiateResponsePacket?
    ensures o.result.Success? ==>
      && link.inbox[0] == NegotiateResponsePacket(o.result.value)
      && o.client == c.(state := Negotiated, sequenceNumber := Some(0),
                        capabilities := Some(o.result.value.capabilities))
    ensures o.result.Failure? ==> o.client == c
    ensures o.result.Failure? && link.inbox != [] ==> o.result.error == UnexpectedResponse(link.inbox[0])
    ensures o.link == Link(Remaining(link.inbox), link.log + [Sent(NegotiateRequest)] + Delivered(link.inbox))
    ensures Consistent(c) ==> Consistent(o.client)
  {
    var reply := RoundTrip(link, NegotiateRequest);
    match reply.result
    case Failure(f) => Outcome(c, reply.link, Failure(f))
    case Success(p) =>
      if p.NegotiateResponsePacket? then
        var n := c.(state := Negotiated, sequenceNumber := Some(0),
                    capabilities := Some(p.negotiate.capabilities));
        Outcome(n, reply.link, Success(p.negotiate))
      else
        Outcome(c, reply.link, Failure(UnexpectedResponse(p)))
  }

  /** The first session-setup request: the provider's NEGOTIATE token. */
  function FirstSetupRequest(p: Provider): Packet {
    SessionSetupRequestPacket(SessionSetupRequest(p.negotiateToken))
  }

  /** The second session-setup request: the provider's answer to the challenge token. */
  function SecondSetupRequest(p: Provider, challenge: SessionSetupResponse): Packet {
    SessionSetupRequestPacket(SessionSetupRequest(p.authToken(challenge.securityBuffer)))
  }

  /** ntlmssp_negotiate: one SESSION_SETUP round trip carrying the NEGOTIATE
      token; the SESSION_SETUP response is the challenge, whatever its status. */
  function NtlmsspNegotiate(c: Client, link: Link, p: Provider): (o: Outcome<SessionSetupResponse>)
    ensures o.client == c
    ensures o.result.Success? <==> link.inbox != [] && link.inbox[0].SessionSetupResponsePacket?
    ensures o.result.Success? ==> link.inbox[0] == SessionSetupResponsePacket(o.result.value)
    ensures o.result.Failure? && link.inbox != [] ==> o.result.error == UnexpectedResponse(link.inbox[0])
    ensures o.link == Link(Remaining(link.inbox),
                           link.log + [NegotiateStepCalled, Sent(FirstSetupRequest(p))] + Delivered(link.inbox))
  {
    var reply := RoundTrip(Note(link, NegotiateStepCalled), FirstSetupRequest(p));
    match reply.result
    case Failure(f) => Outcome(c, reply.link, Failure(f))
    case Success(r) =>
      if r.SessionSetupResponsePacket? then Outcome(c, reply.link, Success(r.setupResponse))
      else Outcome(c, reply.link, Failure(UnexpectedResponse(r)))
  }

  /** ntlmssp_auth(challenge): one SESSION_SETUP round trip carrying the token
      computed from the challenge; its response is the final one. */
  function NtlmsspAuth(c: Client, link: Link, p: Provider, challenge: SessionSetupResponse)
    : (o: Outcome<SessionSetupResponse>)
    ensures o.client == c
    ensures o.result.Success? <==> link.inbox != [] && link.inbox[0].SessionSetupResponsePacket?
    ensures o.result.Success? ==> link.inbox[0] == SessionSetupResponsePacket(o.result.value)
    ensures o.result.Failure? && link.inbox != [] ==> o.result.error == UnexpectedResponse(link.inbox[0])
    ensures o.link == Link(Remaining(link.inbox),
                           link.log + [AuthStepCalled(challenge), Sent(SecondSetupRequest(p, challenge))]
                           + Delivered(link.inbox))
  {
    var reply := RoundTrip(Note(link, AuthStepCalled(challenge)), SecondSetupRequest(p, challenge));
    match reply.result
    case Failure(f) => Outcome(c, reply.link, Failure(f))
    case Success(r) =>
      if r.SessionSetupResponsePacket? then Outcome(c, reply.link, Success(r.setupResponse))
      else Outcome(c, reply.link, Failure(UnexpectedResponse(r)))
  }

  /** The responses a complete authentication consumes: a challenge, then the final response. */
  predicate AuthScript(inbox: seq<Packet>) {
    && 2 <= |inbox|
    && inbox[0].SessionSetupResponsePacket?
    && inbox[1].SessionSetupResponsePacket?
  }

  /** authenticate: ntlmssp_negotiate, then ntlmssp_auth on the challenge it
      returned; the final response's NT status is the result and decides
      between authenticated and authentication_failed. A logon failure is a
      returned result; only a missing or wrong-kind response is a fault, and a
      fault leaves the client as it was. */
  function Authenticate(c: Client, link: Link, p: Provider): (o: Outcome<Status>)
    requires c.state == Negotiated
    ensures o.result.Success? <==> AuthScript(link.inbox)
    ensures o.result.Success? ==>
      && o.result.value == Translate(link.inbox[1].setupResponse.ntStatus)
      && o.client == c.(state := AuthState(o.result.value))
    ensures o.result.Success? ==>
      var challenge := link.inbox[0].setupResponse;
      o.link == Link(link.inbox[2..],
                     link.log
                     + [NegotiateStepCalled] + Exchange(FirstSetupRequest(p), link.inbox[0])
                     + [AuthStepCalled(challenge)] + Exchange(SecondSetupRequest(p, challenge), link.inbox[1]))
    ensures o.result.Failure? ==> o.client == c
    ensures Consistent(c) ==> Consistent(o.client)
  {
    var first := NtlmsspNegotiate(c, link, p);
    match first.result
    case Failure(f) => Outcome(c, first.link, Failure(f))
    case Success(challenge) =>
      var second := NtlmsspAuth(c, first.link, p, challenge);
      match second.result
      case Failure(f) => Outcome(c, second.link, Failure(f))
      case Success(final) =>
        var status := Translate(final.ntStatus);
        Outcome(c.(state := AuthState(status)), second.link, Success(status))
  }
}
