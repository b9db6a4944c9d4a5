/**
  Properties of the handshake as a whole: the dispatcher discipline of each
  operation, the order of the authentication steps, the status-to-state
  mapping, and the complete negotiate-then-authenticate run.
 */
module Handshake {
  import opened Wrappers
  import opened Packets
  import opened NtStatus
  import opened Trace
  import opened Dispatcher
  import opened Smb2Client

  /** negotiate does exactly one send, of the negotiate request, and one receive,
      invokes no authentication step, and keeps the dispatcher history ping-pong
      exactly when a response arrived. */
  lemma NegotiateExchangesOnce(c: Client, link: Link)
    requires c.state == Initial
    ensures var o := Negotiate(c, link);
      && Transport(o.link.log) == Transport(link.log) + [Sent(NegotiateRequest)] + Delivered(link.inbox)
      && Calls(o.link.log) == Calls(link.log)
      && (PingPong(Transport(link.log)) ==> (PingPong(Transport(o.link.log)) <==> link.inbox != []))
  {
    var o := Negotiate(c, link);
    var delta := [Sent(NegotiateRequest)] + Delivered(link.inbox);
    assert o.link.log == link.log + delta;
    SendShape(NegotiateRequest, Delivered(link.inbox));
    TransportAppend(link.log, delta);
    CallsAppend(link.log, delta);
    if PingPong(Transport(link.log)) {
      if link.inbox != [] {
        ExchangeShape(NegotiateRequest, link.inbox[0]);
        PingPongAppend(Transport(link.log), delta);
      } else if PingPong(Transport(o.link.log)) {
        PingPongEven(Transport(link.log));
        PingPongEven(Transport(o.link.log));
        assert false;
      }
    }
  }

  /** On a fresh client, negotiate with any NEGOTIATE response (a default
      one included) runs without fault and changes the sequence number from
      unset to 0, the capabilities from unset to the response's, and the state
      from initial to negotiated; the credentials are kept. */
  lemma NegotiateFromNew(username: string, password: string, r: NegotiateResponse,
                         rest: seq<Packet>, log: seq<Event>)
    ensures var c := New(username, password);
      var o := Negotiate(c, Link([NegotiateResponsePacket(r)] + rest, log));
      && o.result == Success(r)
      && c.sequenceNumber != o.client.sequenceNumber == Some(0)
      && c.capabilities != o.client.capabilities == Some(r.capabilities)
      && c.state != o.client.state == Negotiated
      && o.client.username == username && o.client.password == password
      && o.link.inbox == rest
  {
  }

  /** negotiate against a freshly constructed NEGOTIATE response, the only
      packet the dispatcher has to deliver, runs without fault and leaves
      the client negotiated with that response's (zero) capabilities. */
  lemma NegotiateDefaultResponse(username: string, password: string)
    ensures var o := Negotiate(New(username, password),
                               Link([NegotiateResponsePacket(DefaultNegotiateResponse)], []));
      && o.result == Success(DefaultNegotiateResponse)
      && o.client.state == Negotiated
      && o.client.capabilities == Some(0)
      && o.link.log == Exchange(NegotiateRequest, NegotiateResponsePacket(DefaultNegotiateResponse))
  {
  }

  /** ntlmssp_negotiate after negotiation: one SESSION_SETUP request carrying
      the provider's NEGOTIATE token is sent and one SESSION_SETUP response is
      received and returned, without fault; the client is untouched. */
  lemma NtlmsspNegotiateExchangesOnce(c: Client, link: Link, p: Provider)
    requires link.inbox != [] && link.inbox[0].SessionSetupResponsePacket?
    ensures var o := NtlmsspNegotiate(c, link, p);
      && o.result == Success(link.inbox[0].setupResponse)
      && o.client == c
      && Transport(o.link.log) == Transport(link.log) + Exchange(FirstSetupRequest(p), link.inbox[0])
      && Calls(o.link.log) == Calls(link.log) + [NegotiateStepCalled]
  {
    var o := NtlmsspNegotiate(c, link, p);
    var delta := [NegotiateStepCalled] + Exchange(FirstSetupRequest(p), link.inbox[0]);
    assert o.link.log == link.log + delta;
    TransportAppend(link.log, delta);
    CallsAppend(link.log, delta);
    StepThenExchange(NegotiateStepCalled, FirstSetupRequest(p), link.inbox[0]);
  }

  /** ntlmssp_negotiate on a negotiated client whose dispatcher delivers a
      freshly constructed SESSION_SETUP response runs without fault: one
      SESSION_SETUP request is sent and that response is received. */
  lemma NtlmsspNegotiateDefaultResponse(username: string, password: string, p: Provider)
    ensures var n := Negotiate(New(username, password),
                               Link([NegotiateResponsePacket(DefaultNegotiateResponse),
                                     SessionSetupResponsePacket(DefaultSessionSetupResponse)], []));
      var o := NtlmsspNegotiate(n.client, n.link, p);
      && n.client.state == Negotiated
      && o.result == Success(DefaultSessionSetupResponse)
      && o.link.inbox == []
      && Transport(o.link.log)
           == Exchange(NegotiateRequest, NegotiateResponsePacket(DefaultNegotiateResponse))
            + Exchange(FirstSetupRequest(p), SessionSetupResponsePacket(DefaultSessionSetupResponse))
  {
    var inbox := [NegotiateResponsePacket(DefaultNegotiateResponse),
                  SessionSetupResponsePacket(DefaultSessionSetupResponse)];
    NegotiateFromNew(username, password, DefaultNegotiateResponse, inbox[1..], []);
    assert [NegotiateResponsePacket(DefaultNegotiateResponse)] + inbox[1..] == inbox;
    var n := Negotiate(New(username, password), Link(inbox, []));
    NegotiateExchangesOnce(New(username, password), Link(inbox, []));
    assert Transport([]) == [];
    NtlmsspNegotiateExchangesOnce(n.client, n.link, p);
  }

  /** authenticate invokes ntlmssp_negotiate once and then ntlmssp_auth once,
      passing it exactly the challenge the first step returned; on the wire
      this is two ping-pong round trips. */
  lemma AuthenticateCallOrder(c: Client, link: Link, p: Provider)
    requires c.state == Negotiated
    requires AuthScript(link.inbox)
    ensures var o := Authenticate(c, link, p);
      var challenge := NtlmsspNegotiate(c, link, p).result;
      && challenge == Success(link.inbox[0].setupResponse)
      && Calls(o.link.log) == Calls(link.log) + [NegotiateStepCalled, AuthStepCalled(challenge.value)]
      && Transport(o.link.log) == Transport(link.log)
           + Exchange(FirstSetupRequest(p), link.inbox[0])
           + Exchange(SecondSetupRequest(p, challenge.value), link.inbox[1])
      && (PingPong(Transport(link.log)) ==> PingPong(Transport(o.link.log)))
  {
    var o := Authenticate(c, link, p);
    var ch := link.inbox[0].setupResponse;
    assert o.link.log == link.log
      + ([NegotiateStepCalled] + Exchange(FirstSetupRequest(p), link.inbox[0]))
      + ([AuthStepCalled(ch)] + Exchange(SecondSetupRequest(p, ch), link.inbox[1]));
    TwoSteps(link.log, NegotiateStepCalled, FirstSetupRequest(p), link.inbox[0],
             AuthStepCalled(ch), SecondSetupRequest(p, ch), link.inbox[1]);
  }

  /** With valid credentials (final status 0) authenticate returns
      STATUS_SUCCESS and moves the client from negotiated to authenticated. */
  lemma AuthenticateValidCredentials(c: Client, link: Link, p: Provider)
    requires c.state == Negotiated
    requires AuthScript(link.inbox)
    requires link.inbox[1].setupResponse.ntStatus == 0
    ensures var o := Authenticate(c, link, p);
      && o.result == Success(StatusSuccess)
      && c.state != o.client.state == Authenticated
  {
  }

  /** With invalid credentials (final status 0xC000006D) authenticate returns
      STATUS_LOGON_FAILURE as a result, not a fault, and moves the client from
      negotiated to authentication_failed. */
  lemma AuthenticateInvalidCredentials(c: Client, link: Link, p: Provider)
    requires c.state == Negotiated
    requires AuthScript(link.inbox)
    requires link.inbox[1].setupResponse.ntStatus == 0xC000006D
    ensures var o := Authenticate(c, link, p);
      && o.result == Success(StatusLogonFailure)
      && c.state != o.client.state == AuthenticationFailed
  {
  }

  /** Only the final response decides: two runs whose challenges differ only in
      their NT status end in the same client and the same result. */
  lemma ChallengeStatusIgnored(c: Client, link: Link, p: Provider, status: uint32)
    requires c.state == Negotiated
    requires AuthScript(link.inbox)
    ensures var ch := link.inbox[0].setupResponse;
      var other := link.(inbox := [SessionSetupResponsePacket(ch.(ntStatus := status))] + link.inbox[1..]);
      var o := Authenticate(c, link, p);
      var o' := Authenticate(c, other, p);
      o'.client == o.client && o'.result == o.result
  {
  }

  /** Neither operation moves the handshake back: success advances it by one
      step, a fault leaves it where it was. */
  lemma HandshakeAdvances(c: Client, link: Link, p: Provider)
    ensures c.state == Initial ==>
      var o := Negotiate(c, link);
      Rank(o.client.state) == Rank(c.state) + (if o.result.Success? then 1 else 0)
    ensures c.state == Negotiated ==>
      var o := Authenticate(c, link, p);
      Rank(o.client.state) == Rank(c.state) + (if o.result.Success? then 1 else 0)
  {
  }

  /** The complete handshake from a fresh client against a server that answers
      the negotiate request, the challenge request and the final request: the
      client ends negotiated-and-then-authenticated exactly when the final
      status is 0, keeps the server's capabilities, and
      the dispatcher saw three strict request/response round trips. */
  lemma FullHandshake(username: string, password: string, p: Provider,
                      r: NegotiateResponse, challenge: SessionSetupResponse,
                      final: SessionSetupResponse, rest: seq<Packet>)
    ensures
      var inbox := [NegotiateResponsePacket(r), SessionSetupResponsePacket(challenge),
                    SessionSetupResponsePacket(final)] + rest;
      var o1 := Negotiate(New(username, password), Link(inbox, []));
      var o2 := Authenticate(o1.client, o1.link, p);
      && o1.result == Success(r)
      && o2.result == Success(Translate(final.ntStatus))
      && (o2.client.state == Authenticated <==> final.ntStatus == STATUS_SUCCESS)
      && (o2.client.state == AuthenticationFailed <==> final.ntStatus != STATUS_SUCCESS)
      && o2.client.capabilities == Some(r.capabilities)
      && Consistent(o2.client)
      && o2.link.inbox == rest
      && Transport(o2.link.log)
           == Exchange(NegotiateRequest, NegotiateResponsePacket(r))
            + Exchange(FirstSetupRequest(p), SessionSetupResponsePacket(challenge))
            + Exchange(SecondSetupRequest(p, challenge), SessionSetupResponsePacket(final))
      && PingPong(Transport(o2.link.log))
      && Calls(o2.link.log) == [NegotiateStepCalled, AuthStepCalled(challenge)]
  {
    var inbox := [NegotiateResponsePacket(r), SessionSetupResponsePacket(challenge),
                  SessionSetupResponsePacket(final)] + rest;
    var c0 := New(username, password);
    var l0 := Link(inbox, []);
    NegotiateFromNew(username, password, r, inbox[1..], []);
    assert [NegotiateResponsePacket(r)] + inbox[1..] == inbox;
    NegotiateExchangesOnce(c0, l0);
    var o1 := Negotiate(c0, l0);
    assert o1.link.inbox == inbox[1..];
    assert Transport([]) == [] && Calls([]) == [];
    assert Transport(o1.link.log) == Exchange(NegotiateRequest, NegotiateResponsePacket(r));
    ExchangeShape(NegotiateRequest, NegotiateResponsePacket(r));
    AuthenticateCallOrder(o1.client, o1.link, p);
    assert o1.link.inbox[2..] == rest;
  }
}
