/**
  The SMB2 packets the handshake exchanges, reduced to the fields the client
  reads or writes. Bodies follow the Negotiate and Session Setup messages of
  Microsoft's [MS-SMB2] (sections 2.2.3 to 2.2.6); header fields and the binary
  layout are not modelled.
 */
module Packets {

  type uint16 = x: int | 0 <= x < 0x1_0000
  type uint32 = x: int | 0 <= x < 0x1_0000_0000
  type uint64 = x: int | 0 <= x < 0x1_0000_0000_0000_0000
  type byte = x: int | 0 <= x < 0x100

  /** An opaque security token (an NTLMSSP message) carried in a security buffer. */
  type Blob = seq<byte>

  /** NEGOTIATE response body; the client keeps only the server's capability bitmask. */
  datatype NegotiateResponse = NegotiateResponse(capabilities: uint32)

  /** SESSION_SETUP request body: the security token to hand to the server. */
  datatype SessionSetupRequest = SessionSetupRequest(securityBuffer: Blob)

  /** SESSION_SETUP response: the header's NT status and the server's security token. */
  datatype SessionSetupResponse = SessionSetupResponse(ntStatus: uint32, securityBuffer: Blob)

  /** A packet as the dispatcher sends or delivers it. Commands outside the
      handshake are kept as an opaque packet holding only the command code. */
  datatype Packet =
    | NegotiateRequestPacket
    | NegotiateResponsePacket(negotiate: NegotiateResponse)
    | SessionSetupRequestPacket(setupRequest: SessionSetupRequest)
    | SessionSetupResponsePacket(setupResponse: SessionSetupResponse)
    | OtherPacket(command: uint16)

  /** A freshly constructed response: every numeric field is zero and every buffer empty. */
  const DefaultNegotiateResponse: NegotiateResponse := NegotiateResponse(0)
  const DefaultSessionSetupResponse: SessionSetupResponse := SessionSetupResponse(0, [])
}
