# SMB2 client handshake (RubySMB::SMB2::Client)

A functional model of the SMB2 client handshake of `RubySMB::SMB2::Client`,
as its RSpec suite pins it down. The client is an immutable record with four
states (`Initial`, `Negotiated`, `Authenticated`, `AuthenticationFailed`), a
sequence number and a capability bitmask that stay unset until negotiation,
and the credentials it was built with. Every operation is a pure function from
the client, its dispatcher link and (for authentication) the NTLMSSP token
provider to an `Outcome`: the client afterwards, the link afterwards, and
either the operation's result or a fault.

- `negotiate` sends one NEGOTIATE request and receives one response. It then
  resets the sequence number to 0, copies the server's capabilities verbatim
  and moves to `Negotiated`.
- `ntlmssp_negotiate` sends the provider's NTLMSSP NEGOTIATE token in a
  SESSION_SETUP request. The SESSION_SETUP response it receives is the challenge.
- `ntlmssp_auth(challenge)` sends the token the provider computes from the
  challenge. The SESSION_SETUP response it receives is the final response.
- `authenticate` runs the two steps in that order. It translates the final
  response's NT status. Status 0 gives `StatusSuccess` and state
  `Authenticated`. Status 0xC000006D gives `StatusLogonFailure` and state
  `AuthenticationFailed`. A logon failure is a returned result, not a fault.

These are the Negotiate and Session Setup exchanges of Microsoft's [MS-SMB2]
(sections 2.2.3 to 2.2.6). The two status codes are those of section 2.3.1 of
[MS-ERREF].

The socket dispatcher is a scripted peer (`Dispatcher.Link`). It holds a queue
of canned responses and a history of events. The history records every send,
every receive and every invocation of an authentication step. The test suite
uses a mock dispatcher in the same role. An empty queue stands for a transport
fault. A response of the wrong command is an `UnexpectedResponse` fault. After
either fault the client is exactly as it was before the call.

The token provider is the `Provider` parameter. Its NEGOTIATE token and its
challenge-to-AUTHENTICATE function are opaque.

Modules: `Wrappers` (Option, Result), `Packets` (the packet bodies and bounded
integers), `NtStatus` (status translation), `Trace` (events, the dispatcher's
view of a history, the ping-pong discipline), `Dispatcher` (the scripted
link), `Smb2Client` (the state machine), `Handshake` (properties across
operations).

The behaviour modelled is the one spec/lib/ruby_smb/smb2/client_spec.rb asserts.

## Model

| member | source | states |
|---|---|---|
| Smb2Client.New | spec/lib/ruby_smb/smb2/client_spec.rb:4-9 | A new client keeps its username and password, starts in `Initial`, and has neither a sequence number nor capabilities |
| Smb2Client.Negotiate | spec/lib/ruby_smb/smb2/client_spec.rb:16-38 | Succeeds exactly when the first pending response is a NEGOTIATE response. The client is then negotiated, has sequence number 0 and has that response's capabilities, and nothing else changes. Otherwise the client is unchanged. The dispatcher saw one negotiate request and at most one receive |
| Handshake.NegotiateExchangesOnce | spec/lib/ruby_smb/smb2/client_spec.rb:16-18 | negotiate adds exactly one send, of the negotiate request, to the dispatcher's view, then one receive if a response was pending. It invokes no authentication step. It keeps the send/receive history strictly ping-pong exactly when a response arrived |
| Handshake.NegotiateFromNew | spec/lib/ruby_smb/smb2/client_spec.rb:21-38 | On a fresh client and any NEGOTIATE response, the default one included, negotiate runs without fault. The sequence number changes from unset to 0, the capabilities from unset to the response's, and the state from initial to negotiated |
| Handshake.NegotiateDefaultResponse | spec/lib/ruby_smb/smb2/client_spec.rb:21-26 | On a fresh client, negotiate with a freshly constructed NEGOTIATE response as the only pending packet returns that response without fault. The client is negotiated with zero capabilities, and the history is the single negotiate round trip |
| Smb2Client.NtlmsspNegotiate | spec/lib/ruby_smb/smb2/client_spec.rb:81-91 | Records the step, sends one SESSION_SETUP request with the provider's NEGOTIATE token, and returns the SESSION_SETUP response as the challenge. A missing or wrong-kind response is a fault. The client is never changed |
| Handshake.NtlmsspNegotiateExchangesOnce | spec/lib/ruby_smb/smb2/client_spec.rb:84-89 | When a SESSION_SETUP response is pending, ntlmssp_negotiate returns it without fault. The dispatcher saw exactly one SESSION_SETUP request and that one response. The step history gained exactly that step |
| Handshake.NtlmsspNegotiateDefaultResponse | spec/lib/ruby_smb/smb2/client_spec.rb:82-90 | After negotiation, ntlmssp_negotiate with a freshly constructed SESSION_SETUP response pending returns it without fault. The dispatcher saw the negotiate round trip and then exactly one SESSION_SETUP round trip |
| Smb2Client.NtlmsspAuth | spec/lib/ruby_smb/smb2/client_spec.rb:46 | Records the step with its challenge, then sends the token the provider computes from that challenge's security buffer. Returns the SESSION_SETUP response that comes back. The client is never changed |
| Smb2Client.Authenticate | spec/lib/ruby_smb/smb2/client_spec.rb:42-78 | From `Negotiated`: succeeds exactly when two SESSION_SETUP responses are pending. The result is the translated status of the second (final) response. The state is `Authenticated` exactly when that status is success, and `AuthenticationFailed` otherwise. The history is step, round trip, step on the challenge, round trip. A fault leaves the client unchanged |
| Handshake.AuthenticateCallOrder | spec/lib/ruby_smb/smb2/client_spec.rb:43-46 | authenticate invokes ntlmssp_negotiate once and then ntlmssp_auth once. The argument to ntlmssp_auth is exactly the challenge that ntlmssp_negotiate returns. On the wire these are two ping-pong round trips, in that order |
| Handshake.AuthenticateValidCredentials | spec/lib/ruby_smb/smb2/client_spec.rb:52-63 | A final status of 0 returns STATUS_SUCCESS and changes the state from negotiated to authenticated |
| Handshake.AuthenticateInvalidCredentials | spec/lib/ruby_smb/smb2/client_spec.rb:66-77 | A final status of 0xC000006D returns STATUS_LOGON_FAILURE as a result, not a fault, and changes the state from negotiated to authentication_failed |
| Handshake.ChallengeStatusIgnored | spec/lib/ruby_smb/smb2/client_spec.rb:49-55 | Only the final response decides. Changing the challenge's NT status changes neither the resulting client nor the result |
| Handshake.HandshakeAdvances | spec/lib/ruby_smb/smb2/client_spec.rb:36-77 | negotiate and authenticate never move the handshake back. Success advances it by exactly one stage and a fault leaves it where it was |
| Handshake.FullHandshake | spec/lib/ruby_smb/smb2/client_spec.rb:15-79 | A fresh client does negotiate then authenticate against negotiate, challenge and final responses. It ends authenticated exactly when the final status is 0 and authentication_failed otherwise. It keeps the server's capabilities. The dispatcher saw exactly three strict round trips. The steps were ntlmssp_negotiate and then ntlmssp_auth on that challenge |
| NtStatus.Translate | spec/lib/ruby_smb/smb2/client_spec.rb:52-77 | Every 32-bit status maps to exactly one outcome. It is STATUS_SUCCESS exactly for 0 and STATUS_LOGON_FAILURE exactly for 0xC000006D. Any other value is kept as its raw value, and the outcome's wire code is always the input |
| NtStatus.TranslateCode | spec/lib/ruby_smb/smb2/client_spec.rb:57-72 | Translating the wire code of any well-formed outcome gives that outcome back. Together with `Translate`'s contract this is a round trip in both directions |
| NtStatus.TranslateInjective | spec/lib/ruby_smb/smb2/client_spec.rb:57-72 | Two different wire statuses never give the same outcome |
| Dispatcher.RoundTrip | spec/lib/ruby_smb/smb2/client_spec.rb:17-18 | One send of the request, then one receive of the next pending response. With no response pending it is a transport fault, after the send |

## Left out

- Packet binary layout, the SMB2 header, message ids and encoding/decoding: the model works on packet values. The NEGOTIATE request carries no fields here. The NEGOTIATE response keeps only its capabilities. A SESSION_SETUP response keeps only its NT status and security buffer.
- Dialect, session id and session key: the tests never read them, so the client does not carry them.
- NTLMSSP cryptography ([MS-NLMP]): the provider is an opaque token producer. It does not see the credentials, and provider failures are not modelled.
- The full NT status table: only the two codes the client names are symbolic. Every other value is kept as its raw 32-bit code.
- Smb2Client.Authenticate: client_spec.rb pins the state only for status 0 (lines 52-63) and 0xC000006D (lines 66-77). For any other final status the model returns `Unmapped(code)` and moves to `AuthenticationFailed`; this is the model's choice.
- Re-negotiation, and retry from `AuthenticationFailed`: the tests never exercise them. Negotiate requires `Initial` and Authenticate requires `Negotiated`.
- Transport faults: the tests never raise one. The model still treats an empty response queue and a wrong-kind response as faults that leave the client unchanged. How the real dispatcher reports a fault (exception type, timeout) is not modelled.
- The sequence number is set to 0 by negotiation and never advanced afterwards, because no test asserts a later value.
