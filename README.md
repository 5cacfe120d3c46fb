# Wowza WebRTC publish connector — Dafny model

This project models the signaling core of `WowzaConnector`, a Unity component
that publishes a camera stream to a Wowza Streaming Engine over WebRTC. The
connector talks to the server through a WebSocket carrying JSON signaling
messages. The model has two parts:

- **Signaling codec** (`signaling.dfy`, module `Signaling`). It holds the wire
  records (`WowzaSignalingMessage`, `WowzaStreamInfo`, `WowzaSdp`,
  `WowzaIceCandidate`) and the engine descriptors (`SessionDescription`,
  `IceCandidate`, the four-valued `SdpType` of Unity.WebRTC). It also holds the
  three translations: `ToDesc`, `ToCands` and `CreateSignalingMessage`. C#
  strings are nullable, so every string field is an `Option<string>`. The
  default of the envelope is the constant `DefaultSignalingMessage` (status 0,
  every reference null), from which `CreateSignalingMessage` starts.
- **Negotiation controller** (`negotiation.dfy`, module `Negotiation`). The
  class `WowzaConnector` has one method per handler:
  - `OnOpen`/`StartStreaming` create the peer connection, arm the
    `OnIceCandidate` slot and run `CreateDesc(Offer)`.
  - `CreateDesc` runs `SetDesc(Local, …)` only when the offer was created.
  - `OnIceCandidate` is the armed handler. The first local candidate clears the
    slot and sends one publish offer built from the current local description.
  - `OnMessage` decodes an inbound message and runs `SetDesc(Remote, …)`. That
    call adds the message's candidates in index order, and only after the
    remote description was accepted.
  - `OnClose`/`OnError` only log.

  The peer connection is an oracle. Each asynchronous engine operation
  (create offer, set local/remote description) completes with an
  `AsyncResult`, `Done(value)` or `Error(message)`, passed to the handler that
  awaits it. The socket send appends to `sent`. `pc.AddIceCandidate` appends to
  `added`. The source posts the four socket handlers (lines 151, 160, 172,
  180) to one `SynchronizationContext`, so they run one at a time. The engine's
  `OnIceCandidate` callback and the coroutine resumptions are assumed to run on
  that same main-thread context (see "## Left out"), which makes the model
  sequential.

`Valid()` is the object invariant. It states that:
- candidates reach the engine only once a remote description is in place;
- the current peer connection sends at most one message, and none while its handler is armed;
- every message sent is a publish `sendOffer` envelope for the configured stream.

`PublishScenario` walks the whole publish flow through these contracts.

Facts about the code that the model keeps:
- There is no buffering of early candidates, i.e. ones that arrive before a remote description.
  Candidates are added right after their own message's description is set.
- There are no `Closed` or `Failed` states. Closing the socket or a socket
  error only logs, so a candidate that arrives after a close still hands the
  offer to the socket.
- A message without `sdp` yields no error value. `ToDesc` dereferences `sdp`
  unconditionally, so the handler fails with a null reference and nothing
  else happens. `ToDesc` returns `None` for that case.
- A failed engine operation only logs. No state records the failure.

## Model

| member | source | states |
|---|---|---|
| Signaling.SdpTypeOfToken | Assets/WowzaConnector.cs:65 | the type is Offer exactly when the token is the non-null string "offer", and Answer for every other token, null included |
| Signaling.SdpTypeToken | Assets/WowzaConnector.cs:232 | the token is "offer" exactly for Offer and "answer" for every other type; decoding the token gives the type back exactly for Offer and Answer |
| Signaling.ToDesc | Assets/WowzaConnector.cs:61-68 | fails exactly when `sdp` is null; otherwise the type is Offer iff `sdp.type == "offer"`, Answer for every other string, and the SDP text is copied unchanged |
| Signaling.ConvertCandidates | Assets/WowzaConnector.cs:73-81 | same length as the wire array; entry i carries entry i's `candidate`, `sdpMid` and `sdpMLineIndex` |
| Signaling.ToCands | Assets/WowzaConnector.cs:70-82 | null when `iceCandidates` is null; otherwise the same length and order, with the three fields copied element-wise |
| Signaling.CreateSignalingMessage | Assets/WowzaConnector.cs:218-236 | direction "publish", command "sendOffer", stream info from the configured names with session id "[empty]", status 0, null status text and candidates; the wire type token is "offer" for Offer and "answer" for every other type; decoding it with ToDesc gives back the description's SDP text, and its type when it is Offer or Answer (any other type comes back as Answer) |
| Negotiation.WowzaConnector.constructor | Assets/WowzaConnector.cs:104-119 | before the socket opens there is no peer connection, no description, nothing added and nothing sent |
| Negotiation.WowzaConnector.SetDesc | Assets/WowzaConnector.cs:199-216 | on an engine error nothing changes; on success the local or remote description is the given one and `added` grows by exactly the candidates, in index order; nothing is sent |
| Negotiation.WowzaConnector.CreateDesc | Assets/WowzaConnector.cs:186-197 | the local description is set only when creation and setting both succeed; on a creation error neither description changes; no candidate is ever added and nothing is sent |
| Negotiation.WowzaConnector.StartStreaming | Assets/WowzaConnector.cs:121-147 | a fresh peer connection with the handler armed, no remote description and no candidates; the local description is the created offer when both engine steps succeed |
| Negotiation.WowzaConnector.OnOpen | Assets/WowzaConnector.cs:149-156 | opening the socket (once, before any peer connection: the socket connects once at line 118) starts streaming, with StartStreaming's outcome |
| Negotiation.WowzaConnector.OnIceCandidate | Assets/WowzaConnector.cs:127-132 | the handler is disarmed afterwards; exactly one publish offer for the current local description is sent when it was armed, and none otherwise; descriptions and candidates are unchanged |
| Negotiation.WowzaConnector.OnMessage | Assets/WowzaConnector.cs:158-168 | a message without `sdp` changes nothing; otherwise the remote description becomes the decoded one and `added` grows by the decoded candidates in order, both only when the engine accepts it; nothing is sent and the local side is unchanged |
| Negotiation.WowzaConnector.OnClose | Assets/WowzaConnector.cs:170-176 | changes no state: no teardown |
| Negotiation.WowzaConnector.OnError | Assets/WowzaConnector.cs:178-184 | changes no state: no teardown |

## Left out

- JSON text. `JsonUtility.FromJson`/`ToJson` (lines 162, 240) are a foreign serializer. Messages are modelled as datatype values. The field default of `sdpMLineIndex` (0, line 47) only matters when the serializer fills a record from JSON that omits the field, so it is not modelled.
- Elements of `iceCandidates` that are null. The serializer does not produce them, so the model has no null entries.
- The engine's validation of candidate text. The `RTCIceCandidate` constructor runs inside the engine and is not part of this model; a candidate is its three copied fields.
- WebRTC engine internals: `RTCPeerConnection` creation, `CreateOffer`/`CreateAnswer`, `AddTrack`, `VideoStreamTrack`, `WebRTC.Initialize`/`Update` and the STUN configuration (lines 22-25, 106-107, 125, 144-145, 188, 201). They are an oracle whose completions are method parameters.
- Coroutine interleaving. Each coroutine is collapsed into the handler that starts it. Other events that the serialized context runs between a coroutine's `yield` and its resumption are not modelled.
- The socket itself: connect, event wiring and the send after a close (lines 113-118, 243). A send is an append to `sent`.
- Rendering: the camera, the `RenderTexture` and `Update` (lines 110-111, 247-253).
- Logging: the `Debug.Log` calls and the state-change callbacks (lines 134-142).
- The `SslProtocols` enum (lines 91-101), which nothing uses.
- The 32-bit width of `status` and `sdpMLineIndex`. They are only copied, never computed with.
- Negotiation.WowzaConnector.OnIceCandidate: what the engine's `LocalDescription` getter does when no local description exists is outside this source. The model disarms the handler (line 129) and sends nothing in that case.
- Negotiation.WowzaConnector.SetDesc: it requires that a local call pass no candidates, as the only local call site does (line 196, default null at line 199).
- Negotiation.WowzaConnector.OnIceCandidate: the engine getter `pc.LocalDescription` (line 130) is modelled as the description last set by `SetDesc(Local, …)`. Candidate lines that the engine adds to its local description while gathering are not modelled, so the sent offer may list more candidates in the real engine than the model shows.
- Negotiation.WowzaConnector.StartStreaming: a second call is not modelled faithfully. In the source the handler at lines 127-132 reads the field `pc`, so the old connection's handler stays armed, clears the new connection's slot (line 129) and sends the new connection's local description. The model drops the old connection and its handler. `OnOpen`, the only caller, runs once, because the socket connects once (line 118) and never reconnects.
- Threading of the engine's callbacks. The engine's `OnIceCandidate` callback (lines 127-132) and the coroutine resumptions after `yield return op` (lines 189, 202) are assumed to run on the same main-thread context as the posted socket handlers. The source does not post them itself, and the at-most-one-send result depends on this.
