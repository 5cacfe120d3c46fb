/**
 * The Wowza signaling codec of WowzaConnector: the wire records that the
 * connector exchanges with the Wowza server as JSON, the WebRTC descriptor
 * types of the engine, and the translations between the two
 * (WowzaSignalingMessage.ToDesc, WowzaSignalingMessage.ToCands and
 * WowzaConnector.CreateSignalingMessage). All of it is pure.
 */
module Signaling {
  import opened Wrappers

  /** A C# `string` reference: None stands for null. */
  type NullableString = Option<string>

  // ---------------------------------------------------------------------
  // Engine-side descriptors (Unity.WebRTC)
  // ---------------------------------------------------------------------

  /** RTCSdpType, the engine's session description types. */
  datatype SdpType = Offer | Pranswer | Answer | Rollback

  /** RTCSessionDescription: a type and the SDP text. */
  datatype SessionDescription = SessionDescription(sdpType: SdpType, sdp: NullableString)

  /** RTCIceCandidate, as built from an RTCIceCandidateInit. */
  datatype IceCandidate = IceCandidate(candidate: NullableString, sdpMid: NullableString, sdpMLineIndex: int)

  // ---------------------------------------------------------------------
  // Wire records (the [Serializable] classes of WowzaConnector)
  // ---------------------------------------------------------------------

  datatype WowzaStreamInfo = WowzaStreamInfo(
    applicationName: NullableString,
    streamName: NullableString,
    sessionId: NullableString)

  /** The `sdp` record: `type` is the wire token, `sdp` the text. */
  datatype WowzaSdp = WowzaSdp(sdpType: NullableString, sdp: NullableString)

  datatype WowzaIceCandidate = WowzaIceCandidate(
    candidate: NullableString,
    sdpMid: NullableString,
    sdpMLineIndex: int)

  /** The signaling envelope; every reference field may be null. */
  datatype WowzaSignalingMessage = WowzaSignalingMessage(
    status: int,
    statusDescription: NullableString,
    direction: NullableString,
    command: NullableString,
    streamInfo: Option<WowzaStreamInfo>,
    sdp: Option<WowzaSdp>,
    iceCandidates: Option<seq<WowzaIceCandidate>>)

  /** A signaling message as freshly constructed: status 0, everything else null. */
  const DefaultSignalingMessage := WowzaSignalingMessage(0, None, None, None, None, None, None)

  const OfferToken := "offer"
  const AnswerToken := "answer"
  const PublishDirection := "publish"
  const SendOfferCommand := "sendOffer"
  const EmptySessionId := "[empty]"

  // ---------------------------------------------------------------------
  // SDP type tokens
  // ---------------------------------------------------------------------

  /** The engine type a wire `type` token decodes to: only "offer" is an offer. */
  function SdpTypeOfToken(token: NullableString): (t: SdpType)
    ensures t == Offer <==> token == Some(OfferToken)
    ensures t != Offer ==> t == Answer
  {
    if token == Some(OfferToken) then Offer else Answer
  }

  /** The wire token an engine type encodes to: every non-offer type is "answer". */
  function SdpTypeToken(t: SdpType): (token: string)
    ensures token == OfferToken <==> t == Offer
    ensures token == AnswerToken <==> t != Offer
    ensures SdpTypeOfToken(Some(token)) == t <==> t == Offer || t == Answer
  {
    if t == Offer then OfferToken else AnswerToken
  }

  // ---------------------------------------------------------------------
  // Inbound translation
  // ---------------------------------------------------------------------

  /**
   * WowzaSignalingMessage.ToDesc. The source reads `sdp.type` without a
   * null check, so a message without an `sdp` record fails (a
   * NullReferenceException); that failure is the None result.
   */
  function ToDesc(msg: WowzaSignalingMessage): (r: Option<SessionDescription>)
    ensures r.None? <==> msg.sdp.None?
    ensures r.Some? ==> (r.value.sdpType == Offer <==> msg.sdp.value.sdpType == Some(OfferToken))
    ensures r.Some? ==> (r.value.sdpType == Answer <==> msg.sdp.value.sdpType != Some(OfferToken))
    ensures r.Some? ==> r.value.sdp == msg.sdp.value.sdp
  {
    match msg.sdp
    case None => None
    case Some(s) => Some(SessionDescription(SdpTypeOfToken(s.sdpType), s.sdp))
  }

  function ToCandidate(c: WowzaIceCandidate): IceCandidate
  {
    IceCandidate(c.candidate, c.sdpMid, c.sdpMLineIndex)
  }

  /** The element-wise conversion behind ToCands (the LINQ Select). */
  function ConvertCandidates(cs: seq<WowzaIceCandidate>): (r: seq<IceCandidate>)
    ensures |r| == |cs|
    ensures forall i :: 0 <= i < |cs| ==>
      && r[i].candidate == cs[i].candidate
      && r[i].sdpMid == cs[i].sdpMid
      && r[i].sdpMLineIndex == cs[i].sdpMLineIndex
  {
    if cs == [] then [] else [ToCandidate(cs[0])] + ConvertCandidates(cs[1..])
  }

  /** WowzaSignalingMessage.ToCands: null stays null, otherwise one candidate per entry, in order. */
  function ToCands(msg: WowzaSignalingMessage): (r: Option<seq<IceCandidate>>)
    ensures r.None? <==> msg.iceCandidates.None?
    ensures r.Some? ==> |r.value| == |msg.iceCandidates.value|
    ensures r.Some? ==> forall i :: 0 <= i < |r.value| ==>
      && r.value[i].candidate == msg.iceCandidates.value[i].candidate
      && r.value[i].sdpMid == msg.iceCandidates.value[i].sdpMid
      && r.value[i].sdpMLineIndex == msg.iceCandidates.value[i].sdpMLineIndex
  {
    match msg.iceCandidates
    case None => None
    case Some(cs) => Some(ConvertCandidates(cs))
  }

  // ---------------------------------------------------------------------
  // Outbound translation
  // ---------------------------------------------------------------------

  /**
   * WowzaConnector.CreateSignalingMessage: the publish offer envelope for a
   * local description. The configured application and stream names are
   * passed in. Decoding the envelope again gives back the description,
   * except that a type other than offer or answer comes back as an answer.
   */
  function CreateSignalingMessage(applicationName: NullableString, streamName: NullableString,
                                  desc: SessionDescription): (m: WowzaSignalingMessage)
    ensures m.direction == Some(PublishDirection) && m.command == Some(SendOfferCommand)
    ensures m.streamInfo == Some(WowzaStreamInfo(applicationName, streamName, Some(EmptySessionId)))
    ensures m.status == 0 && m.statusDescription.None? && m.iceCandidates.None?
    ensures m.sdp.Some? && m.sdp.value.sdp == desc.sdp
    ensures m.sdp.value.sdpType == Some(if desc.sdpType == Offer then OfferToken else AnswerToken)
    ensures ToDesc(m).Some? && ToDesc(m).value.sdp == desc.sdp
    ensures ToDesc(m).value.sdpType == (if desc.sdpType == Offer then Offer else Answer)
    ensures desc.sdpType == Offer || desc.sdpType == Answer ==> ToDesc(m) == Some(desc)
    ensures ToCands(m).None?
  {
    DefaultSignalingMessage.(
      direction := Some(PublishDirection),
      command := Some(SendOfferCommand),
      streamInfo := Some(WowzaStreamInfo(applicationName, streamName, Some(EmptySessionId))),
      sdp := Some(WowzaSdp(Some(SdpTypeToken(desc.sdpType)), desc.sdp)))
  }
}
