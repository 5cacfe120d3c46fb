/**
 * The negotiation side of WowzaConnector: the event handlers that drive the
 * publish flow (socket open, offer creation, local description, first local
 * ICE candidate, inbound answer) against the peer connection.
 *
 * The source posts the four socket handlers to one SynchronizationContext;
 * the engine's OnIceCandidate callback and the coroutine resumptions are
 * taken to run on that same main-thread context, so handlers run one at a
 * time and each is a method here. The peer connection
 * engine is an oracle: the completion of each of its asynchronous operations
 * is passed to the handler that awaits it.
 */
module Negotiation {
  import opened Wrappers
  import opened Signaling

  /** Which description SetDesc applies. */
  datatype Side = Local | Remote

  /** The completion of an asynchronous engine operation: its value or its error. */
  datatype AsyncResult<T> = Done(value: T) | Error(message: string)

  /** Whether a message is the publish offer envelope for the given stream names. */
  predicate IsPublishOffer(m: WowzaSignalingMessage, applicationName: NullableString, streamName: NullableString)
  {
    && m.direction == Some(PublishDirection)
    && m.command == Some(SendOfferCommand)
    && m.streamInfo == Some(WowzaStreamInfo(applicationName, streamName, Some(EmptySessionId)))
    && m.iceCandidates.None?
  }

  class WowzaConnector {
    /** The configured stream identity (serialized fields, never reassigned). */
    const applicationName: NullableString
    const streamName: NullableString

    /** Whether `pc` refers to a peer connection (StartStreaming has run). */
    var hasPeerConnection: bool
    /** The peer connection's local and remote descriptions. */
    var localDesc: Option<SessionDescription>
    var remoteDesc: Option<SessionDescription>
    /** Whether `pc.OnIceCandidate` holds the send-offer handler. */
    var onIceCandidateArmed: bool
    /** The candidates handed to `pc.AddIceCandidate`, in call order. */
    var added: seq<IceCandidate>
    /** The messages handed to the socket, in send order. */
    var sent: seq<WowzaSignalingMessage>
    /** The length of `sent` when the current peer connection was created. */
    ghost var sentBefore: nat

    ghost predicate Valid()
      reads this
    {
      && (onIceCandidateArmed ==> hasPeerConnection)
      && (!hasPeerConnection ==> localDesc.None? && remoteDesc.None? && added == [] && sent == [])
      // candidates reach the engine only after a remote description was accepted
      && (added != [] ==> remoteDesc.Some?)
      // at most one message per peer connection, and none while the handler is armed
      && sentBefore <= |sent| <= sentBefore + 1
      && (onIceCandidateArmed ==> |sent| == sentBefore)
      && (forall i :: 0 <= i < |sent| ==> IsPublishOffer(sent[i], applicationName, streamName))
    }

    /** Start, without the engine, camera and socket set-up: no peer connection yet. */
    constructor (applicationName: NullableString, streamName: NullableString)
      ensures Valid()
      ensures this.applicationName == applicationName && this.streamName == streamName
      ensures !hasPeerConnection && !onIceCandidateArmed
      ensures localDesc.None? && remoteDesc.None? && added == [] && sent == []
    {
      this.applicationName := applicationName;
      this.streamName := streamName;
      hasPeerConnection := false;
      localDesc, remoteDesc := None, None;
      onIceCandidateArmed := false;
      added, sent := [], [];
      sentBefore := 0;
    }

    /**
     * SetDesc: once the engine reports the outcome of setting the description,
     * nothing more happens on an error; on success the description is in place
     * and each candidate is added, once, in index order. The local call site
     * passes no candidates.
     */
    method SetDesc(side: Side, desc: SessionDescription, cands: Option<seq<IceCandidate>>, result: AsyncResult<()>)
      requires Valid() && hasPeerConnection
      requires side == Local ==> cands.None?
      modifies this
      ensures Valid() && hasPeerConnection
      ensures localDesc == (if result.Done? && side == Local then Some(desc) else old(localDesc))
      ensures remoteDesc == (if result.Done? && side == Remote then Some(desc) else old(remoteDesc))
      ensures added == old(added) + (if result.Done? && cands.Some? then cands.value else [])
      ensures sent == old(sent) && sentBefore == old(sentBefore)
      ensures onIceCandidateArmed == old(onIceCandidateArmed)
    {
      if result.Error? {
        return;
      }
      if side == Local {
        localDesc := Some(desc);
      } else {
        remoteDesc := Some(desc);
      }
      if cands.Some? {
        var cs := cands.value;
        for i := 0 to |cs|
          invariant added == old(added) + cs[..i]
          invariant remoteDesc == Some(desc) && localDesc == old(localDesc)
          invariant sent == old(sent) && sentBefore == old(sentBefore)
          invariant onIceCandidateArmed == old(onIceCandidateArmed) && hasPeerConnection
        {
          added := added + [cs[i]];
        }
        assert cs[..|cs|] == cs;
      }
    }

    /**
     * CreateDesc: `kind` selects the engine's create operation (CreateOffer
     * for an offer, CreateAnswer otherwise); `created` is the completion of
     * that operation, so `kind` has no further effect here. Only on success is
     * SetDesc(Local, ...) started, which completes with `setLocal`.
     */
    method CreateDesc(kind: SdpType, created: AsyncResult<SessionDescription>, setLocal: AsyncResult<()>)
      requires Valid() && hasPeerConnection
      modifies this
      ensures Valid() && hasPeerConnection
      ensures created.Error? ==> localDesc == old(localDesc)
      ensures localDesc == (if created.Done? && setLocal.Done? then Some(created.value) else old(localDesc))
      ensures remoteDesc == old(remoteDesc) && added == old(added)
      ensures sent == old(sent) && sentBefore == old(sentBefore)
      ensures onIceCandidateArmed == old(onIceCandidateArmed)
    {
      if created.Error? {
        return;
      }
      SetDesc(Local, created.value, None, setLocal);
    }

    /**
     * StartStreaming: a new peer connection whose OnIceCandidate slot holds
     * the send-offer handler, then CreateDesc(Offer).
     */
    method StartStreaming(created: AsyncResult<SessionDescription>, setLocal: AsyncResult<()>)
      requires Valid()
      modifies this
      ensures Valid() && hasPeerConnection && onIceCandidateArmed
      ensures localDesc == (if created.Done? && setLocal.Done? then Some(created.value) else None)
      ensures remoteDesc.None? && added == []
      ensures sent == old(sent) && sentBefore == |sent|
    {
      hasPeerConnection := true;
      localDesc, remoteDesc := None, None;
      added := [];
      onIceCandidateArmed := true;
      sentBefore := |sent|;
      CreateDesc(Offer, created, setLocal);
    }

    /**
     * Ws_OnOpen: the socket is open; start streaming. The socket connects
     * once and never reconnects, so this runs before any peer connection.
     */
    method OnOpen(created: AsyncResult<SessionDescription>, setLocal: AsyncResult<()>)
      requires Valid() && !hasPeerConnection
      modifies this
      ensures Valid() && hasPeerConnection && onIceCandidateArmed
      ensures localDesc == (if created.Done? && setLocal.Done? then Some(created.value) else None)
      ensures remoteDesc.None? && added == []
      ensures sent == old(sent) && sentBefore == |sent|
    {
      StartStreaming(created, setLocal);
    }

    /**
     * The OnIceCandidate handler installed by StartStreaming. The first call
     * clears the slot and sends the publish offer built from the local
     * description current at that moment; once cleared, candidates send
     * nothing. The candidate itself is not used.
     */
    method OnIceCandidate(cand: IceCandidate)
      requires Valid()
      modifies this
      ensures Valid() && !onIceCandidateArmed
      ensures hasPeerConnection == old(hasPeerConnection)
      ensures localDesc == old(localDesc) && remoteDesc == old(remoteDesc) && added == old(added)
      ensures sentBefore == old(sentBefore)
      ensures sent == old(sent) +
        (if old(onIceCandidateArmed) && localDesc.Some?
         then [CreateSignalingMessage(applicationName, streamName, localDesc.value)]
         else [])
    {
      if !onIceCandidateArmed {
        return;
      }
      onIceCandidateArmed := false;
      if localDesc.Some? {
        var msg := CreateSignalingMessage(applicationName, streamName, localDesc.value);
        sent := sent + [msg];
      }
    }

    /**
     * Ws_OnMessage: decode the description and the candidates and apply them
     * with SetDesc(Remote, ...), which completes with `setRemote`. A message
     * without `sdp`, or one that arrives before any peer connection exists,
     * fails inside the handler and changes nothing.
     */
    method OnMessage(msg: WowzaSignalingMessage, setRemote: AsyncResult<()>)
      requires Valid()
      modifies this
      ensures Valid()
      ensures hasPeerConnection == old(hasPeerConnection)
      ensures localDesc == old(localDesc) && sent == old(sent) && sentBefore == old(sentBefore)
      ensures onIceCandidateArmed == old(onIceCandidateArmed)
      ensures ToDesc(msg).None? || !hasPeerConnection ==>
        remoteDesc == old(remoteDesc) && added == old(added)
      ensures ToDesc(msg).Some? && hasPeerConnection ==>
        && remoteDesc == (if setRemote.Done? then ToDesc(msg) else old(remoteDesc))
        && added == old(added) +
             (if setRemote.Done? && msg.iceCandidates.Some? then ToCands(msg).value else [])
    {
      var desc := ToDesc(msg);
      if desc.None? {
        return;
      }
      var cands := ToCands(msg);
      if !hasPeerConnection {
        return;
      }
      SetDesc(Remote, desc.value, cands, setRemote);
    }

    /** Ws_OnClose: only logs; no teardown. */
    method OnClose()
      requires Valid()
      ensures Valid()
      ensures unchanged(this)
    {
    }

    /** Ws_OnError: only logs; no teardown. */
    method OnError()
      requires Valid()
      ensures Valid()
      ensures unchanged(this)
    {
    }
  }

  /**
   * The publish flow end to end: open, offer created and set, two local
   * candidates, then the server's answer with one candidate.
   */
  method PublishScenario()
  {
    var app, stream := Some("live"), Some("myStream");
    var c := new WowzaConnector(app, stream);
    var offer := SessionDescription(Offer, Some("v=0 offer"));
    c.OnOpen(Done(offer), Done(()));
    assert c.localDesc == Some(offer);

    var local := IceCandidate(Some("local"), Some("0"), 0);
    c.OnIceCandidate(local);
    c.OnIceCandidate(local);
    assert c.sent == [CreateSignalingMessage(app, stream, offer)];
    assert ToDesc(c.sent[0]) == Some(offer);
    assert c.sentBefore == 0 && !c.onIceCandidateArmed;

    var answer := DefaultSignalingMessage.(
      sdp := Some(WowzaSdp(Some(AnswerToken), Some("v=0 answer"))),
      iceCandidates := Some([WowzaIceCandidate(Some("c1"), Some("0"), 0)]));
    c.OnClose();
    c.OnMessage(answer, Done(()));
    assert c.remoteDesc == Some(SessionDescription(Answer, Some("v=0 answer")));
    assert c.added == [IceCandidate(Some("c1"), Some("0"), 0)];
    assert |c.sent| == 1;
  }
}
