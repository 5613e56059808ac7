/** Operations run one after another over one channel, as the SDCP device
    collaborator issues them, and end-to-end properties of single runs. */
module Session {
  import opened Common
  import opened Messages
  import opened Exchange
  import opened Operations
  import ClaimLayout

  /** Connect may start only while no Connect reply is buffered. */
  predicate Ready(st: Driver, req: Request)
  {
    req.ConnectReq? ==> st.connectMsg.None?
  }

  /** Dispatches a request to the operation that serves it. */
  function Run(st: Driver, req: Request, ch: Channel): (r: Outcome)
    requires Ready(st, req)
    ensures CompletesOnce(r.events)
    ensures r.st.msgOut.None?
    ensures r.st.connectMsg == if req.ConnectReq? then None else st.connectMsg
    ensures WriteAt(ch, 0) == WriteOk ==> |r.ch.sent| > |ch.sent| && r.ch.sent[|ch.sent|] == Encode(req)
    ensures WriteAt(ch, 0).WriteFailed? ==> FinalError(r.events) == Some(Io(WriteAt(ch, 0).werr))
    ensures (WriteAt(ch, 0).WriteFailed? && !req.EnrollCommitReq?) ==>
      r.st.msgIn == Some(Awaiting(ExpectedReplySize(req)))
    ensures ShortRead(ch, ExpectedReplySize(req)) ==> FinalError(r.events) == Some(Proto)
    ensures ReadFails(ch) ==> FinalError(r.events) == Some(Io(ReadAt(ch, 0).rerr))
    ensures (req.ConnectReq? && Delivered(ch, ClaimLayout.HeaderSize) && WriteAt(ch, 1) == WriteOk
             && ReadAt(ch, 1).ReadData?
             && |ReadAt(ch, 1).data| < ClaimLayout.RestSize(ClaimLayout.CertSize(ReadAt(ch, 0).data[..ClaimLayout.HeaderSize]))) ==>
      FinalError(r.events) == Some(Proto)
    ensures (req.ConnectReq? && Delivered(ch, ClaimLayout.HeaderSize) && WriteAt(ch, 1).WriteFailed?) ==>
      FinalError(r.events) == Some(Io(WriteAt(ch, 1).werr))
    ensures (req.ConnectReq? && Delivered(ch, ClaimLayout.HeaderSize) && WriteAt(ch, 1) == WriteOk
             && ReadAt(ch, 1).ReadFailed?) ==>
      FinalError(r.events) == Some(Io(ReadAt(ch, 1).rerr))
    ensures FinalError(r.events).None? ==> Delivered(ch, ExpectedReplySize(req))
    ensures !req.ConnectReq? ==>
      (FinalError(r.events).None? <==> Delivered(ch, ExpectedReplySize(req)))
  {
    match req
    case ConnectReq(rh, pkh) =>
      Connect(st, rh, pkh, ch)
    case ReconnectReq(rh) => Reconnect(st, rh, ch)
    case EnrollBeginReq => EnrollBegin(st, ch)
    case EnrollCommitReq(id) => EnrollCommit(st, id, ch)
    case IdentifyReq(nonce) => Identify(st, nonce, ch)
  }

  /** Number of completion calls among the events. */
  function Completions(events: seq<Event>): nat
  {
    if |events| == 0 then 0
    else (if IsCompletion(events[0]) then 1 else 0) + Completions(events[1..])
  }

  lemma {:induction false} CompletionsAppend(a: seq<Event>, b: seq<Event>)
    ensures Completions(a + b) == Completions(a) + Completions(b)
    decreases |a|
  {
    if |a| == 0 {
      assert a + b == b;
    } else {
      assert (a + b)[1..] == a[1..] + b;
      CompletionsAppend(a[1..], b);
    }
  }

  /** A run that completes once holds exactly one completion call. */
  lemma {:induction false} CompletesOnceCount(events: seq<Event>)
    requires CompletesOnce(events)
    ensures Completions(events) == 1
    decreases |events|
  {
    if |events| > 1 {
      var tail := events[1..];
      assert !IsCompletion(events[0]);
      assert forall i :: 0 <= i < |tail| - 1 ==> tail[i] == events[i + 1];
      CompletesOnceCount(tail);
    }
  }

  /** Runs requests in order over one channel; a failed operation does not
      stop the session, and every request is answered by exactly one
      completion call. */
  function RunAll(st: Driver, reqs: seq<Request>, ch: Channel): (r: Outcome)
    requires st.connectMsg.None?
    ensures r.st.connectMsg.None?
    ensures Completions(r.events) == |reqs|
    ensures |reqs| > 0 ==> r.st.msgOut.None?
    ensures |reqs| == 0 ==> r.st == st
    decreases |reqs|
  {
    if |reqs| == 0 then Outcome(st, ch, [])
    else
      var a := Run(st, reqs[0], ch);
      var b := RunAll(a.st, reqs[1..], a.ch);
      CompletesOnceCount(a.events);
      CompletionsAppend(a.events, b.events);
      Outcome(b.st, b.ch, a.events + b.events)
  }

  /** A peer that answers Connect with the reply built from given fields
      (header first, then the rest) makes Connect surface exactly those
      fields, after the CAs are handed over; the peer receives C ‖ r_h ‖ pk_h
      and then the empty phase-two message. */
  lemma ConnectRecoversPeerReply(st: Driver, rh: Bytes, pkh: Bytes,
                                 reply: ClaimLayout.ConnectReply, ch: Channel)
    requires st.connectMsg.None?
    requires ClaimLayout.WellSized(reply)
    requires WriteAt(ch, 0) == WriteOk && WriteAt(ch, 1) == WriteOk
    requires var buf := ClaimLayout.Assemble(reply);
      ReadAt(ch, 0) == ReadData(buf[..ClaimLayout.HeaderSize])
      && ReadAt(ch, 1) == ReadData(buf[ClaimLayout.HeaderSize..])
    ensures var r := Connect(st, rh, pkh, ch);
      && r.events == [SetIntermediateCas(Ca1, Ca2),
                      ConnectComplete(Some(reply.rd), Some(reply.claim), Some(reply.mac), None)]
      && r.ch.sent == ch.sent + [Encode(ConnectReq(rh, pkh)), []]
  {
    var buf := ClaimLayout.Assemble(reply);
    var h := buf[..ClaimLayout.HeaderSize];
    assert h[ClaimLayout.CertSizeOffset..ClaimLayout.HeaderSize]
        == buf[ClaimLayout.CertSizeOffset..ClaimLayout.HeaderSize];
    assert ClaimLayout.CertSize(h) == ClaimLayout.CertSize(buf);
    assert ConnectDelivers(ch);
    var r := Connect(st, rh, pkh, ch);
    var got := ReplyOf(r.events[|r.events| - 1]);
    assert h + buf[ClaimLayout.HeaderSize..] == buf;
    assert ClaimLayout.Assemble(got) == buf;
    ClaimLayout.SliceAssemble(got);
    ClaimLayout.SliceAssemble(reply);
    assert got == reply;
    assert r.events == [SetIntermediateCas(Ca1, Ca2), r.events[1]];
  }

  /** A 64-byte Identify reply id ‖ mac is split back into id and mac. */
  lemma IdentifyRecoversPeerReply(st: Driver, nonce: Bytes, id: Bytes, mac: Bytes, ch: Channel)
    requires |id| == IdSize && |mac| == ClaimLayout.MacSize
    requires WriteAt(ch, 0) == WriteOk && ReadAt(ch, 0) == ReadData(id + mac)
    ensures Identify(st, nonce, ch).events == [IdentifyComplete(Some(id), Some(mac), None)]
  {
    var r := Identify(st, nonce, ch);
    var e := r.events[0];
    assert (id + mac)[..IdSize + ClaimLayout.MacSize] == id + mac;
    assert e.id.value == (e.id.value + e.mac.value)[..IdSize];
    assert id == (id + mac)[..IdSize];
  }
}
