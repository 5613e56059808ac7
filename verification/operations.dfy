/** The operation state machines of the virtual SDCP driver and the calls
    they make into the SDCP device collaborator. Each operation is a pure
    function from (driver state, channel) to (driver state, channel, the
    collaborator calls it made, in order). */
module Operations {
  import opened Common
  import opened Messages
  import opened Exchange
  import ClaimLayout

  /** The two static intermediate CA blobs `ca_1` and `ca_2`; they are only
      passed through, so their bytes are not modelled. */
  datatype CaBlob = Ca1 | Ca2

  /** Calls into the SDCP device collaborator. */
  datatype Event =
    | ConnectComplete(rd: Option<Bytes>, claim: Option<ClaimLayout.Claim>, mac: Option<Bytes>, error: Option<Error>)
    | SetIntermediateCas(ca1: CaBlob, ca2: CaBlob)
    | ReconnectComplete(mac: Option<Bytes>, error: Option<Error>)
    | EnrollSetNonce(nonce: Bytes)
    | EnrollProgress(completedStages: nat)
    | EnrollReady(error: Option<Error>)
    | EnrollCommitComplete(error: Option<Error>)
    | IdentifyComplete(id: Option<Bytes>, mac: Option<Bytes>, error: Option<Error>)

  /** The calls that finish an operation. */
  predicate IsCompletion(e: Event)
  {
    e.ConnectComplete? || e.ReconnectComplete? || e.EnrollReady?
      || e.EnrollCommitComplete? || e.IdentifyComplete?
  }

  /** Exactly one completion call, and it is the last call made. */
  predicate CompletesOnce(events: seq<Event>)
  {
    && |events| >= 1
    && IsCompletion(events[|events| - 1])
    && forall i :: 0 <= i < |events| - 1 ==> !IsCompletion(events[i])
  }

  /** The error the final call reports. */
  function FinalError(events: seq<Event>): Option<Error>
    requires CompletesOnce(events)
  {
    events[|events| - 1].error
  }

  /** Driver state after a completion callback, and the calls it made. */
  datatype Completed = Completed(st: Driver, events: seq<Event>)

  /** Driver state, channel and collaborator calls after a whole operation. */
  datatype Outcome = Outcome(st: Driver, ch: Channel, events: seq<Event>)

  /** Builds `msg_out` for a request and sizes `msg_in` for its reply. */
  function Start(st: Driver, req: Request): (st': Driver)
    ensures st'.msgOut == Some(Encode(req))
    ensures st'.msgIn == Some(Awaiting(ExpectedReplySize(req)))
    ensures st'.connectMsg == st.connectMsg
    ensures WellFormed(req) ==> Parse(st'.msgOut.value) == Some(req)
  {
    assert WellFormed(req) ==> Parse(Encode(req)) == Some(req) by {
      if WellFormed(req) { ParseEncode(req); }
    }
    st.(msgOut := Some(Encode(req)), msgIn := Some(Awaiting(ExpectedReplySize(req))))
  }

  // ---------------------------------------------------------------- Connect

  /** Result of the first Connect phase: failed, or ready for phase two. */
  datatype Phase1 = Phase1Failed(st: Driver, events: seq<Event>) | Phase2Ready(next: Driver)

  /** `connect_1_cb`: on error, completes Connect with the error and nothing
      else; otherwise keeps the 34-byte header as `connect_msg` and prepares
      an empty message and a read of the rest of the reply. */
  function ConnectHeaderDone(st: Driver, error: Option<Error>): (r: Phase1)
    requires error.None? ==>
      st.msgIn.Some? && st.msgIn.value.Filled? && |st.msgIn.value.data| == ClaimLayout.HeaderSize
    ensures error.Some? ==> r == Phase1Failed(st, [ConnectComplete(None, None, None, error)])
    ensures error.None? ==>
      && r.Phase2Ready?
      && var h := st.msgIn.value.data;
      && r.next.connectMsg == Some(h)
      && r.next.msgOut == Some([])
      && r.next.msgIn == Some(Awaiting(ClaimLayout.RestSize(ClaimLayout.CertSize(h))))
  {
    if error.Some? then Phase1Failed(st, [ConnectComplete(None, None, None, error)])
    else
      var h := st.msgIn.value.data;
      var cs := ClaimLayout.CertSize(h);
      Phase2Ready(Driver(Some([]), Some(Awaiting(ClaimLayout.RestSize(cs))), Some(h)))
  }

  /** The reply fields a successful `ConnectComplete` carries. */
  function ReplyOf(e: Event): ClaimLayout.ConnectReply
    requires e.ConnectComplete? && e.rd.Some? && e.claim.Some? && e.mac.Some?
  {
    ClaimLayout.ConnectReply(e.rd.value, e.claim.value, e.mac.value)
  }

  /** A `ConnectComplete` that reports success with every field present. */
  predicate ConnectSucceeded(e: Event)
  {
    e.ConnectComplete? && e.rd.Some? && e.claim.Some? && e.mac.Some? && e.error.None?
  }

  /** `connect_2_cb`: on error, completes Connect with the error and drops
      `connect_msg`; otherwise appends the rest to the header, slices the
      whole reply, hands over the intermediate CAs and completes Connect
      with r_d, the claim and the MAC. */
  function ConnectClaimDone(st: Driver, error: Option<Error>): (r: Completed)
    requires error.None? ==>
      && st.connectMsg.Some? && |st.connectMsg.value| >= ClaimLayout.HeaderSize
      && st.msgIn.Some? && st.msgIn.value.Filled?
      && |st.connectMsg.value| + |st.msgIn.value.data|
         == ClaimLayout.ReplySize(ClaimLayout.CertSize(st.connectMsg.value))
    ensures r.st.connectMsg.None? && r.st.msgOut == st.msgOut
    ensures error.Some? ==>
      r.events == [ConnectComplete(None, None, None, error)] && r.st.msgIn == st.msgIn
    ensures error.None? ==>
      && r.st.msgIn.None?
      && |r.events| == 2
      && r.events[0] == SetIntermediateCas(Ca1, Ca2)
      && ConnectSucceeded(r.events[1])
      && ClaimLayout.WellSized(ReplyOf(r.events[1]))
      && ClaimLayout.Assemble(ReplyOf(r.events[1])) == st.connectMsg.value + st.msgIn.value.data
  {
    if error.Some? then
      Completed(st.(connectMsg := None), [ConnectComplete(None, None, None, error)])
    else
      var header := st.connectMsg.value;
      var buf := header + st.msgIn.value.data;
      assert buf[..ClaimLayout.HeaderSize] == header[..ClaimLayout.HeaderSize];
      assert ClaimLayout.CertSize(buf) == ClaimLayout.CertSize(header);
      var reply := ClaimLayout.Slice(buf);
      ClaimLayout.AssembleSlice(buf);
      Completed(st.(msgIn := None, connectMsg := None),
                [SetIntermediateCas(Ca1, Ca2),
                 ConnectComplete(Some(reply.rd), Some(reply.claim), Some(reply.mac), None)])
  }

  /** The write goes through and the first read yields at least n bytes. */
  predicate Delivered(ch: Channel, n: nat)
  {
    WriteAt(ch, 0) == WriteOk && ReadAt(ch, 0).ReadData? && |ReadAt(ch, 0).data| >= n
  }

  /** The write goes through and the first read ends before n bytes. */
  predicate ShortRead(ch: Channel, n: nat)
  {
    WriteAt(ch, 0) == WriteOk && ReadAt(ch, 0).ReadData? && |ReadAt(ch, 0).data| < n
  }

  /** The write goes through and the first read fails with an I/O error. */
  predicate ReadFails(ch: Channel)
  {
    WriteAt(ch, 0) == WriteOk && ReadAt(ch, 0).ReadFailed?
  }

  /** The second Connect exchange (send nothing, read the rest) followed by
      `connect_2_cb`, from the state `connect_1_cb` prepared. */
  function ConnectRest(st: Driver, ch: Channel): (r: Outcome)
    requires st.connectMsg.Some? && |st.connectMsg.value| == ClaimLayout.HeaderSize
    requires st.msgOut == Some([])
    requires st.msgIn == Some(Awaiting(ClaimLayout.RestSize(ClaimLayout.CertSize(st.connectMsg.value))))
    ensures r.st.msgOut.None? && r.st.connectMsg.None?
    ensures CompletesOnce(r.events) && r.events[|r.events| - 1].ConnectComplete?
    ensures WriteAt(ch, 0) == WriteOk ==> r.ch.sent == ch.sent + [[]]
    ensures FinalError(r.events).None? <==> Delivered(ch, ClaimLayout.RestSize(ClaimLayout.CertSize(st.connectMsg.value)))
    ensures FinalError(r.events).Some? ==>
      r.events == [ConnectComplete(None, None, None, FinalError(r.events))]
    ensures FinalError(r.events).None? ==>
      && r.st.msgIn.None?
      && |r.events| == 2
      && r.events[0] == SetIntermediateCas(Ca1, Ca2)
      && ConnectSucceeded(r.events[1])
      && var h := st.connectMsg.value;
      && ClaimLayout.WellSized(ReplyOf(r.events[1]))
      && ClaimLayout.Assemble(ReplyOf(r.events[1]))
         == h + ReadAt(ch, 0).data[..ClaimLayout.RestSize(ClaimLayout.CertSize(h))]
    ensures WriteAt(ch, 0).WriteFailed? ==>
      FinalError(r.events) == Some(Io(WriteAt(ch, 0).werr)) && r.st.msgIn == st.msgIn
    ensures ShortRead(ch, ClaimLayout.RestSize(ClaimLayout.CertSize(st.connectMsg.value))) ==>
      FinalError(r.events) == Some(Proto)
    ensures ReadFails(ch) ==> FinalError(r.events) == Some(Io(ReadAt(ch, 0).rerr))
  {
    var y := SendRecv(st, ch);
    var c := ConnectClaimDone(y.st, y.error);
    Outcome(c.st, y.ch, c.events)
  }

  /** What a channel must deliver for Connect to succeed: both writes go
      through, the first read yields the 34-byte header and the second the
      cert_size + 322 bytes the header announces. */
  predicate ConnectDelivers(ch: Channel)
  {
    && Delivered(ch, ClaimLayout.HeaderSize)
    && WriteAt(ch, 1) == WriteOk && ReadAt(ch, 1).ReadData?
    && |ReadAt(ch, 1).data| >= ClaimLayout.RestSize(ClaimLayout.CertSize(ReadAt(ch, 0).data[..ClaimLayout.HeaderSize]))
  }

  /** The first Connect exchange (send C ‖ r_h ‖ pk_h, read the 34-byte
      header) followed by `connect_1_cb`; also returns the channel. */
  function ConnectFirst(st: Driver, rh: Bytes, pkh: Bytes, ch: Channel): (r: (Phase1, Channel))
    requires st.connectMsg.None?
    ensures r.1.writeOutcomes == Rest(ch.writeOutcomes)
    ensures WriteAt(ch, 0) == WriteOk ==>
      r.1.readOutcomes == Rest(ch.readOutcomes) && r.1.sent == ch.sent + [Encode(ConnectReq(rh, pkh))]
    ensures r.0.Phase2Ready? <==> Delivered(ch, ClaimLayout.HeaderSize)
    ensures r.0.Phase2Ready? ==>
      && var h := ReadAt(ch, 0).data[..ClaimLayout.HeaderSize];
      && r.0.next.connectMsg == Some(h)
      && r.0.next.msgOut == Some([])
      && r.0.next.msgIn == Some(Awaiting(ClaimLayout.RestSize(ClaimLayout.CertSize(h))))
    ensures r.0.Phase1Failed? ==>
      && r.0.st.msgOut.None? && r.0.st.connectMsg.None?
      && |r.0.events| == 1 && r.0.events[0].ConnectComplete?
      && r.0.events[0] == ConnectComplete(None, None, None, r.0.events[0].error)
      && r.0.events[0].error.Some?
    ensures WriteAt(ch, 0).WriteFailed? ==>
      && r.0.Phase1Failed?
      && r.0.events[0].error == Some(Io(WriteAt(ch, 0).werr))
      && r.0.st.msgIn == Some(Awaiting(ClaimLayout.HeaderSize))
    ensures ShortRead(ch, ClaimLayout.HeaderSize) ==>
      r.0.Phase1Failed? && r.0.events[0].error == Some(Proto)
    ensures ReadFails(ch) ==>
      r.0.Phase1Failed? && r.0.events[0].error == Some(Io(ReadAt(ch, 0).rerr))
  {
    var x := SendRecv(Start(st, ConnectReq(rh, pkh)), ch);
    (ConnectHeaderDone(x.st, x.error), x.ch)
  }

  /** `connect`: two exchanges, the second sized from the first. */
  function Connect(st: Driver, rh: Bytes, pkh: Bytes, ch: Channel): (r: Outcome)
    requires st.connectMsg.None?
    ensures r.st.msgOut.None? && r.st.connectMsg.None?
    ensures CompletesOnce(r.events) && r.events[|r.events| - 1].ConnectComplete?
    ensures WriteAt(ch, 0) == WriteOk ==>
      && |r.ch.sent| >= |ch.sent| + 1
      && r.ch.sent[|ch.sent|] == Encode(ConnectReq(rh, pkh))
    ensures FinalError(r.events).None? <==> ConnectDelivers(ch)
    ensures FinalError(r.events).None? <==> SetIntermediateCas(Ca1, Ca2) in r.events
    ensures FinalError(r.events).Some? ==>
      r.events == [ConnectComplete(None, None, None, FinalError(r.events))]
    ensures FinalError(r.events).None? ==>
      && r.st.msgIn.None?
      && r.ch.sent == ch.sent + [Encode(ConnectReq(rh, pkh)), []]
      && |r.events| == 2
      && r.events[0] == SetIntermediateCas(Ca1, Ca2)
      && ConnectSucceeded(r.events[1])
      && var h := ReadAt(ch, 0).data[..ClaimLayout.HeaderSize];
      && ClaimLayout.WellSized(ReplyOf(r.events[1]))
      && ClaimLayout.Assemble(ReplyOf(r.events[1]))
         == h + ReadAt(ch, 1).data[..ClaimLayout.RestSize(ClaimLayout.CertSize(h))]
    ensures ShortRead(ch, ClaimLayout.HeaderSize) ==> FinalError(r.events) == Some(Proto)
    ensures ReadFails(ch) ==> FinalError(r.events) == Some(Io(ReadAt(ch, 0).rerr))
    ensures WriteAt(ch, 0).WriteFailed? ==>
      FinalError(r.events) == Some(Io(WriteAt(ch, 0).werr))
      && r.st.msgIn == Some(Awaiting(ClaimLayout.HeaderSize))
    ensures (Delivered(ch, ClaimLayout.HeaderSize) && WriteAt(ch, 1).WriteFailed?) ==>
      && FinalError(r.events) == Some(Io(WriteAt(ch, 1).werr))
      && r.st.msgIn == Some(Awaiting(ClaimLayout.RestSize(ClaimLayout.CertSize(ReadAt(ch, 0).data[..ClaimLayout.HeaderSize]))))
    ensures (Delivered(ch, ClaimLayout.HeaderSize) && WriteAt(ch, 1) == WriteOk && ReadAt(ch, 1).ReadData?
             && |ReadAt(ch, 1).data| < ClaimLayout.RestSize(ClaimLayout.CertSize(ReadAt(ch, 0).data[..ClaimLayout.HeaderSize]))) ==>
      FinalError(r.events) == Some(Proto)
    ensures (Delivered(ch, ClaimLayout.HeaderSize) && WriteAt(ch, 1) == WriteOk && ReadAt(ch, 1).ReadFailed?) ==>
      FinalError(r.events) == Some(Io(ReadAt(ch, 1).rerr))
  {
    var (p, ch1) := ConnectFirst(st, rh, pkh, ch);
    match p
    case Phase1Failed(st1, evs) => Outcome(st1, ch1, evs)
    case Phase2Ready(st1) =>
      var h := ReadAt(ch, 0).data[..ClaimLayout.HeaderSize];
      assert Delivered(ch, ClaimLayout.HeaderSize) && st1.connectMsg == Some(h);
      var m := Encode(ConnectReq(rh, pkh));
      assert ch1.sent == ch.sent + [m];
      assert ch1.sent + [[]] == ch.sent + [m, []];
      assert ReadAt(ch1, 0) == ReadAt(ch, 1);
      assert WriteAt(ch1, 0) == WriteAt(ch, 1);
      ConnectRest(st1, ch1)
  }

  // -------------------------------------------------------------- Reconnect

  /** `reconnect_cb`: the whole 32-byte reply is the MAC. */
  function ReconnectDone(st: Driver, error: Option<Error>): (r: Completed)
    requires error.None? ==> st.msgIn.Some? && st.msgIn.value.Filled?
    ensures r.st.msgOut == st.msgOut && r.st.connectMsg == st.connectMsg
    ensures error.Some? ==> r.events == [ReconnectComplete(None, error)] && r.st.msgIn == st.msgIn
    ensures error.None? ==>
      r.events == [ReconnectComplete(Some(st.msgIn.value.data), None)] && r.st.msgIn.None?
  {
    if error.Some? then Completed(st, [ReconnectComplete(None, error)])
    else Completed(st.(msgIn := None), [ReconnectComplete(Some(st.msgIn.value.data), None)])
  }

  /** `reconnect`: sends R ‖ r_h, reads the 32-byte MAC. */
  function Reconnect(st: Driver, rh: Bytes, ch: Channel): (r: Outcome)
    ensures r.st.msgOut.None? && r.st.connectMsg == st.connectMsg
    ensures |r.events| == 1 && r.events[0].ReconnectComplete?
    ensures r.events[0].error.None? <==> Delivered(ch, ClaimLayout.MacSize)
    ensures r.events[0].error.None? ==>
      r.events[0].mac == Some(ReadAt(ch, 0).data[..ClaimLayout.MacSize]) && r.st.msgIn.None?
    ensures r.events[0].error.Some? ==> r.events[0].mac.None?
    ensures WriteAt(ch, 0).WriteFailed? ==> r.events[0].error == Some(Io(WriteAt(ch, 0).werr))
    ensures ShortRead(ch, ClaimLayout.MacSize) ==> r.events[0].error == Some(Proto)
    ensures ReadFails(ch) ==> r.events[0].error == Some(Io(ReadAt(ch, 0).rerr))
  {
    var x := SendRecv(Start(st, ReconnectReq(rh)), ch);
    var c := ReconnectDone(x.st, x.error);
    Outcome(c.st, x.ch, c.events)
  }

  // ------------------------------------------------------------ EnrollBegin

  /** `enroll_begin_cb`: stores the 32-byte nonce, reports one completed
      enroll stage and signals readiness to commit. */
  function EnrollBeginDone(st: Driver, error: Option<Error>): (r: Completed)
    requires error.None? ==> st.msgIn.Some? && st.msgIn.value.Filled?
    ensures r.st.msgOut == st.msgOut && r.st.connectMsg == st.connectMsg
    ensures error.Some? ==> r.events == [EnrollReady(error)] && r.st.msgIn == st.msgIn
    ensures error.None? ==>
      && r.st.msgIn.None?
      && r.events == [EnrollSetNonce(st.msgIn.value.data), EnrollProgress(1), EnrollReady(None)]
  {
    if error.Some? then Completed(st, [EnrollReady(error)])
    else
      Completed(st.(msgIn := None),
                [EnrollSetNonce(st.msgIn.value.data), EnrollProgress(1), EnrollReady(None)])
  }

  /** `enroll_begin`: sends E, reads the 32-byte nonce. */
  function EnrollBegin(st: Driver, ch: Channel): (r: Outcome)
    ensures r.st.msgOut.None? && r.st.connectMsg == st.connectMsg
    ensures CompletesOnce(r.events) && r.events[|r.events| - 1].EnrollReady?
    ensures FinalError(r.events).None? <==> Delivered(ch, NonceSize)
    ensures FinalError(r.events).None? ==>
      r.events == [EnrollSetNonce(ReadAt(ch, 0).data[..NonceSize]), EnrollProgress(1), EnrollReady(None)]
    ensures FinalError(r.events).Some? ==> |r.events| == 1
    ensures WriteAt(ch, 0).WriteFailed? ==> FinalError(r.events) == Some(Io(WriteAt(ch, 0).werr))
    ensures ShortRead(ch, NonceSize) ==> FinalError(r.events) == Some(Proto)
    ensures ReadFails(ch) ==> FinalError(r.events) == Some(Io(ReadAt(ch, 0).rerr))
  {
    var x := SendRecv(Start(st, EnrollBeginReq), ch);
    var c := EnrollBeginDone(x.st, x.error);
    Outcome(c.st, x.ch, c.events)
  }

  // ------------------------------------------------------ EnrollCommit/Cancel

  /** `enroll_commit_cb`: always drops `msg_in`; a failure is reported
      through `enroll_ready`, success through `enroll_commit_complete`. */
  function EnrollCommitDone(st: Driver, error: Option<Error>): (r: Completed)
    ensures r.st.msgIn.None? && r.st.msgOut == st.msgOut && r.st.connectMsg == st.connectMsg
    ensures error.Some? <==> r.events == [EnrollReady(error)]
    ensures error.None? <==> r.events == [EnrollCommitComplete(None)]
  {
    var st' := st.(msgIn := None);
    if error.Some? then Completed(st', [EnrollReady(error)])
    else Completed(st', [EnrollCommitComplete(None)])
  }

  /** `enroll_commit`: sends F ‖ id (commit) or G (cancel) and runs the
      exchange with an empty expected reply, which any non-failing read
      matches. */
  function EnrollCommit(st: Driver, id: Option<Bytes>, ch: Channel): (r: Outcome)
    ensures r.st == Driver(None, None, st.connectMsg)
    ensures |r.events| == 1
    ensures r.events == [EnrollCommitComplete(None)] <==>
      WriteAt(ch, 0) == WriteOk && ReadAt(ch, 0).ReadData?
    ensures WriteAt(ch, 0).WriteFailed? ==> r.events == [EnrollReady(Some(Io(WriteAt(ch, 0).werr)))]
    ensures ReadFails(ch) ==> r.events == [EnrollReady(Some(Io(ReadAt(ch, 0).rerr)))]
  {
    var x := SendRecv(Start(st, EnrollCommitReq(id)), ch);
    var c := EnrollCommitDone(x.st, x.error);
    Outcome(c.st, x.ch, c.events)
  }

  // --------------------------------------------------------------- Identify

  /** `identify_cb`: the reply is split into the 32-byte id and 32-byte MAC. */
  function IdentifyDone(st: Driver, error: Option<Error>): (r: Completed)
    requires error.None? ==>
      st.msgIn.Some? && st.msgIn.value.Filled? && |st.msgIn.value.data| >= IdSize + ClaimLayout.MacSize
    ensures r.st.msgOut == st.msgOut && r.st.connectMsg == st.connectMsg
    ensures error.Some? ==> r.events == [IdentifyComplete(None, None, error)] && r.st.msgIn == st.msgIn
    ensures error.None? ==>
      && r.st.msgIn.None? && |r.events| == 1
      && r.events[0].IdentifyComplete? && r.events[0].error.None?
      && r.events[0].id.Some? && r.events[0].mac.Some?
      && |r.events[0].id.value| == IdSize && |r.events[0].mac.value| == ClaimLayout.MacSize
      && r.events[0].id.value + r.events[0].mac.value == st.msgIn.value.data[..IdSize + ClaimLayout.MacSize]
  {
    if error.Some? then Completed(st, [IdentifyComplete(None, None, error)])
    else
      var reply := st.msgIn.value.data;
      Completed(st.(msgIn := None), [IdentifyComplete(Some(reply[..IdSize]), Some(reply[IdSize..IdSize + ClaimLayout.MacSize]), None)])
  }

  /** `identify`: sends I ‖ nonce, reads id ‖ MAC. */
  function Identify(st: Driver, nonce: Bytes, ch: Channel): (r: Outcome)
    ensures r.st.msgOut.None? && r.st.connectMsg == st.connectMsg
    ensures |r.events| == 1 && r.events[0].IdentifyComplete?
    ensures r.events[0].error.None? <==> Delivered(ch, IdSize + ClaimLayout.MacSize)
    ensures r.events[0].error.None? ==>
      && r.events[0].id.Some? && r.events[0].mac.Some?
      && r.events[0].id.value + r.events[0].mac.value == ReadAt(ch, 0).data[..IdSize + ClaimLayout.MacSize]
      && |r.events[0].id.value| == IdSize
    ensures r.events[0].error.Some? ==> r.events[0].id.None? && r.events[0].mac.None?
    ensures WriteAt(ch, 0).WriteFailed? ==> r.events[0].error == Some(Io(WriteAt(ch, 0).werr))
    ensures ShortRead(ch, IdSize + ClaimLayout.MacSize) ==> r.events[0].error == Some(Proto)
    ensures ReadFails(ch) ==> r.events[0].error == Some(Io(ReadAt(ch, 0).rerr))
  {
    var x := SendRecv(Start(st, IdentifyReq(nonce)), ch);
    var c := IdentifyDone(x.st, x.error);
    Outcome(c.st, x.ch, c.events)
  }
}
