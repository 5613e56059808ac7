/** The two-state send/receive exchange: write all of `msg_out`, then read
    exactly `msg_in.len` bytes, over a scripted duplex channel. */
module Exchange {
  import opened Common

  /** Failures the channel itself reports. `PeerGone` is what a channel whose
      script is exhausted reports for a write (the peer has exited). */
  datatype IoError = IoFailed(code: int) | IoCancelled | PeerGone

  /** Errors an operation completes with: a channel error, or the protocol
      error raised for EOF / a short read. */
  datatype Error = Io(cause: IoError) | Proto

  datatype WriteOutcome = WriteOk | WriteFailed(werr: IoError)

  /** `ReadData(d)`: the bytes this one read obtains before end of stream,
      cut to the requested count; bytes beyond that count are dropped, not
      kept for the next read. */
  datatype ReadOutcome = ReadData(data: Bytes) | ReadFailed(rerr: IoError)

  /** The peer as seen by the host: outcomes of the host's future writes and
      reads, each consumed in order, and the messages the peer has received. */
  datatype Channel = Channel(writeOutcomes: seq<WriteOutcome>, readOutcomes: seq<ReadOutcome>, sent: seq<Bytes>)

  /** A script with its first outcome consumed; an exhausted script stays exhausted. */
  function Rest<T>(s: seq<T>): (r: seq<T>)
    ensures |s| > 0 ==> [s[0]] + r == s
    ensures |s| == 0 ==> r == []
  {
    if |s| == 0 then [] else s[1..]
  }

  /** Outcome of the i-th write from now on. */
  function WriteAt(ch: Channel, i: nat): WriteOutcome
  {
    if i < |ch.writeOutcomes| then ch.writeOutcomes[i] else WriteFailed(PeerGone)
  }

  /** Outcome of the i-th read from now on; an exhausted read script is end
      of stream. */
  function ReadAt(ch: Channel, i: nat): ReadOutcome
  {
    if i < |ch.readOutcomes| then ch.readOutcomes[i] else ReadData([])
  }

  function NextWrite(ch: Channel): WriteOutcome
  {
    WriteAt(ch, 0)
  }

  function NextRead(ch: Channel): ReadOutcome
  {
    ReadAt(ch, 0)
  }

  /** The inbound buffer `msg_in`: sized but not yet filled, or filled. */
  datatype Inbound = Awaiting(size: nat) | Filled(data: Bytes)

  /** The driver's per-instance fields; `None` is a NULL pointer. */
  datatype Driver = Driver(msgOut: Option<Bytes>, msgIn: Option<Inbound>, connectMsg: Option<Bytes>)

  /** Driver state and channel after an exchange, and the error (if any)
      the state machine was marked failed with. */
  datatype Exchanged = Exchanged(st: Driver, ch: Channel, error: Option<Error>)

  /** The number of bytes a read of n bytes obtains from `d`. */
  function ReadCount(d: Bytes, n: nat): (k: nat)
    ensures k <= n && k <= |d|
    ensures k == n || k == |d|
  {
    if |d| < n then |d| else n
  }

  /** `msg_written_cb`: `msg_out` is released whatever the outcome; a failed
      write fails the exchange and leaves `msg_in` alone. */
  function Written(st: Driver, ch: Channel): (r: Exchanged)
    requires st.msgOut.Some?
    ensures r.st.msgOut.None?
    ensures r.st.msgIn == st.msgIn && r.st.connectMsg == st.connectMsg
    ensures r.ch.readOutcomes == ch.readOutcomes
    ensures r.ch.writeOutcomes == Rest(ch.writeOutcomes)
    ensures r.error.None? <==> NextWrite(ch) == WriteOk
    ensures NextWrite(ch).WriteFailed? ==> r.error == Some(Io(NextWrite(ch).werr)) && r.ch.sent == ch.sent
    ensures r.error.None? ==> r.ch.sent == ch.sent + [st.msgOut.value]
  {
    var st' := st.(msgOut := None);
    var rest := Rest(ch.writeOutcomes);
    match NextWrite(ch)
    case WriteOk => Exchanged(st', ch.(writeOutcomes := rest, sent := ch.sent + [st.msgOut.value]), None)
    case WriteFailed(e) => Exchanged(st', ch.(writeOutcomes := rest), Some(Io(e)))
  }

  /** `msg_received_cb`: the read succeeds only if it obtains exactly the
      expected number of bytes; otherwise `msg_in` is released and the error
      is the channel's, or PROTO when the channel reported none. */
  function Received(st: Driver, ch: Channel): (r: Exchanged)
    requires st.msgOut.None? && st.msgIn.Some? && st.msgIn.value.Awaiting?
    ensures r.st.msgOut.None? && r.st.connectMsg == st.connectMsg
    ensures r.ch.writeOutcomes == ch.writeOutcomes && r.ch.sent == ch.sent
    ensures r.ch.readOutcomes == Rest(ch.readOutcomes)
    ensures var n := st.msgIn.value.size;
      && (r.error.None? <==> NextRead(ch).ReadData? && |NextRead(ch).data| >= n)
      && (r.error.None? ==> r.st.msgIn == Some(Filled(NextRead(ch).data[..n])))
      && (r.error == Some(Proto) <==> NextRead(ch).ReadData? && |NextRead(ch).data| < n)
    ensures NextRead(ch).ReadFailed? ==> r.error == Some(Io(NextRead(ch).rerr))
    ensures r.error.Some? ==> r.st.msgIn.None?
  {
    var n := st.msgIn.value.size;
    var rest := Rest(ch.readOutcomes);
    var ch' := ch.(readOutcomes := rest);
    match NextRead(ch)
    case ReadFailed(e) => Exchanged(st.(msgIn := None), ch', Some(Io(e)))
    case ReadData(d) =>
      if ReadCount(d, n) != n then Exchanged(st.(msgIn := None), ch', Some(Proto))
      else Exchanged(st.(msgIn := Some(Filled(d[..n]))), ch', None)
  }

  /** `send_recv_ssm`: SEND_MESSAGE then RECV_MESSAGE; the read is issued
      only after a successful write. */
  function SendRecv(st: Driver, ch: Channel): (r: Exchanged)
    requires st.msgOut.Some? && st.msgIn.Some? && st.msgIn.value.Awaiting?
    ensures r.st.msgOut.None? && r.st.connectMsg == st.connectMsg
    ensures NextWrite(ch).WriteFailed? ==>
      r.error == Some(Io(NextWrite(ch).werr)) && r.st.msgIn == st.msgIn && r.ch.readOutcomes == ch.readOutcomes
    ensures r.ch.writeOutcomes == Rest(ch.writeOutcomes)
    ensures NextWrite(ch) == WriteOk ==>
      r.ch.sent == ch.sent + [st.msgOut.value] && r.ch.readOutcomes == Rest(ch.readOutcomes)
    ensures var n, rd := st.msgIn.value.size, NextRead(ch);
      && (r.error.None? <==> NextWrite(ch) == WriteOk && rd.ReadData? && |rd.data| >= n)
      && (r.error.None? ==> r.st.msgIn == Some(Filled(rd.data[..n])))
      && (r.error == Some(Proto) <==> NextWrite(ch) == WriteOk && rd.ReadData? && |rd.data| < n)
      && (NextWrite(ch) == WriteOk && rd.ReadFailed? ==> r.error == Some(Io(rd.rerr)))
    ensures r.error.Some? && NextWrite(ch) == WriteOk ==> r.st.msgIn.None?
  {
    var w := Written(st, ch);
    if w.error.Some? then w
    else
      assert NextRead(w.ch) == NextRead(ch);
      Received(w.st, w.ch)
  }
}
