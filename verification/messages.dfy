/** Outbound framing: each host request is one tag byte followed by its
    payload, with no length prefix and no length check on the payload. */
module Messages {
  import opened Common
  import ClaimLayout

  const TagConnect: Byte := 0x43      // 'C'
  const TagReconnect: Byte := 0x52    // 'R'
  const TagEnrollBegin: Byte := 0x45  // 'E'
  const TagIdentify: Byte := 0x49     // 'I'
  const TagCommit: Byte := 0x46       // 'F'
  const TagCancel: Byte := 0x47       // 'G'

  /** Size of the host nonce r_h as the peer reads it out of a Connect request. */
  const HostNonceSize: nat := 32

  /** Sizes of the Reconnect, EnrollBegin and Identify reply fields; the
      Connect header and the MAC are sized in `ClaimLayout`. */
  const NonceSize: nat := 32
  const IdSize: nat := 32

  /** One host-to-peer request. `EnrollCommitReq(None)` is the cancel request. */
  datatype Request =
    | ConnectReq(rh: Bytes, pkh: Bytes)
    | ReconnectReq(rh: Bytes)
    | EnrollBeginReq
    | EnrollCommitReq(id: Option<Bytes>)
    | IdentifyReq(nonce: Bytes)

  /** The operation a tag byte selects on the peer. */
  datatype Kind = ConnectOp | ReconnectOp | EnrollBeginOp | CommitOp | CancelOp | IdentifyOp

  function KindOf(req: Request): Kind
  {
    match req
    case ConnectReq(_, _) => ConnectOp
    case ReconnectReq(_) => ReconnectOp
    case EnrollBeginReq => EnrollBeginOp
    case EnrollCommitReq(id) => if id.Some? then CommitOp else CancelOp
    case IdentifyReq(_) => IdentifyOp
  }

  /** The peer's reading of a tag byte. */
  function KindOfTag(t: Byte): Option<Kind>
  {
    if t == TagConnect then Some(ConnectOp)
    else if t == TagReconnect then Some(ReconnectOp)
    else if t == TagEnrollBegin then Some(EnrollBeginOp)
    else if t == TagCommit then Some(CommitOp)
    else if t == TagCancel then Some(CancelOp)
    else if t == TagIdentify then Some(IdentifyOp)
    else None
  }

  /** Total size of the payload fields a request carries. */
  function PayloadSize(req: Request): nat
  {
    match req
    case ConnectReq(rh, pkh) => |rh| + |pkh|
    case ReconnectReq(rh) => |rh|
    case EnrollBeginReq => 0
    case EnrollCommitReq(id) => if id.Some? then |id.value| else 0
    case IdentifyReq(nonce) => |nonce|
  }

  /** The outbound message `msg_out` a request is framed into. */
  function Encode(req: Request): (msg: Bytes)
    ensures |msg| == 1 + PayloadSize(req)
    ensures KindOfTag(msg[0]) == Some(KindOf(req))
  {
    match req
    case ConnectReq(rh, pkh) => [TagConnect] + rh + pkh
    case ReconnectReq(rh) => [TagReconnect] + rh
    case EnrollBeginReq => [TagEnrollBegin]
    case EnrollCommitReq(id) =>
      if id.Some? then [TagCommit] + id.value else [TagCancel]
    case IdentifyReq(nonce) => [TagIdentify] + nonce
  }

  /** The size of the reply the host reads back for a request (for Connect,
      only the header of the first phase). */
  function ExpectedReplySize(req: Request): (n: nat)
    ensures req.ConnectReq? ==> n == ClaimLayout.HeaderSize
    ensures req.ReconnectReq? ==> n == ClaimLayout.MacSize
    ensures req.EnrollBeginReq? ==> n == NonceSize
    ensures req.IdentifyReq? ==> n == IdSize + ClaimLayout.MacSize
    ensures req.EnrollCommitReq? ==> n == 0
  {
    match req
    case ConnectReq(_, _) => 34
    case ReconnectReq(_) => 32
    case EnrollBeginReq => 32
    case EnrollCommitReq(_) => 0
    case IdentifyReq(_) => 64
  }

  /** How the peer splits a request it receives: the tag selects the
      operation; a Connect payload is r_h (32 bytes) then pk_h; the other
      payloads are the whole remainder; E and G carry nothing. */
  function Parse(msg: Bytes): (r: Option<Request>)
    ensures r.Some? ==> |msg| >= 1 && KindOfTag(msg[0]) == Some(KindOf(r.value))
  {
    if |msg| == 0 then None
    else
      var t, rest := msg[0], msg[1..];
      if t == TagConnect then
        if |rest| >= HostNonceSize then Some(ConnectReq(rest[..HostNonceSize], rest[HostNonceSize..])) else None
      else if t == TagReconnect then Some(ReconnectReq(rest))
      else if t == TagEnrollBegin then (if rest == [] then Some(EnrollBeginReq) else None)
      else if t == TagCommit then Some(EnrollCommitReq(Some(rest)))
      else if t == TagCancel then (if rest == [] then Some(EnrollCommitReq(None)) else None)
      else if t == TagIdentify then Some(IdentifyReq(rest))
      else None
  }

  /** Requests whose payload the peer can split unambiguously: the driver
      itself never checks these sizes. */
  predicate WellFormed(req: Request)
  {
    req.ConnectReq? ==> |req.rh| == HostNonceSize
  }

  /** Framing round trip: the peer recovers every well-formed request. */
  lemma ParseEncode(req: Request)
    requires WellFormed(req)
    ensures Parse(Encode(req)) == Some(req)
  {
    var msg := Encode(req);
    match req
    case ConnectReq(rh, pkh) =>
      assert msg[1..] == rh + pkh;
      assert (rh + pkh)[..HostNonceSize] == rh;
      assert (rh + pkh)[HostNonceSize..] == pkh;
    case ReconnectReq(rh) =>
      assert msg[1..] == rh;
    case EnrollBeginReq =>
      assert msg[1..] == [];
    case EnrollCommitReq(id) =>
      assert msg[1..] == if id.Some? then id.value else [];
    case IdentifyReq(nonce) =>
      assert msg[1..] == nonce;
  }

  /** The converse: whatever the peer accepts is exactly the framing of the
      request it decodes, so no two requests share a message. */
  lemma EncodeParse(msg: Bytes)
    requires Parse(msg).Some?
    ensures WellFormed(Parse(msg).value)
    ensures Encode(Parse(msg).value) == msg
  {
    var t, rest := msg[0], msg[1..];
    assert msg == [t] + rest;
    var req := Parse(msg).value;
    if t == TagConnect {
      assert req == ConnectReq(rest[..HostNonceSize], rest[HostNonceSize..]);
      assert rest == rest[..HostNonceSize] + rest[HostNonceSize..];
    } else if t == TagReconnect {
      assert req == ReconnectReq(rest);
    } else if t == TagEnrollBegin {
      assert req == EnrollBeginReq && rest == [];
    } else if t == TagCommit {
      assert req == EnrollCommitReq(Some(rest));
    } else if t == TagCancel {
      assert req == EnrollCommitReq(None) && rest == [];
    } else {
      assert req == IdentifyReq(rest);
    }
  }

  /** Framing is injective on well-formed requests. */
  lemma EncodeInjective(a: Request, b: Request)
    requires WellFormed(a) && WellFormed(b)
    requires Encode(a) == Encode(b)
    ensures a == b
  {
    ParseEncode(a);
    ParseEncode(b);
  }
}
