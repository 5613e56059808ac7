/** The Connect reply: a 34-byte header (r_d, then the 16-bit cert_size)
    followed by the claim fields and a trailing MAC, with no delimiters. */
module ClaimLayout {
  import opened Common

  const RdSize: nat := 32
  const CertSizeOffset: nat := 32
  const HeaderSize: nat := 34
  const PubKeySize: nat := 65
  const HashSize: nat := 32
  const SignatureSize: nat := 64
  const MacSize: nat := 32

  /** Size of every part of the reply except the device certificate. */
  const FixedSize: nat := HeaderSize + 2 * PubKeySize + HashSize + 2 * SignatureSize + MacSize

  /** The authentication claim handed to the verification collaborator. */
  datatype Claim = Claim(certM: Bytes, pkD: Bytes, pkF: Bytes, hF: Bytes, sM: Bytes, sD: Bytes)

  /** What a successful Connect surfaces: r_d, the claim and the MAC. */
  datatype ConnectReply = ConnectReply(rd: Bytes, claim: Claim, mac: Bytes)

  /** Field sizes a peer must respect for its reply to be framed. */
  predicate WellSized(r: ConnectReply)
  {
    && |r.rd| == RdSize
    && |r.claim.certM| < U16Bound
    && |r.claim.pkD| == PubKeySize
    && |r.claim.pkF| == PubKeySize
    && |r.claim.hF| == HashSize
    && |r.claim.sM| == SignatureSize
    && |r.claim.sD| == SignatureSize
    && |r.mac| == MacSize
  }

  /** `cert_size`, taken from bytes 32..33 of the header. The driver copies
      the two bytes in host order; this model fixes little-endian. */
  function CertSize(header: Bytes): (cs: nat)
    requires |header| >= HeaderSize
    ensures cs < U16Bound
    ensures Le16(cs) == header[CertSizeOffset..HeaderSize]
  {
    Le16OfLe16At(header, CertSizeOffset);
    Le16At(header, CertSizeOffset)
  }

  /** Total reply size announced by a header carrying `cs`. */
  function ReplySize(cs: nat): (n: nat)
    ensures n == 356 + cs
    ensures n - HeaderSize == cs + 322
  {
    FixedSize + cs
  }

  /** Size of the second Connect read: what the announced reply holds
      beyond the header already read. */
  function RestSize(cs: nat): (n: nat)
    ensures HeaderSize + n == ReplySize(cs)
  {
    ReplySize(cs) - HeaderSize
  }

  /** The buffer length the driver asserts before slicing. */
  predicate Framed(buf: Bytes)
  {
    |buf| >= HeaderSize && |buf| == ReplySize(CertSize(buf))
  }

  /** The fields laid end to end, with the cert_size bytes between r_d and cert_m. */
  function Concat(r: ConnectReply, sizeField: Bytes): Bytes
  {
    r.rd + sizeField + r.claim.certM + r.claim.pkD + r.claim.pkF
      + r.claim.hF + r.claim.sM + r.claim.sD + r.mac
  }

  /** The reply a peer sends for the given fields. */
  function Assemble(r: ConnectReply): (buf: Bytes)
    requires WellSized(r)
    ensures Framed(buf)
    ensures CertSize(buf) == |r.claim.certM|
  {
    var buf := Concat(r, Le16(|r.claim.certM|));
    assert buf[..HeaderSize] == r.rd + Le16(|r.claim.certM|);
    assert buf[CertSizeOffset..HeaderSize] == Le16(|r.claim.certM|);
    buf
  }

  /** Slices a framed buffer into r_d, the claim fields and the MAC, each a
      contiguous copy of the buffer. */
  function Slice(buf: Bytes): (r: ConnectReply)
    requires Framed(buf)
    ensures WellSized(r)
    ensures |r.claim.certM| == CertSize(buf)
    ensures Concat(r, buf[CertSizeOffset..HeaderSize]) == buf
  {
    var cs := CertSize(buf);
    var certEnd := HeaderSize + cs;
    var pkDEnd := certEnd + PubKeySize;
    var pkFEnd := pkDEnd + PubKeySize;
    var hFEnd := pkFEnd + HashSize;
    var sMEnd := hFEnd + SignatureSize;
    var sDEnd := sMEnd + SignatureSize;
    var claim := Claim(buf[HeaderSize..certEnd], buf[certEnd..pkDEnd], buf[pkDEnd..pkFEnd],
                       buf[pkFEnd..hFEnd], buf[hFEnd..sMEnd], buf[sMEnd..sDEnd]);
    var r := ConnectReply(buf[..RdSize], claim, buf[sDEnd..sDEnd + MacSize]);
    SliceConcat(buf, cs, r);
    r
  }

  /** Consecutive slices of a buffer put back together give the buffer. */
  lemma SliceConcat(buf: Bytes, cs: nat, r: ConnectReply)
    requires |buf| == 356 + cs
    requires r.rd == buf[0..32]
    requires r.claim.certM == buf[34 .. 34 + cs]
    requires r.claim.pkD == buf[34 + cs .. 99 + cs]
    requires r.claim.pkF == buf[99 + cs .. 164 + cs]
    requires r.claim.hF == buf[164 + cs .. 196 + cs]
    requires r.claim.sM == buf[196 + cs .. 260 + cs]
    requires r.claim.sD == buf[260 + cs .. 324 + cs]
    requires r.mac == buf[324 + cs .. 356 + cs]
    ensures Concat(r, buf[32..34]) == buf
  {
    assert buf[0..32] + buf[32..34] == buf[..34];
    assert buf[..34] + buf[34 .. 34 + cs] == buf[..34 + cs];
    assert buf[..34 + cs] + buf[34 + cs .. 99 + cs] == buf[..99 + cs];
    assert buf[..99 + cs] + buf[99 + cs .. 164 + cs] == buf[..164 + cs];
    assert buf[..164 + cs] + buf[164 + cs .. 196 + cs] == buf[..196 + cs];
    assert buf[..196 + cs] + buf[196 + cs .. 260 + cs] == buf[..260 + cs];
    assert buf[..260 + cs] + buf[260 + cs .. 324 + cs] == buf[..324 + cs];
    assert buf[..324 + cs] + buf[324 + cs .. 356 + cs] == buf;
  }

  /** Where each field lies in a framed buffer of certificate size cs: the
      fields are contiguous, in order, and the MAC ends at the buffer end. */
  lemma SliceOffsets(buf: Bytes)
    requires Framed(buf)
    ensures var cs, r := CertSize(buf), Slice(buf);
      && r.rd == buf[0..32]
      && r.claim.certM == buf[34 .. 34 + cs]
      && r.claim.pkD == buf[34 + cs .. 99 + cs]
      && r.claim.pkF == buf[99 + cs .. 164 + cs]
      && r.claim.hF == buf[164 + cs .. 196 + cs]
      && r.claim.sM == buf[196 + cs .. 260 + cs]
      && r.claim.sD == buf[260 + cs .. 324 + cs]
      && r.mac == buf[324 + cs .. |buf|]
  {
  }

  /** Decoding a reply the peer built from given fields recovers those fields. */
  lemma SliceAssemble(r: ConnectReply)
    requires WellSized(r)
    ensures Slice(Assemble(r)) == r
  {
    var buf := Assemble(r);
    var cs := |r.claim.certM|;
    var s := Slice(buf);
    SliceOffsets(buf);
    var p1 := r.rd + Le16(cs);
    var p2 := p1 + r.claim.certM;
    var p3 := p2 + r.claim.pkD;
    var p4 := p3 + r.claim.pkF;
    var p5 := p4 + r.claim.hF;
    var p6 := p5 + r.claim.sM;
    var p7 := p6 + r.claim.sD;
    assert buf == p7 + r.mac;
    PrefixOfConcat(p7, r.mac);
    PrefixOfConcat(p6, r.claim.sD);
    PrefixOfConcat(p5, r.claim.sM);
    PrefixOfConcat(p4, r.claim.hF);
    PrefixOfConcat(p3, r.claim.pkF);
    PrefixOfConcat(p2, r.claim.pkD);
    PrefixOfConcat(p1, r.claim.certM);
    PrefixOfConcat(r.rd, Le16(cs));
    assert buf[..|p7|] == p7;
    assert buf[..|p6|] == p6 by { assert buf[..|p6|] == p7[..|p6|]; }
    assert buf[..|p5|] == p5 by { assert buf[..|p5|] == p6[..|p5|]; }
    assert buf[..|p4|] == p4 by { assert buf[..|p4|] == p5[..|p4|]; }
    assert buf[..|p3|] == p3 by { assert buf[..|p3|] == p4[..|p3|]; }
    assert buf[..|p2|] == p2 by { assert buf[..|p2|] == p3[..|p2|]; }
    assert buf[..|p1|] == p1 by { assert buf[..|p1|] == p2[..|p1|]; }
    assert s.mac == r.mac;
    assert s.claim.sD == r.claim.sD by { assert buf[|p6|..|p7|] == p7[|p6|..]; }
    assert s.claim.sM == r.claim.sM by { assert buf[|p5|..|p6|] == p6[|p5|..]; }
    assert s.claim.hF == r.claim.hF by { assert buf[|p4|..|p5|] == p5[|p4|..]; }
    assert s.claim.pkF == r.claim.pkF by { assert buf[|p3|..|p4|] == p4[|p3|..]; }
    assert s.claim.pkD == r.claim.pkD by { assert buf[|p2|..|p3|] == p3[|p2|..]; }
    assert s.claim.certM == r.claim.certM by { assert buf[|p1|..|p2|] == p2[|p1|..]; }
    assert s.rd == r.rd by { assert buf[0..32] == p1[..32]; }
  }

  /** The two halves of a concatenation. */
  lemma PrefixOfConcat(a: Bytes, b: Bytes)
    ensures (a + b)[..|a|] == a && (a + b)[|a|..] == b
  {
  }

  /** Every framed buffer is the reply of the fields sliced out of it. */
  lemma AssembleSlice(buf: Bytes)
    requires Framed(buf)
    ensures Assemble(Slice(buf)) == buf
  {
  }
}
