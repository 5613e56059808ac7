# Virtual SDCP driver: protocol engine model

This project models the host side of the Secure Device Connection Protocol
(SDCP) conversation that libfprint's `virtual-sdcp` driver holds with a test
peer over the peer's standard input and output. It covers three parts:

- **Outbound framing** (`Messages`). Each operation sends one tag byte
  followed by its payload: `C`‖r_h‖pk_h, `R`‖r_h, `E`, `I`‖nonce, and
  `F`‖id or `G` for enroll commit or cancel. The driver checks no payload
  size. A peer-side parser is the inverse of the framing.
- **The send/receive exchange** (`Exchange`). It writes all of `msg_out`,
  then reads exactly `msg_in.len` bytes. A short read or EOF without an I/O
  error becomes a PROTO error.
- **Reply decoding and completion calls** (`ClaimLayout`, `Operations`).
  - Connect has two phases. It reads a 34-byte header, takes `cert_size`
    from bytes 32–33, and reads `cert_size + 322` more bytes. It then slices
    the 356 + `cert_size` byte buffer into r_d, the claim fields and the MAC.
  - Identify splits its 64-byte reply into id and MAC.
  - Reconnect and EnrollBegin hand over the whole reply.

The channel is a script of outcomes:

- `writeOutcomes` is a sequence of `WriteOk` or `WriteFailed(e)`.
- `readOutcomes` is a sequence of `ReadData(bytes)` or `ReadFailed(e)`.
- `sent` records the messages the peer received.

An exhausted write script fails with `PeerGone`. An exhausted read script is
end of stream. Each read consumes one outcome. `ReadData(d)` is the bytes that
this one read obtains, cut to the requested count: a read of n bytes obtains
the first min(n, |d|) bytes of `d`. Inbound traffic is therefore a sequence
of per-read chunks, not one byte stream.

The driver's fields `msg_out`, `msg_in` and `connect_msg` form the `Driver`
record. Each operation is a pure function from (driver, channel) to
(driver, channel, the calls made into the SDCP device collaborator, in
order). `Session.RunAll` runs requests one after another over one channel.

`cert_size` is copied from the header in host byte order. This model fixes
it as little-endian, `b[32] + 256 * b[33]`, which is what the driver reads on
little-endian hosts.

Two behaviours of the code are easy to misread:

- The driver's comments say commit and cancel get no reply. The code still
  runs the read step, with an expected reply of 0 bytes. Any `ReadData`
  outcome, including end of stream, therefore matches. A `ReadFailed`
  outcome, such as a cancelled read, fails the commit. A failed commit is
  reported through `enroll_ready`, not through `enroll_commit_complete`.
- The Connect length check is an assertion, not a recoverable error. It is
  the precondition of `Operations.ConnectClaimDone`, and
  `Operations.ConnectRest` proves that the exchange establishes it.

## Model

| member | source | states |
|---|---|---|
| Messages.Encode | libfprint/drivers/virtual-sdcp.c:377-575 | an outbound message is 1 + payload sizes long and its first byte is the tag of its operation |
| Messages.ParseEncode | libfprint/drivers/virtual-sdcp.c:377-575 | a peer splitting tag and payload recovers every request with a 32-byte r_h, including commit `F`‖id versus cancel `G` |
| Messages.EncodeParse | libfprint/drivers/virtual-sdcp.c:377-575 | every message the peer accepts is exactly the framing of the request it decodes |
| Messages.EncodeInjective | libfprint/drivers/virtual-sdcp.c:377-575 | no two well-formed requests are framed into the same bytes |
| Messages.ExpectedReplySize | libfprint/drivers/virtual-sdcp.c:386-579 | the read size is the Connect header (34), a MAC (32), a nonce (32), id and MAC (64), or 0 for commit/cancel |
| ClaimLayout.CertSize | libfprint/drivers/virtual-sdcp.c:350 | cert_size is a 16-bit value whose little-endian encoding is header bytes 32..33 |
| ClaimLayout.ReplySize | libfprint/drivers/virtual-sdcp.c:312 | a header announcing cs certificate bytes frames a reply of 356 + cs bytes, of which cs + 322 follow the 34-byte header |
| ClaimLayout.RestSize | libfprint/drivers/virtual-sdcp.c:355 | the second Connect read asks for exactly the bytes of the announced reply that the header does not hold |
| ClaimLayout.Assemble | libfprint/drivers/virtual-sdcp.c:312 | a reply built from correctly sized fields passes the driver's total-length assertion and announces its certificate size |
| ClaimLayout.Slice | libfprint/drivers/virtual-sdcp.c:315-323 | the sliced fields have their fixed sizes, cert_m has cert_size bytes, and r_d ‖ size bytes ‖ cert_m ‖ pk_d ‖ pk_f ‖ h_f ‖ s_m ‖ s_d ‖ mac is the buffer |
| ClaimLayout.SliceOffsets | libfprint/drivers/virtual-sdcp.c:316-323 | fields lie at offsets 0, 34, 34+cs, 99+cs, 164+cs, 196+cs, 260+cs and 324+cs, and the MAC ends at the buffer end |
| ClaimLayout.SliceAssemble | libfprint/drivers/virtual-sdcp.c:313-323 | slicing a reply built from given fields recovers those fields |
| ClaimLayout.AssembleSlice | libfprint/drivers/virtual-sdcp.c:312-323 | every buffer that passes the length assertion is the reply of the fields sliced from it |
| Exchange.Written | libfprint/drivers/virtual-sdcp.c:204-224 | `msg_out` is released whatever the outcome; a failed write fails with its I/O error and leaves `msg_in` set |
| Exchange.Received | libfprint/drivers/virtual-sdcp.c:226-253 | the read succeeds iff it obtains the full expected count; a short read or EOF without error is PROTO; on failure `msg_in` is released |
| Exchange.SendRecv | libfprint/drivers/virtual-sdcp.c:261-288 | the exchange succeeds iff the write succeeds and the read delivers the expected count; the peer then has received `msg_out` |
| Operations.Start | libfprint/drivers/virtual-sdcp.c:377-579 | every builder sizes `msg_in` for its reply and leaves `connect_msg` alone, and the peer decodes the `msg_out` it builds back into exactly the request, for every well-formed request |
| Operations.ConnectFirst | libfprint/drivers/virtual-sdcp.c:362-391 | phase one sends C ‖ r_h ‖ pk_h and goes on iff a 34-byte header arrives; a failed write, short read or failed read completes Connect with that I/O error or PROTO and nothing else |
| Operations.ConnectHeaderDone | libfprint/drivers/virtual-sdcp.c:335-360 | on error Connect completes with the error alone; otherwise the header becomes `connect_msg` and cert_size + 322 bytes are requested with an empty message |
| Operations.ConnectClaimDone | libfprint/drivers/virtual-sdcp.c:290-333 | on error one failing `connect_complete`; on success the CAs are set and then one successful `connect_complete` whose fields reassemble to header ‖ rest; `connect_msg` is cleared either way |
| Operations.ConnectRest | libfprint/drivers/virtual-sdcp.c:352-359 | phase two sends the empty message and, when it reads cert_size + 322 bytes, the buffer meets the length assertion; a short read is PROTO and a failed read or write is its I/O error |
| Operations.Connect | libfprint/drivers/virtual-sdcp.c:362-391 | one completion call; success iff both exchanges deliver; CAs set iff success; no partial claim on failure; in either phase a short read is PROTO and a failed write or read is its own I/O error; `connect_msg` is NULL afterwards |
| Operations.ReconnectDone | libfprint/drivers/virtual-sdcp.c:393-408 | the whole reply is the MAC; on error the MAC is absent |
| Operations.Reconnect | libfprint/drivers/virtual-sdcp.c:410-434 | one `reconnect_complete`; success iff the write goes through and 32 bytes arrive, which are the MAC; a short read is PROTO, a failed write or read its I/O error |
| Operations.EnrollBeginDone | libfprint/drivers/virtual-sdcp.c:436-457 | on success the reply is the nonce, then one progress step, then `enroll_ready` with no error |
| Operations.EnrollBegin | libfprint/drivers/virtual-sdcp.c:459-481 | `enroll_ready` is the single completion; success iff a 32-byte nonce arrives; a short read is PROTO, a failed write or read its I/O error |
| Operations.EnrollCommitDone | libfprint/drivers/virtual-sdcp.c:483-500 | `msg_in` is always released; failure goes to `enroll_ready`, success to `enroll_commit_complete` |
| Operations.EnrollCommit | libfprint/drivers/virtual-sdcp.c:502-537 | commit/cancel succeeds iff the write succeeds and the zero-byte read does not fail, whatever the peer sends |
| Operations.IdentifyDone | libfprint/drivers/virtual-sdcp.c:539-558 | the reply splits into a 32-byte id and a 32-byte MAC whose concatenation is the reply |
| Operations.Identify | libfprint/drivers/virtual-sdcp.c:560-583 | one `identify_complete`; success iff 64 bytes arrive; id ‖ mac is the reply; nothing on error; a short read is PROTO, a failed write or read its I/O error |
| Session.Run | libfprint/drivers/virtual-sdcp.c:669-675 | every operation completes exactly once, clears `msg_out`, sends its framed request first, reports PROTO for a short reply and the I/O error for a failed write or a failed read, in the first exchange and, for Connect, in the second as well |
| Session.RunAll | libfprint/drivers/virtual-sdcp.c:372-373 | over any session `connect_msg` is NULL whenever an operation starts, so Connect's assertion always holds; n requests make exactly n completion calls, failed operations included |
| Session.ConnectRecoversPeerReply | libfprint/drivers/virtual-sdcp.c:308-332 | a peer answering with the reply built from given fields makes Connect surface exactly those fields after setting the CAs |
| Session.IdentifyRecoversPeerReply | libfprint/drivers/virtual-sdcp.c:553-557 | an Identify reply id ‖ mac is handed back as exactly that id and MAC |

## Left out

- Certificate blobs `ca_1` and `ca_2` (lines 63-201) are opaque constants that are only passed through. They appear as the tokens `Ca1` and `Ca2`.
- Subprocess launch in `probe`, the forced kill in `finalize`, GObject class registration, `dev_close` and `driver_ids` are left out. They are process I/O and framework plumbing.
- GLib asynchronous streams, the event loop and cancellables are replaced by the scripted channel. A cancelled transfer is a failing outcome with `IoCancelled`. No concurrency is modelled.
- A write either transfers the whole message or fails. Partial writes before an error are not modelled.
- Cryptographic checking and the internals of the SDCP device collaborator are not visible here. Its calls are recorded as `Event` values. The values from `get_connect_data` and `get_identify_data` are parameters of the operations.
- `enroll_begin` and `enroll_commit` call `get_reconnect_data` and never use the result. That call is not modelled.
- The `g_assert (self->proc)` checks are not modelled, because the channel always exists here.
- Memory ownership is abstracted. After a failed write, `msg_in` stays set in the model. The next operation overwrites it, where the driver leaks the old buffer.
- Bytes a read does not ask for are not carried over to the next read. Each read consumes one scripted outcome and drops what lies beyond its count. A peer that sends more than was requested, such as a reply to commit or cancel, therefore does not shift the bytes of later operations in the model, whereas on the real pipe it would. A Connect reply sent in one piece must likewise be scripted as two outcomes, header and rest.
- Messages.WellFormed: the 32-byte r_h that a peer needs to split a Connect request is the peer's assumption. The driver checks no payload size, so `Encode` takes payloads of any size.
