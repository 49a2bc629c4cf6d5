# rtp2http transport layer in Dafny

rtp2http relays a multicast UDP media feed to HTTP clients. Its transport layer
(`transport.go`) reads datagrams into reusable `Packet` buffers. It classifies the
first datagram of a session as raw MPEG transport stream or as RTP. In RTP mode it
strips the RTP header from every datagram by moving the packet's window of valid
bytes, `[off, len)`, and it passes on only the packets that still have a non-empty
window.

The model has three modules.

- `RtpHeader` (`rtp_header.dfy`) decodes the RTP fixed header of RFC 3550
  section 5.1 with division and remainder: version, padding bit, extension bit,
  CSRC count, marker bit and payload type. It also defines the window that the
  stripper computes, as values (`PayloadStart`, `PayloadEnd`, `Strip` on a
  `Datagram`). `Rfc3550PayloadStart` is a reference payload offset that follows
  RFC 3550 sections 5.1 and 5.3.1 and skips the 4-byte MPEG-specific header of
  RFC 2250 sections 3.4 and 3.5. It does not skip the further 4-byte MPEG-2
  extension of RFC 2250 section 3.4.1, which a video packet carries when its T bit
  is set. Two lemmas compare the stripper with it.
- `Transport` (`transport.dfy`) is the `Packet` class. It has a `bv8` array `data`
  and the `int` fields `off` and `len`. `GetByte`, `GetUint16` and `Check` are
  functions written with the Go code's masks and shifts. `StripRtp` is a method that
  rewrites `off` and `len` in place. `WriteTo` returns the window's bytes, and the
  module-level `Release` resets the window. The contracts of `Check` and
  `StripRtp` are stated in the arithmetic fields of `RtpHeader`; `MaskedFields`
  proves that the Go masks select those fields.
- `Transfer` (`transfer.dfy`) models the sequential part of `transferRtp`.
  `TransferRtp` is a pure function over the datagrams read so far: it strips every
  one (`StripAll`) and keeps those with a non-empty window (`Forwarded`).
  `SentIndices` gives the arrival positions of the packets that are sent. `RelayRtp`
  is the loop itself: it runs over `Packet` objects, calls `StripRtp` on each
  (`StripAt`), and is proved to send exactly what `TransferRtp` describes.

### Where the code differs from the RFCs

The model follows the code in every case below.

- No sequence number is read: the line that would read it is commented out. No
  reorder buffer exists. `transferRtp` forwards packets in arrival order and drops
  every packet whose stripped window is empty. The code reads no sequence number
  and keeps no reorder buffer, so neither is modelled.
- When the extension bit is set, the code adds `4 + exlen` bytes. RFC 3550 counts
  the length in 32-bit words, which gives `4 + 4 * exlen`. The code also reads
  `exlen` at bytes 14-15 whatever the CSRC count is, but RFC 3550 places the
  extension after the CSRC list.
  `RtpHeader.ExtensionUndercount` gives the size of the gap.
- The 4-byte MPEG payload header is added only when the whole of byte 1 equals
  0x20 or 0x0E. The marker bit is not masked off. So an MPEG video or audio packet
  with the marker bit set keeps the 4-byte header in its window.
  `RtpHeader.AgreesWithRfc3550WithoutExtension` proves that this is the only
  difference from the reference when there is no extension. The reference leaves
  out the MPEG-2 extension of RFC 2250 section 3.4.1, so this is a statement about
  the 4-byte header only. `check` does mask byte 1 with 0x7F.

## Model

| member | source | states |
|---|---|---|
| `Transport.Packet.constructor` | transport.go:153 | a new packet has a fresh zeroed buffer of `packetMTU` (1500) bytes and the empty window 0..0 |
| `Transport.Packet.GetByte` | transport.go:34-36 | the result lies in 0..255 and equals `data[offset]`; the `& 0xFF` mask changes nothing |
| `Transport.Packet.GetUint16` | transport.go:38-40 | the Go expression is the big-endian value `data[o]*256 + data[o+1]`, that is `GetByte(o)*256 + GetByte(o+1)` |
| `Transport.BigEndian16` | transport.go:39 | for any two bytes, a bitwise OR of the low byte with the high byte shifted left by 8 gives `hi*256 + lo` |
| `Transport.MaskedFields` | transport.go:58-73 | `(b & 0xC0) >> 6`, `b & 0x20`, `b & 0x10`, `b & 0x0F` and `b & 0x7F` are the RFC 3550 version, padding bit, extension bit, CSRC count and payload type of a byte; `check` relies on the same masks at transport.go:110 and 114 |
| `Transport.Packet.Check` | transport.go:99-122 | the result is the length error (carrying `len`) exactly when `len < 12`, before any byte is read; it is raw (false, no error) exactly when `len >= 12` and byte 0 is 0x47, which is tested before the version; it is RTP (true, no error) exactly when `len >= 12`, byte 0 is not 0x47, the version is 2 and the payload type (byte 1 without the marker) is 0x21, 0x20 or 0x0E; the version error is returned exactly when `len >= 12`, byte 0 is not 0x47 and the version is not 2, and it carries the version; the profile error carries the payload type and is returned in all remaining cases |
| `Transport.Packet.StripRtp` | transport.go:47-77 | `off` becomes 12, plus 4 when the unmasked byte 1 is 0x20 or 0x0E, plus `4 + exlen` when the extension bit is set, where `exlen` is the big-endian value of bytes 14-15, plus 4 times the CSRC count; `len` drops by the value of byte `len-1` exactly when the padding bit is set; the buffer object and its bytes are unchanged; the result is `off < len` |
| `Transport.Packet.WriteTo` | transport.go:42-45 | the bytes handed to the writer are exactly `data[off..len]`, and there are `len - off` of them |
| `Transport.Release` | transport.go:168-172 | `off` and `len` become 0; the packet keeps the same buffer and the buffer's bytes are unchanged |
| `RtpHeader.PayloadStartBounds` | transport.go:51-71 | the stripped payload starts between 12 and 12 + 4 + (4 + 65535) + 60; it starts at exactly 12 exactly when there is no MPEG header, no extension and no CSRC; an MPEG profile with no extension and no CSRC starts at 16 |
| `RtpHeader.PayloadEndBounds` | transport.go:72-74 | padding removes between 0 and 255 bytes from the end of the window, and removes none exactly when the padding bit is clear or the last byte is 0 |
| `RtpHeader.AgreesWithRfc3550WithoutExtension` | transport.go:48-56 | with no extension, the stripper never skips more than the reference (RFC 3550, and the 4-byte header of RFC 2250 without the section 3.4.1 extension); it agrees with the reference exactly when it is not the case that the marker bit is set on an MPEG video or audio packet |
| `RtpHeader.ExtensionUndercount` | transport.go:59-63 | with an extension and no CSRC list, the stripper's offset falls short of the RFC 3550 offset by 3 bytes per 32-bit extension word, plus 4 bytes when the marker bit hides an MPEG header |
| `Transfer.TransferRtp` | transport.go:195-211 | what has been sent once `ds` is read, defined as `Forwarded(StripAll(ds))`: no more packets than were read, each with a non-empty window; `TransferRtpInArrivalOrder` describes it in full |
| `Transfer.StripAll` | transport.go:196-201 | every packet read is stripped: there is one result per packet read, and the k-th result is `Strip` of the k-th packet read |
| `Transfer.Forwarded` | transport.go:201-206 | of the stripped packets, no more are sent than were read, and every packet sent has a non-empty window |
| `Transfer.SentIndices` | transport.go:201-206 | the arrival positions of the sent packets are increasing, and each is a position whose stripped window is non-empty |
| `Transfer.SentIndicesComplete` | transport.go:201-202 | no stripped packet with a non-empty window is skipped: its position is among the sent positions |
| `Transfer.ForwardedInOrder` | transport.go:201-206 | the k-th packet sent is the stripped packet at the k-th sent position, and as many packets are sent as there are sent positions |
| `Transfer.TransferRtpInArrivalOrder` | transport.go:195-211 | the k-th packet sent is the stripped form of the packet read at the k-th sent position: exactly the packets with a non-empty window are sent, in arrival order |
| `Transfer.ForwardedOnlyAppends` | transport.go:195-206 | the packets sent after the first n stripped packets are a prefix of those sent after all of them |
| `Transfer.TransferRtpOnlyAppends` | transport.go:195-211 | what is sent after reading some packets is a prefix of what is sent after reading more of them |
| `Transfer.StripAt` | transport.go:201 | one turn of the loop strips packet i in place, changes no other packet and keeps every packet's buffer object; the result is true exactly when the stripped value of packet i has a non-empty window |
| `Transfer.RelayRtp` | transport.go:195-211 | the loop strips each packet in place and sends it when `StripRtp` returns true; the packets it sends, seen as values, are exactly `TransferRtp` of the packets as they were read; they are the very objects read, at the sent positions and in order (`ch <- pkt` sends the packet it read); and every packet read, sent or dropped, ends up stripped in place in the same buffer object it was read into |

## Left out

- `newTransport`, `readPacket` and `Close` (transport.go:80-96, 150-166, 214-216): interface lookup, multicast join, socket reads and socket close are network I/O. `RelayRtp` takes the packets already read as a sequence instead.
- `sync.Pool`: `Get` and `Put` are a foreign library with unspecified reuse. `Release` models only the window reset.
- `start` (transport.go:125-148): it reads and checks the first packet, creates the channel and starts a goroutine. Those are socket reads, channel operations and concurrency. Note that `start` strips the first RTP packet without looking at `stripRtp`'s result, and it sends that packet even when its window is empty or inverted. When the window is inverted, writing that packet out panics at the slice in `writeTo` (see the `Transport.Packet.WriteTo` line below). This model does not cover that.
- `transferRaw` (transport.go:174-190): it passes every read packet to the channel unchanged and computes nothing.
- Context cancellation, channel capacity and blocking sends in `transferRtp`: these are concurrency. `RelayRtp` runs until its input is exhausted, which stands for the read error that ends the Go loop.
- `log.Printf` calls: these only write log output.
- Sequence numbers and reordering: the code has no such logic (see above).
- `web.go` and `main.go`: HTTP routing, flag parsing and signal handling are outside the transport layer.
- Go's 64-bit `int`: the model uses unbounded integers. No value in this code comes near 2^63, so nothing wraps around.
- Transport.Packet.WriteTo: models the writer as a sink that accepts every byte; a writer error or a short write is not modelled.
- Transport.Packet.WriteTo: requires `off <= len`, so it does not cover an inverted window, where the Go slice `p.data[p.off:p.len]` (transport.go:43) panics. The code can produce one: `start` strips the first RTP packet and sends it without looking at the result (transport.go:137-140). For example, a 12-byte first packet with byte 0 = 0x80 and byte 1 = 0x20 passes `check` and strips to `off` 16 and `len` 12. Padding can also drive `len` below zero.
- Transfer.RelayRtp: requires the packets it is given to be distinct objects. In normal operation the pool hands a released buffer out again for a later read, so a real sequence of reads can return the same object more than once; that reuse is not modelled.
- Transport.Packet.StripRtp: requires `Strippable`, which excludes a case where the Go code panics. A pooled buffer is not cleared, so a zero-length datagram has `len = 0` while byte 0 may be left over from an earlier packet. When that byte has the padding bit set, `stripRtp` reads `data[len - 1]`, which is `data[-1]` (transport.go:73). That is an index panic in the goroutine, and it ends the process. The model does not cover the crash.
- Transfer.RelayRtp: requires every packet read to be `Strippable`, so it does not cover the same index panic for a zero-length datagram arriving in a buffer whose stale byte 0 has the padding bit set.
