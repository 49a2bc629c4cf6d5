/** The RTP fixed header of RFC 3550 section 5.1, decoded arithmetically, and the
    payload window that rtp2http's header stripper computes from it.

    Byte 0 holds V(2 bits) P(1) X(1) CC(4); byte 1 holds M(1) PT(7). The functions
    below read those fields with division and remainder, so they serve as an
    independent statement of what the bit masks in transport.go select. */
module RtpHeader {

  const HeaderSize: int := 12        // rtpHeaderSize: the fixed RTP header
  const PacketMtu: int := 1500       // packetMTU: capacity of every packet buffer
  const SyncByte: bv8 := 0x47        // first byte of every MPEG transport-stream packet

  const ProfileMpegTs: int := 0x21     // payload type 33, MP2T
  const ProfileMpegVideo: int := 0x20  // payload type 32, MPV
  const ProfileMpegAudio: int := 0x0E  // payload type 14, MPA

  const MaxExtensionLength: int := 0xFFFF
  const MaxCsrcCount: int := 15

  function Version(b0: bv8): int { b0 as int / 64 }
  predicate Padding(b0: bv8) { b0 as int / 32 % 2 == 1 }
  predicate Extension(b0: bv8) { b0 as int / 16 % 2 == 1 }
  function CsrcCount(b0: bv8): int { b0 as int % 16 }

  predicate Marker(b1: bv8) { b1 as int >= 128 }
  function PayloadType(b1: bv8): int { b1 as int % 128 }

  /** The three payload profiles the relay accepts. */
  predicate SupportedProfile(pt: int) {
    pt == ProfileMpegTs || pt == ProfileMpegVideo || pt == ProfileMpegAudio
  }

  /** The two profiles that carry the 4-byte MPEG-specific header of RFC 2250
      sections 3.4 and 3.5. */
  predicate MpegProfile(pt: int) {
    pt == ProfileMpegVideo || pt == ProfileMpegAudio
  }

  /** A packet as a value: its buffer, and the window [off, len) of valid bytes. */
  datatype Datagram = Datagram(bytes: seq<bv8>, off: int, len: int)

  /** What the stripper needs to stay inside the buffer: bytes 0 and 1 always,
      bytes 14-15 when the extension bit is set, byte len-1 when the padding bit is set. */
  predicate Strippable(d: Datagram) {
    && |d.bytes| >= 2
    && (Extension(d.bytes[0]) ==> |d.bytes| >= HeaderSize + 4)
    && (Padding(d.bytes[0]) ==> 1 <= d.len <= |d.bytes|)
  }

  /** 4 when the whole of byte 1 (marker bit included) names an MPEG video or audio profile. */
  function MpegHeaderSize(b1: bv8): int {
    if MpegProfile(b1 as int) then 4 else 0
  }

  /** The 16-bit big-endian length field read right after the fixed header. */
  function ExtensionLength(bytes: seq<bv8>): int
    requires |bytes| >= HeaderSize + 4
  {
    bytes[HeaderSize + 2] as int * 256 + bytes[HeaderSize + 3] as int
  }

  /** The code counts the extension length field in bytes, after a 4-byte extension header. */
  function ExtensionSize(bytes: seq<bv8>): int
    requires |bytes| >= 2 && (Extension(bytes[0]) ==> |bytes| >= HeaderSize + 4)
  {
    if Extension(bytes[0]) then 4 + ExtensionLength(bytes) else 0
  }

  function CsrcListSize(b0: bv8): int { 4 * CsrcCount(b0) }

  /** Where the stripped payload starts. */
  function PayloadStart(bytes: seq<bv8>): int
    requires |bytes| >= 2 && (Extension(bytes[0]) ==> |bytes| >= HeaderSize + 4)
  {
    HeaderSize + MpegHeaderSize(bytes[1]) + ExtensionSize(bytes) + CsrcListSize(bytes[0])
  }

  /** The padding count is the last byte of the window. */
  function PaddingSize(bytes: seq<bv8>, len: int): int
    requires |bytes| >= 1 && (Padding(bytes[0]) ==> 1 <= len <= |bytes|)
  {
    if Padding(bytes[0]) then bytes[len - 1] as int else 0
  }

  /** Where the stripped payload ends. */
  function PayloadEnd(bytes: seq<bv8>, len: int): int
    requires |bytes| >= 1 && (Padding(bytes[0]) ==> 1 <= len <= |bytes|)
  {
    len - PaddingSize(bytes, len)
  }

  /** The datagram after header stripping: same bytes, new window. */
  function Strip(d: Datagram): Datagram
    requires Strippable(d)
  {
    Datagram(d.bytes, PayloadStart(d.bytes), PayloadEnd(d.bytes, d.len))
  }

  predicate HasPayload(d: Datagram) { d.off < d.len }

  /** The stripped payload never starts inside the fixed header, skips at most
      4 + (4 + 65535) + 60 further bytes, and starts right after the fixed header
      exactly when there is no MPEG header, no extension and no CSRC. */
  lemma PayloadStartBounds(bytes: seq<bv8>)
    requires |bytes| >= 2 && (Extension(bytes[0]) ==> |bytes| >= HeaderSize + 4)
    ensures HeaderSize <= PayloadStart(bytes)
            <= HeaderSize + 4 + (4 + MaxExtensionLength) + 4 * MaxCsrcCount
    ensures PayloadStart(bytes) == HeaderSize
            <==> !MpegProfile(bytes[1] as int) && !Extension(bytes[0]) && CsrcCount(bytes[0]) == 0
    ensures !Extension(bytes[0]) && CsrcCount(bytes[0]) == 0 && MpegProfile(bytes[1] as int)
            ==> PayloadStart(bytes) == HeaderSize + 4
  {
  }

  /** Padding removes between 0 and 255 bytes from the end of the window, and
      none exactly when the padding bit is clear or the last byte is zero. */
  lemma PayloadEndBounds(bytes: seq<bv8>, len: int)
    requires |bytes| >= 1 && (Padding(bytes[0]) ==> 1 <= len <= |bytes|)
    ensures len - 255 <= PayloadEnd(bytes, len) <= len
    ensures PayloadEnd(bytes, len) == len <==> !Padding(bytes[0]) || bytes[len - 1] == 0
  {
  }

  /** Reference: the payload start that RFC 3550 sections 5.1 and 5.3.1 describe, with
      the 4-byte MPEG-specific header of RFC 2250 sections 3.4 and 3.5. The CSRC list
      follows the fixed header, the extension header follows the CSRC list and its length
      counts 32-bit words, and the payload type is byte 1 without the marker bit. The
      MPEG-2 video extension of RFC 2250 section 3.4.1 (present when the T bit is set)
      is not counted. */
  function Rfc3550PayloadStart(bytes: seq<bv8>): int
    requires |bytes| >= 2
    requires Extension(bytes[0]) ==> |bytes| >= HeaderSize + 4 + CsrcListSize(bytes[0])
  {
    var csrc := CsrcListSize(bytes[0]);
    var ext := if Extension(bytes[0])
      then 4 + 4 * (bytes[HeaderSize + csrc + 2] as int * 256 + bytes[HeaderSize + csrc + 3] as int)
      else 0;
    var mpeg := if MpegProfile(PayloadType(bytes[1])) then 4 else 0;
    HeaderSize + csrc + ext + mpeg
  }

  /** Without a header extension the stripper agrees with the reference except in one
      case: a set marker bit on an MPEG video or audio packet hides its 4-byte header. */
  lemma AgreesWithRfc3550WithoutExtension(bytes: seq<bv8>)
    requires |bytes| >= 2 && !Extension(bytes[0])
    ensures PayloadStart(bytes) == Rfc3550PayloadStart(bytes)
            <==> !(Marker(bytes[1]) && MpegProfile(PayloadType(bytes[1])))
    ensures PayloadStart(bytes) <= Rfc3550PayloadStart(bytes)
  {
  }

  /** With a header extension and no CSRC list, the stripper skips 3 bytes too few
      per 32-bit word of extension (plus the 4 marker-hidden bytes above), so it agrees
      with the reference only for an empty extension. */
  lemma ExtensionUndercount(bytes: seq<bv8>)
    requires |bytes| >= HeaderSize + 4 && Extension(bytes[0]) && CsrcCount(bytes[0]) == 0
    ensures Rfc3550PayloadStart(bytes) - PayloadStart(bytes)
            == 3 * ExtensionLength(bytes)
               + (if Marker(bytes[1]) && MpegProfile(PayloadType(bytes[1])) then 4 else 0)
  {
  }
}
