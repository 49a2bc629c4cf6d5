/** The packet layer of transport.go: a packet buffer with a window of valid bytes,
    the first-packet classifier and the in-place RTP header stripper. Bodies follow
    the Go code (getByte, bit masks, getUint16); contracts are stated in the
    arithmetic header fields of RtpHeader. */
module Transport {
  import opened RtpHeader

  /** The three errors that `check` formats, with the value it reports. */
  datatype CheckError =
    | InvalidLength(len: int)
    | UnsupportedVersion(version: int)
    | UnknownProfile(payloadType: int)

  /** `check`'s (bool, error) pair: Ok(true) is RTP, Ok(false) is raw MPEG-TS. */
  datatype CheckResult = Ok(rtp: bool) | Err(error: CheckError)

  /** Go's `x & mask` on an int that holds one byte value. */
  function BitAnd(x: int, mask: bv8): int
    requires 0 <= x < 256
  {
    ((x as bv8) & mask) as int
  }

  /** The masks of transport.go select the RFC 3550 fields of byte 0 and byte 1. */
  lemma MaskedFields(b: bv8)
    ensures BitAnd(b as int, 0xC0) / 64 == Version(b)
    ensures BitAnd(b as int, 0x20) != 0 <==> Padding(b)
    ensures BitAnd(b as int, 0x10) != 0 <==> Extension(b)
    ensures BitAnd(b as int, 0x0F) == CsrcCount(b)
    ensures BitAnd(b as int, 0x7F) == PayloadType(b)
  {
    VersionMask(b);
    PaddingMask(b);
    ExtensionMask(b);
    CsrcMask(b);
    PayloadTypeMask(b);
  }

  lemma ByteRoundTrip(b: bv8) ensures (b as int) as bv8 == b {}

  lemma VersionMask(b: bv8) ensures BitAnd(b as int, 0xC0) / 64 == Version(b) {
    ByteRoundTrip(b);
    assert (b & 0xC0) as int / 64 == b as int / 64;
  }

  lemma PaddingMask(b: bv8) ensures BitAnd(b as int, 0x20) != 0 <==> Padding(b) {
    ByteRoundTrip(b);
    assert (b & 0x20) as int != 0 <==> b as int / 32 % 2 == 1;
  }

  lemma ExtensionMask(b: bv8) ensures BitAnd(b as int, 0x10) != 0 <==> Extension(b) {
    ByteRoundTrip(b);
    assert (b & 0x10) as int != 0 <==> b as int / 16 % 2 == 1;
  }

  lemma CsrcMask(b: bv8) ensures BitAnd(b as int, 0x0F) == CsrcCount(b) {
    ByteRoundTrip(b);
    assert (b & 0x0F) as int == b as int % 16;
  }

  lemma PayloadTypeMask(b: bv8) ensures BitAnd(b as int, 0x7F) == PayloadType(b) {
    ByteRoundTrip(b);
    assert (b & 0x7F) as int == b as int % 128;
  }

  /** Go's `uint16(lo) | uint16(hi)<<8` is the big-endian value hi * 256 + lo. */
  lemma BigEndian16(hi: bv8, lo: bv8)
    ensures ((lo as bv16) | ((hi as bv16) << 8)) as int == hi as int * 256 + lo as int
  {
    var v := (lo as bv16) | ((hi as bv16) << 8);
    assert v >> 8 == hi as bv16;
    assert v & 0xFF == lo as bv16;
    SplitBytes16(v);
  }

  lemma SplitBytes16(v: bv16)
    ensures v as int == (v >> 8) as int * 256 + (v & 0xFF) as int
  {
  }

  class Packet {
    var data: array<bv8>
    var off: int   // start of the valid window
    var len: int   // end of the valid window

    /** `&Packet{data: make([]byte, packetMTU)}`: a zeroed buffer and an empty window. */
    constructor ()
      ensures fresh(data) && data.Length == PacketMtu
      ensures forall i :: 0 <= i < data.Length ==> data[i] == 0
      ensures off == 0 && len == 0
    {
      data := new bv8[PacketMtu](_ => 0);
      off := 0;
      len := 0;
    }

    /** The packet as a value. */
    ghost function Snapshot(): Datagram
      reads this, data
    {
      Datagram(data[..], off, len)
    }

    function GetByte(offset: int): (b: int)
      reads this, data
      requires 0 <= offset < data.Length
      ensures 0 <= b < 256
      ensures b == data[offset] as int
    {
      ((data[offset] as bv64) & 0xFF) as int
    }

    /** Big-endian 16-bit read of bytes offset and offset + 1. */
    function GetUint16(offset: int): (v: bv16)
      reads this, data
      requires 0 <= offset && offset + 1 < data.Length
      ensures v as int == data[offset] as int * 256 + data[offset + 1] as int
      ensures v as int == GetByte(offset) * 256 + GetByte(offset + 1)
    {
      BigEndian16(data[offset], data[offset + 1]);
      (data[offset + 1] as bv16) | ((data[offset] as bv16) << 8)
    }

    /** Classifies the first packet of a session. The length test comes before any
        byte is read, and the sync-byte test before the version test. */
    function Check(): (r: CheckResult)
      reads this, data
      requires len >= HeaderSize ==> data.Length >= 2
      ensures len < HeaderSize <==> r == Err(InvalidLength(len))
      ensures r == Ok(false) <==> len >= HeaderSize && data[0] == SyncByte
      ensures r == Ok(true)
              <==> && len >= HeaderSize && data[0] != SyncByte
                   && Version(data[0]) == 2 && SupportedProfile(PayloadType(data[1]))
      ensures r.Err? && r.error.UnsupportedVersion?
              <==> len >= HeaderSize && data[0] != SyncByte && Version(data[0]) != 2
      ensures r.Err? && r.error.UnknownProfile?
              <==> && len >= HeaderSize && data[0] != SyncByte
                   && Version(data[0]) == 2 && !SupportedProfile(PayloadType(data[1]))
      ensures len >= HeaderSize && r.Err? && r.error.UnsupportedVersion?
              ==> r.error.version == Version(data[0])
      ensures len >= HeaderSize && r.Err? && r.error.UnknownProfile?
              ==> r.error.payloadType == PayloadType(data[1])
    {
      if len < HeaderSize then Err(InvalidLength(len))
      else
        var sign := GetByte(0);
        MaskedFields(data[0]);
        MaskedFields(data[1]);
        if sign == 0x47 then Ok(false)
        else
          // (sign & 0xC0) >> 6, a shift of a non-negative int
          var ver := BitAnd(sign, 0xC0) / 64;
          if ver != 2 then Err(UnsupportedVersion(ver))
          else
            var ptype := BitAnd(GetByte(1), 0x7F);
            if ptype == ProfileMpegTs || ptype == ProfileMpegVideo || ptype == ProfileMpegAudio
            then Ok(true)
            else Err(UnknownProfile(ptype))
    }

    /** Moves the window past the RTP header and drops the padding, in place, and
        reports whether a non-empty payload remains. The buffer is not written. */
    method StripRtp() returns (ok: bool)
      requires Strippable(Snapshot())
      modifies this
      ensures data == old(data) && unchanged(data)
      ensures off == PayloadStart(data[..])
      ensures len == PayloadEnd(data[..], old(len))
      ensures Snapshot() == Strip(old(Snapshot()))
      ensures ok <==> off < len
    {
      ghost var bytes := data[..];
      var ptype := GetByte(1);  // payload type, marker bit included
      var offset := HeaderSize;
      if ptype == ProfileMpegTs {
        // the transport-stream profile has no payload header
      } else if ptype == ProfileMpegVideo || ptype == ProfileMpegAudio {
        offset := offset + 4;
      }
      assert offset == HeaderSize + MpegHeaderSize(bytes[1]);

      var sign := GetByte(0);
      MaskedFields(data[0]);
      if BitAnd(sign, 0x10) != 0 {
        var exlen := GetUint16(HeaderSize + 2);
        offset := offset + 4 + exlen as int;
      }
      assert offset == HeaderSize + MpegHeaderSize(bytes[1]) + ExtensionSize(bytes);

      var csrcCount := BitAnd(sign, 0x0F);
      if csrcCount > 0 {
        offset := offset + csrcCount * 4;
      }
      assert offset == PayloadStart(bytes);

      off := offset;
      if BitAnd(sign, 0x20) != 0 {
        len := len - GetByte(len - 1);
      }
      assert len == PayloadEnd(bytes, old(len));

      ok := off < len;
    }

    /** What `WriteTo` hands to the writer: exactly the bytes of the window. */
    method WriteTo() returns (written: seq<bv8>, n: int)
      requires 0 <= off <= len <= data.Length
      ensures n == |written| == len - off
      ensures forall i :: 0 <= i < n ==> written[i] == data[off + i]
    {
      written := data[off..len];
      n := |written|;
    }
  }

  /** `transport.release`: empties the window; the buffer keeps its bytes. */
  method Release(pkt: Packet)
    modifies pkt
    ensures pkt.off == 0 && pkt.len == 0
    ensures pkt.data == old(pkt.data) && unchanged(pkt.data)
  {
    pkt.off := 0;
    pkt.len := 0;
  }
}
