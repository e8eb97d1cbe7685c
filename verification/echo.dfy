/** The 8-byte ICMP Echo header of RFC 792 (`ICMPEchoPacket` in ping.go),
    its big-endian wire encoding, and the encode / checksum / patch /
    re-encode sequence that seals an Echo Request. */
module EchoPacket {
  import opened Bytes
  import opened InternetChecksum

  /** Type, Code, Checksum, Identifier and Sequence Number; the packet carries
      no data section. */
  datatype EchoHeader = EchoHeader(
    msgType: byte,
    code: byte,
    checksum: u16,
    identifier: u16,
    sequenceNum: u16)

  /** The length of an encoded header. */
  const HeaderLength: nat := 8

  /** The ICMP type of an Echo Request. */
  const EchoRequestType: byte := 8

  /** The request the tool sends: type 8, every other field zero. */
  const Request: EchoHeader := EchoHeader(EchoRequestType, 0, 0, 0, 0)

  /** The wire form: fields in declaration order, multi-byte fields in
      network byte order, no padding. */
  function Encode(h: EchoHeader): (b: seq<byte>)
    ensures |b| == HeaderLength
    ensures b[0] == h.msgType && b[1] == h.code
    ensures b[2] as int * 256 + b[3] == h.checksum
    ensures b[4] as int * 256 + b[5] == h.identifier
    ensures b[6] as int * 256 + b[7] == h.sequenceNum
  {
    [h.msgType, h.code] + BigEndian16(h.checksum) + BigEndian16(h.identifier) + BigEndian16(h.sequenceNum)
  }

  /** Reads a header back from the first eight bytes of a message; `None`
      when the message is shorter than a header. */
  function Decode(b: seq<byte>): (r: Option<EchoHeader>)
    ensures r.None? <==> |b| < HeaderLength
    ensures r.Some? ==> Encode(r.value) == b[..HeaderLength]
  {
    if |b| < HeaderLength then None
    else Some(EchoHeader(
      b[0], b[1],
      ReadBigEndian16(b[2], b[3]),
      ReadBigEndian16(b[4], b[5]),
      ReadBigEndian16(b[6], b[7])))
  }

  /** Decoding an encoded header gives the header back. */
  lemma DecodeEncode(h: EchoHeader)
    ensures Decode(Encode(h)) == Some(h)
  {
  }

  /** Setting the Checksum field and re-encoding rewrites bytes 2-3 only. */
  lemma ReencodeTouchesOnlyChecksumBytes(h: EchoHeader, c: u16)
    ensures Encode(h.(checksum := c)) == Encode(h)[2 := c / 256][3 := c % 256]
  {
  }

  /** The sealing sequence: encode the header as it stands, checksum those
      bytes, and store the checksum in the Checksum field. */
  function Seal(h: EchoHeader): (s: EchoHeader)
    ensures s.msgType == h.msgType && s.code == h.code
    ensures s.identifier == h.identifier && s.sequenceNum == h.sequenceNum
  {
    h.(checksum := Checksum(Encode(h)))
  }

  /** A header sealed from Checksum = 0 verifies: its encoding checksums to
      zero, whatever its Type, Code, Identifier and Sequence Number. */
  lemma SealedHeaderVerifies(h: EchoHeader)
    requires h.checksum == 0
    ensures Checksum(Encode(Seal(h))) == 0
  {
    var b := Encode(h);
    var c := Checksum(b);
    ReencodeTouchesOnlyChecksumBytes(h, c);
    PatchedFieldVerifies(b, 2);
  }

  /** Lines 41-44 of ping.go as statements: encode, compute the checksum,
      patch the field, encode again. */
  method BuildPacket(h: EchoHeader) returns (wire: seq<byte>)
    ensures wire == Encode(Seal(h))
    ensures h.checksum == 0 ==> Checksum(wire) == 0
  {
    var first := Encode(h);
    var c := ComputeChecksum(first);
    var patched := h.(checksum := c);
    wire := Encode(patched);
    if h.checksum == 0 {
      SealedHeaderVerifies(h);
    }
  }

  /** The request on the wire: 08 00 F7 FF 00 00 00 00, and it verifies. */
  lemma RequestWire()
    ensures Encode(Seal(Request)) == [8, 0, 0xF7, 0xFF, 0, 0, 0, 0]
    ensures Checksum(Encode(Seal(Request))) == 0
  {
    var b := Encode(Request);
    assert b == [8, 0, 0, 0, 0, 0, 0, 0];
    assert WordSum(b) == 0x0800 by {
      assert b[2..] == [0, 0, 0, 0, 0, 0];
      WordSumAppend([8, 0], b[2..]);
      WordSumZeros(6);
      assert Zeros(6) == b[2..];
    }
    assert Fold(0x0800) == 0x0800;
    SealedHeaderVerifies(Request);
  }
}
