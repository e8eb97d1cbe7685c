# ICMP Echo checksum and packet model

A Dafny model of the packet logic of a single-shot `ping` tool written in Go
(`ping.go`). The tool builds an 8-byte ICMP Echo Request (RFC 792), seals it
with the Internet checksum (RFC 1071), sends it over a raw IPv4 socket, reads
one reply into a 1024-byte buffer and reports success only when that buffer
checksums to zero.

Files:

- `bytes.dfy` (module `Bytes`): `byte`/`u16`/`u32` as bounded integers,
  zero-filled buffers, big-endian 16-bit encoding, and single-bit inversion
  (used to state error detection).
- `checksum.dfy` (module `InternetChecksum`): the pure specification
  (`WordSum`, `Accumulator`, `Fold`, `Checksum`), the loop-based
  `ComputeChecksum` proved equal to it, and the checksum's properties.
- `echo.dfy` (module `EchoPacket`): the `EchoHeader` datatype, its wire
  encoder and decoder, and the encode / checksum / patch / re-encode
  sequence that seals a request.
- `session.dfy` (module `EchoSession`): one run of the tool with the
  transport's answers as parameters, and the accept/reject decision.

Points where ping.go departs from the usual description of the Internet checksum or of ping, and the model follows ping.go:

- The trailing byte of an odd-length message is added unshifted, as the
  LOW-order byte of a final word (`[0xAB]` checksums to 0xFF54). Section 1 of
  RFC 1071 pads the odd byte on the right, making it the high-order byte
  (which would give 0x54FF); ping.go instead mirrors the sample C code of
  section 4.1 of RFC 1071. `OddByteRulesDiffer` shows the two rules apart;
  `PaddedChecksum` states the right-padding rule, which is also what the
  buffer check applies to an odd-length reply (`OddReplyAcceptedIff`).
- The reply is validated by checksumming the whole 1024-byte receive buffer,
  zeros after the reply included, not only the bytes the read returned.
  For an even-length reply the two agree (`EvenReplyJudgedByItsOwnChecksum`);
  for an odd-length reply the trailing zero turns the check into the
  right-padding rule (`OddReplyJudgedWithPadding`).
- The error of the host lookup is discarded; a failed lookup shows up as a
  failed dial, reported as "could not find host" (`Outcome.HostNotFound`).
- The 32-bit accumulator wraps at 2^32 (`AddU32`); this only happens for
  messages longer than 131072 bytes (`NoWrap`), far beyond the 8- and
  1024-byte messages the tool checksums.

## Model

| member | source | states |
|---|---|---|
| InternetChecksum.ComputeChecksum | ping.go:80-102 | the two summing loops, the odd-byte add, the carry-fold loop and `uint16(^sum)` compute exactly `Checksum` for every byte sequence, with 32-bit wrap-around |
| InternetChecksum.Fold | ping.go:96-99 | end-around carry folding ends at most 0xFFFF, keeps the value modulo 0xFFFF, and yields 0 only from 0 |
| InternetChecksum.ComplementOfFolded | ping.go:101 | `uint16(^sum)` of a folded sum (at most 0xFFFF) is `0xFFFF - sum` |
| InternetChecksum.FoldClosedForm | ping.go:96-99 | folding maps 0 to 0 and every other value to its representative in 1..0xFFFF modulo 0xFFFF |
| InternetChecksum.CarryFoldExample | ping.go:96-99 | the words 0xFFFF and 0x0001 fold to 0x0001, so their checksum is 0xFFFE |
| InternetChecksum.EmptyChecksum | ping.go:80-101 | an empty message checksums to 0xFFFF |
| InternetChecksum.WordSumIsSumOfWords | ping.go:86-95 | the summing loops add the big-endian words `d[2i]*256 + d[2i+1]` and, for odd length, the last byte unshifted |
| InternetChecksum.WordSumSplit | ping.go:87-91 | after k loop iterations the sum so far is that of the first k words, and the rest is the sum of the suffix |
| InternetChecksum.WordSumAppend | ping.go:87-91 | the word sum of an even-length prefix followed by anything is the sum of the two parts' sums |
| InternetChecksum.WordSumBound | ping.go:82-95 | the unbounded sum is at most 0xFFFF per started word |
| InternetChecksum.NoWrap | ping.go:82-95 | for messages of at most 131072 bytes (so the 8-byte header and the 1024-byte buffer) the 32-bit accumulator never wraps |
| InternetChecksum.EvenLengthChecksum | ping.go:87-101 | for even length and at most 131072 bytes, the checksum is 0xFFFF minus the folded sum of the big-endian words |
| InternetChecksum.OddTrailingByteIsLowOrder | ping.go:92-95 | for odd length, the checksum equals that of the message with the last byte moved into the low half of a zero-high word |
| InternetChecksum.OddByteRulesDiffer | ping.go:93-95 | the code's rule gives 0xFF54 for `[0xAB]`, the right-padding rule 0x54FF |
| InternetChecksum.ZeroChecksumIff | ping.go:96-101 | the checksum is 0 exactly when the accumulator is a non-zero multiple of 0xFFFF |
| InternetChecksum.ResidualFoldsToAllOnes | ping.go:96-101 | adding the complement of a sum's fold to the sum makes it fold to 0xFFFF, which is checksum 0 whenever that sum is the unwrapped accumulator of a message of at most 131072 bytes |
| InternetChecksum.WordSumUpdate | ping.go:87-95 | changing one byte changes the sum by the difference times 256 for a word's high byte, 1 for a low or trailing byte |
| InternetChecksum.PatchedFieldVerifies | ping.go:41-44 | for messages of at most 131072 bytes, writing the checksum of a message into a zeroed 16-bit field at an even offset makes the message checksum to 0 |
| InternetChecksum.AddingOwnChecksumVerifies | ping.go:41-44 | for messages of at most 131072 bytes, a message whose word sum is another's plus that one's checksum checksums to 0 |
| InternetChecksum.SingleBitFlipDetected | ping.go:72 | a message that checksums to 0 no longer does after any one bit is inverted |
| InternetChecksum.ZeroPaddingKeepsChecksum | ping.go:63-72 | appending zero bytes to an even-length message leaves its checksum unchanged |
| EchoPacket.Encode | ping.go:24-30 | the header encodes to 8 bytes: Type, Code, then Checksum, Identifier and SequenceNum each big-endian |
| EchoPacket.Decode | ping.go:14-30 | reading the first 8 bytes back fails exactly for messages shorter than 8 bytes and otherwise re-encodes to those bytes |
| EchoPacket.DecodeEncode | ping.go:24-30 | decoding an encoded header gives the same header |
| EchoPacket.ReencodeTouchesOnlyChecksumBytes | ping.go:42-44 | re-encoding after setting the Checksum field changes bytes 2-3 only |
| EchoPacket.Seal | ping.go:41-42 | sealing keeps Type, Code, Identifier and SequenceNum |
| EchoPacket.SealedHeaderVerifies | ping.go:41-44 | a header sealed from Checksum 0 checksums to 0, for any Type, Code, Identifier and SequenceNum |
| EchoPacket.BuildPacket | ping.go:41-44 | encode, checksum, patch and re-encode, done as statements, yield exactly the encoding of the sealed header, which checksums to 0 when built from Checksum 0 |
| EchoPacket.RequestWire | ping.go:33-44 | the request sent is `08 00 F7 FF 00 00 00 00` and checksums to 0 |
| EchoSession.RecvBuffer | ping.go:63-64 | the receive buffer is 1024 bytes holding the reply's first bytes, zero after it |
| EchoSession.Run | ping.go:46-77 | a failed dial, write or read ends the run with its own outcome; after a successful read the elapsed time is reported exactly when the whole 1024-byte receive buffer checksums to 0, and the checksum-mismatch exit is taken otherwise |
| EchoSession.EvenReplyJudgedByItsOwnChecksum | ping.go:63-75 | an even-length reply that fits the buffer is accepted exactly when it checksums to 0 by itself, and rejected otherwise |
| EchoSession.OddReplyJudgedWithPadding | ping.go:63-72 | for an odd-length reply shorter than the 1024-byte buffer, the buffer check equals the right-padded checksum of the reply |
| EchoSession.OddReplyAcceptedIff | ping.go:63-77 | an odd-length reply shorter than the buffer is accepted exactly when its right-padded checksum is 0, and rejected otherwise |
| EchoSession.LongReplyJudgedByCapturedPrefix | ping.go:63-77 | a reply of 1024 bytes or more is accepted exactly when its first 1024 bytes checksum to 0, and rejected otherwise |
| EchoSession.HeaderPrefixVerdict | ping.go:63-77 | when the read delivers an even-length IPv4 header that checksums to 0 followed by an even-length ICMP message, the reply is accepted exactly when the message's word sum is a multiple of 0xFFFF |
| EchoSession.SealedReplyAccepted | ping.go:41-77 | a reply carrying back a header sealed from Checksum 0 is accepted with the measured time |
| EchoSession.CorruptedReplyRejected | ping.go:72-75 | an accepted reply with any captured bit inverted takes the checksum-mismatch exit |
| EchoSession.CorruptedSealedReplyRejected | ping.go:41-75 | the echoed request with any one bit inverted is rejected |

## Left out

- Host resolution (`net.ResolveIPAddr`): an external resolver; its outcome enters only as whether the dial succeeded.
- Dialing, writing and closing the raw socket (`net.DialIP`, `conn.Write`, `defer conn.Close`): operating-system I/O; their success or failure is a parameter of `Run`.
- The read deadline, the blocking `conn.Read` and the `time.Now`/`time.Since` measurement: time and I/O; the read's result and the elapsed milliseconds are parameters of `Run`.
- Reading `os.Args` (including the panic when no argument is given) and all console output: plumbing.
- `encoding/binary`'s struct packing: replaced by the explicit encoder `Encode` following the struct's field order.
- InternetChecksum.SingleBitFlipDetected: stated for messages of at most 131072 bytes, because longer messages can wrap the 32-bit accumulator, which loses carries.
- EchoSession.Run: the console lines and the remote address they print are not modelled; the outcome carries only the elapsed time.
- EchoPacket.Decode: ping.go has no decoder; `Decode` is the inverse of `Encode`, kept to state the wire layout as a round trip.
- The reply's ICMP Type, Identifier and Sequence Number are not checked by ping.go, so the model accepts any reply whose buffer checksums to zero.
- EchoSession.SealedReplyAccepted: `reply` is the raw bytes `conn.Read` returns; on an `ip4:icmp` socket these may start with the IPv4 header, so the premise that they equal the sealed Echo header alone describes the ICMP message, not necessarily what the read delivers. With a leading even-length IPv4 header that checksums to 0, an even-length ICMP message is accepted exactly when its word sum is a multiple of 0xFFFF (`HeaderPrefixVerdict`): a message whose own checksum is 0 stays accepted, and one whose word sum is 0 (such as an all-zero Echo Reply) is accepted too.
