/** One run of the ping tool after the request has been sealed: the
    transport's answers are parameters, and the model decides which of the
    tool's exits is taken. The reply is judged by checksumming the whole
    zero-filled 1024-byte receive buffer, as ping.go does, not only the
    bytes the read returned. */
module EchoSession {
  import opened Bytes
  import opened InternetChecksum
  import opened EchoPacket

  /** What the single deadline-bounded read returned. */
  datatype ReadResult = Received(reply: seq<byte>) | ReadFailed

  /** The exits of a run. A failed host lookup is not reported by itself:
      its error is dropped and the dial that follows fails instead. */
  datatype Outcome =
    | HostNotFound
    | WriteFailed
    | ReadError
    | ChecksumIncorrect
    | Reply(elapsedMs: nat)

  /** The size of the receive buffer, `make([]byte, 1024)`. */
  const RecvBufferSize: nat := 1024

  /** The receive buffer after the read: a fresh 1024-byte zero slice whose
      front holds as much of the reply as fits. */
  function RecvBuffer(reply: seq<byte>): (buf: seq<byte>)
    ensures |buf| == RecvBufferSize
    ensures forall i :: 0 <= i < |buf| ==> buf[i] == (if i < |reply| then reply[i] else 0)
  {
    if |reply| >= RecvBufferSize then reply[..RecvBufferSize]
    else reply + Zeros(RecvBufferSize - |reply|)
  }

  /** The accept test: the whole buffer must checksum to zero. */
  predicate Accepts(buf: seq<byte>)
  {
    Checksum(buf) == 0
  }

  /** The run: dial, write, read once, validate. Every failure ends the run
      at once; only a buffer that checksums to zero reports the elapsed time. */
  function Run(dialed: bool, written: bool, read: ReadResult, elapsedMs: nat): (o: Outcome)
    ensures !dialed ==> o == HostNotFound
    ensures dialed && !written ==> o == WriteFailed
    ensures dialed && written && read.ReadFailed? ==> o == ReadError
    ensures o.Reply? ==> o.elapsedMs == elapsedMs && read.Received?
    ensures dialed && written && read.Received? ==>
      (o == Reply(elapsedMs) <==> Checksum(RecvBuffer(read.reply)) == 0)
    ensures dialed && written && read.Received? ==>
      (o == ChecksumIncorrect <==> Checksum(RecvBuffer(read.reply)) != 0)
  {
    if !dialed then HostNotFound
    else if !written then WriteFailed
    else match read
      case ReadFailed => ReadError
      case Received(reply) =>
        if !Accepts(RecvBuffer(reply)) then ChecksumIncorrect else Reply(elapsedMs)
  }

  /** For a reply of even length that fits the buffer, checking the whole
      buffer is the same as checking the bytes received. */
  lemma EvenReplyJudgedByItsOwnChecksum(reply: seq<byte>, elapsedMs: nat)
    requires |reply| % 2 == 0 && |reply| <= RecvBufferSize
    ensures Run(true, true, Received(reply), elapsedMs) == Reply(elapsedMs) <==> Checksum(reply) == 0
    ensures Run(true, true, Received(reply), elapsedMs) == ChecksumIncorrect <==> Checksum(reply) != 0
  {
    var n := RecvBufferSize - |reply|;
    assert RecvBuffer(reply) == reply + Zeros(n);
    ZeroPaddingKeepsChecksum(reply, n);
  }

  /** For a shorter reply of odd length, the zero after it pairs with its last
      byte, so the buffer check applies the right-padding rule rather than
      the low-order rule `ComputeChecksum` applies to the reply alone. */
  lemma OddReplyJudgedWithPadding(reply: seq<byte>)
    requires |reply| % 2 == 1 && |reply| < RecvBufferSize
    ensures Checksum(RecvBuffer(reply)) == PaddedChecksum(reply)
  {
    var n := RecvBufferSize - |reply|;
    assert reply + Zeros(n) == (reply + [0]) + Zeros(n - 1);
    ZeroPaddingKeepsChecksum(reply + [0], n - 1);
  }

  /** So a shorter odd-length reply is accepted exactly when its
      right-padded checksum is zero. */
  lemma OddReplyAcceptedIff(reply: seq<byte>, elapsedMs: nat)
    requires |reply| % 2 == 1 && |reply| < RecvBufferSize
    ensures Run(true, true, Received(reply), elapsedMs) == Reply(elapsedMs) <==> PaddedChecksum(reply) == 0
    ensures Run(true, true, Received(reply), elapsedMs) == ChecksumIncorrect <==> PaddedChecksum(reply) != 0
  {
    OddReplyJudgedWithPadding(reply);
  }

  /** A reply that fills the buffer or overflows it is judged by its first
      1024 bytes only; the rest is lost. */
  lemma LongReplyJudgedByCapturedPrefix(reply: seq<byte>, elapsedMs: nat)
    requires |reply| >= RecvBufferSize
    ensures Run(true, true, Received(reply), elapsedMs) == Reply(elapsedMs) <==> Checksum(reply[..RecvBufferSize]) == 0
    ensures Run(true, true, Received(reply), elapsedMs) == ChecksumIncorrect <==> Checksum(reply[..RecvBufferSize]) != 0
  {
  }

  /** A read that delivers an even-length IPv4 header which checksums to
      zero, followed by an even-length ICMP message, is accepted exactly
      when the message's word sum is a multiple of 0xFFFF, which includes
      a word sum of 0, not only when the message checksums to zero. */
  lemma HeaderPrefixVerdict(ip: seq<byte>, m: seq<byte>, elapsedMs: nat)
    requires |ip| % 2 == 0 && |m| % 2 == 0 && |ip + m| <= RecvBufferSize
    requires Checksum(ip) == 0
    ensures Run(true, true, Received(ip + m), elapsedMs) == Reply(elapsedMs) <==> WordSum(m) % 0xFFFF == 0
  {
    WordSumAppend(ip, m);
    NoWrap(ip);
    NoWrap(ip + m);
    ZeroChecksumIff(ip);
    ZeroChecksumIff(ip + m);
    ModMultipleAdd(WordSum(ip) / 0xFFFF, WordSum(m), 0xFFFF);
    assert WordSum(ip) == 0xFFFF * (WordSum(ip) / 0xFFFF);
    EvenReplyJudgedByItsOwnChecksum(ip + m, elapsedMs);
  }

  /** A reply carrying back a header sealed from Checksum = 0 (any Type,
      Code, Identifier and Sequence Number) is accepted. */
  lemma SealedReplyAccepted(h: EchoHeader, elapsedMs: nat)
    requires h.checksum == 0
    ensures Run(true, true, Received(Encode(Seal(h))), elapsedMs) == Reply(elapsedMs)
  {
    SealedHeaderVerifies(h);
    EvenReplyJudgedByItsOwnChecksum(Encode(Seal(h)), elapsedMs);
  }

  /** An accepted reply with any one captured bit inverted is rejected. */
  lemma CorruptedReplyRejected(reply: seq<byte>, j: nat, k: nat, elapsedMs: nat)
    requires Run(true, true, Received(reply), elapsedMs) == Reply(elapsedMs)
    requires j < |reply| && j < RecvBufferSize && k < 8
    ensures Run(true, true, Received(reply[j := FlipBit(reply[j], k)]), elapsedMs) == ChecksumIncorrect
  {
    var buf := RecvBuffer(reply);
    var v := FlipBit(reply[j], k);
    assert RecvBuffer(reply[j := v]) == buf[j := v];
    SingleBitFlipDetected(buf, j, k);
  }

  /** In particular the echoed request fails validation once any bit of it
      is inverted in transit. */
  lemma CorruptedSealedReplyRejected(h: EchoHeader, j: nat, k: nat, elapsedMs: nat)
    requires h.checksum == 0 && j < HeaderLength && k < 8
    ensures Run(true, true, Received(Encode(Seal(h))[j := FlipBit(Encode(Seal(h))[j], k)]), elapsedMs) == ChecksumIncorrect
  {
    SealedReplyAccepted(h, elapsedMs);
    CorruptedReplyRejected(Encode(Seal(h)), j, k, elapsedMs);
  }
}
