/**
 * The probe's datagram: a sequence number in eight little-endian bytes,
 * padded with 0xff up to the configured size, and the `send_recv` exchange
 * that sends it and reads the first eight bytes of the reply.
 */
module Wire {
  import opened LittleEndian

  /** The two ways the `send_recv` block fails. */
  datatype ProbeError =
    | Transport      // `send_to` or `recv` returned an I/O error
    | Mismatch       // the reply carried another sequence number (`bail!`)

  datatype Result<T> = Ok(value: T) | Err(error: ProbeError)

  const PadByte: Byte := 0xff

  function Padding(k: nat): (p: seq<Byte>)
    ensures |p| == k
    ensures forall i :: 0 <= i < k ==> p[i] == PadByte
  {
    seq(k, _ => PadByte)
  }

  /**
   * The datagram for sequence number `num` at payload size `byteSize`.
   * Sizes below eight are excluded: `byte_size - 8` would underflow.
   */
  function Message(num: U64, byteSize: nat): (m: seq<Byte>)
    requires byteSize >= WordSize
    ensures |m| == byteSize
    ensures m[..WordSize] == LeBytes(num)
    ensures forall i :: WordSize <= i < byteSize ==> m[i] == PadByte
  {
    var m := LeBytes(num) + Padding(byteSize - WordSize);
    assert m[..WordSize] == LeBytes(num);
    m
  }

  /** Decoding the first eight bytes of an encoded message gives back `num`. */
  lemma MessageRoundTrip(num: U64, byteSize: nat)
    requires byteSize >= WordSize
    ensures FromLeBytes(Message(num, byteSize)[..WordSize]) == num
  {
    DecodeEncode(num);
  }

  /** Messages for different sequence numbers differ in their first eight bytes. */
  lemma MessagesDistinct(m: U64, n: U64, byteSize: nat)
    requires byteSize >= WordSize
    requires m != n
    ensures Message(m, byteSize)[..WordSize] != Message(n, byteSize)[..WordSize]
  {
    if Message(m, byteSize)[..WordSize] == Message(n, byteSize)[..WordSize] {
      LeBytesInjective(m, n);
    }
  }

  /**
   * The message builder: the eight bytes of `num`, then one 0xff pushed per
   * remaining byte of the payload.
   */
  method BuildMessage(num: U64, byteSize: nat) returns (msg: seq<Byte>)
    requires byteSize >= WordSize
    ensures |msg| == byteSize
    ensures msg[..WordSize] == LeBytes(num)
    ensures forall i :: WordSize <= i < byteSize ==> msg[i] == PadByte
    ensures msg == Message(num, byteSize)
  {
    msg := LeBytes(num);
    for k := 0 to byteSize - WordSize
      invariant |msg| == WordSize + k
      invariant msg[..WordSize] == LeBytes(num)
      invariant forall i :: WordSize <= i < |msg| ==> msg[i] == PadByte
    {
      msg := msg + [PadByte];
    }
    assert msg == Message(num, byteSize);
  }

  /**
   * `recv` into the zeroed buffer `[0; 8]`: a reply is copied into it up to
   * its length, longer replies are cut at eight bytes and the rest of a
   * shorter one stays zero.
   */
  function ReadPrefix(d: seq<Byte>): (buf: seq<Byte>)
    ensures |buf| == WordSize
    ensures forall i :: 0 <= i < WordSize ==> buf[i] == if i < |d| then d[i] else 0
  {
    if |d| >= WordSize then d[..WordSize] else d + seq(WordSize - |d|, _ => 0)
  }

  /** What the network does with one exchange. */
  datatype Io =
    | SendFailed
    | RecvFailed
    | Reply(datagram: seq<Byte>)

  /** The `send_recv` block for sequence number `num`. */
  function Exchange(num: U64, io: Io): (r: Result<U64>)
    ensures r.Ok? <==> io.Reply? && FromLeBytes(ReadPrefix(io.datagram)) == num
    ensures r.Ok? ==> r.value == num
    ensures r.Err? && r.error == Mismatch <==> io.Reply? && FromLeBytes(ReadPrefix(io.datagram)) != num
    ensures !io.Reply? ==> r == Err(Transport)
  {
    match io
    case SendFailed => Err(Transport)
    case RecvFailed => Err(Transport)
    case Reply(d) =>
      var retNum := FromLeBytes(ReadPrefix(d));
      if num != retNum then Err(Mismatch) else Ok(retNum)
  }

  /** A peer that echoes the whole message makes the exchange succeed. */
  lemma EchoExchange(num: U64, byteSize: nat)
    requires byteSize >= WordSize
    ensures Exchange(num, Reply(Message(num, byteSize))) == Ok(num)
  {
    var m := Message(num, byteSize);
    assert ReadPrefix(m) == m[..WordSize];
    MessageRoundTrip(num, byteSize);
  }

  /** A reply that starts with the encoding of another number is a mismatch. */
  lemma ForeignReplyExchange(num: U64, other: U64, tail: seq<Byte>)
    requires other != num
    ensures Exchange(num, Reply(LeBytes(other) + tail)) == Err(Mismatch)
  {
    var d := LeBytes(other) + tail;
    assert ReadPrefix(d) == LeBytes(other);
    DecodeEncode(other);
  }

  /** An empty reply reads as eight zero bytes, so it matches sequence number 0. */
  lemma EmptyReplyMatchesZero()
    ensures Exchange(0, Reply([])) == Ok(0)
    ensures forall num: U64 :: num != 0 ==> Exchange(num, Reply([])) == Err(Mismatch)
  {
    assert ReadPrefix([]) == LeBytes(0);
    DecodeEncode(0);
  }
}
