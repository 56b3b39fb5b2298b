/** The session-id generator (`sessionId` in session/session_manager.go):
    32 bytes from the random source, encoded with padded URL-safe base 64.
    The random source is an input: either the bytes it produced or its failure. */
module Token {
  import opened Wrappers
  import opened GoTypes
  import opened Base64

  /** Bytes of randomness requested for each id (256 bits). */
  const EntropyBytes: nat := 32

  /** Length of an id minted from a successful read: 32 bytes make ten full
      groups and one group of two bytes, so 11 * 4 characters. */
  const SidLength: nat := 44

  /** The outcome of `rand.Read` on a 32-byte buffer. */
  datatype RandomRead = ReadFailed | ReadBytes(bytes: seq<Byte>)

  /** `rand.Read` fills the whole buffer whenever it succeeds. */
  predicate ValidRead(draw: RandomRead) {
    draw.ReadBytes? ==> |draw.bytes| == EntropyBytes
  }

  /** A failed read yields the empty id; a successful one yields 43 alphabet
      characters and one `=`, from which the drawn bytes can be recovered. */
  function SessionId(draw: RandomRead): (sid: string)
    requires ValidRead(draw)
    ensures draw.ReadFailed? ==> sid == ""
    ensures draw.ReadBytes? ==> |sid| == SidLength
    ensures draw.ReadBytes? ==> forall i :: 0 <= i < SidLength - 1 ==> IsAlphabetChar(sid[i])
    ensures draw.ReadBytes? ==> sid[SidLength - 1] == Pad
    ensures draw.ReadBytes? ==> Decode(sid) == Some(draw.bytes)
  {
    match draw
    case ReadFailed => ""
    case ReadBytes(bytes) =>
      DrawnIdShape(bytes);
      DecodeEncode(bytes);
      Encode(bytes)
  }

  /** The encoding of 32 bytes is 43 alphabet characters and one `=`. */
  lemma DrawnIdShape(bytes: seq<Byte>)
    requires |bytes| == EntropyBytes
    ensures |Encode(bytes)| == SidLength
    ensures forall i :: 0 <= i < SidLength - 1 ==> IsAlphabetChar(Encode(bytes)[i])
    ensures Encode(bytes)[SidLength - 1] == Pad
  {
    var e := Encode(bytes);
    EncodePadding(bytes);
    assert PadLength(|bytes|) == 1 && |e| == SidLength;
    assert PaddedWith(e, 1);
  }

  /** Two successful draws give the same id exactly when they drew the same bytes. */
  lemma SessionIdInjective(d1: RandomRead, d2: RandomRead)
    requires ValidRead(d1) && ValidRead(d2)
    requires d1.ReadBytes? && d2.ReadBytes?
    ensures SessionId(d1) == SessionId(d2) <==> d1 == d2
  {
    EncodeInjective(d1.bytes, d2.bytes);
  }

  /** The id is the only string the decoder maps to the drawn bytes: a string
      decodes to them exactly when it is the id. */
  lemma SessionIdCanonical(draw: RandomRead, s: string)
    requires ValidRead(draw) && draw.ReadBytes?
    ensures Decode(s) == Some(draw.bytes) <==> s == SessionId(draw)
  {
    if Decode(s) == Some(draw.bytes) {
      EncodeDecode(s, draw.bytes);
    }
  }
}
