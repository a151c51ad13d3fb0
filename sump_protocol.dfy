/** Wire-level pieces of the SUMP protocol as the firmware speaks it: opcodes,
    the 4-byte command argument (sent big-endian), the narrowing of that argument
    to the sample width, and the byte layout of the ID and metadata replies. */
module SumpProtocol {

  type Byte = x: int | 0 <= x < 256

  /** One snapshot of the monitored pins, one bit per pin. The firmware's
      sample type is an unsigned integer of 1, 2 or 4 bytes; all three fit in
      32 bits. */
  type Sample = x: int | 0 <= x < 0x1_0000_0000

  datatype Option<T> = None | Some(value: T)

  // Opcodes handled by the command dispatcher.
  const SumpReset: int := 0x00
  const SumpArm: int := 0x01
  const SumpId: int := 0x02
  const SumpGetMetadata: int := 0x04
  const SumpSetDivider: int := 0x80
  const SumpSetReadDelayCount: int := 0x81
  const SumpSetFlags: int := 0x82
  const SumpTriggerMask: int := 0xC0
  const SumpTriggerValues: int := 0xC1
  const SumpTriggerConfig: int := 0xC2

  /** The opcodes that are followed by a 4-byte argument on the wire. */
  predicate TakesArgument(cmd: int) {
    cmd == SumpTriggerMask || cmd == SumpTriggerValues || cmd == SumpTriggerConfig ||
    cmd == SumpSetDivider || cmd == SumpSetReadDelayCount || cmd == SumpSetFlags
  }

  /** The four argument bytes in wire order. */
  datatype CommandArg = CommandArg(b0: Byte, b1: Byte, b2: Byte, b3: Byte) {

    /** Raw byte `i` in wire order (the source's getPtr()[i]). */
    function At(i: nat): Byte
      requires i < 4
    {
      if i == 0 then b0 else if i == 1 then b1 else if i == 2 then b2 else b3
    }

    /** Big-endian 16-bit field `idx` (bytes 2*idx and 2*idx+1). */
    function Get16(idx: nat): (r: nat)
      requires idx < 2
      ensures r < 0x1_0000
      ensures r / 0x100 == At(2 * idx) && r % 0x100 == At(2 * idx + 1)
    {
      if idx == 0 then b0 * 0x100 + b1 else b2 * 0x100 + b3
    }

    /** The four bytes read as one big-endian 32-bit number. */
    function Get32(): (r: nat)
      ensures r < 0x1_0000_0000
    {
      b0 * 0x100_0000 + b1 * 0x1_0000 + b2 * 0x100 + b3
    }
  }

  /** The wire bytes of `n` in network order (htonl). */
  function Be32(n: nat): (a: CommandArg)
    requires n < 0x1_0000_0000
  {
    CommandArg(n / 0x100_0000, (n / 0x1_0000) % 0x100, (n / 0x100) % 0x100, n % 0x100)
  }

  /** Encoding then decoding gives the number back. */
  lemma Be32Decodes(n: nat)
    requires n < 0x1_0000_0000
    ensures Be32(n).Get32() == n
  {
    var a := Be32(n);
    assert n == (n / 0x100) * 0x100 + n % 0x100;
    assert n / 0x100 == (n / 0x1_0000) * 0x100 + (n / 0x100) % 0x100;
    assert n / 0x1_0000 == (n / 0x100_0000) * 0x100 + (n / 0x1_0000) % 0x100;
  }

  /** Decoding then encoding gives the wire bytes back. */
  lemma Get32Encodes(a: CommandArg)
    ensures Be32(a.Get32()) == a
  {
    var n := a.Get32();
    assert n / 0x100 == a.b0 * 0x1_0000 + a.b1 * 0x100 + a.b2;
    assert n / 0x1_0000 == a.b0 * 0x100 + a.b1;
    assert n / 0x100_0000 == a.b0;
  }

  /** The 32-bit view is the two 16-bit views, high field first. */
  lemma Get32IsTwoHalves(a: CommandArg)
    ensures a.Get32() == a.Get16(0) * 0x1_0000 + a.Get16(1)
  {
  }

  /** commandExtPinBitArray: the argument narrowed to a sample of `width`
      bytes. A 1-byte sample takes the first wire byte and a 2-byte sample the
      first 16-bit field, so both keep the MOST significant bytes of the
      32-bit argument. */
  function PinBitArray(width: nat, a: CommandArg): (r: Sample)
    ensures width == 1 ==> r as int == a.Get32() / 0x100_0000 && r < 0x100
    ensures width == 2 ==> r as int == a.Get32() / 0x1_0000 && r < 0x1_0000
    ensures width != 1 && width != 2 ==> r as int == a.Get32()
  {
    match width
    case 1 => a.b0
    case 2 => a.Get16(0)
    case _ => a.Get32()
  }

  /** The reply to ID: the ASCII text "1ALS". */
  const DeviceId: seq<Byte> := [0x31, 0x41, 0x4C, 0x53]

  /** The device description sent in the metadata reply: the ASCII text "ARDUINO". */
  const Description: seq<Byte> := [0x41, 0x52, 0x44, 0x55, 0x49, 0x4E, 0x4F]

  /** The protocol-version tail of the metadata reply. The C literal
      "\x041\x002" is two bytes (hex escapes are greedy): tag 0x41 with
      value 2; writing strlen+1 bytes adds the 0x00 end-of-metadata mark. */
  const ProtocolVersionTail: seq<Byte> := [0x41, 0x02, 0x00]

  function Be32Bytes(n: nat): (bs: seq<Byte>)
    requires n < 0x1_0000_0000
    ensures |bs| == 4
  {
    var a := Be32(n);
    [a.b0, a.b1, a.b2, a.b3]
  }

  /** write(uint8_t cmd, uint32_t number): the tag, then the number big-endian. */
  function TaggedNumber(tag: Byte, n: nat): seq<Byte>
    requires n < 0x1_0000_0000
  {
    [tag] + Be32Bytes(n)
  }

  /** write(uint8_t cmd, const char* str): the tag, the text, then a 0x00. */
  function TaggedText(tag: Byte, text: seq<Byte>): seq<Byte> {
    [tag] + text + [0]
  }

  /** The reply to GET_METADATA. The sample rate is a 64-bit field passed to
      the 32-bit writer, so it is taken modulo 2^32. */
  function Metadata(pinNumbers: nat, maxCaptureSize: nat, frequency: nat): seq<Byte>
    requires pinNumbers < 0x1_0000_0000 && maxCaptureSize < 0x1_0000_0000
  {
    TaggedText(0x01, Description) +
    (TaggedNumber(0x20, pinNumbers) +
     (TaggedNumber(0x21, maxCaptureSize) +
      (TaggedNumber(0x23, frequency % 0x1_0000_0000) +
       ProtocolVersionTail)))
  }

  // ---------------------------------------------------------------------------
  // Reading a metadata reply back, the way a client does: a tag of 0x00 ends
  // the reply, tags 0x01..0x1F carry NUL-terminated text, 0x20..0x3F a 32-bit
  // big-endian number and 0x40..0x5F a single byte.

  datatype Field = Text(tag: Byte, text: seq<Byte>) | Number(tag: Byte, value: nat) | Short(tag: Byte, byte: Byte)

  /** Length of the text before the first 0x00 (or the whole sequence). */
  function TextLength(bs: seq<Byte>): (k: nat)
    ensures k <= |bs|
    ensures forall i | 0 <= i < k :: bs[i] != 0
    ensures k < |bs| ==> bs[k] == 0
  {
    if bs == [] || bs[0] == 0 then 0 else 1 + TextLength(bs[1..])
  }

  function ParseFields(bs: seq<Byte>): Option<seq<Field>>
    decreases |bs|
  {
    if bs == [] then None
    else if bs[0] == 0 then (if |bs| == 1 then Some([]) else None)
    else if bs[0] < 0x20 then
      var k := TextLength(bs[1..]);
      if k == |bs| - 1 then None
      else match ParseFields(bs[k + 2..])
        case None => None
        case Some(rest) => Some([Text(bs[0], bs[1..k + 1])] + rest)
    else if bs[0] < 0x40 then
      if |bs| < 5 then None
      else match ParseFields(bs[5..])
        case None => None
        case Some(rest) => Some([Number(bs[0], CommandArg(bs[1], bs[2], bs[3], bs[4]).Get32())] + rest)
    else if bs[0] < 0x60 then
      if |bs| < 2 then None
      else match ParseFields(bs[2..])
        case None => None
        case Some(rest) => Some([Short(bs[0], bs[1])] + rest)
    else None
  }

  lemma ParseTaggedNumber(tag: Byte, n: nat, rest: seq<Byte>, fields: seq<Field>)
    requires 0x20 <= tag < 0x40 && n < 0x1_0000_0000
    requires ParseFields(rest) == Some(fields)
    ensures ParseFields(TaggedNumber(tag, n) + rest) == Some([Number(tag, n)] + fields)
  {
    var bs := TaggedNumber(tag, n) + rest;
    assert bs[5..] == rest;
    Be32Decodes(n);
  }

  lemma ParseTaggedText(tag: Byte, text: seq<Byte>, rest: seq<Byte>, fields: seq<Field>)
    requires 0 < tag < 0x20
    requires forall i | 0 <= i < |text| :: text[i] != 0
    requires ParseFields(rest) == Some(fields)
    ensures ParseFields(TaggedText(tag, text) + rest) == Some([Text(tag, text)] + fields)
  {
    var bs := TaggedText(tag, text) + rest;
    assert bs[0] == tag;
    assert bs[1..] == text + ([0] + rest);
    TextLengthOf(text, [0] + rest);
    assert TextLength(bs[1..]) == |text|;
    assert bs[|text| + 2..] == rest;
    assert bs[1..|text| + 1] == text;
  }

  lemma {:induction false} TextLengthOf(text: seq<Byte>, rest: seq<Byte>)
    requires forall i | 0 <= i < |text| :: text[i] != 0
    requires rest != [] && rest[0] == 0
    ensures TextLength(text + rest) == |text|
  {
    if text != [] {
      assert (text + rest)[1..] == text[1..] + rest;
      TextLengthOf(text[1..], rest);
    }
  }

  lemma ParseProtocolVersionTail()
    ensures ParseFields(ProtocolVersionTail) == Some([Short(0x41, 0x02)])
  {
    var tail := ProtocolVersionTail;
    assert tail[2..] == [0];
    assert ParseFields(tail[2..]) == Some([]);
    assert [Short(0x41, 0x02)] + [] == [Short(0x41, 0x02)];
  }

  /** The metadata reply is a well-formed tagged-field sequence carrying the
      description, the probe count, the sample memory, the sample rate and
      protocol version 2. */
  lemma MetadataFields(pinNumbers: nat, maxCaptureSize: nat, frequency: nat)
    requires pinNumbers < 0x1_0000_0000 && maxCaptureSize < 0x1_0000_0000
    ensures ParseFields(Metadata(pinNumbers, maxCaptureSize, frequency)) == Some([
              Text(0x01, Description),
              Number(0x20, pinNumbers),
              Number(0x21, maxCaptureSize),
              Number(0x23, frequency % 0x1_0000_0000),
              Short(0x41, 0x02)])
  {
    var f := frequency % 0x1_0000_0000;
    var fs3 := [Short(0x41, 0x02)];
    ParseProtocolVersionTail();
    var s2 := TaggedNumber(0x23, f) + ProtocolVersionTail;
    ParseTaggedNumber(0x23, f, ProtocolVersionTail, fs3);
    var fs2 := [Number(0x23, f)] + fs3;
    var s1 := TaggedNumber(0x21, maxCaptureSize) + s2;
    ParseTaggedNumber(0x21, maxCaptureSize, s2, fs2);
    var fs1 := [Number(0x21, maxCaptureSize)] + fs2;
    var s0 := TaggedNumber(0x20, pinNumbers) + s1;
    ParseTaggedNumber(0x20, pinNumbers, s1, fs1);
    var fs0 := [Number(0x20, pinNumbers)] + fs1;
    ParseTaggedText(0x01, Description, s0, fs0);
    assert [Text(0x01, Description)] + fs0 == [Text(0x01, Description), Number(0x20, pinNumbers),
      Number(0x21, maxCaptureSize), Number(0x23, f), Short(0x41, 0x02)];
  }
}
