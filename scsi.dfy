/** The MODE SELECT command block the driver builds. It is named after MODE SELECT(10),
    but the serialiser emits six bytes, with the parameter-list length in byte 4. */
module ScsiModeSelect10 {
  import opened Bytes

  /** The operation code placed in byte 0. */
  const OperationCode: byte := 0x55

  /** A constructed command: the fields the constructor sets, including the two inherited
      from the common command base (whether a data phase follows, and its direction). */
  datatype ModeSelect10 = ModeSelect10(
    pageFormat: bool,
    savePages: bool,
    parameterListLength: int,
    control: byte,
    dataTransportPhase: bool,
    direction: int)

  /** The constructor: no data phase, direction 0, control byte 0. */
  function Create(pageFormat: bool, savePages: bool, parameterListLength: int): (m: ModeSelect10)
    ensures m.pageFormat == pageFormat && m.savePages == savePages
    ensures m.parameterListLength == parameterListLength
    ensures !m.dataTransportPhase && m.direction == 0 && m.control == 0
  {
    ModeSelect10(pageFormat, savePages, parameterListLength, 0, false, 0)
  }

  /** Byte 1: the page-format flag at bit 4, the save-pages flag at bit 0. */
  function FlagsByte(pageFormat: bool, savePages: bool): byte
  {
    (if pageFormat then 16 else 0) + (if savePages then 1 else 0)
  }

  /** Whether bit k of a byte is set. */
  predicate BitSet(b: byte, k: nat)
    requires k < 8
  {
    (b as bv8) & ((1 as bv8) << k) != 0
  }

  /** The command block. `toByte` is the base class's length-to-byte conversion, which is
      not part of this model. */
  function CommandBuffer(m: ModeSelect10, toByte: int -> byte): (cdb: seq<byte>)
    ensures |cdb| == 6
  {
    [OperationCode, FlagsByte(m.pageFormat, m.savePages), 0, 0, toByte(m.parameterListLength), m.control]
  }

  /** Bit 4 of the flags byte is the page-format flag, bit 0 the save-pages flag, and the
      other six bits are clear. */
  lemma FlagsByteBits(pageFormat: bool, savePages: bool)
    ensures BitSet(FlagsByte(pageFormat, savePages), 4) <==> pageFormat
    ensures BitSet(FlagsByte(pageFormat, savePages), 0) <==> savePages
    ensures forall k :: 0 < k < 8 && k != 4 ==> !BitSet(FlagsByte(pageFormat, savePages), k)
  {
    var b := FlagsByte(pageFormat, savePages);
    assert b == 0 || b == 1 || b == 16 || b == 17;
    assert (b as bv8) & 0xEE == 0;
    forall k | 0 < k < 8 && k != 4 ensures !BitSet(b, k) {
      assert (1 as bv8) << k == 2 || (1 as bv8) << k == 4 || (1 as bv8) << k == 8
          || (1 as bv8) << k == 32 || (1 as bv8) << k == 64 || (1 as bv8) << k == 128;
    }
  }

  /** The flags are recovered from byte 1 of the command block. */
  function DecodeFlags(b: byte): (flags: (bool, bool))
  {
    (BitSet(b, 4), BitSet(b, 0))
  }

  /** Every field of the block for a constructed command: the opcode, the two flags and
      nothing else in byte 1, two zero bytes, the converted length and a zero control byte. */
  lemma CommandBufferLayout(pageFormat: bool, savePages: bool, len: int, toByte: int -> byte)
    ensures var cdb := CommandBuffer(Create(pageFormat, savePages, len), toByte);
      && cdb[0] == 0x55
      && DecodeFlags(cdb[1]) == (pageFormat, savePages)
      && (forall k :: 0 < k < 8 && k != 4 ==> !BitSet(cdb[1], k))
      && cdb[2] == 0 && cdb[3] == 0
      && cdb[4] == toByte(len)
      && cdb[5] == 0
  {
    FlagsByteBits(pageFormat, savePages);
  }
}
