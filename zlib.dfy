/** Detection of zlib-framed firmware and its normalisation to raw bytes
    (isFirmwareCompressed and decompressFirmware). The DEFLATE decoder itself is
    not modelled: it is the abstract `Decoder` below. */
module Zlib {
  import opened KernelTypes

  /** The three headers of section 2.2 of RFC 1950 the manager recognises, as the
      little-endian 16-bit word it reads: CMF = 0x78 followed by FLG = 0x01, 0x9c or 0xda. */
  const MagicNoCompression := 0x0178
  const MagicDefaultCompression := 0x9c78
  const MagicMaximumCompression := 0xda78

  /** The 16-bit word stored little-endian as the bytes `lo`, `hi`. */
  function LittleEndian16(lo: byte, hi: byte): (w: int)
    ensures 0 <= w < 0x1_0000
    ensures w % 0x100 == lo && w / 0x100 == hi
  {
    lo + 0x100 * hi
  }

  predicate IsZlibMagic(word: int)
  {
    word == MagicNoCompression || word == MagicDefaultCompression || word == MagicMaximumCompression
  }

  /** isFirmwareCompressed on a blob that holds the two bytes it reads. */
  function IsFirmwareCompressed(fw: seq<byte>): (compressed: bool)
    requires |fw| >= 2
    ensures compressed <==> fw[0] == 0x78 && fw[1] in {0x01, 0x9c, 0xda}
  {
    IsZlibMagic(LittleEndian16(fw[0], fw[1]))
  }

  /** isFirmwareCompressed as written, on a blob of any length: it reads two bytes from
      the start of the blob, so on a blob shorter than two bytes the missing bytes come
      from `following`, whatever memory lies after the blob. */
  function IsCompressedAsWritten(fw: seq<byte>, following: seq<byte>): (compressed: bool)
    requires |fw| + |following| >= 2
    ensures |fw| >= 2 ==> compressed == IsFirmwareCompressed(fw)
  {
    var memory := fw + following;
    assert |fw| >= 2 ==> memory[0] == fw[0] && memory[1] == fw[1];
    IsZlibMagic(LittleEndian16(memory[0], memory[1]))
  }

  /** On the one-byte blob [0x78] the verdict as written is decided by the byte that
      follows the blob in memory. */
  lemma ShortBlobVerdictDependsOnMemory()
    ensures IsCompressedAsWritten([0x78], [0x9c])
    ensures !IsCompressedAsWritten([0x78], [0x00])
  {
    assert ([0x78] + [0x9c])[1] == 0x9c;
    assert ([0x78] + [0x00])[1] == 0x00;
  }

  /** Header detection that stays inside the blob: a blob shorter than the two-byte
      zlib header is not compressed. On every blob of two bytes or more it agrees with
      the source's reading. */
  function IsCompressed(fw: seq<byte>): (compressed: bool)
    ensures compressed <==> |fw| >= 2 && fw[0] == 0x78 && fw[1] in {0x01, 0x9c, 0xda}
    ensures forall following: seq<byte> {:trigger IsCompressedAsWritten(fw, following)} ::
      |fw| >= 2 ==> compressed == IsCompressedAsWritten(fw, following)
  {
    |fw| >= 2 && IsFirmwareCompressed(fw)
  }

  /** The zlib return codes the manager tests for. */
  const ZOk := 0
  const ZStreamEnd := 1
  const ZDataError := -3

  /** What one inflate(&zstream, Z_FINISH) pass left behind: its return code and the
      total_out bytes it wrote at the start of the scratch buffer. */
  datatype InflateRun = InflateRun(code: int, output: seq<byte>)

  /** A single inflate pass over `input` into a scratch buffer of `cap` bytes. The
      decoder never writes past the buffer, so total_out never exceeds `cap`. */
  type Inflater = f: (seq<byte>, nat) -> InflateRun | forall input, cap :: |f(input, cap).output| <= cap
    witness (input: seq<byte>, cap: nat) => InflateRun(ZDataError, [])

  /** The zlib library as the manager sees it: the code inflateInit returns and the
      inflate pass. */
  datatype Decoder = Decoder(initCode: int, inflate: Inflater)

  /** bufferSize = getLength() * 4, computed in 32-bit unsigned arithmetic. */
  function ScratchSize(length: nat): (size: nat)
    ensures size < 0x1_0000_0000
    ensures length < 0x4000_0000 ==> size == 4 * length
  {
    (length * 4) % 0x1_0000_0000
  }

  /** The result codes decompressFirmware accepts from inflate. */
  predicate InflateAccepted(code: int)
  {
    code == ZStreamEnd || code == ZOk
  }

  /** decompressFirmware: raw firmware passes through; zlib firmware is inflated into a
      scratch buffer of ScratchSize bytes. None stands for the NULL result. */
  function DecompressFirmware(fw: seq<byte>, z: Decoder): (r: Option<seq<byte>>)
    ensures IsCompressed(fw) && r.Some? ==> |r.value| <= ScratchSize(|fw|)
  {
    if !IsCompressed(fw) then Some(fw)
    else if z.initCode != ZOk then None
    else
      var run := z.inflate(fw, ScratchSize(|fw|));
      if InflateAccepted(run.code) then Some(run.output) else None
  }

  /** The three outcomes of decompressFirmware: pass-through of raw firmware; failure
      exactly when inflateInit fails or inflate returns a code other than Z_STREAM_END
      or Z_OK; otherwise the total_out bytes inflate produced in the 4x buffer. */
  lemma DecompressOutcome(fw: seq<byte>, z: Decoder)
    ensures !IsCompressed(fw) ==> DecompressFirmware(fw, z) == Some(fw)
    ensures IsCompressed(fw) ==>
      (DecompressFirmware(fw, z).None? <==>
        z.initCode != ZOk || !InflateAccepted(z.inflate(fw, ScratchSize(|fw|)).code))
    ensures IsCompressed(fw) && DecompressFirmware(fw, z).Some? ==>
      DecompressFirmware(fw, z).value == z.inflate(fw, ScratchSize(|fw|)).output
  {
  }

  /** The 4x heuristic bounds what can come out: a payload longer than four times the
      compressed blob is never recovered, whatever the decoder does. */
  lemma HighRatioPayloadNeverRecovered(fw: seq<byte>, z: Decoder, payload: seq<byte>)
    requires IsCompressed(fw)
    requires |payload| > ScratchSize(|fw|)
    ensures DecompressFirmware(fw, z) != Some(payload)
  {
  }

  /** A decoder that completes the stream `fw` with output `payload` in the 4x buffer
      makes decompressFirmware return exactly `payload`. */
  lemma DecompressRecoversPayload(fw: seq<byte>, z: Decoder, payload: seq<byte>)
    requires IsCompressed(fw) && z.initCode == ZOk
    requires z.inflate(fw, ScratchSize(|fw|)) == InflateRun(ZStreamEnd, payload)
    ensures DecompressFirmware(fw, z) == Some(payload)
    ensures |payload| <= 4 * |fw|
  {
  }
}
