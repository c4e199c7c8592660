# Javions decoding core, modelled in Dafny

Javions is an ADS-B receiver. It reads the raw byte stream of a software-defined radio and decodes the
transponder messages it finds there. The stages are:

- Byte pairs become 12-bit samples (`SamplesDecoder`).
- Groups of eight samples become power values (`PowerComputer`).
- A double-buffered window of 1200 power values slides over the power stream (`PowerWindow`).
- The window is searched for the Mode S preamble, and a 112-bit frame is demodulated behind it (`AdsbDemodulator`).
- The frame is kept only when its 24-bit CRC is zero (`Crc24`, `RawMessage`).
- The payload is decoded by type code into an identification, airborne position or airborne velocity
  message (`MessageParser` and the three message records).
- Per aircraft, the messages feed a state object through an accumulator, which pairs even and odd
  position messages for the CPR decoder (`AircraftStateAccumulator`, `ObservableAircraftState`).
- A manager keeps one accumulator per ICAO address and purges aircraft that have not been heard from
  for a minute (`AircraftStateManager`).

Also modelled: the value checks the records make in their constructors (call signs, ICAO addresses,
registrations, descriptions, type designators, latitudes), `Math2.clamp`, `WakeTurbulenceCategory.of`,
the zoom logic of `MapParameters` and `TileManager.TileId.isValid`.

## Modelling choices

- **Java integers.** A `long`, `int`, `short` or `byte` is a mathematical integer restricted to its range
  (`Bits.Long`, `Bits.Int`, ...). Bytes are unsigned (`Bits.UByte`); `Bits.Signed` gives Java's signed view
  where the source widens a byte. Wrap-around is written out where it can happen: `Bits.WrapInt` for the
  demodulator's sums, `Bits.WrapLong` for its time stamp, `Bits.WrapShort` for the sample cast.
- **Shifts and masks.** These are division and remainder by powers of two on natural numbers. `^` and `|`
  are the recursive `Bits.Xor` and `Bits.Or`.
- **The CRC register.** The `int` register is modelled as its 32 bits (`Crc.Word`), so `<<` drops the high
  bits exactly as Java does.
- **Objects that change.** Classes whose fields the source updates in place are Dafny classes:
  - `SamplesDecoder`, `PowerComputer`, `PowerWindow` and `AdsbDemodulator`;
  - `Crc24` with its table array;
  - `AircraftStateAccumulator`, `ObservableAircraftState`, `AircraftStateManager` and `MapParameters`.
- **Values.** Records are datatypes. `RawMessage` is a subset type of frames whose time stamp is
  non-negative and whose length is 14. `GeoPos` is a subset type whose latitude is valid.
- **Specification functions.** Each loop of the source is a method with invariants. It is proved against
  a function, and the source's promises are lemmas about that function:
  - `Crc.BitwiseCrc` for both CRC loops;
  - `ByteStrings.BigEndian` for `bytesInRange`;
  - `PowerComputers.PowerAt` for the power loop;
  - `AdsbDemodulators.Detect` and `AdsbDemodulators.OutcomeAt` for the preamble search;
  - `AirbornePositions.Disentangled` and `AirbornePositions.GrayDecoded` for the altitude loops;
  - `Identifications.Identification` for the identification factory.
- **Results that may be missing or may throw.** A `null` result is `Outcomes.Null` or `Wrappers.None`.
  Where the source can also throw on a path it reaches, the result is `Outcomes.Thrown`. These paths are:
  - the `CallSign` constructor inside the identification factory;
  - the `RawMessage` constructor inside `RawMessage.of`.
- **The input stream.** The `InputStream` is the class `Streams.ByteStream`: a fixed content and a read
  position, whose `ReadNBytes` reads as much as is left. Each demodulation class keeps a ghost history of
  what it consumed. `PowerComputer`'s validity condition ties that history to the stream: every stored
  sample whose two bytes have been read is the sample those bytes encode. `PowerWindow.get` and
  `AdsbDemodulator` are specified against power value `p` of the history, and through that tie also
  against the samples of the stream's content (`PowerComputers.PowerComputer.InputSamples`,
  `AdsbDemodulators.AdsbDemodulator.Input`).
- **Collaborators the model cannot see.** These are function-typed parameters:
  - `CprDecoder.decodePosition` is `AircraftStateAccumulators.CprDecoder`;
  - `AircraftDatabase.get` is `AircraftStateManagers.AircraftDatabase`;
  - `Math.hypot`, `Math.atan2` and `Math.PI` are `AirborneVelocities.Trigonometry`.
- **Doubles and NaN.** Doubles that the core only stores are `real`. NaN altitude, velocity and track are
  `None`.

The model follows the code in four places where it does not do what its design intends:

- **Call signs with inner spaces.** A message that cannot be decoded is meant to give no message. The
  identification factory instead throws when a call sign has a leading or interior space, because the
  `CallSign` regex rejects it (`Identifications.IdentificationCases`). The `RawMessage` constructor also
  throws on a negative time stamp.
- **Pairing window.** An even and an odd position message are meant to be paired when they are at most
  10 seconds apart. The code tests `new - other <= 10^10` without an absolute value, so an older new
  message also pairs (`AircraftStateAccumulators.PairingRule`).
- **ICAO address characters.** An ICAO address is meant to be six hexadecimal digits. The constructor's
  character class also admits `¨` (`Validators.IcaoAddressExamples`).
- **A window of size 1.** The window is meant to show power values `[position, position + size)` for
  every size the constructor accepts. For a window of size 1, `PowerWindow` never swaps its buffers and
  would read outside them once the position reaches `2^17` (`PowerWindows.PowerWindow.InRangeNarrow`).

## Model

| member | source | states |
|---|---|---|
| Bits.ExtractUInt | javions/Bits.java:27-33 | requires `0 < size < 32`, `0 <= start` and `start + size <= 64`; the field is below `2^size` |
| Bits.ExtractUIntShift | javions/Bits.java:30-32 | the `(int)` cast never matters: the field is the unsigned shift of the 64-bit pattern modulo `2^size` |
| Bits.ExtractUIntValue | javions/Bits.java:30-32 | on a non-negative value the field is `value / 2^start mod 2^size` |
| Bits.TestBit | javions/Bits.java:43-47 | requires `0 <= index < 64`; holds iff the 1-bit field at `index` is 1 |
| Bits.TestBitValue | javions/Bits.java:43-47 | for every index `0..63`, `testBit` reads bit `index` of the 64-bit two's-complement pattern, bit 63 included; on a non-negative value, bit `index` of the number |
| Bits.WrapInt | javions/demodulation/AdsbDemodulator.java:82-91 | the result agrees with the sum modulo `2^32` and equals it when it fits in an `int` (Java `int` overflow) |
| Bits.WrapLong | javions/demodulation/AdsbDemodulator.java:52 | the result agrees with the product modulo `2^64` and equals it when it fits in a `long` |
| ByteStrings.ByteString.ByteAt | javions/ByteString.java:54-57 | requires `0 <= index < size`; the byte is in `[0, 255]` |
| ByteStrings.ByteString.BytesInRange | javions/ByteString.java:70-80 | requires `to - from < 8` and `0 <= from <= to <= size`; the loop's result is the big-endian value of bytes `[from, to)` and lies in `[0, 2^(8(to-from)))`; an empty range gives 0 |
| ByteStrings.BigEndianBound | javions/ByteString.java:74-79 | the big-endian value of `n` bytes is below `2^(8n)` |
| ByteStrings.BigEndianBytes | javions/ByteString.java:74-79 | big-endian reading loses nothing: writing the value back in `n` bytes gives the bytes |
| ByteStrings.FromArray | javions/ByteString.java:21-23 | the byte string holds the array's contents |
| ByteStrings.FromArrayThenWrite | javions/ByteString.java:21-23 | writing into the array after construction leaves the byte string's contents unchanged (the copy) |
| ByteStrings.EqualsIff | javions/ByteString.java:83-85 | `equals` holds iff the two byte strings have the same bytes |
| ByteStrings.EqualsHashCode | javions/ByteString.java:83-91 | equal byte strings have equal hash codes |
| ByteStrings.ToStringUpper | javions/ByteString.java:94-96 | `toString` gives `2 * size` upper-case hexadecimal digits |
| ByteStrings.OfHexToString | javions/ByteString.java:33-36 | `ofHexadecimalString(b.toString())` is `b` |
| ByteStrings.ToStringOfHex | javions/ByteString.java:33-36 | for every string `ofHexadecimalString` accepts, `toString` of the result is the string in upper case |
| Crc.CrcBitwise | javions/Crc24.java:56-69 | the bit-by-bit loop computes the reference CRC: message bits MSB first, then 24 zero bits, masked to 24 bits |
| Crc.BuildTable | javions/Crc24.java:78-84 | 256 entries; entry `i` is the reference CRC of the one-byte message `[i]` |
| Crc.Crc24.constructor | javions/Crc24.java:28-30 | the table is built from the generator |
| Crc.Crc24.Crc | javions/Crc24.java:38-47 | the table-driven CRC equals the reference CRC for every byte sequence |
| Crc.TableStep | javions/Crc24.java:41 | one table step, which indexes the table with bits 16..23 of the register before the shift, equals shifting the byte in bit by bit, on the low 24 bits |
| Crc.CrcRange | javions/Crc24.java:46 | the CRC is below `2^24` |
| Crc.EmptyCrc | javions/Crc24.java:78-84 | the CRC of the empty message and table entry 0 are both 0 |
| Streams.ByteStream.ReadNBytes | javions/demodulation/SamplesDecoder.java:49 | reads `min(len, remaining)` bytes into `b[off ..]`, leaves the rest of `b` alone and advances the position by that count |
| SamplesDecoders.SampleRange | javions/demodulation/SamplesDecoder.java:19 | for a high byte in `[0, 15]` the sample is `hi * 256 + lo - 2048`, in `[-2048, 2047]` |
| SamplesDecoders.SamplesDecoder.constructor | javions/demodulation/SamplesDecoder.java:30-36 | requires `batchSize > 0`, and `batchSize < 2^30` so that `2 * batchSize` fits in an `int`; a buffer of `2 * batchSize` bytes |
| SamplesDecoders.SamplesDecoder.ReadBatch | javions/demodulation/SamplesDecoder.java:47-57 | requires `batch.length == batchSize`; reads `min(2 * batchSize, remaining)` bytes; sample `k` is written from bytes `2k` (unsigned) and `2k+1` (signed) exactly when `2k` is below the count, other entries keep their values; returns half the count |
| PowerComputers.PowerComputer.constructor | javions/demodulation/PowerComputer.java:28-33 | requires `batchSize > 0` and a multiple of 8, and `batchSize < 2^29` so that the decoder's `4 * batchSize` bytes fit in an `int`; an empty ring history that starts at the stream's current position |
| PowerComputers.PowerComputer.ReadBatch | javions/demodulation/PowerComputer.java:43-56 | appends the decoded samples to the history and keeps it tied to the stream: every stored sample whose two bytes were read is the sample those bytes encode; every `batch[j]`, `j < batchSize`, is the power right after sample `2j+1` of the batch was stored in the ring, whatever the decoded count; entries beyond are unchanged; returns a quarter of the bytes read |
| PowerComputers.StreamSamples | javions/demodulation/SamplesDecoder.java:49-56 | the samples of a byte sequence: one per pair of bytes, sample `k` decoded from bytes `2k` and `2k+1` |
| PowerComputers.DecodesStep | javions/demodulation/PowerComputer.java:44 | appending a batch decoded from the next bytes of the stream keeps the history decoded from the stream's content, a short last read included |
| PowerComputers.PowerComputer.Agree | javions/demodulation/PowerComputer.java:43-56 | the first `n` samples of the history are the first `n` samples of the stream's content from the starting position, once their bytes have been read |
| PowerComputers.RingSlots | javions/demodulation/PowerComputer.java:46 | ring slot `j` holds the latest sample of the whole history stored in slot `j` (or 0), so the ring carries over between batches |
| PowerComputers.RingLastEight | javions/demodulation/PowerComputer.java:46 | after eight samples, slot `j` holds one of the last eight samples, the one whose index is `j` modulo 8 |
| PowerComputers.OutputStep | javions/demodulation/PowerComputer.java:48-52 | the loop's expression `(r1-r3+r5-r7)^2 + (r0-r2+r4-r6)^2`, cast to `int`, is the specified power value |
| PowerComputers.PowerFits | javions/demodulation/PowerComputer.java:48-52 | for 12-bit samples the power is below `2^31`, so the `(int)` cast is exact |
| PowerWindows.PowerWindow.constructor | javions/demodulation/PowerWindow.java:35-41 | requires `0 < windowSize <= 2^16`; position 0; the first batch is read and counted |
| PowerWindows.PowerWindow.IsFull | javions/demodulation/PowerWindow.java:99-101 | full iff the power values read minus the advances are at least `windowSize` |
| PowerWindows.PowerWindow.Get | javions/demodulation/PowerWindow.java:110-117 | requires `0 <= i < size` and the array index in bounds; for `windowSize >= 2` returns power value `position + i` of the stored history |
| PowerWindows.PowerWindow.GetFromStream | javions/demodulation/PowerWindow.java:110-117 | while the window is full and `windowSize >= 2`, `get(i)` is power value `position + i` of the samples of the stream's content |
| PowerWindows.PowerValueAgree | javions/demodulation/PowerComputer.java:45-53 | a power value depends only on the samples up to its own: two sample sequences that agree there give the same value |
| PowerWindows.PowerWindow.InRangeWide | javions/demodulation/PowerWindow.java:112-116 | for `windowSize >= 2` every `get(i)` with `0 <= i < size` stays inside the two arrays |
| PowerWindows.PowerWindow.InRangeNarrow | javions/demodulation/PowerWindow.java:70-77 | for `windowSize == 1`, `get(0)` stays inside the arrays iff `position < 2^17` |
| PowerWindows.PowerWindow.Advance | javions/demodulation/PowerWindow.java:66-78 | position grows by 1; if the window's last index hits a multiple of `2^16`, the next batch is read into the spare array and counted; else if the position hits a multiple of `2^16`, the arrays are swapped and the window index reset to 0 |
| PowerWindows.PowerWindow.AdvanceBy | javions/demodulation/PowerWindow.java:87-92 | requires `offset > 0`; position grows by exactly `offset` |
| AdsbDemodulators.AdsbDemodulator.constructor | javions/demodulation/AdsbDemodulator.java:29-31 | a window of 1200 at position 0 over the stream |
| AdsbDemodulators.AdsbDemodulator.Loaded | javions/demodulation/AdsbDemodulator.java:77-78 | every window index the demodulator reads, up to `85 + 10 * 111 = 1195`, is loaded and inside the arrays |
| AdsbDemodulators.AdsbDemodulator.GetBit | javions/demodulation/AdsbDemodulator.java:76-79 | bit `i` is 0 iff `get(80 + 10i) < get(85 + 10i)` |
| AdsbDemodulators.AdsbDemodulator.GetByte | javions/demodulation/AdsbDemodulator.java:65-74 | the loop packs bits `8k .. 8k+7` into byte `k` |
| AdsbDemodulators.ByteBits | javions/demodulation/AdsbDemodulator.java:65-74 | bit `7 - j` of byte `k` is bit `8k + j` of the frame: most significant first |
| AdsbDemodulators.AdsbDemodulator.GetSumOfPeaks | javions/demodulation/AdsbDemodulator.java:81-83 | the `int` sum of window values 0, 10, 35, 45 |
| AdsbDemodulators.AdsbDemodulator.GetSumOfTheValleys | javions/demodulation/AdsbDemodulator.java:85-88 | the `int` sum of window values 5, 15, 20, 25, 30, 40 |
| AdsbDemodulators.AdsbDemodulator.GetNextSumOfPeaks | javions/demodulation/AdsbDemodulator.java:90-92 | the `int` sum of window values 1, 11, 36, 46 |
| AdsbDemodulators.SumsExact | javions/demodulation/AdsbDemodulator.java:81-92 | for power values up to `2^27` no sum wraps around |
| AdsbDemodulators.AdsbDemodulator.GetBytes | javions/demodulation/AdsbDemodulator.java:47-51 | a fresh 14-byte array holding bytes 0..13 of the frame |
| AdsbDemodulators.MessageBytes | javions/demodulation/AdsbDemodulator.java:47-51 | the frame has 14 bytes, byte `k` being `getByte(k)` |
| AdsbDemodulators.AdsbDemodulator.Examine | javions/demodulation/AdsbDemodulator.java:43-57 | the candidate test at the current position is the detection rule below |
| AdsbDemodulators.DetectRule | javions/demodulation/AdsbDemodulator.java:43-57 | a message is made iff `P >= 2V`, `P > P'`, `P > previous P`, byte 0 is in `0x88..0x8F` (downlink format 17), the CRC is 0 and the time stamp is non-negative; it carries time stamp `100 * position` and the 14 bytes; a negative time stamp makes the record's constructor throw |
| AdsbDemodulators.TimeStampExact | javions/demodulation/AdsbDemodulator.java:52 | the time stamp is `100 * position` whenever that fits in a `long` |
| AdsbDemodulators.ConstantNoPreamble | javions/demodulation/AdsbDemodulator.java:44-46 | a constant window never holds a preamble |
| AdsbDemodulators.PulsesPreamble | javions/demodulation/AdsbDemodulator.java:44-46 | four pulses at 0, 10, 35, 45 pass the test after a previous peak sum of 0 and fail it after a larger one |
| AdsbDemodulators.QuietStep | javions/demodulation/AdsbDemodulator.java:59-60 | after a failed candidate, the previous peak sum for the next position is the peak sum at this one |
| AdsbDemodulators.OutcomeAtAgree | javions/demodulation/AdsbDemodulator.java:42-60 | two sample sequences that agree up to the end of the window at `q` give the same decision at `q` |
| AdsbDemodulators.AdsbDemodulator.OutcomeFromStream | javions/demodulation/AdsbDemodulator.java:42-60 | while the window is full, the decision at its position on the history equals the decision on the samples of the stream's content |
| AdsbDemodulators.AdsbDemodulator.Step | javions/demodulation/AdsbDemodulator.java:43-60 | one pass of the loop: the decision taken is the one on the stream's samples; after a message the window moves 1200 on, after nothing it moves 1 on with the peak sum kept, and a throw leaves it where it was |
| AdsbDemodulators.AdsbDemodulator.NextMessage | javions/demodulation/AdsbDemodulator.java:39-63 | the previous peak sum starts at 0 and every position passed gave no message (`Quiet`); a returned message is the detection outcome at a position `foundAt` at or after the start, and the window then stands at `foundAt + 1200`; a throw is the outcome at the current position; `null` only once the window is no longer full; all of this holds both for the history and for the samples of the stream's content |
| RawMessages.Of | javions/adsb/RawMessage.java:43-59 | `null` iff the CRC is not 0; a message iff the CRC is 0, the time stamp is non-negative and there are 14 bytes; the message holds the time stamp and bytes |
| RawMessages.Size | javions/adsb/RawMessage.java:68-74 | 14 if bits 3..7 of the (sign-extended) byte are 17, else 0 |
| RawMessages.SizeRange | javions/adsb/RawMessage.java:68-74 | `size(b) == 14` iff `0x88 <= b <= 0x8F` |
| RawMessages.TypeCodeOf | javions/adsb/RawMessage.java:81-83 | bits 51..55 of the payload, below 32 |
| RawMessages.DownLinkFormat | javions/adsb/RawMessage.java:88-91 | the five high bits of byte 0, in `[0, 31]` |
| RawMessages.IcaoAddress | javions/adsb/RawMessage.java:97-101 | six hexadecimal digits whose value is bytes 1..3 read big-endian |
| RawMessages.IcaoDigits | javions/adsb/RawMessage.java:97-101 | the six zero-padded upper-case digits of a 24-bit value pass the `IcaoAddress` check and read back as the value |
| RawMessages.Payload | javions/adsb/RawMessage.java:107-109 | bytes 4..10 big-endian, below `2^56` |
| RawMessages.TypeCode | javions/adsb/RawMessage.java:115-118 | the five high bits of byte 4, below 32 |
| MessageParsers.Parse | javions/adsb/MessageParser.java:31-43 | type codes 1-4 give the identification factory's result, 9-18 and 20-22 the position factory's, 19 the velocity factory's, all others `null`; no other factory is tried |
| MessageParsers.ParsedMessage | javions/adsb/MessageParser.java:31-43 | a parsed message keeps the frame's time stamp and address, and its kind matches its type-code range |
| MessageParsers.UnknownTypeCodes | javions/adsb/MessageParser.java:41 | type codes 0, 5-8 and 23-31 give `null` |
| MessageParsers.OnlyIdentificationThrows | javions/adsb/MessageParser.java:31-43 | only the identification path can throw |
| Identifications.Of | javions/adsb/AircraftIdentificationMessage.java:55-74 | the factory's loop and early return compute the identification outcome |
| Identifications.FillCharacters | javions/adsb/AircraftIdentificationMessage.java:63-69 | the loop succeeds iff no character index maps to `*`, and then fills the eight table characters |
| Identifications.ConvertToString | javions/adsb/AircraftIdentificationMessage.java:82-89 | the characters with trailing spaces stripped |
| Identifications.StripTrailing | javions/adsb/AircraftIdentificationMessage.java:88 | the result is a prefix without a trailing space, and only spaces were removed |
| Identifications.IdentificationCases | javions/adsb/AircraftIdentificationMessage.java:61-73 | `null` iff the type code is outside 1..4 or a character maps to `*`; it throws iff otherwise the stripped call sign still holds a space |
| Identifications.IdentificationCallSign | javions/adsb/AircraftIdentificationMessage.java:68-71 | an accepted call sign has at most 8 characters, all A-Z or 0-9 |
| Identifications.Category | javions/adsb/AircraftIdentificationMessage.java:76-80 | high nibble `14 - typeCode`, low nibble payload bits 48..50, so in `[0xA0, 0xD7]` |
| Identifications.CharIndex | javions/adsb/AircraftIdentificationMessage.java:64 | character `i` is a 6-bit index from payload bits `42 - 6i .. 47 - 6i` |
| Identifications.CharTable | javions/adsb/AircraftIdentificationMessage.java:28 | the table maps 1..26 to A-Z, 32 to space and 48..57 to 0-9, and every other index to `*` |
| AirbornePositions.Of | javions/adsb/AirbornePositionMessage.java:77-104 | a message iff the type code is in 9..18 or 20..22 and the altitude decodes; it carries the altitude, the parity from bit 34, and x and y from bits 0..16 and 17..33 divided by `2^17`; the constructor's checks hold |
| AirbornePositions.Normalized | javions/adsb/AirbornePositionMessage.java:96-104 | a 17-bit CPR field divided by `2^17` is in `[0, 1)` |
| AirbornePositions.Disentangling | javions/adsb/AirbornePositionMessage.java:112-122 | the loops compute the bit reordering |
| AirbornePositions.DisentangledBits | javions/adsb/AirbornePositionMessage.java:112-122 | the 12 result bits, most significant first, are altitude bits 4, 2, 0, 10, 8, 6, 5, 3, 1, 11, 9, 7 |
| AirbornePositions.DisentanglingBijection | javions/adsb/AirbornePositionMessage.java:112-122 | the reordering is a bijection on 12-bit values, undone by the inverse order |
| AirbornePositions.DecoderGrayCode | javions/adsb/AirbornePositionMessage.java:124-130 | the loop computes the XOR of `value >> i` for `i < index` |
| AirbornePositions.GrayRoundTrip | javions/adsb/AirbornePositionMessage.java:124-130 | `decoderGrayCode(b ^ (b >> 1), n) == b` for every `b < 2^n` |
| AirbornePositions.GrayCodeOfDecoded | javions/adsb/AirbornePositionMessage.java:124-130 | Gray-encoding the decoded value of an `n`-bit code gives the code back |
| AirbornePositions.AltitudeFeet | javions/adsb/AirbornePositionMessage.java:156-179 | the Q-bit (bit 4) selects the Q altitude, otherwise the Gillham altitude |
| AirbornePositions.QAltitude | javions/adsb/AirbornePositionMessage.java:157-163 | `-1000 + 25 N` feet, `N` being the 12 bits without bit 4 |
| AirbornePositions.QAltitudeRange | javions/adsb/AirbornePositionMessage.java:157-163 | Q altitudes lie in `[-1000, 50175]` on a 25-foot grid |
| AirbornePositions.GillhamAltitude | javions/adsb/AirbornePositionMessage.java:141-148 | no altitude iff the Gray-decoded low group is 0, 5 or 6; 7 counts as 5; otherwise `-1300 + 100 L' + 500 M` feet with `L' = 6 - L` for odd `M` |
| AirbornePositions.GillhamAltitudeRange | javions/adsb/AirbornePositionMessage.java:141-148 | Gillham altitudes are at least `-1200` on a 100-foot grid |
| AirbornePositions.ReflectedNonReflectedAltitude | javions/adsb/AirbornePositionMessage.java:141-150 | the altitude is on the 100-foot grid from -1300; for a low group in `1..5`, it lies in the 500-foot band of the high group, whether reflected or not |
| AirborneVelocities.Of | javions/adsb/AirborneVelocityMessage.java:61-76 | `null` iff the speed or the direction is missing; otherwise the message, made iff the constructor's checks hold |
| AirborneVelocities.Fields | javions/adsb/AirborneVelocityMessage.java:66 | the 22-bit field starting at payload bit 21 |
| AirborneVelocities.SpeedNorm | javions/adsb/AirborneVelocityMessage.java:78-100 | subtypes 1-2 use the ground speed, 3-4 the airspeed, others give none; subtypes 2 and 4 multiply by 4 |
| AirborneVelocities.GroundSpeedNorm | javions/adsb/AirborneVelocityMessage.java:102-110 | none iff VNS or VEW is 0; else `hypot(VNS - 1, VEW - 1)` knots |
| AirborneVelocities.AirSpeedNorm | javions/adsb/AirborneVelocityMessage.java:112-115 | none iff AS is 0; else `AS - 1` knots |
| AirborneVelocities.CalculateHeading | javions/adsb/AirborneVelocityMessage.java:117-125 | none iff the SH bit is clear; else `HDG / 1024` of a turn |
| AirborneVelocities.TrackOrHeading | javions/adsb/AirborneVelocityMessage.java:127-140 | subtypes 1-2 give the track from the direction bits, all others the heading |
| AirborneVelocities.QuadrantRange | javions/adsb/AirborneVelocityMessage.java:142-156 | for an angle in `[0, pi/2]` the four-way quadrant rule gives a track in `[0, 2 pi]` |
| AirborneVelocities.Quadrant | javions/adsb/AirborneVelocityMessage.java:145-155 | for an angle in `[0, pi/2]` the track lies in the compass quadrant the direction bits name: north-east, south-east, south-west or north-west |
| AirborneVelocities.CalculateTrack | javions/adsb/AirborneVelocityMessage.java:142-156 | for a first-quadrant `atan2` and a positive `PI`, the track is in `[0, 2 pi]` and in the quadrant the `DNS` and `DEW` bits name |
| AirborneVelocities.SubType | javions/adsb/AirborneVelocityMessage.java:65 | the subtype is the 3-bit field at payload bit 48, below 8 |
| AirborneVelocities.SubTypeRejected | javions/adsb/AirborneVelocityMessage.java:65-100 | a subtype outside 1..4 gives `null` |
| AirborneVelocities.MissingFieldsRejected | javions/adsb/AirborneVelocityMessage.java:102-124 | subtypes 1-2 with VNS or VEW of 0, and subtypes 3-4 with AS of 0 or a clear SH bit, give `null` |
| AirborneVelocities.SupersonicSpeed | javions/adsb/AirborneVelocityMessage.java:85-96 | subtypes 2 and 4 report 4 times the speed of subtypes 1 and 3 for the same fields |
| AirborneVelocities.HeadingRange | javions/adsb/AirborneVelocityMessage.java:117-125 | a heading lies in `[0, 2 pi)` |
| AirborneVelocities.NeverThrows | javions/adsb/AirborneVelocityMessage.java:46-51 | with a well-behaved `hypot` and `atan2`, the constructor's checks never fail inside `of` |
| AircraftStateAccumulators.AircraftStateAccumulator.constructor | javions/adsb/AircraftStateAccumulator.java:31-34 | no remembered position message |
| AircraftStateAccumulators.AircraftStateAccumulator.Update | javions/adsb/AircraftStateAccumulator.java:50-92 | the memo becomes `Remember(memo, m)` and the state becomes `NextFields(memo, state, m)`; the state's invariant is kept |
| AircraftStateAccumulators.TimeStampRecorded | javions/adsb/AircraftStateAccumulator.java:51 | every update records the message's time stamp |
| AircraftStateAccumulators.IdentificationSets | javions/adsb/AircraftStateAccumulator.java:53-56 | an identification sets only the category and the call sign |
| AircraftStateAccumulators.VelocitySets | javions/adsb/AircraftStateAccumulator.java:86-89 | a velocity message sets only velocity and track-or-heading |
| AircraftStateAccumulators.PositionSets | javions/adsb/AircraftStateAccumulator.java:57-85 | a position message sets the altitude, leaves category, call sign, velocity and track alone, and changes the position only to a decoder result, never when no pair qualifies |
| AircraftStateAccumulators.MemoRule | javions/adsb/AircraftStateAccumulator.java:58-63 | a position message replaces only the memo of its own parity; other messages leave the memo alone |
| AircraftStateAccumulators.PairingRule | javions/adsb/AircraftStateAccumulator.java:64-83 | the decoder is asked iff the other parity is remembered and `new.ts - other.ts <= 10^10`; it gets the even message's (x, y) first, the odd one's second, and the new message's parity as `mostRecent` |
| AircraftStateAccumulators.NextFieldsConsistent | javions/adsb/AircraftStateAccumulator.java:50-92 | an update keeps the state's invariant |
| ObservableAircraftStates.ObservableAircraftState.constructor | javions/gui/ObservableAircraftState.java:25-44 | altitude, velocity and track unknown, no position, an empty trajectory |
| ObservableAircraftStates.ObservableAircraftState.SetLastMessageTimeStampNs | javions/gui/ObservableAircraftState.java:223-225 | changes only the time stamp |
| ObservableAircraftStates.ObservableAircraftState.SetCategory | javions/gui/ObservableAircraftState.java:233-235 | changes only the category |
| ObservableAircraftStates.ObservableAircraftState.SetCallSign | javions/gui/ObservableAircraftState.java:243-245 | changes only the call sign |
| ObservableAircraftStates.ObservableAircraftState.SetPosition | javions/gui/ObservableAircraftState.java:254-261 | the new state is `WithPosition` of the old one |
| ObservableAircraftStates.ObservableAircraftState.SetAltitude | javions/gui/ObservableAircraftState.java:273-283 | the new state is `WithAltitude` of the old one |
| ObservableAircraftStates.ObservableAircraftState.SetVelocity | javions/gui/ObservableAircraftState.java:291-293 | changes only the velocity |
| ObservableAircraftStates.ObservableAircraftState.SetTrackOrHeading | javions/gui/ObservableAircraftState.java:301-303 | changes only the track or heading |
| ObservableAircraftStates.SetPositionRule | javions/gui/ObservableAircraftState.java:254-261 | the position is always set; with a known altitude, (position, altitude) is appended and the current time stamp recorded as the last addition; nothing else changes |
| ObservableAircraftStates.SetAltitudeRule | javions/gui/ObservableAircraftState.java:273-283 | the altitude is always set; with a known position, an empty trajectory gets one entry, and a trajectory last extended at the current time stamp has its last entry replaced; otherwise the trajectory is unchanged |
| ObservableAircraftStates.ReplaceKeepsLength | javions/gui/ObservableAircraftState.java:278-279 | a replacement keeps the length and every entry but the last |
| ObservableAircraftStates.SettersKeepConsistent | javions/gui/ObservableAircraftState.java:254-283 | the two setters keep the state's invariant and never shorten the trajectory |
| AircraftStateManagers.AircraftStateManager.constructor | javions/gui/AircraftStateManager.java:47-52 | an empty table and an empty set |
| AircraftStateManagers.AircraftStateManager.UpdateWithMessage | javions/gui/AircraftStateManager.java:60-75 | the address is in the table afterwards, an existing entry being reused and a new one built from the database lookup; only that accumulator gets the message, once; the state joins `states` iff it has a position; the last time stamp becomes the message's |
| AircraftStateManagers.AircraftStateManager.Purge | javions/gui/AircraftStateManager.java:81-88 | removes from `states` exactly the states with `last - ts >= 6 * 10^10`, and from the table exactly their entries; every other entry stays as it was |
| AircraftStateManagers.NoPositionNoPurge | javions/gui/AircraftStateManager.java:72-87 | an aircraft without a position is never in `states`, so `purge` never removes its table entry |
| MapParameter.MapParameters.constructor | javions/gui/MapParameters.java:28-33 | requires zoom in `[6, 19]` |
| MapParameter.MapParameters.Scroll | javions/gui/MapParameters.java:95-100 | adds `x` to minX and `y` to minY, zoom unchanged |
| MapParameter.MapParameters.ChangeZoomLevel | javions/gui/MapParameters.java:107-117 | the new view is `Zoomed(old view, delta)`; zoom stays in `[6, 19]` |
| MapParameter.NextZoom | javions/gui/MapParameters.java:109 | the clamped zoom is in `[6, 19]` |
| MapParameter.ZoomedRange | javions/gui/MapParameters.java:108-116 | zoom stays in range; a zero delta, or a delta that pushes past a bound already reached, changes nothing |
| MapParameter.ZoomedExact | javions/gui/MapParameters.java:110-115 | when the zoom changes by an in-range delta, minX and minY are scaled by `2^delta` |
| MapParameter.ScalbInverse | javions/gui/MapParameters.java:111-112 | `Math.scalb` by `n` and then by `-n` gives the value back |
| MapParameter.ZoomedUndo | javions/gui/MapParameters.java:107-117 | a zoom change by an in-range `delta` followed by `-delta` restores zoom, minX and minY |
| MapParameter.ZoomedByRequestedDelta | javions/gui/MapParameters.java:111-112 | from zoom 18 with delta 3 the zoom becomes 19 but minX and minY scale by `2^3`, the requested delta |
| MapParameter.ZoomOverflow | javions/gui/MapParameters.java:109 | `getZoom() + delta` wraps around as an `int`: zoom 19 with delta `2^31 - 1` clamps to 6 |
| Tiles.IsValid | javions/gui/TileManager.java:112-118 | valid iff `0 <= zoom <= 19`, `0 <= x < 2^zoom` and `0 <= y < 2^zoom` |
| Tiles.IsValidExamples | javions/gui/TileManager.java:113-117 | at zoom 0 only (0, 0) is valid; negative indices never are; (524287, 524287) is valid at zoom 19, (524288, 0) is not, and (0, 0) is not valid at zoom 20 |
| Geo.NewGeoPos | javions/GeoPos.java:18-30 | the constructor accepts exactly the latitudes in `[-2^30, 2^30]`, and every longitude |
| Geo.GeoPosBounds | javions/GeoPos.java:28-30 | `2^30` and `-2^30` are valid, `2^30 + 1` and `-2^30 - 1` are not |
| Math2.Clamp | javions/Math2.java:25-28 | requires `min <= max`; the result is in `[min, max]`, is `v` when `v` is in range, `max` above and `min` below |
| Math2.ClampIdempotent | javions/Math2.java:27 | clamping twice is clamping once |
| WakeTurbulence.Of | javions/aircraft/WakeTurbulenceCategory.java:22-29 | LIGHT iff `"L"`, MEDIUM iff `"M"`, HEAVY iff `"H"`; anything else is UNKNOWN and `of` never fails |
| WakeTurbulence.OfLetter | javions/aircraft/WakeTurbulenceCategory.java:24-26 | `of` and the category's letter are inverse on the three known categories |
| WakeTurbulence.OfExamples | javions/aircraft/WakeTurbulenceCategory.java:27 | `""`, `"l"` and `"LM"` are UNKNOWN |
| Validators.CallSignRegex | javions/adsb/CallSign.java:15-24 | the call sign check is exactly a match of `[A-Z0-9]{0,8}` |
| Validators.CallSignExamples | javions/adsb/CallSign.java:15 | the empty string and up to 8 letters or digits pass; lower case, spaces and a ninth character fail |
| Validators.IcaoAddressRegex | javions/aircraft/IcaoAddress.java:14-24 | the address check is exactly a match of `[0-9A-F¨]{6}` |
| Validators.IcaoAddressExamples | javions/aircraft/IcaoAddress.java:14 | `¨¨¨¨¨¨` and `4B1814` pass; lower-case hex and the empty string fail |
| Validators.RegistrationRegex | javions/aircraft/AircraftRegistration.java:15-26 | the registration check is exactly a match of `[A-Z0-9 .?/_+-]+`, with no upper length bound |
| Validators.RegistrationExamples | javions/aircraft/AircraftRegistration.java:15 | `HB-JDC` and `N 12.3/A` pass; lower case and the empty string fail |
| Validators.DescriptionRegex | javions/aircraft/AircraftDescription.java:16-26 | the description check is the empty string or exactly a match of `[ABDGHLPRSTV-][0123468][EJPT-]` |
| Validators.DescriptionExamples | javions/aircraft/AircraftDescription.java:16 | `L2J` and the empty string pass, `L5J` fails |
| Validators.TypeDesignatorRegex | javions/aircraft/AircraftTypeDesignator.java:14-23 | the designator check is the empty string or exactly a match of `[A-Z0-9]{2,4}` |
| Validators.TypeDesignatorExamples | javions/aircraft/AircraftTypeDesignator.java:14 | `A20N`, `B7` and the empty string pass; one character, five characters and lower case fail |

## Left out

- Floating point: `Units`, `WebMercator`, `Math2.asinh`, `GeoPos.longitude`/`latitude`/`toString` and unit conversions are not modelled. Altitudes stay in feet and speeds in knots, as integers or reals, instead of being converted to metres and metres per second; the heading is a fraction of a turn times the `pi` parameter.
- `CprDecoder.decodePosition` is not modelled: it is trigonometry and rounding on doubles. It is a function parameter. Its promises hold by construction: positions are `GeoPos` values, whose latitude is valid by type, and `mostRecent` is always 0 or 1 (`AircraftStateAccumulators.PairingRule`).
- `Math.hypot`, `Math.atan2` and `Math.PI` are parameters. The quadrant rule is proved for angles in `[0, pi/2]`, which is where `atan2` of two magnitudes lies.
- `AircraftDatabase` (zip and CSV file reading) is a function parameter of the state manager.
- `IOException`, the JavaFX property and listener machinery, the GUI controllers, `Main`, and tile download and caching are not modelled: they are I/O, threads and display.
- `Math.scalb` is an exact multiplication by `2^n` on reals; its rounding and overflow are not modelled.
- The manager's one-minute test and the accumulator's 10-second test compare a `long` with a `double` in the source; they are compared exactly on integers.
- The accumulator's `throw new Error` branch for an unknown message kind is not modelled: `Message` is a closed datatype with three variants, so it cannot happen.
- `ByteString.hashCode` is modelled as `Arrays.hashCode`'s formula over the signed bytes; only the equal-bytes, equal-hash property is proved.
- The property that the CRC detects any single-bit error is not modelled; no source function states it.
- AdsbDemodulators.AdsbDemodulator.NextMessage: does not state that the window, when `null` is returned, stopped at the first position where it was no longer full, nor that the window was full at the accepting position. It does state that every position passed was examined and gave no message.
- PowerWindows.PowerWindow.Get: states the value read only for `windowSize >= 2`, as a value of the stored history; `GetFromStream` relates it to the stream while the window is full. For `windowSize == 1` it states only when the read stays in the arrays (`InRangeNarrow`).
- The `Streams.ByteStream` class stands for the `InputStream`: a fixed content read from the front, with no blocking and no errors.
- SamplesDecoders.SamplesDecoder.constructor: requires `batchSize < 2^30` rather than modelling the `NegativeArraySizeException` that `new byte[2 * batchSize]` throws once `2 * batchSize` overflows an `int`.
- PowerComputers.PowerComputer.constructor: requires `batchSize < 2^29` rather than modelling the exception thrown when `2 * batchSize`, or the decoder's `2 * (2 * batchSize)`, overflows an `int`. The only caller, `PowerWindow`, passes `2^16`.
