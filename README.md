# websocket-codec in Dafny

A model of `websocket-codec.js`, a synchronous WebSocket frame codec for the
base framing of section 5.2 of RFC 6455 and the payload masking of section
5.3, with proofs about it.

- **Decoder.** `decoder(emit)` returns `decode(chunk)`, a resumable state
  machine that reads a byte stream one byte at a time, in any split into
  chunks. It passes each whole frame to `emit` as a record
  `{fin, opcode, mask, body}`.
  - The closure variables (`state`, `offset`, `fin`, `opcode`, `mask`,
    `length`, the `key` buffer and the `body` buffer) become the fields of
    the class `Decoding.Decoder`.
  - The calls to `emit` become appends to its `emitted` log.
  - The decoder's six states become `FrameMachine.Phase`.
  - Each state's code becomes a method of the class (`ReadFlags`,
    `ReadLength`, `ReadExtLength`, `ReadKey`, `ReadBody`), each proved to
    perform one step of the pure transition function `FrameMachine.Step`.
  - `Decode` loops over the chunk and is proved to perform
    `FrameMachine.Run` on it.
  - `Wire.ParseAll` is an independent reference parser over the whole byte
    stream. `Correspondence.DecodeMatchesParse` proves that the machine
    emits exactly the parser's records, whatever the chunk boundaries.
- **Encoder.** `encoder(emit)` returns a function from a record to the
  chunks it emits.
  - It is modelled as the pure function `Encoding.Encode`, which returns the
    sequence of `emit` calls or the exception thrown before any of them.
  - `RoundTrip.EncodeThenDecode` feeds the encoder's output to a fresh
    decoder and proves that it gets the record back.

Two behaviours of the source are kept as they are written:

- **The decoder's 8-byte length.** The decoder ORs each extended length
  byte in with `<<`, and JavaScript takes the shift count modulo 32. So the
  eight bytes of a 64-bit length land on the bytes of a single 32-bit word,
  and the length read is the high 32-bit word OR-ed with the low one.
  `Bits.Word` holds that word one byte per field. `Wire.LengthWord` states
  the result, `Shifts.LengthWordShifts` proves it equal to the 32-bit
  pattern that JavaScript's `<<` and `|=` build, and
  `Wire.Length64HighWord` shows a header whose high word is not zero.
- **The encoder's high length word.** For lengths of 2^32 and more, the
  encoder writes bits 8-15, 16-23, 8-15 and 0-7 of `floor(len / 2^32)` as
  the high word. `Encoding.HighWordQuirk` states this. Below 2^32 these four
  bytes are zero. `Encoding.HeaderLayout` proves the whole header layout:
  byte 0 is `fin * 128 + opcode`, then the length byte, then the length
  big-endian in 2 bytes or in the low word of 8.

Files:

| file | module | contents |
|---|---|---|
| `common.dfy` | `Common` | records, errors, option and result types |
| `bits.dfy` | `Bits` | the 32-bit `length` word and how extended length bytes are OR-ed into it |
| `shifts.dfy` | `Shifts` | the same word as a 32-bit bit-vector built with shifts and ORs |
| `wire.dfy` | `Wire` | frame layout and the reference parser |
| `machine.dfy` | `FrameMachine` | the decoder as a pure transition function |
| `machine_facts.dfy` | `MachineFacts` | runs over byte sequences and chunk boundaries |
| `simulation.dfy` | `Simulation` | the state reached after each prefix of a frame |
| `correspondence.dfy` | `Correspondence` | the machine agrees with the reference parser |
| `decoder.dfy` | `Decoding` | the `Decoder` class |
| `properties.dfy` | `DecoderProperties` | single-frame consequences |
| `encoder.dfy` | `Encoding` | the encoder |
| `round_trip.dfy` | `RoundTrip` | encode, then decode |

## Model

| member | source | states |
|---|---|---|
| Bits.Value | websocket-codec.js:86 | `length >>> 0` reads the 32-bit pattern as an unsigned number below 2^32 |
| Bits.Ext16 | websocket-codec.js:75-84 | the two bytes after indicator 126, OR-ed in at offsets 8 and 0, give the word `b0<<8 \| b1` |
| Bits.Ext64Prefix8 | websocket-codec.js:75-84 | the eight bytes after indicator 127, OR-ed in at offsets 56 down to 0 (taken modulo 32), give the high word OR the low word |
| Bits.ExtAccSnoc | websocket-codec.js:80-84 | each extended length byte is OR-ed in at an offset 8 below the previous one |
| Shifts.OrInShifts | websocket-codec.js:81 | `Bits.OrIn` is `length \|= byte << offset` on the 32-bit pattern, with the shift count taken modulo 32 |
| Shifts.ExtAccShifts | websocket-codec.js:80-84 | `Bits.ExtAcc`, the lane-wise accumulation over the extended length bytes, is the 32-bit pattern that the loop of shifts and ORs builds |
| Shifts.ShiftOrAllSnoc | websocket-codec.js:81-83 | the loop's pattern after one more byte is the old pattern OR the byte shifted by the next offset |
| Shifts.LengthWordShifts | websocket-codec.js:75-86 | the reference parser's length word equals the pattern JavaScript builds from the extended length bytes, starting at offset 8 or 56 |
| Wire.ExtSize | websocket-codec.js:69-75 | indicator below 126: no extended length; 126: two bytes; 127: eight bytes |
| Wire.KeySize | websocket-codec.js:67-70 | four key bytes exactly when the mask bit is set, none otherwise |
| Wire.PayloadLength | websocket-codec.js:68-89 | the length the decoder acts on is below 2^32 |
| Wire.Unmask | websocket-codec.js:109 | masking keeps the payload length |
| Wire.PayloadOf | websocket-codec.js:101-111 | a whole frame's payload has exactly the declared length |
| Wire.FrameAt | websocket-codec.js:61-63 | the record of a frame carries FIN (bit 7 of byte 0), the opcode (low 4 bits of byte 0), MASK (bit 7 of byte 1) and the payload, as text exactly when the opcode is 1 |
| Wire.ParseAll | websocket-codec.js:48-112 | the reference parser always stops before an incomplete frame |
| Wire.RecordBytes | websocket-codec.js:105-109 | payload byte i is wire byte i after the header, XOR-ed with key byte i mod 4 in a masked frame and unchanged otherwise |
| Wire.ParseWhole | websocket-codec.js:48-112 | a stream that is exactly one whole frame parses as that one record |
| Wire.LengthWordStable | websocket-codec.js:66-91 | the length depends only on the length bytes, not on anything after them |
| Wire.HeaderStable | websocket-codec.js:66-99 | bytes after the length bytes change neither the payload length nor the header size |
| Wire.MaskKeyStable | websocket-codec.js:92-93 | bytes after the header do not change the masking key |
| Wire.FrameStable | websocket-codec.js:101-125 | bytes after a whole frame change neither its size nor its record |
| Wire.ParseAllSnoc | websocket-codec.js:48-112 | one more byte either completes the pending frame, which is appended to the records, or is added to the pending bytes |
| Wire.UnmaskTwice | websocket-codec.js:109 | unmasking twice with the same key gives the payload back |
| Wire.Length7 | websocket-codec.js:68-69 | a length indicator below 126 is the payload length itself |
| Wire.Length16 | websocket-codec.js:75-84 | with indicator 126 the length is `bs[2]*256 + bs[3]` |
| Wire.Length64 | websocket-codec.js:75-86 | with indicator 127 and a zero high word, the length is the low word read big-endian |
| Wire.Length64HighWord | websocket-codec.js:81 | an 8-byte length of 2^32 (high word 1, low word 0) is read as 1 |
| FrameMachine.Valid | websocket-codec.js:92-110 | in every reachable state the next buffer write is in bounds: key index below 4, body index below the body length, which is the declared length |
| FrameMachine.FrameOf | websocket-codec.js:116-122 | the flushed record carries the accumulated fin, opcode and mask, and the body, as text exactly when the opcode is 1 |
| FrameMachine.Flush | websocket-codec.js:115-125 | flush leaves the reset state and emits exactly one record |
| FrameMachine.EnterPayload | websocket-codec.js:70-72 | leaving the length states yields a valid state |
| FrameMachine.StepLen | websocket-codec.js:66-79 | state 1 either emits nothing or resets and emits one record |
| FrameMachine.StepExtLen | websocket-codec.js:80-91 | state 2 either emits nothing or resets and emits one record |
| FrameMachine.StepKey | websocket-codec.js:92-100 | state 3 either emits nothing or resets and emits one record |
| FrameMachine.StoreNext | websocket-codec.js:105-110 | a body write keeps the body length and advances the index by one |
| FrameMachine.StepBody | websocket-codec.js:101-111 | states 4 and 5 either emit nothing or reset and emit one record |
| FrameMachine.Step | websocket-codec.js:60-111 | a byte keeps the state valid; any record it emits is the only one, and the state is reset before it |
| FrameMachine.Run | websocket-codec.js:48-112 | the loop keeps the state valid |
| FrameMachine.RunChunks | websocket-codec.js:39-113 | successive `decode` calls, one per chunk, keep the state valid |
| FrameMachine.StoredByte | websocket-codec.js:105-109 | in the raw body state the stored value is the wire byte; in the masked one, XOR-ing it with the key byte at the index modulo 4 gives the wire byte back |
| MachineFacts.RunAppend | websocket-codec.js:17-21 | feeding `a` then `b` ends in the state and emits the records of feeding `a + b` |
| MachineFacts.RunChunksIsRun | websocket-codec.js:39-113 | successive `decode` calls act as one call on the concatenated chunks |
| MachineFacts.ChunkBoundariesIrrelevant | websocket-codec.js:17-21 | two splits of the same stream give the same records and the same final state |
| MachineFacts.StepExtMid | websocket-codec.js:81-84 | an extended length byte before the last is OR-ed in, and the offset drops by 8 |
| MachineFacts.StepExtLast | websocket-codec.js:85-90 | the last extended length byte is OR-ed in at offset 0, then the length states are left |
| MachineFacts.StepKeyMid | websocket-codec.js:93 | a key byte before the fourth is stored at the offset, which then advances |
| MachineFacts.StepKeyLast | websocket-codec.js:94-99 | the fourth key byte starts the masked body with a zeroed body, flushing at once when the length is 0 |
| MachineFacts.StepBodyMid | websocket-codec.js:105-110 | a body byte before the last is stored and nothing is emitted |
| MachineFacts.StepBodyLast | websocket-codec.js:106-110 | the last body byte is stored, then the record is flushed |
| Simulation.FromInitial | websocket-codec.js:61-65 | the first byte gives fin and opcode and moves to state 1 |
| Simulation.FromLen | websocket-codec.js:66-79 | the second byte gives the mask, then either ends the length bytes or starts the extended length at offset 56 or 8 |
| Simulation.FromHeader | websocket-codec.js:69-73 | after the length bytes, a masked frame waits for its key, an unmasked non-empty frame for its body, and an unmasked empty frame is emitted |
| Simulation.FromExtMid | websocket-codec.js:80-84 | an extended length byte before the last moves 8 bits down |
| Simulation.FromExtLast | websocket-codec.js:85-90 | the last extended length byte leaves the length states |
| Simulation.FromKeyMid | websocket-codec.js:92-93 | a key byte before the fourth extends the key read so far |
| Simulation.FromKeyLast | websocket-codec.js:94-99 | the fourth key byte emits an empty masked frame, or starts its body |
| Simulation.FromBodyMid | websocket-codec.js:101-111 | a body byte before the last extends the body received so far |
| Simulation.FromBodyLast | websocket-codec.js:101-111 | the last body byte emits the record with the whole received body |
| Correspondence.HeaderDone | websocket-codec.js:69-73 | once the length bytes are read, the frame is whole exactly when it is unmasked and empty |
| Correspondence.ExtAccComplete | websocket-codec.js:75-86 | the OR-ed extended length bytes give the header's length word |
| Correspondence.StepFromReset | websocket-codec.js:61-65 | the first byte does what the reference parser expects |
| Correspondence.StepFromFirst | websocket-codec.js:66-79 | the second byte does what the reference parser expects |
| Correspondence.StepInExtMid | websocket-codec.js:80-84 | an extended length byte before the last does what the reference parser expects |
| Correspondence.StepInExtLast | websocket-codec.js:85-90 | the last extended length byte does what the reference parser expects |
| Correspondence.StepInKeyMid | websocket-codec.js:92-93 | a key byte before the fourth does what the reference parser expects |
| Correspondence.StepInKeyLastEmpty | websocket-codec.js:94-98 | the fourth key byte of an empty masked frame emits the frame the parser reads |
| Correspondence.StepInKeyLastBody | websocket-codec.js:94-97 | the fourth key byte of a non-empty frame does what the reference parser expects |
| Correspondence.StepInBodyMid | websocket-codec.js:101-111 | a body byte before the last does what the reference parser expects |
| Correspondence.StepInBodyLast | websocket-codec.js:101-111 | the last body byte emits the frame the parser reads |
| Correspondence.StepAfter | websocket-codec.js:60-111 | every byte after any incomplete prefix does what the reference parser expects |
| Correspondence.DecodeMatchesParse | websocket-codec.js:48-112 | a fresh decoder over any stream emits exactly the parser's records, in order, and ends in the state for the pending bytes |
| Correspondence.DecodeChunksMatchesParse | websocket-codec.js:39-113 | any split of a stream into `decode` calls emits the parser's records for the whole stream |
| Decoding.Out | websocket-codec.js:124 | one event is logged per record |
| Decoding.OutAppend | websocket-codec.js:124 | the log of consecutive records is the concatenation of their logs |
| Decoding.OutLogsFrames | websocket-codec.js:124 | each record is logged as itself, in order |
| Decoding.Decoder.constructor | websocket-codec.js:15-23 | a new decoder is valid and reset, with nothing emitted |
| Decoding.Decoder.Reset | websocket-codec.js:25-37 | every variable returns to its initial value, the key is zeroed and the body is null |
| Decoding.Decoder.Flush | websocket-codec.js:115-125 | the state is reset, and only then is the record of the old fields emitted |
| Decoding.Decoder.CreateBody | websocket-codec.js:71 | a fresh, zeroed body buffer of the declared length; nothing else changes |
| Decoding.Decoder.EnterBody | websocket-codec.js:70-72 | picks state 3 or 4, creates the body, and flushes an unmasked empty frame, as `EnterPayload` does |
| Decoding.Decoder.ReadFlags | websocket-codec.js:61-65 | performs the machine's step for state 0 |
| Decoding.Decoder.ReadLength | websocket-codec.js:66-79 | performs the machine's step for state 1 |
| Decoding.Decoder.ReadExtLength | websocket-codec.js:80-91 | performs the machine's step for state 2 |
| Decoding.Decoder.ReadKey | websocket-codec.js:92-100 | performs the machine's step for state 3 |
| Decoding.Decoder.StoreByte | websocket-codec.js:105-110 | writes the body byte in bounds, XOR-ed with the key in a masked frame |
| Decoding.Decoder.ReadBody | websocket-codec.js:101-111 | performs the machine's step for states 4 and 5 |
| Decoding.Decoder.ProcessByte | websocket-codec.js:60-111 | one loop iteration performs `Step` and logs what it emits |
| Decoding.Decoder.Decode | websocket-codec.js:39-113 | a falsy chunk is logged unchanged and nothing else changes; a non-binary chunk throws the TypeError with nothing changed; a binary chunk performs `Run` |
| DecoderProperties.PrefixIncomplete | websocket-codec.js:48-112 | the bytes of a frame short of its end are not a whole frame |
| DecoderProperties.QuietBeforeLastByte | websocket-codec.js:106-110 | a fresh decoder emits nothing before a frame's last byte |
| DecoderProperties.DecodeOneFrame | websocket-codec.js:48-125 | on a frame's last byte a fresh decoder emits that frame's record, only it, and is reset |
| DecoderProperties.DecodedRecord | websocket-codec.js:61-125 | the record has fin, opcode and mask from the header, the declared length, and each payload byte unmasked with key byte i mod 4 |
| DecoderProperties.LengthBytesConsumed | websocket-codec.js:66-99 | after the length bytes of a frame that is not yet whole: offset 0, the declared length, a zeroed body, and the key or raw body state |
| DecoderProperties.ReadingLengthBytes | websocket-codec.js:75-84 | the decoder stays in state 2 while extended length bytes remain |
| DecoderProperties.EmptyUnmaskedFrame | websocket-codec.js:72 | an unmasked empty frame is emitted, with an empty body, on its last length byte |
| DecoderProperties.EmptyMaskedFrame | websocket-codec.js:92-99 | a masked empty frame still takes four key bytes, and is emitted on the fourth |
| DecoderProperties.KeyBytesQuiet | websocket-codec.js:92-99 | before the fourth key byte of a masked empty frame nothing is emitted |
| Encoding.Byte | websocket-codec.js:184-203 | a number below 256 as a byte |
| Encoding.ByteValue | websocket-codec.js:191-203 | `x >> 8k & 0xff` is below 256 |
| Encoding.Nibble | websocket-codec.js:157 | `opcode & 0xf` of an integer is the integer modulo 16 |
| Encoding.FinBit | websocket-codec.js:144-150 | fin is 0 exactly when present and falsy |
| Encoding.OpcodeOf | websocket-codec.js:152-161 | a present opcode keeps its low four bits; an absent one is 1 for a string body and 2 otherwise |
| Encoding.LengthByte | websocket-codec.js:185-187 | the length below 126, otherwise 126 below 2^16, otherwise 127 |
| Encoding.Header | websocket-codec.js:173-174 | the header is 2, 4 or 10 bytes by the length |
| Encoding.Encode | websocket-codec.js:130-215 | `undefined` emits only the end of the stream; an accepted record emits one or two chunks, the header first |
| Encoding.EncodeRefuses | websocket-codec.js:141-211 | a record is refused exactly for a non-binary body, a non-number opcode or a set mask, and the first of these, in that order, decides the exception |
| Encoding.EncodeOutputs | websocket-codec.js:213-214 | the header chunk, then the body chunk exactly when the body is not empty |
| Encoding.BigEndian32 | websocket-codec.js:200-203 | four bytes, high first, make up a number below 2^32 |
| Encoding.BigEndian16 | websocket-codec.js:191-192 | two bytes, high first, make up a number below 2^16 |
| Encoding.ZeroBytes | websocket-codec.js:195-199 | every byte of 0 is 0 |
| Encoding.HeaderLayout | websocket-codec.js:171-205 | below 2^32: byte 0 is `fin * 128 + opcode`; no mask bit; 2 bytes with the length in byte 1 below 126, 4 bytes with 126 and the length big-endian in bytes 2-3 below 2^16, otherwise 10 bytes with 127, bytes 2-5 zero and the length big-endian in bytes 6-9; and the decoder reads back that header size and length |
| Encoding.ShortHeader | websocket-codec.js:185-187 | below 126 the second byte is the length, and the decoder reads it back |
| Encoding.MediumHeader | websocket-codec.js:189-193 | below 2^16: indicator 126 and the length big-endian in bytes 2-3, read back by the decoder |
| Encoding.LongHeaderBytes | websocket-codec.js:194-203 | from 2^16 to below 2^32: indicator 127, bytes 2-5 zero, the length big-endian in bytes 6-9 |
| Encoding.LongHeader | websocket-codec.js:194-203 | the same 10-byte layout, and the decoder reads back that header size and length |
| Encoding.FirstByte | websocket-codec.js:184 | `fin << 7 \| opcode` is `fin * 128 + opcode`: fin in bit 7, the opcode in bits 0-3, bits 4-6 clear |
| Encoding.SmallLengthByte | websocket-codec.js:185-186 | a length byte below 126 has no mask bit and no extended length |
| Encoding.HighWordQuirk | websocket-codec.js:195-199 | bytes 2-5 are bits 8-15, 16-23, 8-15 and 0-7 of `floor(len / 2^32)`; for 2^40 they are 1, 0, 1, 0 |
| RoundTrip.Chunks | websocket-codec.js:213-214 | one chunk per `emit` call |
| RoundTrip.EncodedFrameWhole | websocket-codec.js:171-214 | a header followed by its body is exactly one whole unmasked frame with the header's fin and opcode |
| RoundTrip.EncodedFrameRecord | websocket-codec.js:171-214 | that frame's record carries the body unchanged |
| RoundTrip.EncodedFrameParses | websocket-codec.js:171-214 | the reference parser reads that one record and nothing more |
| RoundTrip.EncodeThenDecode | websocket-codec.js:130-215 | for a body below 2^32 bytes, a fresh decoder fed the encoder's chunks emits exactly one record, with the same fin, the opcode's low four bits, no mask and the same body bytes, and is left reset |

## Left out

- The `bodec` library is not part of this model.
  - `isBinary` becomes the shape of the input: `Decoding.Input` for chunks, `Encoding.Body` for record bodies.
  - `create` becomes a fresh zero-filled buffer. Node's `Buffer` may not zero-fill, but the decoder writes every byte before a flush, so the record does not depend on the initial contents.
  - `toUnicode` and `fromUnicode` are not modelled. A text body is carried as its UTF-8 bytes tagged `Text`, with no claim about Unicode.
- The `emit` callback is an append to `Decoder.emitted`. A callback that calls back into the decoder, or throws, is not modelled. Neither are the stream and backpressure remarks at the top of the file.
- The commented-out debug logging in the decode loop is not modelled.
- Outbound masking is not implemented in the source. The model keeps only the exception it throws. It also leaves out the masked header, 4 bytes longer, that the encoder builds before throwing, because nothing observes that header.
- Encoding.Nibble: opcodes are modelled as integers only. A non-integer number goes through JavaScript's `ToInt32` before `& 0xf`, and that case is not modelled.
- Encoding.Encode: the record's properties are modelled as options. A present `fin` or `mask` is its truthiness. The JavaScript `in` and `typeof` checks become absent values and `NotNumber`.
- Bits.OrIn is defined for offsets that are multiples of 8 only. These are the only offsets the decoder uses.
- Shifts.ShiftLeft, like Bits.OrIn, is defined for offsets that are multiples of 8 only.
- Encoding.Header: for lengths of 2^53 and more, JavaScript numbers lose precision. The model computes with exact integers.
- RoundTrip.EncodeThenDecode is stated for bodies shorter than 2^32 bytes. Above that, the decoder's reading of the 8-byte length does not give back the encoder's length.
