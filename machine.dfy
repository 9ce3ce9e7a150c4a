/** The decoder's byte-at-a-time state machine as a pure transition function.
    `Machine` holds the values of the decoder's closure variables; `Step` is one
    iteration of its parsing loop and `Run` the whole loop over a byte
    sequence. The `Decoder` class is proved to follow `Run`. */
module FrameMachine {
  import opened Common
  import opened Wire
  import opened Bits

  /** The value of the decoder's `state` variable, 0 to 5 in that order. */
  datatype Phase = Flags | Len | ExtLen | Key | RawBody | MaskedBody

  /** The decoder's session state. `length` holds the 32 bits of the
      JavaScript number; its value as a length is `Value(length)`, which is
      what `>>> 0` makes of it after the last extended length byte. `body` is
      `None` where the source holds `null`. */
  datatype Machine = Machine(
    phase: Phase,
    offset: nat,
    fin: bv1,
    opcode: bv4,
    mask: bv1,
    length: Word,
    key: seq<bv8>,
    body: Option<seq<bv8>>)

  /** The state set by the decoder's `reset`. */
  const Initial: Machine := Machine(Flags, 0, 0, 0, 0, ZeroWord, [0, 0, 0, 0], None)

  /** The states the decoder can reach. In every one of them the next buffer
      write is in bounds: the key index is below 4 and the body index is below
      the body's length, which is the declared length. */
  predicate Valid(m: Machine) {
    |m.key| == 4 &&
    match m.phase
    case Flags => m.offset == 0 && m.body.None?
    case Len => m.offset == 0 && m.body.None?
    case ExtLen => m.offset % 8 == 0 && m.offset <= 56 && m.body.None?
    case Key => m.offset < 4 && m.body.Some?
    case RawBody =>
      m.body.Some? && |m.body.value| == Value(m.length) && m.offset < |m.body.value|
    case MaskedBody =>
      m.body.Some? && |m.body.value| == Value(m.length) && m.offset < |m.body.value|
  }

  /** The record built by `flush` from the accumulated fields. */
  function FrameOf(m: Machine): (f: Frame)
    requires m.body.Some?
    ensures f.fin == m.fin && f.opcode == m.opcode && f.mask == m.mask
    ensures f.body.Bytes() == m.body.value && (f.body.Text? <==> m.opcode == 1)
  {
    Frame(m.fin, m.opcode, m.mask, PayloadFor(m.opcode, m.body.value))
  }

  /** `flush`: the state is reset, then the one record is emitted. */
  function Flush(m: Machine): (r: (Machine, seq<Frame>))
    requires m.body.Some?
    ensures Valid(r.0) && r.0 == Initial && r.1 == [FrameOf(m)]
  {
    (Initial, [FrameOf(m)])
  }

  /** Leaving the length states: pick the key or the raw body state, create a
      zeroed body of the declared length, and flush at once when the frame is
      unmasked and empty. */
  function EnterPayload(m: Machine): (r: (Machine, seq<Frame>))
    requires |m.key| == 4 && m.offset == 0
    ensures Valid(r.0)
  {
    var n := Value(m.length);
    var next := m.(phase := if m.mask == 1 then Key else RawBody, body := Some(Zeros(n)));
    if n == 0 && m.mask == 0 then Flush(next) else (next, [])
  }

  /** A state-changing step that emits nothing. */
  predicate Quiet(r: (Machine, seq<Frame>)) { r.1 == [] && Valid(r.0) }

  /** A step that completes a frame: reset first, one record out. */
  predicate Completes(r: (Machine, seq<Frame>)) { r.0 == Initial && |r.1| == 1 }

  function StepLen(m: Machine, b: bv8): (r: (Machine, seq<Frame>))
    requires Valid(m) && m.phase == Len
    ensures Valid(r.0) && (Quiet(r) || Completes(r))
  {
    var mask := HighBit(b);
    var indicator := Indicator(b);
    if indicator < 126 then
      EnterPayload(m.(mask := mask, length := Word(0, 0, 0, indicator)))
    else
      (m.(phase := ExtLen, mask := mask, offset := if indicator == 127 then 56 else 8, length := ZeroWord), [])
  }

  function StepExtLen(m: Machine, b: bv8): (r: (Machine, seq<Frame>))
    requires Valid(m) && m.phase == ExtLen
    ensures Valid(r.0) && (Quiet(r) || Completes(r))
  {
    var length := OrIn(m.length, b, m.offset);
    if m.offset != 0 then (m.(length := length, offset := m.offset - 8), [])
    else EnterPayload(m.(length := length))
  }

  function StepKey(m: Machine, b: bv8): (r: (Machine, seq<Frame>))
    requires Valid(m) && m.phase == Key
    ensures Valid(r.0) && (Quiet(r) || Completes(r))
  {
    var key := m.key[m.offset := b];
    if m.offset + 1 == 4 then
      var next := m.(key := key, offset := 0, phase := MaskedBody, body := Some(Zeros(Value(m.length))));
      if Value(m.length) == 0 then Flush(next) else (next, [])
    else (m.(key := key, offset := m.offset + 1), [])
  }

  /** The value stored for wire byte `b` at the current body index: the byte
      itself in the raw body state, the byte XOR the key byte at the index
      modulo 4 in the masked one. */
  function StoredByte(m: Machine, b: bv8): (r: bv8)
    requires |m.key| == 4
    ensures m.phase == MaskedBody ==> r ^ m.key[m.offset % 4] == b
    ensures m.phase != MaskedBody ==> r == b
  {
    if m.phase == MaskedBody then b ^ m.key[m.offset % 4] else b
  }

  /** The body write: the stored value goes to the current index, and the
      index moves on. */
  function StoreNext(m: Machine, b: bv8): (r: Machine)
    requires |m.key| == 4 && m.body.Some? && m.offset < |m.body.value|
    ensures r.body.Some? && |r.body.value| == |m.body.value| && r.offset == m.offset + 1
  {
    m.(body := Some(m.body.value[m.offset := StoredByte(m, b)]), offset := m.offset + 1)
  }

  /** Both body states: store the byte and flush once the index reaches the
      length. */
  function StepBody(m: Machine, b: bv8): (r: (Machine, seq<Frame>))
    requires Valid(m) && (m.phase == RawBody || m.phase == MaskedBody)
    ensures Valid(r.0) && (Quiet(r) || Completes(r))
  {
    var next := StoreNext(m, b);
    if m.offset + 1 >= Value(m.length) then Flush(next) else (next, [])
  }

  /** One iteration of the parsing loop on byte `b`. Whenever a record is
      emitted it is the only one, and the state has been reset before it. */
  function Step(m: Machine, b: bv8): (r: (Machine, seq<Frame>))
    requires Valid(m)
    ensures Valid(r.0)
    ensures r.1 != [] ==> r.0 == Initial && |r.1| == 1
  {
    match m.phase
    case Flags => (m.(phase := Len, fin := HighBit(b), opcode := OpcodeBits(b)), [])
    case Len => StepLen(m, b)
    case ExtLen => StepExtLen(m, b)
    case Key => StepKey(m, b)
    case RawBody => StepBody(m, b)
    case MaskedBody => StepBody(m, b)
  }

  /** The parsing loop over `bs`: the final state and the records emitted, in
      order. Defined on the last byte so that it follows the loop's progress. */
  function Run(m: Machine, bs: seq<bv8>): (r: (Machine, seq<Frame>))
    requires Valid(m)
    ensures Valid(r.0)
  {
    if bs == [] then (m, [])
    else
      var prev := Run(m, bs[..|bs| - 1]);
      var last := Step(prev.0, bs[|bs| - 1]);
      (last.0, prev.1 + last.1)
  }

  /** Successive `decode` calls, one per chunk. */
  function RunChunks(m: Machine, chunks: seq<seq<bv8>>): (r: (Machine, seq<Frame>))
    requires Valid(m)
    ensures Valid(r.0)
  {
    if chunks == [] then (m, [])
    else
      var prev := RunChunks(m, chunks[..|chunks| - 1]);
      var last := Run(prev.0, chunks[|chunks| - 1]);
      (last.0, prev.1 + last.1)
  }
}
