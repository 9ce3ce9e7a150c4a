/** The decoder object: the closure variables of the source's `decoder` as
    fields, the parsing loop as a method over each chunk, and `emit` as an
    append to the `emitted` log. Every call is proved to do what the pure
    state machine `FrameMachine.Run` does, and so (by
    `Correspondence.DecodeMatchesParse`) what the reference parser reads. */
module Decoding {
  import opened Common
  import opened Bits
  import opened Wire
  import opened FrameMachine
  import opened MachineFacts

  /** The falsy values JavaScript can pass as a chunk; each is handed on to
      `emit` unchanged. */
  datatype FalsyValue = Undefined | Null | False | Zero | NaN | EmptyString

  /** A chunk given to `decode`: a falsy value, a binary value holding bytes,
      or any other (truthy, non-binary) value. */
  datatype Input = Falsy(value: FalsyValue) | Binary(bytes: seq<bv8>) | NotBinary

  /** What is passed to `emit`: a decoded record, or a falsy chunk passed
      through. */
  datatype Event = FrameOut(frame: Frame) | PassOn(value: FalsyValue)

  /** The events for records emitted in order. */
  function Out(frames: seq<Frame>): (evs: seq<Event>)
    ensures |evs| == |frames|
  {
    if frames == [] then [] else Out(frames[..|frames| - 1]) + [FrameOut(frames[|frames| - 1])]
  }

  /** The event log of a sequence of records is the logs of its parts, one
      after the other, each record as a `FrameOut` at its own position. */
  lemma {:induction false} OutAppend(a: seq<Frame>, b: seq<Frame>)
    ensures Out(a + b) == Out(a) + Out(b)
    decreases |b|
  {
    if b == [] {
      assert a + b == a;
    } else {
      var init := b[..|b| - 1];
      assert (a + b)[..|a + b| - 1] == a + init;
      OutAppend(a, init);
      ConcatAssoc(Out(a), Out(init), [FrameOut(b[|b| - 1])]);
    }
  }

  /** Each record is logged as itself. */
  lemma {:induction false} OutLogsFrames(frames: seq<Frame>)
    ensures forall i :: 0 <= i < |frames| ==> Out(frames)[i] == FrameOut(frames[i])
    decreases |frames|
  {
    if frames != [] {
      OutLogsFrames(frames[..|frames| - 1]);
    }
  }

  /** One more byte of a prefix: the state and the log after one more step. */
  lemma RunPrefixStep(start: Machine, bytes: seq<bv8>, i: nat, log: seq<Event>)
    requires FrameMachine.Valid(start) && i < |bytes|
    ensures var before := Run(start, bytes[..i]);
            var r := Step(before.0, bytes[i]);
            Run(start, bytes[..i + 1]).0 == r.0 &&
            log + Out(Run(start, bytes[..i + 1]).1) == (log + Out(before.1)) + Out(r.1)
  {
    var before := Run(start, bytes[..i]);
    var r := Step(before.0, bytes[i]);
    assert bytes[..i + 1][..i] == bytes[..i];
    assert Run(start, bytes[..i + 1]) == (r.0, before.1 + r.1);
    OutAppend(before.1, r.1);
    ConcatAssoc(log, Out(before.1), Out(r.1));
  }

  class Decoder {
    var state: Phase
    var offset: nat
    var fin: bv1
    var opcode: bv4
    var mask: bv1
    var length: Word
    /** The masking key buffer, created once and zeroed by every reset. */
    const key: array<bv8>
    /** The body buffer, created afresh for each frame; `null` between frames. */
    var body: array?<bv8>
    /** Everything passed to `emit`, in order. */
    var emitted: seq<Event>

    /** The decoder's variables as a state of the pure machine. */
    function Snapshot(): Machine
      reads this, key, body
    {
      Machine(state, offset, fin, opcode, mask, length, key[..],
              if body == null then None else Some(body[..]))
    }

    /** The variables hold a state the machine can reach, and the two buffers
        are distinct. */
    predicate Valid()
      reads this, key, body
    {
      key.Length == 4 && body != key && FrameMachine.Valid(Snapshot())
    }

    /** A fresh decoder: reset, nothing emitted. */
    constructor ()
      ensures Valid() && Snapshot() == Initial && emitted == []
    {
      key := new bv8[4];
      emitted := [];
      new;
      Reset();
    }

    /** `reset`: every variable back to its initial value, the key zeroed in
        place. */
    method Reset()
      requires key.Length == 4
      modifies this, key
      ensures Snapshot() == Initial && emitted == old(emitted)
    {
      state := Flags;
      offset := 0;
      fin := 0;
      opcode := 0;
      mask := 0;
      length := ZeroWord;
      key[0] := 0;
      key[1] := 0;
      key[2] := 0;
      key[3] := 0;
      body := null;
    }

    /** `flush`: build the record from the current fields, reset, and only
        then emit the record. */
    method Flush()
      requires key.Length == 4 && body != null
      modifies this, key
      ensures Snapshot() == Initial
      ensures emitted == old(emitted) + Out([FrameOf(old(Snapshot()))])
    {
      var output := Frame(fin, opcode, mask, PayloadFor(opcode, body[..]));
      Reset();
      emitted := emitted + [FrameOut(output)];
      assert [output][..0] == [];
    }

    /** The body buffer for the declared length, zero-filled. */
    method CreateBody()
      requires key.Length == 4
      modifies this
      ensures fresh(body) && body.Length == Value(length) && body[..] == Zeros(Value(length))
      ensures state == old(state) && offset == old(offset) && fin == old(fin) && opcode == old(opcode)
      ensures mask == old(mask) && length == old(length) && emitted == old(emitted)
    {
      body := new bv8[Value(length)](_ => 0);
    }

    /** Leaving the length states (the same code ends states 1 and 2): pick
        the key or the raw body state, create the body buffer, and flush at
        once an unmasked frame with an empty payload. */
    method EnterBody()
      requires key.Length == 4 && offset == 0
      modifies this, key
      ensures Valid() && (body == null || fresh(body))
      ensures var r := EnterPayload(old(Snapshot())); Snapshot() == r.0 && emitted == old(emitted) + Out(r.1)
    {
      state := if mask == 1 then Key else RawBody;
      CreateBody();
      if Value(length) == 0 && mask == 0 {
        Flush();
      }
    }

    /** State 0: the first header byte gives `fin` and `opcode`. */
    method ReadFlags(b: bv8)
      requires Valid() && state == Flags
      modifies this
      ensures Valid() && body == old(body)
      ensures var r := Step(old(Snapshot()), b); Snapshot() == r.0 && emitted == old(emitted) + Out(r.1)
    {
      fin := HighBit(b);
      opcode := OpcodeBits(b);
      state := Len;
    }

    /** State 1: the second header byte gives `mask` and the length, or
        announces an extended length. */
    method ReadLength(b: bv8)
      requires Valid() && state == Len
      modifies this, key
      ensures Valid() && (body == null || fresh(body))
      ensures var r := StepLen(old(Snapshot()), b); Snapshot() == r.0 && emitted == old(emitted) + Out(r.1)
    {
      mask := HighBit(b);
      length := Word(0, 0, 0, Indicator(b));
      if Indicator(b) < 126 {
        EnterBody();
      } else {
        offset := if Indicator(b) == 127 then 56 else 8;
        length := ZeroWord;
        state := ExtLen;
      }
    }

    /** State 2: an extended length byte is OR-ed in at `offset`, which the
        source's shift takes modulo 32. */
    method ReadExtLength(b: bv8)
      requires Valid() && state == ExtLen
      modifies this, key
      ensures Valid() && (body == null || fresh(body))
      ensures var r := StepExtLen(old(Snapshot()), b); Snapshot() == r.0 && emitted == old(emitted) + Out(r.1)
    {
      length := OrIn(length, b, offset);
      if offset != 0 {
        offset := offset - 8;
      } else {
        EnterBody();
      }
    }

    /** State 3: a masking key byte goes into the key buffer. */
    method ReadKey(b: bv8)
      requires Valid() && state == Key
      modifies this, key
      ensures Valid() && (body == null || body == old(body) || fresh(body))
      ensures var r := StepKey(old(Snapshot()), b); Snapshot() == r.0 && emitted == old(emitted) + Out(r.1)
    {
      key[offset] := b;
      offset := offset + 1;
      if offset == 4 {
        offset := 0;
        state := MaskedBody;
        CreateBody();
        if Value(length) == 0 {
          Flush();
        }
      }
    }

    /** The body write of states 4 and 5: the byte, XOR-ed with the key byte
        at the index modulo 4 in a masked frame, goes to the current index. */
    method StoreByte(b: bv8)
      requires Valid() && (state == RawBody || state == MaskedBody)
      modifies this, body
      ensures body == old(body) && body != null && body != key
      ensures Snapshot() == StoreNext(old(Snapshot()), b) && emitted == old(emitted)
    {
      if state == RawBody {
        body[offset] := b;
      } else {
        body[offset] := b ^ key[offset % 4];
      }
      offset := offset + 1;
    }

    /** States 4 and 5: store the byte, and flush once the index reaches the
        length. */
    method ReadBody(b: bv8)
      requires Valid() && (state == RawBody || state == MaskedBody)
      modifies this, key, body
      ensures Valid() && (body == null || body == old(body))
      ensures var r := FrameMachine.StepBody(old(Snapshot()), b);
              Snapshot() == r.0 && emitted == old(emitted) + Out(r.1)
    {
      StoreByte(b);
      if offset >= Value(length) {
        Flush();
      }
    }

    /** One iteration of the parsing loop: the machine's `Step`, with any
        record it completes appended to `emitted`. */
    method ProcessByte(b: bv8)
      requires Valid()
      modifies this, key, body
      ensures Valid()
      ensures body == null || body == old(body) || fresh(body)
      ensures Snapshot() == Step(old(Snapshot()), b).0
      ensures emitted == old(emitted) + Out(Step(old(Snapshot()), b).1)
    {
      StepDispatch(Snapshot(), b);
      if state == Flags {
        ReadFlags(b);
      } else if state == Len {
        ReadLength(b);
      } else if state == ExtLen {
        ReadExtLength(b);
      } else if state == Key {
        ReadKey(b);
      } else {
        ReadBody(b);
      }
    }

    /** `decode`: a falsy chunk is passed to `emit` and nothing else happens;
        a non-binary chunk throws before any byte is read; the bytes of a
        binary chunk go through the parsing loop one at a time, exactly as
        `Run` does. */
    method Decode(chunk: Input) returns (outcome: Result<()>)
      requires Valid()
      modifies this, key, body
      ensures Valid()
      ensures chunk.Falsy? ==>
                outcome == Ok(()) && Snapshot() == old(Snapshot()) && emitted == old(emitted) + [PassOn(chunk.value)]
      ensures chunk.NotBinary? ==>
                outcome == Err(TypeError("chunk must be binary value")) &&
                Snapshot() == old(Snapshot()) && emitted == old(emitted)
      ensures chunk.Binary? ==>
                outcome == Ok(()) && Snapshot() == Run(old(Snapshot()), chunk.bytes).0 &&
                emitted == old(emitted) + Out(Run(old(Snapshot()), chunk.bytes).1)
    {
      if chunk.Falsy? {
        emitted := emitted + [PassOn(chunk.value)];
        return Ok(());
      }
      if chunk.NotBinary? {
        return Err(TypeError("chunk must be binary value"));
      }
      var bytes := chunk.bytes;
      ghost var start := Snapshot();
      var i := 0;
      while i < |bytes|
        invariant 0 <= i <= |bytes|
        invariant Valid()
        invariant body == null || body == old(body) || fresh(body)
        invariant Snapshot() == Run(start, bytes[..i]).0
        invariant emitted == old(emitted) + Out(Run(start, bytes[..i]).1)
      {
        ProcessByte(bytes[i]);
        RunPrefixStep(start, bytes, i, old(emitted));
        i := i + 1;
      }
      assert bytes[..i] == bytes;
      return Ok(());
    }
  }
}
