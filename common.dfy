/** Values shared by the decoder and the encoder: the frame record that crosses
    the codec's boundary, the errors its two operations throw, and small
    byte-sequence helpers. */
module Common {

  datatype Option<+T> = None | Some(value: T)

  /** The two kinds of exception the codec throws: a `TypeError` with a
      message, and the bare string thrown for unimplemented outbound masking. */
  datatype Error = TypeError(message: string) | Thrown(message: string)

  datatype Result<+T> = Ok(value: T) | Err(error: Error)

  /** A frame payload. The decoder turns the body of an opcode-1 frame into a
      text value with the byte library's UTF-8 decoder; that conversion is
      foreign code, so a text payload is tagged and keeps its bytes. */
  datatype Payload = Text(utf8: seq<bv8>) | Binary(bytes: seq<bv8>)
  {
    function Bytes(): seq<bv8> {
      match this
      case Text(b) => b
      case Binary(b) => b
    }
  }

  /** The `{fin, opcode, mask, body}` record emitted by the decoder. */
  datatype Frame = Frame(fin: bv1, opcode: bv4, mask: bv1, body: Payload)

  /** The body of a decoded frame: text exactly when the opcode is 1. */
  function PayloadFor(opcode: bv4, bytes: seq<bv8>): (p: Payload)
    ensures p.Bytes() == bytes
    ensures p.Text? <==> opcode == 1
  {
    if opcode == 1 then Text(bytes) else Binary(bytes)
  }

  /** A freshly created byte buffer of `n` bytes. */
  function Zeros(n: nat): (z: seq<bv8>)
    ensures |z| == n
  {
    seq(n, _ => 0)
  }

  /** The bytes of a sequence of chunks, in order. */
  function Concat(chunks: seq<seq<bv8>>): (bs: seq<bv8>)
  {
    if chunks == [] then [] else Concat(chunks[..|chunks| - 1]) + chunks[|chunks| - 1]
  }

  /** Concatenation is associative; stated once so that proofs about emitted
      records need not rediscover it element by element. */
  lemma ConcatAssoc<T>(p: seq<T>, q: seq<T>, r: seq<T>)
    ensures (p + q) + r == p + (q + r)
  {
  }

  /** The empty sequence is a unit of concatenation. */
  lemma ConcatEmpty<T>(s: seq<T>)
    ensures [] + s == s && s + [] == s
  {
  }
}
