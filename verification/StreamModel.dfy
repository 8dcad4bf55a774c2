/** What the bounded FIFO of bytes under the sender and the reassembler does (byte_stream.{hh,cc}). */
module StreamModel {
  import opened Types

  /** A stream is the whole sequence of bytes ever accepted, and how many of them were popped. */
  datatype RawStream = RawStream(all: seq<byte>, read: nat, capacity: nat, ended: bool, error: bool) {
    predicate Wf() { read <= |all| <= read + capacity }
  }

  type Stream = s: RawStream | s.Wf() witness RawStream([], 0, 0, false, false)

  function NewStream(capacity: nat): Stream { RawStream([], 0, capacity, false, false) }

  function Buffer(s: Stream): seq<byte> { s.all[s.read..] }
  function Room(s: Stream): nat { s.capacity - (|s.all| - s.read) }
  predicate Eof(s: Stream) { s.ended && s.read == |s.all| }

  function Write(s: Stream, data: seq<byte>): Stream {
    s.(all := s.all + data[..Min(|data|, Room(s))])
  }

  /** The bytes `read(len)` returns; it then pops them. */
  function Peek(s: Stream, len: nat): seq<byte> {
    s.all[s.read..s.read + Min(len, |s.all| - s.read)]
  }

  function Pop(s: Stream, len: nat): Stream {
    s.(read := s.read + Min(len, |s.all| - s.read))
  }

  function EndInput(s: Stream): Stream { s.(ended := true) }
  function SetError(s: Stream): Stream { s.(error := true) }

  // ---------------------------------------------------------------- first in, first out

  /** A read takes the oldest bytes, as many as asked and there are, and leaves the others in order. */
  lemma ReadTakesFront(s: Stream, len: nat)
    ensures Buffer(s) == Peek(s, len) + Buffer(Pop(s, len))
    ensures |Peek(s, len)| == Min(len, |Buffer(s)|)
    ensures Pop(s, len) == s.(read := s.read + |Peek(s, len)|)
  {
  }

  /** A write adds the longest prefix that fits behind the bytes there, and buffered bytes and room fill the capacity. */
  lemma WriteAddsBack(s: Stream, data: seq<byte>)
    ensures var n := Min(|data|, s.capacity - |Buffer(s)|);
            Buffer(Write(s, data)) == Buffer(s) + data[..n] && Write(s, data) == s.(all := s.all + data[..n])
    ensures Room(s) + |Buffer(s)| == s.capacity
  {
  }
}
