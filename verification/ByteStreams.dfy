/** The byte stream itself: a string buffer and its counters, updated in place (byte_stream.{hh,cc}). */
module ByteStreams {
  import opened Types
  import M = StreamModel

  class ByteStream {
    var str: seq<byte>
    const capacity: nat
    var curCap: nat
    var bytesRead: nat
    var bytesWritten: nat
    var inputIsEnd: bool
    var hasError: bool
    ghost var history: seq<byte>

    /** The three redundant counters agree with the buffer and with every byte ever accepted. */
    ghost predicate Valid()
      reads this
    {
      && bytesRead <= bytesWritten == |history|
      && str == history[bytesRead..]
      && curCap == |str| <= capacity
    }

    ghost function State(): (s: M.Stream)
      requires Valid()
      reads this
      ensures M.Buffer(s) == str && s.ended == inputIsEnd && s.error == hasError
    {
      M.RawStream(history, bytesRead, capacity, inputIsEnd, hasError)
    }

    constructor (capacity: nat)
      ensures Valid() && State() == M.NewStream(capacity)
    {
      this.capacity := capacity;
      str, curCap, bytesRead, bytesWritten := [], 0, 0, 0;
      inputIsEnd, hasError := false, false;
      history := [];
    }

    function RemainingCapacity(): (n: nat)
      requires Valid()
      reads this
      ensures n == M.Room(State())
    {
      capacity - curCap
    }

    function BufferSize(): (n: nat)
      requires Valid()
      reads this
      ensures n == |M.Buffer(State())|
    {
      curCap
    }

    predicate BufferEmpty()
      requires Valid()
      reads this
      ensures BufferEmpty() <==> State().read == |State().all|
    {
      BufferSize() == 0
    }

    predicate AtEof()
      requires Valid()
      reads this
      ensures AtEof() <==> M.Eof(State())
    {
      inputIsEnd && BufferEmpty()
    }

    method Write(data: seq<byte>) returns (written: nat)
      requires Valid()
      modifies this
      ensures Valid() && State() == M.Write(old(State()), data)
      ensures written == Min(|data|, old(M.Room(State())))
    {
      written := Min(|data|, RemainingCapacity());
      str := str + data[..written];
      bytesWritten := bytesWritten + written;
      curCap := curCap + written;
      history := history + data[..written];
    }

    method PeekOutput(len: nat) returns (data: seq<byte>)
      requires Valid()
      ensures data == M.Peek(State(), len)
    {
      var realLen := Min(len, BufferSize());
      data := str[..realLen];
    }

    method PopOutput(len: nat)
      requires Valid()
      modifies this
      ensures Valid() && State() == M.Pop(old(State()), len)
    {
      var realLen := Min(len, BufferSize());
      if realLen == BufferSize() {
        str := [];
      } else {
        str := str[realLen..];
      }
      curCap := curCap - realLen;
      bytesRead := bytesRead + realLen;
    }

    method Read(len: nat) returns (data: seq<byte>)
      requires Valid()
      modifies this
      ensures Valid() && State() == M.Pop(old(State()), len)
      ensures data == old(M.Peek(State(), len))
    {
      var realLen := Min(len, BufferSize());
      data := PeekOutput(realLen);
      PopOutput(realLen);
    }

    method EndInput()
      requires Valid()
      modifies this`inputIsEnd
      ensures Valid() && State() == M.EndInput(old(State()))
    {
      inputIsEnd := true;
    }

    method SetError()
      requires Valid()
      modifies this`hasError
      ensures Valid() && State() == M.SetError(old(State()))
    {
      hasError := true;
    }
  }
}
