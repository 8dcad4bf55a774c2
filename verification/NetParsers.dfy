/** The parser that consumes a buffer, and the unparser that appends to one (parser.{hh,cc}). */
module NetParsers {
  import opened Types
  import opened M = ParsingModel

  class NetParser {
    var buffer: seq<byte>
    var error: ParseResult

    ghost function State(): Parser
      reads this
    {
      Parser(buffer, error)
    }

    constructor (buffer: seq<byte>)
      ensures State() == Parser(buffer, NoError)
    {
      this.buffer, error := buffer, NoError;
    }

    method ParseInt(len: nat) returns (ret: nat)
      modifies this
      ensures (ret, State()) == M.ParseInt(old(State()), len)
    {
      if len > |buffer| {
        error := PacketTooShort;
      }
      if error != NoError {
        return 0;
      }
      ret := 0;
      for i := 0 to len
        invariant ret == BigEndian(buffer[..i])
      {
        assert buffer[..i + 1][..i] == buffer[..i];
        ret := ret * 256 + buffer[i];
      }
      buffer := buffer[len..];
    }

    method U8() returns (ret: byte)
      modifies this
      ensures (ret, State()) == M.U8(old(State()))
    {
      IntBound(State(), 1);
      Widths();
      var n := ParseInt(1);
      ret := n;
    }

    method U16() returns (ret: u16)
      modifies this
      ensures (ret, State()) == M.U16(old(State()))
    {
      IntBound(State(), 2);
      Widths();
      var n := ParseInt(2);
      ret := n;
    }

    method U32() returns (ret: u32)
      modifies this
      ensures (ret, State()) == M.U32(old(State()))
    {
      IntBound(State(), 4);
      Widths();
      var n := ParseInt(4);
      ret := n;
    }

    method RemovePrefix(n: nat)
      modifies this
      ensures State() == M.RemovePrefix(old(State()), n)
    {
      if n > |buffer| {
        error := PacketTooShort;
      }
      if error != NoError {
        return;
      }
      buffer := buffer[n..];
    }
  }

  /** `val >> (8 * n)`. */
  function ShiftBytes(val: nat, n: nat): nat { if n == 0 then val else ShiftBytes(val, n - 1) / 256 }

  /** Append `len` bytes, shifting the value right by fewer and fewer bytes. */
  method UnparseInt(s: seq<byte>, val: nat, len: nat) returns (s': seq<byte>)
    ensures s' == s + Unparse(val, len)
  {
    s' := s;
    for i := 0 to len
      invariant s' == s + Unparse(ShiftBytes(val, len - i), i)
    {
      var theByte := ShiftBytes(val, len - i - 1) % 256;
      s' := s' + [theByte];
    }
  }
}
