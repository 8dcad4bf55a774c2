/** What it means to read big-endian integers from and write them to byte strings (parser.{hh,cc}). */
module ParsingModel {
  import opened Types
  import opened Checksum

  datatype ParseResult = NoError | BadChecksum | PacketTooShort | WrongIPVersion | HeaderTooShort | TruncatedPacket

  /** What is left to parse, and the first error met. */
  datatype Parser = Parser(buffer: seq<byte>, error: ParseResult)

  function BigEndian(bytes: seq<byte>): nat {
    if bytes == [] then 0 else BigEndian(bytes[..|bytes| - 1]) * 256 + bytes[|bytes| - 1]
  }

  function CheckSize(p: Parser, size: nat): Parser {
    if size > |p.buffer| then p.(error := PacketTooShort) else p
  }

  function ParseInt(p0: Parser, len: nat): (nat, Parser) {
    var p := CheckSize(p0, len);
    if p.error != NoError || len > |p.buffer| then (0, p)
    else (BigEndian(p.buffer[..len]), p.(buffer := p.buffer[len..]))
  }

  function RemovePrefix(p0: Parser, n: nat): Parser {
    var p := CheckSize(p0, n);
    if p.error != NoError || n > |p.buffer| then p else p.(buffer := p.buffer[n..])
  }

  /** The low `len` bytes of `val`, most significant first. */
  function Unparse(val: nat, len: nat): (bytes: seq<byte>)
    ensures |bytes| == len
  {
    if len == 0 then [] else Unparse(val / 256, len - 1) + [val % 256]
  }

  function Pow256(n: nat): nat { if n == 0 then 1 else 256 * Pow256(n - 1) }

  lemma {:induction false} UnparseValue(val: nat, len: nat)
    requires val < Pow256(len)
    ensures BigEndian(Unparse(val, len)) == val
  {
    if len > 0 {
      var bytes, front := Unparse(val, len), Unparse(val / 256, len - 1);
      assert bytes == front + [val % 256];
      assert BigEndian(bytes) == BigEndian(front) * 256 + val % 256 by { assert bytes[..len - 1] == front; }
      assert val / 256 < Pow256(len - 1);
      UnparseValue(val / 256, len - 1);
    }
  }

  lemma {:induction false} BigEndianBound(bytes: seq<byte>)
    ensures BigEndian(bytes) < Pow256(|bytes|)
  {
    if bytes != [] { BigEndianBound(bytes[..|bytes| - 1]); }
  }

  lemma Widths()
    ensures Pow256(1) == 256 && Pow256(2) == TWO_16 && Pow256(4) == TWO_32
  {
    assert Pow256(3) == 256 * Pow256(2);
  }

  /** Reading back what was written, with anything after it left over. */
  lemma ParseUnparse(val: nat, len: nat, rest: seq<byte>)
    requires val < Pow256(len)
    ensures ParseInt(Parser(Unparse(val, len) + rest, NoError), len) == (val, Parser(rest, NoError))
  {
    var buffer := Unparse(val, len) + rest;
    assert buffer[..len] == Unparse(val, len) && buffer[len..] == rest;
    UnparseValue(val, len);
  }

  // ---------------------------------------------------------------- fixed widths

  lemma IntBound(p: Parser, len: nat)
    ensures ParseInt(p, len).0 < Pow256(len)
  {
    if len <= |p.buffer| { BigEndianBound(p.buffer[..len]); }
    Pow256Positive(len);
  }

  lemma {:induction false} Pow256Positive(n: nat)
    ensures Pow256(n) > 0
  {
    if n > 0 { Pow256Positive(n - 1); }
  }

  function U8(p: Parser): (byte, Parser) {
    IntBound(p, 1); Widths();
    var (n, p') := ParseInt(p, 1);
    (n, p')
  }

  function U16(p: Parser): (u16, Parser) {
    IntBound(p, 2); Widths();
    var (n, p') := ParseInt(p, 2);
    (n, p')
  }

  function U32(p: Parser): (u32, Parser) {
    IntBound(p, 4); Widths();
    var (n, p') := ParseInt(p, 4);
    (n, p')
  }

  lemma U8Unparse(val: byte, rest: seq<byte>)
    ensures U8(Parser(Unparse(val, 1) + rest, NoError)) == (val, Parser(rest, NoError))
  {
    Widths();
    ParseUnparse(val, 1, rest);
  }

  lemma U16Unparse(val: u16, rest: seq<byte>)
    ensures U16(Parser(Unparse(val, 2) + rest, NoError)) == (val, Parser(rest, NoError))
  {
    Widths();
    ParseUnparse(val, 2, rest);
  }

  lemma U32Unparse(val: u32, rest: seq<byte>)
    ensures U32(Parser(Unparse(val, 4) + rest, NoError)) == (val, Parser(rest, NoError))
  {
    Widths();
    ParseUnparse(val, 4, rest);
  }

  function Zeros(n: nat): (z: seq<byte>)
    ensures |z| == n
  {
    seq(n, _ => 0)
  }

  /** Options and padding in the header are skipped. */
  lemma RemoveZeros(n: nat, rest: seq<byte>)
    ensures RemovePrefix(Parser(Zeros(n) + rest, NoError), n) == Parser(rest, NoError)
  {
    assert (Zeros(n) + rest)[n..] == rest;
  }

  /** Bit of a byte, by its weight. */
  predicate Bit(b: nat, weight: nat)
    requires weight > 0
  {
    b / weight % 2 == 1
  }

  function Weight(flag: bool, weight: nat): nat { if flag then weight else 0 }

  lemma Assoc(a: seq<byte>, b: seq<byte>, c: seq<byte>)
    ensures (a + b) + c == a + (b + c)
  {
  }

  /** A 16-bit field at an even place counts with its value in the checksum. */
  lemma WordValue(v: u16)
    ensures |Unparse(v, 2)| == 2 && WordSum(Unparse(v, 2), false) == v
  {
    var hi, lo := v / 256 % 256, v % 256;
    assert Unparse(v / 256, 1) == Unparse(v / 256 / 256, 0) + [hi];
    assert Unparse(v, 2) == [hi, lo];
    assert [hi, lo][1..] == [lo] && WordSum([lo], true) == lo;
  }
}
