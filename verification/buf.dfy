/** Fixed-width integer reads and writes at a byte position of a buffer
    (tut_buf.c). The C code copies the host representation of the value;
    this model fixes one byte order for the whole program: little-endian,
    two's complement for the signed forms. */
module Buf {

  newtype byte = x: int | 0 <= x < 256

  /** The three operand widths of the u8/u16/u32 and i8/i16/i32 forms. */
  datatype Width = W8 | W16 | W32 {
    function Bytes(): (n: nat)
      ensures 1 <= n <= 4
    {
      match this
      case W8 => 1
      case W16 => 2
      case W32 => 4
    }
  }

  function Pow256(n: nat): (p: nat)
    ensures p >= 1
  {
    if n == 0 then 1 else 256 * Pow256(n - 1)
  }

  /** Number of distinct unsigned values of width `w`. */
  function Range(w: Width): nat {
    Pow256(w.Bytes())
  }

  /** Little-endian encoding of `v` in exactly `n` bytes. */
  function Encode(v: nat, n: nat): (bs: seq<byte>)
    requires v < Pow256(n)
    ensures |bs| == n
  {
    if n == 0 then [] else [(v % 256) as byte] + Encode(v / 256, n - 1)
  }

  /** Value of a little-endian byte sequence. */
  function Decode(bs: seq<byte>): (v: nat)
    ensures v < Pow256(|bs|)
  {
    if |bs| == 0 then 0 else bs[0] as nat + 256 * Decode(bs[1..])
  }

  lemma {:induction false} DecodeEncode(v: nat, n: nat)
    requires v < Pow256(n)
    ensures Decode(Encode(v, n)) == v
  {
    if n > 0 {
      var bs := Encode(v, n);
      assert bs[1..] == Encode(v / 256, n - 1);
      DecodeEncode(v / 256, n - 1);
    }
  }

  /** Two's complement view of an unsigned value of width `w`. */
  function ToSigned(u: nat, w: Width): int {
    if u < Range(w) / 2 then u else u - Range(w)
  }

  function ToUnsigned(v: int, w: Width): nat
    requires -(Range(w) / 2) <= v < Range(w) / 2
  {
    if v >= 0 then v else v + Range(w)
  }

  /** Tut_ReadUint8/16/32: the bytes `[pos, pos + W)` read as an unsigned value.
      The C code has no buffer length; the model demands the read stay inside it. */
  function ReadUnsigned(buf: seq<byte>, pos: nat, w: Width): (v: nat)
    requires pos + w.Bytes() <= |buf|
    ensures v < Range(w)
  {
    Decode(buf[pos..pos + w.Bytes()])
  }

  /** Tut_ReadInt8/16/32. */
  function ReadSigned(buf: seq<byte>, pos: nat, w: Width): (v: int)
    requires pos + w.Bytes() <= |buf|
    ensures -(Range(w) / 2) <= v < Range(w) / 2
  {
    ToSigned(ReadUnsigned(buf, pos, w), w)
  }

  /** Tut_WriteUint8/16/32: only the bytes `[pos, pos + W)` change. */
  function WriteUnsigned(buf: seq<byte>, pos: nat, w: Width, v: nat): (r: seq<byte>)
    requires pos + w.Bytes() <= |buf|
    requires v < Range(w)
    ensures |r| == |buf|
    ensures forall i :: 0 <= i < |buf| && !(pos <= i < pos + w.Bytes()) ==> r[i] == buf[i]
    ensures r[pos..pos + w.Bytes()] == Encode(v, w.Bytes())
  {
    var r := buf[..pos] + Encode(v, w.Bytes()) + buf[pos + w.Bytes()..];
    assert r[pos..pos + w.Bytes()] == Encode(v, w.Bytes());
    r
  }

  /** Tut_WriteInt8/16/32. */
  function WriteSigned(buf: seq<byte>, pos: nat, w: Width, v: int): (r: seq<byte>)
    requires pos + w.Bytes() <= |buf|
    requires -(Range(w) / 2) <= v < Range(w) / 2
    ensures |r| == |buf|
    ensures forall i :: 0 <= i < |buf| && !(pos <= i < pos + w.Bytes()) ==> r[i] == buf[i]
  {
    WriteUnsigned(buf, pos, w, ToUnsigned(v, w))
  }

  /** Reading back what was just written returns it (u8/u16/u32). */
  lemma ReadAfterWriteUnsigned(buf: seq<byte>, pos: nat, w: Width, v: nat)
    requires pos + w.Bytes() <= |buf|
    requires v < Range(w)
    ensures ReadUnsigned(WriteUnsigned(buf, pos, w, v), pos, w) == v
  {
    DecodeEncode(v, w.Bytes());
  }

  /** Reading back what was just written returns it (i8/i16/i32). */
  lemma ReadAfterWriteSigned(buf: seq<byte>, pos: nat, w: Width, v: int)
    requires pos + w.Bytes() <= |buf|
    requires -(Range(w) / 2) <= v < Range(w) / 2
    ensures ReadSigned(WriteSigned(buf, pos, w, v), pos, w) == v
  {
    ReadAfterWriteUnsigned(buf, pos, w, ToUnsigned(v, w));
  }

  /** A write does not disturb a read of a disjoint region. */
  lemma ReadDisjointWrite(buf: seq<byte>, pos: nat, w: Width, v: nat, pos': nat, w': Width)
    requires pos + w.Bytes() <= |buf|
    requires pos' + w'.Bytes() <= |buf|
    requires v < Range(w)
    requires pos' + w'.Bytes() <= pos || pos + w.Bytes() <= pos'
    ensures ReadUnsigned(WriteUnsigned(buf, pos, w, v), pos', w') == ReadUnsigned(buf, pos', w')
  {
    var r := WriteUnsigned(buf, pos, w, v);
    assert r[pos'..pos' + w'.Bytes()] == buf[pos'..pos' + w'.Bytes()];
  }
}
