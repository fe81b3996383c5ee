/**
 The byte-reversal adapters Reverse<func>::call2, call4 and call8. Each copies
 the first 2, 4 or 8 bytes of the caller's cell into a local scratch array,
 last byte first, and hands the scratch array to the wrapped conversion. The
 caller's cell is an array the adapters only read: none of them has a
 `modifies` clause.
 */
module Reverse {

  import opened Bytes
  import opened Convert

  /** The template argument `func`: the conversion Convert<T>::toX, named by T and the field it writes. */
  datatype Base = Base(from: SourceType, field: Target)

  /** Reverse<func>::call2. */
  method Call2(f: Base, little: bool, c: array<byte>) returns (v: JValue)
    requires c.Length >= 2 && Size(f.from) <= 2
    ensures v == ConvertCell(f.from, f.field, little, ReverseBytes(c[..2]))
  {
    var r := new byte[2];
    r[0] := c[1];
    r[1] := c[0];
    ReverseBytesUnique(c[..2], r[..]);
    v := ConvertCell(f.from, f.field, little, r[..]);
  }

  /** Reverse<func>::call4. */
  method Call4(f: Base, little: bool, c: array<byte>) returns (v: JValue)
    requires c.Length >= 4 && Size(f.from) <= 4
    ensures v == ConvertCell(f.from, f.field, little, ReverseBytes(c[..4]))
  {
    var r := new byte[4];
    r[0] := c[3];
    r[1] := c[2];
    r[2] := c[1];
    r[3] := c[0];
    ReverseBytesUnique(c[..4], r[..]);
    v := ConvertCell(f.from, f.field, little, r[..]);
  }

  /** Reverse<func>::call8. */
  method Call8(f: Base, little: bool, c: array<byte>) returns (v: JValue)
    requires c.Length >= 8 && Size(f.from) <= 8
    ensures v == ConvertCell(f.from, f.field, little, ReverseBytes(c[..8]))
  {
    var r := new byte[8];
    r[0] := c[7];
    r[1] := c[6];
    r[2] := c[5];
    r[3] := c[4];
    r[4] := c[3];
    r[5] := c[2];
    r[6] := c[1];
    r[7] := c[0];
    ReverseBytesUnique(c[..8], r[..]);
    v := ConvertCell(f.from, f.field, little, r[..]);
  }
}
