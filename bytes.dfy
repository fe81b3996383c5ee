/**
 A memory cell is modelled as the sequence of its bytes, in address order.
 This module gives the byte reversal that the reversal adapters perform and
 the two ways a host reads an unsigned number out of a cell: least
 significant byte first (little-endian) or most significant byte first
 (big-endian).
 */
module Bytes {

  type byte = bv8

  /** 256^n: how many distinct bit patterns an n-byte cell can hold. */
  function Pow256(n: nat): (p: nat)
    ensures p >= 1
  {
    if n == 0 then 1 else 256 * Pow256(n - 1)
  }

  /** The bytes of `s`, last one first. */
  function ReverseBytes(s: seq<byte>): (r: seq<byte>)
    ensures |r| == |s|
  {
    if |s| == 0 then [] else [s[|s| - 1]] + ReverseBytes(s[..|s| - 1])
  }

  /** Byte i of the reversal is byte |s|-1-i of the original. */
  lemma {:induction false} ReverseBytesAt(s: seq<byte>, i: nat)
    requires i < |s|
    ensures ReverseBytes(s)[i] == s[|s| - 1 - i]
  {
    if i > 0 {
      ReverseBytesAt(s[..|s| - 1], i - 1);
    }
  }

  /** A sequence laid out byte by byte in reverse order is the reversal. */
  lemma ReverseBytesUnique(s: seq<byte>, r: seq<byte>)
    requires |r| == |s|
    requires forall i :: 0 <= i < |s| ==> r[i] == s[|s| - 1 - i]
    ensures r == ReverseBytes(s)
  {
    forall i | 0 <= i < |s|
      ensures r[i] == ReverseBytes(s)[i]
    {
      ReverseBytesAt(s, i);
    }
  }

  /** Reversing twice gives back the original bytes. */
  lemma ReverseBytesTwice(s: seq<byte>)
    ensures ReverseBytes(ReverseBytes(s)) == s
  {
    var r := ReverseBytes(s);
    forall i | 0 <= i < |s|
      ensures ReverseBytes(r)[i] == s[i]
    {
      ReverseBytesAt(r, i);
      ReverseBytesAt(s, |s| - 1 - i);
    }
  }

  /** The unsigned number stored in `s` with the least significant byte first. */
  function LittleEndian(s: seq<byte>): (n: nat)
    ensures n < Pow256(|s|)
  {
    if |s| == 0 then 0 else s[0] as nat + 256 * LittleEndian(s[1..])
  }

  /** A byte appended to a little-endian cell is its new most significant byte. */
  lemma {:induction false} LittleEndianAppend(s: seq<byte>, b: byte)
    ensures LittleEndian(s + [b]) == LittleEndian(s) + Pow256(|s|) * b as nat
  {
    if |s| > 0 {
      var t := s + [b];
      assert t[0] == s[0] && t[1..] == s[1..] + [b];
      LittleEndianAppend(s[1..], b);
      ShiftByte(LittleEndian(s[1..]), Pow256(|s| - 1), b as nat);
    }
  }

  /** Multiplying by 256 distributes over a sum with a product. */
  lemma ShiftByte(rest: int, x: int, y: int)
    ensures 256 * (rest + x * y) == 256 * rest + (256 * x) * y
  {
  }

  /** The unsigned number stored in `s` with the most significant byte first. */
  function BigEndian(s: seq<byte>): (n: nat)
    ensures n < Pow256(|s|)
  {
    if |s| == 0 then 0 else 256 * BigEndian(s[..|s| - 1]) + s[|s| - 1] as nat
  }

  /** Reading the reversed bytes little-endian is reading the original big-endian. */
  lemma {:induction false} BigEndianIsReversedLittleEndian(s: seq<byte>)
    ensures BigEndian(s) == LittleEndian(ReverseBytes(s))
  {
    if |s| > 0 {
      var init := s[..|s| - 1];
      var r := ReverseBytes(s);
      assert r[1..] == ReverseBytes(init);
      BigEndianIsReversedLittleEndian(init);
    }
  }

  /** ... and the other way round. */
  lemma LittleEndianIsReversedBigEndian(s: seq<byte>)
    ensures LittleEndian(s) == BigEndian(ReverseBytes(s))
  {
    BigEndianIsReversedLittleEndian(ReverseBytes(s));
    ReverseBytesTwice(s);
  }

  /** A cell holds zero, in little-endian order, exactly when all its bytes are zero. */
  lemma {:induction false} LittleEndianZero(s: seq<byte>)
    ensures LittleEndian(s) == 0 <==> forall i :: 0 <= i < |s| ==> s[i] == 0
  {
    if |s| > 0 {
      LittleEndianZero(s[1..]);
      assert forall i :: 1 <= i < |s| ==> s[i] == s[1..][i - 1];
    }
  }

  /** The same holds in big-endian order. */
  lemma BigEndianZero(s: seq<byte>)
    ensures BigEndian(s) == 0 <==> forall i :: 0 <= i < |s| ==> s[i] == 0
  {
    var r := ReverseBytes(s);
    BigEndianIsReversedLittleEndian(s);
    LittleEndianZero(r);
    forall i | 0 <= i < |s|
      ensures r[|s| - 1 - i] == s[i]
    {
      ReverseBytesAt(s, |s| - 1 - i);
    }
    forall i | 0 <= i < |s|
      ensures r[i] == s[|s| - 1 - i]
    {
      ReverseBytesAt(s, i);
    }
  }

  /** A single byte reads the same in either order. */
  lemma OneByteOrderFree(s: seq<byte>)
    requires |s| == 1
    ensures LittleEndian(s) == BigEndian(s) == s[0] as nat
  {
    assert s[1..] == [];
    assert s[..0] == [];
  }
}
