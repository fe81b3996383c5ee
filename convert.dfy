/**
 The per-cell conversions Convert<T>::toZ ... toD: read one value of the C
 type T out of a cell, in the host's byte order, and cast it to the field of
 a JNI `jvalue` named by the target.
 */
module Convert {

  import opened Bytes

  /** The C types the conversions are instantiated with. */
  datatype SourceType =
    | Int8 | UInt8 | Int16 | UInt16 | Int32 | UInt32 | Int64 | UInt64 | Float32 | Float64

  /** The `jvalue` fields, in JNI order: z, b, c, s, i, j, f, d. */
  datatype Target = Boolean | Byte | Char | Short | Int | Long | Float | Double

  /**
   A `jvalue` with its active field. A cast that goes through floating point
   (from a float/double cell, or into the f/d field) is kept symbolic: it
   records the field written, the source type and the bits that were read.
   */
  datatype JValue =
    | Z(z: bool)
    | B(b: int)
    | C(c: int)
    | S(s: int)
    | I(i: int)
    | J(j: int)
    | FloatingCast(field: Target, from: SourceType, bits: nat)

  /** sizeof(T). */
  function Size(t: SourceType): nat
  {
    match t
    case Int8 | UInt8 => 1
    case Int16 | UInt16 => 2
    case Int32 | UInt32 | Float32 => 4
    case Int64 | UInt64 | Float64 => 8
  }

  predicate IsFloating(t: SourceType)
  {
    t == Float32 || t == Float64
  }

  predicate IsSigned(t: SourceType)
  {
    t == Int8 || t == Int16 || t == Int32 || t == Int64
  }

  /** Number of bit patterns of T. */
  function Span(t: SourceType): (m: nat)
    ensures m == Pow256(Size(t))
  {
    Pow256Widths();
    match t
    case Int8 | UInt8 => 0x100
    case Int16 | UInt16 => 0x1_0000
    case Int32 | UInt32 | Float32 => 0x1_0000_0000
    case Int64 | UInt64 | Float64 => 0x1_0000_0000_0000_0000
  }

  lemma Pow256Widths()
    ensures Pow256(1) == 0x100 && Pow256(2) == 0x1_0000
    ensures Pow256(4) == 0x1_0000_0000 && Pow256(8) == 0x1_0000_0000_0000_0000
  {
    assert Pow256(3) == 0x100_0000;
    assert Pow256(4) == 0x1_0000_0000;
    assert Pow256(5) == 0x100_0000_0000;
    assert Pow256(6) == 0x1_0000_0000_0000;
    assert Pow256(7) == 0x100_0000_0000_0000;
  }

  /** The field a value occupies. */
  function Field(v: JValue): Target
  {
    match v
    case Z(_) => Boolean
    case B(_) => Byte
    case C(_) => Char
    case S(_) => Short
    case I(_) => Int
    case J(_) => Long
    case FloatingCast(f, _, _) => f
  }

  /** The integral fields, with their width in bytes. */
  predicate IsIntegral(f: Target)
  {
    f == Byte || f == Char || f == Short || f == Int || f == Long
  }

  function FieldSize(f: Target): nat
    requires IsIntegral(f)
  {
    match f
    case Byte => 1
    case Char | Short => 2
    case Int => 4
    case Long => 8
  }

  /** The number an integral field holds. */
  function IntegerOf(v: JValue): int
    requires v.B? || v.C? || v.S? || v.I? || v.J?
  {
    match v
    case B(x) => x
    case C(x) => x
    case S(x) => x
    case I(x) => x
    case J(x) => x
  }

  /** The value of an integer type T whose bit pattern, read unsigned, is `bits`. */
  function IntValue(t: SourceType, bits: nat): (v: int)
    requires !IsFloating(t) && bits < Span(t)
    ensures IsSigned(t) ==> -v <= Span(t) / 2 && v < Span(t) / 2
    ensures !IsSigned(t) ==> v == bits
    ensures v % Span(t) == bits
  {
    if IsSigned(t) && bits >= Span(t) / 2 then bits - Span(t) else bits
  }

  /** The number of a signed n-byte integer type that has the same low 8n bits as `x`. */
  function Wrap(x: int, span: nat): (r: int)
    requires span == 0x100 || span == 0x1_0000 || span == 0x1_0000_0000 || span == 0x1_0000_0000_0000_0000
    ensures -r <= span / 2 && r < span / 2
    ensures r % span == x % span
  {
    var low := x % span;
    if low < span / 2 then low else low - span
  }

  /** Convert<T>::toZ: the C test `value != 0`. */
  function ToZ(t: SourceType, bits: nat): (v: JValue)
    requires bits < Span(t)
    ensures v.Z?
    ensures !IsFloating(t) ==> (v.z <==> bits != 0)
    // for IEEE floats only +0.0 (all bits clear) and -0.0 (only the sign bit set) equal zero
    ensures IsFloating(t) ==> (v.z <==> bits != 0 && bits != Span(t) / 2)
  {
    if IsFloating(t) then
      MagnitudeZero(bits, Span(t) / 2);
      Z(bits % (Span(t) / 2) != 0)
    else
      Z(IntValue(t, bits) != 0)
  }

  /** With the sign bit (worth `half`) ignored, the other bits are zero exactly for 0 and `half`. */
  lemma MagnitudeZero(bits: nat, half: nat)
    requires half == 0x8000_0000 || half == 0x8000_0000_0000_0000
    requires bits < 2 * half
    ensures bits % half == 0 <==> bits == 0 || bits == half
  {
    if bits >= half {
      assert bits % half == bits - half;
    } else {
      assert bits % half == bits;
    }
  }

  /** Convert<T>::toB: cast to jbyte, keeping the low 8 bits as two's complement. */
  function ToB(t: SourceType, bits: nat): (v: JValue)
    requires bits < Span(t)
    ensures Field(v) == Byte
    ensures !IsFloating(t) ==> v.B? && -0x80 <= v.b < 0x80 && v.b % 0x100 == IntValue(t, bits) % 0x100
  {
    if IsFloating(t) then FloatingCast(Byte, t, bits) else B(Wrap(IntValue(t, bits), 0x100))
  }

  /** Convert<T>::toC: cast to jchar, keeping the low 16 bits unsigned. */
  function ToC(t: SourceType, bits: nat): (v: JValue)
    requires bits < Span(t)
    ensures Field(v) == Char
    ensures !IsFloating(t) ==> v.C? && 0 <= v.c < 0x1_0000 && v.c % 0x1_0000 == IntValue(t, bits) % 0x1_0000
  {
    if IsFloating(t) then FloatingCast(Char, t, bits) else C(IntValue(t, bits) % 0x1_0000)
  }

  /** Convert<T>::toS: cast to jshort, keeping the low 16 bits as two's complement. */
  function ToS(t: SourceType, bits: nat): (v: JValue)
    requires bits < Span(t)
    ensures Field(v) == Short
    ensures !IsFloating(t) ==> v.S? && -0x8000 <= v.s < 0x8000 && v.s % 0x1_0000 == IntValue(t, bits) % 0x1_0000
  {
    if IsFloating(t) then FloatingCast(Short, t, bits) else S(Wrap(IntValue(t, bits), 0x1_0000))
  }

  /** Convert<T>::toI: cast to jint, keeping the low 32 bits as two's complement. */
  function ToI(t: SourceType, bits: nat): (v: JValue)
    requires bits < Span(t)
    ensures Field(v) == Int
    ensures !IsFloating(t) ==> v.I? && -0x8000_0000 <= v.i < 0x8000_0000
                               && v.i % 0x1_0000_0000 == IntValue(t, bits) % 0x1_0000_0000
  {
    if IsFloating(t) then FloatingCast(Int, t, bits) else I(Wrap(IntValue(t, bits), 0x1_0000_0000))
  }

  /** Convert<T>::toJ: cast to jlong, keeping the low 64 bits as two's complement. */
  function ToJ(t: SourceType, bits: nat): (v: JValue)
    requires bits < Span(t)
    ensures Field(v) == Long
    ensures !IsFloating(t) ==> v.J? && -0x8000_0000_0000_0000 <= v.j < 0x8000_0000_0000_0000
                               && v.j % 0x1_0000_0000_0000_0000 == IntValue(t, bits) % 0x1_0000_0000_0000_0000
  {
    if IsFloating(t) then FloatingCast(Long, t, bits) else J(Wrap(IntValue(t, bits), 0x1_0000_0000_0000_0000))
  }

  /** Convert<T>::toF: cast to jfloat; the floating-point value is not modelled. */
  function ToF(t: SourceType, bits: nat): (v: JValue)
    requires bits < Span(t)
    ensures Field(v) == Float && v.FloatingCast? && v.from == t && v.bits == bits
  {
    FloatingCast(Float, t, bits)
  }

  /** Convert<T>::toD: cast to jdouble; the floating-point value is not modelled. */
  function ToD(t: SourceType, bits: nat): (v: JValue)
    requires bits < Span(t)
    ensures Field(v) == Double && v.FloatingCast? && v.from == t && v.bits == bits
  {
    FloatingCast(Double, t, bits)
  }

  /** The cast Convert<T>::toX that writes field `f`. */
  function Cast(t: SourceType, f: Target, bits: nat): (v: JValue)
    requires bits < Span(t)
    ensures Field(v) == f
  {
    match f
    case Boolean => ToZ(t, bits)
    case Byte => ToB(t, bits)
    case Char => ToC(t, bits)
    case Short => ToS(t, bits)
    case Int => ToI(t, bits)
    case Long => ToJ(t, bits)
    case Float => ToF(t, bits)
    case Double => ToD(t, bits)
  }

  /** `*(T*) c`: the bit pattern of the first sizeof(T) bytes of the cell, in host byte order. */
  function Load(t: SourceType, little: bool, cell: seq<byte>): (bits: nat)
    requires |cell| >= Size(t)
    ensures bits < Span(t)
  {
    if little then LittleEndian(cell[..Size(t)]) else BigEndian(cell[..Size(t)])
  }

  /** Convert<T>::toX applied to a cell. */
  function ConvertCell(t: SourceType, f: Target, little: bool, cell: seq<byte>): (v: JValue)
    requires |cell| >= Size(t)
    ensures Field(v) == f
  {
    Cast(t, f, Load(t, little, cell))
  }

  /** Reversing a cell and reading it in host order is reading the original in the other order. */
  lemma LoadReversed(t: SourceType, little: bool, cell: seq<byte>)
    requires |cell| >= Size(t)
    ensures Load(t, little, ReverseBytes(cell[..Size(t)]))
            == if little then BigEndian(cell[..Size(t)]) else LittleEndian(cell[..Size(t)])
  {
    var read := cell[..Size(t)];
    assert ReverseBytes(read)[..Size(t)] == ReverseBytes(read);
    BigEndianIsReversedLittleEndian(read);
    LittleEndianIsReversedBigEndian(read);
  }

  /** toZ on an integer cell is true exactly when one of the bytes read is non-zero, in either host order. */
  lemma BooleanIsAnyByteSet(t: SourceType, little: bool, cell: seq<byte>)
    requires !IsFloating(t) && |cell| >= Size(t)
    ensures ConvertCell(t, Boolean, little, cell).z <==> exists i :: 0 <= i < Size(t) && cell[i] != 0
  {
    var read := cell[..Size(t)];
    LittleEndianZero(read);
    BigEndianZero(read);
    assert forall i :: 0 <= i < Size(t) ==> read[i] == cell[i];
  }

  /** The stored bits of an integral field: its low 8n bits as an unsigned number. */
  function StoredBits(v: JValue): (n: nat)
    requires IsIntegral(Field(v)) && !v.FloatingCast?
    ensures n < Pow256(FieldSize(Field(v)))
  {
    Pow256Widths();
    IntegerOf(v) % Pow256(FieldSize(Field(v)))
  }

  /** Every integral cast keeps the low bits of the source value. */
  lemma LowBitsKept(t: SourceType, f: Target, bits: nat)
    requires !IsFloating(t) && IsIntegral(f) && bits < Span(t)
    ensures StoredBits(Cast(t, f, bits)) == IntValue(t, bits) % Pow256(FieldSize(f))
  {
    Pow256Widths();
  }

  /**
   Widening: when the field is at least as wide as T, the stored bits are the
   source bits extended with copies of the sign bit for a signed T and with
   zeros for an unsigned T.
   */
  lemma Extension(t: SourceType, f: Target, bits: nat)
    requires !IsFloating(t) && IsIntegral(f) && bits < Span(t)
    requires Size(t) <= FieldSize(f)
    ensures StoredBits(Cast(t, f, bits))
            == if IsSigned(t) && bits >= Span(t) / 2 then bits + Pow256(FieldSize(f)) - Span(t) else bits
  {
    LowBitsKept(t, f, bits);
    Pow256Widths();
    var x := IntValue(t, bits);
    match FieldSize(f)
    case 1 => ModWindow(x, 0x100);
    case 2 => ModWindow(x, 0x1_0000);
    case 4 => ModWindow(x, 0x1_0000_0000);
    case 8 => ModWindow(x, 0x1_0000_0000_0000_0000);
  }

  /** A number within one period below zero or in [0, p) has a known remainder. */
  lemma ModWindow(x: int, p: nat)
    requires p > 0 && -x <= p && x < p
    ensures x % p == if x < 0 then x + p else x
  {
  }

  /** Narrowing: when the field is at most as wide as T, the stored bits are the low bits of the source. */
  lemma Truncation(t: SourceType, f: Target, bits: nat)
    requires !IsFloating(t) && IsIntegral(f) && bits < Span(t)
    requires FieldSize(f) <= Size(t)
    ensures StoredBits(Cast(t, f, bits)) == bits % Pow256(FieldSize(f))
  {
    LowBitsKept(t, f, bits);
    Pow256Widths();
    var x := IntValue(t, bits);
    var p := Pow256(FieldSize(f));
    if x < 0 {
      var k := Pow256(Size(t) - FieldSize(f));
      Pow256Add(Size(t) - FieldSize(f), FieldSize(f));
      assert x == bits - k * p;
      SubtractPeriods(bits, k, p);
    }
  }

  /** 256^(a+b) == 256^a * 256^b. */
  lemma {:induction false} Pow256Add(a: nat, b: nat)
    ensures Pow256(a + b) == Pow256(a) * Pow256(b)
  {
    if a > 0 {
      Pow256Add(a - 1, b);
    }
  }

  /** Subtracting whole periods does not change the remainder. */
  lemma SubtractPeriods(y: int, k: nat, p: nat)
    requires p == 0x100 || p == 0x1_0000 || p == 0x1_0000_0000 || p == 0x1_0000_0000_0000_0000
    ensures (y - k * p) % p == y % p
  {
  }

  /** A field that can represent every value of T receives the value unchanged. */
  lemma WideningKeepsValue(t: SourceType, f: Target, bits: nat)
    requires !IsFloating(t) && IsIntegral(f) && bits < Span(t)
    requires IsSigned(t) ==> f != Char
    requires Size(t) < FieldSize(f) || (Size(t) == FieldSize(f) && (IsSigned(t) <==> f != Char))
    ensures IntegerOf(Cast(t, f, bits)) == IntValue(t, bits)
  {
    LowBitsKept(t, f, bits);
    Pow256Widths();
  }
}
