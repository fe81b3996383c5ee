/**
 getConverter: pick, from a struct-module format string, an item size and a
 JNI field letter, the conversion that turns one buffer cell into a `jvalue`.

 Format strings and the target string are C strings, modelled as the
 characters before their terminating NUL; reading the first character of an
 empty string gives the NUL itself. The host byte order, which jp_convert.cpp
 detects by inspecting the bytes of an `unsigned int`, is the parameter
 `little`.
 */
module Resolver {

  import opened Bytes
  import opened Convert
  import opened Reverse

  datatype Option<T> = None | Some(value: T)

  /** The function pointer getConverter returns: a bare Convert<T>::toX, or one wrapped in Reverse<...>::callN. */
  datatype Converter = Plain(base: Base) | Reversed(width: nat, base: Base)

  /** The Python TypeError raised when no conversion exists; it carries the format it names. */
  datatype TypeError = TypeError(format: string)

  datatype Resolution = Ok(converter: Converter) | Err(error: TypeError)

  /** The text of the TypeError. */
  function Message(e: TypeError): (m: string)
    ensures |m| == |e.format| + 31
    ensures m[..30] == "Unable to handle buffer type '" && m[30..|m| - 1] == e.format && m[|m| - 1] == '\''
  {
    "Unable to handle buffer type '" + e.format + "'"
  }

  /** `s[0]` of a C string. */
  function Head(s: string): char
  {
    if |s| == 0 then '\0' else s[0]
  }

  /** The byte-order and alignment characters of the struct format convention. */
  predicate IsPrefix(c: char)
  {
    c == '!' || c == '>' || c == '<' || c == '@' || c == '='
  }

  /** A format after its first phase: the code that remains and whether bytes must be reversed. */
  datatype Stripped = Stripped(code: string, reverse: bool)

  /**
   Skips a byte-order or alignment character. Network and big-endian order
   need reversal on a little-endian host, little-endian order on a big-endian
   host; native and standard alignment never do.
   */
  function StripPrefix(s: string, little: bool): (p: Stripped)
    ensures p.code == if IsPrefix(Head(s)) then s[1..] else s
    ensures p.reverse <==> ((Head(s) == '!' || Head(s) == '>') && little) || (Head(s) == '<' && !little)
  {
    match Head(s)
    case '!' | '>' => Stripped(s[1..], little)
    case '<' => Stripped(s[1..], !little)
    case '@' | '=' => Stripped(s[1..], false)
    case _ => Stripped(s, false)
  }

  /** numpy describes 8-byte longs with 'l' and 'L': at item size 8 they are taken as 'q' and 'Q'. */
  function WidthOverride(code: string, itemsize: int): (r: string)
    ensures itemsize == 8 ==> Head(r) != 'l' && Head(r) != 'L'
    ensures r == code || (itemsize == 8 && (Head(code) == 'l' || Head(code) == 'L'))
    ensures r != code ==> |r| == 1 && (Head(code) == 'l' <==> r == "q") && (Head(code) == 'L' <==> r == "Q")
  {
    if itemsize == 8 && Head(code) == 'l' then "q"
    else if itemsize == 8 && Head(code) == 'L' then "Q"
    else code
  }

  /** The whole first phase of getConverter; a null format stands for "B". */
  function Normalise(from: Option<string>, itemsize: int, little: bool): (n: Stripped)
    ensures from.None? ==> n == Stripped("B", false)
    ensures n.reverse ==> from.Some? && IsPrefix(Head(from.value))
  {
    var p := StripPrefix(if from.None? then "B" else from.value, little);
    Stripped(WidthOverride(p.code, itemsize), p.reverse)
  }

  /** The struct-module codes that select each C type. */
  function Codes(t: SourceType): string
  {
    match t
    case Int8 => "?cb"
    case UInt8 => "B"
    case Int16 => "h"
    case UInt16 => "H"
    case Int32 => "il"
    case UInt32 => "IL"
    case Int64 => "q"
    case UInt64 => "Q"
    case Float32 => "f"
    case Float64 => "d"
  }

  /** The outer switch of getConverter: the C type a code selects. */
  function SourceOf(c: char): (r: Option<SourceType>)
    ensures r.Some? ==> (Size(r.value) == 1 <==> c == '?' || c == 'c' || c == 'b' || c == 'B')
  {
    match c
    case '?' | 'c' | 'b' => Some(Int8)
    case 'B' => Some(UInt8)
    case 'h' => Some(Int16)
    case 'H' => Some(UInt16)
    case 'i' | 'l' => Some(Int32)
    case 'I' | 'L' => Some(UInt32)
    case 'q' => Some(Int64)
    case 'Q' => Some(UInt64)
    case 'f' => Some(Float32)
    case 'd' => Some(Float64)
    case _ => None // the reserved 'n', 'N', 'P' and every other character
  }

  /** The JNI letter of each `jvalue` field. */
  function Letter(f: Target): char
  {
    match f
    case Boolean => 'z'
    case Byte => 'b'
    case Char => 'c'
    case Short => 's'
    case Int => 'i'
    case Long => 'j'
    case Float => 'f'
    case Double => 'd'
  }

  /** The inner switches of getConverter: the field a letter names. */
  function TargetOf(c: char): (r: Option<Target>)
    ensures r.Some? ==> Letter(r.value) == c
  {
    match c
    case 'z' => Some(Boolean)
    case 'b' => Some(Byte)
    case 'c' => Some(Char)
    case 's' => Some(Short)
    case 'i' => Some(Int)
    case 'j' => Some(Long)
    case 'f' => Some(Float)
    case 'd' => Some(Double)
    case _ => None
  }

  /** The outer switch agrees with the table of codes per type. */
  lemma SourceOfMatchesCodes(c: char, t: SourceType)
    ensures SourceOf(c) == Some(t) <==> c in Codes(t)
  {
  }

  /** The inner switches agree with the JNI letters, in both directions. */
  lemma TargetOfMatchesLetter(c: char, f: Target)
    ensures TargetOf(c) == Some(f) <==> Letter(f) == c
  {
  }

  /** The second phase: the nested switch on the first character of the code and of `to`. */
  function Dispatch(code: string, reverse: bool, to: string): (r: Resolution)
    ensures r.Err? <==> SourceOf(Head(code)).None? || TargetOf(Head(to)).None?
    ensures r.Err? ==> r.error == TypeError(code)
    ensures r.Ok? ==> r.converter.base == Base(SourceOf(Head(code)).value, TargetOf(Head(to)).value)
    ensures r.Ok? ==> (r.converter.Reversed? <==> reverse && Size(r.converter.base.from) > 1)
  {
    match (SourceOf(Head(code)), TargetOf(Head(to)))
    case (Some(t), Some(f)) =>
      Ok(if reverse && Size(t) > 1 then Reversed(Size(t), Base(t, f)) else Plain(Base(t, f)))
    case _ => Err(TypeError(code))
  }

  /** A reversal adapter is as wide as the type it reverses, and is one of call2, call4, call8. */
  predicate WellFormed(cv: Converter)
  {
    cv.Reversed? ==> cv.width == Size(cv.base.from) && (cv.width == 2 || cv.width == 4 || cv.width == 8)
  }

  /** getConverter(from, itemsize, to) on a host of the given byte order. */
  function Resolve(from: Option<string>, itemsize: int, to: string, little: bool): (r: Resolution)
    ensures r.Ok? ==> WellFormed(r.converter)
  {
    var n := Normalise(from, itemsize, little);
    Dispatch(n.code, n.reverse, to)
  }

  /** getConverter as jp_convert.cpp writes it: advance past a prefix, set the flag, substitute, switch. */
  method GetConverter(from: Option<string>, itemsize: int, to: string, little: bool) returns (r: Resolution)
    ensures r == Resolve(from, itemsize, to, little)
  {
    var f := if from.None? then "B" else from.value;
    var reverse := false;
    match Head(f) {
      case '!' | '>' =>
        if little {
          reverse := true;
        }
        f := f[1..];
      case '<' =>
        if !little {
          reverse := true;
        }
        f := f[1..];
      case '@' | '=' =>
        f := f[1..];
      case _ =>
    }
    if itemsize == 8 && Head(f) == 'l' {
      f := "q";
    }
    if itemsize == 8 && Head(f) == 'L' {
      f := "Q";
    }
    r := Dispatch(f, reverse, to);
  }

  /** Calling the returned function pointer on a cell. */
  function Apply(cv: Converter, little: bool, cell: seq<byte>): (v: JValue)
    requires WellFormed(cv) && |cell| >= Size(cv.base.from)
    ensures Field(v) == cv.base.field
    ensures cv.Reversed? ==> v == ConvertCell(cv.base.from, cv.base.field, !little, cell)
  {
    match cv
    case Plain(f) => ConvertCell(f.from, f.field, little, cell)
    case Reversed(w, f) =>
      LoadReversed(f.from, little, cell);
      ConvertCell(f.from, f.field, little, ReverseBytes(cell[..w]))
  }

  /** Calling the returned function pointer on a cell held in memory. */
  method Invoke(cv: Converter, little: bool, c: array<byte>) returns (v: JValue)
    requires WellFormed(cv) && c.Length >= Size(cv.base.from)
    ensures v == Apply(cv, little, c[..])
  {
    match cv
    case Plain(f) =>
      v := ConvertCell(f.from, f.field, little, c[..]);
    case Reversed(w, f) =>
      if w == 2 {
        v := Call2(f, little, c);
      } else if w == 4 {
        v := Call4(f, little, c);
      } else {
        v := Call8(f, little, c);
      }
      assert c[..][..w] == c[..w];
  }
}
