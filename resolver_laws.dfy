/**
 What getConverter promises its callers: how the format string is read, when
 a reversal adapter is returned and how wide it is, when resolution fails,
 and that a cell is read in the byte order the format declares.
 */
module ResolverLaws {

  import opened Bytes
  import opened Convert
  import opened Reverse
  import opened Resolver

  /** A format string made of an optional prefix character and then `rest`. */
  predicate PrefixOrNothing(p: string)
  {
    p == [] || (|p| == 1 && IsPrefix(p[0]))
  }

  /** Whether a prefix asks for byte reversal on this host. */
  predicate PrefixReverses(p: string, little: bool)
  {
    |p| == 1 && ((p[0] in "!>" && little) || (p[0] == '<' && !little))
  }

  /** Resolving a format spelled as an optional prefix and the rest. */
  lemma ResolveSpelled(p: string, rest: string, itemsize: int, to: string, little: bool)
    requires PrefixOrNothing(p) && (p == [] ==> !IsPrefix(Head(rest)))
    ensures Normalise(Some(p + rest), itemsize, little) == Stripped(WidthOverride(rest, itemsize), PrefixReverses(p, little))
    ensures Resolve(Some(p + rest), itemsize, to, little)
            == Dispatch(WidthOverride(rest, itemsize), PrefixReverses(p, little), to)
  {
    if p == [] {
      assert p + rest == rest;
    } else {
      assert (p + rest)[1..] == rest;
    }
  }

  /** A null format resolves exactly like "B": an unsigned byte, never reversed. */
  lemma NullFormatIsUnsignedByte(itemsize: int, to: string, little: bool)
    ensures Resolve(None, itemsize, to, little) == Resolve(Some("B"), itemsize, to, little)
    ensures Resolve(None, itemsize, to, little).Ok? <==> TargetOf(Head(to)).Some?
    ensures Resolve(None, itemsize, to, little).Ok? ==>
              Resolve(None, itemsize, to, little).converter == Plain(Base(UInt8, TargetOf(Head(to)).value))
  {
  }

  /** The first phase never consumes more than one character of the format. */
  lemma {:induction false} OnlyOnePrefixConsumed(p: char, q: char, s: string, itemsize: int, to: string, little: bool)
    requires IsPrefix(p) && IsPrefix(q)
    ensures Resolve(Some([p, q] + s), itemsize, to, little) == Err(TypeError([q] + s))
  {
    var n := Normalise(Some([p, q] + s), itemsize, little);
    assert ([p, q] + s)[1..] == [q] + s;
    assert n.code == [q] + s;
    assert SourceOf(q) == None;
  }

  /** A format that is empty, or only a prefix, names no type. */
  lemma EmptyCodeFails(p: string, itemsize: int, to: string, little: bool)
    requires PrefixOrNothing(p)
    ensures Resolve(Some(p), itemsize, to, little) == Err(TypeError(""))
  {
  }

  /** The reserved codes 'n', 'N' and 'P' always raise, and the error names the format after the prefix. */
  lemma ReservedCodesFail(p: string, c: char, s: string, itemsize: int, to: string, little: bool)
    requires PrefixOrNothing(p) && (c == 'n' || c == 'N' || c == 'P')
    ensures Resolve(Some(p + [c] + s), itemsize, to, little) == Err(TypeError([c] + s))
  {
    assert p + [c] + s == p + ([c] + s);
    ResolveSpelled(p, [c] + s, itemsize, to, little);
  }

  /**
   Resolution fails exactly when the first character of the normalised code
   or of `to` is not in the table, and the error then names the normalised
   code, not the string the caller passed.
   */
  lemma FailsExactlyOffTable(from: Option<string>, itemsize: int, to: string, little: bool)
    ensures var n := Normalise(from, itemsize, little);
            && (Resolve(from, itemsize, to, little).Err? <==>
                  SourceOf(Head(n.code)).None? || TargetOf(Head(to)).None?)
            && (Resolve(from, itemsize, to, little).Err? ==>
                  Resolve(from, itemsize, to, little).error == TypeError(n.code))
  {
  }

  /** An error always quotes the code after prefix stripping and width substitution. */
  lemma LongErrorNamesSubstitute(to: string, little: bool)
    requires TargetOf(Head(to)).None?
    ensures Resolve(Some("<l"), 8, to, little) == Err(TypeError("q"))
    ensures Message(Resolve(Some("<l"), 8, to, little).error) == "Unable to handle buffer type 'q'"
  {
  }

  /** Only the first character of the code and of `to` decide the converter. */
  lemma OnlyFirstCharactersMatter(code1: string, code2: string, reverse: bool, to1: string, to2: string)
    requires Head(code1) == Head(code2) && Head(to1) == Head(to2)
    ensures Dispatch(code1, reverse, to1).Ok? <==> Dispatch(code2, reverse, to2).Ok?
    ensures Dispatch(code1, reverse, to1).Ok? ==> Dispatch(code1, reverse, to1) == Dispatch(code2, reverse, to2)
  {
  }

  /** ... so characters after the code, and after the first of `to`, are ignored. */
  lemma TrailingCharactersIgnored(p: string, c: char, s: string, itemsize: int, t: char, u: string, little: bool)
    requires PrefixOrNothing(p) && !IsPrefix(c)
    ensures Resolve(Some(p + [c] + s), itemsize, [t] + u, little).Ok?
            <==> Resolve(Some(p + [c]), itemsize, [t], little).Ok?
    ensures Resolve(Some(p + [c] + s), itemsize, [t] + u, little).Ok? ==>
              Resolve(Some(p + [c] + s), itemsize, [t] + u, little) == Resolve(Some(p + [c]), itemsize, [t], little)
  {
    assert p + [c] + s == p + ([c] + s);
    ResolveSpelled(p, [c] + s, itemsize, [t] + u, little);
    ResolveSpelled(p, [c], itemsize, [t], little);
    var reverse := PrefixReverses(p, little);
    OnlyFirstCharactersMatter(WidthOverride([c] + s, itemsize), WidthOverride([c], itemsize), reverse, [t] + u, [t]);
  }

  /** With item size 8, 'l' resolves exactly as 'q' and 'L' exactly as 'Q', whatever follows. */
  lemma LongIsQuadAtItemSize8(p: string, s: string, to: string, little: bool)
    requires PrefixOrNothing(p)
    ensures Resolve(Some(p + ['l'] + s), 8, to, little) == Resolve(Some(p + ['q']), 8, to, little)
    ensures Resolve(Some(p + ['L'] + s), 8, to, little) == Resolve(Some(p + ['Q']), 8, to, little)
  {
    assert p + ['l'] + s == p + (['l'] + s);
    assert p + ['L'] + s == p + (['L'] + s);
    ResolveSpelled(p, ['l'] + s, 8, to, little);
    ResolveSpelled(p, ['L'] + s, 8, to, little);
    ResolveSpelled(p, ['q'], 8, to, little);
    ResolveSpelled(p, ['Q'], 8, to, little);
  }

  /** With any other item size, 'l' and 'L' take the 32-bit branches of 'i' and 'I'. */
  lemma LongIsIntOtherwise(p: string, s: string, itemsize: int, to: string, little: bool)
    requires PrefixOrNothing(p) && itemsize != 8
    ensures Resolve(Some(p + ['l'] + s), itemsize, to, little).Ok?
            <==> Resolve(Some(p + ['i'] + s), itemsize, to, little).Ok?
    ensures Resolve(Some(p + ['l'] + s), itemsize, to, little).Ok? ==>
              Resolve(Some(p + ['l'] + s), itemsize, to, little) == Resolve(Some(p + ['i'] + s), itemsize, to, little)
              && Resolve(Some(p + ['l'] + s), itemsize, to, little).converter.base.from == Int32
    ensures Resolve(Some(p + ['L'] + s), itemsize, to, little).Ok?
            <==> Resolve(Some(p + ['I'] + s), itemsize, to, little).Ok?
    ensures Resolve(Some(p + ['L'] + s), itemsize, to, little).Ok? ==>
              Resolve(Some(p + ['L'] + s), itemsize, to, little) == Resolve(Some(p + ['I'] + s), itemsize, to, little)
              && Resolve(Some(p + ['L'] + s), itemsize, to, little).converter.base.from == UInt32
  {
    assert p + ['l'] + s == p + (['l'] + s);
    assert p + ['i'] + s == p + (['i'] + s);
    assert p + ['L'] + s == p + (['L'] + s);
    assert p + ['I'] + s == p + (['I'] + s);
    ResolveSpelled(p, ['l'] + s, itemsize, to, little);
    ResolveSpelled(p, ['i'] + s, itemsize, to, little);
    ResolveSpelled(p, ['L'] + s, itemsize, to, little);
    ResolveSpelled(p, ['I'] + s, itemsize, to, little);
  }

  /**
   A reversal adapter is returned exactly when the prefix names the byte
   order opposite to the host's and the type is wider than one byte; it is
   then call2, call4 or call8 after the type's size.
   */
  lemma AdapterFollowsPrefixAndWidth(s: string, itemsize: int, to: string, little: bool)
    requires Resolve(Some(s), itemsize, to, little).Ok?
    ensures var cv := Resolve(Some(s), itemsize, to, little).converter;
            && (cv.Reversed? <==>
                  Size(cv.base.from) > 1 && ((Head(s) in "!>" && little) || (Head(s) == '<' && !little)))
            && (cv.Reversed? ==> cv.width == Size(cv.base.from))
  {
  }

  /** The one-byte types never get an adapter, whatever the prefix. */
  lemma OneByteNeverReversed(from: Option<string>, itemsize: int, to: string, little: bool)
    requires Resolve(from, itemsize, to, little).Ok?
    requires Size(Resolve(from, itemsize, to, little).converter.base.from) == 1
    ensures Resolve(from, itemsize, to, little).converter.Plain?
  {
  }

  /** For '?', 'c', 'b' and 'B' a prefix changes nothing at all. */
  lemma OneBytePrefixIrrelevant(p: char, c: char, s: string, itemsize: int, to: string, little: bool)
    requires IsPrefix(p) && (c == '?' || c == 'c' || c == 'b' || c == 'B')
    ensures Resolve(Some([p, c] + s), itemsize, to, little) == Resolve(Some([c] + s), itemsize, to, little)
  {
    var code := [c] + s;
    assert [p, c] + s == [p] + code;
    assert [] + code == code;
    ResolveSpelled([p], code, itemsize, to, little);
    ResolveSpelled([], code, itemsize, to, little);
    assert WidthOverride(code, itemsize) == code;
    assert SourceOf(c).Some? && Size(SourceOf(c).value) == 1;
  }

  /**
   Every (type, field) pair of the table is reachable: the first code of the
   type and the letter of the field give the bare conversion, or the adapter
   of the type's width when the prefix asks for reversal on this host.
   */
  lemma EveryPairReachable(p: string, t: SourceType, f: Target, itemsize: int, little: bool)
    requires PrefixOrNothing(p)
    ensures Resolve(Some(p + [Codes(t)[0]]), itemsize, [Letter(f)], little)
            == Ok(if PrefixReverses(p, little) && Size(t) > 1 then Reversed(Size(t), Base(t, f)) else Plain(Base(t, f)))
  {
    var c := Codes(t)[0];
    assert SourceOf(c) == Some(t) && WidthOverride([c], itemsize) == [c];
    TargetOfMatchesLetter(Letter(f), f);
    ResolveSpelled(p, [c], itemsize, [Letter(f)], little);
  }

  /** The byte order a format declares, and the number a cell holds in it. */
  function DeclaredLoad(prefix: char, t: SourceType, little: bool, cell: seq<byte>): (bits: nat)
    requires |cell| >= Size(t)
    ensures bits < Span(t)
  {
    if prefix == '<' then LittleEndian(cell[..Size(t)])
    else if prefix == '!' || prefix == '>' then BigEndian(cell[..Size(t)])
    else Load(t, little, cell)
  }

  /**
   The point of the adapters: whatever the host, the returned converter reads
   the cell in the byte order the format declares (host order when the
   format declares none), then casts.
   */
  lemma ByteOrderHonoured(s: string, itemsize: int, to: string, little: bool, cell: seq<byte>)
    requires Resolve(Some(s), itemsize, to, little).Ok?
    requires |cell| >= Size(Resolve(Some(s), itemsize, to, little).converter.base.from)
    ensures var cv := Resolve(Some(s), itemsize, to, little).converter;
            Apply(cv, little, cell)
            == Cast(cv.base.from, cv.base.field, DeclaredLoad(Head(s), cv.base.from, little, cell))
  {
    var cv := Resolve(Some(s), itemsize, to, little).converter;
    var t := cv.base.from;
    AdapterFollowsPrefixAndWidth(s, itemsize, to, little);
    var read := cell[..Size(t)];
    if cv.Reversed? {
      LoadReversed(t, little, cell);
    } else if Size(t) == 1 {
      OneByteOrderFree(read);
    }
  }

  /** With an explicit byte order, a big- and a little-endian host convert a cell to the same value. */
  lemma HostIndependent(s: string, itemsize: int, to: string, cell: seq<byte>)
    requires Head(s) in "!<>"
    requires Resolve(Some(s), itemsize, to, true).Ok?
    requires |cell| >= Size(Resolve(Some(s), itemsize, to, true).converter.base.from)
    ensures Resolve(Some(s), itemsize, to, false).Ok?
    ensures Apply(Resolve(Some(s), itemsize, to, true).converter, true, cell)
            == Apply(Resolve(Some(s), itemsize, to, false).converter, false, cell)
  {
    ByteOrderHonoured(s, itemsize, to, true, cell);
    ByteOrderHonoured(s, itemsize, to, false, cell);
  }

  /** ">h" with target 'i' on a little-endian host reads 00 05 as the int 5. */
  lemma BigEndianShortExample()
    ensures Resolve(Some(">h"), 2, "i", true) == Ok(Reversed(2, Base(Int16, Int)))
    ensures Apply(Reversed(2, Base(Int16, Int)), true, [0x00, 0x05]) == I(5)
  {
    var cell: seq<byte> := [0x00, 0x05];
    ReverseBytesUnique(cell, [0x05, 0x00]);
    assert [0x05 as byte, 0x00][1..] == [0x00];
  }

  /** "l" with item size 8 and target 'j' takes the 64-bit path; with item size 4, the 32-bit one. */
  lemma LongExamples(little: bool)
    ensures Resolve(Some("l"), 8, "j", little) == Ok(Plain(Base(Int64, Long)))
    ensures Resolve(Some("l"), 4, "j", little) == Ok(Plain(Base(Int32, Long)))
  {
    assert [] + "l" == "l";
    ResolveSpelled([], "l", 8, "j", little);
    ResolveSpelled([], "l", 4, "j", little);
  }

  /** "d" with target 'z' is the bare non-zero test on a double. */
  lemma DoubleToBooleanResolves(little: bool)
    ensures Resolve(Some("d"), 8, "z", little) == Ok(Plain(Base(Float64, Boolean)))
  {
  }

  /** The double +0.0 (all bytes zero) tests false. */
  lemma PlusZeroIsFalse(little: bool)
    ensures Apply(Plain(Base(Float64, Boolean)), little, [0, 0, 0, 0, 0, 0, 0, 0]) == Z(false)
  {
    var cell: seq<byte> := [0, 0, 0, 0, 0, 0, 0, 0];
    assert cell[..8] == cell;
    LittleEndianZero(cell);
    BigEndianZero(cell);
  }

  /** The double -0.0 (only the sign bit set) tests false on a little-endian host. */
  lemma MinusZeroIsFalse()
    ensures Apply(Plain(Base(Float64, Boolean)), true, [0, 0, 0, 0, 0, 0, 0, 0x80]) == Z(false)
  {
    var zero7: seq<byte> := [0, 0, 0, 0, 0, 0, 0];
    var cell: seq<byte> := [0, 0, 0, 0, 0, 0, 0, 0x80];
    assert cell == zero7 + [0x80] && cell[..8] == cell;
    LittleEndianZero(zero7);
    LittleEndianAppend(zero7, 0x80);
    Pow256Widths();
    assert Pow256(7) == 0x100_0000_0000_0000 by {
      assert Pow256(5) == 0x100_0000_0000;
      assert Pow256(6) == 0x1_0000_0000_0000;
    }
  }

  /** The double 1.0 tests true on a little-endian host. */
  lemma OneIsTrue()
    ensures Apply(Plain(Base(Float64, Boolean)), true, [0, 0, 0, 0, 0, 0, 0xf0, 0x3f]) == Z(true)
  {
    var zero6: seq<byte> := [0, 0, 0, 0, 0, 0];
    var cell: seq<byte> := [0, 0, 0, 0, 0, 0, 0xf0, 0x3f];
    assert cell == zero6 + [0xf0] + [0x3f] && cell[..8] == cell;
    LittleEndianZero(zero6);
    LittleEndianAppend(zero6, 0xf0);
    LittleEndianAppend(zero6 + [0xf0], 0x3f);
    Pow256Widths();
    assert Pow256(7) == 0x100_0000_0000_0000 by {
      assert Pow256(5) == 0x100_0000_0000;
      assert Pow256(6) == 0x1_0000_0000_0000;
    }
  }
}
