# jpype buffer conversion resolver, in Dafny

jpype converts the items of a Python buffer into JNI `jvalue`s. `getConverter(from, itemsize, to)` does the selection. It takes:

- a struct-module format string `from`;
- the buffer's item size;
- a JNI field letter `to`.

It returns a function pointer that converts one buffer cell.

Resolution works in two phases:

1. Skip an optional byte-order or alignment character (`! > < @ =`) and decide whether bytes must be reversed on this host. Then reinterpret `l`/`L` as `q`/`Q` when the item size is 8.
2. A nested switch on the first character of the remaining code and of `to` picks one conversion `Convert<T>::toX`. When reversal was requested and `T` is wider than a byte, the conversion comes wrapped in the adapter `Reverse<...>::call2`, `call4` or `call8`.

Anything else raises a `TypeError`.

The model has five modules:

- `Bytes` (bytes.dfy): cells as byte sequences, their reversal, and little- and big-endian reading.
- `Convert` (convert.dfy): the eight casts `toZ … toD` on the bit pattern read from a cell. Integer casts are stated exactly: two's complement wrap to the field width, with `jchar` unsigned.
- `Reverse` (reverse.dfy): the three adapters as methods. Each fills a local scratch array from the caller's array, which it only reads.
- `Resolver` (resolver.dfy): `getConverter` in two forms, proved equal. `GetConverter` is a method that advances the format, sets the flag and substitutes, as jp_convert.cpp does. `Resolve` is a function, `Dispatch(Normalise(...))`. This module also defines `Apply` (calling the returned converter on a cell) and `Invoke` (the same on an array).
- `ResolverLaws` (resolver_laws.dfy): what the resolver guarantees, proved for all inputs.

The host byte order is the parameter `little`. A converter is the datatype `Plain(Base(T, field))` or `Reversed(width, Base(T, field))`, not a function pointer. C strings are the characters before their NUL: `Head` of an empty string is `'\0'`.

The error names `from` as the code leaves it: after the prefix is skipped and `l`/`L` substituted (native/common/jp_convert.cpp:144-162, 393). So `"<l"` with item size 8 and a bad target reports `'q'`.

## Model

| member | source | states |
|---|---|---|
| Resolver.GetConverter | native/common/jp_convert.cpp:128-395 | the imperative resolver (null → "B", one prefix skipped, l/L → q/Q, switch, error) returns exactly `Resolve` |
| Resolver.Resolve | native/common/jp_convert.cpp:128-395 | every converter returned is well formed: an adapter's width is the size of the type it wraps, and is 2, 4 or 8 |
| Resolver.StripPrefix | native/common/jp_convert.cpp:135-156 | a prefix character is skipped (and only then). `reverse` holds iff `!`/`>` appear on a little-endian host or `<` on a big-endian one. `@`, `=` and other characters never set it |
| Resolver.Normalise | native/common/jp_convert.cpp:130-162 | a null format becomes "B" with no reversal; reversal is only ever requested by a prefix character of a non-null format |
| Resolver.WidthOverride | native/common/jp_convert.cpp:158-162 | at item size 8 no code starting with `l` or `L` survives. The code changes only then, and only to "q" (for `l`) or "Q" (for `L`) |
| Resolver.SourceOf | native/common/jp_convert.cpp:164-391 | of the codes the outer switch accepts, exactly `?`, `c`, `b`, `B` select a one-byte type |
| Resolver.TargetOf | native/common/jp_convert.cpp:169-179 | a field is selected only by its own JNI letter |
| Resolver.Dispatch | native/common/jp_convert.cpp:164-394 | fails iff the code's or `to`'s first character is off the table, and the error then names the code. On success the converter's type and field are those two characters' entries, and it is an adapter iff `reverse` is set and the type is wider than a byte |
| Resolver.Message | native/common/jp_convert.cpp:393 | the TypeError text is `Unable to handle buffer type '` + the format + `'` |
| Resolver.SourceOfMatchesCodes | native/common/jp_convert.cpp:164-391 | the outer switch selects type T exactly for T's struct codes (`?cb`→int8, `B`, `h`, `H`, `il`, `IL`, `q`, `Q`, `f`, `d`) and nothing for `n N P` or others |
| Resolver.TargetOfMatchesLetter | native/common/jp_convert.cpp:169-179 | the inner switches select field f exactly for f's JNI letter `z b c s i j f d` |
| Resolver.Apply | native/common/jp_convert.cpp:89-122 | calling the returned converter writes its field. An adapter on this host gives the same value as the bare conversion would on a host of the other byte order |
| Resolver.Invoke | native/common/jp_convert.cpp:89-122 | calling the returned converter on an array is `Apply` on its contents (bare cast, or cast of the reversed first `width` bytes) |
| Reverse.Call2 | native/common/jp_convert.cpp:89-96 | returns the base conversion of the reversal of the first 2 bytes; the caller's array is not modified |
| Reverse.Call4 | native/common/jp_convert.cpp:98-107 | the same for 4 bytes |
| Reverse.Call8 | native/common/jp_convert.cpp:109-122 | the same for 8 bytes |
| Bytes.ReverseBytes | native/common/jp_convert.cpp:89-122 | the reversal keeps the length of the buffer |
| Bytes.LittleEndian | native/common/jp_convert.cpp:29 | `*(T*)c` on a little-endian host: the number read from n bytes is below 256^n |
| Bytes.BigEndian | native/common/jp_convert.cpp:29 | `*(T*)c` on a big-endian host: the number read from n bytes is below 256^n |
| Bytes.ReverseBytesAt | native/common/jp_convert.cpp:89-122 | byte i of the reversed buffer is source byte N-1-i |
| Bytes.ReverseBytesUnique | native/common/jp_convert.cpp:89-122 | a buffer filled byte i ← source byte N-1-i is the reversal |
| Bytes.ReverseBytesTwice | native/common/jp_convert.cpp:89-122 | reversing twice gives back the original bytes |
| Bytes.BigEndianIsReversedLittleEndian | native/common/jp_convert.cpp:89-122 | reading reversed bytes little-endian is reading the original big-endian |
| Bytes.LittleEndianIsReversedBigEndian | native/common/jp_convert.cpp:89-122 | and reading reversed bytes big-endian is reading the original little-endian |
| Bytes.LittleEndianZero | native/common/jp_convert.cpp:29 | a cell read little-endian is zero iff all its bytes are zero |
| Bytes.BigEndianZero | native/common/jp_convert.cpp:29 | the same in big-endian order |
| Bytes.OneByteOrderFree | native/common/jp_convert.cpp:166-193 | a one-byte cell reads the same in both orders |
| Bytes.LittleEndianAppend | native/common/jp_convert.cpp:29 | a byte appended to a little-endian cell is its most significant byte |
| Convert.IntValue | native/common/jp_convert.cpp:29 | `*(T*)c` for an integer T: signed types lie in [-2^(8n-1), 2^(8n-1)), unsigned types equal their bits, and the value is congruent to its bits mod 2^(8n) |
| Convert.Load | native/common/jp_convert.cpp:29 | the bits read from a cell fit in sizeof(T) bytes |
| Convert.ToZ | native/common/jp_convert.cpp:26-31 | for integers, true iff the bits are non-zero. For floats, true iff the value is not ±0.0 (bits neither 0 nor only the sign bit) |
| Convert.ToB | native/common/jp_convert.cpp:33-38 | a jbyte in [-128, 128) with the source value's low 8 bits |
| Convert.ToC | native/common/jp_convert.cpp:40-45 | a jchar in [0, 65536) with the source value's low 16 bits |
| Convert.ToS | native/common/jp_convert.cpp:47-52 | a jshort in [-2^15, 2^15) with the source value's low 16 bits |
| Convert.ToI | native/common/jp_convert.cpp:54-59 | a jint in [-2^31, 2^31) with the source value's low 32 bits |
| Convert.ToJ | native/common/jp_convert.cpp:61-66 | a jlong in [-2^63, 2^63) with the source value's low 64 bits |
| Convert.ToF | native/common/jp_convert.cpp:68-73 | writes the f field, a cast of the bits read from T (value left symbolic) |
| Convert.ToD | native/common/jp_convert.cpp:75-80 | writes the d field, a cast of the bits read from T (value left symbolic) |
| Convert.Cast | native/common/jp_convert.cpp:26-80 | the cast for field f writes field f |
| Convert.ConvertCell | native/common/jp_convert.cpp:26-80 | converting a cell writes the field asked for |
| Convert.Wrap | native/common/jp_convert.cpp:36 | the signed n-byte two's complement wrap lies in range and keeps the low 8n bits |
| Convert.BooleanIsAnyByteSet | native/common/jp_convert.cpp:26-31 | toZ of an integer cell is true iff one of its sizeof(T) bytes is non-zero, on either host |
| Convert.LowBitsKept | native/common/jp_convert.cpp:33-66 | every integral cast stores the source value's low bits of the field width |
| Convert.Extension | native/common/jp_convert.cpp:33-66 | widening sign-extends a signed source and zero-extends an unsigned one |
| Convert.Truncation | native/common/jp_convert.cpp:33-66 | narrowing keeps the low bits of the source's pattern |
| Convert.WideningKeepsValue | native/common/jp_convert.cpp:33-66 | a field that can hold every value of T receives the value unchanged |
| ResolverLaws.ResolveSpelled | native/common/jp_convert.cpp:135-164 | a format spelled prefix + rest resolves as the rest after width override, reversed per the prefix |
| ResolverLaws.NullFormatIsUnsignedByte | native/common/jp_convert.cpp:131-132 | a null format resolves exactly like "B": a bare unsigned-byte conversion, failing only for a bad target |
| ResolverLaws.OnlyOnePrefixConsumed | native/common/jp_convert.cpp:135-156 | after two prefix characters the second is taken as the code, so resolution fails naming it |
| ResolverLaws.EmptyCodeFails | native/common/jp_convert.cpp:388-394 | an empty format, or one that is only a prefix, fails with the empty format |
| ResolverLaws.ReservedCodesFail | native/common/jp_convert.cpp:388-394 | `n`, `N`, `P` always fail, naming the format after the prefix |
| ResolverLaws.FailsExactlyOffTable | native/common/jp_convert.cpp:164-394 | failure iff the normalised code's or `to`'s first character is off the table; the error quotes the normalised code |
| ResolverLaws.LongErrorNamesSubstitute | native/common/jp_convert.cpp:158-162 | "<l" at item size 8 with a bad target fails with "Unable to handle buffer type 'q'" |
| ResolverLaws.OnlyFirstCharactersMatter | native/common/jp_convert.cpp:164-169 | only the first character of the code and of `to` is inspected |
| ResolverLaws.TrailingCharactersIgnored | native/common/jp_convert.cpp:164-169 | characters after the code and after `to`'s first are ignored when resolution succeeds, and do not change whether it does |
| ResolverLaws.LongIsQuadAtItemSize8 | native/common/jp_convert.cpp:158-162 | at item size 8, `l` resolves exactly as `q` and `L` as `Q`, with any prefix |
| ResolverLaws.LongIsIntOtherwise | native/common/jp_convert.cpp:242-291 | at any other item size `l` resolves as `i` (int32) and `L` as `I` (uint32) |
| ResolverLaws.AdapterFollowsPrefixAndWidth | native/common/jp_convert.cpp:194-387 | an adapter is returned iff the prefix asks for reversal on this host and T is wider than a byte; its width is sizeof(T) |
| ResolverLaws.OneByteNeverReversed | native/common/jp_convert.cpp:166-193 | one-byte sources never get an adapter |
| ResolverLaws.OneBytePrefixIrrelevant | native/common/jp_convert.cpp:166-193 | for `?`, `c`, `b`, `B` a prefix changes nothing |
| ResolverLaws.EveryPairReachable | native/common/jp_convert.cpp:164-387 | every (type, field) pair resolves to its bare conversion, or to the adapter of T's width when the prefix asks for reversal |
| ResolverLaws.DeclaredLoad | native/common/jp_convert.cpp:135-156 | the number read in the byte order a format declares fits the type |
| Convert.LoadReversed | native/common/jp_convert.cpp:89-122 | reading a reversed cell in host order is reading the original in the other order |
| ResolverLaws.ByteOrderHonoured | native/common/jp_convert.cpp:135-392 | the returned converter reads the cell in the byte order the format declares (host order if none), then casts |
| ResolverLaws.HostIndependent | native/common/jp_convert.cpp:135-156 | with `!`, `<` or `>` a big- and a little-endian host convert a cell to the same value |
| ResolverLaws.BigEndianShortExample | native/common/jp_convert.cpp:194-217 | ">h" to 'i' on a little-endian host is call2 over toI, and reads 00 05 as 5 |
| ResolverLaws.LongExamples | native/common/jp_convert.cpp:158-162 | "l" to 'j' is the int64 path at item size 8 and the int32 path at item size 4 |
| ResolverLaws.DoubleToBooleanResolves | native/common/jp_convert.cpp:364-387 | "d" to 'z' is the bare toZ on double |
| ResolverLaws.PlusZeroIsFalse | native/common/jp_convert.cpp:26-31 | the double +0.0 tests false |
| ResolverLaws.MinusZeroIsFalse | native/common/jp_convert.cpp:26-31 | the double -0.0 (sign byte last) tests false on a little-endian host |
| ResolverLaws.OneIsTrue | native/common/jp_convert.cpp:26-31 | the double 1.0 (sign byte last) tests true on a little-endian host |

## Left out

- Convert.ToF, Convert.ToD: the floating-point values written by `toF`/`toD`, and every cast from a `float`/`double` cell into an integral field, are kept symbolic (`FloatingCast(field, type, bits)`). IEEE rounding and conversion are not modelled. Only `toZ` on floats is stated exactly. A `FloatingCast` term is not a value: distinct terms may denote the same float. For example, int8 1 and uint8 1 both give 1.0f, int16 -1 and int32 -1 both give -1.0, and integer-to-float rounding merges 16777216 and 16777217. So inequality of two such terms says nothing about the C results.
- Host byte-order detection by reading the first byte of an `unsigned int` is replaced by the parameter `little`.
- `PyErr_Format` and `JP_RAISE_PYTHON` are replaced by the `Err(TypeError(format))` result. The Python exception object and the unwinding are not modelled.
- The raw `void*` cell is a byte sequence or array whose length covers the type read, stated as a precondition. Nothing checks the buffer length in jp_convert.cpp either.
- A null `to` pointer: `to[0]` is read only after the outer switch has matched a code (native/common/jp_convert.cpp:169, 182, 195, …). With an off-table or reserved code, e.g. `getConverter("n", 8, NULL)`, the C++ code raises the TypeError without reading `to`. The model takes `to` as a string and does not model this null-`to` TypeError case.
- C strings with an embedded NUL: a string is the characters before its terminator.
- Convert.ToB, Convert.ToS, Convert.ToI, Convert.ToJ: narrowing (for ToJ, a `uint64_t` of 2^63 or more) to a signed type is modelled as the two's complement wrap that C++20 prescribes. Older C++ standards leave it implementation-defined.
- `jpype/_jproxy.py` is not part of this model. It is Python glue over JVM reflection, unrelated to buffer conversion.
