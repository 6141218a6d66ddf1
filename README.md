# Costasdev.Uuidv7 in Dafny

A model of the two classes of the Costasdev.Uuidv7 library, with proofs about them.
The library produces version-7 UUIDs as defined in section 5.7 of RFC 9562: a 48-bit
Unix millisecond timestamp, the version nibble `0111`, the variant bits `10`, and
random bits.

- `Uuid7` (module `Uuid7`, file `uuid7.dfy`) is the `Uuid7` struct:
  - a 64-bit timestamp field and a 10-byte random part;
  - the validating constructor;
  - `NewUuid`, with the random bytes and the millisecond clock given as inputs;
  - `GetTimestamp`, `Equals`, `CompareTo`;
  - the 16-byte form `AsByteArray`, the text form `AsString` and `ToString()`;
  - both compiled variants of `Parse`: the .NET 8 one and the older one;
  - `TryParse`.
- `UuidGenerator` (module `UuidGenerator`, file `uuid_generator.dfy`) is the static
  generator class. It produces a bare 16-byte array with `Generate`, formats it in upper
  case with `ToString(byte[])`, and combines the two in `PrettyGenerate`.
- `Bytes` (`bytes.dfy`) models the .NET pieces the code uses on bytes:
  - `BitConverter` and `IPAddress.HostToNetworkOrder`, treated together as network-order
    encoding;
  - `Buffer.BlockCopy`;
  - `SequenceEqual`;
  - the signed 16-bit reinterpretation of a `short`.
- `Text` (`text.dfy`) models the string pieces:
  - `BitConverter.ToString`, `Replace`, `ToLowerInvariant`, `StringBuilder.Insert`,
    `Trim`, `Split`, `string.Concat`;
  - `byte.Parse(_, HexNumber)` on two-character strings;
  - the reference hex form `HexOf`.
- `Wrappers` (`wrappers.dfy`) holds `Option` and `Result`.

Exceptions of the struct become the `Uuid7.Error` datatype inside a `Result`, one
constructor per distinct throw. The one throw of the generator, the
`ArgumentOutOfRangeException` of `Substring` in `UuidGenerator.ToString(byte[])` on fewer
than 10 bytes, becomes `None` in an `Option<string>`. A `null` string is `None` in an
`Option<string>`. Bytes are `bv8`.
`ulong` values are the subtype `u64`, and the `long` millisecond count is `i64`.

The model keeps the behaviour of the code exactly as written, including the following.

- **Cross-byte tags in `NewUuid`.** Byte 0 of the random part gets its low nibble from
  byte 6, not from itself. Byte 2 gets its low six bits from byte 8. `Generate` tags bytes
  6 and 8 of its array in place. In the struct those two bytes are random bytes 0 and 2,
  so the two producers place random bits differently.
- **Signed high part in `Parse`.** Both parsers read bytes 0-1 as a signed `short` and
  sign-extend it into the 64-bit field. Text parses back to the timestamp's low 48 bits
  with bit 47 copied into bits 48-63. The round trip `Parse(AsString(u)) == u` therefore
  holds exactly when the timestamp is below 2^47 or at least 2^64 - 2^47
  (`Uuid7.RoundTripExactly`).
- **No digit check in `ParseHexByte`.** Any character is turned into a "nibble", and the
  low 8 bits of `(high << 4) | low` are kept. So the .NET 8 parser never rejects a
  character for not being a hex digit. Text that is not all white space and has exactly
  32 characters other than ' ' and '-' is rejected only by the constructor's version and
  variant checks (`Uuid7.ParseChecksOnlyTags`); "7g", for one, decodes as 0x70
  (`Uuid7.NonDigitAccepted`). Nibbles of non-ASCII letters are an exception; see "Left
  out".
- **Buffer overflow in `Parse`.** The .NET 8 parser copies characters into a 32-slot
  buffer. A 33rd character other than ' ' or '-' makes it throw `IndexOutOfRange`, not
  the `FormatException` with the size.
- **Negative clock readings.** A negative millisecond count reaches the `ulong` field by a
  cast, that is modulo 2^64. `GetTimestamp` gives it back unchanged.

## Model

| member | source | states |
|---|---|---|
| Uuid7.New | src/Costasdev.Uuidv7/Uuid7.cs:34-54 | Succeeds iff the random part has 10 bytes, version nibble 7 and variant bits 10; on success stores both fields unchanged; otherwise fails with the error of the first check that fails, in the code's order |
| Uuid7.NewIsValid | src/Costasdev.Uuidv7/Uuid7.cs:34-54 | The constructor returns a value unchanged exactly when that value satisfies the struct invariant `Valid` |
| Uuid7.TaggedRandomPartAccepted | src/Costasdev.Uuidv7.Tests/ConstructorTests.cs:8-19 | Tagging bytes 0 and 2 of any 10 bytes, as the valid-construction test does, gives a random part the constructor accepts |
| Uuid7.ConstructorRejections | src/Costasdev.Uuidv7.Tests/ConstructorTests.cs:21-57 | The three rejection tests: 9 bytes fail the length check, version nibble 4 fails the version check, variant bits 01 fail the variant check |
| Uuid7.VersionTag | src/Costasdev.Uuidv7/Uuid7.cs:89-90 | `(b & 0x0F) \| 0x70` has high nibble 7 and keeps b's low nibble |
| Uuid7.VariantTag | src/Costasdev.Uuidv7/Uuid7.cs:92-93 | `(b & 0x3F) \| 0x80` has top bits 10 and keeps b's low six bits |
| Uuid7.NewUuid | src/Costasdev.Uuidv7/Uuid7.cs:80-99 | For any 10 random bytes and any `long` clock reading: the result is valid; the field is the reading modulo 2^64; `GetTimestamp` returns the reading; the random part is the input with byte 0 tagged from byte 6 and byte 2 tagged from byte 8 |
| Uuid7.LongAsUlong | src/Costasdev.Uuidv7/Uuid7.cs:95-98 | The `(ulong)` cast of a `long`, read back as a `long`, is the original value |
| Uuid7.GetTimestamp | src/Costasdev.Uuidv7/Uuid7.cs:244-247 | The result is a `long`, congruent to the field modulo 2^64, and equal to the field below 2^63 |
| Uuid7.Equals | src/Costasdev.Uuidv7/Uuid7.cs:262-265 | True iff the timestamps are equal and the random parts have the same length and the same byte at every index |
| Uuid7.EqualsIsValueEquality | src/Costasdev.Uuidv7/Uuid7.cs:262-265 | `Equals` holds iff the two values are equal; hence it is reflexive and symmetric |
| Uuid7.CompareTo | src/Costasdev.Uuidv7/Uuid7.cs:272-275 | Returns -1, 0 or 1; negative iff the first timestamp is smaller, zero iff they are equal, positive iff it is larger |
| Uuid7.CompareToLaws | src/Costasdev.Uuidv7/Uuid7.cs:272-275 | Reflexive, antisymmetric and transitive; ignores the random part; `Equals` implies comparing equal |
| Uuid7.SameMillisecondNotEqual | src/Costasdev.Uuidv7/Uuid7.cs:262-275 | Two values with the same timestamp and different random parts compare as 0 but are not `Equals` |
| Uuid7.ByteLayoutSpec | src/Costasdev.Uuidv7/Uuid7.cs:281-300 | The 16-byte form is 16 bytes long; bytes 0-5 are the timestamp's low 48 bits in network order; bytes 6-15 are the random part |
| Uuid7.AsByteArray | src/Costasdev.Uuidv7/Uuid7.cs:281-300 | The three block copies into a fresh array produce exactly that 16-byte layout |
| Uuid7.AsString | src/Costasdev.Uuidv7/Uuid7.cs:318-330 | `ToString` of the bytes with dashes removed, lower-cased unless `uppercase`, then the four inserts; the result is the hex form of the 16 bytes, grouped 8-4-4-4-12 when `includeHyphens` |
| Uuid7.ToString | src/Costasdev.Uuidv7/Uuid7.cs:307-310 | The lower-case hyphenated form: 36 characters, '7' at index 14, one of 8, 9, a, b at index 19 |
| Uuid7.FormatLayout | src/Costasdev.Uuidv7/Uuid7.cs:318-330 | The text is 36 characters (hyphens at 8, 13, 18, 23) or 32; without hyphens it is the hex form of the bytes; every character is a digit of the requested case or '-' |
| Uuid7.FormatDigits | src/Costasdev.Uuidv7/Uuid7.cs:318-330 | Byte i of the layout is written as its high and low hex digits at character positions 2i and 2i+1, shifted past the hyphens |
| Uuid7.VersionAndVariantDigits | src/Costasdev.Uuidv7/Uuid7.cs:318-330 | For every valid value the version digit is '7' and the variant digit is 8, 9, a or b (upper case when asked) |
| Uuid7.ParseHexByteOfDigits | src/Costasdev.Uuidv7/Uuid7.cs:332-343 | `ParseHexByte` applied to the two hex digits of a byte, in either case, gives that byte |
| Uuid7.Nibble | src/Costasdev.Uuidv7/Uuid7.cs:334-340 | For a hex digit of either case the nibble is below 16; any other character still gets a nibble, with no error. Its inverse on digits is stated in `ParseHexByteOfDigits` |
| Uuid7.ParseHexByte | src/Costasdev.Uuidv7/Uuid7.cs:332-343 | Whenever the low nibble is below 16, the byte is `(high nibble mod 16) * 16 + low nibble`, whatever the high character is (no hex-digit check). `ParseHexByteOfDigits` is its inverse |
| Uuid7.DecodeHexOfHexOf | src/Costasdev.Uuidv7/Uuid7.cs:137-142 | Decoding the 32 hex digits of 16 bytes pair by pair gives back the 16 bytes |
| Uuid7.ReadTimeBytes | src/Costasdev.Uuidv7/Uuid7.cs:144-157 | Reading bytes 0-5 back as a signed `short` and an `int` gives the timestamp's low 48 bits, sign-extended from bit 47 |
| Uuid7.ReadTimePart | src/Costasdev.Uuidv7/Uuid7.cs:144-155 | Reading bytes 0-5 as a signed `short` and an `int` in network order gives their 48-bit network-order value with bit 47 copied into bits 48-63 |
| Uuid7.SignedHighPart | src/Costasdev.Uuidv7/Uuid7.cs:145-155 | `(ulong)((long)(short)high << 32) \| low` is `high * 2^32 + low` with bit 47 copied into bits 48-63 |
| Uuid7.SignExtendedFixed | src/Costasdev.Uuidv7/Uuid7.cs:144-157 | Sign-extending a timestamp's low 48 bits gives it back iff it is below 2^47 or at least 2^64 - 2^47 |
| Uuid7.IsNullOrWhiteSpace | src/Costasdev.Uuidv7/Uuid7.cs:112 | `string.IsNullOrWhiteSpace` holds iff the text is null or `Trim()` leaves it empty, which is the older parser's test at line 170 |
| Uuid7.ParseResult | src/Costasdev.Uuidv7/Uuid7.cs:110-158 | Null or blank text: `MissingInput`; more than 32 kept characters: `IndexOutOfRange`; fewer: `InvalidSize` with the count; any success is a valid value |
| Uuid7.Parse | src/Costasdev.Uuidv7/Uuid7.cs:110-158 | The method with its two loops computes `ParseResult` for every input |
| Uuid7.KeepCharacters | src/Costasdev.Uuidv7/Uuid7.cs:117-130 | Reports overflow iff more than 32 characters other than ' ' and '-' exist; otherwise the buffer holds those characters in order and the count is their number |
| Uuid7.DecodePairs | src/Costasdev.Uuidv7/Uuid7.cs:137-142 | Byte i/2 of a fresh 16-byte array is `ParseHexByte` of characters i and i+1 |
| Uuid7.BeValueOfPair | src/Costasdev.Uuidv7/Uuid7.cs:145 | The value read from two bytes is below 2^16 |
| Uuid7.ParseChecksOnlyTags | src/Costasdev.Uuidv7/Uuid7.cs:132-158 | For non-blank text with exactly 32 kept characters, `Parse` fails only with `VersionNotSeven` or `VariantNotTen`, and succeeds iff decoded byte 6 has high nibble 7 and decoded byte 8 has top bits 10: no character is rejected for not being a hex digit |
| Uuid7.NonDigitAccepted | src/Costasdev.Uuidv7/Uuid7.cs:332-343 | The non-digit 'g' gets nibble 16, and the pair "7g" decodes as 0x70, because bit 4 of 16 falls on the 7 already shifted there |
| Uuid7.TryParse | src/Costasdev.Uuidv7/Uuid7.cs:227-239 | Returns true iff `Parse` succeeds, with the parsed value; otherwise false and no value |
| Uuid7.FormatKept | src/Costasdev.Uuidv7/Uuid7.cs:112-130 | `AsString` text is never blank, and the parser keeps exactly its 32 hex digits |
| Uuid7.ParseFormat | src/Costasdev.Uuidv7/Uuid7.cs:110-158 | Parsing any `AsString` text gives back the random part and the sign-extended low 48 bits of the timestamp |
| Uuid7.RoundTrip | src/Costasdev.Uuidv7/Uuid7.cs:110-158 | For every valid value with a timestamp below 2^47, `Parse(AsString(u, upper, hyphens))` is `u` |
| Uuid7.RoundTripExactly | src/Costasdev.Uuidv7/Uuid7.cs:110-158 | The round trip through text succeeds with the same value iff the timestamp is below 2^47 or at least 2^64 - 2^47 |
| Uuid7.DecodeLegacy | src/Costasdev.Uuidv7/Uuid7.cs:194-198 | The `byte.Parse` loop, when it gets through all 16 substrings, yields exactly 16 bytes |
| Uuid7.LegacyText | src/Costasdev.Uuidv7/Uuid7.cs:170-192 | Null or blank text: `MissingInput`. Length neither 32 nor 36: `InvalidLength`. Trimmed text of 36 characters that does not split into 5 parts at '-': `InvalidPartCount`. On success the text is the trimmed, lower-cased input, with its hyphens removed when it is 36 long (then 32 characters remain) |
| Uuid7.LegacyParseResult | src/Costasdev.Uuidv7/Uuid7.cs:168-217 | Errors of the text stage are passed on unchanged; any success is a valid value |
| Uuid7.ParseLegacy | src/Costasdev.Uuidv7/Uuid7.cs:168-217 | The older parser computes `LegacyParseResult` for every input |
| Uuid7.ParseSubstrings | src/Costasdev.Uuidv7/Uuid7.cs:194-198 | The loop's bytes and its error agree with `DecodeLegacy`: no error means all 16 bytes parsed, an error is the loop's first failure |
| Uuid7.DecodeLegacyOfHexOf | src/Costasdev.Uuidv7/Uuid7.cs:194-198 | The loop decodes the lower-case hex form of 16 bytes back to those bytes |
| Uuid7.LegacyTail | src/Costasdev.Uuidv7/Uuid7.cs:201-216 | The older parser's timestamp read and constructor call on the 16-byte layout give the sign-extended timestamp and the same random part |
| Uuid7.LegacyDigitsOfFormat | src/Costasdev.Uuidv7/Uuid7.cs:170-192 | For `AsString` text: it needs no trimming; it is 32 or 36 long; at 36 it splits into exactly 5 parts; the lowered, joined text is the lower-case hex form |
| Uuid7.TrimFormat | src/Costasdev.Uuidv7/Uuid7.cs:170-180 | `Trim` leaves `AsString` text unchanged |
| Uuid7.LowerFormat | src/Costasdev.Uuidv7/Uuid7.cs:180 | Lower-casing `AsString` text of either case gives the lower-case text |
| Uuid7.ParsersAgreeOnFormat | src/Costasdev.Uuidv7/Uuid7.cs:110-217 | On every `AsString` text the older parser and the .NET 8 parser return the same result |
| UuidGenerator.GeneratedBytes | src/Costasdev.Uuidv7/UuidGenerator.cs:9-41 | 16 bytes; bytes 0-5 are the timestamp bytes of the clock reading; bytes 6-15 are a random part the `Uuid7` constructor accepts |
| UuidGenerator.WriteTimestamp | src/Costasdev.Uuidv7/UuidGenerator.cs:21-31 | The two block copies put the clock's timestamp bytes over bytes 0-5 and leave bytes 6-15 as they were |
| UuidGenerator.Generate | src/Costasdev.Uuidv7/UuidGenerator.cs:9-41 | The random fill, overwritten by the clock in network order at bytes 0-5 and by the tags at bytes 6 and 8, equals `GeneratedBytes` |
| UuidGenerator.GeneratedBytesSpec | src/Costasdev.Uuidv7/UuidGenerator.cs:9-41 | 16 bytes; bytes 0-5 hold the clock reading modulo 2^48; byte 6 is `(r6 & 0x0F) \| 0x70` and byte 8 is `(r8 & 0x3F) \| 0x80`; bytes 7 and 9-15 are the random fill; bytes 6-15 are accepted by the `Uuid7` constructor |
| UuidGenerator.GeneratedIsLayout | src/Costasdev.Uuidv7/UuidGenerator.cs:9-41 | The generated array is the `AsByteArray` layout of the valid `Uuid7` with the same clock reading and bytes 6-15 as its random part |
| UuidGenerator.UlongCastKeepsLow48 | src/Costasdev.Uuidv7/UuidGenerator.cs:19-22 | Reducing the clock reading modulo 2^64 keeps its low 48 bits |
| UuidGenerator.TimeBytesCongruent | src/Costasdev.Uuidv7/UuidGenerator.cs:21-31 | The timestamp bytes depend only on the low 48 bits of the reading |
| UuidGenerator.ToString | src/Costasdev.Uuidv7/UuidGenerator.cs:43-48 | Succeeds iff the array has at least 10 bytes; the text is the upper-case hex form grouped 8-4-4-4-rest |
| UuidGenerator.ToStringLayout | src/Costasdev.Uuidv7/UuidGenerator.cs:43-48 | The text has length 2n+4 with hyphens at 8, 13, 18 and 23; removing them leaves the upper-case hex form; every other character is an upper-case hex digit |
| UuidGenerator.ToStringIsFormat | src/Costasdev.Uuidv7/UuidGenerator.cs:43-48 | On a UUID's 16 bytes it is the struct's `AsString(uppercase: true)` |
| UuidGenerator.PrettyGenerate | src/Costasdev.Uuidv7/UuidGenerator.cs:50-54 | The text is `ToString` of the generated bytes: 36 characters, hyphens in the four places, '7' at 14, one of 8, 9, A, B at 19; `Uuid7.Parse` reads it back as the sign-extended clock and bytes 6-15 |
| UuidGenerator.PrettyText | src/Costasdev.Uuidv7/UuidGenerator.cs:50-54 | The same facts about `ToString(GeneratedBytes(...))`, as a lemma |
| Bytes.TimeBytes | src/Costasdev.Uuidv7/Uuid7.cs:286-296 | The six time bytes: `(short)(t >> 32)` then `(int)t`, each in network order; six bytes long, with their meaning in `TimeBytesValue` and `TimeBytesParts` |
| Bytes.TimeBytesValue | src/Costasdev.Uuidv7/Uuid7.cs:286-296 | The `short` high part and the `int` low part in network order denote the timestamp modulo 2^48 |
| Bytes.TimeBytesParts | src/Costasdev.Uuidv7/Uuid7.cs:286-296 | Bytes 0-1 hold bits 32-47 of the timestamp; bytes 2-5 hold bits 0-31 |
| Bytes.Int16 | src/Costasdev.Uuidv7/Uuid7.cs:145 | Reinterpreting two bytes as a `short` gives a value in [-2^15, 2^15) congruent to them modulo 2^16 |
| Bytes.SequenceEqual | src/Costasdev.Uuidv7/Uuid7.cs:264 | True iff the two arrays have the same length and the same byte at every index |
| Bytes.BlockCopy | src/Costasdev.Uuidv7/Uuid7.cs:295-297 | `Buffer.BlockCopy` replaces exactly `count` bytes of the destination at the offset and leaves the rest unchanged |
| Bytes.BeValueOfBigEndian | src/Costasdev.Uuidv7/Uuid7.cs:289-296 | The network-order encoding of v in w bytes denotes v modulo 256^w |
| Bytes.BigEndianOfBeValue | src/Costasdev.Uuidv7/Uuid7.cs:144-151 | Re-encoding the value read from a byte sequence gives the same bytes |
| Text.DashedHex | src/Costasdev.Uuidv7/Uuid7.cs:320 | `BitConverter.ToString` of n > 0 bytes has 3n - 1 characters, and of no bytes none; `DashedHexWithoutHyphens` shows that removing its dashes leaves the upper-case hex form |
| Text.DashedHexWithoutHyphens | src/Costasdev.Uuidv7/Uuid7.cs:320 | `BitConverter.ToString(bytes).Replace("-", "")` is the upper-case hex form |
| Text.ToLowerChar | src/Costasdev.Uuidv7/Uuid7.cs:334-340 | `char.ToLowerInvariant` on the ASCII letters only: the result is never A-Z, it differs from the input iff the input is A-Z, and then by exactly 32 code points (the non-ASCII gap is under "Left out") |
| Text.ToLowerInvariant | src/Costasdev.Uuidv7/Uuid7.cs:321-324 | Keeps the length, lowers each character on its own with `ToLowerChar`, and leaves no A-Z letter; only ASCII letters are lowered, as admitted under "Left out" |
| Text.LowerHex | src/Costasdev.Uuidv7/Uuid7.cs:321-324 | `ToLowerInvariant` of the upper-case hex form is the lower-case hex form |
| Text.Insert | src/Costasdev.Uuidv7/Uuid7.cs:328 | `StringBuilder.Insert(i, c)` keeps the text before i, puts c at i, and shifts the rest one place right |
| Text.InsertsAreHyphenate | src/Costasdev.Uuidv7/Uuid7.cs:328 | The four inserts at 20, 16, 12 and 8 give the 8-4-4-4-12 grouping |
| Text.HyphenateLayout | src/Costasdev.Uuidv7/Uuid7.cs:328 | The grouping adds four hyphens, at 8, 13, 18 and 23, and moves every character to its shifted position |
| Text.HyphenateRemoveAll | src/Costasdev.Uuidv7/Uuid7.cs:123-130 | Dropping the separators from grouped text recovers the ungrouped text |
| Text.IsWhiteSpace | src/Costasdev.Uuidv7/Uuid7.cs:112 | `char.IsWhiteSpace` over the Unicode white-space set; ' ' is white space, and no white-space character is '-' or a hex digit of either case |
| Text.Trim | src/Costasdev.Uuidv7/Uuid7.cs:170 | `Trim()` is empty iff the text is all white space; otherwise it starts and ends with a non-white character |
| Text.TrimIsSlice | src/Costasdev.Uuidv7/Uuid7.cs:170-180 | `Trim()` is a slice `s[i..j]` of the text with only white space before i and after j, so it removes leading and trailing white space and nothing else |
| Text.Split | src/Costasdev.Uuidv7/Uuid7.cs:185 | `Split(c)` gives at least one part and no part contains c; `SplitLength` counts the parts and `ConcatSplit` joins them back |
| Text.SplitLength | src/Costasdev.Uuidv7/Uuid7.cs:185-191 | `Split(c)` has one more part than the number of separators `c` that joining drops |
| Text.ConcatAppend | src/Costasdev.Uuidv7/Uuid7.cs:191 | `string.Concat` of two lists of parts appended is the two joins appended, and `ConcatSplit` joins what `Split` cut |
| Text.ConcatSplit | src/Costasdev.Uuidv7/Uuid7.cs:185-191 | `string.Concat(s.Split(c))` is `s` with every `c` removed |
| Text.HyphenatedSplit | src/Costasdev.Uuidv7/Uuid7.cs:185-191 | Grouped 32-digit text splits into exactly 5 parts, which join back to the digits |
| Text.ParseHexNumber | src/Costasdev.Uuidv7/Uuid7.cs:197 | `byte.Parse(_, HexNumber)` of two characters succeeds only if at least one of them is a hex digit |
| Text.ParseHexNumberPair | src/Costasdev.Uuidv7/Uuid7.cs:197 | `byte.Parse` of a byte's two hex digits, in either case, gives that byte |

## Left out

- The random number generator and the clock are inputs to `NewUuid`, `Generate` and
  `PrettyGenerate`. Their values are left unconstrained.
- `NewUuid()` and `NewUuid(DateTime)` are not modelled. They only turn the current time
  or a `DateTime` into the `DateTimeOffset` overload's argument.
- `GetDateTimeOffset` is not modelled: the model has no calendar types. Because of that,
  the clock reading is any `long`, a wider range than `DateTimeOffset` allows.
- `BitConverter.IsLittleEndian` is not modelled. Only the net effect of both endianness
  branches is modelled, which is network order.
- The struct stores the caller's `byte[]` by reference, so the caller can change a UUID
  afterwards. The model's random part is a value and does not capture that aliasing.
- `default(Uuid7)` is not modelled. It has a zero timestamp and a null random part.
  `GetTimestamp`, `GetDateTimeOffset` and `CompareTo` read only the timestamp and work on
  it. `Equals` throws only when the timestamps are equal, because only then does it reach
  `SequenceEqual`. `AsByteArray`, `AsString` and `ToString` throw on it. The model's random
  part is never null. The members that copy it into 16 bytes (`AsByteArray`, `AsString`,
  `ToString`, `Format`) require `Valid`, which gives it its 10 bytes.
- Null `byte[]` arguments are not modelled: to the constructor, to
  `UuidGenerator.ToString`, and inside `Equals`. The .NET runtime rejects them.
- `Equals(object)`, `GetHashCode` and the equality operators are not in the source. The
  struct's inherited `ValueType` versions are not modelled.
- Uuid7.Nibble: lower-cases only the ASCII letters A-Z. .NET's `char.ToLowerInvariant`
  also lower-cases other letters, so on a non-ASCII upper-case letter the model's nibble
  differs from the .NET one. For 'Ä' (U+00C4), .NET lowers to U+00E4 and gets nibble 141;
  the model keeps U+00C4 and gets 109. So on the pair "7Ä" .NET computes 0xFD, version F,
  and the constructor rejects it. The model computes 0x7D, version 7. For the Kelvin sign
  U+212A, .NET lowers to 'k' (nibble 20) and the model gets 8403. So on text with such
  letters, `Uuid7.ParseResult` can accept what the .NET 8 parser rejects, and the other
  way round. Modelling the full Unicode lower-casing table is out of scope.
- Text.ToLowerChar: models `char.ToLowerInvariant` on A-Z only; every other character is
  returned unchanged, which is where the two gaps above and below come from.
- Text.ToLowerInvariant: lower-cases the ASCII letters A-Z only, for the same reason. The
  older parser lower-cases the whole input, so on text with non-ASCII upper-case letters
  its result can differ from .NET's. On the text `AsString` produces, which is hex digits
  and hyphens, the two agree.
- Strings are sequences of Unicode scalar values, not UTF-16 code units. Surrogate pairs
  count as one character.
- The exception types are kept as distinct `Error` constructors. The exception messages
  are not modelled.
- Text.ParseHexNumber: modelled only on the two-character substrings that the older
  parser passes to it, not on general `byte.Parse` input. For those: two hex digits;
  one digit with leading white space; or one digit followed by white space or NUL.
- The demo program and the unit tests are not modelled, except for the constructor
  tests, which `Uuid7.TaggedRandomPartAccepted` and `Uuid7.ConstructorRejections` restate.
