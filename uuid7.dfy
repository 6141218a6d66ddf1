/**
  The `Uuid7` struct of Uuid7.cs: a 64-bit timestamp field and a 10-byte
  random part that carries the version nibble 0111 and the variant bits 10
  of section 5.7 of RFC 9562; its validating constructor, generation from
  injected random bytes and clock, the 16-byte and text renderings, the two
  parsers (the `NET8_0_OR_GREATER` one and the older one), `TryParse`,
  equality and ordering.
 */
module Uuid7 {
  import opened Wrappers
  import opened Bytes
  import opened Text

  /** The exceptions the struct's members throw. */
  datatype Error =
    | RandomPartLength         // ArgumentOutOfRangeException: the random part is not 10 bytes
    | VersionNotSeven          // ArgumentOutOfRangeException: the version nibble is not 7
    | VariantNotTen            // ArgumentOutOfRangeException: the variant bits are not 10
    | MissingInput             // ArgumentException: null or blank text
    | InvalidSize(count: nat)  // FormatException: fewer than 32 characters besides ' ' and '-'
    | IndexOutOfRange          // IndexOutOfRangeException: a 33rd character for the 32-slot buffer
    | InvalidLength            // older parser, FormatException: text neither 32 nor 36 long
    | InvalidPartCount         // older parser, FormatException: not 5 hyphen-separated parts
    | InvalidHexByte           // older parser, FormatException from byte.Parse
    | SubstringOutOfRange      // older parser, ArgumentOutOfRangeException from Substring

  /** The two private fields `_timePart` and `_randomPart`. */
  datatype Uuid7 = Uuid7(timePart: u64, randomPart: seq<byte>)

  const TWO_63: int := 0x8000_0000_0000_0000

  /** What the constructor admits: 10 bytes, version nibble 7, variant bits 10. */
  predicate ValidRandomPart(randomPart: seq<byte>)
  {
    |randomPart| == 10 && randomPart[0] >> 4 == 7 && randomPart[2] >> 6 == 2
  }

  /** The invariant of every value the struct's constructor lets through. */
  predicate Valid(u: Uuid7)
  {
    ValidRandomPart(u.randomPart)
  }

  // ---------------------------------------------------------------------
  // Construction

  /** The constructor `Uuid7(ulong timePart, byte[] randomPart)`. */
  function New(timePart: u64, randomPart: seq<byte>): (r: Result<Uuid7, Error>)
    ensures r.Success? <==> ValidRandomPart(randomPart)
    ensures r.Success? ==> r.value.timePart == timePart && r.value.randomPart == randomPart
    ensures |randomPart| != 10 ==> r == Failure(RandomPartLength)
    ensures |randomPart| == 10 && randomPart[0] >> 4 != 7 ==> r == Failure(VersionNotSeven)
    ensures |randomPart| == 10 && randomPart[0] >> 4 == 7 && randomPart[2] >> 6 != 2 ==>
      r == Failure(VariantNotTen)
  {
    if |randomPart| != 10 then Failure(RandomPartLength)
    else if randomPart[0] >> 4 != 7 then Failure(VersionNotSeven)
    else if randomPart[2] >> 6 != 2 then Failure(VariantNotTen)
    else Success(Uuid7(timePart, randomPart))
  }

  /** Succeeding construction is exactly the invariant: every valid value is reachable and only those. */
  lemma NewIsValid(u: Uuid7)
    ensures New(u.timePart, u.randomPart) == Success(u) <==> Valid(u)
  {
  }

  /** Bits 48-51 overwritten with the version number 7: `(b & 0x0F) | 0x70` keeps the low nibble of `b`. */
  function VersionTag(b: byte): (t: byte)
    ensures t >> 4 == 7 && t & 0x0F == b & 0x0F
  {
    (b & 0x0F) | 0x70
  }

  /** Bits 64-65 overwritten with the variant 10: `(b & 0x3F) | 0x80` keeps the low six bits of `b`. */
  function VariantTag(b: byte): (t: byte)
    ensures t >> 6 == 2 && t & 0x3F == b & 0x3F
  {
    (b & 0x3F) | 0x80
  }

  /**
    `NewUuid(DateTimeOffset)` with the 10 random bytes and the Unix millisecond
    count given as inputs; the `long` count is stored through a `ulong` cast.
    Byte 0 takes its low nibble from byte 6 and byte 2 takes its low six bits
    from byte 8, as the code is written.
   */
  method NewUuid(random: seq<byte>, millis: i64) returns (u: Uuid7)
    requires |random| == 10
    ensures Valid(u)
    ensures u.timePart == millis % TWO_64
    ensures GetTimestamp(u) == millis
    ensures u.randomPart == random[0 := VersionTag(random[6])][2 := VariantTag(random[8])]
  {
    var randomBytes := new byte[10];
    BlockCopy(random, 0, randomBytes, 0, 10);  // rng.GetBytes(randomBytes)
    assert randomBytes[..] == random;
    randomBytes[0] := VersionTag(randomBytes[6]);
    randomBytes[2] := VariantTag(randomBytes[8]);
    var r := New(millis % TWO_64, randomBytes[..]);
    u := r.value;
    LongAsUlong(millis);
  }

  /** Casting a `long` to `ulong` and back gives it unchanged. */
  lemma LongAsUlong(millis: i64)
    ensures GetTimestamp(Uuid7(millis % TWO_64, [])) == millis
  {
    if millis < 0 {
      ModOfMultiple(millis, TWO_64, -1, millis + TWO_64);
    } else {
      ModOfMultiple(millis, TWO_64, 0, millis);
    }
  }

  /** The constructor test: tagging bytes 0 and 2 of any 10 bytes in place yields an accepted random part. */
  lemma TaggedRandomPartAccepted(timePart: u64, random: seq<byte>)
    requires |random| == 10
    ensures var tagged := random[0 := VersionTag(random[0])][2 := VariantTag(random[2])];
      New(timePart, tagged) == Success(Uuid7(timePart, tagged))
  {
  }

  /** The constructor tests' three rejections: 9 bytes, version nibble 4, variant bits 01. */
  lemma ConstructorRejections(timePart: u64, random: seq<byte>)
    requires |random| == 10
    ensures New(timePart, random[..9]) == Failure(RandomPartLength)
    ensures New(timePart, random[0 := (random[0] & 0x0F) | 0x40]) == Failure(VersionNotSeven)
    ensures New(timePart, random[0 := (random[0] & 0x0F) | 0x70][2 := (random[2] & 0x3F) | 0x40])
      == Failure(VariantNotTen)
  {
  }

  // ---------------------------------------------------------------------
  // Accessors, equality, ordering

  /** `GetTimestamp()`: the field reinterpreted as a signed `long`. */
  function GetTimestamp(u: Uuid7): (r: int)
    ensures -TWO_63 <= r < TWO_63
    ensures (r - u.timePart) % TWO_64 == 0
    ensures u.timePart < TWO_63 ==> r == u.timePart
  {
    if u.timePart < TWO_63 then u.timePart else u.timePart - TWO_64
  }

  /** `Equals(Uuid7)`: same timestamp and byte-for-byte the same random part. */
  function Equals(a: Uuid7, b: Uuid7): (r: bool)
    ensures r <==> (a.timePart == b.timePart && |a.randomPart| == |b.randomPart| &&
                    forall i :: 0 <= i < |a.randomPart| ==> a.randomPart[i] == b.randomPart[i])
  {
    a.timePart == b.timePart && SequenceEqual(a.randomPart, b.randomPart)
  }

  /** `Equals` is equality of the two fields, hence an equivalence. */
  lemma EqualsIsValueEquality(a: Uuid7, b: Uuid7)
    ensures Equals(a, b) <==> a == b
    ensures Equals(a, a)
    ensures Equals(a, b) == Equals(b, a)
  {
    if Equals(a, b) {
      assert a.randomPart == b.randomPart;
    }
  }

  /** `CompareTo(Uuid7)`: `ulong.CompareTo` on the timestamps alone. */
  function CompareTo(a: Uuid7, b: Uuid7): (r: int)
    ensures -1 <= r <= 1
    ensures r < 0 <==> a.timePart < b.timePart
    ensures r == 0 <==> a.timePart == b.timePart
    ensures r > 0 <==> a.timePart > b.timePart
  {
    if a.timePart < b.timePart then -1 else if a.timePart > b.timePart then 1 else 0
  }

  /** `CompareTo` is a total preorder on timestamps that ignores the random part. */
  lemma CompareToLaws(a: Uuid7, b: Uuid7, c: Uuid7, tail: seq<byte>)
    ensures CompareTo(a, a) == 0
    ensures CompareTo(a, b) == -CompareTo(b, a)
    ensures CompareTo(a, b) <= 0 && CompareTo(b, c) <= 0 ==> CompareTo(a, c) <= 0
    ensures CompareTo(Uuid7(a.timePart, tail), b) == CompareTo(a, b)
    ensures Equals(a, b) ==> CompareTo(a, b) == 0
  {
  }

  /** Two values of the same millisecond compare as equal yet are not `Equals`. */
  lemma SameMillisecondNotEqual(t: u64, x: seq<byte>, y: seq<byte>)
    requires x != y
    ensures CompareTo(Uuid7(t, x), Uuid7(t, y)) == 0
    ensures !Equals(Uuid7(t, x), Uuid7(t, y))
  {
    EqualsIsValueEquality(Uuid7(t, x), Uuid7(t, y));
  }

  // ---------------------------------------------------------------------
  // 16-byte and text renderings

  /** The 16-byte layout: bytes 0-5 from the timestamp in network order, bytes 6-15 the random part. */
  function ByteLayout(u: Uuid7): seq<byte>
  {
    TimeBytes(u.timePart) + u.randomPart
  }

  /** What `AsByteArray` promises: 16 bytes, the 48-bit timestamp big-endian, then the random part. */
  lemma ByteLayoutSpec(u: Uuid7)
    requires Valid(u)
    ensures |ByteLayout(u)| == 16
    ensures BeValue(ByteLayout(u)[..6]) == u.timePart % TWO_48
    ensures ByteLayout(u)[6..] == u.randomPart
  {
    assert ByteLayout(u)[..6] == TimeBytes(u.timePart);
    TimeBytesValue(u.timePart);
  }

  /** `AsByteArray()`: the three `Buffer.BlockCopy` calls into a fresh 16-byte array. */
  method AsByteArray(u: Uuid7) returns (result: array<byte>)
    requires Valid(u)
    ensures fresh(result)
    ensures result[..] == ByteLayout(u)
  {
    result := new byte[16];
    var millisLow := BigEndian(u.timePart % TWO_32, 4);            // (int)_timePart in network order
    var millisHigh := BigEndian(u.timePart / TWO_32 % TWO_16, 2);  // (short)(_timePart >> 32) in network order
    BlockCopy(millisHigh, 0, result, 0, 2);
    BlockCopy(millisLow, 0, result, 2, 4);
    BlockCopy(u.randomPart, 0, result, 6, 10);
    assert result[..] == millisHigh + millisLow + u.randomPart;
  }

  /** The reference text form: the hex digits of `ByteLayout(u)`, grouped 8-4-4-4-12 when asked. */
  function Format(u: Uuid7, uppercase: bool, includeHyphens: bool): string
    requires Valid(u)
  {
    var hex := HexOf(ByteLayout(u), uppercase);
    if includeHyphens then Hyphenate(hex) else hex
  }

  /**
    `AsString(uppercase, includeHyphens)`: `BitConverter.ToString` of the
    bytes with the dashes replaced away, lower-cased unless `uppercase`, and
    four `StringBuilder.Insert` calls when hyphens are wanted.
   */
  method AsString(u: Uuid7, uppercase: bool, includeHyphens: bool) returns (s: string)
    requires Valid(u)
    ensures s == Format(u, uppercase, includeHyphens)
  {
    var bytes := AsByteArray(u);
    var hex := RemoveAll(DashedHex(bytes[..]), {'-'});
    DashedHexWithoutHyphens(bytes[..]);
    if !uppercase {
      hex := ToLowerInvariant(hex);
      LowerHex(bytes[..]);
    }
    if !includeHyphens {
      return hex;
    }
    var builder := hex;
    builder := Insert(builder, 20, '-');
    builder := Insert(builder, 16, '-');
    builder := Insert(builder, 12, '-');
    builder := Insert(builder, 8, '-');
    InsertsAreHyphenate(hex);
    s := builder;
  }

  /** The `ToString()` override: `AsString` with its defaults, lower case and hyphenated. */
  method ToString(u: Uuid7) returns (s: string)
    requires Valid(u)
    ensures s == Format(u, false, true)
    ensures |s| == 36 && s[14] == '7' && s[19] in "89ab"
  {
    s := AsString(u, false, true);
    VersionAndVariantDigits(u, false, true);
    FormatLayout(u, false, true);
  }

  /** The shape of `AsString`: length, hyphen positions, digits two per byte, letter case. */
  lemma FormatLayout(u: Uuid7, uppercase: bool, includeHyphens: bool)
    requires Valid(u)
    ensures var s := Format(u, uppercase, includeHyphens);
      && |s| == (if includeHyphens then 36 else 32)
      && (includeHyphens ==> s[8] == '-' && s[13] == '-' && s[18] == '-' && s[23] == '-')
      && RemoveAll(s, {'-'}) == HexOf(ByteLayout(u), uppercase)
      && (forall k :: 0 <= k < |s| ==>
            IsHexChar(s[k], uppercase) || s[k] == '-')
  {
    var hex := HexOf(ByteLayout(u), uppercase);
    HexOfCharacters(ByteLayout(u), uppercase);
    if includeHyphens {
      HyphenateLayout(hex);
      HyphenateRemoveAll(hex, {'-'});
      HyphenateChars(hex, uppercase);
    } else {
      RemoveAllAbsent(hex, {'-'});
    }
  }

  /** Two bytes of the layout, read off the text: byte `i` is hex digits `2i` and `2i + 1`. */
  lemma FormatDigits(u: Uuid7, uppercase: bool, includeHyphens: bool, i: nat)
    requires Valid(u) && i < 16
    ensures var s := Format(u, uppercase, includeHyphens);
      var at := if includeHyphens then HyphenatedIndex(2 * i) else 2 * i;
      var next := if includeHyphens then HyphenatedIndex(2 * i + 1) else 2 * i + 1;
      && at < |s| && next < |s|
      && s[at] == HexDigit(HighNibble(ByteLayout(u)[i]), uppercase)
      && s[next] == HexDigit(LowNibble(ByteLayout(u)[i]), uppercase)
  {
    var hex := HexOf(ByteLayout(u), uppercase);
    HexOfAt(ByteLayout(u), uppercase, i);
    if includeHyphens {
      HyphenateLayout(hex);
    }
  }

  /** The validity test: the version digit is '7' and the variant digit is one of 8, 9, a, b. */
  lemma VersionAndVariantDigits(u: Uuid7, uppercase: bool, includeHyphens: bool)
    requires Valid(u)
    ensures var s := Format(u, uppercase, includeHyphens);
      var version := if includeHyphens then 14 else 12;
      var variant := if includeHyphens then 19 else 16;
      && version < |s| && variant < |s|
      && s[version] == '7'
      && s[variant] in (if uppercase then "89AB" else "89ab")
  {
    var bytes := ByteLayout(u);
    assert bytes[6] == u.randomPart[0] && bytes[8] == u.randomPart[2];
    TaggedNibbles(u.randomPart[0], u.randomPart[2]);
    FormatDigits(u, uppercase, includeHyphens, 6);
    FormatDigits(u, uppercase, includeHyphens, 8);
  }

  lemma TaggedNibbles(version: byte, variant: byte)
    requires version >> 4 == 7 && variant >> 6 == 2
    ensures HighNibble(version) == 7
    ensures 8 <= HighNibble(variant) <= 11
  {
  }

  // ---------------------------------------------------------------------
  // Parsing (the NET8_0_OR_GREATER parser)

  /** `string.IsNullOrWhiteSpace`, which agrees with the older parser's `uuid is null || uuid.Trim() == string.Empty`. */
  function IsNullOrWhiteSpace(uuid: Option<string>): (r: bool)
    ensures r <==> uuid.None? || Trim(uuid.value) == []
  {
    uuid.None? || AllWhiteSpace(uuid.value)
  }

  /** The characters the parser skips. */
  const SEPARATORS: set<char> := {' ', '-'}

  /**
    The nibble `ParseHexByte` computes for one character: the digit value, or
    the lower-cased character's distance from 'a' plus 10, with no check that
    it is a hex digit.
   */
  function Nibble(c: char): (n: int)
    ensures IsHexChar(c, true) || IsHexChar(c, false) ==> 0 <= n < 16
  {
    if '0' <= c <= '9' then c as int - '0' as int
    else ToLowerChar(c) as int - 'a' as int + 10
  }

  /**
    `ParseHexByte(high, low)`: `(byte)((highNibble << 4) | lowNibble)` on
    32-bit ints. The cast keeps the low 8 bits; those of `highNibble << 4` are
    `highNibble mod 16` shifted, those of `lowNibble` are `lowNibble mod 256`
    (Euclidean `%` gives the two's-complement low bits of a negative value).
    Whenever the low nibble is below 16 the byte is the two nibbles side by
    side, whatever the high character is.
   */
  function ParseHexByte(high: char, low: char): (b: byte)
    ensures 0 <= Nibble(low) < 16 ==> b as int == Nibble(high) % 16 * 16 + Nibble(low)
  {
    LowBitsOr(Nibble(high) % 16, Nibble(low));
    ToByte(Nibble(high) % 16 * 16) | ToByte(Nibble(low) % 256)
  }

  /** `ParseHexByte` inverts the hex digits of a byte in either case. */
  lemma ParseHexByteOfDigits(b: byte, upper: bool)
    ensures ParseHexByte(HexDigit(HighNibble(b), upper), HexDigit(LowNibble(b), upper)) == b
  {
    var h, l := HighNibble(b), LowNibble(b);
    var dh, dl := HexDigit(h, upper), HexDigit(l, upper);
    NibbleOfDigit(h, upper);
    NibbleOfDigit(l, upper);
    DigitPairValue(dh, dl, h, l);
    ByteValueInjective(ParseHexByte(dh, dl), b);
  }

  lemma DigitPairValue(high: char, low: char, h: nat, l: nat)
    requires Nibble(high) == h < 16 && Nibble(low) == l < 16
    ensures ParseHexByte(high, low) as int == h * 16 + l
  {
    assert Nibble(high) % 16 == h;
  }

  lemma LowBitsOr(h: nat, l: int)
    requires h < 16
    ensures 0 <= l < 16 ==> (ToByte(h * 16) | ToByte(l % 256)) as int == h * 16 + l
  {
    if 0 <= l < 16 {
      assert l % 256 == l;
      OrOfNibbles(ToByte(h * 16), ToByte(l), h, l);
    }
  }

  lemma OrOfNibbles(x: byte, y: byte, h: nat, l: nat)
    requires x as int == h * 16 && y as int == l < 16
    ensures (x | y) as int == h * 16 + l
  {
    ModOfMultiple(h * 16, 16, h, 0);
    DisjointOr(x, y);
  }

  lemma NibbleOfDigit(n: nat, upper: bool)
    requires n < 16
    ensures Nibble(HexDigit(n, upper)) == n
  {
  }

  lemma DisjointOr(x: byte, y: byte)
    requires x as int % 16 == 0 && y as int < 16
    ensures (x | y) as int == x as int + y as int
  {
  }

  /** The 32 kept characters, two per byte. */
  function DecodeHex(chars: string): (bytes: seq<byte>)
    requires |chars| == 32
    ensures |bytes| == 16
  {
    seq(16, j requires 0 <= j < 16 => ParseHexByte(chars[2 * j], chars[2 * j + 1]))
  }

  lemma {:induction false} DecodeHexOfHexOf(bytes: seq<byte>, upper: bool)
    requires |bytes| == 16
    ensures DecodeHex(HexOf(bytes, upper)) == bytes
  {
    var hex := HexOf(bytes, upper);
    forall j | 0 <= j < 16
      ensures DecodeHex(hex)[j] == bytes[j]
    {
      DecodeHexAt(bytes, upper, j);
    }
  }

  lemma DecodeHexAt(bytes: seq<byte>, upper: bool, j: nat)
    requires |bytes| == 16 && j < 16
    ensures DecodeHex(HexOf(bytes, upper))[j] == bytes[j]
  {
    var hex := HexOf(bytes, upper);
    HexOfAt(bytes, upper, j);
    assert DecodeHex(hex)[j] == ParseHexByte(hex[2 * j], hex[2 * j + 1]);
    ParseHexByteOfDigits(bytes[j], upper);
  }

  /**
    The timestamp read back from bytes 0-5: `(ulong)((long)millisHigh << 32) | (uint)millisLow`
    with `millisHigh` a signed `short` and `millisLow` an `int`, both read in network order.
    The low 32 bits of the shifted value are zero, so the `|` is an addition; the cast to
    `ulong` is reduction modulo 2^64.
   */
  function ReadTimePart(bytes: seq<byte>): (t: u64)
    requires |bytes| == 6
    ensures BeValue(bytes) < TWO_48 && t == SignExtended48(BeValue(bytes))
  {
    var high, low := bytes[..2], bytes[2..];
    BeValueBound(high);
    BeValueBound(low);
    Pow256Values();
    assert high + low == bytes;
    HighLowValue(high, low);
    SignedHighPart(BeValue(high), BeValue(low));
    var millisHigh := Int16(BeValue(high));
    var millisLow := BeValue(low);
    (millisHigh * TWO_32 + millisLow) % TWO_64
  }

  /** A 48-bit value with bit 47 copied into bits 48-63. */
  function SignExtended48(v: nat): nat
    requires v < TWO_48
  {
    if v < TWO_47 then v else v + TWO_64 - TWO_48
  }

  /** Reading back the timestamp bytes keeps 48 bits and sign-extends them. */
  lemma ReadTimeBytes(t: nat)
    ensures ReadTimePart(TimeBytes(t)) == SignExtended48(t % TWO_48)
  {
    TimeBytesValue(t);
  }

  lemma SignedHighPart(high: nat, low: nat)
    requires high < TWO_16 && low < TWO_32
    ensures high * TWO_32 + low < TWO_48
    ensures (Int16(high) * TWO_32 + low) % TWO_64 == SignExtended48(high * TWO_32 + low)
  {
    if high >= 0x8000 {
      var x := (high - TWO_16) * TWO_32 + low;
      assert x + TWO_64 == high * TWO_32 + low + TWO_64 - TWO_48;
      ModOfMultiple(x, TWO_64, -1, x + TWO_64);
    } else {
      ModOfMultiple(high * TWO_32 + low, TWO_64, 0, high * TWO_32 + low);
    }
  }

  /** What `Parse` computes, as a function of its input. */
  function ParseResult(uuid: Option<string>): (r: Result<Uuid7, Error>)
    ensures IsNullOrWhiteSpace(uuid) ==> r == Failure(MissingInput)
    ensures !IsNullOrWhiteSpace(uuid) && |RemoveAll(uuid.value, SEPARATORS)| > 32 ==>
      r == Failure(IndexOutOfRange)
    ensures !IsNullOrWhiteSpace(uuid) && |RemoveAll(uuid.value, SEPARATORS)| < 32 ==>
      r == Failure(InvalidSize(|RemoveAll(uuid.value, SEPARATORS)|))
    ensures r.Success? ==> Valid(r.value)
  {
    if IsNullOrWhiteSpace(uuid) then Failure(MissingInput)
    else
      var chars := RemoveAll(uuid.value, SEPARATORS);
      if |chars| > 32 then Failure(IndexOutOfRange)
      else if |chars| != 32 then Failure(InvalidSize(|chars|))
      else
        var bytes := DecodeHex(chars);
        New(ReadTimePart(bytes[..6]), bytes[6..])
  }

  /**
    `Parse(string)`: copies every character other than ' ' and '-' into a
    32-slot buffer, then decodes the 32 characters pair by pair into 16 bytes.
   */
  method Parse(uuid: Option<string>) returns (r: Result<Uuid7, Error>)
    ensures r == ParseResult(uuid)
  {
    if IsNullOrWhiteSpace(uuid) {
      return Failure(MissingInput);
    }
    var chars, i, overflow := KeepCharacters(uuid.value);
    if overflow {
      return Failure(IndexOutOfRange);
    }
    if i != 32 {
      return Failure(InvalidSize(i));
    }
    var bytes := DecodePairs(chars);
    var millisLow := BeValue(bytes[2..6]);
    var millisHigh := Int16(BeValueOfPair(bytes[..2]));
    var randomPart := bytes[6..16];
    ghost var decoded := bytes[..];
    ReadTimePartOf(decoded, millisHigh, millisLow);
    assert randomPart == decoded[6..];
    r := New((millisHigh * TWO_32 + millisLow) % TWO_64, randomPart);
    ParseResultOf(uuid, chars[..]);
  }

  /**
    The `foreach` loop of `Parse`: characters other than ' ' and '-' go into
    the 32-slot buffer; a 33rd one would index past its end, which `overflow`
    reports.
   */
  method KeepCharacters(s: string) returns (chars: array<char>, i: nat, overflow: bool)
    ensures fresh(chars) && chars.Length == 32
    ensures overflow <==> |RemoveAll(s, SEPARATORS)| > 32
    ensures !overflow ==> i == |RemoveAll(s, SEPARATORS)| && chars[..i] == RemoveAll(s, SEPARATORS)
  {
    overflow := false;
    chars := new char[32];
    i := 0;
    for k := 0 to |s|
      invariant i <= 32 && chars[..i] == RemoveAll(s[..k], SEPARATORS)
    {
      var c := s[k];
      RemoveAllStep(s, k, SEPARATORS);
      if c == ' ' || c == '-' {
        continue;
      }
      if i == 32 {
        // chars[32] does not exist
        RemoveAllPrefix(s, k + 1, SEPARATORS);
        return chars, i, true;
      }
      chars[i] := c;
      i := i + 1;
    }
    assert s[..|s|] == s;
  }

  /** The second loop of `Parse`: characters `i` and `i + 1` become byte `i / 2`. */
  method DecodePairs(chars: array<char>) returns (bytes: array<byte>)
    requires chars.Length == 32
    ensures fresh(bytes) && bytes.Length == 16
    ensures bytes[..] == DecodeHex(chars[..])
  {
    bytes := new byte[16];
    var i := 0;
    while i < 32
      invariant 0 <= i <= 32 && i % 2 == 0
      invariant forall j :: 0 <= j < i / 2 ==> bytes[j] == ParseHexByte(chars[2 * j], chars[2 * j + 1])
    {
      assert 2 * (i / 2) == i;
      bytes[i / 2] := ParseHexByte(chars[i], chars[i + 1]);
      i := i + 2;
    }
    assert forall j :: 0 <= j < 16 ==> bytes[j] == DecodeHex(chars[..])[j];
  }

  /** The value of two bytes, which is below 2^16. */
  function BeValueOfPair(pair: seq<byte>): (v: nat)
    requires |pair| == 2
    ensures v == BeValue(pair) && v < TWO_16
  {
    BeValueBound(pair);
    Pow256Values();
    BeValue(pair)
  }

  lemma ReadTimePartOf(bytes: seq<byte>, millisHigh: int, millisLow: nat)
    requires |bytes| == 16
    requires BeValue(bytes[..2]) < TWO_16 && millisHigh == Int16(BeValue(bytes[..2]))
    requires millisLow == BeValue(bytes[2..6])
    ensures ReadTimePart(bytes[..6]) == (millisHigh * TWO_32 + millisLow) % TWO_64
  {
    assert bytes[..6][..2] == bytes[..2] && bytes[..6][2..] == bytes[2..6];
  }

  lemma ParseResultOf(uuid: Option<string>, chars: string)
    requires !IsNullOrWhiteSpace(uuid) && RemoveAll(uuid.value, SEPARATORS) == chars && |chars| == 32
    ensures ParseResult(uuid) == New(ReadTimePart(DecodeHex(chars)[..6]), DecodeHex(chars)[6..])
  {
  }

  /**
    With 32 kept characters no character is ever rejected as a non-digit:
    only the constructor's version and variant checks can still fail, on
    the decoded bytes 6 and 8.
   */
  lemma ParseChecksOnlyTags(uuid: Option<string>)
    requires !IsNullOrWhiteSpace(uuid) && |RemoveAll(uuid.value, SEPARATORS)| == 32
    ensures ParseResult(uuid) in {Failure(VersionNotSeven), Failure(VariantNotTen)} || ParseResult(uuid).Success?
    ensures var bytes := DecodeHex(RemoveAll(uuid.value, SEPARATORS));
      ParseResult(uuid).Success? <==> bytes[6] >> 4 == 7 && bytes[8] >> 6 == 2
  {
    ParseResultOf(uuid, RemoveAll(uuid.value, SEPARATORS));
  }

  lemma TagByteLiterals()
    ensures ToByte(112) == 0x70 && ToByte(16) == 0x10
  {
    assert ToByte(16) == 0x10;
  }

  /** The letter 'g' is read as nibble 16, whose bit 4 vanishes under the tag: "7g" decodes as 0x70. */
  lemma NonDigitAccepted()
    ensures Nibble('g') == 16 && ParseHexByte('7', 'g') == 0x70
  {
    assert Nibble('7') == 7;
    assert ToLowerChar('g') == 'g';
    assert Nibble('g') == 16;
    var h, l := Nibble('7') % 16 * 16, Nibble('g') % 256;
    assert h == 112 && l == 16;
    assert ParseHexByte('7', 'g') == ToByte(h) | ToByte(l);
    TagByteLiterals();
  }

  /** `TryParse(string, out Uuid7)`: true exactly when `Parse` would not throw. */
  method TryParse(uuid: Option<string>) returns (ok: bool, result: Option<Uuid7>)
    ensures ok <==> ParseResult(uuid).Success?
    ensures ok ==> result == Some(ParseResult(uuid).value)
    ensures !ok ==> result == None
  {
    var r := Parse(uuid);
    if r.Success? {
      ok, result := true, Some(r.value);
    } else {
      ok, result := false, None;
    }
  }

  /** Text produced by `AsString` parses back to the random part and the sign-extended low 48 bits of the timestamp. */
  lemma ParseFormat(u: Uuid7, uppercase: bool, includeHyphens: bool)
    requires Valid(u)
    ensures ParseResult(Some(Format(u, uppercase, includeHyphens))) ==
      Success(Uuid7(SignExtended48(u.timePart % TWO_48), u.randomPart))
  {
    var hex := HexOf(ByteLayout(u), uppercase);
    FormatKept(u, uppercase, includeHyphens);
    ParseResultOf(Some(Format(u, uppercase, includeHyphens)), hex);
    DecodeHexOfHexOf(ByteLayout(u), uppercase);
    LegacyTail(u);
  }

  /** `AsString` text is not blank, and the parser keeps exactly its hex digits. */
  lemma FormatKept(u: Uuid7, uppercase: bool, includeHyphens: bool)
    requires Valid(u)
    ensures !IsNullOrWhiteSpace(Some(Format(u, uppercase, includeHyphens)))
    ensures RemoveAll(Format(u, uppercase, includeHyphens), SEPARATORS) == HexOf(ByteLayout(u), uppercase)
  {
    var s := Format(u, uppercase, includeHyphens);
    var hex := HexOf(ByteLayout(u), uppercase);
    FormatLayout(u, uppercase, includeHyphens);
    FormatCharNotWhite(s[0], uppercase);
    HexOfCharacters(ByteLayout(u), uppercase);
    if includeHyphens {
      HyphenateRemoveAll(hex, SEPARATORS);
    } else {
      RemoveAllAbsent(hex, SEPARATORS);
    }
  }

  /** The round trip through text, for timestamps below 2^47 (all dates up to the year 6000). */
  lemma RoundTrip(u: Uuid7, uppercase: bool, includeHyphens: bool)
    requires Valid(u) && u.timePart < TWO_47
    ensures ParseResult(Some(Format(u, uppercase, includeHyphens))) == Success(u)
  {
    RoundTripExactly(u, uppercase, includeHyphens);
  }

  /** Exactly which timestamps survive the round trip through text. */
  lemma RoundTripExactly(u: Uuid7, uppercase: bool, includeHyphens: bool)
    requires Valid(u)
    ensures ParseResult(Some(Format(u, uppercase, includeHyphens))) == Success(u) <==>
      u.timePart < TWO_47 || u.timePart >= TWO_64 - TWO_47
  {
    ParseFormat(u, uppercase, includeHyphens);
    SignExtendedFixed(u.timePart);
  }

  /** Sign-extending the low 48 bits gives the value back exactly on the top and bottom 2^47 values. */
  lemma SignExtendedFixed(t: u64)
    ensures SignExtended48(t % TWO_48) == t <==> t < TWO_47 || t >= TWO_64 - TWO_47
  {
    var q, m := t / TWO_48, t % TWO_48;
    assert t == TWO_48 * q + m;
    if q == 0 {
      assert m == t;
    } else if q < TWO_16 - 1 {
      assert TWO_48 * q <= TWO_48 * (TWO_16 - 2) by {
        if q < TWO_16 - 2 {
          assert TWO_48 * (TWO_16 - 2) - TWO_48 * q == TWO_48 * (TWO_16 - 2 - q);
          MulAtLeast(TWO_48, TWO_16 - 2 - q);
        }
      }
    } else {
      assert q == TWO_16 - 1 by {
        if q >= TWO_16 {
          MulAtLeast(TWO_48, q - TWO_16);
        }
      }
    }
  }

  // ---------------------------------------------------------------------
  // Parsing (the parser compiled for targets before .NET 8)

  /** The loop of the older parser: `byte.Parse(uuid.Substring(i * 2, 2), HexNumber)` for i = 0..15. */
  function DecodeLegacy(digits: string, i: nat, acc: seq<byte>): (r: Result<seq<byte>, Error>)
    requires i <= 16 && |acc| == i
    ensures r.Success? ==> |r.value| == 16
    decreases 16 - i
  {
    if i == 16 then Success(acc)
    else if i * 2 + 2 > |digits| then Failure(SubstringOutOfRange)
    else match ParseHexNumber(digits[i * 2..i * 2 + 2])
      case None => Failure(InvalidHexByte)
      case Some(b) => DecodeLegacy(digits, i + 1, acc + [b])
  }

  /** The text the older parser's loop reads: trimmed, lower-cased and, at 36 characters, joined from five parts. */
  function LegacyText(uuid: Option<string>): (r: Result<string, Error>)
    ensures uuid.None? || AllWhiteSpace(uuid.value) ==> r == Failure(MissingInput)
    ensures uuid.Some? && !AllWhiteSpace(uuid.value) && |uuid.value| != 32 && |uuid.value| != 36 ==>
      r == Failure(InvalidLength)
    ensures (uuid.Some? && !AllWhiteSpace(uuid.value) && (|uuid.value| == 32 || |uuid.value| == 36) &&
             |Trim(uuid.value)| == 36 && |Split(ToLowerInvariant(Trim(uuid.value)), '-')| != 5) ==>
      r == Failure(InvalidPartCount)
    ensures r.Success? ==>
      r.value == (if |Trim(uuid.value)| == 36 then RemoveAll(ToLowerInvariant(Trim(uuid.value)), {'-'})
                  else ToLowerInvariant(Trim(uuid.value)))
    ensures r.Success? ==> |r.value| <= |uuid.value|
    ensures r.Success? && |Trim(uuid.value)| == 36 ==> |r.value| == 32
  {
    if uuid.None? || Trim(uuid.value) == [] then Failure(MissingInput)
    else if |uuid.value| != 36 && |uuid.value| != 32 then Failure(InvalidLength)
    else
      var lowered := ToLowerInvariant(Trim(uuid.value));
      if |lowered| != 36 then Success(lowered)
      else if |Split(lowered, '-')| != 5 then Failure(InvalidPartCount)
      else
        ConcatSplit(lowered, '-');
        SplitLength(lowered, '-');
        Success(Concat(Split(lowered, '-')))
  }

  /** What the older `Parse` computes, as a function of its input. */
  function LegacyParseResult(uuid: Option<string>): (r: Result<Uuid7, Error>)
    ensures LegacyText(uuid).Failure? ==> r == Failure(LegacyText(uuid).error)
    ensures r.Success? ==> Valid(r.value)
  {
    match LegacyText(uuid)
    case Failure(e) => Failure(e)
    case Success(digits) =>
      match DecodeLegacy(digits, 0, [])
      case Failure(e) => Failure(e)
      case Success(bytes) => New(ReadTimePart(bytes[..6]), bytes[6..])
  }

  /**
    The older `Parse(string)`: trims and lower-cases, joins five
    hyphen-separated parts when the text is 36 long, then parses 16
    two-character substrings with `byte.Parse`.
   */
  method ParseLegacy(uuid: Option<string>) returns (r: Result<Uuid7, Error>)
    ensures r == LegacyParseResult(uuid)
  {
    if uuid.None? || Trim(uuid.value) == [] {
      return Failure(MissingInput);
    }
    var s := uuid.value;
    if |s| != 36 && |s| != 32 {
      return Failure(InvalidLength);
    }
    s := ToLowerInvariant(Trim(s));
    if |s| == 36 {
      var parts := Split(s, '-');
      if |parts| != 5 {
        return Failure(InvalidPartCount);
      }
      s := Concat(parts);
    }
    assert LegacyText(uuid) == Success(s);
    var bytes, error := ParseSubstrings(s);
    if error.Some? {
      return Failure(error.value);
    }
    r := New(ReadTimePart(bytes[..6]), bytes[6..]);
  }

  /** The loop of the older `Parse`: byte `i` is `byte.Parse` of characters `2i` and `2i + 1`. */
  method ParseSubstrings(digits: string) returns (bytes: array<byte>, error: Option<Error>)
    ensures fresh(bytes) && bytes.Length == 16
    ensures DecodeLegacy(digits, 0, []) == if error.None? then Success(bytes[..]) else Failure(error.value)
  {
    bytes := new byte[16];
    error := None;
    ghost var acc: seq<byte> := [];
    for i := 0 to 16
      invariant acc == bytes[..i]
      invariant DecodeLegacy(digits, 0, []) == DecodeLegacy(digits, i, acc)
    {
      if i * 2 + 2 > |digits| {
        // Substring(i * 2, 2) past the end
        return bytes, Some(SubstringOutOfRange);
      }
      var b := ParseHexNumber(digits[i * 2..i * 2 + 2]);
      if b.None? {
        return bytes, Some(InvalidHexByte);
      }
      bytes[i] := b.value;
      acc := acc + [b.value];
    }
    assert bytes[..16] == bytes[..];
  }

  lemma {:induction false} DecodeLegacyOfHexOf(bytes: seq<byte>, i: nat)
    requires |bytes| == 16 && i <= 16
    ensures DecodeLegacy(HexOf(bytes, false), i, bytes[..i]) == Success(bytes)
    decreases 16 - i
  {
    if i < 16 {
      var digits := HexOf(bytes, false);
      HexOfAt(bytes, false, i);
      assert digits[i * 2..i * 2 + 2] == HexPair(bytes[i], false);
      ParseHexNumberPair(bytes[i], false);
      assert bytes[..i] + [bytes[i]] == bytes[..i + 1];
      DecodeLegacyOfHexOf(bytes, i + 1);
    } else {
      assert bytes[..16] == bytes;
    }
  }

  /** On text produced by `AsString` the two parsers agree. */
  lemma ParsersAgreeOnFormat(u: Uuid7, uppercase: bool, includeHyphens: bool)
    requires Valid(u)
    ensures LegacyParseResult(Some(Format(u, uppercase, includeHyphens))) ==
      ParseResult(Some(Format(u, uppercase, includeHyphens)))
  {
    var bytes := ByteLayout(u);
    LegacyDigitsOfFormat(u, uppercase, includeHyphens);
    DecodeLegacyOfHexOf(bytes, 0);
    assert bytes[..0] == [];
    LegacyTail(u);
    ParseFormat(u, uppercase, includeHyphens);
  }

  lemma LegacyTail(u: Uuid7)
    requires Valid(u)
    ensures New(ReadTimePart(ByteLayout(u)[..6]), ByteLayout(u)[6..]) ==
      Success(Uuid7(SignExtended48(u.timePart % TWO_48), u.randomPart))
  {
    ByteLayoutSpec(u);
    assert ByteLayout(u)[..6] == TimeBytes(u.timePart);
    ReadTimeBytes(u.timePart);
  }

  /** What the older parser's trimming, lower-casing and joining make of `AsString` text. */
  lemma LegacyDigitsOfFormat(u: Uuid7, uppercase: bool, includeHyphens: bool)
    requires Valid(u)
    ensures var s := Format(u, uppercase, includeHyphens);
      var lowered := ToLowerInvariant(Trim(s));
      && Trim(s) == s && s != []
      && |s| == (if includeHyphens then 36 else 32) && |lowered| == |s|
      && (includeHyphens ==> |Split(lowered, '-')| == 5 &&
                             Concat(Split(lowered, '-')) == HexOf(ByteLayout(u), false))
      && (!includeHyphens ==> lowered == HexOf(ByteLayout(u), false))
  {
    var s := Format(u, uppercase, includeHyphens);
    TrimFormat(u, uppercase, includeHyphens);
    LowerFormat(u, uppercase, includeHyphens);
    if includeHyphens {
      HexOfCharacters(ByteLayout(u), false);
      HyphenatedSplit(HexOf(ByteLayout(u), false));
    }
  }

  /** `AsString` text has no white space at either end. */
  lemma TrimFormat(u: Uuid7, uppercase: bool, includeHyphens: bool)
    requires Valid(u)
    ensures var s := Format(u, uppercase, includeHyphens);
      Trim(s) == s && |s| == (if includeHyphens then 36 else 32)
  {
    var s := Format(u, uppercase, includeHyphens);
    FormatLayout(u, uppercase, includeHyphens);
    FormatCharNotWhite(s[0], uppercase);
    FormatCharNotWhite(s[|s| - 1], uppercase);
    TrimUnchanged(s);
  }

  lemma FormatCharNotWhite(c: char, uppercase: bool)
    requires IsHexChar(c, uppercase) || c == '-'
    ensures !IsWhiteSpace(c)
  {
  }

  /** Lower-casing `AsString` text gives the lower-case text. */
  lemma LowerFormat(u: Uuid7, uppercase: bool, includeHyphens: bool)
    requires Valid(u)
    ensures ToLowerInvariant(Format(u, uppercase, includeHyphens)) == Format(u, false, includeHyphens)
  {
    var hex := HexOf(ByteLayout(u), uppercase);
    LowerHexOf(ByteLayout(u), uppercase);
    if includeHyphens {
      ByteLayoutSpec(u);
      LowerHyphenate(hex);
    }
  }
}
