/**
  The static `UuidGenerator` class: a UUIDv7 as a bare 16-byte array, built
  from 16 random bytes with the millisecond clock written over bytes 0-5 and
  the version and variant tags over bytes 6 and 8, and its upper-case
  8-4-4-4-12 text form.
 */
module UuidGenerator {
  import opened Wrappers
  import opened Bytes
  import opened Text
  import Uuid7

  /** The bytes `Generate` returns for the given random fill and clock reading. */
  function GeneratedBytes(random: seq<byte>, millis: i64): (g: seq<byte>)
    requires |random| == 16
    ensures |g| == 16 && g[..6] == TimeBytes(millis) && Uuid7.ValidRandomPart(g[6..])
  {
    var timed := TimeBytes(millis) + random[6..];
    timed[6 := Uuid7.VersionTag(random[6])][8 := Uuid7.VariantTag(random[8])]
  }

  /**
    `Generate()` with the random fill and `ToUnixTimeMilliseconds()` given as
    inputs: `(short)(millis >> 32)` and `(int)millis` copied in network order
    over bytes 0-5, then bytes 6 and 8 tagged in place.
   */
  method Generate(random: seq<byte>, millis: i64) returns (uuid: array<byte>)
    requires |random| == 16
    ensures fresh(uuid)
    ensures uuid[..] == GeneratedBytes(random, millis)
  {
    uuid := new byte[16];
    BlockCopy(random, 0, uuid, 0, 16);  // rng.GetBytes(uuid)
    assert uuid[6..] == random[6..];
    WriteTimestamp(uuid, millis);
    ghost var timed := uuid[..];
    assert timed[6] == random[6] && timed[8] == random[8];
    uuid[6] := Uuid7.VersionTag(uuid[6]);
    uuid[8] := Uuid7.VariantTag(uuid[8]);
    assert uuid[..] == timed[6 := Uuid7.VersionTag(random[6])][8 := Uuid7.VariantTag(random[8])];
  }

  /**
    The first half of `Generate`: `(short)(millis >> 32)` and `(int)millis`
    copied in network order over bytes 0-5, the other bytes kept.
   */
  method WriteTimestamp(uuid: array<byte>, millis: i64)
    requires uuid.Length == 16
    modifies uuid
    ensures uuid[..] == TimeBytes(millis) + old(uuid[6..])
  {
    ghost var rest := uuid[6..];
    var millisLow := BigEndian(millis % TWO_32, 4);
    var millisHigh := BigEndian(millis / TWO_32 % TWO_16, 2);
    ghost var before := uuid[..];
    BlockCopy(millisHigh, 0, uuid, 0, 2);
    assert uuid[..] == millisHigh + before[2..];
    BlockCopy(millisLow, 0, uuid, 2, 4);
    assert uuid[..] == TimeBytes(millis) + rest;
  }

  /**
    What `Generate` promises: 16 bytes, bytes 0-5 the clock's low 48 bits
    big-endian, version 7 in the high nibble of byte 6, variant 10 in the top
    bits of byte 8, and every other bit from the random fill.
   */
  lemma GeneratedBytesSpec(random: seq<byte>, millis: i64)
    requires |random| == 16
    ensures var g := GeneratedBytes(random, millis);
      && |g| == 16
      && BeValue(g[..6]) == millis % TWO_48
      && g[6] == (random[6] & 0x0F) | 0x70 && g[8] == (random[8] & 0x3F) | 0x80
      && (forall i :: 6 <= i < 16 && i != 6 && i != 8 ==> g[i] == random[i])
      && Uuid7.ValidRandomPart(g[6..])
  {
    var g := GeneratedBytes(random, millis);
    assert g[..6] == TimeBytes(millis);
    TimeBytesValue(millis);
  }

  /** The generator's bytes are the 16-byte layout of the `Uuid7` whose timestamp is the same clock reading. */
  lemma GeneratedIsLayout(random: seq<byte>, millis: i64)
    requires |random| == 16
    ensures var g := GeneratedBytes(random, millis);
      var u := Uuid7.Uuid7(millis % TWO_64, g[6..]);
      Uuid7.Valid(u) && Uuid7.ByteLayout(u) == g
  {
    var g := GeneratedBytes(random, millis);
    GeneratedBytesSpec(random, millis);
    UlongCastKeepsLow48(millis);
    TimeBytesCongruent(millis % TWO_64, millis);
    assert g == g[..6] + g[6..];
  }

  lemma UlongCastKeepsLow48(m: int)
    ensures m % TWO_64 % TWO_48 == m % TWO_48
  {
    var q, r := m / TWO_64, m % TWO_64;
    assert m == TWO_64 * q + r;
    assert TWO_64 * q == TWO_48 * (TWO_16 * q);
    assert r == TWO_48 * (r / TWO_48) + r % TWO_48;
    assert m == TWO_48 * (TWO_16 * q + r / TWO_48) + r % TWO_48;
    ModOfMultiple(m, TWO_48, TWO_16 * q + r / TWO_48, r % TWO_48);
  }

  /** The timestamp bytes depend only on the low 48 bits. */
  lemma TimeBytesCongruent(a: int, b: int)
    requires a % TWO_48 == b % TWO_48
    ensures TimeBytes(a) == TimeBytes(b)
  {
    TimeBytesValue(a);
    TimeBytesValue(b);
    BigEndianOfBeValue(TimeBytes(a));
    BigEndianOfBeValue(TimeBytes(b));
  }

  /**
    `ToString(byte[])`: `BitConverter.ToString` with the dashes removed, cut
    8-4-4-4-rest; the `Substring` calls throw (here `None`) when fewer than
    10 bytes give fewer than 20 digits.
   */
  function ToString(uuid: seq<byte>): (r: Option<string>)
    ensures r.Some? <==> |uuid| >= 10
    ensures r.Some? ==> r.value == Hyphenate(HexOf(uuid, true))
  {
    DashedHexWithoutHyphens(uuid);
    var hex := RemoveAll(DashedHex(uuid), {'-'});
    if |hex| < 20 then None
    else Some(hex[..8] + "-" + hex[8..12] + "-" + hex[12..16] + "-" + hex[16..20] + "-" + hex[20..])
  }

  /** The shape of `ToString`: upper-case digits two per byte, hyphens at 8, 13, 18 and 23. */
  lemma ToStringLayout(uuid: seq<byte>)
    requires |uuid| >= 10
    ensures var s := ToString(uuid).value;
      && |s| == 2 * |uuid| + 4
      && s[8] == '-' && s[13] == '-' && s[18] == '-' && s[23] == '-'
      && RemoveAll(s, {'-'}) == HexOf(uuid, true)
      && (forall k :: 0 <= k < |s| ==> IsHexChar(s[k], true) || s[k] == '-')
  {
    var hex := HexOf(uuid, true);
    HexOfCharacters(uuid, true);
    HyphenateLayout(hex);
    HyphenateRemoveAll(hex, {'-'});
    HyphenateChars(hex, true);
  }

  /** `ToString` of a UUID's 16 bytes is its upper-case hyphenated `AsString`. */
  lemma ToStringIsFormat(u: Uuid7.Uuid7)
    requires Uuid7.Valid(u)
    ensures ToString(Uuid7.ByteLayout(u)) == Some(Uuid7.Format(u, true, true))
  {
  }

  /** `PrettyGenerate()`: `ToString(Generate())`, with the random fill and the clock as inputs. */
  method PrettyGenerate(random: seq<byte>, millis: i64) returns (s: string)
    requires |random| == 16
    ensures ToString(GeneratedBytes(random, millis)) == Some(s)
    ensures |s| == 36 && s[8] == '-' && s[13] == '-' && s[18] == '-' && s[23] == '-'
    ensures s[14] == '7' && s[19] in "89AB"
    ensures Uuid7.ParseResult(Some(s)) ==
      Success(Uuid7.Uuid7(Uuid7.SignExtended48(millis % TWO_48), GeneratedBytes(random, millis)[6..]))
  {
    var guid := Generate(random, millis);
    var text := ToString(guid[..]);
    s := text.value;
    PrettyText(random, millis);
  }

  /** The version and variant digits of the generated text, and what it parses back to. */
  lemma PrettyText(random: seq<byte>, millis: i64)
    requires |random| == 16
    ensures var g := GeneratedBytes(random, millis);
      var s := ToString(g).value;
      && |s| == 36 && s[8] == '-' && s[13] == '-' && s[18] == '-' && s[23] == '-'
      && s[14] == '7' && s[19] in "89AB"
      && Uuid7.ParseResult(Some(s)) ==
           Success(Uuid7.Uuid7(Uuid7.SignExtended48(millis % TWO_48), g[6..]))
  {
    var g := GeneratedBytes(random, millis);
    var u := Uuid7.Uuid7(millis % TWO_64, g[6..]);
    GeneratedIsLayout(random, millis);
    ToStringIsFormat(u);
    Uuid7.FormatLayout(u, true, true);
    Uuid7.VersionAndVariantDigits(u, true, true);
    Uuid7.ParseFormat(u, true, true);
    UlongCastKeepsLow48(millis);
  }
}
