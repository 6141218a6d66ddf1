/**
  The .NET string routines the core calls, modelled on `seq<char>`:
  `BitConverter.ToString`, `String.Replace`, `ToLowerInvariant`,
  `StringBuilder.Insert`, `Substring`, `char.IsWhiteSpace`, `Trim`, `Split`,
  `string.Concat` and `byte.Parse(…, NumberStyles.HexNumber)`, next to the
  reference hex encoding they are proved against.
 */
module Text {
  import opened Wrappers
  import opened Bytes

  // ---------------------------------------------------------------------
  // Removing characters

  /** `s` without the characters in `drop`, order kept. */
  function RemoveAll(s: string, drop: set<char>): (r: string)
    ensures |r| <= |s|
  {
    if s == [] then [] else (if s[0] in drop then [] else [s[0]]) + RemoveAll(s[1..], drop)
  }

  lemma {:induction false} RemoveAllAppend(a: string, b: string, drop: set<char>)
    ensures RemoveAll(a + b, drop) == RemoveAll(a, drop) + RemoveAll(b, drop)
  {
    if a == [] {
      assert a + b == b;
    } else {
      var head := if a[0] in drop then [] else [a[0]];
      assert (a + b)[0] == a[0] && (a + b)[1..] == a[1..] + b;
      RemoveAllAppend(a[1..], b, drop);
      calc {
        RemoveAll(a + b, drop);
        head + RemoveAll(a[1..] + b, drop);
        head + (RemoveAll(a[1..], drop) + RemoveAll(b, drop));
        (head + RemoveAll(a[1..], drop)) + RemoveAll(b, drop);
      }
    }
  }

  /** Extending the prefix by one character extends its filtered form by at most that character. */
  lemma RemoveAllStep(s: string, k: nat, drop: set<char>)
    requires k < |s|
    ensures RemoveAll(s[..k + 1], drop) ==
      RemoveAll(s[..k], drop) + (if s[k] in drop then [] else [s[k]])
  {
    assert s[..k + 1] == s[..k] + [s[k]];
    RemoveAllAppend(s[..k], [s[k]], drop);
  }

  /** The filtered form of a prefix is no longer than that of the whole string. */
  lemma RemoveAllPrefix(s: string, k: nat, drop: set<char>)
    requires k <= |s|
    ensures |RemoveAll(s[..k], drop)| <= |RemoveAll(s, drop)|
  {
    assert s == s[..k] + s[k..];
    RemoveAllAppend(s[..k], s[k..], drop);
  }

  /** Removing characters that do not occur changes nothing. */
  lemma {:induction false} RemoveAllAbsent(s: string, drop: set<char>)
    requires forall i :: 0 <= i < |s| ==> s[i] !in drop
    ensures RemoveAll(s, drop) == s
  {
    if s != [] {
      RemoveAllAbsent(s[1..], drop);
    }
  }

  // ---------------------------------------------------------------------
  // Case, insertion, hyphen groups

  /** `char.ToLowerInvariant` on the ASCII range. */
  function ToLowerChar(c: char): (r: char)
    ensures !('A' <= r <= 'Z')
    ensures r != c <==> 'A' <= c <= 'Z'
    ensures r != c ==> r as int == c as int + 32
  {
    if 'A' <= c <= 'Z' then (c as int - 'A' as int + 'a' as int) as char else c
  }

  /** Every character lowered on its own; the length is kept and no upper-case ASCII letter is left. */
  function ToLowerInvariant(s: string): (r: string)
    ensures |r| == |s|
    ensures forall i :: 0 <= i < |s| ==> r[i] == ToLowerChar(s[i])
    ensures forall i :: 0 <= i < |r| ==> !('A' <= r[i] <= 'Z')
  {
    seq(|s|, i requires 0 <= i < |s| => ToLowerChar(s[i]))
  }

  /** `new StringBuilder(s).Insert(i, c)`. */
  function Insert(s: string, i: nat, c: char): (r: string)
    requires i <= |s|
    ensures |r| == |s| + 1
    ensures r[..i] == s[..i] && r[i] == c && r[i + 1..] == s[i..]
  {
    s[..i] + [c] + s[i..]
  }

  /** The 8-4-4-4-12 grouping of the canonical UUID text form. */
  function Hyphenate(hex: string): (r: string)
    requires |hex| >= 20
  {
    hex[..8] + "-" + hex[8..12] + "-" + hex[12..16] + "-" + hex[16..20] + "-" + hex[20..]
  }

  /** Where the hyphens and each hex character end up in the grouped form. */
  lemma HyphenateLayout(hex: string)
    requires |hex| >= 20
    ensures |Hyphenate(hex)| == |hex| + 4
    ensures Hyphenate(hex)[8] == '-' && Hyphenate(hex)[13] == '-'
    ensures Hyphenate(hex)[18] == '-' && Hyphenate(hex)[23] == '-'
    ensures forall i :: 0 <= i < |hex| ==> Hyphenate(hex)[HyphenatedIndex(i)] == hex[i]
  {
    var r := Hyphenate(hex);
    forall i | 0 <= i < |hex|
      ensures r[HyphenatedIndex(i)] == hex[i]
    {
    }
  }

  /** Dropping the hyphens (and any other characters absent from `hex`) gives back the hex string. */
  lemma HyphenateRemoveAll(hex: string, drop: set<char>)
    requires |hex| >= 20 && '-' in drop
    requires forall i :: 0 <= i < |hex| ==> hex[i] !in drop
    ensures RemoveAll(Hyphenate(hex), drop) == hex
  {
    var g1, g2, g3, g4, g5 := hex[..8], hex[8..12], hex[12..16], hex[16..20], hex[20..];
    var t4 := g4 + "-" + g5;
    var t3 := g3 + "-" + t4;
    var t2 := g2 + "-" + t3;
    assert Hyphenate(hex) == g1 + "-" + t2;
    RemoveAllAbsent(g5, drop);
    DropSeparator(g4, g5, drop);
    DropSeparator(g3, t4, drop);
    DropSeparator(g2, t3, drop);
    DropSeparator(g1, t2, drop);
    assert hex == g1 + (g2 + (g3 + (g4 + g5)));
  }

  lemma DropSeparator(group: string, rest: string, drop: set<char>)
    requires '-' in drop && forall i :: 0 <= i < |group| ==> group[i] !in drop
    ensures RemoveAll(group + "-" + rest, drop) == group + RemoveAll(rest, drop)
  {
    var tail := "-" + rest;
    assert group + "-" + rest == group + tail;
    assert tail[0] == '-' && tail[1..] == rest;
    assert RemoveAll(tail, drop) == RemoveAll(rest, drop);
    RemoveAllAbsent(group, drop);
    RemoveAllAppend(group, tail, drop);
  }

  /** The grouped form of hex digits holds only hex digits and hyphens. */
  lemma HyphenateChars(hex: string, upper: bool)
    requires |hex| >= 20 && forall i :: 0 <= i < |hex| ==> IsHexChar(hex[i], upper)
    ensures forall k :: 0 <= k < |Hyphenate(hex)| ==>
      IsHexChar(Hyphenate(hex)[k], upper) || Hyphenate(hex)[k] == '-'
  {
    var r := Hyphenate(hex);
    forall k | 0 <= k < |r|
      ensures IsHexChar(r[k], upper) || r[k] == '-'
    {
      if k < 8 {
        assert r[k] == hex[k];
      } else if 8 < k < 13 {
        assert r[k] == hex[k - 1];
      } else if 13 < k < 18 {
        assert r[k] == hex[k - 2];
      } else if 18 < k < 23 {
        assert r[k] == hex[k - 3];
      } else if 23 < k {
        assert r[k] == hex[k - 4];
      }
    }
  }

  /** Lower-casing commutes with the grouping (the hyphen has no case). */
  lemma LowerHyphenate(hex: string)
    requires |hex| >= 20
    ensures ToLowerInvariant(Hyphenate(hex)) == Hyphenate(ToLowerInvariant(hex))
  {
    var l := ToLowerInvariant(hex);
    assert Hyphenate(l) == l[..8] + "-" + l[8..12] + "-" + l[12..16] + "-" + l[16..20] + "-" + l[20..];
  }

  /** `Trim` leaves a string alone whose ends are not white space. */
  lemma TrimUnchanged(s: string)
    requires s != [] && !IsWhiteSpace(s[0]) && !IsWhiteSpace(s[|s| - 1])
    ensures Trim(s) == s
  {
  }

  /** The position of hex character `i` once the four hyphens are in. */
  function HyphenatedIndex(i: nat): nat
  {
    if i < 8 then i else if i < 12 then i + 1 else if i < 16 then i + 2 else if i < 20 then i + 3 else i + 4
  }

  /** The four `StringBuilder.Insert` calls of `AsString`, right to left, give the same grouping. */
  lemma InsertsAreHyphenate(hex: string)
    requires |hex| >= 20
    ensures Insert(Insert(Insert(Insert(hex, 20, '-'), 16, '-'), 12, '-'), 8, '-') == Hyphenate(hex)
  {
    InsertFirst(hex);
    InsertSecond(hex);
    InsertThird(hex);
    InsertFourth(hex);
  }

  lemma InsertFirst(hex: string)
    requires |hex| >= 20
    ensures Insert(hex, 20, '-') == hex[..16] + hex[16..20] + "-" + hex[20..]
  {
    assert hex[..20] == hex[..16] + hex[16..20];
  }

  lemma InsertSecond(hex: string)
    requires |hex| >= 20
    ensures Insert(hex[..16] + hex[16..20] + "-" + hex[20..], 16, '-') ==
      hex[..12] + hex[12..16] + "-" + hex[16..20] + "-" + hex[20..]
  {
    var s := hex[..16] + hex[16..20] + "-" + hex[20..];
    assert s[..16] == hex[..16] == hex[..12] + hex[12..16];
    assert s[16..] == hex[16..20] + "-" + hex[20..];
  }

  lemma InsertThird(hex: string)
    requires |hex| >= 20
    ensures Insert(hex[..12] + hex[12..16] + "-" + hex[16..20] + "-" + hex[20..], 12, '-') ==
      hex[..8] + hex[8..12] + "-" + hex[12..16] + "-" + hex[16..20] + "-" + hex[20..]
  {
    var s := hex[..12] + hex[12..16] + "-" + hex[16..20] + "-" + hex[20..];
    assert s[..12] == hex[..12] == hex[..8] + hex[8..12];
    assert s[12..] == hex[12..16] + "-" + hex[16..20] + "-" + hex[20..];
  }

  lemma InsertFourth(hex: string)
    requires |hex| >= 20
    ensures Insert(hex[..8] + hex[8..12] + "-" + hex[12..16] + "-" + hex[16..20] + "-" + hex[20..], 8, '-') ==
      Hyphenate(hex)
  {
    var s := hex[..8] + hex[8..12] + "-" + hex[12..16] + "-" + hex[16..20] + "-" + hex[20..];
    assert s[..8] == hex[..8];
    assert s[8..] == hex[8..12] + "-" + hex[12..16] + "-" + hex[16..20] + "-" + hex[20..];
  }

  // ---------------------------------------------------------------------
  // Hex encoding

  /** A hex digit of the given letter case. */
  predicate IsHexChar(c: char, upper: bool)
  {
    ('0' <= c <= '9') || (if upper then 'A' <= c <= 'F' else 'a' <= c <= 'f')
  }

  /** The digit for nibble `n`, letters in the requested case. */
  function HexDigit(n: nat, upper: bool): (d: char)
    requires n < 16
    ensures IsHexChar(d, upper)
  {
    if n < 10 then ('0' as int + n) as char
    else ((if upper then 'A' else 'a') as int + n - 10) as char
  }

  function HighNibble(b: byte): (n: nat)
    ensures n < 16 && n * 16 + LowNibble(b) == b as int
  {
    (b >> 4) as nat
  }

  function LowNibble(b: byte): (n: nat)
    ensures n < 16
  {
    (b & 0x0F) as nat
  }

  /** Two hex digits for one byte, high nibble first. */
  function HexPair(b: byte, upper: bool): string
  {
    [HexDigit(HighNibble(b), upper), HexDigit(LowNibble(b), upper)]
  }

  /** The reference hex form: two digits per byte, high nibble first. */
  function HexOf(bytes: seq<byte>, upper: bool): (r: string)
    ensures |r| == 2 * |bytes|
  {
    if bytes == [] then [] else HexPair(bytes[0], upper) + HexOf(bytes[1..], upper)
  }

  lemma {:induction false} HexOfAt(bytes: seq<byte>, upper: bool, i: nat)
    requires i < |bytes|
    ensures HexOf(bytes, upper)[2 * i] == HexDigit(HighNibble(bytes[i]), upper)
    ensures HexOf(bytes, upper)[2 * i + 1] == HexDigit(LowNibble(bytes[i]), upper)
  {
    if i > 0 {
      HexOfAt(bytes[1..], upper, i - 1);
    }
  }

  /** Every character of a hex form is a digit or a letter of the requested case. */
  lemma HexOfCharacters(bytes: seq<byte>, upper: bool)
    ensures forall k :: 0 <= k < |HexOf(bytes, upper)| ==> IsHexChar(HexOf(bytes, upper)[k], upper)
  {
    var r := HexOf(bytes, upper);
    forall k | 0 <= k < |r|
      ensures IsHexChar(r[k], upper)
    {
      var j := k / 2;
      HexOfAt(bytes, upper, j);
      assert k == 2 * j || k == 2 * j + 1;
    }
  }

  /** `BitConverter.ToString(bytes)`: upper-case pairs joined by '-'. */
  function DashedHex(bytes: seq<byte>): (r: string)
    ensures |r| == if bytes == [] then 0 else 3 * |bytes| - 1
  {
    if bytes == [] then []
    else if |bytes| == 1 then HexPair(bytes[0], true)
    else HexPair(bytes[0], true) + "-" + DashedHex(bytes[1..])
  }

  /** `BitConverter.ToString(bytes).Replace("-", "")` is the upper-case hex form. */
  lemma {:induction false} DashedHexWithoutHyphens(bytes: seq<byte>)
    ensures RemoveAll(DashedHex(bytes), {'-'}) == HexOf(bytes, true)
  {
    if bytes != [] {
      var pair := HexPair(bytes[0], true);
      RemoveAllAbsent(pair, {'-'});
      if |bytes| == 1 {
        assert HexOf(bytes, true) == pair + [];
      } else {
        DashedHexWithoutHyphens(bytes[1..]);
        RemoveAllAppend(pair + "-", DashedHex(bytes[1..]), {'-'});
        RemoveAllAppend(pair, "-", {'-'});
      }
    }
  }

  /** `ToLowerInvariant` turns the upper-case hex form into the lower-case one. */
  lemma LowerHex(bytes: seq<byte>)
    ensures ToLowerInvariant(HexOf(bytes, true)) == HexOf(bytes, false)
  {
    var up, low := HexOf(bytes, true), HexOf(bytes, false);
    forall k | 0 <= k < |up|
      ensures ToLowerChar(up[k]) == low[k]
    {
      HexOfAt(bytes, true, k / 2);
      HexOfAt(bytes, false, k / 2);
    }
  }

  /** Lower-casing either hex form gives the lower-case one. */
  lemma LowerHexOf(bytes: seq<byte>, upper: bool)
    ensures ToLowerInvariant(HexOf(bytes, upper)) == HexOf(bytes, false)
  {
    if upper {
      LowerHex(bytes);
    } else {
      var low := HexOf(bytes, false);
      forall k | 0 <= k < |low|
        ensures ToLowerChar(low[k]) == low[k]
      {
        HexOfAt(bytes, false, k / 2);
      }
    }
  }

  // ---------------------------------------------------------------------
  // White space, Trim, Split, Concat

  /** `char.IsWhiteSpace`: the Unicode space, line and paragraph separators, U+0009-U+000D and U+0085. */
  function IsWhiteSpace(c: char): (r: bool)
    ensures c == ' ' ==> r
    ensures r ==> c != '-' && !IsHexChar(c, true) && !IsHexChar(c, false)
  {
    var n := c as int;
    (0x09 <= n <= 0x0D) || n == 0x20 || n == 0x85 || n == 0xA0 || n == 0x1680
    || (0x2000 <= n <= 0x200A) || n == 0x2028 || n == 0x2029 || n == 0x202F
    || n == 0x205F || n == 0x3000
  }

  predicate AllWhiteSpace(s: string)
  {
    forall i :: 0 <= i < |s| ==> IsWhiteSpace(s[i])
  }

  /** `String.Trim()`: white space removed from both ends. */
  function Trim(s: string): (r: string)
    ensures |r| <= |s|
    ensures r == [] <==> AllWhiteSpace(s)
    ensures r != [] ==> !IsWhiteSpace(r[0]) && !IsWhiteSpace(r[|r| - 1])
  {
    if s == [] then []
    else if IsWhiteSpace(s[0]) then Trim(s[1..])
    else if IsWhiteSpace(s[|s| - 1]) then Trim(s[..|s| - 1])
    else s
  }

  /** `Trim` removes white space from the two ends and nothing else: the result is a slice of `s` between white margins. */
  lemma TrimIsSlice(s: string)
    ensures exists i, j :: (0 <= i <= j <= |s| && Trim(s) == s[i..j] &&
                            AllWhiteSpace(s[..i]) && AllWhiteSpace(s[j..]))
  {
    var i, j := TrimBounds(s);
  }

  lemma {:induction false} TrimBounds(s: string) returns (i: nat, j: nat)
    ensures i <= j <= |s| && Trim(s) == s[i..j] && AllWhiteSpace(s[..i]) && AllWhiteSpace(s[j..])
  {
    if s == [] {
      i, j := 0, 0;
    } else if IsWhiteSpace(s[0]) {
      var i', j' := TrimBounds(s[1..]);
      TrimFront(s, i', j');
      i, j := i' + 1, j' + 1;
    } else if IsWhiteSpace(s[|s| - 1]) {
      i, j := TrimBounds(s[..|s| - 1]);
      TrimBack(s, i, j);
    } else {
      i, j := 0, |s|;
      assert s[0..|s|] == s;
    }
  }

  lemma TrimFront(s: string, i: nat, j: nat)
    requires s != [] && IsWhiteSpace(s[0]) && i <= j <= |s| - 1
    requires Trim(s[1..]) == s[1..][i..j] && AllWhiteSpace(s[1..][..i]) && AllWhiteSpace(s[1..][j..])
    ensures Trim(s) == s[i + 1..j + 1] && AllWhiteSpace(s[..i + 1]) && AllWhiteSpace(s[j + 1..])
  {
    var t := s[1..];
    assert Trim(s) == Trim(t);
    assert t[i..j] == s[i + 1..j + 1];
    assert t[j..] == s[j + 1..];
    WhiteFront(s, i);
  }

  lemma WhiteFront(s: string, i: nat)
    requires i < |s| && IsWhiteSpace(s[0]) && AllWhiteSpace(s[1..][..i])
    ensures AllWhiteSpace(s[..i + 1])
  {
    assert s[..i + 1] == [s[0]] + s[1..][..i];
    WhiteSpaceAppend([s[0]], s[1..][..i]);
  }

  lemma TrimBack(s: string, i: nat, j: nat)
    requires s != [] && !IsWhiteSpace(s[0]) && IsWhiteSpace(s[|s| - 1]) && i <= j <= |s| - 1
    requires var init := s[..|s| - 1];
      Trim(init) == init[i..j] && AllWhiteSpace(init[..i]) && AllWhiteSpace(init[j..])
    ensures Trim(s) == s[i..j] && AllWhiteSpace(s[..i]) && AllWhiteSpace(s[j..])
  {
    var init := s[..|s| - 1];
    assert init[i..j] == s[i..j];
    assert s[..i] == init[..i];
    assert s[j..] == init[j..] + [s[|s| - 1]];
    WhiteSpaceAppend(init[j..], [s[|s| - 1]]);
  }

  lemma WhiteSpaceAppend(a: string, b: string)
    requires AllWhiteSpace(a) && AllWhiteSpace(b)
    ensures AllWhiteSpace(a + b)
  {
    forall k | 0 <= k < |a + b|
      ensures IsWhiteSpace((a + b)[k])
    {
      if k >= |a| {
        assert (a + b)[k] == b[k - |a|];
      }
    }
  }

  /** `s.Split(c)`: the pieces between occurrences of `c`, empty ones included. */
  function Split(s: string, c: char): (parts: seq<string>)
    ensures |parts| > 0
    ensures forall k :: 0 <= k < |parts| ==> c !in parts[k]
  {
    if s == [] then [[]]
    else
      var rest := Split(s[1..], c);
      if s[0] == c then [[]] + rest else [[s[0]] + rest[0]] + rest[1..]
  }

  /** `string.Concat(parts)`. */
  function Concat(parts: seq<string>): (r: string)
  {
    if parts == [] then [] else parts[0] + Concat(parts[1..])
  }

  /** A string without the separator is one piece. */
  lemma {:induction false} SplitNone(s: string, c: char)
    requires forall i :: 0 <= i < |s| ==> s[i] != c
    ensures Split(s, c) == [s]
  {
    if s != [] {
      SplitNone(s[1..], c);
      assert [s[0]] + s[1..] == s;
    }
  }

  /** A separator-free first piece splits off on its own. */
  lemma {:induction false} SplitFirst(piece: string, c: char, rest: string)
    requires forall i :: 0 <= i < |piece| ==> piece[i] != c
    ensures Split(piece + [c] + rest, c) == [piece] + Split(rest, c)
  {
    var s := piece + [c] + rest;
    if piece == [] {
      assert s[0] == c && s[1..] == rest;
    } else {
      assert s[0] == piece[0] && s[1..] == piece[1..] + [c] + rest;
      SplitFirst(piece[1..], c, rest);
      assert [piece[0]] + piece[1..] == piece;
    }
  }

  lemma ConcatCons(part: string, parts: seq<string>)
    ensures Concat([part] + parts) == part + Concat(parts)
  {
    assert ([part] + parts)[1..] == parts;
  }

  /** Joining is a monoid homomorphism: joining two lists is joining each and appending. */
  lemma {:induction false} ConcatAppend(a: seq<string>, b: seq<string>)
    ensures Concat(a + b) == Concat(a) + Concat(b)
  {
    if a != [] {
      assert (a + b)[0] == a[0] && (a + b)[1..] == a[1..] + b;
      ConcatAppend(a[1..], b);
    } else {
      assert a + b == b;
    }
  }

  /** Joining the pieces of `Split` drops exactly the separators. */
  lemma {:induction false} ConcatSplit(s: string, c: char)
    ensures Concat(Split(s, c)) == RemoveAll(s, {c})
  {
    if s != [] {
      var rest := Split(s[1..], c);
      ConcatSplit(s[1..], c);
      if s[0] != c {
        assert Concat(rest) == rest[0] + Concat(rest[1..]);
        assert Concat([[s[0]] + rest[0]] + rest[1..]) == [s[0]] + rest[0] + Concat(rest[1..]);
      }
    }
  }

  /** Every separator adds a piece: the pieces count one more than the separators removed. */
  lemma {:induction false} SplitLength(s: string, c: char)
    ensures |Split(s, c)| + |RemoveAll(s, {c})| == |s| + 1
  {
    if s != [] {
      SplitLength(s[1..], c);
    }
  }

  /** Splitting the grouped form of hyphen-free text at '-' gives its five groups, which join back to it. */
  lemma HyphenatedSplit(lowHex: string)
    requires |lowHex| == 32 && forall i :: 0 <= i < |lowHex| ==> lowHex[i] != '-'
    ensures |Split(Hyphenate(lowHex), '-')| == 5
    ensures Concat(Split(Hyphenate(lowHex), '-')) == lowHex
  {
    var g1, g2, g3, g4, g5 := lowHex[..8], lowHex[8..12], lowHex[12..16], lowHex[16..20], lowHex[20..];
    SplitGroups(lowHex);
    ConcatGroups(g1, g2, g3, g4, g5);
    assert lowHex == g1 + (g2 + (g3 + (g4 + g5)));
  }

  lemma SplitGroups(hex: string)
    requires |hex| == 32 && forall i :: 0 <= i < |hex| ==> hex[i] != '-'
    ensures Split(Hyphenate(hex), '-') == [hex[..8], hex[8..12], hex[12..16], hex[16..20], hex[20..]]
  {
    var g1, g2, g3, g4, g5 := hex[..8], hex[8..12], hex[12..16], hex[16..20], hex[20..];
    assert Hyphenate(hex) == g1 + "-" + (g2 + "-" + (g3 + "-" + (g4 + "-" + g5)));
    SplitNone(g5, '-');
    SplitFirst(g4, '-', g5);
    SplitFirst(g3, '-', g4 + "-" + g5);
    SplitFirst(g2, '-', g3 + "-" + (g4 + "-" + g5));
    SplitFirst(g1, '-', g2 + "-" + (g3 + "-" + (g4 + "-" + g5)));
  }

  lemma ConcatGroups(g1: string, g2: string, g3: string, g4: string, g5: string)
    ensures Concat([g1, g2, g3, g4, g5]) == g1 + (g2 + (g3 + (g4 + g5)))
  {
    assert [g1, g2, g3, g4, g5] == [g1] + ([g2] + ([g3] + ([g4] + [g5])));
    ConcatCons(g5, []);
    ConcatCons(g4, [g5]);
    ConcatCons(g3, [g4] + [g5]);
    ConcatCons(g2, [g3] + ([g4] + [g5]));
    ConcatCons(g1, [g2] + ([g3] + ([g4] + [g5])));
    assert g5 + [] == g5;
  }

  // ---------------------------------------------------------------------
  // byte.Parse(s, NumberStyles.HexNumber) on the two-character substrings of the legacy parser

  /** White space as `NumberStyles.AllowLeadingWhite`/`AllowTrailingWhite` define it. */
  predicate IsNumberWhite(c: char)
  {
    ('\t' <= c <= '\r') || c == ' '
  }

  /** The value of one hex digit of either case. */
  function HexDigitValue(c: char): Option<nat>
  {
    if '0' <= c <= '9' then Some(c as int - '0' as int)
    else if 'a' <= c <= 'f' then Some(c as int - 'a' as int + 10)
    else if 'A' <= c <= 'F' then Some(c as int - 'A' as int + 10)
    else None
  }

  /**
    `byte.Parse(s, NumberStyles.HexNumber)` for a two-character `s`: two hex
    digits, or one digit with white space before it, or one digit followed by
    white space or a NUL character (which .NET number parsing ignores at the
    end). `None` is the `FormatException`.
   */
  function ParseHexNumber(s: string): (r: Option<byte>)
    requires |s| == 2
    ensures r.Some? ==> HexDigitValue(s[0]).Some? || HexDigitValue(s[1]).Some?
  {
    match (HexDigitValue(s[0]), HexDigitValue(s[1]))
    case (Some(h), Some(l)) => Some(ToByte(h * 16 + l))
    case (None, Some(l)) => if IsNumberWhite(s[0]) then Some(ToByte(l)) else None
    case (Some(h), None) => if IsNumberWhite(s[1]) || s[1] == '\0' then Some(ToByte(h)) else None
    case (None, None) => None
  }

  /** Two hex digits of either case parse back to the byte they encode. */
  lemma ParseHexNumberPair(b: byte, upper: bool)
    ensures ParseHexNumber(HexPair(b, upper)) == Some(b)
  {
    var h, l := HighNibble(b), LowNibble(b);
    HexDigitValueOf(h, upper);
    HexDigitValueOf(l, upper);
    ByteValueInjective(ToByte(h * 16 + l), b);
  }

  lemma HexDigitValueOf(n: nat, upper: bool)
    requires n < 16
    ensures HexDigitValue(HexDigit(n, upper)) == Some(n)
  {
  }
}
