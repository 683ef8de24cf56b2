// The two encodings of text in which the gateway (Go, UTF-8 bytes) and the
// toolkit (TypeScript, UTF-16 code units) compare strings. A Dafny `char` is a
// Unicode scalar value, so a `string` is exactly what both sides can exchange.
module Utf {

  // ---- Encodings ----

  function Utf8Char(c: char): (u: seq<nat>)
    ensures 1 <= |u| <= 4 && (forall i | 0 <= i < |u| :: u[i] < 256)
  {
    var n := c as int;
    if n < 0x80 then [n]
    else if n < 0x800 then [0xC0 + n / 0x40, 0x80 + n % 0x40]
    else if n < 0x10000 then [0xE0 + n / 0x1000, 0x80 + n / 0x40 % 0x40, 0x80 + n % 0x40]
    else [0xF0 + n / 0x40000, 0x80 + n / 0x1000 % 0x40, 0x80 + n / 0x40 % 0x40, 0x80 + n % 0x40]
  }

  function Utf16Char(c: char): (u: seq<nat>)
    ensures 1 <= |u| <= 2
  {
    var n := c as int;
    if n < 0x10000 then [n]
    else [0xD800 + (n - 0x10000) / 0x400, 0xDC00 + (n - 0x10000) % 0x400]
  }

  datatype Encoding = Utf8 | Utf16

  function Units(e: Encoding, c: char): (u: seq<nat>)
    ensures |u| >= 1
  {
    if e.Utf8? then Utf8Char(c) else Utf16Char(c)
  }

  function Encode(e: Encoding, s: string): seq<nat> {
    if |s| == 0 then [] else Units(e, s[0]) + Encode(e, s[1..])
  }

  // ---- Orders ----

  // Byte-wise (Go) or code-unit-wise (JavaScript) comparison.
  predicate UnitsLess(a: seq<nat>, b: seq<nat>) {
    |b| > 0 && (|a| == 0 || a[0] < b[0] || (a[0] == b[0] && UnitsLess(a[1..], b[1..])))
  }

  // The order of sort.Strings (e == Utf8) and of Array.prototype.sort (e == Utf16).
  predicate Less(e: Encoding, a: string, b: string) {
    UnitsLess(Encode(e, a), Encode(e, b))
  }

  // The rank of a scalar value in each order: UTF-16 puts the supplementary
  // planes, which start with a surrogate, below U+E000..U+FFFF.
  function Rank(e: Encoding, c: char): nat {
    var n := c as int;
    if e.Utf16? && 0xE000 <= n < 0x10000 then n + 0x200000 else n
  }

  predicate RankLess(e: Encoding, a: string, b: string) {
    |b| > 0 && (|a| == 0 || Rank(e, a[0]) < Rank(e, b[0]) || (a[0] == b[0] && RankLess(e, a[1..], b[1..])))
  }

  // Position of the first difference of two unit sequences, neither a prefix of the other.
  predicate Splits(u: seq<nat>, v: seq<nat>, i: nat) {
    i < |u| && i < |v| && u[i] != v[i] && u[..i] == v[..i]
  }

  lemma {:induction false} UnitsLessAtSplit(u: seq<nat>, v: seq<nat>, i: nat, x: seq<nat>, y: seq<nat>)
    requires Splits(u, v, i)
    ensures UnitsLess(u + x, v + y) <==> u[i] < v[i]
  {
    if i > 0 {
      assert u[0] == u[..i][0] == v[..i][0] == v[0];
      assert u[1..][..i - 1] == u[..i][1..];
      assert v[1..][..i - 1] == v[..i][1..];
      assert (u + x)[1..] == u[1..] + x;
      assert (v + y)[1..] == v[1..] + y;
      UnitsLessAtSplit(u[1..], v[1..], i - 1, x, y);
    }
  }

  lemma {:induction false} UnitsLessCommonPrefix(u: seq<nat>, x: seq<nat>, y: seq<nat>)
    ensures UnitsLess(u + x, u + y) <==> UnitsLess(x, y)
  {
    if |u| == 0 {
      assert u + x == x && u + y == y;
    } else {
      assert (u + x)[1..] == u[1..] + x;
      assert (u + y)[1..] == u[1..] + y;
      UnitsLessCommonPrefix(u[1..], x, y);
    }
  }

  // The encodings of two different scalars differ at some unit, and the one
  // of lower rank is the lower there.
  lemma SplitUtf8(c: char, d: char) returns (i: nat)
    requires c != d
    ensures Splits(Utf8Char(c), Utf8Char(d), i)
    ensures Utf8Char(c)[i] < Utf8Char(d)[i] <==> c < d
  {
    if Utf8Char(c)[0] != Utf8Char(d)[0] {
      i := 0;
      LeadByte(c, d);
    } else {
      LeadByte(c, d);
      i := SplitContinuation(c, d);
    }
  }

  // The first byte alone orders scalars that do not share it.
  lemma LeadByte(c: char, d: char)
    ensures Utf8Char(c)[0] < Utf8Char(d)[0] ==> c < d
    ensures Utf8Char(c)[0] == Utf8Char(d)[0] ==> |Utf8Char(c)| == |Utf8Char(d)|
    ensures Utf8Char(d)[0] < Utf8Char(c)[0] ==> d < c
  {
  }

  // A scalar is the weighted sum of its payload bits.
  lemma PayloadValue(c: char)
    ensures forall i | 1 <= i < |Utf8Char(c)| :: 0x80 <= Utf8Char(c)[i] < 0xC0
    ensures var u := Utf8Char(c);
            c as int == match |u|
                        case 1 => u[0]
                        case 2 => (u[0] - 0xC0) * 0x40 + (u[1] - 0x80)
                        case 3 => (u[0] - 0xE0) * 0x1000 + (u[1] - 0x80) * 0x40 + (u[2] - 0x80)
                        case _ =>
                          (u[0] - 0xF0) * 0x40000 + (u[1] - 0x80) * 0x1000 + (u[2] - 0x80) * 0x40 + (u[3] - 0x80)
  {
    var n := c as int;
    assert n / 0x1000 == n / 0x40 / 0x40;
    assert n / 0x40000 == n / 0x1000 / 0x40;
  }

  lemma SplitContinuation(c: char, d: char) returns (i: nat)
    requires c != d
    requires Utf8Char(c)[0] == Utf8Char(d)[0] && |Utf8Char(c)| == |Utf8Char(d)|
    ensures Splits(Utf8Char(c), Utf8Char(d), i)
    ensures Utf8Char(c)[i] < Utf8Char(d)[i] <==> c < d
  {
    var u, v := Utf8Char(c), Utf8Char(d);
    PayloadValue(c);
    PayloadValue(d);
    if u[1] != v[1] {
      i := 1;
    } else if u[2] != v[2] {
      i := 2;
    } else {
      i := 3;
    }
  }

  lemma SplitUtf16(c: char, d: char) returns (i: nat)
    requires c != d
    ensures Splits(Utf16Char(c), Utf16Char(d), i)
    ensures Utf16Char(c)[i] < Utf16Char(d)[i] <==> Rank(Utf16, c) < Rank(Utf16, d)
  {
    i := if Utf16Char(c)[0] != Utf16Char(d)[0] then 0 else 1;
  }

  // Both orders are the lexicographic order of ranks: UTF-8 bytes compare like
  // scalar values, UTF-16 units like scalar values with U+E000..U+FFFF moved last.
  lemma {:induction false} LessIsRankLess(e: Encoding, a: string, b: string)
    ensures Less(e, a, b) <==> RankLess(e, a, b)
  {
    if |a| > 0 && |b| > 0 {
      if a[0] == b[0] {
        UnitsLessCommonPrefix(Units(e, a[0]), Encode(e, a[1..]), Encode(e, b[1..]));
        LessIsRankLess(e, a[1..], b[1..]);
      } else {
        var i: nat;
        if e.Utf8? {
          i := SplitUtf8(a[0], b[0]);
        } else {
          i := SplitUtf16(a[0], b[0]);
        }
        UnitsLessAtSplit(Units(e, a[0]), Units(e, b[0]), i, Encode(e, a[1..]), Encode(e, b[1..]));
      }
    }
  }

  lemma {:induction false} LessTrichotomy(e: Encoding, a: string, b: string)
    ensures a == b || Less(e, a, b) || Less(e, b, a)
    ensures !(Less(e, a, b) && Less(e, b, a))
    ensures !Less(e, a, a)
  {
    LessIsRankLess(e, a, b);
    LessIsRankLess(e, b, a);
    LessIsRankLess(e, a, a);
    RankTrichotomy(e, a, b);
    RankTrichotomy(e, a, a);
  }

  lemma {:induction false} RankTrichotomy(e: Encoding, a: string, b: string)
    ensures a == b || RankLess(e, a, b) || RankLess(e, b, a)
    ensures !(RankLess(e, a, b) && RankLess(e, b, a))
  {
    if |a| > 0 && |b| > 0 && a[0] == b[0] {
      RankTrichotomy(e, a[1..], b[1..]);
      if a[1..] == b[1..] {
        assert a == [a[0]] + a[1..] == [b[0]] + b[1..] == b;
      }
    }
  }

  lemma LessTransitive(e: Encoding, a: string, b: string, c: string)
    requires Less(e, a, b) && Less(e, b, c)
    ensures Less(e, a, c)
  {
    LessIsRankLess(e, a, b);
    LessIsRankLess(e, b, c);
    LessIsRankLess(e, a, c);
    RankTransitive(e, a, b, c);
  }

  lemma {:induction false} RankTransitive(e: Encoding, a: string, b: string, c: string)
    requires RankLess(e, a, b) && RankLess(e, b, c)
    ensures RankLess(e, a, c)
  {
    if |a| > 0 && a[0] == b[0] == c[0] {
      RankTransitive(e, a[1..], b[1..], c[1..]);
    }
  }

  // ---- Where the two orders agree ----

  predicate IsHighBmp(c: char) { 0xE000 <= c as int < 0x10000 }

  predicate IsSupplementary(c: char) { c as int >= 0x10000 }

  // The first difference of a and b sets a supplementary scalar against one of U+E000..U+FFFF.
  predicate Straddles(a: string, b: string) {
    |a| > 0 && |b| > 0 &&
    if a[0] == b[0] then Straddles(a[1..], b[1..])
    else (IsHighBmp(a[0]) && IsSupplementary(b[0])) || (IsSupplementary(a[0]) && IsHighBmp(b[0]))
  }

  // The two sorts order a pair of keys alike exactly when their first difference does not straddle.
  lemma {:induction false} OrdersAgreeIff(a: string, b: string)
    ensures (Less(Utf8, a, b) <==> Less(Utf16, a, b)) <==> !Straddles(a, b)
  {
    LessIsRankLess(Utf8, a, b);
    LessIsRankLess(Utf16, a, b);
    RanksAgreeIff(a, b);
  }

  lemma {:induction false} RanksAgreeIff(a: string, b: string)
    ensures (RankLess(Utf8, a, b) <==> RankLess(Utf16, a, b)) <==> !Straddles(a, b)
  {
    if |a| > 0 && |b| > 0 && a[0] == b[0] {
      RanksAgreeIff(a[1..], b[1..]);
    }
  }

  predicate IsBmp(s: string) {
    forall i | 0 <= i < |s| :: !IsSupplementary(s[i])
  }

  lemma {:induction false} BmpNeverStraddles(a: string, b: string)
    requires IsBmp(a) && IsBmp(b)
    ensures !Straddles(a, b)
  {
    if |a| > 0 && |b| > 0 && a[0] == b[0] {
      assert forall i | 0 <= i < |a[1..]| :: a[1..][i] == a[i + 1];
      assert forall i | 0 <= i < |b[1..]| :: b[1..][i] == b[i + 1];
      BmpNeverStraddles(a[1..], b[1..]);
    }
  }

  // ---- Decoding bytes ----

  predicate IsContinuation(b: nat) {
    0x80 <= b < 0xC0
  }

  // One scalar and the number of bytes it took. A byte that starts no
  // well-formed sequence is read alone, as U+FFFD.
  function DecodeFirst(u: seq<nat>): (r: (char, nat))
    requires |u| > 0
    ensures 1 <= r.1 <= |u|
  {
    var b := u[0];
    if b < 0x80 then
      (b as char, 1)
    else if 0xC2 <= b < 0xE0 && |u| >= 2 && IsContinuation(u[1]) then
      (((b - 0xC0) * 0x40 + (u[1] - 0x80)) as char, 2)
    else if 0xE0 <= b < 0xF0 && |u| >= 3 && IsContinuation(u[1]) && IsContinuation(u[2]) then
      var n := (b - 0xE0) * 0x1000 + (u[1] - 0x80) * 0x40 + (u[2] - 0x80);
      if n < 0x800 || 0xD800 <= n < 0xE000 then (0xFFFD as char, 1) else (n as char, 3)
    else if 0xF0 <= b < 0xF5 && |u| >= 4 && IsContinuation(u[1]) && IsContinuation(u[2]) && IsContinuation(u[3]) then
      var n := (b - 0xF0) * 0x40000 + (u[1] - 0x80) * 0x1000 + (u[2] - 0x80) * 0x40 + (u[3] - 0x80);
      if n < 0x10000 || n >= 0x110000 then (0xFFFD as char, 1) else (n as char, 4)
    else
      (0xFFFD as char, 1)
  }

  function DecodeText(u: seq<nat>): string
    decreases |u|
  {
    if |u| == 0 then ""
    else
      var (c, n) := DecodeFirst(u);
      [c] + DecodeText(u[n..])
  }

  lemma DecodeFirstEncode(c: char, rest: seq<nat>)
    ensures DecodeFirst(Utf8Char(c) + rest) == (c, |Utf8Char(c)|)
  {
    PayloadValue(c);
    var u := Utf8Char(c);
    assert forall i | 0 <= i < |u| :: (u + rest)[i] == u[i];
  }

  lemma {:induction false} DecodeEncode(s: string)
    ensures DecodeText(Encode(Utf8, s)) == s
  {
    if |s| > 0 {
      var u, rest := Utf8Char(s[0]), Encode(Utf8, s[1..]);
      DecodeFirstEncode(s[0], rest);
      assert (u + rest)[|u|..] == rest;
      DecodeEncode(s[1..]);
      assert s == [s[0]] + s[1..];
    }
  }

  lemma {:induction false} EncodedBytes(s: string)
    ensures forall i | 0 <= i < |Encode(Utf8, s)| :: Encode(Utf8, s)[i] < 256
  {
    if |s| > 0 {
      EncodedBytes(s[1..]);
    }
  }

  lemma {:induction false} EncodeConcat(e: Encoding, a: string, b: string)
    ensures Encode(e, a + b) == Encode(e, a) + Encode(e, b)
  {
    if |a| == 0 {
      assert a + b == b;
    } else {
      EncodeConcat(e, a[1..], b);
      assert (a + b)[0] == a[0] && (a + b)[1..] == a[1..] + b;
      ConcatAssociative(Units(e, a[0]), Encode(e, a[1..]), Encode(e, b));
    }
  }

  lemma ConcatAssociative(x: seq<nat>, y: seq<nat>, z: seq<nat>)
    ensures x + y + z == x + (y + z)
  {
  }

  // Every character takes at least one unit.
  lemma {:induction false} EncodeLengthens(e: Encoding, s: string)
    ensures |Encode(e, s)| >= |s|
  {
    if |s| > 0 {
      EncodeLengthens(e, s[1..]);
    }
  }

  lemma {:induction false} AsciiLength(s: string)
    requires forall i | 0 <= i < |s| :: s[i] as int < 128
    ensures |Encode(Utf8, s)| == |s|
  {
    if |s| > 0 {
      AsciiLength(s[1..]);
    }
  }

  // An e with acute, the euro sign and a Gothic letter.
  lemma Examples()
    ensures Encode(Utf8, ['\U{E9}']) == [0xC3, 0xA9] && Encode(Utf16, ['\U{E9}']) == [0xE9]
    ensures Encode(Utf8, ['\U{20AC}']) == [0xE2, 0x82, 0xAC] && Encode(Utf16, ['\U{20AC}']) == [0x20AC]
    ensures Encode(Utf8, ['\U{10348}']) == [0xF0, 0x90, 0x8D, 0x88]
    ensures Encode(Utf16, ['\U{10348}']) == [0xD800, 0xDF48]
  {
    assert forall c: char :: [c][1..] == [];
  }
}
