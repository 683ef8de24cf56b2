// The two base64 forms the gateway uses (section 4 and section 5 of RFC 4648):
// padded standard text for keys, signatures and presentations, unpadded
// URL-safe text for challenge identifiers and nonces.
module Base64 {
  import opened Wrappers

  type Byte = b: int | 0 <= b < 256
  type Bytes = seq<Byte>
  type Digit = d: nat | d < 64

  // ---- Alphabets ----

  datatype Alphabet = Alphabet(charOf: Digit -> char, digitOf: char -> Option<Digit>) {
    // Each digit has one character, and no other text character of interest is one.
    ghost predicate Lawful() {
      (forall d: Digit :: digitOf(charOf(d)) == Some(d))
      && (forall c: char | digitOf(c).Some? :: charOf(digitOf(c).value) == c)
      && digitOf('=').None? && digitOf(':').None? && digitOf('\r').None? && digitOf('\n').None?
    }
  }

  // `url` selects the URL-safe alphabet.
  function DigitChar(url: bool, d: Digit): char {
    if d < 26 then ('A' as int + d) as char
    else if d < 52 then ('a' as int + (d - 26)) as char
    else if d < 62 then ('0' as int + (d - 52)) as char
    else if d == 62 then (if url then '-' else '+')
    else (if url then '_' else '/')
  }

  function DigitValue(url: bool, c: char): Option<Digit> {
    if 'A' <= c <= 'Z' then Some(c as int - 'A' as int)
    else if 'a' <= c <= 'z' then Some(c as int - 'a' as int + 26)
    else if '0' <= c <= '9' then Some(c as int - '0' as int + 52)
    else if c == (if url then '-' else '+') then Some(62)
    else if c == (if url then '_' else '/') then Some(63)
    else None
  }

  function AlphabetOf(url: bool): Alphabet {
    Alphabet((d: Digit) => DigitChar(url, d), c => DigitValue(url, c))
  }

  lemma ValueOfChar(url: bool, d: Digit)
    ensures DigitValue(url, DigitChar(url, d)) == Some(d)
  {
  }

  lemma CharOfValue(url: bool, c: char)
    requires DigitValue(url, c).Some?
    ensures DigitChar(url, DigitValue(url, c).value) == c
  {
  }

  lemma AlphabetsAreLawful(url: bool)
    ensures AlphabetOf(url).Lawful()
  {
    var al := AlphabetOf(url);
    forall d: Digit ensures al.digitOf(al.charOf(d)) == Some(d) {
      ValueOfChar(url, d);
    }
    forall c: char | al.digitOf(c).Some? ensures al.charOf(al.digitOf(c).value) == c {
      CharOfValue(url, c);
    }
  }

  // ---- Groups: three bytes are four digits ----

  function OneByte(al: Alphabet, g: Bytes): (t: string)
    requires |g| == 1
    ensures |t| == 2
  {
    [al.charOf(g[0] / 4), al.charOf(g[0] % 4 * 16)]
  }

  function TwoBytes(al: Alphabet, g: Bytes): (t: string)
    requires |g| == 2
    ensures |t| == 3
  {
    [al.charOf(g[0] / 4), al.charOf(g[0] % 4 * 16 + g[1] / 16), al.charOf(g[1] % 16 * 4)]
  }

  function ThreeBytes(al: Alphabet, g: Bytes): (t: string)
    requires |g| == 3
    ensures |t| == 4
  {
    [al.charOf(g[0] / 4), al.charOf(g[0] % 4 * 16 + g[1] / 16),
     al.charOf(g[1] % 16 * 4 + g[2] / 64), al.charOf(g[2] % 64)]
  }

  // The bytes of two, three or four digits. Left-over low bits of a short
  // group are ignored, as the Go decoder does.
  function OfTwo(d0: Digit, d1: Digit): (g: Bytes)
    ensures |g| == 1
  {
    [d0 * 4 + d1 / 16]
  }

  function OfThree(d0: Digit, d1: Digit, d2: Digit): (g: Bytes)
    ensures |g| == 2
  {
    [d0 * 4 + d1 / 16, d1 % 16 * 16 + d2 / 4]
  }

  function OfFour(d0: Digit, d1: Digit, d2: Digit, d3: Digit): (g: Bytes)
    ensures |g| == 3
  {
    [d0 * 4 + d1 / 16, d1 % 16 * 16 + d2 / 4, d2 % 4 * 64 + d3]
  }

  function DecodeOne(al: Alphabet, c0: char, c1: char): Option<Bytes> {
    var d0 :- al.digitOf(c0);
    var d1 :- al.digitOf(c1);
    Some(OfTwo(d0, d1))
  }

  function DecodeTwo(al: Alphabet, c0: char, c1: char, c2: char): Option<Bytes> {
    var d0 :- al.digitOf(c0);
    var d1 :- al.digitOf(c1);
    var d2 :- al.digitOf(c2);
    Some(OfThree(d0, d1, d2))
  }

  function DecodeThree(al: Alphabet, c0: char, c1: char, c2: char, c3: char): Option<Bytes> {
    var d0 :- al.digitOf(c0);
    var d1 :- al.digitOf(c1);
    var d2 :- al.digitOf(c2);
    var d3 :- al.digitOf(c3);
    Some(OfFour(d0, d1, d2, d3))
  }

  // ---- Texts ----

  // `padded` adds the '=' characters of the standard form.
  function Encode(al: Alphabet, padded: bool, bs: Bytes): string {
    if |bs| == 0 then ""
    else if |bs| == 1 then OneByte(al, bs) + (if padded then "==" else "")
    else if |bs| == 2 then TwoBytes(al, bs) + (if padded then "=" else "")
    else ThreeBytes(al, bs[..3]) + Encode(al, padded, bs[3..])
  }

  function DecodeGroups(al: Alphabet, s: string): Option<Bytes> {
    if |s| == 0 then
      Some([])
    else if |s| < 4 then
      None
    else if |s| == 4 && s[2] == '=' && s[3] == '=' then
      DecodeOne(al, s[0], s[1])
    else if |s| == 4 && s[3] == '=' then
      DecodeTwo(al, s[0], s[1], s[2])
    else
      var group :- DecodeThree(al, s[0], s[1], s[2], s[3]);
      var rest :- DecodeGroups(al, s[4..]);
      Some(group + rest)
  }

  // The Go decoder skips line breaks anywhere in the text.
  function DropLineBreaks(s: string): string {
    if |s| == 0 then ""
    else (if s[0] == '\r' || s[0] == '\n' then "" else [s[0]]) + DropLineBreaks(s[1..])
  }

  // base64.StdEncoding.EncodeToString, Buffer.toString('base64')
  function EncodeStd(bs: Bytes): string {
    Encode(AlphabetOf(false), true, bs)
  }

  // base64.RawURLEncoding.EncodeToString
  function EncodeRawUrl(bs: Bytes): string {
    Encode(AlphabetOf(true), false, bs)
  }

  // base64.StdEncoding.DecodeString
  function DecodeStd(s: string): Option<Bytes> {
    DecodeGroups(AlphabetOf(false), DropLineBreaks(s))
  }

  predicate HasNoLineBreak(s: string) {
    forall i | 0 <= i < |s| :: s[i] != '\r' && s[i] != '\n'
  }

  lemma {:induction false} NoColonNoLineBreak(al: Alphabet, padded: bool, bs: Bytes)
    requires al.Lawful()
    ensures ':' !in Encode(al, padded, bs) && HasNoLineBreak(Encode(al, padded, bs))
  {
    if |bs| >= 3 {
      NoColonNoLineBreak(al, padded, bs[3..]);
    }
  }

  lemma {:induction false} DropNothing(s: string)
    requires HasNoLineBreak(s)
    ensures DropLineBreaks(s) == s
  {
    if |s| > 0 {
      DropNothing(s[1..]);
    }
  }

  // ---- One group, both ways ----

  // Three bytes cut into four digits and joined again.
  lemma BytesBack(a: Byte, b: Byte, c: Byte, spare: nat)
    requires spare < 4
    ensures a / 4 * 4 + (a % 4 * 16 + b / 16) / 16 == a && a / 4 * 4 + a % 4 * 16 / 16 == a
    ensures (a % 4 * 16 + b / 16) % 16 * 16 + (b % 16 * 4 + c / 64) / 4 == b
    ensures (a % 4 * 16 + b / 16) % 16 * 16 + (b % 16 * 4 + spare) / 4 == b
    ensures (b % 16 * 4 + c / 64) % 4 * 64 + c % 64 == c
  {
  }

  // Four digits joined into three bytes and cut again.
  lemma DigitsBack(d0: Digit, d1: Digit, d2: Digit, d3: Digit)
    ensures var a, b, c := d0 * 4 + d1 / 16, d1 % 16 * 16 + d2 / 4, d2 % 4 * 64 + d3;
            && a / 4 == d0 && a % 4 * 16 == d1 - d1 % 16
            && a % 4 * 16 + b / 16 == d1 && b % 16 * 4 == d2 - d2 % 4
            && b % 16 * 4 + c / 64 == d2 && c % 64 == d3
  {
  }

  lemma DecodeOneByte(al: Alphabet, g: Bytes)
    requires al.Lawful() && |g| == 1
    ensures var t := OneByte(al, g); DecodeOne(al, t[0], t[1]) == Some(g)
  {
    BytesBack(g[0], 0, 0, 0);
    assert OfTwo(g[0] / 4, g[0] % 4 * 16) == g;
  }

  lemma DecodeTwoBytes(al: Alphabet, g: Bytes, spare: nat)
    requires al.Lawful() && |g| == 2 && spare < 4
    ensures var t := TwoBytes(al, g);
            DecodeTwo(al, t[0], t[1], al.charOf(g[1] % 16 * 4 + spare)) == Some(g)
  {
    BytesBack(g[0], g[1], 0, spare);
    assert OfThree(g[0] / 4, g[0] % 4 * 16 + g[1] / 16, g[1] % 16 * 4 + spare) == g;
  }

  lemma DecodeThreeBytes(al: Alphabet, g: Bytes)
    requires al.Lawful() && |g| == 3
    ensures var t := ThreeBytes(al, g); DecodeThree(al, t[0], t[1], t[2], t[3]) == Some(g) && t[3] != '='
  {
    BytesBack(g[0], g[1], g[2], 0);
    assert OfFour(g[0] / 4, g[0] % 4 * 16 + g[1] / 16, g[1] % 16 * 4 + g[2] / 64, g[2] % 64) == g;
  }

  // The low bits of a digit, from the bit of weight n down, are zero.
  predicate HasZeroBits(al: Alphabet, c: char, n: nat)
    requires n > 0
  {
    al.digitOf(c).Some? && al.digitOf(c).value % n == 0
  }

  lemma OneByteBackIff(al: Alphabet, c0: char, c1: char)
    requires al.Lawful() && DecodeOne(al, c0, c1).Some?
    ensures OneByte(al, DecodeOne(al, c0, c1).value) == [c0, c1] <==> HasZeroBits(al, c1, 16)
  {
    var d0, d1 := al.digitOf(c0).value, al.digitOf(c1).value;
    DigitsBack(d0, d1, 0, 0);
    assert OneByte(al, OfTwo(d0, d1)) == [c0, al.charOf(d1 - d1 % 16)];
  }

  lemma TwoBytesBackIff(al: Alphabet, c0: char, c1: char, c2: char)
    requires al.Lawful() && DecodeTwo(al, c0, c1, c2).Some?
    ensures TwoBytes(al, DecodeTwo(al, c0, c1, c2).value) == [c0, c1, c2] <==> HasZeroBits(al, c2, 4)
  {
    var d0, d1, d2 := al.digitOf(c0).value, al.digitOf(c1).value, al.digitOf(c2).value;
    DigitsBack(d0, d1, d2, 0);
    assert TwoBytes(al, OfThree(d0, d1, d2)) == [c0, c1, al.charOf(d2 - d2 % 4)];
  }

  lemma CutFour(al: Alphabet, d0: Digit, d1: Digit, d2: Digit, d3: Digit)
    ensures ThreeBytes(al, OfFour(d0, d1, d2, d3)) == [al.charOf(d0), al.charOf(d1), al.charOf(d2), al.charOf(d3)]
  {
    DigitsBack(d0, d1, d2, d3);
    var g := OfFour(d0, d1, d2, d3);
    assert g[0] / 4 == d0 && g[0] % 4 * 16 + g[1] / 16 == d1;
    assert g[1] % 16 * 4 + g[2] / 64 == d2 && g[2] % 64 == d3;
  }

  lemma ThreeBytesBack(al: Alphabet, c0: char, c1: char, c2: char, c3: char)
    requires al.Lawful() && DecodeThree(al, c0, c1, c2, c3).Some?
    ensures ThreeBytes(al, DecodeThree(al, c0, c1, c2, c3).value) == [c0, c1, c2, c3]
  {
    var d0, d1, d2, d3 := al.digitOf(c0).value, al.digitOf(c1).value, al.digitOf(c2).value, al.digitOf(c3).value;
    CutFour(al, d0, d1, d2, d3);
  }

  // ---- Decoding inverts encoding ----

  lemma Regroup<T>(a: seq<T>, b: seq<T>, c: seq<T>)
    ensures a + b + c == a + (b + c)
  {
  }

  lemma EncodeGroupThenRest(al: Alphabet, group: Bytes, rest: Bytes)
    requires |group| == 3
    ensures Encode(al, true, group + rest) == ThreeBytes(al, group) + Encode(al, true, rest)
  {
    assert (group + rest)[..3] == group && (group + rest)[3..] == rest;
  }

  lemma DecodeGroupThenRest(al: Alphabet, g: string, t: string, group: Bytes, rest: Bytes)
    requires |g| == 4 && g[3] != '=' && DecodeThree(al, g[0], g[1], g[2], g[3]) == Some(group)
    requires DecodeGroups(al, t) == Some(rest)
    ensures DecodeGroups(al, g + t) == Some(group + rest)
  {
    assert (g + t)[4..] == t;
  }

  lemma {:induction false} EncodeConcat(al: Alphabet, a: Bytes, b: Bytes)
    requires |a| % 3 == 0
    ensures Encode(al, true, a + b) == Encode(al, true, a) + Encode(al, true, b)
  {
    if |a| == 0 {
      assert a + b == b;
    } else {
      EncodeConcat(al, a[3..], b);
      EncodeGroupThenRest(al, a[..3], a[3..] + b);
      EncodeGroupThenRest(al, a[..3], a[3..]);
      Regroup(a[..3], a[3..], b);
      Regroup(ThreeBytes(al, a[..3]), Encode(al, true, a[3..]), Encode(al, true, b));
      assert a == a[..3] + a[3..];
    }
  }

  lemma {:induction false} DecodeThenTail(al: Alphabet, bs: Bytes, tail: string, rest: Bytes)
    requires al.Lawful() && |bs| % 3 == 0 && DecodeGroups(al, tail) == Some(rest)
    ensures DecodeGroups(al, Encode(al, true, bs) + tail) == Some(bs + rest)
  {
    if |bs| == 0 {
      assert Encode(al, true, bs) + tail == tail && bs + rest == rest;
    } else {
      var g, e := ThreeBytes(al, bs[..3]), Encode(al, true, bs[3..]);
      DecodeThenTail(al, bs[3..], tail, rest);
      DecodeThreeBytes(al, bs[..3]);
      DecodeGroupThenRest(al, g, e + tail, bs[..3], bs[3..] + rest);
      Regroup(g, e, tail);
      Regroup(bs[..3], bs[3..], rest);
      assert bs == bs[..3] + bs[3..];
    }
  }

  lemma DecodeLast(al: Alphabet, last: Bytes)
    requires al.Lawful() && |last| < 3
    ensures DecodeGroups(al, Encode(al, true, last)) == Some(last)
  {
    if |last| == 1 {
      DecodeOneByte(al, last);
    } else if |last| == 2 {
      DecodeTwoBytes(al, last, 0);
    }
  }

  lemma DecodeGroupsEncode(al: Alphabet, bs: Bytes)
    requires al.Lawful()
    ensures DecodeGroups(al, Encode(al, true, bs)) == Some(bs)
  {
    var n := |bs| / 3 * 3;
    assert bs == bs[..n] + bs[n..];
    DecodeLast(al, bs[n..]);
    EncodeConcat(al, bs[..n], bs[n..]);
    DecodeThenTail(al, bs[..n], Encode(al, true, bs[n..]), bs[n..]);
  }

  // A key, signature or presentation survives being written as base64 and read back.
  lemma DecodeEncode(bs: Bytes)
    ensures DecodeStd(EncodeStd(bs)) == Some(bs)
  {
    AlphabetsAreLawful(false);
    NoColonNoLineBreak(AlphabetOf(false), true, bs);
    DropNothing(EncodeStd(bs));
    DecodeGroupsEncode(AlphabetOf(false), bs);
  }

  // ---- Which texts are the ones the encoder writes ----

  // A padded last group has bits to spare: four under "==", two under "=".
  predicate SpareBitsAreZero(al: Alphabet, s: string) {
    |s| >= 4 && s[|s| - 1] == '=' ==>
      if s[|s| - 2] == '=' then HasZeroBits(al, s[|s| - 3], 16) else HasZeroBits(al, s[|s| - 2], 4)
  }

  lemma LastByteBackIff(al: Alphabet, s: string)
    requires al.Lawful() && |s| == 4 && s[2] == '=' && s[3] == '=' && DecodeGroups(al, s).Some?
    ensures Encode(al, true, DecodeGroups(al, s).value) == s <==> HasZeroBits(al, s[1], 16)
  {
    OneByteBackIff(al, s[0], s[1]);
    var t := OneByte(al, DecodeOne(al, s[0], s[1]).value);
    assert s == [s[0], s[1]] + "==" && (t + "==")[..2] == t;
  }

  lemma LastTwoBackIff(al: Alphabet, s: string)
    requires al.Lawful() && |s| == 4 && s[2] != '=' && s[3] == '=' && DecodeGroups(al, s).Some?
    ensures Encode(al, true, DecodeGroups(al, s).value) == s <==> HasZeroBits(al, s[2], 4)
  {
    TwoBytesBackIff(al, s[0], s[1], s[2]);
    var t := TwoBytes(al, DecodeTwo(al, s[0], s[1], s[2]).value);
    assert s == [s[0], s[1], s[2]] + "=" && (t + "=")[..3] == t;
  }

  lemma SplitGroups(al: Alphabet, s: string)
    requires al.digitOf('=').None? && DecodeGroups(al, s).Some? && |s| >= 4 && !(|s| == 4 && s[3] == '=')
    ensures DecodeThree(al, s[0], s[1], s[2], s[3]).Some? && DecodeGroups(al, s[4..]).Some?
    ensures DecodeGroups(al, s).value
         == DecodeThree(al, s[0], s[1], s[2], s[3]).value + DecodeGroups(al, s[4..]).value
    ensures s[3] != '=' && (|s| == 4 || |s| >= 8)
    ensures |DecodeGroups(al, s).value| == 3 + |DecodeGroups(al, s[4..]).value|
  {
  }

  lemma FirstGroupBack(al: Alphabet, s: string)
    requires al.Lawful() && DecodeGroups(al, s).Some? && |s| >= 4 && !(|s| == 4 && s[3] == '=')
    ensures DecodeGroups(al, s[4..]).Some?
    ensures Encode(al, true, DecodeGroups(al, s).value) == s[..4] + Encode(al, true, DecodeGroups(al, s[4..]).value)
  {
    SplitGroups(al, s);
    ThreeBytesBack(al, s[0], s[1], s[2], s[3]);
    EncodeGroupThenRest(al, DecodeThree(al, s[0], s[1], s[2], s[3]).value, DecodeGroups(al, s[4..]).value);
    assert s[..4] == [s[0], s[1], s[2], s[3]];
  }

  lemma SpareBitsOfRest(al: Alphabet, s: string)
    requires al.Lawful() && DecodeGroups(al, s).Some? && |s| >= 4 && !(|s| == 4 && s[3] == '=')
    ensures SpareBitsAreZero(al, s) <==> SpareBitsAreZero(al, s[4..])
  {
    SplitGroups(al, s);
  }

  lemma SameAfterPrefix(s: string, x: string, n: nat)
    requires n <= |s|
    ensures s[..n] + x == s <==> x == s[n..]
  {
    assert s == s[..n] + s[n..];
    assert (s[..n] + x)[n..] == x;
  }

  // Padding closes the last group, so all but the last come back as they were.
  lemma {:induction false} EncodeDecodeGroupsIff(al: Alphabet, s: string)
    requires al.Lawful() && DecodeGroups(al, s).Some?
    ensures Encode(al, true, DecodeGroups(al, s).value) == s <==> SpareBitsAreZero(al, s)
  {
    if |s| == 4 && s[3] == '=' {
      if s[2] == '=' {
        LastByteBackIff(al, s);
      } else {
        LastTwoBackIff(al, s);
      }
    } else if |s| > 0 {
      FirstGroupBack(al, s);
      SpareBitsOfRest(al, s);
      EncodeDecodeGroupsIff(al, s[4..]);
      SameAfterPrefix(s, Encode(al, true, DecodeGroups(al, s[4..]).value), 4);
    }
  }

  // What an encoder writes: no line break, and no bit set that decoding drops.
  predicate IsEncoderText(s: string) {
    HasNoLineBreak(s) && SpareBitsAreZero(AlphabetOf(false), s)
  }

  // Encoding gives a decodable text back exactly when an encoder could have written it.
  lemma EncodeDecodeIff(s: string)
    requires DecodeStd(s).Some?
    ensures EncodeStd(DecodeStd(s).value) == s <==> IsEncoderText(s)
  {
    AlphabetsAreLawful(false);
    NoColonNoLineBreak(AlphabetOf(false), true, DecodeStd(s).value);
    if HasNoLineBreak(s) {
      DropNothing(s);
      EncodeDecodeGroupsIff(AlphabetOf(false), s);
    }
  }

  // ---- The texts of one key ----

  // A 32-byte key ends in a group of two bytes, whose two spare bits `b` the decoder drops.
  function KeyText(al: Alphabet, key: Bytes, b: nat): string
    requires |key| == 32 && b < 4
  {
    Encode(al, true, key[..30]) + (TwoBytes(al, key[30..])[..2] + [al.charOf(key[31] % 16 * 4 + b)] + "=")
  }

  lemma KeySplits(al: Alphabet, key: Bytes)
    requires |key| == 32
    ensures Encode(al, true, key) == Encode(al, true, key[..30]) + (TwoBytes(al, key[30..]) + "=")
  {
    assert key == key[..30] + key[30..];
    EncodeConcat(al, key[..30], key[30..]);
  }

  lemma KeyTextDecodes(al: Alphabet, key: Bytes, b: nat)
    requires al.Lawful() && |key| == 32 && b < 4
    ensures DecodeGroups(al, KeyText(al, key, b)) == Some(key)
    ensures HasNoLineBreak(KeyText(al, key, b))
  {
    var tail := TwoBytes(al, key[30..])[..2] + [al.charOf(key[31] % 16 * 4 + b)] + "=";
    assert key == key[..30] + key[30..];
    NoColonNoLineBreak(al, true, key[..30]);
    DecodeTwoBytes(al, key[30..], b);
    DecodeThenTail(al, key[..30], tail, key[30..]);
  }

  lemma KeyTextsDiffer(al: Alphabet, key: Bytes, b: nat, c: nat)
    requires al.Lawful() && |key| == 32 && b < 4 && c < 4
    ensures KeyText(al, key, b) == KeyText(al, key, c) <==> b == c
  {
    var n, y := |Encode(al, true, key[..30])|, key[31] % 16 * 4;
    assert KeyText(al, key, b)[n + 2] == al.charOf(y + b);
    assert KeyText(al, key, c)[n + 2] == al.charOf(y + c);
    assert al.digitOf(al.charOf(y + b)) == Some(y + b) && al.digitOf(al.charOf(y + c)) == Some(y + c);
  }

  lemma FirstIsEncoded(al: Alphabet, key: Bytes)
    requires |key| == 32
    ensures KeyText(al, key, 0) == Encode(al, true, key)
  {
    KeySplits(al, key);
    assert TwoBytes(al, key[30..]) == TwoBytes(al, key[30..])[..2] + [al.charOf(key[31] % 16 * 4 + 0)];
  }

  // What a last group of two bytes can look like.
  lemma DigitsOfTwoBytes(al: Alphabet, c0: char, c1: char, c2: char) returns (b: nat)
    requires al.Lawful() && DecodeTwo(al, c0, c1, c2).Some?
    ensures var g := DecodeTwo(al, c0, c1, c2).value;
            b < 4 && [c0, c1, c2] == TwoBytes(al, g)[..2] + [al.charOf(g[1] % 16 * 4 + b)]
  {
    var d0, d1, d2 := al.digitOf(c0).value, al.digitOf(c1).value, al.digitOf(c2).value;
    b := d2 % 4;
    DigitsBack(d0, d1, d2, 0);
    var g := OfThree(d0, d1, d2);
    assert g[0] / 4 == d0 && g[0] % 4 * 16 + g[1] / 16 == d1 && g[1] % 16 * 4 + b == d2;
  }

  lemma ShortDecodes(al: Alphabet, s: string)
    requires 0 < |s| <= 4 && (|s| == 4 ==> s[3] == '=') && al.digitOf('=').None? && DecodeGroups(al, s).Some?
    ensures |s| == 4 && |DecodeGroups(al, s).value| <= 3
  {
  }

  // The text ends in a group of two bytes, and all before it is as the encoder writes it.
  predicate EndsInTwo(al: Alphabet, s: string, bs: Bytes) {
    && |s| >= 4 && |bs| >= 2 && s[|s| - 1] == '='
    && DecodeTwo(al, s[|s| - 4], s[|s| - 3], s[|s| - 2]) == Some(bs[|bs| - 2..])
    && s[..|s| - 4] == Encode(al, true, bs[..|bs| - 2])
  }

  lemma {:induction false} SplitLast(al: Alphabet, s: string, k: nat)
    requires al.Lawful() && DecodeGroups(al, s).Some? && |DecodeGroups(al, s).value| == 3 * k + 2
    ensures EndsInTwo(al, s, DecodeGroups(al, s).value)
  {
    if |s| > 4 || (|s| == 4 && s[3] != '=') {
      SplitGroups(al, s);
      SplitLast(al, s[4..], k - 1);
      SplitStep(al, s);
    } else {
      assert k == 0 by { ShortDecodes(al, s); }
      SplitOnly(al, s);
    }
  }

  lemma SplitOnly(al: Alphabet, s: string)
    requires al.Lawful() && |s| <= 4 && (|s| == 4 ==> s[3] == '=')
    requires DecodeGroups(al, s).Some? && |DecodeGroups(al, s).value| == 2
    ensures EndsInTwo(al, s, DecodeGroups(al, s).value)
  {
    if |s| == 4 && s[2] != '=' {
      LastTwoOnly(al, s, DecodeTwo(al, s[0], s[1], s[2]).value);
    }
  }

  lemma LastTwoOnly(al: Alphabet, s: string, bs: Bytes)
    requires |s| == 4 && s[3] == '=' && DecodeTwo(al, s[0], s[1], s[2]) == Some(bs) && |bs| == 2
    ensures EndsInTwo(al, s, bs)
  {
    assert bs[0..] == bs && bs[..0] == [] && s[..0] == "";
  }

  lemma SplitStep(al: Alphabet, s: string)
    requires al.Lawful() && DecodeGroups(al, s).Some? && |s| > 4 && DecodeGroups(al, s[4..]).Some?
    requires EndsInTwo(al, s[4..], DecodeGroups(al, s[4..]).value)
    ensures EndsInTwo(al, s, DecodeGroups(al, s).value)
  {
    var rest := DecodeGroups(al, s[4..]).value;
    SplitGroups(al, s);
    var group := DecodeThree(al, s[0], s[1], s[2], s[3]).value;
    ThreeBytesBack(al, s[0], s[1], s[2], s[3]);
    EncodeGroupThenRest(al, group, rest[..|rest| - 2]);
    OneGroupMore(s, group, rest);
  }

  lemma OneGroupMore(s: string, group: Bytes, rest: Bytes)
    requires |s| >= 8 && |rest| >= 2
    ensures (group + rest)[..|group + rest| - 2] == group + rest[..|rest| - 2]
    ensures (group + rest)[|group + rest| - 2..] == rest[|rest| - 2..]
    ensures s[..|s| - 4] == [s[0], s[1], s[2], s[3]] + s[4..][..|s| - 8]
  {
  }

  lemma KeyTextOf(al: Alphabet, key: Bytes, s: string) returns (b: nat)
    requires al.Lawful() && |key| == 32 && DecodeGroups(al, s) == Some(key)
    ensures b < 4 && s == KeyText(al, key, b)
  {
    SplitLast(al, s, 10);
    b := DigitsOfTwoBytes(al, s[|s| - 4], s[|s| - 3], s[|s| - 2]);
    FromLastGroup(al, key, key[30..], s, b);
  }

  lemma FromLastGroup(al: Alphabet, key: Bytes, g: Bytes, s: string, b: nat)
    requires |key| == 32 && g == key[30..] && b < 4 && EndsInTwo(al, s, key)
    requires [s[|s| - 4], s[|s| - 3], s[|s| - 2]] == TwoBytes(al, g)[..2] + [al.charOf(g[1] % 16 * 4 + b)]
    ensures s == KeyText(al, key, b)
  {
    var last := al.charOf(g[1] % 16 * 4 + b);
    assert g[1] == key[31];
    assert KeyText(al, key, b) == Encode(al, true, key[..30]) + (TwoBytes(al, g)[..2] + [last] + "=");
    Joined(s, KeyText(al, key, b), Encode(al, true, key[..30]), last, TwoBytes(al, g));
  }

  lemma Joined(s: string, t: string, head: string, last: char, group: string)
    requires |s| >= 4 && |group| == 3 && s[|s| - 1] == '=' && s[..|s| - 4] == head
    requires [s[|s| - 4], s[|s| - 3], s[|s| - 2]] == group[..2] + [last]
    requires t == head + (group[..2] + [last] + "=")
    ensures s == t
  {
    assert s == s[..|s| - 4] + ([s[|s| - 4], s[|s| - 3], s[|s| - 2]] + [s[|s| - 1]]);
  }

  // Every key has exactly four texts without line breaks, all different, and
  // the encoder writes only the first.
  lemma KeyHasFourTexts(key: Bytes, s: string)
    requires |key| == 32
    ensures HasNoLineBreak(s) && DecodeStd(s) == Some(key)
       <==> exists b: nat :: b < 4 && s == KeyText(AlphabetOf(false), key, b)
    ensures forall b: nat, c: nat | b < 4 && c < 4 ::
              KeyText(AlphabetOf(false), key, b) == KeyText(AlphabetOf(false), key, c) <==> b == c
    ensures KeyText(AlphabetOf(false), key, 0) == EncodeStd(key)
  {
    var al := AlphabetOf(false);
    AlphabetsAreLawful(false);
    forall b: nat, c: nat | b < 4 && c < 4 ensures KeyText(al, key, b) == KeyText(al, key, c) <==> b == c {
      KeyTextsDiffer(al, key, b, c);
    }
    FirstIsEncoded(al, key);
    forall b: nat | b < 4 ensures HasNoLineBreak(KeyText(al, key, b)) && DecodeStd(KeyText(al, key, b)) == Some(key) {
      KeyTextDecodes(al, key, b);
      DropNothing(KeyText(al, key, b));
    }
    if HasNoLineBreak(s) && DecodeStd(s) == Some(key) {
      DropNothing(s);
      var b := KeyTextOf(al, key, s);
      assert s == KeyText(AlphabetOf(false), key, b);
    }
  }

  // ---- Line breaks anywhere in a text make no difference ----

  lemma {:induction false} LineBreaksIgnored(a: string, c: char, b: string)
    requires c == '\r' || c == '\n'
    ensures DecodeStd(a + [c] + b) == DecodeStd(a + b)
  {
    DropsLineBreak(a, c, b);
  }

  lemma {:induction false} DropsLineBreak(a: string, c: char, b: string)
    requires c == '\r' || c == '\n'
    ensures DropLineBreaks(a + [c] + b) == DropLineBreaks(a + b)
  {
    if |a| == 0 {
      assert (a + [c] + b)[1..] == b && a + b == b;
    } else {
      DropsLineBreak(a[1..], c, b);
      assert (a + [c] + b)[1..] == a[1..] + [c] + b && (a + b)[1..] == a[1..] + b;
    }
  }

  // ---- Text a decoder accepts has no colon, so it cannot disturb a colon-separated message ----

  lemma {:induction false} DecodableHasNoColon(al: Alphabet, s: string)
    requires al.Lawful() && DecodeGroups(al, s).Some?
    ensures ':' !in s
  {
    if |s| > 4 {
      DecodableHasNoColon(al, s[4..]);
      assert s == s[..4] + s[4..];
    }
  }

  lemma {:induction false} DropKeepsColon(s: string)
    requires ':' in s
    ensures ':' in DropLineBreaks(s)
  {
    if s[0] != ':' {
      assert s == [s[0]] + s[1..];
      DropKeepsColon(s[1..]);
    }
  }

  lemma DecodeStdHasNoColon(s: string)
    requires DecodeStd(s).Some?
    ensures ':' !in s
  {
    if ':' in s {
      AlphabetsAreLawful(false);
      DropKeepsColon(s);
      DecodableHasNoColon(AlphabetOf(false), DropLineBreaks(s));
    }
  }

  // ---- Lengths ----

  // n bytes take at least n characters, and 16 bytes take exactly 22.
  lemma {:induction false} EncodedLength(al: Alphabet, bs: Bytes)
    ensures |Encode(al, false, bs)| == (|bs| * 4 + 2) / 3
  {
    if |bs| >= 3 {
      EncodedLength(al, bs[3..]);
    }
  }

  // A decodable text is n groups of four characters, for at most three bytes each.
  lemma {:induction false} DecodedLength(al: Alphabet, s: string) returns (n: nat)
    requires al.Lawful() && DecodeGroups(al, s).Some?
    ensures |s| == 4 * n && |DecodeGroups(al, s).value| <= 3 * n
  {
    if |s| > 4 || (|s| == 4 && s[3] != '=') {
      SplitGroups(al, s);
      n := DecodedLength(al, s[4..]);
      n := n + 1;
    } else if |s| > 0 {
      ShortDecodes(al, s);
      n := 1;
    } else {
      n := 0;
    }
  }

  lemma {:induction false} DropShortens(s: string)
    ensures |DropLineBreaks(s)| <= |s|
  {
    if |s| > 0 {
      DropShortens(s[1..]);
    }
  }

  lemma GroupsNeeded(v: nat, n: nat)
    requires v <= 3 * n
    ensures (v + 2) / 3 * 4 <= 4 * n
  {
  }

  lemma DecodedIsShorter(s: string)
    requires DecodeStd(s).Some?
    ensures |s| >= (|DecodeStd(s).value| + 2) / 3 * 4
  {
    AlphabetsAreLawful(false);
    var n := DecodedLength(AlphabetOf(false), DropLineBreaks(s));
    DropShortens(s);
    GroupsNeeded(|DecodeStd(s).value|, n);
  }

  // ---- The alphabets and test vectors of RFC 4648 (tables 1 and 2, section 10) ----

  // Three runs of consecutive characters, then the two that differ.
  lemma AlphabetRuns(url: bool, d: Digit)
    ensures DigitChar(url, 0) == 'A' && DigitChar(url, 25) == 'Z' && DigitChar(url, 26) == 'a'
    ensures DigitChar(url, 51) == 'z' && DigitChar(url, 52) == '0' && DigitChar(url, 61) == '9'
    ensures d < 61 && d != 25 && d != 51 ==> DigitChar(url, d + 1) as int == DigitChar(url, d) as int + 1
    ensures DigitChar(false, 62) == '+' && DigitChar(false, 63) == '/'
    ensures DigitChar(true, 62) == '-' && DigitChar(true, 63) == '_'
  {
  }

  // "f", "fo" and "foo"
  lemma TestVectors()
    ensures EncodeStd([102]) == "Zg==" && EncodeStd([102, 111]) == "Zm8=" && EncodeStd([102, 111, 111]) == "Zm9v"
    ensures EncodeRawUrl([102]) == "Zg" && EncodeRawUrl([102, 111]) == "Zm8"
  {
    assert [102, 111, 111][..3] == [102, 111, 111] && [102, 111, 111][3..] == [];
  }
}
