// The signed presentation a holder sends: written by the toolkit as base64 of
// a JSON object, read by the gateway into a struct.
module Presentations {
  import opened Wrappers
  import opened Base64
  import Utf
  import Decimal
  import opened JsonText

  datatype Presentation = Presentation(did: string, challengeId: string, signature: string, timestamp: int)

  const ZERO := Presentation("", "", "", 0)

  predicate IsInt64(x: int) {
    -0x8000_0000_0000_0000 <= x < 0x8000_0000_0000_0000
  }

  // ---- Reading (decodeAuthPresentation) ----

  // encoding/json matches field names without regard to case.
  function Fold(c: char): char {
    if 'A' <= c <= 'Z' then (c as int + 32) as char
    else if c as int == 0x17F then 's'
    else if c as int == 0x212A then 'k'
    else c
  }

  predicate Names(key: string, field: string) {
    |key| == |field| && forall i | 0 <= i < |key| :: Fold(key[i]) == Fold(field[i])
  }

  function ReadText(old_: string, value: Doc): Option<string> {
    match value
    case Text(s) => Some(s)
    case Null => Some(old_)
    case _ => None
  }

  function ReadInt64(old_: int, value: Doc): Option<int> {
    match value
    case Number(lit) =>
      var n := Decimal.ReadInt(lit);
      if n.Some? && IsInt64(n.value) then n else None
    case Null => Some(old_)
    case _ => None
  }

  // Unknown members are ignored; a repeated one overwrites.
  function SetField(p: Presentation, m: Member): Option<Presentation> {
    if Names(m.key, "did") then
      var s :- ReadText(p.did, m.value);
      Some(p.(did := s))
    else if Names(m.key, "challengeId") then
      var s :- ReadText(p.challengeId, m.value);
      Some(p.(challengeId := s))
    else if Names(m.key, "signature") then
      var s :- ReadText(p.signature, m.value);
      Some(p.(signature := s))
    else if Names(m.key, "timestamp") then
      var n :- ReadInt64(p.timestamp, m.value);
      Some(p.(timestamp := n))
    else
      Some(p)
  }

  function SetFields(p: Presentation, members: seq<Member>): Option<Presentation>
    decreases |members|
  {
    if |members| == 0 then
      Some(p)
    else
      var q :- SetField(p, members[0]);
      SetFields(q, members[1..])
  }

  function Decode(presentationBase64: string): Option<Presentation> {
    var payload :- DecodeStd(presentationBase64);
    var doc :- ReadAll(Utf.DecodeText(payload));
    FromDocument(doc)
  }

  function FromDocument(doc: Doc): Option<Presentation> {
    match doc
    case Null => Some(ZERO)
    case Object(members) => SetFields(ZERO, members)
    case _ => None
  }

  // ---- Writing (createAuthPresentation) ----

  function Utf8Bytes(s: string): Bytes {
    Utf.EncodedBytes(s);
    Utf.Encode(Utf.Utf8, s)
  }

  function ToDocument(p: Presentation): Doc {
    Object([Member("did", Text(p.did)), Member("challengeId", Text(p.challengeId)),
            Member("signature", Text(p.signature)), Member("timestamp", Number(Decimal.OfInt(p.timestamp)))])
  }

  function Encode(p: Presentation): string {
    EncodeBody(Write(JS, ToDocument(p)))
  }

  function EncodeBody(text: string): string {
    EncodeStd(Utf8Bytes(text))
  }

  // ---- Round trip ----

  lemma {:induction false} SkipAllDigits(s: string)
    requires forall i | 0 <= i < |s| :: Decimal.IsDigit(s[i])
    ensures SkipDigits(s) == ""
  {
    if |s| > 0 {
      SkipAllDigits(s[1..]);
    }
  }

  lemma IntegerIsNumber(x: int)
    ensures IsNumberLiteral(Decimal.OfInt(x))
  {
    var digits := Decimal.OfNat(if x < 0 then -x else x);
    var s := Decimal.OfInt(x);
    assert digits == if x < 0 then s[1..] else s;
    SkipAllDigits(digits);
    assert s[0] == '-' <==> x < 0 by { assert Decimal.IsDigit(digits[0]); }
    assert SkipInt(digits) == Some("");
  }

  lemma FieldNames()
    ensures Names("did", "did") && Names("challengeId", "challengeId")
    ensures Names("signature", "signature") && Names("timestamp", "timestamp")
    ensures !Names("challengeId", "did") && !Names("signature", "did") && !Names("timestamp", "did")
    ensures !Names("signature", "challengeId") && !Names("timestamp", "challengeId") && !Names("timestamp", "signature")
  {
    assert Fold("timestamp"[0]) != Fold("signature"[0]);
  }

  lemma DocumentWellFormed(p: Presentation)
    ensures WellFormed(ToDocument(p))
  {
    IntegerIsNumber(p.timestamp);
    var ms := ToDocument(p).members;
    assert MembersWellFormed(ms[1..][1..][1..][1..]);
    assert MembersWellFormed(ms[1..][1..][1..]);
    assert MembersWellFormed(ms[1..][1..]);
    assert MembersWellFormed(ms[1..]);
  }

  lemma DecodeBody(text: string, doc: Doc)
    requires ReadAll(text) == Some(doc)
    ensures Decode(EncodeBody(text)) == FromDocument(doc)
  {
    Base64.DecodeEncode(Utf8Bytes(text));
    Utf.DecodeEncode(text);
  }

  // The gateway reads back exactly what the holder wrote.
  lemma DecodeEncode(p: Presentation)
    requires IsInt64(p.timestamp)
    ensures Decode(Encode(p)) == Some(p)
  {
    DocumentWellFormed(p);
    ReadAllWrite(JS, ToDocument(p));
    DecodeBody(Write(JS, ToDocument(p)), ToDocument(p));
    Decimal.ReadIntOfInt(p.timestamp);
    SetAllFields(p);
  }

  lemma SetAllFields(p: Presentation)
    requires IsInt64(p.timestamp) && Decimal.ReadInt(Decimal.OfInt(p.timestamp)) == Some(p.timestamp)
    ensures SetFields(ZERO, ToDocument(p).members) == Some(p)
  {
    FieldNames();
    var ms := ToDocument(p).members;
    var p1 := ZERO.(did := p.did);
    var p2 := p1.(challengeId := p.challengeId);
    var p3 := p2.(signature := p.signature);
    assert SetField(ZERO, ms[0]) == Some(p1);
    assert SetField(p1, ms[1]) == Some(p2);
    assert SetField(p2, ms[2]) == Some(p3);
    assert SetField(p3, ms[3]) == Some(p);
    assert SetFields(p, ms[1..][1..][1..][1..]) == Some(p);
    assert SetFields(p3, ms[1..][1..][1..]) == Some(p);
    assert SetFields(p2, ms[1..][1..]) == Some(p);
    assert SetFields(p1, ms[1..]) == Some(p);
  }

  // The members a holder sends, and what the gateway makes of some others.
  lemma Layout(p: Presentation)
    ensures ToDocument(p).Object? && |ToDocument(p).members| == 4
    ensures ToDocument(p).members[0] == Member("did", Text(p.did))
    ensures ToDocument(p).members[1] == Member("challengeId", Text(p.challengeId))
    ensures ToDocument(p).members[2] == Member("signature", Text(p.signature))
    ensures ToDocument(p).members[3] == Member("timestamp", Number(Decimal.OfInt(p.timestamp)))
    ensures SetField(p, Member("DID", Text("d"))) == Some(p.(did := "d"))
    ensures SetField(p, Member("challengeid", Text("c"))) == Some(p.(challengeId := "c"))
    ensures SetField(p, Member("signature", Null)) == Some(p) && SetField(p, Member("x", Number("1"))) == Some(p)
    ensures SetField(p, Member("did", Number("1"))) == None && FromDocument(Text("d")) == None
  {
    assert |"DID"| == |"did"| && |"challengeid"| == |"challengeId"|;
  }

  // Two letters outside ASCII fold to ASCII ones, and no others do.
  lemma FoldsTo(c: char)
    ensures Fold(c) == 's' <==> c == 's' || c == 'S' || c == '\U{17F}'
    ensures Fold(c) == 'k' <==> c == 'k' || c == 'K' || c == '\U{212A}'
    ensures 'a' <= Fold(c) <= 'z' && c as int >= 128 ==> c == '\U{17F}' || c == '\U{212A}'
  {
  }

  // A timestamp is an integer of 64 bits, or the presentation is refused.
  lemma TimestampIs(p: Presentation, x: int)
    ensures SetField(p, Member("timestamp", Number(Decimal.OfInt(x))))
         == if -0x8000_0000_0000_0000 <= x <= 0x7FFF_FFFF_FFFF_FFFF then Some(p.(timestamp := x)) else None
    ensures SetField(p, Member("timestamp", Text(Decimal.OfInt(x)))) == None
  {
    Decimal.ReadIntOfInt(x);
    assert "timestamp"[0] == 't' && "signature"[0] == 's';
    assert !Names("timestamp", "signature") && Names("timestamp", "timestamp");
  }
}
