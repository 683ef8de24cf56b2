// The messages that are signed, and what each signature can be mistaken for.
module SignedTexts {
  import opened Base64
  import opened Decimal
  import opened Utf
  import opened JsonText
  import opened JsonValue
  import opened Canonical
  import opened World

  const DID_PREFIX := "did:uddi:z"

  function RegisterText(did: string, timestamp: string): string {
    "register:" + did + ":" + timestamp
  }

  function RevokeText(did: string, timestamp: string): string {
    "revoke:" + did + ":" + timestamp
  }

  function UpdateText(did: string, publicKeyBase64: string, timestamp: string): string {
    "update:" + did + ":" + publicKeyBase64 + ":" + timestamp
  }

  function AuthText(challengeId: string, nonce: string, did: string, timestamp: int): string {
    challengeId + ":" + nonce + ":" + did + ":" + OfInt(timestamp)
  }

  // randomID: at least sixteen bytes (the fallback text of the clock is longer), base64url.
  predicate IsRandomId(s: string) {
    ':' !in s && |s| >= 22
  }

  function RandomId(bytes: Bytes): string {
    EncodeRawUrl(bytes)
  }

  lemma RandomIdHasShape(bytes: Bytes)
    requires |bytes| >= 16
    ensures IsRandomId(RandomId(bytes))
    ensures |bytes| == 16 ==> |RandomId(bytes)| == 22
  {
    AlphabetsAreLawful(true);
    NoColonNoLineBreak(AlphabetOf(true), false, bytes);
    EncodedLength(AlphabetOf(true), bytes);
  }

  // The gateway's DID check. It counts bytes, and it does not look at the characters.
  predicate IsValidDidGo(did: string) {
    StartsWith(did, DID_PREFIX) && 40 <= SuffixBytes(did) <= 100
  }

  function SuffixBytes(did: string): nat
    requires StartsWith(did, DID_PREFIX)
  {
    |Utf.Encode(Utf8, did[|DID_PREFIX|..])|
  }

  predicate IsBase58(c: char) {
    '1' <= c <= '9' || ('A' <= c <= 'Z' && c != 'I' && c != 'O') || ('a' <= c <= 'z' && c != 'l')
  }

  // The toolkit's DID check.
  predicate IsValidDidTs(did: string) {
    StartsWith(did, DID_PREFIX) && |did| >= |DID_PREFIX| + 40
    && forall i | |DID_PREFIX| <= i < |did| :: IsBase58(did[i])
  }

  // ---- Splitting at a colon ----

  lemma FirstColon(a: string, x: string, b: string, y: string)
    requires ':' !in a && ':' !in b
    requires a + ":" + x == b + ":" + y
    ensures a == b && x == y
  {
    var s := a + ":" + x;
    assert s[|a|] == ':' && s[|b|] == ':';
    assert |a| == |b|;
    assert s[..|a|] == a && s[..|b|] == b;
    assert s[|a| + 1..] == x && s[|b| + 1..] == y;
  }

  lemma LastColon(x: string, a: string, y: string, b: string)
    requires ':' !in a && ':' !in b
    requires x + ":" + a == y + ":" + b
    ensures a == b && x == y
  {
    var s := x + ":" + a;
    assert s[|x|] == ':' && s[|y|] == ':';
    assert |x| == |y|;
    assert s[..|x|] == x && s[..|y|] == y;
    assert s[|x| + 1..] == a && s[|y| + 1..] == b;
  }

  // ---- Authentication ----

  // Identifiers and nonces hold no colon, decimal digits hold none, so the DID
  // in the middle may hold any number of them.
  lemma AuthTextInjective(id: string, nonce: string, did: string, t: int,
                          id': string, nonce': string, did': string, t': int)
    requires IsRandomId(id) && IsRandomId(id') && IsRandomId(nonce) && IsRandomId(nonce')
    ensures AuthText(id, nonce, did, t) == AuthText(id', nonce', did', t')
       <==> id == id' && nonce == nonce' && did == did' && t == t'
  {
    if AuthText(id, nonce, did, t) == AuthText(id', nonce', did', t') {
      LastColon(id + ":" + nonce + ":" + did, OfInt(t), id' + ":" + nonce' + ":" + did', OfInt(t'));
      OfIntInjective(t, t');
      assert id + ":" + nonce + ":" + did == id + ":" + (nonce + ":" + did);
      assert id' + ":" + nonce' + ":" + did' == id' + ":" + (nonce' + ":" + did');
      FirstColon(id, nonce + ":" + did, id', nonce' + ":" + did');
      FirstColon(nonce, did, nonce', did');
    }
  }

  // ---- The five kinds of text never meet ----

  lemma AuthStart(id: string, nonce: string, did: string, t: int)
    requires IsRandomId(id)
    ensures var s := AuthText(id, nonce, did, t);
            |s| > 22 && (forall i | 0 <= i < 22 :: s[i] != ':') && s[0] == id[0]
  {
    var s := AuthText(id, nonce, did, t);
    assert forall i | 0 <= i < |id| :: s[i] == id[i];
  }

  lemma RegistryTextsDisjoint(
    did: string, ts: string, did': string, ts': string, did'': string, key: string, ts'': string)
    ensures RegisterText(did, ts) != RevokeText(did', ts')
    ensures RegisterText(did, ts) != UpdateText(did'', key, ts'')
    ensures RevokeText(did', ts') != UpdateText(did'', key, ts'')
  {
    assert RegisterText(did, ts)[2] == 'g';
    assert RevokeText(did', ts')[2] == 'v';
    assert UpdateText(did'', key, ts'')[0] == 'u';
  }

  lemma AuthDisjoint(id: string, nonce: string, did: string, t: int, did': string, key: string, ts: string)
    requires IsRandomId(id)
    ensures AuthText(id, nonce, did, t) != RegisterText(did', ts)
    ensures AuthText(id, nonce, did, t) != RevokeText(did', ts)
    ensures AuthText(id, nonce, did, t) != UpdateText(did', key, ts)
  {
    AuthStart(id, nonce, did, t);
    assert RegisterText(did', ts)[8] == ':';
    assert RevokeText(did', ts)[6] == ':';
    assert UpdateText(did', key, ts)[6] == ':';
  }

  // No signature over one kind of message is a signature over another kind.
  lemma SignedTextsDisjoint(nums: Numbers, c: map<string, Json>, bytes: Bytes, nonce: string, did: string, t: int,
                            regDid: string, regTs: string, revDid: string, revTs: string,
                            updDid: string, updKey: string, updTs: string)
    requires |bytes| >= 16
    ensures var cred, auth := GoText(nums, JObject(c)), AuthText(RandomId(bytes), nonce, did, t);
            var reg, rev := RegisterText(regDid, regTs), RevokeText(revDid, revTs);
            var upd := UpdateText(updDid, updKey, updTs);
            && cred != auth && cred != reg && cred != rev && cred != upd
            && auth != reg && auth != rev && auth != upd
            && reg != rev && reg != upd && rev != upd
  {
    RandomIdHasShape(bytes);
    AuthStart(RandomId(bytes), nonce, did, t);
    assert GoText(nums, JObject(c))[0] == '{';
    assert RandomId(bytes)[0] == Base64.DigitChar(true, bytes[0] / 4);
    assert RegisterText(regDid, regTs)[0] == 'r';
    assert RevokeText(revDid, revTs)[0] == 'r';
    assert UpdateText(updDid, updKey, updTs)[0] == 'u';
    AuthDisjoint(RandomId(bytes), nonce, did, t, regDid, updKey, regTs);
    AuthDisjoint(RandomId(bytes), nonce, did, t, revDid, updKey, revTs);
    AuthDisjoint(RandomId(bytes), nonce, did, t, updDid, updKey, updTs);
    RegistryTextsDisjoint(regDid, regTs, revDid, revTs, updDid, updKey, updTs);
  }

  // ---- Registry texts ----

  lemma TsDidShape(did: string)
    requires IsValidDidTs(did)
    ensures did == "did:" + ("uddi:" + did[9..]) && ':' !in did[9..]
  {
    assert did[..10] == DID_PREFIX;
    assert did == did[..9] + did[9..];
    assert did[..9] == DID_PREFIX[..9] == "did:" + "uddi:";
    forall i | 9 <= i < |did| ensures did[i] != ':' {
      if i == 9 { assert did[9] == DID_PREFIX[9]; }
    }
  }

  // A DID the toolkit accepts ends where the next colon stands.
  lemma DidThenColon(did: string, x: string, did': string, y: string)
    requires IsValidDidTs(did) && IsValidDidTs(did')
    requires did + ":" + x == did' + ":" + y
    ensures did == did' && x == y
  {
    TsDidShape(did);
    TsDidShape(did');
    var s := did + ":" + x;
    assert s[9..] == did[9..] + ":" + x;
    assert s[9..] == did'[9..] + ":" + y;
    FirstColon(did[9..], x, did'[9..], y);
  }

  // On DIDs the toolkit accepts, each registry text names its parts.
  lemma RegistryTextsInjective(did: string, ts: string, did': string, ts': string)
    requires IsValidDidTs(did) && IsValidDidTs(did')
    ensures RegisterText(did, ts) == RegisterText(did', ts') <==> did == did' && ts == ts'
    ensures RevokeText(did, ts) == RevokeText(did', ts') <==> did == did' && ts == ts'
  {
    if RegisterText(did, ts) == RegisterText(did', ts') {
      assert RegisterText(did, ts)[9..] == did + ":" + ts;
      assert RegisterText(did', ts')[9..] == did' + ":" + ts';
      DidThenColon(did, ts, did', ts');
    }
    if RevokeText(did, ts) == RevokeText(did', ts') {
      assert RevokeText(did, ts)[7..] == did + ":" + ts;
      assert RevokeText(did', ts')[7..] == did' + ":" + ts';
      DidThenColon(did, ts, did', ts');
    }
  }

  lemma UpdateTextTail(did: string, key: string, ts: string)
    ensures UpdateText(did, key, ts) == "update:" + (did + ":" + (key + ":" + ts))
    ensures UpdateText(did, key, ts)[7..] == did + ":" + (key + ":" + ts)
  {
    assert "update:" + did + ":" + key + ":" + ts == "update:" + did + ":" + (key + ":" + ts);
  }

  lemma UpdateTextInjective(did: string, key: string, ts: string, did': string, key': string, ts': string)
    requires IsValidDidTs(did) && IsValidDidTs(did')
    requires DecodeStd(key).Some? && DecodeStd(key').Some?
    ensures UpdateText(did, key, ts) == UpdateText(did', key', ts') <==> did == did' && key == key' && ts == ts'
  {
    if UpdateText(did, key, ts) == UpdateText(did', key', ts') {
      UpdateTextTail(did, key, ts);
      UpdateTextTail(did', key', ts');
      DidThenColon(did, key + ":" + ts, did', key' + ":" + ts');
      DecodeStdHasNoColon(key);
      DecodeStdHasNoColon(key');
      FirstColon(key, ts, key', ts');
    }
  }

  // ---- What the gateway's looser check lets coincide ----

  // The gateway accepts DIDs with colons in them, and there one signature can
  // fit several requests. Two texts joined at a colon, split at two places.
  lemma JoinedAlikeIff(a: string, x: string, b: string, y: string)
    requires |a| < |b|
    ensures a + ":" + x == b + ":" + y <==> StartsWith(b, a + ":") && x == b[|a| + 1..] + ":" + y
  {
    var s, t := a + ":" + x, b + ":" + y;
    if s == t {
      assert s[..|a| + 1] == a + ":" && t[..|a| + 1] == b[..|a| + 1];
      assert s[|a| + 1..] == x && t[|a| + 1..] == b[|a| + 1..] + ":" + y;
    }
    if StartsWith(b, a + ":") {
      assert b == a + ":" + b[|a| + 1..];
      assert t == a + ":" + (b[|a| + 1..] + ":" + y);
    }
  }

  // One DID is the other followed by a colon and the start of the other's timestamp.
  predicate Overlaps(did: string, ts: string, did': string, ts': string) {
    StartsWith(did', did + ":") && ts == did'[|did| + 1..] + ":" + ts'
  }

  lemma SameLengthNeverOverlaps(did: string, x: string, did': string, y: string)
    requires did != did' && |did| == |did'|
    ensures did + ":" + x != did' + ":" + y
  {
    assert (did + ":" + x)[..|did|] == did && (did' + ":" + y)[..|did|] == did';
  }

  lemma JoinedOverlapsIff(did: string, ts: string, did': string, ts': string)
    requires did != did'
    ensures did + ":" + ts == did' + ":" + ts' <==> Overlaps(did, ts, did', ts') || Overlaps(did', ts', did, ts)
  {
    if |did| < |did'| {
      JoinedAlikeIff(did, ts, did', ts');
    } else if |did'| < |did| {
      JoinedAlikeIff(did', ts', did, ts);
    } else {
      SameLengthNeverOverlaps(did, ts, did', ts');
    }
  }

  lemma RegistryTextTails(did: string, ts: string)
    ensures RegisterText(did, ts) == "register:" + (did + ":" + ts) && RegisterText(did, ts)[9..] == did + ":" + ts
    ensures RevokeText(did, ts) == "revoke:" + (did + ":" + ts) && RevokeText(did, ts)[7..] == did + ":" + ts
  {
    assert "register:" + did + ":" + ts == "register:" + (did + ":" + ts);
    assert "revoke:" + did + ":" + ts == "revoke:" + (did + ":" + ts);
  }

  // For arbitrary DIDs. A timestamp without a colon, as every client writes it,
  // never continues into a longer DID.
  lemma RegisterTextAmbiguousIff(did: string, ts: string, did': string, ts': string)
    requires did != did'
    ensures RegisterText(did, ts) == RegisterText(did', ts')
       <==> Overlaps(did, ts, did', ts') || Overlaps(did', ts', did, ts)
    ensures RevokeText(did, ts) == RevokeText(did', ts')
       <==> Overlaps(did, ts, did', ts') || Overlaps(did', ts', did, ts)
    ensures ':' !in ts ==> !Overlaps(did, ts, did', ts')
  {
    RegistryTextTails(did, ts);
    RegistryTextTails(did', ts');
    JoinedOverlapsIff(did, ts, did', ts');
    if Overlaps(did, ts, did', ts') {
      assert ts[|did'[|did| + 1..]|] == ':';
    }
  }

  // A rotation text has the key between, which holds no colon: the longer DID
  // goes on with the other's key, and then with the start of its timestamp.
  predicate RotationOverlaps(did: string, key: string, ts: string, did': string, key': string, ts': string) {
    StartsWith(did', did + ":" + key) &&
    var rest := did'[|did| + 1 + |key|..];
    (rest == "" && ts == key' + ":" + ts') || (StartsWith(rest, ":") && ts == rest[1..] + ":" + (key' + ":" + ts'))
  }

  lemma StartsWithConcat(m: string, a: string, b: string)
    ensures StartsWith(m, a + b) <==> StartsWith(m, a) && StartsWith(m[|a|..], b)
  {
    if StartsWith(m, a + b) {
      assert m[..|a|] == (a + b)[..|a|] && m[|a|..][..|b|] == (a + b)[|a|..];
    }
  }

  lemma KeyThenRestIff(key: string, ts: string, m: string, y: string)
    requires ':' !in key
    ensures key + ":" + ts == m + ":" + y
       <==> StartsWith(m, key) &&
            var rest := m[|key|..];
            (rest == "" && ts == y) || (StartsWith(rest, ":") && ts == rest[1..] + ":" + y)
  {
    if |m| < |key| {
      JoinedAlikeIff(m, y, key, ts);
      assert key[|m|] in key && key[..|m| + 1][|m|] == key[|m|] && (m + ":")[|m|] == ':';
    } else if |m| == |key| {
      assert (m + ":" + y)[..|m|] == m && (key + ":" + ts)[..|key|] == key;
      assert (m + ":" + y)[|m| + 1..] == y && (key + ":" + ts)[|key| + 1..] == ts;
    } else {
      JoinedAlikeIff(key, ts, m, y);
      StartsWithConcat(m, key, ":");
      if StartsWith(m, key) {
        assert m[|key|..][1..] == m[|key| + 1..];
      }
    }
  }

  lemma LongerRotationIff(did: string, key: string, ts: string, did': string, key': string, ts': string)
    requires |did| < |did'| && ':' !in key
    ensures UpdateText(did, key, ts) == UpdateText(did', key', ts') <==> RotationOverlaps(did, key, ts, did', key', ts')
  {
    UpdateTextTail(did, key, ts);
    UpdateTextTail(did', key', ts');
    JoinedAlikeIff(did, key + ":" + ts, did', key' + ":" + ts');
    var m := did'[|did| + 1..];
    KeyThenRestIff(key, ts, m, key' + ":" + ts');
    StartsWithConcat(did', did + ":", key);
    if StartsWith(m, key) {
      assert m[|key|..] == did'[|did| + 1 + |key|..];
    }
  }

  // For arbitrary DIDs and the key texts the handler decodes.
  lemma UpdateTextAmbiguousIff(did: string, key: string, ts: string, did': string, key': string, ts': string)
    requires did != did' && DecodeStd(key).Some? && DecodeStd(key').Some?
    ensures UpdateText(did, key, ts) == UpdateText(did', key', ts')
       <==> RotationOverlaps(did, key, ts, did', key', ts') || RotationOverlaps(did', key', ts', did, key, ts)
  {
    DecodeStdHasNoColon(key);
    DecodeStdHasNoColon(key');
    if |did| < |did'| {
      LongerRotationIff(did, key, ts, did', key', ts');
    } else if |did'| < |did| {
      LongerRotationIff(did', key', ts', did, key, ts);
    } else {
      UpdateTextTail(did, key, ts);
      UpdateTextTail(did', key', ts');
      SameLengthNeverOverlaps(did, key + ":" + ts, did', key' + ":" + ts');
    }
  }

  // ---- Which DIDs are affected ----

  // Another DID the gateway accepts has a registration and revocation text in common with this one.
  ghost predicate SharesRegistryText(did: string) {
    exists other: string, ts: string, ts': string ::
      other != did && IsValidDidGo(other) && RegisterText(did, ts) == RegisterText(other, ts')
      && RevokeText(did, ts) == RevokeText(other, ts')
  }

  // A colon in it ends a DID that is itself accepted.
  ghost predicate HasDidPrefix(did: string) {
    exists j :: 0 <= j < |did| && did[j] == ':' && IsValidDidGo(did[..j])
  }

  lemma SuffixGrows(did: string, x: string)
    requires StartsWith(did, DID_PREFIX)
    ensures StartsWith(did + x, DID_PREFIX)
    ensures SuffixBytes(did + x) == SuffixBytes(did) + |Utf.Encode(Utf8, x)|
  {
    assert (did + x)[..|DID_PREFIX|] == did[..|DID_PREFIX|];
    assert (did + x)[|DID_PREFIX|..] == did[|DID_PREFIX|..] + x;
    Utf.EncodeConcat(Utf8, did[|DID_PREFIX|..], x);
  }

  lemma LongerDidSharesText(did: string)
    requires IsValidDidGo(did) && SuffixBytes(did) < 100
    ensures SharesRegistryText(did)
  {
    var other := did + ":";
    SuffixGrows(did, ":");
    AsciiLength(":");
    assert other[|did| + 1..] == "" && StartsWith(other, did + ":");
    assert Overlaps(did, ":", other, "");
    RegisterTextAmbiguousIff(did, ":", other, "");
  }

  lemma ShorterDidSharesText(did: string, j: nat)
    requires j < |did| && did[j] == ':' && IsValidDidGo(did[..j])
    ensures SharesRegistryText(did)
  {
    var other, ts := did[..j], did[j + 1..] + ":";
    assert StartsWith(did, other + ":");
    assert Overlaps(other, ts, did, "");
    RegisterTextAmbiguousIff(other, ts, did, "");
  }

  // A DID shares texts exactly when there is room to append a colon to it, or
  // some colon in it ends an accepted DID.
  lemma SharesRegistryTextIff(did: string)
    requires IsValidDidGo(did)
    ensures SharesRegistryText(did) <==> SuffixBytes(did) < 100 || HasDidPrefix(did)
  {
    if SuffixBytes(did) < 100 {
      LongerDidSharesText(did);
    }
    if HasDidPrefix(did) {
      var j :| 0 <= j < |did| && did[j] == ':' && IsValidDidGo(did[..j]);
      ShorterDidSharesText(did, j);
    }
    if SharesRegistryText(did) {
      var other, ts, ts' :| other != did && IsValidDidGo(other) && RegisterText(did, ts) == RegisterText(other, ts');
      SharedTextNeeds(did, ts, other, ts');
    }
  }

  lemma SharedTextNeeds(did: string, ts: string, other: string, ts': string)
    requires other != did && IsValidDidGo(did) && IsValidDidGo(other)
    requires RegisterText(did, ts) == RegisterText(other, ts')
    ensures SuffixBytes(did) < 100 || HasDidPrefix(did)
  {
    RegisterTextAmbiguousIff(did, ts, other, ts');
    if Overlaps(did, ts, other, ts') {
      ContinuedDidIsLonger(did, ":", other);
    } else {
      assert did[..|other|] == (other + ":")[..|other|] == other && did[|other|] == (other + ":")[|other|] == ':';
    }
  }

  lemma ContinuedDidIsLonger(did: string, x: string, other: string)
    requires IsValidDidGo(did) && IsValidDidGo(other) && StartsWith(other, did + x)
    ensures SuffixBytes(did) + |x| <= 100
  {
    var rest := other[|did + x|..];
    assert other == did + (x + rest);
    SuffixGrows(did, x + rest);
    Utf.EncodeLengthens(Utf8, x + rest);
  }

  // Another DID the gateway accepts has a rotation text in common with this one.
  ghost predicate SharesRotationText(did: string) {
    exists key: string, ts: string, other: string, key': string, ts': string ::
      other != did && IsValidDidGo(other) && DecodeKey(key).Some? && DecodeKey(key').Some?
      && UpdateText(did, key, ts) == UpdateText(other, key', ts')
  }

  // From i to j stands a key, between colons or up to the end, after an accepted DID.
  predicate KeyInside(did: string, i: nat, j: nat) {
    i < j <= |did| && did[i] == ':' && IsValidDidGo(did[..i]) && DecodeKey(did[i + 1..j]).Some?
    && (j == |did| || did[j] == ':')
  }

  const SOME_KEY: string := EncodeStd(seq(KEY_SIZE, i => 0))

  lemma SomeKeyIsKey()
    ensures DecodeKey(SOME_KEY).Some? && |SOME_KEY| == 44 && |Utf.Encode(Utf8, ":" + SOME_KEY)| == 45
  {
    var key: Bytes := seq(KEY_SIZE, i => 0);
    Base64.DecodeEncode(key);
    AlphabetIsAscii();
    ColonAndKey(AlphabetOf(false), key);
  }

  lemma ColonAndKey(al: Alphabet, key: Bytes)
    requires |key| == KEY_SIZE && forall d: Digit :: al.charOf(d) as int < 128
    ensures var text := Base64.Encode(al, true, key);
            |text| == 44 && |Utf.Encode(Utf8, ":" + text)| == 45
  {
    PaddedText(al, key);
    var text := Base64.Encode(al, true, key);
    forall i | 0 <= i < |text| ensures text[i] as int < 128 {
      assert text[i] in text;
    }
    AsciiLength(":" + text);
  }

  lemma AlphabetIsAscii()
    ensures forall d: Digit :: AlphabetOf(false).charOf(d) as int < 128
  {
  }

  lemma {:induction false} PaddedText(al: Alphabet, bs: Bytes)
    requires forall d: Digit :: al.charOf(d) as int < 128
    ensures |Base64.Encode(al, true, bs)| == (|bs| + 2) / 3 * 4
    ensures forall c | c in Base64.Encode(al, true, bs) :: c as int < 128
  {
    if |bs| >= 3 {
      PaddedText(al, bs[3..]);
    }
  }

  lemma LongerDidSharesRotation(did: string)
    requires IsValidDidGo(did) && SuffixBytes(did) <= 55
    ensures SharesRotationText(did)
  {
    SomeKeyIsKey();
    var other := did + (":" + SOME_KEY);
    SuffixGrows(did, ":" + SOME_KEY);
    assert other == did + ":" + SOME_KEY;
    assert other[|did| + 1 + |SOME_KEY|..] == "";
    assert RotationOverlaps(did, SOME_KEY, SOME_KEY + ":" + "", other, SOME_KEY, "");
    UpdateTextAmbiguousIff(did, SOME_KEY, SOME_KEY + ":" + "", other, SOME_KEY, "");
  }

  lemma RotationShared(did: string, key: string, ts: string, other: string, key': string, ts': string)
    requires other != did && IsValidDidGo(other) && DecodeKey(key).Some? && DecodeKey(key').Some?
    requires RotationOverlaps(other, key', ts', did, key, ts)
    ensures SharesRotationText(did)
  {
    UpdateTextAmbiguousIff(did, key, ts, other, key', ts');
    assert UpdateText(did, key, ts) == UpdateText(other, key', ts');
  }

  lemma OverlapFromParts(other: string, key: string, rest: string, key': string, ts': string) returns (ts: string)
    requires rest == "" || rest[0] == ':'
    ensures RotationOverlaps(other, key, ts, other + ":" + key + rest, key', ts')
  {
    var did := other + ":" + key + rest;
    ts := if rest == "" then key' + ":" + ts' else rest[1..] + ":" + (key' + ":" + ts');
    assert did[..|other + ":" + key|] == other + ":" + key;
    assert did[|other| + 1 + |key|..] == rest;
    assert rest != "" ==> rest[..1] == ":";
  }

  lemma ShorterDidSharesRotation(did: string, i: nat, j: nat)
    requires KeyInside(did, i, j)
    ensures SharesRotationText(did)
  {
    SomeKeyIsKey();
    var other, key, rest := did[..i], did[i + 1..j], did[j..];
    assert did == other + ":" + key + rest;
    var ts := OverlapFromParts(other, key, rest, SOME_KEY, "");
    RotationShared(did, SOME_KEY, "", other, key, ts);
  }

  // A DID shares rotation texts exactly when a colon and a key's 44 characters
  // can be appended to it, or stand in it after an accepted DID.
  lemma SharesRotationTextIff(did: string)
    requires IsValidDidGo(did)
    ensures SharesRotationText(did) <==> SuffixBytes(did) <= 55 || exists i: nat, j: nat :: KeyInside(did, i, j)
  {
    if SuffixBytes(did) <= 55 {
      LongerDidSharesRotation(did);
    }
    if exists i: nat, j: nat :: KeyInside(did, i, j) {
      var i: nat, j: nat :| KeyInside(did, i, j);
      ShorterDidSharesRotation(did, i, j);
    }
    if SharesRotationText(did) {
      var key, ts, other, key', ts' :|
        other != did && IsValidDidGo(other) && DecodeKey(key).Some? && DecodeKey(key').Some?
        && UpdateText(did, key, ts) == UpdateText(other, key', ts');
      SharedRotationNeeds(did, key, ts, other, key', ts');
    }
  }

  lemma SharedRotationNeeds(did: string, key: string, ts: string, other: string, key': string, ts': string)
    requires other != did && IsValidDidGo(did) && IsValidDidGo(other) && DecodeKey(key).Some? && DecodeKey(key').Some?
    requires UpdateText(did, key, ts) == UpdateText(other, key', ts')
    ensures SuffixBytes(did) <= 55 || exists i: nat, j: nat :: KeyInside(did, i, j)
  {
    UpdateTextAmbiguousIff(did, key, ts, other, key', ts');
    if RotationOverlaps(did, key, ts, other, key', ts') {
      KeyFitsBehind(did, key, other);
    } else {
      RotationOverlapHasKeyInside(other, key', ts', did, key, ts);
    }
  }

  lemma KeyFitsBehind(did: string, key: string, other: string)
    requires IsValidDidGo(did) && IsValidDidGo(other) && DecodeKey(key).Some? && StartsWith(other, did + ":" + key)
    ensures SuffixBytes(did) <= 55
  {
    KeyTextLength(key);
    assert did + (":" + key) == did + ":" + key;
    ContinuedDidIsLonger(did, ":" + key, other);
  }

  lemma KeyTextLength(key: string)
    requires DecodeKey(key).Some?
    ensures |key| >= 44
  {
    DecodedIsShorter(key);
  }

  lemma RotationOverlapHasKeyInside(other: string, key: string, ts: string, did: string, key': string, ts': string)
    requires IsValidDidGo(other) && DecodeKey(key).Some? && RotationOverlaps(other, key, ts, did, key', ts')
    ensures KeyInside(did, |other|, |other| + 1 + |key|)
  {
    var i, j := |other|, |other| + 1 + |key|;
    var head := other + ":" + key;
    assert did[..j] == head;
    assert did[..i] == head[..i] == other && did[i] == head[i] == ':';
    assert did[i + 1..j] == head[i + 1..j] == key;
  }

  // Both DIDs below pass the gateway's check.
  lemma GoDidsCanOverlap()
    ensures var did := DID_PREFIX + seq(40, i => 'a');
            && IsValidDidGo(did) && IsValidDidGo(did + ":x")
            && RegisterText(did, "x:1") == RegisterText(did + ":x", "1")
            && RevokeText(did, "x:1") == RevokeText(did + ":x", "1")
  {
    var a := seq(40, i => 'a');
    var did := DID_PREFIX + a;
    assert did[|DID_PREFIX|..] == a && did[..|DID_PREFIX|] == DID_PREFIX;
    AsciiLength(a);
    AsciiLength(":x");
    SuffixGrows(did, ":x");
    assert (did + ":x")[|did| + 1..] == "x" && StartsWith(did + ":x", did + ":");
    assert Overlaps(did, "x:1", did + ":x", "1");
    RegisterTextAmbiguousIff(did, "x:1", did + ":x", "1");
  }

  // A DID of the toolkit is accepted by the gateway exactly up to its length limit.
  lemma TsDidIsGoDidIff(did: string)
    requires IsValidDidTs(did)
    ensures IsValidDidGo(did) <==> |did| <= |DID_PREFIX| + 100
  {
    AsciiLength(did[|DID_PREFIX|..]);
  }

  // The layouts, letter by letter.
  lemma Layouts()
    ensures RegisterText("did:uddi:zA", "17") == "register:did:uddi:zA:17"
    ensures RevokeText("did:uddi:zA", "17") == "revoke:did:uddi:zA:17"
    ensures UpdateText("did:uddi:zA", "Zg==", "17") == "update:did:uddi:zA:Zg==:17"
  {
  }

  lemma AuthLayout()
    ensures AuthText("aa", "bb", "did:uddi:zA", 17) == "aa:bb:did:uddi:zA:17"
  {
    assert OfNat(17) == "17";
    assert "aa" + ":" + "bb" + ":" + "did:uddi:zA" + ":" == "aa:bb:did:uddi:zA:";
  }

  // The toolkit's DIDs are in the base58 alphabet, at least forty letters of it.
  lemma ToolkitDidIs(did: string)
    ensures IsValidDidTs(did)
       <==> StartsWith(did, "did:uddi:z") && |did| >= 50 && forall c | c in did[10..] :: IsBase58(c)
  {
    if IsValidDidTs(did) {
      forall c | c in did[10..] ensures IsBase58(c) {
        var j :| 0 <= j < |did[10..]| && did[10..][j] == c;
        assert did[10 + j] == c;
      }
    }
    assert forall i | 10 <= i < |did| :: did[i] in did[10..] by {
      assert forall i | 10 <= i < |did| :: did[i] == did[10..][i - 10];
    }
  }

  // Letters and digits without the four that look alike.
  lemma Base58Is(c: char)
    ensures IsBase58(c)
       <==> ('0' <= c <= '9' || 'A' <= c <= 'Z' || 'a' <= c <= 'z') && c !in "0OIl"
  {
  }
}
