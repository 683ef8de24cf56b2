// When the gateway and the toolkit sign and check the same text.
module TextAgreement {
  import opened Utf
  import opened KeyOrder
  import opened JsonText
  import opened JsonValue
  import opened Canonical

  // No character that only encoding/json escapes.
  predicate Plain(s: string) {
    forall i | 0 <= i < |s| :: !IsHtmlSensitive(s[i])
  }

  // Every string and key is plain, and within each object both sorts list the keys alike.
  ghost predicate Shared(v: Json)
    decreases v
  {
    match v
    case JString(s) => Plain(s)
    case JArray(items) => forall x | x in items :: Shared(x)
    case JObject(fields) =>
      SortsAlike(fields.Keys) && forall k | k in fields :: Plain(k) && Shared(fields[k])
    case _ => true
  }

  // ---- Escaping ----

  predicate PlainDoc(d: Doc)
    decreases d, 1
  {
    match d
    case Text(s) => Plain(s)
    case Array(items) => PlainItems(items)
    case Object(members) => PlainMembers(members)
    case _ => true
  }

  predicate PlainItems(items: seq<Doc>)
    decreases items, 0
  {
    |items| == 0 || (PlainDoc(items[0]) && PlainItems(items[1..]))
  }

  predicate PlainMembers(members: seq<Member>)
    decreases members, 0
  {
    |members| == 0 || (Plain(members[0].key) && PlainDoc(members[0].value) && PlainMembers(members[1..]))
  }

  lemma PlainConcat(a: string, b: string)
    ensures Plain(a + b) <==> Plain(a) && Plain(b)
  {
    if Plain(a + b) {
      assert forall i | 0 <= i < |a| :: (a + b)[i] == a[i];
      assert forall i | 0 <= i < |b| :: (a + b)[|a| + i] == b[i];
    }
  }

  lemma EscapePlain(c: char)
    ensures Plain(Escape(true, c))
    ensures Plain(Escape(false, c)) <==> !IsHtmlSensitive(c)
    ensures !IsHtmlSensitive(c) ==> Escape(true, c) == Escape(false, c)
  {
    assert IsHtmlSensitive(c) ==> Escape(false, c)[0] == c;
  }

  // The gateway's escaped text never holds one of the five characters; the toolkit's does exactly when the string does.
  lemma {:induction false} EscapeAllPlain(s: string)
    ensures Plain(EscapeAll(true, s))
    ensures Plain(EscapeAll(false, s)) <==> Plain(s)
    ensures Plain(s) ==> EscapeAll(true, s) == EscapeAll(false, s)
  {
    if |s| > 0 {
      EscapePlain(s[0]);
      EscapeAllPlain(s[1..]);
      PlainConcat(Escape(true, s[0]), EscapeAll(true, s[1..]));
      PlainConcat(Escape(false, s[0]), EscapeAll(false, s[1..]));
      PlainConcat([s[0]], s[1..]);
      assert s == [s[0]] + s[1..];
    }
  }

  lemma QuotePlain(s: string)
    ensures Plain(Quote(GO, s))
    ensures Plain(Quote(JS, s)) <==> Plain(s)
    ensures Plain(s) ==> Quote(GO, s) == Quote(JS, s)
  {
    EscapeAllPlain(s);
    PlainConcat("\"" + EscapeAll(false, s), "\"");
    PlainConcat("\"" + EscapeAll(true, s), "\"");
    PlainConcat("\"", EscapeAll(false, s));
    PlainConcat("\"", EscapeAll(true, s));
  }

  lemma {:induction false} WritePlain(d: Doc)
    requires WellFormed(d)
    ensures Plain(Write(GO, d))
    ensures Plain(Write(JS, d)) <==> PlainDoc(d)
    ensures PlainDoc(d) ==> Write(GO, d) == Write(JS, d)
    decreases d, 1
  {
    match d
    case Text(s) => QuotePlain(s);
    case Array(items) =>
      if |items| > 0 {
        WritePlain(items[0]);
        WriteItemsPlain(items[1..]);
        PlainConcat("[" + Write(GO, items[0]), WriteItems(GO, items[1..]));
        PlainConcat("[" + Write(JS, items[0]), WriteItems(JS, items[1..]));
        PlainConcat("[", Write(GO, items[0]));
        PlainConcat("[", Write(JS, items[0]));
      }
    case Object(members) =>
      if |members| > 0 {
        WriteMemberPlain(members[0]);
        WriteMembersPlain(members[1..]);
        PlainConcat("{" + WriteMember(GO, members[0]), WriteMembers(GO, members[1..]));
        PlainConcat("{" + WriteMember(JS, members[0]), WriteMembers(JS, members[1..]));
        PlainConcat("{", WriteMember(GO, members[0]));
        PlainConcat("{", WriteMember(JS, members[0]));
      }
    case _ =>
  }

  lemma {:induction false} WriteItemsPlain(items: seq<Doc>)
    requires ItemsWellFormed(items)
    ensures Plain(WriteItems(GO, items))
    ensures Plain(WriteItems(JS, items)) <==> PlainItems(items)
    ensures PlainItems(items) ==> WriteItems(GO, items) == WriteItems(JS, items)
    decreases items, 0
  {
    if |items| > 0 {
      WritePlain(items[0]);
      WriteItemsPlain(items[1..]);
      PlainConcat("," + "" + Write(GO, items[0]), WriteItems(GO, items[1..]));
      PlainConcat("," + "" + Write(JS, items[0]), WriteItems(JS, items[1..]));
      PlainConcat("," + "", Write(GO, items[0]));
      PlainConcat("," + "", Write(JS, items[0]));
    }
  }

  lemma {:induction false} WriteMemberPlain(m: Member)
    requires WellFormed(m.value)
    ensures Plain(WriteMember(GO, m))
    ensures Plain(WriteMember(JS, m)) <==> Plain(m.key) && PlainDoc(m.value)
    ensures Plain(m.key) && PlainDoc(m.value) ==> WriteMember(GO, m) == WriteMember(JS, m)
    decreases m, 2
  {
    QuotePlain(m.key);
    WritePlain(m.value);
    PlainConcat(Quote(GO, m.key) + ":" + "", Write(GO, m.value));
    PlainConcat(Quote(JS, m.key) + ":" + "", Write(JS, m.value));
    PlainConcat(Quote(GO, m.key), ":");
    PlainConcat(Quote(JS, m.key), ":");
    assert Quote(GO, m.key) + ":" + "" == Quote(GO, m.key) + ":";
    assert Quote(JS, m.key) + ":" + "" == Quote(JS, m.key) + ":";
  }

  lemma {:induction false} WriteMembersPlain(members: seq<Member>)
    requires MembersWellFormed(members)
    ensures Plain(WriteMembers(GO, members))
    ensures Plain(WriteMembers(JS, members)) <==> PlainMembers(members)
    ensures PlainMembers(members) ==> WriteMembers(GO, members) == WriteMembers(JS, members)
    decreases members, 0
  {
    if |members| > 0 {
      WriteMemberPlain(members[0]);
      WriteMembersPlain(members[1..]);
      PlainConcat("," + "" + WriteMember(GO, members[0]), WriteMembers(GO, members[1..]));
      PlainConcat("," + "" + WriteMember(JS, members[0]), WriteMembers(JS, members[1..]));
      PlainConcat("," + "", WriteMember(GO, members[0]));
      PlainConcat("," + "", WriteMember(JS, members[0]));
    }
  }

  // ---- Key order ----

  // The documents of a value under the two sorts are equal, and plain, exactly on the shared domain.
  ghost predicate SameDoc(nums: Numbers, v: Json) {
    ToDoc(nums, Utf8, v) == ToDoc(nums, Utf16, v) && PlainDoc(ToDoc(nums, Utf16, v))
  }

  lemma {:induction false} SameDocIff(nums: Numbers, v: Json)
    ensures SameDoc(nums, v) <==> Shared(v)
    decreases v, 2, 0
  {
    match v
    case JArray(items) => SameItemsIff(nums, items);
    case JObject(fields) => SameObjectIff(nums, fields);
    case _ =>
  }

  lemma {:induction false} SameObjectIff(nums: Numbers, fields: map<string, Json>)
    ensures SameDoc(nums, JObject(fields)) <==> Shared(JObject(fields))
    decreases JObject(fields), 1, 0
  {
    var v := JObject(fields);
    var p, q := SortedKeys(Utf8, fields.Keys), SortedKeys(Utf16, fields.Keys);
    SortedKeysAgreeIff(fields.Keys);
    assert ToDoc(nums, Utf8, v) == Object(MemberDocs(nums, Utf8, v, p));
    assert ToDoc(nums, Utf16, v) == Object(MemberDocs(nums, Utf16, v, q));
    if p == q {
      SameMembersIff(nums, v, p);
      assert forall k :: k in p <==> k in fields;
    } else {
      OtherKeysOtherMembers(nums, v, p, q);
    }
  }

  lemma OtherKeysOtherMembers(nums: Numbers, v: Json, p: seq<string>, q: seq<string>)
    requires v.JObject? && (forall k | k in p :: k in v.fields) && (forall k | k in q :: k in v.fields)
    requires p != q
    ensures MemberDocs(nums, Utf8, v, p) != MemberDocs(nums, Utf16, v, q)
  {
    MemberKeys(nums, Utf8, v, p);
    MemberKeys(nums, Utf16, v, q);
  }

  lemma {:induction false} SameItemsIff(nums: Numbers, items: seq<Json>)
    ensures ItemDocs(nums, Utf8, items) == ItemDocs(nums, Utf16, items) && PlainItems(ItemDocs(nums, Utf16, items))
       <==> forall x | x in items :: Shared(x)
    decreases items, 0, 0
  {
    if |items| > 0 {
      SameDocIff(nums, items[0]);
      SameItemsIff(nums, items[1..]);
      assert items == [items[0]] + items[1..];
      var a, b := ItemDocs(nums, Utf8, items), ItemDocs(nums, Utf16, items);
      assert a[1..] == ItemDocs(nums, Utf8, items[1..]) && b[1..] == ItemDocs(nums, Utf16, items[1..]);
      assert a == b <==> a[0] == b[0] && a[1..] == b[1..] by {
        assert a == [a[0]] + a[1..] && b == [b[0]] + b[1..];
      }
    }
  }

  lemma {:induction false} SameMembersIff(nums: Numbers, v: Json, ks: seq<string>)
    requires v.JObject? && forall k | k in ks :: k in v.fields
    ensures && MemberDocs(nums, Utf8, v, ks) == MemberDocs(nums, Utf16, v, ks)
            && PlainMembers(MemberDocs(nums, Utf16, v, ks))
       <==> forall k | k in ks :: Plain(k) && Shared(v.fields[k])
    decreases v, 0, |ks|
  {
    if |ks| > 0 {
      SameDocIff(nums, v.fields[ks[0]]);
      SameMembersIff(nums, v, ks[1..]);
      assert ks == [ks[0]] + ks[1..];
      var a, b := MemberDocs(nums, Utf8, v, ks), MemberDocs(nums, Utf16, v, ks);
      assert a[1..] == MemberDocs(nums, Utf8, v, ks[1..]) && b[1..] == MemberDocs(nums, Utf16, v, ks[1..]);
      assert a == b <==> a[0] == b[0] && a[1..] == b[1..] by {
        assert a == [a[0]] + a[1..] && b == [b[0]] + b[1..];
      }
    }
  }

  lemma {:induction false} MemberKeys(nums: Numbers, e: Encoding, v: Json, ks: seq<string>)
    requires v.JObject? && forall k | k in ks :: k in v.fields
    ensures forall i | 0 <= i < |ks| :: MemberDocs(nums, e, v, ks)[i].key == ks[i]
    decreases |ks|
  {
    if |ks| > 0 {
      MemberKeys(nums, e, v, ks[1..]);
    }
  }

  // ---- Main result ----

  // The two texts are equal exactly on the shared domain.
  lemma TextsAgreeIff(nums: Numbers, v: Json)
    requires nums.Lawful()
    ensures GoText(nums, v) == TsText(nums, v) <==> Shared(v)
  {
    var p, q := ToDoc(nums, Utf8, v), ToDoc(nums, Utf16, v);
    ToDocWellFormed(nums, Utf8, v);
    ToDocWellFormed(nums, Utf16, v);
    WritePlain(p);
    WritePlain(q);
    SameDocIff(nums, v);
    if GoText(nums, v) == TsText(nums, v) {
      ReadAllWrite(GO, p);
      ReadAllWrite(JS, q);
    }
  }

  // In particular whenever strings avoid the five characters and keys stay in the basic plane.
  ghost predicate PlainBmp(v: Json)
    decreases v
  {
    match v
    case JString(s) => Plain(s)
    case JArray(items) => forall x | x in items :: PlainBmp(x)
    case JObject(fields) => forall k | k in fields :: Plain(k) && IsBmp(k) && PlainBmp(fields[k])
    case _ => true
  }

  lemma {:induction false} PlainBmpIsShared(v: Json)
    requires PlainBmp(v)
    ensures Shared(v)
  {
    match v
    case JArray(items) =>
      forall x | x in items ensures Shared(x) { PlainBmpIsShared(x); }
    case JObject(fields) =>
      forall k | k in fields ensures Shared(fields[k]) { PlainBmpIsShared(fields[k]); }
      forall a, b | a in fields.Keys && b in fields.Keys ensures !Straddles(a, b) {
        BmpNeverStraddles(a, b);
      }
    case _ =>
  }

  // An object outside the shared domain with plain strings only: the sorts list its two keys in opposite orders.
  lemma KeysOutsideBmpCanDisagree(nums: Numbers)
    requires nums.Lawful()
    ensures var v := JObject(map["\U{E000}" := JNull, "\U{10000}" := JNull]);
            GoText(nums, v) != TsText(nums, v)
  {
    var v := JObject(map["\U{E000}" := JNull, "\U{10000}" := JNull]);
    assert "\U{E000}" in v.fields.Keys && "\U{10000}" in v.fields.Keys;
    assert Straddles("\U{E000}", "\U{10000}");
    TextsAgreeIff(nums, v);
  }
}
