// The exact text an Ed25519 credential signature covers, on both sides:
// the gateway's canonicalizeJSON (Go) and the toolkit's canonicalize (TypeScript).
module Canonical {
  import opened Wrappers
  import opened Utf
  import opened JsonText
  import opened JsonValue

  // ---- Specification ----

  // Gateway: keys in byte order, strings escaped by encoding/json.
  ghost function GoText(nums: Numbers, v: Json): string {
    Write(GO, ToDoc(nums, Utf8, v))
  }

  // Toolkit: keys in UTF-16 code-unit order, strings escaped by JSON.stringify.
  ghost function TsText(nums: Numbers, v: Json): string {
    Write(JS, ToDoc(nums, Utf16, v))
  }

  function WithoutProof(fields: map<string, Json>): map<string, Json> {
    fields - {"proof"}
  }

  // ---- Reading inverts writing; canonical text is injective ----

  lemma ReadGoText(nums: Numbers, v: Json, rest: string)
    requires nums.Lawful() && Delimited(rest)
    ensures Read(GoText(nums, v) + rest) == Some((ToDoc(nums, Utf8, v), rest))
    ensures Decode(nums, GoText(nums, v)) == Some(v)
  {
    ToDocWellFormed(nums, Utf8, v);
    ReadWrite(GO, ToDoc(nums, Utf8, v), rest);
    ReadAllWrite(GO, ToDoc(nums, Utf8, v));
    ToValueToDoc(nums, Utf8, v);
  }

  lemma ReadTsText(nums: Numbers, v: Json)
    requires nums.Lawful()
    ensures ReadAll(TsText(nums, v)) == Some(ToDoc(nums, Utf16, v))
    ensures Decode(nums, TsText(nums, v)) == Some(v)
  {
    ToDocWellFormed(nums, Utf16, v);
    ReadAllWrite(JS, ToDoc(nums, Utf16, v));
    ToValueToDoc(nums, Utf16, v);
  }

  // Equal texts, each followed by delimiter-led text, force equal values and equal rests.
  lemma GoTextSelfDelimiting(nums: Numbers, v: Json, w: Json, restV: string, restW: string)
    requires nums.Lawful() && Delimited(restV) && Delimited(restW)
    ensures GoText(nums, v) + restV == GoText(nums, w) + restW <==> v == w && restV == restW
  {
    if GoText(nums, v) + restV == GoText(nums, w) + restW {
      ReadGoText(nums, v, restV);
      ReadGoText(nums, w, restW);
      ToValueToDoc(nums, Utf8, v);
      ToValueToDoc(nums, Utf8, w);
    }
  }

  // Two credentials have the same signed text exactly when they agree on every key except "proof".
  lemma CredentialTextIff(nums: Numbers, c: map<string, Json>, d: map<string, Json>)
    requires nums.Lawful()
    ensures GoText(nums, JObject(WithoutProof(c))) == GoText(nums, JObject(WithoutProof(d)))
        <==> forall k | k != "proof" ::
               (k in c <==> k in d) && (k in c && k in d ==> c[k] == d[k])
  {
    var p, q := WithoutProof(c), WithoutProof(d);
    GoTextSelfDelimiting(nums, JObject(p), JObject(q), "", "");
    assert GoText(nums, JObject(p)) + "" == GoText(nums, JObject(p));
    assert GoText(nums, JObject(q)) + "" == GoText(nums, JObject(q));
    if p == q {
      forall k | k != "proof"
        ensures (k in c <==> k in d) && (k in c && k in d ==> c[k] == d[k])
      {
        assert (k in p <==> k in c) && (k in q <==> k in d);
        if k in c { assert p[k] == q[k]; }
      }
    }
  }
}
