// canonicalizeJSON and canonicalCredential as the gateway runs them: keys are
// gathered in whatever order the map yields them, sorted in place of a list,
// and the text is appended piece by piece to a buffer.
module GoCanonical {
  import opened Utf
  import opened KeyOrder
  import opened JsonText
  import opened JsonValue
  import opened Canonical

  predicate Ordered(s: seq<string>) {
    forall i, j | 0 <= i < j < |s| :: !Less(Utf8, s[j], s[i])
  }

  // sort.Strings
  method SortStrings(keys: seq<string>) returns (r: seq<string>)
    ensures multiset(r) == multiset(keys) && Ordered(r)
  {
    r := [];
    for n := 0 to |keys|
      invariant multiset(r) == multiset(keys[..n]) && Ordered(r)
    {
      r := InsertOrdered(r, keys[n]);
      assert keys[..n + 1] == keys[..n] + [keys[n]];
    }
    assert keys[..|keys|] == keys;
  }

  method InsertOrdered(s: seq<string>, k: string) returns (r: seq<string>)
    requires Ordered(s)
    ensures multiset(r) == multiset(s) + multiset{k} && Ordered(r)
  {
    var p := 0;
    while p < |s| && Less(Utf8, s[p], k)
      invariant 0 <= p <= |s|
      invariant p > 0 ==> Less(Utf8, s[p - 1], k)
    {
      p := p + 1;
    }
    r := s[..p] + [k] + s[p..];
    InsertKeepsOrder(s, k, p);
    InsertKeepsElements(s, k, p);
  }

  lemma InsertKeepsElements(s: seq<string>, k: string, p: nat)
    requires p <= |s|
    ensures multiset(s[..p] + [k] + s[p..]) == multiset(s) + multiset{k}
  {
    assert s == s[..p] + s[p..];
  }

  lemma InsertKeepsOrder(s: seq<string>, k: string, p: nat)
    requires Ordered(s) && p <= |s|
    requires p > 0 ==> Less(Utf8, s[p - 1], k)
    requires p < |s| ==> !Less(Utf8, s[p], k)
    ensures Ordered(s[..p] + [k] + s[p..])
  {
    var r := s[..p] + [k] + s[p..];
    forall i, j | 0 <= i < j < |r| ensures !Less(Utf8, r[j], r[i]) {
      if j == p {
        LessTrichotomy(Utf8, s[p - 1], k);
        NotLessTrans(k, s[p - 1], s[i]);
      } else if i == p {
        NotLessTrans(s[j - 1], s[p], k);
      }
    }
  }

  lemma NotLessTrans(a: string, b: string, c: string)
    requires a == b || !Less(Utf8, a, b)
    requires b == c || !Less(Utf8, b, c)
    ensures !Less(Utf8, a, c)
  {
    LessTrichotomy(Utf8, a, b);
    LessTrichotomy(Utf8, b, c);
    LessTrichotomy(Utf8, a, c);
    if a != b && b != c {
      LessTransitive(Utf8, c, b, a);
    }
  }

  lemma RepeatedCount(r: seq<string>, i: nat, j: nat)
    requires i < j < |r| && r[i] == r[j]
    ensures multiset(r)[r[i]] >= 2
  {
    assert r == r[..j] + [r[j]] + r[j + 1..];
    assert r[..j][i] == r[i] && r[i] in multiset(r[..j]);
  }

  // Distinct keys, sorted by sort.Strings, are the one strictly sorted listing.
  lemma SortedListing(s: set<string>, keys: seq<string>, r: seq<string>)
    requires multiset(keys) == multiset(s)
    requires multiset(r) == multiset(keys) && Ordered(r)
    ensures r == SortedKeys(Utf8, s)
  {
    forall i, j | 0 <= i < j < |r| ensures Less(Utf8, r[i], r[j]) {
      LessTrichotomy(Utf8, r[i], r[j]);
      assert r[i] != r[j] by {
        if r[i] == r[j] { RepeatedCount(r, i, j); }
      }
    }
    forall k ensures k in r <==> k in SortedKeys(Utf8, s) {
      assert k in r <==> k in multiset(r);
      assert k in s <==> k in multiset(s);
    }
    SortedUnique(Utf8, r, SortedKeys(Utf8, s));
  }

  // The keys of a Go map, in any order, then sorted.
  method MapKeysSorted(typed: map<string, Json>) returns (sorted: seq<string>)
    ensures sorted == SortedKeys(Utf8, typed.Keys)
  {
    var keys: seq<string> := [];
    var unvisited := typed.Keys;
    while unvisited != {}
      invariant unvisited <= typed.Keys
      invariant multiset(keys) + multiset(unvisited) == multiset(typed.Keys)
      decreases |unvisited|
    {
      var key :| key in unvisited;
      keys := keys + [key];
      unvisited := unvisited - {key};
    }
    sorted := SortStrings(keys);
    SortedListing(typed.Keys, keys, sorted);
  }

  // ---- What is still to be written ----

  ghost function ItemsFrom(ds: seq<Doc>, i: nat): string
    requires i <= |ds|
  {
    if i > 0 || |ds| == 0 then WriteItems(GO, ds[i..]) else Write(GO, ds[0]) + WriteItems(GO, ds[1..])
  }

  ghost function MembersFrom(ms: seq<Member>, i: nat): string
    requires i <= |ms|
  {
    if i > 0 || |ms| == 0 then WriteMembers(GO, ms[i..]) else WriteMember(GO, ms[0]) + WriteMembers(GO, ms[1..])
  }

  lemma ItemsFromStep(ds: seq<Doc>, i: nat)
    requires i < |ds|
    ensures ItemsFrom(ds, i) == (if i > 0 then "," else "") + Write(GO, ds[i]) + ItemsFrom(ds, i + 1)
  {
    assert ds[i..][0] == ds[i] && ds[i..][1..] == ds[i + 1..];
    assert "," + GO.gap == ",";
    assert "" + Write(GO, ds[i]) == Write(GO, ds[i]);
  }

  lemma MembersFromStep(ms: seq<Member>, i: nat)
    requires i < |ms|
    ensures MembersFrom(ms, i)
         == (if i > 0 then "," else "") + Quote(GO, ms[i].key) + ":" + Write(GO, ms[i].value) + MembersFrom(ms, i + 1)
  {
    assert ms[i..][0] == ms[i] && ms[i..][1..] == ms[i + 1..];
    assert "," + GO.gap == "," && ":" + GO.gap == ":";
    var q, w, m := Quote(GO, ms[i].key), Write(GO, ms[i].value), MembersFrom(ms, i + 1);
    assert q + ":" + GO.gap + w == q + ":" + w;
    assert WriteMember(GO, ms[i]) == q + ":" + w;
    assert "," + (q + ":" + w) + m == "," + q + ":" + w + m;
    assert "" + q + ":" + w + m == q + ":" + w + m;
  }

  lemma {:induction false} ItemDocsAt(nums: Numbers, items: seq<Json>, i: nat)
    requires i < |items|
    ensures ItemDocs(nums, Utf8, items)[i] == ToDoc(nums, Utf8, items[i])
  {
    if i > 0 { ItemDocsAt(nums, items[1..], i - 1); }
  }

  lemma {:induction false} MemberDocsAt(nums: Numbers, v: Json, ks: seq<string>, i: nat)
    requires v.JObject? && forall k | k in ks :: k in v.fields
    requires i < |ks|
    ensures MemberDocs(nums, Utf8, v, ks)[i] == Member(ks[i], ToDoc(nums, Utf8, v.fields[ks[i]]))
  {
    if i > 0 { MemberDocsAt(nums, v, ks[1..], i - 1); }
  }

  // ---- The gateway's functions ----

  // json.Marshal of what is neither a map nor a slice
  method MarshalScalar(nums: Numbers, value: Json) returns (text: string)
    requires !value.JArray? && !value.JObject?
    ensures text == GoText(nums, value)
  {
    match value
    case JNull => text := "null";
    case JBool(b) => text := if b then "true" else "false";
    case JNumber(n) => text := nums.text(n);
    case JString(s) => text := Quote(GO, s);
  }

  method CanonicalizeJson(nums: Numbers, value: Json) returns (text: string)
    ensures text == GoText(nums, value)
    decreases value, 1
  {
    match value
    case JObject(typed) => text := CanonicalizeObject(nums, typed);
    case JArray(typed) => text := CanonicalizeArray(nums, typed);
    case _ => text := MarshalScalar(nums, value);
  }

  method CanonicalizeArray(nums: Numbers, typed: seq<Json>) returns (buf: string)
    ensures buf == GoText(nums, JArray(typed))
    decreases JArray(typed), 0
  {
    ghost var ds := ItemDocs(nums, Utf8, typed);
    buf := "[";
    for i := 0 to |typed|
      invariant Write(GO, Array(ds)) == buf + ItemsFrom(ds, i)
    {
      if i > 0 {
        buf := buf + ",";
      }
      var itemJson := CanonicalizeJson(nums, typed[i]);
      ItemDocsAt(nums, typed, i);
      ItemsFromStep(ds, i);
      buf := buf + itemJson;
    }
    buf := buf + "]";
  }

  method CanonicalizeObject(nums: Numbers, typed: map<string, Json>) returns (buf: string)
    ensures buf == GoText(nums, JObject(typed))
    decreases JObject(typed), 0
  {
    var sorted := MapKeysSorted(typed);
    ghost var ms := MemberDocs(nums, Utf8, JObject(typed), sorted);
    ghost var whole := GoText(nums, JObject(typed));
    MembersEnds(ms);
    buf := "{";
    for i := 0 to |sorted|
      invariant whole == buf + MembersFrom(ms, i)
    {
      ghost var before := buf;
      if i > 0 {
        buf := buf + ",";
      }
      var valueJson := CanonicalizeJson(nums, typed[sorted[i]]);
      var keyJson := Quote(GO, sorted[i]);
      buf := buf + keyJson;
      buf := buf + ":";
      buf := buf + valueJson;
      MemberWritten(nums, typed, sorted, ms, i, before);
    }
    buf := buf + "}";
  }

  lemma MembersEnds(ms: seq<Member>)
    ensures Write(GO, Object(ms)) == "{" + MembersFrom(ms, 0)
    ensures MembersFrom(ms, |ms|) == "}"
  {
    assert ms[0..] == ms;
    if |ms| > 0 {
      var m, t := WriteMember(GO, ms[0]), WriteMembers(GO, ms[1..]);
      assert "{" + m + t == "{" + (m + t);
    }
  }

  // What one turn of the loop appends is what was to be written next.
  lemma MemberWritten(
    nums: Numbers, typed: map<string, Json>, sorted: seq<string>, ms: seq<Member>, i: nat, before: string)
    requires (forall k | k in sorted :: k in typed) && ms == MemberDocs(nums, Utf8, JObject(typed), sorted)
    requires i < |sorted|
    ensures before + MembersFrom(ms, i)
         == (if i > 0 then before + "," else before) + Quote(GO, sorted[i]) + ":" + GoText(nums, typed[sorted[i]])
            + MembersFrom(ms, i + 1)
  {
    MemberDocsAt(nums, JObject(typed), sorted, i);
    MembersFromStep(ms, i);
    var comma := if i > 0 then "," else "";
    Appended(before, comma, Quote(GO, sorted[i]), GoText(nums, typed[sorted[i]]), MembersFrom(ms, i + 1));
  }

  lemma Appended(b: string, sep: string, q: string, w: string, m: string)
    ensures b + (sep + q + ":" + w + m) == b + sep + q + ":" + w + m
    ensures sep == "" ==> b + sep == b
  {
  }

  // canonicalCredential: a copy without "proof", canonicalized
  method CanonicalCredential(nums: Numbers, credential: map<string, Json>) returns (text: string)
    ensures text == GoText(nums, JObject(WithoutProof(credential)))
  {
    var withoutProof: map<string, Json> := map[];
    var unvisited := credential.Keys;
    while unvisited != {}
      invariant unvisited <= credential.Keys
      invariant withoutProof == map k | k in credential && k !in unvisited && k != "proof" :: credential[k]
      decreases |unvisited|
    {
      var key :| key in unvisited;
      if key != "proof" {
        withoutProof := withoutProof[key := credential[key]];
      }
      unvisited := unvisited - {key};
    }
    assert withoutProof == WithoutProof(credential);
    text := CanonicalizeJson(nums, JObject(withoutProof));
  }
}
