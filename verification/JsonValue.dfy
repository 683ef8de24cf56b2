// JSON as a value: what the gateway holds after decoding (map[string]any and
// float64), and how values and documents correspond.
module JsonValue {
  import opened Wrappers
  import opened Utf
  import opened KeyOrder
  import opened JsonText

  // A decoded number, named by its float64 bit pattern.
  type Float64 = nat

  // Both languages print a float64 by the same shortest-text rule; the model
  // keeps only that the text is a JSON number and that reading it gives the
  // number back, hence that the rule is injective.
  datatype Numbers = Numbers(text: Float64 -> string, read: string -> Option<Float64>) {
    ghost predicate Lawful() {
      forall n: Float64 :: IsNumberLiteral(text(n)) && read(text(n)) == Some(n)
    }
  }

  datatype Json =
    | JNull
    | JBool(b: bool)
    | JNumber(n: Float64)
    | JString(s: string)
    | JArray(items: seq<Json>)
    | JObject(fields: map<string, Json>)

  // ---- Value to document, keys sorted ----

  ghost function ToDoc(nums: Numbers, e: Encoding, v: Json): Doc
    decreases v, 1, 0
  {
    match v
    case JNull => Null
    case JBool(b) => Bool(b)
    case JNumber(n) => Number(nums.text(n))
    case JString(s) => Text(s)
    case JArray(items) => Array(ItemDocs(nums, e, items))
    case JObject(fields) => Object(MemberDocs(nums, e, v, SortedKeys(e, fields.Keys)))
  }

  ghost function ItemDocs(nums: Numbers, e: Encoding, items: seq<Json>): (ds: seq<Doc>)
    ensures |ds| == |items|
    decreases items, 0, 0
  {
    if |items| == 0 then [] else [ToDoc(nums, e, items[0])] + ItemDocs(nums, e, items[1..])
  }

  // The members of object `v` named by `ks`, in that order.
  ghost function MemberDocs(nums: Numbers, e: Encoding, v: Json, ks: seq<string>): (ms: seq<Member>)
    requires v.JObject? && forall k | k in ks :: k in v.fields
    ensures |ms| == |ks|
    decreases v, 0, |ks|
  {
    if |ks| == 0 then []
    else [Member(ks[0], ToDoc(nums, e, v.fields[ks[0]]))] + MemberDocs(nums, e, v, ks[1..])
  }

  // ---- Document to value ----

  // A repeated key keeps its last value, as encoding/json and JSON.parse do.
  function ToValue(nums: Numbers, d: Doc): Option<Json>
    decreases d, 1
  {
    match d
    case Null => Some(JNull)
    case Bool(b) => Some(JBool(b))
    case Number(lit) => (var n :- nums.read(lit); Some(JNumber(n)))
    case Text(s) => Some(JString(s))
    case Array(items) => (var vs :- ItemValues(nums, items); Some(JArray(vs)))
    case Object(members) => (var m :- MemberValues(nums, members); Some(JObject(m)))
  }

  function ItemValues(nums: Numbers, items: seq<Doc>): Option<seq<Json>>
    decreases items, 0
  {
    if |items| == 0 then
      Some([])
    else
      var v :- ToValue(nums, items[0]);
      var vs :- ItemValues(nums, items[1..]);
      Some([v] + vs)
  }

  function MemberValues(nums: Numbers, members: seq<Member>): Option<map<string, Json>>
    decreases members, 0
  {
    if |members| == 0 then
      Some(map[])
    else
      var v :- ToValue(nums, members[0].value);
      var rest :- MemberValues(nums, members[1..]);
      Some(if members[0].key in rest then rest else rest[members[0].key := v])
  }

  // json.Unmarshal into `any`, JSON.parse.
  function Decode(nums: Numbers, s: string): Option<Json> {
    var d :- ReadAll(s);
    ToValue(nums, d)
  }

  // ---- Round trip ----

  lemma {:induction false} ToDocWellFormed(nums: Numbers, e: Encoding, v: Json)
    requires nums.Lawful()
    ensures WellFormed(ToDoc(nums, e, v))
    decreases v, 1, 0
  {
    match v
    case JArray(items) => ItemDocsWellFormed(nums, e, items);
    case JObject(fields) => MemberDocsWellFormed(nums, e, v, SortedKeys(e, fields.Keys));
    case _ =>
  }

  lemma {:induction false} ItemDocsWellFormed(nums: Numbers, e: Encoding, items: seq<Json>)
    requires nums.Lawful()
    ensures ItemsWellFormed(ItemDocs(nums, e, items))
    decreases items, 0, 0
  {
    if |items| > 0 {
      ToDocWellFormed(nums, e, items[0]);
      ItemDocsWellFormed(nums, e, items[1..]);
    }
  }

  lemma {:induction false} MemberDocsWellFormed(nums: Numbers, e: Encoding, v: Json, ks: seq<string>)
    requires nums.Lawful()
    requires v.JObject? && forall k | k in ks :: k in v.fields
    ensures MembersWellFormed(MemberDocs(nums, e, v, ks))
    decreases v, 0, |ks|
  {
    if |ks| > 0 {
      ToDocWellFormed(nums, e, v.fields[ks[0]]);
      MemberDocsWellFormed(nums, e, v, ks[1..]);
    }
  }

  lemma {:induction false} ToValueToDoc(nums: Numbers, e: Encoding, v: Json)
    requires nums.Lawful()
    ensures ToValue(nums, ToDoc(nums, e, v)) == Some(v)
    decreases v, 2, 0
  {
    match v
    case JArray(items) => ItemValuesItemDocs(nums, e, items);
    case JObject(fields) => ToValueToObject(nums, e, fields);
    case _ =>
  }

  lemma {:induction false} ToValueToObject(nums: Numbers, e: Encoding, fields: map<string, Json>)
    requires nums.Lawful()
    ensures ToValue(nums, ToDoc(nums, e, JObject(fields))) == Some(JObject(fields))
    decreases JObject(fields), 1, 0
  {
    var ks := SortedKeys(e, fields.Keys);
    MemberValuesMemberDocs(nums, e, JObject(fields), ks);
    assert (map k | k in ks :: fields[k]) == fields;
  }

  lemma {:induction false} ItemValuesItemDocs(nums: Numbers, e: Encoding, items: seq<Json>)
    requires nums.Lawful()
    ensures ItemValues(nums, ItemDocs(nums, e, items)) == Some(items)
    decreases items, 0, 0
  {
    if |items| > 0 {
      ToValueToDoc(nums, e, items[0]);
      ItemValuesItemDocs(nums, e, items[1..]);
      assert items == [items[0]] + items[1..];
    }
  }

  lemma {:induction false} MemberValuesMemberDocs(nums: Numbers, e: Encoding, v: Json, ks: seq<string>)
    requires nums.Lawful()
    requires v.JObject? && forall k | k in ks :: k in v.fields
    ensures MemberValues(nums, MemberDocs(nums, e, v, ks)) == Some(map k | k in ks :: v.fields[k])
    decreases v, 0, |ks|
  {
    if |ks| > 0 {
      ToValueToDoc(nums, e, v.fields[ks[0]]);
      MemberValuesMemberDocs(nums, e, v, ks[1..]);
      var rest := map k | k in ks[1..] :: v.fields[k];
      assert ks == [ks[0]] + ks[1..];
      assert (if ks[0] in rest then rest else rest[ks[0] := v.fields[ks[0]]]) == map k | k in ks :: v.fields[k];
    }
  }
}
