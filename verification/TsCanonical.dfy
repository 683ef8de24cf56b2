// canonicalize as the toolkit runs it on a JavaScript value. A JavaScript value
// is a document here: its properties have an insertion order, which the
// canonical text must not show.
module TsCanonical {
  import opened Wrappers
  import opened Utf
  import opened KeyOrder
  import opened JsonText
  import opened JsonValue
  import opened Canonical

  function Keys(members: seq<Member>): (ks: seq<string>)
    ensures |ks| == |members|
  {
    if |members| == 0 then [] else [members[0].key] + Keys(members[1..])
  }

  predicate Distinct(ks: seq<string>) {
    |ks| == 0 || (ks[0] !in ks[1..] && Distinct(ks[1..]))
  }

  // A property read by name.
  function Property(members: seq<Member>, key: string): (d: Doc)
    requires key in Keys(members)
    ensures exists i | 0 <= i < |members| :: members[i].key == key && members[i].value == d
  {
    if members[0].key == key then
      members[0].value
    else
      var d := Property(members[1..], key);
      assert exists i | 0 <= i < |members[1..]| :: members[1..][i].key == key && members[1..][i].value == d;
      d
  }

  // Array.prototype.sort with the default comparison
  function InsertKey(k: string, ks: seq<string>): seq<string> {
    if |ks| == 0 || Less(Utf16, k, ks[0]) then [k] + ks else [ks[0]] + InsertKey(k, ks[1..])
  }

  function SortKeys(ks: seq<string>): seq<string> {
    if |ks| == 0 then [] else InsertKey(ks[0], SortKeys(ks[1..]))
  }

  // Array.prototype.join(',')
  function Join(parts: seq<string>): string {
    if |parts| == 0 then "" else if |parts| == 1 then parts[0] else parts[0] + "," + Join(parts[1..])
  }

  lemma {:induction false} InsertKeyElements(k: string, ks: seq<string>)
    ensures forall x :: x in InsertKey(k, ks) <==> x == k || x in ks
  {
    if |ks| > 0 && !Less(Utf16, k, ks[0]) {
      InsertKeyElements(k, ks[1..]);
      assert ks == [ks[0]] + ks[1..];
    }
  }

  lemma {:induction false} SortKeysElements(ks: seq<string>)
    ensures forall x :: x in SortKeys(ks) <==> x in ks
  {
    if |ks| > 0 {
      SortKeysElements(ks[1..]);
      InsertKeyElements(ks[0], SortKeys(ks[1..]));
      assert ks == [ks[0]] + ks[1..];
    }
  }

  function Canonicalize(obj: Doc): string
    decreases obj, 1, 0
  {
    match obj
    case Array(items) => "[" + Join(CanonicalItems(items)) + "]"
    case Object(members) =>
      SortKeysElements(Keys(members));
      "{" + Join(CanonicalPairs(obj, SortKeys(Keys(members)))) + "}"
    case _ => Write(JS, obj)  // JSON.stringify
  }

  function CanonicalItems(items: seq<Doc>): (parts: seq<string>)
    decreases items, 0, 0
  {
    if |items| == 0 then [] else [Canonicalize(items[0])] + CanonicalItems(items[1..])
  }

  function CanonicalPairs(obj: Doc, sortedKeys: seq<string>): (parts: seq<string>)
    requires obj.Object? && forall k | k in sortedKeys :: k in Keys(obj.members)
    decreases obj, 0, |sortedKeys|
  {
    if |sortedKeys| == 0 then
      []
    else
      var value := Property(obj.members, sortedKeys[0]);
      [Quote(JS, sortedKeys[0]) + ":" + Canonicalize(value)] + CanonicalPairs(obj, sortedKeys[1..])
  }

  // ---- Sorting distinct keys gives their one sorted listing ----

  lemma {:induction false} InsertKeySorted(k: string, ks: seq<string>)
    requires Sorted(Utf16, ks) && k !in ks
    ensures Sorted(Utf16, InsertKey(k, ks))
  {
    if |ks| == 0 {
    } else if Less(Utf16, k, ks[0]) {
      forall i | 0 <= i < |ks| ensures Less(Utf16, k, ks[i]) {
        if i > 0 { LessTransitive(Utf16, k, ks[0], ks[i]); }
      }
    } else {
      LessTrichotomy(Utf16, k, ks[0]);
      var rest := InsertKey(k, ks[1..]);
      InsertKeySorted(k, ks[1..]);
      InsertKeyElements(k, ks[1..]);
      forall i | 0 <= i < |rest| ensures Less(Utf16, ks[0], rest[i]) {
        if rest[i] != k {
          assert rest[i] in ks[1..];
        }
      }
    }
  }

  lemma {:induction false} SortKeysSorted(ks: seq<string>)
    requires Distinct(ks)
    ensures Sorted(Utf16, SortKeys(ks))
  {
    if |ks| > 0 {
      SortKeysSorted(ks[1..]);
      SortKeysElements(ks[1..]);
      InsertKeySorted(ks[0], SortKeys(ks[1..]));
    }
  }

  lemma SortKeysIsListing(ks: seq<string>, s: set<string>)
    requires Distinct(ks) && forall k :: k in ks <==> k in s
    ensures SortKeys(ks) == SortedKeys(Utf16, s)
  {
    SortKeysSorted(ks);
    SortKeysElements(ks);
    SortedUnique(Utf16, SortKeys(ks), SortedKeys(Utf16, s));
  }

  // ---- JavaScript values ----

  // Property names are distinct and every number prints canonically.
  predicate IsJsValue(nums: Numbers, d: Doc)
    decreases d, 1
  {
    match d
    case Number(lit) => nums.read(lit).Some? && nums.text(nums.read(lit).value) == lit
    case Array(items) => AreJsItems(nums, items)
    case Object(members) => Distinct(Keys(members)) && AreJsMembers(nums, members)
    case _ => true
  }

  predicate AreJsItems(nums: Numbers, items: seq<Doc>)
    decreases items, 0
  {
    |items| == 0 || (IsJsValue(nums, items[0]) && AreJsItems(nums, items[1..]))
  }

  predicate AreJsMembers(nums: Numbers, members: seq<Member>)
    decreases members, 0
  {
    |members| == 0 || (IsJsValue(nums, members[0].value) && AreJsMembers(nums, members[1..]))
  }

  // ---- canonicalize computes the specified text, whatever the insertion order ----

  lemma {:induction false} CanonicalizeIsTsText(nums: Numbers, d: Doc)
    requires nums.Lawful() && IsJsValue(nums, d)
    ensures ToValue(nums, d).Some?
    ensures Canonicalize(d) == TsText(nums, ToValue(nums, d).value)
    decreases d, 2, 0
  {
    match d
    case Array(items) => CanonicalizeArray(nums, items);
    case Object(members) => CanonicalizeObject(nums, members);
    case _ =>
  }

  lemma {:induction false} CanonicalizeArray(nums: Numbers, items: seq<Doc>)
    requires nums.Lawful() && AreJsItems(nums, items)
    ensures ItemValues(nums, items).Some?
    ensures Canonicalize(Array(items)) == TsText(nums, JArray(ItemValues(nums, items).value))
    decreases Array(items), 1, 0
  {
    ItemsCanonical(nums, items);
    JoinItems(ItemDocs(nums, Utf16, ItemValues(nums, items).value));
  }

  lemma {:induction false} CanonicalizeObject(nums: Numbers, members: seq<Member>)
    requires nums.Lawful() && AreJsMembers(nums, members) && Distinct(Keys(members))
    ensures MemberValues(nums, members).Some?
    ensures Canonicalize(Object(members)) == TsText(nums, JObject(MemberValues(nums, members).value))
    decreases Object(members), 1, 0
  {
    MembersHaveValues(nums, members);
    var m := MemberValues(nums, members).value;
    SortKeysIsListing(Keys(members), m.Keys);
    var ks := SortedKeys(Utf16, m.Keys);
    SortKeysElements(Keys(members));
    PairsCanonical(nums, Object(members), ks);
    JoinMembers(MemberDocs(nums, Utf16, JObject(m), ks));
  }

  ghost function ItemTexts(ds: seq<Doc>): seq<string> {
    if |ds| == 0 then [] else [Write(JS, ds[0])] + ItemTexts(ds[1..])
  }

  ghost function MemberTexts(ms: seq<Member>): seq<string> {
    if |ms| == 0 then [] else [WriteMember(JS, ms[0])] + MemberTexts(ms[1..])
  }

  lemma {:induction false} ItemsCanonical(nums: Numbers, items: seq<Doc>)
    requires nums.Lawful() && AreJsItems(nums, items)
    ensures ItemValues(nums, items).Some?
    ensures CanonicalItems(items) == ItemTexts(ItemDocs(nums, Utf16, ItemValues(nums, items).value))
    decreases items, 0, 0
  {
    if |items| > 0 {
      CanonicalizeIsTsText(nums, items[0]);
      ItemsCanonical(nums, items[1..]);
    }
  }

  lemma {:induction false} MembersHaveValues(nums: Numbers, members: seq<Member>)
    requires nums.Lawful() && AreJsMembers(nums, members) && Distinct(Keys(members))
    ensures MemberValues(nums, members).Some?
    ensures var m := MemberValues(nums, members).value;
            && (forall k :: k in m <==> k in Keys(members))
            && (forall k | k in m ::
                  IsJsValue(nums, Property(members, k)) && ToValue(nums, Property(members, k)) == Some(m[k]))
    decreases members, 0, 0
  {
    if |members| > 0 {
      CanonicalizeIsTsText(nums, members[0].value);
      MembersHaveValues(nums, members[1..]);
      assert Keys(members) == [members[0].key] + Keys(members[1..]);
    }
  }

  lemma {:induction false} PairsCanonical(nums: Numbers, obj: Doc, ks: seq<string>)
    requires nums.Lawful() && IsJsValue(nums, obj) && obj.Object?
    requires MemberValues(nums, obj.members).Some?
    requires var m := MemberValues(nums, obj.members).value;
             (forall k | k in ks :: k in m && k in Keys(obj.members)
                && IsJsValue(nums, Property(obj.members, k))
                && ToValue(nums, Property(obj.members, k)) == Some(m[k]))
    ensures var m := MemberValues(nums, obj.members).value;
            CanonicalPairs(obj, ks) == MemberTexts(MemberDocs(nums, Utf16, JObject(m), ks))
    decreases obj, 0, |ks|
  {
    if |ks| > 0 {
      CanonicalizeIsTsText(nums, Property(obj.members, ks[0]));
      PairsCanonical(nums, obj, ks[1..]);
      var q, w := Quote(JS, ks[0]), Canonicalize(Property(obj.members, ks[0]));
      assert q + ":" + JS.gap + w == q + ":" + w;
    }
  }

  // Moving the comma from the join to the tail that the specification writes.
  lemma Regroup(first: string, joined: string, close: string, second: string, tail: string)
    requires joined + close == second + tail
    ensures first + "," + joined + close == first + ("," + JS.gap + second + tail)
  {
    assert first + "," + joined + close == first + "," + (joined + close);
    assert "," + JS.gap + second + tail == "," + (second + tail);
  }

  lemma JoinItems(ds: seq<Doc>)
    ensures "[" + Join(ItemTexts(ds)) + "]" == Write(JS, Array(ds))
  {
    if |ds| > 0 {
      JoinItemsTail(ds);
      var w, t := Write(JS, ds[0]), WriteItems(JS, ds[1..]);
      assert "[" + w + t == "[" + (w + t);
      assert "[" + Join(ItemTexts(ds)) + "]" == "[" + (Join(ItemTexts(ds)) + "]");
    }
  }

  lemma {:induction false} JoinItemsTail(ds: seq<Doc>)
    requires |ds| > 0
    ensures Join(ItemTexts(ds)) + "]" == Write(JS, ds[0]) + WriteItems(JS, ds[1..])
  {
    if |ds| > 1 {
      JoinItemsTail(ds[1..]);
      assert ItemTexts(ds)[1..] == ItemTexts(ds[1..]);
      Regroup(Write(JS, ds[0]), Join(ItemTexts(ds[1..])), "]", Write(JS, ds[1]), WriteItems(JS, ds[1..][1..]));
    }
  }

  lemma JoinMembers(ms: seq<Member>)
    ensures "{" + Join(MemberTexts(ms)) + "}" == Write(JS, Object(ms))
  {
    if |ms| > 0 {
      JoinMembersTail(ms);
      var w, t := WriteMember(JS, ms[0]), WriteMembers(JS, ms[1..]);
      assert "{" + w + t == "{" + (w + t);
      assert "{" + Join(MemberTexts(ms)) + "}" == "{" + (Join(MemberTexts(ms)) + "}");
    }
  }

  lemma {:induction false} JoinMembersTail(ms: seq<Member>)
    requires |ms| > 0
    ensures Join(MemberTexts(ms)) + "}" == WriteMember(JS, ms[0]) + WriteMembers(JS, ms[1..])
  {
    if |ms| > 1 {
      JoinMembersTail(ms[1..]);
      assert MemberTexts(ms)[1..] == MemberTexts(ms[1..]);
      Regroup(WriteMember(JS, ms[0]), Join(MemberTexts(ms[1..])), "}",
              WriteMember(JS, ms[1]), WriteMembers(JS, ms[1..][1..]));
    }
  }
}
