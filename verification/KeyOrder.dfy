// Sorting object keys. A set of keys has one strictly sorted listing, whatever
// order a map or an object yields them in.
module KeyOrder {
  import opened Utf

  predicate Sorted(e: Encoding, ks: seq<string>) {
    forall i, j | 0 <= i < j < |ks| :: Less(e, ks[i], ks[j])
  }

  ghost predicate IsFirst(e: Encoding, k: string, s: set<string>) {
    k in s && forall j | j in s :: j == k || Less(e, k, j)
  }

  lemma {:induction false} FirstExists(e: Encoding, s: set<string>)
    requires s != {}
    ensures exists k :: IsFirst(e, k, s)
    decreases |s|
  {
    var x :| x in s;
    if s == {x} {
      assert IsFirst(e, x, s);
    } else {
      assert s - {x} != {};
      FirstExists(e, s - {x});
      var k :| IsFirst(e, k, s - {x});
      LessTrichotomy(e, k, x);
      if Less(e, k, x) {
        assert IsFirst(e, k, s);
      } else {
        forall j | j in s ensures j == x || Less(e, x, j) {
          if j != x && j != k {
            LessTransitive(e, x, k, j);
          }
        }
        assert IsFirst(e, x, s);
      }
    }
  }

  ghost function First(e: Encoding, s: set<string>): (k: string)
    requires s != {}
    ensures IsFirst(e, k, s)
  {
    FirstExists(e, s);
    var k :| IsFirst(e, k, s);
    k
  }

  ghost function SortedKeys(e: Encoding, s: set<string>): (ks: seq<string>)
    ensures forall k :: k in ks <==> k in s
    ensures Sorted(e, ks)
    decreases |s|
  {
    if s == {} then
      []
    else
      var k := First(e, s);
      [k] + SortedKeys(e, s - {k})
  }

  // Strictly sorted listings of the same keys are equal.
  lemma {:induction false} SortedUnique(e: Encoding, a: seq<string>, b: seq<string>)
    requires Sorted(e, a) && Sorted(e, b)
    requires forall k :: k in a <==> k in b
    ensures a == b
  {
    assert (|a| > 0 ==> a[0] in b) && (|b| > 0 ==> b[0] in a);
    if |a| > 0 {
      SortedHead(e, a, b);
      SortedHead(e, b, a);
      LessTrichotomy(e, a[0], b[0]);
      TailKeys(e, a);
      TailKeys(e, b);
      SortedUnique(e, a[1..], b[1..]);
      assert a == [a[0]] + a[1..] && b == [b[0]] + b[1..];
    }
  }

  lemma TailKeys(e: Encoding, a: seq<string>)
    requires Sorted(e, a) && |a| > 0
    ensures forall k :: k in a[1..] <==> k in a && k != a[0]
  {
    LessTrichotomy(e, a[0], a[0]);
    assert a == [a[0]] + a[1..];
    assert forall i | 0 <= i < |a[1..]| :: a[1..][i] == a[i + 1] && Less(e, a[0], a[i + 1]);
  }

  lemma SortedHead(e: Encoding, a: seq<string>, b: seq<string>)
    requires Sorted(e, a) && |a| > 0 && |b| > 0
    requires forall k :: k in b ==> k in a
    ensures a[0] == b[0] || Less(e, a[0], b[0])
  {
    assert b[0] in a;
    var i :| 0 <= i < |a| && a[i] == b[0];
  }

  // The two sorts list a set of keys alike exactly when no two keys straddle.
  predicate SortsAlike(s: set<string>) {
    forall a, b | a in s && b in s :: !Straddles(a, b)
  }

  lemma SortedKeysAgreeIff(s: set<string>)
    ensures SortedKeys(Utf8, s) == SortedKeys(Utf16, s) <==> SortsAlike(s)
  {
    var p, q := SortedKeys(Utf8, s), SortedKeys(Utf16, s);
    if SortsAlike(s) {
      forall i, j | 0 <= i < j < |p| ensures Less(Utf16, p[i], p[j]) {
        assert p[i] in s && p[j] in s;
        OrdersAgreeIff(p[i], p[j]);
      }
      SortedUnique(Utf16, p, q);
    }
    if p == q {
      forall a, b | a in s && b in s ensures !Straddles(a, b) {
        SameOrder(p, a, b);
        OrdersAgreeIff(a, b);
      }
    }
  }

  lemma SameOrder(p: seq<string>, a: string, b: string)
    requires Sorted(Utf8, p) && Sorted(Utf16, p)
    requires a in p && b in p
    ensures Less(Utf8, a, b) <==> Less(Utf16, a, b)
  {
    var i :| 0 <= i < |p| && p[i] == a;
    var j :| 0 <= j < |p| && p[j] == b;
    LessTrichotomy(Utf8, a, b);
    LessTrichotomy(Utf16, a, b);
    if i < j {
      assert Less(Utf8, p[i], p[j]) && Less(Utf16, p[i], p[j]);
    } else if j < i {
      assert Less(Utf8, p[j], p[i]) && Less(Utf16, p[j], p[i]);
    }
  }
}
