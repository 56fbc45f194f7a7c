/** `collections.Counter` built from a list of strings, and its
    `most_common(n)`. */
module Tally {

  /** The items of a Counter: (key, count) pairs in the dictionary's insertion
      order, which is the order in which keys were first counted. */
  type Table = seq<(string, nat)>

  function Keys(t: Table): seq<string> {
    seq(|t|, i requires 0 <= i < |t| => t[i].0)
  }

  predicate DistinctKeys(t: Table) {
    forall i, j :: 0 <= i < j < |t| ==> t[i].0 != t[j].0
  }

  /** One `counter[x] += 1`: an existing key is bumped where it stands, a new
      key is appended with count 1. */
  function Bump(t: Table, x: string): (r: Table)
    ensures |t| <= |r| <= |t| + 1
  {
    if t == [] then [(x, 1)]
    else if t[0].0 == x then [(x, t[0].1 + 1)] + t[1..]
    else [t[0]] + Bump(t[1..], x)
  }

  /** `Counter(items)`: the items counted one at a time, in list order. */
  function Count(items: seq<string>): (r: Table)
    ensures |r| <= |items|
    ensures items != [] ==> r != []
  {
    if items == [] then [] else Bump(Count(items[..|items| - 1]), items[|items| - 1])
  }

  lemma {:induction false} BumpExisting(t: Table, x: string)
    requires DistinctKeys(t) && x in Keys(t)
    ensures |Bump(t, x)| == |t|
    ensures forall i :: 0 <= i < |t| ==> Bump(t, x)[i] == (t[i].0, t[i].1 + if t[i].0 == x then 1 else 0)
  {
    if t[0].0 != x {
      assert Keys(t) == [t[0].0] + Keys(t[1..]);
      BumpExisting(t[1..], x);
    }
  }

  lemma {:induction false} BumpNew(t: Table, x: string)
    requires x !in Keys(t)
    ensures Bump(t, x) == t + [(x, 1)]
  {
    if t != [] {
      assert Keys(t) == [t[0].0] + Keys(t[1..]);
      BumpNew(t[1..], x);
    }
  }

  /** t has one entry per distinct item. */
  predicate KeysAre(t: Table, items: seq<string>) {
    DistinctKeys(t)
    && (forall i :: 0 <= i < |t| ==> t[i].0 in items)
    && (forall k :: 0 <= k < |items| ==> items[k] in Keys(t))
  }

  /** Each entry's count is the number of occurrences of its key. */
  predicate CountsAre(t: Table, items: seq<string>) {
    forall i :: 0 <= i < |t| ==> t[i].1 == multiset(items)[t[i].0]
  }

  /** Keys come in the order of their first occurrence: every occurrence of a
      later key is preceded by an occurrence of each earlier key. */
  predicate FirstSeenOrder(t: Table, items: seq<string>) {
    forall i, j, k :: 0 <= i < j < |t| && 0 <= k < |items| && items[k] == t[j].0 ==> t[i].0 in items[..k]
  }

  lemma CountStepExisting(t: Table, items: seq<string>, y: string)
    requires KeysAre(t, items) && CountsAre(t, items) && FirstSeenOrder(t, items)
    requires y in Keys(t)
    ensures KeysAre(Bump(t, y), items + [y])
    ensures CountsAre(Bump(t, y), items + [y])
    ensures FirstSeenOrder(Bump(t, y), items + [y])
  {
    var t', items' := Bump(t, y), items + [y];
    BumpExisting(t, y);
    assert Keys(t') == Keys(t);
    assert forall k :: 0 <= k < |items| ==> items'[..k] == items[..k];
    assert items'[..|items|] == items;
  }

  lemma CountStepNew(t: Table, items: seq<string>, y: string)
    requires KeysAre(t, items) && CountsAre(t, items)
    requires y !in Keys(t)
    ensures KeysAre(Bump(t, y), items + [y])
    ensures CountsAre(Bump(t, y), items + [y])
  {
    BumpNew(t, y);
    assert Keys(Bump(t, y)) == Keys(t) + [y];
  }

  lemma CountStepNewOrder(t: Table, items: seq<string>, y: string)
    requires KeysAre(t, items) && FirstSeenOrder(t, items)
    requires y !in Keys(t)
    ensures FirstSeenOrder(Bump(t, y), items + [y])
  {
    var t', items' := Bump(t, y), items + [y];
    BumpNew(t, y);
    forall i, j, k | 0 <= i < j < |t'| && 0 <= k < |items'| && items'[k] == t'[j].0
      ensures t'[i].0 in items'[..k]
    {
      if k == |items| {
        assert items'[..k] == items;
        assert t'[i].0 == t[i].0;
      } else {
        assert items'[..k] == items[..k];
      }
    }
  }

  /** The Counter has one entry per distinct item, whose count is the number of
      times the item occurs, with keys in the order of their first
      occurrence. */
  lemma {:induction false} CountSpec(items: seq<string>)
    ensures KeysAre(Count(items), items)
    ensures CountsAre(Count(items), items)
    ensures FirstSeenOrder(Count(items), items)
  {
    if items != [] {
      var n := |items| - 1;
      CountSpec(items[..n]);
      assert items == items[..n] + [items[n]];
      if items[n] in Keys(Count(items[..n])) {
        CountStepExisting(Count(items[..n]), items[..n], items[n]);
      } else {
        CountStepNew(Count(items[..n]), items[..n], items[n]);
        CountStepNewOrder(Count(items[..n]), items[..n], items[n]);
      }
    }
  }

  /** Counts never increase along s. */
  predicate NonIncreasing(s: Table) {
    forall i, j :: 0 <= i < j < |s| ==> s[i].1 >= s[j].1
  }

  /** The entries of s with count c, in the order of s. */
  function WithCount(s: Table, c: nat): Table {
    if s == [] then [] else (if s[0].1 == c then [s[0]] else []) + WithCount(s[1..], c)
  }

  lemma {:induction false} WithCountAppend(a: Table, b: Table, c: nat)
    ensures WithCount(a + b, c) == WithCount(a, c) + WithCount(b, c)
  {
    if a == [] {
      assert a + b == b;
    } else {
      var ab := a + b;
      assert ab[0] == a[0] && ab[1..] == a[1..] + b;
      WithCountAppend(a[1..], b, c);
      var head := if a[0].1 == c then [a[0]] else [];
      assert WithCount(ab, c) == head + WithCount(a[1..] + b, c);
      assert WithCount(a, c) == head + WithCount(a[1..], c);
    }
  }

  /** Puts x in front of the first entry whose count is not larger. */
  function Insert(x: (string, nat), s: Table): (r: Table)
    ensures |r| == |s| + 1
  {
    if s == [] || s[0].1 <= x.1 then [x] + s else [s[0]] + Insert(x, s[1..])
  }

  /** `sorted(items, key=count, reverse=True)`: an insertion sort that keeps
      entries of equal count in their original order. */
  function SortByCount(t: Table): (r: Table)
    ensures |r| == |t|
  {
    if t == [] then [] else Insert(t[0], SortByCount(t[1..]))
  }

  lemma {:induction false} InsertPermutes(x: (string, nat), s: Table)
    ensures multiset(Insert(x, s)) == multiset([x] + s)
  {
    if s != [] && x.1 < s[0].1 {
      InsertPermutes(x, s[1..]);
      assert Insert(x, s) == [s[0]] + Insert(x, s[1..]);
      assert s == [s[0]] + s[1..];
      assert [x] + s == [x] + [s[0]] + s[1..];
    }
  }

  /** Inserting under a bound every entry already respects keeps the bound. */
  lemma {:induction false} InsertBounded(x: (string, nat), s: Table, b: nat)
    requires x.1 <= b
    requires forall i :: 0 <= i < |s| ==> s[i].1 <= b
    ensures forall i :: 0 <= i < |Insert(x, s)| ==> Insert(x, s)[i].1 <= b
  {
    if s != [] && x.1 < s[0].1 {
      InsertBounded(x, s[1..], b);
    }
  }

  lemma {:induction false} InsertSorted(x: (string, nat), s: Table)
    requires NonIncreasing(s)
    ensures NonIncreasing(Insert(x, s))
  {
    if s != [] && x.1 < s[0].1 {
      var r := Insert(x, s[1..]);
      InsertSorted(x, s[1..]);
      InsertBounded(x, s[1..], s[0].1);
      var res := [s[0]] + r;
      assert Insert(x, s) == res;
      forall i, j | 0 <= i < j < |res| ensures res[i].1 >= res[j].1 {
        if i > 0 {
          assert res[i] == r[i - 1] && res[j] == r[j - 1];
        }
      }
    }
  }

  lemma {:induction false} InsertStable(x: (string, nat), s: Table, c: nat)
    ensures WithCount(Insert(x, s), c) == WithCount([x] + s, c)
  {
    if s != [] && x.1 < s[0].1 {
      InsertStable(x, s[1..], c);
      assert ([s[0]] + Insert(x, s[1..]))[1..] == Insert(x, s[1..]);
      assert ([x] + s)[1..] == s;
      assert ([x] + s[1..])[1..] == s[1..];
    }
  }

  /** The sort is a stable sort by descending count: the result is ordered,
      holds the same entries, and keeps the relative order of entries that
      have equal counts. */
  lemma {:induction false} SortSpec(t: Table)
    ensures NonIncreasing(SortByCount(t))
    ensures multiset(SortByCount(t)) == multiset(t)
    ensures forall c :: WithCount(SortByCount(t), c) == WithCount(t, c)
  {
    if t != [] {
      SortSpec(t[1..]);
      InsertSorted(t[0], SortByCount(t[1..]));
      InsertPermutes(t[0], SortByCount(t[1..]));
      assert t == [t[0]] + t[1..];
      forall c ensures WithCount(SortByCount(t), c) == WithCount(t, c) {
        InsertStable(t[0], SortByCount(t[1..]), c);
        assert ([t[0]] + SortByCount(t[1..]))[1..] == SortByCount(t[1..]);
      }
    }
  }

  /** `Counter.most_common(n)`, which is `heapq.nlargest(n, items, key=count)`:
      nothing when n <= 0, otherwise the first n entries of the stable
      descending sort. */
  function MostCommon(t: Table, n: int): (r: Table)
    ensures |r| <= |t| && (n <= 0 ==> r == []) && (n > 0 ==> |r| <= n)
    ensures r == SortByCount(t)[..|r|]
  {
    if n <= 0 then []
    else
      var sorted := SortByCount(t);
      sorted[..if n < |sorted| then n else |sorted|]
  }

  /** most_common(n) returns min(n, |t|) entries (none for n <= 0), highest
      count first, all taken from the table. */
  lemma MostCommonShape(t: Table, n: int)
    ensures |MostCommon(t, n)| == if n <= 0 then 0 else if n < |t| then n else |t|
    ensures NonIncreasing(MostCommon(t, n))
    ensures multiset(MostCommon(t, n)) <= multiset(t)
  {
    SortSpec(t);
    var sorted := SortByCount(t);
    assert |sorted| == |multiset(t)| == |t|;
    var r := MostCommon(t, n);
    assert sorted == r + sorted[|r|..];
  }

  /** One left-out entry at a time; the helper of MostCommonLeavesOutSmaller. */
  lemma LeftOutIsNotLarger(t: Table, n: int, x: (string, nat))
    requires 0 < n && x in t && x !in MostCommon(t, n)
    ensures n == |MostCommon(t, n)| && x.1 <= MostCommon(t, n)[n - 1].1
  {
    SortSpec(t);
    var sorted := SortByCount(t);
    assert |sorted| == |multiset(t)| == |t|;
    var r := MostCommon(t, n);
    assert x in multiset(t);
    assert x in sorted;
    var k :| 0 <= k < |sorted| && sorted[k] == x;
    assert k >= |r|;
    assert r[n - 1] == sorted[n - 1];
  }

  /** For n >= 1, every entry most_common(n) leaves out has a count no larger
      than the last one it returns (and then n entries were returned). */
  lemma MostCommonLeavesOutSmaller(t: Table, n: int)
    requires 0 < n
    ensures forall x :: x in t && x !in MostCommon(t, n) ==>
              n == |MostCommon(t, n)| && x.1 <= MostCommon(t, n)[n - 1].1
  {
    forall x | x in t && x !in MostCommon(t, n)
      ensures n == |MostCommon(t, n)| && x.1 <= MostCommon(t, n)[n - 1].1
    {
      LeftOutIsNotLarger(t, n, x);
    }
  }

  /** Entries of equal count come out of most_common(n) in table order, that
      is, in order of first occurrence. */
  lemma MostCommonKeepsTieOrder(t: Table, n: int, c: nat)
    ensures WithCount(MostCommon(t, n), c) <= WithCount(t, c)
  {
    SortSpec(t);
    var sorted := SortByCount(t);
    var r := MostCommon(t, n);
    assert sorted == r + sorted[|r|..];
    WithCountAppend(r, sorted[|r|..], c);
  }
}
