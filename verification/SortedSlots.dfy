/**
 Sorted sequences of key/data pairs: the flat contents of a B+ tree, and the map they stand for.
 */
module SortedSlots {
  import opened Words

  /** One key/data pair of a node. Data words are only copied, so their width plays no part. */
  datatype Slot = Slot(key: u32, data: nat)

  /** Strictly increasing keys. */
  ghost predicate Sorted(s: seq<Slot>) {
    forall i, j :: 0 <= i < j < |s| ==> s[i].key < s[j].key
  }

  ghost predicate HasKey(s: seq<Slot>, k: u32) {
    exists i :: 0 <= i < |s| && s[i].key == k
  }

  /** Index of the first key that is not below k; the length when every key is below. */
  function LowerBound(ks: seq<u32>, k: u32): (b: nat)
    ensures b <= |ks|
    ensures forall i :: 0 <= i < b ==> ks[i] < k
    ensures b < |ks| ==> k <= ks[b]
  {
    if ks == [] || k <= ks[0] then 0 else
    var rest := LowerBound(ks[1..], k);
    assert forall i :: 1 <= i < |ks| ==> ks[i] == ks[1..][i - 1];
    1 + rest
  }

  /** The bisection of a key array between b and e, whether or not the keys are in order. */
  function Bisect(ks: seq<u32>, k: u32, b: nat, e: nat): (r: nat)
    requires b <= e <= |ks|
    ensures b <= r <= e
    ensures b < r ==> ks[r - 1] < k
    ensures r < e ==> k <= ks[r]
    decreases e - b, 2
  {
    if b == e then b else Halve(ks, k, b, e)
  }

  /** One turn of the loop looks at the middle of the window, */
  function Halve(ks: seq<u32>, k: u32, b: nat, e: nat): (r: nat)
    requires b < e <= |ks|
    ensures b <= r <= e
    ensures b < r ==> ks[r - 1] < k
    ensures r < e ==> k <= ks[r]
    decreases e - b, 1
  {
    Narrow(ks, k, b, (b + e) / 2, e)
  }

  /** and goes on with the part after it, or with the part before it. */
  function Narrow(ks: seq<u32>, k: u32, b: nat, m: nat, e: nat): (r: nat)
    requires b <= m < e <= |ks|
    ensures b <= r <= e
    ensures b < r ==> ks[r - 1] < k
    ensures r < e ==> k <= ks[r]
    decreases e - b, 0
  {
    if k > ks[m] then Bisect(ks, k, m + 1, e) else Bisect(ks, k, b, m)
  }

  lemma BisectStep(ks: seq<u32>, k: u32, b: nat, e: nat)
    requires b < e <= |ks|
    ensures var m := (b + e) / 2;
            Bisect(ks, k, b, e) == if k > ks[m] then Bisect(ks, k, m + 1, e) else Bisect(ks, k, b, m)
  {
    assert Bisect(ks, k, b, e) == Halve(ks, k, b, e);
    assert Halve(ks, k, b, e) == Narrow(ks, k, b, (b + e) / 2, e);
  }

  lemma BisectEnd(ks: seq<u32>, k: u32, b: nat)
    requires b <= |ks|
    ensures Bisect(ks, k, b, b) == b
  {
  }

  function Search(ks: seq<u32>, k: u32): (r: nat)
    ensures r <= |ks|
    ensures 0 < r ==> ks[r - 1] < k
    ensures r < |ks| ==> k <= ks[r]
  {
    Bisect(ks, k, 0, |ks|)
  }

  lemma WindowMiddle<T>(s: seq<T>, c: nat, b: nat, e: nat, d: nat)
    requires c <= b < e <= d <= |s|
    ensures var m := (b + e) / 2;
            (b - c + (e - c)) / 2 == m - c && b <= m < e && s[c..d][m - c] == s[m]
  {
  }

  /** The bisection sees nothing outside its window: it is the same in an array of its own. */
  lemma {:induction false} BisectWithin(ks: seq<u32>, k: u32, c: nat, b: nat, e: nat, d: nat)
    requires c <= b <= e <= d <= |ks|
    ensures Bisect(ks, k, b, e) == c + Bisect(ks[c..d], k, b - c, e - c)
    decreases e - b
  {
    hide Bisect, Halve, Narrow;
    if b < e {
      BisectStep(ks, k, b, e);
      BisectStep(ks[c..d], k, b - c, e - c);
      var m := (b + e) / 2;
      WindowMiddle(ks, c, b, e, d);
      BisectWithin(ks, k, c, m + 1, e, d);
      BisectWithin(ks, k, c, b, m, d);
    } else {
      BisectEnd(ks, k, b);
      BisectEnd(ks[c..d], k, b - c);
    }
  }

  /** So a window is searched as an array of its own. */
  lemma SearchWindow(ks: seq<u32>, k: u32, b: nat, e: nat)
    requires b <= e <= |ks|
    ensures Bisect(ks, k, b, e) == b + Search(ks[b..e], k)
  {
    hide Bisect, Halve, Narrow;
    BisectWithin(ks, k, b, b, e, e);
  }

  /**
   What the search of a key array is, in order or not: it looks at the middle key and goes on in the part behind it when
   that key is below k, and in the part before it otherwise.
   */
  lemma SearchHalves(ks: seq<u32>, k: u32)
    requires ks != []
    ensures var m := |ks| / 2;
            Search(ks, k) == if ks[m] < k then m + 1 + Search(ks[m + 1..], k) else Search(ks[..m], k)
  {
    hide Bisect, Halve, Narrow, Search;
    var m := |ks| / 2;
    assert ks[0..|ks|] == ks;
    SearchWindow(ks, k, 0, |ks|);
    BisectStep(ks, k, 0, |ks|);
    SearchWindow(ks, k, m + 1, |ks|);
    SearchWindow(ks, k, 0, m);
  }

  ghost predicate Increasing(ks: seq<u32>) {
    forall i, j :: 0 <= i < j < |ks| ==> ks[i] < ks[j]
  }

  /** In an increasing key array the bisection finds the lower bound. */
  lemma SearchIncreasing(ks: seq<u32>, k: u32)
    requires Increasing(ks)
    ensures Search(ks, k) == LowerBound(ks, k)
  {
    hide Bisect, Search;
    LowerBoundUnique(ks, k, Search(ks, k));
  }

  /** Where every key before b is below k and none from b on is, the bisection ends at b. */
  lemma SearchUnique(ks: seq<u32>, k: u32, b: nat)
    requires b <= |ks|
    requires forall i :: 0 <= i < b ==> ks[i] < k
    requires forall i :: b <= i < |ks| ==> k <= ks[i]
    ensures Search(ks, k) == b
  {
    hide Bisect, Search;
    var r := Search(ks, k);
  }

  function Keys(s: seq<Slot>): seq<u32> {
    seq(|s|, i requires 0 <= i < |s| => s[i].key)
  }

  function InsertAt<T>(s: seq<T>, j: nat, x: T): (r: seq<T>)
    requires j <= |s|
    ensures |r| == |s| + 1
  {
    s[..j] + [x] + s[j..]
  }

  function RemoveAt<T>(s: seq<T>, j: nat): (r: seq<T>)
    requires j < |s|
    ensures |r| == |s| - 1
  {
    s[..j] + s[j + 1..]
  }

  /** Ordered insert: overwrites the pair with key k, or adds one at its place. */
  function Upsert(s: seq<Slot>, k: u32, v: nat): seq<Slot> {
    var p := LowerBound(Keys(s), k);
    if p < |s| && s[p].key == k then s[p := Slot(k, v)] else InsertAt(s, p, Slot(k, v))
  }

  /** Removes the pair with key k, if there is one. */
  function Delete(s: seq<Slot>, k: u32): seq<Slot> {
    var p := LowerBound(Keys(s), k);
    if p < |s| && s[p].key == k then RemoveAt(s, p) else s
  }

  /** Binary-search lookup in a sorted list. */
  function Lookup(s: seq<Slot>, k: u32): Option<nat> {
    var p := LowerBound(Keys(s), k);
    if p < |s| && s[p].key == k then Some(s[p].data) else None
  }

  /** The map a list of pairs stands for; a later pair wins. */
  function MapOf(s: seq<Slot>): map<u32, nat> {
    if s == [] then map[] else
    var last := s[|s| - 1];
    MapOf(s[..|s| - 1])[last.key := last.data]
  }

  lemma {:induction false} MapOfAt(s: seq<Slot>, i: nat)
    requires Sorted(s) && i < |s|
    ensures s[i].key in MapOf(s) && MapOf(s)[s[i].key] == s[i].data
  {
    if i < |s| - 1 {
      MapOfAt(s[..|s| - 1], i);
    }
  }

  lemma {:induction false} MapOfKey(s: seq<Slot>, k: u32)
    ensures k in MapOf(s) <==> HasKey(s, k)
  {
    if s != [] {
      var front := s[..|s| - 1];
      MapOfKey(front, k);
      if HasKey(s, k) && s[|s| - 1].key != k {
        var i :| 0 <= i < |s| && s[i].key == k;
        assert front[i].key == k;
      }
    }
  }

  lemma LowerBoundUnique(ks: seq<u32>, k: u32, b: nat)
    requires b <= |ks|
    requires forall i :: 0 <= i < b ==> ks[i] < k
    requires b < |ks| ==> k <= ks[b]
    ensures b == LowerBound(ks, k)
  {
  }

  /** Where the part of a list that can hold k begins and ends. */
  ghost predicate Owns(pre: seq<Slot>, mid: seq<Slot>, post: seq<Slot>, k: u32) {
    && (forall i :: 0 <= i < |pre| ==> pre[i].key < k)
    && (post != [] ==> k < post[0].key)
  }

  /** A middle part that owns position k decides the ordered insert and delete of the whole. */
  lemma SplicePosition(pre: seq<Slot>, mid: seq<Slot>, post: seq<Slot>, k: u32)
    requires Owns(pre, mid, post, k)
    ensures LowerBound(Keys(pre + mid + post), k) == |pre| + LowerBound(Keys(mid), k)
  {
    var all := pre + mid + post;
    var b := |pre| + LowerBound(Keys(mid), k);
    forall i | 0 <= i < b
      ensures Keys(all)[i] < k
    {
      if i >= |pre| {
        assert all[i] == mid[i - |pre|];
        assert Keys(mid)[i - |pre|] < k;
      }
    }
    if b < |all| {
      if b < |pre| + |mid| {
        assert all[b] == mid[b - |pre|];
        assert k <= Keys(mid)[b - |pre|];
      } else {
        assert all[b] == post[0];
      }
    }
    LowerBoundUnique(Keys(all), k, b);
  }

  lemma SliceAround<T>(s: seq<T>, b: nat)
    requires b < |s|
    ensures s == s[..b] + ([s[b]] + s[b + 1..])
  {
  }

  lemma PrefixSnoc<T>(s: seq<T>, b: nat)
    requires b < |s|
    ensures s[..b + 1] == s[..b] + [s[b]]
    ensures s == s[..b + 1] + s[b + 1..]
  {
  }

  lemma InsertAtSplice<T>(pre: seq<T>, mid: seq<T>, post: seq<T>, p: nat, x: T)
    requires p <= |mid|
    ensures InsertAt(pre + mid + post, |pre| + p, x) == pre + InsertAt(mid, p, x) + post
  {
    var all := pre + mid + post;
    assert all[..|pre| + p] == pre + mid[..p];
    assert all[|pre| + p..] == mid[p..] + post;
  }

  lemma RemoveAtSplice<T>(pre: seq<T>, mid: seq<T>, post: seq<T>, p: nat)
    requires p < |mid|
    ensures RemoveAt(pre + mid + post, |pre| + p) == pre + RemoveAt(mid, p) + post
  {
    var all := pre + mid + post;
    assert all[..|pre| + p] == pre + mid[..p];
    assert all[|pre| + p + 1..] == mid[p + 1..] + post;
  }

  lemma UpdateSplice<T>(pre: seq<T>, mid: seq<T>, post: seq<T>, p: nat, x: T)
    requires p < |mid|
    ensures (pre + mid + post)[|pre| + p := x] == pre + mid[p := x] + post
  {
  }

  /** Whether k sits at its position is the same question in the whole and in the middle part. */
  lemma SpliceHit(pre: seq<Slot>, mid: seq<Slot>, post: seq<Slot>, k: u32)
    requires Owns(pre, mid, post, k)
    ensures var all, p := pre + mid + post, LowerBound(Keys(mid), k);
            && LowerBound(Keys(all), k) == |pre| + p
            && (p < |mid| ==> all[|pre| + p] == mid[p])
            && (p == |mid| && post != [] ==> k < all[|pre| + p].key)
  {
    SplicePosition(pre, mid, post, k);
    var p := LowerBound(Keys(mid), k);
    assert p == |mid| && post != [] ==> (pre + mid + post)[|pre| + p] == post[0];
  }

  lemma UpsertSplice(pre: seq<Slot>, mid: seq<Slot>, post: seq<Slot>, k: u32, v: nat)
    requires Owns(pre, mid, post, k)
    ensures Upsert(pre + mid + post, k, v) == pre + Upsert(mid, k, v) + post
  {
    hide Owns, LowerBound, InsertAt;
    SpliceHit(pre, mid, post, k);
    var p := LowerBound(Keys(mid), k);
    if p < |mid| && mid[p].key == k {
      UpdateSplice(pre, mid, post, p, Slot(k, v));
    } else {
      InsertAtSplice(pre, mid, post, p, Slot(k, v));
    }
  }

  lemma DeleteSplice(pre: seq<Slot>, mid: seq<Slot>, post: seq<Slot>, k: u32)
    requires Owns(pre, mid, post, k)
    ensures Delete(pre + mid + post, k) == pre + Delete(mid, k) + post
  {
    hide Owns, LowerBound, RemoveAt;
    SpliceHit(pre, mid, post, k);
    var p := LowerBound(Keys(mid), k);
    if p < |mid| && mid[p].key == k {
      RemoveAtSplice(pre, mid, post, p);
    }
  }

  /** Everything in a comes before everything in b. */
  ghost predicate Below(a: seq<Slot>, b: seq<Slot>) {
    forall i, j :: 0 <= i < |a| && 0 <= j < |b| ==> a[i].key < b[j].key
  }

  lemma SortedConcat(a: seq<Slot>, b: seq<Slot>)
    ensures Sorted(a + b) <==> (Sorted(a) && Sorted(b) && Below(a, b))
  {
    var c := a + b;
    if Sorted(c) {
      forall i, j | 0 <= i < j < |a|
        ensures a[i].key < a[j].key
      {
        assert c[i] == a[i] && c[j] == a[j];
      }
      forall i, j | 0 <= i < j < |b|
        ensures b[i].key < b[j].key
      {
        assert c[|a| + i] == b[i] && c[|a| + j] == b[j];
      }
      forall i, j | 0 <= i < |a| && 0 <= j < |b|
        ensures a[i].key < b[j].key
      {
        assert c[i] == a[i] && c[|a| + j] == b[j];
      }
    }
  }

  lemma SortedThree(a: seq<Slot>, b: seq<Slot>, c: seq<Slot>)
    ensures Sorted(a + b + c) <==> (Sorted(a) && Sorted(b) && Sorted(c) && Below(a, b) && Below(a + b, c))
  {
    SortedConcat(a + b, c);
    SortedConcat(a, b);
  }

  /** Splitting a sorted list around the lower bound of k. */
  lemma SplitAtLowerBound(s: seq<Slot>, k: u32)
    requires Sorted(s)
    ensures var p := LowerBound(Keys(s), k);
            (forall i :: 0 <= i < p ==> s[i].key < k) && (forall i :: p <= i < |s| ==> k <= s[i].key)
    ensures var p := LowerBound(Keys(s), k);
            (p < |s| && s[p].key == k ==> forall i :: p < i < |s| ==> k < s[i].key) &&
            (!(p < |s| && s[p].key == k) ==> forall i :: p <= i < |s| ==> k < s[i].key)
    ensures var p := LowerBound(Keys(s), k);
            HasKey(s, k) <==> (p < |s| && s[p].key == k)
  {
    assert forall i :: 0 <= i < |s| ==> Keys(s)[i] == s[i].key;
  }

  /** The bisection of a sorted list of pairs. */
  lemma SearchSorted(s: seq<Slot>, k: u32)
    requires Sorted(s)
    ensures Search(Keys(s), k) == LowerBound(Keys(s), k)
  {
    SearchIncreasing(Keys(s), k);
  }

  /** The map of a list cut in two. */
  lemma {:induction false} MapOfConcat(a: seq<Slot>, b: seq<Slot>)
    ensures MapOf(a + b) == MapOf(a) + MapOf(b)
  {
    if b == [] {
      assert a + b == a;
    } else {
      var front := b[..|b| - 1];
      assert (a + b)[..|a + b| - 1] == a + front;
      MapOfConcat(a, front);
    }
  }

  lemma MapOfSingle(e: Slot)
    ensures MapOf([e]) == map[e.key := e.data]
  {
    assert MapOf([e]) == MapOf([e][..0])[e.key := e.data];
  }

  /** One pair in the middle: when the whole is sorted, and what it adds to the map. */
  lemma AroundOne(lo: seq<Slot>, x: Slot, hi: seq<Slot>)
    requires Sorted(lo + hi) && Below(lo, [x]) && Below([x], hi)
    ensures Sorted(lo + [x] + hi)
    ensures MapOf(lo + [x] + hi) == MapOf(lo + hi)[x.key := x.data]
    ensures x.key !in MapOf(lo + hi)
  {
    AroundOneSorted(lo, x, hi);
    AroundOneMap(lo, x, hi);
  }

  lemma AroundOneSorted(lo: seq<Slot>, x: Slot, hi: seq<Slot>)
    requires Sorted(lo + hi) && Below(lo, [x]) && Below([x], hi)
    ensures Sorted(lo + [x] + hi)
  {
    SortedConcat(lo, hi);
    SortedConcat(lo, [x]);
    SortedConcat(lo + [x], hi);
  }

  lemma AroundOneMap(lo: seq<Slot>, x: Slot, hi: seq<Slot>)
    requires Below(lo, [x]) && Below([x], hi)
    ensures MapOf(lo + [x] + hi) == MapOf(lo + hi)[x.key := x.data]
    ensures x.key !in MapOf(lo + hi)
  {
    NotIn(lo, x);
    NotIn(hi, x);
    hide *;
    MapOfConcat(lo, hi);
    MapOfConcat(lo, [x]);
    MapOfConcat(lo + [x], hi);
    MapOfSingle(x);
  }

  lemma NotIn(s: seq<Slot>, x: Slot)
    requires Below(s, [x]) || Below([x], s)
    ensures x.key !in MapOf(s)
  {
    MapOfKey(s, x.key);
    assert [x][0] == x;
  }

  lemma WithoutOne(lo: seq<Slot>, x: Slot, hi: seq<Slot>)
    requires Sorted(lo + [x] + hi)
    ensures Sorted(lo + hi) && Below(lo, [x]) && Below([x], hi)
  {
    SortedThree(lo, [x], hi);
    SortedConcat(lo, hi);
    assert (lo + [x])[|lo|] == x;
    assert forall i :: 0 <= i < |lo| ==> (lo + [x])[i] == lo[i];
  }

  lemma ReplaceOne(lo: seq<Slot>, x: Slot, hi: seq<Slot>, v: nat)
    requires Sorted(lo + [x] + hi)
    ensures Sorted(lo + [Slot(x.key, v)] + hi)
    ensures MapOf(lo + [Slot(x.key, v)] + hi) == MapOf(lo + [x] + hi)[x.key := v]
  {
    WithoutOne(lo, x, hi);
    AroundOneMap(lo, x, hi);
    assert [x][0] == x;
    AroundOne(lo, Slot(x.key, v), hi);
  }

  lemma CutAt<T>(s: seq<T>, p: nat, x: T)
    requires p < |s|
    ensures s == s[..p] + [s[p]] + s[p + 1..]
    ensures s[p := x] == s[..p] + [x] + s[p + 1..]
  {
  }

  lemma NewBetween(s: seq<Slot>, k: u32, v: nat)
    requires Sorted(s)
    requires var p := LowerBound(Keys(s), k); !(p < |s| && s[p].key == k)
    ensures var p := LowerBound(Keys(s), k); Below(s[..p], [Slot(k, v)]) && Below([Slot(k, v)], s[p..])
  {
    SplitAtLowerBound(s, k);
  }

  lemma UpsertSorted(s: seq<Slot>, k: u32, v: nat)
    requires Sorted(s)
    ensures Sorted(Upsert(s, k, v)) && MapOf(Upsert(s, k, v)) == MapOf(s)[k := v]
  {
    hide Sorted, MapOf, LowerBound, Below;
    var p := LowerBound(Keys(s), k);
    if p < |s| && s[p].key == k {
      CutAt(s, p, Slot(k, v));
      ReplaceOne(s[..p], s[p], s[p + 1..], v);
    } else {
      NewBetween(s, k, v);
      assert s == s[..p] + s[p..];
      AroundOne(s[..p], Slot(k, v), s[p..]);
    }
  }

  lemma MapMinusNew(m: map<u32, nat>, k: u32, v: nat)
    ensures k !in m ==> m[k := v] - {k} == m && m - {k} == m
  {
  }

  lemma DeleteSorted(s: seq<Slot>, k: u32)
    requires Sorted(s)
    ensures Sorted(Delete(s, k)) && MapOf(Delete(s, k)) == MapOf(s) - {k}
  {
    SplitAtLowerBound(s, k);
    MapOfKey(s, k);
    hide Sorted, MapOf, LowerBound, Below, HasKey;
    var p := LowerBound(Keys(s), k);
    if p < |s| && s[p].key == k {
      var lo, hi := s[..p], s[p + 1..];
      CutAt(s, p, s[p]);
      WithoutOne(lo, s[p], hi);
      AroundOneMap(lo, s[p], hi);
      MapMinusNew(MapOf(lo + hi), k, s[p].data);
    } else {
      MapMinusNew(MapOf(s), k, 0);
    }
  }

  lemma LookupSplice(pre: seq<Slot>, mid: seq<Slot>, post: seq<Slot>, k: u32)
    requires Owns(pre, mid, post, k)
    ensures Lookup(pre + mid + post, k) == Lookup(mid, k)
  {
    SplicePosition(pre, mid, post, k);
    var p := LowerBound(Keys(mid), k);
    var all := pre + mid + post;
    if p < |mid| {
      assert all[|pre| + p] == mid[p];
    } else if post != [] {
      assert all[|pre| + p] == post[0];
    }
  }

  lemma LookupMap(s: seq<Slot>, k: u32)
    requires Sorted(s)
    ensures Lookup(s, k) == if k in MapOf(s) then Some(MapOf(s)[k]) else None
  {
    var p := LowerBound(Keys(s), k);
    SplitAtLowerBound(s, k);
    MapOfKey(s, k);
    if p < |s| {
      MapOfAt(s, p);
    }
  }

  lemma LookupBeyond(s: seq<Slot>, k: u32)
    requires Sorted(s) && (s != [] ==> s[|s| - 1].key < k)
    ensures Lookup(s, k) == None
  {
  }

  lemma Regroup<T>(a: seq<T>, b: seq<T>, c: seq<T>, d: seq<T>)
    ensures a + (b + c) + d == a + b + (c + d)
    ensures a + (b + c) + d == a + b + c + d
  {
  }

  /** The middle part cut in two: k belongs to the left half, or to the right half. */
  lemma UpsertLeftHalf(pre: seq<Slot>, l: seq<Slot>, r: seq<Slot>, post: seq<Slot>, k: u32, v: nat)
    requires Owns(pre, l + r, post, k) && r != [] && k < r[0].key
    ensures Upsert(pre + (l + r) + post, k, v) == pre + (Upsert(l, k, v) + r) + post
  {
    UpsertSplice(pre, l, r + post, k, v);
    Regroup(pre, l, r, post);
    Regroup(pre, Upsert(l, k, v), r, post);
  }

  lemma UpsertRightHalf(pre: seq<Slot>, l: seq<Slot>, r: seq<Slot>, post: seq<Slot>, k: u32, v: nat)
    requires Owns(pre, l + r, post, k) && Below(l, r) && r != [] && r[|r| - 1].key < k
    ensures Upsert(pre + (l + r) + post, k, v) == pre + (l + Upsert(r, k, v)) + post
  {
    UpsertSplice(pre + l, r, post, k, v);
    Regroup(pre, l, r, post);
    Regroup(pre, l, Upsert(r, k, v), post);
  }
}
