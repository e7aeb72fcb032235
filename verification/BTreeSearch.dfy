/**
 How the contents of a B+ tree split around the child a key is routed to,
 and the correctness of get, first and last.
 */
module BTreeSearch {
  import opened Words
  import opened SortedSlots
  import opened BTreeModel

  lemma {:induction false} FlatKidsConcat(a: seq<Kid>, b: seq<Kid>)
    ensures FlatKids(a + b) == FlatKids(a) + FlatKids(b)
  {
    if a == [] {
      assert a + b == b;
    } else {
      assert (a + b)[1..] == a[1..] + b;
      FlatKidsConcat(a[1..], b);
    }
  }

  lemma FlatKidsOne(kid: Kid)
    ensures FlatKids([kid]) == Flat(kid.sub)
  {
    assert FlatKids([kid]) == FlatKid(kid) + FlatKids([kid][1..]);
  }

  /** The contents before, in and after child b. */
  lemma FlatAround(kids: seq<Kid>, b: nat)
    requires b < |kids|
    ensures FlatKids(kids) == FlatKids(kids[..b]) + Flat(kids[b].sub) + FlatKids(kids[b + 1..])
  {
    SliceAround(kids, b);
    FlatKidsConcat(kids[..b], [kids[b]] + kids[b + 1..]);
    FlatKidsConcat([kids[b]], kids[b + 1..]);
    FlatKidsOne(kids[b]);
  }

  lemma KidWf(t: Tree, h: nat, i: nat)
    requires Wf(t, h) && t.Inner? && i < |t.kids|
    ensures h > 0 && Wf(t.kids[i].sub, h - 1) && Fits(t.kids[i])
    ensures t.kids[i].sub.Leaf? <==> h == 1
  {
  }

  lemma FlatSnoc(kids: seq<Kid>, b: nat)
    requires b < |kids|
    ensures FlatKids(kids[..b + 1]) == FlatKids(kids[..b]) + Flat(kids[b].sub)
    ensures FlatKids(kids) == FlatKids(kids[..b + 1]) + FlatKids(kids[b + 1..])
  {
    PrefixSnoc(kids, b);
    FlatKidsConcat(kids[..b], [kids[b]]);
    FlatKidsOne(kids[b]);
    FlatKidsConcat(kids[..b + 1], kids[b + 1..]);
  }

  /** The last separator on the right edge is the last key of all. */
  lemma {:induction false} FlatLast(t: Tree, h: nat)
    requires Wf(t, h) && Size(t) > 0
    ensures Flat(t) != [] && Flat(t)[|Flat(t)| - 1].key == LastKey(t)
    decreases h
  {
    match t
    case Leaf(es) =>
    case Inner(kids) =>
      var n := |kids| - 1;
      KidWf(t, h, n);
      FlatLast(kids[n].sub, h - 1);
      FlatSnoc(kids, n);
      assert kids[..n + 1] == kids;
  }

  /** In a well-formed node: the contents up to child b, and their last key. */
  lemma FlatUpTo(t: Tree, h: nat, b: nat)
    requires Wf(t, h) && t.Inner? && b < |t.kids|
    ensures h > 0 && Wf(t.kids[b].sub, h - 1) && Fits(t.kids[b])
    ensures var s := FlatKids(t.kids[..b]) + Flat(t.kids[b].sub);
            && FlatKids(t.kids[..b + 1]) == s && s != [] && s[|s| - 1].key == t.kids[b].sep
            && Flat(t.kids[b].sub) != [] && Flat(t.kids[b].sub)[|Flat(t.kids[b].sub)| - 1].key == t.kids[b].sep
            && Flat(t) == s + FlatKids(t.kids[b + 1..])
  {
    KidWf(t, h, b);
    FlatLast(t.kids[b].sub, h - 1);
    FlatSnoc(t.kids, b);
  }

  ghost function Before(t: Tree, k: u32): seq<Slot>
    requires t.Inner? && t.kids != []
  {
    FlatKids(t.kids[..Route(t.kids, k)])
  }

  ghost function Within(t: Tree, k: u32): seq<Slot>
    requires t.Inner? && t.kids != []
  {
    Flat(t.kids[Route(t.kids, k)].sub)
  }

  ghost function After(t: Tree, k: u32): seq<Slot>
    requires t.Inner? && t.kids != []
  {
    FlatKids(t.kids[Route(t.kids, k) + 1..])
  }

  lemma ShapeOf(t: Tree, h: nat)
    requires Wf(t, h)
    ensures Size(t) <= SIZE && (t.Inner? ==> h > 0 && t.kids != [])
  {
  }

  lemma RouteFlat(t: Tree, h: nat, k: u32)
    requires Wf(t, h) && t.Inner?
    ensures Flat(t) == Before(t, k) + Within(t, k) + After(t, k)
    ensures Within(t, k) != []
    ensures Within(t, k)[|Within(t, k)| - 1].key == t.kids[Route(t.kids, k)].sep
  {
    hide Flat, FlatKids, Wf, Route, Search;
    ShapeOf(t, h);
    FlatUpTo(t, h, Route(t.kids, k));
  }

  /** A key is sent to the only child that can hold it: everything left is below it, everything right above. */
  lemma RouteOwns(t: Tree, h: nat, k: u32)
    requires Valid(t, h) && t.Inner?
    ensures Sorted(Within(t, k))
    ensures Owns(Before(t, k), Within(t, k), After(t, k), k)
    ensures k > t.kids[Route(t.kids, k)].sep ==> After(t, k) == []
  {
    var b := Route(t.kids, k);
    RouteFlat(t, h, k);
    LeftOfRoute(t, h, k);
    SortedThree(Before(t, k), Within(t, k), After(t, k));
    EndsDecide(Before(t, k), Within(t, k), After(t, k), k, t.kids[b].sep);
  }

  lemma LeftOfRoute(t: Tree, h: nat, k: u32)
    requires Valid(t, h) && t.Inner?
    ensures var pre := Before(t, k); pre != [] ==> pre[|pre| - 1].key < k
  {
    var b := Route(t.kids, k);
    if b > 0 {
      LeftSeparator(t, h, k);
      hide Route;
      FlatUpTo(t, h, b - 1);
    }
  }

  lemma LeftSeparator(t: Tree, h: nat, k: u32)
    requires Valid(t, h) && t.Inner? && 0 < Route(t.kids, k)
    ensures t.kids[Route(t.kids, k) - 1].sep < k
  {
    SepsIncrease(t, h, Route(t.kids, k) - 1, Route(t.kids, k));
  }

  lemma EndsDecide(pre: seq<Slot>, mid: seq<Slot>, post: seq<Slot>, k: u32, sep: u32)
    requires Sorted(pre) && (pre != [] ==> pre[|pre| - 1].key < k)
    requires Below(pre + mid, post) && mid != [] && mid[|mid| - 1].key == sep
    requires k > sep ==> post == []
    ensures Owns(pre, mid, post, k)
  {
    assert (pre + mid)[|pre + mid| - 1] == mid[|mid| - 1];
  }

  /** A child of a valid node is valid, and its separator is its last key. */
  lemma KidValid(t: Tree, h: nat, i: nat)
    requires Valid(t, h) && t.Inner? && i < |t.kids|
    ensures h > 0 && Valid(t.kids[i].sub, h - 1) && Fits(t.kids[i])
  {
    KidWf(t, h, i);
    FlatAround(t.kids, i);
    SortedThree(FlatKids(t.kids[..i]), Flat(t.kids[i].sub), FlatKids(t.kids[i + 1..]));
  }

  /** A key above every separator is above every key. */
  lemma BeyondLast(t: Tree, h: nat, k: u32)
    requires Valid(t, h) && Search(NodeKeys(t), k) == Size(t)
    ensures Lookup(Flat(t), k) == None
  {
    if Size(t) > 0 {
      hide Wf, Bisect, Search, Lookup, Flat, LowerBound;
      FlatLast(t, h);
      assert NodeKeys(t)[Size(t) - 1] == LastKey(t);
      LookupBeyond(Flat(t), k);
    } else if t.Leaf? {
      assert Keys(t.es) == [];
    }
  }

  lemma {:induction false} GetFindsFlat(t: Tree, h: nat, k: u32)
    requires Valid(t, h)
    ensures GetT(t, k) == Lookup(Flat(t), k)
    decreases h
  {
    if Search(NodeKeys(t), k) == Size(t) {
      BeyondLast(t, h, k);
    } else if t.Inner? {
      var b := Route(t.kids, k);
      KidWf(t, h, b);
      RouteFlat(t, h, k);
      RouteOwns(t, h, k);
      GetFindsFlat(t.kids[b].sub, h - 1, k);
      LookupSplice(Before(t, k), Within(t, k), After(t, k), k);
    } else {
      SearchSorted(t.es, k);
    }
  }

  /** Get returns the value bound to k, exactly when k is in the map. */
  lemma GetCorrect(t: Tree, h: nat, k: u32)
    requires Valid(t, h)
    ensures GetT(t, k) == if k in MapOf(Flat(t)) then Some(MapOf(Flat(t))[k]) else None
  {
    GetFindsFlat(t, h, k);
    LookupMap(Flat(t), k);
  }

  /**
   In any tree, ordered or not: a get that finds its key finds it below the routed child, the one a set goes to, and it
   looks there whenever that child's separator is not below the key.
   */
  lemma GetFollowsRoute(t: Tree, k: u32)
    requires t.Inner? && t.kids != []
    ensures var kid := t.kids[Route(t.kids, k)];
            GetT(t, k) == if k <= kid.sep then GetT(kid.sub, k) else None
  {
    var b := Search(Seps(t.kids), k);
    assert b < |t.kids| ==> Seps(t.kids)[b] == t.kids[b].sep;
    assert b > 0 ==> Seps(t.kids)[b - 1] == t.kids[b - 1].sep;
    hide Search;
  }

  lemma {:induction false} FirstIsHead(t: Tree, h: nat)
    requires Wf(t, h)
    ensures FirstT(t) == if Flat(t) == [] then None else Some(Flat(t)[0])
    ensures Flat(t) == [] <==> Size(t) == 0
    decreases h
  {
    if t.Inner? {
      KidWf(t, h, 0);
      FirstIsHead(t.kids[0].sub, h - 1);
      assert FlatKids(t.kids) == FlatKid(t.kids[0]) + FlatKids(t.kids[1..]);
    }
  }

  lemma {:induction false} LastIsEnd(t: Tree, h: nat)
    requires Wf(t, h)
    ensures LastT(t) == if Flat(t) == [] then None else Some(Flat(t)[|Flat(t)| - 1])
    decreases h
  {
    if t.Inner? {
      var n := |t.kids| - 1;
      FlatUpTo(t, h, n);
      LastIsEnd(t.kids[n].sub, h - 1);
      FirstIsHead(t.kids[n].sub, h - 1);
      assert t.kids[n + 1..] == [];
    }
  }

  /** First and last return the bindings of the smallest and the largest key of the map. */
  lemma FirstLastCorrect(t: Tree, h: nat)
    requires Valid(t, h)
    ensures var m := MapOf(Flat(t));
            && (FirstT(t).None? <==> m == map[]) && (LastT(t).None? <==> m == map[])
            && (m != map[] ==>
                  var lo, hi := FirstT(t).value, LastT(t).value;
                  && lo.key in m && m[lo.key] == lo.data && hi.key in m && m[hi.key] == hi.data
                  && forall k :: k in m ==> lo.key <= k <= hi.key)
  {
    var s := Flat(t);
    FirstIsHead(t, h);
    LastIsEnd(t, h);
    if s != [] {
      MapOfAt(s, 0);
      MapOfAt(s, |s| - 1);
      forall k | k in MapOf(s)
        ensures s[0].key <= k <= s[|s| - 1].key
      {
        MapOfKey(s, k);
      }
    }
  }

  lemma LastsIncrease(a: seq<Slot>, gap: seq<Slot>, b: seq<Slot>, rest: seq<Slot>)
    requires Sorted(a + gap + b + rest) && a != [] && b != []
    ensures a[|a| - 1].key < b[|b| - 1].key
  {
    var s := a + gap + b + rest;
    assert s[|a| - 1] == a[|a| - 1];
    assert s[|a| + |gap| + |b| - 1] == b[|b| - 1];
  }

  /** The separators of a node increase strictly. */
  lemma SepsIncrease(t: Tree, h: nat, i: nat, j: nat)
    requires Valid(t, h) && t.Inner? && i < j < |t.kids|
    ensures t.kids[i].sep < t.kids[j].sep
  {
    hide FlatKids, Flat, Sorted;
    var kids := t.kids;
    FlatUpTo(t, h, i);
    FlatUpTo(t, h, j);
    KidWf(t, h, j);
    FlatLast(kids[j].sub, h - 1);
    assert kids[..j] == kids[..i + 1] + kids[i + 1..j];
    FlatKidsConcat(kids[..i + 1], kids[i + 1..j]);
    LastsIncrease(FlatKids(kids[..i + 1]), FlatKids(kids[i + 1..j]), Flat(kids[j].sub), FlatKids(kids[j + 1..]));
  }

  lemma NodeKeysIncrease(t: Tree, h: nat)
    requires Valid(t, h)
    ensures Increasing(NodeKeys(t))
  {
    forall i, j | 0 <= i < j < Size(t)
      ensures NodeKeys(t)[i] < NodeKeys(t)[j]
    {
      match t
      case Leaf(es) =>
      case Inner(kids) => SepsIncrease(t, h, i, j);
    }
  }

  /** Get follows child b when the separators say so. */
  lemma GetDescends(kids: seq<Kid>, b: nat, m: u32)
    requires b < |kids|
    requires forall i :: 0 <= i < b ==> kids[i].sep < m
    requires forall i :: b <= i < |kids| ==> m <= kids[i].sep
    ensures GetT(Inner(kids), m) == GetT(kids[b].sub, m)
  {
    SearchUnique(Seps(kids), m, b);
  }

  lemma MiddleKey(pre: seq<Slot>, mid: seq<Slot>, post: seq<Slot>, m: u32)
    requires Sorted(pre + mid + post) && HasKey(mid, m)
    ensures HasKey(pre + mid + post, m)
    ensures pre != [] ==> pre[|pre| - 1].key < m
    ensures m <= mid[|mid| - 1].key
  {
    var s := pre + mid + post;
    var j :| 0 <= j < |mid| && mid[j].key == m;
    assert s[|pre| + j] == mid[j] && s[|pre| + |mid| - 1] == mid[|mid| - 1];
    assert pre != [] ==> s[|pre| - 1] == pre[|pre| - 1];
  }

  /** A key found in the routed child lies between the neighbouring separators. */
  lemma KeyInRange(t: Tree, h: nat, k: u32, m: u32)
    requires Valid(t, h) && t.Inner? && HasKey(Within(t, k), m)
    ensures forall i :: 0 <= i < Route(t.kids, k) ==> t.kids[i].sep < m
    ensures m <= t.kids[Route(t.kids, k)].sep <= LastKey(t)
    ensures HasKey(Flat(t), m)
  {
    hide Sorted, HasKey, Flat, FlatKids, Route, Search, Wf;
    var b := Route(t.kids, k);
    RouteFlat(t, h, k);
    MiddleKey(Before(t, k), Within(t, k), After(t, k), m);
    if b > 0 {
      FlatUpTo(t, h, b - 1);
    }
    SepsBetween(t, h, b);
  }

  lemma SepsBetween(t: Tree, h: nat, b: nat)
    requires Valid(t, h) && t.Inner? && b < |t.kids|
    ensures forall i :: 0 <= i < b ==> t.kids[i].sep <= t.kids[b - 1].sep
    ensures t.kids[b].sep <= LastKey(t)
  {
    forall i | 0 <= i < b - 1
      ensures t.kids[i].sep <= t.kids[b - 1].sep
    {
      SepsIncrease(t, h, i, b - 1);
    }
    if b < |t.kids| - 1 {
      SepsIncrease(t, h, b, |t.kids| - 1);
    }
  }

  lemma SepsFrom(t: Tree, h: nat, b: nat)
    requires Valid(t, h) && t.Inner? && b < |t.kids|
    ensures forall i :: b <= i < |t.kids| ==> t.kids[b].sep <= t.kids[i].sep
  {
    forall i | b < i < |t.kids|
      ensures t.kids[b].sep <= t.kids[i].sep
    {
      SepsIncrease(t, h, b, i);
    }
  }

  lemma FlatIsKids(t: Tree)
    ensures t.Inner? ==> Flat(t) == FlatKids(t.kids)
  {
  }
}
