/**
 * MostVisitedService: a sliding window of the last 200 raw selections and a
 * frequency view of it.
 *
 * The view is `GroupBy(entry => entry)` followed by a stable
 * `OrderByDescending(count)`: `GroupsOf` builds the groups the way the
 * lookup does (one pass, each element joins a group whose key equals it or
 * opens a new one keyed by itself), `SortGroups` orders them by count with
 * ties in the order the groups were opened, and `View` lists the keys.
 */
module MostVisited {
  import opened Wrappers
  import opened UnityHost
  import opened Entries
  import opened Sequences

  /** `_mostRecentLimit`: the window holds at most this many selections. */
  const MostRecentLimit: nat := 200

  /** The service's `SizeLimit`; declared by the service but used by no operation of it. */
  const SizeLimit: nat := 100

  /** A group of the window: the position of its key (the occurrence that opened it) and its size. */
  datatype Group = Group(first: nat, count: nat)

  /**
   * The answers of `Equals` between window positions, taken once:
   * `m[a][b]` is what `w[a].Equals(w[b])` gives.
   */
  function SameMatrix(w: seq<Entry>, h: Host): (m: seq<seq<bool>>)
    reads w
    ensures |m| == |w|
    ensures forall a, b :: 0 <= a < |w| && 0 <= b < |w| ==> (Eq(m, a, b) <==> Same(w[a], w[b], h))
  {
    seq(|w|, a requires 0 <= a < |w| reads w => seq(|w|, b requires 0 <= b < |w| reads w => Same(w[a], w[b], h)))
  }

  /** Position `a` equals position `b` according to `m`. */
  predicate Eq(m: seq<seq<bool>>, a: nat, b: nat)
  {
    a < |m| && b < |m[a]| && m[a][b]
  }

  /**
   * The group position `x` joins: the most recently opened group whose key
   * equals it (`key.Equals(x)`), or -1 when there is none.
   */
  function FindGroup(m: seq<seq<bool>>, gs: seq<Group>, x: nat): (j: int)
    ensures -1 <= j < |gs|
    ensures 0 <= j ==> Eq(m, gs[j].first, x)
    ensures forall k :: j < k < |gs| ==> !Eq(m, gs[k].first, x)
    decreases |gs|
  {
    if gs == [] then -1
    else if Eq(m, gs[|gs| - 1].first, x) then |gs| - 1
    else FindGroup(m, gs[..|gs| - 1], x)
  }

  /** The groups of the first `n` window positions, in the order they were opened. */
  function GroupsOf(m: seq<seq<bool>>, n: nat): seq<Group>
  {
    if n == 0 then [] else Join(m, GroupsOf(m, n - 1), n - 1)
  }

  /** Position `x` joins the group `FindGroup` picks, or opens a new group keyed by itself. */
  function Join(m: seq<seq<bool>>, gs: seq<Group>, x: nat): seq<Group>
  {
    var j := FindGroup(m, gs, x);
    if j < 0 then gs + [Group(x, 1)]
    else gs[j := Group(gs[j].first, gs[j].count + 1)]
  }

  /** Every key is one of the first `n` positions and every group has a member. */
  predicate Bounded(gs: seq<Group>, n: nat)
  {
    forall i :: 0 <= i < |gs| ==> gs[i].first < n && gs[i].count >= 1
  }

  /** Groups listed in the order their keys occur. */
  predicate InWindowOrder(gs: seq<Group>)
  {
    forall i, j :: 0 <= i < j < |gs| ==> gs[i].first < gs[j].first
  }

  /** No group's key equals the key of a group listed after it. */
  predicate DistinctKeys(m: seq<seq<bool>>, gs: seq<Group>)
  {
    forall i, j :: 0 <= i < j < |gs| ==> !Eq(m, gs[i].first, gs[j].first)
  }

  /** Each group's size is the number of the first `n` positions its key equals. */
  predicate SizesAreCounts(m: seq<seq<bool>>, gs: seq<Group>, n: nat)
  {
    forall j :: 0 <= j < |gs| ==> gs[j].count == CountEq(m, gs[j].first, n)
  }

  /** Position `p` equals the key of some group of `gs`. */
  predicate Covered(m: seq<seq<bool>>, gs: seq<Group>, p: nat)
  {
    exists j :: 0 <= j < |gs| && Eq(m, gs[j].first, p)
  }

  /** Each of the first `n` positions equals the key of some group of `gs`. */
  predicate CoversPrefix(m: seq<seq<bool>>, gs: seq<Group>, n: nat)
  {
    forall p :: 0 <= p < n ==> Covered(m, gs, p)
  }

  /** The sum of the group sizes. */
  function Total(gs: seq<Group>): nat
  {
    if gs == [] then 0 else Total(gs[..|gs| - 1]) + gs[|gs| - 1].count
  }

  /** The number of the first `n` positions that position `key` equals. */
  function CountEq(m: seq<seq<bool>>, key: nat, n: nat): nat
  {
    if n == 0 then 0 else CountEq(m, key, n - 1) + (if Eq(m, key, n - 1) then 1 else 0)
  }

  /** `Equals` is an equivalence on the first `n` positions (reflexive, symmetric, transitive). */
  predicate EquivalenceOn(m: seq<seq<bool>>, n: nat)
  {
    && (forall a :: 0 <= a < n ==> Eq(m, a, a))
    && (forall a, b :: 0 <= a < n && 0 <= b < n && Eq(m, a, b) ==> Eq(m, b, a))
    && (forall a, b, c :: 0 <= a < n && 0 <= b < n && 0 <= c < n && Eq(m, a, b) && Eq(m, b, c) ==> Eq(m, a, c))
  }

  /** `OrderByDescending(count)` is stable: larger groups first, ties in the order the groups were opened. */
  predicate Before(a: Group, b: Group)
    ensures Before(a, b) ==> a.count >= b.count && a != b
  {
    a.count > b.count || (a.count == b.count && a.first < b.first)
  }

  predicate SortedGroups(gs: seq<Group>)
  {
    forall i, j :: 0 <= i < j < |gs| ==> Before(gs[i], gs[j])
  }

  predicate DistinctFirsts(gs: seq<Group>)
  {
    forall i, j :: 0 <= i < j < |gs| ==> gs[i].first != gs[j].first
  }

  /** Insert `g` into a list ordered by `Before`, after every group that goes before it. */
  function Insert(g: Group, gs: seq<Group>): (r: seq<Group>)
    ensures multiset(r) == multiset(gs) + multiset{g}
  {
    if gs == [] then [g]
    else if Before(gs[0], g) then
      assert gs == [gs[0]] + gs[1..];
      [gs[0]] + Insert(g, gs[1..])
    else [g] + gs
  }

  /** The stable descending sort of the groups by size (an insertion sort). */
  function SortGroups(gs: seq<Group>): (r: seq<Group>)
    ensures multiset(r) == multiset(gs)
  {
    if gs == [] then []
    else
      assert gs == [gs[0]] + gs[1..];
      Insert(gs[0], SortGroups(gs[1..]))
  }

  /** The groups of the window, most visited first. */
  function Ranked(w: seq<Entry>, h: Host): (r: seq<Group>)
    reads w
    ensures multiset(r) == multiset(GroupsOf(SameMatrix(w, h), |w|))
    ensures forall i :: 0 <= i < |r| ==> r[i].first < |w|
  {
    var gs := GroupsOf(SameMatrix(w, h), |w|);
    var r := SortGroups(gs);
    assert forall i :: 0 <= i < |r| ==> r[i].first < |w| by {
      GroupsBounded(SameMatrix(w, h), |w|);
      forall i | 0 <= i < |r|
        ensures r[i].first < |w|
      {
        assert r[i] in multiset(gs);
      }
    }
    r
  }

  /** `GetEntries`: one key per group, most visited first. */
  function View(w: seq<Entry>, h: Host): (v: seq<Entry>)
    reads w
    ensures |v| == |Ranked(w, h)|
    ensures forall i :: 0 <= i < |v| ==> v[i] == w[Ranked(w, h)[i].first]
  {
    var r := Ranked(w, h);
    seq(|r|, i requires 0 <= i < |r| => w[r[i].first])
  }

  /** The window after appending `e`: drop the oldest once when over the limit. */
  function Slide(w: seq<Entry>, e: Entry): (r: seq<Entry>)
    ensures |w| <= MostRecentLimit ==> |r| <= MostRecentLimit
    ensures |r| > 0 && r[|r| - 1] == e
    ensures |w| <= MostRecentLimit ==> r == KeepLast(w + [e], MostRecentLimit)
  {
    if |w + [e]| > MostRecentLimit then (w + [e])[1..] else w + [e]
  }

  /** `RemoveAll(x => x.Equals(e))`: the window without the elements equal to `e`, in order. */
  function RemoveSame(w: seq<Entry>, e: Entry, h: Host): (r: seq<Entry>)
    reads w`cachedRef, w`unityId, e`cachedRef, e`unityId
    ensures |r| <= |w|
    ensures forall k :: 0 <= k < |r| ==> !Same(r[k], e, h)
    decreases |w|
  {
    if w == [] then []
    else (if Same(w[0], e, h) then [] else [w[0]]) + RemoveSame(w[1..], e, h)
  }

  class MostVisitedService {
    var slidingWindow: seq<Entry>
    var updates: nat

    ghost predicate Valid()
      reads this
    {
      |slidingWindow| <= MostRecentLimit
    }

    constructor ()
      ensures slidingWindow == [] && updates == 0 && Valid()
    {
      slidingWindow := [];
      updates := 0;
    }

    function GetEntries(h: Host): (r: seq<Entry>)
      reads this, slidingWindow
      ensures forall k :: 0 <= k < |r| ==> r[k] in slidingWindow
      ensures forall p :: 0 <= p < |slidingWindow| ==> Listed(r, slidingWindow[p], h)
    {
      ViewCoversWindow(slidingWindow, h);
      View(slidingWindow, h)
    }

    /** Append a selection without deduplication, then drop index 0 once if over the limit. */
    method RecordEntry(entry: Entry?)
      modifies this
      ensures old(Valid()) ==> Valid()
      ensures entry == null ==> slidingWindow == old(slidingWindow) && updates == old(updates)
      ensures entry != null ==> slidingWindow == Slide(old(slidingWindow), entry) && updates == old(updates) + 1
    {
      if entry == null {
        return;
      }
      slidingWindow := slidingWindow + [entry];
      if |slidingWindow| > MostRecentLimit {
        slidingWindow := slidingWindow[1..];
      }
      updates := updates + 1;
    }

    /** Remove every occurrence equal to `entry` (none for null); always notify. */
    method RemoveEntry(entry: Entry?, h: Host)
      modifies this
      ensures old(Valid()) ==> Valid()
      ensures entry == null ==> slidingWindow == old(slidingWindow)
      ensures entry != null ==> slidingWindow == RemoveSame(old(slidingWindow), entry, h)
      ensures updates == old(updates) + 1
    {
      if entry != null {
        slidingWindow := RemoveSame(slidingWindow, entry, h);
      }
      updates := updates + 1;
    }

    /** The interface's default `RemoveAll()`: only notifies. */
    method RemoveAll()
      modifies this
      ensures slidingWindow == old(slidingWindow) && updates == old(updates) + 1
    {
      updates := updates + 1;
    }

    /** `RemoveAll(predicate)`: does nothing in this service. */
    method RemoveAllWhere(remove: Entry -> bool)
      modifies this
      ensures unchanged(this)
    {
    }
  }

  /** Removal leaves exactly the elements not equal to `e`, every copy of them, in their order. */
  lemma {:induction false} RemoveSameKeepsOthers(w: seq<Entry>, e: Entry, h: Host)
    ensures IsSubsequence(RemoveSame(w, e, h), w)
    ensures forall k :: 0 <= k < |w| && !Same(w[k], e, h) ==> w[k] in RemoveSame(w, e, h)
    ensures multiset(RemoveSame(w, e, h)) <= multiset(w)
    ensures forall x :: x in w && !Same(x, e, h) ==> multiset(RemoveSame(w, e, h))[x] == multiset(w)[x]
    decreases |w|
  {
    if w != [] {
      RemoveSameKeepsOthers(w[1..], e, h);
      RemoveSameCounts(w, e, h);
      var r := RemoveSame(w, e, h);
      var rest := RemoveSame(w[1..], e, h);
      if Same(w[0], e, h) {
        assert r == rest;
        SuffixIsSubsequence(w, 1);
        SubsequenceTransitive(rest, w[1..], w);
      } else {
        assert r == [w[0]] + rest;
        assert r[1..] == rest;
      }
      forall k | 0 <= k < |w| && !Same(w[k], e, h)
        ensures w[k] in r
      {
        if k > 0 {
          assert w[k] == w[1..][k - 1];
        }
      }
    }
  }

  /** Removal keeps every copy of an element not equal to `e` and adds nothing. */
  lemma {:induction false} RemoveSameCounts(w: seq<Entry>, e: Entry, h: Host)
    ensures multiset(RemoveSame(w, e, h)) <= multiset(w)
    ensures forall x :: x in w && !Same(x, e, h) ==> multiset(RemoveSame(w, e, h))[x] == multiset(w)[x]
    decreases |w|
  {
    if w != [] {
      RemoveSameCounts(w[1..], e, h);
      var rest: seq<Entry> := RemoveSame(w[1..], e, h);
      assert w == [w[0]] + w[1..];
      if Same(w[0], e, h) {
        assert RemoveSame(w, e, h) == rest;
      } else {
        assert RemoveSame(w, e, h) == [w[0]] + rest;
      }
      forall x: Entry | x in w && !Same(x, e, h)
        ensures multiset(RemoveSame(w, e, h))[x] == multiset(w)[x]
      {
        if x !in w[1..] {
          assert multiset(w[1..])[x] == 0;
          assert multiset(rest)[x] == 0;
        }
      }
    }
  }

  /** Inserting into an ordered list whose firsts differ from the new group's keeps it ordered. */
  lemma {:induction false} InsertSorted(g: Group, gs: seq<Group>)
    requires SortedGroups(gs)
    requires forall i :: 0 <= i < |gs| ==> gs[i].first != g.first
    ensures SortedGroups(Insert(g, gs))
    decreases |gs|
  {
    if gs != [] && Before(gs[0], g) {
      InsertSorted(g, gs[1..]);
      var t := Insert(g, gs[1..]);
      forall k | 0 <= k < |t|
        ensures Before(gs[0], t[k])
      {
        assert t[k] in multiset(gs[1..]) + multiset{g};
        if t[k] != g {
          assert t[k] in gs[1..];
        }
      }
    }
  }

  /** The sort orders groups with distinct key positions by `Before`. */
  lemma {:induction false} SortGroupsSorted(gs: seq<Group>)
    requires DistinctFirsts(gs)
    ensures SortedGroups(SortGroups(gs))
    decreases |gs|
  {
    if gs != [] {
      var rest := SortGroups(gs[1..]);
      SortGroupsSorted(gs[1..]);
      forall i | 0 <= i < |rest|
        ensures rest[i].first != gs[0].first
      {
        assert rest[i] in multiset(gs[1..]);
        var k :| 0 <= k < |gs[1..]| && gs[1..][k] == rest[i];
        assert gs[k + 1] == rest[i];
      }
      InsertSorted(gs[0], rest);
    }
  }

  /** Replacing one group changes the total by the difference of the sizes. */
  lemma {:induction false} TotalUpdate(gs: seq<Group>, j: nat, g: Group)
    requires j < |gs|
    ensures Total(gs[j := g]) == Total(gs) - gs[j].count + g.count
    decreases |gs|
  {
    var n := |gs| - 1;
    if j < n {
      TotalUpdate(gs[..n], j, g);
      assert gs[j := g][..n] == gs[..n][j := g];
    } else {
      assert gs[j := g][..n] == gs[..n];
    }
  }

  /** Opening a group adds its size to the total. */
  lemma TotalSnoc(gs: seq<Group>, g: Group)
    ensures Total(gs + [g]) == Total(gs) + g.count
  {
    assert (gs + [g])[..|gs|] == gs;
  }

  /** Joining one more position adds one to the total. */
  lemma JoinTotal(m: seq<seq<bool>>, n: nat)
    requires n > 0
    ensures Total(GroupsOf(m, n)) == Total(GroupsOf(m, n - 1)) + 1
  {
    JoinAddsOne(m, GroupsOf(m, n - 1), n - 1);
  }

  /** A position joins an existing group or opens one of size one: either way the total grows by one. */
  lemma JoinAddsOne(m: seq<seq<bool>>, gs: seq<Group>, x: nat)
    ensures Total(Join(m, gs, x)) == Total(gs) + 1
  {
    var j := FindGroup(m, gs, x);
    if j < 0 {
      TotalSnoc(gs, Group(x, 1));
    } else {
      TotalUpdate(gs, j, Group(gs[j].first, gs[j].count + 1));
    }
  }

  /** Joining position `x` keeps every key below `x + 1` and every group non-empty. */
  lemma JoinBounded(m: seq<seq<bool>>, gs: seq<Group>, x: nat)
    requires Bounded(gs, x)
    ensures Bounded(Join(m, gs, x), x + 1)
  {
  }

  /** Every group's key is a window position and every group has at least one member. */
  lemma {:induction false} GroupsBounded(m: seq<seq<bool>>, n: nat)
    ensures Bounded(GroupsOf(m, n), n)
    decreases n
  {
    if n > 0 {
      GroupsBounded(m, n - 1);
      JoinBounded(m, GroupsOf(m, n - 1), n - 1);
    }
  }

  /** Joining a position later than every key keeps the keys in window order. */
  lemma JoinInWindowOrder(m: seq<seq<bool>>, n: nat)
    requires n > 0 && InWindowOrder(GroupsOf(m, n - 1)) && Bounded(GroupsOf(m, n - 1), n - 1)
    ensures InWindowOrder(GroupsOf(m, n))
  {
    assert GroupsOf(m, n) == Join(m, GroupsOf(m, n - 1), n - 1);
  }

  /** Joining keeps the keys apart: a new key is opened only when no key equals it. */
  lemma JoinKeepsKeysApart(m: seq<seq<bool>>, gs: seq<Group>, x: nat)
    requires DistinctKeys(m, gs)
    ensures DistinctKeys(m, Join(m, gs, x))
  {
    var j := FindGroup(m, gs, x);
    var r := Join(m, gs, x);
    forall i, k | 0 <= i < k < |r|
      ensures !Eq(m, r[i].first, r[k].first)
    {
      assert r[i].first == gs[i].first;
      if k < |gs| {
        assert r[k].first == gs[k].first;
      } else {
        assert j < 0 && r[k].first == x;
      }
    }
  }

  /** A reflexive position is covered after it joins, and covered positions stay covered. */
  lemma JoinCovers(m: seq<seq<bool>>, n: nat)
    requires n > 0 && Eq(m, n - 1, n - 1)
    requires CoversPrefix(m, GroupsOf(m, n - 1), n - 1)
    ensures CoversPrefix(m, GroupsOf(m, n), n)
  {
    var x := n - 1;
    var gs := GroupsOf(m, x);
    var j := FindGroup(m, gs, x);
    var r := GroupsOf(m, n);
    assert r == Join(m, gs, x);
    forall p | 0 <= p <= x
      ensures Covered(m, r, p)
    {
      if p < x {
        assert Covered(m, gs, p);
        var k :| 0 <= k < |gs| && Eq(m, gs[k].first, p);
        assert r[k].first == gs[k].first;
      } else if j >= 0 {
        assert Eq(m, r[j].first, p);
      } else {
        assert Eq(m, r[|gs|].first, p);
      }
    }
  }

  /** Groups are listed in the order their keys occur in the window. */
  lemma {:induction false} GroupsInWindowOrder(m: seq<seq<bool>>, n: nat)
    ensures InWindowOrder(GroupsOf(m, n))
    decreases n
  {
    if n > 0 {
      GroupsInWindowOrder(m, n - 1);
      GroupsBounded(m, n - 1);
      JoinInWindowOrder(m, n);
    }
  }

  /** Every one of the first `n` positions is counted by exactly one group. */
  lemma {:induction false} GroupsCountWindow(m: seq<seq<bool>>, n: nat)
    ensures Total(GroupsOf(m, n)) == n
    decreases n
  {
    if n > 0 {
      GroupsCountWindow(m, n - 1);
      JoinTotal(m, n);
    }
  }

  /** No group's key equals the key of a group opened later. */
  lemma {:induction false} KeysDistinct(m: seq<seq<bool>>, n: nat)
    ensures DistinctKeys(m, GroupsOf(m, n))
    decreases n
  {
    if n > 0 {
      KeysDistinct(m, n - 1);
      JoinKeepsKeysApart(m, GroupsOf(m, n - 1), n - 1);
    }
  }

  /** Under reflexivity, every one of the first `n` positions equals the key of some group. */
  lemma {:induction false} KeysCoverWindow(m: seq<seq<bool>>, n: nat)
    requires forall a :: 0 <= a < n ==> Eq(m, a, a)
    ensures forall p :: 0 <= p < n ==> Covered(m, GroupsOf(m, n), p)
    decreases n
  {
    if n > 0 {
      KeysCoverWindow(m, n - 1);
      JoinCovers(m, n);
    }
  }

  /** A key that equals none of the first `n` positions counts zero. */
  lemma {:induction false} CountEqZero(m: seq<seq<bool>>, key: nat, n: nat)
    requires forall p :: 0 <= p < n ==> !Eq(m, key, p)
    ensures CountEq(m, key, n) == 0
    decreases n
  {
    if n > 0 {
      CountEqZero(m, key, n - 1);
    }
  }

  /** An equivalence on `n` positions is one on any shorter prefix. */
  lemma EquivalenceOnPrefix(m: seq<seq<bool>>, n: nat, k: nat)
    requires EquivalenceOn(m, n) && k <= n
    ensures EquivalenceOn(m, k)
  {
  }

  /**
   * One step of the grouping under an equivalence: when every group of the
   * first `x` positions has the size of its key's class and every position is
   * covered, the same holds after position `x` joins.
   */
  lemma JoinCounts(m: seq<seq<bool>>, gs: seq<Group>, x: nat)
    requires EquivalenceOn(m, x + 1)
    requires Bounded(gs, x) && DistinctKeys(m, gs) && SizesAreCounts(m, gs, x)
    requires forall p :: 0 <= p < x ==> Covered(m, gs, p)
    ensures SizesAreCounts(m, Join(m, gs, x), x + 1)
  {
    var j0 := FindGroup(m, gs, x);
    var r := Join(m, gs, x);
    forall j | 0 <= j < |r|
      ensures r[j].count == CountEq(m, r[j].first, x + 1)
    {
      if j < |gs| {
        var key := gs[j].first;
        assert r[j].first == key;
        if j != j0 && j0 >= 0 && j < j0 {
          // x joined the newest matching group; an older key equal to x would equal
          // that group's key too, which distinct keys rule out
          var key0 := gs[j0].first;
          assert Eq(m, x, key0);
          assert !Eq(m, key, key0);
        }
      } else {
        assert j0 < 0 && r[j] == Group(x, 1);
        forall p | 0 <= p < x
          ensures !Eq(m, x, p)
        {
          assert Covered(m, gs, p);
        }
        CountEqZero(m, x, x);
      }
    }
  }

  /**
   * When `Equals` is an equivalence on the window, each group's size is the
   * number of window positions equal to its key.
   */
  lemma {:induction false} GroupSizesAreCounts(m: seq<seq<bool>>, n: nat)
    requires EquivalenceOn(m, n)
    ensures SizesAreCounts(m, GroupsOf(m, n), n)
    decreases n
  {
    if n > 0 {
      EquivalenceOnPrefix(m, n, n - 1);
      GroupSizesAreCounts(m, n - 1);
      KeysDistinct(m, n - 1);
      KeysCoverWindow(m, n - 1);
      GroupsBounded(m, n - 1);
      JoinCounts(m, GroupsOf(m, n - 1), n - 1);
    }
  }

  /** A position that opens a new group equals none of the earlier positions. */
  lemma NewKeyCountsOne(m: seq<seq<bool>>, x: nat)
    requires EquivalenceOn(m, x + 1)
    requires FindGroup(m, GroupsOf(m, x), x) < 0
    ensures CountEq(m, x, x + 1) == 1
  {
    var gs0 := GroupsOf(m, x);
    KeysCoverWindow(m, x);
    GroupsBounded(m, x);
    forall p | 0 <= p < x
      ensures !Eq(m, x, p)
    {
      assert Covered(m, gs0, p);
    }
    CountEqZero(m, x, x);
  }

  /** `e` equals some key listed in `v`. */
  predicate Listed(v: seq<Entry>, e: Entry, h: Host)
    reads v, e
  {
    exists i :: 0 <= i < |v| && Same(v[i], e, h)
  }

  /** Of two listed groups, the key first seen earlier does not equal the other key. */
  predicate KeysDifferByFirstSeen(m: seq<seq<bool>>, r: seq<Group>)
  {
    forall i, j :: 0 <= i < |r| && 0 <= j < |r| && r[i].first < r[j].first ==> !Eq(m, r[i].first, r[j].first)
  }

  /**
   * The view is ordered by `Before`: sizes never increase down the list, and
   * equal sizes keep the order in which their keys were first seen.
   */
  lemma RankedIsSorted(w: seq<Entry>, h: Host)
    ensures SortedGroups(Ranked(w, h))
  {
    var m := SameMatrix(w, h);
    var gs := GroupsOf(m, |w|);
    GroupsInWindowOrder(m, |w|);
    assert DistinctFirsts(gs);
    SortGroupsSorted(gs);
  }

  /** Sorting keeps keys apart: distinct keys in window order stay distinct by first occurrence. */
  lemma SortKeepsKeysApart(m: seq<seq<bool>>, gs: seq<Group>)
    requires InWindowOrder(gs) && DistinctKeys(m, gs)
    ensures KeysDifferByFirstSeen(m, SortGroups(gs))
  {
    var r := SortGroups(gs);
    forall i, j | 0 <= i < |r| && 0 <= j < |r| && r[i].first < r[j].first
      ensures !Eq(m, r[i].first, r[j].first)
    {
      assert r[i] in multiset(gs) && r[j] in multiset(gs);
      var a :| 0 <= a < |gs| && gs[a] == r[i];
      var b :| 0 <= b < |gs| && gs[b] == r[j];
      assert a < b;
    }
  }

  /** No listed key equals a listed key first seen later: one key per group. */
  lemma RankedKeysDiffer(w: seq<Entry>, h: Host)
    ensures KeysDifferByFirstSeen(SameMatrix(w, h), Ranked(w, h))
  {
    var m := SameMatrix(w, h);
    GroupsInWindowOrder(m, |w|);
    KeysDistinct(m, |w|);
    SortKeepsKeysApart(m, GroupsOf(m, |w|));
  }

  /** In terms of `Equals`: no listed key equals a listed key first seen later. */
  lemma ViewKeysDiffer(w: seq<Entry>, h: Host, i: nat, j: nat)
    requires i < |View(w, h)| && j < |View(w, h)|
    requires Ranked(w, h)[i].first < Ranked(w, h)[j].first
    ensures !Same(View(w, h)[i], View(w, h)[j], h)
  {
    RankedKeysDiffer(w, h);
  }

  /** Every element of the window equals some listed key. */
  lemma ViewCoversWindow(w: seq<Entry>, h: Host)
    ensures forall p :: 0 <= p < |w| ==> Listed(View(w, h), w[p], h)
  {
    var m := SameMatrix(w, h);
    var gs := GroupsOf(m, |w|);
    var r := Ranked(w, h);
    var v := View(w, h);
    KeysCoverWindow(m, |w|);
    forall p | 0 <= p < |w|
      ensures Listed(v, w[p], h)
    {
      assert Covered(m, gs, p);
      var j :| 0 <= j < |gs| && Eq(m, gs[j].first, p);
      assert gs[j] in multiset(r);
      var i :| 0 <= i < |r| && r[i] == gs[j];
      assert v[i] == w[gs[j].first];
    }
  }

  /**
   * When `Equals` is an equivalence on the window, each listed key's group
   * size is the number of window elements equal to it.
   */
  lemma ViewCounts(w: seq<Entry>, h: Host)
    requires EquivalenceOn(SameMatrix(w, h), |w|)
    ensures SizesAreCounts(SameMatrix(w, h), Ranked(w, h), |w|)
  {
    var m := SameMatrix(w, h);
    var gs := GroupsOf(m, |w|);
    var r := Ranked(w, h);
    GroupSizesAreCounts(m, |w|);
    forall i | 0 <= i < |r|
      ensures r[i].count == CountEq(m, r[i].first, |w|)
    {
      assert r[i] in multiset(gs);
    }
  }
}
