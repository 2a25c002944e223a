/** `getArrayIndexMapping` as a whole, and the contract its comment promises. */
module IndexMapping {
  import opened Wrappers
  import opened Sorting
  import opened ListMapping

  datatype IndexMappingItem = IndexMappingItem(beforeIndex: Option<nat>, afterIndex: Option<nat>)

  // ----- the contract -----

  /** Each before index and each after index appears exactly once, and no item is empty. */
  ghost predicate Exact(items: seq<IndexMappingItem>, nb: nat, na: nat) {
    && (forall c :: 0 <= c < |items| ==> InRange(items[c], nb, na))
    && (forall c, c' :: 0 <= c < c' < |items| ==> NothingShared(items[c], items[c']))
    && (forall i :: 0 <= i < nb ==> CoversBefore(items, i))
    && (forall j :: 0 <= j < na ==> CoversAfter(items, j))
  }

  ghost predicate CoversBefore(items: seq<IndexMappingItem>, i: nat) {
    exists c :: 0 <= c < |items| && items[c].beforeIndex == Some(i)
  }

  ghost predicate CoversAfter(items: seq<IndexMappingItem>, j: nat) {
    exists c :: 0 <= c < |items| && items[c].afterIndex == Some(j)
  }

  ghost predicate InRange(x: IndexMappingItem, nb: nat, na: nat) {
    && (x.beforeIndex.Some? || x.afterIndex.Some?)
    && (x.beforeIndex.Some? ==> x.beforeIndex.value < nb)
    && (x.afterIndex.Some? ==> x.afterIndex.value < na)
  }

  ghost predicate NothingShared(x: IndexMappingItem, y: IndexMappingItem) {
    && (x.beforeIndex.Some? ==> x.beforeIndex != y.beforeIndex)
    && (x.afterIndex.Some? ==> x.afterIndex != y.afterIndex)
  }

  /** Modifications and additions come in the order of their after index. */
  ghost predicate AfterSorted(items: seq<IndexMappingItem>) {
    forall c, c' :: 0 <= c < c' < |items| && items[c].afterIndex.Some? && items[c'].afterIndex.Some? ==>
      items[c].afterIndex.value < items[c'].afterIndex.value
  }

  /** A removal is at the position of its before index. */
  ghost predicate RemovalsInPlace(items: seq<IndexMappingItem>) {
    forall c :: 0 <= c < |items| && items[c].afterIndex.None? ==> items[c].beforeIndex == Some(c)
  }

  ghost predicate ValidMapping(items: seq<IndexMappingItem>, nb: nat, na: nat) {
    Exact(items, nb, na) && AfterSorted(items) && RemovalsInPlace(items)
  }

  // ----- sorting and splicing -----

  predicate HasAfter(x: IndexMappingItem) {
    x.afterIndex.Some?
  }

  predicate AfterLe(x: IndexMappingItem, y: IndexMappingItem) {
    (if x.afterIndex.Some? then x.afterIndex.value else 0) <= (if y.afterIndex.Some? then y.afterIndex.value else 0)
  }

  predicate BeforeLe(x: IndexMappingItem, y: IndexMappingItem) {
    (if x.beforeIndex.Some? then x.beforeIndex.value else 0) <= (if y.beforeIndex.Some? then y.beforeIndex.value else 0)
  }

  /** Insertion as `splice(at, 0, x)` does it: past the end means at the end. */
  function Splice<T>(s: seq<T>, at: nat, x: T): seq<T> {
    if at <= |s| then s[..at] + [x] + s[at..] else s + [x]
  }

  /** A strictly increasing sequence that has all of `0..n` and nothing else is `0..n`. */
  lemma {:induction false} IncreasingOnto(s: seq<nat>, n: nat, j: nat)
    requires forall x, y :: 0 <= x < y < |s| ==> s[x] < s[y]
    requires forall v :: 0 <= v < n ==> v in s
    requires j < n
    ensures j < |s| && s[j] == j
  {
    if j > 0 {
      IncreasingOnto(s, n, j - 1);
    }
    assert j in s;
  }

  lemma {:induction false} IncreasingAtLeast(s: seq<nat>, j: nat)
    requires forall x, y :: 0 <= x < y < |s| ==> s[x] < s[y]
    requires j < |s|
    ensures j <= s[j]
  {
    if j > 0 {
      IncreasingAtLeast(s, j - 1);
    }
  }

  lemma IncreasingOntoAll(s: seq<nat>, n: nat)
    requires forall x, y :: 0 <= x < y < |s| ==> s[x] < s[y]
    requires forall v :: 0 <= v < n ==> v in s
    requires forall x :: 0 <= x < |s| ==> s[x] < n
    ensures |s| == n && forall j :: 0 <= j < n ==> s[j] == j
  {
    forall j | 0 <= j < n
      ensures j < |s| && s[j] == j
    {
      IncreasingOnto(s, n, j);
    }
    if n > 0 {
      IncreasingOnto(s, n, n - 1);
    }
    if |s| > 0 {
      IncreasingAtLeast(s, |s| - 1);
    }
  }

  /** The after indexes paired below `i`. */
  ghost function PairedBelow(ms: seq<Match>, i: nat): set<nat>
    requires i <= |ms|
  {
    set k | 0 <= k < i && ms[k].afterIndex.Some? :: ms[k].afterIndex.value
  }

  lemma {:induction false} PairedBelowGrows(ms: seq<Match>, used: set<nat>, na: nat, lo: nat, hi: nat)
    requires Matching(ms, used, na) && lo <= hi <= |ms|
    requires forall k :: lo <= k < hi ==> ms[k].afterIndex.Some?
    ensures |PairedBelow(ms, hi)| == |PairedBelow(ms, lo)| + (hi - lo)
  {
    if lo < hi {
      PairedBelowGrows(ms, used, na, lo, hi - 1);
      var j := ms[hi - 1].afterIndex.value;
      assert Pair(ms, hi - 1, j);
      assert PairedBelow(ms, hi) == PairedBelow(ms, hi - 1) + {j};
      forall k | 0 <= k < hi - 1 && ms[k].afterIndex.Some?
        ensures ms[k].afterIndex.value != j
      {
        assert Pair(ms, k, ms[k].afterIndex.value);
      }
    }
  }

  lemma {:induction false} SubsetOfRange(s: set<nat>, n: nat)
    requires forall j :: j in s ==> j < n
    ensures |s| <= n
  {
    if n > 0 {
      SubsetOfRange(s - {n - 1}, n - 1);
    } else {
      assert s == {};
    }
  }

  // ----- assembling the mapping -----

  /** The items built from the matches: one per before index, one per free after index. */
  ghost predicate AllItems(all: seq<IndexMappingItem>, ms: seq<Match>, used: set<nat>, na: nat) {
    && Distinct(all)
    && forall x :: x in all <==> IsItem(x, ms, used, na)
  }

  ghost predicate IsItem(x: IndexMappingItem, ms: seq<Match>, used: set<nat>, na: nat) {
    if x.beforeIndex.Some?
    then x.beforeIndex.value < |ms| && x.afterIndex == ms[x.beforeIndex.value].afterIndex
    else x.afterIndex.Some? && x.afterIndex.value < na && x.afterIndex.value !in used
  }

  lemma ItemsShareNothing(ms: seq<Match>, used: set<nat>, na: nat, x: IndexMappingItem, y: IndexMappingItem)
    requires Matching(ms, used, na) && IsItem(x, ms, used, na) && IsItem(y, ms, used, na) && x != y
    ensures InRange(x, |ms|, na) && NothingShared(x, y)
  {
    if x.beforeIndex.Some? && x.afterIndex.Some? {
      assert Pair(ms, x.beforeIndex.value, x.afterIndex.value);
    }
    if y.beforeIndex.Some? && y.afterIndex.Some? {
      assert Pair(ms, y.beforeIndex.value, y.afterIndex.value);
    }
  }

  method CollectItems(ms: seq<Match>, used: set<nat>, na: nat) returns (matches: seq<IndexMappingItem>)
    ensures AllItems(matches, ms, used, na)
  {
    matches := [];
    for k := |ms| downto 0
      invariant Distinct(matches)
      invariant forall x :: x in matches <==>
        x.beforeIndex.Some? && k <= x.beforeIndex.value < |ms| && x.afterIndex == ms[x.beforeIndex.value].afterIndex
    {
      DistinctAppend(matches, IndexMappingItem(Some(k), ms[k].afterIndex));
      matches := matches + [IndexMappingItem(Some(k), ms[k].afterIndex)];
    }
    for j := 0 to na
      invariant Distinct(matches)
      invariant forall x :: x in matches <==> IsItem(x, ms, used, j)
    {
      if j !in used {
        DistinctAppend(matches, IndexMappingItem(None, Some(j)));
        matches := matches + [IndexMappingItem(None, Some(j))];
      }
    }
  }

  /** Sorting by after index leaves distinct items in strictly increasing order. */
  lemma SortedByAfter(all: seq<IndexMappingItem>, ms: seq<Match>, used: set<nat>, na: nat,
                      ordered: seq<IndexMappingItem>)
    requires Matching(ms, used, na) && AllItems(all, ms, used, na)
    requires ordered == SortBy(AfterLe, Filter(HasAfter, all))
    ensures forall x :: x in ordered <==> x in all && HasAfter(x)
    ensures AfterSorted(ordered)
  {
    var kept := Filter(HasAfter, all);
    FilterMembers(HasAfter, all);
    FilterDistinct(HasAfter, all);
    SortByMembers(AfterLe, kept);
    SortByDistinct(AfterLe, kept);
    SortBySorted(AfterLe, kept);
    StrictlySorted(ordered, ms, used, na);
  }

  lemma StrictlySorted(ordered: seq<IndexMappingItem>, ms: seq<Match>, used: set<nat>, na: nat)
    requires Matching(ms, used, na) && Distinct(ordered) && SortedBy(AfterLe, ordered)
    requires forall x :: x in ordered ==> IsItem(x, ms, used, na) && HasAfter(x)
    ensures AfterSorted(ordered)
  {
    forall x | 0 <= x < |ordered|
      ensures IsItem(ordered[x], ms, used, na) && HasAfter(ordered[x])
    {
      assert ordered[x] in ordered;
    }
    forall x, y | 0 <= x < y < |ordered|
      ensures ordered[x].afterIndex.value < ordered[y].afterIndex.value
    {
      ItemsShareNothing(ms, used, na, ordered[x], ordered[y]);
      assert AfterLe(ordered[x], ordered[y]);
    }
  }

  /** The items with an after index, in order: item `j` has after index `j`. */
  lemma OrderedItems(all: seq<IndexMappingItem>, ms: seq<Match>, used: set<nat>, na: nat,
                     ordered: seq<IndexMappingItem>)
    requires Matching(ms, used, na) && AllItems(all, ms, used, na)
    requires forall x :: x in ordered <==> x in all && HasAfter(x)
    requires AfterSorted(ordered)
    ensures |ordered| == na && forall j :: 0 <= j < na ==> ordered[j].afterIndex == Some(j)
  {
    assert forall j :: 0 <= j < |ordered| ==> ordered[j] in ordered;
    var afters := seq(|ordered|, j requires 0 <= j < |ordered| => ordered[j].afterIndex.value);
    forall v | 0 <= v < na
      ensures v in afters
    {
      var item := ItemOfAfter(ms, used, na, v);
      var x :| 0 <= x < |ordered| && ordered[x] == item;
      assert afters[x] == v;
    }
    forall x | 0 <= x < |afters|
      ensures afters[x] < na
    {
      AfterInRange(ms, used, na, ordered[x]);
    }
    IncreasingOntoAll(afters, na);
    assert forall j :: 0 <= j < na ==> afters[j] == ordered[j].afterIndex.value;
  }

  lemma AfterInRange(ms: seq<Match>, used: set<nat>, na: nat, x: IndexMappingItem)
    requires Matching(ms, used, na) && IsItem(x, ms, used, na) && x.afterIndex.Some?
    ensures x.afterIndex.value < na
  {
    if x.beforeIndex.Some? {
      assert Pair(ms, x.beforeIndex.value, x.afterIndex.value);
    }
  }

  lemma ItemOfAfter(ms: seq<Match>, used: set<nat>, na: nat, j: nat) returns (item: IndexMappingItem)
    requires Matching(ms, used, na) && j < na
    ensures IsItem(item, ms, used, na) && item.afterIndex == Some(j)
  {
    if j in used {
      assert IsPaired(ms, j);
      var i :| Pair(ms, i, j);
      item := IndexMappingItem(Some(i), Some(j));
    } else {
      item := IndexMappingItem(None, Some(j));
    }
  }

  // ----- splicing the removals in -----

  predicate IsRemoval(x: IndexMappingItem) {
    x.beforeIndex.Some? && x.afterIndex.None?
  }

  /** The removals in the order of their before index: exactly the unmatched ones. */
  ghost predicate Removals(removals: seq<IndexMappingItem>, ms: seq<Match>) {
    && (forall x :: x in removals <==>
          IsRemoval(x) && x.beforeIndex.value < |ms| && ms[x.beforeIndex.value].afterIndex.None?)
    && (forall x, y :: 0 <= x < y < |removals| ==> BeforeLe(removals[x], removals[y]) && removals[x] != removals[y])
  }

  lemma SortedRemovals(all: seq<IndexMappingItem>, ms: seq<Match>, used: set<nat>, na: nat,
                       removals: seq<IndexMappingItem>)
    requires AllItems(all, ms, used, na)
    requires removals == SortBy(BeforeLe, Filter(IsRemoval, all))
    ensures Removals(removals, ms)
  {
    var kept := Filter(IsRemoval, all);
    FilterMembers(IsRemoval, all);
    FilterDistinct(IsRemoval, all);
    SortByMembers(BeforeLe, kept);
    SortByDistinct(BeforeLe, kept);
    SortBySorted(BeforeLe, kept);
  }

  /** The first `k` removals are spliced into the ordered items, each at its own index. */
  ghost predicate Spliced(items: seq<IndexMappingItem>, ordered: seq<IndexMappingItem>,
                          removals: seq<IndexMappingItem>, k: nat)
    requires k <= |removals|
  {
    && |items| == |ordered| + k
    && AfterSorted(items) && RemovalsInPlace(items)
    && (forall x {:trigger x in items} :: x in items <==> x in ordered || x in removals[..k])
  }

  lemma SpliceMembers<T(!new)>(s: seq<T>, at: nat, x: T)
    requires at <= |s|
    ensures forall y :: y in Splice(s, at, x) <==> y in s || y == x
  {
    assert s == s[..at] + s[at..];
  }

  lemma SpliceKeepsOrder(items: seq<IndexMappingItem>, r: nat, x: IndexMappingItem)
    requires AfterSorted(items) && RemovalsInPlace(items) && r <= |items|
    requires x.beforeIndex == Some(r) && x.afterIndex.None?
    requires forall c :: 0 <= c < |items| && items[c].afterIndex.None? ==> c < r
    ensures AfterSorted(Splice(items, r, x)) && RemovalsInPlace(Splice(items, r, x))
  {
    var items' := Splice(items, r, x);
    assert forall c :: 0 <= c < |items'| ==>
      items'[c] == if c < r then items[c] else if c == r then x else items[c - 1];
  }

  lemma SpliceOne(items: seq<IndexMappingItem>, ordered: seq<IndexMappingItem>, removals: seq<IndexMappingItem>,
                  ms: seq<Match>, k: nat)
    requires k < |removals| && Spliced(items, ordered, removals, k) && Removals(removals, ms)
    requires removals[k].beforeIndex.Some? && removals[k].beforeIndex.value <= |items|
    requires forall x :: x in ordered ==> HasAfter(x)
    ensures Spliced(Splice(items, removals[k].beforeIndex.value, removals[k]), ordered, removals, k + 1)
  {
    var r := removals[k].beforeIndex.value;
    assert removals[k] in removals;
    assert removals[..k + 1] == removals[..k] + [removals[k]];
    forall c | 0 <= c < |items| && items[c].afterIndex.None?
      ensures c < r
    {
      assert items[c] in items && items[c] in removals[..k];
      var t :| 0 <= t < k && removals[t] == items[c];
      assert removals[t] in removals;
    }
    SpliceKeepsOrder(items, r, removals[k]);
    SpliceMembers(items, r, removals[k]);
  }

  /** `lo` counts the pairs and removals below it, so there is always room for the next. */
  ghost predicate Counted(ms: seq<Match>, lo: nat, k: nat) {
    lo <= |ms| && lo == |PairedBelow(ms, lo)| + k
  }

  /** The first `k` removals are below `lo`, the others are not. */
  ghost predicate FirstBelow(removals: seq<IndexMappingItem>, k: nat, lo: nat) {
    && (forall t {:trigger removals[t]} :: 0 <= t < |removals| ==> removals[t].beforeIndex.Some?)
    && (forall t {:trigger removals[t]} :: 0 <= t < |removals| ==> (t < k <==> removals[t].beforeIndex.value < lo))
  }

  lemma FirstBelowNext(removals: seq<IndexMappingItem>, ms: seq<Match>, k: nat, lo: nat)
    requires Removals(removals, ms) && FirstBelow(removals, k, lo) && k < |removals|
    ensures FirstBelow(removals, k + 1, removals[k].beforeIndex.value + 1)
  {
    forall t | 0 <= t < |removals|
      ensures t < k + 1 <==> removals[t].beforeIndex.value < removals[k].beforeIndex.value + 1
    {
      assert removals[t] in removals && removals[k] in removals;
      assert t < k ==> BeforeLe(removals[t], removals[k]);
      assert k < t ==> BeforeLe(removals[k], removals[t]) && removals[k] != removals[t];
    }
  }

  lemma RoomForNext(ms: seq<Match>, used: set<nat>, na: nat, removals: seq<IndexMappingItem>, k: nat, lo: nat)
    requires Matching(ms, used, na) && Removals(removals, ms) && Counted(ms, lo, k) && k < |removals|
    requires FirstBelow(removals, k, lo)
    ensures removals[k].beforeIndex.value <= na + k
    ensures Counted(ms, removals[k].beforeIndex.value + 1, k + 1)
  {
    var r := removals[k].beforeIndex.value;
    assert removals[k] in removals;
    forall i | lo <= i < r
      ensures ms[i].afterIndex.Some?
    {
      var x := IndexMappingItem(Some(i), None);
      assert ms[i].afterIndex.None? ==> x in removals;
    }
    PairedBelowGrows(ms, used, na, lo, r);
    assert PairedBelow(ms, r + 1) == PairedBelow(ms, r);
    forall j | j in PairedBelow(ms, r)
      ensures j < na
    {
      var i :| 0 <= i < r && ms[i].afterIndex.Some? && ms[i].afterIndex.value == j;
      assert Pair(ms, i, j);
    }
    SubsetOfRange(PairedBelow(ms, r), na);
  }

  /** The mapping says of every before index what the matches say. */
  ghost predicate Follows(items: seq<IndexMappingItem>, ms: seq<Match>) {
    forall x {:trigger x in items} :: x in items && x.beforeIndex.Some? ==>
      x.beforeIndex.value < |ms| && x.afterIndex == ms[x.beforeIndex.value].afterIndex
  }

  lemma NoRepeats(items: seq<IndexMappingItem>, c: nat, c': nat)
    requires AfterSorted(items) && RemovalsInPlace(items) && c < c' < |items|
    ensures items[c] != items[c']
  {
    if items[c].afterIndex.None? && items[c'].afterIndex.None? {
      assert items[c].beforeIndex == Some(c) && items[c'].beforeIndex == Some(c');
    }
  }

  /** Each item of the result is one of the items built from the matches, and conversely. */
  lemma ResultIsExact(items: seq<IndexMappingItem>, all: seq<IndexMappingItem>, ms: seq<Match>, used: set<nat>, na: nat)
    requires Matching(ms, used, na) && AllItems(all, ms, used, na)
    requires forall x :: x in items <==> x in all
    requires AfterSorted(items) && RemovalsInPlace(items)
    ensures ValidMapping(items, |ms|, na) && Follows(items, ms)
  {
    forall c | 0 <= c < |items|
      ensures IsItem(items[c], ms, used, na) && InRange(items[c], |ms|, na)
    {
      assert items[c] in items;
      if items[c].afterIndex.Some? {
        AfterInRange(ms, used, na, items[c]);
      }
    }
    forall c, c' | 0 <= c < c' < |items|
      ensures NothingShared(items[c], items[c'])
    {
      NoRepeats(items, c, c');
      ItemsShareNothing(ms, used, na, items[c], items[c']);
    }
    forall i | 0 <= i < |ms|
      ensures CoversBefore(items, i)
    {
      var x := IndexMappingItem(Some(i), ms[i].afterIndex);
      assert x in all && x in items;
    }
    forall j | 0 <= j < na
      ensures CoversAfter(items, j)
    {
      var x := ItemOfAfter(ms, used, na, j);
      assert x in all && x in items;
    }
  }

  lemma NothingSpliced(ordered: seq<IndexMappingItem>, removals: seq<IndexMappingItem>, ms: seq<Match>)
    requires Removals(removals, ms) && AfterSorted(ordered) && forall x :: x in ordered ==> HasAfter(x)
    ensures Spliced(ordered, ordered, removals, 0) && FirstBelow(removals, 0, 0)
  {
    forall t | 0 <= t < |removals|
      ensures removals[t].beforeIndex.Some?
    {
      assert removals[t] in removals;
    }
    forall t | 0 <= t < |ordered|
      ensures HasAfter(ordered[t])
    {
      assert ordered[t] in ordered;
    }
    assert removals[..0] == [];
  }

  lemma SpliceNext(items: seq<IndexMappingItem>, ordered: seq<IndexMappingItem>, removals: seq<IndexMappingItem>,
                   ms: seq<Match>, used: set<nat>, na: nat, k: nat, lo: nat)
    requires Matching(ms, used, na) && Removals(removals, ms) && k < |removals|
    requires |ordered| == na && forall x :: x in ordered ==> HasAfter(x)
    requires Spliced(items, ordered, removals, k) && Counted(ms, lo, k) && FirstBelow(removals, k, lo)
    ensures removals[k].beforeIndex.Some?
    ensures var r := removals[k].beforeIndex.value;
            && Spliced(Splice(items, r, removals[k]), ordered, removals, k + 1)
            && Counted(ms, r + 1, k + 1) && FirstBelow(removals, k + 1, r + 1)
  {
    RoomForNext(ms, used, na, removals, k, lo);
    SpliceOne(items, ordered, removals, ms, k);
    FirstBelowNext(removals, ms, k, lo);
  }

  /** All the removals spliced in, one after the other. */
  function SpliceAll(ordered: seq<IndexMappingItem>, removals: seq<IndexMappingItem>): seq<IndexMappingItem>
    requires forall t {:trigger removals[t]} :: 0 <= t < |removals| ==> removals[t].beforeIndex.Some?
  {
    if removals == [] then ordered
    else
      var removal := removals[|removals| - 1];
      Splice(SpliceAll(ordered, removals[..|removals| - 1]), removal.beforeIndex.value, removal)
  }

  lemma SpliceAllStep(ordered: seq<IndexMappingItem>, removals: seq<IndexMappingItem>, k: nat)
    requires k < |removals| && FirstBelow(removals, 0, 0)
    ensures SpliceAll(ordered, removals[..k + 1]) ==
      Splice(SpliceAll(ordered, removals[..k]), removals[k].beforeIndex.value, removals[k])
  {
    assert removals[..k + 1][..k] == removals[..k];
  }

  lemma SpliceAllNext(ordered: seq<IndexMappingItem>, removals: seq<IndexMappingItem>, ms: seq<Match>, used: set<nat>,
                      na: nat, k: nat, lo: nat)
    requires Matching(ms, used, na) && Removals(removals, ms) && k < |removals| && FirstBelow(removals, 0, 0)
    requires |ordered| == na && forall x :: x in ordered ==> HasAfter(x)
    requires Spliced(SpliceAll(ordered, removals[..k]), ordered, removals, k)
    requires Counted(ms, lo, k) && FirstBelow(removals, k, lo)
    ensures Spliced(SpliceAll(ordered, removals[..k + 1]), ordered, removals, k + 1)
    ensures Counted(ms, removals[k].beforeIndex.value + 1, k + 1)
    ensures FirstBelow(removals, k + 1, removals[k].beforeIndex.value + 1)
  {
    SpliceAllStep(ordered, removals, k);
    SpliceNext(SpliceAll(ordered, removals[..k]), ordered, removals, ms, used, na, k, lo);
  }

  lemma {:induction false} SpliceAllSplices(ordered: seq<IndexMappingItem>, removals: seq<IndexMappingItem>,
                                            ms: seq<Match>, used: set<nat>, na: nat, k: nat)
    returns (lo: nat)
    requires Matching(ms, used, na) && Removals(removals, ms) && k <= |removals|
    requires |ordered| == na && AfterSorted(ordered) && forall x :: x in ordered ==> HasAfter(x)
    requires FirstBelow(removals, 0, 0)
    ensures Spliced(SpliceAll(ordered, removals[..k]), ordered, removals, k)
    ensures Counted(ms, lo, k) && FirstBelow(removals, k, lo)
  {
    if k == 0 {
      NothingSpliced(ordered, removals, ms);
      assert PairedBelow(ms, 0) == {};
      lo := 0;
    } else {
      lo := SpliceAllSplices(ordered, removals, ms, used, na, k - 1);
      SpliceAllNext(ordered, removals, ms, used, na, k - 1, lo);
      lo := removals[k - 1].beforeIndex.value + 1;
    }
  }

  method AssembleMapping(ms: seq<Match>, used: set<nat>, na: nat) returns (orderedItems: seq<IndexMappingItem>)
    requires Matching(ms, used, na)
    ensures ValidMapping(orderedItems, |ms|, na) && Follows(orderedItems, ms)
  {
    var matches := CollectItems(ms, used, na);
    var ordered := SortBy(AfterLe, Filter(HasAfter, matches));
    var removals := SortBy(BeforeLe, Filter(IsRemoval, matches));
    SortedByAfter(matches, ms, used, na, ordered);
    OrderedItems(matches, ms, used, na, ordered);
    SortedRemovals(matches, ms, used, na, removals);
    NothingSpliced(ordered, removals, ms);
    orderedItems := ordered;
    for k := 0 to |removals|
      invariant orderedItems == SpliceAll(ordered, removals[..k])
    {
      SpliceAllStep(ordered, removals, k);
      orderedItems := Splice(orderedItems, removals[k].beforeIndex.value, removals[k]);
    }
    var _ := SpliceAllSplices(ordered, removals, ms, used, na, |removals|);
    assert removals[..|removals|] == removals;
    ResultIsExact(orderedItems, matches, ms, used, na);
  }

  /** How the four passes arrive at the matches: by what each item is offered for its exact key;
      by what the unmatched ones are offered for their top-level key; by equal index; and last by
      the highest free after index that keeps the order of every pair, if there is one. */
  ghost predicate MatchedInPasses<E(!new), T(!new)>(ms: seq<Match>, used: set<nat>, exactBefore: seq<E>,
                                                    exactAfter: seq<E>, topBefore: seq<T>, topAfter: seq<T>,
                                                    byExactKey: seq<Match>, byTopLevelKey: seq<Match>,
                                                    byIndex: seq<Match>) {
    && |exactBefore| == |topBefore| == |ms| && |exactAfter| == |topAfter|
    && OffersTaken(NoMatches(|ms|), byExactKey, exactBefore, exactAfter, |ms|)
    && OffersTaken(byExactKey, byTopLevelKey, topBefore, topAfter, |ms|)
    && OwnIndexesTaken(byTopLevelKey, byIndex, |exactAfter|, |ms|)
    && Keeps(byIndex, ms) && AddsInOrder(byIndex, ms)
    && NoneFits(ms, used, |exactAfter|, 0) && TakesHighest(byIndex, ms, used, |exactAfter|, 0)
  }

  /** The mapping is the one the passes lead to. */
  ghost predicate LedTo<E(!new), T(!new)>(mapping: seq<IndexMappingItem>, ms: seq<Match>, used: set<nat>,
                                          exactBefore: seq<E>, exactAfter: seq<E>, topBefore: seq<T>, topAfter: seq<T>,
                                          byExactKey: seq<Match>, byTopLevelKey: seq<Match>, byIndex: seq<Match>) {
    && MatchedInPasses(ms, used, exactBefore, exactAfter, topBefore, topAfter, byExactKey, byTopLevelKey, byIndex)
    && Matching(ms, used, |exactAfter|) && Follows(mapping, ms)
  }

  /** What the source's comment promises of the mapping, and how it comes about. */
  ghost predicate IsIndexMapping<E(!new), T(!new)>(mapping: seq<IndexMappingItem>, exactBefore: seq<E>,
                                                   exactAfter: seq<E>, topBefore: seq<T>, topAfter: seq<T>) {
    && ValidMapping(mapping, |exactBefore|, |exactAfter|)
    && exists ms, used, byExactKey, byTopLevelKey, byIndex ::
         LedTo(mapping, ms, used, exactBefore, exactAfter, topBefore, topAfter, byExactKey, byTopLevelKey, byIndex)
  }

  /** The mapping the source computes, for any two key functions that name no inherited property. */
  method GetArrayIndexMapping<V, E(==, !new), T(==, !new)>(before: seq<V>, after: seq<V>, exactKey: V -> E,
                                                           topLevelKey: V -> T)
    returns (mapping: seq<IndexMappingItem>)
    ensures ValidMapping(mapping, |before|, |after|)
    ensures IsIndexMapping(mapping, Keys(before, exactKey), Keys(after, exactKey), Keys(before, topLevelKey),
                           Keys(after, topLevelKey))
  {
    var exactBefore, exactAfter := Keys(before, exactKey), Keys(after, exactKey);
    var topBefore, topAfter := Keys(before, topLevelKey), Keys(after, topLevelKey);
    var matchesAfterExactKey, matchesAfterKey, matchesAfterIndex, matches, matchedAfterIndexes;
    matchesAfterExactKey, matchedAfterIndexes := MatchByExactKey(exactBefore, exactAfter);
    matchesAfterKey, matchedAfterIndexes :=
      MatchByTopLevelKey(matchesAfterExactKey, matchedAfterIndexes, topBefore, topAfter);
    matchesAfterIndex, matchedAfterIndexes := MatchByIndex(matchesAfterKey, matchedAfterIndexes, |after|);
    matches, matchedAfterIndexes := MatchInOrder(matchesAfterIndex, matchedAfterIndexes, |after|);
    mapping := AssembleMapping(matches, matchedAfterIndexes, |after|);
    assert LedTo(mapping, matches, matchedAfterIndexes, exactBefore, exactAfter, topBefore, topAfter,
                 matchesAfterExactKey, matchesAfterKey, matchesAfterIndex);
  }

  function Keys<V, K>(list: seq<V>, key: V -> K): (keys: seq<K>)
    ensures |keys| == |list|
  {
    seq(|list|, i requires 0 <= i < |list| => key(list[i]))
  }
}
