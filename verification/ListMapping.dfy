/** Matching the items of two lists: the four passes of `getArrayIndexMapping`. */
module ListMapping {
  import opened Wrappers

  /** What is known of one item of the before list: the after index it is matched with, and
      the highest after index matched so far. */
  datatype Match = Match(afterIndex: Option<nat>, minAfterIndex: int)

  function Max(a: int, b: int): int {
    if a < b then b else a
  }

  function Min(a: int, b: int): int {
    if a < b then a else b
  }

  // ----- what holds between the passes -----

  ghost predicate Pair(ms: seq<Match>, i: int, j: int) {
    0 <= i < |ms| && ms[i].afterIndex.Some? && ms[i].afterIndex.value == j
  }

  /** Every pair has its own after index, and `used` are the after indexes in pairs. */
  ghost predicate Matching(ms: seq<Match>, used: set<nat>, na: nat) {
    && (forall i, j :: Pair(ms, i, j) ==> 0 <= j < na && j in used)
    && (forall i, i', j :: Pair(ms, i, j) && Pair(ms, i', j) ==> i == i')
    && (forall j :: j in used ==> IsPaired(ms, j))
  }

  ghost predicate IsPaired(ms: seq<Match>, j: int) {
    exists i :: Pair(ms, i, j)
  }

  /** `m` is the highest after index paired below `i`, or -1. */
  ghost predicate HighestBelow(ms: seq<Match>, i: int, m: int) {
    && -1 <= m
    && (forall i', j :: Pair(ms, i', j) && i' < i ==> j <= m)
    && (m >= 0 ==> exists i' :: i' < i && Pair(ms, i', m))
  }

  /** Where an unmatched item may not go: the bound is the highest pair before it. */
  ghost predicate Bounded(ms: seq<Match>) {
    forall i :: 0 <= i < |ms| && ms[i].afterIndex.None? ==> HighestBelow(ms, i, ms[i].minAfterIndex)
  }

  ghost predicate Keeps(earlier: seq<Match>, later: seq<Match>) {
    && |earlier| == |later|
    && forall i, j :: Pair(earlier, i, j) ==> Pair(later, i, j)
  }

  lemma MatchingOneMore(ms: seq<Match>, used: set<nat>, na: nat, k: nat, j: nat, m: Match)
    requires Matching(ms, used, na) && k < |ms| && ms[k].afterIndex.None?
    requires j < na && j !in used && m.afterIndex == Some(j)
    ensures Matching(ms[k := m], used + {j}, na) && Keeps(ms, ms[k := m])
    ensures forall i, x :: Pair(ms[k := m], i, x) <==> Pair(ms, i, x) || (i == k && x == j)
  {
    var ms' := ms[k := m];
    assert Pair(ms', k, j);
    assert forall i, x :: Pair(ms', i, x) <==> Pair(ms, i, x) || (i == k && x == j);
    assert forall i :: !Pair(ms, i, j);
    assert IsPaired(ms', j);
    forall x | x in used
      ensures IsPaired(ms', x)
    {
      var i :| Pair(ms, i, x);
      assert Pair(ms', i, x);
    }
  }

  lemma SamePairs(ms: seq<Match>, k: nat, m: Match)
    requires k < |ms| && ms[k].afterIndex == m.afterIndex
    ensures forall i, x :: Pair(ms[k := m], i, x) <==> Pair(ms, i, x)
    ensures Keeps(ms, ms[k := m])
  {}

  lemma SamePairsMatching(ms: seq<Match>, ms': seq<Match>, used: set<nat>, na: nat)
    requires Matching(ms, used, na) && forall i, x :: Pair(ms', i, x) <==> Pair(ms, i, x)
    ensures Matching(ms', used, na)
  {
    forall x | x in used
      ensures IsPaired(ms', x)
    {
      var i :| Pair(ms, i, x);
      assert Pair(ms', i, x);
    }
  }

  // ----- keys -----

  ghost predicate Increasing(s: seq<nat>) {
    forall x, y :: 0 <= x < y < |s| ==> s[x] < s[y]
  }

  /** For each key, the indexes below `n` that have it and are not in `used`, in order. */
  ghost predicate Remaining<Key(!new)>(keys: seq<Key>, indexes: map<Key, seq<nat>>, used: set<nat>, n: nat)
    requires n <= |keys|
  {
    && (forall k {:trigger Increasing(indexes[k])} :: k in indexes ==> Increasing(indexes[k]))
    && (forall k, j {:trigger j in indexes[k]} :: k in indexes && j in indexes[k] ==>
          j < n && keys[j] == k && j !in used)
    && (forall j {:trigger keys[j]} :: 0 <= j < n && j !in used ==> keys[j] in indexes && j in indexes[keys[j]])
  }

  // ----- which index an item is offered -----

  /** All the indexes that have the key, in order. */
  ghost function IndexesOf<Key>(keys: seq<Key>, key: Key): seq<nat> {
    if keys == [] then []
    else
      var n := |keys| - 1;
      IndexesOf(keys[..n], key) + if keys[n] == key then [n] else []
  }

  /** How many unmatched items before item `k` have the key. */
  ghost function Asked<Key>(ms: seq<Match>, keys: seq<Key>, key: Key, k: nat): nat
    requires k <= |ms| && k <= |keys|
  {
    if k == 0 then 0
    else Asked(ms, keys, key, k - 1) + if ms[k - 1].afterIndex.None? && keys[k - 1] == key then 1 else 0
  }

  /** Every unmatched item takes an index off its key's list, so item `k` is offered the one
      after all those its predecessors were offered. */
  ghost function Offer<Key>(ms: seq<Match>, beforeKeys: seq<Key>, afterKeys: seq<Key>, k: nat): Option<nat>
    requires k < |ms| && k < |beforeKeys|
  {
    var indexes, asked := IndexesOf(afterKeys, beforeKeys[k]), Asked(ms, beforeKeys, beforeKeys[k], k);
    if asked < |indexes| then Some(indexes[asked]) else None
  }

  /** The after indexes in pairs. */
  ghost function AfterIndexes(ms: seq<Match>): set<nat> {
    set i | 0 <= i < |ms| && ms[i].afterIndex.Some? :: ms[i].afterIndex.value
  }

  lemma UsedAreAfterIndexes(ms: seq<Match>, used: set<nat>, na: nat)
    requires Matching(ms, used, na)
    ensures used == AfterIndexes(ms)
  {
    forall j
      ensures j in used <==> j in AfterIndexes(ms)
    {
      if j in used {
        assert IsPaired(ms, j);
        var i :| Pair(ms, i, j);
        assert 0 <= i < |ms|;
      }
      if j in AfterIndexes(ms) {
        var i :| 0 <= i < |ms| && ms[i].afterIndex.Some? && ms[i].afterIndex.value == j;
        assert Pair(ms, i, j);
      }
    }
  }

  /** What becomes of item `i` in a pass by keys: it keeps its pair, or takes what it is
      offered unless that was in a pair before the pass. */
  ghost function TakesOffer<Key>(earlier: seq<Match>, beforeKeys: seq<Key>, afterKeys: seq<Key>, i: nat): Option<nat>
    requires i < |earlier| && i < |beforeKeys|
  {
    if earlier[i].afterIndex.Some? then earlier[i].afterIndex
    else
      var offer := Offer(earlier, beforeKeys, afterKeys, i);
      if offer.Some? && offer.value !in AfterIndexes(earlier) then offer else None
  }

  /** The pass by keys did to the first `k` items exactly what it should. */
  ghost predicate OffersTaken<Key>(earlier: seq<Match>, later: seq<Match>, beforeKeys: seq<Key>, afterKeys: seq<Key>,
                                   k: nat) {
    && |earlier| == |later| == |beforeKeys|
    && forall i {:trigger later[i]} :: 0 <= i < k && i < |later| ==>
         later[i].afterIndex == TakesOffer(earlier, beforeKeys, afterKeys, i)
  }

  ghost function ListFor<Key>(indexes: map<Key, seq<nat>>, key: Key): seq<nat> {
    if key in indexes then indexes[key] else []
  }

  ghost function Dropped(s: seq<nat>, n: nat): seq<nat> {
    if n <= |s| then s[n..] else []
  }

  /** What is left on each key's list when the items before `k` have asked. */
  ghost predicate LeftToOffer<Key(!new)>(indexes: map<Key, seq<nat>>, ms: seq<Match>, beforeKeys: seq<Key>,
                                         afterKeys: seq<Key>, k: nat)
    requires k <= |ms| && k <= |beforeKeys|
  {
    forall key {:trigger ListFor(indexes, key)} ::
      ListFor(indexes, key) == Dropped(IndexesOf(afterKeys, key), Asked(ms, beforeKeys, key, k))
  }

  /** An item that does not ask leaves the lists alone. */
  lemma LeftWhenNotAsked<Key(!new)>(indexes: map<Key, seq<nat>>, ms: seq<Match>, beforeKeys: seq<Key>,
                                    afterKeys: seq<Key>, k: nat)
    requires k < |ms| && k < |beforeKeys| && LeftToOffer(indexes, ms, beforeKeys, afterKeys, k)
    requires ms[k].afterIndex.Some?
    ensures LeftToOffer(indexes, ms, beforeKeys, afterKeys, k + 1)
  {
    forall key
      ensures ListFor(indexes, key) == Dropped(IndexesOf(afterKeys, key), Asked(ms, beforeKeys, key, k + 1))
    {
      assert Asked(ms, beforeKeys, key, k + 1) == Asked(ms, beforeKeys, key, k);
    }
  }

  /** `first` and the new lists are what shifting the key's list gives. */
  ghost predicate Shifted<Key(!new)>(indexes: map<Key, seq<nat>>, k: Key, first: Option<nat>,
                                     indexes': map<Key, seq<nat>>) {
    && first == (if ListFor(indexes, k) == [] then None else Some(ListFor(indexes, k)[0]))
    && forall key {:trigger ListFor(indexes', key)} ::
         ListFor(indexes', key) == if key == k then Dropped(ListFor(indexes, k), 1) else ListFor(indexes, key)
  }

  /** An item that asks gets its offer, and the lists are left for the next. */
  lemma LeftWhenAsked<Key(!new)>(indexes: map<Key, seq<nat>>, ms: seq<Match>, beforeKeys: seq<Key>, afterKeys: seq<Key>,
                                 k: nat, first: Option<nat>, indexes': map<Key, seq<nat>>)
    requires k < |ms| && k < |beforeKeys| && LeftToOffer(indexes, ms, beforeKeys, afterKeys, k)
    requires ms[k].afterIndex.None? && Shifted(indexes, beforeKeys[k], first, indexes')
    ensures first == Offer(ms, beforeKeys, afterKeys, k)
    ensures LeftToOffer(indexes', ms, beforeKeys, afterKeys, k + 1)
  {
    forall key
      ensures ListFor(indexes', key) == Dropped(IndexesOf(afterKeys, key), Asked(ms, beforeKeys, key, k + 1))
    {
      var list, asked := IndexesOf(afterKeys, key), Asked(ms, beforeKeys, key, k);
      assert ListFor(indexes, key) == Dropped(list, asked);
      if key == beforeKeys[k] {
        assert Asked(ms, beforeKeys, key, k + 1) == asked + 1;
        assert Dropped(Dropped(list, asked), 1) == Dropped(list, asked + 1);
      }
    }
  }

  /** Takes the first index with the key, if any is left, as `shift` does. */
  method Shift<Key(==, !new)>(keys: seq<Key>, indexes: map<Key, seq<nat>>, k: Key, ghost used: set<nat>)
    returns (first: Option<nat>, indexes': map<Key, seq<nat>>)
    requires Remaining(keys, indexes, used, |keys|)
    ensures first.Some? ==>
      && first.value < |keys| && keys[first.value] == k && first.value !in used
      && Remaining(keys, indexes', used + {first.value}, |keys|)
      && k in indexes && first.value in indexes[k]
      && forall j, k' {:trigger j in indexes'[k']} :: k' in indexes' && j in indexes'[k'] ==>
           k' in indexes && j in indexes[k'] && (k' == k ==> first.value < j)
    ensures first.None? ==>
      && indexes' == indexes
      && forall j :: 0 <= j < |keys| && keys[j] == k ==> j in used
    ensures Shifted(indexes, k, first, indexes')
  {
    if k !in indexes || indexes[k] == [] {
      return None, indexes;
    }
    var list := indexes[k];
    assert Increasing(list);
    assert list[0] in list;
    first := Some(list[0]);
    indexes' := indexes[k := list[1..]];
    assert forall j :: j in list <==> j == list[0] || j in list[1..];
    assert forall j :: j in list[1..] ==> list[0] < j;
    forall k', j | k' in indexes' && j in indexes'[k']
      ensures j < |keys| && keys[j] == k' && j !in used + {list[0]}
    {
      assert j in indexes[k'];
    }
  }

  lemma IncreasingAppend(s: seq<nat>, n: nat)
    requires Increasing(s) && forall j :: j in s ==> j < n
    ensures Increasing(s + [n])
  {
    assert forall x :: 0 <= x < |s| ==> s[x] in s;
  }

  method BuildKeyToIndicesMap<Key(==, !new)>(keys: seq<Key>) returns (indexes: map<Key, seq<nat>>)
    ensures Remaining(keys, indexes, {}, |keys|)
    ensures forall key {:trigger ListFor(indexes, key)} :: ListFor(indexes, key) == IndexesOf(keys, key)
  {
    indexes := map[];
    for n := 0 to |keys|
      invariant Remaining(keys, indexes, {}, n)
      invariant forall key {:trigger ListFor(indexes, key)} :: ListFor(indexes, key) == IndexesOf(keys[..n], key)
    {
      assert keys[..n + 1][..n] == keys[..n];
      ghost var before := indexes;
      var k := keys[n];
      var seen := if k in indexes then indexes[k] else [];
      assert k in indexes ==> Increasing(indexes[k]);
      IncreasingAppend(seen, n);
      indexes := indexes[k := seen + [n]];
      forall key
        ensures ListFor(indexes, key) == IndexesOf(keys[..n + 1], key)
      {
        assert ListFor(before, key) == IndexesOf(keys[..n], key);
      }
    }
    assert keys[..|keys|] == keys;
  }

  // ----- first pass: the key of the whole item -----

  ghost predicate SameKeys<Key(!new)>(ms: seq<Match>, beforeKeys: seq<Key>, afterKeys: seq<Key>) {
    forall i, j :: Pair(ms, i, j) ==> i < |beforeKeys| && 0 <= j < |afterKeys| && beforeKeys[i] == afterKeys[j]
  }

  /** Items with equal keys are paired in their order. */
  ghost predicate InOrder<Key(!new)>(ms: seq<Match>, keys: seq<Key>) {
    forall i, i', j, j' {:trigger Pair(ms, i, j), Pair(ms, i', j')} ::
      Pair(ms, i, j) && Pair(ms, i', j') && i < i' < |keys| && keys[i] == keys[i'] ==> j < j'
  }

  /** An item below `k` is left without a match only if its key is used up. */
  ghost predicate UsedUp<Key(!new)>(ms: seq<Match>, used: set<nat>, beforeKeys: seq<Key>, afterKeys: seq<Key>, k: nat) {
    forall i, j {:trigger ms[i], afterKeys[j]} ::
      0 <= i < k && i < |ms| && i < |beforeKeys| && ms[i].afterIndex.None?
      && 0 <= j < |afterKeys| && afterKeys[j] == beforeKeys[i]
      ==> j in used
  }

  /** Everything still on offer for a key comes after what was taken for it. */
  ghost predicate TakenFirst<Key(!new)>(ms: seq<Match>, keys: seq<Key>, indexes: map<Key, seq<nat>>) {
    forall i, j, j' {:trigger Pair(ms, i, j), j' in indexes[keys[i]]} ::
      Pair(ms, i, j) && i < |keys| && keys[i] in indexes && j' in indexes[keys[i]] ==> j < j'
  }

  /** The pairs the pass has made before item `k`. */
  ghost predicate ExactPairs<Key(!new)>(ms: seq<Match>, used: set<nat>, beforeKeys: seq<Key>, afterKeys: seq<Key>,
                                        indexes: map<Key, seq<nat>>, k: nat) {
    && |ms| == |beforeKeys| && (forall i {:trigger ms[i]} :: k <= i < |ms| ==> ms[i].afterIndex.None?)
    && Matching(ms, used, |afterKeys|) && Remaining(afterKeys, indexes, used, |afterKeys|)
    && SameKeys(ms, beforeKeys, afterKeys) && InOrder(ms, beforeKeys) && TakenFirst(ms, beforeKeys, indexes)
    && UsedUp(ms, used, beforeKeys, afterKeys, k)
  }

  /** The bounds the pass has recorded before item `k`. */
  ghost predicate ExactBounds(ms: seq<Match>, k: nat, highest: int) {
    && k <= |ms| && HighestBelow(ms, k, highest)
    && forall i {:trigger ms[i]} :: 0 <= i < k ==> HighestBelow(ms, i + 1, ms[i].minAfterIndex)
  }

  lemma ExactPairsTake<Key(!new)>(ms: seq<Match>, used: set<nat>, beforeKeys: seq<Key>, afterKeys: seq<Key>,
                                  indexes: map<Key, seq<nat>>, k: nat, j: nat, indexes': map<Key, seq<nat>>, m: Match)
    requires ExactPairs(ms, used, beforeKeys, afterKeys, indexes, k) && k < |ms|
    requires j < |afterKeys| && afterKeys[j] == beforeKeys[k] && j !in used && m.afterIndex == Some(j)
    requires beforeKeys[k] in indexes && j in indexes[beforeKeys[k]]
    requires Remaining(afterKeys, indexes', used + {j}, |afterKeys|)
    requires forall x, key {:trigger x in indexes'[key]} :: key in indexes' && x in indexes'[key] ==>
      key in indexes && x in indexes[key] && (key == beforeKeys[k] ==> j < x)
    ensures ExactPairs(ms[k := m], used + {j}, beforeKeys, afterKeys, indexes', k + 1)
  {
    MatchingOneMore(ms, used, |afterKeys|, k, j, m);
    InOrderTakes(ms, ms[k := m], beforeKeys, indexes, k, j);
    TakenFirstTakes(ms, ms[k := m], beforeKeys, indexes, k, j, indexes');
    UsedUpTakes(ms, used, beforeKeys, afterKeys, k, j, m);
  }

  lemma ExactPairsSkip<Key(!new)>(ms: seq<Match>, used: set<nat>, beforeKeys: seq<Key>, afterKeys: seq<Key>,
                                  indexes: map<Key, seq<nat>>, k: nat, m: Match)
    requires ExactPairs(ms, used, beforeKeys, afterKeys, indexes, k) && k < |ms|
    requires m.afterIndex == None
    requires forall j :: 0 <= j < |afterKeys| && afterKeys[j] == beforeKeys[k] ==> j in used
    ensures ExactPairs(ms[k := m], used, beforeKeys, afterKeys, indexes, k + 1)
  {
    var ms' := ms[k := m];
    SamePairs(ms, k, m);
    SamePairsMatching(ms, ms', used, |afterKeys|);
    forall i, x | 0 <= i < k + 1 && i < |ms'| && ms'[i].afterIndex.None?
                  && 0 <= x < |afterKeys| && afterKeys[x] == beforeKeys[i]
      ensures x in used
    {
      assert i != k ==> ms'[i] == ms[i];
    }
  }

  lemma ExactBoundsNext(ms: seq<Match>, k: nat, highest: int, m: Match)
    requires ExactBounds(ms, k, highest) && k < |ms|
    requires m.minAfterIndex == if m.afterIndex.Some? then Max(highest, m.afterIndex.value) else highest
    ensures ExactBounds(ms[k := m], k + 1, m.minAfterIndex)
  {
    var ms' := ms[k := m];
    if m.afterIndex.Some? {
      HighestAfterMatch(ms, k, highest, m.afterIndex.value, m);
    } else {
      HighestSame(ms, ms', k, highest);
      assert forall j :: !Pair(ms', k, j);
    }
    forall i | 0 <= i < k
      ensures HighestBelow(ms', i + 1, ms'[i].minAfterIndex)
    {
      assert HighestBelow(ms, i + 1, ms[i].minAfterIndex);
      HighestSame(ms, ms', i + 1, ms[i].minAfterIndex);
    }
  }

  lemma InOrderTakes<Key(!new)>(ms: seq<Match>, ms': seq<Match>, keys: seq<Key>, indexes: map<Key, seq<nat>>, k: nat,
                                j: nat)
    requires InOrder(ms, keys) && TakenFirst(ms, keys, indexes) && (forall i, x :: Pair(ms, i, x) ==> i < k)
    requires k < |keys| && keys[k] in indexes && j in indexes[keys[k]]
    requires forall i, x :: Pair(ms', i, x) <==> Pair(ms, i, x) || (i == k && x == j)
    ensures InOrder(ms', keys)
  {
    forall i, x | Pair(ms, i, x) && keys[i] == keys[k]
      ensures x < j
    {
      assert j in indexes[keys[i]];
    }
  }

  lemma TakenFirstTakes<Key(!new)>(ms: seq<Match>, ms': seq<Match>, keys: seq<Key>, indexes: map<Key, seq<nat>>, k: nat,
                                   j: nat, indexes': map<Key, seq<nat>>)
    requires TakenFirst(ms, keys, indexes) && k < |keys|
    requires forall x, key {:trigger x in indexes'[key]} :: key in indexes' && x in indexes'[key] ==>
      key in indexes && x in indexes[key] && (key == keys[k] ==> j < x)
    requires forall i, x :: Pair(ms', i, x) <==> Pair(ms, i, x) || (i == k && x == j)
    ensures TakenFirst(ms', keys, indexes')
  {}

  lemma UsedUpTakes<Key(!new)>(ms: seq<Match>, used: set<nat>, beforeKeys: seq<Key>, afterKeys: seq<Key>, k: nat,
                               j: nat, m: Match)
    requires UsedUp(ms, used, beforeKeys, afterKeys, k) && k < |ms| && m.afterIndex.Some?
    ensures UsedUp(ms[k := m], used + {j}, beforeKeys, afterKeys, k + 1)
  {
    var ms' := ms[k := m];
    forall i, x | 0 <= i < k + 1 && i < |ms'| && i < |beforeKeys| && ms'[i].afterIndex.None?
                  && 0 <= x < |afterKeys| && afterKeys[x] == beforeKeys[i]
      ensures x in used + {j}
    {
      assert ms'[i] == ms[i];
    }
  }

  lemma HighestAfterMatch(ms: seq<Match>, k: nat, highest: int, j: nat, m: Match)
    requires k < |ms| && HighestBelow(ms, k, highest) && m.afterIndex == Some(j)
    ensures HighestBelow(ms[k := m], k + 1, Max(highest, j))
  {
    var ms' := ms[k := m];
    assert forall i, x :: i < k ==> (Pair(ms', i, x) <==> Pair(ms, i, x));
    assert Pair(ms', k, j);
  }

  lemma HighestSame(ms: seq<Match>, ms': seq<Match>, i: int, highest: int)
    requires HighestBelow(ms, i, highest)
    requires forall i', x :: i' < i ==> (Pair(ms', i', x) <==> Pair(ms, i', x))
    ensures HighestBelow(ms', i, highest)
  {}

  function NoMatches(n: nat): (ms: seq<Match>)
    ensures |ms| == n
  {
    seq(n, _ => Match(None, -1))
  }

  lemma NothingAsked<Key(!new)>(indexes: map<Key, seq<nat>>, ms: seq<Match>, beforeKeys: seq<Key>, afterKeys: seq<Key>)
    requires forall key {:trigger ListFor(indexes, key)} :: ListFor(indexes, key) == IndexesOf(afterKeys, key)
    ensures LeftToOffer(indexes, ms, beforeKeys, afterKeys, 0)
  {
    forall key
      ensures ListFor(indexes, key) == Dropped(IndexesOf(afterKeys, key), Asked(ms, beforeKeys, key, 0))
    {
      assert Dropped(IndexesOf(afterKeys, key), 0) == IndexesOf(afterKeys, key);
    }
  }

  lemma TakesNext<Key>(earlier: seq<Match>, later: seq<Match>, beforeKeys: seq<Key>, afterKeys: seq<Key>, k: nat,
                       m: Match)
    requires OffersTaken(earlier, later, beforeKeys, afterKeys, k) && k < |later|
    requires m.afterIndex == TakesOffer(earlier, beforeKeys, afterKeys, k)
    ensures OffersTaken(earlier, later[k := m], beforeKeys, afterKeys, k + 1)
  {}

  method MatchByExactKey<Key(==, !new)>(beforeKeys: seq<Key>, afterKeys: seq<Key>)
    returns (ms: seq<Match>, used: set<nat>)
    ensures |ms| == |beforeKeys| && Matching(ms, used, |afterKeys|)
    ensures OffersTaken(NoMatches(|ms|), ms, beforeKeys, afterKeys, |ms|)
    ensures SameKeys(ms, beforeKeys, afterKeys) && InOrder(ms, beforeKeys)
    ensures UsedUp(ms, used, beforeKeys, afterKeys, |ms|)
    ensures forall i {:trigger ms[i]} :: 0 <= i < |ms| ==> HighestBelow(ms, i + 1, ms[i].minAfterIndex)
  {
    var afterIndexes := BuildKeyToIndicesMap(afterKeys);
    used := {};
    ms := NoMatches(|beforeKeys|);
    ghost var none := ms;
    var maxAfterIndexMatched := -1;
    NothingAsked(afterIndexes, none, beforeKeys, afterKeys);
    assert AfterIndexes(none) == {};
    for k := 0 to |beforeKeys|
      invariant ExactPairs(ms, used, beforeKeys, afterKeys, afterIndexes, k)
      invariant ExactBounds(ms, k, maxAfterIndexMatched)
      invariant LeftToOffer(afterIndexes, none, beforeKeys, afterKeys, k)
      invariant OffersTaken(none, ms, beforeKeys, afterKeys, k)
    {
      var matchedAfterIndex;
      ghost var indexes, highest := afterIndexes, maxAfterIndexMatched;
      matchedAfterIndex, afterIndexes := Shift(afterKeys, afterIndexes, beforeKeys[k], used);
      LeftWhenAsked(indexes, none, beforeKeys, afterKeys, k, matchedAfterIndex, afterIndexes);
      if matchedAfterIndex.Some? {
        maxAfterIndexMatched := Max(maxAfterIndexMatched, matchedAfterIndex.value);
      }
      var m := Match(matchedAfterIndex, maxAfterIndexMatched);
      ExactBoundsNext(ms, k, highest, m);
      if matchedAfterIndex.Some? {
        ExactPairsTake(ms, used, beforeKeys, afterKeys, indexes, k, matchedAfterIndex.value, afterIndexes, m);
        used := used + {matchedAfterIndex.value};
      } else {
        ExactPairsSkip(ms, used, beforeKeys, afterKeys, indexes, k, m);
      }
      TakesNext(none, ms, beforeKeys, afterKeys, k, m);
      ms := ms[k := m];
    }
  }

  // ----- second pass: the key of the top-level values -----

  /** The first `k` items gone through: an unmatched one is bounded by all the pairs before
      it, and what is beyond is as it was. */
  ghost predicate Prefix(ms: seq<Match>, ms': seq<Match>, k: nat) {
    && Keeps(ms, ms') && k <= |ms|
    && (forall i {:trigger ms'[i]} :: k <= i < |ms| ==> ms'[i] == ms[i])
    && BoundedUpTo(ms', k)
  }

  ghost predicate BoundedUpTo(ms: seq<Match>, k: nat) {
    forall i {:trigger ms[i]} :: 0 <= i < k && i < |ms| && ms[i].afterIndex.None? ==>
      HighestBelow(ms, i, ms[i].minAfterIndex)
  }

  lemma PrefixTakes(ms: seq<Match>, ms': seq<Match>, used: set<nat>, na: nat, k: nat, j: nat, m: Match)
    requires Prefix(ms, ms', k) && Matching(ms', used, na) && k < |ms| && ms[k].afterIndex.None?
    requires j < na && j !in used && m.afterIndex == Some(j)
    ensures Prefix(ms, ms'[k := m], k + 1) && Matching(ms'[k := m], used + {j}, na)
    ensures forall i, x :: Pair(ms'[k := m], i, x) <==> Pair(ms', i, x) || (i == k && x == j)
  {
    MatchingOneMore(ms', used, na, k, j, m);
    forall i | 0 <= i < k && ms'[i].afterIndex.None?
      ensures HighestBelow(ms'[k := m], i, ms'[i].minAfterIndex)
    {
      HighestSame(ms', ms'[k := m], i, ms'[i].minAfterIndex);
    }
  }

  lemma PrefixKeeps(ms: seq<Match>, ms': seq<Match>, used: set<nat>, na: nat, k: nat, m: Match)
    requires Prefix(ms, ms', k) && Matching(ms', used, na) && k < |ms|
    requires m.afterIndex == ms[k].afterIndex
    requires m.afterIndex.None? ==> HighestBelow(ms', k, m.minAfterIndex)
    ensures Prefix(ms, ms'[k := m], k + 1) && Matching(ms'[k := m], used, na)
    ensures forall i, x :: Pair(ms'[k := m], i, x) <==> Pair(ms', i, x)
  {
    assert ms'[k] == ms[k];
    SamePairs(ms', k, m);
    SamePairsMatching(ms', ms'[k := m], used, na);
    var later := ms'[k := m];
    forall i | 0 <= i <= k && later[i].afterIndex.None?
      ensures HighestBelow(later, i, later[i].minAfterIndex)
    {
      assert i < k ==> later[i] == ms'[i];
      HighestSame(ms', later, i, later[i].minAfterIndex);
    }
  }

  /** What the first pass recorded at `k` covers its pairs up to `k`. */
  lemma HighestOverOld(ms: seq<Match>, ms': seq<Match>, k: nat, highest: int, bound: int)
    requires Prefix(ms, ms', k) && k < |ms|
    requires HighestBelow(ms', k, highest) && HighestBelow(ms, k + 1, bound)
    ensures ms[k].afterIndex.Some? ==> HighestBelow(ms', k + 1, Max(highest, bound))
    ensures ms[k].afterIndex.None? ==> HighestBelow(ms', k + 1, highest) && bound <= highest
  {
    assert ms'[k] == ms[k];
    forall j | Pair(ms', k, j)
      ensures Pair(ms, k, j)
    {}
    if ms[k].afterIndex.None? && bound >= 0 {
      var i :| i < k + 1 && Pair(ms, i, bound);
      assert Pair(ms', i, bound);
    }
  }

  /** Pairs `later` adds satisfy the pass's own condition: equal keys. */
  ghost predicate AddsSameKeys<Key(!new)>(earlier: seq<Match>, later: seq<Match>, beforeKeys: seq<Key>,
                                          afterKeys: seq<Key>) {
    forall i, j :: Pair(later, i, j) && !Pair(earlier, i, j) ==>
      i < |beforeKeys| && 0 <= j < |afterKeys| && beforeKeys[i] == afterKeys[j]
  }

  /** The first `k` items gone through, with the highest pair so far. */
  ghost predicate TopLevelPairs<Key(!new)>(ms: seq<Match>, ms': seq<Match>, used': set<nat>, beforeKeys: seq<Key>,
                                           afterKeys: seq<Key>, k: nat, highest: int) {
    && Prefix(ms, ms', k) && Matching(ms', used', |afterKeys|)
    && OffersTaken(ms, ms', beforeKeys, afterKeys, k)
    && HighestBelow(ms', k, highest)
  }

  lemma TopLevelTakes<Key(!new)>(ms: seq<Match>, ms': seq<Match>, used': set<nat>, beforeKeys: seq<Key>,
                                 afterKeys: seq<Key>, k: nat, highest: int, j: nat)
    requires TopLevelPairs(ms, ms', used', beforeKeys, afterKeys, k, highest) && k < |ms| && ms[k].afterIndex.None?
    requires j < |afterKeys| && j !in used' && TakesOffer(ms, beforeKeys, afterKeys, k) == Some(j)
    ensures TopLevelPairs(ms, ms'[k := Match(Some(j), Max(highest, j))], used' + {j}, beforeKeys, afterKeys, k + 1,
                          Max(highest, j))
  {
    var m := Match(Some(j), Max(highest, j));
    HighestAfterMatch(ms', k, highest, j, m);
    PrefixTakes(ms, ms', used', |afterKeys|, k, j, m);
    TakesNext(ms, ms', beforeKeys, afterKeys, k, m);
  }

  lemma TopLevelSkips<Key(!new)>(ms: seq<Match>, ms': seq<Match>, used': set<nat>, beforeKeys: seq<Key>,
                                 afterKeys: seq<Key>, k: nat, highest: int)
    requires TopLevelPairs(ms, ms', used', beforeKeys, afterKeys, k, highest) && k < |ms| && ms[k].afterIndex.None?
    requires TakesOffer(ms, beforeKeys, afterKeys, k).None?
    ensures TopLevelPairs(ms, ms'[k := Match(None, highest)], used', beforeKeys, afterKeys, k + 1, highest)
  {
    var m := Match(None, highest);
    PrefixKeeps(ms, ms', used', |afterKeys|, k, m);
    TakesNext(ms, ms', beforeKeys, afterKeys, k, m);
    HighestSame(ms', ms'[k := m], k + 1, highest);
  }

  lemma TopLevelKeeps<Key(!new)>(ms: seq<Match>, ms': seq<Match>, used': set<nat>, beforeKeys: seq<Key>,
                                 afterKeys: seq<Key>, k: nat, highest: int)
    requires TopLevelPairs(ms, ms', used', beforeKeys, afterKeys, k, highest) && k < |ms| && ms[k].afterIndex.Some?
    requires HighestBelow(ms, k + 1, ms[k].minAfterIndex)
    ensures TopLevelPairs(ms, ms', used', beforeKeys, afterKeys, k + 1, Max(highest, ms[k].minAfterIndex))
  {
    HighestOverOld(ms, ms', k, highest, ms[k].minAfterIndex);
    PrefixKeeps(ms, ms', used', |afterKeys|, k, ms[k]);
    TakesNext(ms, ms', beforeKeys, afterKeys, k, ms[k]);
    assert ms'[k := ms[k]] == ms';
  }

  lemma {:induction false} IndexesHaveKey<Key>(keys: seq<Key>, key: Key, r: nat)
    requires r < |IndexesOf(keys, key)|
    ensures IndexesOf(keys, key)[r] < |keys| && keys[IndexesOf(keys, key)[r]] == key
  {
    var n := |keys| - 1;
    if r < |IndexesOf(keys[..n], key)| {
      IndexesHaveKey(keys[..n], key, r);
    }
  }

  /** What is offered has the item's key. */
  lemma OffersHaveKey<Key(!new)>(earlier: seq<Match>, later: seq<Match>, beforeKeys: seq<Key>, afterKeys: seq<Key>)
    requires OffersTaken(earlier, later, beforeKeys, afterKeys, |later|)
    ensures AddsSameKeys(earlier, later, beforeKeys, afterKeys)
  {
    forall i, j | Pair(later, i, j) && !Pair(earlier, i, j)
      ensures i < |beforeKeys| && 0 <= j < |afterKeys| && beforeKeys[i] == afterKeys[j]
    {
      assert later[i].afterIndex == TakesOffer(earlier, beforeKeys, afterKeys, i);
      IndexesHaveKey(afterKeys, beforeKeys[i], Asked(earlier, beforeKeys, beforeKeys[i], i));
    }
  }

  /** The bound of an unmatched item is no higher than the highest pair before it. */
  lemma NoHigherMin(ms: seq<Match>, ms': seq<Match>, k: nat, highest: int)
    requires Prefix(ms, ms', k) && k < |ms| && ms[k].afterIndex.None? && HighestBelow(ms', k, highest)
    requires HighestBelow(ms, k + 1, ms[k].minAfterIndex)
    ensures ms[k].minAfterIndex <= highest
  {
    if ms[k].minAfterIndex >= 0 {
      var i :| i < k + 1 && Pair(ms, i, ms[k].minAfterIndex);
      assert Pair(ms', i, ms[k].minAfterIndex);
    }
  }

  /** What an item is offered, taken off its key's list. */
  ghost predicate Offering<Key(!new)>(ms: seq<Match>, used: set<nat>, used': set<nat>, consumed: set<nat>,
                                      indexes: map<Key, seq<nat>>, beforeKeys: seq<Key>, afterKeys: seq<Key>, k: nat) {
    && k <= |ms| && k <= |beforeKeys|
    && used <= used' <= used + consumed
    && Remaining(afterKeys, indexes, consumed, |afterKeys|)
    && LeftToOffer(indexes, ms, beforeKeys, afterKeys, k)
  }

  /** One unmatched item of the second pass. */
  method TakeTopLevelOffer<Key(==, !new)>(ms: seq<Match>, ms': seq<Match>, used': set<nat>,
                                          afterIndexes: map<Key, seq<nat>>, beforeKeys: seq<Key>, afterKeys: seq<Key>,
                                          k: nat, highest: int, ghost used: set<nat>, ghost consumed: set<nat>)
    returns (ms'': seq<Match>, used'': set<nat>, afterIndexes': map<Key, seq<nat>>, highest': int,
             ghost consumed': set<nat>)
    requires k < |ms| && ms[k].afterIndex.None? && used == AfterIndexes(ms)
    requires HighestBelow(ms, k + 1, ms[k].minAfterIndex)
    requires TopLevelPairs(ms, ms', used', beforeKeys, afterKeys, k, highest)
    requires Offering(ms, used, used', consumed, afterIndexes, beforeKeys, afterKeys, k)
    ensures TopLevelPairs(ms, ms'', used'', beforeKeys, afterKeys, k + 1, highest')
    ensures Offering(ms, used, used'', consumed', afterIndexes', beforeKeys, afterKeys, k + 1)
  {
    var matchedAfterIndex;
    matchedAfterIndex, afterIndexes' := Shift(afterKeys, afterIndexes, beforeKeys[k], consumed);
    LeftWhenAsked(afterIndexes, ms, beforeKeys, afterKeys, k, matchedAfterIndex, afterIndexes');
    consumed' := if matchedAfterIndex.Some? then consumed + {matchedAfterIndex.value} else consumed;
    if matchedAfterIndex.Some? && matchedAfterIndex.value !in used' {
      var j := matchedAfterIndex.value;
      TopLevelTakes(ms, ms', used', beforeKeys, afterKeys, k, highest, j);
      NoHigherMin(ms, ms', k, highest);
      highest' := Max(Max(highest, j), ms[k].minAfterIndex);
      used'' := used' + {j};
      ms'' := ms'[k := Match(Some(j), highest')];
    } else {
      TopLevelSkips(ms, ms', used', beforeKeys, afterKeys, k, highest);
      highest', used'' := highest, used';
      ms'' := ms'[k := Match(None, highest)];
    }
  }

  method MatchByTopLevelKey<Key(==, !new)>(ms: seq<Match>, used: set<nat>, beforeKeys: seq<Key>, afterKeys: seq<Key>)
    returns (ms': seq<Match>, used': set<nat>)
    requires |ms| == |beforeKeys| && Matching(ms, used, |afterKeys|)
    requires forall i {:trigger ms[i]} :: 0 <= i < |ms| ==> HighestBelow(ms, i + 1, ms[i].minAfterIndex)
    ensures Keeps(ms, ms') && Matching(ms', used', |afterKeys|) && Bounded(ms')
    ensures OffersTaken(ms, ms', beforeKeys, afterKeys, |ms|)
    ensures AddsSameKeys(ms, ms', beforeKeys, afterKeys)
  {
    var afterIndexes := BuildKeyToIndicesMap(afterKeys);
    ghost var consumed: set<nat> := {};
    ms', used' := ms, used;
    var maxAfterIndexMatched := -1;
    NothingAsked(afterIndexes, ms, beforeKeys, afterKeys);
    UsedAreAfterIndexes(ms, used, |afterKeys|);
    for k := 0 to |ms|
      invariant TopLevelPairs(ms, ms', used', beforeKeys, afterKeys, k, maxAfterIndexMatched)
      invariant Offering(ms, used, used', consumed, afterIndexes, beforeKeys, afterKeys, k)
    {
      if ms[k].afterIndex.Some? {
        TopLevelKeeps(ms, ms', used', beforeKeys, afterKeys, k, maxAfterIndexMatched);
        LeftWhenNotAsked(afterIndexes, ms, beforeKeys, afterKeys, k);
        maxAfterIndexMatched := Max(maxAfterIndexMatched, ms[k].minAfterIndex);
      } else {
        ms', used', afterIndexes, maxAfterIndexMatched, consumed :=
          TakeTopLevelOffer(ms, ms', used', afterIndexes, beforeKeys, afterKeys, k, maxAfterIndexMatched, used,
                            consumed);
      }
    }
    OffersHaveKey(ms, ms', beforeKeys, afterKeys);
  }

  // ----- third pass: the same index -----

  ghost predicate AddsSameIndexes(earlier: seq<Match>, later: seq<Match>) {
    forall i, j :: Pair(later, i, j) && !Pair(earlier, i, j) ==> i == j
  }

  /** What the pass does to each of the first `k` items: an unmatched one takes its own index
      exactly if the after list has it and no pair had it before the pass. */
  ghost predicate OwnIndexesTaken(earlier: seq<Match>, later: seq<Match>, na: nat, k: nat) {
    && |earlier| == |later|
    && forall i {:trigger later[i]} :: 0 <= i < k && i < |later| ==>
         later[i].afterIndex ==
         if earlier[i].afterIndex.None? && i < na && i !in AfterIndexes(earlier) then Some(i) else earlier[i].afterIndex
  }

  /** `highest` is the last pair this pass added below `k`, or -1. */
  ghost predicate LastAdded(ms: seq<Match>, ms': seq<Match>, k: nat, highest: int) {
    && -1 <= highest < k
    && (forall i, j :: Pair(ms', i, j) && !Pair(ms, i, j) ==> j <= highest)
    && (highest >= 0 ==> Pair(ms', highest, highest))
  }

  lemma HighestWithAdded(ms: seq<Match>, ms': seq<Match>, k: nat, highest: int)
    requires Prefix(ms, ms', k) && k < |ms| && ms[k].afterIndex.None? && Bounded(ms)
    requires LastAdded(ms, ms', k, highest)
    ensures HighestBelow(ms', k, Max(highest, ms[k].minAfterIndex))
  {
    var bound := ms[k].minAfterIndex;
    assert HighestBelow(ms, k, bound);
    if bound > highest {
      var i :| i < k && Pair(ms, i, bound);
      assert Pair(ms', i, bound);
    }
  }

  method MatchByIndex(ms: seq<Match>, used: set<nat>, na: nat) returns (ms': seq<Match>, used': set<nat>)
    requires Matching(ms, used, na) && Bounded(ms)
    ensures Keeps(ms, ms') && Matching(ms', used', na) && Bounded(ms') && used <= used'
    ensures AddsSameIndexes(ms, ms') && OwnIndexesTaken(ms, ms', na, |ms|)
  {
    ms', used' := ms, used;
    var maxAfterIndexMatched := -1;
    UsedAreAfterIndexes(ms, used, na);
    for k := 0 to |ms|
      invariant forall j :: j in used' ==> j in used || j < k
      invariant OwnIndexesTaken(ms, ms', na, k)
      invariant Prefix(ms, ms', k) && Matching(ms', used', na) && used <= used'
      invariant AddsSameIndexes(ms, ms') && LastAdded(ms, ms', k, maxAfterIndexMatched)
    {
      if k !in used' && ms[k].afterIndex.None? && k < na {
        var m := Match(Some(k), ms[k].minAfterIndex);
        PrefixTakes(ms, ms', used', na, k, k, m);
        used' := used' + {k};
        maxAfterIndexMatched := k;
        ms' := ms'[k := m];
      } else {
        var m := Match(ms[k].afterIndex, Max(maxAfterIndexMatched, ms[k].minAfterIndex));
        if ms[k].afterIndex.None? {
          HighestWithAdded(ms, ms', k, maxAfterIndexMatched);
        }
        PrefixKeeps(ms, ms', used', na, k, m);
        ms' := ms'[k := m];
      }
    }
  }

  // ----- last pass, from the end: what fits between the pairs already made -----

  /** Two pairs are in the same order on both sides. */
  ghost predicate SameOrder(i: int, j: int, i': int, j': int) {
    (i < i' <==> j < j') && (i' < i <==> j' < j)
  }

  /** Pairing `i` with `j` would cross a pair. */
  ghost predicate WouldCross(ms: seq<Match>, i: int, j: int) {
    exists i', j' :: Pair(ms, i', j') && ((i' < i && j < j') || (i < i' && j' < j))
  }

  /** Every pair `later` adds is in order with every other pair. */
  ghost predicate AddsInOrder(earlier: seq<Match>, later: seq<Match>) {
    forall i, j, i', j' {:trigger Pair(later, i, j), Pair(later, i', j')} ::
      Pair(later, i, j) && !Pair(earlier, i, j) && Pair(later, i', j') ==> SameOrder(i, j, i', j')
  }

  /** From `k` on, an item is left unmatched only if no free after index fits. */
  ghost predicate NoneFits(ms: seq<Match>, used: set<nat>, na: nat, k: nat) {
    forall i, j {:trigger WouldCross(ms, i, j)} ::
      k <= i < |ms| && ms[i].afterIndex.None? && 0 <= j < na && j !in used ==> WouldCross(ms, i, j)
  }

  /** From `k` on, an item matched by this pass has the highest free after index that fits. */
  ghost predicate TakesHighest(earlier: seq<Match>, later: seq<Match>, used: set<nat>, na: nat, k: nat) {
    forall i, j, j' {:trigger Pair(later, i, j), WouldCross(later, i, j')} ::
      k <= i && Pair(later, i, j) && !Pair(earlier, i, j) && j < j' < na && j' !in used ==> WouldCross(later, i, j')
  }

  ghost predicate LowestFrom(ms: seq<Match>, k: int, na: nat, m: int) {
    && 0 <= m <= na
    && (forall i, j :: Pair(ms, i, j) && k <= i ==> m <= j)
    && (m < na ==> exists i :: k <= i && Pair(ms, i, m))
  }

  /** The highest free after index strictly between the bounds, read off the reversed list
      of after indexes as the source does. */
  method FindBetween(na: nat, minAfterIndex: int, maxPossibleAfterIndex: nat, used: set<nat>)
    returns (selected: Option<nat>)
    requires -1 <= minAfterIndex && maxPossibleAfterIndex <= na
    requires minAfterIndex >= 0 ==> minAfterIndex in used
    ensures selected.Some? ==>
      minAfterIndex < selected.value < maxPossibleAfterIndex && selected.value !in used
    ensures forall j :: 0 <= j && minAfterIndex < j < maxPossibleAfterIndex && j !in used ==>
      selected.Some? && j <= selected.value
  {
    var afterIndexes := seq(na, p requires 0 <= p < na => na - 1 - p);
    var reversedMaxPossibleAfterIndex := na - maxPossibleAfterIndex;
    var reversedMinAfterIndex := na - minAfterIndex;
    if reversedMinAfterIndex - reversedMaxPossibleAfterIndex > 0 {
      var p := reversedMaxPossibleAfterIndex;
      while p < reversedMinAfterIndex && p < na
        invariant reversedMaxPossibleAfterIndex <= p <= na
        invariant forall j :: na - p <= j < maxPossibleAfterIndex ==> j in used
      {
        if afterIndexes[p] !in used {
          return Some(afterIndexes[p]);
        }
        p := p + 1;
      }
    }
    return None;
  }

  /** The items from `k` on gone through, from the end. */
  ghost predicate Suffix(ms: seq<Match>, ms': seq<Match>, used: set<nat>, na: nat, k: nat, highest: int) {
    && Keeps(ms, ms') && Matching(ms', used, na) && k <= |ms|
    && (forall i {:trigger ms'[i]} :: 0 <= i < k ==> ms'[i] == ms[i])
    && AddsInOrder(ms, ms') && NoneFits(ms', used, na, k) && TakesHighest(ms, ms', used, na, k)
    && LowestFrom(ms', k, na, highest)
  }

  lemma NothingFits(ms: seq<Match>, ms': seq<Match>, used: set<nat>, na: nat, k: nat, highest: int)
    requires Suffix(ms, ms', used, na, k + 1, highest) && Bounded(ms) && ms[k].afterIndex.None?
    requires forall j :: 0 <= j && ms[k].minAfterIndex < j < highest ==> j in used
    ensures NoneFits(ms', used, na, k)
  {
    var bound := ms[k].minAfterIndex;
    assert HighestBelow(ms, k, bound);
    forall j | 0 <= j < na && j !in used
      ensures WouldCross(ms', k, j)
    {
      if j <= bound {
        var i :| i < k && Pair(ms, i, bound);
        assert Pair(ms', i, bound);
      } else {
        var i :| k + 1 <= i && Pair(ms', i, highest);
      }
    }
  }

  lemma StillCrosses(ms: seq<Match>, ms': seq<Match>, i: int, j: int)
    requires WouldCross(ms, i, j) && Keeps(ms, ms')
    ensures WouldCross(ms', i, j)
  {
    var i', j' :| Pair(ms, i', j') && ((i' < i && j < j') || (i < i' && j' < j));
    assert Pair(ms', i', j');
  }

  lemma SelectedFits(ms: seq<Match>, ms': seq<Match>, used: set<nat>, na: nat, k: nat, highest: int, j: nat, m: Match)
    requires Suffix(ms, ms', used, na, k + 1, highest) && Bounded(ms) && ms[k].afterIndex.None?
    requires ms[k].minAfterIndex < j < highest && j !in used && m.afterIndex == Some(j)
    requires forall x :: j < x < highest ==> x in used
    ensures Suffix(ms, ms'[k := m], used + {j}, na, k, j)
  {
    var later := ms'[k := m];
    assert HighestBelow(ms, k, ms[k].minAfterIndex);
    assert ms'[k] == ms[k];
    MatchingOneMore(ms', used, na, k, j, m);
    assert Pair(later, k, j);
    forall i', j' | Pair(ms', i', j')
      ensures SameOrder(k, j, i', j')
    {
      if i' < k {
        assert ms'[i'] == ms[i'];
        assert Pair(ms, i', j');
      }
    }
    forall i, x | k <= i < |later| && later[i].afterIndex.None? && 0 <= x < na && x !in used + {j}
      ensures WouldCross(later, i, x)
    {
      assert later[i] == ms'[i];
      assert WouldCross(ms', i, x);
      StillCrosses(ms', later, i, x);
    }
    StillHighest(ms, ms', used, na, k, highest, j, m);
  }

  lemma StillHighest(ms: seq<Match>, ms': seq<Match>, used: set<nat>, na: nat, k: nat, highest: int, j: nat, m: Match)
    requires |ms| == |ms'| && k < |ms| && ms'[k].afterIndex.None? && m.afterIndex == Some(j)
    requires TakesHighest(ms, ms', used, na, k + 1) && LowestFrom(ms', k + 1, na, highest)
    requires Matching(ms', used, na) && forall x :: j < x < highest ==> x in used
    ensures TakesHighest(ms, ms'[k := m], used + {j}, na, k)
  {
    var later := ms'[k := m];
    assert forall i', x :: Pair(ms', i', x) ==> Pair(later, i', x);
    forall i, x, y | k <= i && Pair(later, i, x) && !Pair(ms, i, x) && x < y < na && y !in used + {j}
      ensures WouldCross(later, i, y)
    {
      if i == k {
        var i' :| k + 1 <= i' && Pair(ms', i', highest);
        assert Pair(later, i', highest);
      } else {
        assert Pair(ms', i, x) && WouldCross(ms', i, y);
        StillCrosses(ms', later, i, y);
      }
    }
  }

  method MatchInOrder(ms: seq<Match>, used: set<nat>, na: nat) returns (ms': seq<Match>, used': set<nat>)
    requires Matching(ms, used, na) && Bounded(ms)
    ensures Keeps(ms, ms') && Matching(ms', used', na)
    ensures AddsInOrder(ms, ms') && NoneFits(ms', used', na, 0) && TakesHighest(ms, ms', used', na, 0)
  {
    ms', used' := ms, used;
    var maxPossibleAfterIndex := na;
    for k := |ms| downto 0
      invariant Suffix(ms, ms', used', na, k, maxPossibleAfterIndex)
      invariant used <= used'
    {
      if ms[k].afterIndex.Some? {
        assert Pair(ms', k, ms[k].afterIndex.value);
        maxPossibleAfterIndex := Min(ms[k].afterIndex.value, maxPossibleAfterIndex);
      } else {
        var minAfterIndex := ms[k].minAfterIndex;
        assert HighestBelow(ms, k, minAfterIndex);
        assert minAfterIndex >= 0 ==> minAfterIndex in used;
        var selected := FindBetween(na, minAfterIndex, maxPossibleAfterIndex, used');
        if selected.Some? {
          var m := Match(selected, minAfterIndex);
          SelectedFits(ms, ms', used', na, k, maxPossibleAfterIndex, selected.value, m);
          used' := used' + {selected.value};
          maxPossibleAfterIndex := selected.value;
          ms' := ms'[k := m];
        } else {
          NothingFits(ms, ms', used', na, k, maxPossibleAfterIndex);
        }
      }
    }
  }
}
