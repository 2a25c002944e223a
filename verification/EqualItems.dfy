/** Items that are in both lists are matched with each other, whatever else the lists hold. */
module EqualItems {
  import opened Wrappers
  import opened ListMapping
  import opened IndexMapping

  /** How many of the first `n` items have the key. */
  ghost function CountUpTo<Key>(keys: seq<Key>, key: Key, n: nat): nat
    requires n <= |keys|
  {
    if n == 0 then 0 else CountUpTo(keys, key, n - 1) + if keys[n - 1] == key then 1 else 0
  }

  lemma {:induction false} CountInPrefix<Key>(keys: seq<Key>, key: Key, m: nat, n: nat)
    requires n <= m <= |keys|
    ensures CountUpTo(keys[..m], key, n) == CountUpTo(keys, key, n)
  {
    if n > 0 {
      CountInPrefix(keys, key, m, n - 1);
    }
  }

  lemma {:induction false} AllAsk<Key>(keys: seq<Key>, key: Key, k: nat)
    requires k <= |keys|
    ensures Asked(NoMatches(|keys|), keys, key, k) == CountUpTo(keys, key, k)
  {
    if k > 0 {
      AllAsk(keys, key, k - 1);
    }
  }

  lemma {:induction false} HowManyIndexes<Key>(keys: seq<Key>, key: Key)
    ensures |IndexesOf(keys, key)| == CountUpTo(keys, key, |keys|)
    decreases |keys|
  {
    if keys != [] {
      var n := |keys| - 1;
      HowManyIndexes(keys[..n], key);
      CountInPrefix(keys, key, n, n);
    }
  }

  /** The index of an item comes on the list of its key after those of the items before it. */
  lemma {:induction false} IndexOnList<Key>(keys: seq<Key>, j: nat)
    requires j < |keys|
    ensures var place := CountUpTo(keys, keys[j], j);
            place < |IndexesOf(keys, keys[j])| && IndexesOf(keys, keys[j])[place] == j
    decreases |keys|
  {
    var n := |keys| - 1;
    CountInPrefix(keys, keys[j], n, j);
    if j < n {
      IndexOnList(keys[..n], j);
    } else {
      HowManyIndexes(keys[..n], keys[j]);
      CountInPrefix(keys, keys[j], n, n);
    }
  }

  /** Items with one exact key that are each as many-eth with it in their list. */
  ghost predicate Twins<Key>(beforeKeys: seq<Key>, afterKeys: seq<Key>, i: nat, j: nat) {
    && i < |beforeKeys| && j < |afterKeys| && beforeKeys[i] == afterKeys[j]
    && CountUpTo(beforeKeys, beforeKeys[i], i) == CountUpTo(afterKeys, afterKeys[j], j)
  }

  lemma TwinsPairedFirst<Key(!new)>(beforeKeys: seq<Key>, afterKeys: seq<Key>, ms: seq<Match>, i: nat, j: nat)
    requires OffersTaken(NoMatches(|ms|), ms, beforeKeys, afterKeys, |ms|) && Twins(beforeKeys, afterKeys, i, j)
    ensures ms[i].afterIndex == Some(j)
  {
    AllAsk(beforeKeys, beforeKeys[i], i);
    IndexOnList(afterKeys, j);
    assert AfterIndexes(NoMatches(|ms|)) == {};
    assert ms[i].afterIndex == TakesOffer(NoMatches(|ms|), beforeKeys, afterKeys, i);
  }

  /** However the keys of the top-level values and the indexes would match them. */
  lemma TwinsStayPaired<E(!new), T(!new)>(mapping: seq<IndexMappingItem>, ms: seq<Match>, used: set<nat>,
                                          exactBefore: seq<E>, exactAfter: seq<E>, topBefore: seq<T>, topAfter: seq<T>,
                                          byExactKey: seq<Match>, byTopLevelKey: seq<Match>, byIndex: seq<Match>,
                                          i: nat, j: nat)
    requires LedTo(mapping, ms, used, exactBefore, exactAfter, topBefore, topAfter, byExactKey, byTopLevelKey, byIndex)
    requires Twins(exactBefore, exactAfter, i, j)
    ensures i < |ms| && ms[i].afterIndex == Some(j)
  {
    TwinsPairedFirst(exactBefore, exactAfter, byExactKey, i, j);
    assert byTopLevelKey[i].afterIndex == TakesOffer(byExactKey, topBefore, topAfter, i);
    assert byIndex[i].afterIndex == byTopLevelKey[i].afterIndex;
    assert Pair(byIndex, i, j);
    assert Pair(ms, i, j);
  }

  /** The mapping matches the first item with an exact key with the first after, the second with
      the second, and so on. */
  lemma TwinsMapped<E(!new), T(!new)>(mapping: seq<IndexMappingItem>, exactBefore: seq<E>, exactAfter: seq<E>,
                                      topBefore: seq<T>, topAfter: seq<T>, i: nat, j: nat)
    requires IsIndexMapping(mapping, exactBefore, exactAfter, topBefore, topAfter)
    requires Twins(exactBefore, exactAfter, i, j)
    ensures IndexMappingItem(Some(i), Some(j)) in mapping
  {
    var ms, used, byExactKey, byTopLevelKey, byIndex :|
      LedTo(mapping, ms, used, exactBefore, exactAfter, topBefore, topAfter, byExactKey, byTopLevelKey, byIndex);
    TwinsStayPaired(mapping, ms, used, exactBefore, exactAfter, topBefore, topAfter, byExactKey, byTopLevelKey, byIndex,
                    i, j);
    assert CoversBefore(mapping, i);
    var c :| 0 <= c < |mapping| && mapping[c].beforeIndex == Some(i);
    assert mapping[c] in mapping;
  }

  lemma OneWithIndex(mapping: seq<IndexMappingItem>, nb: nat, na: nat, c: nat, k: nat)
    requires Exact(mapping, nb, na) && c < |mapping| && k < |mapping|
    ensures c == k || (NothingShared(mapping[c], mapping[k]) && NothingShared(mapping[k], mapping[c]))
  {
    assert c < k ==> NothingShared(mapping[c], mapping[k]);
    assert k < c ==> NothingShared(mapping[k], mapping[c]);
  }

  /** So in a list that did not change nothing moves, is added or removed. */
  lemma SameListStays<E(!new), T(!new)>(mapping: seq<IndexMappingItem>, keys: seq<E>, topBefore: seq<T>,
                                        topAfter: seq<T>)
    requires IsIndexMapping(mapping, keys, keys, topBefore, topAfter)
    ensures forall c :: 0 <= c < |mapping| ==>
      mapping[c].beforeIndex.Some? && mapping[c].afterIndex == mapping[c].beforeIndex
  {
    forall c | 0 <= c < |mapping|
      ensures mapping[c].beforeIndex.Some? && mapping[c].afterIndex == mapping[c].beforeIndex
    {
      var i := if mapping[c].beforeIndex.Some? then mapping[c].beforeIndex.value else mapping[c].afterIndex.value;
      assert Twins(keys, keys, i, i);
      TwinsMapped(mapping, keys, keys, topBefore, topAfter, i, i);
      var k :| 0 <= k < |mapping| && mapping[k] == IndexMappingItem(Some(i), Some(i));
      OneWithIndex(mapping, |keys|, |keys|, c, k);
    }
  }
}
