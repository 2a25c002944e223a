/** The changes of the items of one list, applied together. */
module ListProgress {
  import opened Wrappers
  import opened Sorting
  import opened Values
  import opened Changes
  import opened IndexMapping
  import opened ListPatch
  import opened IndependentChanges
  import opened Diff
  import opened Spots
  import opened Progress

  function DeltaAt(items: ItemDeltas, k: nat): Delta
    requires k < |MappingOf(items)|
  {
    if k == 0 then items.delta else DeltaAt(items.others, k - 1)
  }

  lemma {:induction false} DescribedAt(items: ItemDeltas, before: seq<Value>, after: seq<Value>, k: nat)
    requires DescribesItems(items, before, after) && SettledItems(items) && k < |MappingOf(items)|
    ensures var item := MappingOf(items)[k];
            && InRange(item, |before|, |after|)
            && Describes(DeltaAt(items, k), ItemOf(before, item.beforeIndex), ItemOf(after, item.afterIndex))
            && (Moved(item) ==> Direct(DeltaAt(items, k)))
    decreases items
  {
    if k > 0 {
      DescribedAt(items.others, before, after, k - 1);
    }
  }

  // ----- the changes of the items themselves -----

  ghost predicate IsItemChange(c: DetailedChange, items: ItemDeltas, position: nat, id: Path, p: Path,
                               before: seq<Value>, after: seq<Value>, k: nat) {
    && k < |MappingOf(items)| && Direct(DeltaAt(items, k))
    && ItemChange(MappingOf(items)[k], DeltaAt(items, k), position + k, id, p, before, after) == Some(c)
  }

  ghost predicate OfSomeItem(c: DetailedChange, items: ItemDeltas, position: nat, id: Path, p: Path, before: seq<Value>,
                             after: seq<Value>) {
    exists k :: IsItemChange(c, items, position, id, p, before, after, k)
  }

  lemma {:induction false} ItemChangeReported(items: ItemDeltas, position: nat, id: Path, p: Path, before: seq<Value>,
                                              after: seq<Value>, k: nat)
    requires DescribesItems(items, before, after) && SettledItems(items)
    requires k < |MappingOf(items)| && Direct(DeltaAt(items, k))
    ensures var change := ItemChange(MappingOf(items)[k], DeltaAt(items, k), position + k, id, p, before, after);
            && change.Some?
            && change.value in FlattenItems(items, position, id, Some(p), Some(p), before, after)
            && change.value.id == id + [IndexName(position + k)]
    decreases items
  {
    if k == 0 {
      DirectItemChanges(items.item, items.delta, position, id, p, before, after);
    } else {
      ItemChangeReported(items.others, position + 1, id, p, before, after, k - 1);
    }
  }

  lemma {:induction false} ReportedItemChange(items: ItemDeltas, position: nat, id: Path, p: Path, before: seq<Value>,
                                              after: seq<Value>, c: DetailedChange) returns (k: nat)
    requires DescribesItems(items, before, after) && SettledItems(items) && |c.id| == |id| + 1
    requires c in FlattenItems(items, position, id, Some(p), Some(p), before, after)
    ensures IsItemChange(c, items, position, id, p, before, after, k)
    decreases items
  {
    if c in FlattenItem(items.item, items.delta, position, id, Some(p), Some(p), before, after) {
      k := 0;
      OwnItemChange(items.item, items.delta, position, id, p, before, after, c);
    } else {
      k := ReportedItemChange(items.others, position + 1, id, p, before, after, c);
      k := k + 1;
    }
  }

  lemma OwnItemChange(item: IndexMappingItem, d: Delta, position: nat, id: Path, p: Path, before: seq<Value>,
                      after: seq<Value>, c: DetailedChange)
    requires InRange(item, |before|, |after|) && (Moved(item) ==> Direct(d)) && |c.id| == |id| + 1
    requires Describes(d, ItemOf(before, item.beforeIndex), ItemOf(after, item.afterIndex))
    requires c in FlattenItem(item, d, position, id, Some(p), Some(p), before, after)
    ensures Direct(d) && ItemChange(item, d, position, id, p, before, after) == Some(c)
  {
    DirectItemChanges(item, d, position, id, p, before, after);
    FlattenUnder(d, id + [IndexName(position)], NestedItem(Some(p), item.beforeIndex),
                 NestedItem(Some(p), item.afterIndex), ItemOf(before, item.beforeIndex),
                 ItemOf(after, item.afterIndex));
  }

  /** Read back, the reported change is the change the mapping makes. */
  lemma ItemChangeReadBack(item: IndexMappingItem, d: Delta, position: nat, id: Path, p: Path, before: seq<Value>,
                           after: seq<Value>)
    requires InRange(item, |before|, |after|) && Direct(d)
    requires Describes(d, ItemOf(before, item.beforeIndex), ItemOf(after, item.afterIndex))
    ensures var change := ItemChange(item, d, position, id, p, before, after);
            && change.Some? && ToListChange(change.value) == Some(ChangeOfItem(item, after))
            && Parent(GetChangeRealId(change.value)) == p
  {
    if item.beforeIndex.Some? {
      IndexOfName(item.beforeIndex.value);
    }
    if item.afterIndex.Some? {
      IndexOfName(item.afterIndex.value);
    }
  }

  predicate AllListChanges(changes: seq<DetailedChange>) {
    forall k :: 0 <= k < |changes| ==> ToListChange(changes[k]).Some?
  }

  function ListChangesOf(changes: seq<DetailedChange>): (listChanges: seq<ListChange>)
    requires AllListChanges(changes)
    ensures |listChanges| == |changes|
  {
    seq(|changes|, k requires 0 <= k < |changes| => ToListChange(changes[k]).value)
  }

  // ----- where items move away from and to -----

  lemma {:induction false} ClearIf(items: ItemDeltas, i: nat)
    requires forall k :: 0 <= k < |MappingOf(items)| && !Direct(DeltaAt(items, k)) ==>
      MappingOf(items)[k].beforeIndex != Some(i)
    ensures Clear(items, i, false)
  {
    if items.ItemAt? {
      var mapping, rest := MappingOf(items), MappingOf(items.others);
      assert mapping[0] == items.item && DeltaAt(items, 0) == items.delta;
      forall k | 0 <= k < |rest| && !Direct(DeltaAt(items.others, k))
        ensures rest[k].beforeIndex != Some(i)
      {
        assert mapping[k + 1] == rest[k] && DeltaAt(items, k + 1) == DeltaAt(items.others, k);
      }
      ClearIf(items.others, i);
    }
  }

  /** No item stays where an item has a change of its own, before or after. */
  lemma ClearOfDirect(items: ItemDeltas, before: seq<Value>, after: seq<Value>, k: nat, i: nat)
    requires DescribesItems(items, before, after) && SettledItems(items) && Exact(MappingOf(items), |before|, |after|)
    requires k < |MappingOf(items)| && Direct(DeltaAt(items, k))
    requires MappingOf(items)[k].beforeIndex == Some(i) || MappingOf(items)[k].afterIndex == Some(i)
    ensures Clear(items, i, false)
  {
    forall c | 0 <= c < |MappingOf(items)| && !Direct(DeltaAt(items, c))
      ensures MappingOf(items)[c].beforeIndex != Some(i)
    {
      DescribedAt(items, before, after, c);
      OwnIndexes(MappingOf(items), |before|, |after|, c, k);
    }
    ClearIf(items, i);
  }

  /** No part of an item that has a change of its own is looked into. */
  lemma {:induction false} DirectHasNoSpot(items: ItemDeltas, position: nat, before: seq<Value>, after: seq<Value>,
                                           k: nat, rest: Path)
    requires k < |MappingOf(items)| && Direct(DeltaAt(items, k))
    ensures FindItem(items, position, before, after, [IndexName(position + k)] + rest).None?
    decreases items
  {
    if k > 0 {
      if IndexName(position) == IndexName(position + k) {
        IndexNameInjective(position, position + k);
      }
      DirectHasNoSpot(items.others, position + 1, before, after, k - 1, rest);
    }
  }

  // ----- the list before and after they are applied -----

  /** Where the items are that only change inside. */
  function StayingIndexes(items: ItemDeltas): set<nat> {
    match items
    case NoItems => {}
    case ItemAt(item, d, others) =>
      (if !Direct(d) && item.beforeIndex.Some? then {item.beforeIndex.value} else {}) + StayingIndexes(others)
  }

  lemma {:induction false} StayingIndexOf(items: ItemDeltas, k: nat)
    requires k < |MappingOf(items)| && !Direct(DeltaAt(items, k)) && MappingOf(items)[k].beforeIndex.Some?
    ensures MappingOf(items)[k].beforeIndex.value in StayingIndexes(items)
    decreases items
  {
    if k > 0 {
      assert MappingOf(items)[k] == MappingOf(items.others)[k - 1];
      StayingIndexOf(items.others, k - 1);
    }
  }

  lemma {:induction false} StayingItemAt(items: ItemDeltas, j: nat) returns (k: nat)
    requires j in StayingIndexes(items)
    ensures k < |MappingOf(items)| && !Direct(DeltaAt(items, k)) && MappingOf(items)[k].beforeIndex == Some(j)
    decreases items
  {
    if !Direct(items.delta) && items.item.beforeIndex == Some(j) {
      k := 0;
    } else {
      k := StayingItemAt(items.others, j);
      k := k + 1;
    }
  }

  /** What applying the item changes makes of the list: the after list, but the items that only
      change inside are what they were. */
  function Target(items: ItemDeltas, list: seq<Value>, after: seq<Value>): (target: seq<Value>)
    ensures |target| == |after|
  {
    seq(|after|, j requires 0 <= j < |after| => if j in StayingIndexes(items) && j < |list| then list[j] else after[j])
  }

  /** The new place of an item that is added, replaced or moved has what the after list has. */
  lemma PlacedItem(items: ItemDeltas, list: seq<Value>, before: seq<Value>, after: seq<Value>, k: nat)
    requires DescribesItems(items, before, after) && SettledItems(items) && Exact(MappingOf(items), |before|, |after|)
    requires k < |MappingOf(items)| && Direct(DeltaAt(items, k)) && MappingOf(items)[k].afterIndex.Some?
    ensures SameAt(Target(items, list, after), after, MappingOf(items)[k].afterIndex.value)
  {
    var mapping := MappingOf(items);
    var j := mapping[k].afterIndex.value;
    DescribedAt(items, before, after, k);
    if j in StayingIndexes(items) {
      var c := StayingItemAt(items, j);
      DescribedAt(items, before, after, c);
      OwnIndexes(mapping, |before|, |after|, c, k);
    }
  }

  /** The place of an item that stays has what it had. */
  lemma UntouchedItem(items: ItemDeltas, list: seq<Value>, before: seq<Value>, after: seq<Value>, k: nat)
    requires DescribesItems(items, before, after) && SettledItems(items) && |list| >= |before|
    requires k < |MappingOf(items)| && !Direct(DeltaAt(items, k))
    ensures var item := MappingOf(items)[k];
            && item.beforeIndex.Some? && item.afterIndex == item.beforeIndex && item.beforeIndex.value < |before|
            && SameAt(list, Target(items, list, after), item.beforeIndex.value)
  {
    DescribedAt(items, before, after, k);
    StayingIndexOf(items, k);
  }

  ghost function DirectItems(items: ItemDeltas): set<nat> {
    set k | 0 <= k < |MappingOf(items)| && Direct(DeltaAt(items, k))
  }

  /** All the item changes of a list, each once. */
  ghost predicate AllItemChanges(group: seq<DetailedChange>, items: ItemDeltas, id: Path, p: Path, before: seq<Value>,
                                 after: seq<Value>) {
    && Distinct(group)
    && forall c {:trigger c in group} :: c in group <==> OfSomeItem(c, items, 0, id, p, before, after)
  }

  lemma GroupReadsBack(group: seq<DetailedChange>, items: ItemDeltas, id: Path, p: Path, before: seq<Value>,
                       after: seq<Value>, i: nat) returns (k: nat)
    requires DescribesItems(items, before, after) && SettledItems(items)
    requires AllItemChanges(group, items, id, p, before, after) && i < |group|
    ensures IsItemChange(group[i], items, 0, id, p, before, after, k)
    ensures InRange(MappingOf(items)[k], |before|, |after|)
    ensures ToListChange(group[i]) == Some(ChangeOfItem(MappingOf(items)[k], after))
    ensures Parent(GetChangeRealId(group[i])) == p
  {
    assert group[i] in group;
    assert OfSomeItem(group[i], items, 0, id, p, before, after);
    k :| IsItemChange(group[i], items, 0, id, p, before, after, k);
    DescribedAt(items, before, after, k);
    ItemChangeReadBack(MappingOf(items)[k], DeltaAt(items, k), k, id, p, before, after);
  }

  lemma GroupAllListChanges(group: seq<DetailedChange>, items: ItemDeltas, id: Path, p: Path, before: seq<Value>,
                            after: seq<Value>)
    requires DescribesItems(items, before, after) && SettledItems(items)
    requires AllItemChanges(group, items, id, p, before, after)
    ensures AllListChanges(group)
  {
    forall i | 0 <= i < |group|
      ensures ToListChange(group[i]).Some?
    {
      var k := GroupReadsBack(group, items, id, p, before, after, i);
    }
  }

  lemma GroupDistinct(group: seq<DetailedChange>, items: ItemDeltas, id: Path, p: Path, before: seq<Value>,
                      after: seq<Value>)
    requires DescribesItems(items, before, after) && SettledItems(items) && Exact(MappingOf(items), |before|, |after|)
    requires AllItemChanges(group, items, id, p, before, after) && AllListChanges(group)
    ensures Distinct(ListChangesOf(group))
  {
    forall i, j | 0 <= i < j < |group|
      ensures ListChangesOf(group)[i] != ListChangesOf(group)[j]
    {
      var k := GroupReadsBack(group, items, id, p, before, after, i);
      var l := GroupReadsBack(group, items, id, p, before, after, j);
      assert group[i] != group[j];
      OwnIndexes(MappingOf(items), |before|, |after|, k, l);
    }
  }

  lemma TouchedItem(group: seq<DetailedChange>, items: ItemDeltas, id: Path, p: Path, list: seq<Value>,
                    before: seq<Value>, after: seq<Value>, k: nat)
    requires DescribesItems(items, before, after) && SettledItems(items) && Exact(MappingOf(items), |before|, |after|)
    requires AllItemChanges(group, items, id, p, before, after) && AllListChanges(group)
    requires k < |MappingOf(items)| && Direct(DeltaAt(items, k))
    ensures ChangeOfItem(MappingOf(items)[k], Target(items, list, after)) in ListChangesOf(group)
  {
    DescribedAt(items, before, after, k);
    ItemChangeReadBack(MappingOf(items)[k], DeltaAt(items, k), k, id, p, before, after);
    var c := ItemChange(MappingOf(items)[k], DeltaAt(items, k), k, id, p, before, after).value;
    assert IsItemChange(c, items, 0, id, p, before, after, k);
    assert OfSomeItem(c, items, 0, id, p, before, after);
    assert c in group;
    var i :| 0 <= i < |group| && group[i] == c;
    assert ListChangesOf(group)[i] == ChangeOfItem(MappingOf(items)[k], after);
    if MappingOf(items)[k].afterIndex.Some? {
      PlacedItem(items, list, before, after, k);
    }
  }

  lemma GroupChangeOfItem(group: seq<DetailedChange>, items: ItemDeltas, id: Path, p: Path, list: seq<Value>,
                          before: seq<Value>, after: seq<Value>, i: nat)
    requires DescribesItems(items, before, after) && SettledItems(items) && Exact(MappingOf(items), |before|, |after|)
    requires AllItemChanges(group, items, id, p, before, after) && AllListChanges(group) && i < |group|
    ensures IsChangeOfItem(ListChangesOf(group)[i], MappingOf(items), DirectItems(items), Target(items, list, after))
  {
    var k := GroupReadsBack(group, items, id, p, before, after, i);
    assert k in DirectItems(items);
    if MappingOf(items)[k].afterIndex.Some? {
      PlacedItem(items, list, before, after, k);
    }
    assert ListChangesOf(group)[i] == ChangeOfItem(MappingOf(items)[k], Target(items, list, after));
  }

  /** No item that stays is a hole. */
  ghost predicate StayingThere(items: ItemDeltas, list: seq<Value>) {
    forall k :: 0 <= k < |MappingOf(items)| && !Direct(DeltaAt(items, k)) && MappingOf(items)[k].beforeIndex.Some? ==>
      var i := MappingOf(items)[k].beforeIndex.value; i < |list| && !list[i].Hole?
  }

  lemma {:induction false} ReachedStay(items: ItemDeltas, position: nat, id: Path, done: set<Mark>, list: seq<Value>,
                                       before: seq<Value>, after: seq<Value>)
    requires ReachedItems(items, position, id, done, list, before, after)
    ensures StayingThere(items, list)
    decreases items
  {
    if items.ItemAt? {
      var mapping, rest := MappingOf(items), MappingOf(items.others);
      ReachedStay(items.others, position + 1, id, done, list, before, after);
      forall k | 0 <= k < |mapping| && !Direct(DeltaAt(items, k)) && mapping[k].beforeIndex.Some?
        ensures mapping[k].beforeIndex.value < |list| && !list[mapping[k].beforeIndex.value].Hole?
      {
        if k > 0 {
          assert mapping[k] == rest[k - 1] && DeltaAt(items, k) == DeltaAt(items.others, k - 1);
        }
      }
    }
  }

  lemma GroupEdits(group: seq<DetailedChange>, items: ItemDeltas, id: Path, p: Path, list: seq<Value>,
                   before: seq<Value>, after: seq<Value>)
    requires DescribesItems(items, before, after) && SettledItems(items) && Exact(MappingOf(items), |before|, |after|)
    requires AllItemChanges(group, items, id, p, before, after) && AllListChanges(group) && |list| == |before|
    requires StayingThere(items, list)
    ensures Edits(MappingOf(items), DirectItems(items), ListChangesOf(group), list, Target(items, list, after))
  {
    var mapping, changes, target := MappingOf(items), ListChangesOf(group), Target(items, list, after);
    GroupDistinct(group, items, id, p, before, after);
    forall k | 0 <= k < |mapping| && k !in DirectItems(items)
      ensures Unchanged(mapping[k], list, target)
    {
      UntouchedItem(items, list, before, after, k);
    }
    forall k | 0 <= k < |mapping| && k in DirectItems(items)
      ensures ChangeOfItem(mapping[k], target) in changes
    {
      TouchedItem(group, items, id, p, list, before, after, k);
    }
    forall x | x in changes
      ensures IsChangeOfItem(x, mapping, DirectItems(items), target)
    {
      var i :| 0 <= i < |changes| && changes[i] == x;
      GroupChangeOfItem(group, items, id, p, list, before, after, i);
    }
  }

  /** The new list has the item that stays, or what the change makes of the item. */
  predicate Takes(item: IndexMappingItem, d: Delta, list: seq<Value>, target: seq<Value>, after: seq<Value>) {
    if Direct(d) then item.afterIndex.Some? ==> SameAt(target, after, item.afterIndex.value)
    else item.beforeIndex.Some? && SameAt(list, target, item.beforeIndex.value)
  }

  lemma {:induction false} TargetReached(items: ItemDeltas, position: nat, id: Path, done: set<Mark>, list: seq<Value>,
                                         target: seq<Value>, before: seq<Value>, after: seq<Value>)
    requires ReachedItems(items, position, id, done, list, before, after)
    requires forall k :: 0 <= k < |MappingOf(items)| ==>
      Takes(MappingOf(items)[k], DeltaAt(items, k), list, target, after)
    ensures ReachedItems(items, position, id, done + {Listed(id)}, target, before, after)
    decreases items
  {
    if items.ItemAt? {
      var mapping, rest := MappingOf(items), MappingOf(items.others);
      assert Takes(mapping[0], DeltaAt(items, 0), list, target, after);
      forall k | 0 <= k < |rest|
        ensures Takes(rest[k], DeltaAt(items.others, k), list, target, after)
      {
        assert Takes(mapping[k + 1], DeltaAt(items, k + 1), list, target, after);
      }
      if !Direct(items.delta) {
        assert AgreeUnder(done, done + {Listed(id)}, id + [IndexName(position)]);
        ReachedAgrees(items.delta, id + [IndexName(position)], done, done + {Listed(id)},
                      Some(list[items.item.beforeIndex.value]), ItemOf(before, items.item.beforeIndex),
                      ItemOf(after, items.item.afterIndex));
      }
      TargetReached(items.others, position + 1, id, done, list, target, before, after);
    }
  }

  lemma ItemsReachAfter(items: ItemDeltas, id: Path, done: set<Mark>, list: seq<Value>, before: seq<Value>,
                        after: seq<Value>)
    requires DescribesItems(items, before, after) && SettledItems(items) && Exact(MappingOf(items), |before|, |after|)
    requires ReachedItems(items, 0, id, done, list, before, after) && |list| == |before|
    ensures ReachedItems(items, 0, id, done + {Listed(id)}, Target(items, list, after), before, after)
  {
    var target := Target(items, list, after);
    forall k | 0 <= k < |MappingOf(items)|
      ensures Takes(MappingOf(items)[k], DeltaAt(items, k), list, target, after)
    {
      if !Direct(DeltaAt(items, k)) {
        UntouchedItem(items, list, before, after, k);
      } else if MappingOf(items)[k].afterIndex.Some? {
        PlacedItem(items, list, before, after, k);
      }
    }
    TargetReached(items, 0, id, done, list, target, before, after);
  }

  lemma GroupUpdates(group: seq<DetailedChange>, items: ItemDeltas, id: Path, p: Path, list: seq<Value>,
                     extra: seq<Value>, before: seq<Value>, after: seq<Value>)
    requires DescribesItems(items, before, after) && SettledItems(items) && Exact(MappingOf(items), |before|, |after|)
    requires AllItemChanges(group, items, id, p, before, after) && AllListChanges(group) && |list| == |before|
    requires StayingThere(items, list)
    ensures Updated(list, ListChangesOf(group)) == Target(items, list, after)
    ensures |Updated(list + extra, ListChangesOf(group))| == |after| + |Defined(SlotsOf(extra))|
  {
    var target := Target(items, list, after);
    GroupEdits(group, items, id, p, list, before, after);
    UpdatedIsAfter(MappingOf(items), DirectItems(items), ListChangesOf(group), list, target);
    UpdatedKeepsExtra(MappingOf(items), DirectItems(items), ListChangesOf(group), list, target, extra);
  }

  lemma ListLength(items: ItemDeltas, id: Path, done: set<Mark>, list: seq<Value>, before: seq<Value>,
                   after: seq<Value>)
    requires ReachedList(items, id, done, list, before, after) && Listed(id) !in done
    ensures ReachedItems(items, 0, id, done, list, before, after)
    ensures if Overfull(id) in done then HasMore(list, |before|) else |list| == |before|
  {}

  lemma ListIsListed(items: ItemDeltas, id: Path, done: set<Mark>, list: seq<Value>, before: seq<Value>,
                     after: seq<Value>)
    requires if Overfull(id) in done then |list| > |after|
             else |list| == |after| && ReachedItems(items, 0, id, done + {Listed(id)}, list, before, after)
    ensures ReachedList(items, id, done + {Listed(id)}, list, before, after)
  {}

  lemma StayingPrefix(items: ItemDeltas, list: seq<Value>, before: seq<Value>, after: seq<Value>)
    requires DescribesItems(items, before, after) && SettledItems(items) && |list| >= |before|
    requires StayingThere(items, list)
    ensures StayingThere(items, list[..|before|])
  {
    forall k | 0 <= k < |MappingOf(items)| && !Direct(DeltaAt(items, k)) && MappingOf(items)[k].beforeIndex.Some?
      ensures MappingOf(items)[k].beforeIndex.value < |before|
    {
      DescribedAt(items, before, after, k);
    }
  }

  lemma ItemsUpdated(group: seq<DetailedChange>, items: ItemDeltas, id: Path, p: Path, done: set<Mark>,
                     list: seq<Value>, before: seq<Value>, after: seq<Value>)
    requires DescribesItems(items, before, after) && SettledItems(items) && Exact(MappingOf(items), |before|, |after|)
    requires AllItemChanges(group, items, id, p, before, after) && AllListChanges(group)
    requires ReachedItems(items, 0, id, done, list, before, after)
    requires HasMore(list, |before|) || |list| == |before|
    ensures var list' := Updated(list, ListChangesOf(group));
            if HasMore(list, |before|) then |list'| > |after|
            else |list'| == |after| && ReachedItems(items, 0, id, done + {Listed(id)}, list', before, after)
  {
    var old', extra := list[..|before|], list[|before|..];
    assert list == old' + extra;
    ReachedStay(items, 0, id, done, list, before, after);
    StayingPrefix(items, list, before, after);
    GroupUpdates(group, items, id, p, old', extra, before, after);
    if HasMore(list, |before|) {
      var j :| |before| <= j < |list| && !list[j].Hole?;
      SomethingDefined(extra, j - |before|);
    } else {
      assert list == old';
      ItemsReachAfter(items, id, done, list, before, after);
    }
  }

  /** Applying all the changes of a list's items makes them what they are after, whatever has
      been applied inside the items that stay, and whatever was put into the others. Only if
      the list has got more items than it had it is broken. */
  lemma ListReachesAfter(group: seq<DetailedChange>, items: ItemDeltas, id: Path, p: Path, done: set<Mark>,
                         list: seq<Value>, before: seq<Value>, after: seq<Value>)
    requires DescribesItems(items, before, after) && SettledItems(items) && Exact(MappingOf(items), |before|, |after|)
    requires AllItemChanges(group, items, id, p, before, after)
    requires ReachedList(items, id, done, list, before, after) && Listed(id) !in done
    ensures AllListChanges(group)
    ensures ReachedList(items, id, done + {Listed(id)}, Updated(list, ListChangesOf(group)), before, after)
  {
    GroupAllListChanges(group, items, id, p, before, after);
    ListLength(items, id, done, list, before, after);
    ItemsUpdated(group, items, id, p, done, list, before, after);
    ListIsListed(items, id, done, Updated(list, ListChangesOf(group)), before, after);
  }
}
