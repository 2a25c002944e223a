/** Replaying the item changes of one list: `updateList` and `toListChange`. */
module ListPatch {
  import opened Wrappers
  import opened Sorting
  import opened Values
  import opened Changes
  import opened IndexMapping

  datatype ListChange =
    | ListRemove(beforeIndex: nat)
    | ListAdd(afterIndex: nat, afterValue: Value)
    | ListModify(beforeIndex: nat, afterIndex: nat, afterValue: Value)

  /** A change whose ids do not name the indexes it needs is no list change. */
  function ToListChange(change: DetailedChange): Option<ListChange> {
    var b, a := NameOf(change.beforeId), NameOf(change.afterId);
    match change.data
    case Removal(_) => if IsIndexPathPart(b) then Some(ListRemove(IndexOf(b))) else None
    case Addition(after) => if IsIndexPathPart(a) then Some(ListAdd(IndexOf(a), after)) else None
    case Modification(_, after) =>
      if IsIndexPathPart(b) && IsIndexPathPart(a) then Some(ListModify(IndexOf(b), IndexOf(a), after)) else None
  }

  predicate HasBeforeIndex(change: ListChange) {
    !change.ListAdd?
  }

  predicate HasAfterIndex(change: ListChange) {
    !change.ListRemove?
  }

  predicate AfterIndexLe(x: ListChange, y: ListChange) {
    (if HasAfterIndex(x) then x.afterIndex else 0) <= (if HasAfterIndex(y) then y.afterIndex else 0)
  }

  // ----- a list with holes -----

  type Slots = seq<Option<Value>>

  function SlotsOf(items: seq<Value>): (list: Slots)
    ensures |list| == |items|
  {
    seq(|items|, i requires 0 <= i < |items| => if items[i].Hole? then None else Some(items[i]))
  }

  function SetSlot(list: Slots, i: nat, x: Option<Value>): Slots {
    if i < |list| then list[i := x] else list + seq(i - |list|, _ => None) + [x]
  }

  predicate Free(list: Slots, i: nat) {
    i < |list| ==> list[i].None?
  }

  function Punched(list: Slots, changes: seq<ListChange>): Slots {
    if changes == [] then list
    else
      var rest, last := Punched(list, changes[..|changes| - 1]), changes[|changes| - 1];
      if HasBeforeIndex(last) then SetSlot(rest, last.beforeIndex, None) else rest
  }

  function PlaceOne(list: Slots, change: ListChange): Slots
    requires HasAfterIndex(change)
  {
    if Free(list, change.afterIndex) then SetSlot(list, change.afterIndex, Some(change.afterValue))
    else Splice(list, change.afterIndex, Some(change.afterValue))
  }

  predicate ToPlace(changes: seq<ListChange>) {
    forall k :: 0 <= k < |changes| ==> HasAfterIndex(changes[k])
  }

  function Placed(list: Slots, changes: seq<ListChange>): Slots
    requires ToPlace(changes)
  {
    if changes == [] then list
    else PlaceOne(Placed(list, changes[..|changes| - 1]), changes[|changes| - 1])
  }

  function Defined(list: Slots): seq<Value> {
    if list == [] then [] else (if list[0].Some? then [list[0].value] else []) + Defined(list[1..])
  }

  /** The additions and modifications, in the order of their after index. */
  function Placements(changes: seq<ListChange>): (placements: seq<ListChange>)
    ensures forall x :: x in placements <==> x in changes && HasAfterIndex(x)
    ensures ToPlace(placements)
  {
    FilterMembers(HasAfterIndex, changes);
    SortByMembers(AfterIndexLe, Filter(HasAfterIndex, changes));
    var placements := SortBy(AfterIndexLe, Filter(HasAfterIndex, changes));
    assert forall k :: 0 <= k < |placements| ==> placements[k] in placements;
    placements
  }

  lemma PlacementsInOrder(changes: seq<ListChange>, i: nat, j: nat)
    requires i < j < |Placements(changes)|
    ensures Placements(changes)[i].afterIndex <= Placements(changes)[j].afterIndex
  {
    assert TotalPreorder(AfterIndexLe);
    SortBySorted(AfterIndexLe, Filter(HasAfterIndex, changes));
    assert AfterIndexLe(Placements(changes)[i], Placements(changes)[j]);
  }

  /** Two changes that go to one place are one and the same. */
  ghost predicate OwnPlaces(changes: seq<ListChange>) {
    forall x, y :: x in changes && y in changes && HasAfterIndex(x) && HasAfterIndex(y) && x != y ==>
      x.afterIndex != y.afterIndex
  }

  predicate IsAt(list: Slots, change: ListChange) {
    HasAfterIndex(change) && change.afterIndex < |list| && list[change.afterIndex] == Some(change.afterValue)
  }

  lemma {:induction false} PlacedInOrder(list: Slots, changes: seq<ListChange>, k: nat)
    requires ToPlace(changes) && k < |changes|
    requires forall i, j :: 0 <= i < j < |changes| ==> changes[i].afterIndex < changes[j].afterIndex
    ensures IsAt(Placed(list, changes), changes[k])
    decreases |changes|
  {
    var rest, last := changes[..|changes| - 1], changes[|changes| - 1];
    if k < |rest| {
      PlacedInOrder(list, rest, k);
      assert changes[k].afterIndex < last.afterIndex;
    }
  }

  /** Whatever else is in the list, each item ends up at its own index: in the order of their
      indexes, a later one pushes no earlier one away. */
  lemma PlacedAtOwnIndex(list: Slots, changes: seq<ListChange>, x: ListChange)
    requires Distinct(changes) && OwnPlaces(changes) && x in changes && HasAfterIndex(x)
    ensures IsAt(Placed(list, Placements(changes)), x)
  {
    var sorted := Placements(changes);
    FilterDistinct(HasAfterIndex, changes);
    SortByDistinct(AfterIndexLe, Filter(HasAfterIndex, changes));
    forall i, j | 0 <= i < j < |sorted|
      ensures sorted[i].afterIndex < sorted[j].afterIndex
    {
      PlacementsInOrder(changes, i, j);
      assert sorted[i] in sorted && sorted[j] in sorted;
    }
    var k :| 0 <= k < |sorted| && sorted[k] == x;
    PlacedInOrder(list, sorted, k);
  }

  function Updated(items: seq<Value>, changes: seq<ListChange>): seq<Value> {
    Defined(Placed(Punched(SlotsOf(items), changes), Placements(changes)))
  }

  method UpdateList(items: seq<Value>, changes: seq<ListChange>) returns (updated: seq<Value>)
    ensures updated == Updated(items, changes)
  {
    var list := SlotsOf(items);
    for k := 0 to |changes|
      invariant list == Punched(SlotsOf(items), changes[..k])
    {
      assert changes[..k + 1][..k] == changes[..k];
      if HasBeforeIndex(changes[k]) {
        list := SetSlot(list, changes[k].beforeIndex, None);
      }
    }
    assert changes[..|changes|] == changes;
    var sorted := Placements(changes);
    ghost var punched := list;
    for k := 0 to |sorted|
      invariant list == Placed(punched, sorted[..k])
    {
      assert sorted[..k + 1][..k] == sorted[..k];
      if Free(list, sorted[k].afterIndex) {
        list := SetSlot(list, sorted[k].afterIndex, Some(sorted[k].afterValue));
      } else {
        list := Splice(list, sorted[k].afterIndex, Some(sorted[k].afterValue));
      }
    }
    assert sorted[..|sorted|] == sorted;
    updated := Defined(list);
  }

  // ----- all the changes of a mapping -----

  /** The change of one item of a mapping. */
  function ChangeOfItem(item: IndexMappingItem, after: seq<Value>): (change: ListChange)
    requires item.beforeIndex.Some? || item.afterIndex.Some?
    requires item.afterIndex.Some? ==> item.afterIndex.value < |after|
  {
    if item.afterIndex.None? then ListRemove(item.beforeIndex.value)
    else if item.beforeIndex.None? then ListAdd(item.afterIndex.value, after[item.afterIndex.value])
    else ListModify(item.beforeIndex.value, item.afterIndex.value, after[item.afterIndex.value])
  }

  /** An item that is where it was and what it was. */
  ghost predicate Unchanged(item: IndexMappingItem, before: seq<Value>, after: seq<Value>) {
    && item.beforeIndex.Some? && item.afterIndex == item.beforeIndex
    && item.beforeIndex.value < |before| && item.beforeIndex.value < |after|
    && before[item.beforeIndex.value] == after[item.beforeIndex.value]
    && !before[item.beforeIndex.value].Hole?
  }

  /** `changes` are the changes of the items of `touched`, each once; the others did not change. */
  ghost predicate Edits(mapping: seq<IndexMappingItem>, touched: set<nat>, changes: seq<ListChange>,
                        before: seq<Value>, after: seq<Value>) {
    && Exact(mapping, |before|, |after|)
    && Distinct(changes)
    && (forall c {:trigger mapping[c]} :: 0 <= c < |mapping| && c !in touched ==> Unchanged(mapping[c], before, after))
    && (forall c {:trigger mapping[c]} :: 0 <= c < |mapping| && c in touched ==>
          ChangeOfItem(mapping[c], after) in changes)
    && (forall x {:trigger x in changes} :: x in changes ==> IsChangeOfItem(x, mapping, touched, after))
  }

  ghost predicate IsChangeOfItem(x: ListChange, mapping: seq<IndexMappingItem>, touched: set<nat>, after: seq<Value>) {
    exists c {:trigger mapping[c]} :: 0 <= c < |mapping| && c in touched
      && (mapping[c].beforeIndex.Some? || mapping[c].afterIndex.Some?)
      && (mapping[c].afterIndex.Some? ==> mapping[c].afterIndex.value < |after|)
      && x == ChangeOfItem(mapping[c], after)
  }

  ghost predicate Punches(changes: seq<ListChange>, i: nat) {
    exists x :: x in changes && HasBeforeIndex(x) && x.beforeIndex == i
  }

  lemma {:induction false} PunchedAt(list: Slots, changes: seq<ListChange>)
    requires forall x :: x in changes && HasBeforeIndex(x) ==> x.beforeIndex < |list|
    ensures |Punched(list, changes)| == |list|
    ensures forall i :: 0 <= i < |list| ==>
      Punched(list, changes)[i] == if Punches(changes, i) then None else list[i]
  {
    if changes != [] {
      var rest, last := changes[..|changes| - 1], changes[|changes| - 1];
      assert changes == rest + [last];
      PunchedAt(list, rest);
      forall i: nat
        ensures Punches(changes, i) <==> Punches(rest, i) || (HasBeforeIndex(last) && last.beforeIndex == i)
      {
        if HasBeforeIndex(last) && last.beforeIndex == i {
          assert last in changes;
        }
      }
    }
  }

  /** What is in a slot is what the after list has there. */
  ghost predicate Agrees(list: Slots, after: seq<Value>) {
    forall i :: 0 <= i < |list| && list[i].Some? ==> i < |after| && list[i].value == after[i]
  }

  /** The change puts what the after list has there into a free slot. */
  ghost predicate Fits(list: Slots, change: ListChange, after: seq<Value>) {
    && HasAfterIndex(change) && Free(list, change.afterIndex)
    && change.afterIndex < |after| && change.afterValue == after[change.afterIndex]
  }

  lemma PlaceAgrees(list: Slots, change: ListChange, after: seq<Value>)
    requires Agrees(list, after) && Fits(list, change, after)
    ensures Agrees(PlaceOne(list, change), after)
    ensures forall i: nat :: Free(PlaceOne(list, change), i) <==> Free(list, i) && i != change.afterIndex
  {}

  /** No two changes go to one place. */
  ghost predicate Apart(changes: seq<ListChange>)
    requires ToPlace(changes)
  {
    forall j, k :: 0 <= j < k < |changes| ==> changes[j].afterIndex != changes[k].afterIndex
  }

  ghost predicate GoesTo(changes: seq<ListChange>, i: nat) {
    exists k :: 0 <= k < |changes| && HasAfterIndex(changes[k]) && changes[k].afterIndex == i
  }

  lemma GoesToLast(changes: seq<ListChange>, i: nat)
    requires ToPlace(changes) && changes != []
    ensures GoesTo(changes, i) <==> GoesTo(changes[..|changes| - 1], i) || changes[|changes| - 1].afterIndex == i
  {
    var rest := changes[..|changes| - 1];
    if GoesTo(rest, i) {
      var k :| 0 <= k < |rest| && HasAfterIndex(rest[k]) && rest[k].afterIndex == i;
      assert changes[k] == rest[k];
    }
  }

  ghost predicate AllFit(list: Slots, changes: seq<ListChange>, after: seq<Value>) {
    forall k :: 0 <= k < |changes| ==> Fits(list, changes[k], after)
  }

  lemma {:induction false} PlacedAgrees(list: Slots, changes: seq<ListChange>, after: seq<Value>)
    requires Agrees(list, after) && ToPlace(changes) && Apart(changes) && AllFit(list, changes, after)
    ensures Agrees(Placed(list, changes), after)
    ensures forall i: nat {:trigger Free(Placed(list, changes), i)} ::
      Free(Placed(list, changes), i) <==> Free(list, i) && !GoesTo(changes, i)
  {
    if changes == [] {
      assert forall i: nat :: !GoesTo(changes, i);
    } else {
      var rest, last := changes[..|changes| - 1], changes[|changes| - 1];
      PlacedAgrees(list, rest, after);
      LastFits(list, changes, after);
      PlaceAgrees(Placed(list, rest), last, after);
      forall i: nat
        ensures GoesTo(changes, i) <==> GoesTo(rest, i) || last.afterIndex == i
      {
        GoesToLast(changes, i);
      }
    }
  }

  lemma LastFits(list: Slots, changes: seq<ListChange>, after: seq<Value>)
    requires changes != [] && ToPlace(changes) && Apart(changes) && AllFit(list, changes, after)
    requires forall i: nat {:trigger Free(Placed(list, changes[..|changes| - 1]), i)} ::
      Free(Placed(list, changes[..|changes| - 1]), i) <==> Free(list, i) && !GoesTo(changes[..|changes| - 1], i)
    ensures Fits(Placed(list, changes[..|changes| - 1]), changes[|changes| - 1], after)
  {
    var rest, last := changes[..|changes| - 1], changes[|changes| - 1];
    assert Fits(list, last, after);
    assert !GoesTo(rest, last.afterIndex);
    assert Free(Placed(list, rest), last.afterIndex);
  }

  /** Every change finds its slot free, whatever the order: `splice` is never reached. */
  lemma NeverSpliced(list: Slots, changes: seq<ListChange>, after: seq<Value>, k: nat)
    requires Agrees(list, after) && ToPlace(changes) && Apart(changes) && AllFit(list, changes, after)
    requires k < |changes|
    ensures Free(Placed(list, changes[..k]), changes[k].afterIndex)
  {
    var done := changes[..k + 1];
    assert done[..k] == changes[..k];
    PlacedAgrees(list, changes[..k], after);
    LastFits(list, done, after);
  }

  lemma {:induction false} DefinedIsAfter(list: Slots, after: seq<Value>)
    requires Agrees(list, after)
    requires forall i: nat :: i < |after| ==> !Free(list, i)
    ensures Defined(list) == after
  {
    if after != [] {
      assert !Free(list, 0);
    }
    if list == [] {
    } else if after == [] {
      DefinedIsAfter(list[1..], after);
    } else {
      forall i: nat | i < |after[1..]|
        ensures !Free(list[1..], i)
      {
        assert !Free(list, i + 1);
      }
      DefinedIsAfter(list[1..], after[1..]);
    }
  }

  // ----- the round trip of a list -----

  lemma EditOfItem(mapping: seq<IndexMappingItem>, touched: set<nat>, changes: seq<ListChange>, before: seq<Value>,
                   after: seq<Value>, x: ListChange)
    returns (c: nat)
    requires Edits(mapping, touched, changes, before, after) && x in changes
    ensures c < |mapping| && c in touched && InRange(mapping[c], |before|, |after|)
    ensures x == ChangeOfItem(mapping[c], after)
  {
    assert IsChangeOfItem(x, mapping, touched, after);
    c :| 0 <= c < |mapping| && c in touched
      && (mapping[c].beforeIndex.Some? || mapping[c].afterIndex.Some?)
      && (mapping[c].afterIndex.Some? ==> mapping[c].afterIndex.value < |after|)
      && x == ChangeOfItem(mapping[c], after);
  }

  /** After punching, a slot still filled has an item that neither moved nor changed. */
  lemma PunchedAgrees(mapping: seq<IndexMappingItem>, touched: set<nat>, changes: seq<ListChange>, before: seq<Value>,
                      after: seq<Value>)
    requires Edits(mapping, touched, changes, before, after)
    ensures Agrees(Punched(SlotsOf(before), changes), after)
    ensures forall c {:trigger mapping[c]} :: 0 <= c < |mapping| && c !in touched ==>
      !Free(Punched(SlotsOf(before), changes), mapping[c].beforeIndex.value)
    ensures forall c {:trigger mapping[c]} :: 0 <= c < |mapping| && c in touched && mapping[c].afterIndex.Some? ==>
      Free(Punched(SlotsOf(before), changes), mapping[c].afterIndex.value)
  {
    var list := Punched(SlotsOf(before), changes);
    forall x | x in changes && HasBeforeIndex(x)
      ensures x.beforeIndex < |before|
    {
      var c := EditOfItem(mapping, touched, changes, before, after, x);
    }
    PunchedAt(SlotsOf(before), changes);
    forall i | 0 <= i < |list| && list[i].Some?
      ensures i < |after| && list[i].value == after[i] && ItemStays(mapping, touched, i)
    {
      UnpunchedItem(mapping, touched, changes, before, after, i);
    }
    forall c | 0 <= c < |mapping| && c !in touched
      ensures !Free(list, mapping[c].beforeIndex.value)
    {
      UntouchedNotPunched(mapping, touched, changes, before, after, c);
    }
    forall c | 0 <= c < |mapping| && c in touched && mapping[c].afterIndex.Some?
      ensures Free(list, mapping[c].afterIndex.value)
    {
      var i := mapping[c].afterIndex.value;
      if i < |list| && list[i].Some? {
        assert ItemStays(mapping, touched, i);
        var c' :| 0 <= c' < |mapping| && c' !in touched
          && mapping[c'].beforeIndex == Some(i) && mapping[c'].afterIndex == Some(i);
        OwnIndexes(mapping, |before|, |after|, c, c');
      }
    }
  }

  ghost predicate ItemStays(mapping: seq<IndexMappingItem>, touched: set<nat>, i: nat) {
    exists c ::
      0 <= c < |mapping| && c !in touched && mapping[c].beforeIndex == Some(i) && mapping[c].afterIndex == Some(i)
  }

  lemma OwnIndexes(mapping: seq<IndexMappingItem>, nb: nat, na: nat, c: nat, c': nat)
    requires Exact(mapping, nb, na) && c < |mapping| && c' < |mapping| && c != c'
    ensures NothingShared(mapping[c], mapping[c'])
  {
    if c' < c {
      assert NothingShared(mapping[c'], mapping[c]);
    }
  }

  lemma UnpunchedItem(mapping: seq<IndexMappingItem>, touched: set<nat>, changes: seq<ListChange>, before: seq<Value>,
                      after: seq<Value>, i: nat)
    requires Edits(mapping, touched, changes, before, after) && i < |before|
    ensures Punches(changes, i) || (i < |after| && before[i] == after[i] && ItemStays(mapping, touched, i))
  {
    assert CoversBefore(mapping, i);
    var c :| 0 <= c < |mapping| && mapping[c].beforeIndex == Some(i);
    if c in touched {
      assert ChangeOfItem(mapping[c], after) in changes;
    } else {
      assert Unchanged(mapping[c], before, after);
    }
  }

  lemma UntouchedNotPunched(mapping: seq<IndexMappingItem>, touched: set<nat>, changes: seq<ListChange>,
                            before: seq<Value>, after: seq<Value>, c: nat)
    requires Edits(mapping, touched, changes, before, after) && c < |mapping| && c !in touched
    ensures mapping[c].beforeIndex.Some? && !Punches(changes, mapping[c].beforeIndex.value)
  {
    assert Unchanged(mapping[c], before, after);
    if Punches(changes, mapping[c].beforeIndex.value) {
      var x :| x in changes && HasBeforeIndex(x) && x.beforeIndex == mapping[c].beforeIndex.value;
      var c' := EditOfItem(mapping, touched, changes, before, after, x);
      OwnIndexes(mapping, |before|, |after|, c, c');
    }
  }

  /** The placements go to different places, each free after punching, with what belongs there. */
  lemma PlacementsFit(mapping: seq<IndexMappingItem>, touched: set<nat>, changes: seq<ListChange>, before: seq<Value>,
                      after: seq<Value>)
    requires Edits(mapping, touched, changes, before, after)
    ensures var list, sorted := Punched(SlotsOf(before), changes), Placements(changes);
            Apart(sorted) && AllFit(list, sorted, after)
  {
    var list, sorted := Punched(SlotsOf(before), changes), Placements(changes);
    PunchedAgrees(mapping, touched, changes, before, after);
    FilterDistinct(HasAfterIndex, changes);
    SortByDistinct(AfterIndexLe, Filter(HasAfterIndex, changes));
    forall j, k | 0 <= j < k < |sorted|
      ensures sorted[j].afterIndex != sorted[k].afterIndex
    {
      assert sorted[j] in sorted && sorted[k] in sorted;
      var c := EditOfItem(mapping, touched, changes, before, after, sorted[j]);
      var c' := EditOfItem(mapping, touched, changes, before, after, sorted[k]);
      OwnIndexes(mapping, |before|, |after|, c, c');
    }
    forall k | 0 <= k < |sorted|
      ensures Fits(list, sorted[k], after)
    {
      assert sorted[k] in sorted;
      var c := EditOfItem(mapping, touched, changes, before, after, sorted[k]);
    }
  }

  /** Every place of the after list is filled already or has a change that goes there. */
  lemma PlaceFilled(mapping: seq<IndexMappingItem>, touched: set<nat>, changes: seq<ListChange>, before: seq<Value>,
                    after: seq<Value>, i: nat)
    requires Edits(mapping, touched, changes, before, after) && i < |after|
    ensures !Free(Punched(SlotsOf(before), changes), i) || GoesTo(Placements(changes), i)
  {
    var sorted := Placements(changes);
    PunchedAgrees(mapping, touched, changes, before, after);
    assert CoversAfter(mapping, i);
    var c :| 0 <= c < |mapping| && mapping[c].afterIndex == Some(i);
    if c in touched {
      var x := ChangeOfItem(mapping[c], after);
      assert x in changes && HasAfterIndex(x) && x in sorted;
      var k :| 0 <= k < |sorted| && sorted[k] == x;
      assert GoesTo(sorted, i);
    } else {
      assert Unchanged(mapping[c], before, after);
    }
  }

  /** Applying the changes of any exact mapping to the before list gives the after list, and
      every item that is placed finds its place free, so nothing is ever spliced in. */
  lemma UpdatedIsAfter(mapping: seq<IndexMappingItem>, touched: set<nat>, changes: seq<ListChange>, before: seq<Value>,
                       after: seq<Value>)
    requires Edits(mapping, touched, changes, before, after)
    ensures Updated(before, changes) == after
    ensures var list, sorted := Punched(SlotsOf(before), changes), Placements(changes);
            forall k :: 0 <= k < |sorted| ==> Free(Placed(list, sorted[..k]), sorted[k].afterIndex)
  {
    var list, sorted := Punched(SlotsOf(before), changes), Placements(changes);
    PunchedAgrees(mapping, touched, changes, before, after);
    PlacementsFit(mapping, touched, changes, before, after);
    PlacedAgrees(list, sorted, after);
    forall k | 0 <= k < |sorted|
      ensures Free(Placed(list, sorted[..k]), sorted[k].afterIndex)
    {
      NeverSpliced(list, sorted, after, k);
    }
    forall i: nat | i < |after|
      ensures !Free(Placed(list, sorted), i)
    {
      PlaceFilled(mapping, touched, changes, before, after, i);
    }
    DefinedIsAfter(Placed(list, sorted), after);
  }

  // ----- a list with more items than its changes know of -----

  lemma {:induction false} DefinedConcat(list: Slots, list': Slots)
    ensures Defined(list + list') == Defined(list) + Defined(list')
  {
    if list == [] {
      assert list + list' == list';
    } else {
      assert (list + list')[0] == list[0] && (list + list')[1..] == list[1..] + list';
      DefinedConcat(list[1..], list');
    }
  }

  lemma {:induction false} SomethingDefined(items: seq<Value>, j: nat)
    requires j < |items| && !items[j].Hole?
    ensures |Defined(SlotsOf(items))| > 0
  {
    if j > 0 {
      assert SlotsOf(items)[1..] == SlotsOf(items[1..]);
      SomethingDefined(items[1..], j - 1);
    }
  }

  lemma {:induction false} NothingDefined(n: nat)
    ensures Defined(seq(n, _ => None)) == []
  {
    if n > 0 {
      var list: Slots := seq(n, _ => None);
      assert list[1..] == seq(n - 1, _ => None);
      NothingDefined(n - 1);
    }
  }

  /** Placing an item puts it between the others and leaves them in their order, whether it fills
      a slot or is spliced in. */
  lemma PlacedAmong(list: Slots, change: ListChange) returns (left: seq<Value>, right: seq<Value>)
    requires HasAfterIndex(change)
    ensures Defined(list) == left + right
    ensures Defined(PlaceOne(list, change)) == left + [change.afterValue] + right
    ensures left == Defined(list[..if change.afterIndex <= |list| then change.afterIndex else |list|])
  {
    var i := change.afterIndex;
    if i < |list| {
      left, right := Defined(list[..i]), Defined(list[i..]);
      assert list == list[..i] + list[i..];
      DefinedConcat(list[..i], list[i..]);
      PlacedInside(list, change);
    } else {
      left, right := Defined(list), [];
      PlacedPastEnd(list, change);
      assert list[..|list|] == list;
      assert left + [change.afterValue] + [] == left + [change.afterValue];
    }
  }

  lemma ConcatAssociates<T>(a: seq<T>, b: seq<T>, c: seq<T>)
    ensures a + (b + c) == a + b + c
  {}

  lemma PlacedInside(list: Slots, change: ListChange)
    requires HasAfterIndex(change) && change.afterIndex < |list|
    ensures var i := change.afterIndex;
            Defined(PlaceOne(list, change)) == Defined(list[..i]) + [change.afterValue] + Defined(list[i..])
  {
    var i, x := change.afterIndex, Some(change.afterValue);
    var rest := if list[i].None? then list[i + 1..] else list[i..];
    assert list[i..] == [list[i]] + list[i + 1..];
    assert Defined(rest) == Defined(list[i..]);
    ConcatAssociates(list[..i], [x], rest);
    if list[i].None? {
      assert PlaceOne(list, change) == list[i := x] == list[..i] + [x] + rest;
    }
    DefinedConcat(list[..i], [x] + rest);
    DefinedFirst(x.value, rest);
    ConcatAssociates(Defined(list[..i]), [x.value], Defined(rest));
  }

  lemma DefinedFirst(v: Value, rest: Slots)
    ensures Defined([Some(v)] + rest) == [v] + Defined(rest)
  {
    assert ([Some(v)] + rest)[1..] == rest;
  }

  lemma PlacedPastEnd(list: Slots, change: ListChange)
    requires HasAfterIndex(change) && change.afterIndex >= |list|
    ensures Defined(PlaceOne(list, change)) == Defined(list) + [change.afterValue]
  {
    var i, x := change.afterIndex, Some(change.afterValue);
    var gap := seq(i - |list|, _ => None);
    ConcatAssociates(list, gap, [x]);
    NothingDefined(i - |list|);
    DefinedConcat(gap, [x]);
    DefinedConcat(list, gap + [x]);
  }

  lemma {:induction false} PlacedAddsEach(list: Slots, changes: seq<ListChange>)
    requires ToPlace(changes)
    ensures |Defined(Placed(list, changes))| == |Defined(list)| + |changes|
  {
    if changes != [] {
      PlacedAddsEach(list, changes[..|changes| - 1]);
      var _, _ := PlacedAmong(Placed(list, changes[..|changes| - 1]), changes[|changes| - 1]);
    }
  }

  lemma {:induction false} PunchedKeepsExtra(list: Slots, extra: Slots, changes: seq<ListChange>)
    requires forall x :: x in changes && HasBeforeIndex(x) ==> x.beforeIndex < |list|
    ensures |Punched(list, changes)| == |list| && Punched(list + extra, changes) == Punched(list, changes) + extra
  {
    if changes != [] {
      var rest, last := changes[..|changes| - 1], changes[|changes| - 1];
      assert changes == rest + [last];
      PunchedKeepsExtra(list, extra, rest);
    }
  }

  /** Items past the end of the before list are still there after all the changes, so there are
      as many too many; holes are not. */
  lemma UpdatedKeepsExtra(mapping: seq<IndexMappingItem>, touched: set<nat>, changes: seq<ListChange>,
                          before: seq<Value>, after: seq<Value>, extra: seq<Value>)
    requires Edits(mapping, touched, changes, before, after)
    ensures |Updated(before + extra, changes)| == |after| + |Defined(SlotsOf(extra))|
  {
    forall x | x in changes && HasBeforeIndex(x)
      ensures x.beforeIndex < |before|
    {
      var c := EditOfItem(mapping, touched, changes, before, after, x);
    }
    assert SlotsOf(before + extra) == SlotsOf(before) + SlotsOf(extra);
    PunchedKeepsExtra(SlotsOf(before), SlotsOf(extra), changes);
    DefinedConcat(Punched(SlotsOf(before), changes), SlotsOf(extra));
    PlacedAddsEach(Punched(SlotsOf(before), changes), Placements(changes));
    PlacedAddsEach(Punched(SlotsOf(before), changes) + SlotsOf(extra), Placements(changes));
    UpdatedIsAfter(mapping, touched, changes, before, after);
  }
}
