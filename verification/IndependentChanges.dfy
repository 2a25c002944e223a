/** `getIndependentChanges`: a moved item's own change stands for the changes inside it. */
module IndependentChanges {
  import opened Wrappers
  import opened Sorting
  import opened Values
  import opened Changes
  import opened IndexMapping
  import opened IndependentIds
  import opened Diff

  function Ids(changes: seq<DetailedChange>): (ids: seq<Path>)
    ensures |ids| == |changes|
    ensures forall c :: c in changes ==> c.id in ids
    ensures forall id :: id in ids ==> exists c :: c in changes && c.id == id
  {
    var ids := seq(|changes|, i requires 0 <= i < |changes| => changes[i].id);
    assert forall i :: 0 <= i < |changes| ==> ids[i] == changes[i].id;
    ids
  }

  predicate NoOrderChange(changes: seq<DetailedChange>) {
    forall c :: c in changes ==> !IsOrderChange(c)
  }

  function GetIndependentChanges(changes: seq<DetailedChange>): seq<DetailedChange> {
    if NoOrderChange(changes) then changes
    else
      var relevantIds := GetIndependent(Ids(changes));
      Filter((c: DetailedChange) => c.id in relevantIds, changes)
  }

  /** The changes that are not below another one. */
  function OutermostChanges(changes: seq<DetailedChange>): seq<DetailedChange> {
    Filter((c: DetailedChange) => Outermost(c, changes), changes)
  }

  predicate Outermost(c: DetailedChange, changes: seq<DetailedChange>) {
    forall c' :: c' in changes ==> !(c'.id < c.id)
  }

  lemma OutermostIsIndependent(c: DetailedChange, changes: seq<DetailedChange>)
    ensures Outermost(c, changes) <==> Independent(c.id, Ids(changes))
  {
    if Outermost(c, changes) {
      forall a | a in Ids(changes)
        ensures !(a < c.id)
      {
        var c' :| c' in changes && c'.id == a;
      }
    }
  }

  /** Whatever else is kept, the outermost changes are. */
  lemma OutermostAreKept(changes: seq<DetailedChange>, c: DetailedChange)
    ensures c in GetIndependentChanges(changes) ==> c in changes
    ensures c in OutermostChanges(changes) ==> c in GetIndependentChanges(changes)
  {
    var relevantIds := GetIndependent(Ids(changes));
    FilterMembers((c': DetailedChange) => Outermost(c', changes), changes);
    FilterMembers((c': DetailedChange) => c'.id in relevantIds, changes);
    if c in changes && Outermost(c, changes) {
      OutermostIsIndependent(c, changes);
      NeverDropsIndependent(Ids(changes), c.id);
    }
  }

  /** A change that is not outermost is below one that is. */
  lemma {:induction false} OutermostAbove(changes: seq<DetailedChange>, c: DetailedChange) returns (m: DetailedChange)
    requires c in changes && !Outermost(c, changes)
    ensures m in changes && Outermost(m, changes) && m.id < c.id
    decreases |c.id|
  {
    m :| m in changes && m.id < c.id;
    if !Outermost(m, changes) {
      m := OutermostAbove(changes, m);
    }
  }

  /** Unless the sort by names separates an id from its ancestor, what is kept are the
      outermost changes. */
  lemma IndependentAreOutermost(changes: seq<DetailedChange>)
    requires !NoOrderChange(changes) && !Separated(SortBy(IdLe, Ids(changes)))
    ensures GetIndependentChanges(changes) == OutermostChanges(changes)
  {
    var ids := Ids(changes);
    var relevantIds := GetIndependent(ids);
    GetIndependentIsExact(ids);
    FilterMembers(id => Independent(id, ids), ids);
    forall c | c in changes
      ensures c.id in relevantIds <==> Outermost(c, changes)
    {
      OutermostIsIndependent(c, changes);
    }
    FilterSame((c: DetailedChange) => c.id in relevantIds, (c: DetailedChange) => Outermost(c, changes), changes);
  }

  /** And only then. */
  lemma OutermostOnlyIfNotSeparated(changes: seq<DetailedChange>)
    requires !NoOrderChange(changes) && GetIndependentChanges(changes) == OutermostChanges(changes)
    ensures !Separated(SortBy(IdLe, Ids(changes)))
  {
    var ids := Ids(changes);
    var relevantIds := GetIndependent(ids);
    FilterMembers((c: DetailedChange) => c.id in relevantIds, changes);
    FilterMembers((c: DetailedChange) => Outermost(c, changes), changes);
    FilterMembers(id => id in Kept(SortBy(IdLe, ids)), ids);
    forall id | id in ids
      ensures id in Kept(SortBy(IdLe, ids)) <==> Independent(id, ids)
    {
      var c :| c in changes && c.id == id;
      OutermostIsIndependent(c, changes);
      assert c in GetIndependentChanges(changes) <==> c in OutermostChanges(changes);
    }
    FilterSame(id => id in Kept(SortBy(IdLe, ids)), id => Independent(id, ids), ids);
    GetIndependentIsExact(ids);
  }

  /** With order changes among them, exactly the outermost changes are kept if and only if the
      sort by names separates no id from its ancestor. */
  lemma KeptAreOutermostIff(changes: seq<DetailedChange>)
    requires !NoOrderChange(changes)
    ensures GetIndependentChanges(changes) == OutermostChanges(changes) <==> !Separated(SortBy(IdLe, Ids(changes)))
  {
    if Separated(SortBy(IdLe, Ids(changes))) {
      if GetIndependentChanges(changes) == OutermostChanges(changes) {
        OutermostOnlyIfNotSeparated(changes);
      }
    } else {
      IndependentAreOutermost(changes);
    }
  }

  // ----- deltas in which moved items are not looked into -----

  function Collapse(d: Delta): Delta {
    match d
    case Fields(fields) => Fields(CollapseFields(fields))
    case Items(items) => Items(CollapseItems(items))
    case _ => d
  }

  function CollapseFields(fields: FieldDeltas): FieldDeltas {
    match fields
    case NoFields => NoFields
    case Field(key, d, others) => Field(key, Collapse(d), CollapseFields(others))
  }

  predicate Moved(item: IndexMappingItem) {
    item.beforeIndex != item.afterIndex
  }

  function CollapseItems(items: ItemDeltas): ItemDeltas {
    match items
    case NoItems => NoItems
    case ItemAt(item, d, others) =>
      ItemAt(item, if Moved(item) && !Direct(d) then Replaced else Collapse(d), CollapseItems(others))
  }

  /** No moved item has changes inside. */
  predicate Settled(d: Delta) {
    match d
    case Fields(fields) => SettledFields(fields)
    case Items(items) => SettledItems(items)
    case _ => true
  }

  predicate SettledFields(fields: FieldDeltas) {
    fields.NoFields? || (Settled(fields.delta) && SettledFields(fields.others))
  }

  predicate SettledItems(items: ItemDeltas) {
    items.NoItems? ||
    ((Moved(items.item) ==> Direct(items.delta)) && Settled(items.delta) && SettledItems(items.others))
  }

  lemma {:induction false} CollapsedShape(d: Delta)
    ensures Settled(Collapse(d))
    ensures Direct(Collapse(d)) <==> Direct(d)
  {
    if d.Fields? {
      CollapsedFieldsShape(d.fields);
    } else if d.Items? {
      CollapsedItemsShape(d.items);
    }
  }

  lemma {:induction false} CollapsedFieldsShape(fields: FieldDeltas)
    ensures SettledFields(CollapseFields(fields)) && KeysOf(CollapseFields(fields)) == KeysOf(fields)
  {
    if fields.Field? {
      CollapsedShape(fields.delta);
      CollapsedFieldsShape(fields.others);
    }
  }

  lemma {:induction false} CollapsedItemsShape(items: ItemDeltas)
    ensures SettledItems(CollapseItems(items)) && MappingOf(CollapseItems(items)) == MappingOf(items)
  {
    if items.ItemAt? {
      CollapsedShape(items.delta);
      CollapsedItemsShape(items.others);
    }
  }

  lemma {:induction false} CollapseDescribes(d: Delta, before: Option<Value>, after: Option<Value>)
    requires Describes(d, before, after)
    ensures Describes(Collapse(d), before, after)
  {
    if d.Fields? {
      CollapsedFieldsShape(d.fields);
      CollapseDescribesFields(d.fields, FieldsOf(before), FieldsOf(after));
    } else if d.Items? {
      CollapsedItemsShape(d.items);
      CollapseDescribesItems(d.items, ItemsOf(before), ItemsOf(after));
    }
  }

  lemma {:induction false} CollapseDescribesFields(fields: FieldDeltas, before: map<string, Value>,
                                                   after: map<string, Value>)
    requires DescribesFields(fields, before, after)
    ensures DescribesFields(CollapseFields(fields), before, after)
  {
    if fields.Field? {
      CollapsedFieldsShape(fields.others);
      CollapseDescribes(fields.delta, FieldAt(before, fields.key), FieldAt(after, fields.key));
      CollapseDescribesFields(fields.others, before, after);
    }
  }

  lemma {:induction false} CollapseDescribesItems(items: ItemDeltas, before: seq<Value>, after: seq<Value>)
    requires DescribesItems(items, before, after)
    ensures DescribesItems(CollapseItems(items), before, after)
  {
    if items.ItemAt? {
      CollapseDescribes(items.delta, ItemOf(before, items.item.beforeIndex), ItemOf(after, items.item.afterIndex));
      CollapseDescribesItems(items.others, before, after);
    }
  }

  // ----- where the ids of a part's changes are -----

  /** All ids are at `id` itself or, if `strictly`, below it. */
  ghost predicate AllUnder(changes: seq<DetailedChange>, id: Path, strictly: bool) {
    forall c :: c in changes ==> id <= c.id && (strictly ==> |id| < |c.id|)
  }

  ghost predicate NextPartIn(changes: seq<DetailedChange>, id: Path, keys: set<string>) {
    forall c :: c in changes ==> id < c.id && c.id[|id|] in keys
  }

  ghost predicate NextPartFrom(changes: seq<DetailedChange>, id: Path, position: nat) {
    forall c :: c in changes ==>
      id < c.id && IsIndexPathPart(c.id[|id|]) && IndexOf(c.id[|id|]) >= position
  }

  lemma {:induction false} FlattenUnder(d: Delta, id: Path, beforeId: Option<Path>, afterId: Option<Path>,
                                        before: Option<Value>, after: Option<Value>)
    ensures AllUnder(Flatten(d, id, beforeId, afterId, before, after), id, !Direct(d))
    decreases d, 0
  {
    if d.Fields? {
      FlattenFieldsUnder(d.fields, id, beforeId, afterId, FieldsOf(before), FieldsOf(after));
    } else if d.Items? {
      FlattenItemsUnder(d.items, 0, id, beforeId, afterId, ItemsOf(before), ItemsOf(after));
    }
  }

  lemma {:induction false} FlattenFieldsUnder(fields: FieldDeltas, id: Path, beforeId: Option<Path>,
                                              afterId: Option<Path>, before: map<string, Value>,
                                              after: map<string, Value>)
    ensures NextPartIn(FlattenFields(fields, id, beforeId, afterId, before, after), id, KeysOf(fields))
    decreases fields, 0
  {
    if fields.Field? {
      var key := fields.key;
      FlattenUnder(fields.delta, id + [key], Nested(beforeId, key), Nested(afterId, key), FieldAt(before, key),
                   FieldAt(after, key));
      FlattenFieldsUnder(fields.others, id, beforeId, afterId, before, after);
      UnderNested(Flatten(fields.delta, id + [key], Nested(beforeId, key), Nested(afterId, key), FieldAt(before, key),
                          FieldAt(after, key)), id, key);
    }
  }

  lemma UnderNested(changes: seq<DetailedChange>, id: Path, part: string)
    requires AllUnder(changes, id + [part], false)
    ensures forall c :: c in changes ==> id < c.id && c.id[|id|] == part
  {
    forall c | c in changes
      ensures id < c.id && c.id[|id|] == part
    {
      assert id + [part] <= c.id;
      assert (id + [part])[|id|] == part;
    }
  }

  lemma {:induction false} FlattenItemUnder(item: IndexMappingItem, d: Delta, position: nat, id: Path,
                                            beforeId: Option<Path>, afterId: Option<Path>, before: seq<Value>,
                                            after: seq<Value>)
    ensures AllUnder(FlattenItem(item, d, position, id, beforeId, afterId, before, after), id + [IndexName(position)],
                     false)
    decreases d, 1
  {
    FlattenUnder(d, id + [IndexName(position)], NestedItem(beforeId, item.beforeIndex),
                 NestedItem(afterId, item.afterIndex), ItemOf(before, item.beforeIndex),
                 ItemOf(after, item.afterIndex));
  }

  lemma {:induction false} FlattenItemsUnder(items: ItemDeltas, position: nat, id: Path, beforeId: Option<Path>,
                                             afterId: Option<Path>, before: seq<Value>, after: seq<Value>)
    ensures NextPartFrom(FlattenItems(items, position, id, beforeId, afterId, before, after), id, position)
    decreases items, 0
  {
    if items.ItemAt? {
      FlattenItemUnder(items.item, items.delta, position, id, beforeId, afterId, before, after);
      UnderNested(FlattenItem(items.item, items.delta, position, id, beforeId, afterId, before, after), id,
                  IndexName(position));
      IndexOfName(position);
      FlattenItemsUnder(items.others, position + 1, id, beforeId, afterId, before, after);
    }
  }

  // ----- the outermost changes of a difference -----

  ghost predicate Unrelated(s: seq<DetailedChange>, t: seq<DetailedChange>) {
    forall x, y :: x in s && y in t ==> !(x.id < y.id) && !(y.id < x.id)
  }

  lemma OutermostConcat(s: seq<DetailedChange>, t: seq<DetailedChange>)
    requires Unrelated(s, t)
    ensures OutermostChanges(s + t) == OutermostChanges(s) + OutermostChanges(t)
  {
    FilterConcat((c: DetailedChange) => Outermost(c, s + t), s, t);
    FilterSame((c: DetailedChange) => Outermost(c, s + t), (c: DetailedChange) => Outermost(c, s), s);
    FilterSame((c: DetailedChange) => Outermost(c, s + t), (c: DetailedChange) => Outermost(c, t), t);
  }

  lemma NextPartsUnrelated(s: seq<DetailedChange>, t: seq<DetailedChange>, id: Path, part: string)
    requires forall c :: c in s ==> id < c.id && c.id[|id|] == part
    requires forall c :: c in t ==> id < c.id && c.id[|id|] != part
    ensures Unrelated(s, t)
  {
    forall x, y | x in s && y in t
      ensures !(x.id < y.id) && !(y.id < x.id)
    {
      assert x.id[|id|] != y.id[|id|];
    }
  }

  lemma OutermostWithMove(inner: seq<DetailedChange>, move: DetailedChange)
    requires AllUnder(inner, move.id, true)
    ensures OutermostChanges(inner + [move]) == [move]
  {
    var all := inner + [move];
    FilterConcat((c: DetailedChange) => Outermost(c, all), inner, [move]);
    assert move in all;
    forall c | c in inner
      ensures !Outermost(c, all)
    {
      assert move.id < c.id;
    }
    FilterNone((c: DetailedChange) => Outermost(c, all), inner);
    assert Outermost(move, all);
    FilterOne((c: DetailedChange) => Outermost(c, all), move);
  }

  /** Keeping the outermost changes is not looking into moved items. */
  lemma {:induction false} OutermostIsCollapse(d: Delta, id: Path, beforeId: Option<Path>, afterId: Option<Path>,
                                               before: Option<Value>, after: Option<Value>)
    requires Describes(d, before, after)
    ensures OutermostChanges(Flatten(d, id, beforeId, afterId, before, after))
         == Flatten(Collapse(d), id, beforeId, afterId, before, after)
    decreases d, 0
  {
    match d
    case Fields(fields) => OutermostFields(fields, id, beforeId, afterId, FieldsOf(before), FieldsOf(after));
    case Items(items) => OutermostItems(items, 0, id, beforeId, afterId, ItemsOf(before), ItemsOf(after));
    case Same =>
    case _ =>
      var changes := Flatten(d, id, beforeId, afterId, before, after);
      assert changes == [changes[0]];
      FilterOne((c: DetailedChange) => Outermost(c, changes), changes[0]);
  }

  lemma {:induction false} OutermostFields(fields: FieldDeltas, id: Path, beforeId: Option<Path>, afterId: Option<Path>,
                                           before: map<string, Value>, after: map<string, Value>)
    requires DescribesFields(fields, before, after)
    ensures OutermostChanges(FlattenFields(fields, id, beforeId, afterId, before, after))
         == FlattenFields(CollapseFields(fields), id, beforeId, afterId, before, after)
    decreases fields, 0
  {
    if fields.Field? {
      var key, b, a := fields.key, FieldAt(before, fields.key), FieldAt(after, fields.key);
      var first := Flatten(fields.delta, id + [key], Nested(beforeId, key), Nested(afterId, key), b, a);
      var rest := FlattenFields(fields.others, id, beforeId, afterId, before, after);
      FlattenUnder(fields.delta, id + [key], Nested(beforeId, key), Nested(afterId, key), b, a);
      UnderNested(first, id, key);
      FlattenFieldsUnder(fields.others, id, beforeId, afterId, before, after);
      NextPartsUnrelated(first, rest, id, key);
      OutermostConcat(first, rest);
      OutermostIsCollapse(fields.delta, id + [key], Nested(beforeId, key), Nested(afterId, key), b, a);
      OutermostFields(fields.others, id, beforeId, afterId, before, after);
    }
  }

  lemma {:induction false} OutermostItem(item: IndexMappingItem, d: Delta, position: nat, id: Path,
                                         beforeId: Option<Path>, afterId: Option<Path>, before: seq<Value>,
                                         after: seq<Value>)
    requires InRange(item, |before|, |after|)
    requires Describes(d, ItemOf(before, item.beforeIndex), ItemOf(after, item.afterIndex))
    ensures OutermostChanges(FlattenItem(item, d, position, id, beforeId, afterId, before, after))
         == FlattenItem(item, if Moved(item) && !Direct(d) then Replaced else Collapse(d), position, id, beforeId,
                        afterId, before, after)
    decreases d, 1
  {
    var itemId := id + [IndexName(position)];
    var itemBeforeId, itemAfterId := NestedItem(beforeId, item.beforeIndex), NestedItem(afterId, item.afterIndex);
    var b, a := ItemOf(before, item.beforeIndex), ItemOf(after, item.afterIndex);
    FlattenUnder(d, itemId, itemBeforeId, itemAfterId, b, a);
    OutermostIsCollapse(d, itemId, itemBeforeId, itemAfterId, b, a);
    if Moved(item) && !Direct(d) {
      OutermostWithMove(Flatten(d, itemId, itemBeforeId, itemAfterId, b, a),
                        DetailedChange(itemId, Modification(b.value, a.value), itemBeforeId, itemAfterId));
    }
  }

  lemma {:induction false} OutermostItems(items: ItemDeltas, position: nat, id: Path, beforeId: Option<Path>,
                                          afterId: Option<Path>, before: seq<Value>, after: seq<Value>)
    requires DescribesItems(items, before, after)
    ensures OutermostChanges(FlattenItems(items, position, id, beforeId, afterId, before, after))
         == FlattenItems(CollapseItems(items), position, id, beforeId, afterId, before, after)
    decreases items, 0
  {
    if items.ItemAt? {
      var first := FlattenItem(items.item, items.delta, position, id, beforeId, afterId, before, after);
      var rest := FlattenItems(items.others, position + 1, id, beforeId, afterId, before, after);
      FlattenItemUnder(items.item, items.delta, position, id, beforeId, afterId, before, after);
      UnderNested(first, id, IndexName(position));
      FlattenItemsUnder(items.others, position + 1, id, beforeId, afterId, before, after);
      IndexOfName(position);
      NextPartsUnrelated(first, rest, id, IndexName(position));
      OutermostConcat(first, rest);
      OutermostItem(items.item, items.delta, position, id, beforeId, afterId, before, after);
      OutermostItems(items.others, position + 1, id, beforeId, afterId, before, after);
    }
  }

  // ----- without order changes there is nothing to leave out -----

  lemma {:induction false} NothingMoved(d: Delta, id: Path, beforeId: Option<Path>, afterId: Option<Path>,
                                        before: Option<Value>, after: Option<Value>)
    requires Describes(d, before, after) && NoOrderChange(Flatten(d, id, beforeId, afterId, before, after))
    requires (before.Some? ==> beforeId.Some?) && (after.Some? ==> afterId.Some?)
    ensures Collapse(d) == d
    decreases d, 0
  {
    if d.Fields? {
      NothingMovedFields(d.fields, id, beforeId, afterId, FieldsOf(before), FieldsOf(after));
    } else if d.Items? {
      NothingMovedItems(d.items, 0, id, beforeId, afterId, ItemsOf(before), ItemsOf(after));
    }
  }

  lemma {:induction false} NothingMovedFields(fields: FieldDeltas, id: Path, beforeId: Option<Path>,
                                              afterId: Option<Path>, before: map<string, Value>,
                                              after: map<string, Value>)
    requires DescribesFields(fields, before, after) && beforeId.Some? && afterId.Some?
    requires NoOrderChange(FlattenFields(fields, id, beforeId, afterId, before, after))
    ensures CollapseFields(fields) == fields
    decreases fields, 0
  {
    if fields.Field? {
      var key := fields.key;
      NothingMoved(fields.delta, id + [key], Nested(beforeId, key), Nested(afterId, key), FieldAt(before, key),
                   FieldAt(after, key));
      NothingMovedFields(fields.others, id, beforeId, afterId, before, after);
    }
  }

  /** The change added for a moved item is an order change. */
  lemma MoveIsOrderChange(item: IndexMappingItem, position: nat, id: Path, beforeId: Path, afterId: Path, data: Data)
    requires Moved(item) && item.beforeIndex.Some? && item.afterIndex.Some?
    ensures IsOrderChange(DetailedChange(id + [IndexName(position)], data, NestedItem(Some(beforeId), item.beforeIndex),
                                         NestedItem(Some(afterId), item.afterIndex)))
  {
    if IndexName(item.beforeIndex.value) == IndexName(item.afterIndex.value) {
      IndexNameInjective(item.beforeIndex.value, item.afterIndex.value);
    }
  }

  lemma {:induction false} NothingMovedItem(item: IndexMappingItem, d: Delta, position: nat, id: Path,
                                            beforeId: Option<Path>, afterId: Option<Path>, before: seq<Value>,
                                            after: seq<Value>)
    requires InRange(item, |before|, |after|) && beforeId.Some? && afterId.Some?
    requires Describes(d, ItemOf(before, item.beforeIndex), ItemOf(after, item.afterIndex))
    requires NoOrderChange(FlattenItem(item, d, position, id, beforeId, afterId, before, after))
    ensures Collapse(d) == d && (Moved(item) ==> Direct(d))
    decreases d, 1
  {
    var itemId := id + [IndexName(position)];
    var itemBeforeId, itemAfterId := NestedItem(beforeId, item.beforeIndex), NestedItem(afterId, item.afterIndex);
    var b, a := ItemOf(before, item.beforeIndex), ItemOf(after, item.afterIndex);
    var inner := Flatten(d, itemId, itemBeforeId, itemAfterId, b, a);
    var all := FlattenItem(item, d, position, id, beforeId, afterId, before, after);
    FlattenUnder(d, itemId, itemBeforeId, itemAfterId, b, a);
    if Moved(item) && !Direct(d) {
      var move := DetailedChange(itemId, Modification(b.value, a.value), itemBeforeId, itemAfterId);
      assert all == inner + [move] && move in all;
      MoveIsOrderChange(item, position, id, beforeId.value, afterId.value, move.data);
      assert false;
    }
    assert all == inner;
    NothingMoved(d, itemId, itemBeforeId, itemAfterId, b, a);
  }

  lemma {:induction false} NothingMovedItems(items: ItemDeltas, position: nat, id: Path, beforeId: Option<Path>,
                                             afterId: Option<Path>, before: seq<Value>, after: seq<Value>)
    requires DescribesItems(items, before, after) && beforeId.Some? && afterId.Some?
    requires NoOrderChange(FlattenItems(items, position, id, beforeId, afterId, before, after))
    ensures CollapseItems(items) == items
    decreases items, 0
  {
    if items.ItemAt? {
      var first := FlattenItem(items.item, items.delta, position, id, beforeId, afterId, before, after);
      var rest := FlattenItems(items.others, position + 1, id, beforeId, afterId, before, after);
      assert forall c :: c in first || c in rest ==> c in first + rest;
      NothingMovedItem(items.item, items.delta, position, id, beforeId, afterId, before, after);
      NothingMovedItems(items.others, position + 1, id, beforeId, afterId, before, after);
    }
  }

  /** What is applied of a difference: the changes of the difference that leaves moved items
      alone. Only an id sorted apart from its ancestor can get in the way. */
  lemma IndependentIsCollapse(d: Delta, id: Path, beforeId: Path, afterId: Path, before: Option<Value>,
                              after: Option<Value>)
    requires Describes(d, before, after)
    requires var changes := Flatten(d, id, Some(beforeId), Some(afterId), before, after);
             NoOrderChange(changes) || !Separated(SortBy(IdLe, Ids(changes)))
    ensures GetIndependentChanges(Flatten(d, id, Some(beforeId), Some(afterId), before, after))
         == Flatten(Collapse(d), id, Some(beforeId), Some(afterId), before, after)
  {
    var changes := Flatten(d, id, Some(beforeId), Some(afterId), before, after);
    if NoOrderChange(changes) {
      NothingMoved(d, id, Some(beforeId), Some(afterId), before, after);
    } else {
      IndependentAreOutermost(changes);
      OutermostIsCollapse(d, id, Some(beforeId), Some(afterId), before, after);
    }
  }
}
