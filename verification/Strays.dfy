/** Changes inside moved items that the filter of independent changes lets through. */
module Strays {
  import opened Wrappers
  import opened Values
  import opened Changes
  import opened IndexMapping
  import opened ListPatch
  import opened IndependentChanges
  import opened Diff
  import opened Progress
  import opened Patch

  // ----- when a list gets more items than it had -----

  /** The item moves to an index that the list does not have in this value. */
  predicate PastEnd(v: Value, m: DetailedChange) {
    && m.afterId.Some? && IsIndexPathPart(NameOf(m.afterId))
    && var list := Get(v, Parent(m.afterId.value));
       list.Some? && list.value.Array? && IndexOf(NameOf(m.afterId)) >= |list.value.items|
  }

  /** The change puts something into an item that its list does not have yet. */
  predicate PutsPastEnd(v: Value, changes: seq<DetailedChange>, c: DetailedChange) {
    !c.data.Removal? && exists m :: m in changes && Outermost(m, changes) && m.id < c.id && PastEnd(v, m)
  }

  /** Nothing that is set one by one makes an item of a list that the list's own changes then
      do not know of. */
  predicate NoStray(v: Value, changes: seq<DetailedChange>) {
    forall c :: c in OneByOne(v, changes) ==> !PutsPastEnd(v, changes, c)
  }

  // ----- what is reported can be applied -----

  /** Nothing but proper values are set, and what looks like an item change reads as one. */
  ghost predicate Sound(c: DetailedChange) {
    DataAfter(c) != Some(Hole) && (IsPotentialListItem(c) ==> ToListChange(c).Some?)
  }

  ghost predicate AllSound(changes: seq<DetailedChange>) {
    forall c :: c in changes ==> Sound(c)
  }

  /** If the id looks like an item's, so do the other two. */
  ghost predicate NamesAgree(id: Path, beforeId: Option<Path>, afterId: Option<Path>) {
    IsIndexPathPart(Name(id)) ==>
      && (beforeId.Some? ==> IsIndexPathPart(NameOf(beforeId)))
      && (afterId.Some? ==> IsIndexPathPart(NameOf(afterId)))
  }

  lemma {:induction false} FlattenSound(d: Delta, id: Path, beforeId: Option<Path>, afterId: Option<Path>,
                                        before: Option<Value>, after: Option<Value>)
    requires Describes(d, before, after) && (before.Some? ==> beforeId.Some?) && (after.Some? ==> afterId.Some?)
    requires NamesAgree(id, beforeId, afterId) && PlainOption(before) && PlainOption(after)
    ensures AllSound(Flatten(d, id, beforeId, afterId, before, after))
    decreases d, 0
  {
    if d.Fields? {
      FieldsSound(d.fields, id, beforeId, afterId, FieldsOf(before), FieldsOf(after));
    } else if d.Items? {
      ItemsSound(d.items, 0, id, beforeId, afterId, ItemsOf(before), ItemsOf(after));
    }
  }

  lemma {:induction false} FieldsSound(fields: FieldDeltas, id: Path, beforeId: Option<Path>, afterId: Option<Path>,
                                       before: map<string, Value>, after: map<string, Value>)
    requires DescribesFields(fields, before, after) && beforeId.Some? && afterId.Some?
    requires Plain(Obj(before)) && Plain(Obj(after))
    ensures AllSound(FlattenFields(fields, id, beforeId, afterId, before, after))
    decreases fields, 0
  {
    if fields.Field? {
      var key := fields.key;
      FlattenSound(fields.delta, id + [key], Nested(beforeId, key), Nested(afterId, key), FieldAt(before, key),
                   FieldAt(after, key));
      FieldsSound(fields.others, id, beforeId, afterId, before, after);
    }
  }

  lemma {:induction false} ItemsSound(items: ItemDeltas, position: nat, id: Path, beforeId: Option<Path>,
                                      afterId: Option<Path>, before: seq<Value>, after: seq<Value>)
    requires DescribesItems(items, before, after) && beforeId.Some? && afterId.Some?
    requires Plain(List(before)) && Plain(List(after))
    ensures AllSound(FlattenItems(items, position, id, beforeId, afterId, before, after))
    decreases items, 0
  {
    if items.ItemAt? {
      var item, itemId := items.item, id + [IndexName(position)];
      var itemBeforeId, itemAfterId := NestedItem(beforeId, item.beforeIndex), NestedItem(afterId, item.afterIndex);
      FlattenSound(items.delta, itemId, itemBeforeId, itemAfterId, ItemOf(before, item.beforeIndex),
                   ItemOf(after, item.afterIndex));
      ItemsSound(items.others, position + 1, id, beforeId, afterId, before, after);
    }
  }

  // ----- the ids of changes inside a moved item -----

  /** The change's place has as many parts below the place of the part as its id has below the
      part's id. */
  ghost predicate Extends(c: DetailedChange, id: Path, beforeId: Option<Path>, afterId: Option<Path>) {
    var base, own :=
      if c.data.Removal? then beforeId else afterId, if c.data.Removal? then c.beforeId else c.afterId;
    && base.Some? && own.Some? && base.value <= own.value
    && id <= c.id && |own.value| - |base.value| == |c.id| - |id|
  }

  ghost predicate AllExtend(changes: seq<DetailedChange>, id: Path, beforeId: Option<Path>, afterId: Option<Path>) {
    forall c :: c in changes ==> Extends(c, id, beforeId, afterId)
  }

  ghost predicate OnePartMore(id: Option<Path>, nested: Option<Path>) {
    nested.Some? ==> id.Some? && id.value < nested.value && |nested.value| == |id.value| + 1
  }

  lemma ExtendsOuter(changes: seq<DetailedChange>, id: Path, part: string, beforeId: Option<Path>,
                     afterId: Option<Path>, nestedBefore: Option<Path>, nestedAfter: Option<Path>)
    requires AllExtend(changes, id + [part], nestedBefore, nestedAfter)
    requires OnePartMore(beforeId, nestedBefore) && OnePartMore(afterId, nestedAfter)
    ensures AllExtend(changes, id, beforeId, afterId)
  {
    forall c | c in changes
      ensures Extends(c, id, beforeId, afterId)
    {
      assert Extends(c, id + [part], nestedBefore, nestedAfter);
    }
  }

  lemma {:induction false} FlattenExtends(d: Delta, id: Path, beforeId: Option<Path>, afterId: Option<Path>,
                                          before: Option<Value>, after: Option<Value>)
    requires Describes(d, before, after) && (before.Some? ==> beforeId.Some?) && (after.Some? ==> afterId.Some?)
    ensures AllExtend(Flatten(d, id, beforeId, afterId, before, after), id, beforeId, afterId)
    decreases d, 0
  {
    if d.Fields? {
      FieldsExtend(d.fields, id, beforeId, afterId, FieldsOf(before), FieldsOf(after));
    } else if d.Items? {
      ItemsExtend(d.items, 0, id, beforeId, afterId, ItemsOf(before), ItemsOf(after));
    }
  }

  lemma {:induction false} FieldsExtend(fields: FieldDeltas, id: Path, beforeId: Option<Path>, afterId: Option<Path>,
                                        before: map<string, Value>, after: map<string, Value>)
    requires DescribesFields(fields, before, after) && beforeId.Some? && afterId.Some?
    ensures AllExtend(FlattenFields(fields, id, beforeId, afterId, before, after), id, beforeId, afterId)
    decreases fields, 0
  {
    if fields.Field? {
      var key, b, a := fields.key, FieldAt(before, fields.key), FieldAt(after, fields.key);
      var first := Flatten(fields.delta, id + [key], Nested(beforeId, key), Nested(afterId, key), b, a);
      FlattenExtends(fields.delta, id + [key], Nested(beforeId, key), Nested(afterId, key), b, a);
      ExtendsOuter(first, id, key, beforeId, afterId, Nested(beforeId, key), Nested(afterId, key));
      FieldsExtend(fields.others, id, beforeId, afterId, before, after);
    }
  }

  lemma {:induction false} ItemExtends(item: IndexMappingItem, d: Delta, position: nat, id: Path,
                                       beforeId: Option<Path>, afterId: Option<Path>, before: seq<Value>,
                                       after: seq<Value>)
    requires InRange(item, |before|, |after|) && beforeId.Some? && afterId.Some?
    requires Describes(d, ItemOf(before, item.beforeIndex), ItemOf(after, item.afterIndex))
    ensures AllExtend(FlattenItem(item, d, position, id, beforeId, afterId, before, after), id, beforeId, afterId)
    decreases d, 1
  {
    var itemId := id + [IndexName(position)];
    var itemBeforeId, itemAfterId := NestedItem(beforeId, item.beforeIndex), NestedItem(afterId, item.afterIndex);
    FlattenExtends(d, itemId, itemBeforeId, itemAfterId, ItemOf(before, item.beforeIndex),
                   ItemOf(after, item.afterIndex));
    ExtendsOuter(FlattenItem(item, d, position, id, beforeId, afterId, before, after), id, IndexName(position),
                 beforeId, afterId, itemBeforeId, itemAfterId);
  }

  lemma {:induction false} ItemsExtend(items: ItemDeltas, position: nat, id: Path, beforeId: Option<Path>,
                                       afterId: Option<Path>, before: seq<Value>, after: seq<Value>)
    requires DescribesItems(items, before, after) && beforeId.Some? && afterId.Some?
    ensures AllExtend(FlattenItems(items, position, id, beforeId, afterId, before, after), id, beforeId, afterId)
    decreases items, 0
  {
    if items.ItemAt? {
      ItemExtends(items.item, items.delta, position, id, beforeId, afterId, before, after);
      ItemsExtend(items.others, position + 1, id, beforeId, afterId, before, after);
    }
  }

  /** `m` is the change of a moved item, and `c` a change inside it: it is set in the item as it
      is before if it is a removal, and else in the item as it is after. */
  ghost predicate InsideMoved(c: DetailedChange, m: DetailedChange) {
    && m.beforeId.Some? && m.afterId.Some? && NameOf(m.beforeId) != NameOf(m.afterId)
    && var from := if c.data.Removal? then m.beforeId.value else m.afterId.value;
       from < GetChangeRealId(c) && |GetChangeRealId(c)| - |from| == |c.id| - |m.id|
  }

  /** What is reported below the change of a part that is not looked into is inside a moved item. */
  lemma {:induction false} BelowIsInsideMoved(d: Delta, id: Path, beforeId: Option<Path>, afterId: Option<Path>,
                                              before: Option<Value>, after: Option<Value>, m: DetailedChange,
                                              c: DetailedChange)
    requires Describes(d, before, after) && (before.Some? ==> beforeId.Some?) && (after.Some? ==> afterId.Some?)
    requires m in Flatten(Collapse(d), id, beforeId, afterId, before, after)
    requires c in Flatten(d, id, beforeId, afterId, before, after) && m.id < c.id
    ensures InsideMoved(c, m)
    decreases d, 0
  {
    if d.Fields? {
      FieldBelow(d.fields, id, beforeId, afterId, FieldsOf(before), FieldsOf(after), m, c);
    } else if d.Items? {
      ItemsBelow(d.items, 0, id, beforeId, afterId, ItemsOf(before), ItemsOf(after), m, c);
    }
  }

  lemma {:induction false} FieldBelow(fields: FieldDeltas, id: Path, beforeId: Option<Path>, afterId: Option<Path>,
                                      before: map<string, Value>, after: map<string, Value>, m: DetailedChange,
                                      c: DetailedChange)
    requires DescribesFields(fields, before, after) && beforeId.Some? && afterId.Some?
    requires m in FlattenFields(CollapseFields(fields), id, beforeId, afterId, before, after)
    requires c in FlattenFields(fields, id, beforeId, afterId, before, after) && m.id < c.id
    ensures InsideMoved(c, m)
    decreases fields, 0
  {
    var key, b, a := fields.key, FieldAt(before, fields.key), FieldAt(after, fields.key);
    var bid, aid := Nested(beforeId, key), Nested(afterId, key);
    var first, first' :=
      Flatten(fields.delta, id + [key], bid, aid, b, a), Flatten(Collapse(fields.delta), id + [key], bid, aid, b, a);
    FlattenUnder(fields.delta, id + [key], bid, aid, b, a);
    FlattenUnder(Collapse(fields.delta), id + [key], bid, aid, b, a);
    UnderNested(first, id, key);
    UnderNested(first', id, key);
    CollapsedFieldsShape(fields.others);
    FlattenFieldsUnder(fields.others, id, beforeId, afterId, before, after);
    FlattenFieldsUnder(CollapseFields(fields.others), id, beforeId, afterId, before, after);
    if m in first' && c in first {
      BelowIsInsideMoved(fields.delta, id + [key], bid, aid, b, a, m, c);
    } else {
      FieldBelow(fields.others, id, beforeId, afterId, before, after, m, c);
    }
  }

  lemma {:induction false} ItemBelow(item: IndexMappingItem, d: Delta, position: nat, id: Path, beforeId: Option<Path>,
                                     afterId: Option<Path>, before: seq<Value>, after: seq<Value>, m: DetailedChange,
                                     c: DetailedChange)
    requires InRange(item, |before|, |after|) && beforeId.Some? && afterId.Some?
    requires Describes(d, ItemOf(before, item.beforeIndex), ItemOf(after, item.afterIndex))
    requires m in FlattenItem(item, if Moved(item) && !Direct(d) then Replaced else Collapse(d), position, id, beforeId,
                              afterId, before, after)
    requires c in FlattenItem(item, d, position, id, beforeId, afterId, before, after) && m.id < c.id
    ensures InsideMoved(c, m)
    decreases d, 1
  {
    var itemId := id + [IndexName(position)];
    var itemBeforeId, itemAfterId := NestedItem(beforeId, item.beforeIndex), NestedItem(afterId, item.afterIndex);
    var b, a := ItemOf(before, item.beforeIndex), ItemOf(after, item.afterIndex);
    if Moved(item) && !Direct(d) {
      assert b.Some? && a.Some?;
      assert m == DetailedChange(itemId, Modification(b.value, a.value), itemBeforeId, itemAfterId);
      assert c in Flatten(d, itemId, itemBeforeId, itemAfterId, b, a);
      FlattenExtends(d, itemId, itemBeforeId, itemAfterId, b, a);
      assert Extends(c, itemId, itemBeforeId, itemAfterId);
      if IndexName(item.beforeIndex.value) == IndexName(item.afterIndex.value) {
        IndexNameInjective(item.beforeIndex.value, item.afterIndex.value);
      }
    } else {
      CollapsedShape(d);
      FlattenUnder(Collapse(d), itemId, itemBeforeId, itemAfterId, b, a);
      assert itemId <= m.id;
      BelowIsInsideMoved(d, itemId, itemBeforeId, itemAfterId, b, a, m, c);
    }
  }

  lemma {:induction false} ItemsBelow(items: ItemDeltas, position: nat, id: Path, beforeId: Option<Path>,
                                      afterId: Option<Path>, before: seq<Value>, after: seq<Value>, m: DetailedChange,
                                      c: DetailedChange)
    requires DescribesItems(items, before, after) && beforeId.Some? && afterId.Some?
    requires m in FlattenItems(CollapseItems(items), position, id, beforeId, afterId, before, after)
    requires c in FlattenItems(items, position, id, beforeId, afterId, before, after) && m.id < c.id
    ensures InsideMoved(c, m)
    decreases items, 0
  {
    var item, d, part := items.item, items.delta, IndexName(position);
    var d' := if Moved(item) && !Direct(d) then Replaced else Collapse(d);
    var first := FlattenItem(item, d, position, id, beforeId, afterId, before, after);
    var first' := FlattenItem(item, d', position, id, beforeId, afterId, before, after);
    FlattenItemUnder(item, d, position, id, beforeId, afterId, before, after);
    FlattenItemUnder(item, d', position, id, beforeId, afterId, before, after);
    UnderNested(first, id, part);
    UnderNested(first', id, part);
    FlattenItemsUnder(items.others, position + 1, id, beforeId, afterId, before, after);
    FlattenItemsUnder(CollapseItems(items.others), position + 1, id, beforeId, afterId, before, after);
    IndexOfName(position);
    if m in first' && c in first {
      ItemBelow(item, d, position, id, beforeId, afterId, before, after, m, c);
    } else {
      ItemsBelow(items.others, position + 1, id, beforeId, afterId, before, after, m, c);
    }
  }
}
