/** `getValuesChanges`: the changes that lead from one value to another. */
module Diff {
  import opened Wrappers
  import opened Values
  import opened Changes
  import opened IndexMapping

  // ----- the shape of a difference -----

  /** How a value before became a value after, part by part. */
  datatype Delta =
    | Same | Added | Removed | Replaced
    | Fields(fields: FieldDeltas)
    | Items(items: ItemDeltas)
  datatype FieldDeltas = NoFields | Field(key: string, delta: Delta, others: FieldDeltas)
  datatype ItemDeltas = NoItems | ItemAt(item: IndexMappingItem, delta: Delta, others: ItemDeltas)

  /** A change of the value as a whole. */
  predicate Direct(d: Delta) {
    d.Added? || d.Removed? || d.Replaced?
  }

  function FieldsOf(v: Option<Value>): map<string, Value> {
    if v.Some? && v.value.Obj? then v.value.fields else map[]
  }

  function ItemsOf(v: Option<Value>): seq<Value> {
    if v.Some? && v.value.Array? then v.value.items else []
  }

  function FieldAt(fields: map<string, Value>, key: string): Option<Value> {
    if key in fields then Some(fields[key]) else None
  }

  function ItemOf(items: seq<Value>, index: Option<nat>): Option<Value> {
    if index.Some? && index.value < |items| then Some(items[index.value]) else None
  }

  function KeysOf(fields: FieldDeltas): set<string> {
    match fields
    case NoFields => {}
    case Field(key, _, others) => {key} + KeysOf(others)
  }

  function MappingOf(items: ItemDeltas): seq<IndexMappingItem> {
    match items
    case NoItems => []
    case ItemAt(item, _, others) => [item] + MappingOf(others)
  }

  /** The delta fits the two values: every key of either object once, every index of either
      list once, and the parts fit the parts. */
  ghost predicate Describes(d: Delta, before: Option<Value>, after: Option<Value>) {
    match d
    case Same => before == after
    case Added => before.None? && after.Some?
    case Removed => before.Some? && after.None?
    case Replaced => before.Some? && after.Some?
    case Fields(fields) =>
      && before.Some? && before.value.Obj? && after.Some? && after.value.Obj?
      && KeysOf(fields) == FieldsOf(before).Keys + FieldsOf(after).Keys
      && DescribesFields(fields, FieldsOf(before), FieldsOf(after))
    case Items(items) =>
      && before.Some? && before.value.Array? && after.Some? && after.value.Array?
      && Exact(MappingOf(items), |ItemsOf(before)|, |ItemsOf(after)|)
      && DescribesItems(items, ItemsOf(before), ItemsOf(after))
  }

  ghost predicate DescribesFields(fields: FieldDeltas, before: map<string, Value>, after: map<string, Value>) {
    match fields
    case NoFields => true
    case Field(key, d, others) =>
      && (key in before || key in after) && key !in KeysOf(others)
      && Describes(d, FieldAt(before, key), FieldAt(after, key))
      && DescribesFields(others, before, after)
  }

  ghost predicate DescribesItems(items: ItemDeltas, before: seq<Value>, after: seq<Value>) {
    match items
    case NoItems => true
    case ItemAt(item, d, others) =>
      && InRange(item, |before|, |after|)
      && Describes(d, ItemOf(before, item.beforeIndex), ItemOf(after, item.afterIndex))
      && DescribesItems(others, before, after)
  }

  // ----- how far a difference goes into its values -----

  /** How lists are compared: item by item, with the keys they are matched by, or index by index. */
  datatype Comparison = Comparison(compareListItems: bool, exactKey: Value -> string, topLevelKey: Value -> string)

  /** The mapping that lists are compared along, if they are not replaced as a whole. */
  ghost predicate ComparedAlong(mapping: seq<IndexMappingItem>, before: seq<Value>, after: seq<Value>,
                                options: Comparison) {
    if options.compareListItems
    then IsIndexMapping(mapping, Keys(before, options.exactKey), Keys(after, options.exactKey),
                        Keys(before, options.topLevelKey), Keys(after, options.topLevelKey))
    else |before| == |after| && mapping == SameIndexes(|before|)
  }

  /** A value is replaced as a whole only if it has to be: equal values are the same, objects
      are compared field by field, and lists item by item if items are compared or there are
      as many before as after. */
  ghost predicate Detailed(d: Delta, before: Option<Value>, after: Option<Value>, options: Comparison) {
    && (before == after <==> d.Same?)
    && match d
       case Replaced =>
         before.Some? && after.Some? ==>
           && !(before.value.Obj? && after.value.Obj?)
           && (before.value.Array? && after.value.Array? ==>
                 !options.compareListItems && |ItemsOf(before)| != |ItemsOf(after)|)
       case Fields(fields) => DetailedFields(fields, FieldsOf(before), FieldsOf(after), options)
       case Items(items) =>
         && ComparedAlong(MappingOf(items), ItemsOf(before), ItemsOf(after), options)
         && DetailedItems(items, ItemsOf(before), ItemsOf(after), options)
       case _ => true
  }

  ghost predicate DetailedFields(fields: FieldDeltas, before: map<string, Value>, after: map<string, Value>,
                                 options: Comparison) {
    fields.NoFields? ||
    (Detailed(fields.delta, FieldAt(before, fields.key), FieldAt(after, fields.key), options)
     && DetailedFields(fields.others, before, after, options))
  }

  ghost predicate DetailedItems(items: ItemDeltas, before: seq<Value>, after: seq<Value>, options: Comparison) {
    items.NoItems? ||
    (Detailed(items.delta, ItemOf(before, items.item.beforeIndex), ItemOf(after, items.item.afterIndex), options)
     && DetailedItems(items.others, before, after, options))
  }

  function SameIndexes(n: nat): (mapping: seq<IndexMappingItem>)
    ensures |mapping| == n
  {
    seq(n, i requires 0 <= i < n => IndexMappingItem(Some(i), Some(i)))
  }

  // ----- the changes a difference is reported as -----

  function Nested(id: Option<Path>, part: string): Option<Path> {
    if id.Some? then Some(id.value + [part]) else None
  }

  function NestedItem(id: Option<Path>, index: Option<nat>): Option<Path> {
    if index.Some? then Nested(id, IndexName(index.value)) else None
  }

  predicate DirectlyOn(changes: seq<DetailedChange>, id: Path) {
    |changes| == 1 && changes[0].id == id
  }

  /** An item that moved needs a change of its own. */
  function WithMove(changes: seq<DetailedChange>, item: IndexMappingItem, id: Path, beforeId: Option<Path>,
                    afterId: Option<Path>, before: Option<Value>, after: Option<Value>): seq<DetailedChange> {
    if item.beforeIndex != item.afterIndex && !DirectlyOn(changes, id) && before.Some? && after.Some?
    then changes + [DetailedChange(id, Modification(before.value, after.value), beforeId, afterId)]
    else changes
  }

  function Flatten(d: Delta, id: Path, beforeId: Option<Path>, afterId: Option<Path>, before: Option<Value>,
                   after: Option<Value>): seq<DetailedChange>
    decreases d, 0
  {
    match d
    case Same => []
    case Added => if after.Some? then [DetailedChange(id, Addition(after.value), beforeId, afterId)] else []
    case Removed => if before.Some? then [DetailedChange(id, Removal(before.value), beforeId, afterId)] else []
    case Replaced =>
      if before.Some? && after.Some?
      then [DetailedChange(id, Modification(before.value, after.value), beforeId, afterId)]
      else []
    case Fields(fields) => FlattenFields(fields, id, beforeId, afterId, FieldsOf(before), FieldsOf(after))
    case Items(items) => FlattenItems(items, 0, id, beforeId, afterId, ItemsOf(before), ItemsOf(after))
  }

  function FlattenFields(fields: FieldDeltas, id: Path, beforeId: Option<Path>, afterId: Option<Path>,
                         before: map<string, Value>, after: map<string, Value>): seq<DetailedChange>
    decreases fields, 0
  {
    match fields
    case NoFields => []
    case Field(key, d, others) =>
      Flatten(d, id + [key], Nested(beforeId, key), Nested(afterId, key), FieldAt(before, key), FieldAt(after, key))
        + FlattenFields(others, id, beforeId, afterId, before, after)
  }

  /** The item's own id has its position in the mapping; the other two have its indexes. */
  function FlattenItem(item: IndexMappingItem, d: Delta, position: nat, id: Path, beforeId: Option<Path>,
                       afterId: Option<Path>, before: seq<Value>, after: seq<Value>): seq<DetailedChange>
    decreases d, 1
  {
    var itemId, itemBeforeId, itemAfterId :=
      id + [IndexName(position)], NestedItem(beforeId, item.beforeIndex), NestedItem(afterId, item.afterIndex);
    var b, a := ItemOf(before, item.beforeIndex), ItemOf(after, item.afterIndex);
    WithMove(Flatten(d, itemId, itemBeforeId, itemAfterId, b, a), item, itemId, itemBeforeId, itemAfterId, b, a)
  }

  function FlattenItems(items: ItemDeltas, position: nat, id: Path, beforeId: Option<Path>, afterId: Option<Path>,
                        before: seq<Value>, after: seq<Value>): seq<DetailedChange>
    decreases items, 0
  {
    match items
    case NoItems => []
    case ItemAt(item, d, others) =>
      FlattenItem(item, d, position, id, beforeId, afterId, before, after)
        + FlattenItems(others, position + 1, id, beforeId, afterId, before, after)
  }

  /** The changes are those of some delta that fits the two values. */
  ghost predicate IsDiff(changes: seq<DetailedChange>, id: Path, beforeId: Option<Path>, afterId: Option<Path>,
                         before: Option<Value>, after: Option<Value>) {
    exists d :: Describes(d, before, after) && changes == Flatten(d, id, beforeId, afterId, before, after)
  }

  // ----- computing the changes -----

  lemma FieldDescribed(key: string, d: Delta, others: FieldDeltas, keys: set<string>, before: map<string, Value>,
                       after: map<string, Value>)
    requires key in keys && keys <= before.Keys + after.Keys && KeysOf(others) == keys - {key}
    requires Describes(d, FieldAt(before, key), FieldAt(after, key)) && DescribesFields(others, before, after)
    ensures KeysOf(Field(key, d, others)) == keys && DescribesFields(Field(key, d, others), before, after)
  {}

  /** The keys of an object are visited in any order. */
  method GetFieldsChanges(keys: set<string>, id: Path, before: map<string, Value>, after: map<string, Value>,
                          beforeId: Option<Path>, afterId: Option<Path>, options: Comparison)
    returns (changes: seq<DetailedChange>, ghost fields: FieldDeltas)
    requires keys <= before.Keys + after.Keys
    ensures KeysOf(fields) == keys && DescribesFields(fields, before, after)
    ensures DetailedFields(fields, before, after, options)
    ensures changes == FlattenFields(fields, id, beforeId, afterId, before, after)
    decreases 1, Obj(before), 1, |keys|
  {
    if keys == {} {
      return [], NoFields;
    }
    var key :| key in keys;
    var first, d := GetValuesChanges(id + [key], FieldAt(before, key), FieldAt(after, key), Nested(beforeId, key),
                                     Nested(afterId, key), options);
    var others, ds := GetFieldsChanges(keys - {key}, id, before, after, beforeId, afterId, options);
    changes, fields := first + others, Field(key, d, ds);
    FieldDescribed(key, d, ds, keys, before, after);
  }

  method GetItemsChanges(mapping: seq<IndexMappingItem>, position: nat, id: Path, before: seq<Value>, after: seq<Value>,
                         beforeId: Option<Path>, afterId: Option<Path>, options: Comparison, ghost whole: Value)
    returns (changes: seq<DetailedChange>, ghost items: ItemDeltas)
    requires whole.Array? && whole.items == before
    requires forall c :: 0 <= c < |mapping| ==> InRange(mapping[c], |before|, |after|)
    ensures MappingOf(items) == mapping && DescribesItems(items, before, after)
    ensures DetailedItems(items, before, after, options)
    ensures changes == FlattenItems(items, position, id, beforeId, afterId, before, after)
    decreases 1, whole, 1, |mapping|
  {
    if mapping == [] {
      return [], NoItems;
    }
    var item := mapping[0];
    var itemId, itemBeforeId, itemAfterId :=
      id + [IndexName(position)], NestedItem(beforeId, item.beforeIndex), NestedItem(afterId, item.afterIndex);
    var b, a := ItemOf(before, item.beforeIndex), ItemOf(after, item.afterIndex);
    var innerChanges, d := GetValuesChanges(itemId, b, a, itemBeforeId, itemAfterId, options);
    ghost var inner := innerChanges;
    if b.Some? && a.Some? && item.beforeIndex != item.afterIndex && !DirectlyOn(innerChanges, itemId) {
      var move := DetailedChange(itemId, Modification(b.value, a.value), itemBeforeId, itemAfterId);
      innerChanges := innerChanges + [move];
    }
    var others, ds := GetItemsChanges(mapping[1..], position + 1, id, before, after, beforeId, afterId, options,
                                      whole);
    changes, items := innerChanges + others, ItemAt(item, d, ds);
  }

  lemma SameIndexesExact(n: nat)
    ensures Exact(SameIndexes(n), n, n)
  {
    var mapping := SameIndexes(n);
    forall i | 0 <= i < n
      ensures CoversBefore(mapping, i) && CoversAfter(mapping, i)
    {
      assert mapping[i] == IndexMappingItem(Some(i), Some(i));
    }
  }

  /** Comparing item by item, or index by index. */
  method MapIndexes(before: seq<Value>, after: seq<Value>, options: Comparison) returns (mapping: seq<IndexMappingItem>)
    requires options.compareListItems || |before| == |after|
    ensures Exact(mapping, |before|, |after|) && ComparedAlong(mapping, before, after, options)
  {
    if options.compareListItems {
      mapping := GetArrayIndexMapping(before, after, options.exactKey, options.topLevelKey);
      return;
    }
    SameIndexesExact(|before|);
    return SameIndexes(|before|);
  }

  method GetValuesChanges(id: Path, before: Option<Value>, after: Option<Value>, beforeId: Option<Path>,
                          afterId: Option<Path>, options: Comparison)
    returns (changes: seq<DetailedChange>, ghost d: Delta)
    ensures Describes(d, before, after) && changes == Flatten(d, id, beforeId, afterId, before, after)
    ensures Detailed(d, before, after, options)
    ensures IsDiff(changes, id, beforeId, afterId, before, after)
    decreases if before.Some? && after.Some? then 1 else 0, if before.Some? then before.value else Prim(""), 2, 0
  {
    if before == after {
      return [], Same;
    }
    if before.None? {
      return [DetailedChange(id, Addition(after.value), beforeId, afterId)], Added;
    }
    if after.None? {
      return [DetailedChange(id, Removal(before.value), beforeId, afterId)], Removed;
    }
    if before.value.Obj? && after.value.Obj? {
      var b, a := before.value.fields, after.value.fields;
      ghost var fields;
      changes, fields := GetFieldsChanges(b.Keys + a.Keys, id, b, a, beforeId, afterId, options);
      return changes, Fields(fields);
    }
    if before.value.Array? && after.value.Array? {
      var b, a := before.value.items, after.value.items;
      if options.compareListItems || |b| == |a| {
        var mapping := MapIndexes(b, a, options);
        ghost var items;
        changes, items := GetItemsChanges(mapping, 0, id, b, a, beforeId, afterId, options, before.value);
        return changes, Items(items);
      }
    }
    return [DetailedChange(id, Modification(before.value, after.value), beforeId, afterId)], Replaced;
  }

  // ----- reversing -----

  function ReverseItem(item: IndexMappingItem): IndexMappingItem {
    IndexMappingItem(item.afterIndex, item.beforeIndex)
  }

  function Reverse(d: Delta): Delta {
    match d
    case Same => Same
    case Added => Removed
    case Removed => Added
    case Replaced => Replaced
    case Fields(fields) => Fields(ReverseFields(fields))
    case Items(items) => Items(ReverseItems(items))
  }

  function ReverseFields(fields: FieldDeltas): FieldDeltas {
    match fields
    case NoFields => NoFields
    case Field(key, d, others) => Field(key, Reverse(d), ReverseFields(others))
  }

  function ReverseItems(items: ItemDeltas): ItemDeltas {
    match items
    case NoItems => NoItems
    case ItemAt(item, d, others) => ItemAt(ReverseItem(item), Reverse(d), ReverseItems(others))
  }

  lemma {:induction false} ReverseKeys(fields: FieldDeltas)
    ensures KeysOf(ReverseFields(fields)) == KeysOf(fields)
  {
    if fields.Field? {
      ReverseKeys(fields.others);
    }
  }

  lemma {:induction false} ReverseMapping(items: ItemDeltas)
    ensures |MappingOf(ReverseItems(items))| == |MappingOf(items)|
    ensures forall c :: 0 <= c < |MappingOf(items)| ==>
      MappingOf(ReverseItems(items))[c] == ReverseItem(MappingOf(items)[c])
  {
    if items.ItemAt? {
      ReverseMapping(items.others);
    }
  }

  /** The contract of a mapping does not depend on which side is which. */
  lemma ReverseExact(items: ItemDeltas, nb: nat, na: nat)
    requires Exact(MappingOf(items), nb, na)
    ensures Exact(MappingOf(ReverseItems(items)), na, nb)
  {
    var mapping, reversed := MappingOf(items), MappingOf(ReverseItems(items));
    ReverseMapping(items);
    forall i | 0 <= i < nb
      ensures CoversAfter(reversed, i)
    {
      assert CoversBefore(mapping, i);
    }
    forall i | 0 <= i < na
      ensures CoversBefore(reversed, i)
    {
      assert CoversAfter(mapping, i);
    }
  }

  lemma {:induction false} ReverseDescribes(d: Delta, before: Option<Value>, after: Option<Value>)
    requires Describes(d, before, after)
    ensures Describes(Reverse(d), after, before)
  {
    if d.Fields? {
      ReverseKeys(d.fields);
      ReverseDescribesFields(d.fields, FieldsOf(before), FieldsOf(after));
    } else if d.Items? {
      ReverseExact(d.items, |ItemsOf(before)|, |ItemsOf(after)|);
      ReverseDescribesItems(d.items, ItemsOf(before), ItemsOf(after));
    }
  }

  lemma {:induction false} ReverseDescribesFields(fields: FieldDeltas, before: map<string, Value>,
                                                  after: map<string, Value>)
    requires DescribesFields(fields, before, after)
    ensures DescribesFields(ReverseFields(fields), after, before)
  {
    if fields.Field? {
      ReverseKeys(fields.others);
      ReverseDescribes(fields.delta, FieldAt(before, fields.key), FieldAt(after, fields.key));
      ReverseDescribesFields(fields.others, before, after);
    }
  }

  lemma {:induction false} ReverseDescribesItems(items: ItemDeltas, before: seq<Value>, after: seq<Value>)
    requires DescribesItems(items, before, after)
    ensures DescribesItems(ReverseItems(items), after, before)
  {
    if items.ItemAt? {
      ReverseDescribes(items.delta, ItemOf(before, items.item.beforeIndex), ItemOf(after, items.item.afterIndex));
      ReverseDescribesItems(items.others, before, after);
    }
  }

  lemma ReverseAllConcat(s: seq<DetailedChange>, t: seq<DetailedChange>)
    ensures ReverseAll(s + t) == ReverseAll(s) + ReverseAll(t)
  {}

  lemma ReverseWithMove(changes: seq<DetailedChange>, item: IndexMappingItem, id: Path, beforeId: Option<Path>,
                        afterId: Option<Path>, before: Option<Value>, after: Option<Value>)
    ensures WithMove(ReverseAll(changes), ReverseItem(item), id, afterId, beforeId, after, before)
         == ReverseAll(WithMove(changes, item, id, beforeId, afterId, before, after))
  {
    if before.Some? && after.Some? {
      var move := DetailedChange(id, Modification(before.value, after.value), beforeId, afterId);
      ReverseAllConcat(changes, [move]);
      assert ReverseAll([move]) == [ReverseChange(move)];
    }
  }

  /** Reversing every change gives the changes of the reversed difference. */
  lemma {:induction false} FlattenReverse(d: Delta, id: Path, beforeId: Option<Path>, afterId: Option<Path>,
                                          before: Option<Value>, after: Option<Value>)
    ensures Flatten(Reverse(d), id, afterId, beforeId, after, before)
         == ReverseAll(Flatten(d, id, beforeId, afterId, before, after))
  {
    if d.Fields? {
      FlattenReverseFields(d.fields, id, beforeId, afterId, FieldsOf(before), FieldsOf(after));
    } else if d.Items? {
      FlattenReverseItems(d.items, 0, id, beforeId, afterId, ItemsOf(before), ItemsOf(after));
    }
  }

  lemma {:induction false} FlattenReverseFields(fields: FieldDeltas, id: Path, beforeId: Option<Path>,
                                                afterId: Option<Path>, before: map<string, Value>,
                                                after: map<string, Value>)
    ensures FlattenFields(ReverseFields(fields), id, afterId, beforeId, after, before)
         == ReverseAll(FlattenFields(fields, id, beforeId, afterId, before, after))
  {
    if fields.Field? {
      var key, b, a := fields.key, FieldAt(before, fields.key), FieldAt(after, fields.key);
      FlattenReverse(fields.delta, id + [key], Nested(beforeId, key), Nested(afterId, key), b, a);
      FlattenReverseFields(fields.others, id, beforeId, afterId, before, after);
      ReverseAllConcat(Flatten(fields.delta, id + [key], Nested(beforeId, key), Nested(afterId, key), b, a),
                       FlattenFields(fields.others, id, beforeId, afterId, before, after));
    }
  }

  lemma {:induction false} FlattenReverseItems(items: ItemDeltas, position: nat, id: Path, beforeId: Option<Path>,
                                               afterId: Option<Path>, before: seq<Value>, after: seq<Value>)
    ensures FlattenItems(ReverseItems(items), position, id, afterId, beforeId, after, before)
         == ReverseAll(FlattenItems(items, position, id, beforeId, afterId, before, after))
  {
    if items.ItemAt? {
      var item, itemId := items.item, id + [IndexName(position)];
      var itemBeforeId, itemAfterId := NestedItem(beforeId, item.beforeIndex), NestedItem(afterId, item.afterIndex);
      var b, a := ItemOf(before, item.beforeIndex), ItemOf(after, item.afterIndex);
      FlattenReverse(items.delta, itemId, itemBeforeId, itemAfterId, b, a);
      ReverseWithMove(Flatten(items.delta, itemId, itemBeforeId, itemAfterId, b, a), item, itemId, itemBeforeId,
                      itemAfterId, b, a);
      FlattenReverseItems(items.others, position + 1, id, beforeId, afterId, before, after);
      ReverseAllConcat(FlattenItem(item, items.delta, position, id, beforeId, afterId, before, after),
                       FlattenItems(items.others, position + 1, id, beforeId, afterId, before, after));
    }
  }

  /** The reversed changes are themselves a difference, the other way round. */
  lemma ReversedDiff(changes: seq<DetailedChange>, id: Path, beforeId: Option<Path>, afterId: Option<Path>,
                     before: Option<Value>, after: Option<Value>)
    requires IsDiff(changes, id, beforeId, afterId, before, after)
    ensures IsDiff(ReverseAll(changes), id, afterId, beforeId, after, before)
  {
    var d :| Describes(d, before, after) && changes == Flatten(d, id, beforeId, afterId, before, after);
    ReverseDescribes(d, before, after);
    FlattenReverse(d, id, beforeId, afterId, before, after);
  }
}
