/** Where in a value the changes of a difference are: from ids to places. */
module Spots {
  import opened Wrappers
  import opened Sorting
  import opened Values
  import opened Changes
  import opened IndexMapping
  import opened IndependentChanges
  import opened Diff

  /** A part of a difference: its delta, where it is in the value, and the part before and after. */
  datatype Spot = Spot(delta: Delta, place: Path, before: Option<Value>, after: Option<Value>)

  function Under(part: string, spot: Option<Spot>): Option<Spot> {
    if spot.Some? then Some(spot.value.(place := [part] + spot.value.place)) else None
  }

  /** The part whose changes have ids that continue with `x`. Item positions in the ids become
      item indexes in the place. */
  function Find(d: Delta, before: Option<Value>, after: Option<Value>, x: Path): Option<Spot>
    decreases d
  {
    if x == [] then Some(Spot(d, [], before, after))
    else
      match d
      case Fields(fields) => FindField(fields, FieldsOf(before), FieldsOf(after), x)
      case Items(items) => FindItem(items, 0, ItemsOf(before), ItemsOf(after), x)
      case _ => None
  }

  function FindField(fields: FieldDeltas, before: map<string, Value>, after: map<string, Value>, x: Path): Option<Spot>
    requires x != []
    decreases fields
  {
    match fields
    case NoFields => None
    case Field(key, d, others) =>
      if key == x[0] then Under(key, Find(d, FieldAt(before, key), FieldAt(after, key), x[1..]))
      else FindField(others, before, after, x)
  }

  function FindItem(items: ItemDeltas, position: nat, before: seq<Value>, after: seq<Value>, x: Path): Option<Spot>
    requires x != []
    decreases items
  {
    match items
    case NoItems => None
    case ItemAt(item, d, others) =>
      if IndexName(position) != x[0] then FindItem(others, position + 1, before, after, x)
      else if Direct(d) || item.beforeIndex.None? then None
      else
        Under(IndexName(item.beforeIndex.value),
              Find(d, ItemOf(before, item.beforeIndex), ItemOf(after, item.afterIndex), x[1..]))
  }

  /** The changes of a difference between two values at one and the same place. */
  function ChangesAt(d: Delta, id: Path, place: Path, before: Option<Value>, after: Option<Value>):
    seq<DetailedChange>
  {
    Flatten(d, id, Some(place), Some(place), before, after)
  }

  // ----- the changes at a spot -----

  ghost predicate SameBelow(s: seq<DetailedChange>, t: seq<DetailedChange>, id: Path) {
    forall c :: c in s && id <= c.id <==> c in t
  }

  lemma NextPartsDiffer(changes: seq<DetailedChange>, id: Path, x: Path)
    requires x != [] && forall c :: c in changes ==> id < c.id && c.id[|id|] != x[0]
    ensures forall c :: c in changes ==> !(id + x <= c.id)
  {
    forall c | c in changes
      ensures !(id + x <= c.id)
    {
      assert (id + x)[|id|] == x[0];
    }
  }

  lemma SameBelowConcat(s: seq<DetailedChange>, rest: seq<DetailedChange>, t: seq<DetailedChange>, id: Path)
    requires SameBelow(s, t, id) && forall c :: c in rest ==> !(id <= c.id)
    ensures SameBelow(s + rest, t, id) && SameBelow(rest + s, t, id)
  {}

  /** The changes of a settled difference whose ids continue with `x` are those of the spot. */
  lemma {:induction false} ChangesAtSpot(d: Delta, id: Path, p: Path, before: Option<Value>, after: Option<Value>,
                                         x: Path)
    requires Describes(d, before, after) && Settled(d) && Find(d, before, after, x).Some?
    ensures var spot := Find(d, before, after, x).value;
            SameBelow(ChangesAt(d, id, p, before, after),
                      ChangesAt(spot.delta, id + x, p + spot.place, spot.before, spot.after), id + x)
    decreases d
  {
    if x == [] {
      FlattenUnder(d, id, Some(p), Some(p), before, after);
      assert id + x == id && p + [] == p;
    } else if d.Fields? {
      ChangesAtFieldSpot(d.fields, id, p, FieldsOf(before), FieldsOf(after), x);
    } else {
      ChangesAtItemSpot(d.items, 0, id, p, ItemsOf(before), ItemsOf(after), x);
    }
  }

  lemma PathSteps(id: Path, x: Path, part: string, p: Path, name: string, place: Path)
    requires x != [] && part == x[0]
    ensures id + [part] + x[1..] == id + x
    ensures p + [name] + place == p + ([name] + place)
  {}

  lemma {:induction false} ChangesAtFieldSpot(fields: FieldDeltas, id: Path, p: Path, before: map<string, Value>,
                                              after: map<string, Value>, x: Path)
    requires DescribesFields(fields, before, after) && SettledFields(fields)
    requires x != [] && FindField(fields, before, after, x).Some?
    ensures var spot := FindField(fields, before, after, x).value;
            SameBelow(FlattenFields(fields, id, Some(p), Some(p), before, after),
                      ChangesAt(spot.delta, id + x, p + spot.place, spot.before, spot.after), id + x)
    decreases fields
  {
    var key, b, a := fields.key, FieldAt(before, fields.key), FieldAt(after, fields.key);
    var first := ChangesAt(fields.delta, id + [key], p + [key], b, a);
    var rest := FlattenFields(fields.others, id, Some(p), Some(p), before, after);
    var spot := FindField(fields, before, after, x).value;
    var t := ChangesAt(spot.delta, id + x, p + spot.place, spot.before, spot.after);
    FlattenUnder(fields.delta, id + [key], Some(p + [key]), Some(p + [key]), b, a);
    UnderNested(first, id, key);
    FlattenFieldsUnder(fields.others, id, Some(p), Some(p), before, after);
    if key == x[0] {
      ChangesAtSpot(fields.delta, id + [key], p + [key], b, a, x[1..]);
      PathSteps(id, x, key, p, key, Find(fields.delta, b, a, x[1..]).value.place);
      NextPartsDiffer(rest, id, x);
      SameBelowConcat(first, rest, t, id + x);
    } else {
      ChangesAtFieldSpot(fields.others, id, p, before, after, x);
      NextPartsDiffer(first, id, x);
      SameBelowConcat(rest, first, t, id + x);
    }
  }

  lemma {:induction false} ChangesAtItemSpot(items: ItemDeltas, position: nat, id: Path, p: Path, before: seq<Value>,
                                             after: seq<Value>, x: Path)
    requires DescribesItems(items, before, after) && SettledItems(items)
    requires x != [] && FindItem(items, position, before, after, x).Some?
    ensures var spot := FindItem(items, position, before, after, x).value;
            SameBelow(FlattenItems(items, position, id, Some(p), Some(p), before, after),
                      ChangesAt(spot.delta, id + x, p + spot.place, spot.before, spot.after), id + x)
    decreases items
  {
    var item, part := items.item, IndexName(position);
    var first := FlattenItem(item, items.delta, position, id, Some(p), Some(p), before, after);
    var rest := FlattenItems(items.others, position + 1, id, Some(p), Some(p), before, after);
    var spot := FindItem(items, position, before, after, x).value;
    var t := ChangesAt(spot.delta, id + x, p + spot.place, spot.before, spot.after);
    FlattenItemUnder(item, items.delta, position, id, Some(p), Some(p), before, after);
    UnderNested(first, id, part);
    FlattenItemsUnder(items.others, position + 1, id, Some(p), Some(p), before, after);
    IndexOfName(position);
    if part == x[0] {
      var name := IndexName(item.beforeIndex.value);
      var b, a := ItemOf(before, item.beforeIndex), ItemOf(after, item.afterIndex);
      assert first == ChangesAt(items.delta, id + [part], p + [name], b, a);
      ChangesAtSpot(items.delta, id + [part], p + [name], b, a, x[1..]);
      PathSteps(id, x, part, p, name, Find(items.delta, b, a, x[1..]).value.place);
      NextPartsDiffer(rest, id, x);
      SameBelowConcat(first, rest, t, id + x);
    } else {
      ChangesAtItemSpot(items.others, position + 1, id, p, before, after, x);
      NextPartsDiffer(first, id, x);
      SameBelowConcat(rest, first, t, id + x);
    }
  }

  // ----- every change is at a field or an item of some spot -----

  predicate IsContainer(d: Delta) {
    d.Fields? || d.Items?
  }

  /** The id of the change, without its last part, leads to an object or a list. */
  ghost predicate InContainer(c: DetailedChange, id: Path, d: Delta, before: Option<Value>, after: Option<Value>,
                              x: Path) {
    && id + x == Parent(c.id) && |c.id| == |id| + |x| + 1
    && Find(d, before, after, x).Some? && IsContainer(Find(d, before, after, x).value.delta)
  }

  lemma {:induction false} ContainerOf(d: Delta, id: Path, p: Path, before: Option<Value>, after: Option<Value>,
                                       c: DetailedChange) returns (x: Path)
    requires Describes(d, before, after) && Settled(d) && IsContainer(d)
    requires c in ChangesAt(d, id, p, before, after)
    ensures InContainer(c, id, d, before, after, x)
    decreases d
  {
    FlattenUnder(d, id, Some(p), Some(p), before, after);
    if |c.id| == |id| + 1 {
      x := [];
      assert Parent(c.id) == id + x;
    } else if d.Fields? {
      x := ContainerOfField(d.fields, id, p, FieldsOf(before), FieldsOf(after), c);
    } else {
      x := ContainerOfItem(d.items, 0, id, p, ItemsOf(before), ItemsOf(after), c);
    }
  }

  lemma ParentDeeper(id: Path, part: string, x: Path, c: DetailedChange)
    requires (id + [part]) + x == Parent(c.id) && |c.id| == |id| + |x| + 2
    ensures id + ([part] + x) == Parent(c.id) && c.id[|id|] == part
  {
    assert id + ([part] + x) == (id + [part]) + x;
    assert Parent(c.id)[|id|] == part;
  }

  lemma {:induction false} ContainerOfField(fields: FieldDeltas, id: Path, p: Path, before: map<string, Value>,
                                            after: map<string, Value>, c: DetailedChange) returns (x: Path)
    requires DescribesFields(fields, before, after) && SettledFields(fields)
    requires c in FlattenFields(fields, id, Some(p), Some(p), before, after) && |c.id| > |id| + 1
    ensures x != [] && id + x == Parent(c.id) && |c.id| == |id| + |x| + 1
    ensures FindField(fields, before, after, x).Some? && IsContainer(FindField(fields, before, after, x).value.delta)
    decreases fields
  {
    var key, b, a := fields.key, FieldAt(before, fields.key), FieldAt(after, fields.key);
    var first := ChangesAt(fields.delta, id + [key], p + [key], b, a);
    if c in first {
      var y := ContainerOf(fields.delta, id + [key], p + [key], b, a, c);
      x := [key] + y;
      assert x[1..] == y;
      ParentDeeper(id, key, y, c);
    } else {
      x := ContainerOfField(fields.others, id, p, before, after, c);
      FlattenFieldsUnder(fields.others, id, Some(p), Some(p), before, after);
      assert c.id[|id|] == Parent(c.id)[|id|] == x[0];
    }
  }

  lemma {:induction false} ContainerOfItem(items: ItemDeltas, position: nat, id: Path, p: Path, before: seq<Value>,
                                           after: seq<Value>, c: DetailedChange) returns (x: Path)
    requires DescribesItems(items, before, after) && SettledItems(items)
    requires c in FlattenItems(items, position, id, Some(p), Some(p), before, after) && |c.id| > |id| + 1
    ensures x != [] && id + x == Parent(c.id) && |c.id| == |id| + |x| + 1
    ensures FindItem(items, position, before, after, x).Some?
    ensures IsContainer(FindItem(items, position, before, after, x).value.delta)
    decreases items
  {
    var item, part := items.item, IndexName(position);
    var first := FlattenItem(item, items.delta, position, id, Some(p), Some(p), before, after);
    if c in first {
      var b, a := ItemOf(before, item.beforeIndex), ItemOf(after, item.afterIndex);
      var itemBeforeId, itemAfterId := NestedItem(Some(p), item.beforeIndex), NestedItem(Some(p), item.afterIndex);
      DirectItemChanges(item, items.delta, position, id, p, before, after);
      var name := IndexName(item.beforeIndex.value);
      assert first == ChangesAt(items.delta, id + [part], p + [name], b, a);
      var y := ContainerOf(items.delta, id + [part], p + [name], b, a, c);
      x := [part] + y;
      assert x[1..] == y;
      ParentDeeper(id, part, y, c);
    } else {
      x := ContainerOfItem(items.others, position + 1, id, p, before, after, c);
      FlattenItemsUnder(items.others, position + 1, id, Some(p), Some(p), before, after);
      assert c.id[|id|] == Parent(c.id)[|id|] == x[0];
      IndexOfName(position);
    }
  }

  /** The one change of an item that is added, removed, replaced or moved. */
  function ItemChange(item: IndexMappingItem, d: Delta, position: nat, id: Path, p: Path, before: seq<Value>,
                      after: seq<Value>): Option<DetailedChange> {
    var itemId, b, a := id + [IndexName(position)], ItemOf(before, item.beforeIndex), ItemOf(after, item.afterIndex);
    var itemBeforeId, itemAfterId := NestedItem(Some(p), item.beforeIndex), NestedItem(Some(p), item.afterIndex);
    if d.Added? && a.Some? then Some(DetailedChange(itemId, Addition(a.value), itemBeforeId, itemAfterId))
    else if d.Removed? && b.Some? then Some(DetailedChange(itemId, Removal(b.value), itemBeforeId, itemAfterId))
    else if d.Replaced? && b.Some? && a.Some?
    then Some(DetailedChange(itemId, Modification(b.value, a.value), itemBeforeId, itemAfterId))
    else None
  }

  lemma DirectItemChanges(item: IndexMappingItem, d: Delta, position: nat, id: Path, p: Path, before: seq<Value>,
                          after: seq<Value>)
    requires InRange(item, |before|, |after|)
    requires Describes(d, ItemOf(before, item.beforeIndex), ItemOf(after, item.afterIndex))
    ensures Direct(d) ==>
      && ItemChange(item, d, position, id, p, before, after).Some?
      && FlattenItem(item, d, position, id, Some(p), Some(p), before, after)
         == [ItemChange(item, d, position, id, p, before, after).value]
  {}

  // ----- spots below spots -----

  function Prefixed(place: Path, spot: Option<Spot>): Option<Spot> {
    if spot.Some? then Some(spot.value.(place := place + spot.value.place)) else None
  }

  lemma PrefixedUnder(part: string, place: Path, spot: Option<Spot>)
    ensures Prefixed([], spot) == spot
    ensures Prefixed([part] + place, spot) == Under(part, Prefixed(place, spot))
  {
    if spot.Some? {
      assert [] + spot.value.place == spot.value.place;
      assert ([part] + place) + spot.value.place == [part] + (place + spot.value.place);
    }
  }

  lemma {:induction false} FindThen(d: Delta, before: Option<Value>, after: Option<Value>, x: Path, y: Path)
    requires Find(d, before, after, x).Some?
    ensures var s := Find(d, before, after, x).value;
            Find(d, before, after, x + y) == Prefixed(s.place, Find(s.delta, s.before, s.after, y))
    decreases d
  {
    if x == [] {
      assert x + y == y;
      PrefixedUnder("", [], Find(d, before, after, y));
    } else if d.Fields? {
      FindFieldThen(d.fields, FieldsOf(before), FieldsOf(after), x, y);
    } else {
      FindItemThen(d.items, 0, ItemsOf(before), ItemsOf(after), x, y);
    }
  }

  lemma {:induction false} FindFieldThen(fields: FieldDeltas, before: map<string, Value>, after: map<string, Value>,
                                         x: Path, y: Path)
    requires x != [] && FindField(fields, before, after, x).Some?
    ensures var s := FindField(fields, before, after, x).value;
            FindField(fields, before, after, x + y) == Prefixed(s.place, Find(s.delta, s.before, s.after, y))
    decreases fields
  {
    assert (x + y)[0] == x[0] && (x + y)[1..] == x[1..] + y;
    if fields.key == x[0] {
      var b, a := FieldAt(before, fields.key), FieldAt(after, fields.key);
      var s := Find(fields.delta, b, a, x[1..]).value;
      FindThen(fields.delta, b, a, x[1..], y);
      PrefixedUnder(fields.key, s.place, Find(s.delta, s.before, s.after, y));
    } else {
      FindFieldThen(fields.others, before, after, x, y);
    }
  }

  lemma {:induction false} FindItemThen(items: ItemDeltas, position: nat, before: seq<Value>, after: seq<Value>,
                                        x: Path, y: Path)
    requires x != [] && FindItem(items, position, before, after, x).Some?
    ensures var s := FindItem(items, position, before, after, x).value;
            FindItem(items, position, before, after, x + y) == Prefixed(s.place, Find(s.delta, s.before, s.after, y))
    decreases items
  {
    assert (x + y)[0] == x[0] && (x + y)[1..] == x[1..] + y;
    if IndexName(position) == x[0] {
      var i := items.item.beforeIndex;
      var b, a := ItemOf(before, i), ItemOf(after, items.item.afterIndex);
      var s := Find(items.delta, b, a, x[1..]).value;
      FindThen(items.delta, b, a, x[1..], y);
      PrefixedUnder(IndexName(i.value), s.place, Find(s.delta, s.before, s.after, y));
    } else {
      FindItemThen(items.others, position + 1, before, after, x, y);
    }
  }

  /** A spot of a difference is a difference. */
  lemma {:induction false} SpotDescribes(d: Delta, before: Option<Value>, after: Option<Value>, x: Path)
    requires Describes(d, before, after) && Settled(d) && Find(d, before, after, x).Some?
    ensures var s := Find(d, before, after, x).value; Describes(s.delta, s.before, s.after) && Settled(s.delta)
    decreases d
  {
    if x == [] {
    } else if d.Fields? {
      FieldSpotDescribes(d.fields, FieldsOf(before), FieldsOf(after), x);
    } else {
      ItemSpotDescribes(d.items, 0, ItemsOf(before), ItemsOf(after), x);
    }
  }

  lemma {:induction false} FieldSpotDescribes(fields: FieldDeltas, before: map<string, Value>,
                                              after: map<string, Value>, x: Path)
    requires DescribesFields(fields, before, after) && SettledFields(fields)
    requires x != [] && FindField(fields, before, after, x).Some?
    ensures var s := FindField(fields, before, after, x).value;
            Describes(s.delta, s.before, s.after) && Settled(s.delta)
    decreases fields
  {
    if fields.key == x[0] {
      SpotDescribes(fields.delta, FieldAt(before, fields.key), FieldAt(after, fields.key), x[1..]);
    } else {
      FieldSpotDescribes(fields.others, before, after, x);
    }
  }

  lemma {:induction false} ItemSpotDescribes(items: ItemDeltas, position: nat, before: seq<Value>, after: seq<Value>,
                                             x: Path)
    requires DescribesItems(items, before, after) && SettledItems(items)
    requires x != [] && FindItem(items, position, before, after, x).Some?
    ensures var s := FindItem(items, position, before, after, x).value;
            Describes(s.delta, s.before, s.after) && Settled(s.delta)
    decreases items
  {
    if IndexName(position) == x[0] {
      SpotDescribes(items.delta, ItemOf(before, items.item.beforeIndex), ItemOf(after, items.item.afterIndex), x[1..]);
    } else {
      ItemSpotDescribes(items.others, position + 1, before, after, x);
    }
  }

  // ----- no two changes have one id -----

  lemma DistinctConcat(s: seq<DetailedChange>, t: seq<DetailedChange>)
    requires Distinct(s) && Distinct(t) && forall c :: c in s ==> c !in t
    ensures Distinct(s + t)
  {
    forall i, j | 0 <= i < j < |s + t|
      ensures (s + t)[i] != (s + t)[j]
    {
      if i < |s| <= j {
        assert s[i] in s && t[j - |s|] in t;
      }
    }
  }

  lemma {:induction false} ChangesDistinct(d: Delta, id: Path, beforeId: Option<Path>, afterId: Option<Path>,
                                           before: Option<Value>, after: Option<Value>)
    requires Describes(d, before, after)
    ensures Distinct(Flatten(d, id, beforeId, afterId, before, after))
    decreases d, 0
  {
    if d.Fields? {
      FieldChangesDistinct(d.fields, id, beforeId, afterId, FieldsOf(before), FieldsOf(after));
    } else if d.Items? {
      ItemChangesDistinct(d.items, 0, id, beforeId, afterId, ItemsOf(before), ItemsOf(after));
    }
  }

  lemma {:induction false} FieldChangesDistinct(fields: FieldDeltas, id: Path, beforeId: Option<Path>,
                                                afterId: Option<Path>, before: map<string, Value>,
                                                after: map<string, Value>)
    requires DescribesFields(fields, before, after)
    ensures Distinct(FlattenFields(fields, id, beforeId, afterId, before, after))
    decreases fields, 0
  {
    if fields.Field? {
      var key, b, a := fields.key, FieldAt(before, fields.key), FieldAt(after, fields.key);
      var first := Flatten(fields.delta, id + [key], Nested(beforeId, key), Nested(afterId, key), b, a);
      ChangesDistinct(fields.delta, id + [key], Nested(beforeId, key), Nested(afterId, key), b, a);
      FieldChangesDistinct(fields.others, id, beforeId, afterId, before, after);
      FlattenUnder(fields.delta, id + [key], Nested(beforeId, key), Nested(afterId, key), b, a);
      UnderNested(first, id, key);
      FlattenFieldsUnder(fields.others, id, beforeId, afterId, before, after);
      DistinctConcat(first, FlattenFields(fields.others, id, beforeId, afterId, before, after));
    }
  }

  lemma {:induction false} OneItemChangesDistinct(item: IndexMappingItem, d: Delta, position: nat, id: Path,
                                                  beforeId: Option<Path>, afterId: Option<Path>, before: seq<Value>,
                                                  after: seq<Value>)
    requires Describes(d, ItemOf(before, item.beforeIndex), ItemOf(after, item.afterIndex))
    ensures Distinct(FlattenItem(item, d, position, id, beforeId, afterId, before, after))
    decreases d, 1
  {
    var itemId := id + [IndexName(position)];
    var itemBeforeId, itemAfterId := NestedItem(beforeId, item.beforeIndex), NestedItem(afterId, item.afterIndex);
    var b, a := ItemOf(before, item.beforeIndex), ItemOf(after, item.afterIndex);
    var inner := Flatten(d, itemId, itemBeforeId, itemAfterId, b, a);
    ChangesDistinct(d, itemId, itemBeforeId, itemAfterId, b, a);
    FlattenUnder(d, itemId, itemBeforeId, itemAfterId, b, a);
    if !Direct(d) && b.Some? && a.Some? {
      DistinctAppend(inner, DetailedChange(itemId, Modification(b.value, a.value), itemBeforeId, itemAfterId));
    }
  }

  lemma {:induction false} ItemChangesDistinct(items: ItemDeltas, position: nat, id: Path, beforeId: Option<Path>,
                                               afterId: Option<Path>, before: seq<Value>, after: seq<Value>)
    requires DescribesItems(items, before, after)
    ensures Distinct(FlattenItems(items, position, id, beforeId, afterId, before, after))
    decreases items, 0
  {
    if items.ItemAt? {
      var first := FlattenItem(items.item, items.delta, position, id, beforeId, afterId, before, after);
      var rest := FlattenItems(items.others, position + 1, id, beforeId, afterId, before, after);
      OneItemChangesDistinct(items.item, items.delta, position, id, beforeId, afterId, before, after);
      ItemChangesDistinct(items.others, position + 1, id, beforeId, afterId, before, after);
      FlattenItemUnder(items.item, items.delta, position, id, beforeId, afterId, before, after);
      UnderNested(first, id, IndexName(position));
      FlattenItemsUnder(items.others, position + 1, id, beforeId, afterId, before, after);
      IndexOfName(position);
      DistinctConcat(first, rest);
    }
  }
}
