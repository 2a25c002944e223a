/** A key that sorts between a moved item and the changes inside it can break the round trip. */
module RoundTripLimit {
  import opened Wrappers
  import opened Sorting
  import opened Values
  import opened Changes
  import opened ListMapping
  import opened IndexMapping
  import opened ListPatch
  import opened IndependentIds
  import opened IndependentChanges
  import opened Diff
  import opened Progress
  import opened ListProgress
  import opened Patch
  import opened Strays
  import opened RoundTrip

  // The list `l` gets a new first item, so its one item moves to index 1; it also changes inside,
  // though not in its top-level values, by which it is matched. A field whose name is `l,1!`
  // changes too.

  const OLD_ITEM := Obj(map["y" := Obj(map["x" := Prim("1")])])
  const NEW_ITEM := Obj(map["y" := Obj(map["x" := Prim("2")])])
  const FIRST := Prim("n")
  const BEFORE := Obj(map["l" := List([OLD_ITEM]), "l,1!" := Prim("u")])
  const AFTER := Obj(map["l" := List([FIRST, NEW_ITEM]), "l,1!" := Prim("v")])

  const INSIDE := Fields(Field("x", Replaced, NoFields))
  const ITEMS :=
    ItemAt(IndexMappingItem(None, Some(0)), Added,
           ItemAt(IndexMappingItem(Some(0), Some(1)), Fields(Field("y", INSIDE, NoFields)), NoItems))
  const DELTA := Fields(Field("l", Items(ITEMS), Field("l,1!", Replaced, NoFields)))

  const ADDED := DetailedChange(["l", "0"], Addition(FIRST), None, Some(["l", "0"]))
  const INNER :=
    DetailedChange(["l", "1", "y", "x"], Modification(Prim("1"), Prim("2")), Some(["l", "0", "y", "x"]),
                   Some(["l", "1", "y", "x"]))
  const MOVED :=
    DetailedChange(["l", "1"], Modification(OLD_ITEM, NEW_ITEM), Some(["l", "0"]), Some(["l", "1"]))
  const OTHER :=
    DetailedChange(["l,1!"], Modification(Prim("u"), Prim("v")), Some(["l,1!"]), Some(["l,1!"]))
  const CHANGES := [ADDED, INNER, MOVED, OTHER]

  lemma Names()
    ensures IndexName(0) == "0" && IndexName(1) == "1"
  {}

  lemma ItemsDescribed()
    ensures Describes(Items(ITEMS), Some(List([OLD_ITEM])), Some(List([FIRST, NEW_ITEM])))
  {
    var mapping := [IndexMappingItem(None, Some(0)), IndexMappingItem(Some(0), Some(1))];
    assert MappingOf(ITEMS) == mapping;
    assert mapping[0].afterIndex == Some(0) && mapping[1].beforeIndex == Some(0) && mapping[1].afterIndex == Some(1);
    assert CoversBefore(mapping, 0);
    assert CoversAfter(mapping, 0) && CoversAfter(mapping, 1);
    assert Exact(mapping, 1, 2);
    InsideDescribed();
    assert DescribesItems(ITEMS.others, [OLD_ITEM], [FIRST, NEW_ITEM]);
  }

  lemma InsideDescribed()
    ensures Describes(ITEMS.others.delta, Some(OLD_ITEM), Some(NEW_ITEM))
  {
    var y, y' := OLD_ITEM.fields["y"], NEW_ITEM.fields["y"];
    assert KeysOf(INSIDE.fields) == {"x"};
    assert DescribesFields(INSIDE.fields, y.fields, y'.fields);
    assert Describes(INSIDE, Some(y), Some(y'));
    assert KeysOf(ITEMS.others.delta.fields) == {"y"};
    assert DescribesFields(ITEMS.others.delta.fields, OLD_ITEM.fields, NEW_ITEM.fields);
  }

  lemma Described()
    ensures Describes(DELTA, Some(BEFORE), Some(AFTER))
  {
    ItemsDescribed();
    assert KeysOf(DELTA.fields) == {"l", "l,1!"};
    assert Describes(Replaced, FieldAt(BEFORE.fields, "l,1!"), FieldAt(AFTER.fields, "l,1!"));
    assert DescribesFields(NoFields, BEFORE.fields, AFTER.fields);
    assert DescribesFields(DELTA.fields.others, BEFORE.fields, AFTER.fields);
  }

  // ----- it is what comparing the items comes to -----

  /** The exact key tells the three items apart; the top-level key of an item with nothing but an
      object in it is empty. */
  const KEYS := Comparison(true, (v: Value) => if v == OLD_ITEM then "1" else if v == NEW_ITEM then "2" else "n",
                           (v: Value) => if v.Prim? then v.repr else "")

  lemma NoIndexes()
    ensures IndexesOf(["n", "2"], "1") == [] && IndexesOf(["n", ""], "") == [1]
  {
    assert ["n", "2"][..1] == ["n"] && ["n", ""][..1] == ["n"] && ["n"][..0] == [];
    assert IndexesOf(["n"], "1") == [] && IndexesOf(["n"], "") == [];
  }

  /** Nothing has the old item's exact key, and the new item has its top-level key. */
  lemma Mapped()
    ensures IsIndexMapping(MappingOf(ITEMS), ["1"], ["n", "2"], [""], ["n", ""])
  {
    var unmatched, ms := [Match(None, -1)], [Match(Some(1), -1)];
    var mapping := MappingOf(ITEMS);
    assert mapping == [IndexMappingItem(None, Some(0)), IndexMappingItem(Some(0), Some(1))];
    ItemsDescribed();
    NoIndexes();
    assert Asked(unmatched, ["1"], "1", 0) == 0 && Asked(unmatched, [""], "", 0) == 0;
    assert OffersTaken(NoMatches(1), unmatched, ["1"], ["n", "2"], 1);
    assert OffersTaken(unmatched, ms, [""], ["n", ""], 1);
    assert Pair(ms, 0, 1);
    assert IsPaired(ms, 1);
    assert Matching(ms, {1}, 2);
    assert LedTo(mapping, ms, {1}, ["1"], ["n", "2"], [""], ["n", ""], unmatched, ms, ms);
  }

  lemma KeysOfItems()
    ensures Keys([OLD_ITEM], KEYS.exactKey) == ["1"] && Keys([FIRST, NEW_ITEM], KEYS.exactKey) == ["n", "2"]
    ensures Keys([OLD_ITEM], KEYS.topLevelKey) == [""] && Keys([FIRST, NEW_ITEM], KEYS.topLevelKey) == ["n", ""]
  {
    assert OLD_ITEM.fields["y"].fields["x"] != NEW_ITEM.fields["y"].fields["x"];
  }

  lemma InsideDetailed()
    ensures Detailed(ITEMS.others.delta, Some(OLD_ITEM), Some(NEW_ITEM), KEYS)
  {
    var y, y' := OLD_ITEM.fields["y"], NEW_ITEM.fields["y"];
    assert y.fields["x"] != y'.fields["x"];
    assert Detailed(INSIDE, Some(y), Some(y'), KEYS);
  }

  lemma ItemsDetailed()
    ensures Detailed(Items(ITEMS), Some(List([OLD_ITEM])), Some(List([FIRST, NEW_ITEM])), KEYS)
  {
    var b, a := [OLD_ITEM], [FIRST, NEW_ITEM];
    KeysOfItems();
    Mapped();
    InsideDetailed();
    assert DetailedItems(ITEMS.others, b, a, KEYS);
  }

  lemma DeltaDetailed()
    ensures Detailed(DELTA, Some(BEFORE), Some(AFTER), KEYS)
  {
    ItemsDetailed();
    assert BEFORE.fields["l,1!"] != AFTER.fields["l,1!"];
    assert Detailed(Replaced, FieldAt(BEFORE.fields, "l,1!"), FieldAt(AFTER.fields, "l,1!"), KEYS);
    assert DetailedFields(DELTA.fields.others, BEFORE.fields, AFTER.fields, KEYS);
  }

  lemma InsideFlattened()
    ensures Flatten(ITEMS.others.delta, ["l", "1"], Some(["l", "0"]), Some(["l", "1"]), Some(OLD_ITEM), Some(NEW_ITEM))
         == [INNER]
  {
    var y, y' := OLD_ITEM.fields["y"], NEW_ITEM.fields["y"];
    assert ["l", "1"] + ["y"] == ["l", "1", "y"] && ["l", "0"] + ["y"] == ["l", "0", "y"];
    assert ["l", "1", "y"] + ["x"] == ["l", "1", "y", "x"] && ["l", "0", "y"] + ["x"] == ["l", "0", "y", "x"];
    assert FlattenFields(INSIDE.fields, ["l", "1", "y"], Some(["l", "0", "y"]), Some(["l", "1", "y"]), y.fields,
                         y'.fields)
        == [INNER];
    assert Flatten(INSIDE, ["l", "1", "y"], Some(["l", "0", "y"]), Some(["l", "1", "y"]), Some(y), Some(y')) == [INNER];
  }

  lemma ItemsFlattened()
    ensures FlattenItems(ITEMS, 0, ["l"], Some(["l"]), Some(["l"]), [OLD_ITEM], [FIRST, NEW_ITEM])
      == [ADDED, INNER, MOVED]
  {
    Names();
    var b, a := [OLD_ITEM], [FIRST, NEW_ITEM];
    var rest := ITEMS.others;
    assert ["l"] + ["0"] == ["l", "0"] && ["l"] + ["1"] == ["l", "1"];
    InsideFlattened();
    assert FlattenItem(ITEMS.item, Added, 0, ["l"], Some(["l"]), Some(["l"]), b, a) == [ADDED];
    assert Flatten(rest.delta, ["l", "1"], Some(["l", "0"]), Some(["l", "1"]), Some(OLD_ITEM), Some(NEW_ITEM))
      == [INNER];
    assert FlattenItem(rest.item, rest.delta, 1, ["l"], Some(["l"]), Some(["l"]), b, a) == [INNER, MOVED];
    assert FlattenItems(rest, 1, ["l"], Some(["l"]), Some(["l"]), b, a) == [INNER, MOVED];
  }

  lemma Flattened()
    ensures Flatten(DELTA, [], Some([]), Some([]), Some(BEFORE), Some(AFTER)) == CHANGES
  {
    ItemsFlattened();
    assert [] + ["l"] == ["l"] && [] + ["l,1!"] == ["l,1!"];
    var others := DELTA.fields.others;
    assert FlattenFields(others, [], Some([]), Some([]), BEFORE.fields, AFTER.fields) == [OTHER];
    assert [ADDED, INNER, MOVED] + [OTHER] == CHANGES;
  }

  // ----- the inner change slips through -----

  const A: Path := ["l", "0"]
  const B: Path := ["l", "1"]
  const C: Path := ["l,1!"]
  const D: Path := ["l", "1", "y", "x"]

  lemma JoinedIds()
    ensures Joined(A) == ",l,0" && Joined(B) == ",l,1" && Joined(C) == ",l,1!" && Joined(D) == ",l,1,y,x"
  {
    assert A[1..] == ["0"] && B[1..] == ["1"] && C[1..] == [] && D[1..] == ["1", "y", "x"];
    assert ["0"][1..] == [] && ["1"][1..] == [] && ["x"][1..] == [];
    assert ["1", "y", "x"][1..] == ["y", "x"] && ["y", "x"][1..] == ["x"];
    assert Joined(["x"]) == ",x";
    assert Joined(["y", "x"]) == ",y,x";
    assert Joined(["1", "y", "x"]) == ",1,y,x";
  }

  lemma IdsCompared()
    ensures IdLe(A, B) && IdLe(B, C) && !IdLe(D, B) && !IdLe(D, C)
  {
    JoinedIds();
    StringLeCommon(",l,", "0", "1");
    assert ",l," + "0" == ",l,0" && ",l," + "1" == ",l,1";
    PrefixLe(",l,1", "!");
    PrefixLe(",l,1", ",y,x");
    assert ",l,1" + "!" == ",l,1!" && ",l,1" + ",y,x" == ",l,1,y,x";
    StringLeCommon(",l,1", ",y,x", "!");
  }

  lemma IdsSorted()
    ensures SortBy(IdLe, [A, D, B, C]) == [A, B, C, D]
  {
    IdsCompared();
    assert [A, D, B, C][1..] == [D, B, C] && [D, B, C][1..] == [B, C] && [B, C][1..] == [C] && [C][1..] == [];
    assert SortBy(IdLe, [C]) == [C];
    assert SortBy(IdLe, [B, C]) == [B, C];
    assert InsertBy(IdLe, D, [C]) == [C, D];
    assert SortBy(IdLe, [D, B, C]) == [B, C, D];
  }

  lemma AllIdsKept()
    ensures forall id :: id in [A, B, C, D] ==> id in Kept([A, B, C, D])
  {
    assert [A, B, C, D][1..] == [B, C, D] && [B, C, D][1..] == [C, D] && [C, D][1..] == [D] && [D][1..] == [];
    assert C[0] != D[0] && !(C < D) && KeptAfter(D, []) == {};
    assert KeptAfter(C, [D]) == {D};
    assert KeptAfter(B, [C, D]) == {C, D};
    assert KeptAfter(A, [B, C, D]) == {B, C, D};
    assert KeptAfter(A, [A, B, C, D]) == {A, B, C, D};
  }

  lemma NothingLeftOut()
    ensures GetIndependentChanges(CHANGES) == CHANGES
  {
    assert MOVED in CHANGES && IsOrderChange(MOVED);
    var ids := Ids(CHANGES);
    assert ids == [A, D, B, C];
    IdsSorted();
    AllIdsKept();
    FilterEverything((id: Path) => id in Kept(SortBy(IdLe, ids)), ids);
    assert GetIndependent(ids) == ids;
    FilterEverything((c: DetailedChange) => c.id in ids, CHANGES);
  }

  // ----- and the list ends with an item too many -----

  const STRAY := Obj(map["y" := Obj(map["x" := Prim("2")])])
  const AFTER_SETS := Obj(map["l" := List([OLD_ITEM, STRAY]), "l,1!" := Prim("v")])

  lemma Split()
    ensures Filter(IsPotentialListItem, CHANGES) == [ADDED, MOVED]
    ensures Filter((c: DetailedChange) => !IsPotentialListItem(c), CHANGES) == [INNER, OTHER]
  {
    assert IsPotentialListItem(ADDED) && IsPotentialListItem(MOVED);
    assert !IsDigit("x"[0]) && !IsPotentialListItem(INNER);
    assert !IsDigit("l,1!"[0]) && !IsPotentialListItem(OTHER);
    var unnamed := (c: DetailedChange) => !IsPotentialListItem(c);
    forall c | c in CHANGES
      ensures Filter(IsPotentialListItem, [c]) == if IsPotentialListItem(c) then [c] else []
      ensures Filter(unnamed, [c]) == if IsPotentialListItem(c) then [] else [c]
    {
      FilterOne(IsPotentialListItem, c);
      FilterOne(unnamed, c);
    }
    FilterFour(IsPotentialListItem, ADDED, INNER, MOVED, OTHER);
    FilterFour(unnamed, ADDED, INNER, MOVED, OTHER);
  }

  lemma FilterFour<T>(keep: T -> bool, x: T, y: T, z: T, w: T)
    ensures Filter(keep, [x, y, z, w]) == Filter(keep, [x]) + Filter(keep, [y]) + Filter(keep, [z]) + Filter(keep, [w])
  {
    assert [x, y, z, w] == [x, y] + [z, w] && [x, y] == [x] + [y] && [z, w] == [z] + [w];
    FilterConcat(keep, [x, y], [z, w]);
    FilterConcat(keep, [x], [y]);
    FilterConcat(keep, [z], [w]);
  }

  lemma OneGroup()
    ensures Groups(CHANGES) == [[ADDED, MOVED]]
  {
    NothingLeftOut();
    Split();
    var potential := [ADDED, MOVED];
    var parent := Parent(ADDED.id);
    assert parent == ["l"] == Parent(MOVED.id);
    FilterEverything((c: DetailedChange) => Parent(c.id) == parent, potential);
    FilterNone((c: DetailedChange) => Parent(c.id) != parent, potential);
    assert GroupOf(parent, potential) == potential && OutsideOf(parent, potential) == [];
    assert GroupByParent([]) == [];
  }

  lemma Planned()
    ensures OneByOne(BEFORE, CHANGES) == [INNER, OTHER] && ByList(BEFORE, CHANGES) == [[ADDED, MOVED]]
  {
    NothingLeftOut();
    Split();
    OneGroup();
    var g := [ADDED, MOVED];
    assert ListPath(g) == ["l"];
    assert Get(BEFORE, ["l"]) == Some(List([OLD_ITEM])) by {
      assert ["l"][1..] == [];
    }
    assert IsRealList(BEFORE, g);
    FilterOne((g: seq<DetailedChange>) => IsRealList(BEFORE, g), g);
    FilterOne((g: seq<DetailedChange>) => !IsRealList(BEFORE, g), g);
    assert SortBy(DeeperFirst, [g]) == [g] by {
      assert [g][1..] == [];
    }
  }

  lemma StrayMade()
    ensures Put(None, ["y", "x"], Some(Prim("2"))) == Some(STRAY)
  {
    var y := Obj(map["x" := Prim("2")]);
    assert ["y", "x"][1..] == ["x"] && ["x"][1..] == [];
    assert !IsDigit("x"[0]) && !IsDigit("y"[0]);
    assert WithField(map[], "x", Some(Prim("2"))) == y.fields;
    assert Put(None, ["x"], Some(Prim("2"))) == Some(y);
    assert WithField(map[], "y", Some(y)) == STRAY.fields;
  }

  lemma StrayPut()
    ensures Put(Some(List([OLD_ITEM])), ["1", "y", "x"], Some(Prim("2"))) == Some(List([OLD_ITEM, STRAY]))
  {
    Names();
    StrayMade();
    IndexOfName(1);
    assert ["1", "y", "x"][1..] == ["y", "x"];
    assert WithSlot([OLD_ITEM], 1, Some(STRAY)) == [OLD_ITEM, STRAY];
  }

  const BETWEEN := Obj(map["l" := List([OLD_ITEM, STRAY]), "l,1!" := Prim("u")])

  lemma InnerSet()
    ensures SetChange(BEFORE, INNER) == BETWEEN
  {
    StrayPut();
    var path := INNER.afterId.value;
    assert path[0] == "l" && path[1..] == ["1", "y", "x"];
    assert FieldAt(BEFORE.fields, "l") == Some(List([OLD_ITEM]));
    assert WithField(BEFORE.fields, "l", Some(List([OLD_ITEM, STRAY]))) == BETWEEN.fields;
  }

  lemma OtherSet()
    ensures SetChange(BETWEEN, OTHER) == AFTER_SETS
  {
    var path := OTHER.afterId.value;
    assert path[0] == "l,1!" && path[1..] == [];
    assert WithField(BETWEEN.fields, "l,1!", Some(Prim("v"))) == AFTER_SETS.fields;
  }

  lemma SetsDone()
    ensures SetChanges(BEFORE, [INNER, OTHER]) == AFTER_SETS
  {
    var sets := [INNER, OTHER];
    InnerSet();
    OtherSet();
    assert sets[..1] == [INNER] && [INNER][..0] == [];
    assert SetChanges(BEFORE, [INNER]) == BETWEEN;
  }

  lemma ListUpdated()
    ensures Updated([OLD_ITEM, STRAY], [ListAdd(0, FIRST), ListModify(0, 1, NEW_ITEM)]) == [FIRST, NEW_ITEM, STRAY]
  {
    var changes := [ListAdd(0, FIRST), ListModify(0, 1, NEW_ITEM)];
    var list := SlotsOf([OLD_ITEM, STRAY]);
    assert changes[..1] == [changes[0]] && [changes[0]][..0] == [];
    assert Punched(list, [changes[0]]) == list;
    assert Punched(list, changes) == [None, Some(STRAY)];
    assert changes == [changes[0]] + [changes[1]];
    FilterEverything(HasAfterIndex, changes);
    assert changes[1..] == [changes[1]] && [changes[1]][1..] == [];
    assert SortBy(AfterIndexLe, [changes[1]]) == [changes[1]];
    assert Placements(changes) == changes;
    assert Placed([None, Some(STRAY)], [changes[0]]) == [Some(FIRST), Some(STRAY)];
    assert Placed([None, Some(STRAY)], changes) == [Some(FIRST), Some(NEW_ITEM), Some(STRAY)];
    assert [Some(FIRST), Some(NEW_ITEM), Some(STRAY)][1..] == [Some(NEW_ITEM), Some(STRAY)];
    assert [Some(NEW_ITEM), Some(STRAY)][1..] == [Some(STRAY)] && [Some(STRAY)][1..] == [];
    assert Defined([Some(STRAY)]) == [STRAY];
    assert Defined([Some(NEW_ITEM), Some(STRAY)]) == [NEW_ITEM, STRAY];
  }

  const WRONG := Obj(map["l" := List([FIRST, NEW_ITEM, STRAY]), "l,1!" := Prim("v")])

  lemma GroupRead()
    ensures AllListChanges([ADDED, MOVED])
    ensures ListChangesOf([ADDED, MOVED]) == [ListAdd(0, FIRST), ListModify(0, 1, NEW_ITEM)]
  {
    Names();
    IndexOfName(0);
    IndexOfName(1);
    assert ToListChange(ADDED) == Some(ListAdd(0, FIRST)) && ToListChange(MOVED) == Some(ListModify(0, 1, NEW_ITEM));
  }

  lemma ListApplied()
    ensures ApplyListChanges(AFTER_SETS, [ADDED, MOVED]) == Some(WRONG)
  {
    var g := [ADDED, MOVED];
    GroupRead();
    ListUpdated();
    assert ListPath(g) == ["l"] && ["l"][1..] == [];
    assert Get(AFTER_SETS, ["l"]) == Some(List([OLD_ITEM, STRAY]));
    assert WithField(AFTER_SETS.fields, "l", Some(List([FIRST, NEW_ITEM, STRAY]))) == WRONG.fields;
  }

  lemma GroupsApplied()
    ensures ApplyGroups(AFTER_SETS, [[ADDED, MOVED]]) == Some(WRONG)
  {
    ListApplied();
    var groups := [[ADDED, MOVED]];
    assert groups[..0] == [];
    assert ApplyGroups(AFTER_SETS, groups[..0]) == Some(AFTER_SETS);
  }

  lemma PatchedInSteps(v: Value, changes: seq<DetailedChange>, oneByOne: seq<DetailedChange>,
                       byList: seq<seq<DetailedChange>>, between: Value)
    requires !IsWholeModification(changes) && OneByOne(v, changes) == oneByOne && ByList(v, changes) == byList
    requires SetChanges(v, oneByOne) == between
    ensures Patched(v, changes) == ApplyGroups(between, byList)
  {}

  lemma WrongIsNotAfter()
    ensures WRONG != AFTER
  {
    assert |WRONG.fields["l"].items| == 3 && |AFTER.fields["l"].items| == 2;
  }

  lemma BothPlain()
    ensures Plain(BEFORE) && Plain(AFTER)
  {
    assert Plain(OLD_ITEM.fields["y"]) && Plain(NEW_ITEM.fields["y"]);
    assert Plain(OLD_ITEM) && Plain(NEW_ITEM) && Plain(FIRST);
    assert Plain(List([OLD_ITEM])) && Plain(List([FIRST, NEW_ITEM]));
  }

  /** The difference is what comparing the two objects item by item gives, yet applying it does
      not give the value after. */
  lemma RoundTripFails()
    ensures Describes(DELTA, Some(BEFORE), Some(AFTER)) && Detailed(DELTA, Some(BEFORE), Some(AFTER), KEYS)
    ensures CHANGES == Flatten(DELTA, [], Some([]), Some([]), Some(BEFORE), Some(AFTER))
    ensures Patched(BEFORE, CHANGES) == Some(WRONG) && WRONG != AFTER
    ensures Applies(BEFORE, CHANGES) && !NoStray(BEFORE, CHANGES)
  {
    Described();
    DeltaDetailed();
    Flattened();
    Planned();
    SetsDone();
    PatchedInSteps(BEFORE, CHANGES, [INNER, OTHER], [[ADDED, MOVED]], AFTER_SETS);
    GroupsApplied();
    WrongIsNotAfter();
    assert IsDiff(CHANGES, [], Some([]), Some([]), Some(BEFORE), Some(AFTER));
    BothPlain();
    DiffThenPatchIff(BEFORE, AFTER, CHANGES);
  }
}
