/** Two moved items that change inside, and two keys that let the changes through: applying
    them comes upon a list that is gone, where the source throws. */
module RoundTripThrows {
  import opened Wrappers
  import opened Sorting
  import opened Values
  import opened Changes
  import opened ListMapping
  import opened IndexMapping
  import opened IndependentIds
  import opened IndependentChanges
  import opened Diff
  import opened Progress
  import opened Patch
  import opened Strays
  import opened RoundTrip

  // The two items of the list `l` change places. The first loses its inner list, the second has an
  // item of its inner list modified. Two fields, named `l,0!` and `l,1!`, change too.

  const A0 := Obj(map["n" := Prim("a"), "k" := List([Prim("1")])])
  const A1 := Obj(map["n" := Prim("a")])
  const M0 := Obj(map["n" := Prim("m"), "k" := List([Prim("p")])])
  const M1 := Obj(map["n" := Prim("m"), "k" := List([Prim("q")])])
  const BEFORE := Obj(map["l" := List([A0, M0]), "l,0!" := Prim("u"), "l,1!" := Prim("u")])
  const AFTER := Obj(map["l" := List([M1, A1]), "l,0!" := Prim("v"), "l,1!" := Prim("v")])

  const LIST := Items(ItemAt(IndexMappingItem(Some(0), Some(0)), Replaced, NoItems))
  const M_DELTA := Fields(Field("n", Same, Field("k", LIST, NoFields)))
  const A_DELTA := Fields(Field("n", Same, Field("k", Removed, NoFields)))
  const M_TO_0 := IndexMappingItem(Some(1), Some(0))
  const A_TO_1 := IndexMappingItem(Some(0), Some(1))
  const ITEMS := ItemAt(M_TO_0, M_DELTA, ItemAt(A_TO_1, A_DELTA, NoItems))
  const DELTA := Fields(Field("l,0!", Replaced, Field("l", Items(ITEMS), Field("l,1!", Replaced, NoFields))))

  const OTHER0 := DetailedChange(["l,0!"], Modification(Prim("u"), Prim("v")), Some(["l,0!"]), Some(["l,0!"]))
  const OTHER1 := DetailedChange(["l,1!"], Modification(Prim("u"), Prim("v")), Some(["l,1!"]), Some(["l,1!"]))
  const INNER :=
    DetailedChange(["l", "0", "k", "0"], Modification(Prim("p"), Prim("q")), Some(["l", "1", "k", "0"]),
                   Some(["l", "0", "k", "0"]))
  const MOVED_M := DetailedChange(["l", "0"], Modification(M0, M1), Some(["l", "1"]), Some(["l", "0"]))
  const GONE :=
    DetailedChange(["l", "1", "k"], Removal(List([Prim("1")])), Some(["l", "0", "k"]), Some(["l", "1", "k"]))
  const MOVED_A := DetailedChange(["l", "1"], Modification(A0, A1), Some(["l", "0"]), Some(["l", "1"]))
  const CHANGES := [OTHER0, INNER, MOVED_M, GONE, MOVED_A, OTHER1]

  // ----- the difference -----

  lemma Names()
    ensures IndexName(0) == "0" && IndexName(1) == "1"
  {}

  lemma ExactMappings()
    ensures Exact([M_TO_0, A_TO_1], 2, 2) && Exact(SameIndexes(1), 1, 1)
  {
    var mapping := [M_TO_0, A_TO_1];
    assert mapping[0] == M_TO_0 && mapping[1] == A_TO_1;
    assert CoversBefore(mapping, 0) && CoversBefore(mapping, 1) && CoversAfter(mapping, 0) && CoversAfter(mapping, 1);
    SameIndexesExact(1);
  }

  lemma MDescribed()
    ensures Describes(M_DELTA, Some(M0), Some(M1))
  {
    ExactMappings();
    assert MappingOf(LIST.items) == SameIndexes(1);
    assert Describes(LIST, Some(M0.fields["k"]), Some(M1.fields["k"]));
    assert KeysOf(M_DELTA.fields) == {"n", "k"};
    assert DescribesFields(NoFields, M0.fields, M1.fields);
    assert DescribesFields(M_DELTA.fields.others, M0.fields, M1.fields);
  }

  lemma ADescribed()
    ensures Describes(A_DELTA, Some(A0), Some(A1))
  {
    assert KeysOf(A_DELTA.fields) == {"n", "k"};
    assert Describes(Removed, FieldAt(A0.fields, "k"), FieldAt(A1.fields, "k"));
    assert DescribesFields(NoFields, A0.fields, A1.fields);
    assert DescribesFields(A_DELTA.fields.others, A0.fields, A1.fields);
  }

  lemma ItemsDescribed()
    ensures Describes(Items(ITEMS), Some(List([A0, M0])), Some(List([M1, A1])))
  {
    MDescribed();
    ADescribed();
    ExactMappings();
    assert MappingOf(ITEMS) == [M_TO_0, A_TO_1];
    assert DescribesItems(ITEMS.others, [A0, M0], [M1, A1]);
  }

  lemma Described()
    ensures Describes(DELTA, Some(BEFORE), Some(AFTER))
  {
    ItemsDescribed();
    var b, a := BEFORE.fields, AFTER.fields;
    assert KeysOf(DELTA.fields) == {"l,0!", "l", "l,1!"};
    assert DescribesFields(NoFields, b, a);
    assert Describes(Replaced, FieldAt(b, "l,1!"), FieldAt(a, "l,1!"));
    assert DescribesFields(DELTA.fields.others.others, b, a);
    assert DescribesFields(DELTA.fields.others, b, a);
  }

  // ----- it is what comparing the items comes to -----

  /** The exact key tells all items apart; the top-level key has the name and leaves out the list. */
  const KEYS :=
    Comparison(true,
               (v: Value) =>
                 if v.Prim? then v.repr
                 else if v == A0 then "1"
                 else if v == A1 then "2"
                 else if v == M0 then "3"
                 else "4",
               (v: Value) =>
                 if v.Prim? then v.repr
                 else if v.Obj? && "n" in v.fields && v.fields["n"].Prim? then v.fields["n"].repr
                 else "")

  lemma InnerMapped()
    ensures IsIndexMapping(SameIndexes(1), ["p"], ["q"], ["p"], ["q"])
  {
    var none, ms := [Match(None, -1)], [Match(Some(0), -1)];
    ExactMappings();
    assert ["q"][..0] == [] && IndexesOf(["q"], "p") == [];
    assert OffersTaken(NoMatches(1), none, ["p"], ["q"], 1) && OffersTaken(none, none, ["p"], ["q"], 1);
    assert OwnIndexesTaken(none, ms, 1, 1);
    assert Pair(ms, 0, 0) && IsPaired(ms, 0);
    assert Matching(ms, {0}, 1);
    assert LedTo(SameIndexes(1), ms, {0}, ["p"], ["q"], ["p"], ["q"], none, none, ms);
  }

  lemma NoIndexes()
    ensures IndexesOf(["4", "2"], "1") == [] && IndexesOf(["4", "2"], "3") == []
    ensures IndexesOf(["m", "a"], "a") == [1] && IndexesOf(["m", "a"], "m") == [0]
  {
    assert ["4", "2"][..1] == ["4"] && ["m", "a"][..1] == ["m"] && ["4"][..0] == [] && ["m"][..0] == [];
    assert IndexesOf(["4"], "1") == [] && IndexesOf(["4"], "3") == [];
    assert IndexesOf(["m"], "a") == [] && IndexesOf(["m"], "m") == [0];
  }

  lemma TopLevelTaken()
    ensures OffersTaken([Match(None, -1), Match(None, -1)], [Match(Some(1), -1), Match(Some(0), -1)], ["a", "m"],
                        ["m", "a"], 2)
  {
    var none := [Match(None, -1), Match(None, -1)];
    NoIndexes();
    assert Asked(none, ["a", "m"], "a", 0) == 0;
    assert Asked(none, ["a", "m"], "m", 1) == 0;
    assert AfterIndexes(none) == {};
  }

  lemma Swapped()
    ensures Matching([Match(Some(1), -1), Match(Some(0), -1)], {0, 1}, 2)
  {
    var ms := [Match(Some(1), -1), Match(Some(0), -1)];
    assert Pair(ms, 0, 1) && Pair(ms, 1, 0);
    assert IsPaired(ms, 0) && IsPaired(ms, 1);
  }

  lemma Mapped()
    ensures IsIndexMapping(MappingOf(ITEMS), ["1", "3"], ["4", "2"], ["a", "m"], ["m", "a"])
  {
    var none, ms := [Match(None, -1), Match(None, -1)], [Match(Some(1), -1), Match(Some(0), -1)];
    ExactMappings();
    NoIndexes();
    TopLevelTaken();
    Swapped();
    assert MappingOf(ITEMS) == [M_TO_0, A_TO_1];
    assert OffersTaken(NoMatches(2), none, ["1", "3"], ["4", "2"], 2);
    assert LedTo(MappingOf(ITEMS), ms, {0, 1}, ["1", "3"], ["4", "2"], ["a", "m"], ["m", "a"], none, ms, ms);
  }

  lemma MDetailed()
    ensures Detailed(M_DELTA, Some(M0), Some(M1), KEYS)
  {
    var b, a := [Prim("p")], [Prim("q")];
    InnerMapped();
    assert M0.fields["k"].items[0] != M1.fields["k"].items[0];
    assert MappingOf(LIST.items) == SameIndexes(1);
    assert Keys(b, KEYS.exactKey) == Keys(b, KEYS.topLevelKey) == ["p"];
    assert Keys(a, KEYS.exactKey) == Keys(a, KEYS.topLevelKey) == ["q"];
    assert Detailed(LIST, Some(M0.fields["k"]), Some(M1.fields["k"]), KEYS);
    assert DetailedFields(M_DELTA.fields.others, M0.fields, M1.fields, KEYS);
  }

  lemma ADetailed()
    ensures Detailed(A_DELTA, Some(A0), Some(A1), KEYS)
  {
    assert "k" in A0.fields && "k" !in A1.fields;
    assert Detailed(Removed, FieldAt(A0.fields, "k"), FieldAt(A1.fields, "k"), KEYS);
    assert DetailedFields(A_DELTA.fields.others, A0.fields, A1.fields, KEYS);
  }

  lemma KeysOfItems()
    ensures Keys([A0, M0], KEYS.exactKey) == ["1", "3"] && Keys([M1, A1], KEYS.exactKey) == ["4", "2"]
    ensures Keys([A0, M0], KEYS.topLevelKey) == ["a", "m"] && Keys([M1, A1], KEYS.topLevelKey) == ["m", "a"]
  {
    assert A0.fields["n"] != M0.fields["n"] && A1.fields["n"] != M1.fields["n"];
    assert A0.fields["n"] != M1.fields["n"];
    assert "k" in A0.fields && "k" !in A1.fields && M0.fields["k"].items[0] != M1.fields["k"].items[0];
  }

  lemma ItemsDetailedInside()
    ensures DetailedItems(ITEMS, [A0, M0], [M1, A1], KEYS)
  {
    MDetailed();
    ADetailed();
    assert DetailedItems(ITEMS.others, [A0, M0], [M1, A1], KEYS);
  }

  lemma ItemsDetailed()
    ensures Detailed(Items(ITEMS), Some(List([A0, M0])), Some(List([M1, A1])), KEYS)
  {
    KeysOfItems();
    Mapped();
    ItemsDetailedInside();
    assert [A0, M0][0] != [M1, A1][0] by {
      assert A0.fields["n"] != M1.fields["n"];
    }
  }

  lemma OthersDetailed()
    ensures Detailed(Replaced, FieldAt(BEFORE.fields, "l,0!"), FieldAt(AFTER.fields, "l,0!"), KEYS)
    ensures DetailedFields(DELTA.fields.others.others, BEFORE.fields, AFTER.fields, KEYS)
  {
    assert Prim("u") != Prim("v");
    assert Detailed(Replaced, FieldAt(BEFORE.fields, "l,1!"), FieldAt(AFTER.fields, "l,1!"), KEYS);
  }

  lemma DeltaDetailed()
    ensures Detailed(DELTA, Some(BEFORE), Some(AFTER), KEYS)
  {
    ItemsDetailed();
    OthersDetailed();
    assert BEFORE.fields["l,1!"] != AFTER.fields["l,1!"];
    assert DetailedFields(DELTA.fields.others, BEFORE.fields, AFTER.fields, KEYS);
  }

  // ----- its changes -----

  lemma MFlattened()
    ensures Flatten(M_DELTA, ["l", "0"], Some(["l", "1"]), Some(["l", "0"]), Some(M0), Some(M1)) == [INNER]
  {
    Names();
    var b, a := [Prim("p")], [Prim("q")];
    assert ["l", "0"] + ["k"] == ["l", "0", "k"] && ["l", "1"] + ["k"] == ["l", "1", "k"];
    assert ["l", "0", "k"] + ["0"] == ["l", "0", "k", "0"] && ["l", "1", "k"] + ["0"] == ["l", "1", "k", "0"];
    assert FlattenItems(LIST.items, 0, ["l", "0", "k"], Some(["l", "1", "k"]), Some(["l", "0", "k"]), b, a) == [INNER];
    assert FlattenFields(M_DELTA.fields.others, ["l", "0"], Some(["l", "1"]), Some(["l", "0"]), M0.fields, M1.fields)
      == [INNER];
  }

  lemma AFlattened()
    ensures Flatten(A_DELTA, ["l", "1"], Some(["l", "0"]), Some(["l", "1"]), Some(A0), Some(A1)) == [GONE]
  {
    assert ["l", "0"] + ["k"] == ["l", "0", "k"] && ["l", "1"] + ["k"] == ["l", "1", "k"];
    assert FlattenFields(A_DELTA.fields.others, ["l", "1"], Some(["l", "0"]), Some(["l", "1"]), A0.fields, A1.fields)
      == [GONE];
  }

  lemma ItemsFlattened()
    ensures FlattenItems(ITEMS, 0, ["l"], Some(["l"]), Some(["l"]), [A0, M0], [M1, A1])
         == [INNER, MOVED_M, GONE, MOVED_A]
  {
    Names();
    MFlattened();
    AFlattened();
    var b, a := [A0, M0], [M1, A1];
    assert ["l"] + ["0"] == ["l", "0"] && ["l"] + ["1"] == ["l", "1"];
    assert FlattenItem(M_TO_0, M_DELTA, 0, ["l"], Some(["l"]), Some(["l"]), b, a) == [INNER, MOVED_M];
    assert FlattenItem(A_TO_1, A_DELTA, 1, ["l"], Some(["l"]), Some(["l"]), b, a) == [GONE, MOVED_A];
    assert FlattenItems(ITEMS.others, 1, ["l"], Some(["l"]), Some(["l"]), b, a) == [GONE, MOVED_A];
  }

  lemma OthersFlattened()
    ensures FlattenFields(DELTA.fields.others.others, [], Some([]), Some([]), BEFORE.fields, AFTER.fields) == [OTHER1]
  {
    assert [] + ["l,1!"] == ["l,1!"];
  }

  lemma ListFlattened()
    ensures FlattenFields(DELTA.fields.others, [], Some([]), Some([]), BEFORE.fields, AFTER.fields)
         == [INNER, MOVED_M, GONE, MOVED_A, OTHER1]
  {
    ItemsFlattened();
    OthersFlattened();
    assert [] + ["l"] == ["l"];
    assert Flatten(Items(ITEMS), ["l"], Some(["l"]), Some(["l"]), Some(List([A0, M0])), Some(List([M1, A1])))
      == [INNER, MOVED_M, GONE, MOVED_A];
  }

  lemma FirstFlattened()
    ensures Flatten(Replaced, ["l,0!"], Some(["l,0!"]), Some(["l,0!"]), Some(Prim("u")), Some(Prim("v"))) == [OTHER0]
  {}

  lemma FieldsFlattened()
    ensures FlattenFields(DELTA.fields, [], Some([]), Some([]), BEFORE.fields, AFTER.fields) == CHANGES
  {
    FirstFlattened();
    ListFlattened();
    assert [] + ["l,0!"] == ["l,0!"];
    assert [OTHER0] + [INNER, MOVED_M, GONE, MOVED_A, OTHER1] == CHANGES;
  }

  lemma Flattened()
    ensures Flatten(DELTA, [], Some([]), Some([]), Some(BEFORE), Some(AFTER)) == CHANGES
  {
    FieldsFlattened();
  }

  // ----- everything is kept -----

  const S0: Path := ["l,0!"]
  const P0: Path := ["l", "0"]
  const Q0: Path := ["l", "0", "k", "0"]
  const S1: Path := ["l,1!"]
  const P1: Path := ["l", "1"]
  const Q1: Path := ["l", "1", "k"]

  lemma JoinedIds()
    ensures Joined(S0) == ",l,0!" && Joined(P0) == ",l,0" && Joined(Q0) == ",l,0,k,0"
    ensures Joined(S1) == ",l,1!" && Joined(P1) == ",l,1" && Joined(Q1) == ",l,1,k"
  {
    assert S0[1..] == [] && S1[1..] == [] && P0[1..] == ["0"] && P1[1..] == ["1"];
    assert Q0[1..] == ["0", "k", "0"] && Q1[1..] == ["1", "k"];
    assert ["0"][1..] == [] && ["1"][1..] == [] && ["k"][1..] == [];
    assert ["0", "k", "0"][1..] == ["k", "0"] && ["k", "0"][1..] == ["0"] && ["1", "k"][1..] == ["k"];
    assert Joined(["k"]) == ",k" && Joined(["0"]) == ",0";
    assert Joined(["k", "0"]) == ",k,0" && Joined(["1", "k"]) == ",1,k";
    assert Joined(["0", "k", "0"]) == ",0,k,0";
  }

  lemma IdsCompared()
    ensures IdLe(P0, P1) && IdLe(P1, S1) && IdLe(S0, Q0) && IdLe(Q0, P1)
    ensures !IdLe(Q1, P1) && !IdLe(Q1, S1) && !IdLe(Q0, P0) && !IdLe(S0, P0)
  {
    JoinedIds();
    assert ",l,0" == ",l," + "0" && ",l,1" == ",l," + "1" && ",l,0,k,0" == ",l," + "0,k,0";
    StringLeCommon(",l,", "0", "1");
    StringLeCommon(",l,", "0,k,0", "1");
    assert ",l,0!" == ",l,0" + "!" && ",l,1!" == ",l,1" + "!";
    assert ",l,0,k,0" == ",l,0" + ",k,0" && ",l,1,k" == ",l,1" + ",k";
    StringLeCommon(",l,0", "!", ",k,0");
    StringLeCommon(",l,1", ",k", "!");
    PrefixLe(",l,0", "!");
    PrefixLe(",l,0", ",k,0");
    PrefixLe(",l,1", "!");
    PrefixLe(",l,1", ",k");
  }

  const SORTED := [P0, S0, Q0, P1, S1, Q1]

  lemma LaterSorted()
    ensures SortBy(IdLe, [P0, Q1, P1, S1]) == [P0, P1, S1, Q1]
  {
    IdsCompared();
    assert [P0, Q1, P1, S1][1..] == [Q1, P1, S1] && [Q1, P1, S1][1..] == [P1, S1] && [P1, S1][1..] == [S1];
    assert SortBy(IdLe, [S1]) == [S1];
    assert SortBy(IdLe, [P1, S1]) == [P1, S1];
    assert InsertBy(IdLe, Q1, [S1]) == [S1, Q1];
    assert SortBy(IdLe, [Q1, P1, S1]) == [P1, S1, Q1];
  }

  lemma IdsSorted()
    ensures SortBy(IdLe, [S0, Q0, P0, Q1, P1, S1]) == SORTED
  {
    IdsCompared();
    LaterSorted();
    var ids, rest := [S0, Q0, P0, Q1, P1, S1], [P1, S1, Q1];
    assert ids[1..] == [Q0, P0, Q1, P1, S1] && ids[1..][1..] == [P0, Q1, P1, S1];
    assert [P0, P1, S1, Q1][1..] == rest && [P0, Q0, P1, S1, Q1][1..] == [Q0] + rest;
    assert InsertBy(IdLe, Q0, rest) == [Q0] + rest;
    assert SortBy(IdLe, ids[1..]) == [P0, Q0] + rest;
    assert InsertBy(IdLe, S0, [Q0] + rest) == [S0, Q0] + rest;
  }

  lemma AllIdsKept()
    ensures forall id :: id in SORTED ==> id in Kept(SORTED)
  {
    assert SORTED[1..] == [S0, Q0, P1, S1, Q1] && [S0, Q0, P1, S1, Q1][1..] == [Q0, P1, S1, Q1];
    assert [Q0, P1, S1, Q1][1..] == [P1, S1, Q1] && [P1, S1, Q1][1..] == [S1, Q1] && [S1, Q1][1..] == [Q1];
    assert [Q1][1..] == [] && KeptAfter(Q1, []) == {};
    assert S1[0] != Q1[0] && KeptAfter(S1, [Q1]) == {Q1};
    assert KeptAfter(P1, [S1, Q1]) == {S1, Q1};
    assert Q0[1] != P1[1] && KeptAfter(Q0, [P1, S1, Q1]) == {P1, S1, Q1};
    assert S0[0] != Q0[0] && KeptAfter(S0, [Q0, P1, S1, Q1]) == {Q0, P1, S1, Q1};
    assert KeptAfter(P0, [S0, Q0, P1, S1, Q1]) == {S0, Q0, P1, S1, Q1};
    assert KeptAfter(P0, SORTED) == {P0, S0, Q0, P1, S1, Q1};
  }

  lemma IdsOfChanges()
    ensures Ids(CHANGES) == [S0, Q0, P0, Q1, P1, S1]
  {}

  lemma AllIndependent()
    ensures GetIndependent([S0, Q0, P0, Q1, P1, S1]) == [S0, Q0, P0, Q1, P1, S1]
  {
    var ids := [S0, Q0, P0, Q1, P1, S1];
    IdsSorted();
    AllIdsKept();
    forall id | id in ids
      ensures id in Kept(SortBy(IdLe, ids))
    {
      assert id in SORTED;
    }
    FilterEverything((id: Path) => id in Kept(SortBy(IdLe, ids)), ids);
  }

  lemma NothingLeftOut()
    ensures GetIndependentChanges(CHANGES) == CHANGES
  {
    assert MOVED_M in CHANGES && IsOrderChange(MOVED_M);
    IdsOfChanges();
    AllIndependent();
    FilterEverything((c: DetailedChange) => c.id in GetIndependent(Ids(CHANGES)), CHANGES);
  }

  // ----- the inner list is removed before its turn comes -----

  lemma FilterThree<T>(keep: T -> bool, x: T, y: T, z: T)
    ensures Filter(keep, [x, y, z]) == Filter(keep, [x]) + Filter(keep, [y]) + Filter(keep, [z])
  {
    assert [x, y, z] == [x, y] + [z] && [x, y] == [x] + [y];
    FilterConcat(keep, [x, y], [z]);
    FilterConcat(keep, [x], [y]);
  }

  lemma FilterHalves<T>(keep: T -> bool, x: T, y: T, z: T, u: T, v: T, w: T)
    ensures Filter(keep, [x, y, z, u, v, w]) == Filter(keep, [x, y, z]) + Filter(keep, [u, v, w])
  {
    assert [x, y, z, u, v, w] == [x, y, z] + [u, v, w];
    FilterConcat(keep, [x, y, z], [u, v, w]);
  }

  lemma AllNamed()
    ensures IsPotentialListItem(INNER) && IsPotentialListItem(MOVED_M) && IsPotentialListItem(MOVED_A)
    ensures !IsPotentialListItem(OTHER0) && !IsPotentialListItem(GONE) && !IsPotentialListItem(OTHER1)
  {
    assert !IsDigit("k"[0]) && !IsDigit("l,0!"[0]) && !IsDigit("l,1!"[0]);
  }

  lemma SplitSix<T>(keep: T -> bool, x: T, y: T, z: T, u: T, v: T, w: T)
    requires !keep(x) && keep(y) && keep(z) && !keep(u) && keep(v) && !keep(w)
    ensures Filter(keep, [x, y, z, u, v, w]) == [y, z, v]
  {
    FilterOne(keep, x);
    FilterOne(keep, y);
    FilterOne(keep, z);
    FilterOne(keep, u);
    FilterOne(keep, v);
    FilterOne(keep, w);
    FilterThree(keep, x, y, z);
    FilterThree(keep, u, v, w);
    FilterHalves(keep, x, y, z, u, v, w);
  }

  lemma SplitOthers<T>(keep: T -> bool, x: T, y: T, z: T, u: T, v: T, w: T)
    requires keep(x) && !keep(y) && !keep(z) && keep(u) && !keep(v) && keep(w)
    ensures Filter(keep, [x, y, z, u, v, w]) == [x, u, w]
  {
    FilterOne(keep, x);
    FilterOne(keep, y);
    FilterOne(keep, z);
    FilterOne(keep, u);
    FilterOne(keep, v);
    FilterOne(keep, w);
    FilterThree(keep, x, y, z);
    FilterThree(keep, u, v, w);
    FilterHalves(keep, x, y, z, u, v, w);
  }

  lemma Split()
    ensures Filter(IsPotentialListItem, CHANGES) == [INNER, MOVED_M, MOVED_A]
    ensures Filter((c: DetailedChange) => !IsPotentialListItem(c), CHANGES) == [OTHER0, GONE, OTHER1]
  {
    AllNamed();
    SplitSix(IsPotentialListItem, OTHER0, INNER, MOVED_M, GONE, MOVED_A, OTHER1);
    SplitOthers((c: DetailedChange) => !IsPotentialListItem(c), OTHER0, INNER, MOVED_M, GONE, MOVED_A, OTHER1);
  }

  lemma TwoGroups(x: DetailedChange, y: DetailedChange, z: DetailedChange)
    requires Parent(x.id) != Parent(y.id) && Parent(y.id) == Parent(z.id)
    ensures GroupByParent([x, y, z]) == [[x], [y, z]]
  {
    var p, q := Parent(x.id), Parent(y.id);
    var isP, notP := (c: DetailedChange) => Parent(c.id) == p, (c: DetailedChange) => Parent(c.id) != p;
    FilterOne(isP, x);
    FilterOne(isP, y);
    FilterOne(isP, z);
    FilterThree(isP, x, y, z);
    FilterOne(notP, x);
    FilterOne(notP, y);
    FilterOne(notP, z);
    FilterThree(notP, x, y, z);
    assert GroupOf(p, [x, y, z]) == [x] && OutsideOf(p, [x, y, z]) == [y, z];
    FilterEverything((c: DetailedChange) => Parent(c.id) == q, [y, z]);
    FilterNone((c: DetailedChange) => Parent(c.id) != q, [y, z]);
    assert GroupByParent([]) == [] && GroupByParent([y, z]) == [[y, z]];
  }

  const MOVES := [MOVED_M, MOVED_A]

  lemma Grouped()
    ensures Groups(CHANGES) == [[INNER], MOVES]
  {
    NothingLeftOut();
    Split();
    assert Parent(INNER.id) == ["l", "0", "k"] && Parent(MOVED_M.id) == ["l"] == Parent(MOVED_A.id);
    TwoGroups(INNER, MOVED_M, MOVED_A);
  }

  /** The first item of the list in an object of this kind. */
  lemma GetInside(v: Value, item: Value, rest: seq<Value>)
    requires v.Obj? && "l" in v.fields && v.fields["l"] == List([item] + rest) && item.Obj?
    requires FieldAt(item.fields, "k") != Some(Hole)
    ensures Get(v, ["l"]) == Some(List([item] + rest))
    ensures Get(v, ["l", "0", "k"]) == FieldAt(item.fields, "k")
  {
    Names();
    IndexOfName(0);
    assert ["l"][1..] == [] && ["l", "0", "k"][1..] == ["0", "k"] && ["0", "k"][1..] == ["k"] && ["k"][1..] == [];
    assert Get(item, ["k"]) == FieldAt(item.fields, "k");
    assert Get(List([item] + rest), ["0", "k"]) == Get(item, ["k"]);
  }

  lemma BothReal()
    ensures IsRealList(BEFORE, [INNER]) && IsRealList(BEFORE, MOVES)
  {
    assert [A0] + [M0] == [A0, M0];
    GetInside(BEFORE, A0, [M0]);
    assert ListPath([INNER]) == ["l", "0", "k"] && ListPath(MOVES) == ["l"];
  }

  lemma PlanOf<T>(keep: T -> bool, drop: T -> bool, x: T, y: T)
    requires keep(x) && keep(y) && !drop(x) && !drop(y)
    ensures Filter(keep, [x, y]) == [x, y] && Filter(drop, [x, y]) == []
  {
    FilterEverything(keep, [x, y]);
    FilterNone(drop, [x, y]);
  }

  lemma SortedAlready<T>(le: (T, T) -> bool, x: T, y: T)
    requires le(x, y)
    ensures SortBy(le, [x, y]) == [x, y]
  {
    assert [x, y][1..] == [y] && [y][1..] == [];
    assert SortBy(le, [y]) == [y];
  }

  lemma Planned()
    ensures OneByOne(BEFORE, CHANGES) == [OTHER0, GONE, OTHER1] && ByList(BEFORE, CHANGES) == [[INNER], MOVES]
  {
    NothingLeftOut();
    Split();
    Grouped();
    BothReal();
    PlanOf((g: seq<DetailedChange>) => IsRealList(BEFORE, g), (g: seq<DetailedChange>) => !IsRealList(BEFORE, g),
           [INNER], MOVES);
    SortedAlready(DeeperFirst, [INNER], MOVES);
  }

  // ----- the first item has lost its inner list when its turn comes -----

  const SET0 := Obj(map["l" := List([A0, M0]), "l,0!" := Prim("v"), "l,1!" := Prim("u")])
  const UNSET := Obj(map["l" := List([A1, M0]), "l,0!" := Prim("v"), "l,1!" := Prim("u")])
  const BETWEEN := Obj(map["l" := List([A1, M0]), "l,0!" := Prim("v"), "l,1!" := Prim("v")])

  lemma OthersSet()
    ensures SetChange(BEFORE, OTHER0) == SET0 && SetChange(UNSET, OTHER1) == BETWEEN
  {
    assert ["l,0!"][1..] == [] && ["l,1!"][1..] == [];
    assert WithField(BEFORE.fields, "l,0!", Some(Prim("v"))) == SET0.fields;
    assert WithField(UNSET.fields, "l,1!", Some(Prim("v"))) == BETWEEN.fields;
  }

  lemma ListUnset()
    ensures SetChange(SET0, GONE) == UNSET
  {
    Names();
    IndexOfName(0);
    assert ["l", "0", "k"][1..] == ["0", "k"] && ["0", "k"][1..] == ["k"] && ["k"][1..] == [];
    assert WithField(A0.fields, "k", None) == A1.fields;
    assert Put(Some(A0), ["k"], None) == Some(A1);
    assert WithSlot([A0, M0], 0, Some(A1)) == [A1, M0];
    assert Put(Some(List([A0, M0])), ["0", "k"], None) == Some(List([A1, M0]));
    assert WithField(SET0.fields, "l", Some(List([A1, M0]))) == UNSET.fields;
  }

  lemma SetsDone()
    ensures SetChanges(BEFORE, [OTHER0, GONE, OTHER1]) == BETWEEN
  {
    var sets := [OTHER0, GONE, OTHER1];
    OthersSet();
    ListUnset();
    assert sets[..2] == [OTHER0, GONE] && [OTHER0, GONE][..1] == [OTHER0] && [OTHER0][..0] == [];
    assert SetChanges(BEFORE, [OTHER0]) == SET0;
    assert SetChanges(BEFORE, [OTHER0, GONE]) == UNSET;
  }

  lemma ListGone()
    ensures !ListsThere(BETWEEN, [[INNER], MOVES])
  {
    var groups := [[INNER], MOVES];
    assert [A1] + [M0] == [A1, M0];
    GetInside(BETWEEN, A1, [M0]);
    assert ListPath([INNER]) == ["l", "0", "k"] && !IsRealList(BETWEEN, [INNER]);
    assert groups[..1] == [[INNER]] && [[INNER]][..0] == [];
    assert !ListsThere(BETWEEN, [[INNER]]);
  }

  lemma NothingPastEnd()
    ensures NoStray(BEFORE, CHANGES)
  {
    Planned();
    forall c, m | c in [OTHER0, GONE, OTHER1] && m in CHANGES && m.id < c.id
      ensures c.data.Removal?
    {
      assert |m.id| > 0;
    }
  }

  lemma BothPlain()
    ensures Plain(BEFORE) && Plain(AFTER)
  {
    assert Plain(A0.fields["k"]) && Plain(M0.fields["k"]) && Plain(M1.fields["k"]);
    assert Plain(A0) && Plain(A1) && Plain(M0) && Plain(M1);
    assert Plain(List([A0, M0])) && Plain(List([M1, A1]));
  }

  /** The difference is what comparing the two objects item by item gives, and nothing is put
      past the end of a list, yet the changes do not apply. */
  lemma ApplyingThrows()
    ensures Describes(DELTA, Some(BEFORE), Some(AFTER)) && Detailed(DELTA, Some(BEFORE), Some(AFTER), KEYS)
    ensures CHANGES == Flatten(DELTA, [], Some([]), Some([]), Some(BEFORE), Some(AFTER))
    ensures NoStray(BEFORE, CHANGES) && !Applies(BEFORE, CHANGES) && Patched(BEFORE, CHANGES).None?
  {
    Described();
    DeltaDetailed();
    Flattened();
    Planned();
    SetsDone();
    ListGone();
    NothingPastEnd();
    BothPlain();
    assert IsDiff(CHANGES, [], Some([]), Some([]), Some(BEFORE), Some(AFTER));
    DiffThenPatchIff(BEFORE, AFTER, CHANGES);
  }
}
