/** Changes that come without the ids of a difference: each is set at its own id. */
module PathChanges {
  import opened Wrappers
  import opened Sorting
  import opened Values
  import opened Changes
  import opened IndependentChanges
  import opened Progress
  import opened Patch

  // ----- what setting does to what is found -----

  function GetIn(v: Option<Value>, path: Path): Option<Value> {
    if v.Some? then Get(v.value, path) else None
  }

  predicate Unrelated(p: Path, q: Path) {
    !(p <= q) && !(q <= p)
  }

  lemma ItemNameOf(part: string, part': string)
    requires IsItemName(part) && IsItemName(part') && IndexOf(part) == IndexOf(part')
    ensures part == part'
  {}

  lemma GetFirst(v: Value, path: Path)
    requires path != []
    ensures Get(v, path) == GetIn(Child(v, path[0]), path[1..])
  {}

  function SlotIn(v: Option<Value>, part: string): Option<Value> {
    if v.Some? then Slot(v.value, part) else None
  }

  function NoHole(v: Option<Value>): Option<Value> {
    if v == Some(Hole) then None else v
  }

  /** The child at the part is what was put there, and the other children are what they were. */
  lemma ChildPut(v: Option<Value>, path: Path, data: Option<Value>, part: string)
    requires path != [] && (data.Some? || IsContainerValue(v))
    ensures var r := Put(v, path, data);
            && r.Some?
            && (part == path[0] ==> Child(r.value, part) == NoHole(Put(SlotIn(v, path[0]), path[1..], data)))
            && (part != path[0] ==> Child(r.value, part) == NoHole(SlotIn(v, part)))
  {
    if IsItemName(part) && IsItemName(path[0]) && IndexOf(part) == IndexOf(path[0]) {
      ItemNameOf(part, path[0]);
    }
    var child := Put(SlotIn(v, path[0]), path[1..], data);
    assert part == path[0] ==> (Slot(Put(v, path, data).value, part) == child || NoHole(child).None?);
  }

  lemma {:induction false} PutThenGet(v: Option<Value>, path: Path, data: Option<Value>)
    requires path != [] && data != Some(Hole) && (v.Some? || data.Some?)
    ensures Put(v, path, data).Some? && Get(Put(v, path, data).value, path) == data
    decreases |path|
  {
    var r := Put(v, path, data);
    if data.Some? || IsContainerValue(v) {
      var child := Put(SlotIn(v, path[0]), path[1..], data);
      ChildPut(v, path, data, path[0]);
      GetFirst(r.value, path);
      if |path| > 1 && child.Some? {
        PutThenGet(SlotIn(v, path[0]), path[1..], data);
      }
    }
  }

  /** Paths that are neither above nor below keep what they lead to. */
  lemma {:induction false} PutElsewhere(v: Option<Value>, path: Path, data: Option<Value>, q: Path)
    requires Unrelated(path, q) && data != Some(Hole)
    ensures GetIn(Put(v, path, data), q) == GetIn(v, q)
    decreases |path|
  {
    if data.Some? || IsContainerValue(v) {
      ChildPut(v, path, data, q[0]);
      GetFirst(Put(v, path, data).value, q);
      if q[0] == path[0] {
        assert Unrelated(path[1..], q[1..]);
        PutElsewhere(SlotIn(v, path[0]), path[1..], data, q[1..]);
      }
    }
  }

  /** What is on the way is kept if it is an object or a list, and else made: a list for a part
      that names an item. */
  lemma {:induction false} PutMakes(v: Option<Value>, path: Path, data: Value, k: nat)
    requires k < |path| && !data.Hole?
    ensures var r := GetIn(Put(v, path, Some(data)), path[..k]);
            && IsContainerValue(r)
            && (r.value.Array? <==>
                  if IsContainerValue(GetIn(v, path[..k])) then GetIn(v, path[..k]).value.Array?
                  else IsItemName(path[k]))
    decreases |path|
  {
    if k > 0 {
      var child := SlotIn(v, path[0]);
      ChildPut(v, path, Some(data), path[0]);
      assert path[..k][0] == path[0] && path[..k][1..] == path[1..][..k - 1];
      GetFirst(Put(v, path, Some(data)).value, path[..k]);
      PutMakes(child, path[1..], data, k - 1);
    }
  }

  // ----- one change, and many -----

  /** The change does not say where it is in the value it is applied to. */
  predicate NoOwnPlace(c: DetailedChange) {
    if c.data.Removal? then c.beforeId.None? else c.afterId.None?
  }

  /** The change is no item change of a list that is there. */
  predicate NotInList(v: Value, c: DetailedChange) {
    IsIndexPathPart(Name(c.id)) ==>
      var parent := Get(v, Parent(c.id)); parent.None? || !parent.value.Array?
  }

  predicate SetsProperly(v: Value, c: DetailedChange) {
    c.id != [] && NoOwnPlace(c) && (c.data.Removal? || !c.data.after.Hole?) && NotInList(v, c)
  }

  /** At the id of the change is what it says. */
  predicate IsSet(v: Value, c: DetailedChange) {
    Get(v, c.id) == if c.data.Removal? then None else Some(c.data.after)
  }

  lemma SetAtOwnId(v: Value, c: DetailedChange, q: Path)
    requires c.id != [] && NoOwnPlace(c) && (c.data.Removal? || !c.data.after.Hole?)
    ensures IsSet(SetChange(v, c), c)
    ensures Unrelated(c.id, q) ==> Get(SetChange(v, c), q) == Get(v, q)
  {
    PutThenGet(Some(v), c.id, DataAfter(c));
    if Unrelated(c.id, q) {
      PutElsewhere(Some(v), c.id, DataAfter(c), q);
    }
  }

  ghost predicate AllApart(changes: seq<DetailedChange>) {
    forall x, y :: x in changes && y in changes ==> x == y || Unrelated(x.id, y.id)
  }

  ghost predicate UnrelatedToAll(changes: seq<DetailedChange>, q: Path) {
    forall x :: x in changes ==> Unrelated(x.id, q)
  }

  ghost predicate AllSetProperly(v: Value, changes: seq<DetailedChange>) {
    forall x :: x in changes ==> SetsProperly(v, x)
  }

  lemma {:induction false} SetAll(v: Value, start: Value, sets: seq<DetailedChange>)
    requires AllSetProperly(start, sets) && AllApart(sets)
    ensures forall c :: c in sets ==> IsSet(SetChanges(v, sets), c)
    ensures forall q :: UnrelatedToAll(sets, q) ==> Get(SetChanges(v, sets), q) == Get(v, q)
    decreases |sets|
  {
    if sets != [] {
      var rest, last := sets[..|sets| - 1], sets[|sets| - 1];
      assert sets == rest + [last];
      SetAll(v, start, rest);
      assert SetsProperly(start, last);
      forall c | c in sets
        ensures IsSet(SetChanges(v, sets), c)
      {
        SetAtOwnId(SetChanges(v, rest), last, c.id);
      }
      forall q | UnrelatedToAll(sets, q)
        ensures Get(SetChanges(v, sets), q) == Get(v, q)
      {
        SetAtOwnId(SetChanges(v, rest), last, q);
        assert UnrelatedToAll(rest, q);
      }
    }
  }

  lemma NothingMovedHere(v: Value, changes: seq<DetailedChange>)
    requires AllSetProperly(v, changes)
    ensures GetIndependentChanges(changes) == changes && !IsWholeModification(changes)
  {
    forall c | c in changes
      ensures !IsOrderChange(c)
    {
      assert SetsProperly(v, c);
    }
    assert |changes| == 1 ==> changes[0] in changes && SetsProperly(v, changes[0]);
  }

  lemma FirstIn<T>(s: seq<T>)
    ensures s == [] || s[0] in s
  {}

  /** All of them are set one by one. */
  lemma AllOneByOne(v: Value, changes: seq<DetailedChange>)
    requires AllSetProperly(v, changes)
    ensures ByList(v, changes) == []
    ensures forall c :: c in OneByOne(v, changes) <==> c in changes
  {
    NothingMovedHere(v, changes);
    ByListMembers(v, changes);
    forall g | g in Groups(changes)
      ensures !IsRealList(v, g)
    {
      GroupsOf(changes, g);
      InPotentialOf(changes, g, g[0]);
      assert SetsProperly(v, g[0]);
    }
    FirstIn(ByList(v, changes));
    forall c
      ensures c in OneByOne(v, changes) <==> c in changes
    {
      OneByOneMember(v, changes, c);
    }
  }

  lemma InPotentialOf(changes: seq<DetailedChange>, g: seq<DetailedChange>, c: DetailedChange)
    requires g in Groups(changes) && c in g
    ensures IsPotentialListItem(c) && c in GetIndependentChanges(changes)
  {
    var potential := Filter(IsPotentialListItem, GetIndependentChanges(changes));
    GroupsOf(changes, g);
    var parent := Parent(g[0].id);
    FilterMembers((c': DetailedChange) => Parent(c'.id) == parent, potential);
    FilterMembers(IsPotentialListItem, GetIndependentChanges(changes));
  }

  lemma OneByOneMember(v: Value, changes: seq<DetailedChange>, c: DetailedChange)
    requires GetIndependentChanges(changes) == changes && forall g :: g in Groups(changes) ==> !IsRealList(v, g)
    ensures c in OneByOne(v, changes) <==> c in changes
  {
    var potential := Filter(IsPotentialListItem, changes);
    OneByOneMembers(v, changes, c);
    GroupsByParent(potential);
    FilterMembers(IsPotentialListItem, changes);
    forall g: seq<DetailedChange> | g in Groups(changes) && c in g
      ensures c in changes
    {
      InPotentialOf(changes, g, c);
    }
    if c in changes && IsPotentialListItem(c) {
      var g := GroupOf(Parent(c.id), potential);
      FilterMembers((c': DetailedChange) => Parent(c'.id) == Parent(c.id), potential);
      assert g in Groups(changes) && c in g;
    }
  }

  /** Changes at ids of which none is above another, without places of their own, are each set at
      the id, whether or not anything is there, and everything else stays what it was. */
  lemma UnrelatedChangesSet(v: Value, changes: seq<DetailedChange>)
    requires AllSetProperly(v, changes) && AllApart(changes)
    ensures Patched(v, changes).Some?
    ensures forall c :: c in changes ==> IsSet(Patched(v, changes).value, c)
    ensures forall q :: UnrelatedToAll(changes, q) ==> Get(Patched(v, changes).value, q) == Get(v, q)
  {
    var sets := OneByOne(v, changes);
    NothingMovedHere(v, changes);
    AllOneByOne(v, changes);
    SetAll(v, v, sets);
    forall q | UnrelatedToAll(changes, q)
      ensures UnrelatedToAll(sets, q)
    {}
  }

  /** One such change alone. */
  lemma OneChangeSet(v: Value, c: DetailedChange)
    requires SetsProperly(v, c)
    ensures Patched(v, [c]).Some? && IsSet(Patched(v, [c]).value, c)
    ensures forall q :: Unrelated(c.id, q) ==> Get(Patched(v, [c]).value, q) == Get(v, q)
  {
    UnrelatedChangesSet(v, [c]);
    forall q | Unrelated(c.id, q)
      ensures UnrelatedToAll([c], q)
    {}
  }

  // ----- when one is above another -----

  lemma {:induction false} LastSetStays(v: Value, sets: seq<DetailedChange>, i: nat)
    requires i < |sets| && sets[i].id != [] && (forall c :: c in sets ==> NoOwnPlace(c) && c.id != [])
    requires forall c :: c in sets ==> c.data.Removal? || !c.data.after.Hole?
    requires forall j :: i < j < |sets| ==> Unrelated(sets[j].id, sets[i].id)
    ensures IsSet(SetChanges(v, sets), sets[i])
    decreases |sets|
  {
    var n := |sets| - 1;
    var rest, last := sets[..n], sets[n];
    assert last in sets && forall c :: c in rest ==> c in sets;
    SetAtOwnId(SetChanges(v, rest), last, sets[i].id);
    if i < n {
      LastSetStays(v, rest, i);
    }
  }

  /** Changes that do not look like item changes are set in the order they are given in, so of two
      at one id, or one above the other, the later one has its way. */
  lemma LaterChangeWins(v: Value, changes: seq<DetailedChange>, i: nat)
    requires AllSetProperly(v, changes) && i < |changes|
    requires forall c :: c in changes ==> !IsIndexPathPart(Name(c.id))
    requires forall j :: i < j < |changes| ==> Unrelated(changes[j].id, changes[i].id)
    ensures Patched(v, changes).Some? && IsSet(Patched(v, changes).value, changes[i])
  {
    NothingMovedHere(v, changes);
    InOrderGiven(v, changes);
    AllOneByOne(v, changes);
    forall c | c in changes
      ensures NoOwnPlace(c) && c.id != [] && (c.data.Removal? || !c.data.after.Hole?)
    {
      assert SetsProperly(v, c);
    }
    LastSetStays(v, changes, i);
  }

  lemma InOrderGiven(v: Value, changes: seq<DetailedChange>)
    requires GetIndependentChanges(changes) == changes
    requires forall c :: c in changes ==> !IsIndexPathPart(Name(c.id))
    ensures OneByOne(v, changes) == changes
  {
    FilterEverything((c: DetailedChange) => !IsPotentialListItem(c), changes);
    FilterNone(IsPotentialListItem, changes);
    assert Groups(changes) == [];
    assert changes + [] == changes;
  }

  /** A change at the element itself replaces it if it is a modification, and else does nothing. */
  lemma OneChangeOfWhole(v: Value, c: DetailedChange)
    requires c.id == [] && NoOwnPlace(c)
    ensures Patched(v, [c]) == Some(if c.data.Modification? then c.data.after else v)
  {
    if !c.data.Modification? {
      assert NoOrderChange([c]);
      FilterOne(IsPotentialListItem, c);
      FilterOne((c': DetailedChange) => !IsPotentialListItem(c'), c);
      assert Groups([c]) == [];
      assert OneByOne(v, [c]) == [c];
      assert [c][..0] == [];
      assert SetChanges(v, []) == v;
    }
  }

  /** Only a change that moves an item from one index to another makes the others be filtered. */
  lemma AllKeptUnlessMoved(changes: seq<DetailedChange>)
    requires forall c :: c in changes ==>
      || c.beforeId.None? || c.afterId.None? || Name(c.beforeId.value) == Name(c.afterId.value)
      || !IsNumber(Name(c.id)) || !IsNumber(Name(c.beforeId.value)) || !IsNumber(Name(c.afterId.value))
    ensures GetIndependentChanges(changes) == changes
  {
    forall c | c in changes
      ensures !IsOrderChange(c)
    {
      if IsOrderChange(c) {
        assert IsNumber(Name(c.id)) && IsNumber(NameOf(c.beforeId)) && IsNumber(NameOf(c.afterId));
      }
    }
  }

  predicate IsNumber(part: string) {
    |part| > 0 && forall i :: 0 <= i < |part| ==> '0' <= part[i] <= '9'
  }
}
