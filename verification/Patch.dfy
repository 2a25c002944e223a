/** `applyDetailedChanges`: replaying the changes of a difference on an element. */
module Patch {
  import opened Wrappers
  import opened Sorting
  import opened Values
  import opened Changes
  import opened ListPatch
  import opened IndependentChanges
  import opened Progress
  import opened ListProgress

  // ----- one change, and the changes of one list -----

  function DataAfter(change: DetailedChange): Option<Value> {
    if change.data.Removal? then None else Some(change.data.after)
  }

  /** Nothing is set at the element itself. */
  function SetPath(v: Value, path: Path, data: Option<Value>): Value {
    if path == [] then v else Put(Some(v), path, data).value
  }

  function SetChange(v: Value, change: DetailedChange): Value {
    SetPath(v, GetChangeRealId(change), DataAfter(change))
  }

  function ListPath(changes: seq<DetailedChange>): Path
    requires changes != []
  {
    Parent(GetChangeRealId(changes[0]))
  }

  predicate IsRealList(v: Value, changes: seq<DetailedChange>) {
    changes != [] && var list := Get(v, ListPath(changes)); list.Some? && list.value.Array?
  }

  /** Without a list to update, applying the changes throws; the same is said here of changes
      whose ids name no index, which no difference has. */
  function ApplyListChanges(v: Value, changes: seq<DetailedChange>): Option<Value> {
    if IsRealList(v, changes) && AllListChanges(changes)
    then Some(SetPath(v, ListPath(changes),
                      Some(List(Updated(Get(v, ListPath(changes)).value.items, ListChangesOf(changes))))))
    else None
  }

  function SetChanges(v: Value, changes: seq<DetailedChange>): Value {
    if changes == [] then v else SetChange(SetChanges(v, changes[..|changes| - 1]), changes[|changes| - 1])
  }

  function ApplyGroups(v: Value, groups: seq<seq<DetailedChange>>): Option<Value> {
    if groups == [] then Some(v)
    else
      var prev := ApplyGroups(v, groups[..|groups| - 1]);
      if prev.None? then None else ApplyListChanges(prev.value, groups[|groups| - 1])
  }

  // ----- what is applied, and in which order -----

  predicate IsPotentialListItem(change: DetailedChange) {
    IsIndexPathPart(Name(change.id))
  }

  function GroupOf(parent: Path, changes: seq<DetailedChange>): seq<DetailedChange> {
    Filter((c: DetailedChange) => Parent(c.id) == parent, changes)
  }

  function OutsideOf(parent: Path, changes: seq<DetailedChange>): seq<DetailedChange> {
    Filter((c: DetailedChange) => Parent(c.id) != parent, changes)
  }

  /** Groups by parent id, in the order in which the parents come up. */
  function GroupByParent(changes: seq<DetailedChange>): seq<seq<DetailedChange>>
    decreases |changes|
  {
    if changes == [] then []
    else
      var parent := Parent(changes[0].id);
      FilterShorter((c: DetailedChange) => Parent(c.id) != parent, changes[1..]);
      [GroupOf(parent, changes)] + GroupByParent(OutsideOf(parent, changes))
  }

  function Concat(groups: seq<seq<DetailedChange>>): seq<DetailedChange> {
    if groups == [] then [] else groups[0] + Concat(groups[1..])
  }

  function Groups(changes: seq<DetailedChange>): seq<seq<DetailedChange>> {
    GroupByParent(Filter(IsPotentialListItem, GetIndependentChanges(changes)))
  }

  /** The changes that are set one by one: those with no index for a name, and those that look
      like item changes but are in an object. */
  function OneByOne(v: Value, changes: seq<DetailedChange>): seq<DetailedChange> {
    Filter((c: DetailedChange) => !IsPotentialListItem(c), GetIndependentChanges(changes))
      + Concat(Filter((g: seq<DetailedChange>) => !IsRealList(v, g), Groups(changes)))
  }

  predicate DeeperFirst(g: seq<DetailedChange>, h: seq<DetailedChange>) {
    (if h == [] then 0 else |h[0].id|) <= (if g == [] then 0 else |g[0].id|)
  }

  /** The groups of item changes, inner lists before outer ones. */
  function ByList(v: Value, changes: seq<DetailedChange>): seq<seq<DetailedChange>> {
    SortBy(DeeperFirst, Filter((g: seq<DetailedChange>) => IsRealList(v, g), Groups(changes)))
  }

  predicate IsWholeModification(changes: seq<DetailedChange>) {
    |changes| == 1 && changes[0].id == [] && changes[0].data.Modification?
  }

  function Patched(v: Value, changes: seq<DetailedChange>): Option<Value> {
    if IsWholeModification(changes) then Some(changes[0].data.after)
    else ApplyGroups(SetChanges(v, OneByOne(v, changes)), ByList(v, changes))
  }

  /** Whenever a group's turn comes, its list is there. */
  predicate ListsThere(v: Value, groups: seq<seq<DetailedChange>>) {
    groups == []
    || (ListsThere(v, groups[..|groups| - 1])
        && var prev := ApplyGroups(v, groups[..|groups| - 1]);
           prev.Some? && IsRealList(prev.value, groups[|groups| - 1]))
  }

  /** An element and the value changes are applied to. */
  class Element {
    var value: Value

    constructor (v: Value)
      ensures value == v
    {
      value := v;
    }

    method SetOneByOne(changes: seq<DetailedChange>)
      modifies this
      ensures value == SetChanges(old(value), changes)
    {
      for k := 0 to |changes|
        invariant value == SetChanges(old(value), changes[..k])
      {
        assert changes[..k + 1][..k] == changes[..k];
        value := SetChange(value, changes[k]);
      }
      assert changes[..|changes|] == changes;
    }

    method ApplyByList(groups: seq<seq<DetailedChange>>) returns (fits: bool)
      modifies this
      ensures fits <==> ApplyGroups(old(value), groups).Some?
      ensures fits ==> ApplyGroups(old(value), groups) == Some(value)
    {
      for k := 0 to |groups|
        invariant ApplyGroups(old(value), groups[..k]) == Some(value)
      {
        assert groups[..k + 1][..k] == groups[..k];
        var next := ApplyListChanges(value, groups[k]);
        if next.None? {
          ApplyGroupsStops(old(value), groups, k + 1);
          return false;
        }
        value := next.value;
      }
      assert groups[..|groups|] == groups;
      return true;
    }

    /** False, with the changes up to there applied, when there is no list for a group of item
        changes. */
    method ApplyDetailedChanges(detailedChanges: seq<DetailedChange>) returns (fits: bool)
      modifies this
      ensures fits <==> Patched(old(value), detailedChanges).Some?
      ensures fits ==> Patched(old(value), detailedChanges) == Some(value)
    {
      if IsWholeModification(detailedChanges) {
        value := detailedChanges[0].data.after;
        return true;
      }
      var oneByOne, byList := OneByOne(value, detailedChanges), ByList(value, detailedChanges);
      SetOneByOne(oneByOne);
      fits := ApplyByList(byList);
    }
  }

  /** Changes apply unless a group of item changes comes upon something that is no list. */
  predicate Applies(v: Value, changes: seq<DetailedChange>) {
    IsWholeModification(changes) || ListsThere(SetChanges(v, OneByOne(v, changes)), ByList(v, changes))
  }

  lemma {:induction false} StopsWithoutList(v: Value, groups: seq<seq<DetailedChange>>)
    requires forall g :: g in groups ==> AllListChanges(g)
    ensures ApplyGroups(v, groups).Some? <==> ListsThere(v, groups)
  {
    if groups != [] {
      var rest := groups[..|groups| - 1];
      assert forall g :: g in rest ==> g in groups;
      StopsWithoutList(v, rest);
      assert groups[|groups| - 1] in groups;
    }
  }

  lemma {:induction false} ApplyGroupsStops(v: Value, groups: seq<seq<DetailedChange>>, k: nat)
    requires k <= |groups| && ApplyGroups(v, groups[..k]).None?
    ensures ApplyGroups(v, groups).None?
    decreases |groups| - k
  {
    if k == |groups| {
      assert groups[..k] == groups;
    } else {
      assert groups[..k + 1][..k] == groups[..k];
      ApplyGroupsStops(v, groups, k + 1);
    }
  }

  // ----- the groups -----

  ghost predicate IsGroupOf(g: seq<DetailedChange>, changes: seq<DetailedChange>) {
    g != [] && g == GroupOf(Parent(g[0].id), changes)
  }

  lemma GroupOutside(parent: Path, changes: seq<DetailedChange>, g: seq<DetailedChange>)
    requires IsGroupOf(g, OutsideOf(parent, changes))
    ensures IsGroupOf(g, changes) && Parent(g[0].id) != parent
  {
    var outside: DetailedChange -> bool := (c: DetailedChange) => Parent(c.id) != parent;
    var own := Parent(g[0].id);
    FilterMembers((c: DetailedChange) => Parent(c.id) == own, OutsideOf(parent, changes));
    FilterMembers(outside, changes);
    assert g[0] in g;
    FilterTwice((c: DetailedChange) => Parent(c.id) == own, outside, changes);
  }

  /** Every group is all the changes of one parent, every change is in a group, and no two
      groups are the same. */
  lemma {:induction false} GroupsByParent(changes: seq<DetailedChange>)
    ensures forall g :: g in GroupByParent(changes) ==> IsGroupOf(g, changes)
    ensures forall c :: c in changes ==> GroupOf(Parent(c.id), changes) in GroupByParent(changes)
    ensures Distinct(GroupByParent(changes))
    decreases |changes|
  {
    if changes != [] {
      var parent := Parent(changes[0].id);
      var first, outside := GroupOf(parent, changes), OutsideOf(parent, changes);
      FilterShorter((c: DetailedChange) => Parent(c.id) != parent, changes[1..]);
      GroupsByParent(outside);
      assert IsGroupOf(first, changes);
      forall g | g in GroupByParent(outside)
        ensures IsGroupOf(g, changes) && g != first
      {
        GroupOutside(parent, changes, g);
      }
      forall c | c in changes
        ensures GroupOf(Parent(c.id), changes) in GroupByParent(changes)
      {
        ChangeInGroup(parent, changes, c);
      }
    }
  }

  lemma ChangeInGroup(parent: Path, changes: seq<DetailedChange>, c: DetailedChange)
    requires c in changes && changes != [] && parent == Parent(changes[0].id)
    requires forall c' :: c' in OutsideOf(parent, changes) ==>
      GroupOf(Parent(c'.id), OutsideOf(parent, changes)) in GroupByParent(OutsideOf(parent, changes))
    ensures GroupOf(Parent(c.id), changes) in GroupByParent(changes)
  {
    var outside: DetailedChange -> bool := (c: DetailedChange) => Parent(c.id) != parent;
    var own := Parent(c.id);
    FilterMembers(outside, changes);
    if own != parent {
      FilterTwice((c: DetailedChange) => Parent(c.id) == own, outside, changes);
    }
  }

  lemma {:induction false} ConcatMembers(groups: seq<seq<DetailedChange>>, c: DetailedChange)
    ensures c in Concat(groups) <==> exists g :: g in groups && c in g
  {
    if groups != [] {
      ConcatMembers(groups[1..], c);
      assert forall g :: g in groups <==> g == groups[0] || g in groups[1..];
    }
  }

  lemma GroupsOf(changes: seq<DetailedChange>, g: seq<DetailedChange>)
    requires g in Groups(changes)
    ensures g != [] && g[0].id != [] && g[0] in GetIndependentChanges(changes)
    ensures g == GroupOf(Parent(g[0].id), Filter(IsPotentialListItem, GetIndependentChanges(changes)))
  {
    var potential := Filter(IsPotentialListItem, GetIndependentChanges(changes));
    GroupsByParent(potential);
    var parent := Parent(g[0].id);
    FilterMembers((c: DetailedChange) => Parent(c.id) == parent, potential);
    FilterMembers(IsPotentialListItem, GetIndependentChanges(changes));
    assert g[0] in g;
  }

  lemma ByListMembers(v: Value, changes: seq<DetailedChange>)
    ensures forall g :: g in ByList(v, changes) <==> g in Groups(changes) && IsRealList(v, g)
  {
    var inPlace := (g: seq<DetailedChange>) => IsRealList(v, g);
    FilterMembers(inPlace, Groups(changes));
    SortByMembers(DeeperFirst, Filter(inPlace, Groups(changes)));
  }

  lemma OneByOneMembers(v: Value, changes: seq<DetailedChange>, c: DetailedChange)
    ensures c in OneByOne(v, changes) <==>
      || (c in GetIndependentChanges(changes) && !IsPotentialListItem(c))
      || (exists g :: g in Groups(changes) && !IsRealList(v, g) && c in g)
  {
    var unreal := (g: seq<DetailedChange>) => !IsRealList(v, g);
    FilterMembers((c: DetailedChange) => !IsPotentialListItem(c), GetIndependentChanges(changes));
    FilterMembers(unreal, Groups(changes));
    ConcatMembers(Filter(unreal, Groups(changes)), c);
  }

  /** No list is applied twice, and none after a list around it. */
  lemma InnerListsFirst(v: Value, changes: seq<DetailedChange>, i: nat, j: nat)
    requires i < j < |ByList(v, changes)|
    ensures var g, h := ByList(v, changes)[i], ByList(v, changes)[j];
            g != [] && h != [] && !(Parent(g[0].id) <= Parent(h[0].id))
  {
    var inPlace, groups := (g: seq<DetailedChange>) => IsRealList(v, g), ByList(v, changes);
    var g, h := groups[i], groups[j];
    ByListMembers(v, changes);
    assert g in groups && h in groups;
    GroupsOf(changes, g);
    GroupsOf(changes, h);
    assert TotalPreorder(DeeperFirst);
    SortBySorted(DeeperFirst, Filter(inPlace, Groups(changes)));
    assert DeeperFirst(g, h);
    GroupsByParent(Filter(IsPotentialListItem, GetIndependentChanges(changes)));
    FilterDistinct(inPlace, Groups(changes));
    SortByDistinct(DeeperFirst, Filter(inPlace, Groups(changes)));
    assert g != h;
    var p, q := Parent(g[0].id), Parent(h[0].id);
    assert p <= q ==> p == q;
  }
}
