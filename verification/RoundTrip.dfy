/** Exactly when diff then patch is the identity, and patch then undo. */
module RoundTrip {
  import opened Wrappers
  import opened Sorting
  import opened Values
  import opened Changes
  import opened IndexMapping
  import opened IndependentIds
  import opened IndependentChanges
  import opened Diff
  import opened Spots
  import opened Progress
  import opened ListPatch
  import opened ListProgress
  import opened Patch
  import opened Strays
  import opened Replay

  // ----- what is reported, and what is kept of it -----

  /** `d` does not look into moved items; the changes are its own and what is reported inside
      its moved items. */
  ghost predicate Reports(d: Delta, b: Value, a: Value, changes: seq<DetailedChange>) {
    && Ready(d, b, a) && OutermostChanges(changes) == All(d, b, a) && Distinct(changes) && AllSound(changes)
    && (forall m, c :: m in All(d, b, a) && c in changes && m.id < c.id ==> InsideMoved(c, m))
  }

  lemma DiffReports(d: Delta, b: Value, a: Value, changes: seq<DetailedChange>)
    requires b.Obj? && a.Obj? && Plain(b) && Plain(a)
    requires d.Fields? && Describes(d, Some(b), Some(a)) && changes == All(d, b, a)
    ensures Reports(Collapse(d), b, a, changes)
  {
    CollapseDescribes(d, Some(b), Some(a));
    CollapsedShape(d);
    OutermostIsCollapse(d, [], Some([]), Some([]), Some(b), Some(a));
    ChangesDistinct(d, [], Some([]), Some([]), Some(b), Some(a));
    FlattenSound(d, [], Some([]), Some([]), Some(b), Some(a));
    forall m, c | m in All(Collapse(d), b, a) && c in changes && m.id < c.id
      ensures InsideMoved(c, m)
    {
      BelowIsInsideMoved(d, [], Some([]), Some([]), Some(b), Some(a), m, c);
    }
  }

  /** What the difference says is kept, and nothing that is not reported. */
  lemma OwnAreKept(d: Delta, b: Value, a: Value, changes: seq<DetailedChange>, c: DetailedChange)
    requires Reports(d, b, a, changes)
    ensures c in All(d, b, a) <==> c in changes && Outermost(c, changes)
    ensures c in All(d, b, a) ==> c in GetIndependentChanges(changes)
    ensures c in GetIndependentChanges(changes) ==> c in changes
  {
    OutermostAreKept(changes, c);
    FilterMembers((c': DetailedChange) => Outermost(c', changes), changes);
  }

  /** A change in a list of the difference is that of an item with a change of its own. */
  lemma ItemOfChange(d: Delta, b: Value, a: Value, m: DetailedChange) returns (k: nat)
    requires Ready(d, b, a) && m in All(d, b, a) && InList(d, b, a, Parent(m.id))
    ensures var s := SpotOf(d, b, a, Parent(m.id)).value;
            && DescribesItems(s.delta.items, ItemsOf(s.before), ItemsOf(s.after)) && SettledItems(s.delta.items)
            && IsItemChange(m, s.delta.items, 0, Parent(m.id), s.place, ItemsOf(s.before), ItemsOf(s.after), k)
            && Exact(MappingOf(s.delta.items), |ItemsOf(s.before)|, |ItemsOf(s.after)|)
    ensures m.id == Parent(m.id) + [IndexName(k)]
  {
    ChangeInContainer(d, b, a, m);
    ListChangeOf(d, b, a, m);
    var x := Parent(m.id);
    var s := SpotOf(d, b, a, x).value;
    k :| IsItemChange(m, s.delta.items, 0, x, s.place, ItemsOf(s.before), ItemsOf(s.after), k);
  }

  /** The change of a moved item names the two indexes in its list, and no item stays at either. */
  lemma MovedItem(d: Delta, b: Value, a: Value, m: DetailedChange) returns (i: nat, j: nat)
    requires Ready(d, b, a) && m in All(d, b, a)
    requires m.beforeId.Some? && m.afterId.Some? && NameOf(m.beforeId) != NameOf(m.afterId)
    ensures InList(d, b, a, Parent(m.id))
    ensures var s := SpotOf(d, b, a, Parent(m.id)).value;
            && m.beforeId.value == s.place + [IndexName(i)] && m.afterId.value == s.place + [IndexName(j)]
            && Clear(s.delta.items, i, false) && Clear(s.delta.items, j, false)
            && (PastEnd(b, m) <==> j >= |ItemsOf(s.before)|)
  {
    var x := Parent(m.id);
    ChangeInContainer(d, b, a, m);
    if InObject(d, b, a, x) {
      ObjectChange(d, b, a, m);
    }
    var k := ItemOfChange(d, b, a, m);
    var s := SpotOf(d, b, a, x).value;
    var item := MappingOf(s.delta.items)[k];
    i, j := item.beforeIndex.value, item.afterIndex.value;
    ClearOfDirect(s.delta.items, ItemsOf(s.before), ItemsOf(s.after), k, i);
    ClearOfDirect(s.delta.items, ItemsOf(s.before), ItemsOf(s.after), k, j);
    PlaceLeadsTo(d, b, a, x);
    IndexOfName(j);
    assert Parent(m.afterId.value) == s.place;
  }

  lemma BelowPlace(place: Path, part: string, path: Path)
    requires place + [part] < path
    ensures var q := path[|place + [part]|..]; q != [] && path == place + [part] + q
  {}

  /** What is reported below a change of the difference is put into a moved item of a list. */
  lemma StrayIntoMoved(d: Delta, b: Value, a: Value, changes: seq<DetailedChange>, c: DetailedChange, m: DetailedChange)
    returns (i: nat, q: Path)
    requires Reports(d, b, a, changes) && c in changes && m in All(d, b, a) && m.id < c.id
    ensures m.id != [] && InList(d, b, a, Parent(m.id)) && q != []
    ensures IntoMoved(d, b, a, Parent(m.id), i, q, GetChangeRealId(c))
    ensures Grows(d, b, a, Parent(m.id), i, DataAfter(c)) <==> !c.data.Removal? && PastEnd(b, m)
  {
    ChangeInContainer(d, b, a, m);
    assert InsideMoved(c, m);
    var bi, ai := MovedItem(d, b, a, m);
    var from := if c.data.Removal? then m.beforeId.value else m.afterId.value;
    i := if c.data.Removal? then bi else ai;
    q := GetChangeRealId(c)[|from|..];
    BelowPlace(SpotOf(d, b, a, Parent(m.id)).value.place, IndexName(i), GetChangeRealId(c));
  }

  lemma OneAbove(changes: seq<DetailedChange>, c: DetailedChange, m: DetailedChange, m': DetailedChange)
    requires m in changes && Outermost(m, changes) && m.id < c.id
    requires m' in changes && Outermost(m', changes) && m'.id < c.id
    ensures m.id == m'.id
  {
    assert m.id == c.id[..|m.id|] && m'.id == c.id[..|m'.id|];
    assert |m.id| < |m'.id| ==> m.id < m'.id;
    assert |m'.id| < |m.id| ==> m'.id < m.id;
  }

  lemma SamePrefix(p: Path, p': Path, q: Path)
    requires p <= q && p' <= q && |p| == |p'|
    ensures p == p'
  {}

  lemma PutsPastEndOf(d: Delta, b: Value, a: Value, changes: seq<DetailedChange>, c: DetailedChange, m: DetailedChange)
    requires Reports(d, b, a, changes) && c in changes && m in All(d, b, a) && m.id < c.id
    ensures PutsPastEnd(b, changes, c) <==> !c.data.Removal? && PastEnd(b, m)
  {
    OwnAreKept(d, b, a, changes, m);
    forall m' | m' in changes && Outermost(m', changes) && m'.id < c.id && !c.data.Removal?
      ensures m'.afterId == m.afterId
    {
      OwnAreKept(d, b, a, changes, m');
      OneAbove(changes, c, m, m');
      assert InsideMoved(c, m) && InsideMoved(c, m');
      SamePrefix(m.afterId.value, m'.afterId.value, GetChangeRealId(c));
    }
  }

  lemma NoSpotBelow(d: Delta, b: Value, a: Value, m: DetailedChange, y: Path)
    requires Ready(d, b, a) && m in All(d, b, a) && InList(d, b, a, Parent(m.id)) && m.id <= y
    ensures SpotOf(d, b, a, y).None?
  {
    var k := ItemOfChange(d, b, a, m);
    var x, rest := Parent(m.id), [IndexName(k)] + y[|m.id|..];
    var s := SpotOf(d, b, a, x).value;
    assert y == x + rest;
    FindThen(d, Some(b), Some(a), x, rest);
    DirectHasNoSpot(s.delta.items, 0, ItemsOf(s.before), ItemsOf(s.after), k, y[|m.id|..]);
  }

  /** What is reported in an object or list of the difference is the difference's own. */
  lemma OwnInContainer(d: Delta, b: Value, a: Value, changes: seq<DetailedChange>, c: DetailedChange)
    requires Reports(d, b, a, changes) && c in changes && SpotOf(d, b, a, Parent(c.id)).Some?
    ensures c in All(d, b, a)
  {
    OwnAreKept(d, b, a, changes, c);
    if !Outermost(c, changes) {
      var m := OutermostAbove(changes, c);
      OwnAreKept(d, b, a, changes, m);
      var i, q := StrayIntoMoved(d, b, a, changes, c, m);
      NoSpotBelow(d, b, a, m, Parent(c.id));
    }
  }

  // ----- the groups -----

  function Potential(changes: seq<DetailedChange>): seq<DetailedChange> {
    Filter(IsPotentialListItem, GetIndependentChanges(changes))
  }

  /** A group with a change of the difference has all of them that have its parent, and no others. */
  lemma InGroup(d: Delta, b: Value, a: Value, changes: seq<DetailedChange>, g: seq<DetailedChange>, c: DetailedChange)
    requires Reports(d, b, a, changes) && IsGroupOf(g, Potential(changes)) && g[0] in All(d, b, a)
    ensures c in g <==> c in All(d, b, a) && IsPotentialListItem(c) && Parent(c.id) == Parent(g[0].id)
  {
    var parent := Parent(g[0].id);
    FilterMembers(IsPotentialListItem, GetIndependentChanges(changes));
    FilterMembers((c: DetailedChange) => Parent(c.id) == parent, Potential(changes));
    OwnAreKept(d, b, a, changes, c);
    ChangeInContainer(d, b, a, g[0]);
    if c in changes && Parent(c.id) == parent {
      OwnInContainer(d, b, a, changes, c);
    }
  }

  /** Such a group is a list's in the value exactly if its parent is a list in the difference. */
  lemma RealListGroup(d: Delta, b: Value, a: Value, changes: seq<DetailedChange>, g: seq<DetailedChange>)
    requires Reports(d, b, a, changes) && IsGroupOf(g, Potential(changes)) && g[0] in All(d, b, a)
    ensures IsRealList(b, g) <==> InList(d, b, a, Parent(g[0].id))
    ensures !IsRealList(b, g) ==> InObject(d, b, a, Parent(g[0].id))
  {
    var c := g[0];
    ChangeInContainer(d, b, a, c);
    PlaceLeadsTo(d, b, a, Parent(c.id));
    if InList(d, b, a, Parent(c.id)) {
      ListChangeOf(d, b, a, c);
    } else {
      ObjectChange(d, b, a, c);
    }
  }

  lemma SpotChangeIsChange(d: Delta, b: Value, a: Value, x: Path, c: DetailedChange)
    requires Ready(d, b, a) && SpotOf(d, b, a, x).Some?
    requires var s := SpotOf(d, b, a, x).value; c in ChangesAt(s.delta, x, s.place, s.before, s.after)
    ensures c in All(d, b, a)
  {
    var s := SpotOf(d, b, a, x).value;
    ChangesAtSpot(d, [], [], Some(b), Some(a), x);
    assert [] + x == x && [] + s.place == s.place;
  }

  lemma ItemChangeNamed(items: ItemDeltas, id: Path, p: Path, before: seq<Value>, after: seq<Value>, c: DetailedChange)
    requires DescribesItems(items, before, after) && SettledItems(items)
    requires OfSomeItem(c, items, 0, id, p, before, after)
    ensures c in FlattenItems(items, 0, id, Some(p), Some(p), before, after)
    ensures IsPotentialListItem(c) && Parent(c.id) == id
  {
    var k :| IsItemChange(c, items, 0, id, p, before, after, k);
    ItemChangeReported(items, 0, id, p, before, after, k);
    assert Name(c.id) == IndexName(k) && Parent(c.id) == id;
  }

  lemma ItemChangeInGroup(d: Delta, b: Value, a: Value, changes: seq<DetailedChange>, g: seq<DetailedChange>,
                          c: DetailedChange)
    requires Reports(d, b, a, changes) && IsGroupOf(g, Potential(changes)) && g[0] in All(d, b, a)
    requires InList(d, b, a, Parent(g[0].id))
    requires var x := Parent(g[0].id);
             var s := SpotOf(d, b, a, x).value;
             OfSomeItem(c, s.delta.items, 0, x, s.place, ItemsOf(s.before), ItemsOf(s.after))
    ensures c in g
  {
    var x := Parent(g[0].id);
    var s := SpotOf(d, b, a, x).value;
    SpotDescribes(d, Some(b), Some(a), x);
    ItemChangeNamed(s.delta.items, x, s.place, ItemsOf(s.before), ItemsOf(s.after), c);
    SpotChangeIsChange(d, b, a, x, c);
    InGroup(d, b, a, changes, g, c);
  }

  lemma KeptDistinct(changes: seq<DetailedChange>)
    requires Distinct(changes)
    ensures Distinct(GetIndependentChanges(changes))
  {
    var relevantIds := GetIndependent(Ids(changes));
    FilterDistinct((c: DetailedChange) => c.id in relevantIds, changes);
  }

  lemma GroupIsListOp(d: Delta, b: Value, a: Value, changes: seq<DetailedChange>, g: seq<DetailedChange>)
    requires Reports(d, b, a, changes) && IsGroupOf(g, Potential(changes)) && g[0] in All(d, b, a)
    requires IsRealList(b, g)
    ensures IsListOp(d, b, a, g)
  {
    RealListGroup(d, b, a, changes, g);
    var x := Parent(g[0].id);
    var s := SpotOf(d, b, a, x).value;
    KeptDistinct(changes);
    FilterDistinct(IsPotentialListItem, GetIndependentChanges(changes));
    FilterDistinct((c: DetailedChange) => Parent(c.id) == x, Potential(changes));
    forall c
      ensures c in g <==> OfSomeItem(c, s.delta.items, 0, x, s.place, ItemsOf(s.before), ItemsOf(s.after))
    {
      InGroup(d, b, a, changes, g, c);
      if c in g {
        ListChangeOf(d, b, a, c);
      }
      if OfSomeItem(c, s.delta.items, 0, x, s.place, ItemsOf(s.before), ItemsOf(s.after)) {
        ItemChangeInGroup(d, b, a, changes, g, c);
      }
    }
  }

  lemma InPotential(changes: seq<DetailedChange>, g: seq<DetailedChange>, c: DetailedChange)
    requires g in Groups(changes) && c in g
    ensures IsPotentialListItem(c) && c in GetIndependentChanges(changes)
    ensures g != [] && g[0] in GetIndependentChanges(changes) && Parent(c.id) == Parent(g[0].id)
    ensures IsGroupOf(g, Potential(changes))
  {
    GroupsOf(changes, g);
    var parent := Parent(g[0].id);
    FilterMembers((c': DetailedChange) => Parent(c'.id) == parent, Potential(changes));
    FilterMembers(IsPotentialListItem, GetIndependentChanges(changes));
  }

  // ----- the order of application is sound -----

  /** What is set one by one are changes at keys of objects, and what strays into moved items. */
  lemma OneByOneSound(d: Delta, b: Value, a: Value, changes: seq<DetailedChange>, c: DetailedChange)
    requires Reports(d, b, a, changes) && c in OneByOne(b, changes)
    ensures c in GetIndependentChanges(changes) && c in changes
    ensures c in All(d, b, a) ==> IsSetOp(d, b, a, c)
  {
    OneByOneMembers(b, changes, c);
    if !(c in GetIndependentChanges(changes) && !IsPotentialListItem(c)) {
      var g: seq<DetailedChange> :| g in Groups(changes) && !IsRealList(b, g) && c in g;
      InPotential(changes, g, c);
      if c in All(d, b, a) {
        ChangeInContainer(d, b, a, c);
        OwnAreKept(d, b, a, changes, g[0]);
        OwnInContainer(d, b, a, changes, g[0]);
        RealListGroup(d, b, a, changes, g);
        ObjectChange(d, b, a, c);
      }
    } else if c in All(d, b, a) {
      ChangeInContainer(d, b, a, c);
      if InList(d, b, a, Parent(c.id)) {
        ListChangeOf(d, b, a, c);
      }
      ObjectChange(d, b, a, c);
    }
    OwnAreKept(d, b, a, changes, c);
  }

  ghost predicate NotAround(g: seq<DetailedChange>, h: seq<DetailedChange>) {
    g != [] && h != [] && !(Parent(g[0].id) <= Parent(h[0].id))
  }

  ghost predicate InnerFirst(groups: seq<seq<DetailedChange>>) {
    forall i, j :: 0 <= i < j < |groups| ==> NotAround(groups[i], groups[j])
  }

  /** What is applied by list are all the item changes of a list each, and what strays into
      moved items; no list is applied twice, and none after one around it. */
  lemma ByListSound(d: Delta, b: Value, a: Value, changes: seq<DetailedChange>)
    requires Reports(d, b, a, changes)
    ensures forall g :: g in ByList(b, changes) ==>
      && g != [] && g[0] in GetIndependentChanges(changes) && g[0] in changes
      && (g[0] in All(d, b, a) ==> IsListOp(d, b, a, g))
    ensures InnerFirst(ByList(b, changes))
  {
    ByListMembers(b, changes);
    forall g | g in ByList(b, changes)
      ensures g != [] && g[0] in GetIndependentChanges(changes) && g[0] in changes
      ensures g[0] in All(d, b, a) ==> IsListOp(d, b, a, g)
    {
      GroupsOf(changes, g);
      OwnAreKept(d, b, a, changes, g[0]);
      if g[0] in All(d, b, a) {
        GroupIsListOp(d, b, a, changes, g);
      }
    }
    forall i, j | 0 <= i < j < |ByList(b, changes)|
      ensures NotAround(ByList(b, changes)[i], ByList(b, changes)[j])
    {
      InnerListsFirst(b, changes, i, j);
    }
  }

  // ----- all the steps -----

  ghost predicate NothingListed(done: set<Mark>) {
    forall m :: m in done ==> !m.Listed?
  }

  /** Only lists with item changes got more items than they had. */
  ghost predicate OverfullHaveChanges(d: Delta, b: Value, a: Value, done: set<Mark>) {
    forall y :: y in done && y.Overfull? ==> HasItemChange(d, b, a, y.id)
  }

  ghost predicate HasItemChange(d: Delta, b: Value, a: Value, x: Path) {
    InList(d, b, a, x) && exists m :: m in All(d, b, a) && Parent(m.id) == x
  }

  lemma StraySet(d: Delta, b: Value, a: Value, changes: seq<DetailedChange>, c: DetailedChange, m: DetailedChange,
                 done: set<Mark>, v: Value)
    requires Reports(d, b, a, changes) && c in changes && m in All(d, b, a) && m.id < c.id
    requires Now(d, b, a, done, v) && NothingListed(done)
    ensures HasItemChange(d, b, a, Parent(m.id))
    ensures var done' := if PutsPastEnd(b, changes, c) then done + {Overfull(Parent(m.id))} else done;
            Now(d, b, a, done', SetChange(v, c))
  {
    var i, q := StrayIntoMoved(d, b, a, changes, c, m);
    PutsPastEndOf(d, b, a, changes, c, m);
    assert Sound(c);
    PutIntoMoved(d, b, a, Parent(m.id), i, q, GetChangeRealId(c), DataAfter(c), done, v);
  }

  lemma MarkMore(d: Delta, b: Value, a: Value, done: set<Mark>, u: Mark)
    requires NothingListed(done) && OverfullHaveChanges(d, b, a, done)
    requires !u.Listed? && (u.Overfull? ==> HasItemChange(d, b, a, u.id))
    ensures NothingListed(done + {u}) && OverfullHaveChanges(d, b, a, done + {u})
    ensures NothingOverfull(done + {u}) <==> NothingOverfull(done) && !u.Overfull?
  {
    assert u in done + {u};
  }

  /** One change set, be it the difference's own or a stray one. */
  lemma OneSet(d: Delta, b: Value, a: Value, changes: seq<DetailedChange>, c: DetailedChange, done: set<Mark>, v: Value)
    returns (done': set<Mark>)
    requires Reports(d, b, a, changes) && c in changes && (c in All(d, b, a) ==> IsSetOp(d, b, a, c))
    requires Now(d, b, a, done, v) && NothingListed(done) && OverfullHaveChanges(d, b, a, done)
    ensures Now(d, b, a, done', SetChange(v, c))
    ensures done <= done' && NothingListed(done') && OverfullHaveChanges(d, b, a, done')
    ensures c in All(d, b, a) ==> Set(c.id) in done'
    ensures NothingOverfull(done') <==> NothingOverfull(done) && !PutsPastEnd(b, changes, c)
  {
    OwnAreKept(d, b, a, changes, c);
    if c in All(d, b, a) {
      SetStep(d, b, a, c, done, v);
      MarkMore(d, b, a, done, Set(c.id));
      done' := done + {Set(c.id)};
      assert !PutsPastEnd(b, changes, c);
    } else {
      var m := OutermostAbove(changes, c);
      OwnAreKept(d, b, a, changes, m);
      StraySet(d, b, a, changes, c, m, done, v);
      MarkMore(d, b, a, done, Overfull(Parent(m.id)));
      done' := if PutsPastEnd(b, changes, c) then done + {Overfull(Parent(m.id))} else done;
    }
  }

  lemma {:induction false} SetSteps(d: Delta, b: Value, a: Value, changes: seq<DetailedChange>,
                                    sets: seq<DetailedChange>)
    returns (done: set<Mark>)
    requires Reports(d, b, a, changes)
    requires forall c :: c in sets ==> c in changes && (c in All(d, b, a) ==> IsSetOp(d, b, a, c))
    ensures Now(d, b, a, done, SetChanges(b, sets))
    ensures NothingListed(done) && OverfullHaveChanges(d, b, a, done)
    ensures forall c :: c in sets && c in All(d, b, a) ==> Set(c.id) in done
    ensures NothingOverfull(done) <==> forall c :: c in sets ==> !PutsPastEnd(b, changes, c)
  {
    if sets == [] {
      StartReached(d, [], Some(b), Some(a));
      done := {};
    } else {
      var rest, last := sets[..|sets| - 1], sets[|sets| - 1];
      assert sets == rest + [last];
      done := SetSteps(d, b, a, changes, rest);
      done := OneSet(d, b, a, changes, last, done, SetChanges(b, rest));
    }
  }

  /** The lists among the groups that the difference knows of. */
  ghost function ListedOf(d: Delta, b: Value, a: Value, groups: seq<seq<DetailedChange>>): set<Mark> {
    set g: seq<DetailedChange> | g in groups && g != [] && g[0] in All(d, b, a) :: Listed(Parent(g[0].id))
  }

  /** When a group's turn comes, no list around it or at it has been applied. */
  lemma NotYetListed(d: Delta, b: Value, a: Value, groups: seq<seq<DetailedChange>>, done: set<Mark>, x: Path)
    requires InnerFirst(groups) && groups != [] && NothingListed(done)
    requires groups[|groups| - 1] != [] && x <= Parent(groups[|groups| - 1][0].id)
    ensures var done' := done + ListedOf(d, b, a, groups[..|groups| - 1]);
            Listed(x) !in done' && Unbroken(done', [], x)
  {
    var rest, last := groups[..|groups| - 1], groups[|groups| - 1];
    forall y | Listed(y) in done + ListedOf(d, b, a, rest)
      ensures !(y <= x)
    {
      var g: seq<DetailedChange> :| g in rest && g != [] && g[0] in All(d, b, a) && y == Parent(g[0].id);
      var i :| 0 <= i < |rest| && rest[i] == g;
      assert NotAround(groups[i], last);
    }
  }

  lemma ListedOfLast(d: Delta, b: Value, a: Value, groups: seq<seq<DetailedChange>>)
    requires groups != [] && groups[|groups| - 1] != []
    ensures var rest, g := ListedOf(d, b, a, groups[..|groups| - 1]), groups[|groups| - 1];
            ListedOf(d, b, a, groups) == if g[0] in All(d, b, a) then rest + {Listed(Parent(g[0].id))} else rest
  {
    assert groups == groups[..|groups| - 1] + [groups[|groups| - 1]];
  }

  lemma OwnGroup(d: Delta, b: Value, a: Value, groups: seq<seq<DetailedChange>>, done: set<Mark>, v: Value)
    requires Ready(d, b, a) && InnerFirst(groups) && groups != [] && NothingListed(done)
    requires var g := groups[|groups| - 1]; IsListOp(d, b, a, g) && g[0] in All(d, b, a)
    requires Now(d, b, a, done + ListedOf(d, b, a, groups[..|groups| - 1]), v)
    ensures var r := ApplyListChanges(v, groups[|groups| - 1]);
            r.Some? && Now(d, b, a, done + ListedOf(d, b, a, groups), r.value)
  {
    var rest, g := groups[..|groups| - 1], groups[|groups| - 1];
    var x, done' := Parent(g[0].id), done + ListedOf(d, b, a, rest);
    NotYetListed(d, b, a, groups, done, x);
    ListStep(d, b, a, g, done', v);
    ListedOfLast(d, b, a, groups);
    assert done' + {Listed(x)} == done + ListedOf(d, b, a, groups);
  }

  lemma StrayGroup(d: Delta, b: Value, a: Value, changes: seq<DetailedChange>, g: seq<DetailedChange>,
                   m: DetailedChange, done: set<Mark>, v: Value)
    requires Reports(d, b, a, changes) && g != [] && g[0] in changes && m in All(d, b, a) && m.id < g[0].id
    requires Now(d, b, a, done, v) && Listed(Parent(m.id)) !in done && Unbroken(done, [], Parent(m.id))
    requires ApplyListChanges(v, g).Some?
    ensures Now(d, b, a, done, ApplyListChanges(v, g).value)
  {
    var i, q := StrayIntoMoved(d, b, a, changes, g[0], m);
    var s, q' := SpotOf(d, b, a, Parent(m.id)).value, q[..|q| - 1];
    assert ListPath(g) == s.place + [IndexName(i)] + q';
    ListIntoMoved(d, b, a, Parent(m.id), i, q', g, done, v);
  }

  lemma OneGroup(d: Delta, b: Value, a: Value, changes: seq<DetailedChange>, groups: seq<seq<DetailedChange>>,
                 done: set<Mark>, v: Value)
    requires Reports(d, b, a, changes) && InnerFirst(groups) && groups != [] && NothingListed(done)
    requires var g := groups[|groups| - 1];
             && g != [] && g[0] in changes && (g[0] in All(d, b, a) ==> IsListOp(d, b, a, g))
             && (ApplyListChanges(v, g).Some? || g[0] in All(d, b, a))
    requires Now(d, b, a, done + ListedOf(d, b, a, groups[..|groups| - 1]), v)
    ensures var r := ApplyListChanges(v, groups[|groups| - 1]);
            r.Some? && Now(d, b, a, done + ListedOf(d, b, a, groups), r.value)
  {
    var rest, g := groups[..|groups| - 1], groups[|groups| - 1];
    OwnAreKept(d, b, a, changes, g[0]);
    if g[0] in All(d, b, a) {
      OwnGroup(d, b, a, groups, done, v);
    } else {
      var m := OutermostAbove(changes, g[0]);
      OwnAreKept(d, b, a, changes, m);
      ListedOfLast(d, b, a, groups);
      NotYetListed(d, b, a, groups, done, Parent(m.id));
      StrayGroup(d, b, a, changes, g, m, done + ListedOf(d, b, a, rest), v);
    }
  }

  /** Each group is a list's own if its changes are, and each is known to apply or is its own. */
  ghost predicate Applicable(d: Delta, b: Value, a: Value, changes: seq<DetailedChange>,
                             groups: seq<seq<DetailedChange>>, v: Value) {
    && (forall k {:trigger groups[k]} :: 0 <= k < |groups| ==>
          && groups[k] != [] && groups[k][0] in changes
          && (groups[k][0] in All(d, b, a) ==> IsListOp(d, b, a, groups[k])))
    && (ApplyGroups(v, groups).Some? || forall k {:trigger groups[k]} :: 0 <= k < |groups| ==>
          groups[k] != [] && groups[k][0] in All(d, b, a))
  }

  lemma InnerFirstPrefix(groups: seq<seq<DetailedChange>>)
    requires InnerFirst(groups) && groups != []
    ensures InnerFirst(groups[..|groups| - 1])
  {
    var rest := groups[..|groups| - 1];
    forall i, j | 0 <= i < j < |rest|
      ensures NotAround(rest[i], rest[j])
    {
      assert NotAround(groups[i], groups[j]);
    }
  }

  lemma {:induction false} ListSteps(d: Delta, b: Value, a: Value, changes: seq<DetailedChange>,
                                     groups: seq<seq<DetailedChange>>, done: set<Mark>, v: Value)
    requires Reports(d, b, a, changes) && InnerFirst(groups) && NothingListed(done)
    requires Applicable(d, b, a, changes, groups, v) && Now(d, b, a, done, v)
    ensures ApplyGroups(v, groups).Some?
    ensures Now(d, b, a, done + ListedOf(d, b, a, groups), ApplyGroups(v, groups).value)
  {
    if groups == [] {
      assert done + ListedOf(d, b, a, groups) == done;
    } else {
      var rest := groups[..|groups| - 1];
      InnerFirstPrefix(groups);
      ListSteps(d, b, a, changes, rest, done, v);
      OneGroup(d, b, a, changes, groups, done, ApplyGroups(v, rest).value);
    }
  }

  // ----- and complete -----

  lemma OwnChangeApplied(d: Delta, b: Value, a: Value, changes: seq<DetailedChange>, c: DetailedChange)
    requires Reports(d, b, a, changes) && c in All(d, b, a)
    ensures InObject(d, b, a, Parent(c.id)) ==> c in OneByOne(b, changes)
    ensures InList(d, b, a, Parent(c.id)) ==> Listed(Parent(c.id)) in ListedOf(d, b, a, ByList(b, changes))
  {
    OneByOneMembers(b, changes, c);
    ByListMembers(b, changes);
    OwnAreKept(d, b, a, changes, c);
    ChangeInContainer(d, b, a, c);
    if IsPotentialListItem(c) {
      var potential := Potential(changes);
      FilterMembers(IsPotentialListItem, GetIndependentChanges(changes));
      GroupsByParent(potential);
      var g := GroupOf(Parent(c.id), potential);
      FilterMembers((c': DetailedChange) => Parent(c'.id) == Parent(c.id), potential);
      assert g in Groups(changes) && c in g && g[0] in g;
      OwnAreKept(d, b, a, changes, g[0]);
      OwnInContainer(d, b, a, changes, g[0]);
      RealListGroup(d, b, a, changes, g);
    } else if InList(d, b, a, Parent(c.id)) {
      ListChangeOf(d, b, a, c);
    }
  }

  ghost predicate MarksChange(u: Mark, s: Spot, c: DetailedChange) {
    || (u.Set? && Direct(s.delta) && c.id == u.id)
    || (u.Listed? && s.delta.Items? && |c.id| == |u.id| + 1 && u.id == Parent(c.id))
  }

  /** Every mark is that of a change in an object, or of a list with a change on an item. */
  lemma {:induction false} MarkHasChange(d: Delta, id: Path, p: Path, before: Option<Value>, after: Option<Value>,
                                         u: Mark)
    returns (x: Path, c: DetailedChange)
    requires Describes(d, before, after) && Settled(d) && u in Marks(d, id)
    ensures u.id == id + x && c in ChangesAt(d, id, p, before, after) && Find(d, before, after, x).Some?
    ensures var s := Find(d, before, after, x).value;
            MarksChange(u, s, c)
    decreases d
  {
    if d.Fields? {
      x, c := FieldMarkHasChange(d.fields, id, p, FieldsOf(before), FieldsOf(after), u);
    } else if d.Items? {
      x, c := ItemMarkHasChange(d.items, 0, id, p, ItemsOf(before), ItemsOf(after), u);
    } else {
      x, c := [], ChangesAt(d, id, p, before, after)[0];
    }
  }

  lemma {:induction false} FieldMarkHasChange(fields: FieldDeltas, id: Path, p: Path, before: map<string, Value>,
                                              after: map<string, Value>, u: Mark)
    returns (x: Path, c: DetailedChange)
    requires DescribesFields(fields, before, after) && SettledFields(fields) && u in FieldMarks(fields, id)
    ensures x != [] && x[0] in KeysOf(fields) && u.id == id + x
    ensures c in FlattenFields(fields, id, Some(p), Some(p), before, after) && FindField(fields, before, after, x).Some?
    ensures var s := FindField(fields, before, after, x).value;
            MarksChange(u, s, c)
    decreases fields
  {
    var key, b, a := fields.key, FieldAt(before, fields.key), FieldAt(after, fields.key);
    if u in Marks(fields.delta, id + [key]) {
      var y;
      y, c := MarkHasChange(fields.delta, id + [key], p + [key], b, a, u);
      x := [key] + y;
      assert x[1..] == y && id + [key] + y == id + x;
    } else {
      x, c := FieldMarkHasChange(fields.others, id, p, before, after, u);
    }
  }

  lemma {:induction false} ItemMarkHasChange(items: ItemDeltas, position: nat, id: Path, p: Path, before: seq<Value>,
                                             after: seq<Value>, u: Mark)
    returns (x: Path, c: DetailedChange)
    requires DescribesItems(items, before, after) && SettledItems(items) && u in ItemMarks(items, position, id)
    ensures u.id == id + x && c in FlattenItems(items, position, id, Some(p), Some(p), before, after)
    ensures x == [] ==> u.Listed? && |c.id| == |u.id| + 1 && u.id == Parent(c.id)
    ensures x != [] ==> IsIndexPathPart(x[0]) && IndexOf(x[0]) >= position
    ensures x != [] ==>
      && FindItem(items, position, before, after, x).Some?
      && var s := FindItem(items, position, before, after, x).value;
         MarksChange(u, s, c)
    decreases items
  {
    var item, part := items.item, IndexName(position);
    IndexOfName(position);
    if Direct(items.delta) && u == Listed(id) {
      DirectItemChanges(item, items.delta, position, id, p, before, after);
      x, c := [], ItemChange(item, items.delta, position, id, p, before, after).value;
    } else if !Direct(items.delta) && u in Marks(items.delta, id + [part]) {
      var name := IndexName(item.beforeIndex.value);
      var y;
      y, c := MarkHasChange(items.delta, id + [part], p + [name], ItemOf(before, item.beforeIndex),
                            ItemOf(after, item.afterIndex), u);
      x := [part] + y;
      assert x[1..] == y && id + [part] + y == id + x;
    } else {
      x, c := ItemMarkHasChange(items.others, position + 1, id, p, before, after, u);
    }
  }

  /** Every change of the difference is applied. */
  lemma MarkDone(d: Delta, b: Value, a: Value, changes: seq<DetailedChange>, u: Mark, done: set<Mark>)
    requires Reports(d, b, a, changes) && u in Marks(d, [])
    requires forall c :: c in OneByOne(b, changes) && c in All(d, b, a) ==> Set(c.id) in done
    ensures u in done + ListedOf(d, b, a, ByList(b, changes))
  {
    var x, c := MarkHasChange(d, [], [], Some(b), Some(a), u);
    assert [] + x == x;
    OwnChangeApplied(d, b, a, changes, c);
    if u.Set? {
      ChangeInContainer(d, b, a, c);
      if InList(d, b, a, Parent(c.id)) {
        NoSpotBelow(d, b, a, c, c.id);
      }
    }
  }

  // ----- the round trip -----

  lemma AllSet(d: Delta, b: Value, a: Value, changes: seq<DetailedChange>) returns (done: set<Mark>)
    requires Reports(d, b, a, changes)
    ensures Now(d, b, a, done, SetChanges(b, OneByOne(b, changes)))
    ensures NothingListed(done) && OverfullHaveChanges(d, b, a, done)
    ensures forall c :: c in OneByOne(b, changes) && c in All(d, b, a) ==> Set(c.id) in done
    ensures NothingOverfull(done) <==> NoStray(b, changes)
  {
    var oneByOne := OneByOne(b, changes);
    forall c | c in oneByOne
      ensures c in GetIndependentChanges(changes) && c in changes && (c in All(d, b, a) ==> IsSetOp(d, b, a, c))
    {
      OneByOneSound(d, b, a, changes, c);
    }
    done := SetSteps(d, b, a, changes, oneByOne);
  }

  /** No group of item changes is inside a moved item. */
  predicate NoStrayList(v: Value, changes: seq<DetailedChange>) {
    forall g :: g in ByList(v, changes) ==> g != [] && Outermost(g[0], changes)
  }

  lemma AllApplicable(d: Delta, b: Value, a: Value, changes: seq<DetailedChange>, v: Value)
    requires Reports(d, b, a, changes)
    requires ApplyGroups(v, ByList(b, changes)).Some? || NoStrayList(b, changes)
    ensures Applicable(d, b, a, changes, ByList(b, changes), v) && InnerFirst(ByList(b, changes))
  {
    var byList := ByList(b, changes);
    ByListSound(d, b, a, changes);
    forall k | 0 <= k < |byList|
      ensures byList[k] != [] && byList[k][0] in changes
      ensures byList[k][0] in All(d, b, a) ==> IsListOp(d, b, a, byList[k])
      ensures NoStrayList(b, changes) ==> byList[k][0] in All(d, b, a)
    {
      assert byList[k] in byList;
      OwnAreKept(d, b, a, changes, byList[k][0]);
    }
  }

  lemma AllListed(d: Delta, b: Value, a: Value, changes: seq<DetailedChange>, done: set<Mark>, v: Value)
    requires Reports(d, b, a, changes) && NothingListed(done) && Now(d, b, a, done, v)
    requires ApplyGroups(v, ByList(b, changes)).Some? || NoStrayList(b, changes)
    ensures ApplyGroups(v, ByList(b, changes)).Some?
    ensures Now(d, b, a, done + ListedOf(d, b, a, ByList(b, changes)), ApplyGroups(v, ByList(b, changes)).value)
  {
    AllApplicable(d, b, a, changes, v);
    ListSteps(d, b, a, changes, ByList(b, changes), done, v);
  }

  /** The item changes of a group read as list changes, strays or not. */
  lemma GroupReads(changes: seq<DetailedChange>, g: seq<DetailedChange>)
    requires AllSound(changes) && g in Groups(changes)
    ensures AllListChanges(g)
  {
    forall k | 0 <= k < |g|
      ensures ToListChange(g[k]).Some?
    {
      InPotential(changes, g, g[k]);
      OutermostAreKept(changes, g[k]);
      assert Sound(g[k]);
    }
  }

  lemma GroupsRead(v: Value, changes: seq<DetailedChange>)
    requires AllSound(changes)
    ensures forall g :: g in ByList(v, changes) ==> AllListChanges(g)
  {
    ByListMembers(v, changes);
    forall g | g in ByList(v, changes)
      ensures AllListChanges(g)
    {
      GroupReads(changes, g);
    }
  }

  /** Whether the value after comes out is decided by the strays alone, unless one of them is a
      list change without a list. */
  lemma Replayed(d: Delta, b: Value, a: Value, changes: seq<DetailedChange>)
    requires Reports(d, b, a, changes) && !IsWholeModification(changes)
    ensures Patched(b, changes).Some? <==> Applies(b, changes)
    ensures NoStrayList(b, changes) ==> Applies(b, changes)
    ensures Patched(b, changes) == Some(a) <==> NoStray(b, changes) && Applies(b, changes)
  {
    var set' := SetChanges(b, OneByOne(b, changes));
    GroupsRead(b, changes);
    StopsWithoutList(set', ByList(b, changes));
    var done := AllSet(d, b, a, changes);
    if Patched(b, changes).Some? || NoStrayList(b, changes) {
      AllListed(d, b, a, changes, done, set');
      LastState(d, b, a, changes, done, Patched(b, changes).value);
    }
  }

  lemma LastState(d: Delta, b: Value, a: Value, changes: seq<DetailedChange>, done: set<Mark>, v: Value)
    requires Reports(d, b, a, changes) && OverfullHaveChanges(d, b, a, done)
    requires forall c :: c in OneByOne(b, changes) && c in All(d, b, a) ==> Set(c.id) in done
    requires Now(d, b, a, done + ListedOf(d, b, a, ByList(b, changes)), v)
    ensures v == a <==> NothingOverfull(done)
  {
    var listed := ListedOf(d, b, a, ByList(b, changes));
    if NothingOverfull(done) {
      forall u | u in Marks(d, [])
        ensures u in done + listed
      {
        MarkDone(d, b, a, changes, u, done);
      }
      LastReached(d, [], done + listed, Some(v), Some(b), Some(a));
    } else {
      var u :| u in done && u.Overfull?;
      assert HasItemChange(d, b, a, u.id);
      var m :| m in All(d, b, a) && Parent(m.id) == u.id;
      OwnChangeApplied(d, b, a, changes, m);
      assert [] + u.id == u.id && Overfull(u.id) in done;
      BrokenIsWrong(d, [], done + listed, Some(v), Some(b), Some(a), u.id);
    }
  }

  /** The changes from one object to another, applied to the first, give the second exactly if
      nothing is put into an item that its list does not have yet, and no list change comes upon
      something that is no list. That happens only if a list change is inside a moved item. */
  lemma DiffThenPatchIff(b: Value, a: Value, changes: seq<DetailedChange>)
    requires b.Obj? && a.Obj? && Plain(b) && Plain(a)
    requires IsDiff(changes, [], Some([]), Some([]), Some(b), Some(a))
    ensures Patched(b, changes) == Some(a) <==> NoStray(b, changes) && Applies(b, changes)
    ensures Patched(b, changes).Some? <==> Applies(b, changes)
    ensures NoStrayList(b, changes) ==> Applies(b, changes)
  {
    var d :| Describes(d, Some(b), Some(a)) && changes == Flatten(d, [], Some([]), Some([]), Some(b), Some(a));
    if d.Fields? {
      DiffReports(d, b, a, changes);
      FlattenUnder(d, [], Some([]), Some([]), Some(b), Some(a));
      Replayed(Collapse(d), b, a, changes);
    } else {
      WholeHasNoStray(d, b, a, changes);
    }
  }

  lemma WholeHasNoStray(d: Delta, b: Value, a: Value, changes: seq<DetailedChange>)
    requires b.Obj? && a.Obj? && !d.Fields? && Describes(d, Some(b), Some(a))
    requires changes == Flatten(d, [], Some([]), Some([]), Some(b), Some(a))
    ensures Patched(b, changes) == Some(a) && NoStray(b, changes) && Applies(b, changes) && ByList(b, changes) == []
  {
    ByListMembers(b, changes);
    if ByList(b, changes) != [] {
      var g := ByList(b, changes)[0];
      GroupsOf(changes, g);
      OutermostAreKept(changes, g[0]);
      assert false;
    }
    if d.Same? {
      assert Groups(changes) == [];
      assert OneByOne(b, changes) == [];
    } else {
      assert changes == [changes[0]] && changes[0].id == [];
    }
  }

  /** Undo: the same for the reversed changes, applied to the second object. */
  lemma ReverseThenPatchIff(b: Value, a: Value, changes: seq<DetailedChange>)
    requires b.Obj? && a.Obj? && Plain(b) && Plain(a)
    requires IsDiff(changes, [], Some([]), Some([]), Some(b), Some(a))
    ensures Patched(a, ReverseAll(changes)) == Some(b)
      <==> NoStray(a, ReverseAll(changes)) && Applies(a, ReverseAll(changes))
    ensures Patched(a, ReverseAll(changes)).Some? <==> Applies(a, ReverseAll(changes))
    ensures NoStrayList(a, ReverseAll(changes)) ==> Applies(a, ReverseAll(changes))
  {
    ReversedDiff(changes, [], Some([]), Some([]), Some(b), Some(a));
    DiffThenPatchIff(a, b, ReverseAll(changes));
  }

  /** No moved items, or none whose changes the sort of the ids lets slip through. */
  ghost predicate Filterable(changes: seq<DetailedChange>) {
    NoOrderChange(changes) || !Separated(SortBy(IdLe, Ids(changes)))
  }

  /** If the filter does what it is for, nothing strays and the changes apply. */
  lemma DiffThenPatch(b: Value, a: Value, changes: seq<DetailedChange>)
    requires b.Obj? && a.Obj? && Plain(b) && Plain(a)
    requires IsDiff(changes, [], Some([]), Some([]), Some(b), Some(a)) && Filterable(changes)
    ensures Patched(b, changes) == Some(a) && NoStray(b, changes) && NoStrayList(b, changes)
  {
    var d :| Describes(d, Some(b), Some(a)) && changes == Flatten(d, [], Some([]), Some([]), Some(b), Some(a));
    if d.Fields? {
      DiffReports(d, b, a, changes);
      IndependentIsCollapse(d, [], [], [], Some(b), Some(a));
      KeptDoNotStray(Collapse(d), b, a, changes);
      DiffThenPatchIff(b, a, changes);
    } else {
      WholeHasNoStray(d, b, a, changes);
    }
  }

  lemma KeptDoNotStray(d: Delta, b: Value, a: Value, changes: seq<DetailedChange>)
    requires Reports(d, b, a, changes) && GetIndependentChanges(changes) == All(d, b, a)
    ensures NoStray(b, changes) && NoStrayList(b, changes)
  {
    forall c | c in OneByOne(b, changes)
      ensures Outermost(c, changes)
    {
      OneByOneSound(d, b, a, changes, c);
      OwnAreKept(d, b, a, changes, c);
    }
    ByListSound(d, b, a, changes);
    forall g | g in ByList(b, changes)
      ensures g != [] && Outermost(g[0], changes)
    {
      OwnAreKept(d, b, a, changes, g[0]);
    }
  }

  /** And so does undoing them. */
  lemma ReverseThenPatch(b: Value, a: Value, changes: seq<DetailedChange>)
    requires b.Obj? && a.Obj? && Plain(b) && Plain(a)
    requires IsDiff(changes, [], Some([]), Some([]), Some(b), Some(a)) && Filterable(changes)
    ensures Patched(a, ReverseAll(changes)) == Some(b)
    ensures NoStray(a, ReverseAll(changes)) && NoStrayList(a, ReverseAll(changes))
  {
    ReversedDiff(changes, [], Some([]), Some([]), Some(b), Some(a));
    assert Ids(ReverseAll(changes)) == Ids(changes);
    if NoOrderChange(changes) {
      forall c | c in ReverseAll(changes)
        ensures !IsOrderChange(c)
      {
        var i :| 0 <= i < |changes| && ReverseAll(changes)[i] == c;
        assert c == ReverseChange(changes[i]);
      }
    }
    DiffThenPatch(a, b, ReverseAll(changes));
  }

  // ----- plain keys -----

  /** Every key in the value has only characters above the comma. */
  ghost predicate PlainKeys(v: Value) {
    match v
    case Prim(_) => true
    case Obj(fields) => forall key :: key in fields ==> PlainPart(key) && PlainKeys(fields[key])
    case Array(items, _) => forall i :: 0 <= i < |items| ==> PlainKeys(items[i])
    case Hole => true
  }

  ghost predicate PlainOption(v: Option<Value>) {
    v.Some? ==> PlainKeys(v.value)
  }

  ghost predicate PlainIds(changes: seq<DetailedChange>) {
    forall c :: c in changes ==> PlainPath(c.id)
  }

  lemma {:induction false} ChangesPlain(d: Delta, id: Path, beforeId: Option<Path>, afterId: Option<Path>,
                                        before: Option<Value>, after: Option<Value>)
    requires Describes(d, before, after) && PlainPath(id) && PlainOption(before) && PlainOption(after)
    ensures PlainIds(Flatten(d, id, beforeId, afterId, before, after))
    decreases d
  {
    if d.Fields? {
      FieldChangesPlain(d.fields, id, beforeId, afterId, FieldsOf(before), FieldsOf(after));
    } else if d.Items? {
      ItemChangesPlain(d.items, 0, id, beforeId, afterId, ItemsOf(before), ItemsOf(after));
    }
  }

  lemma {:induction false} FieldChangesPlain(fields: FieldDeltas, id: Path, beforeId: Option<Path>,
                                             afterId: Option<Path>, before: map<string, Value>,
                                             after: map<string, Value>)
    requires DescribesFields(fields, before, after) && PlainPath(id)
    requires PlainKeys(Obj(before)) && PlainKeys(Obj(after))
    ensures PlainIds(FlattenFields(fields, id, beforeId, afterId, before, after))
    decreases fields
  {
    if fields.Field? {
      var key := fields.key;
      assert PlainPart(key);
      ChangesPlain(fields.delta, id + [key], Nested(beforeId, key), Nested(afterId, key), FieldAt(before, key),
                   FieldAt(after, key));
      FieldChangesPlain(fields.others, id, beforeId, afterId, before, after);
    }
  }

  lemma {:induction false} ItemChangesPlain(items: ItemDeltas, position: nat, id: Path, beforeId: Option<Path>,
                                            afterId: Option<Path>, before: seq<Value>, after: seq<Value>)
    requires DescribesItems(items, before, after) && PlainPath(id)
    requires PlainKeys(List(before)) && PlainKeys(List(after))
    ensures PlainIds(FlattenItems(items, position, id, beforeId, afterId, before, after))
    decreases items
  {
    if items.ItemAt? {
      var item, part := items.item, IndexName(position);
      assert forall i :: 0 <= i < |part| ==> IsDigit(part[i]);
      assert PlainPart(part);
      ChangesPlain(items.delta, id + [part], NestedItem(beforeId, item.beforeIndex),
                   NestedItem(afterId, item.afterIndex), ItemOf(before, item.beforeIndex),
                   ItemOf(after, item.afterIndex));
      ItemChangesPlain(items.others, position + 1, id, beforeId, afterId, before, after);
    }
  }

  /** With plain keys nothing slips through, moved items or not. */
  lemma PlainKeysFilterable(b: Value, a: Value, changes: seq<DetailedChange>)
    requires PlainKeys(b) && PlainKeys(a) && IsDiff(changes, [], Some([]), Some([]), Some(b), Some(a))
    ensures Filterable(changes)
  {
    var d :| Describes(d, Some(b), Some(a)) && changes == Flatten(d, [], Some([]), Some([]), Some(b), Some(a));
    ChangesPlain(d, [], Some([]), Some([]), Some(b), Some(a));
    var ids := Ids(changes);
    forall id | id in ids
      ensures PlainPath(id)
    {
      var c :| c in changes && c.id == id;
    }
    PlainIdsAreExact(ids);
    GetIndependentIsExact(ids);
  }

  /** On objects with plain keys, diff then patch is the identity, and so is undoing it. */
  lemma PlainRoundTrip(b: Value, a: Value, changes: seq<DetailedChange>)
    requires b.Obj? && a.Obj? && Plain(b) && Plain(a) && PlainKeys(b) && PlainKeys(a)
    requires IsDiff(changes, [], Some([]), Some([]), Some(b), Some(a))
    ensures Patched(b, changes) == Some(a) && Patched(a, ReverseAll(changes)) == Some(b)
  {
    PlainKeysFilterable(b, a, changes);
    DiffThenPatch(b, a, changes);
    ReverseThenPatch(b, a, changes);
  }
}
