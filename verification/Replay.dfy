/** One step of replaying a difference: what is set, what is applied by list, and what is put
    into a moved item. */
module Replay {
  import opened Wrappers
  import opened Values
  import opened Changes
  import opened ListPatch
  import opened IndependentChanges
  import opened Diff
  import opened Spots
  import opened Progress
  import opened ListProgress
  import opened Patch

  /** A difference of two objects in which moved items are not looked into. */
  ghost predicate Ready(d: Delta, b: Value, a: Value) {
    b.Obj? && a.Obj? && Plain(b) && Plain(a)
    && d.Fields? && Describes(d, Some(b), Some(a)) && Settled(d)
  }

  function All(d: Delta, b: Value, a: Value): seq<DetailedChange> {
    ChangesAt(d, [], [], Some(b), Some(a))
  }

  function SpotOf(d: Delta, b: Value, a: Value, id: Path): Option<Spot> {
    Find(d, Some(b), Some(a), id)
  }

  /** What the value can be when what is marked has happened. */
  ghost predicate Now(d: Delta, b: Value, a: Value, done: set<Mark>, v: Value) {
    Reached(d, [], done, Some(v), Some(b), Some(a))
  }

  ghost predicate InObject(d: Delta, b: Value, a: Value, parent: Path) {
    var s := SpotOf(d, b, a, parent); s.Some? && s.value.delta.Fields?
  }

  ghost predicate InList(d: Delta, b: Value, a: Value, parent: Path) {
    var s := SpotOf(d, b, a, parent); s.Some? && s.value.delta.Items?
  }

  // ----- one change that is set -----

  /** The change sets a part of an object to what it is after. */
  ghost predicate IsSetOp(d: Delta, b: Value, a: Value, c: DetailedChange) {
    var s := SpotOf(d, b, a, c.id);
    && s.Some? && Direct(s.value.delta)
    && s.value.place == GetChangeRealId(c) && s.value.place != [] && s.value.after == DataAfter(c)
  }

  lemma SetStep(d: Delta, b: Value, a: Value, c: DetailedChange, done: set<Mark>, v: Value)
    requires Ready(d, b, a) && IsSetOp(d, b, a, c)
    requires Now(d, b, a, done, v) && Unbroken(done, [], c.id)
    ensures Now(d, b, a, done + {Set(c.id)}, SetChange(v, c))
  {
    assert [] + c.id == c.id;
    PutAtSpot(d, [], done, done + {Set(c.id)}, Some(v), Some(b), Some(a), c.id, DataAfter(c));
  }

  // ----- the item changes of one list -----

  /** What the list at `x` is now, and what becomes of the value with another list there. */
  lemma ListNow(d: Delta, b: Value, a: Value, x: Path, done: set<Mark>, v: Value)
    requires Ready(d, b, a) && InList(d, b, a, x) && Now(d, b, a, done, v) && Unbroken(done, [], x)
    ensures var s := SpotOf(d, b, a, x).value;
            && Get(v, s.place).Some? && Get(v, s.place).value.Array? && Get(v, s.place).value.named == map[]
            && ReachedList(s.delta.items, x, done, Get(v, s.place).value.items, ItemsOf(s.before), ItemsOf(s.after))
  {
    assert [] + x == x;
    GetAtSpot(d, [], done, Some(v), Some(b), Some(a), x);
  }

  lemma PutListBack(d: Delta, b: Value, a: Value, x: Path, list: seq<Value>, done: set<Mark>, done': set<Mark>,
                    v: Value)
    requires Ready(d, b, a) && InList(d, b, a, x) && Now(d, b, a, done, v) && Unbroken(done, [], x)
    requires AgreeOutside(done, done', x)
    requires var s := SpotOf(d, b, a, x).value;
             ReachedList(s.delta.items, x, done', list, ItemsOf(s.before), ItemsOf(s.after))
    ensures var r := Put(Some(v), SpotOf(d, b, a, x).value.place, Some(List(list)));
            r.Some? && Now(d, b, a, done', r.value)
  {
    assert [] + x == x;
    PutAtSpot(d, [], done, done', Some(v), Some(b), Some(a), x, Some(List(list)));
  }

  /** The changes are all the item changes of one list. */
  ghost predicate IsListOp(d: Delta, b: Value, a: Value, g: seq<DetailedChange>) {
    && g != []
    && var s := SpotOf(d, b, a, Parent(g[0].id));
       && s.Some? && s.value.delta.Items?
       && AllItemChanges(g, s.value.delta.items, Parent(g[0].id), s.value.place, ItemsOf(s.value.before),
                         ItemsOf(s.value.after))
  }

  lemma ListOpUpdates(d: Delta, b: Value, a: Value, g: seq<DetailedChange>, done: set<Mark>, list: seq<Value>)
    requires Ready(d, b, a) && IsListOp(d, b, a, g) && Listed(Parent(g[0].id)) !in done
    requires var s := SpotOf(d, b, a, Parent(g[0].id)).value;
             ReachedList(s.delta.items, Parent(g[0].id), done, list, ItemsOf(s.before), ItemsOf(s.after))
    ensures AllListChanges(g) && ListPath(g) == SpotOf(d, b, a, Parent(g[0].id)).value.place
    ensures var x := Parent(g[0].id);
            var s := SpotOf(d, b, a, x).value;
            ReachedList(s.delta.items, x, done + {Listed(x)}, Updated(list, ListChangesOf(g)), ItemsOf(s.before),
                        ItemsOf(s.after))
  {
    var x := Parent(g[0].id);
    var s := SpotOf(d, b, a, x).value;
    SpotDescribes(d, Some(b), Some(a), x);
    var _ := GroupReadsBack(g, s.delta.items, x, s.place, ItemsOf(s.before), ItemsOf(s.after), 0);
    ListReachesAfter(g, s.delta.items, x, s.place, done, list, ItemsOf(s.before), ItemsOf(s.after));
  }

  lemma ListStep(d: Delta, b: Value, a: Value, g: seq<DetailedChange>, done: set<Mark>, v: Value)
    requires Ready(d, b, a) && IsListOp(d, b, a, g) && Listed(Parent(g[0].id)) !in done
    requires Now(d, b, a, done, v) && Unbroken(done, [], Parent(g[0].id))
    ensures ApplyListChanges(v, g).Some?
    ensures Now(d, b, a, done + {Listed(Parent(g[0].id))}, ApplyListChanges(v, g).value)
  {
    var x := Parent(g[0].id);
    var s := SpotOf(d, b, a, x).value;
    ListNow(d, b, a, x, done, v);
    var list := Get(v, s.place).value.items;
    ListOpUpdates(d, b, a, g, done, list);
    PlaceAsLong(d, Some(b), Some(a), x);
    PutListBack(d, b, a, x, Updated(list, ListChangesOf(g)), done, done + {Listed(x)}, v);
  }

  // ----- something put into a moved item -----

  /** The path leads into the item at index `i` of the list at `x`, where no item stays. */
  ghost predicate IntoMoved(d: Delta, b: Value, a: Value, x: Path, i: nat, q: Path, path: Path) {
    var s := SpotOf(d, b, a, x);
    && s.Some? && s.value.delta.Items? && Clear(s.value.delta.items, i, false)
    && path == s.value.place + [IndexName(i)] + q
  }

  /** Putting data past the end of the list makes it longer. */
  ghost predicate Grows(d: Delta, b: Value, a: Value, x: Path, i: nat, data: Option<Value>) {
    var s := SpotOf(d, b, a, x); s.Some? && data.Some? && i >= |ItemsOf(s.value.before)|
  }

  lemma PutIntoList(items: ItemDeltas, id: Path, done: set<Mark>, grown: bool, list: seq<Value>, before: seq<Value>,
                    after: seq<Value>, i: nat, q: Path, data: Option<Value>)
    requires ReachedList(items, id, done, list, before, after) && Listed(id) !in done && Clear(items, i, false)
    requires grown <==> data.Some? && i >= |before|
    requires data != Some(Hole) && (q != [] || data.Some?)
    ensures var r := Put(Some(List(list)), [IndexName(i)] + q, data);
            && r.Some? && r.value.Array? && r.value.named == map[]
            && ReachedList(items, id, if grown then done + {Overfull(id)} else done, r.value.items, before, after)
  {
    PutInList(list, map[], i, q, data);
    var list' := Put(Some(List(list)), [IndexName(i)] + q, data).value.items;
    var done' := if grown then done + {Overfull(id)} else done;
    ListLength(items, id, done, list, before, after);
    OtherItemsKept(items, 0, id, done, list, list', before, after, i);
    ReachedItemsAgree(items, 0, id, done, done', list', before, after);
    if grown {
      assert HasMore(list', |before|);
    } else if Overfull(id) in done {
      var j :| |before| <= j < |list| && !list[j].Hole?;
      assert !list'[j].Hole?;
    }
  }

  /** Whatever is put into an item that is still to be moved is of no matter, but for what is
      put past the end of the list. */
  lemma PutIntoMoved(d: Delta, b: Value, a: Value, x: Path, i: nat, q: Path, path: Path, data: Option<Value>,
                     done: set<Mark>, v: Value)
    requires Ready(d, b, a) && IntoMoved(d, b, a, x, i, q, path) && data != Some(Hole) && (q != [] || data.Some?)
    requires Now(d, b, a, done, v) && Unbroken(done, [], x) && Listed(x) !in done
    ensures var done' := if Grows(d, b, a, x, i, data) then done + {Overfull(x)} else done;
            Now(d, b, a, done', SetPath(v, path, data))
  {
    var s := SpotOf(d, b, a, x).value;
    var grown, rest := Grows(d, b, a, x, i, data), [IndexName(i)] + q;
    assert path == s.place + rest && path != [];
    ListNow(d, b, a, x, done, v);
    PutThen(v, s.place, rest, data);
    var list := Get(v, s.place).value.items;
    PutIntoList(s.delta.items, x, done, grown, list, ItemsOf(s.before), ItemsOf(s.after), i, q, data);
    PutListBack(d, b, a, x, Put(Some(List(list)), rest, data).value.items, done,
                if grown then done + {Overfull(x)} else done, v);
  }

  lemma NoItemMissing(d: Delta, b: Value, a: Value, x: Path, i: nat, q: Path, path: Path, done: set<Mark>, v: Value)
    requires Ready(d, b, a) && IntoMoved(d, b, a, x, i, q, path)
    requires Now(d, b, a, done, v) && Unbroken(done, [], x) && Listed(x) !in done
    requires Get(v, path).Some?
    ensures i >= |ItemsOf(SpotOf(d, b, a, x).value.before)| ==> Overfull(x) in done
  {
    var s := SpotOf(d, b, a, x).value;
    ListNow(d, b, a, x, done, v);
    assert path == s.place + ([IndexName(i)] + q);
    GetThen(v, s.place, [IndexName(i)] + q);
    IndexOfName(i);
    ListLength(s.delta.items, x, done, Get(v, s.place).value.items, ItemsOf(s.before), ItemsOf(s.after));
  }

  /** A list inside the item is there only if the item is, so nothing makes the list around it
      longer. */
  lemma ListIntoMoved(d: Delta, b: Value, a: Value, x: Path, i: nat, q: Path, g: seq<DetailedChange>, done: set<Mark>,
                      v: Value)
    requires Ready(d, b, a) && g != [] && IntoMoved(d, b, a, x, i, q, ListPath(g))
    requires Now(d, b, a, done, v) && Unbroken(done, [], x) && Listed(x) !in done
    requires ApplyListChanges(v, g).Some?
    ensures Now(d, b, a, done, ApplyListChanges(v, g).value)
  {
    var data := Some(List(Updated(Get(v, ListPath(g)).value.items, ListChangesOf(g))));
    NoItemMissing(d, b, a, x, i, q, ListPath(g), done, v);
    PutIntoMoved(d, b, a, x, i, q, ListPath(g), data, done, v);
    assert Overfull(x) in done ==> done + {Overfull(x)} == done;
  }

  // ----- what kind of change each one is -----

  /** A change at a key of an object names the key in all its ids. */
  lemma {:induction false} KeyChange(fields: FieldDeltas, id: Path, p: Path, before: map<string, Value>,
                                     after: map<string, Value>, c: DetailedChange)
    requires DescribesFields(fields, before, after) && |c.id| == |id| + 1
    requires c in FlattenFields(fields, id, Some(p), Some(p), before, after)
    ensures id < c.id && c.beforeId == c.afterId == Some(p + [Name(c.id)])
    ensures var s := FindField(fields, before, after, [Name(c.id)]);
            s.Some? && Direct(s.value.delta) && s.value.place == [Name(c.id)] && s.value.after == DataAfter(c)
    decreases fields
  {
    var key, b, a := fields.key, FieldAt(before, fields.key), FieldAt(after, fields.key);
    var first := ChangesAt(fields.delta, id + [key], p + [key], b, a);
    FlattenFieldsUnder(fields, id, Some(p), Some(p), before, after);
    FlattenFieldsUnder(fields.others, id, Some(p), Some(p), before, after);
    if c in first {
      FlattenUnder(fields.delta, id + [key], Some(p + [key]), Some(p + [key]), b, a);
      assert c.id == id + [key];
      assert [key][1..] == [];
    } else {
      KeyChange(fields.others, id, p, before, after, c);
      assert c.id[|id|] == Name(c.id);
    }
  }

  lemma NameAndParent(x: Path, c: DetailedChange)
    requires x == Parent(c.id) && c.id != []
    ensures x + [Name(c.id)] == c.id && x <= c.id && |c.id| == |x| + 1
  {}

  /** Below its container, a change is one of the container's changes. */
  lemma ChangeInContainer(d: Delta, b: Value, a: Value, c: DetailedChange)
    requires Ready(d, b, a) && c in All(d, b, a)
    ensures c.id != [] && SpotOf(d, b, a, Parent(c.id)).Some?
    ensures var s := SpotOf(d, b, a, Parent(c.id)).value;
            && IsContainer(s.delta) && Describes(s.delta, s.before, s.after) && Settled(s.delta)
            && c in ChangesAt(s.delta, Parent(c.id), s.place, s.before, s.after)
  {
    var x := ContainerOf(d, [], [], Some(b), Some(a), c);
    assert [] + x == x;
    NameAndParent(x, c);
    SpotDescribes(d, Some(b), Some(a), x);
    ChangesAtSpot(d, [], [], Some(b), Some(a), x);
    var s := SpotOf(d, b, a, x).value;
    assert [] + s.place == s.place;
  }

  /** In an object, a change is a set operation; its place leads to the object. */
  lemma ObjectChange(d: Delta, b: Value, a: Value, c: DetailedChange)
    requires Ready(d, b, a) && c in All(d, b, a) && InObject(d, b, a, Parent(c.id))
    ensures IsSetOp(d, b, a, c) && c.beforeId == c.afterId
    ensures Parent(GetChangeRealId(c)) == SpotOf(d, b, a, Parent(c.id)).value.place
  {
    ChangeInContainer(d, b, a, c);
    var x := Parent(c.id);
    var s := SpotOf(d, b, a, x).value;
    NameAndParent(x, c);
    KeyChange(s.delta.fields, x, s.place, FieldsOf(s.before), FieldsOf(s.after), c);
    FindThen(d, Some(b), Some(a), x, [Name(c.id)]);
  }

  lemma ListChangeOf(d: Delta, b: Value, a: Value, c: DetailedChange)
    requires Ready(d, b, a) && c in All(d, b, a) && InList(d, b, a, Parent(c.id))
    ensures IsPotentialListItem(c)
    ensures Parent(GetChangeRealId(c)) == SpotOf(d, b, a, Parent(c.id)).value.place
    ensures var s := SpotOf(d, b, a, Parent(c.id)).value;
            OfSomeItem(c, s.delta.items, 0, Parent(c.id), s.place, ItemsOf(s.before), ItemsOf(s.after))
  {
    ChangeInContainer(d, b, a, c);
    var x := Parent(c.id);
    var s := SpotOf(d, b, a, x).value;
    var bl, al := ItemsOf(s.before), ItemsOf(s.after);
    NameAndParent(x, c);
    var k := ReportedItemChange(s.delta.items, 0, x, s.place, bl, al, c);
    DescribedAt(s.delta.items, bl, al, k);
    ItemChangeReadBack(MappingOf(s.delta.items)[k], DeltaAt(s.delta.items, k), k, x, s.place, bl, al);
    assert Name(c.id) == IndexName(k);
  }

  lemma PlaceLeadsTo(d: Delta, b: Value, a: Value, x: Path)
    requires Ready(d, b, a) && SpotOf(d, b, a, x).Some? && IsContainer(SpotOf(d, b, a, x).value.delta)
    ensures Get(b, SpotOf(d, b, a, x).value.place).Some?
    ensures InObject(d, b, a, x) ==> Get(b, SpotOf(d, b, a, x).value.place).value.Obj?
    ensures InList(d, b, a, x) ==>
      var s := SpotOf(d, b, a, x).value;
      Get(b, s.place).value.Array? && |Get(b, s.place).value.items| == |ItemsOf(s.before)|
  {
    var s := SpotOf(d, b, a, x).value;
    SpotDescribes(d, Some(b), Some(a), x);
    StartReached(d, [], Some(b), Some(a));
    GetAtSpot(d, [], {}, Some(b), Some(b), Some(a), x);
  }
}
