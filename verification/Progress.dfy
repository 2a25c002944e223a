/** The value between before and after: what it can be when some of the changes are applied. */
module Progress {
  import opened Wrappers
  import opened Values
  import opened IndexMapping
  import opened IndependentChanges
  import opened Diff
  import opened Spots

  // ----- setting and unsetting -----

  function WithField(fields: map<string, Value>, key: string, v: Option<Value>): map<string, Value> {
    if v.Some? then fields[key := v.value] else fields - {key}
  }

  /** What a path part is put into: an object or list that is there, or else one made up by
      the library, a list if the part names an item. */
  function ContainerFor(v: Option<Value>, part: string): (container: Value)
    ensures container.Obj? || container.Array?
    ensures IsContainerValue(v) ==> Some(container) == v
  {
    if IsContainerValue(v) then v.value else if IsItemName(part) then List([]) else Obj(map[])
  }

  predicate IsContainerValue(v: Option<Value>) {
    v.Some? && (v.value.Obj? || v.value.Array?)
  }

  /** What was removed leaves a hole, and so do the places up to an item past the end. */
  function WithSlot(items: seq<Value>, i: nat, v: Option<Value>): seq<Value> {
    if i < |items| then items[i := if v.Some? then v.value else Hole]
    else if v.None? then items
    else items + seq(i - |items|, _ => Hole) + [v.value]
  }

  /** `setPath`: puts the data at the path, or removes what is there. */
  function Put(v: Option<Value>, path: Path, data: Option<Value>): (r: Option<Value>)
    ensures path != [] && (v.Some? || data.Some?) ==> r.Some?
    decreases |path|
  {
    if path == [] then data
    else if data.None? && !IsContainerValue(v) then v
    else
      match ContainerFor(v, path[0])
      case Obj(fields) => Some(Obj(WithField(fields, path[0], Put(FieldAt(fields, path[0]), path[1..], data))))
      case Array(items, named) =>
        if IsItemName(path[0]) then
          var i := IndexOf(path[0]);
          Some(Array(WithSlot(items, i, Put(ItemOf(items, Some(i)), path[1..], data)), named))
        else Some(Array(items, WithField(named, path[0], Put(FieldAt(named, path[0]), path[1..], data))))
  }

  /** Putting something below a part is putting the part with that in it. */
  lemma {:induction false} PutThen(v: Value, p: Path, q: Path, data: Option<Value>)
    requires Get(v, p).Some?
    ensures Put(Some(v), p + q, data) == Put(Some(v), p, Put(Get(v, p), q, data))
    decreases |p|
  {
    if p == [] {
      assert p + q == q;
    } else {
      var child := Child(v, p[0]).value;
      assert (p + q)[0] == p[0] && (p + q)[1..] == p[1..] + q;
      PutThen(child, p[1..], q, data);
    }
  }

  /** What is put in or below a place is there, and what is removed below an item leaves it. */
  lemma PutHole(v: Option<Value>, q: Path, data: Option<Value>)
    requires data != Some(Hole) && (q != [] || data.Some?)
    ensures data.Some? ==> Put(v, q, data).Some? && Put(v, q, data) != Some(Hole)
    ensures data.None? && v.Some? ==> (Put(v, q, data) == Some(Hole) <==> v == Some(Hole))
  {}

  /** Putting something in or below an item changes no other item, and makes the list longer
      only if there is something to put past its end, which is then there. */
  lemma PutInList(list: seq<Value>, named: map<string, Value>, i: nat, q: Path, data: Option<Value>)
    requires data != Some(Hole) && (q != [] || data.Some?)
    ensures var r := Put(Some(Array(list, named)), [IndexName(i)] + q, data);
            && r.Some? && r.value.Array? && r.value.named == named && |list| <= |r.value.items|
            && (forall j :: 0 <= j < |list| && j != i ==> r.value.items[j] == list[j])
            && (data.None? || i < |list| ==> |r.value.items| == |list|)
            && (data.Some? ==> i < |r.value.items| && !r.value.items[i].Hole?)
            && (data.None? && i < |list| ==> (r.value.items[i].Hole? <==> list[i].Hole?))
  {
    IndexOfName(i);
    assert ([IndexName(i)] + q)[1..] == q;
    PutHole(ItemOf(list, Some(i)), q, data);
  }

  // ----- a value on its way -----

  /** What has happened: a change was set, a list's item changes were applied, or a list got
      more items than it had, which none of its own changes does. */
  datatype Mark = Set(id: Path) | Listed(id: Path) | Overfull(id: Path)

  /** The item changes of a list came upon items they do not know of. */
  ghost predicate Broken(done: set<Mark>, id: Path) {
    Listed(id) in done && Overfull(id) in done
  }

  /** What the value can be at this point: its parts are what they were or what their changes
      made them, except that an item that is still to be removed, replaced or moved can be
      anything. */
  ghost predicate Reached(d: Delta, id: Path, done: set<Mark>, v: Option<Value>, before: Option<Value>,
                          after: Option<Value>)
    decreases d
  {
    match d
    case Same => v == before
    case Fields(fields) =>
      && v.Some? && v.value.Obj? && v.value.fields.Keys <= KeysOf(fields)
      && ReachedFields(fields, id, done, v.value.fields, FieldsOf(before), FieldsOf(after))
    case Items(items) =>
      && v.Some? && v.value.Array? && v.value.named == map[]
      && ReachedList(items, id, done, v.value.items, ItemsOf(before), ItemsOf(after))
    case _ => Set(id) in done ==> v == after
  }

  ghost predicate ReachedFields(fields: FieldDeltas, id: Path, done: set<Mark>, now: map<string, Value>,
                                before: map<string, Value>, after: map<string, Value>)
    decreases fields
  {
    match fields
    case NoFields => true
    case Field(key, d, others) =>
      && Reached(d, id + [key], done, FieldAt(now, key), FieldAt(before, key), FieldAt(after, key))
      && ReachedFields(others, id, done, now, before, after)
  }

  ghost predicate ReachedList(items: ItemDeltas, id: Path, done: set<Mark>, list: seq<Value>, before: seq<Value>,
                              after: seq<Value>)
    decreases items, 1
  {
    if Broken(done, id) then |list| > |after|
    else
      && ReachedItems(items, 0, id, done, list, before, after)
      && if Listed(id) in done then |list| == |after|
         else if Overfull(id) in done then HasMore(list, |before|)
         else |list| == |before|
  }

  ghost predicate ReachedItems(items: ItemDeltas, position: nat, id: Path, done: set<Mark>, list: seq<Value>,
                               before: seq<Value>, after: seq<Value>)
    decreases items, 0
  {
    match items
    case NoItems => true
    case ItemAt(item, d, others) =>
      && (if Direct(d) then Listed(id) in done && item.afterIndex.Some? ==> SameAt(list, after, item.afterIndex.value)
          else
            && item.beforeIndex.Some? && item.beforeIndex.value < |list| && !list[item.beforeIndex.value].Hole?
            && Reached(d, id + [IndexName(position)], done, Some(list[item.beforeIndex.value]),
                       ItemOf(before, item.beforeIndex), ItemOf(after, item.afterIndex)))
      && ReachedItems(others, position + 1, id, done, list, before, after)
  }

  /** There is an item past the first `n` places. */
  ghost predicate HasMore(list: seq<Value>, n: nat) {
    exists j :: n <= j < |list| && !list[j].Hole?
  }

  predicate SameAt(list: seq<Value>, list': seq<Value>, i: nat) {
    i < |list| && i < |list'| && list[i] == list'[i]
  }

  ghost predicate PlainOption(v: Option<Value>) {
    v.Some? ==> Plain(v.value)
  }

  // ----- only marks at or below an id matter to its part -----

  ghost predicate AgreeUnder(done: set<Mark>, done': set<Mark>, id: Path) {
    forall m: Mark {:trigger m in done} {:trigger m in done'} :: id <= m.id ==> (m in done <==> m in done')
  }

  ghost predicate AgreeOutside(done: set<Mark>, done': set<Mark>, id: Path) {
    forall m: Mark {:trigger m in done} {:trigger m in done'} :: !(id <= m.id) ==> (m in done <==> m in done')
  }

  lemma {:induction false} ReachedAgrees(d: Delta, id: Path, done: set<Mark>, done': set<Mark>, v: Option<Value>,
                                         before: Option<Value>, after: Option<Value>)
    requires Reached(d, id, done, v, before, after) && AgreeUnder(done, done', id)
    ensures Reached(d, id, done', v, before, after)
    decreases d
  {
    assert Set(id) in done <==> Set(id) in done';
    if d.Fields? {
      forall key
        ensures AgreeUnder(done, done', id + [key])
      {}
      ReachedFieldsAgree(d.fields, id, done, done', v.value.fields, FieldsOf(before), FieldsOf(after));
    } else if d.Items? {
      assert Listed(id) in done <==> Listed(id) in done';
      assert Overfull(id) in done <==> Overfull(id) in done';
      if !Broken(done, id) {
        forall q: nat
          ensures AgreeUnder(done, done', id + [IndexName(q)])
        {}
        ReachedItemsAgree(d.items, 0, id, done, done', v.value.items, ItemsOf(before), ItemsOf(after));
      }
    }
  }

  lemma {:induction false} ReachedFieldsAgree(fields: FieldDeltas, id: Path, done: set<Mark>, done': set<Mark>,
                                              now: map<string, Value>, before: map<string, Value>,
                                              after: map<string, Value>)
    requires ReachedFields(fields, id, done, now, before, after)
    requires forall key :: key in KeysOf(fields) ==> AgreeUnder(done, done', id + [key])
    ensures ReachedFields(fields, id, done', now, before, after)
    decreases fields
  {
    if fields.Field? {
      var key := fields.key;
      ReachedAgrees(fields.delta, id + [key], done, done', FieldAt(now, key), FieldAt(before, key),
                    FieldAt(after, key));
      ReachedFieldsAgree(fields.others, id, done, done', now, before, after);
    }
  }

  lemma {:induction false} ReachedItemsAgree(items: ItemDeltas, position: nat, id: Path, done: set<Mark>,
                                             done': set<Mark>, list: seq<Value>, before: seq<Value>, after: seq<Value>)
    requires ReachedItems(items, position, id, done, list, before, after)
    requires Listed(id) in done <==> Listed(id) in done'
    requires forall q: nat :: q >= position ==> AgreeUnder(done, done', id + [IndexName(q)])
    ensures ReachedItems(items, position, id, done', list, before, after)
    decreases items
  {
    if items.ItemAt? {
      if !Direct(items.delta) {
        ReachedAgrees(items.delta, id + [IndexName(position)], done, done', Some(list[items.item.beforeIndex.value]),
                      ItemOf(before, items.item.beforeIndex), ItemOf(after, items.item.afterIndex));
      }
      ReachedItemsAgree(items.others, position + 1, id, done, done', list, before, after);
    }
  }

  /** What happens at `x` is nothing to a part whose id goes another way. */
  lemma OtherPartAgrees(done: set<Mark>, done': set<Mark>, id: Path, x: Path, part: string)
    requires AgreeOutside(done, done', id + x) && x != [] && part != x[0]
    ensures AgreeUnder(done, done', id + [part])
  {
    forall m: Mark | id + [part] <= m.id
      ensures m in done <==> m in done'
    {
      assert m.id[|id|] == (id + [part])[|id|] == part;
      assert (id + x)[|id|] == x[0];
    }
  }

  /** No list around the part at `x` is broken. */
  ghost predicate Unbroken(done: set<Mark>, id: Path, x: Path) {
    forall y {:trigger Broken(done, y)} :: id <= y < id + x ==> !Broken(done, y)
  }

  lemma UnbrokenBelow(done: set<Mark>, id: Path, x: Path)
    requires Unbroken(done, id, x) && x != []
    ensures id < id + x && !Broken(done, id)
    ensures id + [x[0]] + x[1..] == id + x && Unbroken(done, id + [x[0]], x[1..])
  {
    assert id + [x[0]] + x[1..] == id + x;
    assert id <= id < id + x;
    forall y | id + [x[0]] <= y < id + [x[0]] + x[1..]
      ensures !Broken(done, y)
    {
      assert id <= y;
    }
  }

  // ----- putting something new at the place of a spot -----

  /** If only what is marked at or below the spot is new, putting what the spot can be now at
      its place gives what the whole can be now. */
  lemma {:induction false} PutAtSpot(d: Delta, id: Path, done: set<Mark>, done': set<Mark>, v: Option<Value>,
                                     before: Option<Value>, after: Option<Value>, x: Path, w: Option<Value>)
    requires Describes(d, before, after) && Settled(d) && Find(d, before, after, x).Some?
    requires AgreeOutside(done, done', id + x) && Unbroken(done, id, x)
    requires Reached(d, id, done, v, before, after)
    requires var s := Find(d, before, after, x).value; Reached(s.delta, id + x, done', w, s.before, s.after)
    ensures var r := Put(v, Find(d, before, after, x).value.place, w);
            Reached(d, id, done', r, before, after)
    decreases d
  {
    if x == [] {
      assert id + x == id;
    } else if d.Fields? {
      PutAtFieldSpot(d.fields, id, done, done', v.value.fields, FieldsOf(before), FieldsOf(after), x, w);
    } else {
      UnbrokenBelow(done, id, x);
      assert !(id + x <= id);
      assert Listed(id) in done <==> Listed(id) in done';
      assert Overfull(id) in done <==> Overfull(id) in done';
      DistinctItemsOf(d.items, |ItemsOf(before)|, |ItemsOf(after)|);
      PutAtItemSpot(d.items, 0, id, done, done', v.value.items, ItemsOf(before), ItemsOf(after), x, w);
      var place, list := Find(d, before, after, x).value.place, v.value.items;
      var i := ItemNamed(list, place[0]).value;
      var child := Put(Some(list[i]), place[1..], w);
      assert WithSlot(list, i, child) == list[i := child.value];
      HasMoreKept(list, i, child.value, |ItemsOf(before)|);
    }
  }

  lemma HasMoreKept(list: seq<Value>, i: nat, v: Value, n: nat)
    requires i < |list| && !v.Hole?
    ensures HasMore(list, n) ==> HasMore(list[i := v], n)
  {
    if HasMore(list, n) {
      var j :| n <= j < |list| && !list[j].Hole?;
      assert !list[i := v][j].Hole?;
    }
  }

  lemma {:induction false} PutAtFieldSpot(fields: FieldDeltas, id: Path, done: set<Mark>, done': set<Mark>,
                                          now: map<string, Value>, before: map<string, Value>,
                                          after: map<string, Value>, x: Path, w: Option<Value>)
    requires DescribesFields(fields, before, after) && SettledFields(fields)
    requires x != [] && FindField(fields, before, after, x).Some?
    requires AgreeOutside(done, done', id + x) && Unbroken(done, id, x)
    requires ReachedFields(fields, id, done, now, before, after)
    requires var s := FindField(fields, before, after, x).value; Reached(s.delta, id + x, done', w, s.before, s.after)
    ensures var s := FindField(fields, before, after, x).value;
            && s.place != [] && s.place[0] == x[0] && x[0] in KeysOf(fields)
            && var child := Put(FieldAt(now, x[0]), s.place[1..], w);
               ReachedFields(fields, id, done', WithField(now, x[0], child), before, after)
    decreases fields
  {
    var key, b, a := fields.key, FieldAt(before, fields.key), FieldAt(after, fields.key);
    if key == x[0] {
      var inner := Find(fields.delta, b, a, x[1..]).value;
      assert ([key] + inner.place)[1..] == inner.place;
      UnbrokenBelow(done, id, x);
      PutAtSpot(fields.delta, id + [key], done, done', FieldAt(now, key), b, a, x[1..], w);
      var child := Put(FieldAt(now, key), inner.place, w);
      assert FieldAt(WithField(now, key, child), key) == child;
      forall k | k in KeysOf(fields.others)
        ensures AgreeUnder(done, done', id + [k])
      {
        OtherPartAgrees(done, done', id, x, k);
      }
      ReachedFieldsAgree(fields.others, id, done, done', now, before, after);
      OtherFieldsKept(fields.others, id, done', now, before, after, key, child);
    } else {
      PutAtFieldSpot(fields.others, id, done, done', now, before, after, x, w);
      OtherPartAgrees(done, done', id, x, key);
      ReachedAgrees(fields.delta, id + [key], done, done', FieldAt(now, key), b, a);
    }
  }

  lemma {:induction false} OtherFieldsKept(fields: FieldDeltas, id: Path, done: set<Mark>, now: map<string, Value>,
                                           before: map<string, Value>, after: map<string, Value>, key: string,
                                           v: Option<Value>)
    requires ReachedFields(fields, id, done, now, before, after) && key !in KeysOf(fields)
    ensures ReachedFields(fields, id, done, WithField(now, key, v), before, after)
    decreases fields
  {
    if fields.Field? {
      assert FieldAt(WithField(now, key, v), fields.key) == FieldAt(now, fields.key);
      OtherFieldsKept(fields.others, id, done, now, before, after, key, v);
    }
  }

  /** No two items share an index. */
  ghost predicate DistinctItems(items: ItemDeltas) {
    match items
    case NoItems => true
    case ItemAt(item, _, others) =>
      && (forall c :: 0 <= c < |MappingOf(others)| ==> NothingShared(item, MappingOf(others)[c]))
      && DistinctItems(others)
  }

  lemma {:induction false} DistinctTail(items: ItemDeltas)
    requires forall c, c' :: 0 <= c < c' < |MappingOf(items)| ==>
      NothingShared(MappingOf(items)[c], MappingOf(items)[c'])
    ensures DistinctItems(items)
  {
    if items.ItemAt? {
      var mapping, rest := MappingOf(items), MappingOf(items.others);
      forall c | 0 <= c < |rest|
        ensures rest[c] == mapping[c + 1] && NothingShared(items.item, rest[c])
      {
        assert NothingShared(mapping[0], mapping[c + 1]);
      }
      DistinctTail(items.others);
    }
  }

  lemma DistinctItemsOf(items: ItemDeltas, nb: nat, na: nat)
    requires Exact(MappingOf(items), nb, na)
    ensures DistinctItems(items)
  {
    DistinctTail(items);
  }

  /** No item depends on what is at the index: none stays there, and none was put there if the
      item changes are applied. */
  ghost predicate Clear(items: ItemDeltas, i: nat, listed: bool) {
    match items
    case NoItems => true
    case ItemAt(item, d, others) =>
      && (if Direct(d) then listed ==> item.afterIndex != Some(i) else item.beforeIndex != Some(i))
      && Clear(others, i, listed)
  }

  lemma {:induction false} ClearOfShared(items: ItemDeltas, item: IndexMappingItem, i: nat, listed: bool)
    requires forall c :: 0 <= c < |MappingOf(items)| ==> NothingShared(item, MappingOf(items)[c])
    requires item == IndexMappingItem(Some(i), Some(i))
    ensures Clear(items, i, listed)
  {
    if items.ItemAt? {
      var mapping, rest := MappingOf(items), MappingOf(items.others);
      assert NothingShared(item, mapping[0]);
      forall c | 0 <= c < |rest|
        ensures NothingShared(item, rest[c])
      {
        assert mapping[c + 1] == rest[c];
      }
      ClearOfShared(items.others, item, i, listed);
    }
  }

  /** The items stay reached when something no item depends on changes. */
  lemma {:induction false} OtherItemsKept(items: ItemDeltas, position: nat, id: Path, done: set<Mark>, list: seq<Value>,
                                          list': seq<Value>, before: seq<Value>, after: seq<Value>, i: nat)
    requires ReachedItems(items, position, id, done, list, before, after) && Clear(items, i, Listed(id) in done)
    requires |list| <= |list'| && forall j :: 0 <= j < |list| && j != i ==> list'[j] == list[j]
    ensures ReachedItems(items, position, id, done, list', before, after)
    decreases items
  {
    if items.ItemAt? {
      OtherItemsKept(items.others, position + 1, id, done, list, list', before, after, i);
    }
  }

  lemma ReachedNoHole(d: Delta, id: Path, done: set<Mark>, done': set<Mark>, v: Option<Value>, v': Option<Value>,
                      before: Option<Value>, after: Option<Value>)
    requires !Direct(d) && Reached(d, id, done, v, before, after) && Reached(d, id, done', v', before, after)
    requires v.Some? && !v.value.Hole?
    ensures v'.Some? && !v'.value.Hole?
  {}

  /** An item at the index stays, with no other item there before or after. */
  ghost predicate StaysAt(items: ItemDeltas, index: nat) {
    exists c :: 0 <= c < |MappingOf(items)| && MappingOf(items)[c] == IndexMappingItem(Some(index), Some(index))
  }

  lemma StaysAtTail(items: ItemDeltas, index: nat)
    requires items.ItemAt? && DistinctItems(items) && StaysAt(items.others, index)
    ensures StaysAt(items, index) && items.item.beforeIndex != Some(index) && items.item.afterIndex != Some(index)
  {
    var mapping, rest := MappingOf(items), MappingOf(items.others);
    var c :| 0 <= c < |rest| && rest[c] == IndexMappingItem(Some(index), Some(index));
    assert mapping[c + 1] == rest[c];
    assert NothingShared(items.item, rest[c]);
  }

  lemma {:induction false} PutAtItemSpot(items: ItemDeltas, position: nat, id: Path, done: set<Mark>, done': set<Mark>,
                                         list: seq<Value>, before: seq<Value>, after: seq<Value>, x: Path,
                                         w: Option<Value>)
    requires DescribesItems(items, before, after) && SettledItems(items) && DistinctItems(items)
    requires x != [] && FindItem(items, position, before, after, x).Some?
    requires AgreeOutside(done, done', id + x) && Unbroken(done, id, x)
    requires ReachedItems(items, position, id, done, list, before, after)
    requires var s := FindItem(items, position, before, after, x).value;
             Reached(s.delta, id + x, done', w, s.before, s.after)
    ensures var s := FindItem(items, position, before, after, x).value;
            && s.place != []
            && var i := ItemNamed(list, s.place[0]);
               && i.Some? && StaysAt(items, i.value)
               && var child := Put(Some(list[i.value]), s.place[1..], w);
                  && child.Some? && !child.value.Hole?
                  && ReachedItems(items, position, id, done', list[i.value := child.value], before, after)
    decreases items
  {
    var item, part := items.item, IndexName(position);
    var b, a := ItemOf(before, item.beforeIndex), ItemOf(after, item.afterIndex);
    UnbrokenBelow(done, id, x);
    assert !(id + x <= id);
    assert Listed(id) in done <==> Listed(id) in done';
    if part == x[0] {
      var i := item.beforeIndex.value;
      var inner := Find(items.delta, b, a, x[1..]).value;
      assert ([IndexName(i)] + inner.place)[1..] == inner.place;
      IndexOfName(i);
      assert MappingOf(items)[0] == item == IndexMappingItem(Some(i), Some(i));
      PutAtSpot(items.delta, id + [part], done, done', Some(list[i]), b, a, x[1..], w);
      var child := Put(Some(list[i]), inner.place, w);
      ReachedNoHole(items.delta, id + [part], done, done', Some(list[i]), child, b, a);
      OtherPositionsAgree(items, position, id, done, done', x, list, before, after);
      ClearOfShared(items.others, item, i, Listed(id) in done');
      OtherItemsKept(items.others, position + 1, id, done', list, list[i := child.value], before, after, i);
    } else {
      PutAtItemSpot(items.others, position + 1, id, done, done', list, before, after, x, w);
      OtherPartAgrees(done, done', id, x, part);
      if !Direct(items.delta) {
        ReachedAgrees(items.delta, id + [part], done, done', Some(list[item.beforeIndex.value]), b, a);
      }
      var s := FindItem(items.others, position + 1, before, after, x).value;
      StaysAtTail(items, ItemNamed(list, s.place[0]).value);
    }
  }

  lemma OtherPositionsAgree(items: ItemDeltas, position: nat, id: Path, done: set<Mark>, done': set<Mark>, x: Path,
                            list: seq<Value>, before: seq<Value>, after: seq<Value>)
    requires items.ItemAt? && x != [] && x[0] == IndexName(position) && AgreeOutside(done, done', id + x)
    requires Listed(id) in done <==> Listed(id) in done'
    requires ReachedItems(items.others, position + 1, id, done, list, before, after)
    ensures ReachedItems(items.others, position + 1, id, done', list, before, after)
  {
    forall q: nat | q >= position + 1
      ensures AgreeUnder(done, done', id + [IndexName(q)])
    {
      if IndexName(q) == IndexName(position) {
        IndexNameInjective(q, position);
      }
      OtherPartAgrees(done, done', id, x, IndexName(q));
    }
    ReachedItemsAgree(items.others, position + 1, id, done, done', list, before, after);
  }

  // ----- getting what a spot is now from its place -----

  /** The place of an object or list leads to what it is now. */
  lemma {:induction false} GetAtSpot(d: Delta, id: Path, done: set<Mark>, v: Option<Value>, before: Option<Value>,
                                     after: Option<Value>, x: Path)
    requires Describes(d, before, after) && Settled(d) && Find(d, before, after, x).Some?
    requires IsContainer(Find(d, before, after, x).value.delta)
    requires Reached(d, id, done, v, before, after) && Unbroken(done, id, x)
    ensures var s := Find(d, before, after, x).value;
            && v.Some? && Get(v.value, s.place).Some?
            && Reached(s.delta, id + x, done, Get(v.value, s.place), s.before, s.after)
    decreases d
  {
    if x == [] {
      assert id + x == id;
    } else if d.Fields? {
      GetAtFieldSpot(d.fields, id, done, v.value.fields, FieldsOf(before), FieldsOf(after), x);
    } else {
      UnbrokenBelow(done, id, x);
      GetAtItemSpot(d.items, 0, id, done, v.value.items, ItemsOf(before), ItemsOf(after), x);
    }
  }

  lemma {:induction false} GetAtFieldSpot(fields: FieldDeltas, id: Path, done: set<Mark>, now: map<string, Value>,
                                          before: map<string, Value>, after: map<string, Value>, x: Path)
    requires DescribesFields(fields, before, after) && SettledFields(fields)
    requires x != [] && FindField(fields, before, after, x).Some?
    requires IsContainer(FindField(fields, before, after, x).value.delta)
    requires ReachedFields(fields, id, done, now, before, after) && Unbroken(done, id, x)
    ensures var s := FindField(fields, before, after, x).value;
            && s.place != [] && s.place[0] in now && Get(now[s.place[0]], s.place[1..]).Some?
            && Reached(s.delta, id + x, done, Get(now[s.place[0]], s.place[1..]), s.before, s.after)
    decreases fields
  {
    var key, b, a := fields.key, FieldAt(before, fields.key), FieldAt(after, fields.key);
    if key == x[0] {
      var inner := Find(fields.delta, b, a, x[1..]).value;
      assert ([key] + inner.place)[1..] == inner.place;
      UnbrokenBelow(done, id, x);
      GetAtSpot(fields.delta, id + [key], done, FieldAt(now, key), b, a, x[1..]);
    } else {
      GetAtFieldSpot(fields.others, id, done, now, before, after, x);
    }
  }

  lemma {:induction false} GetAtItemSpot(items: ItemDeltas, position: nat, id: Path, done: set<Mark>, list: seq<Value>,
                                         before: seq<Value>, after: seq<Value>, x: Path)
    requires DescribesItems(items, before, after) && SettledItems(items)
    requires x != [] && FindItem(items, position, before, after, x).Some?
    requires IsContainer(FindItem(items, position, before, after, x).value.delta)
    requires ReachedItems(items, position, id, done, list, before, after) && Unbroken(done, id, x)
    ensures var s := FindItem(items, position, before, after, x).value;
            && s.place != []
            && var i := ItemNamed(list, s.place[0]);
               && i.Some? && Get(list[i.value], s.place[1..]).Some?
               && Reached(s.delta, id + x, done, Get(list[i.value], s.place[1..]), s.before, s.after)
    decreases items
  {
    var item, part := items.item, IndexName(position);
    if part == x[0] {
      var i := item.beforeIndex.value;
      var b, a := ItemOf(before, item.beforeIndex), ItemOf(after, item.afterIndex);
      var inner := Find(items.delta, b, a, x[1..]).value;
      assert ([IndexName(i)] + inner.place)[1..] == inner.place;
      IndexOfName(i);
      UnbrokenBelow(done, id, x);
      GetAtSpot(items.delta, id + [part], done, Some(list[i]), b, a, x[1..]);
    } else {
      GetAtItemSpot(items.others, position + 1, id, done, list, before, after, x);
    }
  }

  lemma {:induction false} PlaceAsLong(d: Delta, before: Option<Value>, after: Option<Value>, x: Path)
    requires Find(d, before, after, x).Some?
    ensures |Find(d, before, after, x).value.place| == |x|
    decreases d
  {
    if x == [] {
    } else if d.Fields? {
      FieldPlaceAsLong(d.fields, FieldsOf(before), FieldsOf(after), x);
    } else {
      ItemPlaceAsLong(d.items, 0, ItemsOf(before), ItemsOf(after), x);
    }
  }

  lemma {:induction false} FieldPlaceAsLong(fields: FieldDeltas, before: map<string, Value>, after: map<string, Value>,
                                            x: Path)
    requires x != [] && FindField(fields, before, after, x).Some?
    ensures |FindField(fields, before, after, x).value.place| == |x|
    decreases fields
  {
    if fields.key == x[0] {
      PlaceAsLong(fields.delta, FieldAt(before, fields.key), FieldAt(after, fields.key), x[1..]);
    } else {
      FieldPlaceAsLong(fields.others, before, after, x);
    }
  }

  lemma {:induction false} ItemPlaceAsLong(items: ItemDeltas, position: nat, before: seq<Value>, after: seq<Value>,
                                           x: Path)
    requires x != [] && FindItem(items, position, before, after, x).Some?
    ensures |FindItem(items, position, before, after, x).value.place| == |x|
    decreases items
  {
    if IndexName(position) == x[0] {
      PlaceAsLong(items.delta, ItemOf(before, items.item.beforeIndex), ItemOf(after, items.item.afterIndex), x[1..]);
    } else {
      ItemPlaceAsLong(items.others, position + 1, before, after, x);
    }
  }

  // ----- at first it is the value before -----

  lemma {:induction false} StartReached(d: Delta, id: Path, before: Option<Value>, after: Option<Value>)
    requires Describes(d, before, after) && Settled(d) && PlainOption(before)
    ensures Reached(d, id, {}, before, before, after)
    decreases d
  {
    if d.Fields? {
      StartFields(d.fields, id, FieldsOf(before), FieldsOf(after));
    } else if d.Items? {
      StartItems(d.items, 0, id, ItemsOf(before), ItemsOf(after));
    }
  }

  lemma {:induction false} StartFields(fields: FieldDeltas, id: Path, before: map<string, Value>,
                                       after: map<string, Value>)
    requires DescribesFields(fields, before, after) && SettledFields(fields) && Plain(Obj(before))
    ensures ReachedFields(fields, id, {}, before, before, after)
    decreases fields
  {
    if fields.Field? {
      StartReached(fields.delta, id + [fields.key], FieldAt(before, fields.key), FieldAt(after, fields.key));
      StartFields(fields.others, id, before, after);
    }
  }

  lemma {:induction false} StartItems(items: ItemDeltas, position: nat, id: Path, before: seq<Value>, after: seq<Value>)
    requires DescribesItems(items, before, after) && SettledItems(items) && Plain(List(before))
    ensures ReachedItems(items, position, id, {}, before, before, after)
    decreases items
  {
    if items.ItemAt? {
      if !Direct(items.delta) {
        StartReached(items.delta, id + [IndexName(position)], ItemOf(before, items.item.beforeIndex),
                     ItemOf(after, items.item.afterIndex));
      }
      StartItems(items.others, position + 1, id, before, after);
    }
  }

  // ----- at last it is the value after -----

  /** The marks of all the changes. */
  function Marks(d: Delta, id: Path): set<Mark>
    decreases d
  {
    match d
    case Same => {}
    case Fields(fields) => FieldMarks(fields, id)
    case Items(items) => ItemMarks(items, 0, id)
    case _ => {Set(id)}
  }

  function FieldMarks(fields: FieldDeltas, id: Path): set<Mark>
    decreases fields
  {
    match fields
    case NoFields => {}
    case Field(key, d, others) => Marks(d, id + [key]) + FieldMarks(others, id)
  }

  function ItemMarks(items: ItemDeltas, position: nat, id: Path): set<Mark>
    decreases items
  {
    match items
    case NoItems => {}
    case ItemAt(_, d, others) =>
      (if Direct(d) then {Listed(id)} else Marks(d, id + [IndexName(position)])) + ItemMarks(others, position + 1, id)
  }

  ghost predicate NothingOverfull(done: set<Mark>) {
    forall m :: m in done ==> !m.Overfull?
  }

  /** When every change is applied and no list got more items, this is the value after. */
  lemma {:induction false} LastReached(d: Delta, id: Path, done: set<Mark>, v: Option<Value>, before: Option<Value>,
                                       after: Option<Value>)
    requires Describes(d, before, after) && Settled(d) && Marks(d, id) <= done && NothingOverfull(done)
    requires PlainOption(after)
    requires Reached(d, id, done, v, before, after)
    ensures v == after
    decreases d
  {
    if d.Fields? {
      LastFields(d.fields, id, done, v.value.fields, FieldsOf(before), FieldsOf(after));
      SameFields(v.value.fields, FieldsOf(after), KeysOf(d.fields));
    } else if d.Items? {
      var list, b, a := v.value.items, ItemsOf(before), ItemsOf(after);
      LastItems(d.items, 0, id, done, list, b, a);
      if Listed(id) !in done {
        NothingMovedAmong(d.items, 0, id, done, b, a);
        IndexStays(MappingOf(d.items), |b|, |a|, |b|);
        IndexStays(MappingOf(d.items), |b|, |a|, |a|);
      }
      forall i | 0 <= i < |a|
        ensures list[i] == a[i]
      {
        assert CoversAfter(MappingOf(d.items), i);
        var c :| 0 <= c < |MappingOf(d.items)| && MappingOf(d.items)[c].afterIndex == Some(i);
        assert SameAt(list, a, i);
      }
      assert !(Overfull(id) in done);
      assert list == a;
    }
  }

  lemma SameFields(m: map<string, Value>, m': map<string, Value>, keys: set<string>)
    requires m.Keys <= keys && m'.Keys <= keys && forall key :: key in keys ==> FieldAt(m, key) == FieldAt(m', key)
    ensures m == m'
  {
    forall key
      ensures key in m <==> key in m'
      ensures key in m && key in m' ==> m[key] == m'[key]
    {
      assert key in keys ==> FieldAt(m, key) == FieldAt(m', key);
    }
  }

  lemma {:induction false} LastFields(fields: FieldDeltas, id: Path, done: set<Mark>, now: map<string, Value>,
                                      before: map<string, Value>, after: map<string, Value>)
    requires DescribesFields(fields, before, after) && SettledFields(fields) && FieldMarks(fields, id) <= done
    requires Plain(Obj(after))
    requires NothingOverfull(done) && ReachedFields(fields, id, done, now, before, after)
    ensures forall key :: key in KeysOf(fields) ==> FieldAt(now, key) == FieldAt(after, key)
    decreases fields
  {
    if fields.Field? {
      var key := fields.key;
      LastReached(fields.delta, id + [key], done, FieldAt(now, key), FieldAt(before, key), FieldAt(after, key));
      LastFields(fields.others, id, done, now, before, after);
    }
  }

  lemma {:induction false} LastItems(items: ItemDeltas, position: nat, id: Path, done: set<Mark>, list: seq<Value>,
                                     before: seq<Value>, after: seq<Value>)
    requires DescribesItems(items, before, after) && SettledItems(items) && ItemMarks(items, position, id) <= done
    requires Plain(List(after))
    requires NothingOverfull(done) && ReachedItems(items, position, id, done, list, before, after)
    ensures forall c :: 0 <= c < |MappingOf(items)| && MappingOf(items)[c].afterIndex.Some? ==>
      SameAt(list, after, MappingOf(items)[c].afterIndex.value)
    decreases items
  {
    if items.ItemAt? {
      var mapping, rest := MappingOf(items), MappingOf(items.others);
      LastItems(items.others, position + 1, id, done, list, before, after);
      if !Direct(items.delta) {
        LastReached(items.delta, id + [IndexName(position)], done, Some(list[items.item.beforeIndex.value]),
                    ItemOf(before, items.item.beforeIndex), ItemOf(after, items.item.afterIndex));
      }
      assert mapping[0] == items.item;
      assert forall c :: 0 < c < |mapping| ==> mapping[c] == rest[c - 1];
    }
  }

  /** Without changes on the items themselves, every item stays. */
  lemma {:induction false} NothingMovedAmong(items: ItemDeltas, position: nat, id: Path, done: set<Mark>,
                                             before: seq<Value>, after: seq<Value>)
    requires SettledItems(items) && ItemMarks(items, position, id) <= done && Listed(id) !in done
    ensures forall c :: 0 <= c < |MappingOf(items)| ==> !Moved(MappingOf(items)[c])
    decreases items
  {
    if items.ItemAt? {
      var mapping, rest := MappingOf(items), MappingOf(items.others);
      assert !Direct(items.delta);
      NothingMovedAmong(items.others, position + 1, id, done, before, after);
      assert mapping[0] == items.item;
      assert forall c :: 0 < c < |mapping| ==> mapping[c] == rest[c - 1];
    }
  }

  lemma IndexStays(mapping: seq<IndexMappingItem>, nb: nat, na: nat, i: nat)
    requires Exact(mapping, nb, na) && forall c :: 0 <= c < |mapping| ==> !Moved(mapping[c])
    ensures i < nb <==> i < na
  {
    if i < nb {
      assert CoversBefore(mapping, i);
      var c :| 0 <= c < |mapping| && mapping[c].beforeIndex == Some(i);
      assert !Moved(mapping[c]);
    }
    if i < na {
      assert CoversAfter(mapping, i);
      var c :| 0 <= c < |mapping| && mapping[c].afterIndex == Some(i);
      assert !Moved(mapping[c]);
    }
  }

  // ----- unless a list got more items -----

  /** A list that is broken is never what it should be, and neither is the whole. */
  lemma {:induction false} BrokenIsWrong(d: Delta, id: Path, done: set<Mark>, v: Option<Value>, before: Option<Value>,
                                         after: Option<Value>, x: Path)
    requires Describes(d, before, after) && Settled(d) && Reached(d, id, done, v, before, after)
    requires Find(d, before, after, x).Some? && Find(d, before, after, x).value.delta.Items?
    requires Broken(done, id + x)
    ensures v != after
    decreases d
  {
    if x == [] {
      assert id + x == id;
    } else if d.Fields? {
      BrokenField(d.fields, id, done, v.value.fields, FieldsOf(before), FieldsOf(after), x);
    } else if !Broken(done, id) {
      BrokenItem(d.items, 0, id, done, v.value.items, ItemsOf(before), ItemsOf(after), x);
    }
  }

  lemma {:induction false} BrokenField(fields: FieldDeltas, id: Path, done: set<Mark>, now: map<string, Value>,
                                       before: map<string, Value>, after: map<string, Value>, x: Path)
    requires DescribesFields(fields, before, after) && SettledFields(fields)
    requires ReachedFields(fields, id, done, now, before, after)
    requires x != [] && FindField(fields, before, after, x).Some?
    requires FindField(fields, before, after, x).value.delta.Items?
    requires Broken(done, id + x)
    ensures now != after
    decreases fields
  {
    if fields.key == x[0] {
      assert id + [fields.key] + x[1..] == id + x;
      BrokenIsWrong(fields.delta, id + [fields.key], done, FieldAt(now, fields.key), FieldAt(before, fields.key),
                    FieldAt(after, fields.key), x[1..]);
    } else {
      BrokenField(fields.others, id, done, now, before, after, x);
    }
  }

  lemma {:induction false} BrokenItem(items: ItemDeltas, position: nat, id: Path, done: set<Mark>, list: seq<Value>,
                                      before: seq<Value>, after: seq<Value>, x: Path)
    requires DescribesItems(items, before, after) && SettledItems(items)
    requires ReachedItems(items, position, id, done, list, before, after)
    requires x != [] && FindItem(items, position, before, after, x).Some?
    requires FindItem(items, position, before, after, x).value.delta.Items? && Broken(done, id + x)
    ensures list != after
    decreases items
  {
    var item, part := items.item, IndexName(position);
    if part == x[0] {
      assert id + [part] + x[1..] == id + x;
      BrokenIsWrong(items.delta, id + [part], done, Some(list[item.beforeIndex.value]),
                    ItemOf(before, item.beforeIndex), ItemOf(after, item.afterIndex), x[1..]);
    } else {
      BrokenItem(items.others, position + 1, id, done, list, before, after, x);
    }
  }
}
