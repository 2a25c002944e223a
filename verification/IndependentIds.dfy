/** `getIndependentElemIDs`: dropping the ids that lie below another id of the list. */
module IndependentIds {
  import opened Sorting
  import opened Values

  // ----- the order the ids are sorted in -----

  /** What comparing arrays of name parts compares, past what all ids have in common: the
      parts as one string, a comma before each. */
  function Joined(id: Path): string {
    if id == [] then "" else "," + id[0] + Joined(id[1..])
  }

  predicate StringLe(a: string, b: string) {
    a == "" || (b != "" && (a[0] < b[0] || (a[0] == b[0] && StringLe(a[1..], b[1..]))))
  }

  predicate IdLe(a: Path, b: Path) {
    StringLe(Joined(a), Joined(b))
  }

  lemma {:induction false} StringLeTotal(a: string, b: string)
    ensures StringLe(a, b) || StringLe(b, a)
  {
    if a != "" && b != "" {
      StringLeTotal(a[1..], b[1..]);
    }
  }

  lemma {:induction false} StringLeTransitive(a: string, b: string, c: string)
    requires StringLe(a, b) && StringLe(b, c)
    ensures StringLe(a, c)
  {
    if a != "" && a[0] == b[0] == c[0] {
      StringLeTransitive(a[1..], b[1..], c[1..]);
    }
  }

  lemma IdLePreorder()
    ensures TotalPreorder(IdLe)
  {
    forall a, b
      ensures IdLe(a, b) || IdLe(b, a)
    {
      StringLeTotal(Joined(a), Joined(b));
    }
    forall a, b, c | IdLe(a, b) && IdLe(b, c)
      ensures IdLe(a, c)
    {
      StringLeTransitive(Joined(a), Joined(b), Joined(c));
    }
  }

  lemma {:induction false} PrefixLe(a: string, b: string)
    ensures StringLe(a, a + b)
    ensures b != "" ==> !StringLe(a + b, a)
  {
    if a != "" {
      PrefixLe(a[1..], b);
      assert (a + b)[1..] == a[1..] + b;
    }
  }

  lemma {:induction false} JoinedConcat(a: Path, b: Path)
    ensures Joined(a + b) == Joined(a) + Joined(b)
  {
    if a == [] {
      assert a + b == b;
    } else {
      JoinedConcat(a[1..], b);
      assert (a + b)[1..] == a[1..] + b;
    }
  }

  /** An ancestor sorts strictly before what is below it. */
  lemma AncestorSortsFirst(a: Path, b: Path)
    requires a < b
    ensures IdLe(a, b) && !IdLe(b, a)
  {
    var rest := b[|a|..];
    assert b == a + rest;
    JoinedConcat(a, rest);
    PrefixLe(Joined(a), Joined(rest));
  }

  // ----- the filter -----

  /** No other id of the list is a strict ancestor. */
  predicate Independent(id: Path, ids: seq<Path>) {
    forall a :: a in ids ==> !(a < id)
  }

  /** What the function is for: the ids with no ancestor in the list, in the list's order. */
  function IndependentIds(ids: seq<Path>): seq<Path> {
    Filter(id => Independent(id, ids), ids)
  }

  /** The sorted ids not below the last one kept. */
  function KeptAfter(last: Path, sorted: seq<Path>): set<Path>
    decreases |sorted|
  {
    if sorted == [] then {}
    else if last < sorted[0] then KeptAfter(last, sorted[1..])
    else {sorted[0]} + KeptAfter(sorted[0], sorted[1..])
  }

  function Kept(sorted: seq<Path>): set<Path> {
    if sorted == [] then {} else KeptAfter(sorted[0], sorted)
  }

  function GetIndependent(ids: seq<Path>): seq<Path> {
    Filter(id => id in Kept(SortBy(IdLe, ids)), ids)
  }

  method GetIndependentElemIDs(elemIDs: seq<Path>) returns (independent: seq<Path>)
    ensures independent == GetIndependent(elemIDs)
  {
    var sortedIDs := SortBy(IdLe, elemIDs);
    var toReturn: set<Path> := {};
    if |sortedIDs| > 0 {
      var lastId := sortedIDs[0];
      for i := 0 to |sortedIDs|
        invariant toReturn + KeptAfter(lastId, sortedIDs[i..]) == Kept(sortedIDs)
      {
        if !(lastId < sortedIDs[i]) {
          lastId := sortedIDs[i];
          toReturn := toReturn + {lastId};
        }
      }
    }
    independent := Filter(id => id in toReturn, elemIDs);
    assert toReturn == Kept(sortedIDs);
  }

  // ----- exactly when the filter is right -----

  /** An id that should go sorts after an independent id that is not its ancestor, with no
      other independent id in between. */
  predicate Separates(sorted: seq<Path>, q: nat, r: nat) {
    && q < r < |sorted|
    && Independent(sorted[q], sorted) && !Independent(sorted[r], sorted)
    && !(sorted[q] < sorted[r])
    && forall m :: q < m < r ==> !Independent(sorted[m], sorted)
  }

  ghost predicate Separated(sorted: seq<Path>) {
    exists q, r :: Separates(sorted, q, r)
  }

  /** `last` is the closest independent id before position `i`, at position `q`. */
  ghost predicate LastIndependent(sorted: seq<Path>, i: nat, q: nat, last: Path) {
    && q < i <= |sorted| && sorted[q] == last && Independent(last, sorted)
    && forall m :: q < m < i ==> !Independent(sorted[m], sorted)
  }

  lemma {:induction false} KeepsIndependent(sorted: seq<Path>, i: nat, q: nat, last: Path)
    requires LastIndependent(sorted, i, q, last) && !Separated(sorted)
    ensures forall id :: id in KeptAfter(last, sorted[i..]) <==> id in sorted[i..] && Independent(id, sorted)
    decreases |sorted| - i
  {
    if i < |sorted| {
      var rest := sorted[i..];
      assert rest[0] == sorted[i] && rest[1..] == sorted[i + 1..];
      if Independent(sorted[i], sorted) {
        assert last in sorted;
        KeepsIndependent(sorted, i + 1, i, sorted[i]);
      } else {
        assert !Separates(sorted, q, i);
        KeepsIndependent(sorted, i + 1, q, last);
      }
    }
  }

  /** Whatever was kept before it, an independent id is kept. */
  lemma {:induction false} IndependentIsKept(sorted: seq<Path>, i: nat, last: Path, q: nat)
    requires i <= q < |sorted| && Independent(sorted[q], sorted) && last in sorted
    ensures sorted[q] in KeptAfter(last, sorted[i..])
    ensures KeptAfter(sorted[q], sorted[q + 1..]) <= KeptAfter(last, sorted[i..])
    decreases q - i
  {
    var rest := sorted[i..];
    assert rest[0] == sorted[i] && rest[1..] == sorted[i + 1..];
    if i < q {
      IndependentIsKept(sorted, i + 1, if last < rest[0] then last else rest[0], q);
    }
  }

  /** The filter never drops an independent id. */
  lemma NeverDropsIndependent(ids: seq<Path>, id: Path)
    requires id in ids && Independent(id, ids)
    ensures id in GetIndependent(ids)
  {
    var sorted := SortBy(IdLe, ids);
    SortByMembers(IdLe, ids);
    SortedIndependence(ids);
    FilterMembers(x => x in Kept(sorted), ids);
    var q :| 0 <= q < |sorted| && sorted[q] == id;
    assert sorted[0] in sorted && sorted[0..] == sorted;
    IndependentIsKept(sorted, 0, sorted[0], q);
  }

  /** With nothing independent in between, a separated id is kept too, or one between. */
  lemma {:induction false} SeparatedIsKept(sorted: seq<Path>, i: nat, q: nat, r: nat)
    requires Separates(sorted, q, r) && q < i <= r
    ensures exists id :: id in KeptAfter(sorted[q], sorted[i..]) && !Independent(id, sorted)
    decreases r - i
  {
    var rest := sorted[i..];
    assert rest[0] == sorted[i] && rest[1..] == sorted[i + 1..];
    if sorted[q] < sorted[i] {
      SeparatedIsKept(sorted, i + 1, q, r);
    } else {
      assert sorted[i] in KeptAfter(sorted[q], rest) && !Independent(sorted[i], sorted);
    }
  }

  lemma FirstIsIndependent(ids: seq<Path>)
    requires ids != []
    ensures Independent(SortBy(IdLe, ids)[0], SortBy(IdLe, ids))
  {
    var sorted := SortBy(IdLe, ids);
    SortByMembers(IdLe, ids);
    IdLePreorder();
    SortBySorted(IdLe, ids);
    forall a | a in sorted
      ensures !(a < sorted[0])
    {
      var i :| 0 <= i < |sorted| && sorted[i] == a;
      assert i > 0 ==> IdLe(sorted[0], sorted[i]);
      if a < sorted[0] {
        AncestorSortsFirst(a, sorted[0]);
      }
    }
  }

  lemma SortedIndependence(ids: seq<Path>)
    ensures forall id :: Independent(id, SortBy(IdLe, ids)) <==> Independent(id, ids)
  {
    SortByMembers(IdLe, ids);
  }

  /** A separated id, or one between, is kept although it should go. */
  lemma WronglyKept(sorted: seq<Path>, q: nat, r: nat) returns (id: Path)
    requires Separates(sorted, q, r)
    ensures id in Kept(sorted) && id in sorted && !Independent(id, sorted)
  {
    assert sorted[0] in sorted && sorted[0..] == sorted;
    IndependentIsKept(sorted, 0, sorted[0], q);
    SeparatedIsKept(sorted, q + 1, q, r);
    id :| id in KeptAfter(sorted[q], sorted[q + 1..]) && !Independent(id, sorted);
    KeptAreSorted(sorted[0], sorted, id);
  }

  lemma SeparatedIsWrong(ids: seq<Path>, q: nat, r: nat)
    requires Separates(SortBy(IdLe, ids), q, r)
    ensures GetIndependent(ids) != IndependentIds(ids)
  {
    var sorted := SortBy(IdLe, ids);
    var id := WronglyKept(sorted, q, r);
    SortByMembers(IdLe, ids);
    SortedIndependence(ids);
    FilterMembers(x => x in Kept(sorted), ids);
    FilterMembers(x => Independent(x, ids), ids);
    assert id in GetIndependent(ids) && id !in IndependentIds(ids);
  }

  lemma NotSeparatedIsRight(ids: seq<Path>)
    requires !Separated(SortBy(IdLe, ids))
    ensures GetIndependent(ids) == IndependentIds(ids)
  {
    var sorted := SortBy(IdLe, ids);
    SortByMembers(IdLe, ids);
    SortedIndependence(ids);
    if ids != [] {
      FirstIsIndependent(ids);
      KeepsIndependent(sorted, 1, 0, sorted[0]);
      assert sorted == [sorted[0]] + sorted[1..];
      forall id | id in ids
        ensures id in Kept(sorted) <==> Independent(id, ids)
      {
        assert id in sorted;
      }
      FilterSame(x => x in Kept(sorted), x => Independent(x, ids), ids);
    }
  }

  /** The filter returns the independent ids if and only if nothing is separated. */
  lemma GetIndependentIsExact(ids: seq<Path>)
    ensures GetIndependent(ids) == IndependentIds(ids) <==> !Separated(SortBy(IdLe, ids))
  {
    if Separated(SortBy(IdLe, ids)) {
      var q, r :| Separates(SortBy(IdLe, ids), q, r);
      SeparatedIsWrong(ids, q, r);
    } else {
      NotSeparatedIsRight(ids);
    }
  }

  lemma {:induction false} KeptAreSorted(last: Path, sorted: seq<Path>, id: Path)
    requires id in KeptAfter(last, sorted)
    ensures id in sorted
    decreases |sorted|
  {
    if id != sorted[0] {
      KeptAreSorted(if last < sorted[0] then last else sorted[0], sorted[1..], id);
    }
  }

  // ----- when nothing is ever separated -----

  /** Every character of the part sorts after the comma that joins the parts. */
  predicate PlainPart(part: string) {
    forall i :: 0 <= i < |part| ==> part[i] > ','
  }

  predicate PlainPath(id: Path) {
    forall i :: 0 <= i < |id| ==> PlainPart(id[i])
  }

  /** Between a string and an extension of it there are only extensions of it. */
  lemma {:induction false} BetweenExtends(s: string, t: string, u: string)
    requires StringLe(s, t) && StringLe(t, s + u)
    ensures |s| <= |t| && t[..|s|] == s && StringLe(t[|s|..], u)
  {
    if s == "" {
      assert s + u == u && t[0..] == t;
    } else {
      assert (s + u)[0] == s[0] && (s + u)[1..] == s[1..] + u;
      BetweenExtends(s[1..], t[1..], u);
      assert t[|s|..] == t[1..][|s| - 1..];
      assert t == [t[0]] + t[1..];
      assert t[..|s|] == [t[0]] + t[1..][..|s| - 1];
    }
  }

  /** A joined plain path starts with a comma and has no character below it. */
  predicate StartsPlain(s: string) {
    s == "" || s[0] == ','
  }

  /** Where two splits of one string differ, the shorter first half is followed by the rest of
      the longer one. */
  lemma LongerPart(p: string, p': string, rest: string, rest': string)
    requires p + rest == p' + rest' && |p'| < |p|
    ensures rest' != "" && rest'[0] == p[|p'|]
  {
    assert p[|p'|] == (p + rest)[|p'|] == (p' + rest')[|p'|];
  }

  /** What follows a plain part in a joined path is nothing or a comma, so parts line up. */
  lemma PartsLineUp(p: string, p': string, rest: string, rest': string)
    requires PlainPart(p) && PlainPart(p') && StartsPlain(rest) && StartsPlain(rest')
    requires p + rest == p' + rest'
    ensures p == p' && rest == rest'
  {
    if |p'| < |p| {
      LongerPart(p, p', rest, rest');
    } else if |p| < |p'| {
      LongerPart(p', p, rest', rest);
    }
    assert p == (p + rest)[..|p|] && p' == (p' + rest')[..|p'|];
    assert rest == (p + rest)[|p|..] && rest' == (p' + rest')[|p'|..];
  }

  /** A joined path that begins like another's first part begins with the same part. */
  lemma JoinedFirst(a: Path, b: Path, w: string)
    requires PlainPath(a) && PlainPath(b) && StartsPlain(w) && a != [] && b != []
    requires Joined(b) == Joined(a) + w
    ensures b[0] == a[0] && Joined(b[1..]) == Joined(a[1..]) + w
  {
    AfterComma(a, w);
    AfterComma(b, "");
    assert Joined(b) + "" == Joined(b) && Joined(b[1..]) + "" == Joined(b[1..]);
    PartsLineUp(b[0], a[0], Joined(b[1..]), Joined(a[1..]) + w);
  }

  lemma AfterComma(a: Path, w: string)
    requires a != [] && StartsPlain(w)
    ensures (Joined(a) + w)[1..] == a[0] + (Joined(a[1..]) + w)
    ensures StartsPlain(Joined(a[1..]) + w)
  {
    CommaDropped(a[0], Joined(a[1..]), w);
    JoinedStartsPlain(a[1..], w);
  }

  lemma CommaDropped(x: string, y: string, z: string)
    ensures ("," + x + y + z)[1..] == x + (y + z)
  {
    assert "," + x + y + z == "," + (x + (y + z));
  }

  lemma JoinedStartsPlain(a: Path, w: string)
    requires StartsPlain(w)
    ensures StartsPlain(Joined(a) + w)
  {
    if a == [] {
      assert Joined(a) + w == w;
    } else {
      assert (Joined(a) + w)[0] == Joined(a)[0] == ',';
    }
  }

  /** On plain paths, extending the joined string by whole parts is extending the path. */
  lemma {:induction false} JoinedExtends(a: Path, b: Path, w: string)
    requires PlainPath(a) && PlainPath(b) && StartsPlain(w)
    requires Joined(b) == Joined(a) + w
    ensures a <= b
  {
    if a != [] {
      assert b != [];
      JoinedFirst(a, b, w);
      JoinedExtends(a[1..], b[1..], w);
      assert b == [b[0]] + b[1..] && a == [a[0]] + a[1..];
    }
  }

  /** So an id that sorts between an ancestor and its descendant extends the ancestor. */
  lemma BetweenIsDescendant(a: Path, z: Path, y: Path)
    requires PlainPath(a) && PlainPath(z) && a < y && IdLe(a, z) && IdLe(z, y)
    ensures a <= z
  {
    var rest := y[|a|..];
    assert y == a + rest;
    JoinedConcat(a, rest);
    BetweenExtends(Joined(a), Joined(z), Joined(rest));
    var w := Joined(z)[|Joined(a)|..];
    assert Joined(z) == Joined(a) + w;
    JoinedChars(z);
    assert w != "" ==> w[0] in Joined(z) && w[0] <= ',';
    JoinedExtends(a, z, w);
  }

  lemma {:induction false} JoinedChars(id: Path)
    requires PlainPath(id)
    ensures forall c :: c in Joined(id) ==> c >= ','
  {
    if id != [] {
      JoinedChars(id[1..]);
      assert PlainPart(id[0]);
    }
  }

  lemma PlainIdsNotSeparated(ids: seq<Path>, q: nat, r: nat)
    requires forall id :: id in ids ==> PlainPath(id)
    ensures !Separates(SortBy(IdLe, ids), q, r)
  {
    var sorted := SortBy(IdLe, ids);
    SortByMembers(IdLe, ids);
    IdLePreorder();
    SortBySorted(IdLe, ids);
    if Separates(sorted, q, r) {
      assert sorted[q] in sorted && sorted[r] in sorted;
      RootAbove(sorted, sorted[r]);
      var a :| a in sorted && a < sorted[r] && Independent(a, sorted);
      AncestorSortsFirst(a, sorted[r]);
      var p := FirstAt(sorted, a, r);
      SortedBetween(sorted, p, q, r);
      BetweenIsDescendant(a, sorted[q], sorted[r]);
    }
  }

  lemma InOrder(sorted: seq<Path>, i: nat, j: nat)
    requires SortedBy(IdLe, sorted) && i <= j < |sorted|
    ensures IdLe(sorted[i], sorted[j])
  {
    StringLeTotal(Joined(sorted[i]), Joined(sorted[i]));
  }

  /** In a sorted list, an id strictly below the one at `r` is found before `r`. */
  lemma FirstAt(sorted: seq<Path>, a: Path, r: nat) returns (p: nat)
    requires r < |sorted| && SortedBy(IdLe, sorted) && a in sorted && !IdLe(sorted[r], a)
    ensures p < r && sorted[p] == a
  {
    p :| 0 <= p < |sorted| && sorted[p] == a;
    if r <= p {
      InOrder(sorted, r, p);
    }
  }

  lemma SortedBetween(sorted: seq<Path>, p: nat, q: nat, r: nat)
    requires SortedBy(IdLe, sorted) && Separates(sorted, q, r) && p < r && Independent(sorted[p], sorted)
    ensures IdLe(sorted[p], sorted[q]) && IdLe(sorted[q], sorted[r])
  {
    InOrder(sorted, p, q);
    InOrder(sorted, q, r);
  }

  /** On plain ids the filter keeps exactly the ids with no ancestor in the list. */
  lemma PlainIdsAreExact(ids: seq<Path>)
    requires forall id :: id in ids ==> PlainPath(id)
    ensures GetIndependent(ids) == IndependentIds(ids)
  {
    forall q: nat, r: nat
      ensures !Separates(SortBy(IdLe, ids), q, r)
    {
      PlainIdsNotSeparated(ids, q, r);
    }
    NotSeparatedIsRight(ids);
  }

  /** Above any id that has an ancestor in the list there is one that has none. */
  lemma {:induction false} RootAbove(ids: seq<Path>, id: Path)
    requires !Independent(id, ids)
    ensures exists a :: a in ids && a < id && Independent(a, ids)
    decreases |id|
  {
    var a :| a in ids && a < id;
    if !Independent(a, ids) {
      RootAbove(ids, a);
      var b :| b in ids && b < a && Independent(b, ids);
      assert b < id;
    }
  }

  /** A name with a character below the comma sorts between an id and what is below it, and
      the id below is then kept although its ancestor is in the list. */
  lemma NotAlwaysExact()
    ensures var ids := [["a"], ["a!"], ["a", "b"]]; GetIndependent(ids) != IndependentIds(ids)
  {
    var x: Path, y: Path, z: Path := ["a"], ["a!"], ["a", "b"];
    var ids := [x, y, z];
    assert Joined(x) == ",a" && Joined(y) == ",a!" && Joined(z) == ",a,b" by {
      assert x[1..] == [] && y[1..] == [] && z[1..] == ["b"] && ["b"][1..] == [];
    }
    PrefixLe(",a", "!");
    assert ",a" + "!" == ",a!";
    StringLeCommon(",a", "!", ",b");
    assert ",a" + ",b" == ",a,b";
    assert ids[1..] == [y, z] && [y, z][1..] == [z] && [z][1..] == [];
    assert SortBy(IdLe, [z]) == [z];
    assert SortBy(IdLe, [y, z]) == [y, z];
    assert SortBy(IdLe, ids) == ids;
    assert x in ids && x < z && !Independent(z, ids) && Independent(y, ids);
    assert Separates(ids, 1, 2);
    GetIndependentIsExact(ids);
  }

  lemma {:induction false} StringLeCommon(s: string, t: string, u: string)
    ensures StringLe(s + t, s + u) <==> StringLe(t, u)
  {
    if s == "" {
      assert s + t == t && s + u == u;
    } else {
      StringLeCommon(s[1..], t, u);
      assert (s + t)[1..] == s[1..] + t && (s + u)[1..] == s[1..] + u;
    }
  }
}
