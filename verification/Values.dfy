/** Configuration values, and the paths that address parts of them. */
module Values {
  import opened Wrappers

  /** An array can have properties that are no items, and places without an item. The values
      that are compared have neither. */
  datatype Value =
    | Prim(repr: string)
    | Obj(fields: map<string, Value>)
    | Array(items: seq<Value>, named: map<string, Value>)
    | Hole

  function List(items: seq<Value>): Value {
    Array(items, map[])
  }

  ghost predicate Plain(v: Value) {
    match v
    case Prim(_) => true
    case Obj(fields) => forall key :: key in fields ==> Plain(fields[key])
    case Array(items, named) => named == map[] && forall i :: 0 <= i < |items| ==> Plain(items[i])
    case Hole => false
  }

  /** The name parts of an element id below the element itself. */
  type Path = seq<string>

  // ----- list indexes as path parts -----

  predicate IsDigit(c: char) {
    '0' <= c <= '9'
  }

  predicate AllDigits(s: string) {
    forall i :: 0 <= i < |s| ==> IsDigit(s[i])
  }

  predicate IsIndexPathPart(s: string) {
    s != "" && AllDigits(s)
  }

  function DigitChar(d: nat): (c: char)
    requires d < 10
    ensures IsDigit(c) && (c - '0') as int == d
  {
    '0' + d as char
  }

  function IndexName(i: nat): (s: string)
    ensures IsIndexPathPart(s)
  {
    if i < 10 then [DigitChar(i)] else IndexName(i / 10) + [DigitChar(i % 10)]
  }

  /** The number a path part of digits stands for. */
  function IndexOf(s: string): nat
    requires AllDigits(s)
  {
    if s == "" then 0 else IndexOf(s[..|s| - 1]) * 10 + (s[|s| - 1] - '0') as int
  }

  lemma {:induction false} IndexOfName(i: nat)
    ensures IndexOf(IndexName(i)) == i
  {
    if i < 10 {
      assert IndexName(i)[..0] == "";
    } else {
      IndexOfName(i / 10);
      assert IndexName(i)[..|IndexName(i)| - 1] == IndexName(i / 10);
    }
  }

  lemma IndexNameInjective(i: nat, j: nat)
    requires IndexName(i) == IndexName(j)
    ensures i == j
  {
    IndexOfName(i);
    IndexOfName(j);
  }

  // ----- children -----

  /** A path part names an item of a list only in its usual spelling. */
  predicate IsItemName(part: string) {
    IsIndexPathPart(part) && IndexName(IndexOf(part)) == part
  }

  function ItemNamed(items: seq<Value>, part: string): (index: Option<nat>)
    ensures index.Some? ==> index.value < |items|
  {
    if IsItemName(part) && IndexOf(part) < |items|
    then Some(IndexOf(part))
    else None
  }

  /** What is kept under the path part, which can be a hole. */
  function Slot(v: Value, part: string): (slot: Option<Value>)
    ensures slot.Some? ==> slot.value < v
  {
    match v
    case Prim(_) => None
    case Hole => None
    case Obj(fields) => if part in fields then Some(fields[part]) else None
    case Array(items, named) =>
      if IsItemName(part) then (if IndexOf(part) < |items| then Some(items[IndexOf(part)]) else None)
      else if part in named then Some(named[part])
      else None
  }

  /** There is nothing in a hole. */
  function Child(v: Value, part: string): (child: Option<Value>)
    ensures child.Some? ==> child.value < v
  {
    var slot := Slot(v, part);
    if slot == Some(Hole) then None else slot
  }

  /** What the path leads to, if it leads anywhere. */
  function Get(v: Value, path: Path): Option<Value>
    decreases |path|
  {
    if path == [] then Some(v)
    else
      var child := Child(v, path[0]);
      if child.None? then None else Get(child.value, path[1..])
  }

  lemma {:induction false} GetThen(v: Value, p: Path, q: Path)
    requires Get(v, p).Some?
    ensures Get(v, p + q) == Get(Get(v, p).value, q)
    decreases |p|
  {
    if p == [] {
      assert p + q == q;
    } else {
      assert (p + q)[0] == p[0] && (p + q)[1..] == p[1..] + q;
      GetThen(Child(v, p[0]).value, p[1..], q);
    }
  }
}
