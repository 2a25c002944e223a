/** Path-addressed changes of packages/adapter-utils. */
module Changes {
  import opened Wrappers
  import opened Values

  datatype Data = Addition(after: Value) | Removal(before: Value) | Modification(before: Value, after: Value)

  /** `id` places the change among the others; the before and after ids say where it is in
      the value before and after. */
  datatype DetailedChange = DetailedChange(id: Path, data: Data, beforeId: Option<Path>, afterId: Option<Path>)

  function Name(id: Path): string {
    if id == [] then "" else id[|id| - 1]
  }

  function Parent(id: Path): Path {
    if id == [] then [] else id[..|id| - 1]
  }

  function NameOf(id: Option<Path>): string {
    if id.Some? then Name(id.value) else ""
  }

  function GetChangeRealId(change: DetailedChange): Path {
    var known := if change.data.Removal? then change.beforeId else change.afterId;
    if known.Some? then known.value else change.id
  }

  /** A list item that has an index on both sides, and not the same one. */
  predicate IsOrderChange(change: DetailedChange) {
    && IsIndexPathPart(Name(change.id))
    && IsIndexPathPart(NameOf(change.beforeId))
    && IsIndexPathPart(NameOf(change.afterId))
    && NameOf(change.beforeId) != NameOf(change.afterId)
  }

  function ReverseData(data: Data): Data {
    match data
    case Addition(after) => Removal(after)
    case Removal(before) => Addition(before)
    case Modification(before, after) => Modification(after, before)
  }

  function ReverseChange(change: DetailedChange): (reversed: DetailedChange)
    ensures reversed.id == change.id
    ensures IsOrderChange(reversed) <==> IsOrderChange(change)
  {
    change.(data := ReverseData(change.data), beforeId := change.afterId, afterId := change.beforeId)
  }

  function ReverseAll(changes: seq<DetailedChange>): (reversed: seq<DetailedChange>)
    ensures |reversed| == |changes|
  {
    seq(|changes|, i requires 0 <= i < |changes| => ReverseChange(changes[i]))
  }

  lemma ReverseAllTwice(changes: seq<DetailedChange>)
    ensures ReverseAll(ReverseAll(changes)) == changes
  {
    forall i | 0 <= i < |changes|
      ensures ReverseAll(ReverseAll(changes))[i] == changes[i]
    {
      assert ReverseAll(changes)[i] == ReverseChange(changes[i]);
    }
  }
}
