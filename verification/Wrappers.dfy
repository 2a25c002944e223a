/** The conventional optional value. */
module Wrappers {
  datatype Option<+A> = None | Some(value: A)

  function AllSome<T>(items: seq<T>): (list: seq<Option<T>>)
    ensures |list| == |items|
  {
    seq(|items|, i requires 0 <= i < |items| => Some(items[i]))
  }
}
