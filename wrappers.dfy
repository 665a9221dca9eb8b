/** Option and the translator's result type. */
module Wrappers {

  datatype Option<T> = None | Some(value: T)

  /** The failures a translation unit can end in. */
  datatype Error =
    | Unsupported(construct: string)   // a construct this translator does not handle
    | InternalDefect(reason: string)   // a defect of the translator itself (stack underflow, null copy)
    | InvalidConstant                  // a custom-attribute argument of an unsupported constant kind

  datatype Result<T> = Ok(value: T) | Err(error: Error)

  /** The values of a sequence of slots that are all filled. */
  function Values<T>(slots: seq<Option<T>>): (r: seq<T>)
    requires forall k :: 0 <= k < |slots| ==> slots[k].Some?
    ensures |r| == |slots|
    ensures forall k :: 0 <= k < |slots| ==> slots[k] == Some(r[k])
  {
    if |slots| == 0 then [] else [slots[0].value] + Values(slots[1..])
  }

  /** Every value in a slot of its own. */
  function Somes<T>(vs: seq<T>): (r: seq<Option<T>>)
    ensures |r| == |vs|
    ensures forall k :: 0 <= k < |vs| ==> r[k] == Some(vs[k])
  {
    if |vs| == 0 then [] else [Some(vs[0])] + Somes(vs[1..])
  }
}
