/** Values shared by the post and user controllers: optional request fields,
    the replies a handler sends, and the natural-order view of a collection. */
module Common {

  /** A request field or query result that may be missing (`undefined` / `null`). */
  datatype Option<T> = None | Some(value: T)

  /** The body of an error reply. */
  datatype ErrorBody =
    | Message(text: string)  // a fixed text the handler writes itself
    | Thrown                 // the message of a runtime exception, whose text is not modelled

  /** What a route handler sends back to the client. */
  datatype Reply<T> =
    | Ok(status: int, value: T)
    | Err(status: int, error: ErrorBody)
    | Silent                 // the handler returns without sending any response

  /** The documents of a collection in its natural order: `order` lists the
      keys in the order the collection returns them, `m` maps each key to its document. */
  function Collect<K, V>(order: seq<K>, m: map<K, V>): (r: seq<V>)
    requires forall i :: 0 <= i < |order| ==> order[i] in m
    ensures |r| == |order|
    ensures forall i :: 0 <= i < |order| ==> r[i] == m[order[i]]
  {
    if order == [] then [] else [m[order[0]]] + Collect(order[1..], m)
  }
}
