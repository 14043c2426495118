/** Small datatypes and predicates shared by the model. */
module Wrappers {

  /** A value that may be absent; stands for a nullable pointer result. */
  datatype Option<+T> = None | Some(value: T)

  /** What vector::at does when the index is out of range: it throws. */
  datatype Result<+T> = Ok(value: T) | OutOfRange

  /** `order` lists the keys of `m`, each once: the order in which a
      loop over an unordered map visits them. */
  ghost predicate Enumerates<K(!new), V>(order: seq<K>, m: map<K, V>)
  {
    (forall i :: 0 <= i < |order| ==> order[i] in m) &&
    (forall k :: k in m ==> k in order) &&
    forall i, j :: 0 <= i < j < |order| ==> order[i] != order[j]
  }
}
