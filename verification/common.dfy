/** What several modules share. */
module Common {

  datatype Option<T> = None | Some(value: T)

  ghost predicate Distinct(list: seq<nat>) {
    forall i, j :: 0 <= i < j < |list| ==> list[i] != list[j]
  }
}
