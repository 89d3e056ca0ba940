/** Small datatypes shared by every component. */
module Prelude {

  datatype Option<+T> = None | Some(value: T)

  /** A value, or the exception the source raises instead. */
  datatype Result<+T, +E> = Ok(value: T) | Err(error: E)

  lemma Associative<T>(a: seq<T>, b: seq<T>, c: seq<T>)
    ensures a + (b + c) == a + b + c
  {
  }

  lemma RemovedCount<K, V>(table: map<K, V>, gone: set<K>)
    requires gone <= table.Keys
    ensures |gone| == |table| - |table - gone|
  {
    assert table.Keys == (table - gone).Keys + gone;
    assert |table| == |table.Keys| && |table - gone| == |(table - gone).Keys|;
  }
}
