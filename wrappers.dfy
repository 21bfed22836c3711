/** Optional values and Java completions, shared by every module of the model. */
module Wrappers {

  /** A Java reference that may be null: `None` is null. */
  datatype Option<+T> = None | Some(value: T)

  /** How a Java call completed: normally with a value, or abruptly with a
      NullPointerException. The only exceptions this core raises come from
      unboxing a null `Double` or calling `equals` on a null `String`. */
  datatype Outcome<+T> = Normal(value: T) | NullPointer

  /** Concatenation regroups; each loop that appends visits uses it once per step. */
  lemma AppendAssoc<T>(a: seq<T>, b: seq<T>, c: seq<T>)
    ensures a + b + c == a + (b + c)
  {
  }
}
