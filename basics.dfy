/** Optional values and fallible results, as the converter's Python code uses
    `None` and raised exceptions. */
module Basics {

  datatype Option<+T> = None | Some(value: T)

  /** A value, or the text of the exception that was raised instead. */
  datatype Result<+T> = Ok(value: T) | Err(msg: string)

  /** Taking every element of a sequence gives the sequence. */
  lemma TakeAll<T>(s: seq<T>)
    ensures s[..|s|] == s
  {
  }

  /** Concatenation regroups freely. */
  lemma AppendAssociates<T>(a: seq<T>, b: seq<T>, c: seq<T>)
    ensures a + (b + c) == (a + b) + c
  {
  }
}
