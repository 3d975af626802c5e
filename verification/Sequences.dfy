/** Concatenation, one step at a time. */
module Sequences {

  lemma Assemble<T>(a: seq<T>, b: seq<T>, c: seq<T>)
    ensures a + (b + c) == (a + b) + c
  {}
}
