/** Facts about plain sequences that the proofs call on explicitly, so that
    the solver does not have to rediscover them among other facts. */
module Sequences {

  /** A position at which an element of a sequence occurs. */
  lemma PositionOf<T>(s: seq<T>, x: T) returns (i: nat)
    requires x in s
    ensures i < |s| && s[i] == x
  {
    i :| 0 <= i < |s| && s[i] == x;
  }

  /** Concatenation is associative. */
  lemma AppendAssoc<T>(a: seq<T>, b: seq<T>, c: seq<T>)
    ensures a + (b + c) == (a + b) + c
  {
  }

  /** An element of `s + [x]` is an element of `s` or `x`. */
  lemma MembersSnoc<T>(s: seq<T>, x: T)
    ensures forall e :: e in s + [x] ==> e in s || e == x
  {
  }
}
