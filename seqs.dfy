/**
 * Seqs: two facts about growing a list one element at a time, kept apart so
 * that the loops that use them need not rediscover them.
 */
module Seqs {

  /** Taking one more element of s appends that element. */
  lemma TakeSnoc<T>(s: seq<T>, j: nat)
    requires j < |s|
    ensures s[..j + 1] == s[..j] + [s[j]]
  {
  }

  /** Moving the boundary between a done prefix a and the rest of s one step. */
  lemma SpliceStep<T>(a: seq<T>, s: seq<T>, i: nat, x: T)
    requires i < |s|
    ensures (a + s[i..])[|a|] == s[i]
    ensures a + s[i..] == (a + [s[i]]) + s[i + 1..]
    ensures (a + s[i..])[|a| := x] == (a + [x]) + s[i + 1..]
  {
    assert s[i..] == [s[i]] + s[i + 1..];
  }
}
