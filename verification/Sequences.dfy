/** Concatenations of sequences. */
module Sequences {
  function Concat<T>(parts: seq<seq<T>>): seq<T> {
    if parts == [] then [] else Concat(parts[..|parts| - 1]) + parts[|parts| - 1]
  }

  lemma ConcatSnoc<T>(parts: seq<seq<T>>, last: seq<T>)
    ensures Concat(parts + [last]) == Concat(parts) + last
  {
    assert (parts + [last])[..|parts|] == parts;
  }

  lemma PrefixOfConcat<T>(a: seq<T>, b: seq<T>, m: nat)
    requires m <= |a| + |b|
    ensures (a + b)[..m] == if m <= |a| then a[..m] else a + b[..m - |a|]
  {}

  lemma SuffixOnTheLeft<T>(a: seq<T>, b: seq<T>, m: nat)
    requires m <= |a|
    ensures (a + b)[m..] == a[m..] + b
  {}

  lemma SuffixOnTheRight<T>(a: seq<T>, b: seq<T>, m: nat)
    requires |a| <= m <= |a| + |b|
    ensures (a + b)[m..] == b[m - |a|..]
  {}

  lemma ConcatAssociates<T>(a: seq<T>, b: seq<T>, c: seq<T>)
    ensures a + (b + c) == (a + b) + c
  {}
}
