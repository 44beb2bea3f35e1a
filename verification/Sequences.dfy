/** Facts about cutting and joining sequences. */
module Sequences {

  lemma TakeSnoc<T>(s: seq<T>, i: nat)
    requires i < |s|
    ensures s[..i + 1] == s[..i] + [s[i]]
  {
  }

  lemma TakeDrop<T>(s: seq<T>, i: nat)
    requires i <= |s|
    ensures s[..i] + s[i..] == s
  {
  }

  lemma Associate<T>(a: seq<T>, b: seq<T>, c: seq<T>)
    ensures a + b + c == a + (b + c)
  {
  }

  lemma PrefixMore<T>(x: seq<T>, a: seq<T>, b: seq<T>)
    requires x <= a
    ensures x <= a + b
  {
  }

  lemma PrefixOfPrefix<T>(a: seq<T>, b: seq<T>, c: seq<T>)
    requires a <= b <= c
    ensures a <= c
  {
  }

  // The sequence `x` is `y` followed by `z`.
  predicate Joined<T(==)>(x: seq<T>, y: seq<T>, z: seq<T>) {
    x == y + z
  }

  lemma JoinedLast<T>(x: seq<T>, y: seq<T>, a: seq<T>, b: seq<T>, c: seq<T>, bc: seq<T>)
    requires x == y + c && Joined(y, a, b) && bc == b + c
    ensures Joined(x, a, bc)
  {
  }
}
