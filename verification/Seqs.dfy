// Facts about sequences.
module Seqs {

  lemma DropLeft<T>(a: seq<T>, b: seq<T>, n: nat)
    requires n <= |a|
    ensures (a + b)[n..] == a[n..] + b
  {
  }

  lemma Associate<T>(a: seq<T>, b: seq<T>, c: seq<T>)
    ensures a + (b + c) == (a + b) + c
  {
  }

  lemma TakeMore<T>(s: seq<T>, i: nat)
    requires i < |s|
    ensures s[..i + 1] == s[..i] + [s[i]]
  {
  }

  lemma TakeAll<T>(s: seq<T>)
    ensures s[..|s|] == s
  {
  }

  lemma HeadOfRest<T>(all: seq<T>, front: seq<T>, rest: seq<T>)
    requires all == front + rest && rest != []
    ensures all[|front|] == rest[0] && all == front + [rest[0]] + rest[1..]
  {
  }
}
