/** Facts about sequences that the handlers' loops and lemmas share. */
module Seqs {

  /** `days(0) + … + days(n - 1)`. */
  function Concat<T>(days: nat -> seq<T>, n: nat): seq<T> {
    if n == 0 then [] else Concat(days, n - 1) + days(n - 1)
  }

  /** An element of a concatenation comes from one of its parts. */
  lemma {:induction false} ConcatSource<T>(days: nat -> seq<T>, n: nat, o: T)
    requires o in Concat(days, n)
    ensures exists k: nat :: k < n && o in days(k)
  {
    InConcat(o, Concat(days, n - 1), days(n - 1));
    if o in Concat(days, n - 1) {
      ConcatSource(days, n - 1, o);
    } else {
      assert n - 1 < n && o in days(n - 1);
    }
  }

  /** Every element of every part is in the concatenation. */
  lemma {:induction false} ConcatKeeps<T>(days: nat -> seq<T>, n: nat, k: nat, o: T)
    requires k < n && o in days(k)
    ensures o in Concat(days, n)
  {
    InConcat(o, Concat(days, n - 1), days(n - 1));
    if k < n - 1 {
      ConcatKeeps(days, n - 1, k, o);
    }
  }

  /** Membership in a concatenation. */
  lemma InConcat<T>(x: T, a: seq<T>, b: seq<T>)
    ensures x in a + b <==> x in a || x in b
  {
  }

  /** Extending a prefix of `s` by its next element. */
  lemma TakeSnoc<T>(s: seq<T>, j: nat)
    requires j < |s|
    ensures s[..j + 1] == s[..j] + [s[j]]
  {
  }

  /** Dropping the last element of a longer prefix. */
  lemma TakeTake<T>(s: seq<T>, j: nat)
    requires j < |s|
    ensures s[..j + 1][..j] == s[..j]
  {
  }

  /** The prefix as long as the sequence is the sequence. */
  lemma TakeAll<T>(s: seq<T>, j: nat)
    requires j == |s|
    ensures s[..j] == s
  {
  }

  lemma AppendAssoc<T>(a: seq<T>, b: seq<T>, c: seq<T>)
    ensures (a + b) + c == a + (b + c)
  {
  }

  /** Extending a prefix of `s` by its next element, behind a fixed `acc`. */
  lemma AppendTake<T>(acc: seq<T>, s: seq<T>, j: nat)
    requires j < |s|
    ensures acc + s[..j + 1] == (acc + s[..j]) + [s[j]]
  {
    assert s[..j + 1] == s[..j] + [s[j]];
  }

}
