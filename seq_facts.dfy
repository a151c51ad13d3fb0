/** Small facts about sequences, proved apart so that the proofs that use
    them do not have to rediscover them in a large context. */
module SeqFacts {

  lemma SliceOfSlice<T>(s: seq<T>, a: nat, b: nat, c: nat)
    requires b <= c && a + c <= |s|
    ensures s[a..][b..c] == s[a + b..a + c]
  {
  }

  lemma AppendTwo<T>(s: seq<T>, x: T)
    ensures s + [x] + [x] == s + [x, x]
  {
  }

  lemma AppendThree<T>(s: seq<T>, x: T)
    ensures s + [x] + [x, x] == s + [x, x, x]
  {
  }

  lemma Regroup<T>(s: seq<T>, x: seq<T>, y: seq<T>)
    ensures s + x + y == s + (x + y)
  {
  }
}
