/** Small shared vocabulary: an optional value, the "is a subsequence of" relation and key lookup. */
module Common {

  /** An optional value: an absent matrix, a missing field, a cache miss. */
  datatype Option<+T> = None | Some(value: T)

  /** `a` can be obtained from `b` by deleting elements, keeping the order of the rest. */
  predicate IsSubsequence<T(==)>(a: seq<T>, b: seq<T>)
    decreases |b|
  {
    if |a| == 0 then true
    else if |b| == 0 then false
    else (a[0] == b[0] && IsSubsequence(a[1..], b[1..])) || IsSubsequence(a, b[1..])
  }

  /** Some element of `r` has key `x`. */
  ghost predicate HasKey<T, K>(key: T -> K, r: seq<T>, x: K) {
    exists k :: 0 <= k < |r| && key(r[k]) == x
  }

  /** Elements may be inserted in front of the larger sequence. */
  lemma {:induction false} SubsequencePrefix<T>(a: seq<T>, pre: seq<T>, b: seq<T>)
    requires IsSubsequence(a, b)
    ensures IsSubsequence(a, pre + b)
    decreases |pre|
  {
    if |pre| == 0 {
      assert pre + b == b;
    } else if |a| > 0 {
      SubsequencePrefix(a, pre[1..], b);
      assert (pre + b)[1..] == pre[1..] + b;
    }
  }

  /** A shared first element may be put in front of both sequences. */
  lemma SubsequenceCons<T>(x: T, a: seq<T>, b: seq<T>)
    requires IsSubsequence(a, b)
    ensures IsSubsequence([x] + a, [x] + b)
  {
    assert ([x] + a)[1..] == a;
    assert ([x] + b)[1..] == b;
  }

  /** Elements may be inserted right behind a shared first element. */
  lemma SubsequenceInsert<T>(x: T, a: seq<T>, ins: seq<T>, b: seq<T>)
    requires IsSubsequence(a, b)
    ensures IsSubsequence([x] + a, [x] + ins + b)
  {
    SubsequencePrefix(a, ins, b);
    SubsequenceCons(x, a, ins + b);
    assert [x] + ins + b == [x] + (ins + b);
  }

  /** A subsequence is never longer than the sequence it is taken from. */
  lemma {:induction false} SubsequenceLength<T>(a: seq<T>, b: seq<T>)
    requires IsSubsequence(a, b)
    ensures |a| <= |b|
    decreases |b|
  {
    if |a| > 0 {
      if a[0] == b[0] && IsSubsequence(a[1..], b[1..]) {
        SubsequenceLength(a[1..], b[1..]);
      } else {
        SubsequenceLength(a, b[1..]);
      }
    }
  }

  /** Every element of a subsequence occurs in the larger sequence. */
  lemma {:induction false} SubsequenceMembers<T>(a: seq<T>, b: seq<T>)
    requires IsSubsequence(a, b)
    ensures forall x :: x in a ==> x in b
    decreases |b|
  {
    if |a| > 0 {
      if a[0] == b[0] && IsSubsequence(a[1..], b[1..]) {
        SubsequenceMembers(a[1..], b[1..]);
        assert a == [a[0]] + a[1..];
      } else {
        SubsequenceMembers(a, b[1..]);
      }
    }
  }

  /** A subsequence holds each element at most as often as the larger sequence does. */
  lemma {:induction false} SubsequenceMultiset<T>(a: seq<T>, b: seq<T>)
    requires IsSubsequence(a, b)
    ensures multiset(a) <= multiset(b)
    decreases |b|
  {
    if |a| > 0 {
      assert b == [b[0]] + b[1..];
      if a[0] == b[0] && IsSubsequence(a[1..], b[1..]) {
        SubsequenceMultiset(a[1..], b[1..]);
        assert a == [a[0]] + a[1..];
      } else {
        SubsequenceMultiset(a, b[1..]);
      }
    }
  }
}
