/**
 * The order JavaScript's `<` puts on strings: code units compared one by one from the left,
 * a proper prefix sorting before every longer string that extends it. The converter compares
 * vertex keys with it to choose the canonical direction of an edge.
 */
module StringOrder {

  /** `a` is a proper prefix of `b`. */
  ghost predicate PrefixLess(a: string, b: string) {
    |a| < |b| && a == b[..|a|]
  }

  /** `a` and `b` agree before index `i` and `a` has the smaller code unit at `i`. */
  ghost predicate DiffersFirstAt(a: string, b: string, i: nat) {
    i < |a| && i < |b| && a[..i] == b[..i] && a[i] < b[i]
  }

  /**
   * `a < b` on strings: `a` is a proper prefix of `b`, or at the first index where they differ
   * `a` has the smaller code unit.
   */
  predicate LexLess(a: string, b: string)
    ensures LexLess(a, b) <==> PrefixLess(a, b) || exists i :: DiffersFirstAt(a, b, i)
    decreases |a|
  {
    if |a| == 0 then
      assert forall i :: !DiffersFirstAt(a, b, i);
      |b| > 0
    else if |b| == 0 then
      assert forall i :: !DiffersFirstAt(a, b, i);
      false
    else if a[0] != b[0] then
      HeadDiffers(a, b);
      a[0] < b[0]
    else
      TailDiffers(a, b);
      LexLess(a[1..], b[1..])
  }

  /** When the first code units differ, they alone decide the order. */
  lemma HeadDiffers(a: string, b: string)
    requires |a| > 0 && |b| > 0 && a[0] != b[0]
    ensures !PrefixLess(a, b)
    ensures (exists i :: DiffersFirstAt(a, b, i)) <==> a[0] < b[0]
  {
    if a[0] < b[0] {
      assert DiffersFirstAt(a, b, 0);
    }
    forall i: nat | DiffersFirstAt(a, b, i)
      ensures i == 0
    {
    }
  }

  /** When the first code units agree, the order is that of the tails. */
  lemma TailDiffers(a: string, b: string)
    requires |a| > 0 && |b| > 0 && a[0] == b[0]
    ensures PrefixLess(a, b) <==> PrefixLess(a[1..], b[1..])
    ensures (exists i :: DiffersFirstAt(a, b, i)) <==> exists i :: DiffersFirstAt(a[1..], b[1..], i)
  {
    if PrefixLess(a[1..], b[1..]) {
      assert a == [a[0]] + a[1..] && b[..|a|] == [b[0]] + b[1..][..|a| - 1];
    }
    if PrefixLess(a, b) {
      assert a[1..] == a[..|a|][1..] == b[..|a|][1..] == b[1..][..|a| - 1];
    }
    forall i: nat | DiffersFirstAt(a, b, i)
      ensures i > 0 && DiffersFirstAt(a[1..], b[1..], i - 1)
    {
      assert a[1..][..i - 1] == a[..i][1..] == b[..i][1..] == b[1..][..i - 1];
    }
    forall i: nat | DiffersFirstAt(a[1..], b[1..], i)
      ensures DiffersFirstAt(a, b, i + 1)
    {
      assert a[..i + 1] == [a[0]] + a[1..][..i] && b[..i + 1] == [b[0]] + b[1..][..i];
    }
  }

  /** No string sorts before itself. */
  lemma {:induction false} LexLessIrreflexive(a: string)
    ensures !LexLess(a, a)
    decreases |a|
  {
    if |a| > 0 {
      LexLessIrreflexive(a[1..]);
    }
  }

  /** Of two strings, at most one sorts before the other. */
  lemma {:induction false} LexLessAsymmetric(a: string, b: string)
    ensures !(LexLess(a, b) && LexLess(b, a))
    decreases |a|
  {
    if |a| > 0 && |b| > 0 && a[0] == b[0] {
      LexLessAsymmetric(a[1..], b[1..]);
    }
  }

  lemma {:induction false} LexLessTransitive(a: string, b: string, c: string)
    requires LexLess(a, b) && LexLess(b, c)
    ensures LexLess(a, c)
    decreases |a|
  {
    if |a| > 0 && a[0] == b[0] && b[0] == c[0] {
      LexLessTransitive(a[1..], b[1..], c[1..]);
    }
  }

  /** Two different strings are always ordered one way or the other. */
  lemma {:induction false} LexLessTotal(a: string, b: string)
    requires a != b
    ensures LexLess(a, b) || LexLess(b, a)
    decreases |a|
  {
    if |a| > 0 && |b| > 0 && a[0] == b[0] {
      assert a == [a[0]] + a[1..] && b == [b[0]] + b[1..];
      LexLessTotal(a[1..], b[1..]);
    }
  }

  /** Exactly one of "a before b", "equal", "b before a" holds. */
  lemma LexLessTrichotomy(a: string, b: string)
    ensures a == b <==> (!LexLess(a, b) && !LexLess(b, a))
    ensures LexLess(a, b) ==> !LexLess(b, a)
  {
    LexLessAsymmetric(a, b);
    if a == b {
      LexLessIrreflexive(a);
    } else {
      LexLessTotal(a, b);
    }
  }
}
