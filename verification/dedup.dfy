/**
 * The dedup loop of `geom3ToBrep` (lib/geom3-to-brep.ts:216-224): a position is kept when its
 * vertex key differs from the key of its cyclic predecessor, so each maximal cyclic run of equal
 * keys is reduced to its first element.
 */
module Dedup {
  import opened Common
  import opened Indices

  /** The predecessor the loop compares with: the previous position, or the last for the first. */
  function Prev<T, K(==)>(key: T -> K, ps: seq<T>, i: nat): T
    requires i < |ps|
  {
    if i > 0 then ps[i - 1] else ps[|ps| - 1]
  }

  /** Position `i` starts a run: its key differs from its cyclic predecessor's. */
  predicate Starts<T, K(==)>(key: T -> K, ps: seq<T>, i: nat)
    requires i < |ps|
  {
    key(ps[i]) != key(Prev(key, ps, i))
  }

  /** The positions from `i` on that start a run, in order. */
  function DedupFrom<T(==), K(==)>(key: T -> K, ps: seq<T>, i: nat): (r: seq<T>)
    requires i <= |ps|
    ensures IsSubsequence(r, ps[i..])
    decreases |ps| - i
  {
    if i == |ps| then []
    else
      var rest := DedupFrom(key, ps, i + 1);
      assert ps[i..][1..] == ps[i + 1..];
      if Starts(key, ps, i) then
        SubsequenceCons(ps[i], rest, ps[i + 1..]);
        assert ps[i..] == [ps[i]] + ps[i + 1..];
        [ps[i]] + rest
      else
        SubsequencePrefix(rest, [ps[i]], ps[i + 1..]);
        assert ps[i..] == [ps[i]] + ps[i + 1..];
        rest
  }

  /** The indices from `i` on that start a run, in increasing order. */
  ghost function StartsFrom<T, K>(key: T -> K, ps: seq<T>, i: nat): (idx: seq<nat>)
    requires i <= |ps|
    ensures Increasing(idx)
    ensures forall k :: 0 <= k < |idx| ==> i <= idx[k] < |ps|
    ensures forall j :: i <= j < |ps| ==> (j in idx <==> Starts(key, ps, j))
    decreases |ps| - i
  {
    if i == |ps| then []
    else if Starts(key, ps, i) then [i] + StartsFrom(key, ps, i + 1)
    else StartsFrom(key, ps, i + 1)
  }

  /** The survivors from `i` on are the positions at the run-starting indices, in order. */
  lemma {:induction false} DedupFromPicks<T, K>(key: T -> K, ps: seq<T>, i: nat)
    requires i <= |ps|
    ensures |DedupFrom(key, ps, i)| == |StartsFrom(key, ps, i)|
    ensures forall k :: 0 <= k < |StartsFrom(key, ps, i)| ==>
      DedupFrom(key, ps, i)[k] == ps[StartsFrom(key, ps, i)[k]]
    decreases |ps| - i
  {
    if i < |ps| {
      DedupFromPicks(key, ps, i + 1);
    }
  }

  /** `uniquePositions`: the positions that start a cyclic run of equal keys. */
  function DedupConsecutive<T(==), K(==)>(key: T -> K, ps: seq<T>): (r: seq<T>)
    ensures IsSubsequence(r, ps)
  {
    assert ps[0..] == ps;
    DedupFrom(key, ps, 0)
  }

  /**
   * Which positions survive: exactly those whose key differs from their cyclic predecessor's,
   * each once and in their original order.
   */
  lemma DedupPicksStarts<T, K>(key: T -> K, ps: seq<T>)
    ensures var idx := StartsFrom(key, ps, 0);
      && Increasing(idx)
      && |DedupConsecutive(key, ps)| == |idx|
      && (forall k :: 0 <= k < |idx| ==> idx[k] < |ps| && DedupConsecutive(key, ps)[k] == ps[idx[k]])
      && (forall i :: 0 <= i < |ps| ==> (i in idx <==> Starts(key, ps, i)))
  {
    DedupFromPicks(key, ps, 0);
  }

  /** No two cyclically adjacent positions share a key (which rules out a single position). */
  ghost predicate NoCyclicRepeat<T, K>(key: T -> K, r: seq<T>) {
    forall k :: 0 <= k < |r| ==> StepDiffers(key, r, k)
  }

  /** Position `k` and its cyclic successor have different keys. */
  ghost predicate StepDiffers<T, K>(key: T -> K, r: seq<T>, k: nat)
    requires k < |r|
  {
    key(r[k]) != key(r[(k + 1) % |r|])
  }

  /** No two adjacent positions share a key, not counting the wrap-around. */
  ghost predicate NoAdjacentRepeat<T, K>(key: T -> K, r: seq<T>) {
    forall k :: 0 <= k < |r| - 1 ==> key(r[k]) != key(r[k + 1])
  }

  /** The first survivor from `i` on differs in key from the predecessor of `i`. */
  lemma {:induction false} FirstDiffers<T, K>(key: T -> K, ps: seq<T>, i: nat)
    requires i < |ps|
    requires |DedupFrom(key, ps, i)| > 0
    ensures key(DedupFrom(key, ps, i)[0]) != key(Prev(key, ps, i))
    decreases |ps| - i
  {
    if !Starts(key, ps, i) {
      FirstDiffers(key, ps, i + 1);
    }
  }

  /** The last survivor from `i` on has the key of the last position. */
  lemma {:induction false} LastMatches<T, K>(key: T -> K, ps: seq<T>, i: nat)
    requires i < |ps|
    requires |DedupFrom(key, ps, i)| > 0
    ensures key(DedupFrom(key, ps, i)[|DedupFrom(key, ps, i)| - 1]) == key(ps[|ps| - 1])
    decreases |ps| - i
  {
    var rest := DedupFrom(key, ps, i + 1);
    if |rest| > 0 {
      LastMatches(key, ps, i + 1);
    } else if i + 1 < |ps| {
      AllSameWhenEmpty(key, ps, i + 1);
      assert key(ps[|ps| - 1]) == key(Prev(key, ps, i + 1));
    }
  }

  /** Nothing survives from `i` on only when every later key equals the key before `i`. */
  lemma {:induction false} AllSameWhenEmpty<T, K>(key: T -> K, ps: seq<T>, i: nat)
    requires i < |ps|
    requires |DedupFrom(key, ps, i)| == 0
    ensures forall j :: i <= j < |ps| ==> key(ps[j]) == key(Prev(key, ps, i))
    decreases |ps| - i
  {
    if i + 1 < |ps| {
      AllSameWhenEmpty(key, ps, i + 1);
    }
  }

  /** Survivors from `i` on never repeat a key next to each other. */
  lemma {:induction false} AdjacentDiffer<T, K>(key: T -> K, ps: seq<T>, i: nat)
    requires i <= |ps|
    ensures NoAdjacentRepeat(key, DedupFrom(key, ps, i))
    decreases |ps| - i
  {
    if i < |ps| {
      AdjacentDiffer(key, ps, i + 1);
      var rest := DedupFrom(key, ps, i + 1);
      if Starts(key, ps, i) && |rest| > 0 {
        FirstDiffers(key, ps, i + 1);
        var r := DedupFrom(key, ps, i);
        assert r == [ps[i]] + rest;
        forall k | 0 <= k < |r| - 1
          ensures key(r[k]) != key(r[k + 1])
        {
          if k > 0 {
            assert r[k] == rest[k - 1] && r[k + 1] == rest[k];
          }
        }
      }
    }
  }

  /**
   * The survivors form a closed cycle without repeats: adjacent survivors differ, and so do the
   * last and the first. Hence no edge of the face loop is ever degenerate.
   */
  lemma DedupNoCyclicRepeat<T, K>(key: T -> K, ps: seq<T>)
    ensures NoCyclicRepeat(key, DedupConsecutive(key, ps))
  {
    var r := DedupConsecutive(key, ps);
    AdjacentDiffer(key, ps, 0);
    if |r| > 0 {
      FirstDiffers(key, ps, 0);
      LastMatches(key, ps, 0);
      forall k | 0 <= k < |r|
        ensures StepDiffers(key, r, k)
      {
        CyclicStep(key, r, k);
      }
    }
  }

  /** The cyclic step from `k` is the adjacent step, or the wrap-around from the last to the first. */
  lemma CyclicStep<T, K>(key: T -> K, r: seq<T>, k: nat)
    requires k < |r|
    requires NoAdjacentRepeat(key, r)
    requires key(r[0]) != key(r[|r| - 1])
    ensures StepDiffers(key, r, k)
  {
    if k < |r| - 1 {
      assert (k + 1) % |r| == k + 1;
    } else {
      assert (k + 1) % |r| == 0;
    }
  }

  /** Everything collapses exactly when all positions share one key. */
  lemma DedupEmptyIff<T, K>(key: T -> K, ps: seq<T>)
    ensures |DedupConsecutive(key, ps)| == 0 <==>
              forall j, k :: 0 <= j < |ps| && 0 <= k < |ps| ==> key(ps[j]) == key(ps[k])
  {
    if |DedupConsecutive(key, ps)| == 0 && |ps| > 0 {
      AllSameWhenEmpty(key, ps, 0);
    }
    if forall j, k :: 0 <= j < |ps| && 0 <= k < |ps| ==> key(ps[j]) == key(ps[k]) {
      NoneStartWhenSame(key, ps, 0);
    }
  }

  lemma {:induction false} NoneStartWhenSame<T, K>(key: T -> K, ps: seq<T>, i: nat)
    requires i <= |ps|
    requires forall j, k :: 0 <= j < |ps| && 0 <= k < |ps| ==> key(ps[j]) == key(ps[k])
    ensures |DedupFrom(key, ps, i)| == 0
    decreases |ps| - i
  {
    if i < |ps| {
      NoneStartWhenSame(key, ps, i + 1);
      assert !Starts(key, ps, i) by {
        var p := if i > 0 then i - 1 else |ps| - 1;
        assert key(ps[i]) == key(ps[p]);
      }
    }
  }

  /** Every key from `i` on survives, unless it is the key of the predecessor of `i`. */
  lemma {:induction false} KeysCoveredFrom<T, K>(key: T -> K, ps: seq<T>, i: nat, j: nat)
    requires i <= j < |ps|
    ensures key(ps[j]) == key(Prev(key, ps, i)) || HasKey(key, DedupFrom(key, ps, i), key(ps[j]))
    decreases j - i
  {
    var r := DedupFrom(key, ps, i);
    if j == i {
      if Starts(key, ps, i) {
        assert r == [ps[i]] + DedupFrom(key, ps, i + 1);
        assert key(r[0]) == key(ps[j]);
      } else {
        assert key(ps[j]) == key(Prev(key, ps, i));
      }
    } else {
      KeysCoveredFrom(key, ps, i + 1, j);
      var rest := DedupFrom(key, ps, i + 1);
      if HasKey(key, rest, key(ps[j])) {
        var k :| 0 <= k < |rest| && key(rest[k]) == key(ps[j]);
        if Starts(key, ps, i) {
          assert r[k + 1] == rest[k];
        } else {
          assert r[k] == rest[k];
        }
      } else {
        assert key(ps[j]) == key(ps[i]);
        if Starts(key, ps, i) {
          assert r[0] == ps[i];
        }
      }
    }
  }

  /** When anything survives, the survivors still carry every key of the input. */
  lemma DedupKeepsKeys<T, K>(key: T -> K, ps: seq<T>, j: nat)
    requires j < |ps| && |DedupConsecutive(key, ps)| > 0
    ensures HasKey(key, DedupConsecutive(key, ps), key(ps[j]))
  {
    var r := DedupConsecutive(key, ps);
    KeysCoveredFrom(key, ps, 0, j);
    if key(ps[j]) == key(Prev(key, ps, 0)) {
      LastMatches(key, ps, 0);
      assert key(r[|r| - 1]) == key(ps[j]);
    }
  }

  /** Positions without cyclic repeats all start runs, so deduplicating them changes nothing. */
  lemma {:induction false} DedupFromIdentity<T, K>(key: T -> K, ps: seq<T>, i: nat)
    requires i <= |ps| && NoCyclicRepeat(key, ps)
    ensures DedupFrom(key, ps, i) == ps[i..]
    decreases |ps| - i
  {
    if i < |ps| {
      DedupFromIdentity(key, ps, i + 1);
      AllStart(key, ps, i);
      assert DedupFrom(key, ps, i) == [ps[i]] + DedupFrom(key, ps, i + 1);
      assert ps[i..] == [ps[i]] + ps[i + 1..];
    }
  }

  /** Without cyclic repeats, every position starts a run. */
  lemma AllStart<T, K>(key: T -> K, ps: seq<T>, i: nat)
    requires i < |ps| && NoCyclicRepeat(key, ps)
    ensures Starts(key, ps, i)
  {
    var p := if i > 0 then i - 1 else |ps| - 1;
    assert StepDiffers(key, ps, p);
    assert (p + 1) % |ps| == i;
  }

  /** Deduplicating twice is the same as deduplicating once. */
  lemma DedupIdempotent<T, K>(key: T -> K, ps: seq<T>)
    ensures DedupConsecutive(key, DedupConsecutive(key, ps)) == DedupConsecutive(key, ps)
  {
    var r := DedupConsecutive(key, ps);
    DedupNoCyclicRepeat(key, ps);
    DedupFromIdentity(key, r, 0);
    assert r[0..] == r;
  }
}
