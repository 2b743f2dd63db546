/**
 * The claim-cursor work pool (`ParallelDistributor`).
 *
 * `start` launches `poolSize` workers; worker `i` first handles index `i`,
 * then keeps claiming the shared cursor `index` (post-incremented by the
 * synchronized `getNextJob`) and stops at its first claim that is not below
 * the number of items. Claims are serialized, so a run is modelled as a
 * sequence of atomic steps of arbitrary live workers: `Start` picks the next
 * worker with `:|`, and the proof covers every choice, hence every interleaving.
 * The call `worker(items[k])` is recorded by appending `k` to `processed`.
 */
module Distributor {

  /** The indices 0 .. n-1. */
  ghost function Range(n: int): set<int>
    decreases n
  {
    if n <= 0 then {} else Range(n - 1) + {n - 1}
  }

  lemma {:induction false} RangeMembers(n: int)
    ensures forall k :: k in Range(n) <==> 0 <= k < n
    decreases n
  {
    if n > 0 {
      RangeMembers(n - 1);
    }
  }

  /** The indices lo, lo+1, .., hi-1, in ascending order. */
  ghost function Indices(lo: int, hi: int): seq<int>
    decreases hi - lo
  {
    if hi <= lo then [] else Indices(lo, hi - 1) + [hi - 1]
  }

  /** The indices that occur in a sequence. */
  ghost function Elements(s: seq<int>): set<int>
  {
    set k | k in s
  }

  ghost predicate Distinct(s: seq<int>)
  {
    forall i, j :: 0 <= i < j < |s| ==> s[i] != s[j]
  }

  lemma {:induction false} RangeSize(n: nat)
    ensures |Range(n)| == n
  {
    if n > 0 {
      RangeSize(n - 1);
      RangeMembers(n - 1);
      assert n - 1 !in Range(n - 1);
    }
  }

  lemma {:induction false} DistinctSize(s: seq<int>)
    requires Distinct(s)
    ensures |Elements(s)| == |s|
  {
    if s != [] {
      var last := s[|s| - 1];
      var init := s[..|s| - 1];
      assert Distinct(init);
      DistinctSize(init);
      assert Elements(s) == Elements(init) + {last};
      assert last !in Elements(init);
    }
  }

  /**
   * A log of indices that holds each index of [0, n) exactly once, and
   * nothing else, has exactly n entries.
   */
  lemma ExactlyOnceHasLength(s: seq<int>, n: nat)
    requires Distinct(s)
    requires forall i :: 0 <= i < |s| ==> 0 <= s[i] < n
    requires forall k :: 0 <= k < n ==> k in s
    ensures |s| == n
  {
    RangeMembers(n);
    forall k ensures k in Elements(s) <==> k in Range(n) {
      if k in Elements(s) {
        var i :| 0 <= i < |s| && s[i] == k;
      }
    }
    assert Elements(s) == Range(n);
    DistinctSize(s);
    RangeSize(n);
  }

  /** The number of workers `start` launches: `for (i in 0 until poolSize)`. */
  function Workers(poolSize: int): nat
  {
    if poolSize > 0 then poolSize else 0
  }

  /**
   * The pool's invariant while the workers run, over the running indices
   * `cur` of `n` workers: the cursor counts one claim per processed item,
   * initial indices and claims never overlap, every processed index is a
   * valid, previously unprocessed one, no running index was processed, and
   * every index below the cursor is either processed or held by a worker.
   */
  ghost predicate Pool(n: nat, poolSize: int, itemCount: int, index: int, cur: seq<int>, processed: seq<int>)
  {
    && n == Workers(poolSize) && |cur| == n
    && index == poolSize + |processed|
    && (forall w :: 0 <= w < n ==> cur[w] == w || poolSize <= cur[w] < index)
    && (forall w, v :: 0 <= w < v < n ==> cur[w] != cur[v])
    && (forall i :: 0 <= i < |processed| ==> 0 <= processed[i] < itemCount && processed[i] < index)
    && Distinct(processed)
    && (forall i, w :: 0 <= i < |processed| && 0 <= w < n ==> processed[i] != cur[w])
    && (forall k :: 0 <= k < itemCount && k < index && k !in processed ==>
          exists w :: 0 <= w < n && cur[w] == k)
  }

  /** Launching worker `i` at index `i` sets up the invariant, with nothing processed. */
  lemma LaunchMakesPool(n: nat, poolSize: int, itemCount: int, cur: seq<int>)
    requires n == Workers(poolSize) && |cur| == n
    requires forall w :: 0 <= w < n ==> cur[w] == w
    ensures Pool(n, poolSize, itemCount, poolSize, cur, [])
  {
    var none: seq<int> := [];
    forall k | 0 <= k < itemCount && k < poolSize && k !in none
      ensures exists w :: 0 <= w < n && cur[w] == k
    {
      assert cur[k] == k;
    }
    assert Distinct(none);
  }

  /**
   * One round of a live worker `w`: its index is processed and it claims the
   * cursor. The invariant is kept.
   */
  lemma ClaimKeepsPool(n: nat, poolSize: int, itemCount: int, index: int, cur: seq<int>, processed: seq<int>, w: int)
    requires Pool(n, poolSize, itemCount, index, cur, processed)
    requires 0 <= w < n && 0 <= cur[w] < itemCount
    ensures Pool(n, poolSize, itemCount, index + 1, cur[w := index], processed + [cur[w]])
  {
    var cur', processed' := cur[w := index], processed + [cur[w]];
    forall k | 0 <= k < itemCount && k < index + 1 && k !in processed'
      ensures exists v :: 0 <= v < n && cur'[v] == k
    {
      if k == index {
        assert cur'[w] == k;
      } else {
        assert k < index && k !in processed;
        var v :| 0 <= v < n && cur[v] == k;
        assert cur'[v] == k;
      }
    }
  }

  /** Each round processes an index not processed before: the indices still to do shrink. */
  lemma ClaimShrinksRemaining(n: nat, poolSize: int, itemCount: int, index: int, cur: seq<int>, processed: seq<int>, w: int)
    requires Pool(n, poolSize, itemCount, index, cur, processed)
    requires 0 <= w < n && 0 <= cur[w] < itemCount
    ensures Range(itemCount) - Elements(processed + [cur[w]]) < Range(itemCount) - Elements(processed)
  {
    RangeMembers(itemCount);
    assert cur[w] !in Elements(processed);
    assert Elements(processed + [cur[w]]) == Elements(processed) + {cur[w]};
  }

  /**
   * Once every worker has stopped, with at least one worker, every index of
   * the items has been processed, each exactly once.
   */
  lemma StoppedPoolIsDone(n: nat, poolSize: int, itemCount: nat, index: int, cur: seq<int>, processed: seq<int>)
    requires Pool(n, poolSize, itemCount, index, cur, processed)
    requires forall w :: 0 <= w < n ==> cur[w] >= itemCount
    requires poolSize >= 1
    ensures forall k :: 0 <= k < itemCount ==> k in processed
    ensures |processed| == itemCount
  {
    if itemCount > poolSize {
      assert cur[0] >= itemCount;
    }
    assert itemCount <= index;
    assert forall k :: 0 <= k < itemCount ==> k in processed;
    ExactlyOnceHasLength(processed, itemCount);
  }

  class ParallelDistributor<T> {
    const items: seq<T>
    const poolSize: int
    /** The shared claim cursor. */
    var index: int
    /** Each worker's `currentIndex`. */
    var current: array<int>
    /**
     * The indices `k` for which `worker(items[k])` was called, in claim order:
     * each round's call is logged together with the claim that follows it.
     */
    var processed: seq<int>

    /** The values the workers were handed, in the order of `processed`. */
    function Handed(): seq<T>
      reads this
      requires forall i :: 0 <= i < |processed| ==> 0 <= processed[i] < |items|
    {
      var p := processed;
      seq(|p|, i requires 0 <= i < |p| => items[p[i]])
    }

    /** A worker is live while its current index is below the number of items. */
    predicate Live(w: int)
      reads this, current
    {
      0 <= w < current.Length && current[w] < |items|
    }

    /** The pool's invariant, `Pool`, holds of one running index per worker. */
    ghost predicate Running()
      reads this, current
    {
      Pool(Workers(poolSize), poolSize, |items|, index, current[..], processed)
    }

    constructor (items: seq<T>, poolSize: int)
      ensures this.items == items && this.poolSize == poolSize
      ensures index == poolSize && processed == []
    {
      this.items := items;
      this.poolSize := poolSize;
      index := poolSize;
      current := new int[0];
      processed := [];
    }

    /** The synchronized claim: returns the cursor and advances it by one. */
    method GetNextJob() returns (r: int)
      modifies this`index
      ensures r == old(index) && index == old(index) + 1
    {
      r := index;
      index := index + 1;
    }

    /**
     * One round of `jobWrapper`'s loop for live worker `w`: hand
     * `items[currentIndex]` to the worker, then claim the next index.
     */
    method Step(w: int)
      requires Running() && Live(w)
      modifies this, current
      ensures Running()
      ensures current == old(current)
      ensures processed == old(processed) + [old(current[w])]
      ensures current[w] == old(index) && index == old(index) + 1
      ensures forall v :: 0 <= v < current.Length && v != w ==> current[v] == old(current[v])
    {
      ClaimKeepsPool(Workers(poolSize), poolSize, |items|, index, current[..], processed, w);
      var k := current[w];
      processed := processed + [k];
      var next := GetNextJob();
      current[w] := next;
      assert current[..] == old(current[..])[w := old(index)];
    }

    /** `jobWrapper` run without interruption: worker `w` works until its claim runs past the items. */
    method JobWrapper(w: int)
      requires Running() && 0 <= w < current.Length
      modifies this, current
      ensures Running() && current == old(current)
      ensures !Live(w)
      ensures forall v :: 0 <= v < current.Length && v != w ==> current[v] == old(current[v])
      ensures old(current[w]) >= |items| ==> processed == old(processed) && index == old(index)
      ensures old(current[w]) < |items| ==>
                && processed == old(processed) + [old(current[w])] + Indices(old(index), index - 1)
                && current[w] == index - 1
    {
      while current[w] < |items|
        invariant Running() && current == old(current)
        invariant forall v :: 0 <= v < current.Length && v != w ==> current[v] == old(current[v])
        invariant index >= old(index)
        invariant index > old(index) ==> old(current[w]) < |items|
        invariant index == old(index) ==> processed == old(processed) && current[w] == old(current[w])
        invariant index > old(index) ==>
                    && processed == old(processed) + [old(current[w])] + Indices(old(index), index - 1)
                    && current[w] == index - 1
        decreases Range(|items|) - Elements(processed)
      {
        ClaimShrinksRemaining(Workers(poolSize), poolSize, |items|, index, current[..], processed, w);
        ghost var logged, held, claim := processed, current[w], index;
        Step(w);
        assert processed == logged + [held] && current[w] == claim && index == claim + 1;
        if claim > old(index) {
          assert held == claim - 1;
          assert Indices(old(index), claim) == Indices(old(index), claim - 1) + [claim - 1];
        }
      }
    }

    /** The launch loop of `start`: worker `i` begins at index `i`; nothing is processed yet. */
    method Launch()
      requires index == poolSize && processed == []
      modifies this
      ensures Running() && fresh(current)
      ensures poolSize >= 0 ==> current.Length == poolSize
      ensures poolSize < 0 ==> current.Length == 0
      ensures index == poolSize && processed == []
      ensures forall w :: 0 <= w < current.Length ==> current[w] == w
    {
      var n := Workers(poolSize);
      var launched := new int[n];
      for i := 0 to n
        invariant index == poolSize && processed == []
        invariant forall w :: 0 <= w < i ==> launched[w] == w
      {
        launched[i] := i;
      }
      current := launched;
      LaunchMakesPool(n, poolSize, |items|, current[..]);
    }

    /**
     * `start`: launch the workers, worker `i` at index `i`, and run them in any
     * interleaving until every one has stopped. Every index of the items is
     * processed exactly once, and the cursor ends one claim per item past
     * `poolSize`; with no workers nothing is processed.
     */
    method Start()
      requires index == poolSize && processed == []
      modifies this
      ensures forall i :: 0 <= i < |processed| ==> 0 <= processed[i] < |items|
      ensures Distinct(processed)
      ensures poolSize >= 1 ==> forall k :: 0 <= k < |items| ==> k in processed
      ensures poolSize >= 1 ==> |processed| == |items| && index == poolSize + |items|
      ensures poolSize >= 1 ==> |Handed()| == |items|
      ensures poolSize >= 1 ==> forall k :: 0 <= k < |items| ==>
                k in processed && exists i :: 0 <= i < |processed| && processed[i] == k && Handed()[i] == items[k]
      ensures poolSize <= 0 ==> processed == [] && index == poolSize
      ensures |items| == 0 ==> processed == []
    {
      Launch();
      var n := Workers(poolSize);
      while exists w :: 0 <= w < n && current[w] < |items|
        invariant Running() && fresh(current)
        invariant n == 0 ==> processed == []
        decreases Range(|items|) - Elements(processed)
      {
        var w :| 0 <= w < n && current[w] < |items|;
        ClaimShrinksRemaining(Workers(poolSize), poolSize, |items|, index, current[..], processed, w);
        Step(w);
      }
      if poolSize >= 1 {
        assert forall w :: 0 <= w < n ==> current[..][w] >= |items|;
        StoppedPoolIsDone(n, poolSize, |items|, index, current[..], processed);
        forall k | 0 <= k < |items|
          ensures exists i :: 0 <= i < |processed| && processed[i] == k && Handed()[i] == items[k]
        {
          assert k in processed;
          var i :| 0 <= i < |processed| && processed[i] == k;
          assert Handed()[i] == items[k];
        }
      }
    }
  }
}
