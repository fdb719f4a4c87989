/** The sequential part of parallel_quick_sort (include/lld/Core/Parallel.h): the
    median of three and the partition, which earn a task of ParallelSort the right
    to spawn. */
module SplitRange {
  import opened ParallelSort

  // ----- the median of three -----

  /** Of three values, is v one with no more than one value below and no more than
      one above? */
  predicate Middle<T>(lt: (T, T) -> bool, x: T, y: T, z: T, v: T) {
    && ((!lt(x, v) && !lt(y, v)) || (!lt(x, v) && !lt(z, v)) || (!lt(y, v) && !lt(z, v)))
    && ((!lt(v, x) && !lt(v, y)) || (!lt(v, x) && !lt(v, z)) || (!lt(v, y) && !lt(v, z)))
  }

  /** The position of the median of the first, the middle and the last element. */
  function MedianOf3<T>(lt: (T, T) -> bool, a: seq<T>, lo: nat, hi: nat): (p: nat)
    requires lo < hi <= |a|
    ensures p == lo || p == hi - 1 || p == lo + (hi - lo) / 2
    ensures lo <= p < hi
  {
    var mid := lo + (hi - lo) / 2;
    var last := hi - 1;
    if lt(a[lo], a[last]) then
      if lt(a[mid], a[last]) then (if lt(a[lo], a[mid]) then mid else lo) else last
    else
      if lt(a[mid], a[lo]) then (if lt(a[last], a[mid]) then mid else last) else lo
  }

  lemma MedianIsMiddle<T(!new)>(lt: (T, T) -> bool, a: seq<T>, lo: nat, hi: nat)
    requires StrictWeak(lt) && lo < hi <= |a|
    ensures Middle(lt, a[lo], a[lo + (hi - lo) / 2], a[hi - 1], a[MedianOf3(lt, a, lo, hi)])
  {
    var x, y, z := a[lo], a[lo + (hi - lo) / 2], a[hi - 1];
    assert !lt(x, x) && !lt(y, y) && !lt(z, z);
    assert lt(x, z) ==> lt(x, y) || lt(y, z);
    assert lt(z, x) ==> lt(z, y) || lt(y, x);
  }

  // ----- swaps -----

  predicate Inside(swaps: seq<(nat, nat)>, lo: nat, hi: nat) {
    forall k :: 0 <= k < |swaps| ==> lo <= swaps[k].0 < hi && lo <= swaps[k].1 < hi
  }

  function Swapped<T>(a: seq<T>, swaps: seq<(nat, nat)>): (r: seq<T>)
    requires Inside(swaps, 0, |a|)
    ensures |r| == |a|
    decreases |swaps|
  {
    if swaps == [] then a
    else
      var i, j := swaps[0].0, swaps[0].1;
      Swapped(a[i := a[j]][j := a[i]], swaps[1..])
  }

  lemma {:induction false} SwappedMore<T>(a: seq<T>, swaps: seq<(nat, nat)>, i: nat, j: nat)
    requires Inside(swaps, 0, |a|) && i < |a| && j < |a|
    ensures Inside(swaps + [(i, j)], 0, |a|)
    ensures var b := Swapped(a, swaps);
      Swapped(a, swaps + [(i, j)]) == b[i := b[j]][j := b[i]]
    decreases |swaps|
  {
    var more := swaps + [(i, j)];
    if swaps == [] {
      assert more[1..] == [];
    } else {
      var x, y := swaps[0].0, swaps[0].1;
      assert more[1..] == swaps[1..] + [(i, j)];
      SwappedMore(a[x := a[y]][y := a[x]], swaps[1..], i, j);
    }
  }

  function AsSteps(k: nat, swaps: seq<(nat, nat)>): (steps: seq<Step>) {
    seq(|swaps|, n requires 0 <= n < |swaps| => Swap(k, swaps[n].0, swaps[n].1))
  }

  /** Swaps in a task's range are steps that task can make. */
  lemma {:induction false} SwapsAreSteps<T>(lt: (T, T) -> bool, s: State<T>, k: nat, swaps: seq<(nat, nat)>)
    requires k < |s.tasks| && s.tasks[k].phase == Running && s.tasks[k].hi <= |s.a|
    requires Inside(swaps, s.tasks[k].lo, s.tasks[k].hi)
    ensures Possible(lt, s, AsSteps(k, swaps))
    ensures Run(lt, s, AsSteps(k, swaps)) == s.(a := Swapped(s.a, swaps))
    decreases |swaps|
  {
    if swaps == [] {
      assert AsSteps(k, swaps) == [];
    } else {
      var steps := AsSteps(k, swaps);
      assert steps[1..] == AsSteps(k, swaps[1..]);
      SwapsAreSteps(lt, Apply(lt, s, steps[0]), k, swaps[1..]);
    }
  }

  // ----- the code on the array -----

  method Exchange<T>(a: array<T>, i: nat, j: nat, ghost before: seq<T>, ghost swaps: seq<(nat, nat)>,
                     ghost lo: nat, ghost hi: nat) returns (ghost more: seq<(nat, nat)>)
    requires lo <= i < hi <= a.Length && lo <= j < hi && |before| == a.Length
    requires Inside(swaps, lo, hi) && a[..] == Swapped(before, swaps)
    modifies a
    ensures a[..] == old(a[..])[i := old(a[j])][j := old(a[i])]
    ensures Inside(more, lo, hi) && a[..] == Swapped(before, more)
  {
    SwappedMore(before, swaps, i, j);
    a[i], a[j] := a[j], a[i];
    more := swaps + [(i, j)];
  }

  /** std::partition of lo up to last by being less than the element at last. */
  method Partition<T>(lt: (T, T) -> bool, a: array<T>, lo: nat, last: nat,
                      ghost before: seq<T>, ghost swaps: seq<(nat, nat)>)
    returns (p: nat, ghost more: seq<(nat, nat)>)
    requires lo <= last < a.Length && |before| == a.Length
    requires Inside(swaps, lo, last + 1) && a[..] == Swapped(before, swaps)
    modifies a
    ensures lo <= p <= last && a[last] == old(a[last])
    ensures forall i :: lo <= i < p ==> lt(a[i], a[last])
    ensures forall i :: p <= i < last ==> !lt(a[i], a[last])
    ensures Inside(more, lo, last + 1) && a[..] == Swapped(before, more)
  {
    more := swaps;
    var first := lo;
    var end := last;
    while true
      invariant lo <= first <= end <= last && a[last] == old(a[last])
      invariant forall i :: lo <= i < first ==> lt(a[i], a[last])
      invariant forall i :: end <= i < last ==> !lt(a[i], a[last])
      invariant Inside(more, lo, last + 1) && a[..] == Swapped(before, more)
      decreases end - first
    {
      while first < end && lt(a[first], a[last])
        invariant lo <= first <= end
        invariant forall i :: lo <= i < first ==> lt(a[i], a[last])
      {
        first := first + 1;
      }
      if first == end {
        return first, more;
      }
      end := end - 1;
      while first < end && !lt(a[end], a[last])
        invariant first <= end < last
        invariant forall i :: end < i < last ==> !lt(a[i], a[last])
      {
        end := end - 1;
      }
      if first == end {
        return first, more;
      }
      more := Exchange(a, first, end, before, more, lo, last + 1);
      first := first + 1;
    }
  }

  /** Partitioning a range by its median of three leaves it split, by swaps inside
      the range only. */
  method Divide<T>(lt: (T, T) -> bool, a: array<T>, lo: nat, hi: nat)
    returns (p: nat, ghost swaps: seq<(nat, nat)>)
    requires lo + MIN_PARALLEL_SIZE <= hi <= a.Length
    modifies a
    ensures Split(lt, a[..], lo, p, hi)
    ensures Inside(swaps, lo, hi) && a[..] == Swapped(old(a[..]), swaps)
    ensures a[p] == old(a[..])[MedianOf3(lt, old(a[..]), lo, hi)]
  {
    ghost var before := a[..];
    var pivot := MedianOf3(lt, a[..], lo, hi);
    swaps := Exchange(a, hi - 1, pivot, before, [], lo, hi);
    p, swaps := Partition(lt, a, lo, hi - 1, before, swaps);
    swaps := Exchange(a, p, hi - 1, before, swaps, lo, hi);
  }

  /** So a running task whose range is not sorted sequentially can always go on to
      spawn: after its swaps, in whatever state the other tasks are, the guard of
      Spawn holds. */
  method SplitTask<T>(lt: (T, T) -> bool, a: array<T>, ghost s: State<T>, k: nat, task: Task)
    returns (p: nat, ghost steps: seq<Step>)
    requires k < |s.tasks| && s.tasks[k] == task && task.phase == Running && !Sequential(task)
    requires task.hi <= |s.a| && s.a == a[..]
    modifies a
    ensures Possible(lt, s, steps) && Run(lt, s, steps) == s.(a := a[..])
    ensures Enabled(lt, Run(lt, s, steps), Spawn(k, p))
    ensures forall step :: step in steps ==> step.Swap? && step.k == k
  {
    ghost var swaps;
    p, swaps := Divide(lt, a, task.lo, task.hi);
    SwapsAreSteps(lt, s, k, swaps);
    steps := AsSteps(k, swaps);
  }
}
