/** parallel_sort can always finish (include/lld/Core/Parallel.h): from every state
    of the group some schedule makes sync return. */
module SortFinishes {
  import opened ParallelSort
  import opened SplitRange

  // ----- what swaps in a range leave alone -----

  lemma {:induction false} SwapsStayInside<T>(a: seq<T>, swaps: seq<(nat, nat)>, lo: nat, hi: nat, i: nat) returns (j: nat)
    requires Inside(swaps, lo, hi) && hi <= |a| && i < |a|
    ensures Inside(swaps, 0, |a|) && j < |a| && Swapped(a, swaps)[i] == a[j]
    ensures if lo <= i < hi then lo <= j < hi else j == i
    decreases |swaps|
  {
    if swaps == [] {
      j := i;
    } else {
      var x, y := swaps[0].0, swaps[0].1;
      var c := a[x := a[y]][y := a[x]];
      j := SwapsStayInside(c, swaps[1..], lo, hi, i);
      j := if j == x then y else if j == y then x else j;
    }
  }

  // ----- the split, on sequences -----

  /** std::partition of lo up to n by being less than the element at last. */
  lemma {:induction false} PartitionSwaps<T(!new)>(lt: (T, T) -> bool, a: seq<T>, lo: nat, n: nat, last: nat)
    returns (p: nat, swaps: seq<(nat, nat)>)
    requires lo <= n <= last < |a|
    ensures Inside(swaps, lo, n) && Inside(swaps, 0, |a|) && lo <= p <= n
    ensures var b := Swapped(a, swaps);
      && (forall i :: n <= i < |a| ==> b[i] == a[i])
      && (forall i :: lo <= i < p ==> lt(b[i], b[last])) && (forall i :: p <= i < n ==> !lt(b[i], b[last]))
    decreases n
  {
    if lo == n {
      p, swaps := lo, [];
    } else {
      p, swaps := PartitionSwaps(lt, a, lo, n - 1, last);
      var b := Swapped(a, swaps);
      if lt(b[n - 1], b[last]) {
        SwappedMore(a, swaps, p, n - 1);
        swaps := swaps + [(p, n - 1)];
        p := p + 1;
      }
    }
  }

  /** The swaps of Divide: the median to the end, the partition, the median back. */
  lemma SplitSwaps<T(!new)>(lt: (T, T) -> bool, a: seq<T>, lo: nat, hi: nat) returns (p: nat, swaps: seq<(nat, nat)>)
    requires lo < hi <= |a|
    ensures Inside(swaps, lo, hi) && Inside(swaps, 0, |a|) && Split(lt, Swapped(a, swaps), lo, p, hi)
    ensures Swapped(a, swaps)[p] == a[MedianOf3(lt, a, lo, hi)]
  {
    var last, pivot := hi - 1, MedianOf3(lt, a, lo, hi);
    var c := a[last := a[pivot]][pivot := a[last]];
    var middle;
    p, middle := PartitionSwaps(lt, c, lo, last, last);
    var front := [(last, pivot)] + middle;
    assert front[1..] == middle && Swapped(a, front) == Swapped(c, middle);
    SwappedMore(a, front, p, last);
    swaps := front + [(p, last)];
    PivotBack(lt, Swapped(c, middle), lo, p, hi);
  }

  /** Moving the pivot from the end to the border leaves the range split. */
  lemma PivotBack<T(!new)>(lt: (T, T) -> bool, b: seq<T>, lo: nat, p: nat, hi: nat)
    requires lo <= p < hi <= |b|
    requires (forall i :: lo <= i < p ==> lt(b[i], b[hi - 1])) && (forall i :: p <= i < hi - 1 ==> !lt(b[i], b[hi - 1]))
    ensures var r := b[p := b[hi - 1]][hi - 1 := b[p]]; r[p] == b[hi - 1] && Split(lt, r, lo, p, hi)
  {
    var r := b[p := b[hi - 1]][hi - 1 := b[p]];
    forall i | p < i < hi ensures !lt(r[i], r[p]) {
      assert r[i] == b[if i == hi - 1 then p else i];
    }
  }

  // ----- sorting, on sequences -----

  lemma {:induction false} LeastOf<T(!new)>(lt: (T, T) -> bool, a: seq<T>, lo: nat, hi: nat) returns (m: nat)
    requires StrictWeak(lt) && lo < hi <= |a|
    ensures lo <= m < hi && forall i :: lo <= i < hi ==> !lt(a[i], a[m])
    decreases hi - lo
  {
    if hi == lo + 1 {
      m := lo;
    } else {
      m := LeastOf(lt, a, lo, hi - 1);
      if lt(a[hi - 1], a[m]) {
        assert forall i :: lo <= i < hi ==> lt(a[i], a[hi - 1]) ==> lt(a[i], a[m]);
        m := hi - 1;
      }
    }
  }

  /** Every range can be sorted by swaps inside it. */
  lemma {:induction false} SortSwaps<T(!new)>(lt: (T, T) -> bool, a: seq<T>, lo: nat, hi: nat) returns (swaps: seq<(nat, nat)>)
    requires StrictWeak(lt) && lo <= hi <= |a|
    ensures Inside(swaps, lo, hi) && Inside(swaps, 0, |a|) && Sorted(lt, Swapped(a, swaps), lo, hi)
    decreases hi - lo
  {
    if lo == hi {
      swaps := [];
    } else {
      var m := LeastOf(lt, a, lo, hi);
      var c := a[lo := a[m]][m := a[lo]];
      var rest := SortSwaps(lt, c, lo + 1, hi);
      swaps := [(lo, m)] + rest;
      assert swaps[1..] == rest && Swapped(a, swaps) == Swapped(c, rest);
      var b := Swapped(c, rest);
      forall i | lo <= i < hi ensures !lt(b[i], b[lo]) {
        var j := SwapsStayInside(c, rest, lo + 1, hi, lo);
        var k := SwapsStayInside(c, rest, lo + 1, hi, i);
        assert c[j] == a[m] && c[k] == a[if k == lo then m else if k == m then lo else k];
      }
    }
  }

  // ----- schedules -----

  lemma {:induction false} Continue<T(!new)>(lt: (T, T) -> bool, s: State<T>, first: seq<Step>, rest: seq<Step>)
    requires Possible(lt, s, first) && Possible(lt, Run(lt, s, first), rest)
    ensures Possible(lt, s, first + rest) && Run(lt, s, first + rest) == Run(lt, Run(lt, s, first), rest)
    decreases |first|
  {
    if first == [] {
      assert first + rest == rest;
    } else {
      assert (first + rest)[1..] == first[1..] + rest;
      Continue(lt, Apply(lt, s, first[0]), first[1..], rest);
    }
  }

  /** A schedule of one step. */
  lemma Once<T(!new)>(lt: (T, T) -> bool, s: State<T>, step: Step)
    requires Enabled(lt, s, step)
    ensures Possible(lt, s, [step]) && Run(lt, s, [step]) == Apply(lt, s, step)
  {
    hide Enabled, Apply;
    assert [step][1..] == [];
    assert Possible(lt, Apply(lt, s, step), []);
  }

  /** Swaps of one running task, then a step that is possible after them. */
  lemma SwapsThen<T(!new)>(lt: (T, T) -> bool, s: State<T>, k: nat, swaps: seq<(nat, nat)>, step: Step)
    returns (steps: seq<Step>)
    requires StrictWeak(lt) && Invariant(lt, s) && k < |s.tasks| && s.tasks[k].phase == Running && s.tasks[k].hi <= |s.a|
    requires Inside(swaps, s.tasks[k].lo, s.tasks[k].hi) && Inside(swaps, 0, |s.a|)
    requires !step.Swap? && Enabled(lt, s.(a := Swapped(s.a, swaps)), step)
    ensures Possible(lt, s, steps) && Remaining(Run(lt, s, steps)) < Remaining(s)
  {
    hide Invariant, Enabled, StrictWeak, Apply, Total;
    SwapsAreSteps(lt, s, k, swaps);
    RunKeeps(lt, s, AsSteps(k, swaps));
    var t := s.(a := Swapped(s.a, swaps));
    Once(lt, t, step);
    StepsAreFinite(lt, t, step);
    Continue(lt, s, AsSteps(k, swaps), [step]);
    steps := AsSteps(k, swaps) + [step];
  }

  lemma OneStep<T(!new)>(lt: (T, T) -> bool, s: State<T>, step: Step) returns (steps: seq<Step>)
    requires Invariant(lt, s) && Enabled(lt, s, step) && !step.Swap?
    ensures Possible(lt, s, steps) && Remaining(Run(lt, s, steps)) < Remaining(s)
  {
    hide Invariant, Enabled, Apply, Remaining;
    Once(lt, s, step);
    StepsAreFinite(lt, s, step);
    steps := [step];
  }

  /** A running task can sort its range, or split it, and go on. */
  lemma RunningGoesOn<T(!new)>(lt: (T, T) -> bool, s: State<T>, k: nat) returns (steps: seq<Step>)
    requires StrictWeak(lt) && Invariant(lt, s) && k < |s.tasks| && s.tasks[k].phase == Running
    ensures Possible(lt, s, steps) && Remaining(Run(lt, s, steps)) < Remaining(s)
  {
    hide StrictWeak, Total, Remaining, Ordered, Disjoint;
    var t := s.tasks[k];
    FitsOf(lt, s.a, s.tasks, k);
    if Sequential(t) {
      var swaps := SortSwaps(lt, s.a, t.lo, t.hi);
      steps := SwapsThen(lt, s, k, swaps, Return(k));
    } else {
      var p, swaps := SplitSwaps(lt, s.a, t.lo, t.hi);
      steps := SwapsThen(lt, s, k, swaps, Spawn(k, p));
    }
  }

  /** Before sync has returned the group can always come closer to it. */
  lemma GoesOn<T(!new)>(lt: (T, T) -> bool, s: State<T>) returns (steps: seq<Step>)
    requires StrictWeak(lt) && Invariant(lt, s) && !s.synced
    ensures Possible(lt, s, steps) && Remaining(Run(lt, s, steps)) < Remaining(s)
  {
    hide StrictWeak, Total, Remaining, Ordered, Disjoint;
    if k: nat :| k < |s.tasks| && s.tasks[k].phase != Done {
      match s.tasks[k].phase
      case Queued => steps := OneStep(lt, s, Start(k));
      case Returned => steps := OneStep(lt, s, Dec(k));
      case Spawning(_) =>
        FitsOf(lt, s.a, s.tasks, k);
        steps := OneStep(lt, s, Push(k));
      case Running => steps := RunningGoesOn(lt, s, k);
    } else {
      AllDone(s.tasks);
      steps := OneStep(lt, s, Sync);
    }
  }

  /** However the schedule began, it can be completed: sync returns. */
  lemma {:induction false} CanFinish<T(!new)>(lt: (T, T) -> bool, s: State<T>) returns (steps: seq<Step>)
    requires StrictWeak(lt) && Invariant(lt, s)
    ensures Possible(lt, s, steps) && Run(lt, s, steps).synced
    decreases Remaining(s)
  {
    hide StrictWeak, Invariant, Remaining;
    if s.synced {
      steps := [];
    } else {
      var first := GoesOn(lt, s);
      RunKeeps(lt, s, first);
      var rest := CanFinish(lt, Run(lt, s, first));
      Continue(lt, s, first, rest);
      steps := first + rest;
    }
  }

  /** Every schedule of parallel_sort can be completed, and then the array is sorted. */
  lemma EveryScheduleCompletes<T(!new)>(lt: (T, T) -> bool, a: seq<T>, depth: nat, begun: seq<Step>) returns (steps: seq<Step>)
    requires StrictWeak(lt) && Possible(lt, Initial(a, depth), begun)
    ensures begun <= steps && Possible(lt, Initial(a, depth), steps)
    ensures var s := Run(lt, Initial(a, depth), steps);
      s.synced && |s.a| == |a| && Sorted(lt, s.a, 0, |s.a|) && multiset(s.a) == multiset(a)
  {
    hide StrictWeak, Invariant, Sorted, Run, Possible, Initial;
    var s := Initial(a, depth);
    InitialInvariant(lt, a, depth);
    RunKeeps(lt, s, begun);
    var rest := CanFinish(lt, Run(lt, s, begun));
    Continue(lt, s, begun, rest);
    steps := begun + rest;
    SortedAtSync(lt, a, depth, steps);
  }
}
