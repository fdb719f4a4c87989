/** parallel_sort (include/lld/Core/Parallel.h): quick sort whose left halves run as
    tasks of a group, in any order and at any speed, counted by a latch. */
module ParallelSort {

  /** Ranges shorter than this are sorted by one task. */
  const MIN_PARALLEL_SIZE: nat := 1024

  ghost predicate StrictWeak<T(!new)>(lt: (T, T) -> bool) {
    && (forall x :: !lt(x, x))
    && (forall x, y, z :: lt(x, y) && lt(y, z) ==> lt(x, z))
    && (forall x, y, z :: lt(x, z) ==> lt(x, y) || lt(y, z))
  }

  /** Positions lo up to hi are in order. */
  predicate Sorted<T>(lt: (T, T) -> bool, a: seq<T>, lo: nat, hi: nat)
    requires hi <= |a|
  {
    forall i, j :: lo <= i < j < hi ==> !lt(a[j], a[i])
  }

  /** What partitioning leaves: the pivot at p, smaller elements before it and the
      others after it. */
  predicate Split<T>(lt: (T, T) -> bool, a: seq<T>, lo: nat, p: nat, hi: nat)
    requires hi <= |a|
  {
    && lo <= p < hi
    && (forall i :: lo <= i < p ==> lt(a[i], a[p]))
    && (forall i :: p < i < hi ==> !lt(a[i], a[p]))
  }

  // ----- the machine -----

  /** A call of parallel_quick_sort: in the executor's stack, running, between the
      latch's increment and the push of a spawned task, back from its function but
      with its decrement to come, or over. */
  datatype Phase = Queued | Running | Spawning(pivot: nat) | Returned | Done

  datatype Task = Task(lo: nat, hi: nat, depth: nat, phase: Phase)

  /** Task 0 is the caller's own, which the latch does not count. */
  datatype State<T> = State(a: seq<T>, tasks: seq<Task>, latch: int, synced: bool)

  datatype Step =
    | Start(k: nat)
    | Swap(k: nat, i: nat, j: nat)
    | Spawn(k: nat, p: nat)
    | Push(k: nat)
    | Return(k: nat)
    | Dec(k: nat)
    | Sync

  function Initial<T>(a: seq<T>, depth: nat): (s: State<T>) {
    State(a, [Task(0, |a|, depth, Running)], 0, false)
  }

  /** Is the range sorted by one task? */
  predicate Sequential(t: Task) {
    t.hi - t.lo < MIN_PARALLEL_SIZE || t.depth == 0
  }

  predicate Enabled<T>(lt: (T, T) -> bool, s: State<T>, step: Step) {
    match step
    case Start(k) => k < |s.tasks| && s.tasks[k].phase == Queued
    case Swap(k, i, j) =>
      && k < |s.tasks| && s.tasks[k].phase == Running
      && s.tasks[k].lo <= i < s.tasks[k].hi <= |s.a| && s.tasks[k].lo <= j < s.tasks[k].hi
    case Spawn(k, p) =>
      && k < |s.tasks| && s.tasks[k].phase == Running && !Sequential(s.tasks[k])
      && s.tasks[k].hi <= |s.a| && Split(lt, s.a, s.tasks[k].lo, p, s.tasks[k].hi)
    case Push(k) => k < |s.tasks| && s.tasks[k].phase.Spawning? && s.tasks[k].depth > 0
    case Return(k) =>
      && k < |s.tasks| && s.tasks[k].phase == Running && Sequential(s.tasks[k])
      && s.tasks[k].hi <= |s.a| && Sorted(lt, s.a, s.tasks[k].lo, s.tasks[k].hi)
    case Dec(k) => k < |s.tasks| && s.tasks[k].phase == Returned
    case Sync => |s.tasks| > 0 && s.tasks[0].phase == Done && s.latch == 0 && !s.synced
  }

  function SetPhase(tasks: seq<Task>, k: nat, phase: Phase): (r: seq<Task>)
    requires k < |tasks|
  {
    tasks[k := tasks[k].(phase := phase)]
  }

  function Apply<T>(lt: (T, T) -> bool, s: State<T>, step: Step): (s': State<T>)
    requires Enabled(lt, s, step)
  {
    match step
    case Start(k) => s.(tasks := SetPhase(s.tasks, k, Running))
    case Swap(_, i, j) => s.(a := s.a[i := s.a[j]][j := s.a[i]])
    case Spawn(k, p) => s.(tasks := SetPhase(s.tasks, k, Spawning(p)), latch := s.latch + 1)
    case Push(k) =>
      var t := s.tasks[k];
      var left := Task(t.lo, t.phase.pivot, t.depth - 1, Queued);
      var right := Task(t.phase.pivot + 1, t.hi, t.depth - 1, Running);
      s.(tasks := s.tasks[k := right] + [left])
    case Return(k) => s.(tasks := SetPhase(s.tasks, k, if k == 0 then Done else Returned))
    case Dec(k) => s.(tasks := SetPhase(s.tasks, k, Done), latch := s.latch - 1)
    case Sync => s.(synced := true)
  }

  /** A schedule: each step is enabled when its turn comes. */
  predicate Possible<T>(lt: (T, T) -> bool, s: State<T>, steps: seq<Step>)
    decreases |steps|
  {
    steps == [] || (Enabled(lt, s, steps[0]) && Possible(lt, Apply(lt, s, steps[0]), steps[1..]))
  }

  function Run<T>(lt: (T, T) -> bool, s: State<T>, steps: seq<Step>): (s': State<T>)
    requires Possible(lt, s, steps)
    decreases |steps|
  {
    if steps == [] then s else Run(lt, Apply(lt, s, steps[0]), steps[1..])
  }

  // ----- sums over the tasks -----

  function Total(tasks: seq<Task>, weight: (nat, Task) -> nat): (n: nat)
    decreases |tasks|
  {
    if tasks == [] then 0
    else Total(tasks[..|tasks| - 1], weight) + weight(|tasks| - 1, tasks[|tasks| - 1])
  }

  lemma {:induction false} TotalUpdate(tasks: seq<Task>, weight: (nat, Task) -> nat, k: nat, t: Task)
    requires k < |tasks|
    ensures Total(tasks[k := t], weight) + weight(k, tasks[k]) == Total(tasks, weight) + weight(k, t)
    decreases |tasks|
  {
    var n := |tasks| - 1;
    if k < n {
      assert tasks[k := t][..n] == tasks[..n][k := t];
      TotalUpdate(tasks[..n], weight, k, t);
    } else {
      assert tasks[k := t][..n] == tasks[..n];
    }
  }

  lemma TotalAppend(tasks: seq<Task>, weight: (nat, Task) -> nat, t: Task)
    ensures Total(tasks + [t], weight) == Total(tasks, weight) + weight(|tasks|, t)
  {
    assert (tasks + [t])[..|tasks|] == tasks;
  }

  lemma {:induction false} TotalAtLeast(tasks: seq<Task>, weight: (nat, Task) -> nat, k: nat)
    requires k < |tasks|
    ensures Total(tasks, weight) >= weight(k, tasks[k])
    decreases |tasks|
  {
    if k < |tasks| - 1 {
      TotalAtLeast(tasks[..|tasks| - 1], weight, k);
    }
  }

  /** The decrements a task owes: its own, and that of a task it is about to push. */
  function Owed(k: nat, t: Task): (n: nat) {
    (if k > 0 && t.phase != Done then 1 else 0) + (if t.phase.Spawning? then 1 else 0)
  }

  // ----- the invariant -----

  predicate Pending(t: Task) {
    t.phase == Queued || t.phase == Running || t.phase.Spawning?
  }

  /** Do two positions belong to the range of one pending task? */
  predicate Together(tasks: seq<Task>, i: nat, j: nat) {
    exists k :: 0 <= k < |tasks| && Covers(tasks[k], i, j)
  }

  predicate Covers(t: Task, i: nat, j: nat) {
    Pending(t) && t.lo <= i && j < t.hi
  }

  predicate Apart(t: Task, u: Task) {
    t.hi <= u.lo || u.hi <= t.lo
  }

  predicate Fits<T>(lt: (T, T) -> bool, a: seq<T>, t: Task) {
    && t.lo <= t.hi <= |a|
    && (t.phase.Spawning? ==> Split(lt, a, t.lo, t.phase.pivot, t.hi) && !Sequential(t))
  }

  ghost predicate Ordered<T>(lt: (T, T) -> bool, a: seq<T>, tasks: seq<Task>) {
    forall i: nat, j: nat :: i < j < |a| && !Together(tasks, i, j) ==> !lt(a[j], a[i])
  }

  ghost predicate Disjoint(tasks: seq<Task>) {
    forall k, l :: 0 <= k < l < |tasks| && Pending(tasks[k]) && Pending(tasks[l]) ==> Apart(tasks[k], tasks[l])
  }

  ghost predicate AllFit<T>(lt: (T, T) -> bool, a: seq<T>, tasks: seq<Task>) {
    forall k :: 0 <= k < |tasks| && Pending(tasks[k]) ==> Fits(lt, a, tasks[k])
  }

  /** Pending ranges are disjoint; only pairs inside one of them can be out of
      order; the latch holds the decrements to come. */
  ghost predicate Invariant<T(!new)>(lt: (T, T) -> bool, s: State<T>) {
    && |s.tasks| > 0 && s.tasks[0].phase != Returned
    && AllFit(lt, s.a, s.tasks) && Disjoint(s.tasks) && Ordered(lt, s.a, s.tasks)
    && s.latch == Total(s.tasks, Owed)
    && (s.synced ==> s.latch == 0 && s.tasks[0].phase == Done)
  }

  lemma InitialInvariant<T(!new)>(lt: (T, T) -> bool, a: seq<T>, depth: nat)
    ensures Invariant(lt, Initial(a, depth))
  {
    var s := Initial(a, depth);
    assert s.tasks[..0] == [];
    forall i: nat, j: nat | i < j < |a| ensures Together(s.tasks, i, j) {
      assert Covers(s.tasks[0], i, j);
    }
  }

  /** A change of phase that keeps the range pending keeps the order and the ranges. */
  lemma SameRanges<T(!new)>(lt: (T, T) -> bool, a: seq<T>, tasks: seq<Task>, k: nat, phase: Phase)
    requires k < |tasks| && AllFit(lt, a, tasks) && Disjoint(tasks) && Ordered(lt, a, tasks)
    requires Pending(tasks[k]) && Pending(tasks[k].(phase := phase)) && Fits(lt, a, tasks[k].(phase := phase))
    ensures var r := SetPhase(tasks, k, phase);
      AllFit(lt, a, r) && Disjoint(r) && Ordered(lt, a, r)
  {
    hide Split;
    var r := SetPhase(tasks, k, phase);
    forall i: nat, j: nat | i < j < |a| && Together(tasks, i, j) ensures Together(r, i, j) {
      var l :| 0 <= l < |tasks| && Covers(tasks[l], i, j);
      assert Covers(r[l], i, j);
    }
  }

  /** A task that is over leaves a sorted range. */
  lemma RangeEnds<T(!new)>(lt: (T, T) -> bool, a: seq<T>, tasks: seq<Task>, k: nat, phase: Phase)
    requires k < |tasks| && AllFit(lt, a, tasks) && Disjoint(tasks) && Ordered(lt, a, tasks)
    requires phase == Returned || phase == Done
    requires Pending(tasks[k]) ==> tasks[k].hi <= |a| && Sorted(lt, a, tasks[k].lo, tasks[k].hi)
    ensures var r := SetPhase(tasks, k, phase);
      AllFit(lt, a, r) && Disjoint(r) && Ordered(lt, a, r)
  {
    hide Split;
    var r := SetPhase(tasks, k, phase);
    forall i: nat, j: nat | i < j < |a| && Together(tasks, i, j)
      ensures Together(r, i, j) || Covers(tasks[k], i, j)
    {
      var l :| 0 <= l < |tasks| && Covers(tasks[l], i, j);
      assert l != k ==> Covers(r[l], i, j);
    }
  }

  /** Swapping inside one pending range: pairs across its border stay in order,
      for every other position is in order with the whole range. */
  lemma SwapInside<T(!new)>(lt: (T, T) -> bool, s: State<T>, k: nat, i: nat, j: nat)
    requires Invariant(lt, s) && Enabled(lt, s, Swap(k, i, j))
    ensures var t := Apply(lt, s, Swap(k, i, j));
      AllFit(lt, t.a, t.tasks) && Ordered(lt, t.a, t.tasks) && multiset(t.a) == multiset(s.a)
  {
    var t := Apply(lt, s, Swap(k, i, j));
    var mine := s.tasks[k];
    hide Total, Owed;
    forall l | 0 <= l < |s.tasks| && Pending(s.tasks[l]) ensures Fits(lt, t.a, s.tasks[l]) {
      assert Fits(lt, s.a, s.tasks[l]);
      if l != k {
        assert Apart(s.tasks[l], mine);
        assert forall x :: s.tasks[l].lo <= x < s.tasks[l].hi ==> t.a[x] == s.a[x];
      }
    }
    forall x: nat, y: nat | x < y < |t.a| && !Together(s.tasks, x, y) ensures !lt(t.a[y], t.a[x]) {
      var x' := if x == i then j else if x == j then i else x;
      var y' := if y == i then j else if y == j then i else y;
      assert t.a[x] == s.a[x'] && t.a[y] == s.a[y'];
      assert !Covers(mine, x, y);
      ApartPairs(s.tasks, k, x, y, x', y');
    }
  }

  /** Moving the ends of a pair inside range k does not put them together. */
  lemma ApartPairs(tasks: seq<Task>, k: nat, x: nat, y: nat, x': nat, y': nat)
    requires Disjoint(tasks) && k < |tasks| && Pending(tasks[k]) && x < y && !Together(tasks, x, y)
    requires x' == x || (tasks[k].lo <= x < tasks[k].hi && tasks[k].lo <= x' < tasks[k].hi)
    requires y' == y || (tasks[k].lo <= y < tasks[k].hi && tasks[k].lo <= y' < tasks[k].hi)
    ensures x' < y' && !Together(tasks, x', y')
  {
    assert !Covers(tasks[k], x, y);
    forall l | 0 <= l < |tasks| ensures !Covers(tasks[l], x', y') {
      assert !Covers(tasks[l], x, y);
      if l != k && Pending(tasks[l]) {
        assert Apart(tasks[k], tasks[l]) || Apart(tasks[l], tasks[k]);
      }
    }
  }

  // ----- the split -----

  function LeftOf(t: Task): (l: Task)
    requires t.phase.Spawning? && t.depth > 0
  {
    Task(t.lo, t.phase.pivot, t.depth - 1, Queued)
  }

  function RightOf(t: Task): (r: Task)
    requires t.phase.Spawning? && t.depth > 0
  {
    Task(t.phase.pivot + 1, t.hi, t.depth - 1, Running)
  }

  /** Dividing a split range in two: pairs across the pivot are in order. */
  lemma PushDivides<T(!new)>(lt: (T, T) -> bool, a: seq<T>, tasks: seq<Task>, k: nat)
    requires StrictWeak(lt) && AllFit(lt, a, tasks) && Disjoint(tasks) && Ordered(lt, a, tasks)
    requires k < |tasks| && tasks[k].phase.Spawning? && tasks[k].depth > 0
    ensures var r := tasks[k := RightOf(tasks[k])] + [LeftOf(tasks[k])];
      AllFit(lt, a, r) && Disjoint(r) && Ordered(lt, a, r)
  {
    var t := tasks[k];
    var r := tasks[k := RightOf(t)] + [LeftOf(t)];
    assert Fits(lt, a, t);
    PushDisjoint(lt, a, tasks, k);
    forall i: nat, j: nat | i < j < |a| && !Together(r, i, j) ensures !lt(a[j], a[i]) {
      if Covers(t, i, j) {
        assert !Covers(r[k], i, j) && !Covers(r[|tasks|], i, j);
        AcrossPivot(lt, a, t, i, j);
      } else {
        forall l | 0 <= l < |tasks| ensures !Covers(tasks[l], i, j) {
          assert l != k ==> r[l] == tasks[l];
        }
        assert !Together(tasks, i, j);
      }
    }
  }

  lemma AcrossPivot<T(!new)>(lt: (T, T) -> bool, a: seq<T>, t: Task, i: nat, j: nat)
    requires StrictWeak(lt) && t.phase.Spawning? && Fits(lt, a, t)
    requires t.lo <= i < j < t.hi && i <= t.phase.pivot <= j
    ensures !lt(a[j], a[i])
  {
    var p := t.phase.pivot;
    Around(lt, a[i], a[p], a[j]);
  }

  lemma Around<T(!new)>(lt: (T, T) -> bool, x: T, p: T, y: T)
    requires StrictWeak(lt) && (lt(x, p) || x == p) && !lt(y, p)
    ensures !lt(y, x)
  {
  }

  lemma PushDisjoint<T(!new)>(lt: (T, T) -> bool, a: seq<T>, tasks: seq<Task>, k: nat)
    requires AllFit(lt, a, tasks) && Disjoint(tasks)
    requires k < |tasks| && tasks[k].phase.Spawning? && tasks[k].depth > 0
    ensures var r := tasks[k := RightOf(tasks[k])] + [LeftOf(tasks[k])];
      AllFit(lt, a, r) && Disjoint(r)
  {
    var t := tasks[k];
    var r := tasks[k := RightOf(t)] + [LeftOf(t)];
    assert Fits(lt, a, t) && t.lo <= t.phase.pivot < t.hi;
    forall l, m | 0 <= l < m < |r| && Pending(r[l]) && Pending(r[m]) ensures Apart(r[l], r[m]) {
      if m < |tasks| {
        assert Apart(tasks[l], tasks[m]);
      } else if l != k {
        assert Apart(tasks[l], t) || Apart(t, tasks[l]);
      }
    }
  }

  lemma FitsOf<T(!new)>(lt: (T, T) -> bool, a: seq<T>, tasks: seq<Task>, k: nat)
    requires AllFit(lt, a, tasks) && k < |tasks| && Pending(tasks[k])
    ensures Fits(lt, a, tasks[k])
  {
  }

  // ----- every step keeps the invariant -----

  lemma StepKeeps<T(!new)>(lt: (T, T) -> bool, s: State<T>, step: Step)
    requires StrictWeak(lt) && Invariant(lt, s) && Enabled(lt, s, step)
    ensures Invariant(lt, Apply(lt, s, step)) && multiset(Apply(lt, s, step).a) == multiset(s.a)
  {
    hide StrictWeak, AllFit, Disjoint, Ordered, Total, Sorted, Split;
    match step
    case Start(k) =>
      FitsOf(lt, s.a, s.tasks, k);
      SameRanges(lt, s.a, s.tasks, k, Running);
      TotalUpdate(s.tasks, Owed, k, s.tasks[k].(phase := Running));
    case Swap(k, i, j) =>
      SwapInside(lt, s, k, i, j);
    case Spawn(k, p) =>
      SameRanges(lt, s.a, s.tasks, k, Spawning(p));
      TotalUpdate(s.tasks, Owed, k, s.tasks[k].(phase := Spawning(p)));
      TotalAtLeast(s.tasks, Owed, k);
    case Push(k) =>
      PushDivides(lt, s.a, s.tasks, k);
      TotalUpdate(s.tasks, Owed, k, RightOf(s.tasks[k]));
      TotalAppend(s.tasks[k := RightOf(s.tasks[k])], Owed, LeftOf(s.tasks[k]));
    case Return(k) =>
      var phase := if k == 0 then Done else Returned;
      RangeEnds(lt, s.a, s.tasks, k, phase);
      TotalUpdate(s.tasks, Owed, k, s.tasks[k].(phase := phase));
    case Dec(k) =>
      RangeEnds(lt, s.a, s.tasks, k, Done);
      TotalUpdate(s.tasks, Owed, k, s.tasks[k].(phase := Done));
    case Sync =>
  }

  lemma {:induction false} RunKeeps<T(!new)>(lt: (T, T) -> bool, s: State<T>, steps: seq<Step>)
    requires StrictWeak(lt) && Invariant(lt, s) && Possible(lt, s, steps)
    ensures Invariant(lt, Run(lt, s, steps)) && multiset(Run(lt, s, steps).a) == multiset(s.a)
    decreases |steps|
  {
    hide Invariant, Apply, Enabled, StrictWeak;
    if steps != [] {
      StepKeeps(lt, s, steps[0]);
      RunKeeps(lt, Apply(lt, s, steps[0]), steps[1..]);
    }
  }

  // ----- what callers of parallel_sort rely on -----

  /** Under every schedule, once sync has returned the array is a sorted
      permutation of the input. */
  lemma SortedAtSync<T(!new)>(lt: (T, T) -> bool, a: seq<T>, depth: nat, steps: seq<Step>)
    requires StrictWeak(lt) && Possible(lt, Initial(a, depth), steps)
    requires Run(lt, Initial(a, depth), steps).synced
    ensures var r := Run(lt, Initial(a, depth), steps).a;
      |r| == |a| && Sorted(lt, r, 0, |r|) && multiset(r) == multiset(a)
  {
    hide Total, Owed, Run;
    InitialInvariant(lt, a, depth);
    RunKeeps(lt, Initial(a, depth), steps);
    var s := Run(lt, Initial(a, depth), steps);
    assert |multiset(s.a)| == |s.a| && |multiset(a)| == |a|;
    NothingPending(s);
    assert forall i: nat, j: nat :: i < j < |s.a| ==> !Together(s.tasks, i, j);
  }

  lemma NothingPending<T(!new)>(s: State<T>)
    requires |s.tasks| > 0 && s.tasks[0].phase == Done && Total(s.tasks, Owed) == 0
    ensures forall k :: 0 <= k < |s.tasks| ==> s.tasks[k].phase == Done
  {
    forall k | 0 <= k < |s.tasks| ensures s.tasks[k].phase == Done {
      TotalAtLeast(s.tasks, Owed, k);
    }
  }

  /** The latch is above zero while a spawned task is unfinished, also while a
      running task is about to push one; and it is decremented only above zero. */
  lemma LatchHoldsWork<T(!new)>(lt: (T, T) -> bool, a: seq<T>, depth: nat, steps: seq<Step>, k: nat)
    requires StrictWeak(lt) && Possible(lt, Initial(a, depth), steps)
    requires var s := Run(lt, Initial(a, depth), steps);
      k < |s.tasks| && ((k > 0 && s.tasks[k].phase != Done) || s.tasks[k].phase.Spawning?)
    ensures Run(lt, Initial(a, depth), steps).latch > 0
  {
    InitialInvariant(lt, a, depth);
    RunKeeps(lt, Initial(a, depth), steps);
    TotalAtLeast(Run(lt, Initial(a, depth), steps).tasks, Owed, k);
  }

  /** Two tasks never write the same position: what one may swap, no other may. */
  lemma NoRaces<T(!new)>(
      lt: (T, T) -> bool, a: seq<T>, depth: nat, steps: seq<Step>, k: nat, l: nat, i: nat, j: nat, x: nat, y: nat)
    requires StrictWeak(lt) && Possible(lt, Initial(a, depth), steps) && k != l
    requires Enabled(lt, Run(lt, Initial(a, depth), steps), Swap(k, i, j))
    requires Enabled(lt, Run(lt, Initial(a, depth), steps), Swap(l, x, y))
    ensures {i, j} !! {x, y}
  {
    InitialInvariant(lt, a, depth);
    RunKeeps(lt, Initial(a, depth), steps);
    var s := Run(lt, Initial(a, depth), steps);
    assert Apart(s.tasks[if k < l then k else l], s.tasks[if k < l then l else k]);
  }

  // ----- the group finishes -----

  /** The steps other than swaps that a task and its descendants can still make. */
  function Work(k: nat, t: Task): (n: nat) {
    var size := if t.lo <= t.hi then t.hi - t.lo else 0;
    match t.phase
    case Queued => 6 * size + 4
    case Running => 6 * size + 3
    case Spawning(_) => 6 * size + 2
    case Returned => 1
    case Done => 0
  }

  function Remaining<T>(s: State<T>): (n: nat) {
    Total(s.tasks, Work) + (if s.synced then 0 else 1)
  }

  /** Swaps leave this measure alone and every other step lowers it, so a schedule
      has at most Remaining(s) steps besides the swaps inside tasks. */
  lemma StepsAreFinite<T(!new)>(lt: (T, T) -> bool, s: State<T>, step: Step)
    requires Invariant(lt, s) && Enabled(lt, s, step)
    ensures step.Swap? ==> Remaining(Apply(lt, s, step)) == Remaining(s)
    ensures !step.Swap? ==> Remaining(Apply(lt, s, step)) < Remaining(s)
  {
    hide AllFit, Disjoint, Ordered, Total, Sorted;
    match step
    case Start(k) => TotalUpdate(s.tasks, Work, k, s.tasks[k].(phase := Running));
    case Swap(k, i, j) =>
    case Spawn(k, p) => TotalUpdate(s.tasks, Work, k, s.tasks[k].(phase := Spawning(p)));
    case Push(k) =>
      FitsOf(lt, s.a, s.tasks, k);
      TotalUpdate(s.tasks, Work, k, RightOf(s.tasks[k]));
      TotalAppend(s.tasks[k := RightOf(s.tasks[k])], Work, LeftOf(s.tasks[k]));
    case Return(k) =>
      var phase := if k == 0 then Done else Returned;
      TotalUpdate(s.tasks, Work, k, s.tasks[k].(phase := phase));
    case Dec(k) => TotalUpdate(s.tasks, Work, k, s.tasks[k].(phase := Done));
    case Sync =>
  }

  function Besides(steps: seq<Step>): (n: nat)
    decreases |steps|
  {
    if steps == [] then 0 else (if steps[0].Swap? then 0 else 1) + Besides(steps[1..])
  }

  lemma {:induction false} RunsAreBounded<T(!new)>(lt: (T, T) -> bool, s: State<T>, steps: seq<Step>)
    requires StrictWeak(lt) && Invariant(lt, s) && Possible(lt, s, steps)
    ensures Besides(steps) <= Remaining(s)
    decreases |steps|
  {
    hide Invariant, Apply, Enabled, StrictWeak, Remaining;
    if steps != [] {
      StepKeeps(lt, s, steps[0]);
      StepsAreFinite(lt, s, steps[0]);
      RunsAreBounded(lt, Apply(lt, s, steps[0]), steps[1..]);
    }
  }

  lemma {:induction false} AllDone(tasks: seq<Task>)
    requires forall k :: 0 <= k < |tasks| ==> tasks[k].phase == Done
    ensures Total(tasks, Owed) == 0
    decreases |tasks|
  {
    if tasks != [] {
      AllDone(tasks[..|tasks| - 1]);
    }
  }
}
