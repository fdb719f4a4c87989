/** What a group between --start-group and --end-group guarantees once the loop
    has left it, and what it does not guarantee when groups are nested
    (lib/Core/Resolver.cpp's getFile and undefinesAdded). */
module GroupFixpoint {
  import opened Common
  import opened Groups

  // ----- the shape of the command line -----

  /** The nodes make sense for so many files. */
  predicate ValidShape(nodes: seq<Node>, files: nat) {
    && (forall p :: 0 <= p < |nodes| ==>
          if nodes[p].FileNode? then nodes[p].f < files else nodes[p].size <= p)
    && (forall p, q :: 0 <= p < q < |nodes| && nodes[p].FileNode? && nodes[q].FileNode? ==> nodes[p].f != nodes[q].f)
  }

  /** The node at q ends a group that holds the node at r. */
  predicate Holds(nodes: seq<Node>, q: nat, r: nat) {
    r < q < |nodes| && nodes[q].GroupEnd? && q - nodes[q].size <= r
  }

  /** The first group end from q on that holds the node at r, or the end of the list. */
  function FirstEnd(nodes: seq<Node>, r: nat, q: nat): (end: nat)
    requires q <= |nodes|
    ensures q <= end <= |nodes| && (end < |nodes| ==> Holds(nodes, end, r))
    ensures forall k :: q <= k < end ==> !Holds(nodes, k, r)
    decreases |nodes| - q
  {
    if q == |nodes| || Holds(nodes, q, r) then q else FirstEnd(nodes, r, q + 1)
  }

  /** Whatever file behind p adds names: the group end that notices it first goes
      back behind e, or as far as p. */
  predicate ReturnsTo(nodes: seq<Node>, p: nat, e: nat) {
    forall r :: p < r < |nodes| && nodes[r].FileNode? ==>
      var q := FirstEnd(nodes, r, r + 1);
      q < |nodes| && q - nodes[q].size <= e ==> q - nodes[q].size <= p
  }

  /** The same for all files of the group that ends at e. */
  predicate GroupReturns(nodes: seq<Node>, e: nat)
    requires e < |nodes| && nodes[e].GroupEnd?
  {
    forall p :: 0 <= p < e && e - nodes[e].size <= p && nodes[p].FileNode? ==> ReturnsTo(nodes, p, e)
  }

  // ----- what the loop keeps -----

  /** The archive at p has seen every slot of the list. */
  predicate UpToDate(w: World, s: State, p: nat)
    requires p < |w.nodes| && w.nodes[p].FileNode?
  {
    IsArchive(w, w.nodes[p].f) ==> StartOf(s, w.nodes[p].f) == |s.core.undefs|
  }

  /** While the loop is between p and e, the archive at p is up to date or a flagged
      file stands between it and the loop. */
  ghost predicate Pending(w: World, s: State, p: nat, e: nat)
    requires p < |w.nodes| && w.nodes[p].FileNode?
  {
    p < s.pos <= e < |w.nodes| ==> UpToDate(w, s, p) || Flagged(w, s.flags, p + 1, s.pos)
  }

  /** A flagged file is one that no group end has noticed yet. */
  ghost predicate Unnoticed(w: World, s: State) {
    forall r :: 0 <= r < s.pos <= |w.nodes| && w.nodes[r].FileNode? && w.nodes[r].f in s.flags ==>
      forall q :: r < q < s.pos ==> !Holds(w.nodes, q, r)
  }

  lemma StillFlagged(w: World, s: State, t: State, p: nat)
    requires ValidWorld(w) && p < s.pos < |w.nodes| && w.nodes[s.pos].FileNode?
    requires t.flags == SetFlag(s.flags, w.nodes[s.pos].f, w.nodes[s.pos].f in t.flags)
    requires Flagged(w, s.flags, p + 1, s.pos) || w.nodes[s.pos].f in t.flags
    ensures Flagged(w, t.flags, p + 1, s.pos + 1)
  {
    if w.nodes[s.pos].f !in t.flags {
      var q :| p + 1 <= q < s.pos && w.nodes[q].FileNode? && w.nodes[q].f in s.flags;
      assert w.nodes[q].f in t.flags;
    }
  }

  /** The visit at the loop's position brings that archive up to date, and leaves
      the others up to date or flags the visited file. */
  lemma VisitOutdates(w: World, s: State, v: State, p: nat)
    requires ValidWorld(w) && s.pos < |w.nodes| && w.nodes[s.pos].FileNode?
    requires Visited(w, s, w.nodes[s.pos].f, v)
    requires p < s.pos && w.nodes[p].FileNode? && UpToDate(w, s, p)
    ensures UpToDate(w, v, p) || w.nodes[s.pos].f in v.flags
  {
    hide Invariant, Budget, AllMembers;
    assert w.nodes[p].f != w.nodes[s.pos].f;
  }

  lemma VisitUpdates(w: World, s: State, v: State)
    requires ValidWorld(w) && s.pos < |w.nodes| && w.nodes[s.pos].FileNode?
    requires Visited(w, s, w.nodes[s.pos].f, v)
    ensures UpToDate(w, v, s.pos) && v.pos == s.pos
    ensures v.flags == SetFlag(s.flags, w.nodes[s.pos].f, w.nodes[s.pos].f in v.flags)
  {
    hide Invariant, Budget, AllMembers, Grows;
  }

  lemma VisitPending(w: World, s: State, v: State, p: nat, e: nat)
    requires ValidWorld(w) && s.pos < e < |w.nodes| && w.nodes[s.pos].FileNode?
    requires p < |w.nodes| && w.nodes[p].FileNode? && Pending(w, s, p, e)
    requires Visited(w, s, w.nodes[s.pos].f, v)
    ensures Pending(w, v.(pos := s.pos + 1), p, e)
  {
    hide Visited, Flagged, UpToDate;
    var t := v.(pos := s.pos + 1);
    VisitUpdates(w, s, v);
    SameUpToDate(w, v, t, p);
    if p < s.pos && !UpToDate(w, v, p) {
      if UpToDate(w, s, p) {
        VisitOutdates(w, s, v, p);
      }
      StillFlagged(w, s, t, p);
    }
  }

  lemma SameUpToDate(w: World, s: State, t: State, p: nat)
    requires t == s.(pos := t.pos) && p < |w.nodes| && w.nodes[p].FileNode?
    ensures UpToDate(w, s, p) == UpToDate(w, t, p)
  {
  }

  lemma StepUnnoticed(w: World, s: State, incremental: bool)
    requires Invariant(w, s) && s.pos < |w.nodes| && Unnoticed(w, s)
    ensures Unnoticed(w, Step(w, s, incremental))
  {
    hide Invariant, Visit, Visited;
    InvariantFacts(w, s);
    match w.nodes[s.pos]
    case GroupEnd(size) =>
    case FileNode(f) =>
      VisitKeeps(w, s, f, incremental);
      VisitUpdates(w, s, Visit(w, s, f, incremental));
  }

  /** A jump from a group end never lands between p and e. */
  lemma NoJumpBetween(w: World, s: State, p: nat, e: nat)
    requires ValidWorld(w) && s.pos < |w.nodes| && w.nodes[s.pos].GroupEnd? && Unnoticed(w, s)
    requires Flagged(w, s.flags, s.pos - w.nodes[s.pos].size, s.pos) && ReturnsTo(w.nodes, p, e)
    ensures !(p < s.pos - w.nodes[s.pos].size <= e)
  {
    var r :| s.pos - w.nodes[s.pos].size <= r < s.pos && w.nodes[r].FileNode? && w.nodes[r].f in s.flags;
    assert Holds(w.nodes, s.pos, r);
    assert FirstEnd(w.nodes, r, r + 1) == s.pos;
  }

  lemma StepPending(w: World, s: State, p: nat, e: nat, incremental: bool)
    requires Invariant(w, s) && s.pos < |w.nodes| && Unnoticed(w, s)
    requires p < e < |w.nodes| && w.nodes[p].FileNode? && ReturnsTo(w.nodes, p, e) && Pending(w, s, p, e)
    ensures Pending(w, Step(w, s, incremental), p, e)
  {
    hide Invariant, Visit, Visited, Unnoticed, ReturnsTo;
    InvariantFacts(w, s);
    match w.nodes[s.pos]
    case GroupEnd(size) =>
      if Flagged(w, s.flags, s.pos - size, s.pos) {
        NoJumpBetween(w, s, p, e);
      } else {
        SameUpToDate(w, s, s.(pos := s.pos + 1), p);
      }
    case FileNode(f) =>
      VisitKeeps(w, s, f, incremental);
      if s.pos < e {
        VisitPending(w, s, Visit(w, s, f, incremental), p, e);
      }
  }

  lemma {:induction false} RunPending(w: World, n: nat, p: nat, e: nat, incremental: bool)
    requires ValidWorld(w) && p < e < |w.nodes| && w.nodes[p].FileNode? && ReturnsTo(w.nodes, p, e)
    ensures var s := Run(w, InitialState(), n, incremental); Pending(w, s, p, e) && Unnoticed(w, s)
  {
    hide Invariant, Step, Flagged, UpToDate, ReturnsTo;
    if n > 0 {
      RunPending(w, n - 1, p, e, incremental);
      RunKeeps(w, n - 1, incremental);
      var before := Run(w, InitialState(), n - 1, incremental);
      hide Pending, Unnoticed;
      if before.pos < |w.nodes| {
        StepPending(w, before, p, e, incremental);
        StepUnnoticed(w, before, incremental);
      }
    }
  }

  /** The loop has come to the group end at e and goes on behind it. */
  ghost predicate Leaves(w: World, n: nat, e: nat, incremental: bool)
    requires ValidWorld(w)
  {
    && Run(w, InitialState(), n, incremental).pos == e
    && Run(w, InitialState(), n + 1, incremental).pos == e + 1
  }

  /** Group iteration reaches a fixpoint where the shape makes the loop return:
      whenever it leaves the group, an archive of it has no unloaded member for a
      name that is still undefined. */
  lemma GroupFixpoint(w: World, n: nat, e: nat, incremental: bool, p: nat)
    requires ValidWorld(w) && e < |w.nodes| && w.nodes[e].GroupEnd? && e - w.nodes[e].size <= p < e
    requires w.nodes[p].FileNode? && IsArchive(w, w.nodes[p].f) && ReturnsTo(w.nodes, p, e)
    requires Leaves(w, n, e, incremental)
    ensures NothingLeft(w, Run(w, InitialState(), n, incremental).core, w.nodes[p].f)
  {
    var s := Run(w, InitialState(), n, incremental);
    RunPending(w, n, p, e, incremental);
    RunKeeps(w, n, incremental);
    assert Run(w, InitialState(), n + 1, incremental) == Step(w, s, incremental);
    assert !Flagged(w, s.flags, e - w.nodes[e].size, e);
    assert UpToDate(w, s, p);
    assert SearchedTo(w, s.core, w.nodes[p].f, |s.core.undefs|);
  }

  // ----- a group that holds no other and is held by none from inside -----

  /** The group from b to e, into which no other group end goes back except to its
      start. */
  predicate FlatGroup(nodes: seq<Node>, b: nat, e: nat) {
    && b <= e < |nodes| && nodes[e] == GroupEnd(e - b)
    && (forall q :: 0 <= q < |nodes| && nodes[q].GroupEnd? && q != e ==> !(b < q - nodes[q].size <= e))
  }

  lemma FlatGroupsReturn(nodes: seq<Node>, b: nat, e: nat)
    requires FlatGroup(nodes, b, e)
    ensures GroupReturns(nodes, e)
  {
    hide FirstEnd;
  }

  ghost predicate NothingLeft(w: World, c: Core, f: nat)
    requires IsArchive(w, f)
  {
    forall name :: Unresolved(c, name) ==> Exhausted(w, c.inst, f, name)
  }

  // ----- a shape that does not return misses a member -----

  /** The archive with f defines x, the object with asking asks for it. */
  function Missing(nodes: seq<Node>, files: nat, f: nat, asking: nat): (w: World)
    requires ValidShape(nodes, files) && f != asking
    ensures ValidWorld(w) && w.nodes == nodes && |w.inputs| == files
  {
    var inputs := seq(files, i requires 0 <= i < files =>
      if i == f then Archive(map["x" := 0], map[0 := Some(File(["x"], []))])
      else if i == asking then Object(File([], ["x"]))
      else Object(File([], [])));
    World(inputs, nodes)
  }

  function Nothing(): (c: Core) {
    Core(map[], [], {}, [])
  }

  function Wanting(): (c: Core) {
    Core(map["x" := false], ["x"], {}, [])
  }

  lemma AskingForX()
    ensures HandleFile(Nothing(), File([], ["x"])) == Wanting()
    ensures forall c :: HandleFile(c, File([], [])) == c
  {
    var c := Nothing();
    assert AddDefines(c, []) == c;
    assert ["x"][1..] == [];
    assert AddUndefines(Wanting(), []) == Wanting();
    assert AddUndefines(c, ["x"]) == Wanting();
  }

  /** Where the run stands: p is the archive's node, r that of the object. */
  predicate Before(w: World, p: nat, r: nat, s: State)
    requires r < |w.nodes| && w.nodes[r].FileNode?
  {
    s.core == Nothing() && s.flags == {} && w.nodes[r].f !in s.seen && s.pos <= r
  }

  predicate Asked(w: World, p: nat, r: nat, s: State)
    requires r < |w.nodes| && w.nodes[r].FileNode?
  {
    && s.core == Wanting() && w.nodes[r].f in s.seen && p < s.pos <= |w.nodes|
    && (s.flags == {} || s.flags == {w.nodes[r].f})
  }

  ghost predicate IsMissing(w: World, p: nat, r: nat) {
    && p < r < |w.nodes| && w.nodes[p].FileNode? && w.nodes[r].FileNode? && ValidShape(w.nodes, |w.inputs|)
    && w == Missing(w.nodes, |w.inputs|, w.nodes[p].f, w.nodes[r].f)
  }

  lemma StepBefore(w: World, p: nat, r: nat, s: State, incremental: bool)
    requires IsMissing(w, p, r) && Before(w, p, r, s)
    ensures var t := Step(w, s, incremental);
      t.pos == s.pos + 1
      && if s.pos < r then Before(w, p, r, t) else Asked(w, p, r, t) && t.flags == {w.nodes[r].f}
  {
    hide HandleFile;
    AskingForX();
  }

  /** Going on after x has been asked for: the object's flag goes when it is visited
      again, and only a group that holds the object goes back while it stands. */
  lemma StepAsked(w: World, p: nat, r: nat, s: State, incremental: bool)
    requires IsMissing(w, p, r) && Asked(w, p, r, s) && s.pos < |w.nodes|
    requires s.flags != {} ==> !Holds(w.nodes, s.pos, r)
    ensures var t := Step(w, s, incremental);
      t.pos == s.pos + 1 && Asked(w, p, r, t) && t.flags == if s.pos == r then {} else s.flags
  {
    hide HandleFile;
    AskingForX();
    if w.nodes[s.pos].GroupEnd? {
      assert !Flagged(w, s.flags, s.pos - w.nodes[s.pos].size, s.pos);
    }
  }

  lemma JumpAsked(w: World, p: nat, r: nat, s: State, incremental: bool)
    requires IsMissing(w, p, r) && Asked(w, p, r, s) && s.pos < |w.nodes| && s.flags != {}
    requires Holds(w.nodes, s.pos, r) && p < s.pos - w.nodes[s.pos].size
    ensures Step(w, s, incremental) == s.(pos := s.pos - w.nodes[s.pos].size)
    ensures Asked(w, p, r, Step(w, s, incremental))
  {
    assert w.nodes[r].f in s.flags;
    assert Flagged(w, s.flags, s.pos - w.nodes[s.pos].size, s.pos);
  }

  lemma RunFrom(w: World, n: nat, incremental: bool)
    requires ValidWorld(w) && Run(w, InitialState(), n, incremental).pos < |w.nodes|
    ensures Run(w, InitialState(), n + 1, incremental) == Step(w, Run(w, InitialState(), n, incremental), incremental)
  {
  }

  /** The first time through, up to the first group end that holds the object. */
  lemma {:induction false} FirstTime(w: World, p: nat, r: nat, q: nat, i: nat, incremental: bool)
    requires IsMissing(w, p, r) && i <= q <= |w.nodes| && forall k :: r < k < q ==> !Holds(w.nodes, k, r)
    requires r < q
    ensures var s := Run(w, InitialState(), i, incremental);
      s.pos == i && if i <= r then Before(w, p, r, s) else Asked(w, p, r, s) && s.flags == {w.nodes[r].f}
  {
    hide Step, Before, Asked;
    if i == 0 {
      assert Before(w, p, r, InitialState()) by { Starts(w, p, r); }
    } else {
      FirstTime(w, p, r, q, i - 1, incremental);
      var s := Run(w, InitialState(), i - 1, incremental);
      RunFrom(w, i - 1, incremental);
      if i - 1 <= r {
        StepBefore(w, p, r, s, incremental);
      } else {
        StepAsked(w, p, r, s, incremental);
      }
    }
  }

  lemma Starts(w: World, p: nat, r: nat)
    requires r < |w.nodes| && w.nodes[r].FileNode?
    ensures Before(w, p, r, InitialState())
  {
  }

  /** The second time through, from the start of that group to the end of the list. */
  lemma {:induction false} SecondTime(w: World, p: nat, r: nat, q: nat, i: nat, incremental: bool)
    requires IsMissing(w, p, r) && q == FirstEnd(w.nodes, r, r + 1) < |w.nodes|
    requires p < q - w.nodes[q].size <= i <= |w.nodes|
    ensures var s := Run(w, InitialState(), q + 1 + (i - (q - w.nodes[q].size)), incremental);
      s.pos == i && Asked(w, p, r, s) && s.flags == if i <= r then {w.nodes[r].f} else {}
  {
    hide Step, Before, Asked, FirstEnd;
    var t := q - w.nodes[q].size;
    if i == t {
      FirstTime(w, p, r, q, q, incremental);
      RunFrom(w, q, incremental);
      JumpAsked(w, p, r, Run(w, InitialState(), q, incremental), incremental);
    } else {
      var n := q + 1 + (i - 1 - t);
      SecondTime(w, p, r, q, i - 1, incremental);
      RunFrom(w, n, incremental);
      StepAsked(w, p, r, Run(w, InitialState(), n, incremental), incremental);
      assert n + 1 == q + 1 + (i - t);
    }
  }

  /** If the first group end to notice the object goes back to a place between p and
      e, the loop leaves e without having searched the archive for x. */
  lemma MissesWithoutReturn(nodes: seq<Node>, files: nat, p: nat, r: nat, e: nat, incremental: bool) returns (w: World, n: nat)
    requires ValidShape(nodes, files) && p < e < |nodes| && nodes[e].GroupEnd?
    requires p < r < |nodes| && nodes[p].FileNode? && nodes[r].FileNode?
    requires var q := FirstEnd(nodes, r, r + 1); q < |nodes| && p < q - nodes[q].size <= e
    ensures ValidWorld(w) && w.nodes == nodes && |w.inputs| == files && IsArchive(w, nodes[p].f)
    ensures Leaves(w, n, e, incremental)
    ensures !NothingLeft(w, Run(w, InitialState(), n, incremental).core, nodes[p].f)
  {
    w := Missing(nodes, files, nodes[p].f, nodes[r].f);
    hide FirstEnd, Missing, Leaves, Run, NothingLeft;
    MissingIs(nodes, files, p, r);
    n := LeavesWanting(w, p, r, e, incremental);
    LeftOver(nodes, files, p, r);
  }

  lemma LeavesWanting(w: World, p: nat, r: nat, e: nat, incremental: bool) returns (n: nat)
    requires IsMissing(w, p, r) && p < e < |w.nodes|
    requires var q := FirstEnd(w.nodes, r, r + 1); q < |w.nodes| && p < q - w.nodes[q].size <= e
    ensures ValidWorld(w) && Leaves(w, n, e, incremental) && Run(w, InitialState(), n, incremental).core == Wanting()
  {
    hide FirstEnd, Missing, Run, Asked;
    var q := FirstEnd(w.nodes, r, r + 1);
    n := q + 1 + (e - (q - w.nodes[q].size));
    SecondTime(w, p, r, q, e, incremental);
    SecondTime(w, p, r, q, e + 1, incremental);
    assert n + 1 == q + 1 + (e + 1 - (q - w.nodes[q].size));
    StillWanting(w, p, r, Run(w, InitialState(), n, incremental));
  }

  lemma MissingIs(nodes: seq<Node>, files: nat, p: nat, r: nat)
    requires ValidShape(nodes, files) && p < r < |nodes| && nodes[p].FileNode? && nodes[r].FileNode?
    ensures IsMissing(Missing(nodes, files, nodes[p].f, nodes[r].f), p, r)
  {
  }

  lemma StillWanting(w: World, p: nat, r: nat, s: State)
    requires r < |w.nodes| && w.nodes[r].FileNode? && Asked(w, p, r, s)
    ensures s.core == Wanting()
  {
  }

  lemma LeftOver(nodes: seq<Node>, files: nat, p: nat, r: nat)
    requires ValidShape(nodes, files) && p < r < |nodes| && nodes[p].FileNode? && nodes[r].FileNode?
    ensures var w := Missing(nodes, files, nodes[p].f, nodes[r].f);
      IsArchive(w, nodes[p].f) && !NothingLeft(w, Wanting(), nodes[p].f)
  {
    var w := Missing(nodes, files, nodes[p].f, nodes[r].f);
    assert Unresolved(Wanting(), "x") && !Exhausted(w, {}, nodes[p].f, "x");
  }

  /** Whatever the files hold, the loop leaves the group at e with nothing left for
      any of its archives. */
  ghost predicate AlwaysFixpoint(nodes: seq<Node>, files: nat, e: nat, incremental: bool)
    requires e < |nodes| && nodes[e].GroupEnd?
  {
    forall w: World, n: nat, p: nat ::
      w.nodes == nodes && |w.inputs| == files && ValidWorld(w) && Leaves(w, n, e, incremental)
      && e - nodes[e].size <= p < e && nodes[p].FileNode? && IsArchive(w, nodes[p].f)
      ==> NothingLeft(w, Run(w, InitialState(), n, incremental).core, nodes[p].f)
  }

  /** A group always ends at a fixpoint if and only if its shape makes the loop
      return to every file of it, which the caller can see from the command line. */
  lemma FixpointExactlyWhen(nodes: seq<Node>, files: nat, e: nat, incremental: bool)
    requires ValidShape(nodes, files) && e < |nodes| && nodes[e].GroupEnd?
    ensures AlwaysFixpoint(nodes, files, e, incremental) <==> GroupReturns(nodes, e)
  {
    hide FirstEnd, Run, NothingLeft, Leaves;
    if GroupReturns(nodes, e) {
      hide ReturnsTo;
      forall w: World, n: nat, p: nat |
        w.nodes == nodes && |w.inputs| == files && ValidWorld(w) && Leaves(w, n, e, incremental)
        && e - nodes[e].size <= p < e && nodes[p].FileNode? && IsArchive(w, nodes[p].f)
        ensures NothingLeft(w, Run(w, InitialState(), n, incremental).core, nodes[p].f)
      {
        GroupFixpoint(w, n, e, incremental, p);
      }
    } else {
      var p: nat :| p < e && e - nodes[e].size <= p && nodes[p].FileNode? && !ReturnsTo(nodes, p, e);
      var r :| p < r < |nodes| && nodes[r].FileNode?
        && var q := FirstEnd(nodes, r, r + 1); q < |nodes| && p < q - nodes[q].size <= e;
      var w, n := MissesWithoutReturn(nodes, files, p, r, e, incremental);
    }
  }

  // ----- nested groups -----

  /** --start-group a.lib --start-group x.obj --end-group --end-group. The driver
      sizes the outer group in files, which makes 2; counted in nodes it is 3. */
  function Nested(outer: nat): (nodes: seq<Node>) {
    [FileNode(0), FileNode(1), GroupEnd(1), GroupEnd(outer)]
  }

  /** If x.obj asks for a name of a.lib, the end of the inner group goes back to
      x.obj, which clears its flag, and the outer group ends without searching a.lib
      again, however it is counted. */
  lemma NestedGroupsMiss(outer: nat, incremental: bool)
    requires outer == 2 || outer == 3
    ensures ValidShape(Nested(outer), 2)
    ensures var w := Missing(Nested(outer), 2, 0, 1);
      var s := Run(w, InitialState(), 6, incremental);
      IsArchive(w, 0) && s.pos == |w.nodes| && Unresolved(s.core, "x") && !Exhausted(w, s.core.inst, 0, "x")
  {
    var nodes := Nested(outer);
    var w := Missing(nodes, 2, 0, 1);
    assert Holds(nodes, 2, 1) && FirstEnd(nodes, 1, 2) == 2;
    hide Run, Missing, FirstEnd;
    SecondTime(w, 0, 1, 2, 4, incremental);
    NeverExhausted(nodes);
  }

  lemma NeverExhausted(nodes: seq<Node>)
    requires ValidShape(nodes, 2)
    ensures var w := Missing(nodes, 2, 0, 1);
      IsArchive(w, 0) && Unresolved(Wanting(), "x") && !Exhausted(w, {}, 0, "x")
  {
  }

  /** Counted in nodes, that shape does not return. Nested groups that do: two
      groups around the same files, and an inner group at the start of the outer. */
  lemma NestedShapes()
    ensures !GroupReturns(Nested(3), 3)
    ensures var twice := [FileNode(0), FileNode(1), GroupEnd(2), GroupEnd(3)]; GroupReturns(twice, 2) && GroupReturns(twice, 3)
    ensures var first := [FileNode(0), GroupEnd(1), FileNode(1), GroupEnd(3)]; GroupReturns(first, 1) && GroupReturns(first, 3)
  {
    var nodes := Nested(3);
    assert nodes[0].FileNode? && nodes[1].FileNode? && Holds(nodes, 2, 1);
    var r: nat := 1;
    assert FirstEnd(nodes, r, r + 1) == 2;
  }
}
