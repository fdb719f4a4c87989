/** Starting each archive at its saved position and blanking resolved slots
    (lib/Core/Resolver.cpp's forEachUndefines) is only an optimization: it loads
    the members a full search would load on every visit, in the same order. */
module IncrementalSearch {
  import opened Common
  import opened Groups

  /** The same table and the same members loaded; a slot of the incremental list is
      that of the full list, or has been blanked because its name is resolved. */
  ghost predicate Matches(i: Core, f: Core) {
    && i.names == f.names && i.inst == f.inst && i.log == f.log && |i.undefs| == |f.undefs|
    && forall k :: 0 <= k < |i.undefs| ==>
         i.undefs[k] == f.undefs[k] || (i.undefs[k] == "" && !Unresolved(f, f.undefs[k]))
  }

  /** What loading a file does to the symbol table depends on the table alone. */
  lemma {:induction false} DefinesMatch(i: Core, f: Core, ns: seq<string>)
    requires ValidCore(f) && Matches(i, f) && NonEmptyNames(ns)
    ensures Matches(AddDefines(i, ns), AddDefines(f, ns))
    decreases |ns|
  {
    if ns != [] {
      DefinesMatch(i.(names := i.names[ns[0] := true]), f.(names := f.names[ns[0] := true]), ns[1..]);
    }
  }

  lemma {:induction false} UndefinesMatch(i: Core, f: Core, ns: seq<string>)
    requires ValidCore(f) && Matches(i, f) && NonEmptyNames(ns)
    ensures Matches(AddUndefines(i, ns), AddUndefines(f, ns))
    decreases |ns|
  {
    if ns == [] {
    } else if ns[0] in f.names {
      UndefinesMatch(i, f, ns[1..]);
    } else {
      var n := ns[0];
      var i1 := i.(names := i.names[n := false], undefs := i.undefs + [n]);
      var f1 := f.(names := f.names[n := false], undefs := f.undefs + [n]);
      AddUndefinesKeeps(f, [n]);
      assert [n][1..] == [];
      assert AddUndefines(f, [n]) == f1;
      UndefinesMatch(i1, f1, ns[1..]);
    }
  }

  lemma HandleFileMatches(i: Core, f: Core, file: File)
    requires ValidCore(f) && Matches(i, f) && ValidFile(file)
    ensures Matches(HandleFile(i, file), HandleFile(f, file))
  {
    hide Matches, ValidCore;
    DefinesMatch(i, f, file.defines);
    AddDefinesKeeps(f, file.defines);
    UndefinesMatch(AddDefines(i, file.defines), AddDefines(f, file.defines), file.undefines);
  }

  lemma LoadMemberMatches(w: World, i: Core, f: Core, a: nat, n: string)
    requires ValidWorld(w) && IsArchive(w, a) && n in w.inputs[a].toc && ValidCore(f) && Matches(i, f)
    ensures Matches(LoadMember(w, i, a, n), LoadMember(w, f, a, n))
  {
    hide HandleFile;
    var m := w.inputs[a].toc[n];
    var inst := i.inst + {(a, m)};
    match w.inputs[a].members[m]
    case None =>
    case Some(file) =>
      HandleFileMatches(i.(inst := inst, log := i.log + [(a, m)]), f.(inst := inst, log := f.log + [(a, m)]), file);
  }

  /** One slot: both searches take the same turn. */
  function Turn(w: World, c: Core, a: nat, k: nat, incremental: bool): (next: Core)
    requires IsArchive(w, a) && ValidInput(w.inputs[a]) && k < |c.undefs|
  {
    var n := c.undefs[k];
    if n == "" then c
    else if !Unresolved(c, n) then (if incremental then c.(undefs := c.undefs[k := ""]) else c)
    else if Exhausted(w, c.inst, a, n) then c
    else LoadMember(w, c, a, n)
  }

  lemma ScanTurn(w: World, c: Core, a: nat, k: nat, incremental: bool)
    requires ValidWorld(w) && IsArchive(w, a) && k < |c.undefs|
    ensures Scan(w, c, a, k, incremental) == Scan(w, Turn(w, c, a, k, incremental), a, k + 1, incremental)
  {
    hide LoadMember;
  }

  lemma TurnMatches(w: World, i: Core, f: Core, a: nat, k: nat)
    requires ValidWorld(w) && IsArchive(w, a) && k < |f.undefs| && ValidCore(f) && Matches(i, f)
    ensures Matches(Turn(w, i, a, k, true), Turn(w, f, a, k, false))
    ensures ValidCore(Turn(w, f, a, k, false))
    ensures var next := Turn(w, f, a, k, false);
      f.inst < next.inst <= f.inst + AllMembers(w) || next == f
  {
    hide LoadMember, AllMembers;
    var n := f.undefs[k];
    if Unresolved(f, n) && !Exhausted(w, f.inst, a, n) {
      LoadMemberMatches(w, i, f, a, n);
      LoadMemberKeeps(w, f, a, n);
      MemberIsKnown(w, a, n);
    }
  }

  lemma {:induction false} ScanMatches(w: World, i: Core, f: Core, a: nat, k: nat)
    requires ValidWorld(w) && IsArchive(w, a) && ValidCore(f) && Matches(i, f)
    ensures Matches(Scan(w, i, a, k, true), Scan(w, f, a, k, false))
    decreases AllMembers(w) - f.inst, |f.undefs| - k
  {
    hide Scan, Turn, ValidCore, AllMembers;
    if k < |f.undefs| {
      TurnMatches(w, i, f, a, k);
      ScanTurn(w, i, a, k, true);
      ScanTurn(w, f, a, k, false);
      var next := Turn(w, f, a, k, false);
      ScanMatches(w, Turn(w, i, a, k, true), next, a, k + 1);
    } else {
      ScanEnds(w, i, a, k, true);
      ScanEnds(w, f, a, k, false);
    }
  }

  /** A full search finds nothing in the part of the list the archive has seen. */
  lemma {:induction false} SeenPartIsSkipped(w: World, f: Core, a: nat, from: nat, start: nat)
    requires ValidWorld(w) && IsArchive(w, a) && from <= start && SearchedTo(w, f, a, start)
    ensures Scan(w, f, a, from, false) == Scan(w, f, a, start, false)
    decreases start - from
  {
    if from < start {
      ScanTurn(w, f, a, from, false);
      assert Turn(w, f, a, from, false) == f;
      hide Scan;
      SeenPartIsSkipped(w, f, a, from + 1, start);
    }
  }

  ghost predicate StatesMatch(i: State, f: State) {
    && Matches(i.core, f.core)
    && i.start == f.start && i.seen == f.seen && i.flags == f.flags && i.pos == f.pos
  }

  lemma VisitMatches(w: World, i: State, f: State, a: nat)
    requires Invariant(w, f) && StatesMatch(i, f) && a < |w.inputs| && f.pos < |w.nodes|
    ensures StatesMatch(Visit(w, i, a, true), Visit(w, f, a, false))
  {
    hide Matches, ValidCore, Scan, HandleFile, Invariant, SearchedTo;
    InvariantFacts(w, f);
    SameLength(i.core, f.core);
    match w.inputs[a]
    case Object(file) =>
      HandleFileMatches(i.core, f.core, file);
      SameLength(HandleFile(i.core, file), HandleFile(f.core, file));
    case Archive(_, _) =>
      var start := StartOf(f, a);
      ScanMatches(w, i.core, f.core, a, start);
      SearchedFrom(w, f, a, true);
      SeenPartIsSkipped(w, f.core, a, 0, start);
      SameLength(Scan(w, i.core, a, start, true), Scan(w, f.core, a, start, false));
  }

  lemma SameLength(i: Core, f: Core)
    requires Matches(i, f)
    ensures |i.undefs| == |f.undefs|
  {
  }

  lemma StepMatches(w: World, i: State, f: State)
    requires Invariant(w, f) && StatesMatch(i, f) && f.pos < |w.nodes|
    ensures StatesMatch(Step(w, i, true), Step(w, f, false))
  {
    hide Matches, Visit, Invariant, Flagged;
    InvariantFacts(w, f);
    match w.nodes[f.pos]
    case GroupEnd(_) =>
    case FileNode(a) => VisitMatches(w, i, f, a);
  }

  lemma MatchesItself(c: Core)
    ensures Matches(c, c)
  {
  }

  /** After any number of turns both forms have loaded the same members in the same
      order, hold the same symbol table, and are at the same node. */
  lemma {:induction false} IncrementalIsFull(w: World, n: nat)
    requires ValidWorld(w)
    ensures StatesMatch(Run(w, InitialState(), n, true), Run(w, InitialState(), n, false))
  {
    hide Step, Invariant, Matches;
    if n == 0 {
      assert Matches(InitialState().core, InitialState().core) by { MatchesItself(InitialState().core); }
    } else {
      IncrementalIsFull(w, n - 1);
      RunKeeps(w, n - 1, false);
      var f := Run(w, InitialState(), n - 1, false);
      if f.pos < |w.nodes| {
        StepMatches(w, Run(w, InitialState(), n - 1, true), f);
      }
    }
  }
}
