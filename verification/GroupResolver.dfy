/** lib/Core/Resolver.cpp's resolveUndefines as it runs: the fields of the resolver
    changed in place, tied to the machine of Groups. */
module GroupResolver {
  import opened Common
  import opened Groups
  import IncrementalSearch

  class Resolver {
    const w: World
    var names: map<string, bool>
    var undefines: seq<string>
    var undefineIndex: map<nat, nat>
    var membersInstantiated: set<(nat, nat)>
    var loaded: seq<(nat, nat)>
    var newUndefinesAdded: set<nat>
    var seen: set<nat>

    constructor (w: World)
      ensures this.w == w && Snapshot(0) == InitialState()
    {
      this.w := w;
      names, undefines, undefineIndex := map[], [], map[];
      membersInstantiated, loaded := {}, [];
      newUndefinesAdded, seen := {}, {};
    }

    function Table(): (c: Core)
      reads this
    {
      Core(names, undefines, membersInstantiated, loaded)
    }

    function Snapshot(index: nat): (s: State)
      reads this
    {
      State(Table(), undefineIndex, seen, newUndefinesAdded, index)
    }

    method DoDefinedAtom(name: string)
      modifies this`names
      ensures names == old(names)[name := true]
    {
      names := names[name := true];
    }

    method DoUndefinedAtom(name: string) returns (newUndefAdded: bool)
      modifies this`names, this`undefines
      ensures newUndefAdded <==> name !in old(names)
      ensures names == if newUndefAdded then old(names)[name := false] else old(names)
      ensures undefines == if newUndefAdded then old(undefines) + [name] else old(undefines)
    {
      newUndefAdded := name !in names;
      if newUndefAdded {
        names := names[name := false];
        undefines := undefines + [name];
      }
    }

    /** Its result says whether a name was added to the list. */
    method HandleFile(file: File) returns (undefAdded: bool)
      modifies this`names, this`undefines
      ensures Table() == Groups.HandleFile(old(Table()), file)
      ensures undefAdded <==> |undefines| > |old(undefines)|
    {
      undefAdded := false;
      var k := 0;
      while k < |file.defines|
        invariant k <= |file.defines|
        invariant undefines == old(undefines)
        invariant AddDefines(Table(), file.defines[k..]) == AddDefines(old(Table()), file.defines)
      {
        assert file.defines[k..][1..] == file.defines[k + 1..];
        DoDefinedAtom(file.defines[k]);
        k := k + 1;
      }
      ghost var defined := Table();
      assert AddDefines(defined, file.defines[k..]) == defined;
      k := 0;
      while k < |file.undefines|
        invariant k <= |file.undefines| && |undefines| >= |old(undefines)|
        invariant undefAdded <==> |undefines| > |old(undefines)|
        invariant AddUndefines(Table(), file.undefines[k..]) == AddUndefines(defined, file.undefines)
      {
        assert file.undefines[k..][1..] == file.undefines[k + 1..];
        var added := DoUndefinedAtom(file.undefines[k]);
        undefAdded := added || undefAdded;
        k := k + 1;
      }
      assert AddUndefines(Table(), file.undefines[k..]) == Table();
    }

    /** FileArchive::find. A member that fails to load counts as instantiated. */
    method Find(f: nat, name: string) returns (member: Option<File>)
      requires ValidWorld(w) && IsArchive(w, f)
      modifies this`membersInstantiated, this`loaded
      ensures Exhausted(w, old(membersInstantiated), f, name) ==> member == None && unchanged(this)
      ensures !Exhausted(w, old(membersInstantiated), f, name) ==>
                var m := w.inputs[f].toc[name];
                && membersInstantiated == old(membersInstantiated) + {(f, m)}
                && member == w.inputs[f].members[m]
                && loaded == if member.Some? then old(loaded) + [(f, m)] else old(loaded)
    {
      var toc := w.inputs[f].toc;
      if name !in toc {
        return None;
      }
      var m := toc[name];
      if (f, m) in membersInstantiated {
        return None;
      }
      membersInstantiated := membersInstantiated + {(f, m)};
      member := w.inputs[f].members[m];
      if member.Some? {
        loaded := loaded + [(f, m)];
      }
    }

    /** handleArchiveFile with forEachUndefines inlined. */
    method HandleArchiveFile(f: nat) returns (undefAdded: bool)
      requires ValidWorld(w) && IsArchive(w, f) && StartOf(Snapshot(0), f) <= |undefines|
      modifies this`names, this`undefines, this`membersInstantiated, this`loaded, this`undefineIndex
      ensures Table() == Scan(w, old(Table()), f, old(StartOf(Snapshot(0), f)), true)
      ensures undefineIndex == old(undefineIndex)[f := |undefines|]
      ensures undefAdded <==> |undefines| > |old(undefines)|
    {
      var i: nat := if f in undefineIndex then undefineIndex[f] else 0;
      undefAdded := false;
      ghost var goal := Scan(w, Table(), f, i, true);
      while i < |undefines|
        invariant i <= |undefines| && |undefines| >= |old(undefines)|
        invariant Scan(w, Table(), f, i, true) == goal
        invariant undefAdded <==> |undefines| > |old(undefines)|
        invariant undefineIndex == old(undefineIndex)
        decreases AllMembers(w) - membersInstantiated, |undefines| - i
      {
        var name := undefines[i];
        if name != "" {
          if name !in names || names[name] {
            undefines := undefines[i := ""];
          } else {
            ghost var was := Table();
            var member := Find(f, name);
            if member.Some? {
              MemberIsKnown(w, f, name);
              var added := HandleFile(member.value);
              undefAdded := added || undefAdded;
              assert Table() == LoadMember(w, was, f, name);
            } else if !Exhausted(w, was.inst, f, name) {
              MemberIsKnown(w, f, name);
              assert Table() == LoadMember(w, was, f, name);
            }
          }
        }
        i := i + 1;
      }
      undefineIndex := undefineIndex[f := i];
    }

    /** undefinesAdded. */
    method UndefinesAdded(begin: nat, end: nat) returns (added: bool)
      requires begin <= end <= |w.nodes|
      ensures added == Flagged(w, newUndefinesAdded, begin, end)
    {
      for i := begin to end
        invariant !Flagged(w, newUndefinesAdded, begin, i)
      {
        if w.nodes[i].FileNode? && w.nodes[i].f in newUndefinesAdded {
          return true;
        }
      }
      return false;
    }

    /** getFile: follow group ends, back or forth, to the next file. */
    method GetFile(index: nat) returns (file: Option<nat>, next: nat, ghost turns: nat)
      requires Invariant(w, Snapshot(index))
      ensures file.None? ==> next == |w.nodes|
      ensures file.Some? ==> 0 < next <= |w.nodes| && w.nodes[next - 1] == FileNode(file.value)
      ensures Run(w, Snapshot(index), turns, true) == Snapshot(if file.Some? then next - 1 else next)
      ensures file.Some? ==> Distance(w, Snapshot(next - 1)) <= Distance(w, Snapshot(index))
      decreases Distance(w, Snapshot(index))
    {
      hide Invariant, Distance, Flagged, Run, ValidWorld, AllMembers, Objects;
      InvariantFacts(w, Snapshot(index));
      RunZero(w, Snapshot(index), true);
      if index >= |w.nodes| {
        return None, index, 0;
      }
      match w.nodes[index] {
        case FileNode(f) => return Some(f), index + 1, 0;
        case GroupEnd(size) =>
          var added := UndefinesAdded(index - size, index);
          var to := if added then index - size else index + 1;
          FlagsDoNotMatter(w, Snapshot(index), Snapshot(to));
          if added {
            JumpDecreases(w, Snapshot(index), Snapshot(to), size);
          } else {
            PassDecreases(w, Snapshot(index), Snapshot(to));
          }
          file, next, turns := GetFile(to);
          RunStep(w, Snapshot(index), turns, true);
          turns := turns + 1;
      }
    }

    /** One iteration of resolveUndefines on the file found. */
    method HandleNode(f: nat, ghost index: nat)
      requires Invariant(w, Snapshot(index)) && index < |w.nodes| && w.nodes[index] == FileNode(f)
      modifies this
      ensures Snapshot(index + 1) == Step(w, old(Snapshot(index)), true)
    {
      hide Scan, Groups.HandleFile, AllMembers;
      var undefAdded := false;
      match w.inputs[f] {
        case Object(file) =>
          if f !in seen {
            seen := seen + {f};
            undefAdded := HandleFile(file);
          }
        case Archive(_, _) =>
          assert SearchedTo(w, Table(), f, StartOf(Snapshot(index), f));
          undefAdded := HandleArchiveFile(f);
      }
      newUndefinesAdded := if undefAdded then newUndefinesAdded + {f} else newUndefinesAdded - {f};
    }

    /** resolveUndefines ends, past the last node, in the state the machine reaches. */
    method ResolveUndefines() returns (ghost turns: nat)
      requires ValidWorld(w) && Snapshot(0) == InitialState()
      modifies this
      ensures Snapshot(|w.nodes|) == Run(w, InitialState(), turns, true)
      ensures loaded == Run(w, InitialState(), turns, false).core.log
    {
      hide Invariant, Distance, Budget, Run, Step, ValidWorld, InitialState, AllMembers, Objects;
      var index: nat := 0;
      turns := 0;
      InitialInvariant(w);
      RunZero(w, InitialState(), true);
      while true
        invariant Invariant(w, Snapshot(index)) && index <= |w.nodes|
        invariant Snapshot(index) == Run(w, InitialState(), turns, true)
        decreases Budget(w, Snapshot(index)), Distance(w, Snapshot(index))
      {
        ghost var was := Snapshot(index);
        var file, next, more := GetFile(index);
        RunRun(w, InitialState(), turns, more);
        turns := turns + more;
        if file.None? {
          SameLog(w, turns);
          return;
        }
        ghost var s := Snapshot(next - 1);
        NextTurn(w, was, s, turns);
        HandleNode(file.value, next - 1);
        turns := turns + 1;
        index := next;
      }
    }
  }

  lemma NextTurn(w: World, was: State, s: State, turns: nat)
    requires ValidWorld(w) && s == Run(w, InitialState(), turns, true) && s.pos < |w.nodes|
    requires s == was.(pos := s.pos) && was.pos <= |w.nodes| && Distance(w, s) <= Distance(w, was)
    ensures Invariant(w, s)
    ensures var t := Step(w, s, true);
      && t == Run(w, InitialState(), turns + 1, true) && Invariant(w, t) && t.pos <= |w.nodes|
      && (Budget(w, t) < Budget(w, was) || (Budget(w, t) == Budget(w, was) && Distance(w, t) < Distance(w, was)))
  {
    hide Distance, Run, Step, Invariant, Budget;
    RunKeeps(w, turns, true);
    SameBudget(w, was, s);
    StepKeeps(w, s, true);
    StepDecreases(w, s, true);
    RunStepAtEnd(w, turns);
  }

  lemma SameLog(w: World, n: nat)
    requires ValidWorld(w)
    ensures Run(w, InitialState(), n, true).core.log == Run(w, InitialState(), n, false).core.log
  {
    hide Run;
    IncrementalSearch.IncrementalIsFull(w, n);
  }

  lemma SameBudget(w: World, s: State, t: State)
    requires t == s.(pos := t.pos)
    ensures Budget(w, s) == Budget(w, t)
  {
  }

  lemma RunStepAtEnd(w: World, n: nat)
    requires ValidWorld(w) && Run(w, InitialState(), n, true).pos < |w.nodes|
    ensures Run(w, InitialState(), n + 1, true) == Step(w, Run(w, InitialState(), n, true), true)
  {
    hide Step;
  }

  lemma {:induction false} RunRun(w: World, s: State, n: nat, m: nat)
    requires ValidWorld(w)
    ensures Run(w, s, n + m, true) == Run(w, Run(w, s, n, true), m, true)
  {
    hide Step;
    if m > 0 {
      RunRun(w, s, n, m - 1);
    }
  }
}
