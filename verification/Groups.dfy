/** lib/Core/Resolver.cpp's resolveUndefines: visiting input files in order,
    searching archives for undefined names (lib/ReaderWriter/FileArchive.cpp),
    and going over a group again while it adds undefined names. */
module Groups {
  import opened Common
  import AtomTable

  /** An object file or archive member: the names it defines and asks for. */
  datatype File = File(defines: seq<string>, undefines: seq<string>)

  /** An archive maps names to members; a member may fail to load. */
  datatype Input =
    | Object(file: File)
    | Archive(toc: map<string, nat>, members: map<nat, Option<File>>)

  /** The command line: files, and ends of groups with the number of preceding
      nodes that form the group. */
  datatype Node = FileNode(f: nat) | GroupEnd(size: nat)

  datatype World = World(inputs: seq<Input>, nodes: seq<Node>)

  /** Names in the symbol table are never empty. */
  predicate ValidFile(f: File) {
    NonEmptyNames(f.defines) && NonEmptyNames(f.undefines)
  }

  predicate NonEmptyNames(ns: seq<string>) {
    forall k :: 0 <= k < |ns| ==> ns[k] != ""
  }

  predicate ValidInput(i: Input) {
    match i
    case Object(file) => ValidFile(file)
    case Archive(toc, members) =>
      && (forall n :: n in toc ==> toc[n] in members)
      && (forall m :: m in members && members[m].Some? ==> ValidFile(members[m].value))
  }

  predicate ValidWorld(w: World) {
    && (forall f :: 0 <= f < |w.inputs| ==> ValidInput(w.inputs[f]))
    && (forall p :: 0 <= p < |w.nodes| ==>
          if w.nodes[p].FileNode? then w.nodes[p].f < |w.inputs| else w.nodes[p].size <= p)
    && (forall p, q :: 0 <= p < q < |w.nodes| && w.nodes[p].FileNode? && w.nodes[q].FileNode? ==>
          w.nodes[p].f != w.nodes[q].f)
  }

  /** The part of the resolver that loading files changes. names holds every name
      of the symbol table and whether it is resolved; undefs is _undefines, with
      "" for a slot that has been blanked; log lists the members loaded. */
  datatype Core = Core(names: map<string, bool>, undefs: seq<string>, inst: set<(nat, nat)>, log: seq<(nat, nat)>)

  predicate Unresolved(c: Core, n: string) {
    n in c.names && !c.names[n]
  }

  // ----- loading a file -----

  function AddDefines(c: Core, ns: seq<string>): (c': Core)
    ensures c'.undefs == c.undefs && c'.inst == c.inst && c'.log == c.log
    ensures forall n :: n in c.names ==> n in c'.names && (c.names[n] ==> c'.names[n])
    ensures forall n :: Unresolved(c', n) ==> Unresolved(c, n)
    decreases |ns|
  {
    if ns == [] then c else AddDefines(c.(names := c.names[ns[0] := true]), ns[1..])
  }

  /** doUndefinedAtom: a name new to the table is appended to _undefines. */
  function AddUndefines(c: Core, ns: seq<string>): (c': Core)
    ensures c.undefs <= c'.undefs && c'.inst == c.inst && c'.log == c.log
    ensures forall n :: n in c.names ==> n in c'.names && c'.names[n] == c.names[n]
    ensures forall n :: Unresolved(c', n) ==> Unresolved(c, n) || n in c'.undefs[|c.undefs|..]
    decreases |ns|
  {
    if ns == [] then c
    else if ns[0] in c.names then AddUndefines(c, ns[1..])
    else
      var next := c.(names := c.names[ns[0] := false], undefs := c.undefs + [ns[0]]);
      var c' := AddUndefines(next, ns[1..]);
      assert c'.undefs[|c.undefs|..][0] == ns[0];
      assert c'.undefs[|c.undefs|..] == [ns[0]] + c'.undefs[|next.undefs|..];
      c'
  }

  /** handleFile. It has added an undefined name if _undefines has grown. */
  function HandleFile(c: Core, file: File): (c': Core)
    ensures c.undefs <= c'.undefs && c'.inst == c.inst && c'.log == c.log
    ensures forall n :: n in c.names && c.names[n] ==> n in c'.names && c'.names[n]
    ensures forall n :: Unresolved(c', n) ==> Unresolved(c, n) || n in c'.undefs[|c.undefs|..]
  {
    AddUndefines(AddDefines(c, file.defines), file.undefines)
  }

  /** The names of a list that are not in the table yet, once each, in order. */
  ghost predicate NewNames(before: map<string, bool>, ns: seq<string>, new_: seq<string>) {
    && (forall j, k :: 0 <= j < k < |new_| ==> new_[j] != new_[k])
    && (forall n :: n in new_ <==> n in ns && n !in before)
  }

  lemma {:induction false} DefinesMean(c: Core, ns: seq<string>)
    ensures var d := AddDefines(c, ns);
      && (forall n :: n in d.names <==> n in c.names || n in ns)
      && (forall n :: n in d.names && d.names[n] <==> (n in c.names && c.names[n]) || n in ns)
    decreases |ns|
  {
    if ns != [] {
      DefinesMean(c.(names := c.names[ns[0] := true]), ns[1..]);
      assert forall n :: n in ns <==> n == ns[0] || n in ns[1..];
    }
  }

  lemma NewNamesCons(before: map<string, bool>, ns: seq<string>, rest: seq<string>)
    requires ns != [] && ns[0] !in before && NewNames(before[ns[0] := false], ns[1..], rest)
    ensures NewNames(before, ns, [ns[0]] + rest)
  {
    var new_ := [ns[0]] + rest;
    forall j, k | 0 <= j < k < |new_| ensures new_[j] != new_[k] {
      assert new_[k] == rest[k - 1] && rest[k - 1] in rest;
      assert j > 0 ==> new_[j] == rest[j - 1];
    }
    forall n ensures n in new_ <==> n in ns && n !in before {
      assert n in new_ <==> n == ns[0] || n in rest;
      assert n in ns <==> n == ns[0] || n in ns[1..];
    }
  }

  lemma {:induction false} UndefinesMean(c: Core, ns: seq<string>)
    ensures var d := AddUndefines(c, ns);
      && (forall n :: n in d.names <==> n in c.names || n in ns)
      && (forall n :: n in d.names && d.names[n] <==> n in c.names && c.names[n])
      && NewNames(c.names, ns, d.undefs[|c.undefs|..])
    decreases |ns|
  {
    if ns != [] {
      assert forall n :: n in ns <==> n == ns[0] || n in ns[1..];
      if ns[0] in c.names {
        UndefinesMean(c, ns[1..]);
      } else {
        var next := c.(names := c.names[ns[0] := false], undefs := c.undefs + [ns[0]]);
        UndefinesMean(next, ns[1..]);
        var d := AddUndefines(next, ns[1..]);
        hide NewNames;
        assert d.undefs[|c.undefs|..] == [ns[0]] + d.undefs[|next.undefs|..];
        NewNamesCons(c.names, ns, d.undefs[|next.undefs|..]);
      }
    }
  }

  /** handleFile: the table then knows every name of the file, a name is resolved if
      it was or the file defines it, and the names that are new to the table and
      only asked for go to the end of the list, once each. */
  lemma HandleFileMeans(c: Core, file: File)
    ensures var d := HandleFile(c, file);
      && (forall n :: n in d.names <==> n in c.names || n in file.defines || n in file.undefines)
      && (forall n :: n in d.names && d.names[n] <==> (n in c.names && c.names[n]) || n in file.defines)
      && d.undefs[..|c.undefs|] == c.undefs
      && NewNames(AddDefines(c, file.defines).names, file.undefines, d.undefs[|c.undefs|..])
      && (forall n :: n in d.undefs[|c.undefs|..] <==>
            n in file.undefines && n !in c.names && n !in file.defines)
  {
    DefinesMean(c, file.defines);
    UndefinesMean(AddDefines(c, file.defines), file.undefines);
  }

  /** The abstraction from the real symbol table: adding an atom resolves its name
      if the name was resolved before or the atom is not an undefined one. */
  lemma TableResolves(atoms: seq<AtomTable.Atom>, t: AtomTable.Table, x: nat, allowDuplicates: bool)
    requires AtomTable.AllWellFormed(atoms) && AtomTable.InRange(atoms, t) && x < |atoms|
    requires AtomTable.TrackedByName(atoms[x])
    requires AtomTable.AddByName(atoms, t, x, allowDuplicates).Some?
    requires atoms[x].name in t.names ==> atoms[t.names[atoms[x].name]].name == atoms[x].name
    ensures var t' := AtomTable.AddByName(atoms, t, x, allowDuplicates).value;
      var name := atoms[x].name;
      && name in t'.names
      && (!atoms[t'.names[name]].def.UndefinedDef? <==>
            !atoms[x].def.UndefinedDef? || (name in t.names && !atoms[t.names[name]].def.UndefinedDef?))
      && (forall n :: n != name ==> (n in t'.names <==> n in t.names))
      && (forall n :: n != name && n in t.names ==> t'.names[n] == t.names[n])
  {
    assert AtomTable.WellFormed(atoms[x]);
    if atoms[x].name in t.names {
      var e := t.names[atoms[x].name];
      assert AtomTable.WellFormed(atoms[e]);
      AtomTable.WinnerIsStrongest(atoms[e].def, atoms[x].def, allowDuplicates);
    }
  }

  // ----- searching an archive -----

  function AllMembers(w: World): (s: set<(nat, nat)>) {
    set f, m | 0 <= f < |w.inputs| && w.inputs[f].Archive? && m in w.inputs[f].members :: (f, m)
  }

  predicate IsArchive(w: World, f: nat) {
    f < |w.inputs| && w.inputs[f].Archive?
  }

  /** Would find() return nothing for this name, and change nothing? */
  predicate Exhausted(w: World, inst: set<(nat, nat)>, f: nat, n: string)
    requires IsArchive(w, f)
  {
    n in w.inputs[f].toc ==> (f, w.inputs[f].toc[n]) in inst
  }

  /** find() for a name it can serve, and handleFile on what it returns. */
  function LoadMember(w: World, c: Core, f: nat, n: string): (c': Core)
    requires IsArchive(w, f) && ValidInput(w.inputs[f]) && n in w.inputs[f].toc
    ensures c'.inst == c.inst + {(f, w.inputs[f].toc[n])} && c.undefs <= c'.undefs
  {
    var m := w.inputs[f].toc[n];
    var c1 := c.(inst := c.inst + {(f, m)});
    match w.inputs[f].members[m]
    case None => c1
    case Some(file) => HandleFile(c1.(log := c.log + [(f, m)]), file)
  }

  /** forEachUndefines from position i with archive f's find as the callback. The
      list may grow on the way. In the incremental form resolved slots are
      blanked. */
  function Scan(w: World, c: Core, f: nat, i: nat, incremental: bool): (c': Core)
    requires ValidWorld(w) && IsArchive(w, f)
    decreases AllMembers(w) - c.inst, |c.undefs| - i
  {
    if i >= |c.undefs| then c
    else
      var n := c.undefs[i];
      if n == "" then Scan(w, c, f, i + 1, incremental)
      else if !Unresolved(c, n) then
        Scan(w, if incremental then c.(undefs := c.undefs[i := ""]) else c, f, i + 1, incremental)
      else if Exhausted(w, c.inst, f, n) then Scan(w, c, f, i + 1, incremental)
      else
        MemberIsKnown(w, f, n);
        Scan(w, LoadMember(w, c, f, n), f, i + 1, incremental)
  }

  lemma MemberIsKnown(w: World, f: nat, n: string)
    requires ValidWorld(w) && IsArchive(w, f) && n in w.inputs[f].toc
    ensures (f, w.inputs[f].toc[n]) in AllMembers(w)
  {
  }

  predicate Resolved(c: Core, n: string) {
    n in c.names && c.names[n]
  }

  /** The member serves a name that was not resolved in c and is in the list of d. */
  ghost predicate WantedIn(w: World, c: Core, d: Core, f: nat, m: nat)
    requires IsArchive(w, f)
  {
    exists n :: n in w.inputs[f].toc && w.inputs[f].toc[n] == m && !Resolved(c, n) && n in d.names
  }

  /** A search takes members of its own archive only, each for a name that some file
      asked for and that was not resolved when the search began. */
  lemma {:induction false} ScanTakesWanted(w: World, c: Core, f: nat, i: nat, incremental: bool)
    requires ValidWorld(w) && IsArchive(w, f)
    ensures var d := Scan(w, c, f, i, incremental);
      && (forall n :: n in c.names ==> n in d.names && (c.names[n] ==> d.names[n]))
      && (forall p :: p in d.inst && p !in c.inst ==> p.0 == f && WantedIn(w, c, d, f, p.1))
    decreases AllMembers(w) - c.inst, |c.undefs| - i
  {
    hide HandleFile;
    if i < |c.undefs| {
      var n := c.undefs[i];
      if n == "" {
        ScanTakesWanted(w, c, f, i + 1, incremental);
      } else if !Unresolved(c, n) {
        var c1 := if incremental then c.(undefs := c.undefs[i := ""]) else c;
        ScanTakesWanted(w, c1, f, i + 1, incremental);
        AsWanted(w, c, c1, Scan(w, c, f, i, incremental), f);
      } else if Exhausted(w, c.inst, f, n) {
        ScanTakesWanted(w, c, f, i + 1, incremental);
      } else {
        MemberIsKnown(w, f, n);
        var c1 := LoadMember(w, c, f, n);
        LoadGrows(w, c, f, n);
        ScanTakesWanted(w, c1, f, i + 1, incremental);
        var d := Scan(w, c, f, i, incremental);
        assert WantedIn(w, c, d, f, w.inputs[f].toc[n]);
        AsWanted(w, c, c1, d, f);
      }
    }
  }

  lemma LoadGrows(w: World, c: Core, f: nat, n: string)
    requires IsArchive(w, f) && ValidInput(w.inputs[f]) && n in w.inputs[f].toc
    ensures var d := LoadMember(w, c, f, n);
      forall x :: x in c.names ==> x in d.names && (c.names[x] ==> d.names[x])
  {
    var m := w.inputs[f].toc[n];
    if w.inputs[f].members[m].Some? {
      HandleFileMeans(c.(inst := c.inst + {(f, m)}, log := c.log + [(f, m)]), w.inputs[f].members[m].value);
    }
  }

  lemma AsWanted(w: World, c: Core, c1: Core, d: Core, f: nat)
    requires IsArchive(w, f) && forall n :: n in c.names ==> n in c1.names && (c.names[n] ==> c1.names[n])
    ensures forall m :: WantedIn(w, c1, d, f, m) ==> WantedIn(w, c, d, f, m)
  {
  }

  // ----- the loop over the command line -----

  /** start is _undefineIndex; seen holds the objects already handled; flags holds
      the files whose _newUndefinesAdded is true; pos is the loop's index. */
  datatype State = State(core: Core, start: map<nat, nat>, seen: set<nat>, flags: set<nat>, pos: nat)

  function InitialState(): (s: State) {
    State(Core(map[], [], {}, []), map[], {}, {}, 0)
  }

  function StartOf(s: State, f: nat): (i: nat) {
    if f in s.start then s.start[f] else 0
  }

  /** undefinesAdded. */
  predicate Flagged(w: World, flags: set<nat>, lo: nat, hi: nat)
    requires hi <= |w.nodes|
  {
    exists p :: lo <= p < hi && w.nodes[p].FileNode? && w.nodes[p].f in flags
  }

  function SetFlag(flags: set<nat>, f: nat, on: bool): (r: set<nat>) {
    if on then flags + {f} else flags - {f}
  }

  function Visit(w: World, s: State, f: nat, incremental: bool): (s': State)
    requires ValidWorld(w) && f < |w.inputs|
  {
    match w.inputs[f]
    case Object(file) =>
      if f in s.seen then s.(flags := SetFlag(s.flags, f, false))
      else
        var core := HandleFile(s.core, file);
        s.(core := core, seen := s.seen + {f}, flags := SetFlag(s.flags, f, |core.undefs| > |s.core.undefs|))
    case Archive(_, _) =>
      var core := Scan(w, s.core, f, if incremental then StartOf(s, f) else 0, incremental);
      s.(core := core, start := s.start[f := |core.undefs|],
         flags := SetFlag(s.flags, f, |core.undefs| > |s.core.undefs|))
  }

  /** One turn of the loop: the group end test of getFile, or one file. */
  function Step(w: World, s: State, incremental: bool): (s': State)
    requires ValidWorld(w) && s.pos < |w.nodes|
  {
    match w.nodes[s.pos]
    case GroupEnd(size) =>
      if Flagged(w, s.flags, s.pos - size, s.pos) then s.(pos := s.pos - size) else s.(pos := s.pos + 1)
    case FileNode(f) => Visit(w, s, f, incremental).(pos := s.pos + 1)
  }

  /** n turns, or fewer if the end of the command line is reached. */
  function Run(w: World, s: State, n: nat, incremental: bool): (s': State)
    requires ValidWorld(w)
  {
    if n == 0 then s
    else
      var before := Run(w, s, n - 1, incremental);
      if before.pos < |w.nodes| then Step(w, before, incremental) else before
  }

  // ----- what scanning keeps -----

  /** Slots hold names of the table or are blank, and every unresolved name has a
      slot of its own. */
  predicate ValidCore(c: Core) {
    && "" !in c.names
    && (forall k :: 0 <= k < |c.undefs| ==> c.undefs[k] == "" || c.undefs[k] in c.names)
    && (forall n :: n in c.names && !c.names[n] ==> n in c.undefs)
  }

  /** Nothing in the list before i is left for archive f. */
  predicate SearchedTo(w: World, c: Core, f: nat, i: nat)
    requires IsArchive(w, f)
  {
    && i <= |c.undefs|
    && forall k :: 0 <= k < i ==> Unresolved(c, c.undefs[k]) ==> Exhausted(w, c.inst, f, c.undefs[k])
  }

  /** How one core may follow another: what is resolved or loaded stays so, and
      slots are only appended, or blanked once their name is resolved. */
  predicate Grows(c: Core, d: Core) {
    && c.inst <= d.inst && |c.undefs| <= |d.undefs|
    && (forall n :: n in c.names ==> n in d.names && (c.names[n] ==> d.names[n]))
    && (forall k :: 0 <= k < |c.undefs| ==> d.undefs[k] == c.undefs[k] || d.undefs[k] == "")
  }

  lemma GrowsTransitive(c: Core, d: Core, e: Core)
    requires Grows(c, d) && Grows(d, e)
    ensures Grows(c, e)
  {
  }

  lemma SearchedStays(w: World, c: Core, d: Core, f: nat, i: nat)
    requires IsArchive(w, f) && ValidCore(c) && ValidCore(d) && Grows(c, d) && SearchedTo(w, c, f, i)
    ensures SearchedTo(w, d, f, i)
  {
  }

  lemma {:induction false} AddDefinesKeeps(c: Core, ns: seq<string>)
    requires ValidCore(c) && NonEmptyNames(ns)
    ensures ValidCore(AddDefines(c, ns)) && Grows(c, AddDefines(c, ns))
    decreases |ns|
  {
    if ns != [] {
      AddDefinesKeeps(c.(names := c.names[ns[0] := true]), ns[1..]);
    }
  }

  lemma {:induction false} AddUndefinesKeeps(c: Core, ns: seq<string>)
    requires ValidCore(c) && NonEmptyNames(ns)
    ensures ValidCore(AddUndefines(c, ns)) && Grows(c, AddUndefines(c, ns))
    decreases |ns|
  {
    if ns != [] {
      var next := if ns[0] in c.names then c else c.(names := c.names[ns[0] := false], undefs := c.undefs + [ns[0]]);
      assert ValidCore(next) by {
        forall n | n in next.names && !next.names[n] ensures n in next.undefs {
          if n != ns[0] || ns[0] in c.names {
            assert n in c.undefs;
          } else {
            assert next.undefs[|c.undefs|] == n;
          }
        }
      }
      AddUndefinesKeeps(next, ns[1..]);
      GrowsTransitive(c, next, AddUndefines(c, ns));
    }
  }

  lemma HandleFileKeeps(c: Core, file: File)
    requires ValidCore(c) && ValidFile(file)
    ensures ValidCore(HandleFile(c, file)) && Grows(c, HandleFile(c, file))
  {
    AddDefinesKeeps(c, file.defines);
    AddUndefinesKeeps(AddDefines(c, file.defines), file.undefines);
    GrowsTransitive(c, AddDefines(c, file.defines), HandleFile(c, file));
  }

  lemma LoadMemberKeeps(w: World, c: Core, f: nat, n: string)
    requires ValidWorld(w) && IsArchive(w, f) && n in w.inputs[f].toc && ValidCore(c)
    ensures ValidCore(LoadMember(w, c, f, n)) && Grows(c, LoadMember(w, c, f, n))
    ensures Exhausted(w, LoadMember(w, c, f, n).inst, f, n)
    ensures c.inst <= AllMembers(w) ==> LoadMember(w, c, f, n).inst <= AllMembers(w)
  {
    hide Grows, ValidCore, HandleFile;
    MemberIsKnown(w, f, n);
    var m := w.inputs[f].toc[n];
    var c1 := c.(inst := c.inst + {(f, m)});
    assert ValidCore(c1) && Grows(c, c1) by { InstGrows(c, f, m); }
    match w.inputs[f].members[m]
    case None =>
    case Some(file) =>
      var c2 := c1.(log := c.log + [(f, m)]);
      assert ValidCore(c2) && Grows(c, c2) by { LogGrows(c, c1, c2); }
      HandleFileKeeps(c2, file);
      GrowsTransitive(c, c2, HandleFile(c2, file));
  }

  lemma InstGrows(c: Core, f: nat, m: nat)
    requires ValidCore(c)
    ensures ValidCore(c.(inst := c.inst + {(f, m)})) && Grows(c, c.(inst := c.inst + {(f, m)}))
  {
  }

  lemma LogGrows(c: Core, d: Core, e: Core)
    requires ValidCore(d) && Grows(c, d) && e == d.(log := e.log)
    ensures ValidCore(e) && Grows(c, e)
  {
  }

  lemma BlankKeeps(w: World, c: Core, f: nat, i: nat)
    requires IsArchive(w, f) && i < |c.undefs| && !Unresolved(c, c.undefs[i])
    requires ValidCore(c) && SearchedTo(w, c, f, i)
    ensures var d := c.(undefs := c.undefs[i := ""]);
      ValidCore(d) && Grows(c, d) && SearchedTo(w, d, f, i + 1)
  {
    var d := c.(undefs := c.undefs[i := ""]);
    forall n | n in d.names && !d.names[n] ensures n in d.undefs {
      var k :| 0 <= k < |c.undefs| && c.undefs[k] == n;
      assert d.undefs[k] == n;
    }
  }

  /** After a scan the archive has nothing left for any name in the list. */
  lemma {:induction false} ScanKeeps(w: World, c: Core, f: nat, i: nat, incremental: bool)
    requires ValidWorld(w) && IsArchive(w, f) && ValidCore(c) && SearchedTo(w, c, f, i)
    requires c.inst <= AllMembers(w)
    ensures var d := Scan(w, c, f, i, incremental);
      && ValidCore(d) && Grows(c, d) && SearchedTo(w, d, f, |d.undefs|) && d.inst <= AllMembers(w)
      && (|d.undefs| > |c.undefs| ==> c.inst < d.inst)
    decreases AllMembers(w) - c.inst, |c.undefs| - i
  {
    hide ValidCore, Grows, LoadMember, Scan;
    if i < |c.undefs| {
      var n := c.undefs[i];
      var next :=
        if n == "" then c
        else if !Unresolved(c, n) then (if incremental then c.(undefs := c.undefs[i := ""]) else c)
        else if Exhausted(w, c.inst, f, n) then c
        else LoadMember(w, c, f, n);
      NextScan(w, c, f, i, incremental, next);
      ScanKeeps(w, next, f, i + 1, incremental);
      GrowsTransitive(c, next, Scan(w, c, f, i, incremental));
      InstOf(next, Scan(w, c, f, i, incremental));
    } else {
      GrowsItself(c);
      ScanEnds(w, c, f, i, incremental);
    }
  }

  lemma ScanEnds(w: World, c: Core, f: nat, i: nat, incremental: bool)
    requires ValidWorld(w) && IsArchive(w, f) && i >= |c.undefs|
    ensures Scan(w, c, f, i, incremental) == c
  {
  }

  lemma InstOf(c: Core, d: Core)
    requires Grows(c, d)
    ensures c.inst <= d.inst && |c.undefs| <= |d.undefs|
  {
  }

  lemma GrowsItself(c: Core)
    ensures Grows(c, c)
  {
  }

  /** The core one turn of the scan leaves. */
  lemma NextScan(w: World, c: Core, f: nat, i: nat, incremental: bool, next: Core)
    requires ValidWorld(w) && IsArchive(w, f) && ValidCore(c) && SearchedTo(w, c, f, i)
    requires c.inst <= AllMembers(w) && i < |c.undefs|
    requires var n := c.undefs[i];
      next ==
        if n == "" then c
        else if !Unresolved(c, n) then (if incremental then c.(undefs := c.undefs[i := ""]) else c)
        else if Exhausted(w, c.inst, f, n) then c
        else LoadMember(w, c, f, n)
    ensures ValidCore(next) && Grows(c, next) && SearchedTo(w, next, f, i + 1) && next.inst <= AllMembers(w)
    ensures |next.undefs| > |c.undefs| ==> c.inst < next.inst
    ensures c.inst < next.inst || (c.inst == next.inst && |next.undefs| == |c.undefs|)
    ensures Scan(w, c, f, i, incremental) == Scan(w, next, f, i + 1, incremental)
  {
    var n := c.undefs[i];
    GrowsItself(c);
    if n != "" && !Unresolved(c, n) {
      BlankKeeps(w, c, f, i);
    } else if n != "" && !Exhausted(w, c.inst, f, n) {
      LoadMemberKeeps(w, c, f, n);
      SearchedStays(w, c, next, f, i);
    }
  }

  // ----- what every turn of the loop keeps -----

  ghost predicate Invariant(w: World, s: State) {
    && ValidWorld(w) && ValidCore(s.core) && s.core.inst <= AllMembers(w)
    && s.seen <= Objects(w) && s.pos <= |w.nodes|
    && forall f :: IsArchive(w, f) ==> SearchedTo(w, s.core, f, StartOf(s, f))
  }

  function Objects(w: World): (r: set<nat>) {
    set f: nat | 0 <= f < |w.inputs| && w.inputs[f].Object?
  }

  /** Members and objects that can still add undefined names. */
  function Budget(w: World, s: State): (n: nat) {
    |AllMembers(w) - s.core.inst| + |Objects(w) - s.seen|
  }

  lemma SmallerRest<T>(all: set<T>, some: set<T>, more: set<T>)
    requires some <= more <= all
    ensures |all - more| <= |all - some|
    ensures some < more ==> |all - more| < |all - some|
  {
    var gone := more - some;
    assert all - some == (all - more) + gone;
    if some < more {
      var x :| x in more && x !in some;
      assert x in gone;
    }
  }

  /** What a visit of file f leaves: the invariant, an archive searched to the end
      of the list, and a price paid for every undefined name added. */
  ghost predicate Visited(w: World, s: State, f: nat, t: State) {
    && Invariant(w, t) && t.pos == s.pos && Grows(s.core, t.core)
    && t.flags == SetFlag(s.flags, f, |t.core.undefs| > |s.core.undefs|)
    && (IsArchive(w, f) ==> StartOf(t, f) == |t.core.undefs|)
    && (forall g :: g != f ==> StartOf(t, g) == StartOf(s, g))
    && Budget(w, t) <= Budget(w, s)
    && (|t.core.undefs| > |s.core.undefs| ==> Budget(w, t) < Budget(w, s))
  }

  lemma VisitKeeps(w: World, s: State, f: nat, incremental: bool)
    requires Invariant(w, s) && f < |w.inputs| && s.pos < |w.nodes|
    ensures Visited(w, s, f, Visit(w, s, f, incremental))
  {
    hide Visited, Visit, Invariant;
    InvariantFacts(w, s);
    if w.inputs[f].Object? {
      VisitObjectKeeps(w, s, f, incremental);
    } else {
      VisitArchiveKeeps(w, s, f, incremental);
    }
  }

  lemma VisitObjectKeeps(w: World, s: State, f: nat, incremental: bool)
    requires Invariant(w, s) && f < |w.inputs| && s.pos < |w.nodes| && w.inputs[f].Object?
    ensures Visited(w, s, f, Visit(w, s, f, incremental))
  {
    hide Grows, ValidCore, SearchedTo, HandleFile, Invariant, AllMembers;
    InvariantFacts(w, s);
    var t := Visit(w, s, f, incremental);
    if f in s.seen {
      GrowsItself(s.core);
      FlagsDoNotMatter(w, s, t);
    } else {
      HandleFileKeeps(s.core, w.inputs[f].file);
      assert t.core.inst == s.core.inst && t.seen == s.seen + {f};
      assert f in Objects(w);
      SmallerRest(Objects(w), s.seen, t.seen);
      InvariantAfter(w, s, t, f);
    }
  }

  lemma VisitArchiveKeeps(w: World, s: State, f: nat, incremental: bool)
    requires Invariant(w, s) && IsArchive(w, f) && s.pos < |w.nodes|
    ensures Visited(w, s, f, Visit(w, s, f, incremental))
  {
    hide Grows, ValidCore, SearchedTo, Scan, Invariant, AllMembers, Objects;
    InvariantFacts(w, s);
    SearchedFrom(w, s, f, incremental);
    var i := if incremental then StartOf(s, f) else 0;
    var t := Visit(w, s, f, incremental);
    assert t.core == Scan(w, s.core, f, i, incremental);
    ScanKeeps(w, s.core, f, i, incremental);
    InstOf(s.core, t.core);
    SmallerRest(AllMembers(w), s.core.inst, t.core.inst);
    InvariantAfter(w, s, t, f);
  }

  lemma InvariantFacts(w: World, s: State)
    requires Invariant(w, s)
    ensures ValidWorld(w) && ValidCore(s.core) && s.core.inst <= AllMembers(w)
    ensures s.seen <= Objects(w) && s.pos <= |w.nodes|
  {
  }

  lemma SearchedFrom(w: World, s: State, f: nat, incremental: bool)
    requires Invariant(w, s) && IsArchive(w, f)
    ensures SearchedTo(w, s.core, f, if incremental then StartOf(s, f) else 0)
  {
  }

  lemma FlagsDoNotMatter(w: World, s: State, t: State)
    requires Invariant(w, s) && t == s.(flags := t.flags, pos := t.pos) && t.pos <= |w.nodes|
    ensures Invariant(w, t) && Budget(w, t) == Budget(w, s)
  {
    assert forall f :: StartOf(t, f) == StartOf(s, f);
  }

  lemma InvariantAfter(w: World, s: State, t: State, f: nat)
    requires Invariant(w, s) && t.pos == s.pos && f < |w.inputs|
    requires ValidCore(t.core) && Grows(s.core, t.core) && t.core.inst <= AllMembers(w) && t.seen <= Objects(w)
    requires IsArchive(w, f) ==> SearchedTo(w, t.core, f, StartOf(t, f))
    requires forall g :: g != f ==> StartOf(t, g) == StartOf(s, g)
    requires !IsArchive(w, f) ==> StartOf(t, f) == StartOf(s, f)
    ensures Invariant(w, t)
  {
    hide Grows, ValidCore, SearchedTo;
    forall g | IsArchive(w, g) ensures SearchedTo(w, t.core, g, StartOf(t, g)) {
      if g != f {
        SearchedStays(w, s.core, t.core, g, StartOf(s, g));
      }
    }
  }

  lemma StepKeeps(w: World, s: State, incremental: bool)
    requires Invariant(w, s) && s.pos < |w.nodes|
    ensures Invariant(w, Step(w, s, incremental))
  {
    hide Invariant, Visit, Flagged, Visited, Budget;
    InvariantFacts(w, s);
    match w.nodes[s.pos]
    case GroupEnd(size) =>
      FlagsDoNotMatter(w, s, Step(w, s, incremental));
    case FileNode(f) =>
      VisitKeeps(w, s, f, incremental);
      var t := Visit(w, s, f, incremental);
      assert Invariant(w, t) && t.pos == s.pos by { VisitedInvariant(w, s, f, t); }
      FlagsDoNotMatter(w, t, t.(pos := s.pos + 1));
  }

  lemma VisitedInvariant(w: World, s: State, f: nat, t: State)
    requires Visited(w, s, f, t)
    ensures Invariant(w, t) && t.pos == s.pos && Budget(w, t) <= Budget(w, s)
    ensures t.flags == s.flags - {f} || Budget(w, t) < Budget(w, s)
  {
  }

  lemma InitialInvariant(w: World)
    requires ValidWorld(w)
    ensures Invariant(w, InitialState())
  {
  }

  lemma {:induction false} RunKeeps(w: World, n: nat, incremental: bool)
    requires ValidWorld(w)
    ensures Invariant(w, Run(w, InitialState(), n, incremental))
  {
    hide Invariant, Step;
    if n == 0 {
      InitialInvariant(w);
    } else {
      RunKeeps(w, n - 1, incremental);
      var before := Run(w, InitialState(), n - 1, incremental);
      if before.pos < |w.nodes| {
        StepKeeps(w, before, incremental);
      }
    }
  }

  // ----- the loop ends, however the groups are arranged -----

  /** How many file nodes in a range are flagged. */
  function CountFlags(w: World, flags: set<nat>, lo: nat, hi: nat): (n: nat)
    requires lo <= hi <= |w.nodes|
    decreases hi - lo
  {
    if lo == hi then 0
    else
      CountFlags(w, flags, lo, hi - 1)
      + (if w.nodes[hi - 1].FileNode? && w.nodes[hi - 1].f in flags then 1 else 0)
  }

  lemma {:induction false} CountSplit(w: World, flags: set<nat>, lo: nat, mid: nat, hi: nat)
    requires lo <= mid <= hi <= |w.nodes|
    ensures CountFlags(w, flags, lo, hi) == CountFlags(w, flags, lo, mid) + CountFlags(w, flags, mid, hi)
    decreases hi - mid
  {
    if mid < hi {
      CountSplit(w, flags, lo, mid, hi - 1);
    }
  }

  lemma {:induction false} FlaggedCounts(w: World, flags: set<nat>, lo: nat, hi: nat)
    requires lo <= hi <= |w.nodes| && Flagged(w, flags, lo, hi)
    ensures CountFlags(w, flags, lo, hi) > 0
    decreases hi - lo
  {
    if !(w.nodes[hi - 1].FileNode? && w.nodes[hi - 1].f in flags) {
      var p :| lo <= p < hi && w.nodes[p].FileNode? && w.nodes[p].f in flags;
      FlaggedCounts(w, flags, lo, hi - 1);
    }
  }

  /** Clearing the flag of the file at p affects only ranges that contain p. */
  lemma {:induction false} CountCleared(w: World, flags: set<nat>, p: nat, lo: nat, hi: nat)
    requires ValidWorld(w) && lo <= hi <= |w.nodes| && p < |w.nodes| && w.nodes[p].FileNode?
    requires p < lo || hi <= p
    ensures CountFlags(w, flags - {w.nodes[p].f}, lo, hi) == CountFlags(w, flags, lo, hi)
    decreases hi - lo
  {
    if lo < hi {
      CountCleared(w, flags, p, lo, hi - 1);
    }
  }

  /** Flags behind the loop weigh twice as much as flags ahead of it. */
  function Distance(w: World, s: State): (n: nat)
    requires s.pos <= |w.nodes|
  {
    (|w.nodes| + 1) * (2 * CountFlags(w, s.flags, 0, s.pos) + CountFlags(w, s.flags, s.pos, |w.nodes|))
    + (|w.nodes| - s.pos)
  }

  lemma JumpDecreases(w: World, s: State, t: State, size: nat)
    requires ValidWorld(w) && s.pos < |w.nodes| && size <= s.pos && t == s.(pos := s.pos - size)
    requires Flagged(w, s.flags, t.pos, s.pos)
    ensures Distance(w, t) < Distance(w, s)
  {
    var n := |w.nodes|;
    FlaggedCounts(w, s.flags, t.pos, s.pos);
    CountSplit(w, s.flags, 0, t.pos, s.pos);
    CountSplit(w, s.flags, t.pos, s.pos, n);
    var k := CountFlags(w, s.flags, t.pos, s.pos);
    var before := 2 * CountFlags(w, s.flags, 0, s.pos) + CountFlags(w, s.flags, s.pos, n);
    var after := 2 * CountFlags(w, t.flags, 0, t.pos) + CountFlags(w, t.flags, t.pos, n);
    assert after == before - k;
    hide CountFlags;
    JumpArithmetic(n + 1, before, k);
  }

  lemma JumpArithmetic(a: nat, x: nat, k: nat)
    requires 1 <= k <= x
    ensures a * (x - k) + a <= a * x
  {
    MulMonotone(a, 1, k);
    assert a * (x - k) == a * x - a * k;
  }

  /** Passing a node without setting a flag: nothing behind changes, and ahead
      there is one node less. */
  lemma PassDecreases(w: World, s: State, t: State)
    requires ValidWorld(w) && s.pos < |w.nodes| && t.pos == s.pos + 1
    requires t.flags == match w.nodes[s.pos]
      case GroupEnd(_) => s.flags
      case FileNode(f) => s.flags - {f}
    ensures Distance(w, t) < Distance(w, s)
  {
    var n := |w.nodes|;
    CountSplit(w, s.flags, s.pos, t.pos, n);
    if w.nodes[s.pos].FileNode? {
      CountCleared(w, s.flags, s.pos, 0, s.pos);
      CountCleared(w, s.flags, s.pos, t.pos, n);
    }
    var before := 2 * CountFlags(w, s.flags, 0, s.pos) + CountFlags(w, s.flags, s.pos, n);
    var after := 2 * CountFlags(w, t.flags, 0, t.pos) + CountFlags(w, t.flags, t.pos, n);
    assert CountFlags(w, t.flags, 0, t.pos) == CountFlags(w, s.flags, 0, s.pos);
    assert after <= before;
    MulMonotone(n + 1, after, before);
  }

  lemma MulMonotone(a: nat, x: nat, y: nat)
    requires x <= y
    ensures a * x <= a * y
  {
  }

  /** Each turn spends a member or an object, or comes closer to the end. */
  lemma StepDecreases(w: World, s: State, incremental: bool)
    requires Invariant(w, s) && s.pos < |w.nodes|
    ensures var t := Step(w, s, incremental);
      t.pos <= |w.nodes|
      && (Budget(w, t) < Budget(w, s) || (Budget(w, t) == Budget(w, s) && Distance(w, t) < Distance(w, s)))
  {
    hide Invariant, Visit, Budget, Distance, Flagged, Visited;
    InvariantFacts(w, s);
    var t := Step(w, s, incremental);
    match w.nodes[s.pos]
    case GroupEnd(size) =>
      FlagsDoNotMatter(w, s, t);
      if Flagged(w, s.flags, s.pos - size, s.pos) {
        JumpDecreases(w, s, t, size);
      } else {
        PassDecreases(w, s, t);
      }
    case FileNode(f) =>
      VisitKeeps(w, s, f, incremental);
      var v := Visit(w, s, f, incremental);
      VisitedInvariant(w, s, f, v);
      FlagsDoNotMatter(w, v, t);
      if Budget(w, v) == Budget(w, s) {
        PassDecreases(w, s, t);
      }
  }

  lemma {:induction false} RunStep(w: World, s: State, n: nat, incremental: bool)
    requires ValidWorld(w) && s.pos < |w.nodes|
    ensures Run(w, s, n + 1, incremental) == Run(w, Step(w, s, incremental), n, incremental)
  {
    hide Step;
    if n > 0 {
      RunStep(w, s, n - 1, incremental);
    } else {
      assert Run(w, s, 0, incremental) == s;
    }
  }

  /** Resolution ends: after finitely many turns the loop is past the last node. */
  lemma {:induction false} RunEnds(w: World, s: State, incremental: bool) returns (n: nat)
    requires Invariant(w, s)
    ensures Run(w, s, n, incremental).pos == |w.nodes|
    decreases Budget(w, s), if s.pos <= |w.nodes| then Distance(w, s) else 0
  {
    hide Invariant, Step, Distance, Budget, Run;
    InvariantFacts(w, s);
    if s.pos == |w.nodes| {
      n := 0;
      RunZero(w, s, incremental);
    } else {
      StepKeeps(w, s, incremental);
      StepDecreases(w, s, incremental);
      var m := RunEnds(w, Step(w, s, incremental), incremental);
      RunStep(w, s, m, incremental);
      n := m + 1;
    }
  }

  lemma RunZero(w: World, s: State, incremental: bool)
    requires ValidWorld(w)
    ensures Run(w, s, 0, incremental) == s
  {
  }
}
