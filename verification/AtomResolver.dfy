/** The second half of lib/Core/Resolver.cpp: redirecting references, dead
    stripping and dropping coalesced atoms, over lib/Core/SymbolTable.cpp. */
module AtomResolver {
  import opened Common
  import opened AtomTable
  import opened Reach

  datatype RefKind = Associate | LayoutAfter | GroupChild | Other

  datatype Ref = Ref(target: nat, kind: RefKind)

  /** isBackref. */
  predicate IsBackref(r: Ref) {
    r.kind.LayoutAfter? || r.kind.GroupChild?
  }

  /** Outgoing references of the atoms that are defined. */
  type Refs = map<nat, seq<Ref>>

  function RefsOf(refs: Refs, a: nat): (s: seq<Ref>) {
    if a in refs then refs[a] else []
  }

  predicate IsDefined(atoms: seq<Atom>, a: nat) {
    a < |atoms| && atoms[a].def.Regular?
  }

  // ----- the symbol table -----

  class SymbolTable {
    const atoms: seq<Atom>
    const allowDuplicates: bool
    var names: map<string, nat>
    var replaced: map<nat, nat>
    var contents: seq<nat>
    var groups: map<string, nat>

    constructor (atoms: seq<Atom>, allowDuplicates: bool)
      ensures this.atoms == atoms && this.allowDuplicates == allowDuplicates && Now() == EmptyTable()
    {
      this.atoms, this.allowDuplicates := atoms, allowDuplicates;
      names, replaced, contents, groups := map[], map[], [], map[];
    }

    function Now(): (t: Table)
      reads this
    {
      Table(names, replaced, contents, groups)
    }

    /** addByName. False stands for report_fatal_error. */
    method AddName(x: nat) returns (ok: bool)
      requires AllWellFormed(atoms) && InRange(atoms, Now()) && x < |atoms| && TrackedByName(atoms[x])
      modifies this
      ensures ok == AddByName(atoms, old(Now()), x, allowDuplicates).Some?
      ensures ok ==> Now() == AddByName(atoms, old(Now()), x, allowDuplicates).value
    {
      hide UseNew;
      var name := atoms[x].name;
      if name !in names {
        names := names[name := x];
        return true;
      }
      var e := names[name];
      if e == x {
        return true;
      }
      var useNew := UseNew(atoms[e].def, atoms[x].def, allowDuplicates);
      if useNew.None? {
        return false;
      }
      if useNew.value {
        names := names[name := x];
        replaced := replaced[e := x];
      } else {
        replaced := replaced[x := e];
      }
      ok := true;
    }

    /** The lookup of addByContent. */
    method LookUpContent(c: Content) returns (r: Option<nat>)
      requires forall k :: 0 <= k < |contents| ==> contents[k] < |atoms|
      ensures r == FindContent(atoms, contents, c)
    {
      assert contents[0..] == contents;
      for i := 0 to |contents|
        invariant FindContent(atoms, contents, c) == FindContent(atoms, contents[i..], c)
      {
        assert contents[i..][1..] == contents[i + 1..];
        if SameContent(atoms[contents[i]].content, c) {
          return Some(contents[i]);
        }
      }
      r := None;
    }

    /** add, and addGroup for a group parent. */
    method Add(x: nat) returns (ok: bool)
      requires AllWellFormed(atoms) && InRange(atoms, Now()) && x < |atoms|
      modifies this
      ensures ok == AddAtom(atoms, old(Now()), x, allowDuplicates).Some?
      ensures ok ==> Now() == AddAtom(atoms, old(Now()), x, allowDuplicates).value
    {
      hide UseNew, FindContent;
      var a := atoms[x];
      ok := true;
      if a.groupParent {
        if a.name !in groups {
          groups := groups[a.name := x];
        } else if allowDuplicates || a.content.contentType == atoms[groups[a.name]].content.contentType {
          replaced := replaced[x := groups[a.name]];
        } else {
          ok := false;
        }
      } else if TrackedByName(a) {
        ok := AddName(x);
      } else if a.def.Regular? && a.def.merge == MergeByContent && a.readOnly {
        var e := LookUpContent(a.content);
        if e.None? {
          contents := contents + [x];
        } else {
          replaced := replaced[x := e.value];
        }
      }
    }

    /** replacement(): follow the chain to its last atom. */
    method Replacement(x: nat, ghost added: set<nat>) returns (y: nat)
      requires EndsIn(replaced, added, x)
      ensures EndsAt(replaced, x, y)
    {
      y := x;
      ghost var end: nat :| end in added && EndsAt(replaced, x, end);
      ghost var n: nat :| Follow(replaced, x, n) == end;
      while y in replaced
        invariant end !in replaced && Follow(replaced, y, n) == end
        invariant forall z :: EndsAt(replaced, y, z) ==> EndsAt(replaced, x, z)
        decreases n
      {
        ghost var was := y;
        y := replaced[y];
        forall z | EndsAt(replaced, y, z) ensures EndsAt(replaced, was, z) {
          EndsThrough(replaced, was, z);
        }
        n := n - 1;
      }
      EndsAtItself(replaced, y);
    }
  }

  // ----- references -----

  /** What updateReferences leaves of one atom's references: associate ones as
      they were, the others moved to the end of their target's chain. */
  ghost predicate RefsUpdated(replaced: map<nat, nat>, before: seq<Ref>, after: seq<Ref>) {
    && |after| == |before|
    && forall i :: 0 <= i < |before| ==> RefUpdated(replaced, before[i], after[i])
  }

  ghost predicate RefUpdated(replaced: map<nat, nat>, before: Ref, after: Ref) {
    after.kind == before.kind
    && if before.kind.Associate? then after == before else EndsAt(replaced, before.target, after.target)
  }

  ghost predicate AllUpdated(atoms: seq<Atom>, replaced: map<nat, nat>, list: seq<nat>, before: Refs, after: Refs) {
    forall a :: a in list && IsDefined(atoms, a) ==>
      RefsUpdated(replaced, RefsOf(before, a), RefsOf(after, a))
  }

  /** Targets of associate references of coalesced atoms go away with them. */
  function DeadTargets(atoms: seq<Atom>, replaced: map<nat, nat>, list: seq<nat>, refs: Refs): (d: set<nat>) {
    set a, i | a in list && IsDefined(atoms, a) && a in replaced
      && 0 <= i < |RefsOf(refs, a)| && RefsOf(refs, a)[i].kind.Associate? :: RefsOf(refs, a)[i].target
  }

  /** References only lead to atoms the resolver has been given. */
  predicate RefsInside(atoms: seq<Atom>, list: seq<nat>, refs: Refs) {
    forall a :: a in list && IsDefined(atoms, a) ==>
      forall i :: 0 <= i < |RefsOf(refs, a)| ==> RefsOf(refs, a)[i].target in list
  }

  // ----- dead stripping -----

  function ForwardTargets(refs: seq<Ref>): (s: set<nat>) {
    set i | 0 <= i < |refs| :: refs[i].target
  }

  /** Atoms with a layout-after or group-child reference to a. */
  function ReverseTargets(atoms: seq<Atom>, list: seq<nat>, refs: Refs, a: nat): (s: set<nat>) {
    set b | b in list && IsDefined(atoms, b) && HasBackref(RefsOf(refs, b), a)
  }

  predicate HasBackref(refs: seq<Ref>, a: nat) {
    exists i :: 0 <= i < |refs| && IsBackref(refs[i]) && refs[i].target == a
  }

  /** What a live atom keeps alive. Only defined atoms keep anything. */
  function Edges(atoms: seq<Atom>, list: seq<nat>, refs: Refs): (g: Graph) {
    map a: nat | 0 <= a < |atoms| && IsDefined(atoms, a) ::
      ForwardTargets(RefsOf(refs, a)) + ReverseTargets(atoms, list, refs, a)
  }

  function Filter(list: seq<nat>, keep: set<nat>): (r: seq<nat>)
    ensures forall x :: x in r <==> x in list && x in keep
  {
    if list == [] then []
    else
      var front := Filter(list[..|list| - 1], keep);
      var last := list[|list| - 1];
      assert list == list[..|list| - 1] + [last];
      if last in keep then front + [last] else front
  }

  lemma {:induction false} FilterTwice(list: seq<nat>, live: set<nat>, keep: set<nat>)
    requires forall x :: x in keep ==> x in live
    ensures Filter(Filter(list, live), keep) == Filter(list, keep)
    decreases |list|
  {
    if list != [] {
      var front, last := list[..|list| - 1], list[|list| - 1];
      FilterTwice(front, live, keep);
      if last in live {
        assert (Filter(front, live) + [last])[..|Filter(front, live)|] == Filter(front, live);
      }
    }
  }

  /** The options of the link that dead stripping looks at. */
  datatype Options = Options(globalsAreRoots: bool, rootNames: seq<string>, neverStrip: set<nat>, globals: set<nat>)

  function StripRoots(atoms: seq<Atom>, list: seq<nat>, names: map<string, nat>, o: Options): (r: set<nat>) {
    (set a | a in list && a < |atoms| && atoms[a].def.AbsoluteDef?)
    + (set a | a in list && IsDefined(atoms, a) && a in o.neverStrip)
    + (if o.globalsAreRoots then set a | a in list && IsDefined(atoms, a) && a in o.globals else {})
    + (set k | 0 <= k < |o.rootNames| && o.rootNames[k] in names :: names[o.rootNames[k]])
  }

  /** A set of atoms that dead stripping must not cut into: it holds the absolute
      atoms, those marked never to be stripped, the global ones if globals are roots,
      and the holders of the root names; with each defined atom the targets of its
      references; and with each defined atom of the table's list those that come
      after it in layout order or have it as a member of their group. */
  predicate KeepsAtoms(atoms: seq<Atom>, list: seq<nat>, refs: Refs, names: map<string, nat>, o: Options, t: set<nat>) {
    && (forall a :: a in list && a < |atoms| && atoms[a].def.AbsoluteDef? ==> a in t)
    && (forall a :: a in list && a < |atoms| && atoms[a].def.Regular? ==>
          a in o.neverStrip || (o.globalsAreRoots && a in o.globals) ==> a in t)
    && (forall k :: 0 <= k < |o.rootNames| && o.rootNames[k] in names ==> names[o.rootNames[k]] in t)
    && (forall a, i :: a in t && a < |atoms| && atoms[a].def.Regular? && 0 <= i < |RefsOf(refs, a)| ==>
          RefsOf(refs, a)[i].target in t)
    && (forall b, i :: b in list && b < |atoms| && atoms[b].def.Regular? && 0 <= i < |RefsOf(refs, b)| ==>
          var r := RefsOf(refs, b)[i];
          (r.kind.LayoutAfter? || r.kind.GroupChild?) && r.target in t
          ==> r.target < |atoms| ==> atoms[r.target].def.Regular? ==> b in t)
  }

  lemma KeepsAreClosed(atoms: seq<Atom>, list: seq<nat>, refs: Refs, names: map<string, nat>, o: Options, t: set<nat>)
    ensures KeepsAtoms(atoms, list, refs, names, o, t)
       <==> Closed(Edges(atoms, list, refs), t) && StripRoots(atoms, list, names, o) <= t
  {
    hide Edges;
    var g := Edges(atoms, list, refs);
    if KeepsAtoms(atoms, list, refs, names, o, t) {
      forall a, b | a in t && b in Succ(g, a) ensures b in t {
        EdgesOf(atoms, list, refs, a);
      }
    }
    if Closed(g, t) && StripRoots(atoms, list, names, o) <= t {
      forall a, i | a in t && a < |atoms| && atoms[a].def.Regular? && 0 <= i < |RefsOf(refs, a)|
        ensures RefsOf(refs, a)[i].target in t
      {
        EdgesOf(atoms, list, refs, a);
        assert RefsOf(refs, a)[i].target in Succ(g, a);
      }
      forall b, i | b in list && b < |atoms| && atoms[b].def.Regular? && 0 <= i < |RefsOf(refs, b)|
        && (RefsOf(refs, b)[i].kind.LayoutAfter? || RefsOf(refs, b)[i].kind.GroupChild?)
        && RefsOf(refs, b)[i].target in t && RefsOf(refs, b)[i].target < |atoms|
        && atoms[RefsOf(refs, b)[i].target].def.Regular?
        ensures b in t
      {
        var a := RefsOf(refs, b)[i].target;
        EdgesOf(atoms, list, refs, a);
        assert HasBackref(RefsOf(refs, b), a);
        assert b in Succ(g, a);
      }
      RootsAreIn(atoms, list, names, o, t);
    }
  }

  lemma RootsAreIn(atoms: seq<Atom>, list: seq<nat>, names: map<string, nat>, o: Options, t: set<nat>)
    requires StripRoots(atoms, list, names, o) <= t
    ensures forall k :: 0 <= k < |o.rootNames| && o.rootNames[k] in names ==> names[o.rootNames[k]] in t
  {
    forall k | 0 <= k < |o.rootNames| && o.rootNames[k] in names ensures names[o.rootNames[k]] in t {
      assert names[o.rootNames[k]] in StripRoots(atoms, list, names, o);
    }
  }

  /** The live atoms are the least such set. */
  ghost predicate LeastKept(atoms: seq<Atom>, list: seq<nat>, refs: Refs, names: map<string, nat>, o: Options, live: set<nat>) {
    && KeepsAtoms(atoms, list, refs, names, o, live)
    && forall t: set<nat> :: KeepsAtoms(atoms, list, refs, names, o, t) ==> live <= t
  }

  lemma LiveIsLeast(atoms: seq<Atom>, list: seq<nat>, refs: Refs, names: map<string, nat>, o: Options, live: set<nat>)
    requires Exactly(Edges(atoms, list, refs), StripRoots(atoms, list, names, o), live)
    ensures LeastKept(atoms, list, refs, names, o, live)
  {
    hide Edges, StripRoots, Exactly, Closed, KeepsAtoms;
    ExactlyIsLeast(Edges(atoms, list, refs), StripRoots(atoms, list, names, o), live, live);
    KeepsAreClosed(atoms, list, refs, names, o, live);
    forall t: set<nat> | KeepsAtoms(atoms, list, refs, names, o, t) ensures live <= t {
      KeepsAreClosed(atoms, list, refs, names, o, t);
      ExactlyIsLeast(Edges(atoms, list, refs), StripRoots(atoms, list, names, o), live, t);
    }
  }

  /** The elements of r are some of s, in their order. */
  ghost predicate InOrder(r: seq<nat>, s: seq<nat>) {
    r == [] || exists i :: 0 <= i < |s| && s[i] == r[|r| - 1] && InOrder(r[..|r| - 1], s[..i])
  }

  lemma {:induction false} InOrderLonger(r: seq<nat>, s: seq<nat>, n: nat)
    requires n <= |s| && InOrder(r, s[..n])
    ensures InOrder(r, s)
  {
    if r != [] {
      var i :| 0 <= i < n && s[..n][i] == r[|r| - 1] && InOrder(r[..|r| - 1], s[..n][..i]);
      assert s[..n][..i] == s[..i];
    }
  }

  lemma {:induction false} FilterInOrder(list: seq<nat>, keep: set<nat>)
    ensures InOrder(Filter(list, keep), list)
    decreases |list|
  {
    if list != [] {
      var n := |list| - 1;
      var front := Filter(list[..n], keep);
      FilterInOrder(list[..n], keep);
      if list[n] in keep {
        assert (front + [list[n]])[..|front|] == front;
      } else {
        InOrderLonger(front, list, n);
      }
    }
  }

  class Resolver {
    const atoms: seq<Atom>
    const table: SymbolTable
    /** _atoms. */
    var list: seq<nat>
    var refs: Refs
    var live: set<nat>
    var dead: set<nat>

    constructor (atoms: seq<Atom>, refs: Refs, allowDuplicates: bool)
      requires AllWellFormed(atoms)
      ensures this.atoms == atoms && table.atoms == atoms && table.allowDuplicates == allowDuplicates
      ensures this.refs == refs && list == [] && live == {} && dead == {} && Valid() && fresh(table)
    {
      this.atoms, this.refs := atoms, refs;
      table := new SymbolTable(atoms, allowDuplicates);
      list, live, dead := [], {}, {};
    }

    /** The table is what adding the atoms of the list gives. */
    ghost predicate Valid()
      reads this, table
    {
      && table.atoms == atoms && AllWellFormed(atoms) && Additions(atoms, list)
      && AddAll(atoms, list, table.allowDuplicates) == Some(table.Now())
    }

    /** doDefinedAtom, doUndefinedAtom and their kin: an atom not seen before. */
    method AddNewAtom(x: nat) returns (ok: bool)
      requires Valid() && x < |atoms| && x !in list
      modifies this`list, table
      ensures ok ==> Valid() && list == old(list) + [x]
    {
      ok := table.Add(x);
      if ok {
        assert (list + [x])[..|list|] == list;
        list := list + [x];
      }
    }

    lemma ValidChains()
      requires Valid()
      ensures ChainsEnd(table.replaced, Elements(list)) && TablesHold(atoms, table.Now(), Elements(list))
    {
      hide ChainsEnd, TablesHold;
      AddAllKeeps(atoms, list, table.allowDuplicates);
    }

    /** updateReferences. */
    method UpdateReferences()
      requires Valid() && RefsInside(atoms, list, refs)
      modifies `refs, `dead
      ensures Valid() && AllUpdated(atoms, table.replaced, list, old(refs), refs)
      ensures dead == old(dead) + DeadTargets(atoms, table.replaced, list, old(refs))
    {
      hide ChainsEnd, RefsUpdated, DeadTargets;
      ValidChains();
      ghost var before, deadBefore := refs, dead;
      NoDeadTargets(atoms, table.replaced, before);
      assert list[..0] == [];
      for k := 0 to |list|
        invariant forall a :: a !in list[..k] ==> RefsOf(refs, a) == RefsOf(before, a)
        invariant AllUpdated(atoms, table.replaced, list[..k], before, refs)
        invariant dead == deadBefore + DeadTargets(atoms, table.replaced, list[..k], before)
      {
        assert list[..k + 1] == list[..k] + [list[k]];
        assert list[k] !in list[..k];
        DeadTargetsSnoc(atoms, table.replaced, list[..k], list[k], before);
        UpdateAtom(list[k]);
      }
      assert list[..|list|] == list;
    }

    method UpdateAtom(a: nat)
      requires ChainsEnd(table.replaced, Elements(list)) && a in list && a < |atoms|
      requires IsDefined(atoms, a) ==>
        forall i :: 0 <= i < |RefsOf(refs, a)| ==> RefsOf(refs, a)[i].target in list
      modifies `refs, `dead
      ensures forall b :: b != a ==> RefsOf(refs, b) == old(RefsOf(refs, b))
      ensures IsDefined(atoms, a) ==> RefsUpdated(table.replaced, old(RefsOf(refs, a)), RefsOf(refs, a))
      ensures dead == old(dead)
        + if IsDefined(atoms, a) && a in table.replaced then AssociateTargets(old(RefsOf(refs, a))) else {}
    {
      hide ChainsEnd, RefsUpdated;
      if atoms[a].def.Regular? {
        var before := RefsOf(refs, a);
        var after := UpdateOne(before);
        if a in table.replaced {
          dead := dead + AssociateTargets(before);
        }
        refs := refs[a := after];
      }
    }

    method UpdateOne(before: seq<Ref>) returns (after: seq<Ref>)
      requires ChainsEnd(table.replaced, Elements(list))
      requires forall i :: 0 <= i < |before| ==> before[i].target in list
      ensures RefsUpdated(table.replaced, before, after)
    {
      hide EndsAt, EndsIn;
      after := [];
      for i := 0 to |before|
        invariant |after| == i
        invariant forall j :: 0 <= j < i ==> RefUpdated(table.replaced, before[j], after[j])
      {
        if before[i].kind.Associate? {
          after := after + [before[i]];
        } else {
          assert before[i].target in Elements(list);
          var y := table.Replacement(before[i].target, Elements(list));
          after := after + [Ref(y, before[i].kind)];
        }
      }
    }

    /** markLive: depth-first, stopping at atoms already live. */
    method MarkLive(x: nat, ghost g: Graph, ghost universe: set<nat>)
      requires g == Edges(atoms, list, refs) && Closed(g, universe) && x in universe
      modifies `live
      ensures old(live) <= live <= old(live) + universe && x in live
      ensures forall y :: y in live && y !in old(live) ==> Reachable(g, {x}, y) && Succ(g, y) <= live
      decreases universe - live, 0
    {
      hide Reachable, Edges;
      if x in live {
        return;
      }
      ghost var before := live;
      live := live + {x};
      RootReachable(g, {x}, x);
      if x < |atoms| && atoms[x].def.Regular? {
        EdgesOf(atoms, list, refs, x);
        var targets := RefsOf(refs, x);
        for i := 0 to |targets|
          invariant before + {x} <= live <= before + universe
          invariant forall j :: 0 <= j < i ==> targets[j].target in live
          invariant forall y :: y in live && y !in before ==>
            Reachable(g, {x}, y) && (y != x ==> Succ(g, y) <= live)
        {
          assert targets[i].target in Succ(g, x);
          MarkTarget(targets[i].target, x, before, g, universe);
        }
        var reverse := ReverseTargets(atoms, list, refs, x);
        while reverse != {}
          invariant before + {x} <= live <= before + universe
          invariant forall j :: 0 <= j < |targets| ==> targets[j].target in live
          invariant reverse <= ReverseTargets(atoms, list, refs, x)
          invariant forall b :: b in ReverseTargets(atoms, list, refs, x) && b !in reverse ==> b in live
          invariant forall y :: y in live && y !in before ==>
            Reachable(g, {x}, y) && (y != x ==> Succ(g, y) <= live)
          decreases reverse
        {
          var b :| b in reverse;
          MarkTarget(b, x, before, g, universe);
          reverse := reverse - {b};
        }
      } else {
        EdgesOf(atoms, list, refs, x);
      }
    }

    /** One recursive call, from x to one of its successors. */
    method MarkTarget(t: nat, ghost x: nat, ghost before: set<nat>, ghost g: Graph, ghost universe: set<nat>)
      requires g == Edges(atoms, list, refs) && Closed(g, universe) && x in universe
      requires t in Succ(g, x) && x in live && x !in before && before <= live <= before + universe
      requires forall y :: y in live && y !in before ==> Reachable(g, {x}, y) && (y != x ==> Succ(g, y) <= live)
      modifies `live
      ensures old(live) <= live <= before + universe && t in live
      ensures forall y :: y in live && y !in before ==> Reachable(g, {x}, y) && (y != x ==> Succ(g, y) <= live)
      decreases universe - live, 1
    {
      hide Reachable, Edges;
      ghost var now := live;
      assert t in universe;
      MarkLive(t, g, universe);
      StepReachable(g, {x}, x, t);
      forall y | y in live && y !in now ensures Reachable(g, {x}, y) {
        ReachableThrough(g, {x}, t, y);
      }
    }

    /** deadStripOptimize: the atoms that stay are, in their old order, those that
        can be reached from the roots. */
    method DeadStripOptimize(o: Options)
      requires Valid() && live == {}
      requires forall k :: 0 <= k < |o.rootNames| ==> o.rootNames[k] in table.names
      modifies `live, `list
      ensures Exactly(Edges(atoms, old(list), refs), StripRoots(atoms, old(list), table.names, o), live)
      ensures list == Filter(old(list), live)
      ensures LeastKept(atoms, old(list), refs, table.names, o, live)
    {
      hide LeastKept;
      ghost var g := Edges(atoms, list, refs);
      var roots := StripRoots(atoms, list, table.names, o);
      ghost var universe := Universe(g, roots);
      UniverseCloses(g, roots);
      MarkAll(roots, g, universe);
      LiveIsLeast(atoms, list, refs, table.names, o, live);
      list := Keep(list, live);
    }

    method MarkAll(roots: set<nat>, ghost g: Graph, ghost universe: set<nat>)
      requires g == Edges(atoms, list, refs) && Closed(g, universe) && roots <= universe && live == {}
      modifies `live
      ensures Exactly(g, roots, live)
    {
      hide Reachable, Edges;
      var todo := roots;
      while todo != {}
        invariant todo <= roots && roots - todo <= live
        invariant forall y :: y in live ==> Reachable(g, roots, y) && Succ(g, y) <= live
        decreases todo
      {
        var x :| x in todo;
        ghost var before := live;
        MarkLive(x, g, universe);
        forall y | y in live && y !in before ensures Reachable(g, roots, y) {
          MoreRoots(g, {x}, roots, y);
        }
        todo := todo - {x};
      }
      ExactlyBecause(g, roots, live);
    }

    /** removeCoalescedAwayAtoms. */
    method RemoveCoalescedAwayAtoms()
      modifies `list
      ensures list == Filter(old(list), Remaining(old(list)))
    {
      list := Keep(list, Remaining(list));
    }

    /** The atoms of a list that were neither replaced nor dropped with one that
        was. */
    function Remaining(l: seq<nat>): (s: set<nat>)
      reads this, table
    {
      set x | x in l && x !in table.replaced && x !in dead
    }

    /** The tail of resolve(). What stays is, in its old order, what was not
        coalesced away and, if atoms are stripped, can be reached from the roots.
        Every reference of a kept atom that is not an associate one leads to a
        kept atom, unless its target went away together with a coalesced atom. */
    method Finish(deadStrip: bool, o: Options)
      requires Valid() && RefsInside(atoms, list, refs) && live == {} && dead == {}
      requires forall k :: 0 <= k < |o.rootNames| ==> o.rootNames[k] in table.names
      modifies this
      ensures AllUpdated(atoms, table.replaced, old(list), old(refs), refs)
      ensures dead == DeadTargets(atoms, table.replaced, old(list), old(refs))
      ensures deadStrip ==> Exactly(Edges(atoms, old(list), refs), StripRoots(atoms, old(list), table.names, o), live)
      ensures deadStrip ==> LeastKept(atoms, old(list), refs, table.names, o, live)
      ensures forall a :: a in list <==> a in old(list) && a !in table.replaced && a !in dead && (deadStrip ==> a in live)
      ensures forall x :: x in dead <==> DroppedWith(atoms, table.replaced, old(list), old(refs), x)
      ensures InOrder(list, old(list))
      ensures list == Filter(old(list), Remaining(if deadStrip then Filter(old(list), live) else old(list)))
      ensures forall a, i :: a in list && IsDefined(atoms, a) && 0 <= i < |RefsOf(refs, a)| ==>
        RefsOf(refs, a)[i].kind.Associate? || RefsOf(refs, a)[i].target in list || RefsOf(refs, a)[i].target in dead
      ensures NoAssociates(atoms, old(list), old(refs)) ==> dead == {}
    {
      hide Edges, StripRoots, ChainsEnd, EndsAt, Exactly, AllUpdated, DeadTargets, LeastKept;
      ghost var all, before := list, refs;
      ValidChains();
      UpdateReferences();
      ghost var g := Edges(atoms, all, refs);
      if deadStrip {
        DeadStripOptimize(o);
      }
      DeadAreDropped(atoms, table.replaced, all, before);
      if NoAssociates(atoms, all, before) {
        NothingDropped(atoms, table.replaced, all, before);
      }
      ghost var stripped := list;
      RemoveCoalescedAwayAtoms();
      if deadStrip {
        FilterTwice(all, live, Remaining(stripped));
      }
      FilterInOrder(all, Remaining(stripped));
      forall a, i | a in list && IsDefined(atoms, a) && 0 <= i < |RefsOf(refs, a)| && !RefsOf(refs, a)[i].kind.Associate?
        ensures RefsOf(refs, a)[i].target in list || RefsOf(refs, a)[i].target in dead
      {
        OutputClosed(atoms, table.Now(), all, before, refs, deadStrip,
          StripRoots(atoms, all, table.names, o), live, a, i);
      }
    }
  }

  predicate NoAssociates(atoms: seq<Atom>, list: seq<nat>, refs: Refs) {
    forall a :: a in list && IsDefined(atoms, a) ==>
      forall i :: 0 <= i < |RefsOf(refs, a)| ==> !RefsOf(refs, a)[i].kind.Associate?
  }

  /** An atom of the list was coalesced away and has an associate reference to x. */
  predicate DroppedWith(atoms: seq<Atom>, replaced: map<nat, nat>, list: seq<nat>, refs: Refs, x: nat) {
    exists a :: a in list && a < |atoms| && atoms[a].def.Regular? && a in replaced && LeadsTo(RefsOf(refs, a), x)
  }

  predicate LeadsTo(refs: seq<Ref>, x: nat) {
    exists i :: 0 <= i < |refs| && refs[i] == Ref(x, Associate)
  }

  lemma DeadAreDropped(atoms: seq<Atom>, replaced: map<nat, nat>, list: seq<nat>, refs: Refs)
    ensures forall x :: x in DeadTargets(atoms, replaced, list, refs) <==> DroppedWith(atoms, replaced, list, refs, x)
  {
    forall x ensures x in DeadTargets(atoms, replaced, list, refs) <==> DroppedWith(atoms, replaced, list, refs, x) {
      if x in DeadTargets(atoms, replaced, list, refs) {
        var a, i :| a in list && IsDefined(atoms, a) && a in replaced && 0 <= i < |RefsOf(refs, a)|
          && RefsOf(refs, a)[i].kind.Associate? && RefsOf(refs, a)[i].target == x;
        assert RefsOf(refs, a)[i] == Ref(x, Associate) && LeadsTo(RefsOf(refs, a), x);
      }
    }
  }

  lemma NothingDropped(atoms: seq<Atom>, replaced: map<nat, nat>, list: seq<nat>, refs: Refs)
    requires NoAssociates(atoms, list, refs)
    ensures DeadTargets(atoms, replaced, list, refs) == {}
  {
  }

  /** After the update a reference leads to an atom of the list that nothing
      replaces. */
  lemma TargetKept(atoms: seq<Atom>, t: Table, list: seq<nat>, before: Refs, after: Refs, a: nat, i: nat)
    requires ChainsEnd(t.replaced, Elements(list)) && RefsInside(atoms, list, before)
    requires AllUpdated(atoms, t.replaced, list, before, after)
    requires a in list && IsDefined(atoms, a) && i < |RefsOf(after, a)| && !RefsOf(after, a)[i].kind.Associate?
    ensures RefsOf(after, a)[i].target in list && RefsOf(after, a)[i].target !in t.replaced
  {
    var x, y := RefsOf(before, a)[i].target, RefsOf(after, a)[i].target;
    assert RefsUpdated(t.replaced, RefsOf(before, a), RefsOf(after, a));
    assert RefUpdated(t.replaced, RefsOf(before, a)[i], RefsOf(after, a)[i]);
    assert x in Elements(list) && EndsIn(t.replaced, Elements(list), x);
    var z :| z in Elements(list) && EndsAt(t.replaced, x, z);
    EndIsUnique(t.replaced, x, y, z);
  }

  /** The output graph is closed, with and without dead stripping: a reference of
      a kept atom, not an associate one, leads to an atom that is in the list,
      has not been coalesced away and, if atoms are stripped, is live. */
  lemma OutputClosed(atoms: seq<Atom>, t: Table, list: seq<nat>, before: Refs, after: Refs,
      deadStrip: bool, roots: set<nat>, live: set<nat>, a: nat, i: nat)
    requires ChainsEnd(t.replaced, Elements(list)) && RefsInside(atoms, list, before)
    requires AllUpdated(atoms, t.replaced, list, before, after)
    requires a in list && IsDefined(atoms, a) && i < |RefsOf(after, a)| && !RefsOf(after, a)[i].kind.Associate?
    requires deadStrip ==> Exactly(Edges(atoms, list, after), roots, live) && a in live
    ensures RefsOf(after, a)[i].target in list && RefsOf(after, a)[i].target !in t.replaced
    ensures deadStrip ==> RefsOf(after, a)[i].target in live
  {
    hide Edges, ChainsEnd, AllUpdated;
    TargetKept(atoms, t, list, before, after, a, i);
    if deadStrip {
      ExactlyIsLeast(Edges(atoms, list, after), roots, live, live);
      EdgesOf(atoms, list, after, a);
      assert RefsOf(after, a)[i].target in ForwardTargets(RefsOf(after, a));
    }
  }

  function AssociateTargets(refs: seq<Ref>): (s: set<nat>) {
    set i | 0 <= i < |refs| && refs[i].kind.Associate? :: refs[i].target
  }

  lemma NoDeadTargets(atoms: seq<Atom>, replaced: map<nat, nat>, refs: Refs)
    ensures DeadTargets(atoms, replaced, [], refs) == {}
  {
  }

  lemma DeadTargetsSnoc(atoms: seq<Atom>, replaced: map<nat, nat>, list: seq<nat>, a: nat, refs: Refs)
    ensures DeadTargets(atoms, replaced, list + [a], refs)
         == DeadTargets(atoms, replaced, list, refs)
            + (if IsDefined(atoms, a) && a in replaced then AssociateTargets(RefsOf(refs, a)) else {})
  {
  }

  lemma EdgesOf(atoms: seq<Atom>, list: seq<nat>, refs: Refs, a: nat)
    ensures Succ(Edges(atoms, list, refs), a)
         == if IsDefined(atoms, a) then ForwardTargets(RefsOf(refs, a)) + ReverseTargets(atoms, list, refs, a) else {}
  {
  }

  /** Everything the graph mentions. */
  function Universe(g: Graph, roots: set<nat>): (u: set<nat>) {
    roots + set a, b | a in g && b in g[a] :: b
  }

  lemma UniverseCloses(g: Graph, roots: set<nat>)
    ensures Closed(g, Universe(g, roots)) && roots <= Universe(g, roots)
  {
  }

  /** std::remove_if and erase: the order of what stays does not change. */
  method Keep(list: seq<nat>, keep: set<nat>) returns (r: seq<nat>)
    ensures r == Filter(list, keep)
  {
    r := [];
    for i := 0 to |list|
      invariant r == Filter(list[..i], keep)
    {
      assert list[..i + 1][..i] == list[..i];
      if list[i] in keep {
        r := r + [list[i]];
      }
    }
    assert list[..|list|] == list;
  }
}
