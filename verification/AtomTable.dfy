/** Coalescing of atoms by name and by content (lib/Core/SymbolTable.cpp): the
    name table, the replacement map with its chains, and the decision tables. */
module AtomTable {
  import opened Common

  /** DefinedAtom::Merge. */
  datatype Merge =
    | MergeNo | MergeAsTentative | MergeAsWeak | MergeAsWeakAndAddressUsed
    | MergeSameNameAndSize | MergeByLargestSection | MergeByContent

  datatype Definition =
    | Regular(merge: Merge, sectionSize: nat)
    | AbsoluteDef
      /** canBeNull: 0 never, 1 at runtime, 2 at build time. */
    | UndefinedDef(canBeNull: nat, hasFallback: bool)
    | SharedDef

  /** What content merging compares. */
  datatype Content = Content(contentType: nat, size: nat, choice: nat, customRequired: bool, customName: string, bytes: seq<nat>)

  datatype Atom = Atom(name: string, fileLocal: bool, def: Definition, groupParent: bool, readOnly: bool, content: Content)

  // ----- which of two atoms of one name is used -----

  datatype NameCollision = First | Second | DupDef | DupUndef | DupShLib | CollisionError

  function Collide(first: Definition, second: Definition): (r: NameCollision) {
    match first
    case Regular(_, _) => (match second
      case Regular(_, _) => DupDef
      case AbsoluteDef => CollisionError
      case _ => First)
    case AbsoluteDef => (match second
      case Regular(_, _) => CollisionError
      case AbsoluteDef => CollisionError
      case _ => First)
    case UndefinedDef(_, _) => (match second
      case UndefinedDef(_, _) => DupUndef
      case _ => Second)
    case SharedDef => (match second
      case UndefinedDef(_, _) => First
      case SharedDef => DupShLib
      case _ => Second)
  }

  datatype MergeResolution = MergeFirst | MergeSecond | MergeLargest | MergeSameSize | MergeError

  function MergeSelect(first: Merge, second: Merge): (r: MergeResolution)
    requires first != MergeByContent && second != MergeByContent
  {
    if first == MergeSameNameAndSize || second == MergeSameNameAndSize then MergeSameSize
    else if first == MergeByLargestSection || second == MergeByLargestSection then MergeLargest
    else
      match first
      case MergeNo => if second == MergeNo then MergeError else MergeFirst
      case MergeAsTentative => if second == MergeAsTentative then MergeLargest else MergeSecond
      case MergeAsWeak =>
        if second == MergeNo || second == MergeAsWeakAndAddressUsed then MergeSecond else MergeFirst
      case _ => if second == MergeNo then MergeSecond else MergeFirst
  }

  /** Does the new atom take the name? None is a fatal error. */
  function UseNew(existing: Definition, new_: Definition, allowDuplicates: bool): (r: Option<bool>)
    requires existing.Regular? ==> existing.merge != MergeByContent
    requires new_.Regular? ==> new_.merge != MergeByContent
  {
    match Collide(existing, new_)
    case First => Some(false)
    case Second => Some(true)
    case DupDef =>
      var duplicate := if allowDuplicates then Some(false) else None;
      (match MergeSelect(existing.merge, new_.merge)
       case MergeFirst => Some(false)
       case MergeSecond => Some(true)
       case MergeLargest => Some(new_.sectionSize >= existing.sectionSize)
       case MergeSameSize => if existing.sectionSize == new_.sectionSize then Some(true) else duplicate
       case MergeError => duplicate)
    case DupUndef =>
      if existing.canBeNull == new_.canBeNull then Some(new_.hasFallback)
      else Some(new_.canBeNull < existing.canBeNull)
    case DupShLib => Some(false)
    case CollisionError => None
  }

  /** How strongly an atom claims its name. */
  function Strength(d: Definition): (s: nat) {
    match d
    case UndefinedDef(_, _) => 0
    case SharedDef => 1
    case _ => 2
  }

  /** The winner is never the weaker of the two, so a name that is defined stays
      defined; a strong definition loses only to a duplicate that merges. */
  lemma WinnerIsStrongest(existing: Definition, new_: Definition, allowDuplicates: bool)
    requires existing.Regular? ==> existing.merge != MergeByContent
    requires new_.Regular? ==> new_.merge != MergeByContent
    ensures var r := UseNew(existing, new_, allowDuplicates);
      && (r == Some(true) ==> Strength(new_) >= Strength(existing))
      && (r == Some(false) ==> Strength(existing) >= Strength(new_))
      && (r == None ==> Strength(existing) == Strength(new_) == 2)
      && (r == Some(true) && existing.Regular? && existing.merge == MergeNo ==>
            new_.Regular? && (new_.merge == MergeSameNameAndSize || new_.merge == MergeByLargestSection))
  {
  }

  // ----- which of two regular definitions is used -----

  /** The merges that are decided by rank, weakest first. */
  predicate Ranked(m: Merge) {
    m in {MergeAsTentative, MergeAsWeak, MergeAsWeakAndAddressUsed, MergeNo}
  }

  function Rank(m: Merge): (r: nat)
    requires Ranked(m)
  {
    match m
    case MergeAsTentative => 0
    case MergeAsWeak => 1
    case MergeAsWeakAndAddressUsed => 2
    case MergeNo => 3
  }

  /** The higher rank wins on either side. Of two equal ones the first stays, but
      of tentative definitions the larger, and two of the top rank are an error
      unless duplicates are allowed. */
  lemma HigherRankWins(m: Merge, m': Merge, size: nat, size': nat, allowDuplicates: bool)
    requires Ranked(m) && Ranked(m')
    ensures var r := UseNew(Regular(m, size), Regular(m', size'), allowDuplicates);
      && (Rank(m) > Rank(m') ==> r == Some(false))
      && (Rank(m) < Rank(m') ==> r == Some(true))
      && (m == m' == MergeNo ==> r == if allowDuplicates then Some(false) else None)
      && (m == m' == MergeAsTentative ==> r == Some(size <= size'))
      && (m == m' && m in {MergeAsWeak, MergeAsWeakAndAddressUsed} ==> r == Some(false))
  {
  }

  predicate BySize(m: Merge) {
    m in {MergeSameNameAndSize, MergeByLargestSection}
  }

  /** Where either asks for the same size the sizes must agree, and then the new one
      is used; otherwise, where either asks for the largest, the larger one is, and
      of two equal ones the new one. */
  lemma SizesDecide(m: Merge, m': Merge, size: nat, size': nat, allowDuplicates: bool)
    requires m != MergeByContent && m' != MergeByContent && (BySize(m) || BySize(m'))
    ensures UseNew(Regular(m, size), Regular(m', size'), allowDuplicates) ==
      if MergeSameNameAndSize in {m, m'} then
        if size == size' then Some(true) else if allowDuplicates then Some(false) else None
      else Some(size <= size')
  {
  }

  /** Between atoms of different kinds: regular and absolute definitions exclude each
      other, definitions win over the rest, and shared library atoms over undefined
      ones. Of two of the same kind: absolute ones exclude each other, the first
      shared library atom stays, and of undefined ones the one that may less often
      be null is used, or if they agree the new one if it has a fallback. */
  lemma KindsDecide(existing: Definition, new_: Definition, allowDuplicates: bool)
    requires existing.Regular? ==> existing.merge != MergeByContent
    requires new_.Regular? ==> new_.merge != MergeByContent
    requires !(existing.Regular? && new_.Regular?)
    ensures var r := UseNew(existing, new_, allowDuplicates);
      && (Strength(existing) > Strength(new_) ==> r == Some(false))
      && (Strength(existing) < Strength(new_) ==> r == Some(true))
      && (Strength(existing) == Strength(new_) == 2 ==> r == None)
      && (existing.SharedDef? && new_.SharedDef? ==> r == Some(false))
      && (existing.UndefinedDef? && new_.UndefinedDef? ==>
            r == Some(new_.canBeNull < existing.canBeNull
                      || (new_.canBeNull == existing.canBeNull && new_.hasFallback)))
  {
  }

  // ----- the table -----

  datatype Table = Table(names: map<string, nat>, replaced: map<nat, nat>, contents: seq<nat>, groups: map<string, nat>)

  function EmptyTable(): (t: Table) {
    Table(map[], map[], [], map[])
  }

  predicate TrackedByName(a: Atom) {
    match a.def
    case Regular(_, _) => !a.groupParent && a.name != "" && !a.fileLocal
    case AbsoluteDef => !a.fileLocal
    case _ => true
  }

  /** What the asserts of add and addByName demand. */
  predicate WellFormed(a: Atom) {
    && (TrackedByName(a) ==> a.name != "" && (a.def.Regular? ==> a.def.merge != MergeByContent))
    && (a.groupParent ==> a.def.Regular? && a.name != "")
  }

  predicate AllWellFormed(atoms: seq<Atom>) {
    forall i :: 0 <= i < |atoms| ==> WellFormed(atoms[i])
  }

  predicate InRange(atoms: seq<Atom>, t: Table) {
    && (forall n :: n in t.names ==> t.names[n] < |atoms| && TrackedByName(atoms[t.names[n]]))
    && (forall k :: 0 <= k < |t.contents| ==> t.contents[k] < |atoms|)
    && (forall n :: n in t.groups ==> t.groups[n] < |atoms|)
  }

  function AddByName(atoms: seq<Atom>, t: Table, x: nat, allowDuplicates: bool): (r: Option<Table>)
    requires AllWellFormed(atoms) && InRange(atoms, t) && x < |atoms| && TrackedByName(atoms[x])
  {
    var name := atoms[x].name;
    if name !in t.names then Some(t.(names := t.names[name := x]))
    else
      var e := t.names[name];
      if e == x then Some(t)
      else
        match UseNew(atoms[e].def, atoms[x].def, allowDuplicates)
        case None => None
        case Some(true) => Some(t.(names := t.names[name := x], replaced := t.replaced[e := x]))
        case Some(false) => Some(t.(replaced := t.replaced[x := e]))
  }

  /** AtomMappingInfo::isEqual. */
  predicate SameContent(a: Content, b: Content) {
    && a.contentType == b.contentType && a.size == b.size
    && a.choice == b.choice && a.customRequired == b.customRequired
    && (a.customRequired ==> a.customName == b.customName)
    && a.bytes == b.bytes
  }

  function FindContent(atoms: seq<Atom>, contents: seq<nat>, c: Content): (r: Option<nat>)
    requires forall k :: 0 <= k < |contents| ==> contents[k] < |atoms|
    ensures r.Some? ==> r.value in contents
  {
    if contents == [] then None
    else if SameContent(atoms[contents[0]].content, c) then Some(contents[0])
    else FindContent(atoms, contents[1..], c)
  }

  function AddByContent(atoms: seq<Atom>, t: Table, x: nat): (r: Table)
    requires InRange(atoms, t) && x < |atoms|
  {
    match FindContent(atoms, t.contents, atoms[x].content)
    case None => t.(contents := t.contents + [x])
    case Some(e) => t.(replaced := t.replaced[x := e])
  }

  function AddGroup(atoms: seq<Atom>, t: Table, x: nat, allowDuplicates: bool): (r: Option<Table>)
    requires InRange(atoms, t) && x < |atoms|
  {
    var name := atoms[x].name;
    if name !in t.groups then Some(t.(groups := t.groups[name := x]))
    else if allowDuplicates || atoms[x].content.contentType == atoms[t.groups[name]].content.contentType then
      Some(t.(replaced := t.replaced[x := t.groups[name]]))
    else None
  }

  /** SymbolTable::add, and addGroup for group parents. */
  function AddAtom(atoms: seq<Atom>, t: Table, x: nat, allowDuplicates: bool): (r: Option<Table>)
    requires AllWellFormed(atoms) && InRange(atoms, t) && x < |atoms|
    ensures r.Some? ==> InRange(atoms, r.value)
  {
    var a := atoms[x];
    if a.groupParent then AddGroup(atoms, t, x, allowDuplicates)
    else if TrackedByName(a) then AddByName(atoms, t, x, allowDuplicates)
    else if a.def.Regular? && a.def.merge == MergeByContent && a.readOnly then Some(AddByContent(atoms, t, x))
    else Some(t)
  }

  function AddAll(atoms: seq<Atom>, added: seq<nat>, allowDuplicates: bool): (r: Option<Table>)
    requires AllWellFormed(atoms) && forall k :: 0 <= k < |added| ==> added[k] < |atoms|
    ensures r.Some? ==> InRange(atoms, r.value)
  {
    if added == [] then Some(EmptyTable())
    else
      match AddAll(atoms, added[..|added| - 1], allowDuplicates)
      case None => None
      case Some(t) => AddAtom(atoms, t, added[|added| - 1], allowDuplicates)
  }

  // ----- atoms without a name to coalesce by -----

  /** The contents two constants share when one may stand for the other. */
  datatype Constant = Constant(contentType: nat, size: nat, choice: nat, section: Option<string>, bytes: seq<nat>)

  function ConstantOf(c: Content): (k: Constant) {
    Constant(c.contentType, c.size, c.choice, if c.customRequired then Some(c.customName) else None, c.bytes)
  }

  predicate IsConstant(a: Atom) {
    a.def.Regular? && !a.groupParent && a.def.merge == MergeByContent && a.readOnly
  }

  /** An unnamed or file-local definition is left alone unless it is a read-only
      constant to be merged by content. */
  lemma LocalsAreLeftAlone(atoms: seq<Atom>, t: Table, x: nat, allowDuplicates: bool)
    requires AllWellFormed(atoms) && InRange(atoms, t) && x < |atoms|
    requires var a := atoms[x];
      || (a.def.Regular? && !a.groupParent && (a.name == "" || a.fileLocal) && !IsConstant(a))
      || (a.def.AbsoluteDef? && a.fileLocal && !a.groupParent)
    ensures AddAtom(atoms, t, x, allowDuplicates) == Some(t)
  {
  }

  /** Every other atom but a constant or a group is filed under its name. */
  lemma OthersHaveNames(atoms: seq<Atom>, t: Table, x: nat, allowDuplicates: bool)
    requires AllWellFormed(atoms) && InRange(atoms, t) && x < |atoms|
    requires var a := atoms[x];
      !a.groupParent && (a.def.UndefinedDef? || a.def.SharedDef? || (!a.fileLocal && a.name != ""))
    requires AddAtom(atoms, t, x, allowDuplicates).Some?
    ensures var t' := AddAtom(atoms, t, x, allowDuplicates).value;
      && atoms[x].name in t'.names
      && (t'.names[atoms[x].name] == x || (x in t'.replaced && t'.replaced[x] == t'.names[atoms[x].name]))
  {
    hide UseNew;
    assert WellFormed(atoms[x]);
  }

  lemma {:induction false} FoundContent(atoms: seq<Atom>, contents: seq<nat>, c: Content)
    requires forall k :: 0 <= k < |contents| ==> contents[k] < |atoms|
    ensures match FindContent(atoms, contents, c)
      case None => forall e :: e in contents ==> ConstantOf(atoms[e].content) != ConstantOf(c)
      case Some(e) => ConstantOf(atoms[e].content) == ConstantOf(c)
  {
    if contents != [] && !SameContent(atoms[contents[0]].content, c) {
      FoundContent(atoms, contents[1..], c);
    }
  }

  /** No two entries of the content table are the same constant. */
  predicate DifferentConstants(atoms: seq<Atom>, contents: seq<nat>) {
    && (forall k :: 0 <= k < |contents| ==> contents[k] < |atoms|)
    && forall j, k :: 0 <= j < k < |contents| ==>
         ConstantOf(atoms[contents[j]].content) != ConstantOf(atoms[contents[k]].content)
  }

  /** A constant is kept, or replaced by one with the same contents that is. */
  lemma ConstantAdded(atoms: seq<Atom>, t: Table, x: nat, allowDuplicates: bool)
    requires AllWellFormed(atoms) && InRange(atoms, t) && x < |atoms| && IsConstant(atoms[x])
    ensures AddAtom(atoms, t, x, allowDuplicates).Some?
    ensures var t' := AddAtom(atoms, t, x, allowDuplicates).value;
      && t'.names == t.names && t'.groups == t.groups
      && ((t'.contents == t.contents + [x] && t'.replaced == t.replaced
           && forall e :: e in t.contents ==> ConstantOf(atoms[e].content) != ConstantOf(atoms[x].content))
          || (t'.contents == t.contents
              && (exists e ::
                    e in t.contents && ConstantOf(atoms[e].content) == ConstantOf(atoms[x].content)
                    && t'.replaced == t.replaced[x := e])))
  {
    assert WellFormed(atoms[x]);
    FoundContent(atoms, t.contents, atoms[x].content);
  }

  lemma ContentsOnlyGrow(atoms: seq<Atom>, t: Table, x: nat, allowDuplicates: bool)
    requires AllWellFormed(atoms) && InRange(atoms, t) && x < |atoms|
    requires AddAtom(atoms, t, x, allowDuplicates).Some? && DifferentConstants(atoms, t.contents)
    ensures DifferentConstants(atoms, AddAtom(atoms, t, x, allowDuplicates).value.contents)
  {
    hide UseNew;
    FoundContent(atoms, t.contents, atoms[x].content);
  }

  /** After any additions the kept constants all differ. */
  lemma {:induction false} ConstantsDiffer(atoms: seq<Atom>, added: seq<nat>, allowDuplicates: bool)
    requires AllWellFormed(atoms) && forall k :: 0 <= k < |added| ==> added[k] < |atoms|
    requires AddAll(atoms, added, allowDuplicates).Some?
    ensures DifferentConstants(atoms, AddAll(atoms, added, allowDuplicates).value.contents)
  {
    hide AddAtom, DifferentConstants;
    if added == [] {
      assert DifferentConstants(atoms, []) by { NoConstants(atoms); }
    } else {
      var n := |added| - 1;
      ConstantsDiffer(atoms, added[..n], allowDuplicates);
      ContentsOnlyGrow(atoms, AddAll(atoms, added[..n], allowDuplicates).value, added[n], allowDuplicates);
    }
  }

  lemma NoConstants(atoms: seq<Atom>)
    ensures DifferentConstants(atoms, [])
  {
  }

  /** The first group of a name stays and stands for every later one, which must
      have its content type unless duplicates are allowed. */
  lemma FirstGroupStays(atoms: seq<Atom>, t: Table, x: nat, allowDuplicates: bool)
    requires AllWellFormed(atoms) && InRange(atoms, t) && x < |atoms| && atoms[x].groupParent
    ensures var r := AddAtom(atoms, t, x, allowDuplicates);
      var name := atoms[x].name;
      if name in t.groups then
        && (r.None? <==> !allowDuplicates && atoms[x].content.contentType != atoms[t.groups[name]].content.contentType)
        && (r.Some? ==> r.value == Table(t.names, t.replaced[x := t.groups[name]], t.contents, t.groups))
      else r == Some(Table(t.names, t.replaced, t.contents, t.groups[name := x]))
  {
  }

  // ----- chains of replacements -----

  /** n hops along the replacement map, stopping where it has no entry. */
  function Follow(r: map<nat, nat>, x: nat, n: nat): (y: nat)
    decreases n
  {
    if n == 0 || x !in r then x else Follow(r, r[x], n - 1)
  }

  /** The chain from x ends, and it ends at y. */
  ghost predicate EndsAt(r: map<nat, nat>, x: nat, y: nat) {
    y !in r && exists n: nat :: Follow(r, x, n) == y
  }

  lemma {:induction false} FollowMore(r: map<nat, nat>, x: nat, n: nat, m: nat)
    requires n <= m && Follow(r, x, n) !in r
    ensures Follow(r, x, m) == Follow(r, x, n)
    decreases n
  {
    if n > 0 && x in r {
      FollowMore(r, r[x], n - 1, m - 1);
    }
  }

  lemma EndIsUnique(r: map<nat, nat>, x: nat, y: nat, z: nat)
    requires EndsAt(r, x, y) && EndsAt(r, x, z)
    ensures y == z
  {
    var n: nat :| Follow(r, x, n) == y;
    var m: nat :| Follow(r, x, m) == z;
    if n <= m {
      FollowMore(r, x, n, m);
    } else {
      FollowMore(r, x, m, n);
    }
  }

  lemma EndsAtItself(r: map<nat, nat>, x: nat)
    requires x !in r
    ensures EndsAt(r, x, x)
  {
    assert Follow(r, x, 0) == x;
  }

  lemma EndsThrough(r: map<nat, nat>, x: nat, y: nat)
    requires x in r && EndsAt(r, r[x], y)
    ensures EndsAt(r, x, y)
  {
    var n: nat :| Follow(r, r[x], n) == y;
    assert Follow(r, x, n + 1) == y;
  }

  lemma {:induction false} FollowAfterReplace(r: map<nat, nat>, e: nat, a: nat, x: nat, n: nat)
    requires e !in r && a !in r && e != a && Follow(r, x, n) !in r
    ensures Follow(r, x, n) == e ==> Follow(r[e := a], x, n + 1) == a
    ensures Follow(r, x, n) != e ==> Follow(r[e := a], x, n) == Follow(r, x, n)
    decreases n
  {
    if x in r && n > 0 {
      FollowAfterReplace(r, e, a, r[x], n - 1);
    } else if x == e {
      assert Follow(r[e := a], e, n + 1) == Follow(r[e := a], a, n) == a;
    }
  }

  /** Replacing the end e of some chains by a moves exactly those chains to a. */
  lemma EndsAfterReplace(r: map<nat, nat>, e: nat, a: nat, x: nat, y: nat)
    requires e !in r && a !in r && e != a && EndsAt(r, x, y)
    ensures EndsAt(r[e := a], x, if y == e then a else y)
  {
    var n: nat :| Follow(r, x, n) == y;
    FollowAfterReplace(r, e, a, x, n);
  }

  // ----- the invariant -----

  /** Every chain ends, inside the atoms added so far. */
  ghost predicate ChainsEnd(r: map<nat, nat>, added: set<nat>) {
    && (forall x :: x in r ==> x in added)
    && forall x :: x in added ==> EndsIn(r, added, x)
  }

  /** The chain from x ends at one of the given atoms. */
  ghost predicate EndsIn(r: map<nat, nat>, added: set<nat>, x: nat) {
    exists y :: y in added && EndsAt(r, x, y)
  }

  /** The chain of a named atom ends at the table's entry for its name. */
  ghost predicate NamesLead(atoms: seq<Atom>, t: Table, added: set<nat>) {
    forall x :: x in added && x < |atoms| && TrackedByName(atoms[x]) ==>
      atoms[x].name in t.names && EndsAt(t.replaced, x, t.names[atoms[x].name])
  }

  /** The tables hold atoms that were added and not replaced, each in its own
      table. */
  predicate TablesHold(atoms: seq<Atom>, t: Table, added: set<nat>) {
    && InRange(atoms, t)
    && (forall n :: n in t.names ==>
          t.names[n] in added && atoms[t.names[n]].name == n && t.names[n] !in t.replaced)
    && (forall c :: c in t.contents ==> c < |atoms| && c in added && c !in t.replaced && !TrackedByName(atoms[c]))
    && (forall n :: n in t.groups ==>
          t.groups[n] in added && t.groups[n] !in t.replaced && !TrackedByName(atoms[t.groups[n]]))
  }

  ghost predicate Invariant(atoms: seq<Atom>, t: Table, added: set<nat>) {
    ChainsEnd(t.replaced, added) && NamesLead(atoms, t, added) && TablesHold(atoms, t, added)
  }

  /** A new entry e := a in the replacement map, where one of the two is the atom
      just added and both are chain ends. */
  lemma ReplaceKeepsChains(r: map<nat, nat>, added: set<nat>, x: nat, e: nat, a: nat)
    requires ChainsEnd(r, added)
    requires x !in added && e !in r && a !in r && e != a
    requires e in added + {x} && a in added + {x}
    ensures ChainsEnd(r[e := a], added + {x})
  {
    hide EndsIn;
    forall y | y in added + {x} ensures EndsIn(r[e := a], added + {x}, y) {
      var some := if y == x then {x} else added;
      StillEndsIn(r, some, x, e, a, y);
      EndsInMore(r[e := a], some + {x} + {a}, added + {x}, y);
    }
  }

  lemma StillEndsIn(r: map<nat, nat>, some: set<nat>, x: nat, e: nat, a: nat, y: nat)
    requires e !in r && a !in r && e != a
    requires EndsIn(r, some, y) || (y == x && x !in r && some == {x})
    ensures EndsIn(r[e := a], some + {x} + {a}, y)
  {
    hide EndsAt;
    if y == x && x !in r {
      EndsAtItself(r, x);
    }
    var z :| z in some && EndsAt(r, y, z);
    EndsAfterReplace(r, e, a, y, z);
  }

  lemma EndsInMore(r: map<nat, nat>, some: set<nat>, more: set<nat>, y: nat)
    requires some <= more && EndsIn(r, some, y)
    ensures EndsIn(r, more, y)
  {
  }

  lemma AddKeepsChains(r: map<nat, nat>, added: set<nat>, x: nat)
    requires ChainsEnd(r, added) && x !in added
    ensures ChainsEnd(r, added + {x})
  {
    EndsAtItself(r, x);
    assert EndsIn(r, {x}, x) by {
      hide EndsAt;
      assert x in {x} && EndsAt(r, x, x);
    }
    hide EndsIn;
    forall y | y in added + {x} ensures EndsIn(r, added + {x}, y) {
      EndsInMore(r, if y == x then {x} else added, added + {x}, y);
    }
  }

  lemma NewNameKeeps(atoms: seq<Atom>, t: Table, added: set<nat>, x: nat)
    requires Invariant(atoms, t, added) && x < |atoms| && x !in added && TrackedByName(atoms[x])
    requires atoms[x].name !in t.names
    ensures Invariant(atoms, t.(names := t.names[atoms[x].name := x]), added + {x})
  {
    hide EndsAt, EndsIn;
    EndsAtItself(t.replaced, x);
    AddKeepsChains(t.replaced, added, x);
    hide ChainsEnd;
  }

  /** The new atom x and the holder e of its name: the one that loses is replaced
      by the other. */
  lemma CollisionKeeps(atoms: seq<Atom>, t: Table, added: set<nat>, x: nat, useNew: bool)
    requires Invariant(atoms, t, added) && x < |atoms| && x !in added && TrackedByName(atoms[x])
    requires atoms[x].name in t.names
    ensures var name := atoms[x].name;
      var e := t.names[name];
      Invariant(atoms,
        if useNew then t.(names := t.names[name := x], replaced := t.replaced[e := x])
        else t.(replaced := t.replaced[x := e]),
        added + {x})
  {
    hide EndsAt, EndsIn;
    var name := atoms[x].name;
    var e := t.names[name];
    var from, to := if useNew then e else x, if useNew then x else e;
    var names := if useNew then t.names[name := x] else t.names;
    EndsAtItself(t.replaced, x);
    ReplaceKeepsChains(t.replaced, added, x, from, to);
    forall y | y in added + {x} && y < |atoms| && TrackedByName(atoms[y])
      ensures atoms[y].name in names && EndsAt(t.replaced[from := to], y, names[atoms[y].name])
    {
      var end := if y == x then x else t.names[atoms[y].name];
      EndsAfterReplace(t.replaced, from, to, y, end);
    }
  }

  lemma ReplaceUntrackedKeeps(atoms: seq<Atom>, t: Table, added: set<nat>, x: nat, e: nat)
    requires Invariant(atoms, t, added) && x < |atoms| && x !in added && !TrackedByName(atoms[x])
    requires e in added && e < |atoms| && e !in t.replaced && !TrackedByName(atoms[e])
    ensures Invariant(atoms, t.(replaced := t.replaced[x := e]), added + {x})
  {
    hide EndsAt, EndsIn;
    ReplaceKeepsChains(t.replaced, added, x, x, e);
    forall y | y in added && y < |atoms| && TrackedByName(atoms[y])
      ensures EndsAt(t.replaced[x := e], y, t.names[atoms[y].name])
    {
      EndsAfterReplace(t.replaced, x, e, y, t.names[atoms[y].name]);
    }
  }

  /** An atom that only enters the content or the group table, or no table. */
  lemma UntrackedKeeps(atoms: seq<Atom>, t: Table, t': Table, added: set<nat>, x: nat)
    requires Invariant(atoms, t, added) && x < |atoms| && x !in added && !TrackedByName(atoms[x])
    requires t'.names == t.names && t'.replaced == t.replaced && InRange(atoms, t')
    requires forall c :: c in t'.contents ==> c in t.contents || c == x
    requires forall n :: n in t'.groups ==> t'.groups[n] == x || (n in t.groups && t'.groups[n] == t.groups[n])
    ensures Invariant(atoms, t', added + {x})
  {
    hide EndsAt, EndsIn;
    AddKeepsChains(t.replaced, added, x);
  }

  lemma AddAtomKeeps(atoms: seq<Atom>, t: Table, added: set<nat>, x: nat, allowDuplicates: bool)
    requires AllWellFormed(atoms) && Invariant(atoms, t, added) && x < |atoms| && x !in added
    requires AddAtom(atoms, t, x, allowDuplicates).Some?
    ensures Invariant(atoms, AddAtom(atoms, t, x, allowDuplicates).value, added + {x})
  {
    hide UseNew, EndsAt, ChainsEnd, NamesLead, FindContent;
    var a := atoms[x];
    assert WellFormed(a);
    var t' := AddAtom(atoms, t, x, allowDuplicates).value;
    if !a.groupParent && TrackedByName(a) {
      if a.name !in t.names {
        NewNameKeeps(atoms, t, added, x);
      } else {
        assert t.names[a.name] in added;
        CollisionKeeps(atoms, t, added, x, UseNew(atoms[t.names[a.name]].def, a.def, allowDuplicates).value);
      }
    } else if t'.replaced == t.replaced {
      UntrackedKeeps(atoms, t, t', added, x);
    } else {
      ReplaceUntrackedKeeps(atoms, t, added, x, t'.replaced[x]);
    }
  }

  function Elements(s: seq<nat>): (r: set<nat>) {
    set x | x in s
  }

  predicate Additions(atoms: seq<Atom>, added: seq<nat>) {
    && (forall k :: 0 <= k < |added| ==> added[k] < |atoms|)
    && (forall j, k :: 0 <= j < k < |added| ==> added[j] != added[k])
  }

  /** All through any sequence of additions of different atoms. */
  lemma {:induction false} AddAllKeeps(atoms: seq<Atom>, added: seq<nat>, allowDuplicates: bool)
    requires AllWellFormed(atoms) && Additions(atoms, added)
    requires AddAll(atoms, added, allowDuplicates).Some?
    ensures Invariant(atoms, AddAll(atoms, added, allowDuplicates).value, Elements(added))
  {
    hide Invariant, AddAtom;
    if added == [] {
      EmptyKeeps(atoms);
      assert Elements(added) == {};
    } else {
      var n := |added| - 1;
      AddAllKeeps(atoms, added[..n], allowDuplicates);
      var t := AddAll(atoms, added[..n], allowDuplicates).value;
      AddAtomKeeps(atoms, t, Elements(added[..n]), added[n], allowDuplicates);
      assert added == added[..n] + [added[n]];
      assert Elements(added) == Elements(added[..n]) + {added[n]};
    }
  }

  lemma EmptyKeeps(atoms: seq<Atom>)
    ensures Invariant(atoms, EmptyTable(), {})
  {
  }

  /** The replacement map is acyclic, and the chain of every added named atom
      ends at the name table's entry for its name. */
  lemma ChainsEndAtNames(atoms: seq<Atom>, added: seq<nat>, allowDuplicates: bool, x: nat)
    requires AllWellFormed(atoms) && Additions(atoms, added)
    requires AddAll(atoms, added, allowDuplicates).Some? && x in added
    ensures exists y :: y in added && EndsAt(AddAll(atoms, added, allowDuplicates).value.replaced, x, y)
    ensures TrackedByName(atoms[x]) ==>
      var t := AddAll(atoms, added, allowDuplicates).value;
      atoms[x].name in t.names && EndsAt(t.replaced, x, t.names[atoms[x].name])
  {
    hide EndsAt, AddAll, TablesHold;
    AddAllKeeps(atoms, added, allowDuplicates);
    assert x in Elements(added);
    assert EndsIn(AddAll(atoms, added, allowDuplicates).value.replaced, Elements(added), x);
    var y :| y in Elements(added) && EndsAt(AddAll(atoms, added, allowDuplicates).value.replaced, x, y);
    assert y in added;
  }

  // ----- does a strong definition stay? -----

  /** A definition that any other kind of definition may displace. */
  predicate Weakish(d: Definition) {
    d.Regular? && d.merge in {MergeAsTentative, MergeAsWeak, MergeAsWeakAndAddressUsed}
  }

  predicate Strong(d: Definition) {
    d.Regular? && d.merge == MergeNo
  }

  predicate HeldWeakly(atoms: seq<Atom>, t: Table, name: string)
    requires InRange(atoms, t)
  {
    name in t.names && Weakish(atoms[t.names[name]].def)
  }

  /** The atom is added under this name. */
  predicate Claims(a: Atom, name: string) {
    !a.groupParent && TrackedByName(a) && a.name == name
  }

  /** Adding x to the table gives its name back to a weak definition: the holder is
      merged by size, x is weak, and its size will do. */
  predicate Relapses(atoms: seq<Atom>, t: Table, name: string, x: nat)
    requires InRange(atoms, t) && x < |atoms|
  {
    && name in t.names && Claims(atoms[x], name)
    && Weakish(atoms[x].def) && atoms[t.names[name]].def.Regular?
    && var holder, weak := atoms[t.names[name]].def, atoms[x].def;
       || (holder.merge == MergeSameNameAndSize && holder.sectionSize == weak.sectionSize)
       || (holder.merge == MergeByLargestSection && holder.sectionSize <= weak.sectionSize)
  }

  /** One addition where the name is held by a definition that is not weak. */
  lemma HolderAfter(atoms: seq<Atom>, t: Table, name: string, x: nat, allowDuplicates: bool)
    requires AllWellFormed(atoms) && InRange(atoms, t) && x < |atoms|
    requires AddAtom(atoms, t, x, allowDuplicates).Some? && name in t.names
    requires atoms[t.names[name]].def.Regular? && !Weakish(atoms[t.names[name]].def)
    ensures var t' := AddAtom(atoms, t, x, allowDuplicates).value;
      && name in t'.names && atoms[t'.names[name]].def.Regular?
      && (HeldWeakly(atoms, t', name) <==> Relapses(atoms, t, name, x))
      && (Strong(atoms[t.names[name]].def) && !(Claims(atoms[x], name) && atoms[x].def.Regular? && BySize(atoms[x].def.merge)) ==>
            t'.names[name] == t.names[name])
  {
    assert WellFormed(atoms[x]) && WellFormed(atoms[t.names[name]]);
    if Claims(atoms[x], name) {
      var e, d := atoms[t.names[name]].def, atoms[x].def;
      if d.Regular? {
        if Ranked(e.merge) && Ranked(d.merge) {
          HigherRankWins(e.merge, d.merge, e.sectionSize, d.sectionSize, allowDuplicates);
        } else {
          SizesDecide(e.merge, d.merge, e.sectionSize, d.sectionSize, allowDuplicates);
        }
      }
      hide InRange, Relapses, AllWellFormed;
    }
  }

  /** A strong definition takes the name from a weak one. */
  lemma StrongTakes(atoms: seq<Atom>, t: Table, name: string, x: nat, allowDuplicates: bool)
    requires AllWellFormed(atoms) && InRange(atoms, t) && x < |atoms|
    requires AddAtom(atoms, t, x, allowDuplicates).Some? && Claims(atoms[x], name) && Strong(atoms[x].def)
    ensures var t' := AddAtom(atoms, t, x, allowDuplicates).value;
      && name in t'.names && atoms[t'.names[name]].def.Regular? && !HeldWeakly(atoms, t', name)
      && (t'.names[name] == x || (name in t.names && t'.names[name] == t.names[name]))
  {
    if name in t.names {
      assert WellFormed(atoms[t.names[name]]);
      var e, d := atoms[t.names[name]].def, atoms[x].def;
      if !e.Regular? {
        KindsDecide(e, d, allowDuplicates);
      } else if Ranked(e.merge) {
        HigherRankWins(e.merge, d.merge, e.sectionSize, d.sectionSize, allowDuplicates);
      } else {
        SizesDecide(e.merge, d.merge, e.sectionSize, d.sectionSize, allowDuplicates);
      }
      hide InRange, AllWellFormed;
    }
  }

  predicate Adds(atoms: seq<Atom>, added: seq<nat>) {
    AllWellFormed(atoms) && forall k :: 0 <= k < |added| ==> added[k] < |atoms|
  }

  /** The table after the first n additions. */
  function After(atoms: seq<Atom>, added: seq<nat>, allowDuplicates: bool, n: nat): (t: Table)
    requires Adds(atoms, added) && AddAll(atoms, added, allowDuplicates).Some? && n <= |added|
    ensures InRange(atoms, t)
  {
    PrefixSucceeds(atoms, added, allowDuplicates, n);
    AddAll(atoms, added[..n], allowDuplicates).value
  }

  lemma {:induction false} PrefixSucceeds(atoms: seq<Atom>, added: seq<nat>, allowDuplicates: bool, n: nat)
    requires Adds(atoms, added) && AddAll(atoms, added, allowDuplicates).Some? && n <= |added|
    ensures AddAll(atoms, added[..n], allowDuplicates).Some?
  {
    hide AddAtom;
    if n < |added| {
      PrefixSucceeds(atoms, added[..|added| - 1], allowDuplicates, n);
      assert added[..|added| - 1][..n] == added[..n];
    } else {
      assert added[..n] == added;
    }
  }

  lemma AfterNext(atoms: seq<Atom>, added: seq<nat>, allowDuplicates: bool, n: nat)
    requires Adds(atoms, added) && AddAll(atoms, added, allowDuplicates).Some? && n < |added|
    ensures AddAtom(atoms, After(atoms, added, allowDuplicates, n), added[n], allowDuplicates)
         == Some(After(atoms, added, allowDuplicates, n + 1))
  {
    hide AddAtom;
    PrefixSucceeds(atoms, added, allowDuplicates, n);
    PrefixSucceeds(atoms, added, allowDuplicates, n + 1);
    assert added[..n + 1][..n] == added[..n];
  }

  /** Does addition k give the name back to a weak definition? */
  predicate RelapsesAt(atoms: seq<Atom>, added: seq<nat>, allowDuplicates: bool, name: string, k: nat)
    requires Adds(atoms, added) && AddAll(atoms, added, allowDuplicates).Some? && k < |added|
  {
    Relapses(atoms, After(atoms, added, allowDuplicates, k), name, added[k])
  }

  /** The addition at m defines the name strongly. */
  predicate StrongAt(atoms: seq<Atom>, added: seq<nat>, name: string, m: nat)
    requires Adds(atoms, added) && m < |added|
  {
    Claims(atoms[added[m]], name) && Strong(atoms[added[m]].def)
  }

  lemma {:induction false} HeldUntilRelapse(atoms: seq<Atom>, added: seq<nat>, allowDuplicates: bool, name: string, m: nat, n: nat)
    requires Adds(atoms, added) && AddAll(atoms, added, allowDuplicates).Some? && m < n <= |added|
    requires StrongAt(atoms, added, name, m)
    requires forall k :: m < k < n ==> !RelapsesAt(atoms, added, allowDuplicates, name, k)
    ensures var t := After(atoms, added, allowDuplicates, n);
      name in t.names && atoms[t.names[name]].def.Regular? && !HeldWeakly(atoms, t, name)
    decreases n
  {
    hide AddAtom, AddAll, After, Relapses;
    AfterNext(atoms, added, allowDuplicates, n - 1);
    if n - 1 == m {
      StrongTakes(atoms, After(atoms, added, allowDuplicates, m), name, added[m], allowDuplicates);
    } else {
      HeldUntilRelapse(atoms, added, allowDuplicates, name, m, n - 1);
      assert !RelapsesAt(atoms, added, allowDuplicates, name, n - 1);
      HolderAfter(atoms, After(atoms, added, allowDuplicates, n - 1), name, added[n - 1], allowDuplicates);
    }
  }

  /** Once a strong definition of a name has been added, a weak or tentative one
      holds the name at some later time exactly if some addition relapses. */
  lemma RelapseExactlyWhen(atoms: seq<Atom>, added: seq<nat>, allowDuplicates: bool, name: string, m: nat)
    requires Adds(atoms, added) && AddAll(atoms, added, allowDuplicates).Some? && m < |added|
    requires StrongAt(atoms, added, name, m)
    ensures (exists n :: m < n <= |added| && HeldWeakly(atoms, After(atoms, added, allowDuplicates, n), name))
       <==> (exists k :: m < k < |added| && RelapsesAt(atoms, added, allowDuplicates, name, k))
  {
    hide AddAtom, AddAll, After;
    if exists k :: m < k < |added| && RelapsesAt(atoms, added, allowDuplicates, name, k) {
      var k :| m < k < |added| && RelapsesAt(atoms, added, allowDuplicates, name, k);
      AfterNext(atoms, added, allowDuplicates, k);
      HolderAfter(atoms, After(atoms, added, allowDuplicates, k), name, added[k], allowDuplicates);
      assert HeldWeakly(atoms, After(atoms, added, allowDuplicates, k + 1), name);
    } else {
      forall n | m < n <= |added| ensures !HeldWeakly(atoms, After(atoms, added, allowDuplicates, n), name) {
        HeldUntilRelapse(atoms, added, allowDuplicates, name, m, n);
      }
    }
  }

  /** Three definitions of one name and one size: an ordinary one, one that asks for
      the same size, and a weak one. */
  function SameSizeAtoms(): (atoms: seq<Atom>) {
    var content := Content(0, 0, 0, false, "", []);
    [Atom("f", false, Regular(MergeNo, 4), false, false, content),
     Atom("f", false, Regular(MergeSameNameAndSize, 4), false, false, content),
     Atom("f", false, Regular(MergeAsWeak, 4), false, false, content)]
  }

  /** The weak one ends up with the name. */
  lemma WeakAfterStrong()
    ensures AllWellFormed(SameSizeAtoms())
    ensures AddAll(SameSizeAtoms(), [0, 1, 2], false) == Some(Table(map["f" := 2], map[0 := 1, 1 := 2], [], map[]))
  {
    var atoms := SameSizeAtoms();
    var one, two := Table(map["f" := 0], map[], [], map[]), Table(map["f" := 1], map[0 := 1], [], map[]);
    var added: seq<nat> := [0, 1, 2];
    assert added[..2] == [0, 1] && [0, 1][..1] == [0] && [0][..0] == [];
    assert AddAtom(atoms, EmptyTable(), 0, false) == Some(one);
    assert AddAtom(atoms, one, 1, false) == Some(two) by {
      SizesDecide(MergeNo, MergeSameNameAndSize, 4, 4, false);
      assert one.names["f" := 1] == two.names;
    }
    assert AddAtom(atoms, two, 2, false) == Some(Table(map["f" := 2], map[0 := 1, 1 := 2], [], map[])) by {
      SizesDecide(MergeSameNameAndSize, MergeAsWeak, 4, 4, false);
      assert two.names["f" := 2] == map["f" := 2];
    }
    hide AddAtom;
  }

  /** No definition of the name is merged by size. */
  predicate NoneBySize(atoms: seq<Atom>, added: seq<nat>, name: string)
    requires Adds(atoms, added)
  {
    forall k :: 0 <= k < |added| && Claims(atoms[added[k]], name) && atoms[added[k]].def.Regular? ==>
      !BySize(atoms[added[k]].def.merge)
  }

  /** An addition changes a name's holder only to the added atom. */
  lemma HolderChange(atoms: seq<Atom>, t: Table, name: string, x: nat, allowDuplicates: bool)
    requires AllWellFormed(atoms) && InRange(atoms, t) && x < |atoms|
    requires AddAtom(atoms, t, x, allowDuplicates).Some?
    ensures var t' := AddAtom(atoms, t, x, allowDuplicates).value;
      name in t'.names ==>
        (name in t.names && t'.names[name] == t.names[name]) || (t'.names[name] == x && Claims(atoms[x], name))
  {
    hide UseNew, FindContent;
  }

  predicate AddedAs(atoms: seq<Atom>, added: seq<nat>, name: string, x: nat, n: nat)
    requires Adds(atoms, added) && n <= |added|
  {
    exists k :: 0 <= k < n && added[k] == x && Claims(atoms[added[k]], name)
  }

  lemma {:induction false} HolderWasAdded(atoms: seq<Atom>, added: seq<nat>, allowDuplicates: bool, name: string, n: nat)
    requires Adds(atoms, added) && AddAll(atoms, added, allowDuplicates).Some? && n <= |added|
    requires name in After(atoms, added, allowDuplicates, n).names
    ensures AddedAs(atoms, added, name, After(atoms, added, allowDuplicates, n).names[name], n)
    decreases n
  {
    hide AddAtom;
    if n > 0 {
      var t := After(atoms, added, allowDuplicates, n - 1);
      AfterNext(atoms, added, allowDuplicates, n - 1);
      HolderChange(atoms, t, name, added[n - 1], allowDuplicates);
      hide AddAll, After;
      if name in t.names && After(atoms, added, allowDuplicates, n).names[name] == t.names[name] {
        HolderWasAdded(atoms, added, allowDuplicates, name, n - 1);
      }
    }
  }

  /** Where none is, the first strong definition holds the name for good. */
  lemma {:induction false} StrongStays(atoms: seq<Atom>, added: seq<nat>, allowDuplicates: bool, name: string, m: nat, n: nat)
    requires Adds(atoms, added) && AddAll(atoms, added, allowDuplicates).Some? && m < n <= |added|
    requires StrongAt(atoms, added, name, m) && NoneBySize(atoms, added, name)
    ensures var t := After(atoms, added, allowDuplicates, n);
      name in t.names && Strong(atoms[t.names[name]].def)
      && name in After(atoms, added, allowDuplicates, m + 1).names
      && t.names[name] == After(atoms, added, allowDuplicates, m + 1).names[name]
    decreases n
  {
    hide AddAtom, AddAll, After, Relapses;
    var t := After(atoms, added, allowDuplicates, n - 1);
    AfterNext(atoms, added, allowDuplicates, n - 1);
    if n - 1 == m {
      StrongTakes(atoms, t, name, added[m], allowDuplicates);
      HolderWasAdded(atoms, added, allowDuplicates, name, n);
    } else {
      StrongStays(atoms, added, allowDuplicates, name, m, n - 1);
      HolderAfter(atoms, t, name, added[n - 1], allowDuplicates);
    }
  }

  // ----- adding an atom again -----

  /** Adding an atom again is harmless if it holds its name or loses against the
      holder; by content and as a group, if the table does not hold it. */
  predicate HarmlessAgain(atoms: seq<Atom>, t: Table, x: nat, allowDuplicates: bool)
    requires AllWellFormed(atoms) && InRange(atoms, t) && x < |atoms|
  {
    var a := atoms[x];
    if a.groupParent then a.name in t.groups ==> t.groups[a.name] != x
    else if TrackedByName(a) then
      a.name in t.names ==>
        t.names[a.name] == x || UseNew(atoms[t.names[a.name]].def, a.def, allowDuplicates) != Some(true)
    else if a.def.Regular? && a.def.merge == MergeByContent && a.readOnly then
      FindContent(atoms, t.contents, a.content) != Some(x)
    else true
  }

  lemma {:induction false} FollowRedirected(r: map<nat, nat>, x: nat, e: nat, y: nat, n: nat) returns (m: nat)
    requires x != e && e !in r && Follow(r, y, n) !in r
    ensures var z := Follow(r[x := e], y, m); z !in r[x := e] && (z == e || z == Follow(r, y, n))
    decreases n
  {
    if y == x {
      m := 1;
      assert Follow(r[x := e], e, 0) == e;
    } else if y in r && n > 0 {
      var k := FollowRedirected(r, x, e, r[y], n - 1);
      m := k + 1;
    } else {
      m := 0;
    }
  }

  /** Pointing an atom at the end of a chain other than itself. */
  lemma RedirectKeepsChains(r: map<nat, nat>, added: set<nat>, x: nat, e: nat)
    requires ChainsEnd(r, added) && x in added && e in added && x != e && e !in r
    ensures ChainsEnd(r[x := e], added)
  {
    forall y | y in added ensures EndsIn(r[x := e], added, y) {
      var z :| z in added && EndsAt(r, y, z);
      var n: nat :| Follow(r, y, n) == z;
      var m := FollowRedirected(r, x, e, y, n);
      assert EndsAt(r[x := e], y, Follow(r[x := e], y, m));
    }
  }

  /** Pointing the end of a chain back at its start. */
  lemma {:induction false} BackNeverEnds(r: map<nat, nat>, x: nat, e: nat, y: nat, n: nat)
    requires EndsAt(r, x, e) && EndsAt(r, y, e)
    ensures Follow(r[e := x], y, n) in r[e := x]
    decreases n
  {
    var k: nat :| Follow(r, y, k) == e;
    if n > 0 {
      if y == e {
        BackNeverEnds(r, x, e, x, n - 1);
      } else {
        assert Follow(r, r[y], k - 1) == e;
        BackNeverEnds(r, x, e, r[y], n - 1);
      }
    }
  }

  lemma {:induction false} SelfNeverEnds(r: map<nat, nat>, x: nat, n: nat)
    ensures Follow(r[x := x], x, n) == x
    decreases n
  {
    if n > 0 {
      SelfNeverEnds(r, x, n - 1);
    }
  }

  lemma NeverEnding(r: map<nat, nat>, added: set<nat>, x: nat)
    requires x in added && forall n: nat :: Follow(r, x, n) in r
    ensures !ChainsEnd(r, added)
  {
    assert !EndsIn(r, added, x);
  }

  lemma NewNameAgain(atoms: seq<Atom>, t: Table, added: set<nat>, x: nat)
    requires Invariant(atoms, t, added) && x in added && x < |atoms| && TrackedByName(atoms[x])
    requires t.names[atoms[x].name] != x
    ensures var e := t.names[atoms[x].name]; ChainsEnd(t.replaced[x := e], added) && !ChainsEnd(t.replaced[e := x], added)
  {
    var e := t.names[atoms[x].name];
    hide ChainsEnd, EndsIn;
    RedirectKeepsChains(t.replaced, added, x, e);
    var back := t.replaced[e := x];
    forall n: nat ensures Follow(back, x, n) in back {
      BackNeverEnds(t.replaced, x, e, x, n);
    }
    NeverEnding(back, added, x);
  }

  lemma PointAgain(r: map<nat, nat>, added: set<nat>, x: nat, e: nat)
    requires ChainsEnd(r, added) && x in added && e in added && e !in r
    ensures ChainsEnd(r[x := e], added) <==> x != e
  {
    hide ChainsEnd;
    if x == e {
      var self := r[x := x];
      forall n: nat ensures Follow(self, x, n) in self {
        SelfNeverEnds(r, x, n);
      }
      NeverEnding(self, added, x);
    } else {
      RedirectKeepsChains(r, added, x, e);
    }
  }

  /** Adding an atom again leaves every chain ending exactly in the harmless cases. */
  lemma AddingAgainExactlyWhen(atoms: seq<Atom>, t: Table, added: set<nat>, x: nat, allowDuplicates: bool)
    requires AllWellFormed(atoms) && Invariant(atoms, t, added) && x < |atoms| && x in added
    requires AddAtom(atoms, t, x, allowDuplicates).Some?
    ensures ChainsEnd(AddAtom(atoms, t, x, allowDuplicates).value.replaced, added)
       <==> HarmlessAgain(atoms, t, x, allowDuplicates)
  {
    hide UseNew, EndsAt, ChainsEnd, EndsIn, FindContent;
    var a := atoms[x];
    if a.groupParent {
      if a.name in t.groups {
        PointAgain(t.replaced, added, x, t.groups[a.name]);
      }
    } else if TrackedByName(a) {
      if t.names[a.name] != x {
        NewNameAgain(atoms, t, added, x);
      }
    } else if a.def.Regular? && a.def.merge == MergeByContent && a.readOnly {
      var e := FindContent(atoms, t.contents, a.content);
      if e.Some? {
        PointAgain(t.replaced, added, x, e.value);
      }
    }
  }

  /** Adding an atom twice can close a cycle: two tentative definitions of the
      same size, the first of them added again (as a group child would be that
      its file lists as well). From then on replacement() would not end. */
  lemma AddingTwiceCanLoop(a: Content) returns (t: Table)
    ensures var atom := Atom("x", false, Regular(MergeAsTentative, 4), false, false, a);
      AllWellFormed([atom, atom]) && AddAll([atom, atom], [0, 1, 0], false) == Some(t)
    ensures forall y :: !EndsAt(t.replaced, 0, y)
  {
    var atom := Atom("x", false, Regular(MergeAsTentative, 4), false, false, a);
    var atoms := [atom, atom];
    var t1 := Table(map["x" := 0], map[], [], map[]);
    var t2 := Table(map["x" := 1], map[0 := 1], [], map[]);
    t := Table(map["x" := 0], map[0 := 1, 1 := 0], [], map[]);
    assert [0, 1, 0][..2] == [0, 1] && [0, 1][..1] == [0] && [0][..0] == [];
    assert AddAll(atoms, [], false) == Some(EmptyTable());
    assert AddAtom(atoms, EmptyTable(), 0, false) == Some(t1);
    assert AddAll(atoms, [0], false) == Some(t1);
    assert t1.names["x" := 1] == t2.names && t1.replaced[0 := 1] == t2.replaced;
    assert AddAtom(atoms, t1, 1, false) == Some(t2);
    assert AddAll(atoms, [0, 1], false) == Some(t2);
    assert t2.names["x" := 0] == t.names && t2.replaced[1 := 0] == t.replaced;
    assert AddAtom(atoms, t2, 0, false) == Some(t);
    forall y ensures !EndsAt(t.replaced, 0, y) {
      forall n: nat ensures Follow(t.replaced, 0, n) in t.replaced {
        CycleGoesOn(t.replaced, 0, n);
      }
    }
  }

  lemma {:induction false} CycleGoesOn(r: map<nat, nat>, x: nat, n: nat)
    requires r == map[0 := 1, 1 := 0] && (x == 0 || x == 1)
    ensures Follow(r, x, n) in r
    decreases n
  {
    if n > 0 {
      CycleGoesOn(r, r[x], n - 1);
    }
  }
}
