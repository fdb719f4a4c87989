/** Archive-driven resolution: COFF/SymbolTable.cpp's queues and symbol map,
    COFF/InputFiles.cpp's Seen flags, and the convergence loop of
    COFF/Driver.cpp, one thread at a time. Every method that can fail returns
    whether it succeeded. */
module ArchiveDriven {
  import opened Common
  import P = Precedence
  import R = Resolution

  /** A symbol body. Defined bodies carry what compare looks at. */
  datatype Body =
    | Def(d: P.Body)
    | Und(id: nat)
    | Laz(id: nat, fileIndex: int, member: string)

  /** What WeakAlias points to: a body, and its name if it has a back reference. */
  datatype Alias = Alias(body: Body, name: Option<string>)

  /** One external symbol of an object, import or bitcode file. */
  datatype Entry = Entry(name: string, body: Body, alias: Option<Alias>)

  datatype Directive =
    | DefaultLib(path: string)
    | Include(name: string)
    | Export(name: string)
    | AlternateName(from: string, to: string)
    | Rejected

  /** An object file: parses says whether parse() succeeds. */
  datatype File = File(parses: bool, entries: seq<Entry>, directives: seq<Directive>)

  datatype LazyEntry = LazyEntry(name: string, body: Body)

  datatype Archive = Archive(parses: bool, lazies: seq<LazyEntry>)

  /** What getMember makes of an archive member. */
  datatype Member = Member(file: File) | UnknownType

  datatype Input = AnArchive(a: Archive) | AnObject(f: File)

  /** The files the linker can reach. */
  datatype World = World(members: map<string, Member>, paths: map<string, Input>)

  predicate Defines(entries: seq<Entry>, name: string) {
    exists k :: 0 <= k < |entries| && entries[k].name == name && entries[k].body.Def?
  }

  /** Does one of the entries leave the name undefined? */
  predicate Asks(entries: seq<Entry>, name: string) {
    exists k :: 0 <= k < |entries| && entries[k].name == name && entries[k].body.Und?
  }

  predicate ValidFile(f: File) {
    forall k :: 0 <= k < |f.entries| ==>
      var e := f.entries[k];
      !e.body.Laz? && ValidBody(e.body) && (e.alias.Some? ==> ValidBody(e.alias.value.body))
  }

  predicate ValidBody(b: Body) {
    b.Def? ==> b.d.Defined()
  }

  /** The archive index tells the truth: the member a name is mapped to defines
      that name. */
  predicate Truthful(w: World, name: string, b: Body)
    requires b.Laz?
  {
    b.member in w.members
    && (w.members[b.member].Member? ==> Defines(w.members[b.member].file.entries, name))
  }

  predicate ValidArchive(w: World, a: Archive) {
    forall k :: 0 <= k < |a.lazies| ==>
      a.lazies[k].body.Laz? && Truthful(w, a.lazies[k].name, a.lazies[k].body)
  }

  predicate ValidInput(w: World, i: Input) {
    match i
    case AnArchive(a) => ValidArchive(w, a)
    case AnObject(f) => ValidFile(f)
  }

  predicate ValidWorld(w: World) {
    && (forall m :: m in w.members && w.members[m].Member? ==> ValidFile(w.members[m].file))
    && (forall p :: p in w.paths ==> ValidInput(w, w.paths[p]))
  }

  function AllEntries(files: seq<File>): (es: seq<Entry>) {
    if files == [] then [] else files[0].entries + AllEntries(files[1..])
  }

  lemma {:induction false} AllEntriesAppend(a: seq<File>, b: seq<File>)
    ensures AllEntries(a + b) == AllEntries(a) + AllEntries(b)
  {
    if a == [] {
      assert a + b == b;
    } else {
      assert (a + b)[1..] == a[1..] + b;
      AllEntriesAppend(a[1..], b);
    }
  }

  lemma AllEntriesSnoc(files: seq<File>, f: File)
    ensures AllEntries(files + [f]) == AllEntries(files) + f.entries
  {
    AllEntriesAppend(files, [f]);
    assert AllEntries([f]) == f.entries + [];
  }

  lemma DefinesAppend(a: seq<Entry>, b: seq<Entry>, name: string)
    ensures Defines(a + b, name) <==> Defines(a, name) || Defines(b, name)
  {
    if Defines(a, name) {
      var k :| 0 <= k < |a| && a[k].name == name && a[k].body.Def?;
      assert (a + b)[k] == a[k];
    }
    if Defines(b, name) {
      var k :| 0 <= k < |b| && b[k].name == name && b[k].body.Def?;
      assert (a + b)[|a| + k] == b[k];
    }
  }

  lemma AsksAppend(a: seq<Entry>, b: seq<Entry>, name: string)
    ensures Asks(a + b, name) <==> Asks(a, name) || Asks(b, name)
  {
    if Asks(a, name) {
      var k :| 0 <= k < |a| && a[k].name == name && a[k].body.Und?;
      assert (a + b)[k] == a[k];
    }
    if Asks(b, name) {
      var k :| 0 <= k < |b| && b[k].name == name && b[k].body.Und?;
      assert (a + b)[|a| + k] == b[k];
    }
  }

  class SymbolTable {
    const world: World

    /** Symtab: the current body of every name. */
    var cells: map<string, Body>
    /** WeakAlias of undefined bodies, by their id. */
    var aliases: map<nat, Alias>
    var objectQueue: seq<File>
    var archiveQueue: seq<Archive>
    /** Archive members that getMember has returned, in order. */
    var loaded: seq<string>
    /** Paths that findLib has returned. */
    var visited: set<string>
    var exports: seq<string>
    var alternateNames: map<string, string>
    var nextId: nat
    /** Names for which an undefined body was ever added. */
    ghost var wanted: set<string>
    /** Names whose lazy symbol led to a member of unknown type. */
    ghost var dropped: set<string>
    /** Every object file ever queued, and those whose symbols have been read. */
    ghost var files: set<File>
    ghost var read: set<File>

    constructor (world: World, objects: seq<File>, archives: seq<Archive>)
      requires ValidWorld(world)
      requires forall f :: f in objects ==> ValidFile(f)
      requires forall a :: a in archives ==> ValidArchive(world, a)
      ensures Valid() && this.world == world && files == (set f | f in objects) && read == {} && wanted == {}
      ensures cells == map[] && aliases == map[] && objectQueue == objects && archiveQueue == archives
      ensures loaded == [] && visited == {} && exports == [] && alternateNames == map[]
    {
      this.world := world;
      cells, aliases := map[], map[];
      objectQueue, archiveQueue := objects, archives;
      loaded, visited, exports, alternateNames, nextId := [], {}, [], map[], 0;
      wanted, dropped, files, read := {}, {}, set f | f in objects, {};
      new;
      forall f, n | f in files && Defines(f.entries, n) ensures Defines(AllEntries(objectQueue), n) {
        QueuedCounts(objectQueue, f, n);
      }
      forall f, n | f in files && Asks(f.entries, n) ensures Asks(AllEntries(objectQueue), n) {
        QueuedCounts(objectQueue, f, n);
      }
    }

    predicate WellTyped()
      reads this
    {
      && ValidWorld(world)
      && (forall f :: f in objectQueue ==> ValidFile(f))
      && (forall a :: a in archiveQueue ==> ValidArchive(world, a))
      && (forall n :: n in cells ==>
            ValidBody(cells[n]) && (cells[n].Laz? ==> Truthful(world, n, cells[n])))
      && (forall id :: id in aliases ==> ValidBody(aliases[id].body))
      && (forall i, j :: 0 <= i < j < |loaded| ==> loaded[i] != loaded[j])
      && (forall m :: m in loaded ==> m in world.members)
      && visited <= world.paths.Keys
    }

    predicate DefinedName(name: string)
      reads this
    {
      name in cells && cells[name].Def?
    }

    /** The point of the queues, while the entries in todo are still to be added
        and the lazy symbols of the names in accum still to be loaded: a wanted
        name is never left lazy, and no entry of a queued file is lost. */
    ghost predicate Promised(todo: seq<Entry>, accum: set<string>)
      reads this
    {
      && (forall n :: n in wanted ==>
            n in cells && (cells[n].Laz? ==> n in accum || Defines(todo, n) || n in dropped))
      && (forall m :: m in loaded && m in world.members && world.members[m].Member? ==>
            world.members[m].file in files)
      && (forall f, n :: f in files && Defines(f.entries, n) ==> DefinedName(n) || Defines(todo, n))
      && (forall f, n :: f in files && Asks(f.entries, n) ==> n in wanted || Asks(todo, n))
      && (dropped != {} ==> !MembersKnown())
      && forall f :: f in files ==> f in read || f in objectQueue
    }

    /** No member of unknown type has been asked for. */
    predicate MembersKnown()
      reads this
    {
      forall m :: m in loaded ==> m in world.members && world.members[m].Member?
    }

    ghost predicate Valid()
      reads this
      ensures Valid() ==> WellTyped()
    {
      WellTyped() && Promised(AllEntries(objectQueue), {})
    }

    /** Members and paths that can still be turned into queued files. */
    function Budget(): (n: nat)
      requires WellTyped()
      reads this
    {
      SeqSubset(loaded, world.members.Keys);
      SubsetSize(visited, world.paths.Keys);
      |world.members| - |loaded| + |world.paths| - |visited|
    }

    // ----- adding files and members -----

    /** addFile. */
    method AddFile(input: Input)
      requires Valid() && ValidInput(world, input)
      modifies `objectQueue, `archiveQueue, `files
      ensures Valid() && Budget() == old(Budget())
      ensures objectQueue == old(objectQueue) + (if input.AnObject? then [input.f] else [])
      ensures archiveQueue == old(archiveQueue) + (if input.AnArchive? then [input.a] else [])
      ensures files == old(files) + (if input.AnObject? then {input.f} else {})
    {
      hide Asks, Defines, AllEntries, ValidFile, ValidArchive, ValidWorld, Truthful, ValidBody;
      if input.AnArchive? {
        archiveQueue := archiveQueue + [input.a];
      } else {
        MorePromised(AllEntries(objectQueue), input.f.entries, {});
        AllEntriesSnoc(objectQueue, input.f);
        MoreFiles(input.f, objectQueue);
        objectQueue := objectQueue + [input.f];
        files := files + {input.f};
      }
    }

    /** addMemberFile, with getMember's Seen flag: a member already returned
        before is not returned again. */
    method AddMemberFile(name: string, lazy: Body, ghost todo: seq<Entry>, ghost accum: set<string>) returns (ok: bool)
      requires WellTyped() && Promised(todo, accum) && lazy.Laz? && Truthful(world, name, lazy)
      modifies `objectQueue, `loaded, `dropped, `files
      ensures WellTyped() && Budget() <= old(Budget()) && old(objectQueue) <= objectQueue
      ensures objectQueue == old(objectQueue) || Budget() < old(Budget())
      ensures var all := todo + AllEntries(objectQueue[|old(objectQueue)|..]);
        Promised(all, accum) && (DefinedName(name) || Defines(all, name) || name in dropped)
      ensures ok == (world.members[lazy.member].Member? || lazy.member in old(loaded))
      ensures loaded == old(loaded) + (if lazy.member in old(loaded) then [] else [lazy.member])
      ensures objectQueue == old(objectQueue) + Fetched(lazy.member, old(loaded)) && old(files) <= files
    {
      hide Asks, Defines;
      ghost var queued := |objectQueue|;
      assert objectQueue[queued..] == [] && AllEntries(objectQueue[queued..]) == [] && todo + [] == todo;
      var member := world.members[lazy.member];
      if member.UnknownType? {
        ok := DropMember(name, lazy.member, todo, accum);
      } else {
        if lazy.member !in loaded {
          QueueMember(lazy.member, todo, accum);
        }
        ok := true;
        MemberPromise(lazy.member, name, todo + AllEntries(objectQueue[queued..]), accum);
      }
    }

    /** The file a first request for a member queues, if its type is known. */
    function Fetched(m: string, before: seq<string>): (files: seq<File>)
      requires m in world.members
    {
      if m in before || world.members[m].UnknownType? then [] else [world.members[m].file]
    }

    lemma MemberPromise(m: string, name: string, todo: seq<Entry>, accum: set<string>)
      requires Promised(todo, accum) && m in loaded && m in world.members && world.members[m].Member?
      requires Defines(world.members[m].file.entries, name)
      ensures DefinedName(name) || Defines(todo, name)
    {
    }

    /** getMember of a member of unknown type: an error the first time. */
    method DropMember(name: string, m: string, ghost todo: seq<Entry>, ghost accum: set<string>) returns (ok: bool)
      requires WellTyped() && Promised(todo, accum) && m in world.members && world.members[m].UnknownType?
      modifies `loaded, `dropped
      ensures WellTyped() && Promised(todo, accum) && Budget() <= old(Budget())
      ensures dropped == old(dropped) + {name} && m in loaded
      ensures ok == (m in old(loaded)) && loaded == old(loaded) + (if m in old(loaded) then [] else [m])
    {
      hide SymbolTable.WellTyped, SymbolTable.Promised, SymbolTable.Budget;
      ok := m in loaded;
      if !ok {
        SeeUnknown(m, todo, accum);
      }
      Drop(name, m, todo, accum);
    }

    method SeeUnknown(m: string, ghost todo: seq<Entry>, ghost accum: set<string>)
      requires WellTyped() && Promised(todo, accum) && m in world.members && world.members[m].UnknownType?
      requires m !in loaded
      modifies `loaded
      ensures WellTyped() && Promised(todo, accum) && Budget() <= old(Budget()) && loaded == old(loaded) + [m]
    {
      hide Asks, Defines, ValidFile, ValidArchive, ValidWorld, Truthful, ValidBody;
      loaded := loaded + [m];
      assert m in loaded;
    }

    ghost method Drop(name: string, m: string, todo: seq<Entry>, accum: set<string>)
      requires WellTyped() && Promised(todo, accum) && m in world.members && world.members[m].UnknownType?
      requires m in loaded
      modifies `dropped
      ensures WellTyped() && Promised(todo, accum) && Budget() == old(Budget()) && dropped == old(dropped) + {name}
    {
      hide Asks, Defines, ValidFile, ValidArchive, ValidWorld, Truthful, ValidBody;
      dropped := dropped + {name};
    }

    /** getMember returns the member for the first time and addFile queues it. */
    method QueueMember(m: string, ghost todo: seq<Entry>, ghost accum: set<string>)
      requires WellTyped() && Promised(todo, accum)
      requires m in world.members && world.members[m].Member? && m !in loaded
      modifies `objectQueue, `loaded, `files
      ensures WellTyped() && Budget() < old(Budget())
      ensures loaded == old(loaded) + [m] && objectQueue == old(objectQueue) + [world.members[m].file]
      ensures files == old(files) + {world.members[m].file}
      ensures Promised(todo + AllEntries(objectQueue[|old(objectQueue)|..]), accum)
    {
      hide Asks, Defines;
      ghost var queued := |objectQueue|;
      var file := world.members[m].file;
      loaded := loaded + [m];
      objectQueue := objectQueue + [file];
      files := files + {file};
      assert objectQueue[queued..] == [file];
      assert AllEntries([file]) == file.entries by {
        assert [file][1..] == [];
        assert file.entries + [] == file.entries;
      }
      forall n ensures Defines(todo + file.entries, n) <==> Defines(todo, n) || Defines(file.entries, n) {
        DefinesAppend(todo, file.entries, n);
      }
      forall n ensures Asks(todo + file.entries, n) <==> Asks(todo, n) || Asks(file.entries, n) {
        AsksAppend(todo, file.entries, n);
      }
      hide Asks;
    }

    // ----- adding symbols -----

    /** repl(): the current body of the name, if the body has one. */
    function Repl(a: Alias): (b: Body)
      reads this
    {
      ReplIn(cells, a)
    }

    /** A body as compare sees it. */
    function View(b: Body): (v: P.Body)
      reads this
      ensures b.Def? ==> v == b.d
      ensures b.Und? ==> v.Undefined?
    {
      match b
      case Def(d) => d
      case Und(id) => P.Undefined(id, if id in aliases then Some(IdOf(Repl(aliases[id]))) else None)
      case Laz(id, fileIndex, _) => P.Lazy(id, fileIndex)
    }

    /** A new body takes the cell. */
    method Install(e: Entry, ghost rest: seq<Entry>, ghost accum: set<string>)
      requires WellTyped() && Promised([e] + rest, accum)
      requires !e.body.Laz? && ValidBody(e.body)
      requires DefinedName(e.name) ==> e.body.Def?
      modifies `cells, `wanted
      ensures WellTyped() && Promised(rest, accum)
      ensures cells == old(cells)[e.name := e.body] && wanted == old(wanted) + Wanted(e) && old(files) <= files && Budget() == old(Budget())
    {
      FirstDefines(e, rest);
      hide Asks, Defines, ValidFile, ValidArchive, ValidWorld;
      cells := cells[e.name := e.body];
      wanted := wanted + Wanted(e);
    }

    /** The new body loses and the cell stays. */
    ghost method Discard(e: Entry, rest: seq<Entry>, accum: set<string>)
      requires WellTyped() && Promised([e] + rest, accum) && e.name in cells
      requires if e.body.Def? then DefinedName(e.name)
               else !cells[e.name].Laz?
      modifies `wanted
      ensures WellTyped() && Promised(rest, accum) && wanted == old(wanted) + Wanted(e) && old(files) <= files && Budget() == old(Budget())
    {
      FirstDefines(e, rest);
      hide Asks, Defines, ValidFile, ValidArchive, ValidWorld, Truthful;
      wanted := wanted + Wanted(e);
    }

    /** What addSymbol decides about a body and one already in the cell. */
    function Verdict(existing: Body, new_: Body): (d: R.Decision)
      requires ValidBody(existing) && ValidBody(new_) && !new_.Laz?
      reads this
    {
      R.DecideSymbol(View(existing), View(new_))
    }

    /** A call of addSymbol that takes effect in one step of Resolution: the table
        after it, the member it asks for, and whether it succeeds. A duplicate
        definition fails, and so does a first request for a member of unknown
        type. */
    twostate predicate SymbolAdded(e: Entry, ok: bool)
      requires old(WellTyped()) && ValidBody(e.body) && !e.body.Laz?
      reads this
    {
      if e.name !in old(cells) then
        ok && cells == old(cells)[e.name := e.body] && objectQueue == old(objectQueue) && loaded == old(loaded)
      else
        var existing := old(cells)[e.name];
        if existing == e.body then
          ok && cells == old(cells) && objectQueue == old(objectQueue) && loaded == old(loaded)
        else
          var d := old(Verdict(cells[e.name], e.body));
          && cells == (if d.replace then old(cells)[e.name := e.body] else old(cells))
          && if d.outcome.LoadMember? && existing.Laz? && existing.member in world.members then
               && ok == (world.members[existing.member].Member? || existing.member in old(loaded))
               && loaded == old(loaded) + (if existing.member in old(loaded) then [] else [existing.member])
               && objectQueue == old(objectQueue) + Fetched(existing.member, old(loaded))
             else ok == (d.outcome != R.Duplicate) && objectQueue == old(objectQueue) && loaded == old(loaded)
    }

    /** The call fails where the name has another body, not a lazy one, and one of
        the two must go. Apart from that it fails only where it is the first to want
        a member of unknown type. */
    twostate lemma FailsExactlyWhen(e: Entry, ok: bool)
      requires old(WellTyped()) && ValidBody(e.body) && !e.body.Laz? && SymbolAdded(e, ok)
      ensures e.name in old(cells) && !old(cells)[e.name].Laz? ==>
        ok == (old(cells)[e.name] == e.body || !P.Clash(old(View(cells[e.name])), old(View(e.body))))
      ensures e.name in old(cells) && old(cells)[e.name].Laz? && !ok ==>
        && e.body.Und? && e.body.id !in old(aliases)
        && old(cells)[e.name].member in world.members && old(cells)[e.name].member !in old(loaded)
        && world.members[old(cells)[e.name].member].UnknownType?
      ensures e.name !in old(cells) ==> ok
      ensures !ok ==> cells == old(cells) && objectQueue == old(objectQueue)
    {
      hide P.Clash, P.Compare, Defines;
      if e.name in old(cells) {
        R.DuplicateExactlyWhen(old(View(cells[e.name])), old(View(e.body)));
      }
    }

    method AddSymbol(e: Entry, ghost rest: seq<Entry>, ghost accum: set<string>) returns (ok: bool)
      requires WellTyped() && Promised([e] + rest, accum)
      requires !e.body.Laz? && ValidBody(e.body)
      modifies `cells, `objectQueue, `loaded, `wanted, `dropped, `files
      ensures WellTyped() && Budget() <= old(Budget()) && old(objectQueue) <= objectQueue
      ensures (objectQueue == old(objectQueue) || Budget() < old(Budget())) && old(files) <= files
      ensures ok || Certain(e) ==> Promised(rest + AllEntries(objectQueue[|old(objectQueue)|..]), accum)
      ensures ok || Certain(e) ==> e.name in cells && wanted == old(wanted) + Wanted(e) && old(files) <= files
      ensures SymbolAdded(e, ok)
      ensures e.name in old(cells) && !old(cells)[e.name].Laz? ==>
        ok == (old(cells)[e.name] == e.body || !P.Clash(old(View(cells[e.name])), old(View(e.body))))
    {
      ghost var queued := |objectQueue|;
      assert objectQueue[queued..] == [] && AllEntries(objectQueue[queued..]) == [] && rest + [] == rest;
      hide ValidFile, ValidArchive, ValidWorld, Truthful, Asks, Defines, P.Compare, P.Clash, SymbolTable.WellTyped, SymbolTable.Promised, AllEntries, SymbolTable.Budget;
      if e.name !in cells {
        Install(e, rest, accum);
        ok := true;
      } else {
        ok := AddToCell(e, rest, accum);
      }
    }

    /** addSymbol where the name has a body already. */
    method AddToCell(e: Entry, ghost rest: seq<Entry>, ghost accum: set<string>) returns (ok: bool)
      requires WellTyped() && Promised([e] + rest, accum) && e.name in cells
      requires !e.body.Laz? && ValidBody(e.body)
      modifies `cells, `objectQueue, `loaded, `wanted, `dropped, `files
      ensures WellTyped() && Budget() <= old(Budget()) && old(objectQueue) <= objectQueue
      ensures (objectQueue == old(objectQueue) || Budget() < old(Budget())) && old(files) <= files
      ensures ok || Certain(e) ==> Promised(rest + AllEntries(objectQueue[|old(objectQueue)|..]), accum)
      ensures ok || Certain(e) ==> e.name in cells && wanted == old(wanted) + Wanted(e) && old(files) <= files
      ensures SymbolAdded(e, ok)
      ensures !old(cells)[e.name].Laz? ==>
        ok == (old(cells)[e.name] == e.body || !P.Clash(old(View(cells[e.name])), old(View(e.body))))
    {
      hide Asks, Defines, AllEntries, P.Clash, SymbolTable.WellTyped, SymbolTable.Promised, SymbolTable.Budget, SymbolTable.SymbolAdded;
      assert objectQueue[|objectQueue|..] == [] && rest + AllEntries([]) == rest by { NoEntries(rest); }
      CellFacts(e.name);
      if cells[e.name] == e.body {
        AddKnown(e, rest, accum);
        ok := true;
      } else if cells[e.name].Laz? {
        ok := AddToLazy(e, rest, accum);
      } else {
        ok := Contest(e, rest, accum);
      }
    }

    lemma NoEntries(rest: seq<Entry>)
      ensures rest + AllEntries([]) == rest
    {
    }

    /** The body is in the cell already. */
    ghost method AddKnown(e: Entry, rest: seq<Entry>, accum: set<string>)
      requires WellTyped() && Promised([e] + rest, accum) && !e.body.Laz? && ValidBody(e.body)
      requires e.name in cells && cells[e.name] == e.body
      modifies `wanted
      ensures WellTyped() && Promised(rest, accum) && wanted == old(wanted) + Wanted(e) && old(files) <= files && Budget() == old(Budget())
      ensures SymbolAdded(e, true)
    {
      hide Asks, Defines, SymbolTable.WellTyped, SymbolTable.Promised, SymbolTable.Budget, SymbolTable.Verdict;
      Discard(e, rest, accum);
    }

    /** A lazy body gives way, unless its member is what is wanted. */
    method AddToLazy(e: Entry, ghost rest: seq<Entry>, ghost accum: set<string>) returns (ok: bool)
      requires WellTyped() && Promised([e] + rest, accum) && !e.body.Laz? && ValidBody(e.body)
      requires e.name in cells && cells[e.name].Laz? && Truthful(world, e.name, cells[e.name])
      modifies `cells, `objectQueue, `loaded, `wanted, `dropped, `files
      ensures WellTyped() && Budget() <= old(Budget()) && old(objectQueue) <= objectQueue
      ensures objectQueue == old(objectQueue) || Budget() < old(Budget())
      ensures Promised(rest + AllEntries(objectQueue[|old(objectQueue)|..]), accum)
      ensures e.name in cells && wanted == old(wanted) + Wanted(e) && old(files) <= files
      ensures SymbolAdded(e, ok)
    {
      hide Asks, Defines, AllEntries, SymbolTable.WellTyped, SymbolTable.Promised, SymbolTable.Budget;
      if e.body.Und? && e.body.id !in aliases {
        ok := Request(e, rest, accum, cells[e.name]);
      } else {
        assert objectQueue[|objectQueue|..] == [] && rest + AllEntries([]) == rest by { NoEntries(rest); }
        Install(e, rest, accum);
        ok := true;
      }
    }

    /** compare decides between the body in the cell and a new one. */
    method Contest(e: Entry, ghost rest: seq<Entry>, ghost accum: set<string>) returns (ok: bool)
      requires WellTyped() && Promised([e] + rest, accum) && !e.body.Laz? && ValidBody(e.body)
      requires e.name in cells && !cells[e.name].Laz? && ValidBody(cells[e.name]) && cells[e.name] != e.body
      modifies `cells, `wanted
      ensures WellTyped() && Budget() == old(Budget())
      ensures ok || Certain(e) ==> Promised(rest, accum) && e.name in cells && wanted == old(wanted) + Wanted(e)
      ensures Plain(e) ==> ok
      ensures SymbolAdded(e, ok)
      ensures ok == !P.Clash(old(View(cells[e.name])), old(View(e.body)))
    {
      hide Asks, Defines, P.Compare, P.Clash, SymbolTable.WellTyped, SymbolTable.Promised, SymbolTable.Budget;
      var existing := cells[e.name];
      var comp := P.Compare(View(existing), View(e.body));
      P.DuplicatesExactlyWhen(View(existing), View(e.body));
      if existing.Def? && e.body.Und? {
        P.DefinedBeatsUndefined(View(existing), View(e.body));
      } else if existing.Und? && e.body.Def? {
        P.DefinedBeatsUndefined(View(e.body), View(existing));
      } else if existing.Und? && Plain(e) {
        P.PlainUndefinedNeverTies(View(existing), View(e.body));
      }
      if comp < 0 {
        Install(e, rest, accum);
      } else if comp > 0 || e.body.Def? {
        Discard(e, rest, accum);
      }
      ok := comp != 0;
    }

    lemma CellFacts(name: string)
      requires WellTyped() && name in cells
      ensures ValidBody(cells[name]) && (cells[name].Laz? ==> Truthful(world, name, cells[name]))
    {
    }

    /** The weak alias that createWeakExternal has put on an undefined body. */
    method RecordAlias(e: Entry, ghost todo: seq<Entry>, ghost accum: set<string>)
      requires WellTyped() && Promised(todo, accum) && (e.alias.Some? ==> ValidBody(e.alias.value.body))
      modifies `aliases
      ensures WellTyped() && Promised(todo, accum) && Budget() == old(Budget())
      ensures aliases == if e.body.Und? && e.alias.Some? then old(aliases)[e.body.id := e.alias.value] else old(aliases)
    {
      hide Asks, Defines;
      if e.body.Und? && e.alias.Some? {
        aliases := aliases[e.body.id := e.alias.value];
      }
    }

    /** An undefined body without a weak alias. */
    predicate Plain(e: Entry)
      reads this
    {
      e.body.Und? && e.alias.None? && e.body.id !in aliases
    }

    /** Adding the entry loses no promise even if it fails. */
    predicate Certain(e: Entry)
      reads this
    {
      Plain(e) || e.body.Def?
    }

    /** An undefined symbol meets a lazy one: the member is read. */
    method Request(e: Entry, ghost rest: seq<Entry>, ghost accum: set<string>, lazy: Body) returns (ok: bool)
      requires WellTyped() && Promised([e] + rest, accum) && e.body.Und?
      requires e.name in cells && cells[e.name] == lazy && lazy.Laz?
      modifies `objectQueue, `loaded, `wanted, `dropped, `files
      ensures WellTyped() && Budget() <= old(Budget()) && old(objectQueue) <= objectQueue
      ensures objectQueue == old(objectQueue) || Budget() < old(Budget())
      ensures Promised(rest + AllEntries(objectQueue[|old(objectQueue)|..]), accum)
      ensures wanted == old(wanted) + Wanted(e) && old(files) <= files && lazy.member in world.members
      ensures ok == (world.members[lazy.member].Member? || lazy.member in old(loaded))
      ensures loaded == old(loaded) + (if lazy.member in old(loaded) then [] else [lazy.member])
      ensures objectQueue == old(objectQueue) + Fetched(lazy.member, old(loaded))
    {
      hide Asks, Defines, AllEntries;
      hide SymbolTable.WellTyped, SymbolTable.Promised, SymbolTable.Budget;
      ghost var queued := |objectQueue|;
      CellFacts(e.name);
      ok := AddMemberFile(e.name, lazy, [e] + rest, accum);
      ghost var more := AllEntries(objectQueue[queued..]);
      assert [e] + rest + more == [e] + (rest + more);
      Asked(e, rest + more, accum);
    }

    /** An undefined entry is done with once what its name waits for is queued. */
    ghost method Asked(e: Entry, rest: seq<Entry>, accum: set<string>)
      requires WellTyped() && Promised([e] + rest, accum) && e.body.Und? && e.name in cells
      requires DefinedName(e.name) || Defines([e] + rest, e.name) || e.name in dropped
      modifies `wanted
      ensures WellTyped() && Promised(rest, accum) && wanted == old(wanted) + Wanted(e) && old(files) <= files && Budget() == old(Budget())
    {
      FirstDefines(e, rest);
      hide Asks, Defines, ValidFile, ValidArchive, ValidWorld, Truthful;
      wanted := wanted + Wanted(e);
    }

    /** The lazy symbol has been offered: the name is defined, or lazy with the
        earliest archive seen so far. */
    predicate Offered(l: LazyEntry)
      requires l.body.Laz?
      reads `cells
    {
      l.name in cells
      && (cells[l.name].Def? || (cells[l.name].Laz? && cells[l.name].fileIndex <= l.body.fileIndex))
    }

    /** addLazy. The names whose undefined body was replaced are collected. */
    method AddLazy(l: LazyEntry, accum: set<string>, ghost todo: seq<Entry>) returns (accum': set<string>)
      requires WellTyped() && Promised(todo, accum) && l.body.Laz? && Truthful(world, l.name, l.body)
      requires forall n :: n in accum ==> n in cells && cells[n].Laz?
      modifies `cells
      ensures WellTyped() && Promised(todo, accum')
      ensures forall n :: n in accum' ==> n in cells && cells[n].Laz?
      ensures l.name !in old(cells) ==> cells == old(cells)[l.name := l.body] && accum' == accum
      ensures l.name in old(cells) ==>
        var d := old(R.DecideLazy(View(cells[l.name]), View(l.body)));
        && cells == (if old(cells)[l.name] != l.body && d.replace then old(cells)[l.name := l.body] else old(cells))
        && accum' == accum + (if old(cells)[l.name] != l.body && d.outcome.LoadLater? then {l.name} else {})
      ensures cells == WithLazy(old(cells), l)
      ensures Offered(l) && Budget() == old(Budget())
      ensures forall l': LazyEntry :: l'.body.Laz? && old(Offered(l')) ==> Offered(l')
    {
      hide Asks, Defines, SymbolTable.WellTyped, SymbolTable.Promised, SymbolTable.Budget;
      accum' := accum;
      if l.name !in cells {
        InstallLazy(l, accum, todo);
        return;
      }
      CellFacts(l.name);
      var existing := cells[l.name];
      if existing.Def? || existing == l.body {
        return;
      }
      if existing.Laz? && existing.fileIndex < l.body.fileIndex {
        return;
      }
      InstallLazy(l, accum, todo);
      if existing.Und? {
        accum' := accum + {l.name};
      }
    }

    /** A lazy body takes the cell. */
    method InstallLazy(l: LazyEntry, ghost accum: set<string>, ghost todo: seq<Entry>)
      requires WellTyped() && Promised(todo, accum) && l.body.Laz? && Truthful(world, l.name, l.body)
      requires l.name in cells ==> cells[l.name].Und? || (cells[l.name].Laz? && cells[l.name].fileIndex >= l.body.fileIndex)
      modifies `cells
      ensures WellTyped() && Budget() == old(Budget()) && cells == old(cells)[l.name := l.body]
      ensures Promised(todo, if l.name in old(cells) && old(cells)[l.name].Und? then accum + {l.name} else accum)
      ensures forall l': LazyEntry :: l'.body.Laz? && old(Offered(l')) ==> Offered(l')
    {
      hide Asks, Defines, ValidFile, ValidArchive, ValidWorld;
      cells := cells[l.name := l.body];
    }

    // ----- the queues -----

    lemma QueueTail(queue: seq<File>, more: seq<File>, i: nat)
      requires i <= |queue|
      ensures AllEntries((queue + more)[i..]) == AllEntries(queue[i..]) + AllEntries(more)
    {
      assert (queue + more)[i..] == queue[i..] + more;
      AllEntriesAppend(queue[i..], more);
    }

    /** The symbols of one queued file. Loading members appends to the queue. */
    method ReadObject(i: nat) returns (ok: bool)
      requires i < |objectQueue| && WellTyped() && Promised(AllEntries(objectQueue[i..]), {})
      modifies `cells, `aliases, `objectQueue, `loaded, `wanted, `dropped, `files
      ensures WellTyped() && old(objectQueue) <= objectQueue && Budget() <= old(Budget())
      ensures objectQueue == old(objectQueue) || Budget() < old(Budget())
      ensures ok ==> Promised(AllEntries(objectQueue[i + 1..]), {}) && old(wanted) <= wanted && old(files) <= files
      ensures ok ==> objectQueue[i].parses
    {
      var file := objectQueue[i];
      if !file.parses {
        return false;
      }
      assert ValidFile(file);
      hide Asks, Defines, AllEntries, SymbolTable.WellTyped, SymbolTable.Promised, SymbolTable.Budget;
      ghost var queue0, budget0 := objectQueue, Budget();
      assert file.entries[0..] == file.entries;
      TailEntries(objectQueue, i);
      for j := 0 to |file.entries|
        invariant WellTyped() && Budget() <= budget0 && queue0 <= objectQueue
        invariant objectQueue == queue0 || Budget() < budget0
        invariant Promised(file.entries[j..] + AllEntries(objectQueue[i + 1..]), {}) && old(wanted) <= wanted && old(files) <= files
      {
        ok := ReadEntry(file.entries, j, i);
        if !ok {
          return;
        }
      }
      assert file.entries[|file.entries|..] + AllEntries(objectQueue[i + 1..]) == AllEntries(objectQueue[i + 1..]);
      ok := true;
    }

    method ReadEntry(entries: seq<Entry>, j: nat, ghost i: nat) returns (ok: bool)
      requires WellTyped() && j < |entries| && i < |objectQueue|
      requires Promised(entries[j..] + AllEntries(objectQueue[i + 1..]), {})
      requires !entries[j].body.Laz? && ValidBody(entries[j].body)
      requires entries[j].alias.Some? ==> ValidBody(entries[j].alias.value.body)
      modifies `cells, `aliases, `objectQueue, `loaded, `wanted, `dropped, `files
      ensures WellTyped() && Budget() <= old(Budget()) && old(objectQueue) <= objectQueue
      ensures objectQueue == old(objectQueue) || Budget() < old(Budget())
      ensures ok ==> Promised(entries[j + 1..] + AllEntries(objectQueue[i + 1..]), {}) && old(wanted) <= wanted && old(files) <= files
    {
      hide Asks, Defines, AllEntries, SymbolTable.WellTyped, SymbolTable.Promised, SymbolTable.Budget, SymbolTable.SymbolAdded;
      var e := entries[j];
      ghost var queue := objectQueue;
      ghost var rest := entries[j + 1..] + AllEntries(objectQueue[i + 1..]);
      assert entries[j..] + AllEntries(objectQueue[i + 1..]) == [e] + rest;
      RecordAlias(e, [e] + rest, {});
      ok := AddSymbol(e, rest, {});
      if ok {
        ghost var more := objectQueue[|queue|..];
        assert objectQueue == queue + more;
        QueueTail(queue, more, i + 1);
        assert rest + AllEntries(more) == entries[j + 1..] + AllEntries(objectQueue[i + 1..]);
      }
    }

    lemma TailEntries(queue: seq<File>, i: nat)
      requires i < |queue|
      ensures AllEntries(queue[i..]) == queue[i].entries + AllEntries(queue[i + 1..])
    {
      assert queue[i..][1..] == queue[i + 1..];
    }

    /** A directive has had its effect. */
    ghost predicate Obeyed(d: Directive)
      reads this
    {
      match d
      case DefaultLib(path) => path in visited
      case Include(name) => name in wanted
      case Export(name) => name in exports
      case AlternateName(from, to) => from in alternateNames && alternateNames[from] == to
      case Rejected => false
    }

    predicate Collected(f: File, directives: seq<Directive>) {
      f.parses && forall d :: d in f.directives ==> d in directives
    }

    /** The file was read without an error and its directives were obeyed. */
    ghost predicate Processed(f: File)
      reads this
    {
      f.parses && forall d :: d in f.directives ==> Obeyed(d)
    }

    /** readObjects: the queue may grow while it is read; directives come last. */
    method ReadObjects() returns (ok: bool)
      requires Valid()
      modifies this
      ensures WellTyped() && Budget() <= old(Budget())
      ensures ok ==> Valid() && old(wanted) <= wanted && old(files) <= files && old(read) <= read
      ensures ok ==> Budget() < old(Budget()) || (objectQueue == [] && archiveQueue == old(archiveQueue))
      ensures ok ==> forall f :: f in old(objectQueue) ==> Processed(f)
      ensures ok ==> forall f :: f in read ==> f in old(read) || Processed(f)
      ensures ok ==> forall d :: old(Obeyed(d)) ==> Obeyed(d)
      ensures old(objectQueue) == [] ==> ok && SameTable()
    {
      if objectQueue == [] {
        return true;
      }
      var directives;
      ok, directives := ReadQueue();
      if ok {
        ok := ParseDirectives(directives);
      }
    }

    /** The table, the queues and the options are as they were. */
    twostate predicate SameTable()
      reads this
    {
      && cells == old(cells) && aliases == old(aliases) && objectQueue == old(objectQueue)
      && archiveQueue == old(archiveQueue) && loaded == old(loaded) && visited == old(visited)
      && exports == old(exports) && alternateNames == old(alternateNames) && wanted == old(wanted) && files == old(files)
    }

    method ReadQueue() returns (ok: bool, directives: seq<Directive>)
      requires Valid()
      modifies `cells, `aliases, `objectQueue, `loaded, `wanted, `dropped, `files, `read
      ensures WellTyped() && Budget() <= old(Budget())
      ensures ok ==> Valid() && objectQueue == [] && old(files) <= files && files <= read
      ensures ok ==> forall f :: f in read ==> f in old(read) || Collected(f, directives)
      ensures ok ==> forall f :: f in old(objectQueue) ==> Collected(f, directives)
      ensures ok ==> old(wanted) <= wanted && old(read) <= read
    {
      hide Asks, Defines, AllEntries, SymbolTable.WellTyped, SymbolTable.Promised, SymbolTable.Budget;
      var i := 0;
      directives := [];
      assert objectQueue[0..] == objectQueue;
      while i < |objectQueue|
        invariant i <= |objectQueue| && old(objectQueue) <= objectQueue
        invariant WellTyped() && Promised(AllEntries(objectQueue[i..]), {})
        invariant Budget() <= old(Budget()) && read == old(read)
        invariant old(wanted) <= wanted && old(files) <= files
        invariant forall k :: 0 <= k < i ==> Collected(objectQueue[k], directives)
        decreases Budget(), |objectQueue| - i
      {
        var file := objectQueue[i];
        ghost var queue, before := objectQueue, directives;
        ok := ReadObject(i);
        if !ok {
          return;
        }
        directives := directives + file.directives;
        forall k | 0 <= k <= i ensures Collected(objectQueue[k], directives) {
          assert objectQueue[k] == queue[k];
          assert k < i ==> Collected(queue[k], before);
        }
        i := i + 1;
      }
      assert objectQueue[i..] == [];
      AllQueued();
      ClearQueue();
      ok := true;
    }

    lemma AllQueued()
      requires Promised(AllEntries([]), {})
      ensures forall f :: f in files ==> f in read || f in objectQueue
    {
    }

    method ClearQueue()
      requires WellTyped() && Promised(AllEntries([]), {})
      modifies `objectQueue, `read
      ensures Valid() && Budget() == old(Budget()) && objectQueue == [] && read == old(read) + files
    {
      hide Asks, Defines, AllEntries, ValidArchive, ValidWorld, Truthful;
      objectQueue := [];
      read := read + files;
    }

    method ParseDirectives(directives: seq<Directive>) returns (ok: bool)
      requires Valid() && objectQueue == []
      modifies `cells, `objectQueue, `archiveQueue, `loaded, `visited, `exports, `alternateNames, `nextId, `wanted, `dropped, `files
      ensures Valid() && Budget() <= old(Budget()) && old(wanted) <= wanted && old(files) <= files
      ensures Budget() < old(Budget()) || (objectQueue == [] && archiveQueue == old(archiveQueue))
      ensures ok ==> forall d :: d in directives ==> Obeyed(d)
      ensures forall d :: old(Obeyed(d)) ==> Obeyed(d)
    {
      hide Asks, Defines, AllEntries, SymbolTable.Valid, SymbolTable.Obeyed;
      for j := 0 to |directives|
        invariant Valid() && Budget() <= old(Budget()) && old(wanted) <= wanted && old(files) <= files
        invariant Budget() < old(Budget()) || (objectQueue == [] && archiveQueue == old(archiveQueue))
        invariant forall k :: 0 <= k < j ==> Obeyed(directives[k])
        invariant forall d :: old(Obeyed(d)) ==> Obeyed(d)
      {
        ok := ParseDirective(directives[j]);
        if !ok {
          return;
        }
      }
      ok := true;
    }

    /** parseDirectives, one option. findLib never returns the same path twice;
        addUndefined's error code is ignored. */
    method ParseDirective(d: Directive) returns (ok: bool)
      requires Valid()
      modifies `cells, `objectQueue, `archiveQueue, `loaded, `visited, `exports, `alternateNames, `nextId, `wanted, `dropped, `files
      ensures Valid() && Budget() <= old(Budget()) && old(wanted) <= wanted && old(files) <= files
      ensures Budget() < old(Budget()) || (objectQueue == old(objectQueue) && archiveQueue == old(archiveQueue))
      ensures ok ==> Obeyed(d)
      ensures forall e :: old(Obeyed(e)) ==> Obeyed(e)
    {
      hide Asks, Defines, AllEntries, SymbolTable.WellTyped, SymbolTable.Promised;
      ok := true;
      match d {
        case Rejected => ok := false;
        case Export(name) => AddExport(name);
        case Include(name) => var _ := AddUndefined(name);
        case AlternateName(from, to) =>
          if from in alternateNames && alternateNames[from] != to {
            ok := false;
          } else {
            AddAlternateName(from, to);
          }
        case DefaultLib(path) =>
          if path !in visited {
            ok := path in world.paths;
            if ok {
              VisitPath(path);
            }
          }
      }
    }

    method AddExport(name: string)
      requires Valid()
      modifies `exports
      ensures Valid() && Budget() == old(Budget()) && exports == old(exports) + [name]
    {
      hide Asks, Defines, AllEntries;
      exports := exports + [name];
    }

    method AddAlternateName(from: string, to: string)
      requires Valid()
      modifies `alternateNames
      ensures Valid() && Budget() == old(Budget()) && alternateNames == old(alternateNames)[from := to]
    {
      hide Asks, Defines, AllEntries;
      alternateNames := alternateNames[from := to];
    }

    method VisitPath(path: string)
      requires Valid() && path in world.paths && path !in visited
      modifies `objectQueue, `archiveQueue, `visited, `files
      ensures Valid() && Budget() < old(Budget()) && old(files) <= files && visited == old(visited) + {path}
      ensures objectQueue == old(objectQueue) + (if world.paths[path].AnObject? then [world.paths[path].f] else [])
      ensures archiveQueue == old(archiveQueue) + (if world.paths[path].AnArchive? then [world.paths[path].a] else [])
    {
      hide Asks, Defines, AllEntries, SymbolTable.WellTyped, SymbolTable.Promised, SymbolTable.Budget;
      MarkVisited(path);
      AddFile(world.paths[path]);
    }

    method MarkVisited(path: string)
      requires Valid() && path in world.paths && path !in visited
      modifies `visited
      ensures Valid() && Budget() < old(Budget()) && visited == old(visited) + {path}
      ensures ValidInput(world, world.paths[path])
    {
      hide Asks, Defines, AllEntries, ValidFile, ValidArchive, ValidInput, Truthful;
      visited := visited + {path};
    }

    lemma MoreFiles(f: File, queue: seq<File>)
      ensures forall n :: Defines(f.entries, n) ==> Defines(AllEntries(queue + [f]), n)
      ensures forall n :: Asks(f.entries, n) ==> Asks(AllEntries(queue + [f]), n)
    {
      forall n
        ensures Defines(f.entries, n) ==> Defines(AllEntries(queue + [f]), n)
        ensures Asks(f.entries, n) ==> Asks(AllEntries(queue + [f]), n)
      {
        QueuedCounts(queue + [f], f, n);
      }
    }

    lemma MorePromised(todo: seq<Entry>, more: seq<Entry>, accum: set<string>)
      requires Promised(todo, accum)
      ensures Promised(todo + more, accum)
    {
      forall n ensures Defines(todo, n) ==> Defines(todo + more, n) {
        DefinesAppend(todo, more, n);
      }
      forall n ensures Asks(todo, n) ==> Asks(todo + more, n) {
        AsksAppend(todo, more, n);
      }
      hide Asks, Defines;
    }

    /** What addUndefined leaves: a new body replaces an undefined one that has no
        weak alias; a lazy or defined one stays. */
    twostate predicate UndefinedAdded(name: string, id: nat)
      reads this
    {
      if name in old(cells) && !old(cells)[name].Und? then
        && cells == old(cells)
        && (old(cells)[name].Laz? && old(cells)[name].member in world.members ==>
              objectQueue == old(objectQueue) + Fetched(old(cells)[name].member, old(loaded)))
      else
        && objectQueue == old(objectQueue) && loaded == old(loaded)
        && if name in old(cells) && old(cells)[name].id in old(aliases) then
             cells == old(cells) && id == old(cells)[name].id
           else NewId(old(cells), old(aliases), id) && cells == old(cells)[name := Und(id)]
    }

    /** addUndefined: a new undefined body, whatever addSymbol says. The result
        is the id of the body now in the table, if that is undefined. */
    method AddUndefined(name: string) returns (id: nat)
      requires Valid()
      modifies `cells, `objectQueue, `loaded, `nextId, `wanted, `dropped, `files
      ensures Valid() && Budget() <= old(Budget()) && wanted == old(wanted) + {name} && old(files) <= files
      ensures Budget() < old(Budget()) || objectQueue == old(objectQueue)
      ensures name in cells && UndefinedAdded(name, id)
    {
      hide SymbolTable.Valid, SymbolTable.Budget;
      id := NextId();
      id := AddNewUndefined(name, id);
    }

    method AddNewUndefined(name: string, newId: nat) returns (id: nat)
      requires Valid() && NewId(cells, aliases, newId)
      modifies `cells, `objectQueue, `loaded, `wanted, `dropped, `files
      ensures Valid() && Budget() <= old(Budget()) && wanted == old(wanted) + {name} && old(files) <= files
      ensures Budget() < old(Budget()) || objectQueue == old(objectQueue)
      ensures name in cells && UndefinedAdded(name, id)
    {
      hide Asks, Defines, AllEntries, SymbolTable.WellTyped, SymbolTable.Promised, SymbolTable.Budget;
      id := newId;
      var e := Entry(name, Und(id), None);
      ghost var queue := objectQueue;
      FirstPromised(e, AllEntries(queue), {});
      CellFactsIf(name);
      var _ := AddSymbol(e, AllEntries(queue), {});
      ghost var more := objectQueue[|queue|..];
      assert objectQueue == queue + more;
      AllEntriesAppend(queue, more);
      if cells[name].Und? {
        id := cells[name].id;
      }
    }

    lemma CellFactsIf(name: string)
      requires WellTyped()
      ensures name in cells ==> ValidBody(cells[name]) && (cells[name].Laz? ==> Truthful(world, name, cells[name]))
    {
    }

    lemma FirstPromised(e: Entry, rest: seq<Entry>, accum: set<string>)
      requires Promised(rest, accum)
      ensures Promised([e] + rest, accum)
    {
      FirstDefines(e, rest);
      hide Asks, Defines;
    }

    method NextId() returns (id: nat)
      requires Valid()
      modifies `nextId
      ensures Valid() && Budget() == old(Budget()) && NewId(cells, aliases, id)
    {
      hide Asks, Defines, AllEntries, ValidFile, ValidArchive, ValidWorld, Truthful;
      id := FreshId();
    }

    /** The address of a newly allocated body: that of no body in the table, and
        none that has a weak alias. */
    method FreshId() returns (id: nat)
      modifies `nextId
      ensures NewId(cells, aliases, id)
    {
      id := nextId;
      var used := aliases.Keys + set n | n in cells :: IdOf(cells[n]);
      ghost var left := used;
      while id in used
        invariant forall k: nat :: k in used && k >= id ==> k in left
        decreases left
      {
        left := left - {id};
        id := id + 1;
      }
      nextId := id + 1;
    }

    ghost predicate AllOffered(a: Archive, n: nat)
      requires n <= |a.lazies|
      reads `cells
    {
      forall k :: 0 <= k < n && a.lazies[k].body.Laz? ==> Offered(a.lazies[k])
    }

    /** The lazy symbols of one queued archive. */
    method AddLazies(i: nat, accum: set<string>) returns (accum': set<string>)
      requires WellTyped() && Promised(AllEntries(objectQueue), accum) && i < |archiveQueue|
      requires forall n :: n in accum ==> n in cells && cells[n].Laz?
      modifies `cells
      ensures WellTyped() && Promised(AllEntries(objectQueue), accum') && Budget() == old(Budget())
      ensures forall n :: n in accum' ==> n in cells && cells[n].Laz?
      ensures AllOffered(archiveQueue[i], |archiveQueue[i].lazies|)
      ensures AllLazy(archiveQueue[i].lazies) && cells == WithLazies(old(cells), archiveQueue[i].lazies)
      ensures forall n :: n in accum' ==> n in accum || (n in old(cells) && old(cells)[n].Und?)
      ensures forall l: LazyEntry :: l.body.Laz? && old(Offered(l)) ==> Offered(l)
    {
      hide Asks, Defines, AllEntries, SymbolTable.Promised, SymbolTable.Offered;
      var a := archiveQueue[i];
      accum' := accum;
      assert ValidArchive(world, a);
      for j := 0 to |a.lazies|
        invariant WellTyped() && Promised(AllEntries(objectQueue), accum') && Budget() == old(Budget())
        invariant forall n :: n in accum' ==> n in cells && cells[n].Laz?
        invariant AllOffered(a, j)
        invariant cells == WithLazies(old(cells), a.lazies[..j])
        invariant forall n :: n in accum' ==> n in accum || (n in old(cells) && old(cells)[n].Und?)
        invariant forall l: LazyEntry :: l.body.Laz? && old(Offered(l)) ==> Offered(l)
      {
        accum' := AddLazy(a.lazies[j], accum', AllEntries(objectQueue));
        NoNewUndefined(old(cells), a.lazies[..j]);
        OneMoreLazy(old(cells), a.lazies, j);
      }
      assert a.lazies[..|a.lazies|] == a.lazies;
    }

    /** readArchives: lazy symbols first, then the members that undefined symbols
        wait for. */
    method ReadArchives() returns (ok: bool)
      requires Valid()
      modifies `cells, `objectQueue, `archiveQueue, `loaded, `dropped, `files
      ensures WellTyped() && Budget() <= old(Budget()) && (ok ==> Valid()) && old(files) <= files
      ensures ok ==> archiveQueue == [] && (Budget() < old(Budget()) || objectQueue == old(objectQueue))
      ensures ok ==> forall a :: a in old(archiveQueue) ==> a.parses && AllOffered(a, |a.lazies|)
      ensures ok ==> AllLazy(AllLazies(old(archiveQueue))) && cells == WithLazies(old(cells), AllLazies(old(archiveQueue)))
      ensures (forall a :: a in old(archiveQueue) ==> a.parses) && NoneUndefined(old(cells))
              ==> ok && objectQueue == old(objectQueue) && loaded == old(loaded) && files == old(files)
      ensures old(archiveQueue) == [] ==> ok && SameTable()
    {
      hide Asks, Defines, AllEntries, SymbolTable.WellTyped, SymbolTable.Promised, SymbolTable.Budget, SymbolTable.Offered, WithLazy;
      if archiveQueue == [] {
        assert AllLazies(archiveQueue) == [];
        return true;
      }
      ok := ReadAllArchives();
    }

    method ReadAllArchives() returns (ok: bool)
      requires Valid()
      modifies `cells, `objectQueue, `archiveQueue, `loaded, `dropped, `files
      ensures WellTyped() && Budget() <= old(Budget()) && (ok ==> Valid()) && old(files) <= files
      ensures ok ==> archiveQueue == [] && (Budget() < old(Budget()) || objectQueue == old(objectQueue))
      ensures ok ==> forall a :: a in old(archiveQueue) ==> a.parses && AllOffered(a, |a.lazies|)
      ensures ok ==> AllLazy(AllLazies(old(archiveQueue))) && cells == WithLazies(old(cells), AllLazies(old(archiveQueue)))
      ensures (forall a :: a in old(archiveQueue) ==> a.parses) && NoneUndefined(old(cells))
              ==> ok && objectQueue == old(objectQueue) && loaded == old(loaded) && files == old(files)
    {
      hide Asks, Defines, AllEntries, SymbolTable.WellTyped, SymbolTable.Promised, SymbolTable.Budget, SymbolTable.Offered;
      var accum: set<string> := {};
      for i := 0 to |archiveQueue|
        invariant WellTyped() && Promised(AllEntries(objectQueue), accum) && files == old(files)
        invariant archiveQueue == old(archiveQueue) && objectQueue == old(objectQueue) && Budget() == old(Budget())
        invariant loaded == old(loaded)
        invariant forall n :: n in accum ==> n in cells && cells[n].Laz? && n in old(cells) && old(cells)[n].Und?
        invariant AllLazy(AllLazies(archiveQueue[..i])) && cells == WithLazies(old(cells), AllLazies(archiveQueue[..i]))
        invariant forall k :: 0 <= k < i ==> archiveQueue[k].parses && AllOffered(archiveQueue[k], |archiveQueue[k].lazies|)
      {
        var a := archiveQueue[i];
        if !a.parses {
          return false;
        }
        ghost var before := AllLazies(archiveQueue[..i]);
        NoNewUndefined(old(cells), before);
        accum := AddLazies(i, accum);
        OneMoreArchive(archiveQueue, i);
        LaziesAppend(old(cells), before, a.lazies);
      }
      assert archiveQueue[..|archiveQueue|] == archiveQueue;
      ClearArchives(accum);
      ok := LoadAll(accum);
    }

    /** The members that the names on the list wait for. */
    method LoadAll(names: set<string>) returns (ok: bool)
      requires WellTyped() && Promised(AllEntries(objectQueue), names) && archiveQueue == []
      requires forall n :: n in names ==> n in cells && cells[n].Laz?
      modifies `objectQueue, `loaded, `dropped, `files
      ensures WellTyped() && Budget() <= old(Budget()) && (ok ==> Valid()) && old(files) <= files
      ensures ok ==> Budget() < old(Budget()) || objectQueue == old(objectQueue)
      ensures names == {} ==> ok && objectQueue == old(objectQueue) && loaded == old(loaded) && files == old(files)
    {
      hide Asks, Defines, AllEntries, SymbolTable.WellTyped, SymbolTable.Promised, SymbolTable.Budget;
      var accum := names;
      while accum != {}
        invariant WellTyped() && Promised(AllEntries(objectQueue), accum) && accum <= names && old(files) <= files
        invariant Budget() < old(Budget()) || (objectQueue == old(objectQueue) && Budget() == old(Budget()))
        invariant names == {} ==> objectQueue == old(objectQueue) && loaded == old(loaded) && files == old(files)
        decreases accum
      {
        var n :| n in accum;
        ok := LoadAccumulated(n, accum);
        if !ok {
          return;
        }
        accum := accum - {n};
      }
      ok := true;
    }

    method ClearArchives(ghost accum: set<string>)
      requires WellTyped() && Promised(AllEntries(objectQueue), accum)
      modifies `archiveQueue
      ensures WellTyped() && Promised(AllEntries(objectQueue), accum)
      ensures archiveQueue == [] && Budget() == old(Budget())
    {
      hide Asks, Defines, AllEntries, ValidFile, ValidWorld, Truthful;
      archiveQueue := [];
    }

    /** The cast<Lazy> of readArchives never fails: the cell is still lazy. */
    method LoadAccumulated(name: string, ghost accum: set<string>) returns (ok: bool)
      requires WellTyped() && Promised(AllEntries(objectQueue), accum)
      requires name in accum && name in cells && cells[name].Laz?
      modifies `objectQueue, `loaded, `dropped, `files
      ensures WellTyped() && Promised(AllEntries(objectQueue), accum - {name}) && old(files) <= files
      ensures Budget() < old(Budget()) || (objectQueue == old(objectQueue) && Budget() <= old(Budget()))
    {
      hide Asks, Defines, AllEntries;
      ghost var queue := objectQueue;
      ok := AddMemberFile(name, cells[name], AllEntries(queue), accum);
      ghost var more := objectQueue[|queue|..];
      assert objectQueue == queue + more;
      AllEntriesAppend(queue, more);
    }

    predicate QueueEmpty()
      reads this
    {
      objectQueue == [] && archiveQueue == []
    }

    method Step() returns (ok: bool)
      requires Valid()
      modifies this
      ensures WellTyped() && Budget() <= old(Budget())
      ensures ok ==> Valid() && old(wanted) <= wanted && old(files) <= files && old(read) <= read
      ensures ok ==> Budget() < old(Budget()) || QueueEmpty()
      ensures ok ==> forall f :: f in read ==> f in old(read) || Processed(f)
      ensures ok ==> forall d :: old(Obeyed(d)) ==> Obeyed(d)
      ensures old(QueueEmpty()) ==> ok && SameTable()
      ensures old(objectQueue == [] && NoneUndefined(cells) && forall a :: a in archiveQueue ==> a.parses) ==>
                ok && QueueEmpty() && exports == old(exports) && alternateNames == old(alternateNames)
                && AllLazy(AllLazies(old(archiveQueue))) && cells == WithLazies(old(cells), AllLazies(old(archiveQueue)))
    {
      hide SymbolTable.Valid, SymbolTable.WellTyped, SymbolTable.Promised, SymbolTable.Budget;
      ok := ReadObjects();
      if ok {
        ok := ReadArchives();
      }
    }

    /** Every file read was processed. */
    ghost predicate AllProcessed()
      reads this
    {
      forall f :: f in read ==> Processed(f)
    }

    /** run: step until both queues are empty. It ends, because every step either
        spends a member or a path for good or leaves the queues empty. */
    method Run() returns (ok: bool)
      requires Valid() && AllProcessed()
      modifies this
      ensures WellTyped() && Budget() <= old(Budget())
      ensures ok ==> Valid() && QueueEmpty() && old(wanted) <= wanted && old(files) <= files
      ensures ok ==> AllProcessed() && files <= read
      ensures ok ==> forall d :: old(Obeyed(d)) ==> Obeyed(d)
      ensures old(QueueEmpty()) ==> ok && SameTable()
    {
      hide SymbolTable.Valid, SymbolTable.WellTyped, SymbolTable.Promised, SymbolTable.Budget;
      ok := true;
      while !QueueEmpty()
        invariant Valid() && AllProcessed() && Budget() <= old(Budget()) && old(wanted) <= wanted && old(files) <= files
        invariant forall d :: old(Obeyed(d)) ==> Obeyed(d)
        invariant old(QueueEmpty()) ==> SameTable()
        decreases Budget(), QueueEmpty() == false
      {
        ok := Step();
        if !ok {
          return;
        }
      }
      NothingQueued();
    }

    lemma NothingQueued()
      requires Valid() && QueueEmpty()
      ensures forall f :: f in files ==> f in read
    {
    }

    // ----- the driver's loop -----

    /** mangleMaybe: give an unresolved symbol the first name in the table with
        its C++ mangling as a weak alias. */
    method MangleMaybe(name: string, id: nat)
      requires Valid()
      modifies `cells, `aliases, `objectQueue, `loaded, `nextId, `wanted, `dropped, `files
      ensures Valid() && Budget() <= old(Budget()) && old(wanted) <= wanted && old(files) <= files
      ensures Budget() < old(Budget()) || objectQueue == old(objectQueue)
      ensures old(id in aliases || (name in cells && !cells[name].Und?) || !exists n :: n in cells && Mangled(name) <= n)
              ==> SameTable()
      ensures old(id !in aliases && (name in cells ==> cells[name].Und?) && exists n :: n in cells && Mangled(name) <= n)
              ==> id in aliases && aliases == old(aliases)[id := aliases[id]]
                  && aliases[id].name.Some? && Mangled(name) <= aliases[id].name.value && aliases[id].name.value in wanted
    {
      if id in aliases || (name in cells && !cells[name].Und?) {
        return;
      }
      if exists n :: n in cells && Mangled(name) <= n {
        var n :| n in cells && Mangled(name) <= n;
        var target := AddUndefined(n);
        SetAlias(id, Alias(Und(target), Some(n)));
      }
    }

    function Mangled(name: string): (prefix: string) {
      "?" + name + "@@Y"
    }

    /** A function of that name with any parameters, mangled the Microsoft way. */
    lemma MangledNames(name: string, parameters: string)
      ensures Mangled(name) <= ['?'] + name + ['@', '@', 'Y'] + parameters
    {
    }

    method SetAlias(id: nat, a: Alias)
      requires Valid() && ValidBody(a.body)
      modifies `aliases
      ensures Valid() && Budget() == old(Budget()) && aliases == old(aliases)[id := a]
    {
      hide Asks, Defines, AllEntries;
      aliases := aliases[id := a];
    }

    method ResolveExports()
      requires Valid()
      modifies `cells, `aliases, `objectQueue, `loaded, `nextId, `wanted, `dropped, `files
      ensures Valid() && Budget() <= old(Budget()) && old(wanted) <= wanted && old(files) <= files
      ensures forall e :: e in exports ==> e in wanted
      ensures Budget() < old(Budget()) || objectQueue == old(objectQueue)
      ensures exports == [] ==> SameTable()
    {
      hide Asks, Defines, AllEntries, SymbolTable.Valid;
      for i := 0 to |exports|
        invariant Valid() && Budget() <= old(Budget()) && old(wanted) <= wanted && old(files) <= files
        invariant forall k :: 0 <= k < i ==> exports[k] in wanted
        invariant Budget() < old(Budget()) || objectQueue == old(objectQueue)
        invariant exports == [] ==> SameTable()
      {
        var id := AddUndefined(exports[i]);
        MangleMaybe(exports[i], id);
      }
    }

    method ResolveAlternateNames()
      requires Valid()
      modifies `cells, `aliases, `objectQueue, `loaded, `nextId, `wanted, `dropped, `files
      ensures Valid() && Budget() <= old(Budget()) && old(wanted) <= wanted && old(files) <= files
      ensures Budget() < old(Budget()) || objectQueue == old(objectQueue)
      ensures alternateNames == map[] ==> SameTable()
      ensures forall x, y :: old(Halfway(cells, aliases, alternateNames, x, y, {x, y})) ==>
                objectQueue == old(objectQueue) && Halfway(cells, aliases, alternateNames, x, y, {})
    {
      hide Asks, Defines, AllEntries, SymbolTable.Valid, Halfway;
      var names := alternateNames.Keys;
      BothNames(cells, aliases, alternateNames);
      while names != {}
        invariant Valid() && Budget() <= old(Budget()) && old(wanted) <= wanted && old(files) <= files
        invariant names <= alternateNames.Keys
        invariant Budget() < old(Budget()) || objectQueue == old(objectQueue)
        invariant alternateNames == map[] ==> SameTable()
        invariant forall x, y :: old(Halfway(cells, aliases, alternateNames, x, y, {x, y})) ==>
                    objectQueue == old(objectQueue) && Halfway(cells, aliases, alternateNames, x, y, names)
        decreases names
      {
        var from :| from in names;
        ResolveNext(from, names);
        names := names - {from};
      }
    }

    /** One turn of the loop, on two names that are alternate names of each other. */
    method ResolveNext(from: string, ghost names: set<string>)
      requires Valid() && from in alternateNames && from in names
      modifies `cells, `aliases, `objectQueue, `loaded, `nextId, `wanted, `dropped, `files
      ensures Valid() && Budget() <= old(Budget()) && old(wanted) <= wanted && old(files) <= files
      ensures Budget() < old(Budget()) || objectQueue == old(objectQueue)
      ensures alternateNames == map[] ==> SameTable()
      ensures forall x, y :: old(Halfway(cells, aliases, alternateNames, x, y, names)) ==>
                objectQueue == old(objectQueue) && Halfway(cells, aliases, alternateNames, x, y, names - {from})
    {
      hide SymbolTable.Valid, SymbolTable.Budget;
      ResolveAlternateName(from);
    }

    /** An undefined symbol without a weak alias gets its alternate name as one. */
    method ResolveAlternateName(from: string)
      requires Valid() && from in alternateNames
      modifies `cells, `aliases, `objectQueue, `loaded, `nextId, `wanted, `dropped, `files
      ensures Valid() && Budget() <= old(Budget()) && old(wanted) <= wanted && old(files) <= files
      ensures Budget() < old(Budget()) || objectQueue == old(objectQueue)
      ensures if from in old(cells) && old(cells)[from].Und? && old(cells)[from].id !in old(aliases) then
                var id := old(cells)[from].id;
                && id in aliases && aliases == old(aliases)[id := aliases[id]] && wanted == old(wanted) + {alternateNames[from]}
                && aliases[id].name == Some(alternateNames[from]) && aliases[id].body.Und?
                && UndefinedAdded(alternateNames[from], aliases[id].body.id)
              else SameTable()
    {
      hide Asks, Defines, AllEntries, SymbolTable.Valid, SymbolTable.Budget;
      if from in cells && cells[from].Und? && cells[from].id !in aliases {
        var id := cells[from].id;
        var target := AddUndefined(alternateNames[from]);
        SetAlias(id, Alias(Und(target), Some(alternateNames[from])));
      }
    }

    /** The loop of LinkerDriver::link: asking for the entry point, the exports
        and the alternate names may queue files, whose directives may add more.
        It ends because a round that queues nothing is the last one. */
    method Converge(entry: Option<string>, entryId: nat) returns (ok: bool)
      requires Valid() && AllProcessed() && QueueEmpty()
      modifies this
      ensures WellTyped()
      ensures ok ==> Valid() && QueueEmpty() && AllProcessed() && files <= read
      ensures ok ==> (forall e :: e in exports ==> e in wanted) && old(wanted) <= wanted && old(files) <= files
      ensures old(exports == [] && alternateNames == map[] && (entry.Some? ==> Known(entry.value))) ==> ok && SameTable()
      ensures entry.None? && old(exports) == [] ==>
                forall x, y :: old(Halfway(cells, aliases, alternateNames, x, y, {x, y})) ==>
                  ok && Halfway(cells, aliases, alternateNames, x, y, {})
    {
      hide Asks, Defines, AllEntries, SymbolTable.Valid, SymbolTable.Budget, SymbolTable.WellTyped, Halfway;
      while true
        invariant forall x, y :: entry.None? && old(exports) == [] && old(Halfway(cells, aliases, alternateNames, x, y, {x, y})) ==>
                    exports == [] && Halfway(cells, aliases, alternateNames, x, y, {x, y})
        invariant Valid() && QueueEmpty() && AllProcessed() && old(wanted) <= wanted && old(files) <= files
        invariant old(exports == [] && alternateNames == map[] && (entry.Some? ==> Known(entry.value))) ==> SameTable()
        decreases Budget()
      {
        OneRound(entry, entryId);
        if QueueEmpty() {
          NothingQueued();
          return true;
        }
        ok := Run();
        if !ok {
          return;
        }
      }
    }

    /** The body of that loop up to the test of the queues. */
    method OneRound(entry: Option<string>, entryId: nat)
      requires Valid() && QueueEmpty() && AllProcessed()
      modifies `cells, `aliases, `objectQueue, `loaded, `nextId, `wanted, `dropped, `files
      ensures Valid() && AllProcessed() && Budget() <= old(Budget()) && old(wanted) <= wanted && old(files) <= files
      ensures Budget() < old(Budget()) || QueueEmpty()
      ensures forall e :: e in exports ==> e in wanted
      ensures exports == [] && alternateNames == map[] && (entry.Some? ==> old(Known(entry.value))) ==> SameTable()
      ensures entry.None? && exports == [] ==>
                forall x, y :: old(Halfway(cells, aliases, alternateNames, x, y, {x, y})) ==>
                  QueueEmpty() && Halfway(cells, aliases, alternateNames, x, y, {})
    {
      hide Asks, Defines, AllEntries, SymbolTable.Valid, SymbolTable.Budget, SymbolTable.WellTyped, Halfway;
      if entry.Some? {
        MangleMaybe(entry.value, entryId);
      }
      ResolveExports();
      ResolveAlternateNames();
    }

    /** The name has a body that is not undefined. */
    predicate Known(name: string)
      reads this
    {
      name in cells && !cells[name].Und?
    }

    // ----- what is left at the end -----

    /** getWeakAlias, on a chain that ends. */
    method GetWeakAlias(id: nat) returns (d: Option<Body>)
      requires Stops(cells, aliases, id, |aliases|)
      ensures d == WeakAlias(cells, aliases, id, |aliases|)
    {
      var current := id;
      ghost var n: nat := |aliases|;
      while current in aliases
        invariant Stops(cells, aliases, current, n)
        invariant WeakAlias(cells, aliases, current, n) == WeakAlias(cells, aliases, id, |aliases|)
        decreases n
      {
        var a := aliases[current];
        if Repl(a).Def? {
          return Some(Repl(a));
        }
        if !a.body.Und? {
          return None;
        }
        current := a.body.id;
        n := n - 1;
      }
      d := None;
    }

    /** Does the name less its __imp_ prefix have a definition? */
    predicate HasImportTarget(name: string)
      reads this
    {
      "__imp_" <= name && name[6..] in cells && cells[name[6..]].Def?
    }

    /** __imp_f is resolved by f, and only names of that form are. */
    lemma ImportTargets(name: string)
      ensures HasImportTarget("__imp_" + name) <==> DefinedName(name)
      ensures HasImportTarget(name) ==> |name| >= 6 && DefinedName(name[6..]) && name == "__imp_" + name[6..]
    {
      assert ("__imp_" + name)[6..] == name;
    }

    /** Writing a defined body into a cell, as the report does. */
    method Settle(name: string, d: P.Body)
      requires Valid() && d.Defined() && name in cells && ChainsEnd(cells, aliases)
      modifies `cells, `nextId
      ensures Valid() && ChainsEnd(cells, aliases) && cells == old(cells)[name := Def(d)]
    {
      hide Asks, Defines, AllEntries, Stops;
      ChainsStillEnd(cells, aliases, name, d);
      cells := cells[name := Def(d)];
      nextId := nextId + 1;
    }

    /** reportRemainingUndefines(true). It fails if something stays undefined,
        unless force turns what is left into absolute zeros. If it succeeds, a name
        for which an undefined symbol was ever added resolves to a definition if
        and only if it was not left lazy before, and a name is left lazy only if
        its archive member has an unknown type. */
    method ReportRemainingUndefines(force: bool) returns (failed: bool)
      requires Valid() && QueueEmpty() && ChainsEnd(cells, aliases)
      modifies `cells, `nextId
      ensures Valid()
      ensures !failed ==> forall n :: n in wanted ==> n in old(cells) && (DefinedName(n) <==> !old(cells)[n].Laz?)
      ensures forall n :: n in wanted && n in old(cells) && old(cells)[n].Laz? ==> n in dropped
      ensures !failed && MembersKnown() ==> forall n :: n in wanted ==> DefinedName(n)
      ensures !failed && MembersKnown() ==> forall f, n :: f in files && Asks(f.entries, n) ==> DefinedName(n)
      ensures NoneUndefined(old(cells)) ==> !failed && cells == old(cells)
      ensures forall n :: n in old(cells) && old(cells)[n].Laz? ==> n in cells && cells[n] == old(cells)[n]
    {
      hide Asks, Defines, AllEntries, SymbolTable.Valid, SymbolTable.WellTyped, Stops;
      NothingPending();
      var names := cells.Keys;
      failed := false;
      while names != {}
        invariant Valid() && ChainsEnd(cells, aliases)
        invariant cells.Keys == old(cells).Keys && names <= cells.Keys
        invariant forall n :: n in cells && old(cells)[n].Laz? ==> cells[n] == old(cells)[n]
        invariant forall n :: n in cells && !old(cells)[n].Laz? ==> !cells[n].Laz?
        invariant failed || forall n :: n in cells && n !in names ==> !cells[n].Und?
        invariant NoneUndefined(old(cells)) ==> !failed && cells == old(cells)
        decreases names
      {
        var name :| name in names;
        if cells[name].Und? {
          var left := ReportOne(name, force);
          failed := failed || left;
        }
        names := names - {name};
      }
      NothingPending();
    }

    method ReportOne(name: string, force: bool) returns (left: bool)
      requires Valid() && ChainsEnd(cells, aliases) && name in cells && cells[name].Und?
      modifies `cells, `nextId
      ensures Valid() && ChainsEnd(cells, aliases) && cells.Keys == old(cells).Keys
      ensures left ==> cells == old(cells)
      ensures !left ==> cells == old(cells)[name := cells[name]] && cells[name].Def?
      ensures var d, imp := WeakAlias(old(cells), aliases, old(cells[name].id), |aliases|), old(HasImportTarget(name));
        && left == (d.None? && !imp && !force)
        && cells == if d.Some? then old(cells)[name := d.value]
                    else if imp then old(cells)[name := Def(P.LocalImport(old(nextId)))]
                    else if force then old(cells)[name := Def(P.AbsoluteSymbol(old(nextId)))]
                    else old(cells)
    {
      hide Asks, Defines, AllEntries, SymbolTable.Valid, SymbolTable.WellTyped, SymbolTable.Promised, WeakAlias, Stops;
      AliasIsDefined(cells[name].id);
      var d := GetWeakAlias(cells[name].id);
      if d.Some? {
        Settle(name, d.value.d);
        return false;
      }
      if HasImportTarget(name) {
        Settle(name, P.LocalImport(nextId));
        return false;
      }
      if force {
        Settle(name, P.AbsoluteSymbol(nextId));
      }
      left := !force;
    }

    lemma AliasIsDefined(id: nat)
      requires WellTyped() && Stops(cells, aliases, id, |aliases|)
      ensures var d := WeakAlias(cells, aliases, id, |aliases|); d.Some? ==> d.value.Def? && d.value.d.Defined()
    {
      WeakAliasIsValid(cells, aliases, id, |aliases|);
    }

    /** With empty queues nothing wanted is waiting any more. */
    lemma NothingPending()
      requires Valid() && QueueEmpty()
      ensures forall n :: n in wanted ==> n in cells && (cells[n].Laz? ==> n in dropped)
      ensures MembersKnown() ==> dropped == {}
      ensures forall f, n :: f in files && Asks(f.entries, n) ==> n in wanted
    {
      assert forall n :: !Defines([], n) && !Asks([], n);
    }

    /** addAbsolute: the name is defined, if not by this body. Its error is
        ignored. */
    method AddAbsolute(name: string)
      requires Valid()
      modifies `cells, `objectQueue, `loaded, `nextId, `wanted, `dropped, `files
      ensures Valid() && Budget() <= old(Budget()) && wanted == old(wanted) && old(files) <= files
      ensures DefinedName(name) && cells == old(cells)[name := cells[name]]
      ensures objectQueue == old(objectQueue)
    {
      hide Asks, Defines, AllEntries, SymbolTable.WellTyped, SymbolTable.Promised, SymbolTable.Budget;
      var id := NextId();
      AddNewAbsolute(name, id);
    }

    method AddNewAbsolute(name: string, id: nat)
      requires Valid()
      modifies `cells, `objectQueue, `loaded, `wanted, `dropped, `files
      ensures Valid() && Budget() <= old(Budget()) && wanted == old(wanted) && old(files) <= files
      ensures DefinedName(name) && cells == old(cells)[name := cells[name]]
      ensures objectQueue == old(objectQueue)
    {
      hide Asks, Defines, AllEntries, SymbolTable.WellTyped, SymbolTable.Promised, SymbolTable.Budget;
      var e := Entry(name, Def(P.AbsoluteSymbol(id)), None);
      ghost var queue := objectQueue;
      FirstPromised(e, AllEntries(queue), {});
      CellFactsIf(name);
      var _ := AddSymbol(e, AllEntries(queue), {});
      assert objectQueue[|queue|..] == [] && AllEntries(queue) + AllEntries([]) == AllEntries(queue) by {
        NoEntries(AllEntries(queue));
      }
    }

    /** The files of the command line in one step, then the entry point and the
        image base. */
    method ReadInputs(includes: seq<string>, entry: Option<string>) returns (ok: bool, entryId: nat)
      requires Valid() && AllProcessed()
      modifies this
      ensures WellTyped()
      ensures ok ==> Valid() && AllProcessed() && old(wanted) <= wanted && old(files) <= files
      ensures ok ==> forall n :: n in includes || entry == Some(n) ==> n in wanted
      ensures includes == [] && old(OnlyArchives()) && Unreadable(world, Lazies(old(archiveQueue)), entry)
              ==> ok && Stuck(entry)
      ensures entry.None? && old(NoFiles()) && Mutual(includes, old(alternateNames)) ==>
                ok && QueueEmpty() && exports == []
                && Halfway(cells, aliases, alternateNames, includes[0], includes[1], {includes[0], includes[1]})
    {
      hide Asks, Defines, AllEntries, SymbolTable.Valid, SymbolTable.WellTyped, SymbolTable.Budget, Unreadable, Lazies;
      hide WithLazies, AllLazies, AllLazy, OnlyFresh, Halfway, Mutual, SymbolTable.Stuck;
      NothingIsFresh();
      AddIncludes(includes);
      ghost var included := cells;
      entryId := 0;
      ok := Step();
      if ok {
        if includes == [] && old(OnlyArchives()) {
          NoNewUndefined(map[], AllLazies(old(archiveQueue)));
          LaziesAre(old(archiveQueue));
        }
        hide SymbolTable.OnlyArchives;
        entryId := AddEntry(entry);
        if entry.None? && old(NoFiles()) && Mutual(includes, old(alternateNames)) {
          MutualStart(included, aliases, alternateNames, includes, cells[IMAGE_BASE]);
        }
      }
    }

    /** No file and no option but alternate names. */
    predicate NoFiles()
      reads this
    {
      cells == map[] && aliases == map[] && QueueEmpty() && exports == []
    }

    lemma LaziesAre(archives: seq<Archive>)
      requires AllLazy(AllLazies(archives))
      ensures Lazies(archives) == WithLazies(map[], AllLazies(archives))
    {
    }

    method AddIncludes(includes: seq<string>)
      requires Valid() && AllProcessed()
      modifies `cells, `objectQueue, `loaded, `nextId, `wanted, `dropped, `files
      ensures Valid() && AllProcessed() && old(wanted) <= wanted && old(files) <= files
      ensures forall n :: n in includes ==> n in wanted
      ensures includes == [] ==> SameTable()
      ensures old(OnlyFresh(cells, aliases)) ==>
                OnlyFresh(cells, aliases) && objectQueue == old(objectQueue) && forall n :: n in includes ==> n in cells
    {
      hide SymbolTable.Valid, SymbolTable.AllProcessed, OnlyFresh;
      for i := 0 to |includes|
        invariant old(OnlyFresh(cells, aliases)) ==>
                    OnlyFresh(cells, aliases) && objectQueue == old(objectQueue) && forall k :: 0 <= k < i ==> includes[k] in cells
        invariant Valid() && AllProcessed() && old(wanted) <= wanted && old(files) <= files
        invariant forall k :: 0 <= k < i ==> includes[k] in wanted
        invariant includes == [] ==> SameTable()
      {
        AddInclude(includes[i]);
      }
    }

    method AddInclude(name: string)
      requires Valid() && AllProcessed()
      modifies `cells, `objectQueue, `loaded, `nextId, `wanted, `dropped, `files
      ensures Valid() && AllProcessed() && wanted == old(wanted) + {name} && old(files) <= files
      ensures old(OnlyFresh(cells, aliases)) ==>
                OnlyFresh(cells, aliases) && objectQueue == old(objectQueue) && cells.Keys == old(cells).Keys + {name}
    {
      hide SymbolTable.Valid, SymbolTable.Budget;
      var _ := AddUndefined(name);
    }

    method AddEntry(entry: Option<string>) returns (entryId: nat)
      requires Valid() && AllProcessed()
      modifies `cells, `objectQueue, `loaded, `nextId, `wanted, `dropped, `files
      ensures Valid() && AllProcessed() && old(wanted) <= wanted && old(files) <= files
      ensures entry.Some? ==> entry.value in wanted
      ensures old(QueueEmpty() && exports == [] && alternateNames == map[] && NoneUndefined(cells) && Unreadable(world, cells, entry))
              ==> Stuck(entry)
      ensures entry.None? ==>
                objectQueue == old(objectQueue) && DefinedName(IMAGE_BASE) && cells == old(cells)[IMAGE_BASE := cells[IMAGE_BASE]]
    {
      hide SymbolTable.Valid, SymbolTable.Budget;
      entryId := 0;
      if entry.Some? {
        entryId := AddUndefined(entry.value);
      }
      AddAbsolute(IMAGE_BASE);
    }

    /** Nothing is queued, undefined or to be resolved, and the entry is lazy. */
    predicate Stuck(entry: Option<string>)
      reads this
    {
      && QueueEmpty() && exports == [] && alternateNames == map[] && NoneUndefined(cells)
      && entry.Some? && entry.value in cells && cells[entry.value].Laz?
    }

    /** Everything LinkerDriver::link does before the last report. If there are only
        archives and the member of the entry point has an unknown type, no error is
        seen and the entry point stays lazy. */
    method Resolve(includes: seq<string>, entry: Option<string>) returns (ok: bool)
      requires Valid() && AllProcessed()
      modifies this
      ensures WellTyped()
      ensures ok ==> Valid() && QueueEmpty() && AllProcessed() && files <= read && old(wanted) <= wanted && old(files) <= files
      ensures ok ==> (forall n :: n in exports || n in includes || entry == Some(n) ==> n in wanted)
      ensures includes == [] && old(OnlyArchives()) && Unreadable(world, Lazies(old(archiveQueue)), entry)
              ==> ok && Stuck(entry)
      ensures entry.None? && old(NoFiles()) && Mutual(includes, old(alternateNames)) ==>
                ok && Halfway(cells, aliases, alternateNames, includes[0], includes[1], {})
    {
      hide SymbolTable.Valid, SymbolTable.WellTyped, SymbolTable.Budget, SymbolTable.AllProcessed, SymbolTable.OnlyArchives, Unreadable;
      hide Halfway, SymbolTable.NoFiles, Mutual;
      if Mutual(includes, alternateNames) {
        TwoNames(includes, alternateNames);
      }
      var entryId;
      ok, entryId := ReadInputs(includes, entry);
      if !ok {
        return;
      }
      ok := Run();
      if !ok {
        return;
      }
      ok := Converge(entry, entryId);
    }

    /** An empty table, no options, and archives without errors. */
    predicate OnlyArchives()
      reads this
    {
      && cells == map[] && objectQueue == [] && exports == [] && alternateNames == map[]
      && forall a :: a in archiveQueue ==> a.parses
    }

    /** The resolution of a whole link. A chain of weak aliases that does not end
        makes the report run for ever. */
    method Link(includes: seq<string>, entry: Option<string>, force: bool) returns (r: LinkResult)
      requires Valid() && AllProcessed()
      modifies this
      ensures r == Runaway ==> !ChainsEnd(cells, aliases)
      ensures entry.None? && old(NoFiles()) && Mutual(includes, old(alternateNames)) ==> r == Runaway
      ensures r == Linked ==> forall n :: n in wanted ==> n in cells && (DefinedName(n) || (cells[n].Laz? && n in dropped))
      ensures r == Linked ==> forall n :: n in exports || n in includes || entry == Some(n) ==> n in wanted
      ensures r == Linked ==> forall f :: f in files ==> Processed(f) && forall n :: Asks(f.entries, n) ==> n in wanted
      ensures r == Linked && MembersKnown() ==> forall n :: n in wanted ==> DefinedName(n)
    {
      hide Asks, Defines, AllEntries, SymbolTable.Valid, SymbolTable.WellTyped, SymbolTable.Budget, Stops;
      hide Halfway, SymbolTable.NoFiles, Mutual, ChainsEnd;
      if Mutual(includes, alternateNames) {
        TwoNames(includes, alternateNames);
      }
      ghost var mutual := entry.None? && NoFiles() && Mutual(includes, alternateNames);
      var ok := Resolve(includes, entry);
      if !ok {
        return Failed;
      }
      if mutual {
        MutualGoesRound(cells, aliases, alternateNames, includes[0], includes[1]);
      }
      if !ChainsEnd(cells, aliases) {
        return Runaway;
      }
      NothingPending();
      var failed := ReportRemainingUndefines(force);
      r := if failed then Unresolved else Linked;
    }
  }

  const IMAGE_BASE := "__ImageBase"

  datatype LinkResult = Failed | Runaway | Unresolved | Linked

  /** The lazy symbols of archives, added in order to an empty table. */
  function Lazies(archives: seq<Archive>): (cells: map<string, Body>) {
    if AllLazy(AllLazies(archives)) then WithLazies(map[], AllLazies(archives)) else map[]
  }

  /** The name is lazy and its archive member has an unknown type. */
  predicate Unreadable(w: World, cells: map<string, Body>, name: Option<string>) {
    && name.Some? && name.value != IMAGE_BASE && name.value in cells
    && cells[name.value].Laz? && cells[name.value].member in w.members
    && w.members[cells[name.value].member].UnknownType?
  }

  // ----- chains of weak aliases -----

  /** repl() over a table: the current body of the name, if the body has one. */
  function ReplIn(cells: map<string, Body>, a: Alias): (b: Body) {
    if a.name.Some? && a.name.value in cells then cells[a.name.value] else a.body
  }

  /** The loop of getWeakAlias ends within n turns: it reaches an alias that
      resolves to a definition, or a body without an alias. */
  predicate Stops(cells: map<string, Body>, aliases: map<nat, Alias>, id: nat, n: nat)
    decreases n
  {
    id in aliases && !ReplIn(cells, aliases[id]).Def? && aliases[id].body.Und?
    ==> n > 0 && Stops(cells, aliases, aliases[id].body.id, n - 1)
  }

  /** What the loop returns. */
  function WeakAlias(cells: map<string, Body>, aliases: map<nat, Alias>, id: nat, n: nat): (d: Option<Body>)
    requires Stops(cells, aliases, id, n)
    decreases n
  {
    if id !in aliases then None
    else if ReplIn(cells, aliases[id]).Def? then Some(ReplIn(cells, aliases[id]))
    else if aliases[id].body.Und? then WeakAlias(cells, aliases, aliases[id].body.id, n - 1)
    else None
  }

  lemma {:induction false} WeakAliasIsValid(cells: map<string, Body>, aliases: map<nat, Alias>, id: nat, n: nat)
    requires Stops(cells, aliases, id, n)
    requires forall m :: m in cells ==> ValidBody(cells[m])
    requires forall i :: i in aliases ==> ValidBody(aliases[i].body)
    ensures var d := WeakAlias(cells, aliases, id, n); d.Some? ==> d.value.Def? && ValidBody(d.value)
    decreases n
  {
    if id in aliases && !ReplIn(cells, aliases[id]).Def? && aliases[id].body.Und? {
      WeakAliasIsValid(cells, aliases, aliases[id].body.id, n - 1);
    }
  }

  /** k aliases on, none of them defined, the walk is at one that is, by d. */
  predicate FoundAt(cells: map<string, Body>, aliases: map<nat, Alias>, id: nat, k: nat, d: Body)
    decreases k
  {
    && id in aliases
    && var now := ReplIn(cells, aliases[id]);
       if k == 0 then now == d && d.Def?
       else !now.Def? && aliases[id].body.Und? && FoundAt(cells, aliases, aliases[id].body.id, k - 1, d)
  }

  lemma FoundSomewhere(cells: map<string, Body>, aliases: map<nat, Alias>, id: nat, k: nat, d: Body)
    requires FoundAt(cells, aliases, id, k, d)
    ensures exists k: nat :: FoundAt(cells, aliases, id, k, d)
  {
  }

  /** What a walk that ends returns is the first definition on its way. */
  lemma {:induction false} WeakAliasIsFirst(cells: map<string, Body>, aliases: map<nat, Alias>, id: nat, n: nat, d: Body)
    requires Stops(cells, aliases, id, n)
    ensures WeakAlias(cells, aliases, id, n) == Some(d) <==> exists k: nat :: FoundAt(cells, aliases, id, k, d)
    decreases n
  {
    if id !in aliases {
    } else if ReplIn(cells, aliases[id]).Def? {
      var now := ReplIn(cells, aliases[id]);
      if d == now {
        FoundSomewhere(cells, aliases, id, 0, d);
      }
    } else if aliases[id].body.Und? {
      var next := aliases[id].body.id;
      WeakAliasIsFirst(cells, aliases, next, n - 1, d);
      if k: nat :| FoundAt(cells, aliases, next, k, d) {
        FoundSomewhere(cells, aliases, id, k + 1, d);
      }
      if k: nat :| FoundAt(cells, aliases, id, k, d) {
        FoundSomewhere(cells, aliases, next, k - 1, d);
      }
    }
  }

  /** A weak alias by name stands for whatever defines that name by then. */
  lemma AliasOfDefinedName(cells: map<string, Body>, aliases: map<nat, Alias>, id: nat, n: nat, name: string, d: P.Body)
    requires Stops(cells, aliases, id, n)
    requires id in aliases && aliases[id].name == Some(name) && name in cells && cells[name] == Def(d)
    ensures WeakAlias(cells, aliases, id, n) == Some(Def(d))
  {
  }

  /** Every walk the report can start on ends. */
  predicate ChainsEnd(cells: map<string, Body>, aliases: map<nat, Alias>) {
    forall n :: n in cells && cells[n].Und? ==> Stops(cells, aliases, cells[n].id, |aliases|)
  }

  /** Defining one more name ends no chain later. */
  lemma {:induction false} StillStops(cells: map<string, Body>, aliases: map<nat, Alias>, name: string, d: P.Body, id: nat, n: nat)
    requires Stops(cells, aliases, id, n)
    ensures Stops(cells[name := Def(d)], aliases, id, n)
    decreases n
  {
    if id in aliases && !ReplIn(cells, aliases[id]).Def? && aliases[id].body.Und? {
      StillStops(cells, aliases, name, d, aliases[id].body.id, n - 1);
    }
  }

  lemma ChainsStillEnd(cells: map<string, Body>, aliases: map<nat, Alias>, name: string, d: P.Body)
    requires ChainsEnd(cells, aliases)
    ensures ChainsEnd(cells[name := Def(d)], aliases)
  {
    hide Stops;
    var after := cells[name := Def(d)];
    forall n | n in after && after[n].Und? ensures Stops(after, aliases, after[n].id, |aliases|) {
      StillStops(cells, aliases, name, d, after[n].id, |aliases|);
    }
  }

  // ----- exactly when a chain ends -----

  /** The least number of turns after which the loop has ended. */
  ghost function Turns(cells: map<string, Body>, aliases: map<nat, Alias>, id: nat, n: nat): (t: nat)
    requires Stops(cells, aliases, id, n)
    ensures t <= n && forall k: nat :: Stops(cells, aliases, id, k) <==> t <= k
    decreases n
  {
    if Stops(cells, aliases, id, 0) then
      StopsLater(cells, aliases, id, 0);
      0
    else
      var next := aliases[id].body.id;
      var t := Turns(cells, aliases, next, n - 1);
      assert forall k: nat :: k > 0 ==> (Stops(cells, aliases, id, k) <==> Stops(cells, aliases, next, k - 1));
      1 + t
  }

  lemma {:induction false} StopsLater(cells: map<string, Body>, aliases: map<nat, Alias>, id: nat, n: nat)
    requires Stops(cells, aliases, id, n)
    ensures forall k :: n <= k ==> Stops(cells, aliases, id, k)
    decreases n
  {
    if id in aliases && !ReplIn(cells, aliases[id]).Def? && aliases[id].body.Und? {
      StopsLater(cells, aliases, aliases[id].body.id, n - 1);
    }
  }

  /** The bodies a walk of t turns visits have different numbers of turns left. */
  lemma {:induction false} VisitsMany(cells: map<string, Body>, aliases: map<nat, Alias>, id: nat, n: nat) returns (visited: set<nat>)
    requires Stops(cells, aliases, id, n)
    ensures visited <= aliases.Keys && |visited| == Turns(cells, aliases, id, n)
    ensures forall i :: i in visited ==> Stops(cells, aliases, i, Turns(cells, aliases, id, n))
    decreases n
  {
    if Stops(cells, aliases, id, 0) {
      visited := {};
    } else {
      var next := aliases[id].body.id;
      var rest := VisitsMany(cells, aliases, next, n - 1);
      var t := Turns(cells, aliases, next, n - 1);
      assert !Stops(cells, aliases, id, t);
      forall i | i in rest ensures Stops(cells, aliases, i, t + 1) {
        StopsLater(cells, aliases, i, t);
      }
      visited := rest + {id};
    }
  }

  /** A walk ends if and only if it ends within as many turns as there are weak
      aliases, which a caller can try. */
  lemma EndsExactlyWhen(cells: map<string, Body>, aliases: map<nat, Alias>, id: nat)
    ensures (exists n: nat :: Stops(cells, aliases, id, n)) <==> Stops(cells, aliases, id, |aliases|)
  {
    hide Stops;
    if n: nat :| Stops(cells, aliases, id, n) {
      var visited := VisitsMany(cells, aliases, id, n);
      SubsetSize(visited, aliases.Keys);
      assert |aliases| == |aliases.Keys|;
    }
  }

  /** Two names that are each other's alias, neither of them defined. */
  lemma {:induction false} CycleNeverStops(cells: map<string, Body>, aliases: map<nat, Alias>, i: nat, j: nat, n: nat)
    requires i in aliases && aliases[i].body == Und(j) && !ReplIn(cells, aliases[i]).Def?
    requires j in aliases && aliases[j].body == Und(i) && !ReplIn(cells, aliases[j]).Def?
    ensures !Stops(cells, aliases, i, n)
    decreases n
  {
    if n > 0 {
      CycleNeverStops(cells, aliases, j, i, n - 1);
    }
  }

  // ----- two names that are alternate names of each other -----

  /** Two includes that are alternate names of each other, and no other alternate name. */
  predicate Mutual(includes: seq<string>, alternateNames: map<string, string>) {
    && |includes| == 2 && includes[0] != includes[1] && includes[0] != IMAGE_BASE && includes[1] != IMAGE_BASE
    && alternateNames == map[includes[0] := includes[1], includes[1] := includes[0]]
  }

  /** Both are undefined; those in names have no alias yet, the others' is the body
      of the other name. */
  predicate Halfway(cells: map<string, Body>, aliases: map<nat, Alias>, alternateNames: map<string, string>,
                    x: string, y: string, names: set<string>) {
    && x != y && alternateNames == map[x := y, y := x]
    && x in cells && y in cells && cells[x].Und? && cells[y].Und? && cells[x].id != cells[y].id
    && (if x in names then cells[x].id !in aliases
        else cells[x].id in aliases && aliases[cells[x].id] == Alias(cells[y], Some(y)))
    && (if y in names then cells[y].id !in aliases
        else cells[y].id in aliases && aliases[cells[y].id] == Alias(cells[x], Some(x)))
  }

  /** Undefined bodies of different addresses, none of them with a weak alias. */
  predicate OnlyFresh(cells: map<string, Body>, aliases: map<nat, Alias>) {
    && aliases == map[] && (forall n :: n in cells ==> cells[n].Und?)
    && forall m, n :: m in cells && n in cells && m != n ==> cells[m] != cells[n]
  }

  lemma NothingIsFresh()
    ensures OnlyFresh(map[], map[])
  {
  }

  lemma TwoNames(includes: seq<string>, alternateNames: map<string, string>)
    requires Mutual(includes, alternateNames)
    ensures |includes| == 2
  {
  }

  lemma BothNames(cells: map<string, Body>, aliases: map<nat, Alias>, alternateNames: map<string, string>)
    ensures forall x, y :: Halfway(cells, aliases, alternateNames, x, y, {x, y}) ==>
              alternateNames.Keys == {x, y}
  {
  }

  lemma MutualStart(cells: map<string, Body>, aliases: map<nat, Alias>, alternateNames: map<string, string>,
                    includes: seq<string>, base: Body)
    requires Mutual(includes, alternateNames) && OnlyFresh(cells, aliases) && forall n :: n in includes ==> n in cells
    ensures Halfway(cells[IMAGE_BASE := base], aliases, alternateNames, includes[0], includes[1], {includes[0], includes[1]})
  {
    assert includes[0] in includes && includes[1] in includes;
  }

  lemma MutualGoesRound(cells: map<string, Body>, aliases: map<nat, Alias>, alternateNames: map<string, string>, x: string, y: string)
    requires Halfway(cells, aliases, alternateNames, x, y, {})
    ensures (forall n: nat :: !Stops(cells, aliases, cells[x].id, n)) && !ChainsEnd(cells, aliases)
  {
    hide Stops;
    forall n: nat ensures !Stops(cells, aliases, cells[x].id, n) {
      CycleNeverStops(cells, aliases, cells[x].id, cells[y].id, n);
    }
  }

  // ----- two inputs that go wrong -----

  /** An archive whose index maps the entry point to a member of unknown type: the
      link succeeds and the entry point is not defined. */
  method EntryIsLost() returns (t: SymbolTable, ok: bool, failed: bool)
    ensures fresh(t) && ok && !failed
    ensures "main" in t.wanted && "main" in t.cells && t.cells["main"].Laz? && !t.DefinedName("main")
  {
    var lazy := LazyEntry("main", Laz(0, 0, "lib.a(readme)"));
    var archive := Archive(true, [lazy]);
    var world := World(map["lib.a(readme)" := UnknownType], map[]);
    t := new SymbolTable(world, [], [archive]);
    OneLazy(archive, lazy);
    assert t.Valid() && t.AllProcessed();
    hide SymbolTable.Valid, SymbolTable.AllProcessed, AllLazy, AllLazies, WithLazies, Lazies;
    ok := t.Resolve([], Some("main"));
    assert ok && ChainsEnd(t.cells, t.aliases);
    failed := t.ReportRemainingUndefines(false);
  }

  lemma OneLazy(a: Archive, l: LazyEntry)
    requires a.lazies == [l] && l.body.Laz?
    ensures Lazies([a]) == map[l.name := l.body]
  {
    assert AllLazies([a]) == [l] by {
      assert [a][..0] == [] && AllLazies([]) + [l] == [l];
    }
    assert [l][..0] == [] && WithLazies(map[], []) == map[];
    assert WithLazies(map[], [l]) == WithLazy(map[], l);
  }

  /** /include:a /include:b /alternatename:a=b /alternatename:b=a, and no file that
      defines either: the report never ends. */
  method AliasesGoRound() returns (t: SymbolTable, r: LinkResult)
    ensures fresh(t) && r == Runaway && !ChainsEnd(t.cells, t.aliases)
  {
    hide *;
    t := NamesEachOther();
    MutualNames();
    r := t.Link(["a", "b"], None, false);
  }

  method NamesEachOther() returns (t: SymbolTable)
    ensures fresh(t) && t.Valid() && t.AllProcessed() && t.NoFiles() && t.alternateNames == map["a" := "b", "b" := "a"]
  {
    t := new SymbolTable(World(map[], map[]), [], []);
    hide SymbolTable.Valid;
    t.AddAlternateName("a", "b");
    t.AddAlternateName("b", "a");
  }

  lemma MutualNames()
    ensures Mutual(["a", "b"], map["a" := "b", "b" := "a"])
  {
  }

  // ----- lazy symbols, one after the other -----

  /** The table after a lazy symbol has been added: an undefined body gives way, a
      lazy one to an earlier archive. */
  function WithLazy(cells: map<string, Body>, l: LazyEntry): (r: map<string, Body>)
    requires l.body.Laz?
  {
    if l.name !in cells then cells[l.name := l.body]
    else
      match cells[l.name]
      case Def(_) => cells
      case Und(_) => cells[l.name := l.body]
      case Laz(_, index, _) => if index < l.body.fileIndex then cells else cells[l.name := l.body]
  }

  predicate AllLazy(ls: seq<LazyEntry>) {
    forall k :: 0 <= k < |ls| ==> ls[k].body.Laz?
  }

  function WithLazies(cells: map<string, Body>, ls: seq<LazyEntry>): (r: map<string, Body>)
    requires AllLazy(ls)
  {
    if ls == [] then cells else WithLazy(WithLazies(cells, ls[..|ls| - 1]), ls[|ls| - 1])
  }

  function AllLazies(archives: seq<Archive>): (ls: seq<LazyEntry>) {
    if archives == [] then [] else AllLazies(archives[..|archives| - 1]) + archives[|archives| - 1].lazies
  }

  lemma {:induction false} NoNewUndefined(cells: map<string, Body>, ls: seq<LazyEntry>)
    requires AllLazy(ls)
    ensures var r := WithLazies(cells, ls);
      forall n :: n in r && r[n].Und? ==> n in cells && cells[n].Und?
    decreases |ls|
  {
    if ls != [] {
      NoNewUndefined(cells, ls[..|ls| - 1]);
    }
  }

  lemma OneMoreLazy(cells: map<string, Body>, ls: seq<LazyEntry>, j: nat)
    requires j < |ls| && AllLazy(ls)
    ensures WithLazies(cells, ls[..j + 1]) == WithLazy(WithLazies(cells, ls[..j]), ls[j])
  {
    assert ls[..j + 1][..j] == ls[..j];
  }

  lemma OneMoreArchive(archives: seq<Archive>, i: nat)
    requires i < |archives|
    ensures AllLazies(archives[..i + 1]) == AllLazies(archives[..i]) + archives[i].lazies
  {
    assert archives[..i + 1][..i] == archives[..i];
  }

  lemma {:induction false} LaziesAppend(cells: map<string, Body>, a: seq<LazyEntry>, b: seq<LazyEntry>)
    requires AllLazy(a) && AllLazy(b)
    ensures AllLazy(a + b) && WithLazies(cells, a + b) == WithLazies(WithLazies(cells, a), b)
    decreases |b|
  {
    if b == [] {
      assert a + b == a;
    } else {
      assert (a + b)[..|a + b| - 1] == a + b[..|b| - 1];
      LaziesAppend(cells, a, b[..|b| - 1]);
    }
  }

  predicate NewId(cells: map<string, Body>, aliases: map<nat, Alias>, id: nat) {
    id !in aliases && forall n :: n in cells ==> IdOf(cells[n]) != id
  }

  predicate NoneUndefined(cells: map<string, Body>) {
    forall n :: n in cells ==> !cells[n].Und?
  }

  /** The name an undefined body asks for. */
  function Wanted(e: Entry): (s: set<string>) {
    if e.body.Und? then {e.name} else {}
  }

  lemma {:induction false} QueuedCounts(queue: seq<File>, f: File, n: string)
    requires f in queue
    ensures Defines(f.entries, n) ==> Defines(AllEntries(queue), n)
    ensures Asks(f.entries, n) ==> Asks(AllEntries(queue), n)
  {
    DefinesAppend(queue[0].entries, AllEntries(queue[1..]), n);
    AsksAppend(queue[0].entries, AllEntries(queue[1..]), n);
    if f != queue[0] {
      QueuedCounts(queue[1..], f, n);
    }
  }

  lemma FirstDefines(e: Entry, rest: seq<Entry>)
    ensures forall n :: Defines([e] + rest, n) <==> (e.body.Def? && e.name == n) || Defines(rest, n)
    ensures forall n :: Asks([e] + rest, n) <==> (e.body.Und? && e.name == n) || Asks(rest, n)
  {
    forall n ensures Asks([e] + rest, n) <==> (e.body.Und? && e.name == n) || Asks(rest, n) {
      AsksAppend([e], rest, n);
      assert Asks([e], n) <==> e.body.Und? && [e][0].name == n;
    }
    forall n ensures Defines([e] + rest, n) <==> (e.body.Def? && e.name == n) || Defines(rest, n) {
      DefinesAppend([e], rest, n);
      assert Defines([e], n) <==> e.body.Def? && [e][0].name == n;
    }
  }

  function IdOf(b: Body): (id: nat) {
    match b
    case Def(d) => d.id
    case Und(id) => id
    case Laz(id, _, _) => id
  }

  lemma SubsetSize<T>(a: set<T>, b: set<T>)
    requires a <= b
    ensures |a| <= |b|
  {
    var rest := b - a;
    assert b == a + rest;
  }

  lemma {:induction false} SeqSubset<T>(s: seq<T>, b: set<T>)
    requires forall i, j :: 0 <= i < j < |s| ==> s[i] != s[j]
    requires forall x :: x in s ==> x in b
    ensures |s| <= |b|
  {
    if s != [] {
      var x := s[|s| - 1];
      SeqSubset(s[..|s| - 1], b - {x});
    }
  }
}
