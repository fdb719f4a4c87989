/** COFF/DLL.cpp's IdataContents: the vectors of chunks that create fills, the bytes
    they write, and what the loader finds in them. */
module Idata {
  import opened Common
  import opened Bytes
  import opened BaseRelocs
  import opened ImportBins
  import opened ImportTables

  /** Chunks point at one another by their index in the vector that holds them. */
  datatype Chunk =
    | OrdinalOnly(ordinal: nat)
    | Lookup(hint: nat)
    | HintName(name: Name, number: nat)
    | Directory(dllName: nat, lookupTab: nat, addressTab: nat)
    | Null(size: nat)

  // ----- what create leaves in its vectors -----

  function SlotChunks(syms: seq<Import>, h: nat): (cs: seq<Chunk>)
    ensures |cs| == |syms| + 1
  {
    if syms == [] then [Null(SLOT)]
    else if syms[0].extName == [] then [OrdinalOnly(syms[0].ordinal)] + SlotChunks(syms[1..], h)
    else [Lookup(h)] + SlotChunks(syms[1..], h + 1)
  }

  function HintChunks(syms: seq<Import>): (cs: seq<Chunk>) {
    if syms == [] then []
    else (if syms[0].extName == [] then [] else [HintName(syms[0].extName, syms[0].ordinal)]) + HintChunks(syms[1..])
  }

  function TableChunks(bins: seq<Bin>, h: nat): (cs: seq<Chunk>)
    ensures |cs| == SlotCount(bins)
  {
    if bins == [] then []
    else SlotChunks(bins[0].syms, h) + TableChunks(bins[1..], h + |HintChunks(bins[0].syms)|)
  }

  function AllHints(bins: seq<Bin>): (cs: seq<Chunk>) {
    if bins == [] then [] else HintChunks(bins[0].syms) + AllHints(bins[1..])
  }

  function DirectoryChunks(bins: seq<Bin>, d: nat, slot: nat): (cs: seq<Chunk>)
    ensures |cs| == |bins|
  {
    if bins == [] then []
    else [Directory(d, slot, slot)] + DirectoryChunks(bins[1..], d + 1, slot + |bins[0].syms| + 1)
  }

  function Names(bins: seq<Bin>): (ns: seq<Name>)
    ensures |ns| == |bins|
  {
    if bins == [] then [] else [bins[0].dll] + Names(bins[1..])
  }

  /** The address slot each symbol is given. */
  function Slots(syms: seq<Import>, slot: nat): (ls: seq<(Import, nat)>)
    ensures |ls| == |syms|
  {
    if syms == [] then [] else [(syms[0], slot)] + Slots(syms[1..], slot + 1)
  }

  function AllSlots(bins: seq<Bin>, slot: nat): (ls: seq<(Import, nat)>) {
    if bins == [] then []
    else Slots(bins[0].syms, slot) + AllSlots(bins[1..], slot + |bins[0].syms| + 1)
  }

  class IdataContents {
    var imports: seq<Import>
    var dirs: seq<Chunk>
    var lookups: seq<Chunk>
    var addresses: seq<Chunk>
    var hints: seq<Chunk>
    var dllNames: seq<Name>
    var locations: seq<(Import, nat)>

    constructor ()
      ensures imports == [] && Fresh()
    {
      imports, dirs, lookups, addresses, hints, dllNames, locations := [], [], [], [], [], [], [];
    }

    predicate Fresh()
      reads this
    {
      dirs == [] && lookups == [] && addresses == [] && hints == [] && dllNames == [] && locations == []
    }

    method Add(s: Import)
      modifies this`imports
      ensures imports == old(imports) + [s]
    {
      imports := imports + [s];
    }

    /** The vectors hold the chunks of the first n DLLs. */
    ghost predicate Built(bins: seq<Bin>, n: nat)
      requires n <= |bins|
      reads this
    {
      && |lookups| == |addresses| && lookups + TableChunks(bins[n..], |hints|) == TableChunks(bins, 0)
      && addresses == lookups
      && hints + AllHints(bins[n..]) == AllHints(bins)
      && dirs + DirectoryChunks(bins[n..], n, |lookups|) == DirectoryChunks(bins, 0, 0)
      && dllNames + Names(bins[n..]) == Names(bins) && |dllNames| == n
      && locations + AllSlots(bins[n..], |lookups|) == AllSlots(bins, 0)
    }

    /** The first loop over the symbols of a DLL. */
    method AddSlots(syms: seq<Import>)
      requires addresses == lookups
      modifies this`lookups, this`addresses, this`hints
      ensures lookups == old(lookups) + SlotChunks(syms, |old(hints)|) && addresses == lookups
      ensures hints == old(hints) + HintChunks(syms)
    {
      var i := 0;
      while i < |syms|
        invariant i <= |syms| && addresses == lookups
        invariant lookups + SlotChunks(syms[i..], |hints|) == old(lookups) + SlotChunks(syms, |old(hints)|)
        invariant hints + HintChunks(syms[i..]) == old(hints) + HintChunks(syms)
      {
        var s := syms[i];
        assert syms[i..][1..] == syms[i + 1..];
        ghost var l, h := lookups, hints;
        if s.extName == [] {
          lookups := lookups + [OrdinalOnly(s.ordinal)];
          addresses := addresses + [OrdinalOnly(s.ordinal)];
          assert h + HintChunks(syms[i..]) == hints + HintChunks(syms[i + 1..]);
          assert l + SlotChunks(syms[i..], |h|) == lookups + SlotChunks(syms[i + 1..], |hints|);
        } else {
          lookups := lookups + [Lookup(|hints|)];
          addresses := addresses + [Lookup(|hints|)];
          hints := hints + [HintName(s.extName, s.ordinal)];
          assert h + HintChunks(syms[i..]) == hints + HintChunks(syms[i + 1..]);
          assert l + SlotChunks(syms[i..], |h|) == lookups + SlotChunks(syms[i + 1..], |hints|);
        }
        i := i + 1;
      }
      lookups := lookups + [Null(SLOT)];
      addresses := addresses + [Null(SLOT)];
    }

    /** The second: each symbol gets its address slot. */
    method SetLocations(syms: seq<Import>, base: nat)
      modifies this`locations
      ensures locations == old(locations) + Slots(syms, base)
    {
      var i := 0;
      while i < |syms|
        invariant i <= |syms|
        invariant locations + Slots(syms[i..], base + i) == old(locations) + Slots(syms, base)
      {
        assert syms[i..][1..] == syms[i + 1..];
        locations := locations + [(syms[i], base + i)];
        i := i + 1;
      }
    }

    /** The body of the loop over the DLLs. */
    method AddDll(bins: seq<Bin>, n: nat)
      requires n < |bins| && Built(bins, n)
      modifies this`dirs, this`lookups, this`addresses, this`hints, this`dllNames, this`locations
      ensures Built(bins, n + 1)
    {
      var b := bins[n];
      ghost var l, h, ns, ds, ls := |lookups|, |hints|, dllNames, dirs, locations;
      UnfoldChunks(bins, n, l, h);
      hide TableChunks, AllHints, DirectoryChunks, AllSlots, Names, SlotChunks, HintChunks, Slots;
      var base := |lookups|;
      AddSlots(b.syms);
      SetLocations(b.syms, base);
      dllNames := dllNames + [b.dll];
      dirs := dirs + [Directory(|dllNames| - 1, base, base)];
      Associates(ns, [b.dll], Names(bins[n + 1..]));
      Associates(old(lookups), SlotChunks(b.syms, h), TableChunks(bins[n + 1..], |hints|));
      Associates(old(hints), HintChunks(b.syms), AllHints(bins[n + 1..]));
      Associates(ds, [Directory(n, base, base)], DirectoryChunks(bins[n + 1..], n + 1, |lookups|));
      Associates(ls, Slots(b.syms, base), AllSlots(bins[n + 1..], |lookups|));
    }

    /** create. */
    method Create() returns (ghost bins: seq<Bin>)
      requires Fresh()
      modifies this`dirs, this`lookups, this`addresses, this`hints, this`dllNames, this`locations
      ensures Binned(imports, bins)
      ensures lookups == TableChunks(bins, 0) && addresses == lookups && hints == AllHints(bins)
      ensures dirs == DirectoryChunks(bins, 0, 0) + [Null(DIR_ENTRY)]
      ensures dllNames == Names(bins) && locations == AllSlots(bins, 0)
    {
      hide TableChunks, AllHints, DirectoryChunks, AllSlots, Names, Binned;
      var groups := BinImports(imports);
      bins := groups;
      NoChunks();
      assert bins[0..] == bins;
      var n := 0;
      while n < |groups|
        invariant n <= |groups| && Built(bins, n)
      {
        AddDll(groups, n);
        n := n + 1;
      }
      assert bins[n..] == [];
      dirs := dirs + [Null(DIR_ENTRY)];
    }
  }

  lemma NoChunks()
    ensures forall h :: TableChunks([], h) == []
    ensures AllHints([]) == [] && Names([]) == []
    ensures forall d, slot :: DirectoryChunks([], d, slot) == []
    ensures forall slot :: AllSlots([], slot) == []
  {
  }

  lemma UnfoldChunks(bins: seq<Bin>, n: nat, slot: nat, h: nat)
    requires n < |bins|
    ensures var b := bins[n];
      && TableChunks(bins[n..], h)
           == SlotChunks(b.syms, h) + TableChunks(bins[n + 1..], h + |HintChunks(b.syms)|)
      && AllHints(bins[n..]) == HintChunks(b.syms) + AllHints(bins[n + 1..])
      && DirectoryChunks(bins[n..], n, slot)
           == [Directory(n, slot, slot)] + DirectoryChunks(bins[n + 1..], n + 1, slot + |b.syms| + 1)
      && Names(bins[n..]) == [b.dll] + Names(bins[n + 1..])
      && AllSlots(bins[n..], slot) == Slots(b.syms, slot) + AllSlots(bins[n + 1..], slot + |b.syms| + 1)
  {
    assert bins[n..][1..] == bins[n + 1..];
  }

  // ----- the bytes the chunks write -----

  function HintNameBytes(c: Chunk): (b: seq<byte>) {
    if c.HintName? then Encode(c.number, 2) + c.name + Zeros(RoundUp(|c.name| + 3, 2) - 2 - |c.name|) else []
  }

  function HintsBytes(cs: seq<Chunk>): (b: seq<byte>) {
    if cs == [] then [] else HintNameBytes(cs[0]) + HintsBytes(cs[1..])
  }

  function StringBytes(ns: seq<Name>): (b: seq<byte>) {
    if ns == [] then [] else ns[0] + [0] + StringBytes(ns[1..])
  }

  /** A slot holds the address of its hint, an ordinal, or nothing. */
  function SlotChunkBytes(c: Chunk, hints: seq<Chunk>, p: Places): (b: seq<byte>) {
    match c
    case OrdinalOnly(o) => Encode(BY_ORDINAL + o, 8)
    case Lookup(h) =>
      if h <= |hints| then Encode(p.base + p.hints + |HintsBytes(hints[..h])|, 4) + Zeros(4) else []
    case Null(n) => Zeros(n)
    case _ => []
  }

  function SlotsBytes(cs: seq<Chunk>, hints: seq<Chunk>, p: Places): (b: seq<byte>) {
    if cs == [] then [] else SlotChunkBytes(cs[0], hints, p) + SlotsBytes(cs[1..], hints, p)
  }

  function DirectoryChunkBytes(c: Chunk, names: seq<Name>, p: Places): (b: seq<byte>) {
    match c
    case Directory(d, l, a) =>
      if d <= |names| then
        DirectoryBytes(p.base + p.lookups + 8 * l, p.base + p.names + |StringBytes(names[..d])|, p.base + p.addresses + 8 * a)
      else []
    case Null(n) => Zeros(n)
    case _ => []
  }

  function DirectoriesBytes(cs: seq<Chunk>, names: seq<Name>, p: Places): (b: seq<byte>) {
    if cs == [] then [] else DirectoryChunkBytes(cs[0], names, p) + DirectoriesBytes(cs[1..], names, p)
  }

  lemma {:induction false} HintsAppend(a: seq<Chunk>, b: seq<Chunk>)
    ensures HintsBytes(a + b) == HintsBytes(a) + HintsBytes(b)
  {
    if a == [] {
      assert a + b == b;
    } else {
      assert (a + b)[1..] == a[1..] + b;
      HintsAppend(a[1..], b);
    }
  }

  lemma {:induction false} StringsAppend(a: seq<Name>, b: seq<Name>)
    ensures StringBytes(a + b) == StringBytes(a) + StringBytes(b)
  {
    if a == [] {
      assert a + b == b;
    } else {
      assert (a + b)[1..] == a[1..] + b;
      StringsAppend(a[1..], b);
    }
  }

  lemma {:induction false} SlotsAppend(a: seq<Chunk>, b: seq<Chunk>, hints: seq<Chunk>, p: Places)
    ensures SlotsBytes(a + b, hints, p) == SlotsBytes(a, hints, p) + SlotsBytes(b, hints, p)
  {
    if a == [] {
      assert a + b == b;
    } else {
      assert (a + b)[1..] == a[1..] + b;
      SlotsAppend(a[1..], b, hints, p);
    }
  }

  lemma {:induction false} HintsAre(syms: seq<Import>)
    ensures HintsBytes(HintChunks(syms)) == HintsOf(syms)
  {
    if syms != [] {
      var here := if syms[0].extName == [] then [] else [HintName(syms[0].extName, syms[0].ordinal)];
      HintsAppend(here, HintChunks(syms[1..]));
      HintsAre(syms[1..]);
      assert here != [] ==> here[1..] == [];
      assert HintsBytes(here) == HintBytes(syms[0]);
    }
  }

  lemma {:induction false} AllHintsAre(bins: seq<Bin>)
    ensures HintsBytes(AllHints(bins)) == HintArea(bins)
  {
    if bins != [] {
      HintsAppend(HintChunks(bins[0].syms), AllHints(bins[1..]));
      HintsAre(bins[0].syms);
      AllHintsAre(bins[1..]);
    }
  }

  lemma {:induction false} NamesAre(bins: seq<Bin>)
    ensures StringBytes(Names(bins)) == NameArea(bins)
  {
    if bins != [] {
      assert Names(bins)[1..] == Names(bins[1..]);
      NamesAre(bins[1..]);
    }
  }

  function HereHints(s: Import): (cs: seq<Chunk>) {
    if s.extName == [] then [] else [HintName(s.extName, s.ordinal)]
  }

  lemma HereHintsAre(s: Import)
    ensures HintsBytes(HereHints(s)) == HintBytes(s)
  {
    assert HereHints(s) != [] ==> HereHints(s)[1..] == [];
  }

  lemma NextSlotChunk(syms: seq<Import>, before: seq<Chunk>, hints: seq<Chunk>, p: Places)
    requires syms != [] && before <= hints
    ensures SlotsBytes(SlotChunks(syms, |before|), hints, p)
         == SlotBytes(syms[0], |HintsBytes(before)|, p)
            + SlotsBytes(SlotChunks(syms[1..], |before + HereHints(syms[0])|), hints, p)
  {
    hide HintsBytes, Encode;
    assert hints[..|before|] == before;
    var cs := SlotChunks(syms, |before|);
    assert cs[1..] == SlotChunks(syms[1..], |before + HereHints(syms[0])|);
  }

  lemma {:induction false} SlotsAre(syms: seq<Import>, before: seq<Chunk>, after: seq<Chunk>, p: Places)
    ensures SlotsBytes(SlotChunks(syms, |before|), before + HintChunks(syms) + after, p)
         == SlotsOf(syms, |HintsBytes(before)|, p)
    decreases |syms|
  {
    hide SlotBytes, HintsBytes, SlotsBytes, SlotChunks, HereHints, HintBytes, HintChunks, SlotsOf;
    var hints := before + HintChunks(syms) + after;
    if syms == [] {
      NoSlots(hints, |before|, |HintsBytes(before)|, p);
    } else {
      var here := HereHints(syms[0]);
      UnfoldHintChunks(syms);
      UnfoldSlotsOf(syms, |HintsBytes(before)|, p);
      assert hints == (before + here) + HintChunks(syms[1..]) + after;
      SlotsAre(syms[1..], before + here, after, p);
      HintsAppend(before, here);
      HereHintsAre(syms[0]);
      NextSlotChunk(syms, before, hints, p);
    }
  }

  lemma NoSlots(hints: seq<Chunk>, h: nat, hint: nat, p: Places)
    ensures SlotsBytes(SlotChunks([], h), hints, p) == SlotsOf([], hint, p)
  {
    assert [Null(SLOT)][1..] == [];
  }

  lemma UnfoldSlotsOf(syms: seq<Import>, hint: nat, p: Places)
    requires syms != []
    ensures SlotsOf(syms, hint, p) == SlotBytes(syms[0], hint, p) + SlotsOf(syms[1..], hint + |HintBytes(syms[0])|, p)
  {
  }

  lemma UnfoldHintChunks(syms: seq<Import>)
    requires syms != []
    ensures HintChunks(syms) == HereHints(syms[0]) + HintChunks(syms[1..])
  {
  }

  lemma {:induction false} TablesAre(bins: seq<Bin>, before: seq<Chunk>, p: Places)
    ensures SlotsBytes(TableChunks(bins, |before|), before + AllHints(bins), p)
         == Tables(bins, |HintsBytes(before)|, p)
    decreases |bins|
  {
    hide *;
    if bins == [] {
      NoTables(before, |before|, |HintsBytes(before)|, p);
    } else {
      var here := HintChunks(bins[0].syms);
      var hints := before + AllHints(bins);
      UnfoldTableChunks(bins, |before|);
      UnfoldTables(bins, |HintsBytes(before)|, p);
      assert hints == before + here + AllHints(bins[1..]);
      SlotsAppend(SlotChunks(bins[0].syms, |before|), TableChunks(bins[1..], |before + here|), hints, p);
      SlotsAre(bins[0].syms, before, AllHints(bins[1..]), p);
      TablesAre(bins[1..], before + here, p);
      HintsAppend(before, here);
      HintsAre(bins[0].syms);
    }
  }

  lemma NoTables(hints: seq<Chunk>, h: nat, hint: nat, p: Places)
    ensures SlotsBytes(TableChunks([], h), hints + AllHints([]), p) == Tables([], hint, p)
  {
  }

  lemma UnfoldTableChunks(bins: seq<Bin>, h: nat)
    requires bins != []
    ensures TableChunks(bins, h)
         == SlotChunks(bins[0].syms, h) + TableChunks(bins[1..], h + |HintChunks(bins[0].syms)|)
    ensures AllHints(bins) == HintChunks(bins[0].syms) + AllHints(bins[1..])
  {
  }

  lemma NextDirectoryChunk(
      bins: seq<Bin>, before: seq<Name>, names: seq<Name>, slot: nat, p: Places)
    requires bins != [] && before <= names
    ensures DirectoriesBytes(DirectoryChunks(bins, |before|, slot) + [Null(DIR_ENTRY)], names, p)
         == DirectoryBytes(LookupRva(p, slot), p.base + p.names + |StringBytes(before)|, AddressRva(p, slot))
            + DirectoriesBytes(DirectoryChunks(bins[1..], |before| + 1, slot + |bins[0].syms| + 1) + [Null(DIR_ENTRY)],
                               names, p)
  {
    hide DirectoryBytes, StringBytes;
    var rest := DirectoryChunks(bins[1..], |before| + 1, slot + |bins[0].syms| + 1) + [Null(DIR_ENTRY)];
    var cs := DirectoryChunks(bins, |before|, slot) + [Null(DIR_ENTRY)];
    assert names[..|before|] == before;
    assert cs == [Directory(|before|, slot, slot)] + rest;
    hide DirectoryChunks;
    assert cs[0] == Directory(|before|, slot, slot) && cs[1..] == rest;
  }

  lemma NoDirectoryChunks(names: seq<Name>, d: nat, slot: nat, name: nat, p: Places)
    ensures DirectoriesBytes(DirectoryChunks([], d, slot) + [Null(DIR_ENTRY)], names, p) == Directories([], slot, name, p)
  {
    assert (DirectoryChunks([], d, slot) + [Null(DIR_ENTRY)])[1..] == [];
  }

  lemma {:induction false} DirectoriesAre(bins: seq<Bin>, before: seq<Name>, slot: nat, p: Places)
    ensures DirectoriesBytes(DirectoryChunks(bins, |before|, slot) + [Null(DIR_ENTRY)], before + Names(bins), p)
         == Directories(bins, slot, |StringBytes(before)|, p)
    decreases |bins|
  {
    hide DirectoryBytes, DirectoriesBytes, DirectoryChunks, Directories, StringBytes;
    var names := before + Names(bins);
    if bins == [] {
      NoDirectoryChunks(names, |before|, slot, |StringBytes(before)|, p);
    } else {
      var dll := bins[0].dll;
      assert names == (before + [dll]) + Names(bins[1..]);
      NextDirectoryChunk(bins, before, names, slot, p);
      UnfoldDirectories(bins, slot, |StringBytes(before)|, p);
      DirectoriesAre(bins[1..], before + [dll], slot + |bins[0].syms| + 1, p);
      StringsAppend(before, [dll]);
      OneString(dll);
    }
  }

  lemma OneString(n: Name)
    ensures |StringBytes([n])| == |n| + 1
  {
    assert [n][1..] == [];
  }

  /** getChunks in its order, every chunk written where the layout puts it. */
  function Written(dirs: seq<Chunk>, lookups: seq<Chunk>, addresses: seq<Chunk>, hints: seq<Chunk>,
                   names: seq<Name>, p: Places): (b: seq<byte>) {
    DirectoriesBytes(dirs, names, p) + SlotsBytes(lookups, hints, p) + SlotsBytes(addresses, hints, p)
    + HintsBytes(hints) + StringBytes(names)
  }

  /** The chunks create made write the import tables of its DLLs. */
  lemma ChunksWriteTables(bins: seq<Bin>, base: nat)
    ensures Written(DirectoryChunks(bins, 0, 0) + [Null(DIR_ENTRY)], TableChunks(bins, 0), TableChunks(bins, 0),
                    AllHints(bins), Names(bins), PlacesOf(bins, base))
         == Contents(bins, base)
  {
    var p := PlacesOf(bins, base);
    hide PlacesOf, Directories, Tables, HintArea, NameArea, DirectoriesBytes, SlotsBytes;
    DirectoriesAre(bins, [], 0, p);
    TablesAre(bins, [], p);
    AllHintsAre(bins);
    NamesAre(bins);
    assert [] + AllHints(bins) == AllHints(bins) && [] + Names(bins) == Names(bins);
  }

  // ----- what the loader finds -----

  /** From any imports: the loader finds each of them once, under its DLL, DLLs and
      names in order; and the address table has a slot for every import and one
      more for every DLL. */
  method BuildAndRead(d: IdataContents, base: nat) returns (ghost bins: seq<Bin>)
    requires d.Fresh() && base > 0
    requires forall s :: s in d.imports ==> ValidImport(s) && 0 !in s.dll
    modifies d
    ensures d.imports == old(d.imports) && Binned(d.imports, bins)
    ensures |d.addresses| == |d.imports| + |bins|
    ensures var mem := Written(d.dirs, d.lookups, d.addresses, d.hints, d.dllNames, PlacesOf(bins, base));
      base + |mem| < RVA_LIMIT ==> ReadDirectories(mem, base, 0) == Some(Listings(bins, 0, PlacesOf(bins, base)))
  {
    bins := d.Create();
    hide PlacesOf, Written, Contents, ReadDirectories, Listings;
    ChunksWriteTables(bins, base);
    SlotsAndDlls(bins);
    assert |multiset(d.imports)| == |d.imports|;
    BinsAreValid(d.imports, bins);
    if base + |Contents(bins, base)| < RVA_LIMIT {
      ReadBack(bins, base);
    }
  }

  lemma {:induction false} SlotsAndDlls(bins: seq<Bin>)
    ensures SlotCount(bins) == |All(bins)| + |bins|
  {
    if bins != [] {
      SlotsAndDlls(bins[1..]);
      assert |multiset(bins[0].syms)| == |bins[0].syms|;
    }
  }

  lemma {:induction false} AllContains(bins: seq<Bin>, i: nat, k: nat)
    requires i < |bins| && k < |bins[i].syms|
    ensures bins[i].syms[k] in All(bins)
  {
    if i > 0 {
      AllContains(bins[1..], i - 1, k);
    } else {
      assert bins[0].syms[k] in multiset(bins[0].syms);
    }
  }

  lemma BinsAreValid(imports: seq<Import>, bins: seq<Bin>)
    requires Binned(imports, bins) && forall s :: s in imports ==> ValidImport(s) && 0 !in s.dll
    ensures ValidBins(bins)
  {
    hide All, ValidImport, Ascending, ByName;
    forall i | 0 <= i < |bins|
      ensures 0 !in bins[i].dll && forall k :: 0 <= k < |bins[i].syms| ==> ValidImport(bins[i].syms[k])
    {
      forall k | 0 <= k < |bins[i].syms| ensures bins[i].syms[k] in imports {
        AllContains(bins, i, k);
        assert bins[i].syms[k] in multiset(imports);
      }
      assert bins[i].syms[0].dll == bins[i].dll;
    }
  }

  /** One of the symbols given slots is s, and its slot is at this address. */
  predicate HasSlot(slots: seq<(Import, nat)>, s: Import, p: Places, rva: nat) {
    exists n :: 0 <= n < |slots| && slots[n].0 == s && p.base + p.addresses + 8 * slots[n].1 == rva
  }

  lemma HasSlotLater(here: seq<(Import, nat)>, rest: seq<(Import, nat)>, s: Import, p: Places, rva: nat)
    requires HasSlot(rest, s, p, rva)
    ensures HasSlot(here + rest, s, p, rva)
  {
    var n :| 0 <= n < |rest| && rest[n].0 == s && p.base + p.addresses + 8 * rest[n].1 == rva;
    assert (here + rest)[|here| + n] == rest[n];
  }

  lemma HasSlotHere(syms: seq<Import>, slot: nat, rest: seq<(Import, nat)>, k: nat, p: Places)
    requires k < |syms|
    ensures HasSlot(Slots(syms, slot) + rest, syms[k], p, AddressRva(p, slot) + 8 * k)
  {
    SlotAt(syms, slot, k);
    hide Slots;
    assert (Slots(syms, slot) + rest)[k] == (syms[k], slot + k);
  }

  lemma UnfoldSlots(bins: seq<Bin>, slot: nat)
    requires bins != []
    ensures AllSlots(bins, slot) == Slots(bins[0].syms, slot) + AllSlots(bins[1..], slot + |bins[0].syms| + 1)
  {
  }

  /** The symbol at position k of DLL i is given the slot the loader fills for it:
      slot k of that DLL's address table. */
  lemma {:induction false} LocationsMatch(bins: seq<Bin>, slot: nat, i: nat, k: nat, p: Places)
    requires i < |bins| && k < |bins[i].syms|
    ensures Listings(bins, slot, p)[i].entries == Entries(bins[i].syms)
    ensures HasSlot(AllSlots(bins, slot), bins[i].syms[k], p, Listings(bins, slot, p)[i].addressTable + 8 * k)
    decreases i
  {
    hide *;
    var slot' := slot + |bins[0].syms| + 1;
    UnfoldSlots(bins, slot);
    if i == 0 {
      FirstListing(bins, slot, p);
      HasSlotHere(bins[0].syms, slot, AllSlots(bins[1..], slot'), k, p);
    } else {
      LaterListing(bins, slot, i, p);
      LocationsMatch(bins[1..], slot', i - 1, k, p);
      HasSlotLater(Slots(bins[0].syms, slot), AllSlots(bins[1..], slot'), bins[i].syms[k], p,
                   Listings(bins, slot, p)[i].addressTable + 8 * k);
    }
  }

  lemma FirstListing(bins: seq<Bin>, slot: nat, p: Places)
    requires bins != []
    ensures Listings(bins, slot, p)[0] == Listing(bins[0].dll, AddressRva(p, slot), Entries(bins[0].syms))
  {
    hide Entries;
  }

  lemma LaterListing(bins: seq<Bin>, slot: nat, i: nat, p: Places)
    requires 0 < i < |bins|
    ensures Listings(bins, slot, p)[i] == Listings(bins[1..], slot + |bins[0].syms| + 1, p)[i - 1]
    ensures bins[1..][i - 1] == bins[i]
  {
    hide Entries;
  }

  lemma {:induction false} SlotAt(syms: seq<Import>, slot: nat, k: nat)
    requires k < |syms|
    ensures Slots(syms, slot)[k] == (syms[k], slot + k)
  {
    if k > 0 {
      SlotAt(syms[1..], slot + 1, k - 1);
    }
  }
}
