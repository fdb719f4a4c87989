/** COFF/DLL.cpp's binImports: imported symbols grouped by DLL and sorted by name. */
module ImportBins {
  import opened Bytes
  import opened Common

  type Name = seq<byte>

  /** A symbol imported from a DLL; without an external name it is imported by its
      ordinal. */
  datatype Import = Import(dll: Name, name: Name, extName: Name, ordinal: nat)

  datatype Bin = Bin(dll: Name, syms: seq<Import>)

  // ----- grouping -----

  /** M[dll].push_back in a map ordered by key. */
  function Put(bins: seq<Bin>, s: Import): (r: seq<Bin>) {
    if bins == [] then [Bin(s.dll, [s])]
    else if s.dll == bins[0].dll then [Bin(s.dll, bins[0].syms + [s])] + bins[1..]
    else if Less(s.dll, bins[0].dll) then [Bin(s.dll, [s])] + bins
    else [bins[0]] + Put(bins[1..], s)
  }

  ghost predicate Ascending(bins: seq<Bin>) {
    forall i, j :: 0 <= i < j < |bins| ==> Less(bins[i].dll, bins[j].dll)
  }

  /** Every group holds symbols of its own DLL, and at least one. */
  ghost predicate Homed(bins: seq<Bin>) {
    forall i :: 0 <= i < |bins| ==>
      bins[i].syms != [] && forall k :: 0 <= k < |bins[i].syms| ==> bins[i].syms[k].dll == bins[i].dll
  }

  function All(bins: seq<Bin>): (m: multiset<Import>) {
    if bins == [] then multiset{} else multiset(bins[0].syms) + All(bins[1..])
  }

  ghost predicate Has(bins: seq<Bin>, dll: Name) {
    exists k :: 0 <= k < |bins| && bins[k].dll == dll
  }

  /** The groups after one more symbol are those before and that of its DLL. */
  ghost predicate Extends(bins: seq<Bin>, s: Import, r: seq<Bin>) {
    && Ascending(r) && Homed(r) && All(r) == All(bins) + multiset{s}
    && forall i :: 0 <= i < |r| ==> r[i].dll == s.dll || Has(bins, r[i].dll)
  }

  lemma {:induction false} PutKeeps(bins: seq<Bin>, s: Import)
    requires Ascending(bins) && Homed(bins)
    ensures Extends(bins, s, Put(bins, s))
    decreases |bins|, 1
  {
    if bins == [] {
      assert Put(bins, s)[1..] == [];
    } else if s.dll == bins[0].dll {
      PutHere(bins, s);
    } else if Less(s.dll, bins[0].dll) {
      PutBefore(bins, s);
    } else {
      PutRest(bins, s);
    }
  }

  lemma PutHere(bins: seq<Bin>, s: Import)
    requires bins != [] && Ascending(bins) && Homed(bins) && s.dll == bins[0].dll
    ensures Extends(bins, s, Put(bins, s))
  {
    hide Less;
    var r := Put(bins, s);
    assert r[1..] == bins[1..];
    forall i | 0 < i < |r| ensures r[i] == bins[i] && Has(bins, r[i].dll) {
    }
  }

  lemma PutBefore(bins: seq<Bin>, s: Import)
    requires bins != [] && Ascending(bins) && Homed(bins) && s.dll != bins[0].dll && Less(s.dll, bins[0].dll)
    ensures Extends(bins, s, Put(bins, s))
  {
    var r := Put(bins, s);
    assert r[1..] == bins;
    hide Less, Put;
    forall j | 0 < j < |r| ensures Less(s.dll, r[j].dll) && Has(bins, r[j].dll) {
      assert r[j] == bins[j - 1];
      if j > 1 {
        LessIsTransitive(s.dll, bins[0].dll, bins[j - 1].dll);
      }
    }
  }

  lemma {:induction false} PutRest(bins: seq<Bin>, s: Import)
    requires bins != [] && Ascending(bins) && Homed(bins) && s.dll != bins[0].dll && !Less(s.dll, bins[0].dll)
    ensures Extends(bins, s, Put(bins, s))
    decreases |bins|, 0
  {
    var rest := Put(bins[1..], s);
    var r := Put(bins, s);
    assert r == [bins[0]] + rest;
    LessIsTotal(s.dll, bins[0].dll);
    PutKeeps(bins[1..], s);
    hide Put, Less;
    BehindFirst(bins, s, rest);
  }

  lemma BehindFirst(bins: seq<Bin>, s: Import, rest: seq<Bin>)
    requires bins != [] && Ascending(bins) && Homed(bins) && Less(bins[0].dll, s.dll)
    requires Extends(bins[1..], s, rest)
    ensures Extends(bins, s, [bins[0]] + rest)
  {
    hide Less, Has;
    var r := [bins[0]] + rest;
    assert r[1..] == rest;
    HasFirst(bins);
    forall i | 0 < i < |r| ensures Less(bins[0].dll, r[i].dll) && (r[i].dll == s.dll || Has(bins, r[i].dll)) {
      assert r[i] == rest[i - 1];
      if r[i].dll != s.dll {
        HasInRest(bins, r[i].dll);
      }
    }
  }

  lemma HasFirst(bins: seq<Bin>)
    requires bins != []
    ensures Has(bins, bins[0].dll)
  {
  }

  lemma HasInRest(bins: seq<Bin>, dll: Name)
    requires bins != [] && Ascending(bins) && Has(bins[1..], dll)
    ensures Has(bins, dll) && Less(bins[0].dll, dll)
  {
    hide Less;
    var k :| 0 <= k < |bins[1..]| && bins[1..][k].dll == dll;
    assert bins[k + 1].dll == dll;
  }

  // ----- sorting a group -----

  ghost predicate ByName(syms: seq<Import>) {
    forall i, j :: 0 <= i < j < |syms| ==> !Less(syms[j].name, syms[i].name)
  }

  /** One permutation std::sort may choose. */
  function Insert(syms: seq<Import>, s: Import): (r: seq<Import>)
    ensures multiset(r) == multiset(syms) + multiset{s}
  {
    if syms == [] || Less(s.name, syms[0].name) then [s] + syms
    else
      assert syms == [syms[0]] + syms[1..];
      [syms[0]] + Insert(syms[1..], s)
  }

  function Sort(syms: seq<Import>): (r: seq<Import>)
    ensures multiset(r) == multiset(syms)
  {
    if syms == [] then []
    else
      assert syms == syms[..|syms| - 1] + [syms[|syms| - 1]];
      Insert(Sort(syms[..|syms| - 1]), syms[|syms| - 1])
  }

  lemma NotBelow(x: Name, s: Name, t: Name)
    requires Less(s, t) && !Less(x, t)
    ensures !Less(x, s)
  {
    if Less(x, s) {
      LessIsTransitive(x, s, t);
    }
  }

  lemma {:induction false} InsertSorts(syms: seq<Import>, s: Import)
    requires ByName(syms)
    ensures ByName(Insert(syms, s))
  {
    var r := Insert(syms, s);
    if syms == [] {
    } else if Less(s.name, syms[0].name) {
      LessIsStrict(syms[0].name);
      forall j | 0 < j < |r| ensures !Less(r[j].name, s.name) {
        NotBelow(r[j].name, s.name, syms[0].name);
      }
    } else {
      InsertSorts(syms[1..], s);
      var rest := Insert(syms[1..], s);
      forall j | 0 < j < |r| ensures !Less(r[j].name, syms[0].name) {
        assert r[j] == rest[j - 1] && r[j] in multiset(rest);
        if r[j] != s {
          assert r[j] in multiset(syms[1..]);
          var k :| 0 <= k < |syms[1..]| && syms[1..][k] == r[j];
          assert syms[k + 1] == r[j];
        }
      }
      assert r[1..] == rest;
    }
  }

  lemma {:induction false} SortSorts(syms: seq<Import>)
    ensures ByName(Sort(syms))
    decreases |syms|
  {
    if syms != [] {
      SortSorts(syms[..|syms| - 1]);
      InsertSorts(Sort(syms[..|syms| - 1]), syms[|syms| - 1]);
    }
  }

  function SortAll(bins: seq<Bin>): (r: seq<Bin>)
    ensures |r| == |bins|
    ensures forall i :: 0 <= i < |bins| ==> r[i] == Bin(bins[i].dll, Sort(bins[i].syms))
  {
    seq(|bins|, i requires 0 <= i < |bins| => Bin(bins[i].dll, Sort(bins[i].syms)))
  }

  lemma {:induction false} SortAllKeeps(bins: seq<Bin>)
    ensures All(SortAll(bins)) == All(bins)
  {
    hide Sort;
    if bins != [] {
      SortAllKeeps(bins[1..]);
      assert SortAll(bins)[1..] == SortAll(bins[1..]);
    }
  }

  // ----- binImports -----

  /** Every import once, under its own DLL, DLLs in ascending order, symbols of a
      DLL in the order of their names. */
  ghost predicate Binned(imports: seq<Import>, bins: seq<Bin>) {
    && Ascending(bins) && Homed(bins) && All(bins) == multiset(imports)
    && forall i :: 0 <= i < |bins| ==> ByName(bins[i].syms)
  }

  method Group(imports: seq<Import>) returns (bins: seq<Bin>)
    ensures Ascending(bins) && Homed(bins) && All(bins) == multiset(imports)
  {
    hide Put, Ascending, Homed;
    bins := [];
    assert Ascending(bins) && Homed(bins) by { NoBins(); }
    for i := 0 to |imports|
      invariant Ascending(bins) && Homed(bins) && All(bins) == multiset(imports[..i])
    {
      PutKeeps(bins, imports[i]);
      assert imports[..i + 1] == imports[..i] + [imports[i]];
      bins := Put(bins, imports[i]);
    }
    assert imports[..|imports|] == imports;
  }

  lemma NoBins()
    ensures Ascending([]) && Homed([])
  {
  }

  method BinImports(imports: seq<Import>) returns (bins: seq<Bin>)
    ensures Binned(imports, bins)
  {
    hide Sort, All;
    bins := Group(imports);
    ghost var grouped := bins;
    for i := 0 to |bins|
      invariant |bins| == |grouped|
      invariant forall k :: 0 <= k < |bins| ==>
                  bins[k] == if k < i then Bin(grouped[k].dll, Sort(grouped[k].syms)) else grouped[k]
    {
      bins := bins[i := Bin(bins[i].dll, Sort(bins[i].syms))];
    }
    assert bins == SortAll(grouped);
    SortedIsBinned(imports, grouped);
  }

  lemma SortedIsBinned(imports: seq<Import>, bins: seq<Bin>)
    requires Ascending(bins) && Homed(bins) && All(bins) == multiset(imports)
    ensures Binned(imports, SortAll(bins))
  {
    hide Sort, Less, All;
    var r := SortAll(bins);
    SortAllKeeps(bins);
    forall i | 0 <= i < |r|
      ensures ByName(r[i].syms) && r[i].syms != [] && forall k :: 0 <= k < |r[i].syms| ==> r[i].syms[k].dll == r[i].dll
    {
      SortSorts(bins[i].syms);
      SortHome(bins[i]);
    }
  }

  lemma SortHome(b: Bin)
    requires b.syms != [] && forall k :: 0 <= k < |b.syms| ==> b.syms[k].dll == b.dll
    ensures Sort(b.syms) != [] && forall k :: 0 <= k < |Sort(b.syms)| ==> Sort(b.syms)[k].dll == b.dll
  {
    hide Sort;
    var r := Sort(b.syms);
    assert |multiset(r)| == |r| && |multiset(b.syms)| == |b.syms|;
    forall k | 0 <= k < |r| ensures r[k].dll == b.dll {
      assert r[k] in multiset(r);
      assert r[k] in multiset(b.syms);
    }
  }
}
