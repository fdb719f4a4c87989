/** fixupExports (COFF/DriverUtils.cpp) as a whole, and what COFF/Driver.cpp makes of
    it: the module-definition file for the import library is written before the
    exports are made unique, sorted and numbered. */
module ExportFixup {
  import opened Common
  import opened ModuleDef
  import opened ExportOrdinals
  import DefRoundTrip

  // ----- one export for each name -----

  predicate HasName(es: seq<Export>, name: string) {
    exists k :: 0 <= k < |es| && es[k].name == name
  }

  predicate NamesDiffer(es: seq<Export>) {
    forall i, j :: 0 <= i < j < |es| ==> es[i].name != es[j].name
  }

  /** The first export of every name. */
  function Unique(es: seq<Export>): (u: seq<Export>)
    ensures NamesDiffer(u) && |u| <= |es|
    ensures forall k :: 0 <= k < |es| ==> HasName(u, es[k].name)
    ensures forall e :: e in u ==> e in es
  {
    if es == [] then []
    else
      var n := |es| - 1;
      var u := Unique(es[..n]);
      if HasName(u, es[n].name) then u
      else
        assert forall k :: 0 <= k < n ==> es[k] == es[..n][k] && HasName(u, es[..n][k].name);
        GrowsNames(u, es[n]);
        u + [es[n]]
  }

  lemma GrowsNames(u: seq<Export>, e: Export)
    ensures forall name :: HasName(u, name) ==> HasName(u + [e], name)
    ensures HasName(u + [e], e.name)
  {
    forall name | HasName(u, name) ensures HasName(u + [e], name) {
      var k :| 0 <= k < |u| && u[k].name == name;
      assert (u + [e])[k].name == name;
    }
    assert (u + [e])[|u|] == e;
  }

  ghost predicate IsFirst(es: seq<Export>, e: Export) {
    exists k :: 0 <= k < |es| && es[k] == e && !HasName(es[..k], e.name)
  }

  /** An export stays if and only if it is the first of its name. */
  lemma {:induction false} FirstsStay(es: seq<Export>, e: Export)
    ensures e in Unique(es) <==> IsFirst(es, e)
    decreases |es|
  {
    if es != [] {
      var n := |es| - 1;
      FirstsStay(es[..n], e);
      NamesKept(es[..n], es[n].name);
      FirstOfMore(es, e);
      hide HasName, IsFirst;
      assert Unique(es) == Unique(es[..n]) || Unique(es) == Unique(es[..n]) + [es[n]];
    }
  }

  lemma FirstOfMore(es: seq<Export>, e: Export)
    requires es != []
    ensures var n := |es| - 1;
      IsFirst(es, e) <==> IsFirst(es[..n], e) || (e == es[n] && !HasName(es[..n], e.name))
  {
    var n := |es| - 1;
    hide HasName;
    if IsFirst(es[..n], e) {
      var k :| 0 <= k < n && es[..n][k] == e && !HasName(es[..n][..k], e.name);
      assert es[..n][..k] == es[..k] && es[k] == e;
    }
    if IsFirst(es, e) {
      var k :| 0 <= k < |es| && es[k] == e && !HasName(es[..k], e.name);
      if k < n {
        assert es[..n][..k] == es[..k] && es[..n][k] == e;
      }
    }
  }

  lemma NamesKept(es: seq<Export>, name: string)
    ensures HasName(Unique(es), name) <==> HasName(es, name)
  {
    if HasName(Unique(es), name) {
      var k :| 0 <= k < |Unique(es)| && Unique(es)[k].name == name;
      assert Unique(es)[k] in es;
    }
  }

  // ----- sorting by external name -----

  function Codes(s: string): (c: seq<int>)
    ensures |c| == |s| && forall i :: 0 <= i < |s| ==> c[i] == s[i] as int
  {
    seq(|s|, i requires 0 <= i < |s| => s[i] as int)
  }

  predicate Before(a: Export, b: Export) {
    Less(Codes(a.extName), Codes(b.extName))
  }

  predicate Ordered(es: seq<Export>) {
    forall i, j :: 0 <= i < j < |es| ==> !Before(es[j], es[i])
  }

  predicate Ascending(es: seq<Export>) {
    forall i, j :: 0 <= i < j < |es| ==> Before(es[i], es[j])
  }

  /** What std::sort may leave: exports with equal external names in any order. */
  predicate SortOf(v: seq<Export>, s: seq<Export>) {
    Ordered(s) && multiset(s) == multiset(v)
  }

  method SortByName(v: seq<Export>) returns (s: seq<Export>)
    ensures SortOf(v, s)
  {
    hide Before, SortOf;
    s := [];
    NothingSorted();
    for i := 0 to |v|
      invariant SortOf(v[..i], s)
    {
      var e := v[i];
      var j := |s|;
      while j > 0 && Before(e, s[j - 1])
        invariant 0 <= j <= |s|
        invariant forall k :: j <= k < |s| ==> Before(e, s[k])
      {
        j := j - 1;
      }
      assert v[..i + 1] == v[..i] + [e];
      InsertKeeps(v[..i], s, j, e);
      s := s[..j] + [e] + s[j..];
    }
    assert v[..|v|] == v;
  }

  lemma NothingSorted()
    ensures SortOf([], [])
  {
  }

  lemma InsertKeeps(v: seq<Export>, s: seq<Export>, j: nat, e: Export)
    requires j <= |s| && SortOf(v, s) && (j > 0 ==> !Before(e, s[j - 1]))
    requires forall k :: j <= k < |s| ==> Before(e, s[k])
    ensures SortOf(v + [e], s[..j] + [e] + s[j..])
  {
    hide Before;
    assert s == s[..j] + s[j..];
    var r := s[..j] + [e] + s[j..];
    assert Ordered(r) by {
      forall i, k | 0 <= i < k < |r| ensures !Before(r[k], r[i]) {
        InsertPair(s, j, e, i, k);
      }
    }
    hide Ordered;
    assert multiset(r) == multiset(s[..j]) + multiset{e} + multiset(s[j..]);
  }

  lemma InsertPair(s: seq<Export>, j: nat, e: Export, i: nat, k: nat)
    requires j <= |s| && Ordered(s) && (j > 0 ==> !Before(e, s[j - 1])) && i < k <= |s|
    requires forall k :: j <= k < |s| ==> Before(e, s[k])
    ensures var r := s[..j] + [e] + s[j..]; !Before(r[k], r[i])
  {
    hide Before;
    var r := s[..j] + [e] + s[j..];
    if k == j {
      NotBefore(s, i, j, e);
    } else if i == j {
      assert r[k] == s[k - 1];
      LessIsNotBack(e, s[k - 1]);
    } else {
      assert r[i] == s[if i < j then i else i - 1] && r[k] == s[if k < j then k else k - 1];
    }
  }

  lemma NotBefore(s: seq<Export>, i: nat, j: nat, e: Export)
    requires i < j <= |s| && Ordered(s) && !Before(e, s[j - 1])
    ensures !Before(e, s[i])
  {
    if Before(e, s[i]) && i < j - 1 {
      LessIsTotal(Codes(s[i].extName), Codes(s[j - 1].extName));
      if Before(s[i], s[j - 1]) {
        LessIsTransitive(Codes(e.extName), Codes(s[i].extName), Codes(s[j - 1].extName));
      }
    }
  }

  lemma LessIsNotBack(a: Export, b: Export)
    requires Before(a, b)
    ensures !Before(b, a)
  {
    if Before(b, a) {
      LessIsTransitive(Codes(a.extName), Codes(b.extName), Codes(a.extName));
      LessIsStrict(Codes(a.extName));
    }
  }

  lemma CodesDiffer(a: string, b: string)
    requires Codes(a) == Codes(b)
    ensures a == b
  {
    assert |a| == |Codes(a)| && |b| == |Codes(b)|;
    assert forall i :: 0 <= i < |a| ==> a[i] as int == Codes(a)[i] && b[i] as int == Codes(b)[i];
  }

  // ----- what does not depend on the order -----

  /** The list without the entry at k. */
  function Drop(es: seq<Export>, k: nat): (r: seq<Export>)
    requires k < |es|
  {
    es[..k] + es[k + 1..]
  }

  lemma DropsOne(es: seq<Export>, k: nat)
    requires k < |es|
    ensures multiset(Drop(es, k)) == multiset(es) - multiset{es[k]}
    ensures |Drop(es, k)| == |es| - 1
  {
    assert es == es[..k] + [es[k]] + es[k + 1..];
  }

  lemma {:induction false} MissingDrop(es: seq<Export>, k: nat)
    requires k < |es|
    ensures Missing(es) == Missing(Drop(es, k)) + (if es[k].ordinal == 0 then 1 else 0)
    decreases |es|
  {
    var n := |es| - 1;
    var d := Drop(es, k);
    if k < n {
      MissingDrop(es[..n], k);
      assert d[..|d| - 1] == Drop(es[..n], k) && d[|d| - 1] == es[n];
    } else {
      assert d == es[..n];
    }
  }

  lemma {:induction false} SameMissing(v: seq<Export>, s: seq<Export>)
    requires multiset(v) == multiset(s)
    ensures Missing(v) == Missing(s)
    decreases |v|
  {
    if v == [] {
      assert |multiset(s)| == |s|;
    } else {
      assert v[0] in multiset(s);
      var k :| 0 <= k < |s| && s[k] == v[0];
      MissingDrop(v, 0);
      MissingDrop(s, k);
      DropsOne(v, 0);
      DropsOne(s, k);
      hide Drop, Missing;
      SameMissing(Drop(v, 0), Drop(s, k));
    }
  }

  lemma SameMembers(v: seq<Export>, s: seq<Export>, k: nat)
    requires multiset(v) == multiset(s) && k < |s|
    ensures s[k] in v
  {
    assert s[k] in multiset(s);
  }

  lemma {:induction false} LargestIsGiven(es: seq<Export>)
    ensures Largest(es) == 0 || exists k :: 0 <= k < |es| && es[k].ordinal == Largest(es)
    decreases |es|
  {
    if es != [] {
      var n := |es| - 1;
      LargestIsGiven(es[..n]);
      if Largest(es) != 0 && Largest(es) != es[n].ordinal {
        var k :| 0 <= k < n && es[..n][k].ordinal == Largest(es[..n]);
        assert es[k].ordinal == Largest(es);
      }
    }
  }

  lemma LargestWithin(v: seq<Export>, s: seq<Export>)
    requires forall k :: 0 <= k < |s| ==> s[k] in v
    ensures Largest(s) <= Largest(v)
  {
    LargestIsGiven(s);
  }

  lemma SameLargest(v: seq<Export>, s: seq<Export>)
    requires multiset(v) == multiset(s)
    ensures Largest(v) == Largest(s)
  {
    forall k | 0 <= k < |s| ensures s[k] in v { SameMembers(v, s, k); }
    forall k | 0 <= k < |v| ensures v[k] in s { SameMembers(s, v, k); }
    LargestWithin(v, s);
    LargestWithin(s, v);
  }

  lemma {:induction false} OnceOnly(v: seq<Export>, e: Export)
    requires NamesDiffer(v)
    ensures multiset(v)[e] <= 1
    decreases |v|
  {
    if v != [] {
      var n := |v| - 1;
      assert v == v[..n] + [v[n]];
      OnceOnly(v[..n], e);
      assert v[n] !in v[..n];
    }
  }

  lemma SameDistinct(v: seq<Export>, s: seq<Export>)
    requires multiset(v) == multiset(s) && NamesDiffer(v)
    ensures NamesDiffer(s)
  {
    forall i, j | 0 <= i < j < |s| ensures s[i].name != s[j].name {
      SameMembers(v, s, i);
      SameMembers(v, s, j);
      if s[i] == s[j] {
        assert s == s[..i] + [s[i]] + s[i + 1..j] + [s[j]] + s[j + 1..];
        OnceOnly(v, s[i]);
      }
    }
  }

  // ----- fixupExports -----

  /** What fixupExports may leave of es. */
  ghost predicate FixedUp(es: seq<Export>, r: seq<Export>) {
    GivenDiffer(es) && exists s :: SortOf(Unique(es), s) && r == Assigned(s, Largest(s))
  }

  class Configuration {
    var exports: seq<Export>
    var outputFile: string

    /** createModuleDefinitionFile, the output's path being its file name. */
    method CreateModuleDefinitionFile() returns (text: string)
      ensures text == DefRoundTrip.Write(outputFile, exports)
    {
      text := "LIBRARY \"" + outputFile + "\"\n" + "EXPORTS\n";
      ghost var head := text;
      for i := 0 to |exports|
        invariant text == head + DefRoundTrip.Lines(exports[..i])
      {
        text := text + DefRoundTrip.Line(exports[i]);
        assert exports[..i + 1] == exports[..i] + [exports[i]];
        DefRoundTrip.LinesSnoc(exports[..i], exports[i]);
      }
      assert exports[..|exports|] == exports;
    }

    method UniqueByName()
      modifies `exports
      ensures exports == Unique(old(exports))
    {
      NothingNamed();
      hide Unique, HasName;
      var seen: set<string> := {};
      var v: seq<Export> := [];
      assert exports[..0] == [];
      for i := 0 to |exports|
        invariant exports == old(exports) && v == Unique(exports[..i])
        invariant forall name :: name in seen <==> HasName(v, name)
      {
        OneMoreUnique(exports, i);
        if exports[i].name !in seen {
          MoreNames(v, exports[i]);
          v := v + [exports[i]];
          seen := seen + {exports[i].name};
        }
      }
      assert exports[..|exports|] == exports;
      exports := v;
    }

    method AssignOrdinals()
      requires Fit(exports)
      modifies `exports
      ensures exports == Assigned(old(exports), Largest(old(exports)))
    {
      var max: nat := 0;
      for i := 0 to |exports|
        invariant max == Largest(exports[..i])
      {
        assert exports[..i + 1][..i] == exports[..i];
        max := if max < exports[i].ordinal then exports[i].ordinal else max;
      }
      assert exports[..|exports|] == exports;
      exports := GiveOut(exports, max);
    }

    /** False is the error for an ordinal given twice. */
    method FixupExports() returns (ok: bool)
      requires Fit(exports)
      modifies `exports
      ensures ok <==> GivenDiffer(old(exports))
      ensures if ok then FixedUp(old(exports), exports) else exports == old(exports)
    {
      ok := OrdinalsDiffer(exports);
      if !ok {
        return;
      }
      UniqueByName();
      ghost var u := exports;
      exports := SortByName(exports);
      FitsStill(old(exports), u, exports);
      AssignOrdinals();
    }

    /** The end of the driver: the file for the import library, then the exports. */
    method FinishExports() returns (file: Option<string>, ok: bool)
      requires Fit(exports)
      modifies `exports
      ensures file == if old(exports) == [] then None else Some(DefRoundTrip.Write(outputFile, old(exports)))
      ensures ok <==> GivenDiffer(old(exports))
      ensures if ok then FixedUp(old(exports), exports) else exports == old(exports)
    {
      if exports == [] {
        assert SortOf(Unique(exports), []);
        return None, true;
      }
      var text := CreateModuleDefinitionFile();
      file := Some(text);
      ok := FixupExports();
    }
  }

  lemma NothingNamed()
    ensures Unique([]) == [] && forall name :: !HasName([], name)
  {
  }

  lemma OneMoreUnique(es: seq<Export>, i: nat)
    requires i < |es|
    ensures Unique(es[..i + 1])
         == if HasName(Unique(es[..i]), es[i].name) then Unique(es[..i]) else Unique(es[..i]) + [es[i]]
  {
    assert es[..i + 1][..i] == es[..i];
  }

  lemma MoreNames(u: seq<Export>, e: Export)
    ensures forall name :: HasName(u + [e], name) <==> HasName(u, name) || name == e.name
  {
    GrowsNames(u, e);
    forall name | HasName(u + [e], name) ensures HasName(u, name) || name == e.name {
      var k :| 0 <= k <= |u| && (u + [e])[k].name == name;
      assert k < |u| ==> u[k].name == name;
    }
  }

  lemma FitsStill(es: seq<Export>, u: seq<Export>, s: seq<Export>)
    requires Fit(es) && multiset(s) == multiset(u) && forall e :: e in u ==> e in es
    ensures Fit(s)
  {
    forall k | 0 <= k < |s| ensures s[k].ordinal < UINT16 {
      SameMembers(u, s, k);
      var j :| 0 <= j < |es| && es[j] == s[k];
    }
  }

  // ----- what is exported -----

  /** The entry made from e: its own ordinal if it has one. */
  predicate NumberedFrom(e: Export, r: Export) {
    r == e.(ordinal := r.ordinal) && (e.ordinal != 0 ==> r == e)
  }

  lemma GivenStill(es: seq<Export>, s: seq<Export>)
    requires GivenDiffer(es) && NamesDiffer(s) && forall e :: e in s ==> e in es
    ensures GivenDiffer(s)
  {
    forall i, j | 0 <= i < j < |s| && s[i].ordinal != 0 ensures s[i].ordinal != s[j].ordinal {
      assert s[i] in es && s[j] in es;
      var p :| 0 <= p < |es| && es[p] == s[i];
      var q :| 0 <= q < |es| && es[q] == s[j];
      assert p != q;
    }
  }

  lemma SortFacts(es: seq<Export>, s: seq<Export>)
    requires SortOf(Unique(es), s) && GivenDiffer(es) && Fit(es)
    ensures NamesDiffer(s) && GivenDiffer(s) && Fit(s) && |s| == |Unique(es)|
    ensures Largest(s) == Largest(Unique(es)) && Missing(s) == Missing(Unique(es))
  {
    var u := Unique(es);
    SameDistinct(u, s);
    forall e | e in s ensures e in es {
      var k :| 0 <= k < |s| && s[k] == e;
      SameMembers(u, s, k);
    }
    GivenStill(es, s);
    FitsStill(es, u, s);
    SameLargest(u, s);
    SameMissing(u, s);
    assert |multiset(s)| == |s| && |multiset(u)| == |u|;
  }

  /** What is exported: one export for each name, the first, ordered by external
      name, all numbered apart if and only if the numbers suffice. */
  lemma FixupIsSound(es: seq<Export>, r: seq<Export>)
    requires FixedUp(es, r) && Fit(es)
    ensures |r| == |Unique(es)| && NamesDiffer(r) && Ordered(r)
    ensures forall k :: 0 <= k < |r| ==> ComesFrom(es, r[k])
    ensures AllNumbered(r) <==> Largest(Unique(es)) + Missing(Unique(es)) < UINT16
  {
    hide *;
    var s := SortedFirst(es, r);
    SortFacts(es, s);
    NumberedExactlyWhen(s);
    OnlyOrdinals(s, Largest(s));
    forall k | 0 <= k < |r| ensures ComesFrom(es, r[k]) {
      SameMembers(Unique(es), s, k);
      FirstsStay(es, s[k]);
      Comes(es, s[k], r[k]);
    }
  }

  lemma SortedFirst(es: seq<Export>, r: seq<Export>) returns (s: seq<Export>)
    requires FixedUp(es, r)
    ensures GivenDiffer(es) && SortOf(Unique(es), s) && multiset(s) == multiset(Unique(es))
    ensures Ordered(s) && r == Assigned(s, Largest(s))
  {
    s :| SortOf(Unique(es), s) && r == Assigned(s, Largest(s));
  }

  ghost predicate ComesFrom(es: seq<Export>, r: Export) {
    exists e :: IsFirst(es, e) && NumberedFrom(e, r)
  }

  lemma Comes(es: seq<Export>, e: Export, r: Export)
    requires IsFirst(es, e) && NumberedFrom(e, r)
    ensures ComesFrom(es, r)
  {
  }

  /** Numbering changes ordinals and nothing else. */
  lemma OnlyOrdinals(s: seq<Export>, max: nat)
    ensures var r := Assigned(s, max);
      && |r| == |s| && (NamesDiffer(s) ==> NamesDiffer(r)) && (Ordered(s) ==> Ordered(r))
      && forall k :: 0 <= k < |s| ==> NumberedFrom(s[k], r[k])
  {
    hide Before, Missing;
    var r := Assigned(s, max);
    forall i, j | 0 <= i < |s| && 0 <= j < |s| ensures Before(r[j], r[i]) <==> Before(s[j], s[i]) {
      SameBefore(s[j], s[i], r[j], r[i]);
    }
  }

  lemma SameBefore(a: Export, b: Export, c: Export, d: Export)
    requires a.extName == c.extName && b.extName == d.extName
    ensures Before(a, b) <==> Before(c, d)
  {
  }

  // ----- what the file says -----

  /** Numbering changes nothing: no export lacks an ordinal, or just one does and
      the counter has wrapped around to give it none. */
  predicate Final(es: seq<Export>) {
    Missing(es) == 0 || (Missing(es) == 1 && Largest(es) == UINT16 - 1)
  }

  lemma FinalExactlyWhen(s: seq<Export>)
    requires Fit(s)
    ensures Assigned(s, Largest(s)) == s <==> Final(s)
  {
    var max := Largest(s);
    var r := Assigned(s, max);
    hide Assigned, Missing, Largest;
    assert s[..|s|] == s;
    if Missing(s) >= 1 {
      var k := FindMissing(s, 0);
      ModSmall(0, UINT16);
      assert r[k].ordinal == Counter(max, 1);
      if Missing(s) >= 2 {
        var j := FindMissing(s, 1);
        assert r[j].ordinal == Counter(max, 2);
      } else if max == UINT16 - 1 {
        forall j | 0 <= j < |s| ensures r[j] == s[j] {
          MissingGrows(s, 0, j);
          MissingGrows(s, j, |s|);
        }
      }
    } else {
      forall j | 0 <= j < |s| ensures r[j] == s[j] {
        MissingGrows(s, j, |s|);
      }
    }
  }

  lemma {:induction false} UniqueIsAll(es: seq<Export>)
    ensures |Unique(es)| == |es| <==> NamesDiffer(es)
    ensures NamesDiffer(es) ==> Unique(es) == es
    decreases |es|
  {
    if es != [] {
      var n := |es| - 1;
      assert es == es[..n] + [es[n]];
      UniqueIsAll(es[..n]);
      NamesKept(es[..n], es[n].name);
      assert forall k :: 0 <= k < n ==> es[..n][k] == es[k];
    }
  }

  /** Among exports of different names, the name tells which it is. */
  lemma NameTells(es: seq<Export>, a: Export, b: Export)
    requires NamesDiffer(es) && a in es && b in es && a.name == b.name
    ensures a == b
  {
    var p :| 0 <= p < |es| && es[p] == a;
    var q :| 0 <= q < |es| && es[q] == b;
    assert p == q;
  }

  /** fixupExports leaves the same exports, in some order, if and only if every name
      is given once and numbering changes nothing. */
  lemma SameExports(es: seq<Export>, r: seq<Export>)
    requires FixedUp(es, r) && Fit(es)
    ensures multiset(es) == multiset(r) <==> NamesDiffer(es) && Final(es)
    ensures multiset(es) == multiset(r) ==> SortOf(es, r)
  {
    hide *;
    var s := SortedFirst(es, r);
    SortFacts(es, s);
    UniqueIsAll(es);
    FinalExactlyWhen(s);
    OnlyOrdinals(s, Largest(s));
    assert |multiset(es)| == |es| && |multiset(r)| == |r| && |multiset(s)| == |s|;
    if NamesDiffer(es) {
      SameFinal(es, s);
    }
    if multiset(es) == multiset(r) {
      forall k | 0 <= k < |r| ensures r[k] == s[k] {
        SameMembers(es, r, k);
        SameMembers(es, s, k);
        SameNames(s[k], r[k]);
        NameTells(es, r[k], s[k]);
      }
      assert r == s;
      IsSort(es, r);
    }
  }

  lemma SameNames(e: Export, r: Export)
    requires NumberedFrom(e, r)
    ensures e.name == r.name
  {
  }

  lemma IsSort(es: seq<Export>, s: seq<Export>)
    requires multiset(s) == multiset(es) && Ordered(s)
    ensures SortOf(es, s)
  {
  }

  lemma SameFinal(es: seq<Export>, s: seq<Export>)
    requires multiset(es) == multiset(s)
    ensures Final(es) <==> Final(s)
  {
    SameMissing(es, s);
    SameLargest(es, s);
  }

  lemma {:induction false} SortedOnce(a: seq<Export>, b: seq<Export>)
    requires Ascending(a) && SortOf(a, b)
    ensures a == b
    decreases |a|
  {
    hide Before, SortOf;
    SameLength(a, b);
    if a != [] {
      FirstIsFirst(a, b);
      RestIsSorted(a, b);
      SortedOnce(a[1..], b[1..]);
      assert a == [a[0]] + a[1..] && b == [b[0]] + b[1..];
    }
  }

  lemma SameLength(a: seq<Export>, b: seq<Export>)
    requires SortOf(a, b)
    ensures |a| == |b|
  {
    assert |multiset(a)| == |a| && |multiset(b)| == |b|;
  }

  lemma FirstIsFirst(a: seq<Export>, b: seq<Export>)
    requires a != [] && b != [] && Ascending(a) && SortOf(a, b)
    ensures a[0] == b[0]
  {
    hide Before;
    SameMembers(a, b, 0);
    SameMembers(b, a, 0);
    var p :| 0 <= p < |a| && a[p] == b[0];
    var q :| 0 <= q < |b| && b[q] == a[0];
    assert q > 0 ==> !Before(b[q], b[0]);
    assert p > 0 ==> Before(a[0], a[p]);
  }

  lemma RestIsSorted(a: seq<Export>, b: seq<Export>)
    requires a != [] && b != [] && a[0] == b[0] && SortOf(a, b)
    ensures SortOf(a[1..], b[1..])
  {
    hide Before;
    assert a == [a[0]] + a[1..] && b == [b[0]] + b[1..];
    assert multiset(a[1..]) == multiset(a) - multiset{a[0]} && multiset(b[1..]) == multiset(b) - multiset{b[0]};
  }

  lemma SortIsOrdered(es: seq<Export>, s: seq<Export>)
    requires SortOf(es, s)
    ensures Ordered(s)
  {
  }

  lemma Given(es: seq<Export>, r: seq<Export>)
    requires FixedUp(es, r)
    ensures GivenDiffer(es)
  {
  }

  /** If nothing has moved or changed, names were given once, in order, with ordinals. */
  lemma UnchangedIs(es: seq<Export>, r: seq<Export>)
    requires FixedUp(es, r) && Fit(es) && es == r
    ensures NamesDiffer(es) && Ordered(es) && Final(es)
  {
    hide *;
    SameExports(es, r);
    SortIsOrdered(es, r);
  }

  lemma ChangesNothing(es: seq<Export>, s: seq<Export>)
    requires Fit(es) && GivenDiffer(es) && NamesDiffer(es) && Final(es) && SortOf(es, s)
    ensures FixedUp(es, s)
  {
    UniqueIsAll(es);
    hide Assigned, Largest, Missing, Ordered, GivenDiffer, Unique;
    SameFinal(es, s);
    FitsStill(es, es, s);
    FinalExactlyWhen(s);
  }

  // ----- which lists look the same from outside -----

  lemma {:induction false} FewerMissing(r: seq<Export>, s: seq<Export>)
    requires |r| == |s| && forall k :: 0 <= k < |s| && r[k].ordinal == 0 ==> s[k].ordinal == 0
    ensures Missing(r) <= Missing(s)
    ensures Missing(r) == Missing(s) ==> forall k :: 0 <= k < |s| && s[k].ordinal == 0 ==> r[k].ordinal == 0
    decreases |s|
  {
    if s != [] {
      var n := |s| - 1;
      FewerMissing(r[..n], s[..n]);
      forall k | Missing(r) == Missing(s) && 0 <= k < |s| && s[k].ordinal == 0 ensures r[k].ordinal == 0 {
        if k < n {
          assert s[..n][k] == s[k] && r[..n][k] == r[k];
        }
      }
    }
  }

  /** The ordinal tells which export it is. */
  lemma OrdinalTells(es: seq<Export>, a: Export, b: Export)
    requires GivenDiffer(es) && Missing(es) <= 1 && a in es && b in es && a.ordinal == b.ordinal
    ensures a == b
  {
    var p: nat :| p < |es| && es[p] == a;
    var q: nat :| q < |es| && es[q] == b;
    hide Missing;
    if p < q {
      TwoMissing(es, p, q);
    } else if q < p {
      TwoMissing(es, q, p);
    }
  }

  lemma TwoMissing(es: seq<Export>, i: nat, j: nat)
    requires i < j < |es|
    ensures es[i].ordinal == 0 && es[j].ordinal == 0 ==> Missing(es) >= 2
  {
    MissingGrows(es, 0, i);
    MissingGrows(es, i, j);
    MissingGrows(es, j, |es|);
    assert es[..|es|] == es;
  }

  lemma NumberingIsIdle(s: seq<Export>, r: seq<Export>)
    requires |r| == |s| && (forall k :: 0 <= k < |s| ==> NumberedFrom(s[k], r[k])) && Missing(r) == Missing(s)
    ensures r == s
  {
    hide Missing;
    FewerMissing(r, s);
    forall k | 0 <= k < |s| ensures r[k] == s[k] {
      assert NumberedFrom(s[k], r[k]);
    }
  }

  /** What is exported looks like what was given only if nothing has changed. */
  lemma SameFromOutside(es: seq<Export>, r: seq<Export>)
    requires FixedUp(es, r) && Fit(es)
    ensures DefRoundTrip.External(es) == DefRoundTrip.External(r) <==> es == r
  {
    hide *;
    var s := SortedFirst(es, r);
    SortFacts(es, s);
    UniqueIsAll(es);
    OnlyOrdinals(s, Largest(s));
    var x, y := DefRoundTrip.External(es), DefRoundTrip.External(r);
    if x == y {
      forall k | 0 <= k < |es| ensures es[k].ordinal == r[k].ordinal {
        assert x[k].ordinal == y[k].ordinal;
      }
      SameMissing(es, s);
      SameOrdinals(es, r);
      NumberingIsIdle(s, r);
      FinalExactlyWhen(s);
      FewMissing(s);
      forall k | 0 <= k < |es| ensures es[k] == r[k] {
        SameMembers(es, r, k);
        OrdinalTells(es, es[k], r[k]);
      }
    }
  }

  lemma SameOrdinals(a: seq<Export>, b: seq<Export>)
    requires |a| == |b| && forall k :: 0 <= k < |a| ==> a[k].ordinal == b[k].ordinal
    ensures Missing(a) == Missing(b)
  {
    FewerMissing(a, b);
    FewerMissing(b, a);
  }

  lemma FewMissing(s: seq<Export>)
    requires Final(s)
    ensures Missing(s) <= 1
  {
  }

  /** The file for the import library, read back, gives what is exported. */
  ghost predicate Says(library: string, es: seq<Export>, r: seq<Export>, c: Config) {
    Parse(c, TokensOf(DefRoundTrip.Write(library, es)), true)
      == Some(DefRoundTrip.Meant(library, DefRoundTrip.External(r), c))
  }

  /** What can be told from the exports as given: the reader can read them, every
      name is given once, and none is still to be numbered. */
  predicate Settled(es: seq<Export>) {
    && DefRoundTrip.NoLaterAt(es) && (forall k :: 0 <= k < |es| ==> DefRoundTrip.Placed(es[k]))
    && NamesDiffer(es) && Final(es)
  }

  lemma PrintableFits(es: seq<Export>)
    requires forall k :: 0 <= k < |es| ==> DefRoundTrip.Printable(es[k])
    ensures Fit(es)
  {
  }

  lemma Lengths(es: seq<Export>, r: seq<Export>)
    requires FixedUp(es, r) && Fit(es)
    ensures |r| <= |es| && (NamesDiffer(es) ==> |r| == |es|)
  {
    hide *;
    FixupIsSound(es, r);
    UniqueIsAll(es);
  }

  /** It does so exactly where the reader can read the file and fixupExports has
      changed nothing. */
  lemma SaysExactlyWhen(library: string, es: seq<Export>, r: seq<Export>, c: Config)
    requires '"' !in library && forall k :: 0 <= k < |es| ==> DefRoundTrip.Printable(es[k])
    requires (DefRoundTrip.NoLaterAt(es) || NamesDiffer(es)) && FixedUp(es, r)
    ensures Says(library, es, r, c) <==>
      DefRoundTrip.NoLaterAt(es) && (forall k :: 0 <= k < |es| ==> DefRoundTrip.Placed(es[k])) && es == r
  {
    PrintableFits(es);
    DefRoundTrip.RoundTrip(library, es, c);
    Lengths(es, r);
    SameFromOutside(es, r);
    MeantDiffers(library, DefRoundTrip.External(es), DefRoundTrip.External(r), c);
    hide TokensOf, Parse, DefRoundTrip.Write, DefRoundTrip.NoLaterAt, NamesDiffer, FixedUp, DefRoundTrip.ExportName, DefRoundTrip.Placed;
  }

  lemma {:induction false} SortExists(v: seq<Export>) returns (s: seq<Export>)
    ensures SortOf(v, s)
    decreases |v|
  {
    hide Before, SortOf;
    if v == [] {
      NothingSorted();
      s := [];
    } else {
      var n := |v| - 1;
      var e := v[n];
      s := SortExists(v[..n]);
      var j := |s|;
      while j > 0 && Before(e, s[j - 1])
        invariant 0 <= j <= |s|
        invariant forall k :: j <= k < |s| ==> Before(e, s[k])
      {
        j := j - 1;
      }
      assert v == v[..n] + [e];
      InsertKeeps(v[..n], s, j, e);
      s := s[..j] + [e] + s[j..];
    }
  }

  lemma FixupExists(es: seq<Export>) returns (r: seq<Export>)
    requires GivenDiffer(es)
    ensures FixedUp(es, r)
  {
    var s := SortExists(Unique(es));
    r := Assigned(s, Largest(s));
  }

  /** Two exports with one external name could have been sorted the other way. */
  lemma TiesCanSwap(es: seq<Export>) returns (s: seq<Export>)
    requires Ordered(es) && !Ascending(es) && NamesDiffer(es)
    ensures SortOf(es, s) && s != es
  {
    var i, j :| 0 <= i < j < |es| && !Before(es[i], es[j]);
    LessIsTotal(Codes(es[i].extName), Codes(es[j].extName));
    CodesDiffer(es[i].extName, es[j].extName);
    s := es[i := es[j]][j := es[i]];
    assert forall k :: 0 <= k < |es| ==> s[k].extName == es[k].extName;
    hide Less, Codes;
    forall k, l | 0 <= k < l < |s| ensures !Before(s[l], s[k]) {
      assert !Before(es[l], es[k]);
    }
  }

  /** Whatever order the sort gives equal external names, the file says what is
      exported, if and only if the exports are settled and were given in strictly
      ascending order; for some such order it does, if and only if they are settled
      and in order. */
  lemma FileSaysWhatIsExported(library: string, es: seq<Export>, c: Config)
    requires '"' !in library && forall k :: 0 <= k < |es| ==> DefRoundTrip.Printable(es[k])
    requires GivenDiffer(es) && (DefRoundTrip.NoLaterAt(es) || NamesDiffer(es))
    ensures (forall r :: FixedUp(es, r) ==> Says(library, es, r, c)) <==> Settled(es) && Ascending(es)
    ensures (exists r :: FixedUp(es, r) && Says(library, es, r, c)) <==> Settled(es) && Ordered(es)
  {
    PrintableFits(es);
    hide Says, FixedUp, Final, NamesDiffer, Ordered, Ascending, GivenDiffer, DefRoundTrip.NoLaterAt, DefRoundTrip.Placed,
      DefRoundTrip.Printable, SortOf;
    forall r | FixedUp(es, r)
      ensures Says(library, es, r, c) ==> Settled(es) && Ordered(es)
      ensures Settled(es) && Ascending(es) ==> Says(library, es, r, c)
    {
      SaysExactlyWhen(library, es, r, c);
      if Says(library, es, r, c) {
        UnchangedIs(es, r);
      }
      if Settled(es) && Ascending(es) {
        SameExports(es, r);
        SortedOnce(es, r);
      }
    }
    var some := FixupExists(es);
    if Settled(es) && Ordered(es) {
      IsSort(es, es);
      ChangesNothing(es, es);
      SaysExactlyWhen(library, es, es, c);
      if !Ascending(es) {
        var s := TiesCanSwap(es);
        ChangesNothing(es, s);
        SaysExactlyWhen(library, es, s, c);
      }
    }
    if Ascending(es) {
      AscendingIsOrdered(es);
    }
  }

  lemma AscendingIsOrdered(es: seq<Export>)
    requires Ascending(es)
    ensures Ordered(es)
  {
    forall i, j | 0 <= i < j < |es| ensures !Before(es[j], es[i]) {
      LessIsNotBack(es[i], es[j]);
    }
  }

  /** With repeated names that start with @ the two can agree by chance: the second
      @1 is lost to the reader as an ordinal and to fixupExports as a repetition. */
  lemma AtNamesCanAgree(library: string, c: Config)
    requires '"' !in library
    ensures var e := Export("@1", "@1", 0, false, false, false);
      FixedUp([e, e], [e.(ordinal := 1)]) && Says(library, [e, e], [e.(ordinal := 1)], c)
  {
    hide *;
    var e := Export("@1", "@1", 0, false, false, false);
    var r := [e.(ordinal := 1)];
    AtOne();
    RepeatedIsOne(e);
    FirstNumber(e);
    FixedUpBy([e, e], [e]);
    var c1 := c.(outputFile := WithDll(library), imageBase := 0);
    DefRoundTrip.ReadsLibrary(library, [e, e], c);
    DefRoundTrip.AtNameIsLost(c1, "@1", 1);
    DefRoundTrip.OnlyEndIsRead(c1.(exports := c1.exports + r), []);
    SaysMeant(library, [e, e], r, c);
  }

  lemma AtOne()
    ensures "@" + DefRoundTrip.Show(1) == "@1" && DefRoundTrip.ExportName("@1")
    ensures 1 < UINT16 && !First([]).Identifier?
  {
    assert DefRoundTrip.Show(1) == "1";
    assert DefRoundTrip.PlainChar('@') && DefRoundTrip.PlainChar('1');
  }

  lemma RepeatedIsOne(e: Export)
    requires e.ordinal == 0
    ensures Unique([e, e]) == [e] && GivenDiffer([e, e]) && SortOf([e], [e])
  {
    OneIsUnique(e);
    assert [e, e][..1] == [e] && HasName([e], e.name) by {
      assert [e][0].name == e.name;
    }
  }

  lemma SaysMeant(library: string, es: seq<Export>, r: seq<Export>, c: Config)
    requires forall k :: 0 <= k < |r| ==> r[k].name == r[k].extName
    requires Parse(c, TokensOf(DefRoundTrip.Write(library, es)), true)
          == Some(c.(outputFile := WithDll(library), imageBase := 0, exports := c.exports + r))
    ensures Says(library, es, r, c)
  {
    assert DefRoundTrip.External(r) == r;
    hide TokensOf, Parse, DefRoundTrip.Write, DefRoundTrip.External;
  }

  lemma FixedUpBy(es: seq<Export>, s: seq<Export>)
    requires GivenDiffer(es) && SortOf(Unique(es), s)
    ensures FixedUp(es, Assigned(s, Largest(s)))
  {
  }

  lemma MeantDiffers(library: string, es: seq<Export>, r: seq<Export>, c: Config)
    ensures DefRoundTrip.Meant(library, es, c) == DefRoundTrip.Meant(library, r, c) <==> es == r
  {
    if c.exports + es == c.exports + r {
      assert (c.exports + es)[|c.exports|..] == es && (c.exports + r)[|c.exports|..] == r;
    }
  }

  /** A single export without an ordinal: the image numbers it 1, the file does not
      number it. */
  lemma FileIsWrittenTooEarly(library: string, c: Config, r: seq<Export>)
    requires '"' !in library && c.exports == []
    requires FixedUp([Export("f", "f", 0, false, false, false)], r)
    ensures r == [Export("f", "f", 1, false, false, false)]
    ensures var p := Parse(c, TokensOf(DefRoundTrip.Write(library, [Export("f", "f", 0, false, false, false)])), true);
      p.Some? && p.value.exports == [Export("f", "f", 0, false, false, false)]
  {
    hide *;
    var e := Export("f", "f", 0, false, false, false);
    FIsPrintable(e);
    DefRoundTrip.RoundTrip(library, [e], c);
    assert DefRoundTrip.External([e]) == [e];
    MeantExports(library, [e], c);
    var s := SortedFirst([e], r);
    OneIsUnique(e);
    OneIsSorted(e, s);
    FirstNumber(e);
  }

  lemma FIsPrintable(e: Export)
    requires e == Export("f", "f", 0, false, false, false)
    ensures DefRoundTrip.Printable(e) && DefRoundTrip.Placed(e) && DefRoundTrip.NoLaterAt([e])
  {
    assert DefRoundTrip.PlainChar('f');
  }

  lemma MeantExports(library: string, es: seq<Export>, c: Config)
    requires c.exports == []
    ensures DefRoundTrip.Meant(library, es, c).exports == es
  {
    assert [] + es == es;
  }

  lemma OneIsUnique(e: Export)
    ensures Unique([e]) == [e]
  {
    assert [e][..0] == [];
  }

  lemma OneIsSorted(e: Export, s: seq<Export>)
    requires multiset(s) == multiset([e])
    ensures s == [e]
  {
    assert |multiset(s)| == |s| == 1 && s[0] in multiset(s);
  }

  lemma FirstNumber(e: Export)
    requires e.ordinal == 0
    ensures Assigned([e], Largest([e])) == [e.(ordinal := 1)]
  {
    assert [e][..0] == [];
    assert Largest([]) == 0 && Missing([]) == 0;
    ModSmall(1, UINT16);
  }
}
