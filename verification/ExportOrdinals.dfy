/** The ordinals of fixupExports (COFF/DriverUtils.cpp): those given by the user must
    differ, and exports without one get the next free numbers of sixteen bits. */
module ExportOrdinals {
  import opened Common
  import opened ModuleDef

  /** No ordinal is given twice. */
  predicate GivenDiffer(es: seq<Export>) {
    forall i, j :: 0 <= i < j < |es| ==> es[i].ordinal == 0 || es[i].ordinal != es[j].ordinal
  }

  predicate Fit(es: seq<Export>) {
    forall i :: 0 <= i < |es| ==> es[i].ordinal < UINT16
  }

  function Largest(es: seq<Export>): (m: nat)
    ensures forall i :: 0 <= i < |es| ==> es[i].ordinal <= m
    ensures Fit(es) ==> m < UINT16
  {
    if es == [] then 0
    else
      var m := Largest(es[..|es| - 1]);
      if es[|es| - 1].ordinal > m then es[|es| - 1].ordinal else m
  }

  function Missing(es: seq<Export>): (n: nat) {
    if es == [] then 0 else Missing(es[..|es| - 1]) + (if es[|es| - 1].ordinal == 0 then 1 else 0)
  }

  /** The last number given out after n of them, wrapping around. */
  function Counter(max: nat, n: nat): (c: nat) {
    (max + n) % UINT16
  }

  function Assigned(es: seq<Export>, max: nat): (r: seq<Export>)
    ensures |r| == |es|
    ensures forall k :: 0 <= k < |es| ==>
              r[k] == if es[k].ordinal != 0 then es[k]
                      else es[k].(ordinal := Counter(max, Missing(es[..k]) + 1))
  {
    if es == [] then []
    else
      var n := |es| - 1;
      var e := es[n];
      var r := Assigned(es[..n], max);
      assert forall k :: 0 <= k < n ==> es[..n][..k] == es[..k];
      r + [if e.ordinal != 0 then e else e.(ordinal := Counter(max, Missing(es[..n]) + 1))]
  }

  predicate AllNumbered(es: seq<Export>) {
    && (forall i :: 0 <= i < |es| ==> es[i].ordinal > 0)
    && (forall i, j :: 0 <= i < j < |es| ==> es[i].ordinal != es[j].ordinal)
  }

  lemma {:induction false} MissingGrows(es: seq<Export>, i: nat, j: nat)
    requires i <= j <= |es|
    ensures Missing(es[..i]) <= Missing(es[..j])
    ensures i < j && es[i].ordinal == 0 ==> Missing(es[..i]) < Missing(es[..j])
    decreases j
  {
    if i < j {
      MissingGrows(es, i, j - 1);
      assert es[..j][..j - 1] == es[..j - 1];
    }
  }

  /** The n-th export without an ordinal, counting from nothing. */
  lemma {:induction false} FindMissing(es: seq<Export>, n: nat) returns (k: nat)
    requires n < Missing(es)
    ensures k < |es| && es[k].ordinal == 0 && Missing(es[..k]) == n
    decreases |es|
  {
    var last := |es| - 1;
    if n < Missing(es[..last]) {
      k := FindMissing(es[..last], n);
      assert es[..last][..k] == es[..k];
    } else {
      k := last;
    }
  }

  lemma NumberOf(es: seq<Export>, i: nat)
    requires Fit(es) && i < |es|
    requires es[i].ordinal == 0 && Largest(es) + Missing(es[..i]) + 1 < UINT16
    ensures Assigned(es, Largest(es))[i].ordinal == Largest(es) + Missing(es[..i]) + 1
  {
    ModSmall(Largest(es) + Missing(es[..i]) + 1, UINT16);
  }

  lemma EnoughNumbers(es: seq<Export>)
    requires GivenDiffer(es) && Fit(es) && Largest(es) + Missing(es) < UINT16
    ensures AllNumbered(Assigned(es, Largest(es)))
  {
    var max := Largest(es);
    var r := Assigned(es, max);
    assert es[..|es|] == es;
    forall i | 0 <= i < |es|
      ensures r[i].ordinal == if es[i].ordinal == 0 then max + Missing(es[..i]) + 1 else es[i].ordinal
    {
      if es[i].ordinal == 0 {
        MissingGrows(es, i, |es|);
        NumberOf(es, i);
      }
    }
    hide Assigned, Largest, Missing;
    forall i, j | 0 <= i < j < |es| ensures r[i].ordinal != r[j].ordinal {
      if es[i].ordinal == 0 && es[j].ordinal == 0 {
        MissingGrows(es, i, j);
      }
    }
  }

  /** Every export ends up with an ordinal of its own if and only if the numbers
      above the largest given one suffice. */
  lemma NumberedExactlyWhen(es: seq<Export>)
    requires GivenDiffer(es) && Fit(es)
    ensures AllNumbered(Assigned(es, Largest(es))) <==> Largest(es) + Missing(es) < UINT16
  {
    hide Assigned, Missing;
    if Largest(es) + Missing(es) < UINT16 {
      EnoughNumbers(es);
    } else {
      var k := FindMissing(es, UINT16 - Largest(es) - 1);
      RunsOut(es, k);
      hide AllNumbered;
      SomeZero(Assigned(es, Largest(es)), k);
    }
  }

  /** The counter comes back to 0 after the last number of sixteen bits. */
  lemma RunsOut(es: seq<Export>, k: nat)
    requires Fit(es) && k < |es| && es[k].ordinal == 0 && Missing(es[..k]) + 1 == UINT16 - Largest(es)
    ensures Assigned(es, Largest(es))[k].ordinal == 0
  {
    hide Missing, Largest;
    assert Counter(Largest(es), UINT16 - Largest(es)) == UINT16 % UINT16 == 0;
  }

  lemma SomeZero(r: seq<Export>, k: nat)
    requires k < |r| && r[k].ordinal == 0
    ensures !AllNumbered(r)
  {
  }

  // ----- the loops of the source -----

  method OrdinalsDiffer(exports: seq<Export>) returns (ok: bool)
    ensures ok <==> GivenDiffer(exports)
  {
    var ords: set<nat> := {};
    for i := 0 to |exports|
      invariant GivenDiffer(exports[..i])
      invariant forall n :: n in ords <==> n != 0 && HasOrdinal(exports, i, n)
    {
      var e := exports[i];
      if e.ordinal in ords {
        assert HasOrdinal(exports, i, e.ordinal);
        return false;
      }
      if e.ordinal != 0 {
        ords := ords + {e.ordinal};
      }
      OneMoreOrdinal(exports, i);
    }
    assert exports[..|exports|] == exports;
    ok := true;
  }

  /** One of the first i exports has the ordinal n. */
  predicate HasOrdinal(es: seq<Export>, i: nat, n: nat)
    requires i <= |es|
  {
    exists k :: 0 <= k < i && es[k].ordinal == n
  }

  lemma OneMoreOrdinal(es: seq<Export>, i: nat)
    requires i < |es| && GivenDiffer(es[..i]) && (es[i].ordinal == 0 || !HasOrdinal(es, i, es[i].ordinal))
    ensures GivenDiffer(es[..i + 1])
    ensures forall n :: HasOrdinal(es, i + 1, n) <==> HasOrdinal(es, i, n) || n == es[i].ordinal
  {
    forall n ensures HasOrdinal(es, i + 1, n) <==> HasOrdinal(es, i, n) || n == es[i].ordinal {
    }
    assert forall k :: 0 <= k < i ==> es[..i + 1][k] == es[..i][k];
  }

  lemma NoneYet(es: seq<Export>, max: nat)
    requires max < UINT16
    ensures Assigned(es[..0], max) == [] && Counter(max, Missing(es[..0])) == max
  {
    ModSmall(max, UINT16);
  }

  lemma {:induction false} OneMore(es: seq<Export>, i: nat, max: nat)
    requires i < |es|
    ensures var c := Counter(max, Missing(es[..i]));
      var c' := (c + 1) % UINT16;
      if es[i].ordinal == 0
      then Assigned(es[..i + 1], max) == Assigned(es[..i], max) + [es[i].(ordinal := c')]
           && Counter(max, Missing(es[..i + 1])) == c'
      else Assigned(es[..i + 1], max) == Assigned(es[..i], max) + [es[i]]
           && Counter(max, Missing(es[..i + 1])) == c
  {
    var some := es[..i + 1];
    assert some[..i] == es[..i] && some[i] == es[i];
    MissingStep(some);
    AssignedStep(some, max);
    hide *;
    CounterStep(max, Missing(es[..i]));
  }

  lemma MissingStep(es: seq<Export>)
    requires es != []
    ensures var n := |es| - 1; Missing(es) == Missing(es[..n]) + (if es[n].ordinal == 0 then 1 else 0)
  {
  }

  lemma {:induction false} AssignedStep(es: seq<Export>, max: nat)
    requires es != []
    ensures var n := |es| - 1;
      Assigned(es, max) == Assigned(es[..n], max)
        + [if es[n].ordinal != 0 then es[n] else es[n].(ordinal := Counter(max, Missing(es[..n]) + 1))]
  {
    hide Missing, Counter;
  }

  lemma CounterStep(max: nat, n: nat)
    ensures Counter(max, n + 1) == (Counter(max, n) + 1) % UINT16
  {
    ModAddAdd(0, max + n, 1, UINT16);
  }

  method GiveOut(exports: seq<Export>, largest: nat) returns (out: seq<Export>)
    requires Fit(exports) && largest < UINT16
    ensures out == Assigned(exports, largest)
  {
    hide Assigned, Missing, Counter;
    var max := largest;
    out := [];
    NoneYet(exports, largest);
    for i := 0 to |exports|
      invariant out == Assigned(exports[..i], largest)
      invariant max == Counter(largest, Missing(exports[..i]))
    {
      OneMore(exports, i, largest);
      var e := exports[i];
      if e.ordinal == 0 {
        max := (max + 1) % UINT16;
        e := e.(ordinal := max);
      }
      out := out + [e];
    }
    assert exports[..|exports|] == exports;
  }

  lemma {:induction false} LargestIsGiven(es: seq<Export>)
    ensures Largest(es) == 0 || exists j :: 0 <= j < |es| && es[j].ordinal == Largest(es)
    decreases |es|
  {
    if es != [] {
      var n := |es| - 1;
      LargestIsGiven(es[..n]);
      assert es[n].ordinal == Largest(es) || Largest(es) == Largest(es[..n]);
    }
  }

  /** The number is above all given ones and all those handed out before it, and the
      number below it is among them, or it is 1. */
  ghost predicate NextFree(es: seq<Export>, r: seq<Export>, k: nat)
    requires |r| == |es| && k < |es|
  {
    && (forall j :: 0 <= j < |es| ==> es[j].ordinal < r[k].ordinal)
    && (forall j :: 0 <= j < k && es[j].ordinal == 0 ==> r[j].ordinal < r[k].ordinal)
    && (r[k].ordinal == 1
        || exists j :: 0 <= j < |es| && r[j].ordinal == r[k].ordinal - 1 && (es[j].ordinal != 0 || j < k))
  }

  /** While the numbers suffice every export without an ordinal gets the next one
      that is free. */
  lemma NumbersFollow(es: seq<Export>, k: nat)
    requires Fit(es) && Largest(es) + Missing(es) < 0x1_0000
    requires k < |es| && es[k].ordinal == 0
    ensures NextFree(es, Assigned(es, Largest(es)), k)
  {
    var max := Largest(es);
    var r := Assigned(es, max);
    assert es[..|es|] == es;
    MissingGrows(es, k, |es|);
    NumberOf(es, k);
    forall j | 0 <= j < k && es[j].ordinal == 0 ensures r[j].ordinal < r[k].ordinal {
      MissingGrows(es, j, k);
      NumberOf(es, j);
    }
    hide Assigned, Missing, Largest;
    if Missing(es[..k]) > 0 {
      var j := FindMissing(es, Missing(es[..k]) - 1);
      if k < j {
        MissingGrows(es, k, j);
      }
      NumberOf(es, j);
      assert r[j].ordinal == r[k].ordinal - 1 && j < k;
    } else if max > 0 {
      LargestIsGiven(es);
      var j :| 0 <= j < |es| && es[j].ordinal == max;
      assert r[j].ordinal == r[k].ordinal - 1;
    }
  }
}
