/** A list of add-in-place patches applied to a buffer, and when two lists of
    patches at the same places leave the same buffer behind. */
module Patches {
  import opened Common
  import opened Bytes

  datatype Patch = Patch(loc: nat, width: nat, addend: int)

  predicate InBounds(ps: seq<Patch>, size: nat) {
    forall k :: 0 <= k < |ps| ==> ps[k].loc + ps[k].width <= size
  }

  predicate Apart(loc: nat, w: nat, loc': nat, w': nat) {
    loc + w <= loc' || loc' + w' <= loc
  }

  predicate Disjoint(ps: seq<Patch>) {
    forall j, k :: 0 <= j < k < |ps| ==> Apart(ps[j].loc, ps[j].width, ps[k].loc, ps[k].width)
  }

  /** The patches one after the other, as the writer's loop applies them. */
  function ApplyAll(buf: seq<byte>, ps: seq<Patch>): (r: seq<byte>)
    requires InBounds(ps, |buf|)
    ensures |r| == |buf|
  {
    if ps == [] then buf
    else
      var p := ps[|ps| - 1];
      Add(ApplyAll(buf, ps[..|ps| - 1]), p.loc, p.width, p.addend)
  }

  lemma ApplySnoc(buf: seq<byte>, ps: seq<Patch>, p: Patch)
    requires InBounds(ps, |buf|) && p.loc + p.width <= |buf|
    ensures ApplyAll(buf, ps + [p]) == Add(ApplyAll(buf, ps), p.loc, p.width, p.addend)
  {
    assert (ps + [p])[..|ps|] == ps;
  }

  lemma {:induction false} ApplyAppend(buf: seq<byte>, ps: seq<Patch>, qs: seq<Patch>)
    requires InBounds(ps, |buf|) && InBounds(qs, |buf|)
    ensures ApplyAll(buf, ps + qs) == ApplyAll(ApplyAll(buf, ps), qs)
  {
    hide Add;
    if qs == [] {
      assert ps + qs == ps;
    } else {
      var front, q := qs[..|qs| - 1], qs[|qs| - 1];
      ApplyAppend(buf, ps, front);
      assert qs == front + [q] && ps + qs == (ps + front) + [q];
      ApplySnoc(buf, ps + front, q);
      ApplySnoc(ApplyAll(buf, ps), front, q);
    }
  }

  lemma {:induction false} ByteElsewhere(buf: seq<byte>, ps: seq<Patch>, i: nat)
    requires InBounds(ps, |buf|) && i < |buf|
    requires forall k :: 0 <= k < |ps| ==> !(ps[k].loc <= i < ps[k].loc + ps[k].width)
    ensures ApplyAll(buf, ps)[i] == buf[i]
  {
    if ps != [] {
      ByteElsewhere(buf, ps[..|ps| - 1], i);
    }
  }

  /** A field that no patch touches keeps its value. */
  lemma FieldElsewhere(buf: seq<byte>, ps: seq<Patch>, loc: nat, w: nat)
    requires InBounds(ps, |buf|) && loc + w <= |buf|
    requires forall k :: 0 <= k < |ps| ==> Apart(ps[k].loc, ps[k].width, loc, w)
    ensures ApplyAll(buf, ps)[loc..loc + w] == buf[loc..loc + w]
    ensures Read(ApplyAll(buf, ps), loc, w) == Read(buf, loc, w)
  {
    forall i | loc <= i < loc + w
      ensures ApplyAll(buf, ps)[i] == buf[i]
    {
      ByteElsewhere(buf, ps, i);
    }
    assert ApplyAll(buf, ps)[loc..loc + w] == buf[loc..loc + w];
  }

  /** When the fields are disjoint each one ends as its old value plus its own
      addend, wrapped to its width, whatever the order. */
  lemma {:induction false} FieldAfter(buf: seq<byte>, ps: seq<Patch>, k: nat)
    requires InBounds(ps, |buf|) && Disjoint(ps) && k < |ps|
    ensures Read(ApplyAll(buf, ps), ps[k].loc, ps[k].width)
         == (Read(buf, ps[k].loc, ps[k].width) + ps[k].addend) % Modulus(ps[k].width)
  {
    hide Add, Read, Modulus;
    var front, p := ps[..|ps| - 1], ps[|ps| - 1];
    var mid := ApplyAll(buf, front);
    if k == |ps| - 1 {
      FieldElsewhere(buf, front, p.loc, p.width);
      ReadAdd(mid, p.loc, p.width, p.addend);
    } else {
      FieldAfter(buf, front, k);
      ReadAddElsewhere(mid, p.loc, p.width, p.addend, ps[k].loc, ps[k].width);
    }
  }

  predicate SameFields(ps: seq<Patch>, qs: seq<Patch>) {
    |ps| == |qs| && forall k :: 0 <= k < |ps| ==> ps[k].loc == qs[k].loc && ps[k].width == qs[k].width
  }

  predicate Covered(ps: seq<Patch>, i: nat) {
    exists k :: 0 <= k < |ps| && ps[k].loc <= i < ps[k].loc + ps[k].width
  }

  /** Buffers that agree outside some fields and on every field are equal. */
  lemma EqualByFields(a: seq<byte>, b: seq<byte>, ps: seq<Patch>)
    requires |a| == |b| && InBounds(ps, |a|)
    requires forall i :: 0 <= i < |a| && !Covered(ps, i) ==> a[i] == b[i]
    requires forall k :: 0 <= k < |ps| ==> Read(a, ps[k].loc, ps[k].width) == Read(b, ps[k].loc, ps[k].width)
    ensures a == b
  {
    hide Decode;
    forall i | 0 <= i < |a| ensures a[i] == b[i] {
      if Covered(ps, i) {
        var k :| 0 <= k < |ps| && ps[k].loc <= i < ps[k].loc + ps[k].width;
        var p := ps[k];
        var fieldA, fieldB := a[p.loc..p.loc + p.width], b[p.loc..p.loc + p.width];
        assert Read(a, p.loc, p.width) == Read(b, p.loc, p.width);
        DecodeInjective(fieldA, fieldB);
        assert a[i] == fieldA[i - p.loc] && b[i] == fieldB[i - p.loc];
      }
    }
  }

  predicate Congruent(p: Patch, q: Patch) {
    (q.addend - p.addend) % Modulus(p.width) == 0
  }

  lemma SameField(buf: seq<byte>, ps: seq<Patch>, qs: seq<Patch>, k: nat)
    requires InBounds(ps, |buf|) && InBounds(qs, |buf|) && Disjoint(ps) && Disjoint(qs)
    requires SameFields(ps, qs) && k < |ps|
    ensures Read(ApplyAll(buf, ps), ps[k].loc, ps[k].width) == Read(ApplyAll(buf, qs), ps[k].loc, ps[k].width)
       <==> Congruent(ps[k], qs[k])
  {
    hide ApplyAll, Read, Modulus;
    FieldAfter(buf, ps, k);
    FieldAfter(buf, qs, k);
    ModEqual(Read(buf, ps[k].loc, ps[k].width), ps[k].addend, qs[k].addend, Modulus(ps[k].width));
  }

  lemma SameElsewhere(buf: seq<byte>, ps: seq<Patch>, qs: seq<Patch>, i: nat)
    requires InBounds(ps, |buf|) && InBounds(qs, |buf|) && SameFields(ps, qs)
    requires i < |buf| && !Covered(ps, i)
    ensures ApplyAll(buf, ps)[i] == ApplyAll(buf, qs)[i] == buf[i]
  {
    hide ApplyAll;
    ByteElsewhere(buf, ps, i);
    ByteElsewhere(buf, qs, i);
  }

  /** Two patch lists over the same disjoint fields have the same effect exactly
      when each pair of addends is congruent modulo the width of its field. */
  lemma SameEffect(buf: seq<byte>, ps: seq<Patch>, qs: seq<Patch>)
    requires InBounds(ps, |buf|) && InBounds(qs, |buf|) && Disjoint(ps) && Disjoint(qs)
    requires SameFields(ps, qs)
    ensures ApplyAll(buf, ps) == ApplyAll(buf, qs)
       <==> forall k :: 0 <= k < |ps| ==> Congruent(ps[k], qs[k])
  {
    hide ApplyAll, Read, Congruent, Covered;
    var a, b := ApplyAll(buf, ps), ApplyAll(buf, qs);
    forall k | 0 <= k < |ps|
      ensures Read(a, ps[k].loc, ps[k].width) == Read(b, ps[k].loc, ps[k].width)
         <==> Congruent(ps[k], qs[k])
    {
      SameField(buf, ps, qs, k);
    }
    if forall k :: 0 <= k < |ps| ==> Congruent(ps[k], qs[k]) {
      forall i | 0 <= i < |a| && !Covered(ps, i) ensures a[i] == b[i] {
        SameElsewhere(buf, ps, qs, i);
      }
      EqualByFields(a, b, ps);
    }
  }

  // ----- patching the same fields a second time -----

  lemma AddAdd(buf: seq<byte>, loc: nat, w: nat, a: int, b: int)
    requires loc + w <= |buf|
    ensures Add(Add(buf, loc, w, a), loc, w, b) == Add(buf, loc, w, a + b)
  {
    hide Encode, Decode, Modulus, Read;
    ReadAdd(buf, loc, w, a);
    ModAddAdd(Read(buf, loc, w), a, b, Modulus(w));
    var mid := Add(buf, loc, w, a);
    assert mid[..loc] == buf[..loc] && mid[loc + w..] == buf[loc + w..];
  }

  lemma AddCommutes(buf: seq<byte>, p: Patch, q: Patch)
    requires p.loc + p.width <= |buf| && q.loc + q.width <= |buf|
    requires Apart(p.loc, p.width, q.loc, q.width)
    ensures Add(Add(buf, p.loc, p.width, p.addend), q.loc, q.width, q.addend)
         == Add(Add(buf, q.loc, q.width, q.addend), p.loc, p.width, p.addend)
  {
    ReadAddElsewhere(buf, p.loc, p.width, p.addend, q.loc, q.width);
    ReadAddElsewhere(buf, q.loc, q.width, q.addend, p.loc, p.width);
    hide Encode, Decode, Modulus, Read;
  }

  lemma {:induction false} AddCommutesWithAll(buf: seq<byte>, p: Patch, qs: seq<Patch>)
    requires p.loc + p.width <= |buf| && InBounds(qs, |buf|)
    requires ApartFromAll(p, qs)
    ensures ApplyAll(Add(buf, p.loc, p.width, p.addend), qs)
         == Add(ApplyAll(buf, qs), p.loc, p.width, p.addend)
  {
    if qs != [] {
      var front, q := qs[..|qs| - 1], qs[|qs| - 1];
      AddCommutesWithAll(buf, p, front);
      hide Add;
      AddCommutes(ApplyAll(buf, front), p, q);
    }
  }

  /** The second pass of patches: one of the given width and addend at each
      selected field. */
  function Second(ps: seq<Patch>, selected: seq<bool>, width: nat, addend: int): (qs: seq<Patch>)
    requires |selected| == |ps|
  {
    if ps == [] then []
    else
      var n := |ps| - 1;
      var front := Second(ps[..n], selected[..n], width, addend);
      if selected[n] then front + [Patch(ps[n].loc, width, addend)] else front
  }

  /** What both passes add to each field together. */
  function Merged(ps: seq<Patch>, selected: seq<bool>, addend: int): (qs: seq<Patch>)
    requires |selected| == |ps|
    ensures |qs| == |ps|
    ensures forall k :: 0 <= k < |ps| ==>
      qs[k] == Patch(ps[k].loc, ps[k].width, ps[k].addend + (if selected[k] then addend else 0))
  {
    seq(|ps|, k requires 0 <= k < |ps| =>
      Patch(ps[k].loc, ps[k].width, ps[k].addend + (if selected[k] then addend else 0)))
  }

  lemma {:induction false} SecondInBounds(ps: seq<Patch>, selected: seq<bool>, width: nat, addend: int, size: nat)
    requires InBounds(ps, size) && |selected| == |ps|
    requires forall k :: 0 <= k < |ps| && selected[k] ==> ps[k].width == width
    ensures InBounds(Second(ps, selected, width, addend), size)
  {
    if ps != [] {
      SecondInBounds(ps[..|ps| - 1], selected[..|ps| - 1], width, addend, size);
    }
  }

  predicate ApartFromAll(p: Patch, qs: seq<Patch>) {
    forall j :: 0 <= j < |qs| ==> Apart(p.loc, p.width, qs[j].loc, qs[j].width)
  }

  lemma {:induction false} SecondApart(ps: seq<Patch>, selected: seq<bool>, width: nat, addend: int, p: Patch)
    requires |selected| == |ps|
    requires forall k :: 0 <= k < |ps| && selected[k] ==> ps[k].width == width
    requires ApartFromAll(p, ps)
    ensures ApartFromAll(p, Second(ps, selected, width, addend))
  {
    if ps != [] {
      var n := |ps| - 1;
      SecondApart(ps[..n], selected[..n], width, addend, p);
      assert Apart(p.loc, p.width, ps[n].loc, ps[n].width);
      assert selected[n] ==> ps[n].width == width;
    }
  }

  lemma TwoPassesStep(mid: seq<byte>, p: Patch, second: seq<Patch>, selected: bool, width: nat, addend: int)
    requires p.loc + p.width <= |mid| && InBounds(second, |mid|)
    requires ApartFromAll(p, second)
    requires selected ==> p.width == width
    ensures ApplyAll(Add(mid, p.loc, p.width, p.addend), second)
         == Add(ApplyAll(mid, second), p.loc, p.width, p.addend)
    ensures selected ==>
      InBounds(second + [Patch(p.loc, width, addend)], |mid|)
      && ApplyAll(Add(mid, p.loc, p.width, p.addend), second + [Patch(p.loc, width, addend)])
         == Add(ApplyAll(mid, second), p.loc, p.width, p.addend + addend)
  {
    hide Add;
    AddCommutesWithAll(mid, p, second);
    if selected {
      ApplySnoc(Add(mid, p.loc, p.width, p.addend), second, Patch(p.loc, width, addend));
      AddAdd(ApplyAll(mid, second), p.loc, width, p.addend, addend);
    }
  }

  /** Two passes over disjoint fields are one pass with the sums. */
  lemma {:induction false} TwoPasses(buf: seq<byte>, ps: seq<Patch>, selected: seq<bool>, width: nat, addend: int)
    requires InBounds(ps, |buf|) && Disjoint(ps) && |selected| == |ps|
    requires forall k :: 0 <= k < |ps| && selected[k] ==> ps[k].width == width
    ensures InBounds(Second(ps, selected, width, addend), |buf|)
    ensures ApplyAll(ApplyAll(buf, ps), Second(ps, selected, width, addend))
         == ApplyAll(buf, Merged(ps, selected, addend))
  {
    hide ApplyAll, Add, Second, Modulus;
    SecondInBounds(ps, selected, width, addend, |buf|);
    ApplyUnfold(buf, ps);
    ApplyUnfold(buf, Merged(ps, selected, addend));
    SecondUnfold(ps, selected, width, addend);
    if ps != [] {
      var n := |ps| - 1;
      var front, p, sel := ps[..n], ps[n], selected[..n];
      TwoPasses(buf, front, sel, width, addend);
      SecondApart(front, sel, width, addend, p);
      assert Merged(ps, selected, addend)[..n] == Merged(front, sel, addend);
      var second := Second(front, sel, width, addend);
      TwoPassesStep(ApplyAll(buf, front), p, second, selected[n], width, addend);
      assert !selected[n] ==> second + [] == second;
    }
  }

  lemma ApplyUnfold(buf: seq<byte>, ps: seq<Patch>)
    requires InBounds(ps, |buf|)
    ensures ps == [] ==> ApplyAll(buf, ps) == buf
    ensures ps != [] ==>
      var n := |ps| - 1;
      ApplyAll(buf, ps) == Add(ApplyAll(buf, ps[..n]), ps[n].loc, ps[n].width, ps[n].addend)
  {
  }

  lemma SecondUnfold(ps: seq<Patch>, selected: seq<bool>, width: nat, addend: int)
    requires |selected| == |ps|
    ensures ps == [] ==> Second(ps, selected, width, addend) == []
    ensures ps != [] ==>
      var n := |ps| - 1;
      Second(ps, selected, width, addend) == Second(ps[..n], selected[..n], width, addend)
        + if selected[n] then [Patch(ps[n].loc, width, addend)] else []
  {
  }
}
