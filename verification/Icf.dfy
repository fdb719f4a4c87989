/** Identical COMDAT folding (COFF/ICF.cpp, with SectionChunk::equals, getHash
    and replaceWith from COFF/Chunks.cpp). Chunks are named by their position in
    the list that doICF walks, and Ptr is such a position. */
module Icf {
  /** A symbol after repl(). Two bodies are the same object when their ids agree. */
  datatype Body =
    | Regular(id: nat, chunk: nat, value: nat)
    | OtherBody(id: nat)

  datatype Reloc = Reloc(ty: nat, off: nat, sym: Body)

  datatype Chunk = Chunk(
    isSection: bool, isComdat: bool,
    perms: nat, name: string, size: nat, contents: seq<nat>,
    relocs: seq<Reloc>, children: seq<nat>)

  type Graph = seq<Chunk>

  predicate ValidBody(g: Graph, b: Body) {
    b.Regular? ==> b.chunk < |g|
  }

  predicate ValidGraph(g: Graph) {
    forall c :: 0 <= c < |g| ==>
      && (forall i :: 0 <= i < |g[c].relocs| ==> ValidBody(g, g[c].relocs[i].sym))
      && (forall i :: 0 <= i < |g[c].children| ==> g[c].children[i] < |g|)
  }

  /** The two fields that folding changes on each chunk. */
  datatype State = State(ptr: seq<nat>, live: seq<bool>)

  /** Before folding every chunk stands for itself. */
  predicate Initial(g: Graph, s: State) {
    |s.ptr| == |s.live| == |g| && forall c :: 0 <= c < |g| ==> s.ptr[c] == c
  }

  predicate Pointing(g: Graph, ptr: seq<nat>) {
    |ptr| == |g| && forall c :: 0 <= c < |g| ==> ptr[c] <= c
  }

  /** The end of the chain of replacements. */
  function Root(ptr: seq<nat>, c: nat): (r: nat)
    requires forall x :: 0 <= x < |ptr| ==> ptr[x] <= x
    requires c < |ptr|
    ensures r <= c && ptr[r] == r
  {
    if ptr[c] == c then c else Root(ptr, ptr[c])
  }

  // ----- equals and getHash -----

  predicate SameHeader(a: Chunk, b: Chunk) {
    && a.perms == b.perms && a.name == b.name && a.size == b.size
    && |a.relocs| == |b.relocs| && a.contents == b.contents
    && |a.children| == |b.children|
  }

  /** The relocation half of equals: the same object, or two regular symbols at
      the same offset of chunks with the same Ptr. */
  predicate EqualTargets(g: Graph, ptr: seq<nat>, a: Body, b: Body)
    requires |ptr| == |g| && ValidBody(g, a) && ValidBody(g, b)
  {
    a == b || (a.Regular? && b.Regular? && a.value == b.value && ptr[a.chunk] == ptr[b.chunk])
  }

  predicate Equals(g: Graph, ptr: seq<nat>, a: nat, b: nat)
    requires ValidGraph(g) && |ptr| == |g| && a < |g| && b < |g|
  {
    var x, y := g[a], g[b];
    && SameHeader(x, y)
    && (forall i :: 0 <= i < |x.children| ==> ptr[x.children[i]] == ptr[y.children[i]])
    && (forall i :: 0 <= i < |x.relocs| ==>
          x.relocs[i].ty == y.relocs[i].ty && x.relocs[i].off == y.relocs[i].off
          && EqualTargets(g, ptr, x.relocs[i].sym, y.relocs[i].sym))
  }

  /** What getHash combines. Ptr is not part of it. */
  datatype HashKey = HashKey(perms: nat, name: string, numRelocs: nat, size: nat, contents: seq<nat>)

  function KeyOf(c: Chunk): (k: HashKey) {
    HashKey(c.perms, c.name, |c.relocs|, c.size, c.contents)
  }

  /** How the hash set looks a chunk up: the hash first, then equals. */
  predicate Matches(g: Graph, hash: HashKey -> int, ptr: seq<nat>, a: nat, b: nat)
    requires ValidGraph(g) && |ptr| == |g| && a < |g| && b < |g|
  {
    hash(KeyOf(g[a])) == hash(KeyOf(g[b])) && Equals(g, ptr, a, b)
  }

  /** Equal chunks always land in the same bucket, at every stage of folding, so
      looking only there loses nothing. */
  lemma HashAgreesWithEquals(g: Graph, hash: HashKey -> int, ptr: seq<nat>, a: nat, b: nat)
    requires ValidGraph(g) && |ptr| == |g| && a < |g| && b < |g|
    ensures Matches(g, hash, ptr, a, b) <==> Equals(g, ptr, a, b)
    ensures Equals(g, ptr, a, b) <==> Equals(g, ptr, b, a)
  {
    if Equals(g, ptr, a, b) || Equals(g, ptr, b, a) {
      assert KeyOf(g[a]) == KeyOf(g[b]);
    }
    assert forall x: Body, y: Body :: ValidBody(g, x) && ValidBody(g, y) ==>
      EqualTargets(g, ptr, x, y) == EqualTargets(g, ptr, y, x);
  }

  // ----- the algorithm as a relation -----

  /** replaceWith. */
  function Fold(s: State, c: nat, e: nat): (s': State)
    requires c < |s.ptr| == |s.live| && e < |s.ptr|
    ensures |s'.ptr| == |s.ptr| && |s'.live| == |s.live|
  {
    State(s.ptr[c := s.ptr[e]], s.live[c := false])
  }

  predicate Candidate(g: Graph, s: State, c: nat)
    requires |s.live| == |g| && c < |g|
  {
    g[c].isSection && g[c].isComdat && s.live[c]
  }

  /** One pass over the chunks from position i with the hash set seen: either
      there is nothing to match and the chunk is inserted, or it is replaced by
      some matching member of the set. */
  ghost predicate Pass(g: Graph, hash: HashKey -> int, s: State, seen: set<nat>, i: nat, s': State, redo: bool)
    requires ValidGraph(g) && |s.ptr| == |s.live| == |g|
    requires i <= |g| && forall e :: e in seen ==> e < i
    decreases |g| - i
  {
    if i == |g| then s' == s && !redo
    else if !Candidate(g, s, i) then Pass(g, hash, s, seen, i + 1, s', redo)
    else if forall e :: e in seen ==> !Matches(g, hash, s.ptr, i, e) then
      Pass(g, hash, s, seen + {i}, i + 1, s', redo)
    else
      && redo
      && exists e :: e in seen && Matches(g, hash, s.ptr, i, e)
           && (Pass(g, hash, Fold(s, i, e), seen, i + 1, s', true)
               || Pass(g, hash, Fold(s, i, e), seen, i + 1, s', false))
  }

  /** doICF: passes until one of them folds nothing. */
  ghost predicate Run(g: Graph, hash: HashKey -> int, states: seq<State>)
    requires ValidGraph(g)
  {
    && |states| >= 2
    && (forall k :: 0 <= k < |states| ==> |states[k].ptr| == |states[k].live| == |g|)
    && (forall k :: 0 <= k < |states| - 1 ==>
          Pass(g, hash, states[k], {}, 0, states[k + 1], k + 1 < |states| - 1))
  }

  lemma PassEnds(g: Graph, hash: HashKey -> int, s: State, seen: set<nat>)
    requires ValidGraph(g) && |s.ptr| == |s.live| == |g| && forall e :: e in seen ==> e < |g|
    ensures Pass(g, hash, s, seen, |g|, s, false)
  {
  }

  lemma PassSkips(g: Graph, hash: HashKey -> int, s: State, seen: set<nat>, i: nat, s': State, redo: bool)
    requires ValidGraph(g) && |s.ptr| == |s.live| == |g|
    requires i < |g| && forall e :: e in seen ==> e < i
    requires !Candidate(g, s, i) && Pass(g, hash, s, seen, i + 1, s', redo)
    ensures Pass(g, hash, s, seen, i, s', redo)
  {
  }

  lemma PassInserts(g: Graph, hash: HashKey -> int, s: State, seen: set<nat>, more: set<nat>, i: nat, s': State, redo: bool)
    requires ValidGraph(g) && |s.ptr| == |s.live| == |g|
    requires i < |g| && (forall e :: e in seen ==> e < i) && more == seen + {i}
    requires Candidate(g, s, i) && forall e :: e in seen ==> !Matches(g, hash, s.ptr, i, e)
    requires Pass(g, hash, s, more, i + 1, s', redo)
    ensures Pass(g, hash, s, seen, i, s', redo)
  {
    hide Equals;
  }

  lemma PassReplaces(g: Graph, hash: HashKey -> int, s: State, seen: set<nat>, i: nat, e: nat, s': State, more: bool)
    requires ValidGraph(g) && |s.ptr| == |s.live| == |g|
    requires i < |g| && forall x :: x in seen ==> x < i
    requires Candidate(g, s, i) && e in seen && Matches(g, hash, s.ptr, i, e)
    requires Pass(g, hash, Fold(s, i, e), seen, i + 1, s', more)
    ensures Pass(g, hash, s, seen, i, s', true)
  {
    hide Equals;
  }

  // ----- what folding preserves -----

  predicate RelatedTargets(g: Graph, ptr: seq<nat>, a: Body, b: Body)
    requires Pointing(g, ptr) && ValidBody(g, a) && ValidBody(g, b)
  {
    a == b || (a.Regular? && b.Regular? && a.value == b.value && Root(ptr, a.chunk) == Root(ptr, b.chunk))
  }

  /** Two chunks look the same if chunks with the same root count as one. */
  predicate Alike(g: Graph, ptr: seq<nat>, a: nat, b: nat)
    requires ValidGraph(g) && Pointing(g, ptr) && a < |g| && b < |g|
  {
    var x, y := g[a], g[b];
    && SameHeader(x, y)
    && (forall i :: 0 <= i < |x.children| ==> Root(ptr, x.children[i]) == Root(ptr, y.children[i]))
    && (forall i :: 0 <= i < |x.relocs| ==>
          x.relocs[i].ty == y.relocs[i].ty && x.relocs[i].off == y.relocs[i].off
          && RelatedTargets(g, ptr, x.relocs[i].sym, y.relocs[i].sym))
  }

  /** Holds before, during and after folding. */
  predicate Invariant(g: Graph, s: State) {
    && ValidGraph(g) && |s.live| == |g| && Pointing(g, s.ptr)
    && (forall c :: 0 <= c < |g| && s.live[c] ==> s.ptr[c] == c)
    && (forall c :: 0 <= c < |g| && s.ptr[c] != c ==> s.live[Root(s.ptr, c)])
    && (forall c :: 0 <= c < |g| ==> Alike(g, s.ptr, c, s.ptr[c]))
  }

  lemma InitialInvariant(g: Graph, s: State)
    requires ValidGraph(g) && Initial(g, s)
    ensures Invariant(g, s)
  {
  }

  lemma RootOfPtr(ptr: seq<nat>, a: nat, b: nat)
    requires forall x :: 0 <= x < |ptr| ==> ptr[x] <= x
    requires a < |ptr| && b < |ptr| && ptr[a] == ptr[b]
    ensures Root(ptr, a) == Root(ptr, b)
  {
    assert Root(ptr, a) == Root(ptr, ptr[a]);
    assert Root(ptr, b) == Root(ptr, ptr[b]);
  }

  /** Equal Ptr fields imply equal roots, so equals implies Alike. */
  lemma EqualsImpliesAlike(g: Graph, ptr: seq<nat>, a: nat, b: nat)
    requires ValidGraph(g) && Pointing(g, ptr) && a < |g| && b < |g|
    requires Equals(g, ptr, a, b)
    ensures Alike(g, ptr, a, b)
  {
    var x, y := g[a], g[b];
    forall i | 0 <= i < |x.children|
      ensures Root(ptr, x.children[i]) == Root(ptr, y.children[i])
    {
      RootOfPtr(ptr, x.children[i], y.children[i]);
    }
    forall i | 0 <= i < |x.relocs|
      ensures RelatedTargets(g, ptr, x.relocs[i].sym, y.relocs[i].sym)
    {
      var p, q := x.relocs[i].sym, y.relocs[i].sym;
      assert EqualTargets(g, ptr, p, q);
      if p != q {
        RootOfPtr(ptr, p.chunk, q.chunk);
      }
    }
  }

  /** Folding c into e only moves the chunks whose root was c. */
  lemma {:induction false} RootAfterFold(ptr: seq<nat>, c: nat, e: nat, x: nat)
    requires forall y :: 0 <= y < |ptr| ==> ptr[y] <= y
    requires e < c < |ptr| && x < |ptr| && ptr[c] == c && ptr[e] == e
    ensures Root(ptr[c := e], x) == if Root(ptr, x) == c then e else Root(ptr, x)
    decreases x
  {
    if ptr[x] != x {
      RootAfterFold(ptr, c, e, ptr[x]);
    } else if x == c {
      assert Root(ptr[c := e], c) == Root(ptr[c := e], e) == e;
    }
  }

  lemma AlikeAfterFold(g: Graph, ptr: seq<nat>, c: nat, e: nat, a: nat, b: nat)
    requires ValidGraph(g) && Pointing(g, ptr) && a < |g| && b < |g|
    requires e < c < |g| && ptr[c] == c && ptr[e] == e
    requires Alike(g, ptr, a, b)
    ensures Alike(g, ptr[c := e], a, b)
  {
    var x, y := g[a], g[b];
    forall i | 0 <= i < |x.children|
      ensures Root(ptr[c := e], x.children[i]) == Root(ptr[c := e], y.children[i])
    {
      RootAfterFold(ptr, c, e, x.children[i]);
      RootAfterFold(ptr, c, e, y.children[i]);
    }
    forall i | 0 <= i < |x.relocs|
      ensures RelatedTargets(g, ptr[c := e], x.relocs[i].sym, y.relocs[i].sym)
    {
      var p, q := x.relocs[i].sym, y.relocs[i].sym;
      assert RelatedTargets(g, ptr, p, q);
      if p != q {
        RootAfterFold(ptr, c, e, p.chunk);
        RootAfterFold(ptr, c, e, q.chunk);
      }
    }
  }

  lemma FoldKeepsInvariant(g: Graph, s: State, c: nat, e: nat)
    requires Invariant(g, s) && e < c < |g| && s.live[c] && s.live[e]
    requires Equals(g, s.ptr, c, e)
    ensures Invariant(g, Fold(s, c, e))
  {
    var s' := Fold(s, c, e);
    hide Alike, Equals;
    forall x | 0 <= x < |g|
      ensures Alike(g, s'.ptr, x, s'.ptr[x])
      ensures s'.ptr[x] != x ==> s'.live[Root(s'.ptr, x)]
    {
      RootAfterFold(s.ptr, c, e, x);
      if x == c {
        EqualsImpliesAlike(g, s.ptr, c, e);
        AlikeAfterFold(g, s.ptr, c, e, c, e);
      } else {
        AlikeAfterFold(g, s.ptr, c, e, x, s.ptr[x]);
      }
    }
  }

  function LiveSet(s: State): (l: set<nat>) {
    set c: nat | 0 <= c < |s.live| && s.live[c]
  }

  /** No two surviving COMDAT chunks are equal. */
  predicate Stable(g: Graph, s: State)
    requires ValidGraph(g) && |s.ptr| == |s.live| == |g|
  {
    forall a, b :: 0 <= a < b < |g| && Candidate(g, s, a) && Candidate(g, s, b) ==> !Equals(g, s.ptr, b, a)
  }

  /** The hash set holds exactly the surviving candidates visited so far. */
  predicate SeenOk(g: Graph, s: State, seen: set<nat>, i: nat)
    requires ValidGraph(g) && |s.ptr| == |s.live| == |g| && i <= |g|
  {
    && (forall e :: e in seen ==> e < i && Candidate(g, s, e))
    && (forall e :: 0 <= e < i && Candidate(g, s, e) ==> e in seen)
  }

  predicate Unequal(g: Graph, s: State, i: nat)
    requires ValidGraph(g) && |s.ptr| == |s.live| == |g| && i <= |g|
  {
    forall a, b :: 0 <= a < b < i && Candidate(g, s, a) && Candidate(g, s, b) ==> !Equals(g, s.ptr, b, a)
  }

  /** A pass keeps the invariant; if it asks for another one it has shrunk the set
      of live chunks, otherwise it changed nothing and left no equal pair. */
  lemma {:induction false} PassKeeps(g: Graph, hash: HashKey -> int, s: State, seen: set<nat>, i: nat, s': State, redo: bool)
    requires Invariant(g, s) && i <= |g| && SeenOk(g, s, seen, i)
    requires Pass(g, hash, s, seen, i, s', redo)
    ensures Invariant(g, s') && LiveSet(s') <= LiveSet(s)
    ensures redo ==> LiveSet(s') < LiveSet(s)
    ensures !redo ==> s' == s && (Unequal(g, s, i) ==> Stable(g, s))
    decreases |g| - i
  {
    hide Equals, Alike, Root, Invariant, Candidate, Matches;
    RevealShape(g, s);
    if i == |g| {
    } else if !Candidate(g, s, i) {
      SeenSkips(g, s, seen, i);
      PassKeeps(g, hash, s, seen, i + 1, s', redo);
    } else if forall e :: e in seen ==> !Matches(g, hash, s.ptr, i, e) {
      SeenInserts(g, hash, s, seen, i);
      PassKeeps(g, hash, s, seen + {i}, i + 1, s', redo);
    } else {
      HashAgreesAll(g, hash, s, seen, i);
      var e :| e in seen && Matches(g, hash, s.ptr, i, e)
        && (Pass(g, hash, Fold(s, i, e), seen, i + 1, s', true)
            || Pass(g, hash, Fold(s, i, e), seen, i + 1, s', false));
      PassFolds(g, s, seen, i, e);
      var more := Pass(g, hash, Fold(s, i, e), seen, i + 1, s', true);
      PassKeeps(g, hash, Fold(s, i, e), seen, i + 1, s', more);
    }
  }

  lemma SeenSkips(g: Graph, s: State, seen: set<nat>, i: nat)
    requires ValidGraph(g) && |s.ptr| == |s.live| == |g| && i < |g|
    requires SeenOk(g, s, seen, i) && !Candidate(g, s, i)
    ensures SeenOk(g, s, seen, i + 1) && (Unequal(g, s, i) ==> Unequal(g, s, i + 1))
  {
    hide Equals, Candidate;
  }

  lemma SeenInserts(g: Graph, hash: HashKey -> int, s: State, seen: set<nat>, i: nat)
    requires ValidGraph(g) && |s.ptr| == |s.live| == |g| && i < |g|
    requires SeenOk(g, s, seen, i) && Candidate(g, s, i)
    requires forall e :: e in seen ==> !Matches(g, hash, s.ptr, i, e)
    ensures SeenOk(g, s, seen + {i}, i + 1) && (Unequal(g, s, i) ==> Unequal(g, s, i + 1))
  {
    hide Equals, Candidate, Matches;
    HashAgreesAll(g, hash, s, seen, i);
  }

  lemma HashAgreesAll(g: Graph, hash: HashKey -> int, s: State, seen: set<nat>, i: nat)
    requires ValidGraph(g) && |s.ptr| == |s.live| == |g| && i < |g| && SeenOk(g, s, seen, i)
    ensures forall e :: e in seen ==> (Matches(g, hash, s.ptr, i, e) <==> Equals(g, s.ptr, i, e))
  {
    hide Equals, Candidate, Matches;
    forall e | e in seen ensures Matches(g, hash, s.ptr, i, e) <==> Equals(g, s.ptr, i, e) {
      HashAgreesWithEquals(g, hash, s.ptr, i, e);
    }
  }

  lemma PassFolds(g: Graph, s: State, seen: set<nat>, i: nat, e: nat)
    requires Invariant(g, s) && i < |g| && SeenOk(g, s, seen, i)
    requires Candidate(g, s, i) && e in seen && Equals(g, s.ptr, i, e)
    ensures Invariant(g, Fold(s, i, e)) && SeenOk(g, Fold(s, i, e), seen, i + 1)
    ensures LiveSet(Fold(s, i, e)) < LiveSet(s)
  {
    hide Equals, Alike, Root;
    FoldKeepsInvariant(g, s, i, e);
    assert i in LiveSet(s) && i !in LiveSet(Fold(s, i, e));
    assert LiveSet(Fold(s, i, e)) <= LiveSet(s);
  }

  lemma {:induction false} RunKeeps(g: Graph, hash: HashKey -> int, states: seq<State>, k: nat)
    requires ValidGraph(g) && Run(g, hash, states) && Initial(g, states[0]) && k < |states|
    ensures Invariant(g, states[k])
    ensures k == |states| - 1 ==> Stable(g, states[k]) && states[k] == states[k - 1]
    ensures 0 < k < |states| - 1 ==> LiveSet(states[k]) < LiveSet(states[k - 1])
  {
    if k == 0 {
      InitialInvariant(g, states[0]);
    } else {
      RunKeeps(g, hash, states, k - 1);
      hide Invariant, Pass, Stable;
      assert Pass(g, hash, states[k - 1], {}, 0, states[k - 1 + 1], k - 1 + 1 < |states| - 1);
      PassKeeps(g, hash, states[k - 1], {}, 0, states[k], k < |states| - 1);
    }
  }

  /** Folding ends in a state where nothing is left to fold, every chain of
      replacements goes to earlier chunks and ends, and a folded chunk's chain
      ends in a live one. */
  lemma RunEndsStable(g: Graph, hash: HashKey -> int, states: seq<State>)
    requires ValidGraph(g) && Run(g, hash, states) && Initial(g, states[0])
    ensures var s := states[|states| - 1];
      && Pointing(g, s.ptr) && Stable(g, s)
      && (forall c :: 0 <= c < |g| && s.ptr[c] != c ==> s.live[Root(s.ptr, c)] && !s.live[c])
  {
    RunKeeps(g, hash, states, |states| - 1);
  }

  // ----- what counts as identical -----

  /** Where a symbol leads: a place in the chunk its own chunk stands for, or
      something outside the chunks. */
  datatype Place = In(ptr: nat, value: nat) | Outside(id: nat)
  datatype Field = Field(ty: nat, off: nat, place: Place)

  /** Everything a chunk is to a reader who cannot tell folded chunks apart. */
  datatype View = View(perms: nat, name: string, size: nat, contents: seq<nat>, relocs: seq<Field>, children: seq<nat>)

  function PlaceOf(ptr: seq<nat>, b: Body): (p: Place)
    requires b.Regular? ==> b.chunk < |ptr|
  {
    match b
    case Regular(_, chunk, value) => In(ptr[chunk], value)
    case OtherBody(id) => Outside(id)
  }

  function ViewOf(g: Graph, ptr: seq<nat>, c: nat): (v: View)
    requires ValidGraph(g) && |ptr| == |g| && c < |g|
  {
    var x := g[c];
    View(x.perms, x.name, x.size, x.contents,
      seq(|x.relocs|, i requires 0 <= i < |x.relocs| =>
        Field(x.relocs[i].ty, x.relocs[i].off, PlaceOf(ptr, x.relocs[i].sym))),
      seq(|x.children|, i requires 0 <= i < |x.children| => ptr[x.children[i]]))
  }

  /** equals compares exactly what the view holds. */
  lemma EqualsIsSameView(g: Graph, ptr: seq<nat>, a: nat, b: nat)
    requires ValidGraph(g) && |ptr| == |g| && a < |g| && b < |g|
    ensures Equals(g, ptr, a, b) <==> ViewOf(g, ptr, a) == ViewOf(g, ptr, b)
  {
    var x, y := g[a], g[b];
    var v, w := ViewOf(g, ptr, a), ViewOf(g, ptr, b);
    if Equals(g, ptr, a, b) {
      assert forall i :: 0 <= i < |x.relocs| ==> EqualTargets(g, ptr, x.relocs[i].sym, y.relocs[i].sym);
      assert v.relocs == w.relocs && v.children == w.children;
    }
    if v == w {
      assert |v.relocs| == |w.relocs| && |v.children| == |w.children|;
      forall i | 0 <= i < |x.children| ensures ptr[x.children[i]] == ptr[y.children[i]] {
        assert v.children[i] == w.children[i];
      }
      forall i | 0 <= i < |x.relocs|
        ensures x.relocs[i].ty == y.relocs[i].ty && x.relocs[i].off == y.relocs[i].off
        ensures EqualTargets(g, ptr, x.relocs[i].sym, y.relocs[i].sym)
      {
        assert v.relocs[i] == w.relocs[i];
      }
    }
  }

  /** When a run ends, live COMDAT sections all look different. */
  lemma SurvivorsDiffer(g: Graph, hash: HashKey -> int, states: seq<State>, a: nat, b: nat)
    requires ValidGraph(g) && Run(g, hash, states) && Initial(g, states[0])
    requires a < |g| && b < |g| && a != b
    requires g[a].isSection && g[a].isComdat && g[b].isSection && g[b].isComdat
    requires states[|states| - 1].live[a] && states[|states| - 1].live[b]
    ensures ViewOf(g, states[|states| - 1].ptr, a) != ViewOf(g, states[|states| - 1].ptr, b)
  {
    hide Equals, ViewOf;
    var s := states[|states| - 1];
    RunKeeps(g, hash, states, |states| - 1);
    assert Candidate(g, s, a) && Candidate(g, s, b);
    var x, y := if a < b then a else b, if a < b then b else a;
    assert !Equals(g, s.ptr, y, x);
    EqualsIsSameView(g, s.ptr, y, x);
  }

  // ----- what folding leaves alone -----

  /** What later states of folding may differ in: a COMDAT section that was live
      dies and is sent to another such section; nothing else changes. */
  predicate OnlyFolds(g: Graph, s: State, t: State)
    requires |s.ptr| == |s.live| == |g|
  {
    && |t.ptr| == |t.live| == |g|
    && forall c :: 0 <= c < |g| ==>
         || (t.ptr[c] == s.ptr[c] && t.live[c] == s.live[c])
         || (g[c].isSection && g[c].isComdat && s.live[c] && !t.live[c]
             && t.ptr[c] < |g| && g[t.ptr[c]].isSection && g[t.ptr[c]].isComdat && s.live[t.ptr[c]])
  }

  lemma {:induction false} PassOnlyFolds(g: Graph, hash: HashKey -> int, s: State, seen: set<nat>, i: nat, s': State, redo: bool)
    requires Invariant(g, s) && i <= |g| && SeenOk(g, s, seen, i)
    requires Pass(g, hash, s, seen, i, s', redo)
    ensures OnlyFolds(g, s, s')
    decreases |g| - i
  {
    hide Equals, Alike, Root, Invariant, Candidate, Matches, OnlyFolds;
    RevealShape(g, s);
    if i == |g| {
      NothingFolded(g, s);
    } else if !Candidate(g, s, i) {
      SeenSkips(g, s, seen, i);
      PassOnlyFolds(g, hash, s, seen, i + 1, s', redo);
    } else if forall e :: e in seen ==> !Matches(g, hash, s.ptr, i, e) {
      SeenInserts(g, hash, s, seen, i);
      PassOnlyFolds(g, hash, s, seen + {i}, i + 1, s', redo);
    } else {
      HashAgreesAll(g, hash, s, seen, i);
      var e :| e in seen && Matches(g, hash, s.ptr, i, e)
        && (Pass(g, hash, Fold(s, i, e), seen, i + 1, s', true)
            || Pass(g, hash, Fold(s, i, e), seen, i + 1, s', false));
      PassFolds(g, s, seen, i, e);
      var more := Pass(g, hash, Fold(s, i, e), seen, i + 1, s', true);
      PassOnlyFolds(g, hash, Fold(s, i, e), seen, i + 1, s', more);
      OneFold(g, s, i, e);
      OnlyFoldsTransitive(g, s, Fold(s, i, e), s');
    }
  }

  lemma NothingFolded(g: Graph, s: State)
    requires |s.ptr| == |s.live| == |g|
    ensures OnlyFolds(g, s, s)
  {
  }

  lemma OneFold(g: Graph, s: State, i: nat, e: nat)
    requires Invariant(g, s) && i < |g| && e < |g| && Candidate(g, s, i) && Candidate(g, s, e)
    ensures OnlyFolds(g, s, Fold(s, i, e))
  {
    hide Alike, Root;
  }

  lemma OnlyFoldsTransitive(g: Graph, s: State, t: State, u: State)
    requires |s.ptr| == |s.live| == |g| && OnlyFolds(g, s, t) && OnlyFolds(g, t, u)
    ensures OnlyFolds(g, s, u)
  {
  }

  lemma OthersStay(g: Graph, s: State, t: State)
    requires |s.ptr| == |s.live| == |g| && OnlyFolds(g, s, t)
    ensures forall c :: 0 <= c < |g| && !(g[c].isSection && g[c].isComdat && s.live[c]) ==>
      t.ptr[c] == s.ptr[c] && t.live[c] == s.live[c]
  {
  }

  /** A whole run touches only live COMDAT sections, and sends them only to live
      COMDAT sections. */
  lemma {:induction false} RunOnlyFolds(g: Graph, hash: HashKey -> int, states: seq<State>, k: nat)
    requires ValidGraph(g) && Run(g, hash, states) && Initial(g, states[0]) && k < |states|
    ensures OnlyFolds(g, states[0], states[k])
  {
    if k == 0 {
      NothingFolded(g, states[0]);
    } else {
      RunOnlyFolds(g, hash, states, k - 1);
      RunKeeps(g, hash, states, k - 1);
      hide Invariant, Pass, Candidate, OnlyFolds;
      assert Pass(g, hash, states[k - 1], {}, 0, states[k - 1 + 1], k - 1 + 1 < |states| - 1);
      PassOnlyFolds(g, hash, states[k - 1], {}, 0, states[k], k < |states| - 1);
      OnlyFoldsTransitive(g, states[0], states[k - 1], states[k]);
    }
  }

  // ----- folding preserves meaning -----

  lemma AlikeTransitive(g: Graph, ptr: seq<nat>, a: nat, b: nat, c: nat)
    requires ValidGraph(g) && Pointing(g, ptr) && a < |g| && b < |g| && c < |g|
    requires Alike(g, ptr, a, b) && Alike(g, ptr, b, c)
    ensures Alike(g, ptr, a, c) && Alike(g, ptr, b, a)
  {
    var x, y, z := g[a], g[b], g[c];
    forall i | 0 <= i < |x.relocs|
      ensures x.relocs[i].ty == z.relocs[i].ty && x.relocs[i].off == z.relocs[i].off
      ensures RelatedTargets(g, ptr, x.relocs[i].sym, z.relocs[i].sym)
      ensures RelatedTargets(g, ptr, y.relocs[i].sym, x.relocs[i].sym)
    {
      assert RelatedTargets(g, ptr, x.relocs[i].sym, y.relocs[i].sym);
      assert RelatedTargets(g, ptr, y.relocs[i].sym, z.relocs[i].sym);
    }
  }

  lemma {:induction false} AlikeRoot(g: Graph, s: State, c: nat)
    requires Invariant(g, s) && c < |g|
    ensures Alike(g, s.ptr, c, Root(s.ptr, c)) && Alike(g, s.ptr, Root(s.ptr, c), c)
    decreases c
  {
    hide Alike;
    assert Alike(g, s.ptr, c, s.ptr[c]);
    if s.ptr[c] != c {
      AlikeRoot(g, s, s.ptr[c]);
      AlikeTransitive(g, s.ptr, c, s.ptr[c], Root(s.ptr, c));
    }
    var r := Root(s.ptr, c);
    assert Alike(g, s.ptr, r, s.ptr[r]);
    AlikeTransitive(g, s.ptr, c, r, r);
  }

  /** "Has the same root" is a congruence of the relocation graph. */
  lemma SameRootIsCongruence(g: Graph, s: State, a: nat, b: nat)
    requires Invariant(g, s) && a < |g| && b < |g|
    requires Root(s.ptr, a) == Root(s.ptr, b)
    ensures Alike(g, s.ptr, a, b)
  {
    hide Alike, Invariant;
    assert Pointing(g, s.ptr) && ValidGraph(g) by { RevealShape(g, s); }
    AlikeRoot(g, s, a);
    AlikeRoot(g, s, b);
    AlikeTransitive(g, s.ptr, a, Root(s.ptr, a), b);
  }

  lemma RevealShape(g: Graph, s: State)
    requires Invariant(g, s)
    ensures ValidGraph(g) && Pointing(g, s.ptr) && |s.live| == |g|
  {
  }

  /** What a chunk means to depth d: its own header and bytes, and where its
      relocations and its associated children lead. */
  datatype Tree =
    | Cut
    | Node(perms: nat, name: string, size: nat, contents: seq<nat>, relocs: seq<Edge>, children: seq<Tree>)
  datatype Edge = Into(ty: nat, off: nat, value: nat, tree: Tree) | External(ty: nat, off: nat, id: nat)

  function UnfoldEdge(g: Graph, ptr: seq<nat>, r: Reloc, d: nat): (e: Edge)
    requires ValidGraph(g) && Pointing(g, ptr) && ValidBody(g, r.sym)
    decreases d, 1
  {
    match r.sym
    case Regular(_, chunk, value) => Into(r.ty, r.off, value, Unfold(g, ptr, ptr[chunk], d))
    case OtherBody(id) => External(r.ty, r.off, id)
  }

  /** The unfolding that follows Ptr at every step, the way getRVA resolves a
      symbol. With the identity as ptr it is the meaning of the input. */
  function Unfold(g: Graph, ptr: seq<nat>, c: nat, d: nat): (t: Tree)
    requires ValidGraph(g) && Pointing(g, ptr) && c < |g|
    decreases d, 0
  {
    if d == 0 then Cut
    else
      var x := g[c];
      Node(x.perms, x.name, x.size, x.contents,
        seq(|x.relocs|, i requires 0 <= i < |x.relocs| => UnfoldEdge(g, ptr, x.relocs[i], d - 1)),
        seq(|x.children|, i requires 0 <= i < |x.children| => Unfold(g, ptr, ptr[x.children[i]], d - 1)))
  }

  function Identity(g: Graph): (ptr: seq<nat>)
    ensures Pointing(g, ptr)
  {
    seq(|g|, c requires 0 <= c < |g| => c)
  }

  lemma RootStep(ptr: seq<nat>, c: nat)
    requires forall x :: 0 <= x < |ptr| ==> ptr[x] <= x
    requires c < |ptr|
    ensures Root(ptr, ptr[c]) == Root(ptr, c)
  {
  }

  lemma {:induction false} EdgePreserved(g: Graph, s: State, p: Reloc, q: Reloc, d: nat)
    requires Invariant(g, s) && ValidBody(g, p.sym) && ValidBody(g, q.sym)
    requires p.ty == q.ty && p.off == q.off && RelatedTargets(g, s.ptr, p.sym, q.sym)
    ensures UnfoldEdge(g, s.ptr, p, d) == UnfoldEdge(g, Identity(g), q, d)
    decreases d, 1
  {
    hide Invariant, Unfold, Root;
    RevealShape(g, s);
    if p.sym.Regular? {
      RootStep(s.ptr, p.sym.chunk);
      FoldingPreservesMeaning(g, s, s.ptr[p.sym.chunk], q.sym.chunk, d);
    }
  }

  predicate EdgesAgree(g: Graph, ptr: seq<nat>, a: nat, b: nat, d: nat)
    requires ValidGraph(g) && Pointing(g, ptr) && a < |g| && b < |g| && SameHeader(g[a], g[b])
  {
    forall i :: 0 <= i < |g[a].relocs| ==>
      UnfoldEdge(g, ptr, g[a].relocs[i], d) == UnfoldEdge(g, Identity(g), g[b].relocs[i], d)
  }

  predicate ChildrenAgree(g: Graph, ptr: seq<nat>, a: nat, b: nat, d: nat)
    requires ValidGraph(g) && Pointing(g, ptr) && a < |g| && b < |g| && SameHeader(g[a], g[b])
  {
    forall i :: 0 <= i < |g[a].children| ==>
      Unfold(g, ptr, ptr[g[a].children[i]], d) == Unfold(g, Identity(g), Identity(g)[g[b].children[i]], d)
  }

  lemma {:induction false} EdgesPreserved(g: Graph, s: State, a: nat, b: nat, d: nat)
    requires Invariant(g, s) && a < |g| && b < |g| && Alike(g, s.ptr, a, b)
    ensures EdgesAgree(g, s.ptr, a, b, d)
    decreases d, 2
  {
    hide Invariant, Unfold, UnfoldEdge, Root, RelatedTargets;
    RevealShape(g, s);
    forall i | 0 <= i < |g[a].relocs|
      ensures UnfoldEdge(g, s.ptr, g[a].relocs[i], d) == UnfoldEdge(g, Identity(g), g[b].relocs[i], d)
    {
      EdgePreserved(g, s, g[a].relocs[i], g[b].relocs[i], d);
    }
  }

  lemma {:induction false} ChildrenPreserved(g: Graph, s: State, a: nat, b: nat, d: nat)
    requires Invariant(g, s) && a < |g| && b < |g| && Alike(g, s.ptr, a, b)
    ensures ChildrenAgree(g, s.ptr, a, b, d)
    decreases d, 1
  {
    hide Invariant, Unfold, Root;
    RevealShape(g, s);
    forall i | 0 <= i < |g[a].children|
      ensures Unfold(g, s.ptr, s.ptr[g[a].children[i]], d)
           == Unfold(g, Identity(g), Identity(g)[g[b].children[i]], d)
    {
      var p, q := g[a].children[i], g[b].children[i];
      RootStep(s.ptr, p);
      FoldingPreservesMeaning(g, s, s.ptr[p], q, d);
      assert Identity(g)[q] == q;
    }
  }

  lemma SameNodes(g: Graph, ptr: seq<nat>, a: nat, b: nat, d: nat)
    requires ValidGraph(g) && Pointing(g, ptr) && a < |g| && b < |g| && SameHeader(g[a], g[b])
    requires EdgesAgree(g, ptr, a, b, d) && ChildrenAgree(g, ptr, a, b, d)
    ensures Unfold(g, ptr, a, d + 1) == Unfold(g, Identity(g), b, d + 1)
  {
  }

  /** ICF preserves meaning: to every depth, a chunk of the folded program
      unfolds like every chunk of the input that shares its root. */
  lemma {:induction false} FoldingPreservesMeaning(g: Graph, s: State, a: nat, b: nat, d: nat)
    requires Invariant(g, s) && a < |g| && b < |g|
    requires Root(s.ptr, a) == Root(s.ptr, b)
    ensures Unfold(g, s.ptr, a, d) == Unfold(g, Identity(g), b, d)
    decreases d, 0
  {
    RevealShape(g, s);
    if d > 0 {
      hide Invariant, Unfold, Root, EdgesAgree, ChildrenAgree;
      SameRootIsCongruence(g, s, a, b);
      EdgesPreserved(g, s, a, b, d - 1);
      ChildrenPreserved(g, s, a, b, d - 1);
      SameNodes(g, s.ptr, a, b, d - 1);
    }
  }

  /** The theorem for a whole run: at its end every chunk, followed the way the
      writer follows it, still means what it meant in the input. */
  lemma RunPreservesMeaning(g: Graph, hash: HashKey -> int, states: seq<State>, c: nat, d: nat)
    requires ValidGraph(g) && Run(g, hash, states) && Initial(g, states[0]) && c < |g|
    ensures var s := states[|states| - 1];
      Pointing(g, s.ptr)
      && Unfold(g, s.ptr, c, d) == Unfold(g, s.ptr, Root(s.ptr, c), d) == Unfold(g, Identity(g), c, d)
  {
    var s := states[|states| - 1];
    RunKeeps(g, hash, states, |states| - 1);
    hide Invariant, Run;
    RevealShape(g, s);
    assert Root(s.ptr, Root(s.ptr, c)) == Root(s.ptr, c);
    FoldingPreservesMeaning(g, s, c, c, d);
    FoldingPreservesMeaning(g, s, Root(s.ptr, c), c, d);
  }

  // ----- one hop is not enough -----

  /** A symbol is resolved through one Ptr, not through the whole chain. This
      says that the one hop already reaches a chunk that will be written. */
  predicate OneHopLive(s: State)
    requires |s.ptr| == |s.live| && forall c :: 0 <= c < |s.ptr| ==> s.ptr[c] < |s.ptr|
  {
    forall c :: 0 <= c < |s.ptr| && s.ptr[c] != c ==> s.live[s.ptr[c]]
  }

  /** Going from s to t folds a chunk that something had been folded into. */
  predicate Strands(s: State, t: State)
    requires |s.ptr| == |s.live| <= |t.live|
  {
    exists x, c :: 0 <= x < |s.ptr| && 0 <= c < |s.ptr| && x != c && s.ptr[x] == c && s.live[c] && !t.live[c]
  }

  /** What a pass from position i does to a chunk: nothing, or it folds the live
      chunk into one that is live when the pass is over. */
  predicate PassMoves(s: State, i: nat, t: State)
    requires |s.ptr| == |s.live| == |t.ptr| == |t.live|
  {
    forall x :: 0 <= x < |s.ptr| ==>
      if s.live[x] == t.live[x] then s.ptr[x] == t.ptr[x]
      else s.live[x] && i <= x && t.ptr[x] < x && t.live[t.ptr[x]]
  }

  lemma {:induction false} PassMovesWell(g: Graph, hash: HashKey -> int, s: State, seen: set<nat>, i: nat, s': State, redo: bool)
    requires Invariant(g, s) && i <= |g| && SeenOk(g, s, seen, i)
    requires Pass(g, hash, s, seen, i, s', redo)
    ensures |s'.ptr| == |s'.live| == |g| && PassMoves(s, i, s')
    decreases |g| - i
  {
    hide Equals, Alike, Root, Invariant, Candidate, Matches;
    RevealShape(g, s);
    if i == |g| {
    } else if !Candidate(g, s, i) {
      SeenSkips(g, s, seen, i);
      PassMovesWell(g, hash, s, seen, i + 1, s', redo);
    } else if forall e :: e in seen ==> !Matches(g, hash, s.ptr, i, e) {
      SeenInserts(g, hash, s, seen, i);
      PassMovesWell(g, hash, s, seen + {i}, i + 1, s', redo);
    } else {
      HashAgreesAll(g, hash, s, seen, i);
      var e :| e in seen && Matches(g, hash, s.ptr, i, e)
        && (Pass(g, hash, Fold(s, i, e), seen, i + 1, s', true)
            || Pass(g, hash, Fold(s, i, e), seen, i + 1, s', false));
      PassFolds(g, s, seen, i, e);
      var more := Pass(g, hash, Fold(s, i, e), seen, i + 1, s', true);
      PassMovesWell(g, hash, Fold(s, i, e), seen, i + 1, s', more);
      hide Pass;
      FoldMoves(g, s, i, e, s');
    }
  }

  lemma FoldMoves(g: Graph, s: State, i: nat, e: nat, s': State)
    requires Invariant(g, s) && e < i < |g| && Candidate(g, s, i) && Candidate(g, s, e)
    requires |s'.ptr| == |s'.live| == |g| && PassMoves(Fold(s, i, e), i + 1, s')
    ensures PassMoves(s, i, s')
  {
    hide Alike, Root;
    var f := Fold(s, i, e);
    assert s.ptr[e] == e && f.ptr[i] == e && f.live[e] && !f.live[i];
    hide Invariant, Candidate;
    assert f.live[e] == s'.live[e] && f.live[i] == s'.live[i] && s'.ptr[i] == e;
    forall x | 0 <= x < |g| && x != i
      ensures if s.live[x] == s'.live[x] then s.ptr[x] == s'.ptr[x]
              else s.live[x] && i <= x && s'.ptr[x] < x && s'.live[s'.ptr[x]]
    {
      assert f.live[x] == s.live[x] && f.ptr[x] == s.ptr[x];
    }
  }

  lemma PassStrands(g: Graph, s: State, t: State)
    requires Invariant(g, s) && |t.ptr| == |t.live| == |g| && PassMoves(s, 0, t) && OneHopLive(s) && Pointing(g, t.ptr)
    ensures OneHopLive(t) <==> !Strands(s, t)
  {
    hide Alike, Root;
    if !Strands(s, t) {
      forall x | 0 <= x < |g| && t.ptr[x] != x ensures t.live[t.ptr[x]] {
        if s.live[x] == t.live[x] {
          assert s.ptr[x] == t.ptr[x] && s.live[s.ptr[x]];
        }
      }
    }
  }

  /** A pointer at a dead chunk stays one. */
  lemma StaysDead(g: Graph, s: State, t: State)
    requires Invariant(g, s) && |t.ptr| == |t.live| == |g| && PassMoves(s, 0, t) && Pointing(g, t.ptr) && !OneHopLive(s)
    ensures !OneHopLive(t)
  {
    hide Alike, Root;
    var c :| 0 <= c < |g| && s.ptr[c] != c && !s.live[s.ptr[c]];
    assert !s.live[c] && !t.live[c] && t.ptr[c] == s.ptr[c];
  }

  ghost predicate StrandsBefore(states: seq<State>, k: nat)
    requires k < |states| && forall j :: 0 <= j < |states| ==> |states[j].ptr| == |states[j].live| == |states[0].ptr|
  {
    exists j :: 0 <= j < k && Strands(states[j], states[j + 1])
  }

  lemma {:induction false} OneHopAt(g: Graph, hash: HashKey -> int, states: seq<State>, k: nat)
    requires ValidGraph(g) && Run(g, hash, states) && Initial(g, states[0]) && k < |states|
    ensures Pointing(g, states[k].ptr) && (OneHopLive(states[k]) <==> !StrandsBefore(states, k))
  {
    hide Pass, Invariant, OneHopLive, Strands;
    RunKeeps(g, hash, states, k);
    RevealShape(g, states[k]);
    if k == 0 {
      NothingMoved(g, states[0]);
    } else {
      OneHopAt(g, hash, states, k - 1);
      RunKeeps(g, hash, states, k - 1);
      assert Pass(g, hash, states[k - 1], {}, 0, states[k - 1 + 1], k - 1 + 1 < |states| - 1);
      PassMovesWell(g, hash, states[k - 1], {}, 0, states[k], k < |states| - 1);
      assert StrandsBefore(states, k) <==> StrandsBefore(states, k - 1) || Strands(states[k - 1], states[k]);
      if OneHopLive(states[k - 1]) {
        PassStrands(g, states[k - 1], states[k]);
      } else {
        StaysDead(g, states[k - 1], states[k]);
      }
    }
  }

  lemma NothingMoved(g: Graph, s: State)
    requires Initial(g, s)
    ensures OneHopLive(s)
  {
  }

  /** After a whole run one hop is enough if and only if no pass has folded a chunk
      that an earlier pass had folded something into. */
  lemma OneHopExactlyWhen(g: Graph, hash: HashKey -> int, states: seq<State>)
    requires ValidGraph(g) && Run(g, hash, states) && Initial(g, states[0])
    ensures var s := states[|states| - 1];
      Pointing(g, s.ptr) && (OneHopLive(s) <==> !exists k :: 0 <= k < |states| - 1 && Strands(states[k], states[k + 1]))
  {
    OneHopAt(g, hash, states, |states| - 1);
  }

  /** One pass never strands a pointer: after the first one hop is enough. */
  lemma FirstPassKeepsOneHop(g: Graph, hash: HashKey -> int, states: seq<State>)
    requires ValidGraph(g) && Run(g, hash, states) && Initial(g, states[0])
    ensures Pointing(g, states[1].ptr) && OneHopLive(states[1])
  {
    OneHopAt(g, hash, states, 1);
  }

  // ----- a condition to test before folding -----

  /** Another chunk that may be folded equals this one before anything is folded. */
  predicate HasTwin(g: Graph, s: State, c: nat)
    requires ValidGraph(g) && |s.live| == |g| && c < |g|
  {
    Candidate(g, s, c)
    && exists a :: 0 <= a < |g| && a != c && Candidate(g, s, a) && Equals(g, Identity(g), c, a)
  }

  /** No chunk that may be folded refers to one with a twin. */
  predicate NoTwinTargets(g: Graph, s: State)
    requires ValidGraph(g) && |s.live| == |g|
  {
    forall c :: 0 <= c < |g| && Candidate(g, s, c) ==>
      && (forall i :: 0 <= i < |g[c].children| ==> !HasTwin(g, s, g[c].children[i]))
      && (forall i :: 0 <= i < |g[c].relocs| && g[c].relocs[i].sym.Regular? ==> !HasTwin(g, s, g[c].relocs[i].sym.chunk))
  }

  /** Only chunks that had a twin at the start have been folded. */
  predicate OnlyTwins(g: Graph, s0: State, s: State)
    requires ValidGraph(g) && |s0.live| == |s.live| == |s.ptr| == |g|
  {
    && (forall x :: 0 <= x < |g| && s.ptr[x] != x ==> HasTwin(g, s0, x))
    && (forall x :: 0 <= x < |g| && s.live[x] ==> s0.live[x])
  }

  /** Then chunks are equal exactly if they were at the start. */
  lemma SameEquals(g: Graph, s0: State, s: State, a: nat, b: nat)
    requires ValidGraph(g) && |s0.live| == |s.live| == |s.ptr| == |g| && a < |g| && b < |g|
    requires NoTwinTargets(g, s0) && OnlyTwins(g, s0, s) && Candidate(g, s0, a) && Candidate(g, s0, b)
    ensures Equals(g, s.ptr, a, b) <==> Equals(g, Identity(g), a, b)
  {
    hide HasTwin, Candidate;
    var x, y := g[a], g[b];
    var id := Identity(g);
    assert forall i :: 0 <= i < |x.children| ==> s.ptr[x.children[i]] == id[x.children[i]];
    assert forall i :: 0 <= i < |y.children| ==> s.ptr[y.children[i]] == id[y.children[i]];
    forall i | 0 <= i < |x.relocs| && i < |y.relocs|
      ensures EqualTargets(g, s.ptr, x.relocs[i].sym, y.relocs[i].sym) <==> EqualTargets(g, id, x.relocs[i].sym, y.relocs[i].sym)
    {
      TargetStays(g, s0, s, a, i);
      TargetStays(g, s0, s, b, i);
    }
  }

  lemma TargetStays(g: Graph, s0: State, s: State, c: nat, i: nat)
    requires ValidGraph(g) && |s0.live| == |s.live| == |s.ptr| == |g| && c < |g| && i < |g[c].relocs|
    requires NoTwinTargets(g, s0) && OnlyTwins(g, s0, s) && Candidate(g, s0, c)
    ensures ValidBody(g, g[c].relocs[i].sym)
    ensures g[c].relocs[i].sym.Regular? ==> s.ptr[g[c].relocs[i].sym.chunk] == g[c].relocs[i].sym.chunk
  {
    hide HasTwin, Candidate;
  }

  /** No two surviving candidates before i were equal at the start. */
  predicate Untwinned(g: Graph, s: State, i: nat)
    requires ValidGraph(g) && |s.live| == |g| && i <= |g|
  {
    forall a, b :: 0 <= a < b < i && Candidate(g, s, a) && Candidate(g, s, b) ==> !Equals(g, Identity(g), b, a)
  }

  lemma {:induction false} PassUntwins(g: Graph, hash: HashKey -> int, s0: State, s: State, seen: set<nat>, i: nat, s': State, redo: bool)
    requires Invariant(g, s) && |s0.live| == |g| && i <= |g| && SeenOk(g, s, seen, i)
    requires NoTwinTargets(g, s0) && OnlyTwins(g, s0, s) && Untwinned(g, s, i)
    requires Pass(g, hash, s, seen, i, s', redo)
    ensures |s'.ptr| == |s'.live| == |g| && OnlyTwins(g, s0, s') && Untwinned(g, s', |g|)
    decreases |g| - i
  {
    hide Equals, Alike, Root, Invariant, Matches, OnlyTwins, NoTwinTargets, Candidate, Untwinned;
    RevealShape(g, s);
    if i == |g| {
    } else if !Candidate(g, s, i) {
      SeenSkips(g, s, seen, i);
      UntwinnedSkips(g, s, i);
      PassUntwins(g, hash, s0, s, seen, i + 1, s', redo);
    } else if forall e :: e in seen ==> !Matches(g, hash, s.ptr, i, e) {
      SeenInserts(g, hash, s, seen, i);
      UntwinnedInserts(g, hash, s0, s, seen, i);
      PassUntwins(g, hash, s0, s, seen + {i}, i + 1, s', redo);
    } else {
      HashAgreesAll(g, hash, s, seen, i);
      var e :| e in seen && Matches(g, hash, s.ptr, i, e)
        && (Pass(g, hash, Fold(s, i, e), seen, i + 1, s', true)
            || Pass(g, hash, Fold(s, i, e), seen, i + 1, s', false));
      PassFolds(g, s, seen, i, e);
      FoldsTwin(g, s0, s, i, e);
      var more := Pass(g, hash, Fold(s, i, e), seen, i + 1, s', true);
      PassUntwins(g, hash, s0, Fold(s, i, e), seen, i + 1, s', more);
    }
  }

  lemma UntwinnedSkips(g: Graph, s: State, i: nat)
    requires ValidGraph(g) && |s.live| == |g| && i < |g| && Untwinned(g, s, i) && !Candidate(g, s, i)
    ensures Untwinned(g, s, i + 1)
  {
    hide Equals, Candidate;
  }

  lemma WasCandidate(g: Graph, s0: State, s: State, c: nat)
    requires ValidGraph(g) && |s0.live| == |s.live| == |s.ptr| == |g| && c < |g| && OnlyTwins(g, s0, s) && Candidate(g, s, c)
    ensures Candidate(g, s0, c)
  {
  }

  lemma UntwinnedInserts(g: Graph, hash: HashKey -> int, s0: State, s: State, seen: set<nat>, i: nat)
    requires ValidGraph(g) && |s0.live| == |s.ptr| == |s.live| == |g| && i < |g| && SeenOk(g, s, seen, i) && Untwinned(g, s, i)
    requires NoTwinTargets(g, s0) && OnlyTwins(g, s0, s) && Candidate(g, s, i)
    requires forall e :: e in seen ==> !Matches(g, hash, s.ptr, i, e)
    ensures Untwinned(g, s, i + 1)
  {
    hide Equals, Candidate, Matches, OnlyTwins, NoTwinTargets;
    HashAgreesAll(g, hash, s, seen, i);
    forall a | 0 <= a < i && Candidate(g, s, a) ensures !Equals(g, Identity(g), i, a) {
      WasCandidate(g, s0, s, a);
      WasCandidate(g, s0, s, i);
      SameEquals(g, s0, s, i, a);
    }
  }

  lemma FoldsTwin(g: Graph, s0: State, s: State, i: nat, e: nat)
    requires Invariant(g, s) && |s0.live| == |g| && e < i < |g| && Candidate(g, s, i) && Candidate(g, s, e)
    requires NoTwinTargets(g, s0) && OnlyTwins(g, s0, s) && Untwinned(g, s, i) && Equals(g, s.ptr, i, e)
    ensures OnlyTwins(g, s0, Fold(s, i, e)) && Untwinned(g, Fold(s, i, e), i + 1)
  {
    WasCandidate(g, s0, s, i);
    WasCandidate(g, s0, s, e);
    hide NoTwinTargets, Alike, Root;
    SameEquals(g, s0, s, i, e);
    hide Equals;
    assert HasTwin(g, s0, i);
  }

  /** If no pair is equal a pass does nothing. */
  lemma {:induction false} StablePassRests(g: Graph, hash: HashKey -> int, s: State, seen: set<nat>, i: nat, s': State, redo: bool)
    requires Invariant(g, s) && i <= |g| && SeenOk(g, s, seen, i) && Stable(g, s)
    requires Pass(g, hash, s, seen, i, s', redo)
    ensures s' == s && !redo
    decreases |g| - i
  {
    hide Equals, Alike, Root, Invariant, Candidate, Matches;
    RevealShape(g, s);
    if i == |g| {
    } else if !Candidate(g, s, i) {
      SeenSkips(g, s, seen, i);
      StablePassRests(g, hash, s, seen, i + 1, s', redo);
    } else {
      HashAgreesAll(g, hash, s, seen, i);
      SeenInserts(g, hash, s, seen, i);
      StablePassRests(g, hash, s, seen + {i}, i + 1, s', redo);
    }
  }

  lemma StableAfterFirst(g: Graph, hash: HashKey -> int, states: seq<State>)
    requires ValidGraph(g) && Run(g, hash, states) && Initial(g, states[0]) && NoTwinTargets(g, states[0])
    ensures Stable(g, states[1])
  {
    hide Pass, Invariant, NoTwinTargets, Equals;
    var s0, s1 := states[0], states[1];
    RunKeeps(g, hash, states, 0);
    assert Pass(g, hash, states[0], {}, 0, states[0 + 1], 0 + 1 < |states| - 1);
    PassUntwins(g, hash, s0, s0, {}, 0, s1, 1 < |states| - 1);
    forall a, b | 0 <= a < b < |g| && Candidate(g, s1, a) && Candidate(g, s1, b) ensures !Equals(g, s1.ptr, b, a) {
      WasCandidate(g, s0, s1, a);
      WasCandidate(g, s0, s1, b);
      SameEquals(g, s0, s1, b, a);
    }
  }

  /** If no chunk that may be folded refers to a chunk with a twin, the second pass
      folds nothing, so one hop is enough at the end. */
  lemma NoTwinTargetsIsEnough(g: Graph, hash: HashKey -> int, states: seq<State>)
    requires ValidGraph(g) && Run(g, hash, states) && Initial(g, states[0]) && NoTwinTargets(g, states[0])
    ensures |states| <= 3 && var s := states[|states| - 1]; Pointing(g, s.ptr) && OneHopLive(s)
  {
    hide Pass, Invariant, NoTwinTargets, Stable, OneHopLive;
    StableAfterFirst(g, hash, states);
    RunKeeps(g, hash, states, 1);
    FirstPassKeepsOneHop(g, hash, states);
    if |states| > 2 {
      assert Pass(g, hash, states[1], {}, 0, states[1 + 1], 1 + 1 < |states| - 1);
      StablePassRests(g, hash, states[1], {}, 0, states[2], 2 < |states| - 1);
    }
  }

  function Caller(callee: nat): (c: Chunk) {
    Chunk(true, true, 0, "f", 1, [1], [Reloc(4, 0, Regular(callee, callee, 0))], [])
  }

  function Callee(): (c: Chunk) {
    Chunk(true, true, 0, "g", 1, [2], [], [])
  }

  /** Chunks 1 and 2 call the same function 4, chunk 0 its copy 3. */
  function StrandingGraph(): (g: Graph)
    ensures |g| == 5 && ValidGraph(g)
    ensures forall c :: 0 <= c < |g| ==> g[c].isSection && g[c].isComdat
  {
    [Caller(3), Caller(4), Caller(4), Callee(), Callee()]
  }

  /** Which pairs of its chunks are equal depends only on whether 3 and 4 have
      been folded. */
  lemma StrandingEquals(hash: HashKey -> int, ptr: seq<nat>)
    requires |ptr| == 5
    ensures Matches(StrandingGraph(), hash, ptr, 2, 1) && Matches(StrandingGraph(), hash, ptr, 4, 3)
    ensures Matches(StrandingGraph(), hash, ptr, 1, 0) <==> ptr[3] == ptr[4]
    ensures Matches(StrandingGraph(), hash, ptr, 2, 0) <==> ptr[3] == ptr[4]
    ensures !Matches(StrandingGraph(), hash, ptr, 3, 0) && !Matches(StrandingGraph(), hash, ptr, 3, 1)
  {
    var g := StrandingGraph();
    assert g[0].relocs[0].sym == Regular(3, 3, 0);
    assert g[1].relocs[0].sym == g[2].relocs[0].sym == Regular(4, 4, 0);
    assert |g[3].relocs| == |g[4].relocs| == 0 && |g[0].relocs| == |g[1].relocs| == 1;
  }

  /** The first pass replaces 2 by 1 and 4 by 3; only then are 0 and 1 equal, so
      the second pass replaces 1 by 0 and leaves 2 pointing at a dead chunk. */
  lemma OneHopCanBeDead(hash: HashKey -> int) returns (states: seq<State>)
    ensures Run(StrandingGraph(), hash, states) && Initial(StrandingGraph(), states[0])
    ensures states[|states| - 1].ptr[2] == 1 && !states[|states| - 1].live[1]
  {
    hide Pass, Run, StrandingGraph;
    var s0 := State([0, 1, 2, 3, 4], [true, true, true, true, true]);
    var s1 := State([0, 1, 1, 3, 3], [true, true, false, true, false]);
    var s2 := State([0, 0, 1, 3, 3], [true, false, false, true, false]);
    FirstPass(hash, s0, s1);
    SecondPass(hash, s1, s2);
    LastPass(hash, s2);
    RunOfThree(StrandingGraph(), hash, s0, s1, s2);
    states := [s0, s1, s2, s2];
  }

  lemma RunOfThree(g: Graph, hash: HashKey -> int, s0: State, s1: State, s2: State)
    requires ValidGraph(g) && |s0.ptr| == |s0.live| == |s1.ptr| == |s1.live| == |s2.ptr| == |s2.live| == |g|
    requires Pass(g, hash, s0, {}, 0, s1, true) && Pass(g, hash, s1, {}, 0, s2, true)
    requires Pass(g, hash, s2, {}, 0, s2, false)
    ensures Run(g, hash, [s0, s1, s2, s2])
  {
    hide Pass;
    var states := [s0, s1, s2, s2];
    forall k | 0 <= k < |states| - 1
      ensures Pass(g, hash, states[k], {}, 0, states[k + 1], k + 1 < |states| - 1)
    {
      assert k == 0 || k == 1 || k == 2;
    }
  }

  lemma FirstPass(hash: HashKey -> int, s0: State, s1: State)
    requires s0 == State([0, 1, 2, 3, 4], [true, true, true, true, true])
    requires s1 == State([0, 1, 1, 3, 3], [true, true, false, true, false])
    ensures Pass(StrandingGraph(), hash, s0, {}, 0, s1, true)
  {
    hide Pass, StrandingGraph, Matches;
    var g := StrandingGraph();
    var mid := Fold(s0, 2, 1);
    assert Fold(mid, 4, 3) == s1;
    StrandingEquals(hash, s0.ptr);
    StrandingEquals(hash, mid.ptr);
    PassEnds(g, hash, s1, {0, 1, 3});
    PassReplaces(g, hash, mid, {0, 1, 3}, 4, 3, s1, false);
    PassInserts(g, hash, mid, {0, 1}, {0, 1, 3}, 3, s1, true);
    PassReplaces(g, hash, s0, {0, 1}, 2, 1, s1, true);
    PassInserts(g, hash, s0, {0}, {0, 1}, 1, s1, true);
    PassInserts(g, hash, s0, {}, {0}, 0, s1, true);
  }

  lemma SecondPass(hash: HashKey -> int, s1: State, s2: State)
    requires s1 == State([0, 1, 1, 3, 3], [true, true, false, true, false])
    requires s2 == State([0, 0, 1, 3, 3], [true, false, false, true, false])
    ensures Pass(StrandingGraph(), hash, s1, {}, 0, s2, true)
  {
    hide Pass, StrandingGraph, Matches;
    var g := StrandingGraph();
    assert Fold(s1, 1, 0) == s2;
    StrandingEquals(hash, s1.ptr);
    StrandingEquals(hash, s2.ptr);
    PassEnds(g, hash, s2, {0, 3});
    PassSkips(g, hash, s2, {0, 3}, 4, s2, false);
    PassInserts(g, hash, s2, {0}, {0, 3}, 3, s2, false);
    PassSkips(g, hash, s2, {0}, 2, s2, false);
    PassReplaces(g, hash, s1, {0}, 1, 0, s2, false);
    PassInserts(g, hash, s1, {}, {0}, 0, s2, true);
  }

  lemma LastPass(hash: HashKey -> int, s2: State)
    requires s2 == State([0, 0, 1, 3, 3], [true, false, false, true, false])
    ensures Pass(StrandingGraph(), hash, s2, {}, 0, s2, false)
  {
    hide Pass, StrandingGraph, Matches;
    var g := StrandingGraph();
    StrandingEquals(hash, s2.ptr);
    PassEnds(g, hash, s2, {0, 3});
    PassSkips(g, hash, s2, {0, 3}, 4, s2, false);
    PassInserts(g, hash, s2, {0}, {0, 3}, 3, s2, false);
    PassSkips(g, hash, s2, {0}, 2, s2, false);
    PassSkips(g, hash, s2, {0}, 1, s2, false);
    PassInserts(g, hash, s2, {}, {0}, 0, s2, false);
  }

  // ----- the code -----

  /** However the pass goes on from here, the whole pass goes the same way. */
  ghost predicate Onward(g: Graph, hash: HashKey -> int, s0: State, s: State, seen: set<nat>, i: nat, redo: bool)
    requires ValidGraph(g) && |s0.ptr| == |s0.live| == |g| && |s.ptr| == |s.live| == |g|
    requires i <= |g| && forall e :: e in seen ==> e < i
  {
    forall s': State, r: bool :: Pass(g, hash, s, seen, i, s', r) ==> Pass(g, hash, s0, {}, 0, s', redo || r)
  }

  lemma OnwardStep(g: Graph, hash: HashKey -> int, s0: State,
      s: State, seen: set<nat>, i: nat, redo: bool, t: State, seen': set<nat>, redo': bool)
    requires ValidGraph(g) && |s0.ptr| == |s0.live| == |g|
    requires |s.ptr| == |s.live| == |g| && |t.ptr| == |t.live| == |g|
    requires i < |g| && (forall e :: e in seen ==> e < i) && forall e :: e in seen' ==> e < i + 1
    requires Onward(g, hash, s0, s, seen, i, redo)
    requires
      if !Candidate(g, s, i) then t == s && seen' == seen && redo' == redo
      else if forall e :: e in seen ==> !Matches(g, hash, s.ptr, i, e) then
        t == s && seen' == seen + {i} && redo' == redo
      else
        redo' && seen' == seen && exists e :: e in seen && Matches(g, hash, s.ptr, i, e) && t == Fold(s, i, e)
    ensures Onward(g, hash, s0, t, seen', i + 1, redo')
  {
    hide Matches, Pass;
    var j := i + 1;
    forall s': State, r: bool | Pass(g, hash, t, seen', j, s', r)
      ensures Pass(g, hash, s0, {}, 0, s', redo' || r)
    {
      if !Candidate(g, s, i) {
        PassSkips(g, hash, s, seen, i, s', r);
      } else if forall e :: e in seen ==> !Matches(g, hash, s.ptr, i, e) {
        PassInserts(g, hash, s, seen, seen', i, s', r);
      } else {
        var e :| e in seen && Matches(g, hash, s.ptr, i, e) && t == Fold(s, i, e);
        PassReplaces(g, hash, s, seen, i, e, s', r);
      }
    }
  }

  class Folder {
    const g: Graph
    var ptr: seq<nat>
    var live: seq<bool>

    constructor (g: Graph, live: seq<bool>)
      requires ValidGraph(g) && |live| == |g|
      ensures this.g == g && this.live == live && Initial(g, Now())
    {
      this.g := g;
      this.ptr := Identity(g);
      this.live := live;
    }

    function Now(): (s: State)
      reads this
    {
      State(ptr, live)
    }

    method ReplaceWith(c: nat, e: nat)
      requires c < |ptr| == |live| && e < |ptr|
      modifies this
      ensures Now() == Fold(old(Now()), c, e)
    {
      ptr := ptr[c := ptr[e]];
      live := live[c := false];
    }

    /** doICF. The hash set is a set of positions; its lookup may return any
        matching member. The ghost result records the state after each pass. */
    method DoIcf(hash: HashKey -> int) returns (ghost states: seq<State>)
      requires Invariant(g, Now())
      modifies this
      ensures Run(g, hash, states) && states[0] == old(Now()) && states[|states| - 1] == Now()
      ensures Invariant(g, Now()) && Stable(g, Now())
      ensures OnlyFolds(g, old(Now()), Now())
      ensures forall c :: 0 <= c < |g| && !(g[c].isSection && g[c].isComdat && old(live)[c]) ==>
        ptr[c] == old(ptr)[c] && live[c] == old(live)[c]
    {
      hide Equals, Alike, Root, Stable, OnlyFolds;
      NothingFolded(g, Now());
      states := [Now()];
      var redo := true;
      while redo
        invariant |states| >= if redo then 1 else 2
        invariant Invariant(g, Now()) && states[|states| - 1] == Now() && states[0] == old(Now())
        invariant forall k :: 0 <= k < |states| ==> |states[k].ptr| == |states[k].live| == |g|
        invariant forall k :: 0 <= k < |states| - 1 ==>
          Pass(g, hash, states[k], {}, 0, states[k + 1], k + 1 < |states| - 1 || redo)
        invariant !redo ==> Stable(g, Now())
        invariant OnlyFolds(g, old(Now()), Now())
        decreases redo, LiveSet(Now())
      {
        ghost var before := Now();
        redo := OnePass(hash);
        assert SeenOk(g, before, {}, 0) && Unequal(g, before, 0);
        PassKeeps(g, hash, before, {}, 0, Now(), redo);
        OnlyFoldsTransitive(g, old(Now()), before, Now());
        states := states + [Now()];
      }
      OthersStay(g, old(Now()), Now());
    }

    method OnePass(hash: HashKey -> int) returns (redo: bool)
      requires Invariant(g, Now())
      modifies this
      ensures |ptr| == |live| == |g|
      ensures Pass(g, hash, old(Now()), {}, 0, Now(), redo)
      ensures OnlyFolds(g, old(Now()), Now())
    {
      hide Equals, Alike, Root, Pass, Matches;
      ghost var s0 := Now();
      var seen: set<nat> := {};
      redo := false;
      for i := 0 to |g|
        invariant |ptr| == |live| == |g|
        invariant forall e :: e in seen ==> e < i
        invariant Onward(g, hash, s0, Now(), seen, i, redo)
      {
        ghost var was, seenBefore, redoBefore := Now(), seen, redo;
        if g[i].isSection && g[i].isComdat && live[i] {
          if exists e :: e in seen && Matches(g, hash, ptr, i, e) {
            var e :| e in seen && Matches(g, hash, ptr, i, e);
            ReplaceWith(i, e);
            redo := true;
          } else {
            seen := seen + {i};
          }
        }
        OnwardStep(g, hash, s0, was, seenBefore, i, redoBefore, Now(), seen, redo);
      }
      PassEnds(g, hash, Now(), seen);
      assert SeenOk(g, s0, {}, 0);
      PassOnlyFolds(g, hash, s0, {}, 0, Now(), redo);
    }
  }
}
