/** COFF/Writer.cpp's markLive: a worklist that marks sections as it pushes them. */
module GarbageCollector {
  import opened Common
  import opened Reach

  /** A chunk as the collector sees it. symbols lists, for each relocation, the
      chunk of its symbol after repl() if that is a regular defined one. Chunks
      that are not sections are never marked. */
  datatype Chunk = Chunk(isSection: bool, root: bool, symbols: seq<Option<nat>>, children: seq<nat>)

  predicate Target(chunks: seq<Chunk>, c: nat) {
    c < |chunks| && chunks[c].isSection
  }

  predicate ValidChunks(chunks: seq<Chunk>) {
    forall c :: 0 <= c < |chunks| ==>
      && (forall i :: 0 <= i < |chunks[c].symbols| ==>
            chunks[c].symbols[i].Some? ==> Target(chunks, chunks[c].symbols[i].value))
      && (forall i :: 0 <= i < |chunks[c].children| ==> Target(chunks, chunks[c].children[i]))
  }

  function Targets(symbols: seq<Option<nat>>): (s: set<nat>) {
    set i | 0 <= i < |symbols| && symbols[i].Some? :: symbols[i].value
  }

  function ChildSet(children: seq<nat>): (s: set<nat>) {
    set c | c in children
  }

  /** What keeps what alive: relocations to regular symbols, and associative
      children. */
  function Edges(chunks: seq<Chunk>): (g: Graph) {
    map c: nat | 0 <= c < |chunks| ::
      Targets(chunks[c].symbols) + ChildSet(chunks[c].children)
  }

  /** GC roots given by name, and the sections that are roots by themselves. */
  function Roots(chunks: seq<Chunk>, gcRoots: seq<Option<nat>>): (r: set<nat>) {
    Targets(gcRoots) + (set c: nat | 0 <= c < |chunks| && chunks[c].isSection && chunks[c].root)
  }

  /** A set of chunks that a collection must not cut into: it holds the symbols that
      are roots and the sections that are, and with each chunk the chunks of its
      relocations' symbols and its associative children. */
  predicate Keeps(chunks: seq<Chunk>, gcRoots: seq<Option<nat>>, t: set<nat>) {
    && (forall i :: 0 <= i < |gcRoots| ==> gcRoots[i].Some? ==> gcRoots[i].value in t)
    && (forall c: nat :: c < |chunks| && chunks[c].isSection && chunks[c].root ==> c in t)
    && (forall c, i :: c in t && c < |chunks| && 0 <= i < |chunks[c].symbols| ==>
          chunks[c].symbols[i].Some? ==> chunks[c].symbols[i].value in t)
    && (forall c, i :: c in t && c < |chunks| && 0 <= i < |chunks[c].children| ==> chunks[c].children[i] in t)
  }

  lemma KeepsIsClosed(chunks: seq<Chunk>, gcRoots: seq<Option<nat>>, t: set<nat>)
    ensures Keeps(chunks, gcRoots, t) <==> Closed(Edges(chunks), t) && Roots(chunks, gcRoots) <= t
  {
    if Closed(Edges(chunks), t) && Roots(chunks, gcRoots) <= t {
      forall c, i | c in t && c < |chunks| && 0 <= i < |chunks[c].symbols| && chunks[c].symbols[i].Some?
        ensures chunks[c].symbols[i].value in t
      {
        assert chunks[c].symbols[i].value in Succ(Edges(chunks), c);
      }
      forall c, i | c in t && c < |chunks| && 0 <= i < |chunks[c].children|
        ensures chunks[c].children[i] in t
      {
        assert chunks[c].children[i] in Succ(Edges(chunks), c);
      }
      forall i | 0 <= i < |gcRoots| && gcRoots[i].Some? ensures gcRoots[i].value in t {
        assert gcRoots[i].value in Targets(gcRoots);
      }
    }
  }

  /** What the reachable set is on the chunks themselves. */
  lemma LeastKept(chunks: seq<Chunk>, gcRoots: seq<Option<nat>>, live: set<nat>)
    requires Exactly(Edges(chunks), Roots(chunks, gcRoots), live)
    ensures Keeps(chunks, gcRoots, live)
    ensures forall t: set<nat> :: Keeps(chunks, gcRoots, t) ==> live <= t
  {
    hide Edges, Roots, Exactly, Closed, Keeps;
    ExactlyIsLeast(Edges(chunks), Roots(chunks, gcRoots), live, live);
    KeepsIsClosed(chunks, gcRoots, live);
    forall t: set<nat> | Keeps(chunks, gcRoots, t) ensures live <= t {
      KeepsIsClosed(chunks, gcRoots, t);
      ExactlyIsLeast(Edges(chunks), Roots(chunks, gcRoots), live, t);
    }
  }

  class Collector {
    const chunks: seq<Chunk>
    var live: set<nat>
    var worklist: seq<nat>
    /** Everything ever pushed, in order. */
    ghost var pushed: seq<nat>

    constructor (chunks: seq<Chunk>)
      requires ValidChunks(chunks)
      ensures this.chunks == chunks && live == {} && worklist == [] && pushed == []
    {
      this.chunks := chunks;
      live, worklist, pushed := {}, [], [];
    }

    ghost predicate Invariant()
      reads this
    {
      && ValidChunks(chunks)
      && (forall c :: c in live <==> c in pushed)
      && (forall i, j :: 0 <= i < j < |pushed| ==> pushed[i] != pushed[j])
      && (forall i :: 0 <= i < |worklist| ==> worklist[i] in live)
      && (forall c :: c in live ==> Target(chunks, c))
    }

    /** SectionChunk::markLive with its assertion, and the push that goes with
        it. The assertion is the precondition, so it never fires. */
    method Push(c: nat)
      requires Invariant() && Target(chunks, c) && c !in live
      modifies this
      ensures Invariant() && live == old(live) + {c}
      ensures worklist == old(worklist) + [c] && pushed == old(pushed) + [c]
    {
      live := live + {c};
      worklist := worklist + [c];
      pushed := pushed + [c];
    }

    method PushUnmarked(c: nat)
      requires Invariant() && Target(chunks, c)
      modifies this
      ensures Invariant() && live == old(live) + {c}
      ensures forall x :: x in live && x !in worklist ==> x in old(live) && x !in old(worklist)
      ensures old(pushed) <= pushed && (live == old(live) ==> worklist == old(worklist))
    {
      if c !in live {
        Push(c);
      }
    }

    /** Mark the chunks of a list of symbols. */
    method PushSymbols(symbols: seq<Option<nat>>)
      requires Invariant()
      requires forall i :: 0 <= i < |symbols| ==> symbols[i].Some? ==> Target(chunks, symbols[i].value)
      modifies this
      ensures Invariant() && live == old(live) + Targets(symbols)
      ensures forall x :: x in live && x !in worklist ==> x in old(live) && x !in old(worklist)
      ensures old(pushed) <= pushed && (live == old(live) ==> worklist == old(worklist))
    {
      for i := 0 to |symbols|
        invariant Invariant() && live == old(live) + Targets(symbols[..i])
        invariant forall x :: x in live && x !in worklist ==> x in old(live) && x !in old(worklist)
        invariant old(pushed) <= pushed && old(live) <= live
        invariant live == old(live) ==> worklist == old(worklist)
      {
        assert symbols[..i + 1] == symbols[..i] + [symbols[i]];
        TargetsSnoc(symbols[..i], symbols[i]);
        if symbols[i].Some? {
          PushUnmarked(symbols[i].value);
        }
      }
      assert symbols[..|symbols|] == symbols;
    }

    /** markLive. The live chunks are exactly the reachable ones, and no chunk is
        pushed twice. */
    method MarkLive(gcRoots: seq<Option<nat>>)
      requires Invariant() && live == {} && worklist == []
      requires forall i :: 0 <= i < |gcRoots| ==> gcRoots[i].Some? ==> Target(chunks, gcRoots[i].value)
      modifies this
      ensures Exactly(Edges(chunks), Roots(chunks, gcRoots), live)
      ensures Keeps(chunks, gcRoots, live) && forall t: set<nat> :: Keeps(chunks, gcRoots, t) ==> live <= t
      ensures forall i, j :: 0 <= i < j < |pushed| ==> pushed[i] != pushed[j]
      ensures forall c :: c in live <==> c in pushed
    {
      hide Keeps, Reachable;
      PushSymbols(gcRoots);
      for c := 0 to |chunks|
        invariant Invariant()
        invariant live == Targets(gcRoots) + (set k: nat | 0 <= k < c && chunks[k].isSection && chunks[k].root)
        invariant forall x :: x in live ==> x in worklist
      {
        if chunks[c].isSection && chunks[c].root {
          PushUnmarked(c);
        }
      }
      assert live == Roots(chunks, gcRoots);
      Drain(Roots(chunks, gcRoots));
      LeastKept(chunks, gcRoots, live);
    }

    /** The worklist loop. A chunk that has left the list has all its targets
        marked. */
    method Drain(ghost roots: set<nat>)
      requires Invariant() && live == roots && forall x :: x in live ==> x in worklist
      modifies this
      ensures Invariant() && Exactly(Edges(chunks), roots, live)
    {
      hide Reachable, Exactly, Edges, Succ;
      ghost var g := Edges(chunks);
      ghost var all := g.Keys;
      TargetsAreKeys(chunks);
      forall x | x in roots ensures Reachable(g, roots, x) {
        RootReachable(g, roots, x);
      }
      while worklist != []
        invariant Invariant() && roots <= live
        invariant forall x :: x in live ==> Reachable(g, roots, x)
        invariant forall x :: x in live && x !in worklist ==> Succ(g, x) <= live
        decreases all - live, |worklist|
      {
        Visit(g, roots);
      }
      ExactlyBecause(g, roots, live);
    }

    method Visit(ghost g: Graph, ghost roots: set<nat>)
      requires Invariant() && roots <= live && worklist != [] && g == Edges(chunks)
      requires forall x :: x in live ==> Reachable(g, roots, x)
      requires forall x :: x in live && x !in worklist ==> Succ(g, x) <= live
      modifies this
      ensures Invariant() && roots <= live && old(live) <= live
      ensures live == old(live) ==> |worklist| < |old(worklist)|
      ensures forall x :: x in live ==> Reachable(g, roots, x)
      ensures forall x :: x in live && x !in worklist ==> Succ(g, x) <= live
    {
      hide Reachable, Targets;
      var c := worklist[|worklist| - 1];
      worklist := worklist[..|worklist| - 1];
      ghost var left := worklist;
      assert forall x :: x in old(worklist) ==> x == c || x in left;
      PushSymbols(chunks[c].symbols);
      PushChildren(chunks[c].children);
      assert live == old(live) + Succ(g, c) by { SuccOf(chunks, c); }
      NewReachable(g, roots, c, old(live), live);
    }

    method PushChildren(children: seq<nat>)
      requires Invariant() && forall i :: 0 <= i < |children| ==> Target(chunks, children[i])
      modifies this
      ensures Invariant() && live == old(live) + ChildSet(children)
      ensures forall x :: x in live && x !in worklist ==> x in old(live) && x !in old(worklist)
      ensures live == old(live) ==> worklist == old(worklist)
    {
      for i := 0 to |children|
        invariant Invariant() && live == old(live) + ChildSet(children[..i])
        invariant forall x :: x in live && x !in worklist ==> x in old(live) && x !in old(worklist)
        invariant old(live) <= live && (live == old(live) ==> worklist == old(worklist))
      {
        assert children[..i + 1] == children[..i] + [children[i]];
        PushUnmarked(children[i]);
      }
      assert children[..|children|] == children;
    }
  }

  lemma TargetsAreKeys(chunks: seq<Chunk>)
    ensures forall c :: Target(chunks, c) ==> c in Edges(chunks).Keys
  {
  }

  lemma SuccOf(chunks: seq<Chunk>, c: nat)
    requires c < |chunks|
    ensures Succ(Edges(chunks), c) == Targets(chunks[c].symbols) + ChildSet(chunks[c].children)
  {
    hide Targets, ChildSet;
  }

  lemma NewReachable(g: Graph, roots: set<nat>, c: nat, before: set<nat>, after: set<nat>)
    requires after == before + Succ(g, c) && c in before && forall x :: x in before ==> Reachable(g, roots, x)
    ensures forall x :: x in after ==> Reachable(g, roots, x)
  {
    hide Reachable, Succ;
    forall x | x in after ensures Reachable(g, roots, x) {
      if x !in before {
        StepReachable(g, roots, c, x);
      }
    }
  }

  lemma TargetsSnoc(symbols: seq<Option<nat>>, s: Option<nat>)
    ensures Targets(symbols + [s]) == Targets(symbols) + (if s.Some? then {s.value} else {})
  {
    var longer := symbols + [s];
    forall x ensures x in Targets(longer) <==> x in Targets(symbols) || (s.Some? && x == s.value) {
      if x in Targets(symbols) {
        var i :| 0 <= i < |symbols| && symbols[i].Some? && symbols[i].value == x;
        assert longer[i] == symbols[i];
      }
      if s.Some? && x == s.value {
        assert longer[|symbols|] == s;
      }
    }
  }
}
