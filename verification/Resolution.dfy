/** Concurrent resolution of one name (COFF/SymbolTable.cpp, addSymbol and
    addLazy): threads that load the name's atomic Body cell, decide, and try to
    replace it with compare-and-swap. */
module Resolution {
  import opened Common
  import opened Precedence

  datatype Outcome =
    | Done
      /** addSymbol asks a lazy symbol's archive for the member. */
    | LoadMember(lazy: Body)
      /** addLazy puts the symbol on the list of lazy symbols to load. */
    | LoadLater
    | Duplicate

  datatype Decision = Decision(replace: bool, outcome: Outcome)

  /** The body of addSymbol's loop after the load. */
  function DecideSymbol(existing: Body, new_: Body): (d: Decision)
    requires new_.Defined() || new_.Undefined?
  {
    if existing.Lazy? then
      if new_.Undefined? && new_.alias.None? then Decision(false, LoadMember(existing))
      else Decision(true, Done)
    else
      var comp := Compare(existing, new_);
      if comp == 0 then Decision(false, Duplicate)
      else if comp < 0 then Decision(true, Done)
      else Decision(false, Done)
  }

  /** The body of addLazy's loop after the load. */
  function DecideLazy(existing: Body, new_: Body): (d: Decision)
    requires new_.Lazy?
  {
    if existing.Defined() then Decision(false, Done)
    else if existing.Lazy? && existing.fileIndex < new_.fileIndex then Decision(false, Done)
    else Decision(true, if existing.Undefined? then LoadLater else Done)
  }

  function Decide(existing: Body, new_: Body): (d: Decision) {
    if new_.Lazy? then DecideLazy(existing, new_) else DecideSymbol(existing, new_)
  }

  /** addSymbol reports a duplicate exactly for the pairs that cannot both stand. */
  lemma DuplicateExactlyWhen(existing: Body, new_: Body)
    requires new_.Defined() || new_.Undefined?
    ensures DecideSymbol(existing, new_) == Decision(false, Duplicate) <==> !existing.Lazy? && Clash(existing, new_)
    ensures DecideSymbol(existing, new_).outcome == Duplicate <==> !existing.Lazy? && Clash(existing, new_)
  {
    if !existing.Lazy? {
      DuplicatesExactlyWhen(existing, new_);
      hide Compare, Clash;
    }
  }

  /** What addSymbol does to the cell where there is no duplicate. */
  lemma SymbolDecided(existing: Body, new_: Body)
    requires new_.Defined() || new_.Undefined?
    requires existing.Lazy? || !Clash(existing, new_)
    ensures var d := DecideSymbol(existing, new_);
      && (existing.Lazy? && new_.Undefined? && new_.alias.None? ==> d == Decision(false, LoadMember(existing)))
      && (existing.Lazy? && !(new_.Undefined? && new_.alias.None?) ==> d == Decision(true, Done))
      && (existing.Defined() && new_.Undefined? ==> d == Decision(false, Done))
      && (existing.Undefined? && new_.Defined() ==> d == Decision(true, Done))
      && (existing.Undefined? && new_.Undefined? && existing.alias.Some? && new_.alias.None? ==> d == Decision(false, Done))
      && (existing.Undefined? && new_.Undefined? && existing.alias.None? ==> d == Decision(true, Done))
      && (existing.Defined() && new_.Defined() && existing.id != new_.id && DistinctFiles(existing, new_) ==>
            d == Decision(Outranks(new_, existing), Done))
  {
    if !existing.Lazy? {
      DuplicatesExactlyWhen(existing, new_);
      if existing.Defined() && new_.Undefined? {
        DefinedBeatsUndefined(existing, new_);
      } else if existing.Undefined? && new_.Defined() {
        DefinedBeatsUndefined(new_, existing);
      } else if existing.Undefined? && new_.Undefined? {
        UndefinedWins(existing, new_);
      } else if existing.id != new_.id && DistinctFiles(existing, new_) {
        OutranksWins(existing, new_);
      }
      hide Compare, Clash, Outranks, DistinctFiles;
    }
  }

  /** A lazy symbol never displaces a definition, nor an earlier archive's; it takes
      the place of an undefined symbol, and then its member will be loaded. */
  lemma LazyDecided(existing: Body, new_: Body)
    requires new_.Lazy?
    ensures Decide(existing, new_).replace <==>
      existing.Undefined? || (existing.Lazy? && new_.fileIndex <= existing.fileIndex)
    ensures Decide(existing, new_).outcome == LoadLater <==> existing.Undefined?
    ensures Decide(existing, new_).outcome in {Done, LoadLater}
  {
  }

  // ----- one call at a time -----

  /** A whole call of addSymbol or addLazy that nobody interrupts. */
  function CellAfter(cell: Body, op: Body): (cell': Body) {
    if cell == op then cell else if Decide(cell, op).replace then op else cell
  }

  function OutcomeOf(cell: Body, op: Body): (o: Outcome) {
    if cell == op then Done else Decide(cell, op).outcome
  }

  function SequentialCell(cell: Body, ops: seq<Body>, order: seq<nat>): (cell': Body)
    requires forall k :: 0 <= k < |order| ==> order[k] < |ops|
  {
    if order == [] then cell
    else CellAfter(SequentialCell(cell, ops, order[..|order| - 1]), ops[order[|order| - 1]])
  }

  /** The outcome of the k-th call of a sequential order. */
  function SequentialOutcome(cell: Body, ops: seq<Body>, order: seq<nat>, k: nat): (o: Outcome)
    requires forall j :: 0 <= j < |order| ==> order[j] < |ops|
    requires k < |order|
  {
    OutcomeOf(SequentialCell(cell, ops, order[..k]), ops[order[k]])
  }

  // ----- threads -----

  /** Where a thread is: before the test whether its own body is already in the
      cell, at the head of its loop, after the load, or done. */
  datatype Pc = Start | Looping | Loaded(seen: Body) | Finished(outcome: Outcome)

  datatype State = State(cell: Body, pcs: seq<Pc>)

  /** One atomic action of thread i: a load of the cell or a compare-and-swap. */
  predicate Step(ops: seq<Body>, s: State, i: nat, s': State)
    requires |s.pcs| == |ops| && i < |ops|
  {
    var op := ops[i];
    match s.pcs[i]
    case Start =>
      s' == s.(pcs := s.pcs[i := if s.cell == op then Finished(Done) else Looping])
    case Looping =>
      s' == s.(pcs := s.pcs[i := Loaded(s.cell)])
    case Loaded(seen) =>
      var d := Decide(seen, op);
      if !d.replace then s' == s.(pcs := s.pcs[i := Finished(d.outcome)])
      else if s.cell == seen then s' == State(op, s.pcs[i := Finished(d.outcome)])
      else s' == s.(pcs := s.pcs[i := Looping])
    case Finished(_) => false
  }

  /** The symbol has just been created with the body of one of the calls. */
  predicate Initial(ops: seq<Body>, s: State) {
    |s.pcs| == |ops| && s.cell in ops && forall i :: 0 <= i < |ops| ==> s.pcs[i] == Start
  }

  ghost predicate Trace(ops: seq<Body>, t: seq<State>) {
    && t != [] && Initial(ops, t[0])
    && (forall k :: 0 <= k < |t| ==> |t[k].pcs| == |ops|)
    && forall k :: 0 <= k < |t| - 1 ==> Next(ops, t[k], t[k + 1])
  }

  ghost predicate Next(ops: seq<Body>, s: State, s': State)
    requires |s.pcs| == |ops|
  {
    exists i :: 0 <= i < |ops| && Step(ops, s, i, s')
  }

  predicate Complete(s: State) {
    forall i :: 0 <= i < |s.pcs| ==> s.pcs[i].Finished?
  }

  predicate DistinctBodies(ops: seq<Body>) {
    forall i, j :: 0 <= i < j < |ops| ==> ops[i] != ops[j]
  }

  // ----- linearizability -----

  /** The call has taken effect: it is finished, or it has loaded a value that
      makes it finish without touching the cell. */
  predicate TakenEffect(pc: Pc, op: Body) {
    pc.Finished? || (pc.Loaded? && !Decide(pc.seen, op).replace)
  }

  function ResultOf(pc: Pc, op: Body): (o: Outcome)
    requires TakenEffect(pc, op)
  {
    match pc
    case Finished(o) => o
    case Loaded(seen) => Decide(seen, op).outcome
  }

  predicate Indices(ops: seq<Body>, order: seq<nat>) {
    && (forall k :: 0 <= k < |order| ==> order[k] < |ops|)
    && (forall j, k :: 0 <= j < k < |order| ==> order[j] != order[k])
  }

  /** The order lists the calls that took effect, and running them one after the
      other gives the same cell and the same results. */
  predicate Explains(ops: seq<Body>, cell0: Body, order: seq<nat>, s: State)
    requires |s.pcs| == |ops|
  {
    && Indices(ops, order)
    && (forall i :: 0 <= i < |ops| ==> (TakenEffect(s.pcs[i], ops[i]) <==> i in order))
    && SequentialCell(cell0, ops, order) == s.cell
    && (forall k :: 0 <= k < |order| ==>
          TakenEffect(s.pcs[order[k]], ops[order[k]])
          && ResultOf(s.pcs[order[k]], ops[order[k]]) == SequentialOutcome(cell0, ops, order, k))
  }

  /** A thread past its first test never finds its own body in the cell. */
  predicate OthersOnly(ops: seq<Body>, s: State)
    requires |s.pcs| == |ops|
  {
    forall i :: 0 <= i < |ops| ==>
      (s.pcs[i].Looping? || s.pcs[i].Loaded? ==> s.cell != ops[i])
      && (s.pcs[i].Loaded? ==> s.pcs[i].seen != ops[i])
  }

  lemma StepKeepsOthersOnly(ops: seq<Body>, s: State, i: nat, s': State)
    requires |s.pcs| == |ops| && i < |ops| && DistinctBodies(ops)
    requires OthersOnly(ops, s) && Step(ops, s, i, s')
    ensures |s'.pcs| == |ops| && OthersOnly(ops, s')
  {
    hide Decide;
    assert forall j :: 0 <= j < |ops| && j != i ==> ops[j] != ops[i];
  }

  /** Appending one more call to an order leaves the earlier ones as they were. */
  lemma AppendCall(ops: seq<Body>, cell0: Body, order: seq<nat>, i: nat)
    requires Indices(ops, order) && i < |ops| && i !in order
    ensures Indices(ops, order + [i])
    ensures SequentialCell(cell0, ops, order + [i]) == CellAfter(SequentialCell(cell0, ops, order), ops[i])
    ensures forall k :: 0 <= k < |order| ==>
      SequentialOutcome(cell0, ops, order + [i], k) == SequentialOutcome(cell0, ops, order, k)
    ensures SequentialOutcome(cell0, ops, order + [i], |order|)
         == OutcomeOf(SequentialCell(cell0, ops, order), ops[i])
  {
    hide CellAfter, OutcomeOf;
    var longer := order + [i];
    assert longer[..|order|] == order;
    forall k | 0 <= k < |order|
      ensures SequentialOutcome(cell0, ops, longer, k) == SequentialOutcome(cell0, ops, order, k)
    {
      assert longer[..k] == order[..k];
    }
  }

  lemma SameThreads(ops: seq<Body>, s: State, i: nat, s': State)
    requires |s.pcs| == |ops| && i < |ops| && Step(ops, s, i, s')
    ensures |s'.pcs| == |ops|
  {
  }

  /** The step by which a call takes effect. */
  lemma StepTakesEffect(ops: seq<Body>, s: State, i: nat, s': State)
    requires |s.pcs| == |ops| && i < |ops| && OthersOnly(ops, s) && Step(ops, s, i, s')
    requires !TakenEffect(s.pcs[i], ops[i]) && TakenEffect(s'.pcs[i], ops[i])
    ensures s'.pcs == s.pcs[i := s'.pcs[i]] && s'.cell == CellAfter(s.cell, ops[i])
    ensures ResultOf(s'.pcs[i], ops[i]) == OutcomeOf(s.cell, ops[i])
  {
    hide Decide;
  }

  /** Any other step leaves the cell, and what has taken effect, as it was. */
  lemma StepChangesNothing(ops: seq<Body>, s: State, i: nat, s': State)
    requires |s.pcs| == |ops| && i < |ops| && OthersOnly(ops, s) && Step(ops, s, i, s')
    requires !(!TakenEffect(s.pcs[i], ops[i]) && TakenEffect(s'.pcs[i], ops[i]))
    ensures s'.pcs == s.pcs[i := s'.pcs[i]] && s'.cell == s.cell
    ensures TakenEffect(s'.pcs[i], ops[i]) == TakenEffect(s.pcs[i], ops[i])
    ensures TakenEffect(s.pcs[i], ops[i]) ==> ResultOf(s'.pcs[i], ops[i]) == ResultOf(s.pcs[i], ops[i])
  {
    hide Decide;
  }

  lemma ExplainsOneMore(ops: seq<Body>, cell0: Body, order: seq<nat>, s: State, i: nat, s': State)
    requires |s.pcs| == |s'.pcs| == |ops| && i < |ops| && Explains(ops, cell0, order, s)
    requires !TakenEffect(s.pcs[i], ops[i]) && TakenEffect(s'.pcs[i], ops[i])
    requires s'.pcs == s.pcs[i := s'.pcs[i]] && s'.cell == CellAfter(s.cell, ops[i])
    requires ResultOf(s'.pcs[i], ops[i]) == OutcomeOf(s.cell, ops[i])
    ensures Explains(ops, cell0, order + [i], s')
  {
    hide Decide, SequentialCell, SequentialOutcome, CellAfter, OutcomeOf, ResultOf, TakenEffect;
    var order' := order + [i];
    assert i !in order;
    AppendCall(ops, cell0, order, i);
    forall k | 0 <= k < |order'|
      ensures TakenEffect(s'.pcs[order'[k]], ops[order'[k]])
      ensures ResultOf(s'.pcs[order'[k]], ops[order'[k]]) == SequentialOutcome(cell0, ops, order', k)
    {
      if k < |order| {
        assert order[k] != i && s'.pcs[order[k]] == s.pcs[order[k]];
      }
    }
  }

  /** Each step either lets one more call take effect, at the end of the order,
      or changes nothing that the order explains. */
  lemma StepKeepsExplained(ops: seq<Body>, cell0: Body, order: seq<nat>, s: State, i: nat, s': State)
    returns (order': seq<nat>)
    requires |s.pcs| == |ops| && i < |ops| && DistinctBodies(ops) && OthersOnly(ops, s)
    requires Explains(ops, cell0, order, s) && Step(ops, s, i, s')
    ensures |s'.pcs| == |ops| && Explains(ops, cell0, order', s')
  {
    SameThreads(ops, s, i, s');
    hide Step, Decide, Explains, CellAfter, OutcomeOf, ResultOf, TakenEffect, OthersOnly;
    if !TakenEffect(s.pcs[i], ops[i]) && TakenEffect(s'.pcs[i], ops[i]) {
      order' := order + [i];
      StepTakesEffect(ops, s, i, s');
      ExplainsOneMore(ops, cell0, order, s, i, s');
    } else {
      order' := order;
      StepChangesNothing(ops, s, i, s');
      ExplainsTheSame(ops, cell0, order, s, i, s');
    }
  }

  lemma ExplainsTheSame(ops: seq<Body>, cell0: Body, order: seq<nat>, s: State, i: nat, s': State)
    requires |s.pcs| == |s'.pcs| == |ops| && i < |ops| && Explains(ops, cell0, order, s)
    requires s'.pcs == s.pcs[i := s'.pcs[i]] && s'.cell == s.cell
    requires TakenEffect(s'.pcs[i], ops[i]) == TakenEffect(s.pcs[i], ops[i])
    requires TakenEffect(s.pcs[i], ops[i]) ==> ResultOf(s'.pcs[i], ops[i]) == ResultOf(s.pcs[i], ops[i])
    ensures Explains(ops, cell0, order, s')
  {
    hide Decide, SequentialCell, SequentialOutcome, ResultOf, TakenEffect;
    forall k | 0 <= k < |order|
      ensures TakenEffect(s'.pcs[order[k]], ops[order[k]])
      ensures ResultOf(s'.pcs[order[k]], ops[order[k]]) == SequentialOutcome(cell0, ops, order, k)
    {
      assert order[k] != i ==> s'.pcs[order[k]] == s.pcs[order[k]];
    }
  }

  /** Every interleaving of the calls equals some sequential order of them: same
      final body, and every finished call got the result it gets in that order. */
  lemma {:induction false} Linearizable(ops: seq<Body>, t: seq<State>, n: nat) returns (order: seq<nat>)
    requires Trace(ops, t) && DistinctBodies(ops) && n < |t|
    ensures Explains(ops, t[0].cell, order, t[n]) && OthersOnly(ops, t[n])
  {
    hide Decide, Explains, OthersOnly;
    if n == 0 {
      order := [];
      NothingExplained(ops, t[0]);
    } else {
      var before := Linearizable(ops, t, n - 1);
      assert Next(ops, t[n - 1], t[n - 1 + 1]);
      var i :| 0 <= i < |ops| && Step(ops, t[n - 1], i, t[n]);
      hide Step;
      order := StepKeepsExplained(ops, t[0].cell, before, t[n - 1], i, t[n]);
      StepKeepsOthersOnly(ops, t[n - 1], i, t[n]);
    }
  }

  lemma NothingExplained(ops: seq<Body>, s: State)
    requires Initial(ops, s)
    ensures Explains(ops, s.cell, [], s) && OthersOnly(ops, s)
  {
  }

  // ----- confluence -----

  predicate UniqueIds(ops: seq<Body>) {
    forall i, j :: 0 <= i < j < |ops| ==> ops[i].id != ops[j].id && DistinctFiles(ops[i], ops[j])
  }

  predicate ErrorFree(s: State) {
    forall i :: 0 <= i < |s.pcs| ==> s.pcs[i] != Finished(Duplicate)
  }

  /** w is at least as good as d. */
  predicate AtLeast(w: Body, d: Body) {
    w.Defined() && (w == d || Outranks(w, d))
  }

  /** One error-free call keeps every defined body seen so far beaten, and beats
      its own. */
  lemma CallKeepsBest(ops: seq<Body>, cell: Body, i: nat, d: Body)
    requires UniqueIds(ops) && i < |ops| && cell in ops && d in ops && d.Defined()
    requires OutcomeOf(cell, ops[i]) != Duplicate
    requires AtLeast(cell, d) || d == ops[i]
    ensures CellAfter(cell, ops[i]) in ops && AtLeast(CellAfter(cell, ops[i]), d)
  {
    var op := ops[i];
    var c :| 0 <= c < |ops| && ops[c] == cell;
    if cell != op && cell.Defined() && op.Defined() {
      assert cell.id != op.id && DistinctFiles(cell, op);
      CompareAgrees(cell, op);
      OutranksIsStrict(op, cell, d);
    }
  }

  /** After an error-free sequential run no defined candidate beats the winner. */
  lemma {:induction false} WinnerIsBest(ops: seq<Body>, cell0: Body, order: seq<nat>, d: Body)
    requires UniqueIds(ops) && cell0 in ops && Indices(ops, order)
    requires forall k :: 0 <= k < |order| ==> SequentialOutcome(cell0, ops, order, k) != Duplicate
    requires d.Defined() && (d == cell0 || exists k :: 0 <= k < |order| && ops[order[k]] == d)
    ensures SequentialCell(cell0, ops, order) in ops
    ensures AtLeast(SequentialCell(cell0, ops, order), d)
  {
    hide Outranks, CellAfter, OutcomeOf;
    CellStaysCandidate(ops, cell0, order);
    if order != [] {
      var n := |order| - 1;
      var front, i := order[..n], order[n];
      CellStaysCandidate(ops, cell0, front);
      FrontOutcomes(ops, cell0, order);
      var cell := SequentialCell(cell0, ops, front);
      if d == cell0 || exists k :: 0 <= k < n && ops[front[k]] == d {
        WinnerIsBest(ops, cell0, front, d);
      }
      assert d in ops;
      CallKeepsBest(ops, cell, i, d);
    }
  }

  lemma FrontOutcomes(ops: seq<Body>, cell0: Body, order: seq<nat>)
    requires order != [] && Indices(ops, order)
    requires forall k :: 0 <= k < |order| ==> SequentialOutcome(cell0, ops, order, k) != Duplicate
    ensures var n := |order| - 1;
      OutcomeOf(SequentialCell(cell0, ops, order[..n]), ops[order[n]]) != Duplicate
      && SequentialCell(cell0, ops, order) == CellAfter(SequentialCell(cell0, ops, order[..n]), ops[order[n]])
      && forall k :: 0 <= k < n ==> SequentialOutcome(cell0, ops, order[..n], k) != Duplicate
  {
    hide CellAfter, OutcomeOf;
    var n := |order| - 1;
    var front := order[..n];
    assert SequentialOutcome(cell0, ops, order, n) != Duplicate;
    forall k | 0 <= k < n ensures SequentialOutcome(cell0, ops, front, k) != Duplicate {
      assert front[..k] == order[..k] && front[k] == order[k];
      assert SequentialOutcome(cell0, ops, order, k) != Duplicate;
    }
  }

  lemma {:induction false} CellStaysCandidate(ops: seq<Body>, cell0: Body, order: seq<nat>)
    requires cell0 in ops && Indices(ops, order)
    ensures SequentialCell(cell0, ops, order) in ops
  {
    if order != [] {
      CellStaysCandidate(ops, cell0, order[..|order| - 1]);
    }
  }

  /** What a complete error-free interleaving leaves in the cell. */
  lemma CompleteTraceBest(ops: seq<Body>, t: seq<State>, d: Body)
    requires Trace(ops, t) && UniqueIds(ops) && d in ops && d.Defined()
    requires Complete(t[|t| - 1]) && ErrorFree(t[|t| - 1])
    ensures t[|t| - 1].cell in ops && AtLeast(t[|t| - 1].cell, d)
  {
    hide Decide, SequentialCell, SequentialOutcome, Outranks;
    var s := t[|t| - 1];
    var order := Linearizable(ops, t, |t| - 1);
    forall k | 0 <= k < |order|
      ensures SequentialOutcome(t[0].cell, ops, order, k) != Duplicate
    {
      assert s.pcs[order[k]].Finished?;
    }
    var i :| 0 <= i < |ops| && ops[i] == d;
    assert i in order;
    WinnerIsBest(ops, t[0].cell, order, d);
  }

  /** Confluence: any two complete error-free interleavings of the same calls, if
      one of the bodies is defined, end with the same body in the cell. */
  lemma Confluent(ops: seq<Body>, t: seq<State>, u: seq<State>, d: Body)
    requires Trace(ops, t) && Trace(ops, u) && UniqueIds(ops) && d in ops && d.Defined()
    requires Complete(t[|t| - 1]) && ErrorFree(t[|t| - 1])
    requires Complete(u[|u| - 1]) && ErrorFree(u[|u| - 1])
    ensures t[|t| - 1].cell == u[|u| - 1].cell
  {
    hide Trace, Complete, ErrorFree, Outranks, UniqueIds;
    assert t != [] && u != [] by { TracesAreNonEmpty(ops, t); TracesAreNonEmpty(ops, u); }
    var w, v := t[|t| - 1].cell, u[|u| - 1].cell;
    CompleteTraceBest(ops, t, d);
    CompleteTraceBest(ops, u, d);
    CompleteTraceBest(ops, t, v);
    CompleteTraceBest(ops, u, w);
    OutranksIsStrict(w, v, w);
  }

  lemma TracesAreNonEmpty(ops: seq<Body>, t: seq<State>)
    requires Trace(ops, t)
    ensures t != []
  {
  }

  // ----- the retry loops end -----

  /** How many steps a thread may still need while nobody else interferes. */
  function Weight(pc: Pc, cell: Body): (w: nat)
    ensures w <= 3
  {
    match pc
    case Start => 3
    case Looping => 2
    case Loaded(seen) => if seen == cell then 1 else 3
    case Finished(_) => 0
  }

  /** An unfinished thread may still spoil the load of every other thread once. */
  function Potential(pc: Pc, cell: Body, n: nat): (w: nat) {
    if pc.Finished? then 0 else 3 * n + Weight(pc, cell)
  }

  function Total(pcs: seq<Pc>, cell: Body, n: nat): (w: nat) {
    if pcs == [] then 0
    else Total(pcs[..|pcs| - 1], cell, n) + Potential(pcs[|pcs| - 1], cell, n)
  }

  lemma {:induction false} TotalAfterOne(pcs: seq<Pc>, i: nat, pc: Pc, cell: Body, n: nat)
    requires i < |pcs|
    ensures Total(pcs[i := pc], cell, n) == Total(pcs, cell, n) - Potential(pcs[i], cell, n) + Potential(pc, cell, n)
  {
    var m := |pcs| - 1;
    if i < m {
      assert pcs[i := pc][..m] == pcs[..m][i := pc];
      TotalAfterOne(pcs[..m], i, pc, cell, n);
    } else {
      assert pcs[i := pc][..m] == pcs[..m];
    }
  }

  lemma {:induction false} TotalAfterCellChange(pcs: seq<Pc>, cell: Body, cell': Body, n: nat)
    ensures Total(pcs, cell', n) <= Total(pcs, cell, n) + 2 * |pcs|
  {
    if pcs != [] {
      TotalAfterCellChange(pcs[..|pcs| - 1], cell, cell', n);
    }
  }

  /** Every step, a failed compare-and-swap included, uses up some potential. */
  lemma StepDecreases(ops: seq<Body>, s: State, i: nat, s': State)
    requires |s.pcs| == |ops| && i < |ops| && Step(ops, s, i, s')
    ensures |s'.pcs| == |ops| && Total(s'.pcs, s'.cell, |ops|) < Total(s.pcs, s.cell, |ops|)
  {
    hide Decide;
    var n := |ops|;
    assert s'.pcs == s.pcs[i := s'.pcs[i]];
    TotalAfterOne(s.pcs, i, s'.pcs[i], s.cell, n);
    if s'.cell != s.cell {
      TotalAfterCellChange(s'.pcs, s.cell, s'.cell, n);
    }
  }

  /** However the threads are scheduled, the number of steps is bounded. */
  lemma {:induction false} TracesAreBounded(ops: seq<Body>, t: seq<State>, k: nat)
    requires Trace(ops, t) && k < |t|
    ensures k + Total(t[k].pcs, t[k].cell, |ops|) <= Total(t[0].pcs, t[0].cell, |ops|)
  {
    hide Step;
    if k > 0 {
      TracesAreBounded(ops, t, k - 1);
      assert Next(ops, t[k - 1], t[k - 1 + 1]);
      var i :| 0 <= i < |ops| && Step(ops, t[k - 1], i, t[k]);
      StepDecreases(ops, t[k - 1], i, t[k]);
    }
  }
}
