/** Which of two symbols of the same name wins: SymbolBody::compare
    (COFF/Symbols.cpp) over the kinds of COFF/Symbols.h. */
module Precedence {
  import opened Common

  /** A symbol body. The id is its address: distinct objects have distinct ids. */
  datatype Body =
    | Regular(id: nat, fileIndex: int, comdat: bool)
    | CommonBlock(id: nat, fileIndex: int, size: nat)
    | LocalImport(id: nat)
    | ImportThunk(id: nat)
    | ImportData(id: nat)
    | AbsoluteSymbol(id: nat)
    | Bitcode(id: nat, isReplaceable: bool)
      /** alias is the id of what WeakAlias->repl() gives, if there is one. */
    | Undefined(id: nat, alias: Option<nat>)
    | Lazy(id: nat, fileIndex: int)
  {
    /** The order of the enum matters to compare. */
    function Kind(): (k: nat)
      ensures k <= 8
    {
      match this
      case Regular(_, _, _) => 0
      case CommonBlock(_, _, _) => 1
      case LocalImport(_) => 2
      case ImportThunk(_) => 3
      case ImportData(_) => 4
      case AbsoluteSymbol(_) => 5
      case Bitcode(_, _) => 6
      case Undefined(_, _) => 7
      case Lazy(_, _) => 8
    }

    predicate Defined() {
      Kind() <= 6
    }
  }

  /** compare asserts that it never sees a lazy symbol against an undefined one. */
  predicate Comparable(a: Body, b: Body) {
    !(a.Lazy? && b.Undefined?) && !(a.Undefined? && b.Lazy?)
  }

  function Before(x: int, y: int): (r: int) {
    if x < y then 1 else -1
  }

  function CompareSameKind(a: Body, b: Body): (r: int)
    requires a.Kind() == b.Kind()
    ensures -1 <= r <= 1
  {
    match a
    case Regular(_, _, _) => if a.comdat && b.comdat then Before(a.fileIndex, b.fileIndex) else 0
    case CommonBlock(_, _, _) =>
      if a.size == b.size then Before(a.fileIndex, b.fileIndex)
      else if a.size > b.size then 1 else -1
    case Bitcode(_, _) =>
      if !a.isReplaceable && !b.isReplaceable then 0
      else if a.isReplaceable && b.isReplaceable then Before(a.id, b.id)
      else if a.isReplaceable then -1 else 1
    case Lazy(_, _) => Before(a.fileIndex, b.fileIndex)
    case Undefined(_, _) =>
      if a.alias.Some? && b.alias.Some? then
        if a.alias != b.alias then 0 else Before(a.id, b.id)
      else if a.alias.Some? then 1 else -1
    case _ => 0
  }

  function CompareNormalized(a: Body, b: Body): (r: int)
    requires Comparable(a, b) && a.Kind() <= b.Kind()
    ensures -1 <= r <= 1
  {
    if a.Kind() == b.Kind() then CompareSameKind(a, b)
    else if !b.Defined() then 1
    else if b.Bitcode? then
      match a
      case CommonBlock(_, _, _) => 1
      case Regular(_, _, comdat) => if comdat || b.isReplaceable then 1 else 0
      case _ => 0
    else if a.Kind() <= 1 then 1
    else 0
  }

  /** 1, 0 or -1: a wins, the two are duplicates, or b wins. */
  function Compare(a: Body, b: Body): (r: int)
    requires Comparable(a, b)
    ensures -1 <= r <= 1
  {
    if a.Kind() > b.Kind() then -CompareNormalized(b, a) else CompareNormalized(a, b)
  }

  /** compare treats its arguments symmetrically except for pairs that only the
      argument order can tell apart. */
  lemma AntisymmetricExactlyWhen(a: Body, b: Body)
    requires Comparable(a, b) && a.id != b.id
    ensures Compare(a, b) == -Compare(b, a) <==>
      !(a.Undefined? && b.Undefined? && a.alias.None? && b.alias.None?)
      && !(a.Regular? && b.Regular? && a.comdat && b.comdat && a.fileIndex == b.fileIndex)
      && !(a.CommonBlock? && b.CommonBlock? && a.size == b.size && a.fileIndex == b.fileIndex)
      && !(a.Lazy? && b.Lazy? && a.fileIndex == b.fileIndex)
  {
    if a.Kind() == b.Kind() {
      assert Compare(a, b) == CompareSameKind(a, b);
      assert Compare(b, a) == CompareSameKind(b, a);
    }
  }

  // ----- an order that explains compare on defined symbols -----

  function Class(b: Body): (c: nat) {
    match b
    case Regular(_, _, _) => 0
    case CommonBlock(_, _, _) => 1
    case Bitcode(_, _) => 3
    case _ => 2
  }

  /** A strict order on defined symbols, by class and then by the tie-breaks. */
  predicate Outranks(a: Body, b: Body) {
    || Class(a) < Class(b)
    || (a.Regular? && b.Regular? && a.fileIndex < b.fileIndex)
    || (a.CommonBlock? && b.CommonBlock?
        && (a.size > b.size || (a.size == b.size && a.fileIndex < b.fileIndex)))
    || (a.Bitcode? && b.Bitcode?
        && ((!a.isReplaceable && b.isReplaceable) || (a.isReplaceable && b.isReplaceable && a.id < b.id)))
  }

  lemma OutranksIsStrict(a: Body, b: Body, c: Body)
    ensures !(Outranks(a, b) && Outranks(b, a))
    ensures Outranks(a, b) && Outranks(b, c) ==> Outranks(a, c)
  {
  }

  /** Tie-breaks need file indices that differ. */
  predicate DistinctFiles(a: Body, b: Body) {
    && (a.Regular? && b.Regular? ==> a.fileIndex != b.fileIndex)
    && (a.CommonBlock? && b.CommonBlock? ==> a.fileIndex != b.fileIndex)
  }

  /** compare is not transitive on defined symbols: where the first beats the second
      and the second the third, the first beats the third unless it is a plain
      definition and the third a bitcode one that cannot be replaced. These two are
      duplicates, though a common block sits between them. */
  lemma TransitiveExactlyWhen(a: Body, b: Body, c: Body)
    requires a.Defined() && b.Defined() && c.Defined() && a.id != b.id && b.id != c.id && a.id != c.id
    requires DistinctFiles(a, b) && DistinctFiles(b, c) && DistinctFiles(a, c)
    requires Compare(a, b) == Compare(b, c) == 1
    ensures Compare(a, c) == 1 <==> !(a.Regular? && !a.comdat && c.Bitcode? && !c.isReplaceable)
    ensures Compare(a, c) != 1 ==> Compare(a, c) == 0 && b.CommonBlock?
  {
  }

  lemma CompareIsNotTransitive()
    ensures Compare(Regular(0, 0, false), CommonBlock(1, 1, 4)) == 1
    ensures Compare(CommonBlock(1, 1, 4), Bitcode(2, false)) == 1
    ensures Compare(Regular(0, 0, false), Bitcode(2, false)) == 0
  {
  }

  /** Whatever compare decides between defined symbols agrees with the order. */
  lemma CompareAgrees(a: Body, b: Body)
    requires a.Defined() && b.Defined() && a.id != b.id && DistinctFiles(a, b)
    ensures Compare(a, b) == 1 ==> Outranks(a, b)
    ensures Compare(a, b) == -1 ==> Outranks(b, a)
  {
  }

  /** A defined symbol always beats an undefined one, on either side. */
  lemma DefinedBeatsUndefined(a: Body, b: Body)
    requires a.Defined() && b.Undefined?
    ensures Compare(a, b) == 1 && Compare(b, a) == -1
  {
  }

  /** Two undefined symbols tie only if both have weak aliases. */
  lemma PlainUndefinedNeverTies(a: Body, b: Body)
    requires a.Undefined? && b.Undefined? && b.alias.None?
    ensures Compare(a, b) != 0
  {
  }

  // ----- what compare decides -----

  /** Import-library symbols and absolute ones. */
  predicate Fixed(b: Body) {
    b.LocalImport? || b.ImportThunk? || b.ImportData? || b.AbsoluteSymbol?
  }

  /** A definition that must be the only one, against a bitcode symbol. */
  predicate AgainstBitcode(a: Body, b: Body) {
    b.Bitcode? && (Fixed(a) || (a.Regular? && !a.comdat && !b.isReplaceable))
  }

  /** The pairs that cannot both stand. */
  predicate Clash(a: Body, b: Body) {
    || (a.Regular? && b.Regular? && !(a.comdat && b.comdat))
    || (Fixed(a) && Fixed(b))
    || AgainstBitcode(a, b)
    || AgainstBitcode(b, a)
    || (a.Bitcode? && b.Bitcode? && !a.isReplaceable && !b.isReplaceable)
    || (a.Undefined? && b.Undefined? && a.alias.Some? && b.alias.Some? && a.alias != b.alias)
  }

  /** Two symbols are duplicates exactly if they cannot both stand. */
  lemma DuplicatesExactlyWhen(a: Body, b: Body)
    requires Comparable(a, b)
    ensures Compare(a, b) == 0 <==> Clash(a, b)
  {
  }

  /** Of two definitions that can both stand the one that outranks the other wins. */
  lemma OutranksWins(a: Body, b: Body)
    requires a.Defined() && b.Defined() && a.id != b.id && DistinctFiles(a, b) && !Clash(a, b)
    ensures Compare(a, b) == 1 <==> Outranks(a, b)
    ensures Compare(a, b) == -1 <==> Outranks(b, a)
  {
    CompareAgrees(a, b);
    CompareAgrees(b, a);
    DuplicatesExactlyWhen(a, b);
    OutranksIsStrict(a, b, a);
  }

  /** Of two undefined symbols the one with a weak alias wins; with none the newer,
      with the same one the one at the smaller address. */
  lemma UndefinedWins(a: Body, b: Body)
    requires a.Undefined? && b.Undefined?
    ensures a.alias.Some? && b.alias.None? ==> Compare(a, b) == 1
    ensures a.alias.None? ==> Compare(a, b) == -1
    ensures a.alias.Some? && a.alias == b.alias ==> Compare(a, b) == if a.id < b.id then 1 else -1
  {
  }

  /** A definition beats a lazy symbol, and the earlier archive's lazy symbol the
      later one's. */
  lemma LazyWins(a: Body, b: Body)
    requires b.Lazy?
    ensures a.Defined() ==> Compare(a, b) == 1 && Compare(b, a) == -1
    ensures a.Lazy? && a.fileIndex != b.fileIndex ==> Compare(a, b) == if a.fileIndex < b.fileIndex then 1 else -1
  {
  }
}
