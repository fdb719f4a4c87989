/** COFF/Writer.cpp's addresses: chunks laid out inside sections, sections laid out
    in memory and in the file. */
module Layout {
  import opened Common

  const PAGE_SIZE: nat := 4096
  const FILE_ALIGNMENT: nat := 512
  const FIRST_RVA: nat := 0x1000

  // The fixed part of the headers: DOS stub, PE magic, COFF file header, sixteen
  // data directories, and the PE32+ or PE32 header; then one header a section.
  const FIXED_64: nat := 64 + 4 + 20 + 128 + 112
  const FIXED_32: nat := 64 + 4 + 20 + 128 + 96
  const SECTION_HEADER: nat := 40

  type Positive = n: nat | n > 0 witness 1

  datatype Piece = Piece(size: nat, align: Positive, hasData: bool)

  // ----- inside a section -----

  /** The offset just past the last piece. */
  function EndOf(ps: seq<Piece>): (n: nat)
    decreases |ps|, 0
  {
    if ps == [] then 0 else StartOf(ps) + ps[|ps| - 1].size
  }

  /** The offset of the last piece. */
  function StartOf(ps: seq<Piece>): (n: nat)
    requires ps != []
    decreases |ps| - 1, 1
  {
    RoundUp(EndOf(ps[..|ps| - 1]), ps[|ps| - 1].align)
  }

  function Offset(ps: seq<Piece>, k: nat): (n: nat)
    requires k < |ps|
  {
    StartOf(ps[..k + 1])
  }

  /** The size in the file covers the section up to its last piece with data. */
  function RawOf(ps: seq<Piece>): (n: nat) {
    if ps == [] then 0
    else if ps[|ps| - 1].hasData then RoundUp(EndOf(ps), FILE_ALIGNMENT)
    else RawOf(ps[..|ps| - 1])
  }

  /** Pieces are aligned, follow one another without overlap, end inside the
      section, and if they have data inside its part of the file. */
  lemma {:induction false} PieceFits(ps: seq<Piece>, k: nat)
    requires k < |ps|
    ensures Offset(ps, k) % ps[k].align == 0
    ensures Offset(ps, k) + ps[k].size <= EndOf(ps)
    ensures ps[k].hasData ==> Offset(ps, k) + ps[k].size <= RawOf(ps)
    ensures RawOf(ps) % FILE_ALIGNMENT == 0
    decreases |ps|
  {
    var last := |ps| - 1;
    if k < last {
      PieceFits(ps[..last], k);
      assert ps[..last][..k + 1] == ps[..k + 1];
    } else {
      assert ps[..k + 1] == ps;
      RawEnds(ps);
    }
  }

  lemma {:induction false} RawEnds(ps: seq<Piece>)
    ensures RawOf(ps) % FILE_ALIGNMENT == 0
    decreases |ps|
  {
    if ps != [] {
      RawEnds(ps[..|ps| - 1]);
    }
  }

  lemma PiecesFollow(ps: seq<Piece>, j: nat, k: nat)
    requires j < k < |ps|
    ensures Offset(ps, j) + ps[j].size <= Offset(ps, k)
  {
    PieceFits(ps[..k], j);
    assert ps[..k][..j + 1] == ps[..j + 1];
    assert ps[..k + 1][..k] == ps[..k];
  }

  // ----- sections -----

  /** Where section i starts in memory, relative to start. */
  function RvaOf(ss: seq<seq<Piece>>, i: nat): (n: nat)
    requires i <= |ss|
  {
    if i == 0 then FIRST_RVA else RvaOf(ss, i - 1) + RoundUp(EndOf(ss[i - 1]), PAGE_SIZE)
  }

  function FileOffOf(ss: seq<seq<Piece>>, headers: nat, i: nat): (n: nat)
    requires i <= |ss|
  {
    if i == 0 then headers else FileOffOf(ss, headers, i - 1) + RoundUp(RawOf(ss[i - 1]), FILE_ALIGNMENT)
  }

  function SizeOfHeaders(fixed: nat, n: nat): (r: nat) {
    RoundUp(fixed + SECTION_HEADER * n, PAGE_SIZE)
  }

  /** A piece of a section. */
  datatype At = At(s: nat, k: nat)

  predicate IsAt(ss: seq<seq<Piece>>, a: At) {
    a.s < |ss| && a.k < |ss[a.s]|
  }

  predicate Before(a: At, b: At) {
    a.s < b.s || (a.s == b.s && a.k < b.k)
  }

  function PieceAt(ss: seq<seq<Piece>>, a: At): (p: Piece)
    requires IsAt(ss, a)
  {
    ss[a.s][a.k]
  }

  function PieceRva(ss: seq<seq<Piece>>, a: At): (n: nat)
    requires IsAt(ss, a)
  {
    RvaOf(ss, a.s) + Offset(ss[a.s], a.k)
  }

  /** setFileOffset leaves a section without data at 0. */
  function PieceFileOff(ss: seq<seq<Piece>>, headers: nat, a: At): (n: nat)
    requires IsAt(ss, a)
  {
    (if RawOf(ss[a.s]) == 0 then 0 else FileOffOf(ss, headers, a.s)) + Offset(ss[a.s], a.k)
  }

  lemma {:induction false} SectionsFollow(ss: seq<seq<Piece>>, headers: nat, i: nat, j: nat)
    requires i < j <= |ss|
    ensures RvaOf(ss, i) + EndOf(ss[i]) <= RvaOf(ss, j)
    ensures FileOffOf(ss, headers, i) + RawOf(ss[i]) <= FileOffOf(ss, headers, j)
    ensures EndOf(ss[i]) > 0 ==> RvaOf(ss, i) + PAGE_SIZE <= RvaOf(ss, j)
  {
    if i < j - 1 {
      SectionsFollow(ss, headers, i, j - 1);
    } else {
      assert EndOf(ss[i]) > 0 ==> RoundUp(EndOf(ss[i]), PAGE_SIZE) >= PAGE_SIZE;
    }
  }

  lemma SumOfMultiples(a: nat, b: nat, m: nat)
    requires m > 0 && b % m == 0
    ensures (a + b) % m == a % m
  {
    ModShift(a, b / m, m);
  }

  lemma {:induction false} SectionsStartOnPages(ss: seq<seq<Piece>>, i: nat)
    requires i <= |ss|
    ensures RvaOf(ss, i) % PAGE_SIZE == 0 && RvaOf(ss, i) >= FIRST_RVA
  {
    if i > 0 {
      SectionsStartOnPages(ss, i - 1);
      SumOfMultiples(RvaOf(ss, i - 1), RoundUp(EndOf(ss[i - 1]), PAGE_SIZE), PAGE_SIZE);
    }
  }

  /** Memory: sections start on pages in increasing order, every piece lies inside
      its section, and no two pieces overlap. */
  lemma MemoryIsSound(ss: seq<seq<Piece>>, a: At, b: At)
    requires IsAt(ss, a) && IsAt(ss, b) && Before(a, b)
    ensures FIRST_RVA <= RvaOf(ss, a.s) && RvaOf(ss, a.s) % PAGE_SIZE == 0
    ensures RvaOf(ss, a.s) <= PieceRva(ss, a)
    ensures PieceRva(ss, a) + PieceAt(ss, a).size <= RvaOf(ss, a.s) + EndOf(ss[a.s]) <= RvaOf(ss, |ss|)
    ensures PieceRva(ss, a) + PieceAt(ss, a).size <= PieceRva(ss, b)
    ensures a.s < b.s && EndOf(ss[a.s]) > 0 ==> RvaOf(ss, a.s) < RvaOf(ss, b.s)
  {
    SectionsStartOnPages(ss, a.s);
    PieceFits(ss[a.s], a.k);
    SectionsFollow(ss, 0, a.s, |ss|);
    if a.s < b.s {
      SectionsFollow(ss, 0, a.s, b.s);
    } else {
      PiecesFollow(ss[a.s], a.k, b.k);
    }
  }

  /** A piece is aligned in memory exactly when its section starts at a multiple of
      its alignment. */
  lemma AlignedExactlyWhen(ss: seq<seq<Piece>>, a: At)
    requires IsAt(ss, a)
    ensures PieceRva(ss, a) % PieceAt(ss, a).align == 0 <==> RvaOf(ss, a.s) % PieceAt(ss, a).align == 0
  {
    PieceFits(ss[a.s], a.k);
    SumOfMultiples(RvaOf(ss, a.s), Offset(ss[a.s], a.k), PieceAt(ss, a).align);
  }

  /** An alignment that divides the page size is always met. */
  lemma SmallAlignmentsAreMet(ss: seq<seq<Piece>>, a: At)
    requires IsAt(ss, a) && PAGE_SIZE % PieceAt(ss, a).align == 0
    ensures PieceRva(ss, a) % PieceAt(ss, a).align == 0
  {
    SectionsStartOnPages(ss, a.s);
    AlignedExactlyWhen(ss, a);
    MultipleOfMultiple(RvaOf(ss, a.s), PAGE_SIZE, PieceAt(ss, a).align);
  }

  lemma MultipleOfMultiple(x: nat, m: nat, d: nat)
    requires m > 0 && d > 0 && x % m == 0 && m % d == 0
    ensures x % d == 0
  {
    var q, r := x / m, m / d;
    assert x == q * m && m == r * d;
    assert q * m == q * (r * d) == (q * r) * d;
    MultipleMod(q * r, d);
  }

  lemma MultipleBelow(x: nat, m: nat)
    requires x < m && x % m == 0
    ensures x == 0
  {
    ModSmall(x, m);
  }

  /** Section headers can ask for up to 16384 bytes. A piece at the start of the first
      section that asks for more than a page is not aligned. */
  lemma LargeAlignmentIsMissed(ps: seq<Piece>)
    requires ps != [] && ps[0].align > PAGE_SIZE
    ensures PieceRva([ps], At(0, 0)) % ps[0].align != 0
  {
    assert ps[..1][..0] == [];
    assert ps[..1][|ps[..1]| - 1] == ps[0];
    assert StartOf(ps[..1]) == RoundUp(0, ps[0].align);
    MultipleBelow(RoundUp(0, ps[0].align), ps[0].align);
    ModSmall(FIRST_RVA, ps[0].align);
  }

  function FileSize(ss: seq<seq<Piece>>, headers: nat): (n: nat) {
    FileOffsGrow(ss, headers, |ss|);
    headers + RoundUp(FileOffOf(ss, headers, |ss|) - headers, FILE_ALIGNMENT)
  }

  function SizeOfImage(ss: seq<seq<Piece>>, headers: nat): (n: nat) {
    SectionsStartOnPages(ss, |ss|);
    headers + RoundUp(RvaOf(ss, |ss|) - FIRST_RVA, PAGE_SIZE)
  }

  lemma {:induction false} FileOffsGrow(ss: seq<seq<Piece>>, headers: nat, i: nat)
    requires i <= |ss|
    ensures headers <= FileOffOf(ss, headers, i)
  {
    if i > 0 {
      FileOffsGrow(ss, headers, i - 1);
    }
  }

  /** The file: pieces with data come after the headers, end within the file and do
      not overlap. In a section of size 0 in the file they have no bytes. */
  lemma FileIsSound(ss: seq<seq<Piece>>, headers: nat, a: At, b: At)
    requires IsAt(ss, a) && IsAt(ss, b) && Before(a, b)
    requires PieceAt(ss, a).hasData && PieceAt(ss, b).hasData
    ensures RawOf(ss[a.s]) == 0 ==> PieceAt(ss, a).size == 0
    ensures RawOf(ss[a.s]) > 0 ==> headers <= PieceFileOff(ss, headers, a)
    ensures RawOf(ss[a.s]) > 0 && RawOf(ss[b.s]) > 0 ==>
              PieceFileOff(ss, headers, a) + PieceAt(ss, a).size <= PieceFileOff(ss, headers, b)
    ensures RawOf(ss[b.s]) > 0 ==> PieceFileOff(ss, headers, b) + PieceAt(ss, b).size <= FileSize(ss, headers)
  {
    FileOffsGrow(ss, headers, a.s);
    PieceFits(ss[a.s], a.k);
    PieceFits(ss[b.s], b.k);
    SectionsFollow(ss, headers, b.s, |ss|);
    if a.s < b.s {
      SectionsFollow(ss, headers, a.s, b.s);
    } else {
      PiecesFollow(ss[a.s], a.k, b.k);
    }
  }

  /** The first section always starts at 0x1000, however long the headers are: they
      stay clear of it exactly up to 94 sections. */
  lemma HeadersFitExactlyWhen(n: nat)
    ensures SizeOfHeaders(FIXED_64, n) <= FIRST_RVA <==> n <= 94
    ensures SizeOfHeaders(FIXED_32, n) <= FIRST_RVA <==> n <= 94
  {
  }

  /** What is mapped covers every piece. */
  lemma ImageCoversPieces(ss: seq<seq<Piece>>, fixed: nat, a: At)
    requires IsAt(ss, a)
    requires fixed > 0
    ensures PieceRva(ss, a) + PieceAt(ss, a).size <= SizeOfImage(ss, SizeOfHeaders(fixed, |ss|))
  {
    PieceFits(ss[a.s], a.k);
    SectionsFollow(ss, 0, a.s, |ss|);
    SectionsStartOnPages(ss, |ss|);
    assert SizeOfHeaders(fixed, |ss|) >= FIRST_RVA;
  }

  // ----- nothing is wasted -----

  /** n is the first multiple of m that is not below x. */
  ghost predicate FirstFrom(n: nat, m: Positive, x: nat) {
    n % m == 0 && x <= n && forall p: nat :: p % m == 0 && x <= p ==> n <= p
  }

  lemma RoundUpIsFirst(x: nat, m: Positive)
    ensures FirstFrom(RoundUp(x, m), m, x)
  {
    var n := RoundUp(x, m);
    forall p: nat | p % m == 0 && x <= p ensures n <= p {
      if p < n {
        var a, b := n / m, p / m;
        assert n == a * m && p == b * m;
        assert (a - b) * m == n - p;
        if a - b >= 1 {
          MulAtLeast(a - b, m);
        } else {
          NotPositive(a - b, m);
          assert false;
        }
      }
    }
  }

  lemma NotPositive(d: int, m: nat)
    requires d <= 0
    ensures d * m <= 0
  {
  }

  lemma FirstShifts(n: nat, m: Positive, x: nat, start: nat)
    requires FirstFrom(n, m, x) && start % m == 0
    ensures FirstFrom(start + n, m, start + x)
  {
    SumOfMultiples(n, start, m);
    forall p: nat | p % m == 0 && start + x <= p ensures start + n <= p {
      ShiftBack(p, start, m);
    }
  }

  lemma ShiftBack(p: nat, start: nat, m: Positive)
    requires p % m == 0 && start % m == 0 && start <= p
    ensures (p - start) % m == 0
  {
    SumOfMultiples(p - start, start, m);
  }

  lemma FirstIsItself(n: nat, m: Positive)
    requires n % m == 0
    ensures RoundUp(n, m) == n
  {
    RoundUpIsFirst(n, m);
  }

  /** The offset just past piece k - 1, or the start of the section. */
  function EndBefore(ps: seq<Piece>, k: nat): (n: nat)
    requires k <= |ps|
  {
    if k == 0 then 0 else Offset(ps, k - 1) + ps[k - 1].size
  }

  /** A piece starts at the first multiple of its alignment after the one before,
      and the section ends with its last piece. */
  lemma PiecesAreTight(ps: seq<Piece>, k: nat)
    requires k < |ps|
    ensures FirstFrom(Offset(ps, k), ps[k].align, EndBefore(ps, k))
    ensures EndOf(ps) == EndBefore(ps, |ps|)
  {
    assert ps[..k + 1][..k] == ps[..k];
    RoundUpIsFirst(EndOf(ps[..k]), ps[k].align);
    assert ps[..|ps|] == ps;
  }

  predicate IsLastData(ps: seq<Piece>, k: nat) {
    k < |ps| && ps[k].hasData && forall j :: k < j < |ps| ==> !ps[j].hasData
  }

  /** In the file a section takes the fewest blocks of 512 bytes that hold it up to
      its last piece with data, and none if it has no data. */
  lemma {:induction false} RawIsTight(ps: seq<Piece>)
    ensures forall k: nat :: IsLastData(ps, k) ==> FirstFrom(RawOf(ps), 512, EndBefore(ps, k + 1))
    ensures (forall k :: 0 <= k < |ps| ==> !ps[k].hasData) ==> RawOf(ps) == 0
    decreases |ps|
  {
    if ps != [] {
      var n := |ps| - 1;
      RawIsTight(ps[..n]);
      assert ps[..|ps|] == ps;
      RoundUpIsFirst(EndOf(ps), 512);
      forall k: nat | IsLastData(ps, k) ensures FirstFrom(RawOf(ps), 512, EndBefore(ps, k + 1)) {
        if k < n {
          assert IsLastData(ps[..n], k);
          assert ps[..n][..k + 1] == ps[..k + 1];
        }
      }
    }
  }

  /** The first section starts at 0x1000 and each other at the first page after the
      one before; in the file sections follow the headers without a gap. */
  lemma SectionsAreTight(ss: seq<seq<Piece>>, headers: nat, i: nat)
    requires i < |ss|
    ensures RvaOf(ss, 0) == 0x1000 && FirstFrom(RvaOf(ss, i + 1), 0x1000, RvaOf(ss, i) + EndOf(ss[i]))
    ensures FileOffOf(ss, headers, 0) == headers
    ensures FileOffOf(ss, headers, i + 1) == FileOffOf(ss, headers, i) + RawOf(ss[i])
  {
    hide EndOf, RawOf, RoundUp, FirstFrom;
    SectionsStartOnPages(ss, i);
    NextPage(RvaOf(ss, i), EndOf(ss[i]));
    RawEnds(ss[i]);
    FirstIsItself(RawOf(ss[i]), FILE_ALIGNMENT);
  }

  lemma NextPage(start: nat, x: nat)
    requires start % PAGE_SIZE == 0
    ensures FirstFrom(start + RoundUp(x, PAGE_SIZE), PAGE_SIZE, start + x)
  {
    hide RoundUp, FirstFrom;
    RoundUpIsFirst(x, PAGE_SIZE);
    FirstShifts(RoundUp(x, PAGE_SIZE), PAGE_SIZE, x, start);
  }

  /** The image takes the pages of its headers and of its sections, and the file
      ends with the last section. */
  lemma SizesAreTight(ss: seq<seq<Piece>>, fixed: nat)
    ensures var headers := SizeOfHeaders(fixed, |ss|);
      && FirstFrom(headers, 0x1000, fixed + 40 * |ss|)
      && SizeOfImage(ss, headers) == headers + (RvaOf(ss, |ss|) - 0x1000)
      && FileSize(ss, headers) == FileOffOf(ss, headers, |ss|)
  {
    hide RoundUp, FirstFrom, RvaOf, FileOffOf, EndOf, RawOf;
    var headers := SizeOfHeaders(fixed, |ss|);
    RoundUpIsFirst(fixed + SECTION_HEADER * |ss|, PAGE_SIZE);
    SectionsStartOnPages(ss, |ss|);
    PagesFromFirst(RvaOf(ss, |ss|));
    FilesAreWhole(ss, headers, |ss|);
    FirstIsItself(FileOffOf(ss, headers, |ss|) - headers, FILE_ALIGNMENT);
  }

  /** The headers take the fewest pages that hold the DOS stub, the magic, the file
      header, the optional header with its sixteen directories, and 40 bytes for
      each section. */
  lemma HeadersAreTight(n: nat)
    ensures FirstFrom(SizeOfHeaders(FIXED_64, n), 0x1000, 328 + 40 * n)
    ensures FirstFrom(SizeOfHeaders(FIXED_32, n), 0x1000, 312 + 40 * n)
  {
    hide FirstFrom, RoundUp;
    RoundUpIsFirst(328 + 40 * n, 0x1000);
    RoundUpIsFirst(312 + 40 * n, 0x1000);
  }

  lemma PagesFromFirst(n: nat)
    requires n >= FIRST_RVA && n % PAGE_SIZE == 0
    ensures RoundUp(n - FIRST_RVA, PAGE_SIZE) == n - FIRST_RVA
  {
    hide RoundUp;
    assert (n - FIRST_RVA) % PAGE_SIZE == 0;
    FirstIsItself(n - FIRST_RVA, PAGE_SIZE);
  }

  lemma {:induction false} FilesAreWhole(ss: seq<seq<Piece>>, headers: nat, i: nat)
    requires i <= |ss|
    ensures headers <= FileOffOf(ss, headers, i) && (FileOffOf(ss, headers, i) - headers) % FILE_ALIGNMENT == 0
  {
    if i > 0 {
      FilesAreWhole(ss, headers, i - 1);
      SumOfMultiples(FileOffOf(ss, headers, i - 1) - headers, RoundUp(RawOf(ss[i - 1]), FILE_ALIGNMENT), FILE_ALIGNMENT);
    }
  }
}
