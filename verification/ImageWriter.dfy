/** COFF/Writer.cpp's writeSections and addBaserels and COFF/Chunks.cpp's writeTo
    and getBaserels: the loops that fill the output buffer in place, proved
    against the functions the rebase theorem speaks about. */
module ImageWriter {
  import opened Common
  import opened Bytes
  import opened Patches
  import opened BaseRelocs
  import opened Rebase

  /** add16, add32 and add64. */
  method AddInPlace(buf: array<byte>, loc: nat, w: nat, addend: int)
    requires loc + w <= buf.Length
    modifies buf
    ensures buf[..] == Add(old(buf[..]), loc, w, addend)
  {
    hide Encode, Decode, Modulus;
    ghost var was := buf[..];
    var v := Load(buf, loc, w);
    assert v == Read(was, loc, w);
    var m := Power(w);
    Store(buf, loc, w, (v + addend) % m);
    assert buf[..] == buf[..loc] + buf[loc..loc + w] + buf[loc + w..];
    assert buf[loc + w..] == was[loc + w..];
    assert buf[..loc] == was[..loc];
  }

  method Power(w: nat) returns (m: nat)
    ensures m == Modulus(w)
  {
    m := 1;
    for i := 0 to w
      invariant m == Modulus(i)
    {
      m := 256 * m;
    }
  }

  /** read16le, read32le and read64le. */
  method Load(a: array<byte>, loc: nat, w: nat) returns (v: nat)
    requires loc + w <= a.Length
    ensures v == Read(a[..], loc, w)
  {
    v := 0;
    var i := w;
    ghost var field := a[..][loc..loc + w];
    while i > 0
      invariant 0 <= i <= w
      invariant v == Decode(field[i..])
    {
      i := i - 1;
      assert field[i..][1..] == field[i + 1..];
      v := a[loc + i] + 256 * v;
    }
    assert field[0..] == field;
  }

  /** applyRelX64. An unsupported type is a fatal error. */
  method ApplyRelX64(buf: array<byte>, loc: nat, ty: RelocType, s: int, p: nat, base: nat, out: OutSection)
    returns (ok: bool)
    requires loc + FieldWidth(ty) <= buf.Length
    modifies buf
    ensures ok == !ty.Unsupported?
    ensures buf[..] == if ok then Add(old(buf[..]), loc, FieldWidth(ty), Addend(ty, s, p, base, out))
                       else old(buf[..])
    ensures ok ==> forall target :: s == SymbolRVA(target, base) ==>
      Means(ty, p, target, out, base, Read(old(buf[..]), loc, FieldWidth(ty)), Read(buf[..], loc, FieldWidth(ty)))
  {
    hide Add, Read, Means, Modulus;
    ghost var was, w := buf[..], FieldWidth(ty);
    ReadAdd(was, loc, w, Addend(ty, s, p, base, out));
    ReadIsSmall(was, loc, w);
    forall target | s == SymbolRVA(target, base)
      ensures Means(ty, p, target, out, base, Read(was, loc, w), Read(Add(was, loc, w, Addend(ty, s, p, base, out)), loc, w))
    {
      AddedMeans(ty, p, target, out, base, Read(was, loc, w), Read(Add(was, loc, w, Addend(ty, s, p, base, out)), loc, w));
    }
    ok := true;
    match ty {
      case ADDR32 => AddInPlace(buf, loc, 4, s + base);
      case ADDR64 => AddInPlace(buf, loc, 8, s + base);
      case ADDR32NB => AddInPlace(buf, loc, 4, s);
      case REL32(extra) => AddInPlace(buf, loc, 4, s - p - 4 - extra);
      case SECTION => AddInPlace(buf, loc, 2, out.index);
      case SECREL => AddInPlace(buf, loc, 4, s - out.rva);
      case Unsupported(_) => ok := false;
    }
  }

  /** memcpy of a chunk's contents. */
  method Copy(buf: array<byte>, loc: nat, s: seq<byte>)
    requires loc + |s| <= buf.Length
    modifies buf
    ensures buf[..] == Overwrite(old(buf[..]), loc, s)
  {
    ghost var was := buf[..];
    for i := 0 to |s|
      invariant forall k :: 0 <= k < i ==> buf[loc + k] == s[k]
      invariant forall k :: 0 <= k < buf.Length && !(loc <= k < loc + i) ==> buf[k] == was[k]
    {
      buf[loc + i] := s[i];
    }
    ghost var now := Overwrite(was, loc, s);
    assert forall k :: 0 <= k < |s| ==> now[loc + k] == s[k];
    assert buf[..] == now;
  }

  predicate Fits(c: Chunk, size: nat) {
    c.rva + |Contents(c)| <= size && InBounds(PatchesAt(ChunkItems(c), 0), size)
  }

  function Written(buf: seq<byte>, c: Chunk, base: nat): (r: seq<byte>)
    requires Fits(c, |buf|)
    ensures |r| == |buf|
  {
    SameAtAnyBase(ChunkItems(c), 0, base);
    ApplyAll(Overwrite(buf, c.rva, Contents(c)), PatchesAt(ChunkItems(c), base))
  }

  predicate ChunkSupported(c: Chunk) {
    forall k :: 0 <= k < |ChunkItems(c)| ==> ChunkItems(c)[k].Supported()
  }

  lemma {:induction false} RelocItemsOfData(c: Chunk, relocs: seq<Reloc>)
    requires c.Section? && c.hasData
    ensures |RelocItems(c, relocs)| == |relocs|
    ensures forall k :: 0 <= k < |relocs| ==>
      RelocItems(c, relocs)[k] == Relocated(c.rva + relocs[k].off, relocs[k].ty, relocs[k].target, c.out)
  {
    if relocs != [] {
      RelocItemsOfData(c, relocs[1..]);
    }
  }

  lemma {:induction false} RelocItemsWithoutData(c: Chunk, relocs: seq<Reloc>)
    requires c.Section? && !c.hasData
    ensures forall k :: 0 <= k < |RelocItems(c, relocs)| ==> RelocItems(c, relocs)[k].Unwritten?
  {
    if relocs != [] {
      RelocItemsWithoutData(c, relocs[1..]);
    }
  }

  /** A list of zero patches changes nothing. */
  lemma {:induction false} ApplyUnwritten(buf: seq<byte>, ps: seq<Patch>)
    requires InBounds(ps, |buf|)
    requires forall k :: 0 <= k < |ps| ==> ps[k].addend == 0
    ensures ApplyAll(buf, ps) == buf
  {
    if ps != [] {
      ApplyUnwritten(buf, ps[..|ps| - 1]);
      hide Add;
      AddZero(buf, ps[|ps| - 1].loc, ps[|ps| - 1].width);
    }
  }

  /** writeTo of LocalImportChunk and DelayAddressChunk. */
  method WriteSlot(buf: array<byte>, c: Chunk, base: nat)
    requires c.AddressSlot? && c.rva + 8 <= buf.Length
    modifies buf
    ensures buf[..] == Add(Overwrite(old(buf[..]), c.rva, Zeros(8)), c.rva, 8, SymbolRVA(c.target, base) + base)
  {
    hide Add;
    Copy(buf, c.rva, Zeros(8));
    AddInPlace(buf, c.rva, 8, SymbolRVA(c.target, base) + base);
  }

  lemma SlotWritten(buf: seq<byte>, c: Chunk, base: nat)
    requires c.AddressSlot?
    requires Fits(c, |buf|)
    ensures c.rva + 8 <= |buf|
    ensures Written(buf, c, base) == Add(Overwrite(buf, c.rva, Zeros(8)), c.rva, 8, SymbolRVA(c.target, base) + base)
  {
    hide Add;
    var p := Slot(c.rva, c.target).PatchAt(base);
    assert PatchesAt(ChunkItems(c), base) == [p];
    ApplyUnfold(Overwrite(buf, c.rva, Zeros(8)), [p]);
    ApplyNothing(Overwrite(buf, c.rva, Zeros(8)));
    assert [p][..0] == [];
  }

  lemma NoDataWritten(buf: seq<byte>, c: Chunk, base: nat)
    requires c.Section? && !c.hasData && Fits(c, |buf|)
    ensures Written(buf, c, base) == buf && ChunkSupported(c)
  {
    hide ApplyAll;
    SameAtAnyBase(ChunkItems(c), 0, base);
    RelocItemsWithoutData(c, c.relocs);
    ApplyUnwritten(buf, PatchesAt(ChunkItems(c), base));
    assert Overwrite(buf, c.rva, []) == buf;
  }

  /** SectionChunk::writeTo and the writeTo of address slots and plain chunks. */
  method WriteTo(buf: array<byte>, c: Chunk, base: nat) returns (ok: bool)
    requires Fits(c, buf.Length)
    modifies buf
    ensures ok == ChunkSupported(c)
    ensures ok ==> buf[..] == Written(old(buf[..]), c, base)
  {
    hide ApplyAll, Add;
    SameAtAnyBase(ChunkItems(c), 0, base);
    if c.Plain? {
      Copy(buf, c.rva, c.contents);
      ApplyNothing(buf[..]);
      assert PatchesAt(ChunkItems(c), base) == [];
      ok := true;
    } else if c.AddressSlot? {
      SlotWritten(buf[..], c, base);
      WriteSlot(buf, c, base);
      ok := true;
    } else if !c.hasData {
      NoDataWritten(buf[..], c, base);
      ok := true;
    } else {
      Copy(buf, c.rva, c.contents);
      ok := ApplyRelocs(buf, c, base);
    }
  }

  method ApplyRelocs(buf: array<byte>, c: Chunk, base: nat) returns (ok: bool)
    requires c.Section? && c.hasData && InBounds(PatchesAt(ChunkItems(c), base), buf.Length)
    modifies buf
    ensures ok == ChunkSupported(c)
    ensures ok ==> buf[..] == ApplyAll(old(buf[..]), PatchesAt(ChunkItems(c), base))
  {
    hide ApplyAll, Add, ChunkItems;
    ghost var items := ChunkItems(c);
    ghost var ps := PatchesAt(items, base);
    ItemsAreRelocs(c);
    ghost var was := buf[..];
    ApplyNothing(was);
    for i := 0 to |c.relocs|
      invariant forall k :: 0 <= k < i ==> items[k].Supported()
      invariant InBounds(ps[..i], |was|)
      invariant buf[..] == ApplyAll(was, ps[..i])
    {
      var r := c.relocs[i];
      assert ps[i] == items[i].PatchAt(base);
      var p := c.rva + r.off;
      var s := SymbolRVA(r.target, base);
      var done := ApplyRelX64(buf, p, r.ty, s, p, base, c.out);
      if !done {
        assert !items[i].Supported();
        return false;
      }
      ApplySnoc(was, ps[..i], ps[i]);
      assert ps[..i + 1] == ps[..i] + [ps[i]];
    }
    assert ps[..|c.relocs|] == ps;
    ok := true;
  }

  lemma ItemsAreRelocs(c: Chunk)
    requires c.Section? && c.hasData
    ensures |ChunkItems(c)| == |c.relocs|
    ensures forall k :: 0 <= k < |c.relocs| ==>
      ChunkItems(c)[k] == Relocated(c.rva + c.relocs[k].off, c.relocs[k].ty, c.relocs[k].target, c.out)
  {
    RelocItemsOfData(c, c.relocs);
  }

  lemma ApplyNothing(buf: seq<byte>)
    ensures ApplyAll(buf, []) == buf
  {
  }

  // ----- the whole image -----

  /** The chunks' items, in order, without the division into sections. */
  lemma {:induction false} ItemsOfFlat(sections: seq<seq<Chunk>>)
    ensures SectionItems(Flatten(sections)) == ImageItems(sections)
  {
    if sections != [] {
      ItemsOfFlat(sections[1..]);
      SectionItemsAppend(sections[0], Flatten(sections[1..]));
    }
  }

  lemma {:induction false} SectionItemsAppend(a: seq<Chunk>, b: seq<Chunk>)
    ensures SectionItems(a + b) == SectionItems(a) + SectionItems(b)
  {
    hide ChunkItems;
    if a == [] {
      assert a + b == b;
    } else {
      SectionItemsAppend(a[1..], b);
      assert (a + b)[1..] == a[1..] + b;
    }
  }

  lemma SectionItemsSnoc(cs: seq<Chunk>, i: nat)
    requires i < |cs|
    ensures SectionItems(cs[..i + 1]) == SectionItems(cs[..i]) + ChunkItems(cs[i])
  {
    assert cs[..i + 1] == cs[..i] + [cs[i]];
    SectionItemsAppend(cs[..i], [cs[i]]);
    assert SectionItems([cs[i]]) == ChunkItems(cs[i]) + [];
  }

  predicate OutOfTheWay(items: seq<Item>, loc: nat, size: nat) {
    forall k :: 0 <= k < |items| ==> Apart(items[k].loc, items[k].Width(), loc, size)
  }

  /** Later chunks are not written over the relocated fields of earlier ones.
      (Layout proves that chunks do not overlap.) */
  predicate ChunksApart(cs: seq<Chunk>) {
    forall j, k :: 0 <= j < k < |cs| ==> OutOfTheWay(ChunkItems(cs[j]), cs[k].rva, |Contents(cs[k])|)
  }

  lemma {:induction false} PrefixOutOfTheWay(cs: seq<Chunk>, i: nat, k: nat)
    requires ChunksApart(cs) && i <= k < |cs|
    ensures OutOfTheWay(SectionItems(cs[..i]), cs[k].rva, |Contents(cs[k])|)
  {
    if i > 0 {
      PrefixOutOfTheWay(cs, i - 1, k);
      SectionItemsSnoc(cs, i - 1);
    }
  }

  lemma AddThenOverwrite(buf: seq<byte>, p: Patch, loc: nat, s: seq<byte>)
    requires p.loc + p.width <= |buf| && loc + |s| <= |buf|
    requires Apart(p.loc, p.width, loc, |s|)
    ensures Overwrite(Add(buf, p.loc, p.width, p.addend), loc, s)
         == Add(Overwrite(buf, loc, s), p.loc, p.width, p.addend)
  {
    var o := Overwrite(buf, loc, s);
    assert o[p.loc..p.loc + p.width] == buf[p.loc..p.loc + p.width];
    hide Encode, Decode, Modulus;
    var a, b := Overwrite(Add(buf, p.loc, p.width, p.addend), loc, s), Add(o, p.loc, p.width, p.addend);
    assert forall i :: 0 <= i < |buf| ==> a[i] == b[i];
  }

  /** Patching some fields and then copying bytes elsewhere commute. */
  lemma {:induction false} ApplyThenOverwrite(buf: seq<byte>, ps: seq<Patch>, loc: nat, s: seq<byte>)
    requires InBounds(ps, |buf|) && loc + |s| <= |buf|
    requires forall k :: 0 <= k < |ps| ==> Apart(ps[k].loc, ps[k].width, loc, |s|)
    ensures Overwrite(ApplyAll(buf, ps), loc, s) == ApplyAll(Overwrite(buf, loc, s), ps)
  {
    hide Add, Overwrite;
    if ps != [] {
      var n := |ps| - 1;
      ApplyThenOverwrite(buf, ps[..n], loc, s);
      AddThenOverwrite(ApplyAll(buf, ps[..n]), ps[n], loc, s);
    }
  }

  predicate AllFit(cs: seq<Chunk>, size: nat) {
    forall k :: 0 <= k < |cs| ==> Fits(cs[k], size)
  }

  lemma {:induction false} PrefixInBounds(cs: seq<Chunk>, i: nat, base: nat, size: nat)
    requires AllFit(cs, size) && i <= |cs|
    ensures InBounds(PatchesAt(SectionItems(cs[..i]), base), size)
  {
    hide SectionItems, ChunkItems, Item.AddendAt, Item.Width, Contents;
    if i == 0 {
      assert SectionItems(cs[..0]) == [] by { NoItems(cs); }
    } else {
      PrefixInBounds(cs, i - 1, base, size);
      SectionItemsSnoc(cs, i - 1);
      SameAtAnyBase(ChunkItems(cs[i - 1]), 0, base);
      PatchesAppend(SectionItems(cs[..i - 1]), ChunkItems(cs[i - 1]), base);
    }
  }

  lemma NoItems(cs: seq<Chunk>)
    ensures SectionItems(cs[..0]) == []
  {
  }

  lemma PatchesAppend(a: seq<Item>, b: seq<Item>, base: nat)
    ensures PatchesAt(a + b, base) == PatchesAt(a, base) + PatchesAt(b, base)
  {
  }

  lemma PlaceNext(init: seq<byte>, cs: seq<Chunk>, i: nat)
    requires ContentsFit(cs, |init|) && i < |cs|
    ensures PlaceAll(init, cs[..i + 1]) == Overwrite(PlaceAll(init, cs[..i]), cs[i].rva, Contents(cs[i]))
  {
    assert cs[..i + 1][..i] == cs[..i];
  }

  lemma WriteAfter(placed: seq<byte>, items: seq<Item>, c: Chunk, base: nat)
    requires InBounds(PatchesAt(items, base), |placed|) && Fits(c, |placed|)
    requires OutOfTheWay(items, c.rva, |Contents(c)|)
    ensures InBounds(PatchesAt(items + ChunkItems(c), base), |placed|)
    ensures Written(ApplyAll(placed, PatchesAt(items, base)), c, base)
         == ApplyAll(Overwrite(placed, c.rva, Contents(c)), PatchesAt(items + ChunkItems(c), base))
  {
    hide ApplyAll, ChunkItems, Overwrite, Contents;
    PatchesAppend(items, ChunkItems(c), base);
    SameAtAnyBase(ChunkItems(c), 0, base);
    ApplyThenOverwrite(placed, PatchesAt(items, base), c.rva, Contents(c));
    ApplyAppend(Overwrite(placed, c.rva, Contents(c)), PatchesAt(items, base), PatchesAt(ChunkItems(c), base));
  }

  /** One more chunk written after the first i. */
  lemma WriteNext(init: seq<byte>, cs: seq<Chunk>, i: nat, base: nat)
    requires AllFit(cs, |init|) && ContentsFit(cs, |init|) && ChunksApart(cs) && i < |cs|
    ensures InBounds(PatchesAt(SectionItems(cs[..i]), base), |init|)
    ensures InBounds(PatchesAt(SectionItems(cs[..i + 1]), base), |init|)
    ensures Written(ApplyAll(PlaceAll(init, cs[..i]), PatchesAt(SectionItems(cs[..i]), base)), cs[i], base)
         == ApplyAll(PlaceAll(init, cs[..i + 1]), PatchesAt(SectionItems(cs[..i + 1]), base))
  {
    hide ApplyAll, PlaceAll, ChunkItems, SectionItems, Overwrite, Contents, Written, ChunksApart;
    PrefixInBounds(cs, i, base, |init|);
    PrefixInBounds(cs, i + 1, base, |init|);
    SectionItemsSnoc(cs, i);
    PrefixOutOfTheWay(cs, i, i);
    PlaceNext(init, cs, i);
    WriteAfter(PlaceAll(init, cs[..i]), SectionItems(cs[..i]), cs[i], base);
  }

  /** writeSections: every chunk of every section, then .reloc, the last one. */
  method WriteImage(buf: array<byte>, img: Image, base: nat) returns (ok: bool)
    requires img.WellFormed(buf.Length)
    requires AllFit(Flatten(img.sections), buf.Length) && ChunksApart(Flatten(img.sections))
    modifies buf
    ensures ok == forall c :: c in Flatten(img.sections) ==> ChunkSupported(c)
    ensures ok ==> buf[..] == img.Link(old(buf[..]), base)
  {
    hide ApplyAll, PlaceAll, SectionItems, ChunkItems, ImageItems, ChunkSupported, Written, RelocBytes, Flatten;
    var cs := Flatten(img.sections);
    ghost var init := buf[..];
    WriteNone(init, base);
    assert cs[..0] == [];
    for i := 0 to |cs|
      invariant forall k :: 0 <= k < i ==> ChunkSupported(cs[k])
      invariant InBounds(PatchesAt(SectionItems(cs[..i]), base), |init|)
      invariant buf[..] == ApplyAll(PlaceAll(init, cs[..i]), PatchesAt(SectionItems(cs[..i]), base))
    {
      WriteNext(init, cs, i, base);
      var done := WriteTo(buf, cs[i], base);
      if !done {
        return false;
      }
    }
    assert cs[..|cs|] == cs;
    ItemsOfFlat(img.sections);
    ApplyThenOverwrite(PlaceAll(init, cs), PatchesAt(img.Items(), base), img.relocRva, RelocBytes(img.sections));
    Copy(buf, img.relocRva, RelocBytes(img.sections));
    ok := true;
  }

  lemma WriteNone(init: seq<byte>, base: nat)
    ensures ContentsFit([], |init|) && PatchesAt(SectionItems([]), base) == []
    ensures ApplyAll(PlaceAll(init, []), []) == init
  {
  }

  // ----- .reloc -----

  /** getBaserels of one chunk: push every location the loader must fix. */
  method GetBaserels(c: Chunk, v: seq<uint32>) returns (res: seq<uint32>)
    requires Addressable(ChunkItems(c))
    ensures res == v + ListedLocs(ChunkItems(c))
  {
    match c {
      case Plain(_, _) => res := v;
      case AddressSlot(rva, target) =>
        assert ChunkItems(c)[0].loc == rva;
        res := v + [rva];
        assert ListedLocs([Slot(rva, target)]) == [rva] + ListedLocs([]);
      case Section(rva, _, hasData, relocs, _) =>
        res := v;
        assert relocs[0..] == relocs;
        for i := 0 to |relocs|
          invariant Addressable(RelocItems(c, relocs[i..]))
          invariant res + ListedLocs(RelocItems(c, relocs[i..])) == v + ListedLocs(RelocItems(c, relocs))
        {
          var r := relocs[i];
          var rest := RelocItems(c, relocs[i..][1..]);
          assert relocs[i..][1..] == relocs[i + 1..];
          NextReloc(c, relocs[i..]);
          if NeedsFixup(r) {
            res := res + [rva + r.off];
          }
        }
        assert relocs[|relocs|..] == [];
    }
  }

  predicate NeedsFixup(r: Reloc) {
    r.ty == ADDR64 && r.target != ImageBaseSymbol
  }

  lemma {:induction false} NextReloc(c: Chunk, relocs: seq<Reloc>)
    requires c.Section? && relocs != [] && Addressable(RelocItems(c, relocs))
    ensures Addressable(RelocItems(c, relocs[1..]))
    ensures NeedsFixup(relocs[0]) ==> c.rva + relocs[0].off < 0x1_0000_0000
    ensures ListedLocs(RelocItems(c, relocs))
         == (if NeedsFixup(relocs[0]) then [c.rva + relocs[0].off] else []) + ListedLocs(RelocItems(c, relocs[1..]))
  {
    var items, rest := RelocItems(c, relocs), RelocItems(c, relocs[1..]);
    var first := items[..|items| - |rest|];
    assert items == first + rest;
    ListedLocsAppend(first, rest);
    if first != [] {
      assert first == [items[0]] && first[1..] == [];
    }
  }

  /** addBaserels: the listed locations of one section at a time become blocks. */
  method AddBaserels(sections: seq<seq<Chunk>>) returns (dest: seq<seq<byte>>)
    requires Addressable(ImageItems(sections)) && |ImageItems(sections)| <= MAX_ADDRESSES
    ensures Flatten(dest) == RelocBytes(sections)
  {
    hide Blocks, ListedLocs, SectionItems, ImageItems, RelocBytes, Flatten, Addressable;
    dest := [];
    NoSections();
    assert sections[0..] == sections;
    for i := 0 to |sections|
      invariant Addressable(ImageItems(sections[i..])) && |ImageItems(sections[i..])| <= MAX_ADDRESSES
      invariant Flatten(dest) + RelocBytes(sections[i..]) == RelocBytes(sections)
    {
      NextSection(sections[i..]);
      assert sections[i..][1..] == sections[i + 1..];
      ghost var before := dest;
      dest := AddSection(dest, sections[i]);
      Associates(Flatten(before), Flatten(Blocks(ListedLocs(SectionItems(sections[i])))), RelocBytes(sections[i + 1..]));
    }
    assert sections[|sections|..] == [];
    assert Flatten(dest) + [] == Flatten(dest);
  }

  lemma NoSections()
    ensures Flatten<byte>([]) + RelocBytes([]) == RelocBytes([]) == []
  {
  }

  /** One section: collect its locations, and add blocks if there are any. */
  method AddSection(dest: seq<seq<byte>>, cs: seq<Chunk>) returns (dest': seq<seq<byte>>)
    requires Addressable(SectionItems(cs)) && |ListedLocs(SectionItems(cs))| <= MAX_ADDRESSES
    ensures Flatten(dest') == Flatten(dest) + Flatten(Blocks(ListedLocs(SectionItems(cs))))
  {
    hide Blocks, ListedLocs, SectionItems, Flatten, Addressable;
    var v := CollectSection(cs);
    if v != [] {
      dest' := AddBaserelBlocks(dest, v);
    } else {
      NoBlocks();
      dest' := dest;
      assert dest' == dest + Blocks(v);
    }
    FlattenAppend(dest, Blocks(v));
  }

  lemma NextSection(sections: seq<seq<Chunk>>)
    requires sections != [] && Addressable(ImageItems(sections))
    ensures Addressable(SectionItems(sections[0])) && Addressable(ImageItems(sections[1..]))
    ensures |ListedLocs(SectionItems(sections[0]))| <= |ImageItems(sections)|
    ensures |ImageItems(sections[1..])| <= |ImageItems(sections)|
    ensures RelocBytes(sections)
         == Flatten(Blocks(ListedLocs(SectionItems(sections[0])))) + RelocBytes(sections[1..])
  {
    ListedLocsAppend(SectionItems(sections[0]), ImageItems(sections[1..]));
  }

  method CollectSection(cs: seq<Chunk>) returns (v: seq<uint32>)
    requires Addressable(SectionItems(cs))
    ensures v == ListedLocs(SectionItems(cs))
  {
    hide ListedLocs, SectionItems, ChunkItems, Addressable;
    v := [];
    assert cs[0..] == cs;
    for i := 0 to |cs|
      invariant Addressable(SectionItems(cs[i..]))
      invariant v + ListedLocs(SectionItems(cs[i..])) == ListedLocs(SectionItems(cs))
    {
      assert cs[i..][1..] == cs[i + 1..];
      NextChunk(cs[i..]);
      v := GetBaserels(cs[i], v);
    }
    assert cs[|cs|..] == [];
    NextChunk([]);
    assert v + [] == v;
  }

  lemma NextChunk(cs: seq<Chunk>)
    requires Addressable(SectionItems(cs))
    ensures cs == [] ==> ListedLocs(SectionItems(cs)) == []
    ensures cs != [] ==>
      Addressable(ChunkItems(cs[0])) && Addressable(SectionItems(cs[1..]))
      && ListedLocs(SectionItems(cs)) == ListedLocs(ChunkItems(cs[0])) + ListedLocs(SectionItems(cs[1..]))
  {
    if cs != [] {
      ListedLocsAppend(ChunkItems(cs[0]), SectionItems(cs[1..]));
    }
  }
}
