/** Relocation for x64 images: what the writer stores in the image when it links
    at a given base (COFF/Chunks.cpp), which locations it lists in .reloc, and
    what the loader makes of both when it moves the image. */
module Rebase {
  import opened Common
  import opened Bytes
  import opened Patches
  import opened BaseRelocs

  /** A relocation's symbol after repl(): one that lives in some chunk, the
      linker's own __ImageBase, or an absolute symbol with a fixed address. */
  datatype Target = Regular(rva: nat) | ImageBaseSymbol | Absolute(va: nat)

  datatype RelocType =
    | ADDR32 | ADDR64 | ADDR32NB
    | REL32(extra: nat)
    | SECTION | SECREL
    | Unsupported(code: nat)

  datatype Reloc = Reloc(off: nat, ty: RelocType, target: Target)

  datatype OutSection = OutSection(index: nat, rva: nat)

  datatype Chunk =
    | Section(rva: nat, contents: seq<byte>, hasData: bool, relocs: seq<Reloc>, out: OutSection)
      /** LocalImportChunk and DelayAddressChunk: one 64-bit address. */
    | AddressSlot(rva: nat, target: Target)
      /** Everything else on x64: the bytes do not depend on the base. */
    | Plain(rva: nat, contents: seq<byte>)

  /** Defined::getRVA. The absolute kinds hold an address, not an RVA, and
      __ImageBase is an absolute symbol equal to the base. */
  function SymbolRVA(t: Target, base: nat): (s: int) {
    match t
    case Regular(rva) => rva
    case ImageBaseSymbol => 0
    case Absolute(va) => va - base
  }

  function FieldWidth(ty: RelocType): (w: nat) {
    match ty
    case ADDR64 => 8
    case SECTION => 2
    case _ => 4
  }

  /** applyRelX64: what is added to the field for symbol RVA s at place p. */
  function Addend(ty: RelocType, s: int, p: nat, base: nat, out: OutSection): (a: int) {
    match ty
    case ADDR32 => s + base
    case ADDR64 => s + base
    case ADDR32NB => s
    case REL32(extra) => s - p - 4 - extra
    case SECTION => out.index
    case SECREL => s - out.rva
    case Unsupported(_) => 0
  }

  // ----- what a field says -----

  /** The address a symbol has when the image lies at base. */
  function AddressOf(t: Target, base: nat): (va: nat) {
    match t
    case Regular(rva) => base + rva
    case ImageBaseSymbol => base
    case Absolute(va) => va
  }

  predicate Same16(x: int, y: int) { x % 0x1_0000 == y % 0x1_0000 }
  predicate Same32(x: int, y: int) { x % 0x1_0000_0000 == y % 0x1_0000_0000 }
  predicate Same64(x: int, y: int) { x % 0x1_0000_0000_0000_0000 == y % 0x1_0000_0000_0000_0000 }

  /** The field at loc held `before` in the object file and holds `after` in the
      image at base. Its offset from what its type measures from (nothing, the
      image, the next instruction, the output section) leads to the target, plus
      the value that was there. */
  predicate Means(ty: RelocType, loc: nat, target: Target, out: OutSection, base: nat, before: nat, after: nat) {
    var sought := AddressOf(target, base) + before;
    match ty
    case ADDR64 => Same64(after, sought)
    case ADDR32 => Same32(after, sought)
    case ADDR32NB => Same32(base + after, sought)
    case REL32(extra) => Same32(base + loc + 4 + extra + after, sought)
    case SECREL => Same32(base + out.rva + after, sought)
    case SECTION => Same16(after, before + out.index)
    case Unsupported(_) => after == before
  }

  lemma Shifted(x: int, a: int, d: int, m: nat)
    requires m > 0
    ensures ((x + a) % m + d) % m == (x + a + d) % m
  {
    ModAddAdd(x, a, d, m);
  }

  /** One field after the linker has added to it. */
  lemma AddedMeans(ty: RelocType, loc: nat, target: Target, out: OutSection, base: nat, before: nat, after: nat)
    requires before < Modulus(FieldWidth(ty))
    requires after == (before + Addend(ty, SymbolRVA(target, base), loc, base, out)) % Modulus(FieldWidth(ty))
    ensures Means(ty, loc, target, out, base, before, after)
  {
    hide Modulus;
    ModulusValues();
    var a := Addend(ty, SymbolRVA(target, base), loc, base, out);
    var m := Modulus(FieldWidth(ty));
    Shifted(before, a, 0, m);
    Shifted(before, a, base, m);
    Shifted(before, a, base + out.rva, m);
    match ty
    case REL32(extra) => Shifted(before, a, base + loc + 4 + extra, m);
    case Unsupported(_) => ModSmall(before, m);
    case _ =>
  }

  // ----- the fields of an image -----

  /** One field of the image that the writer or the loader touches. */
  datatype Item =
    | Relocated(loc: nat, ty: RelocType, target: Target, out: OutSection)
      /** An absolute relocation of a section without data: listed, never written. */
    | Unwritten(loc: nat)
    | Slot(loc: nat, target: Target)
  {
    function Width(): (w: nat) {
      match this
      case Relocated(_, ty, _, _) => FieldWidth(ty)
      case _ => 8
    }

    function AddendAt(base: nat): (a: int) {
      match this
      case Relocated(loc, ty, target, out) => Addend(ty, SymbolRVA(target, base), loc, base, out)
      case Unwritten(_) => 0
      case Slot(_, target) => SymbolRVA(target, base) + base
    }

    /** getBaserels: is the location put into .reloc? */
    predicate Listed() {
      match this
      case Relocated(_, ty, target, _) => ty.ADDR64? && !target.ImageBaseSymbol?
      case _ => true
    }

    predicate Supported() {
      Relocated? ==> !ty.Unsupported?
    }

    /** Does the field survive a move of the image by delta? */
    predicate Safe(delta: int) {
      match this
      case Unwritten(_) => delta % Modulus(8) == 0
      case Slot(_, target) => !target.Absolute? || delta % Modulus(8) == 0
      case Relocated(_, ADDR64, target, _) => target.Regular? || delta % Modulus(8) == 0
      case Relocated(_, ADDR32, target, _) => target.Absolute? || delta % Modulus(4) == 0
      case Relocated(_, SECTION, _, _) => true
      case Relocated(_, _, target, _) => !target.Absolute? || delta % Modulus(4) == 0
    }

    function PatchAt(base: nat): (p: Patch) {
      Patch(loc, Width(), AddendAt(base))
    }
  }

  // ----- the items of chunks, sections and images -----

  function RelocItems(c: Chunk, relocs: seq<Reloc>): (items: seq<Item>)
    requires c.Section?
  {
    if relocs == [] then []
    else
      var r := relocs[0];
      var rest := RelocItems(c, relocs[1..]);
      if c.hasData then [Relocated(c.rva + r.off, r.ty, r.target, c.out)] + rest
      else if r.ty.ADDR64? && !r.target.ImageBaseSymbol? then [Unwritten(c.rva + r.off)] + rest
      else rest
  }

  function ChunkItems(c: Chunk): (items: seq<Item>) {
    match c
    case Section(_, _, _, relocs, _) => RelocItems(c, relocs)
    case AddressSlot(rva, target) => [Slot(rva, target)]
    case Plain(_, _) => []
  }

  function SectionItems(cs: seq<Chunk>): (items: seq<Item>) {
    if cs == [] then [] else ChunkItems(cs[0]) + SectionItems(cs[1..])
  }

  function ImageItems(sections: seq<seq<Chunk>>): (items: seq<Item>) {
    if sections == [] then [] else SectionItems(sections[0]) + ImageItems(sections[1..])
  }

  predicate Addressable(items: seq<Item>) {
    forall k :: 0 <= k < |items| ==> items[k].loc < 0x1_0000_0000
  }

  /** The locations getBaserels pushes, in order. */
  function ListedLocs(items: seq<Item>): (v: seq<uint32>)
    requires Addressable(items)
    ensures |v| <= |items|
  {
    if items == [] then []
    else
      var rest := ListedLocs(items[1..]);
      if items[0].Listed() then [items[0].loc] + rest else rest
  }

  lemma {:induction false} ListedLocsAppend(a: seq<Item>, b: seq<Item>)
    requires Addressable(a + b)
    ensures Addressable(a) && Addressable(b)
    ensures ListedLocs(a + b) == ListedLocs(a) + ListedLocs(b)
  {
    assert forall k :: 0 <= k < |a| ==> a[k] == (a + b)[k];
    assert forall k :: 0 <= k < |b| ==> b[k] == (a + b)[|a| + k];
    if a == [] {
      assert a + b == b;
    } else {
      assert (a + b)[1..] == a[1..] + b;
      ListedLocsAppend(a[1..], b);
    }
  }

  /** The contents of .reloc: the blocks of one section after another. */
  function RelocBytes(sections: seq<seq<Chunk>>): (s: seq<byte>)
    requires Addressable(ImageItems(sections))
  {
    if sections == [] then []
    else
      ListedLocsAppend(SectionItems(sections[0]), ImageItems(sections[1..]));
      Flatten(Blocks(ListedLocs(SectionItems(sections[0])))) + RelocBytes(sections[1..])
  }

  /** Reading .reloc back gives every listed location of the image in order. */
  lemma {:induction false} DecodeReloc(sections: seq<seq<Chunk>>)
    requires Addressable(ImageItems(sections)) && |ImageItems(sections)| <= MAX_ADDRESSES
    ensures DecodeBlocks(RelocBytes(sections)) == Some(Fixups(ListedLocs(ImageItems(sections))))
  {
    hide DecodeBlocks, Blocks, SectionItems, Flatten;
    if sections == [] {
      RoundTrip([]);
      NoBlocks();
      assert Fixups([]) == [];
      assert Flatten(Blocks([])) == [] by { FlattenNothing(); }
    } else {
      var here, rest := SectionItems(sections[0]), ImageItems(sections[1..]);
      ListedLocsAppend(here, rest);
      var v, w := ListedLocs(here), ListedLocs(rest);
      assert RelocBytes(sections) == Flatten(Blocks(v)) + RelocBytes(sections[1..]);
      assert Fixups(v + w) == Fixups(v) + Fixups(w);
      DecodeReloc(sections[1..]);
      assert Prepend(Fixups(v), Some(Fixups(w))) == Some(Fixups(v) + Fixups(w));
      hide *;
      DecodeBlocksOf(v, RelocBytes(sections[1..]));
    }
  }

  lemma FlattenNothing()
    ensures Flatten<byte>([]) == []
  {
  }

  // ----- linking -----

  function Contents(c: Chunk): (s: seq<byte>) {
    match c
    case Section(_, contents, hasData, _, _) => if hasData then contents else []
    case AddressSlot(_, _) => Zeros(8)
    case Plain(_, contents) => contents
  }

  function Overwrite(buf: seq<byte>, loc: nat, s: seq<byte>): (r: seq<byte>)
    requires loc + |s| <= |buf|
    ensures |r| == |buf|
    ensures r[loc..loc + |s|] == s
  {
    buf[..loc] + s + buf[loc + |s|..]
  }

  predicate ContentsFit(cs: seq<Chunk>, size: nat) {
    forall k :: 0 <= k < |cs| ==> cs[k].rva + |Contents(cs[k])| <= size
  }

  /** The chunks' bytes before any relocation is applied. */
  function PlaceAll(buf: seq<byte>, cs: seq<Chunk>): (r: seq<byte>)
    requires ContentsFit(cs, |buf|)
    ensures |r| == |buf|
  {
    if cs == [] then buf
    else
      var c := cs[|cs| - 1];
      Overwrite(PlaceAll(buf, cs[..|cs| - 1]), c.rva, Contents(c))
  }

  function PatchesAt(items: seq<Item>, base: nat): (ps: seq<Patch>)
    ensures |ps| == |items|
  {
    seq(|items|, k requires 0 <= k < |items| => items[k].PatchAt(base))
  }

  datatype Image = Image(sections: seq<seq<Chunk>>, relocRva: nat)
  {
    function Items(): (items: seq<Item>) {
      ImageItems(sections)
    }

    /** What the rebase theorem asks of an image: the fields lie inside the
        image, do not overlap each other, and stay out of .reloc. */
    predicate WellFormed(size: nat) {
      var items := Items();
      && Addressable(items)
      && |items| <= MAX_ADDRESSES
      && ContentsFit(Flatten(sections), size)
      && relocRva + |RelocBytes(sections)| <= size
      && InBounds(PatchesAt(items, 0), size)
      && Disjoint(PatchesAt(items, 0))
      && forall k :: 0 <= k < |items| ==>
           Apart(items[k].loc, items[k].Width(), relocRva, |RelocBytes(sections)|)
    }

    predicate Supported() {
      forall k :: 0 <= k < |Items()| ==> Items()[k].Supported()
    }

    /** The image before relocation: every chunk's bytes, then .reloc. */
    function Placed(init: seq<byte>): (r: seq<byte>)
      requires WellFormed(|init|)
      ensures |r| == |init|
    {
      Overwrite(PlaceAll(init, Flatten(sections)), relocRva, RelocBytes(sections))
    }

    /** The image in memory as linked at the given base. */
    function Link(init: seq<byte>, base: nat): (r: seq<byte>)
      requires WellFormed(|init|)
      ensures |r| == |init|
    {
      SameAtAnyBase(Items(), 0, base);
      ApplyAll(Placed(init), PatchesAt(Items(), base))
    }
  }

  lemma SameAtAnyBase(items: seq<Item>, base: nat, base': nat)
    ensures SameFields(PatchesAt(items, base), PatchesAt(items, base'))
    ensures forall size :: InBounds(PatchesAt(items, base), size) ==> InBounds(PatchesAt(items, base'), size)
    ensures Disjoint(PatchesAt(items, base)) ==> Disjoint(PatchesAt(items, base'))
  {
    var ps, qs := PatchesAt(items, base), PatchesAt(items, base');
    assert forall k :: 0 <= k < |ps| ==> ps[k].loc == qs[k].loc && ps[k].width == qs[k].width;
  }

  // ----- loading -----

  function ApplyFixups(mem: seq<byte>, fs: seq<Fixup>, delta: int): (r: seq<byte>)
    ensures |r| == |mem|
  {
    if fs == [] then mem
    else
      var f := fs[|fs| - 1];
      var m := ApplyFixups(mem, fs[..|fs| - 1], delta);
      if f.kind == IMAGE_REL_BASED_DIR64 && f.rva + 8 <= |m| then Add(m, f.rva, 8, delta) else m
  }

  /** The loader moves an image by delta: it decodes .reloc out of the image and
      adds delta to every 64-bit location listed there. */
  function Load(mem: seq<byte>, relocRva: nat, relocSize: nat, delta: int): (r: Option<seq<byte>>)
    requires relocRva + relocSize <= |mem|
  {
    match DecodeBlocks(mem[relocRva..relocRva + relocSize])
    case None => None
    case Some(fs) => Some(ApplyFixups(mem, fs, delta))
  }

  function ListedFlags(items: seq<Item>): (b: seq<bool>)
    ensures |b| == |items|
  {
    seq(|items|, k requires 0 <= k < |items| => items[k].Listed())
  }

  /** The loader's additions are a second pass over the listed fields. */
  lemma {:induction false} FixupsAreSecondPass(mem: seq<byte>, items: seq<Item>, base: nat, delta: int)
    requires Addressable(items) && InBounds(PatchesAt(items, base), |mem|)
    ensures var second := Second(PatchesAt(items, base), ListedFlags(items), 8, delta);
      InBounds(second, |mem|) && ApplyFixups(mem, Fixups(ListedLocs(items)), delta) == ApplyAll(mem, second)
  {
    hide Add;
    if items == [] {
      assert Fixups([]) == [];
    } else {
      var n := |items| - 1;
      var front, last := items[..n], items[n];
      assert PatchesAt(items, base)[..n] == PatchesAt(front, base);
      assert ListedFlags(items)[..n] == ListedFlags(front);
      FixupsAreSecondPass(mem, front, base, delta);
      assert items == front + [last];
      ListedLocsAppend(front, [last]);
      var locs := ListedLocs(front);
      assert ListedLocs([last]) == if last.Listed() then [last.loc] else [];
      assert last.loc + last.Width() <= |mem| by {
        assert PatchesAt(items, base)[n] == last.PatchAt(base);
      }
      if last.Listed() {
        assert Fixups(locs + [last.loc]) == Fixups(locs) + [Fixup(IMAGE_REL_BASED_DIR64, last.loc)];
      } else {
        assert locs + [] == locs;
      }
    }
  }

  lemma ItemCongruent(it: Item, base: nat, delta: int)
    requires base + delta >= 0 && it.Supported()
    ensures (it.AddendAt(base + delta) - (it.AddendAt(base) + if it.Listed() then delta else 0))
              % Modulus(it.Width()) == 0
       <==> it.Safe(delta)
  {
    hide Modulus;
    var m := Modulus(it.Width());
    var d := it.AddendAt(base + delta) - (it.AddendAt(base) + if it.Listed() then delta else 0);
    assert d == 0 || d == delta || d == -delta;
    assert 0 % m == 0 by { MultipleMod(0, m); }
    NegatedMultiple(delta, m);
  }

  /** The loader's result: every field gets what the linker added and, if it is
      listed, delta on top. */
  lemma LoadedImage(init: seq<byte>, img: Image, base: nat, delta: int)
    requires img.WellFormed(|init|)
    ensures var merged := Merged(PatchesAt(img.Items(), base), ListedFlags(img.Items()), delta);
      InBounds(merged, |init|)
      && Load(img.Link(init, base), img.relocRva, |RelocBytes(img.sections)|, delta)
           == Some(ApplyAll(img.Placed(init), merged))
  {
    hide ApplyAll, Add, Modulus, RelocBytes, DecodeBlocks, ListedLocs, Fixups, PlaceAll, Second;
    hide ImageItems, ApplyFixups;
    var items := img.Items();
    var ps := PatchesAt(items, base);
    var placed := img.Placed(init);
    SameAtAnyBase(items, 0, base);
    var mem := img.Link(init, base);
    var size := |RelocBytes(img.sections)|;
    assert mem == ApplyAll(placed, ps);
    FieldElsewhere(placed, ps, img.relocRva, size);
    assert mem[img.relocRva..img.relocRva + size] == RelocBytes(img.sections);
    DecodeReloc(img.sections);
    FixupsAreSecondPass(mem, items, base, delta);
    TwoPasses(placed, ps, ListedFlags(items), 8, delta);
  }

  lemma MergedIsRelinked(placed: seq<byte>, items: seq<Item>, base: nat, delta: int)
    requires InBounds(PatchesAt(items, 0), |placed|) && Disjoint(PatchesAt(items, 0))
    requires base + delta >= 0
    requires forall k :: 0 <= k < |items| ==> items[k].Supported()
    ensures var merged := Merged(PatchesAt(items, base), ListedFlags(items), delta);
      var relinked := PatchesAt(items, base + delta);
      InBounds(merged, |placed|) && InBounds(relinked, |placed|)
      && (ApplyAll(placed, merged) == ApplyAll(placed, relinked)
          <==> forall it :: it in items ==> it.Safe(delta))
  {
    hide ApplyAll, Modulus, Congruent, Item.Safe;
    SameAtAnyBase(items, 0, base);
    SameAtAnyBase(items, 0, base + delta);
    var merged := Merged(PatchesAt(items, base), ListedFlags(items), delta);
    var relinked := PatchesAt(items, base + delta);
    SameEffect(placed, merged, relinked);
    forall k | 0 <= k < |items|
      ensures Congruent(merged[k], relinked[k]) <==> items[k].Safe(delta)
    {
      FieldSafe(items, base, delta, k);
    }
  }

  lemma FieldSafe(items: seq<Item>, base: nat, delta: int, k: nat)
    requires base + delta >= 0 && k < |items| && items[k].Supported()
    ensures Congruent(Merged(PatchesAt(items, base), ListedFlags(items), delta)[k],
                      PatchesAt(items, base + delta)[k])
       <==> items[k].Safe(delta)
  {
    hide Modulus, Item.Safe, Item.AddendAt;
    ItemCongruent(items[k], base, delta);
  }

  /** The rebase theorem. Moving the image by delta at load time gives the image
      linked at base + delta exactly when every field is safe for that move. */
  lemma RebaseTheorem(init: seq<byte>, img: Image, base: nat, delta: int)
    requires img.WellFormed(|init|) && img.Supported() && base + delta >= 0
    ensures Load(img.Link(init, base), img.relocRva, |RelocBytes(img.sections)|, delta)
              == Some(img.Link(init, base + delta))
       <==> forall it :: it in img.Items() ==> it.Safe(delta)
  {
    hide ApplyAll, RelocBytes, PlaceAll, ImageItems, Load, Merged;
    LoadedImage(init, img, base, delta);
    MergedIsRelinked(img.Placed(init), img.Items(), base, delta);
    var relinked := img.Link(init, base + delta);
    assert relinked == ApplyAll(img.Placed(init), PatchesAt(img.Items(), base + delta));
  }

  /** Every relocation is against a symbol that moves with the image, absolute
      addresses are 64 bits wide, and sections without data have none. */
  predicate Ordinary(it: Item) {
    match it
    case Unwritten(_) => false
    case Slot(_, target) => !target.Absolute?
    case Relocated(_, ty, target, _) => target.Regular? && !ty.ADDR32? && !ty.Unsupported?
  }

  /** An image of ordinary fields may be moved anywhere. */
  lemma OrdinaryImagesRebase(init: seq<byte>, img: Image, base: nat, delta: int)
    requires img.WellFormed(|init|) && base + delta >= 0
    requires forall k :: 0 <= k < |img.Items()| ==> Ordinary(img.Items()[k])
    ensures Load(img.Link(init, base), img.relocRva, |RelocBytes(img.sections)|, delta)
         == Some(img.Link(init, base + delta))
  {
    hide ImageItems, RelocBytes, Load, Image.Link, Image.WellFormed;
    var items := img.Items();
    forall it | it in items ensures it.Safe(delta) {
      var k :| 0 <= k < |items| && items[k] == it;
      assert Ordinary(items[k]);
    }
    RebaseTheorem(init, img, base, delta);
  }

  /** getBaserels leaves out a 64-bit reference to __ImageBase on the ground that
      its address never changes, but the field holds the base itself: moved by
      less than the whole address space, such an image is not the relinked one. */
  lemma ImageBaseReferenceGoesStale(init: seq<byte>, img: Image, base: nat, delta: int, k: nat)
    requires img.WellFormed(|init|) && img.Supported() && base + delta >= 0
    requires k < |img.Items()| && img.Items()[k].Relocated?
    requires img.Items()[k].ty.ADDR64? && img.Items()[k].target.ImageBaseSymbol?
    requires delta % Modulus(8) != 0
    ensures Load(img.Link(init, base), img.relocRva, |RelocBytes(img.sections)|, delta)
         != Some(img.Link(init, base + delta))
  {
    hide ImageItems, RelocBytes, Load, Image.Link, Image.WellFormed, Modulus;
    assert img.Items()[k] in img.Items() && !img.Items()[k].Safe(delta);
    RebaseTheorem(init, img, base, delta);
  }

  /** The smallest such image: one 64-bit reference to __ImageBase. */
  function StaleImage(): (img: Image) {
    var out := OutSection(1, 0x1000);
    Image([[Section(0x1000, Zeros(8), true, [Reloc(0, ADDR64, ImageBaseSymbol)], out)]], 0x2000)
  }

  /** It is well formed, lists no location, and cannot be moved. */
  lemma StaleImageCannotMove(init: seq<byte>, base: nat, delta: int)
    requires |init| >= 0x2000 && base + delta >= 0 && delta % Modulus(8) != 0
    ensures StaleImage().WellFormed(|init|)
    ensures RelocBytes(StaleImage().sections) == []
    ensures Load(StaleImage().Link(init, base), 0x2000, 0, delta) != Some(StaleImage().Link(init, base + delta))
  {
    var img := StaleImage();
    var it := Relocated(0x1000, ADDR64, ImageBaseSymbol, OutSection(1, 0x1000));
    assert img.Items() == [it] by {
      var c := img.sections[0][0];
      assert c.relocs[1..] == [] && RelocItems(c, c.relocs) == [it] + [];
      assert img.sections[0][1..] == [] && SectionItems(img.sections[0]) == [it] + [];
      assert img.sections[1..] == [] && img.Items() == [it] + [];
    }
    StaleImageListsNothing();
    assert img.WellFormed(|init|) by {
      hide ImageItems;
      assert Flatten(img.sections) == img.sections[0] + Flatten([]) && img.sections[1..] == [];
    }
    ImageBaseReferenceGoesStale(init, img, base, delta, 0);
  }

  lemma StaleImageListsNothing()
    ensures Addressable(ImageItems(StaleImage().sections)) && RelocBytes(StaleImage().sections) == []
  {
    var img := StaleImage();
    var c := img.sections[0][0];
    var it := Relocated(0x1000, ADDR64, ImageBaseSymbol, OutSection(1, 0x1000));
    assert c.relocs[1..] == [] && RelocItems(c, c.relocs) == [it] + [];
    assert img.sections[0][1..] == [] && SectionItems(img.sections[0]) == [it] + [];
    assert img.sections[1..] == [] && ImageItems(img.sections) == [it] + [];
    assert ListedLocs([it]) == [];
    NoBlocks();
    FlattenNothing();
  }
}
