/** What the relocated fields of an image say about their targets, in terms of
    addresses alone: COFF/Chunks.cpp's applyRelX64 and the writeTo of address
    slots, for one chunk, for the linked image and for the image after the
    loader has moved it. */
module FieldMeaning {
  import opened Common
  import opened Bytes
  import opened Patches
  import opened BaseRelocs
  import opened Rebase
  import opened ImageWriter
  import opened Layout
  import opened LaidOutImage

  // ----- one list of fields -----

  /** What an item's field holds once the writer is done with it. */
  predicate ItemMeans(it: Item, base: nat, before: nat, after: nat) {
    match it
    case Relocated(loc, ty, target, out) => Means(ty, loc, target, out, base, before, after)
    case Slot(_, target) => Same64(after, AddressOf(target, base) + before)
    case Unwritten(_) => after == before
  }

  lemma FieldMeans(placed: seq<byte>, items: seq<Item>, base: nat, k: nat)
    requires InBounds(PatchesAt(items, base), |placed|) && Disjoint(PatchesAt(items, base)) && k < |items|
    ensures items[k].loc + items[k].Width() <= |placed|
    ensures ItemMeans(items[k], base, Read(placed, items[k].loc, items[k].Width()),
                      Read(ApplyAll(placed, PatchesAt(items, base)), items[k].loc, items[k].Width()))
  {
    hide ApplyAll, Modulus, ItemMeans, Item.AddendAt, Item.Width, Read;
    var ps := PatchesAt(items, base);
    var it := items[k];
    assert ps[k] == it.PatchAt(base);
    FieldAfter(placed, ps, k);
    ReadIsSmall(placed, it.loc, it.Width());
    AddedItemMeans(it, base, Read(placed, it.loc, it.Width()), Read(ApplyAll(placed, ps), it.loc, it.Width()));
  }

  lemma AddedItemMeans(it: Item, base: nat, before: nat, after: nat)
    requires before < Modulus(it.Width())
    requires after == (before + it.AddendAt(base)) % Modulus(it.Width())
    ensures ItemMeans(it, base, before, after)
  {
    hide Modulus, Means, Addend;
    match it
    case Relocated(loc, ty, target, out) => AddedMeans(ty, loc, target, out, base, before, after);
    case Unwritten(_) => ModSmall(before, Modulus(8));
    case Slot(_, target) =>
      ModulusValues();
      Shifted(before, AddressOf(target, base), 0, Modulus(8));
  }

  // ----- one chunk -----

  /** writeTo: each relocation of a section with data gives its field its meaning. */
  lemma WrittenFieldMeans(buf: seq<byte>, c: Chunk, base: nat, k: nat)
    requires Fits(c, |buf|) && Disjoint(PatchesAt(ChunkItems(c), 0))
    requires c.Section? && c.hasData && k < |c.relocs|
    requires c.relocs[k].off + FieldWidth(c.relocs[k].ty) <= |c.contents|
    ensures var r := c.relocs[k];
      Means(r.ty, c.rva + r.off, r.target, c.out, base, Read(c.contents, r.off, FieldWidth(r.ty)),
            Read(Written(buf, c, base), c.rva + r.off, FieldWidth(r.ty)))
  {
    hide ApplyAll, Means, Decode, ChunkItems, FieldWidth;
    ItemsAreRelocs(c);
    SameAtAnyBase(ChunkItems(c), 0, base);
    var placed := Overwrite(buf, c.rva, c.contents);
    FieldMeans(placed, ChunkItems(c), base, k);
    ReadPlaced(buf, c.rva, c.contents, c.relocs[k].off, FieldWidth(c.relocs[k].ty));
  }

  lemma ReadPlaced(buf: seq<byte>, rva: nat, s: seq<byte>, off: nat, w: nat)
    requires rva + |s| <= |buf| && off + w <= |s|
    ensures Read(Overwrite(buf, rva, s), rva + off, w) == Read(s, off, w)
  {
    assert Overwrite(buf, rva, s)[rva + off..rva + off + w] == s[off..off + w];
  }

  // ----- the linked image -----

  /** No chunk's contents lie over another's, nor under .reloc. */
  predicate ContentsApart(cs: seq<Chunk>, relocRva: nat, relocSize: nat) {
    && (forall j, k :: 0 <= j < k < |cs| ==> Apart(cs[j].rva, |Contents(cs[j])|, cs[k].rva, |Contents(cs[k])|))
    && forall k :: 0 <= k < |cs| ==> Apart(cs[k].rva, |Contents(cs[k])|, relocRva, relocSize)
  }

  lemma {:induction false} PlacedContents(init: seq<byte>, cs: seq<Chunk>, i: nat)
    requires ContentsFit(cs, |init|) && i < |cs|
    requires forall j, k :: 0 <= j < k < |cs| ==> Apart(cs[j].rva, |Contents(cs[j])|, cs[k].rva, |Contents(cs[k])|)
    ensures PlaceAll(init, cs)[cs[i].rva..cs[i].rva + |Contents(cs[i])|] == Contents(cs[i])
  {
    hide Contents, Overwrite;
    var last := |cs| - 1;
    var before := PlaceAll(init, cs[..last]);
    if i < last {
      PlacedContents(init, cs[..last], i);
      OverwriteElsewhere(before, cs[last].rva, Contents(cs[last]), cs[i].rva, |Contents(cs[i])|);
    }
  }

  lemma OverwriteElsewhere(buf: seq<byte>, loc: nat, s: seq<byte>, at: nat, size: nat)
    requires loc + |s| <= |buf| && at + size <= |buf| && Apart(at, size, loc, |s|)
    ensures Overwrite(buf, loc, s)[at..at + size] == buf[at..at + size]
  {
  }

  /** Before any relocation the image holds each chunk's contents at its address. */
  lemma ChunkIsPlaced(init: seq<byte>, img: Image, i: nat)
    requires img.WellFormed(|init|) && i < |Flatten(img.sections)|
    requires ContentsApart(Flatten(img.sections), img.relocRva, |RelocBytes(img.sections)|)
    ensures var c := Flatten(img.sections)[i];
      c.rva + |Contents(c)| <= |init| && img.Placed(init)[c.rva..c.rva + |Contents(c)|] == Contents(c)
  {
    hide PlaceAll, Contents, Overwrite, RelocBytes, Flatten, ImageItems;
    var cs := Flatten(img.sections);
    PlacedContents(init, cs, i);
    OverwriteElsewhere(PlaceAll(init, cs), img.relocRva, RelocBytes(img.sections), cs[i].rva, |Contents(cs[i])|);
  }

  lemma {:induction false} ItemOfChunk(cs: seq<Chunk>, i: nat, k: nat) returns (n: nat)
    requires i < |cs| && k < |ChunkItems(cs[i])|
    ensures n < |SectionItems(cs)| && SectionItems(cs)[n] == ChunkItems(cs[i])[k]
  {
    hide ChunkItems;
    if i == 0 {
      n := k;
    } else {
      var m := ItemOfChunk(cs[1..], i - 1, k);
      n := |ChunkItems(cs[0])| + m;
    }
  }

  lemma LinkedItemMeans(init: seq<byte>, img: Image, base: nat, i: nat, k: nat)
    requires img.WellFormed(|init|) && i < |Flatten(img.sections)| && k < |ChunkItems(Flatten(img.sections)[i])|
    ensures var it := ChunkItems(Flatten(img.sections)[i])[k];
      && it.loc + it.Width() <= |init|
      && ItemMeans(it, base, Read(img.Placed(init), it.loc, it.Width()), Read(img.Link(init, base), it.loc, it.Width()))
  {
    hide ApplyAll, PlaceAll, Overwrite, RelocBytes, Flatten, ImageItems, SectionItems, ChunkItems, ItemMeans, Item.Width;
    ItemsOfFlat(img.sections);
    var n := ItemOfChunk(Flatten(img.sections), i, k);
    SameAtAnyBase(img.Items(), 0, base);
    FieldMeans(img.Placed(init), img.Items(), base, n);
  }

  /** The image as linked: what a relocation says of its target is true of the bytes
      in the image, counting from what the object file had there. */
  lemma LinkedFieldMeans(init: seq<byte>, img: Image, base: nat, i: nat, k: nat)
    requires img.WellFormed(|init|) && i < |Flatten(img.sections)|
    requires ContentsApart(Flatten(img.sections), img.relocRva, |RelocBytes(img.sections)|)
    requires var c := Flatten(img.sections)[i];
      && c.Section? && c.hasData && k < |c.relocs|
      && c.relocs[k].off + FieldWidth(c.relocs[k].ty) <= |c.contents|
    ensures var c := Flatten(img.sections)[i];
      var r := c.relocs[k];
      && c.rva + r.off + FieldWidth(r.ty) <= |init|
      && Means(r.ty, c.rva + r.off, r.target, c.out, base, Read(c.contents, r.off, FieldWidth(r.ty)),
               Read(img.Link(init, base), c.rva + r.off, FieldWidth(r.ty)))
  {
    hide RelocBytes, Flatten, ImageItems, ChunkItems, Means, FieldWidth, Image.Placed, Image.Link, Image.WellFormed;
    hide Decode;
    var c := Flatten(img.sections)[i];
    var r := c.relocs[k];
    ItemsAreRelocs(c);
    LinkedItemMeans(init, img, base, i, k);
    ChunkIsPlaced(init, img, i);
    InnerField(img.Placed(init), c.rva, c.contents, r.off, FieldWidth(r.ty));
  }

  lemma InnerField(buf: seq<byte>, rva: nat, s: seq<byte>, off: nat, w: nat)
    requires rva + |s| <= |buf| && off + w <= |s| && buf[rva..rva + |s|] == s
    ensures Read(buf, rva + off, w) == Read(s, off, w)
  {
    var inner, field := s[off..off + w], buf[rva + off..rva + off + w];
    forall j | 0 <= j < w ensures field[j] == inner[j] {
      assert buf[rva..rva + |s|][off + j] == buf[rva + off + j];
    }
    assert field == inner;
  }

  /** An address slot of the linked image holds its target's address. */
  lemma LinkedSlotMeans(init: seq<byte>, img: Image, base: nat, i: nat)
    requires img.WellFormed(|init|) && i < |Flatten(img.sections)| && Flatten(img.sections)[i].AddressSlot?
    requires ContentsApart(Flatten(img.sections), img.relocRva, |RelocBytes(img.sections)|)
    ensures var c := Flatten(img.sections)[i];
      c.rva + 8 <= |init| && Same64(Read(img.Link(init, base), c.rva, 8), AddressOf(c.target, base))
  {
    hide RelocBytes, Flatten, ImageItems, Image.Placed, Image.Link, Image.WellFormed;
    var c := Flatten(img.sections)[i];
    LinkedItemMeans(init, img, base, i, 0);
    ChunkIsPlaced(init, img, i);
    assert Read(img.Placed(init), c.rva, 8) == 0 by { ZerosAreZero(8); }
  }

  lemma {:induction false} ZerosAreZero(n: nat)
    ensures Decode(Zeros(n)) == 0
  {
    if n > 0 {
      ZerosAreZero(n - 1);
      assert Zeros(n)[1..] == Zeros(n - 1);
    }
  }

  /** Bytes of a chunk that no field of the image covers are those of the object
      file. */
  lemma LinkedByteElsewhere(init: seq<byte>, img: Image, base: nat, i: nat, b: nat)
    requires img.WellFormed(|init|) && i < |Flatten(img.sections)| && b < |Contents(Flatten(img.sections)[i])|
    requires ContentsApart(Flatten(img.sections), img.relocRva, |RelocBytes(img.sections)|)
    requires forall it :: it in img.Items() ==> !(it.loc <= Flatten(img.sections)[i].rva + b < it.loc + it.Width())
    ensures Flatten(img.sections)[i].rva + b < |init|
    ensures img.Link(init, base)[Flatten(img.sections)[i].rva + b] == Contents(Flatten(img.sections)[i])[b]
  {
    hide RelocBytes, Flatten, ImageItems, Image.Placed, ApplyAll, Contents, Item.Width, Item.AddendAt, PlaceAll;
    var c := Flatten(img.sections)[i];
    SameAtAnyBase(img.Items(), 0, base);
    ChunkIsPlaced(init, img, i);
    assert img.Placed(init)[c.rva..c.rva + |Contents(c)|][b] == Contents(c)[b];
    var ps := PatchesAt(img.Items(), base);
    forall n | 0 <= n < |ps| ensures !(ps[n].loc <= c.rva + b < ps[n].loc + ps[n].width) {
      assert img.Items()[n] in img.Items();
    }
    ByteElsewhere(img.Placed(init), ps, c.rva + b);
  }

  /** After the loader has moved an image whose fields are all safe, every field
      means at the new base what it meant at the old. */
  lemma LoadedFieldMeans(init: seq<byte>, img: Image, base: nat, delta: int, i: nat, k: nat)
    requires img.WellFormed(|init|) && img.Supported() && base + delta >= 0
    requires forall it :: it in img.Items() ==> it.Safe(delta)
    requires ContentsApart(Flatten(img.sections), img.relocRva, |RelocBytes(img.sections)|)
    requires i < |Flatten(img.sections)|
    requires var c := Flatten(img.sections)[i];
      && c.Section? && c.hasData && k < |c.relocs|
      && c.relocs[k].off + FieldWidth(c.relocs[k].ty) <= |c.contents|
    ensures var loaded := Rebase.Load(img.Link(init, base), img.relocRva, |RelocBytes(img.sections)|, delta);
      var c := Flatten(img.sections)[i];
      var r := c.relocs[k];
      && loaded.Some? && |loaded.value| == |init| && c.rva + r.off + FieldWidth(r.ty) <= |init|
      && Means(r.ty, c.rva + r.off, r.target, c.out, base + delta, Read(c.contents, r.off, FieldWidth(r.ty)),
               Read(loaded.value, c.rva + r.off, FieldWidth(r.ty)))
  {
    hide RelocBytes, Flatten, ImageItems, Means, FieldWidth, Rebase.Load, Image.Link, Item.Safe, Decode;
    RebaseTheorem(init, img, base, delta);
    LinkedFieldMeans(init, img, base + delta, i, k);
  }

  /** The chunks of a layout that ends with .reloc do not lie over one another. */
  lemma LaidOutContentsApart(ss: seq<seq<Piece>>, ats: seq<At>, cs: seq<Chunk>, reloc: nat, relocSize: nat)
    requires LaidOut(ss, ats, cs) && reloc < |ss|
    requires forall k :: 0 <= k < |ats| ==> ats[k].s < reloc
    ensures ContentsApart(cs, RvaOf(ss, reloc), relocSize)
  {
    hide PieceRva, PieceAt, ChunkItems, Contents, RvaOf;
    forall j, k | 0 <= j < k < |cs|
      ensures Apart(cs[j].rva, |Contents(cs[j])|, cs[k].rva, |Contents(cs[k])|)
    {
      MemoryIsSound(ss, ats[j], ats[k]);
    }
    forall k | 0 <= k < |cs| ensures Apart(cs[k].rva, |Contents(cs[k])|, RvaOf(ss, reloc), relocSize) {
      BeforeReloc(ss, ats, cs, k, reloc);
    }
  }
}
