/** What the layout of COFF/Writer.cpp gives the rest of the writer: chunks at
    laid-out addresses are as far apart as writing and rebasing the image need. */
module LaidOutImage {
  import opened Common
  import opened Layout
  import opened Rebase
  import Patches
  import BaseRelocs
  import ImageWriter

  /** The fields a chunk's relocations touch lie inside the chunk. */
  predicate FieldsInside(c: Chunk, size: nat) {
    forall k :: 0 <= k < |ChunkItems(c)| ==>
      var it := ChunkItems(c)[k]; c.rva <= it.loc && it.loc + it.Width() <= c.rva + size
  }

  /** The chunks are those of the layout at the given places, in order. */
  ghost predicate LaidOut(ss: seq<seq<Piece>>, ats: seq<At>, cs: seq<Chunk>) {
    && |ats| == |cs| && (forall k :: 0 <= k < |ats| ==> IsAt(ss, ats[k]))
    && (forall j, k :: 0 <= j < k < |ats| ==> Before(ats[j], ats[k]))
    && forall k :: 0 <= k < |cs| ==>
         && cs[k].rva == PieceRva(ss, ats[k]) && |Contents(cs[k])| <= PieceAt(ss, ats[k]).size
         && FieldsInside(cs[k], PieceAt(ss, ats[k]).size)
  }

  /** Chunks at the addresses of a layout are as far apart as writing the image
      needs. */
  lemma LaidOutChunksApart(ss: seq<seq<Piece>>, ats: seq<At>, cs: seq<Chunk>)
    requires LaidOut(ss, ats, cs)
    ensures ImageWriter.ChunksApart(cs)
  {
    hide PieceRva, PieceAt, ChunkItems, Contents;
    forall j, k | 0 <= j < k < |cs|
      ensures ImageWriter.OutOfTheWay(ChunkItems(cs[j]), cs[k].rva, |Contents(cs[k])|)
    {
      MemoryIsSound(ss, ats[j], ats[k]);
      assert FieldsInside(cs[j], PieceAt(ss, ats[j]).size);
    }
  }

  // ----- what the rebase theorem asks for -----

  predicate ItemsApart(items: seq<Item>) {
    forall j, k :: 0 <= j < k < |items| ==>
      Patches.Apart(items[j].loc, items[j].Width(), items[k].loc, items[k].Width())
  }

  predicate EndBy(items: seq<Item>, limit: nat) {
    forall k :: 0 <= k < |items| ==> items[k].loc + items[k].Width() <= limit
  }

  predicate StartFrom(items: seq<Item>, start: nat) {
    forall k :: 0 <= k < |items| ==> start <= items[k].loc
  }

  lemma ApartAppend(a: seq<Item>, b: seq<Item>, border: nat)
    requires ItemsApart(a) && ItemsApart(b) && EndBy(a, border) && StartFrom(b, border)
    ensures ItemsApart(a + b)
  {
  }

  lemma EndByAppend(a: seq<Item>, b: seq<Item>, limit: nat)
    requires EndBy(a, limit) && EndBy(b, limit)
    ensures EndBy(a + b, limit)
  {
  }

  lemma {:induction false} FieldsEndBy(ss: seq<seq<Piece>>, ats: seq<At>, cs: seq<Chunk>, n: nat, limit: nat)
    requires LaidOut(ss, ats, cs) && n <= |cs|
    requires forall k :: 0 <= k < n ==> PieceRva(ss, ats[k]) + PieceAt(ss, ats[k]).size <= limit
    ensures EndBy(SectionItems(cs[..n]), limit)
  {
    hide PieceRva, PieceAt, ChunkItems, Contents;
    if n > 0 {
      FieldsEndBy(ss, ats, cs, n - 1, limit);
      ImageWriter.SectionItemsSnoc(cs, n - 1);
      assert FieldsInside(cs[n - 1], PieceAt(ss, ats[n - 1]).size);
      EndByAppend(SectionItems(cs[..n - 1]), ChunkItems(cs[n - 1]), limit);
    }
  }

  lemma {:induction false} FieldsApart(ss: seq<seq<Piece>>, ats: seq<At>, cs: seq<Chunk>, n: nat)
    requires LaidOut(ss, ats, cs) && n <= |cs|
    requires forall k :: 0 <= k < |cs| ==> ItemsApart(ChunkItems(cs[k]))
    ensures ItemsApart(SectionItems(cs[..n]))
  {
    hide PieceRva, PieceAt, ChunkItems, Contents;
    if n > 0 {
      FieldsApart(ss, ats, cs, n - 1);
      forall k | 0 <= k < n - 1 ensures PieceRva(ss, ats[k]) + PieceAt(ss, ats[k]).size <= cs[n - 1].rva {
        MemoryIsSound(ss, ats[k], ats[n - 1]);
      }
      FieldsEndBy(ss, ats, cs, n - 1, cs[n - 1].rva);
      ImageWriter.SectionItemsSnoc(cs, n - 1);
      assert FieldsInside(cs[n - 1], PieceAt(ss, ats[n - 1]).size);
      ApartAppend(SectionItems(cs[..n - 1]), ChunkItems(cs[n - 1]), cs[n - 1].rva);
    }
  }

  lemma AsPatches(items: seq<Item>, size: nat, limit: nat)
    requires ItemsApart(items) && EndBy(items, limit) && limit <= size
    ensures Patches.InBounds(PatchesAt(items, 0), size) && Patches.Disjoint(PatchesAt(items, 0))
  {
    hide Item.AddendAt, Item.Width;
    var ps := PatchesAt(items, 0);
    assert forall k :: 0 <= k < |ps| ==> ps[k].loc == items[k].loc && ps[k].width == items[k].Width();
  }

  lemma Fit(ss: seq<seq<Piece>>, ats: seq<At>, cs: seq<Chunk>, limit: nat, size: nat)
    requires LaidOut(ss, ats, cs) && limit <= size
    requires forall k :: 0 <= k < |cs| ==> PieceRva(ss, ats[k]) + PieceAt(ss, ats[k]).size <= limit
    ensures ContentsFit(cs, size)
  {
    hide PieceRva, PieceAt, ChunkItems, Contents;
  }

  lemma SmallAddresses(items: seq<Item>, limit: nat)
    requires EndBy(items, limit) && limit < 0x1_0000_0000
    ensures Addressable(items)
  {
    hide Item.Width;
  }

  /** A laid-out image whose chunks relocate disjoint fields of their own and whose
      .reloc is the last section is one the rebase theorem applies to. */
  lemma LaidOutIsWellFormed(ss: seq<seq<Piece>>, ats: seq<At>, img: Image, reloc: nat, size: nat)
    requires LaidOut(ss, ats, Flatten(img.sections)) && reloc < |ss| && img.relocRva == RvaOf(ss, reloc)
    requires forall k :: 0 <= k < |ats| ==> ats[k].s < reloc
    requires forall k :: 0 <= k < |ats| ==> ItemsApart(ChunkItems(Flatten(img.sections)[k]))
    requires img.relocRva < 0x1_0000_0000 && |img.Items()| <= BaseRelocs.MAX_ADDRESSES
    ensures Addressable(img.Items())
    ensures img.relocRva + |RelocBytes(img.sections)| <= size ==> img.WellFormed(size)
  {
    var cs := Flatten(img.sections);
    var items := img.Items();
    hide PieceRva, PieceAt, ChunkItems, Contents, RvaOf, RelocBytes, SectionItems, ImageItems, LaidOut;
    SameLength(ss, ats, cs);
    forall k | 0 <= k < |cs| ensures PieceRva(ss, ats[k]) + PieceAt(ss, ats[k]).size <= img.relocRva {
      BeforeReloc(ss, ats, cs, k, reloc);
    }
    assert cs[..|cs|] == cs;
    ImageWriter.ItemsOfFlat(img.sections);
    FieldsEndBy(ss, ats, cs, |cs|, img.relocRva);
    FieldsApart(ss, ats, cs, |cs|);
    SmallAddresses(items, img.relocRva);
    if img.relocRva + |RelocBytes(img.sections)| <= size {
      AsPatches(items, size, img.relocRva);
      Fit(ss, ats, cs, img.relocRva, size);
    }
  }

  lemma SameLength(ss: seq<seq<Piece>>, ats: seq<At>, cs: seq<Chunk>)
    requires LaidOut(ss, ats, cs)
    ensures |ats| == |cs| && forall k :: 0 <= k < |ats| ==> IsAt(ss, ats[k])
  {
  }

  lemma BeforeReloc(ss: seq<seq<Piece>>, ats: seq<At>, cs: seq<Chunk>, k: nat, reloc: nat)
    requires LaidOut(ss, ats, cs) && k < |cs| && ats[k].s < reloc < |ss|
    ensures PieceRva(ss, ats[k]) + PieceAt(ss, ats[k]).size <= RvaOf(ss, reloc)
  {
    PieceFits(ss[ats[k].s], ats[k].k);
    SectionsFollow(ss, 0, ats[k].s, reloc);
  }
}
