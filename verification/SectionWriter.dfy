/** COFF/Writer.cpp's OutputSection and assignAddresses on their own fields, tied
    to Layout. A section holds the addresses of its chunks. */
module SectionWriter {
  import opened Common
  import opened Layout

  class OutputSection {
    const name: string
    var virtualSize: nat
    var sizeOfRawData: nat
    var virtualAddress: nat
    var pointerToRawData: nat
    var chunks: seq<Piece>
    var rvas: seq<nat>
    var fileOffs: seq<nat>

    constructor (name: string)
      ensures this.name == name && chunks == [] && Built()
    {
      this.name := name;
      virtualSize, sizeOfRawData, virtualAddress, pointerToRawData := 0, 0, 0, 0;
      chunks, rvas, fileOffs := [], [], [];
    }

    /** The sizes are those of the chunks, whose addresses are rva and off past
        their offsets. */
    ghost predicate At(rva: nat, off: nat)
      reads this
    {
      && virtualSize == EndOf(chunks) && sizeOfRawData == RawOf(chunks)
      && |rvas| == |chunks| && |fileOffs| == |chunks|
      && (forall k :: 0 <= k < |chunks| ==> rvas[k] == rva + Offset(chunks, k))
      && (forall k :: 0 <= k < |chunks| ==> fileOffs[k] == off + Offset(chunks, k))
    }

    /** Addresses are still offsets from the start of the section. */
    ghost predicate Built()
      reads this
    {
      At(0, 0) && virtualAddress == 0 && pointerToRawData == 0
    }

    /** A section without data keeps 0 as its file offset, and its chunks keep
        their offsets. */
    ghost predicate Assigned(rva: nat, off: nat)
      reads this
    {
      var fileOff := if RawOf(chunks) == 0 then 0 else off;
      At(rva, fileOff) && virtualAddress == rva && pointerToRawData == fileOff
    }

    method AddChunk(c: Piece)
      requires Built()
      modifies this
      ensures Built() && chunks == old(chunks) + [c]
    {
      ghost var before, after := chunks, chunks + [c];
      chunks := chunks + [c];
      var off := virtualSize;
      off := RoundUp(off, c.align);
      rvas := rvas + [off];
      fileOffs := fileOffs + [off];
      off := off + c.size;
      virtualSize := off;
      if c.hasData {
        sizeOfRawData := RoundUp(off, FILE_ALIGNMENT);
      }
      assert after[..|before|] == before;
      forall k | 0 <= k < |before| ensures Offset(after, k) == Offset(before, k) {
        assert after[..k + 1] == before[..k + 1];
      }
      assert after[..|before| + 1] == after;
    }

    method SetRVA(rva: nat)
      requires At(0, 0)
      modifies this`virtualAddress, this`rvas
      ensures At(rva, 0) && virtualAddress == rva
    {
      hide EndOf, RawOf, Offset;
      virtualAddress := rva;
      for i := 0 to |chunks|
        invariant virtualAddress == rva && |rvas| == |chunks|
        invariant forall k :: 0 <= k < i ==> rvas[k] == rva + Offset(chunks, k)
        invariant forall k :: i <= k < |chunks| ==> rvas[k] == Offset(chunks, k)
      {
        rvas := rvas[i := rvas[i] + rva];
      }
    }

    method SetFileOffset(off: nat)
      requires At(virtualAddress, 0) && pointerToRawData == 0
      modifies this`pointerToRawData, this`fileOffs
      ensures Assigned(virtualAddress, off)
    {
      hide EndOf, RawOf, Offset;
      if sizeOfRawData == 0 {
        return;
      }
      pointerToRawData := off;
      for i := 0 to |chunks|
        invariant pointerToRawData == off && |fileOffs| == |chunks|
        invariant forall k :: 0 <= k < i ==> fileOffs[k] == off + Offset(chunks, k)
        invariant forall k :: i <= k < |chunks| ==> fileOffs[k] == Offset(chunks, k)
      {
        fileOffs := fileOffs[i := fileOffs[i] + off];
      }
    }
  }

  /** The chunks of every section. */
  function Pieces(sections: seq<OutputSection>): (ss: seq<seq<Piece>>)
    reads sections
    ensures |ss| == |sections| && forall i :: 0 <= i < |ss| ==> ss[i] == sections[i].chunks
  {
    if sections == [] then [] else Pieces(sections[..|sections| - 1]) + [sections[|sections| - 1].chunks]
  }

  class Writer {
    var sizeOfHeaders: nat
    var sizeOfImage: nat
    var fileSize: nat

    constructor ()
    {
      sizeOfHeaders, sizeOfImage, fileSize := 0, 0, 0;
    }

    /** One iteration of the loop over the sections. */
    method Place(s: OutputSection, rva: nat, off: nat) returns (nextRva: nat, nextOff: nat)
      requires s.Built()
      modifies s
      ensures s.chunks == old(s.chunks) && s.Assigned(rva, off)
      ensures nextRva == rva + RoundUp(EndOf(s.chunks), PAGE_SIZE)
      ensures nextOff == off + RoundUp(RawOf(s.chunks), FILE_ALIGNMENT)
    {
      hide EndOf, RawOf, Offset;
      s.SetRVA(rva);
      s.SetFileOffset(off);
      nextRva := rva + RoundUp(s.virtualSize, PAGE_SIZE);
      nextOff := off + RoundUp(s.sizeOfRawData, FILE_ALIGNMENT);
    }

    method PlaceAll(sections: seq<OutputSection>, ghost ss: seq<seq<Piece>>, headers: nat)
      returns (rva: nat, fileOff: nat)
      requires forall i, j :: 0 <= i < j < |sections| ==> sections[i] != sections[j]
      requires |ss| == |sections|
      requires forall i :: 0 <= i < |sections| ==> sections[i].Built() && sections[i].chunks == ss[i]
      modifies sections
      ensures forall i :: 0 <= i < |sections| ==> sections[i].chunks == ss[i]
      ensures forall i :: 0 <= i < |sections| ==>
                sections[i].Assigned(RvaOf(ss, i), FileOffOf(ss, headers, i))
      ensures rva == RvaOf(ss, |ss|) && fileOff == FileOffOf(ss, headers, |ss|)
    {
      hide EndOf, RawOf, Offset, OutputSection.Built, OutputSection.Assigned, RoundUp, RvaOf, FileOffOf;
      rva, fileOff := FIRST_RVA, headers;
      FirstSection(ss, headers);
      var i: nat := 0;
      while i < |sections|
        invariant i <= |sections|
        invariant forall j :: 0 <= j < |sections| ==> sections[j].chunks == ss[j]
        invariant rva == RvaOf(ss, i) && fileOff == FileOffOf(ss, headers, i)
        invariant forall j :: 0 <= j < i ==> sections[j].Assigned(RvaOf(ss, j), FileOffOf(ss, headers, j))
        invariant forall j :: i <= j < |sections| ==> sections[j].Built()
      {
        NextSection(ss, headers, i);
        rva, fileOff := Place(sections[i], rva, fileOff);
        i := i + 1;
      }
    }

    /** assignAddresses, for distinct sections that already hold all their chunks. */
    method AssignAddresses(sections: seq<OutputSection>, is64: bool)
      requires forall i, j :: 0 <= i < j < |sections| ==> sections[i] != sections[j]
      requires forall i :: 0 <= i < |sections| ==> sections[i].Built()
      modifies this, sections
      ensures Pieces(sections) == old(Pieces(sections))
      ensures sizeOfHeaders == SizeOfHeaders(if is64 then FIXED_64 else FIXED_32, |sections|)
      ensures forall i :: 0 <= i < |sections| ==>
                sections[i].Assigned(RvaOf(Pieces(sections), i), FileOffOf(Pieces(sections), sizeOfHeaders, i))
      ensures sizeOfImage == SizeOfImage(Pieces(sections), sizeOfHeaders)
      ensures fileSize == FileSize(Pieces(sections), sizeOfHeaders)
    {
      hide EndOf, RawOf, Offset, OutputSection.Built, OutputSection.Assigned, RvaOf, FileOffOf;
      var headers := RoundUp((if is64 then FIXED_64 else FIXED_32) + SECTION_HEADER * |sections|, PAGE_SIZE);
      ghost var ss := Pieces(sections);
      var rva, fileOff := PlaceAll(sections, ss, headers);
      assert Pieces(sections) == ss;
      FileOffsGrow(ss, headers, |sections|);
      SectionsStartOnPages(ss, |sections|);
      sizeOfHeaders := headers;
      sizeOfImage := headers + RoundUp(rva - FIRST_RVA, PAGE_SIZE);
      fileSize := headers + RoundUp(fileOff - headers, FILE_ALIGNMENT);
    }
  }

  lemma FirstSection(ss: seq<seq<Piece>>, headers: nat)
    ensures RvaOf(ss, 0) == FIRST_RVA && FileOffOf(ss, headers, 0) == headers
  {
  }

  lemma NextSection(ss: seq<seq<Piece>>, headers: nat, i: nat)
    requires i < |ss|
    ensures RvaOf(ss, i + 1) == RvaOf(ss, i) + RoundUp(EndOf(ss[i]), PAGE_SIZE)
    ensures FileOffOf(ss, headers, i + 1) == FileOffOf(ss, headers, i) + RoundUp(RawOf(ss[i]), FILE_ALIGNMENT)
  {
  }

  /** After assignAddresses every chunk has the addresses of the layout. */
  lemma AssignedAsLaidOut(sections: seq<OutputSection>, headers: nat, i: nat, k: nat)
    requires i < |sections| && k < |sections[i].chunks|
    requires sections[i].Assigned(RvaOf(Pieces(sections), i), FileOffOf(Pieces(sections), headers, i))
    ensures sections[i].rvas[k] == PieceRva(Pieces(sections), At(i, k))
    ensures sections[i].fileOffs[k] == PieceFileOff(Pieces(sections), headers, At(i, k))
  {
    hide RvaOf, FileOffOf, RawOf, Offset, EndOf;
  }
}
