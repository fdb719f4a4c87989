/** The import tables of a 64-bit image (COFF/DLL.cpp, IdataContents) as bytes, and
    the loader's way through them (Microsoft PE/COFF specification, section 5.4). */
module ImportTables {
  import opened Common
  import opened Bytes
  import opened BaseRelocs
  import opened ImportBins

  const DIR_ENTRY: nat := 20
  const SLOT: nat := 8
  const BY_ORDINAL: nat := 0x8000_0000_0000_0000
  const RVA_LIMIT: nat := 0x1_0000_0000

  /** Where the parts of the table start: base is an RVA, the others are offsets
      from it. */
  datatype Places = Places(base: nat, lookups: nat, addresses: nat, hints: nat, names: nat)

  // ----- what is written -----

  /** HintNameChunk: two bytes of hint, the name, and one or two zeros. */
  function HintBytes(s: Import): (b: seq<byte>)
    ensures |b| == if s.extName == [] then 0 else RoundUp(|s.extName| + 3, 2)
  {
    if s.extName == [] then []
    else Encode(s.ordinal, 2) + s.extName + Zeros(RoundUp(|s.extName| + 3, 2) - 2 - |s.extName|)
  }

  function HintsOf(syms: seq<Import>): (b: seq<byte>) {
    if syms == [] then [] else HintBytes(syms[0]) + HintsOf(syms[1..])
  }

  function HintArea(bins: seq<Bin>): (b: seq<byte>) {
    if bins == [] then [] else HintsOf(bins[0].syms) + HintArea(bins[1..])
  }

  /** LookupChunk writes four of its eight bytes; OrdinalOnlyChunk sets the top bit. */
  function SlotBytes(s: Import, hint: nat, p: Places): (b: seq<byte>)
    ensures |b| == SLOT
  {
    if s.extName == [] then Encode(BY_ORDINAL + s.ordinal, 8)
    else Encode(p.base + p.hints + hint, 4) + Zeros(4)
  }

  /** The slots of one DLL and the null slot that ends them. */
  function SlotsOf(syms: seq<Import>, hint: nat, p: Places): (b: seq<byte>)
    ensures |b| == 8 * (|syms| + 1)
  {
    if syms == [] then Zeros(SLOT)
    else SlotBytes(syms[0], hint, p) + SlotsOf(syms[1..], hint + |HintBytes(syms[0])|, p)
  }

  /** The lookup tables, and likewise the address tables, of all DLLs. */
  function Tables(bins: seq<Bin>, hint: nat, p: Places): (b: seq<byte>)
    ensures |b| == 8 * SlotCount(bins)
  {
    if bins == [] then []
    else SlotsOf(bins[0].syms, hint, p) + Tables(bins[1..], hint + |HintsOf(bins[0].syms)|, p)
  }

  function SlotCount(bins: seq<Bin>): (n: nat) {
    if bins == [] then 0 else |bins[0].syms| + 1 + SlotCount(bins[1..])
  }

  function NameArea(bins: seq<Bin>): (b: seq<byte>) {
    if bins == [] then [] else bins[0].dll + [0] + NameArea(bins[1..])
  }

  /** ImportDirectoryChunk. */
  function DirectoryBytes(lookup: nat, name: nat, address: nat): (b: seq<byte>)
    ensures |b| == DIR_ENTRY
  {
    Encode(lookup, 4) + Zeros(8) + Encode(name, 4) + Encode(address, 4)
  }

  function Directories(bins: seq<Bin>, slot: nat, name: nat, p: Places): (b: seq<byte>)
    ensures |b| == 20 * (|bins| + 1)
  {
    if bins == [] then Zeros(DIR_ENTRY)
    else
      DirectoryBytes(p.base + p.lookups + 8 * slot, p.base + p.names + name, p.base + p.addresses + 8 * slot)
      + Directories(bins[1..], slot + |bins[0].syms| + 1, name + |bins[0].dll| + 1, p)
  }

  function PlacesOf(bins: seq<Bin>, base: nat): (p: Places) {
    var lookups := 20 * (|bins| + 1);
    var addresses := lookups + 8 * SlotCount(bins);
    var hints := addresses + 8 * SlotCount(bins);
    Places(base, lookups, addresses, hints, hints + |HintArea(bins)|)
  }

  /** getChunks, each part after the other. */
  function Contents(bins: seq<Bin>, base: nat): (b: seq<byte>) {
    var p := PlacesOf(bins, base);
    Directories(bins, 0, 0, p) + Tables(bins, 0, p) + Tables(bins, 0, p) + HintArea(bins) + NameArea(bins)
  }

  // ----- what the loader reads -----

  datatype Entry = Named(hint: nat, name: Name) | Numbered(ordinal: nat)

  datatype Listing = Listing(dll: Name, addressTable: nat, entries: seq<Entry>)

  /** Bytes up to the first zero. */
  function ReadName(mem: seq<byte>, off: nat): (n: Option<Name>)
    decreases |mem| - off
  {
    if off >= |mem| then None
    else if mem[off] == 0 then Some([])
    else
      var rest := ReadName(mem, off + 1);
      if rest.None? then None else Some([mem[off]] + rest.value)
  }

  function ReadHintName(mem: seq<byte>, base: nat, rva: nat): (e: Option<Entry>) {
    if rva < base || rva - base + 2 > |mem| then None
    else
      var n := ReadName(mem, rva - base + 2);
      if n.None? then None else Some(Named(Read(mem, rva - base, 2), n.value))
  }

  function SlotEntry(mem: seq<byte>, base: nat, v: nat): (e: Option<Entry>) {
    if v >= BY_ORDINAL then Some(Numbered(v % 0x1_0000)) else ReadHintName(mem, base, v)
  }

  function ReadSlots(mem: seq<byte>, base: nat, off: nat): (es: Option<seq<Entry>>)
    decreases |mem| - off
  {
    if off + SLOT > |mem| then None
    else
      var v := Read(mem, off, 8);
      if v == 0 then Some([])
      else
        var e := SlotEntry(mem, base, v);
        var rest := ReadSlots(mem, base, off + SLOT);
        if e.None? || rest.None? then None else Some([e.value] + rest.value)
  }

  function ReadDirectories(mem: seq<byte>, base: nat, off: nat): (ls: Option<seq<Listing>>)
    decreases |mem| - off
  {
    if off + DIR_ENTRY > |mem| then None
    else if mem[off..off + DIR_ENTRY] == Zeros(DIR_ENTRY) then Some([])
    else
      var lookup, name := Read(mem, off, 4), Read(mem, off + 12, 4);
      if lookup < base || name < base then None
      else
        var dll := ReadName(mem, name - base);
        var entries := ReadSlots(mem, base, lookup - base);
        var rest := ReadDirectories(mem, base, off + DIR_ENTRY);
        if dll.None? || entries.None? || rest.None? then None
        else Some([Listing(dll.value, Read(mem, off + 16, 4), entries.value)] + rest.value)
  }

  // ----- parts of memory -----

  predicate At(mem: seq<byte>, off: nat, b: seq<byte>) {
    off + |b| <= |mem| && mem[off..off + |b|] == b
  }

  lemma AtParts(mem: seq<byte>, off: nat, a: seq<byte>, b: seq<byte>)
    requires At(mem, off, a + b)
    ensures At(mem, off, a) && At(mem, off + |a|, b)
  {
    assert mem[off..off + |a|] == (a + b)[..|a|];
    assert mem[off + |a|..off + |a| + |b|] == (a + b)[|a|..];
  }

  lemma ReadsField(mem: seq<byte>, off: nat, v: nat, w: nat)
    requires At(mem, off, Encode(v, w)) && v < Modulus(w)
    ensures Read(mem, off, w) == v
  {
    DecodeEncode(v, w);
  }

  lemma {:induction false} ReadsName(mem: seq<byte>, off: nat, n: Name)
    requires At(mem, off, n + [0]) && 0 !in n
    ensures ReadName(mem, off) == Some(n)
    decreases |n|
  {
    assert mem[off] == mem[off..off + |n + [0]|][0] == (n + [0])[0];
    if n != [] {
      assert n + [0] == [n[0]] + (n[1..] + [0]);
      AtParts(mem, off, [n[0]], n[1..] + [0]);
      ReadsName(mem, off + 1, n[1..]);
      assert n == [n[0]] + n[1..];
    }
  }

  lemma {:induction false} DecodeZeros(n: nat)
    ensures Decode(Zeros(n)) == 0
  {
    if n > 0 {
      DecodeZeros(n - 1);
      assert Zeros(n)[1..] == Zeros(n - 1);
    }
  }

  lemma {:induction false} DecodePadded(s: seq<byte>, n: nat)
    ensures Decode(s + Zeros(n)) == Decode(s)
  {
    if s == [] {
      assert s + Zeros(n) == Zeros(n);
      DecodeZeros(n);
    } else {
      assert (s + Zeros(n))[1..] == s[1..] + Zeros(n);
      DecodePadded(s[1..], n);
    }
  }

  // ----- reading back -----

  /** Names without zeros, ordinals and hints of sixteen bits. */
  predicate ValidImport(s: Import) {
    0 !in s.extName && s.ordinal < 0x1_0000
  }

  predicate ValidBins(bins: seq<Bin>) {
    forall i :: 0 <= i < |bins| ==>
      0 !in bins[i].dll && forall k :: 0 <= k < |bins[i].syms| ==> ValidImport(bins[i].syms[k])
  }

  function EntryOf(s: Import): (e: Entry) {
    if s.extName == [] then Numbered(s.ordinal) else Named(s.ordinal, s.extName)
  }

  function Entries(syms: seq<Import>): (es: seq<Entry>)
    ensures |es| == |syms| && forall k :: 0 <= k < |syms| ==> es[k] == EntryOf(syms[k])
  {
    if syms == [] then [] else [EntryOf(syms[0])] + Entries(syms[1..])
  }

  function Listings(bins: seq<Bin>, slot: nat, p: Places): (ls: seq<Listing>)
    ensures |ls| == |bins|
  {
    if bins == [] then []
    else
      [Listing(bins[0].dll, p.base + p.addresses + 8 * slot, Entries(bins[0].syms))]
      + Listings(bins[1..], slot + |bins[0].syms| + 1, p)
  }

  /** The image fits in 32 bits of addresses and does not start at 0. */
  predicate Mapped(mem: seq<byte>, p: Places) {
    0 < p.base && p.base + |mem| < RVA_LIMIT && p.names <= |mem| && p.hints <= |mem|
  }

  lemma ReadsHintName(mem: seq<byte>, p: Places, s: Import, hint: nat)
    requires Mapped(mem, p) && ValidImport(s) && s.extName != [] && At(mem, p.hints + hint, HintBytes(s))
    ensures ReadHintName(mem, p.base, p.base + p.hints + hint) == Some(EntryOf(s))
  {
    var off := p.hints + hint;
    var pad := RoundUp(|s.extName| + 3, 2) - 2 - |s.extName|;
    assert Encode(s.ordinal, 2) + s.extName + Zeros(pad) == Encode(s.ordinal, 2) + (s.extName + Zeros(pad));
    AtParts(mem, off, Encode(s.ordinal, 2), s.extName + Zeros(pad));
    assert s.extName + Zeros(pad) == (s.extName + [0]) + Zeros(pad - 1);
    AtParts(mem, off + 2, s.extName + [0], Zeros(pad - 1));
    ModulusValues();
    ReadsField(mem, off, s.ordinal, 2);
    ReadsName(mem, off + 2, s.extName);
  }

  /** One slot, wherever it stands, reads as the import it was made for. */
  lemma ReadsSlot(mem: seq<byte>, p: Places, off: nat, s: Import, hint: nat)
    requires Mapped(mem, p) && ValidImport(s)
    requires At(mem, off, SlotBytes(s, hint, p)) && At(mem, p.hints + hint, HintBytes(s))
    ensures var v := Read(mem, off, 8);
      v != 0 && SlotEntry(mem, p.base, v) == Some(EntryOf(s))
  {
    ModulusValues();
    if s.extName == [] {
      var v := BY_ORDINAL + s.ordinal;
      ReadsField(mem, off, v, 8);
      assert v % 0x1_0000 == s.ordinal by { OrdinalBits(s.ordinal); }
    } else {
      var v := p.base + p.hints + hint;
      DecodePadded(Encode(v, 4), 4);
      DecodeEncode(v, 4);
      ReadsHintName(mem, p, s, hint);
    }
  }

  lemma OrdinalBits(o: nat)
    requires o < 0x1_0000
    ensures (BY_ORDINAL + o) % 0x1_0000 == o
  {
    ModShift(o, BY_ORDINAL / 0x1_0000, 0x1_0000);
  }

  lemma NextSlot(mem: seq<byte>, base: nat, off: nat, e: Entry, es: seq<Entry>)
    requires off + SLOT <= |mem| && Read(mem, off, 8) != 0 && SlotEntry(mem, base, Read(mem, off, 8)) == Some(e)
    requires ReadSlots(mem, base, off + SLOT) == Some(es)
    ensures ReadSlots(mem, base, off) == Some([e] + es)
  {
    hide ReadHintName, Read;
  }

  lemma LastSlot(mem: seq<byte>, base: nat, off: nat)
    requires At(mem, off, Zeros(SLOT))
    ensures ReadSlots(mem, base, off) == Some([])
  {
    DecodeZeros(8);
  }

  lemma {:induction false} ReadsSlots(mem: seq<byte>, p: Places, off: nat, syms: seq<Import>, hint: nat)
    requires Mapped(mem, p) && forall k :: 0 <= k < |syms| ==> ValidImport(syms[k])
    requires At(mem, off, SlotsOf(syms, hint, p)) && At(mem, p.hints + hint, HintsOf(syms))
    ensures ReadSlots(mem, p.base, off) == Some(Entries(syms))
    decreases |syms|
  {
    hide SlotBytes, HintBytes, At, ReadHintName, EntryOf, Mapped, ValidImport, ReadSlots, Read;
    if syms == [] {
      LastSlot(mem, p.base, off);
    } else {
      var s := syms[0];
      AtParts(mem, off, SlotBytes(s, hint, p), SlotsOf(syms[1..], hint + |HintBytes(s)|, p));
      AtParts(mem, p.hints + hint, HintBytes(s), HintsOf(syms[1..]));
      ReadsSlot(mem, p, off, s, hint);
      ReadsSlots(mem, p, off + SLOT, syms[1..], hint + |HintBytes(s)|);
      AtFits(mem, off, SlotBytes(s, hint, p));
      NextSlot(mem, p.base, off, EntryOf(s), Entries(syms[1..]));
    }
  }

  lemma AtFits(mem: seq<byte>, off: nat, b: seq<byte>)
    requires At(mem, off, b)
    ensures off + |b| <= |mem|
  {
  }

  lemma ReadsDirectoryFields(mem: seq<byte>, off: nat, lookup: nat, name: nat, address: nat)
    requires At(mem, off, DirectoryBytes(lookup, name, address))
    requires 0 < lookup < RVA_LIMIT && name < RVA_LIMIT && address < RVA_LIMIT
    ensures off + DIR_ENTRY <= |mem| && mem[off..off + DIR_ENTRY] != Zeros(DIR_ENTRY)
    ensures Read(mem, off, 4) == lookup && Read(mem, off + 12, 4) == name && Read(mem, off + 16, 4) == address
  {
    ModulusValues();
    var e := DirectoryBytes(lookup, name, address);
    assert e == Encode(lookup, 4) + (Zeros(8) + (Encode(name, 4) + Encode(address, 4)));
    AtParts(mem, off, Encode(lookup, 4), Zeros(8) + (Encode(name, 4) + Encode(address, 4)));
    AtParts(mem, off + 4, Zeros(8), Encode(name, 4) + Encode(address, 4));
    AtParts(mem, off + 12, Encode(name, 4), Encode(address, 4));
    ReadsField(mem, off, lookup, 4);
    ReadsField(mem, off + 12, name, 4);
    ReadsField(mem, off + 16, address, 4);
    if mem[off..off + DIR_ENTRY] == Zeros(DIR_ENTRY) {
      assert mem[off..off + 4] == mem[off..off + DIR_ENTRY][..4] == Zeros(4);
      DecodeZeros(4);
    }
  }

  lemma NextDirectory(
      mem: seq<byte>, base: nat, off: nat, lookup: nat, name: nat, l: Listing, ls: seq<Listing>)
    requires off + DIR_ENTRY <= |mem| && mem[off..off + DIR_ENTRY] != Zeros(DIR_ENTRY)
    requires Read(mem, off, 4) == base + lookup && Read(mem, off + 12, 4) == base + name
    requires Read(mem, off + 16, 4) == l.addressTable
    requires ReadName(mem, name) == Some(l.dll) && ReadSlots(mem, base, lookup) == Some(l.entries)
    requires ReadDirectories(mem, base, off + DIR_ENTRY) == Some(ls)
    ensures ReadDirectories(mem, base, off) == Some([l] + ls)
  {
    hide ReadName, ReadSlots, Read;
  }

  lemma LastDirectory(mem: seq<byte>, base: nat, off: nat)
    requires At(mem, off, Zeros(DIR_ENTRY))
    ensures ReadDirectories(mem, base, off) == Some([])
  {
  }

  /** All five parts are in place for the DLLs still to come. */
  predicate InPlace(mem: seq<byte>, p: Places, off: nat, bins: seq<Bin>, slot: nat, hint: nat, name: nat) {
    && At(mem, off, Directories(bins, slot, name, p))
    && At(mem, p.lookups + 8 * slot, Tables(bins, hint, p))
    && At(mem, p.addresses + 8 * slot, Tables(bins, hint, p))
    && At(mem, p.hints + hint, HintArea(bins)) && At(mem, p.names + name, NameArea(bins))
  }

  function LookupRva(p: Places, slot: nat): (r: nat) {
    p.base + p.lookups + 8 * slot
  }

  function AddressRva(p: Places, slot: nat): (r: nat) {
    p.base + p.addresses + 8 * slot
  }

  lemma UnfoldDirectories(bins: seq<Bin>, slot: nat, name: nat, p: Places)
    requires bins != []
    ensures Directories(bins, slot, name, p)
         == DirectoryBytes(LookupRva(p, slot), p.base + p.names + name, AddressRva(p, slot))
            + Directories(bins[1..], slot + |bins[0].syms| + 1, name + |bins[0].dll| + 1, p)
  {
    hide DirectoryBytes;
  }

  lemma UnfoldTables(bins: seq<Bin>, hint: nat, p: Places)
    requires bins != []
    ensures Tables(bins, hint, p)
         == SlotsOf(bins[0].syms, hint, p) + Tables(bins[1..], hint + |HintsOf(bins[0].syms)|, p)
    ensures HintArea(bins) == HintsOf(bins[0].syms) + HintArea(bins[1..])
    ensures NameArea(bins) == (bins[0].dll + [0]) + NameArea(bins[1..])
  {
    hide SlotsOf, HintsOf;
  }

  /** The parts of the next DLL are in place. */
  predicate Here(mem: seq<byte>, p: Places, off: nat, b: Bin, slot: nat, hint: nat, name: nat) {
    && At(mem, off, DirectoryBytes(LookupRva(p, slot), p.base + p.names + name, AddressRva(p, slot)))
    && At(mem, p.lookups + 8 * slot, SlotsOf(b.syms, hint, p))
    && At(mem, p.addresses + 8 * slot, SlotsOf(b.syms, hint, p))
    && At(mem, p.hints + hint, HintsOf(b.syms)) && At(mem, p.names + name, b.dll + [0])
  }

  lemma InPlaceParts(
      mem: seq<byte>, p: Places, off: nat, bins: seq<Bin>, slot: nat, hint: nat, name: nat)
    requires InPlace(mem, p, off, bins, slot, hint, name) && bins != []
    ensures Here(mem, p, off, bins[0], slot, hint, name)
    ensures InPlace(mem, p, off + DIR_ENTRY, bins[1..],
                    slot + |bins[0].syms| + 1, hint + |HintsOf(bins[0].syms)|, name + |bins[0].dll| + 1)
  {
    hide *;
    var b := bins[0];
    var slot', hint', name' := slot + |b.syms| + 1, hint + |HintsOf(b.syms)|, name + |b.dll| + 1;
    InPlaceIs(mem, p, off, bins, slot, hint, name);
    UnfoldDirectories(bins, slot, name, p);
    UnfoldTables(bins, hint, p);
    FiveSplits(mem, p, off, slot, hint, name,
               DirectoryBytes(LookupRva(p, slot), p.base + p.names + name, AddressRva(p, slot)),
               Directories(bins[1..], slot', name', p),
               SlotsOf(b.syms, hint, p), Tables(bins[1..], hint', p), HintsOf(b.syms), HintArea(bins[1..]),
               b.dll + [0], NameArea(bins[1..]));
    HereIs(mem, p, off, b, slot, hint, name);
    InPlaceIs(mem, p, off + DIR_ENTRY, bins[1..], slot', hint', name');
  }

  predicate InPlaceOf(mem: seq<byte>, p: Places, off: nat, slot: nat, hint: nat, name: nat,
                      d: seq<byte>, t: seq<byte>, h: seq<byte>, n: seq<byte>) {
    && At(mem, off, d) && At(mem, p.lookups + 8 * slot, t) && At(mem, p.addresses + 8 * slot, t)
    && At(mem, p.hints + hint, h) && At(mem, p.names + name, n)
  }

  lemma InPlaceIs(
      mem: seq<byte>, p: Places, off: nat, bins: seq<Bin>, slot: nat, hint: nat, name: nat)
    ensures InPlace(mem, p, off, bins, slot, hint, name)
         == InPlaceOf(mem, p, off, slot, hint, name, Directories(bins, slot, name, p),
                      Tables(bins, hint, p), HintArea(bins), NameArea(bins))
  {
    hide At, Directories, Tables, HintArea, NameArea;
  }

  lemma HereIs(mem: seq<byte>, p: Places, off: nat, b: Bin, slot: nat, hint: nat, name: nat)
    ensures Here(mem, p, off, b, slot, hint, name)
         == InPlaceOf(mem, p, off, slot, hint, name,
                      DirectoryBytes(LookupRva(p, slot), p.base + p.names + name, AddressRva(p, slot)),
                      SlotsOf(b.syms, hint, p), HintsOf(b.syms), b.dll + [0])
  {
    hide At, DirectoryBytes, SlotsOf, HintsOf;
  }

  lemma FiveSplits(
      mem: seq<byte>, p: Places, off: nat, slot: nat, hint: nat, name: nat,
      d: seq<byte>, d': seq<byte>, t: seq<byte>, t': seq<byte>, h: seq<byte>, h': seq<byte>, n: seq<byte>, n': seq<byte>)
    requires InPlaceOf(mem, p, off, slot, hint, name, d + d', t + t', h + h', n + n') && |t| % 8 == 0
    ensures InPlaceOf(mem, p, off, slot, hint, name, d, t, h, n)
    ensures InPlaceOf(mem, p, off + |d|, slot + |t| / 8, hint + |h|, name + |n|, d', t', h', n')
  {
    hide At;
    AtParts(mem, off, d, d');
    AtParts(mem, p.lookups + 8 * slot, t, t');
    AtParts(mem, p.addresses + 8 * slot, t, t');
    AtParts(mem, p.hints + hint, h, h');
    AtParts(mem, p.names + name, n, n');
  }

  lemma ReadsHere(
      mem: seq<byte>, p: Places, off: nat, b: Bin, slot: nat, hint: nat, name: nat, ls: seq<Listing>)
    requires Mapped(mem, p) && 0 !in b.dll && forall k :: 0 <= k < |b.syms| ==> ValidImport(b.syms[k])
    requires Here(mem, p, off, b, slot, hint, name)
    requires ReadDirectories(mem, p.base, off + DIR_ENTRY) == Some(ls)
    ensures ReadDirectories(mem, p.base, off)
         == Some([Listing(b.dll, AddressRva(p, slot), Entries(b.syms))] + ls)
  {
    hide At, SlotsOf, HintsOf, DirectoryBytes, ReadName, ReadSlots, Entries, Read, ReadDirectories;
    AtFits(mem, p.lookups + 8 * slot, SlotsOf(b.syms, hint, p));
    AtFits(mem, p.addresses + 8 * slot, SlotsOf(b.syms, hint, p));
    AtFits(mem, p.names + name, b.dll + [0]);
    ReadsDirectoryFields(mem, off, LookupRva(p, slot), p.base + p.names + name, AddressRva(p, slot));
    ReadsName(mem, p.names + name, b.dll);
    ReadsSlots(mem, p, p.lookups + 8 * slot, b.syms, hint);
    NextDirectory(mem, p.base, off, p.lookups + 8 * slot, p.names + name,
                  Listing(b.dll, AddressRva(p, slot), Entries(b.syms)), ls);
  }

  lemma ReadsNoDirectories(
      mem: seq<byte>, p: Places, off: nat, slot: nat, hint: nat, name: nat)
    requires InPlace(mem, p, off, [], slot, hint, name)
    ensures ReadDirectories(mem, p.base, off) == Some(Listings([], slot, p))
  {
    LastDirectory(mem, p.base, off);
  }

  lemma {:induction false} ReadsDirectories(
      mem: seq<byte>, p: Places, off: nat, bins: seq<Bin>, slot: nat, hint: nat, name: nat)
    requires Mapped(mem, p) && ValidBins(bins) && InPlace(mem, p, off, bins, slot, hint, name)
    ensures ReadDirectories(mem, p.base, off) == Some(Listings(bins, slot, p))
    decreases |bins|
  {
    hide *;
    if bins == [] {
      ReadsNoDirectories(mem, p, off, slot, hint, name);
    } else {
      InPlaceParts(mem, p, off, bins, slot, hint, name);
      UnfoldListings(bins, slot, p);
      var b := bins[0];
      RestIsValid(bins);
      ReadsDirectories(mem, p, off + DIR_ENTRY, bins[1..],
                       slot + |b.syms| + 1, hint + |HintsOf(b.syms)|, name + |b.dll| + 1);
      ReadsHere(mem, p, off, b, slot, hint, name, Listings(bins[1..], slot + |b.syms| + 1, p));
    }
  }

  lemma UnfoldListings(bins: seq<Bin>, slot: nat, p: Places)
    requires bins != []
    ensures Listings(bins, slot, p)
         == [Listing(bins[0].dll, AddressRva(p, slot), Entries(bins[0].syms))]
            + Listings(bins[1..], slot + |bins[0].syms| + 1, p)
  {
  }

  lemma RestIsValid(bins: seq<Bin>)
    requires ValidBins(bins) && bins != []
    ensures ValidBins(bins[1..]) && 0 !in bins[0].dll
    ensures forall k :: 0 <= k < |bins[0].syms| ==> ValidImport(bins[0].syms[k])
  {
    hide ValidImport;
  }

  /** Walking the tables from the directory yields every DLL with its address table
      and its imports in order, once each. */
  lemma ReadBack(bins: seq<Bin>, base: nat)
    requires ValidBins(bins) && 0 < base && base + |Contents(bins, base)| < RVA_LIMIT
    ensures ReadDirectories(Contents(bins, base), base, 0) == Some(Listings(bins, 0, PlacesOf(bins, base)))
  {
    var p := PlacesOf(bins, base);
    var mem := Contents(bins, base);
    ContentsInPlace(bins, base);
    hide Contents, InPlace;
    ReadsDirectories(mem, p, 0, bins, 0, 0, 0);
  }

  // ----- the fields, as the format has them -----

  /** A directory entry: the RVA of the lookup table, eight zeros, and the RVAs of
      the DLL's name and of its address table. */
  lemma DirectoryFields(lookup: nat, name: nat, address: nat)
    requires lookup < 0x1_0000_0000 && name < 0x1_0000_0000 && address < 0x1_0000_0000
    ensures var b := DirectoryBytes(lookup, name, address);
      && |b| == 20 && Decode(b[..4]) == lookup && b[4..12] == [0, 0, 0, 0, 0, 0, 0, 0]
      && Decode(b[12..16]) == name && Decode(b[16..20]) == address
  {
    hide Encode, Decode;
    ModulusValues();
    var b := DirectoryBytes(lookup, name, address);
    DecodeEncode(lookup, 4);
    DecodeEncode(name, 4);
    DecodeEncode(address, 4);
    assert b[..4] == Encode(lookup, 4) && b[12..16] == Encode(name, 4) && b[16..20] == Encode(address, 4);
  }

  /** A slot: the top bit and the ordinal, or the RVA of the hint and name. */
  lemma SlotFields(s: Import, hint: nat, p: Places)
    requires s.ordinal < 0x1_0000 && p.base + p.hints + hint < 0x1_0000_0000
    ensures var b := SlotBytes(s, hint, p);
      |b| == 8 && Decode(b) == if s.extName == [] then 0x8000_0000_0000_0000 + s.ordinal else p.base + p.hints + hint
  {
    hide Encode, Decode;
    ModulusValues();
    if s.extName == [] {
      DecodeEncode(BY_ORDINAL + s.ordinal, 8);
    } else {
      DecodePadded(Encode(p.base + p.hints + hint, 4), 4);
      DecodeEncode(p.base + p.hints + hint, 4);
    }
  }

  /** A hint and name: two bytes of hint, the name, and zeros, at least one, up to an
      even length. */
  lemma HintFields(s: Import)
    requires s.ordinal < 0x1_0000 && s.extName != []
    ensures var b, n := HintBytes(s), |s.extName|;
      && |b| % 2 == 0 && n + 3 <= |b| < n + 5 && Decode(b[..2]) == s.ordinal && b[2..n + 2] == s.extName
      && forall i :: n + 2 <= i < |b| ==> b[i] == 0
  {
    hide Encode, Decode;
    ModulusValues();
    DecodeEncode(s.ordinal, 2);
    assert HintBytes(s)[..2] == Encode(s.ordinal, 2);
  }

  /** The DLLs' address tables read like their lookup tables, one slot to an import. */
  predicate AddressTablesRead(mem: seq<byte>, base: nat, ls: seq<Listing>) {
    forall i :: 0 <= i < |ls| ==>
      base <= ls[i].addressTable && ReadSlots(mem, base, ls[i].addressTable - base) == Some(ls[i].entries)
  }

  lemma ReadsAddresses(mem: seq<byte>, p: Places, off: nat, b: Bin, slot: nat, hint: nat, name: nat)
    requires Mapped(mem, p) && forall k :: 0 <= k < |b.syms| ==> ValidImport(b.syms[k])
    requires Here(mem, p, off, b, slot, hint, name)
    ensures ReadSlots(mem, p.base, AddressRva(p, slot) - p.base) == Some(Entries(b.syms))
  {
    hide At, SlotsOf, HintsOf, DirectoryBytes, ReadSlots, Entries;
    ReadsSlots(mem, p, p.addresses + 8 * slot, b.syms, hint);
  }

  lemma {:induction false} ReadsAllAddresses(
      mem: seq<byte>, p: Places, off: nat, bins: seq<Bin>, slot: nat, hint: nat, name: nat)
    requires Mapped(mem, p) && ValidBins(bins) && InPlace(mem, p, off, bins, slot, hint, name)
    ensures AddressTablesRead(mem, p.base, Listings(bins, slot, p))
    decreases |bins|
  {
    hide InPlace, Here, ReadSlots, Entries, HintsOf, Mapped, ValidBins, ValidImport;
    if bins != [] {
      var b := bins[0];
      InPlaceParts(mem, p, off, bins, slot, hint, name);
      RestIsValid(bins);
      ReadsAllAddresses(mem, p, off + DIR_ENTRY, bins[1..],
                        slot + |b.syms| + 1, hint + |HintsOf(b.syms)|, name + |b.dll| + 1);
      ReadsAddresses(mem, p, off, b, slot, hint, name);
      UnfoldListings(bins, slot, p);
    }
  }

  /** Before it binds them the loader can read either table. */
  lemma AddressTablesReadBack(bins: seq<Bin>, base: nat)
    requires ValidBins(bins) && 0 < base && base + |Contents(bins, base)| < RVA_LIMIT
    ensures AddressTablesRead(Contents(bins, base), base, Listings(bins, 0, PlacesOf(bins, base)))
  {
    var p := PlacesOf(bins, base);
    var mem := Contents(bins, base);
    ContentsInPlace(bins, base);
    hide Contents, InPlace;
    ReadsAllAddresses(mem, p, 0, bins, 0, 0, 0);
  }

  lemma {:induction false} ContentsInPlace(bins: seq<Bin>, base: nat)
    ensures InPlace(Contents(bins, base), PlacesOf(bins, base), 0, bins, 0, 0, 0)
    ensures PlacesOf(bins, base).names + |NameArea(bins)| == |Contents(bins, base)|
  {
    var p := PlacesOf(bins, base);
    var mem := Contents(bins, base);
    var d, t, h, n := Directories(bins, 0, 0, p), Tables(bins, 0, p), HintArea(bins), NameArea(bins);
    assert |d| == p.lookups && p.addresses == |d| + |t| && p.hints == |d| + |t| + |t| && p.names == p.hints + |h|;
    hide Directories, Tables, HintArea, NameArea, SlotCount, PlacesOf, Contents;
    assert mem == d + (t + (t + (h + n))) by { ContentsParts(bins, base); }
    FiveParts(mem, d, t, h, n);
  }

  lemma ContentsParts(bins: seq<Bin>, base: nat)
    ensures var p := PlacesOf(bins, base);
      Contents(bins, base) == Directories(bins, 0, 0, p)
        + (Tables(bins, 0, p) + (Tables(bins, 0, p) + (HintArea(bins) + NameArea(bins))))
  {
    hide Directories, Tables, HintArea, NameArea, PlacesOf;
  }

  lemma FiveParts(mem: seq<byte>, d: seq<byte>, t: seq<byte>, h: seq<byte>, n: seq<byte>)
    requires mem == d + (t + (t + (h + n)))
    ensures At(mem, 0, d) && At(mem, |d|, t) && At(mem, |d| + |t|, t)
    ensures At(mem, |d| + |t| + |t|, h) && At(mem, |d| + |t| + |t| + |h|, n)
  {
    assert At(mem, 0, d + (t + (t + (h + n))));
    hide At;
    AtParts(mem, 0, d, t + (t + (h + n)));
    AtParts(mem, |d|, t, t + (h + n));
    AtParts(mem, |d| + |t|, t, h + n);
    AtParts(mem, |d| + |t| + |t|, h, n);
  }
}
