/** The .reloc section: COFF/Writer.cpp groups the locations that hold absolute
    addresses into one block per run of equal pages, COFF/Chunks.cpp encodes
    each block, and the loader decodes them (Microsoft PE/COFF specification,
    section 5.6). */
module BaseRelocs {
  import opened Common
  import opened Bytes

  const PAGE_SIZE := 4096
  const IMAGE_REL_BASED_ABSOLUTE := 0
  const IMAGE_REL_BASED_DIR64 := 10
  /** More addresses than this would overflow the 32-bit size field of a block. */
  const MAX_ADDRESSES := 0x7FFF_FFF0

  type uint32 = n: nat | n < 0x1_0000_0000

  /** V & ~(PageSize - 1). */
  function PageOf(rva: uint32): (page: uint32)
    ensures page <= rva < page + PAGE_SIZE
  {
    rva - rva % PAGE_SIZE
  }

  predicate OnPage(addrs: seq<uint32>, page: uint32) {
    forall k :: 0 <= k < |addrs| ==> PageOf(addrs[k]) == page
  }

  // ----- the encoder, as a function of the address list -----

  function Entry(page: uint32, rva: uint32): (e: nat)
    requires PageOf(rva) == page
    ensures e < 0x1_0000
  {
    IMAGE_REL_BASED_DIR64 * PAGE_SIZE + (rva - page)
  }

  function EntryBytes(page: uint32, addrs: seq<uint32>): (s: seq<byte>)
    requires OnPage(addrs, page)
    ensures |s| == 2 * |addrs|
  {
    if addrs == [] then []
    else EntryBytes(page, addrs[..|addrs| - 1]) + Encode(Entry(page, addrs[|addrs| - 1]), 2)
  }

  lemma EntryBytesSnoc(page: uint32, addrs: seq<uint32>, i: nat)
    requires OnPage(addrs, page) && i < |addrs|
    ensures EntryBytes(page, addrs[..i + 1])
         == EntryBytes(page, addrs[..i]) + Encode(Entry(page, addrs[i]), 2)
  {
    assert addrs[..i + 1][..i] == addrs[..i];
  }

  function BlockSize(n: nat): (size: nat)
    ensures size % 4 == 0 && 8 + 2 * n <= size < 12 + 2 * n
  {
    RoundUp(n * 2 + 8, 4)
  }

  function Zeros(n: nat): (s: seq<byte>)
    ensures |s| == n
  {
    seq(n, _ => 0)
  }

  function BlockBytes(page: uint32, addrs: seq<uint32>): (s: seq<byte>)
    requires OnPage(addrs, page)
    ensures |s| == BlockSize(|addrs|)
  {
    Encode(page, 4) + Encode(BlockSize(|addrs|), 4) + EntryBytes(page, addrs)
    + Zeros(BlockSize(|addrs|) - 8 - 2 * |addrs|)
  }

  /** How many leading addresses lie on the given page. */
  function RunLength(v: seq<uint32>, page: uint32): (n: nat)
    ensures n <= |v| && OnPage(v[..n], page)
    ensures n < |v| ==> PageOf(v[n]) != page
  {
    if v == [] || PageOf(v[0]) != page then 0
    else
      var n := 1 + RunLength(v[1..], page);
      assert v[..n] == [v[0]] + v[1..][..n - 1];
      n
  }

  /** One block per maximal run of addresses on the same page, in order. */
  function Blocks(v: seq<uint32>): (bs: seq<seq<byte>>)
  {
    if v == [] then []
    else
      var n := RunLength(v, PageOf(v[0]));
      [BlockBytes(PageOf(v[0]), v[..n])] + Blocks(v[n..])
  }

  // ----- the loader's decoder -----

  datatype Fixup = Fixup(kind: nat, rva: nat)

  function DecodeEntries(page: nat, s: seq<byte>): (fs: seq<Fixup>)
    requires |s| % 2 == 0
  {
    if s == [] then []
    else
      var e := Decode(s[..2]);
      var rest := DecodeEntries(page, s[2..]);
      if e / PAGE_SIZE == IMAGE_REL_BASED_ABSOLUTE then rest
      else [Fixup(e / PAGE_SIZE, page + e % PAGE_SIZE)] + rest
  }

  /** None when a block header is truncated or gives an impossible size. */
  function DecodeBlocks(s: seq<byte>): (r: Option<seq<Fixup>>)
  {
    if s == [] then Some([])
    else if |s| < 8 then None
    else
      var page, size := Decode(s[..4]), Decode(s[4..8]);
      if size < 8 || size > |s| || size % 4 != 0 then None
      else
        Prepend(DecodeEntries(page, s[8..size]), DecodeBlocks(s[size..]))
  }

  function Prepend(fs: seq<Fixup>, r: Option<seq<Fixup>>): (r': Option<seq<Fixup>>) {
    match r
    case None => None
    case Some(rest) => Some(fs + rest)
  }

  lemma PrependPrepend(a: seq<Fixup>, b: seq<Fixup>, r: Option<seq<Fixup>>)
    ensures Prepend(a, Prepend(b, r)) == Prepend(a + b, r)
    ensures Prepend([], r) == r
  {
    if r.Some? {
      assert a + (b + r.value) == (a + b) + r.value;
      assert [] + r.value == r.value;
    }
  }

  function Fixups(v: seq<uint32>): (fs: seq<Fixup>) {
    seq(|v|, i requires 0 <= i < |v| => Fixup(IMAGE_REL_BASED_DIR64, v[i]))
  }

  // ----- the round trip -----

  lemma FlattenCons<T>(b: seq<T>, bs: seq<seq<T>>)
    ensures Flatten([b] + bs) == b + Flatten(bs)
  {
    assert ([b] + bs)[1..] == bs;
  }

  lemma EntryFits(page: uint32, rva: uint32)
    requires PageOf(rva) == page
    ensures Entry(page, rva) % PAGE_SIZE == rva - page < 0x1000
    ensures Entry(page, rva) / PAGE_SIZE == IMAGE_REL_BASED_DIR64
    ensures Decode(Encode(Entry(page, rva), 2)) == Entry(page, rva)
  {
    ModulusValues();
    DecodeEncode(Entry(page, rva), 2);
  }

  lemma {:induction false} DecodeEntriesAppend(page: nat, s: seq<byte>, t: seq<byte>)
    requires |s| % 2 == 0 && |t| % 2 == 0
    ensures DecodeEntries(page, s + t) == DecodeEntries(page, s) + DecodeEntries(page, t)
  {
    hide *;
    if s == [] {
      assert s + t == t;
      NoEntries(page);
    } else {
      assert (s + t)[2..] == s[2..] + t && (s + t)[..2] == s[..2];
      DecodeEntriesAppend(page, s[2..], t);
      NextEntry(page, s);
      NextEntry(page, s + t);
      Associates(OneEntry(page, s[..2]), DecodeEntries(page, s[2..]), DecodeEntries(page, t));
    }
  }

  function OneEntry(page: nat, s: seq<byte>): (fs: seq<Fixup>) {
    var e := Decode(s);
    if e / PAGE_SIZE == IMAGE_REL_BASED_ABSOLUTE then [] else [Fixup(e / PAGE_SIZE, page + e % PAGE_SIZE)]
  }

  lemma NextEntry(page: nat, s: seq<byte>)
    requires |s| % 2 == 0 && s != []
    ensures DecodeEntries(page, s) == OneEntry(page, s[..2]) + DecodeEntries(page, s[2..])
  {
    hide Decode;
  }

  lemma NoEntries(page: nat)
    ensures DecodeEntries(page, []) == []
  {
  }

  lemma DecodePadding(page: nat, n: nat)
    requires n == 0 || n == 2
    ensures DecodeEntries(page, Zeros(n)) == []
  {
    if n == 2 {
      var z := Zeros(n);
      assert z[..2] == [0, 0] && z[2..] == [];
      assert Decode([0, 0]) == 0 by {
        assert [0, 0][1..] == [0];
        assert Decode([0]) == 0;
      }
    }
  }

  lemma {:induction false} DecodeEntryBytes(page: uint32, addrs: seq<uint32>)
    requires OnPage(addrs, page)
    ensures DecodeEntries(page, EntryBytes(page, addrs)) == Fixups(addrs)
  {
    if addrs != [] {
      var front, last := addrs[..|addrs| - 1], addrs[|addrs| - 1];
      DecodeEntryBytes(page, front);
      EntryFits(page, last);
      var e := Encode(Entry(page, last), 2);
      DecodeEntriesAppend(page, EntryBytes(page, front), e);
      assert e[..2] == e && e[2..] == [];
      assert Fixups(addrs) == Fixups(front) + Fixups([last]);
    }
  }

  /** Decoding looks at the header of the first block only to find its end. */
  lemma DecodeHeader(page: nat, size: nat, body: seq<byte>, rest: seq<byte>)
    requires page < Modulus(4) && size < Modulus(4)
    requires size == 8 + |body| && size % 4 == 0
    ensures DecodeBlocks(Encode(page, 4) + Encode(size, 4) + body + rest)
         == Prepend(DecodeEntries(page, body), DecodeBlocks(rest))
  {
    hide Encode, Decode, Modulus, DecodeEntries;
    var s := Encode(page, 4) + Encode(size, 4) + body + rest;
    DecodeEncode(page, 4);
    DecodeEncode(size, 4);
    assert s[..4] == Encode(page, 4);
    assert s[4..8] == Encode(size, 4);
    assert s[8..size] == body;
    assert s[size..] == rest;
  }

  lemma BlockSizes(n: nat)
    requires n <= MAX_ADDRESSES
    ensures BlockSize(n) < 0x1_0000_0000 && BlockSize(n) % 4 == 0
    ensures BlockSize(n) == 8 + 2 * n || BlockSize(n) == 10 + 2 * n
  {
    hide RoundUp;
  }

  lemma BlockIs(page: uint32, addrs: seq<uint32>)
    requires OnPage(addrs, page)
    ensures BlockBytes(page, addrs)
         == Encode(page, 4) + Encode(BlockSize(|addrs|), 4)
            + (EntryBytes(page, addrs) + Zeros(BlockSize(|addrs|) - 8 - 2 * |addrs|))
  {
    hide Encode, EntryBytes, Zeros, BlockSize;
  }

  lemma DecodeOneBlock(page: uint32, addrs: seq<uint32>, rest: seq<byte>)
    requires OnPage(addrs, page) && |addrs| <= MAX_ADDRESSES
    ensures DecodeBlocks(BlockBytes(page, addrs) + rest)
         == Prepend(Fixups(addrs), DecodeBlocks(rest))
  {
    hide *;
    BlockSizes(|addrs|);
    var size, padding := BlockSize(|addrs|), BlockSize(|addrs|) - 8 - 2 * |addrs|;
    BlockIs(page, addrs);
    ModulusValues();
    DecodeHeader(page, size, EntryBytes(page, addrs) + Zeros(padding), rest);
    DecodeBody(page, addrs, padding);
  }

  lemma DecodeBody(page: uint32, addrs: seq<uint32>, padding: nat)
    requires OnPage(addrs, page) && (padding == 0 || padding == 2)
    ensures DecodeEntries(page, EntryBytes(page, addrs) + Zeros(padding)) == Fixups(addrs)
  {
    hide *;
    DecodeEntriesAppend(page, EntryBytes(page, addrs), Zeros(padding));
    DecodeEntryBytes(page, addrs);
    DecodePadding(page, padding);
    assert Fixups(addrs) + [] == Fixups(addrs);
  }

  /** The loader reads back exactly the addresses that were listed, in order,
      whatever follows them in the section. */
  lemma {:induction false} DecodeBlocksOf(v: seq<uint32>, rest: seq<byte>)
    requires |v| <= MAX_ADDRESSES
    ensures DecodeBlocks(Flatten(Blocks(v)) + rest)
         == Prepend(Fixups(v), DecodeBlocks(rest))
    decreases |v|
  {
    hide *;
    if v == [] {
      DecodeNoBlocks(rest);
    } else {
      var page, n := FirstRun(v);
      BlocksOfRun(v, page, n);
      var b, bs := BlockBytes(page, v[..n]), Blocks(v[n..]);
      FlattenCons(b, bs);
      assert Flatten(Blocks(v)) + rest == b + (Flatten(bs) + rest);
      DecodeBlocksOf(v[n..], rest);
      DecodeOneBlock(page, v[..n], Flatten(bs) + rest);
      FixupsSplit(v, n);
      PrependPrepend(Fixups(v[..n]), Fixups(v[n..]), DecodeBlocks(rest));
    }
  }

  lemma FirstRun(v: seq<uint32>) returns (page: uint32, n: nat)
    requires v != []
    ensures 0 < n <= |v| && OnPage(v[..n], page) && (n < |v| ==> PageOf(v[n]) != page)
  {
    hide PageOf;
    page := PageOf(v[0]);
    n := RunLength(v, page);
  }

  lemma DecodeNoBlocks(rest: seq<byte>)
    ensures DecodeBlocks(Flatten(Blocks([])) + rest) == Prepend(Fixups([]), DecodeBlocks(rest))
  {
    hide DecodeBlocks;
    assert Flatten(Blocks([])) + rest == rest && Fixups([]) == [];
    PrependPrepend([], [], DecodeBlocks(rest));
  }

  lemma FixupsSplit(v: seq<uint32>, n: nat)
    requires n <= |v|
    ensures Fixups(v) == Fixups(v[..n]) + Fixups(v[n..])
  {
  }

  /** The blocks of a list start with the block of its first run. */
  lemma BlocksOfRun(v: seq<uint32>, page: uint32, n: nat)
    requires 0 < n <= |v| && OnPage(v[..n], page)
    requires n < |v| ==> PageOf(v[n]) != page
    ensures Blocks(v) == [BlockBytes(page, v[..n])] + Blocks(v[n..])
  {
    assert PageOf(v[..n][0]) == page;
    RunIs(v, page, n);
  }

  predicate WellShaped(b: seq<byte>) {
    8 < |b| && |b| % 4 == 0 && Decode(b[4..8]) == |b| && Decode(b[..4]) % PAGE_SIZE == 0
  }

  lemma BlockShape(page: uint32, addrs: seq<uint32>)
    requires OnPage(addrs, page) && 0 < |addrs| <= MAX_ADDRESSES
    ensures WellShaped(BlockBytes(page, addrs))
  {
    hide *;
    ModulusValues();
    BlockSizes(|addrs|);
    BlockIs(page, addrs);
    PagesAreMultiples(page, addrs);
    var size := BlockSize(|addrs|);
    var rest := EntryBytes(page, addrs) + Zeros(size - 8 - 2 * |addrs|);
    HeaderOf(BlockBytes(page, addrs), Encode(page, 4), Encode(size, 4), rest);
    DecodeEncode(page, 4);
    DecodeEncode(size, 4);
    IsWellShaped(BlockBytes(page, addrs), page, size);
  }

  lemma IsWellShaped(b: seq<byte>, page: nat, size: nat)
    requires |b| == size && 8 < size && size % 4 == 0 && page % PAGE_SIZE == 0
    requires Decode(b[..4]) == page && Decode(b[4..8]) == size
    ensures WellShaped(b)
  {
    hide Decode;
  }

  lemma PagesAreMultiples(page: uint32, addrs: seq<uint32>)
    requires OnPage(addrs, page) && addrs != []
    ensures page % PAGE_SIZE == 0
  {
    assert page == PageOf(addrs[0]);
  }

  lemma HeaderOf(b: seq<byte>, page: seq<byte>, size: seq<byte>, rest: seq<byte>)
    requires b == page + size + rest && |page| == |size| == 4
    ensures b[..4] == page && b[4..8] == size
  {
  }

  /** Every block states its own size, a multiple of 4, and starts on a page. */
  lemma {:induction false} BlockShapes(v: seq<uint32>)
    requires |v| <= MAX_ADDRESSES
    ensures forall b :: b in Blocks(v) ==> WellShaped(b)
    decreases |v|
  {
    if v != [] {
      var page := PageOf(v[0]);
      var n := RunLength(v, page);
      BlocksOfRun(v, page, n);
      hide *;
      BlockShapes(v[n..]);
      BlockShape(page, v[..n]);
    }
  }

  /** A block, field by field, as the format has it: the page, the size of the block
      with its padding to a multiple of four, and for each address the type 10 in
      the high four bits of two bytes and the offset in the page in the others. */
  lemma BlockFields(page: uint32, addrs: seq<uint32>)
    requires OnPage(addrs, page) && 0 < |addrs| <= MAX_ADDRESSES
    ensures var b := BlockBytes(page, addrs);
      && |b| % 4 == 0 && 8 + 2 * |addrs| <= |b| < 12 + 2 * |addrs|
      && Decode(b[..4]) == page && page % 0x1000 == 0 && Decode(b[4..8]) == |b|
      && (forall k :: 0 <= k < |addrs| ==>
            page <= addrs[k] < page + 0x1000 && Decode(b[8 + 2 * k..10 + 2 * k]) == 10 * 0x1000 + addrs[k] - page)
      && forall i :: 8 + 2 * |addrs| <= i < |b| ==> b[i] == 0
  {
    hide RoundUp, Encode, Decode, EntryBytes;
    ModulusValues();
    var b, size := BlockBytes(page, addrs), BlockSize(|addrs|);
    PagesAreMultiples(page, addrs);
    DecodeEncode(page, 4);
    DecodeEncode(size, 4);
    assert b[..4] == Encode(page, 4) && b[4..8] == Encode(size, 4);
    forall k | 0 <= k < |addrs|
      ensures page <= addrs[k] < page + 0x1000
      ensures Decode(b[8 + 2 * k..10 + 2 * k]) == 10 * 0x1000 + addrs[k] - page
    {
      assert PageOf(addrs[k]) == page;
      EntryAt(page, addrs, k);
      assert b[8 + 2 * k..10 + 2 * k] == EntryBytes(page, addrs)[2 * k..2 * k + 2];
      EntryFits(page, addrs[k]);
    }
  }

  lemma {:induction false} EntryAt(page: uint32, addrs: seq<uint32>, k: nat)
    requires OnPage(addrs, page) && k < |addrs|
    ensures EntryBytes(page, addrs)[2 * k..2 * k + 2] == Encode(Entry(page, addrs[k]), 2)
    decreases |addrs|
  {
    hide Encode, Entry;
    var n := |addrs| - 1;
    if k < n {
      EntryAt(page, addrs[..n], k);
      assert EntryBytes(page, addrs)[2 * k..2 * k + 2] == EntryBytes(page, addrs[..n])[2 * k..2 * k + 2];
    }
  }

  lemma {:induction false} RoundTrip(v: seq<uint32>)
    requires |v| <= MAX_ADDRESSES
    ensures DecodeBlocks(Flatten(Blocks(v))) == Some(Fixups(v))
  {
    assert DecodeBlocks([]) == Some([]);
    assert Prepend(Fixups(v), Some([])) == Some(Fixups(v) + []);
    hide *;
    DecodeBlocksOf(v, []);
    assert Flatten(Blocks(v)) + [] == Flatten(Blocks(v));
    assert Fixups(v) + [] == Fixups(v);
  }

  // ----- the code that builds the blocks -----

  /** BaserelChunk's constructor: header, one entry per address, zero padding. */
  method NewBaserelChunk(page: uint32, addrs: seq<uint32>) returns (data: array<byte>)
    requires OnPage(addrs, page) && |addrs| <= MAX_ADDRESSES
    ensures fresh(data) && data[..] == BlockBytes(page, addrs)
  {
    hide Encode, EntryBytes;
    var size := RoundUp(|addrs| * 2 + 8, 4);
    data := new byte[size](_ => 0);
    Store(data, 0, 4, page);
    Store(data, 4, 4, size);
    ghost var header := Encode(page, 4) + Encode(size, 4);
    assert data[..8] == header;
    var p := 8;
    assert EntryBytes(page, addrs[..0]) == [];
    for i := 0 to |addrs|
      invariant p == 8 + 2 * i
      invariant data[..p] == header + EntryBytes(page, addrs[..i])
      invariant forall k :: p <= k < size ==> data[k] == 0
    {
      Store(data, p, 2, IMAGE_REL_BASED_DIR64 * PAGE_SIZE + (addrs[i] - page));
      EntryBytesSnoc(page, addrs, i);
      assert data[..p + 2] == data[..p] + data[p..p + 2];
      p := p + 2;
    }
    assert addrs[..|addrs|] == addrs;
    assert data[..] == data[..p] + data[p..];
    assert data[p..] == Zeros(size - p);
  }

  /** write16le and write32le. */
  method Store(a: array<byte>, loc: nat, w: nat, v: nat)
    requires loc + w <= a.Length
    modifies a
    ensures a[..loc] == old(a[..loc]) && a[loc..loc + w] == Encode(v, w)
    ensures forall k :: loc + w <= k < a.Length ==> a[k] == old(a[k])
  {
    var rest := v;
    ghost var was, bytes := a[..], Encode(v, w);
    for i := 0 to w
      invariant forall k :: 0 <= k < a.Length && !(loc <= k < loc + i) ==> a[k] == was[k]
      invariant forall k :: 0 <= k < i ==> a[loc + k] == bytes[k]
      invariant bytes[i..] == Encode(rest, w - i)
    {
      EncodeStep(rest, w - i);
      assert bytes[i] == bytes[i..][0] && bytes[i + 1..] == bytes[i..][1..];
      a[loc + i] := rest % 256;
      rest := rest / 256;
    }
    assert a[..loc] == was[..loc];
  }

  lemma EncodeStep(v: nat, w: nat)
    requires w > 0
    ensures Encode(v, w)[0] == v % 256 && Encode(v, w)[1..] == Encode(v / 256, w - 1)
  {
  }

  /** addBaserelBlocks: scan the list, emit a block whenever the page changes
      and one at the end. The chunks are appended to the .reloc section. */
  method AddBaserelBlocks(dest: seq<seq<byte>>, v: seq<uint32>) returns (chunks: seq<seq<byte>>)
    requires 0 < |v| <= MAX_ADDRESSES
    ensures chunks == dest + Blocks(v)
  {
    hide Blocks, BlockBytes, PageOf;
    chunks := dest;
    var page := PageOf(v[0]);
    var i, j := 0, 1;
    assert v[0..1] == [v[0]];
    while j < |v|
      invariant 0 <= i < j <= |v|
      invariant OnPage(v[i..j], page)
      invariant chunks + Blocks(v[i..]) == dest + Blocks(v)
    {
      var p := PageOf(v[j]);
      if p != page {
        assert v[i..][..j - i] == v[i..j] && v[i..][j - i..] == v[j..];
        BlocksOfRun(v[i..], page, j - i);
        var data := NewBaserelChunk(page, v[i..j]);
        chunks := chunks + [data[..]];
        i := j;
        page := p;
        assert v[i..j] == [];
      }
      assert v[i..j + 1] == v[i..j] + [v[j]];
      j := j + 1;
    }
    assert v[i..][..j - i] == v[i..j] && v[i..][j - i..] == [];
    BlocksOfRun(v[i..], page, j - i);
    var data := NewBaserelChunk(page, v[i..j]);
    chunks := chunks + [data[..]];
    NoBlocks();
    assert chunks + [] == chunks;
  }

  lemma NoBlocks()
    ensures Blocks([]) == []
  {
  }

  lemma {:induction false} RunIs(v: seq<uint32>, page: uint32, n: nat)
    requires n <= |v| && OnPage(v[..n], page)
    requires n < |v| ==> PageOf(v[n]) != page
    ensures RunLength(v, page) == n
  {
    if n > 0 {
      assert PageOf(v[..n][0]) == page;
      assert v[1..][..n - 1] == v[..n][1..];
      RunIs(v[1..], page, n - 1);
    }
  }
}
