# Verified models of the linkers

Dafny models of the hard parts of the linkers in this repository, with proofs of
what they promise. `dafny verify dfyconfig.toml` checks everything.

**COFF images.** `Bytes`, `Patches` and `BaseRelocs` describe little-endian
fields that are added to in place and the blocks of `.reloc`; `Rebase` and
`ImageWriter` link an x64 image and let a loader move it, and `FieldMeaning` says
where its fields lead; `Icf` folds identical
COMDAT sections; `GarbageCollector` marks live sections (over `Reach`);
`Layout` and `SectionWriter` assign addresses, and `LaidOutImage` says what they give
the rest of the writer; `ImportBins`, `ImportTables` and
`Idata` build import tables and read them back.

**COFF symbol resolution.** `Precedence` is the comparison of two symbols of one
name, `Resolution` the compare-and-swap protocol on the cell of one name, and
`ArchiveDriven` the queues of objects, archives and members up to the report of
undefined symbols.

**Atom resolution.** `AtomTable` coalesces atoms by name and content,
`AtomResolver` redirects references and strips dead atoms, `Groups` is the loop
over the command line with its groups, `GroupFixpoint` says what it reaches,
`IncrementalSearch` that saved positions change nothing, and `GroupResolver` is
the loop on the resolver's own fields.

**Parallel sort.** `ParallelSort` is the group of tasks behind `parallel_sort` as
a machine whose steps interleave in any order; `SplitRange` is the partitioning
each of them does; `SortFinishes` completes every schedule.

**Parsers and printers.** `Expressions` and `ExpressionPrinting` cover the
expressions of linker scripts; `ModuleDef`, `ModuleDefReader`, `DefRoundTrip` and
`DefDirectives` cover module-definition files, `ExportOrdinals` and `ExportFixup` the
exports they are written from.

Classes (`Icf.Folder`, `ArchiveDriven.SymbolTable`, `AtomResolver.Resolver` and so
on) have the fields of the source's objects. Their methods run the source's loops
and are tied to functions or step relations, about which the theorems are proved.

## What the proofs brought to light

Where the code does not do what its comments or its callers expect, the model
follows the code, and a lemma gives the input or the exact condition.

- A folded COMDAT chunk can be left pointing at a chunk that is itself folded
  later, so a symbol may resolve to a chunk that is never written
  (`Icf.OneHopCanBeDead`). It happens exactly when a pass folds a chunk that an
  earlier one folded something into (`Icf.OneHopExactlyWhen`); it cannot happen if no
  foldable chunk refers to one with a twin (`Icf.NoTwinTargetsIsEnough`).
- A 64-bit reference to `__ImageBase` is left out of `.reloc` although the field
  holds the base (`Rebase.ImageBaseReferenceGoesStale`, with the smallest image in
  `Rebase.StaleImageCannotMove`).
- The section headers outgrow the page before the first section at 95 sections
  (`Layout.HeadersFitExactlyWhen`), and alignments above a page are missed
  (`Layout.LargeAlignmentIsMissed`).
- `addUndefined` drops the error of `addSymbol`: if the entry point's archive member
  has an unknown type, symbol resolution succeeds without a definition of it
  (`ArchiveDriven.EntryIsLost`). After a successful report a name is defined exactly
  if it was not left lazy (`ArchiveDriven.SymbolTable.ReportRemainingUndefines`).
- Two alternate names that name each other make `getWeakAlias` run for ever
  (`ArchiveDriven.AliasesGoRound`); the walk ends exactly if it ends within as many
  turns as there are weak aliases (`ArchiveDriven.EndsExactlyWhen`).
- `compare` is neither antisymmetric nor transitive
  (`Precedence.AntisymmetricExactlyWhen`, `Precedence.TransitiveExactlyWhen`).
- A weak definition can take a name back from an ordinary one, by way of one that is
  merged by size (`AtomTable.WeakAfterStrong`), and in no other way
  (`AtomTable.RelapseExactlyWhen`, `AtomTable.StrongStays`).
- Adding an atom twice can close a cycle of replacements
  (`AtomTable.AddingTwiceCanLoop`), exactly in the cases of
  `AtomTable.AddingAgainExactlyWhen`.
- A group can end with a name undefined that one of its archives defines. Whether it
  can is decided by the shape of the command line alone
  (`GroupFixpoint.FixpointExactlyWhen`): flat groups never do
  (`GroupFixpoint.FlatGroupsReturn`), nested ones may
  (`GroupFixpoint.NestedGroupsMiss`, `GroupFixpoint.NestedShapes`).
- A unary operator is never refused, whatever follows it
  (`Expressions.MissingOperandIsBuilt`), a call without arguments takes the next
  token as its name, and `dump` prints conditionals without parentheses; the trees
  it prints faithfully are exactly those of `ExpressionPrinting.DumpRoundTrip`.
- `NONAME` without an ordinal is written but not readable, and names after the first
  that start with `@` are lost (`DefRoundTrip.RoundTrip`, `DefRoundTrip.AtNameIsLost`).
- The module-definition file for the import library is written before the exports are
  made unique, sorted and numbered, so it says what is exported only if that changes
  nothing (`ExportFixup.SaysExactlyWhen`, `ExportFixup.FileSaysWhatIsExported`,
  `ExportFixup.FileIsWrittenTooEarly`).
- Export ordinals wrap to 0 when the numbers above the largest given one run out
  (`ExportOrdinals.NumberedExactlyWhen`).
- `HEAPSIZE` and `STACKSIZE` with one size keep the old commit size
  (`DefDirectives.CommitIsKept`).

## Model

| member | source | states |
|---|---|---|
| `Bytes.DecodeEncode` | COFF/Chunks.cpp:47-49 | A little-endian field read back gives the value written, if it fits the width. |
| `Bytes.ReadAdd` | COFF/Chunks.cpp:47-49 | Adding in place leaves the old value plus the addend, wrapped to the field's width. |
| `Bytes.ReadAddElsewhere` | COFF/Chunks.cpp:47-49 | A field that does not overlap the patched one keeps its value. |
| `Patches.FieldAfter` | COFF/Chunks.cpp:91-107 | After any list of patches to disjoint fields, each field holds its own old value plus its own addend. |
| `Patches.SameEffect` | COFF/Chunks.cpp:91-107 | Two lists of patches to the same disjoint fields leave the same buffer if and only if their addends agree modulo each field's width. |
| `Patches.TwoPasses` | COFF/Chunks.cpp:84-108 | The writer's pass followed by the loader's second pass over some of the fields is one pass with merged addends. |
| `BaseRelocs.EntryFits` | COFF/Chunks.cpp:291-294 | Every entry of a block holds its type and an offset of twelve bits, and both are recovered. |
| `BaseRelocs.DecodeBlocksOf` | COFF/Writer.cpp:611-628 | Decoding the blocks of a list gives exactly that list in order, padding skipped, whatever follows in the section. |
| `BaseRelocs.RoundTrip` | COFF/Writer.cpp:611-628 | The whole section decodes to exactly the listed addresses. |
| `BaseRelocs.BlockShapes` | COFF/Chunks.cpp:283-295 | Every block's size field is its length, a multiple of 4, and its page is a multiple of 4096. |
| `BaseRelocs.BlockFields` | COFF/Chunks.cpp:283-295 | A block field by field: a page at a multiple of 4096, the size with padding to four bytes, for each address type 10 above its twelve-bit offset, then zeros. |
| `BaseRelocs.NewBaserelChunk` | COFF/Chunks.cpp:283-295 | The constructor's loop over the buffer writes the block of the specification. |
| `BaseRelocs.AddBaserelBlocks` | COFF/Writer.cpp:611-628 | The scan with two indices appends exactly the blocks of the runs of equal pages. |
| `Rebase.DecodeReloc` | COFF/Writer.cpp:593-608 | Reading `.reloc` back gives every listed location of every section in order. |
| `Rebase.LoadedImage` | COFF/Chunks.cpp:84-143 | What the loader makes of a linked image is one pass of patches with the move added to the listed fields. |
| `Rebase.RebaseTheorem` | COFF/Chunks.cpp:47-143 | An image moved by delta at load time equals the image linked at the new base if and only if each of its fields is safe for that move. |
| `Rebase.OrdinaryImagesRebase` | COFF/Chunks.cpp:264-279 | If absolute fields are 64 bits wide and no relocation is against an absolute symbol, the image can be moved anywhere. |
| `Rebase.ImageBaseReferenceGoesStale` | COFF/Chunks.cpp:132-143 | With a 64-bit reference to `__ImageBase`, a move by less than the whole address space does not give the relinked image. |
| `Rebase.StaleImageCannotMove` | COFF/Chunks.cpp:132-143 | An image of one such reference is well formed, has an empty `.reloc`, and cannot be moved. |
| `ImageWriter.AddInPlace` | COFF/Chunks.cpp:47-49 | The bytes after an addition in place are those of the specification. |
| `ImageWriter.ApplyRelX64` | COFF/Chunks.cpp:51-68 | The field ends as its old value plus the formula of its type, and so leads, from where its type measures, to the address of its target; nothing else changes. |
| `ImageWriter.WriteTo` | COFF/Chunks.cpp:84-108 | A chunk with data is copied and relocated in the buffer; one without data changes nothing; an unsupported type fails. |
| `ImageWriter.WriteImage` | COFF/Writer.cpp:523-533 | Writing all chunks, one after the other, leaves the linked image of the rebase theorem. |
| `FieldMeaning.WrittenFieldMeans` | COFF/Chunks.cpp:84-108 | After writeTo each relocated field of the chunk means what its type says: an address, an offset from the image, from the next instruction or from the output section, or a section index, of its target. |
| `FieldMeaning.LinkedFieldMeans` | COFF/Chunks.cpp:51-108 | The same in the whole linked image, counting from what the object file had in the field. |
| `FieldMeaning.LinkedSlotMeans` | COFF/Chunks.cpp:264-279 | An address slot of the linked image holds the 64-bit address of its target. |
| `FieldMeaning.LinkedByteElsewhere` | COFF/Chunks.cpp:84-108 | A byte of a chunk outside all relocated fields is that of the object file. |
| `FieldMeaning.LoadedFieldMeans` | COFF/Chunks.cpp:51-143 | After the loader has moved an image whose fields are safe, each relocation means the same at the new base. |
| `FieldMeaning.LaidOutContentsApart` | COFF/Writer.cpp:356-376 | Chunks of a layout that ends with `.reloc` do not lie over one another, as the meaning of the linked image asks. |
| `ImageWriter.GetBaserels` | COFF/Chunks.cpp:128-143 | The locations collected from a chunk are exactly its listed items, in order. |
| `ImageWriter.AddBaserels` | COFF/Writer.cpp:593-608 | The blocks of all sections are exactly the contents of `.reloc`. |
| `Icf.HashAgreesWithEquals` | COFF/Chunks.cpp:171-221 | Equal chunks have equal hashes at every stage of folding, and equality is symmetric. |
| `Icf.EqualsImpliesAlike` | COFF/Chunks.cpp:182-221 | Chunks that `equals` accepts are alike up to their roots. |
| `Icf.EqualsIsSameView` | COFF/Chunks.cpp:182-221 | `equals` accepts two chunks exactly if header, bytes, the `Ptr` of each child, and type, offset and place of each relocation are the same. |
| `Icf.FoldKeepsInvariant` | COFF/Chunks.cpp:229-232 | Folding an equal chunk keeps chains going to earlier chunks, ending in live ones, and linking only alike chunks. |
| `Icf.PassKeeps` | COFF/ICF.cpp:41-58 | A pass keeps the invariant; it asks for another exactly if it shrank the live set, and otherwise leaves no equal pair. |
| `Icf.RunEndsStable` | COFF/ICF.cpp:38-60 | At the end no two live COMDAT chunks are equal, and every folded chunk's chain ends in a live one. |
| `Icf.SurvivorsDiffer` | COFF/ICF.cpp:38-60 | At the end of a run any two live COMDAT sections differ in something `equals` compares. |
| `Icf.PassOnlyFolds` | COFF/ICF.cpp:44-58 | A pass changes a chunk only by killing it, and only if it was a live COMDAT section; it then points to one that was. |
| `Icf.RunOnlyFolds` | COFF/ICF.cpp:38-60 | So does a whole run: ordinary sections, other chunks and chunks already dead keep `Ptr` and `Live`. |
| `Icf.SameRootIsCongruence` | COFF/Chunks.cpp:182-232 | Chunks with the same root have equal headers, bytes, relocation kinds and offsets, and related targets and children. |
| `Icf.FoldingPreservesMeaning` | COFF/Symbols.h:155-179 | At every depth a chunk of the folded program unfolds like every input chunk that shares its root. |
| `Icf.RunPreservesMeaning` | COFF/ICF.cpp:38-60 | After a whole run every chunk and its root unfold to what the chunk was in the input. |
| `Icf.OneHopExactlyWhen` | COFF/ICF.cpp:38-60 | After a run one hop of `Ptr` reaches a live chunk from every folded one if and only if no pass folded a chunk that an earlier pass had folded something into. |
| `Icf.FirstPassKeepsOneHop` | COFF/ICF.cpp:44-58 | After the first pass of any run one hop is enough. |
| `Icf.NoTwinTargetsIsEnough` | COFF/Chunks.cpp:182-232 | If no foldable chunk relocates to, or has as a child, a foldable chunk with an equal twin, the second pass folds nothing and one hop is enough. |
| `Icf.OneHopCanBeDead` | COFF/ICF.cpp:52-57 | A run on five chunks that leaves a `Ptr` at a dead chunk. |
| `Icf.Folder.DoIcf` | COFF/ICF.cpp:38-60 | The loop on `Ptr` and `Live` is such a run, it ends, it ends stable, and every chunk that is not a live COMDAT section keeps both fields. |
| `Icf.Folder.OnePass` | COFF/ICF.cpp:44-58 | The loop over the chunks with the hash set is one pass, and changes only live COMDAT sections. |
| `GarbageCollector.Collector.MarkLive` | COFF/Writer.cpp:117-159 | The live sections are the least set that holds the roots by name and by flag and, with each chunk, the chunks of its relocations' symbols and its children; none is pushed twice. |
| `GarbageCollector.LeastKept` | COFF/Writer.cpp:117-159 | What is reachable over the edges is that least set, stated on the chunks. |
| `GarbageCollector.Collector.Push` | COFF/Writer.cpp:130-131 | A section is pushed only when unmarked, so the assertion of marking never fires. |
| `Reach.ExactlyIsLeast` | COFF/Writer.cpp:114-116 | The set of reachable nodes is the least set that holds the roots and is closed under edges. |
| `Layout.MemoryIsSound` | COFF/Writer.cpp:356-376 | Sections start on pages in increasing order, each chunk lies inside its section, and no two chunks overlap in memory. |
| `Layout.FileIsSound` | COFF/Writer.cpp:72-81 | Chunks with data come after the headers, end within the file size and do not overlap in the file; in a section of no size in the file they are empty. |
| `Layout.PieceFits` | COFF/Writer.cpp:83-94 | Within its section a chunk is aligned, ends inside the virtual size and, with data, inside the raw size. |
| `Layout.AlignedExactlyWhen` | COFF/Writer.cpp:66-94 | A chunk is aligned in memory if and only if its section starts at a multiple of its alignment. |
| `Layout.SmallAlignmentsAreMet` | COFF/Writer.cpp:66-94 | An alignment that divides 4096 is always met. |
| `Layout.LargeAlignmentIsMissed` | COFF/Chunks.cpp:37-40 | A chunk at the start of the first section that asks for more than a page is not aligned. |
| `Layout.HeadersFitExactlyWhen` | COFF/Writer.cpp:357-363 | The headers stay below the first section if and only if there are at most 94 sections. |
| `Layout.ImageCoversPieces` | COFF/Writer.cpp:373 | Every chunk ends within the image size. |
| `Layout.PiecesAreTight` | COFF/Writer.cpp:83-94 | A chunk starts at the first multiple of its alignment after the one before, and the section ends with its last chunk. |
| `Layout.RawIsTight` | COFF/Writer.cpp:83-94 | In the file a section takes the fewest 512-byte blocks that hold it up to its last chunk with data, or none. |
| `Layout.SectionsAreTight` | COFF/Writer.cpp:364-372 | The first section starts at 0x1000 and every other at the first page after its predecessor; in the file sections follow the headers without a gap. |
| `Layout.SizesAreTight` | COFF/Writer.cpp:357-375 | The image takes exactly the pages of headers and sections, and the file ends with the last section. |
| `Layout.HeadersAreTight` | COFF/Writer.cpp:357-362 | The headers take the fewest pages that hold 328 bytes, or 312 in a 32-bit image, and 40 for each section. |
| `SectionWriter.OutputSection.AddChunk` | COFF/Writer.cpp:83-94 | Adding a chunk keeps the sizes and offsets those of the layout. |
| `SectionWriter.OutputSection.SetRVA` | COFF/Writer.cpp:66-70 | Every chunk address moves by the section's. |
| `SectionWriter.OutputSection.SetFileOffset` | COFF/Writer.cpp:72-81 | Every file offset moves by the section's, except in a section without data. |
| `SectionWriter.Writer.AssignAddresses` | COFF/Writer.cpp:356-376 | The loop with running counters gives every section and chunk the addresses of the layout, and the three sizes. |
| `SectionWriter.AssignedAsLaidOut` | COFF/Writer.cpp:66-81 | After address assignment every chunk has the addresses of the layout, in memory and in the file. |
| `LaidOutImage.LaidOutChunksApart` | COFF/Writer.cpp:356-376 | Chunks at laid-out addresses are as far apart as writing the image needs. |
| `LaidOutImage.LaidOutIsWellFormed` | COFF/Writer.cpp:356-376 | A laid-out image with `.reloc` last, whose chunks relocate disjoint fields of their own, is one the rebase theorem applies to. |
| `ImportBins.PutKeeps` | COFF/DLL.cpp:161-163 | Adding a symbol to the map keeps DLLs ascending and distinct, each symbol under its own DLL, and loses none. |
| `ImportBins.SortSorts` | COFF/DLL.cpp:165-172 | The symbols of a DLL end up in the order of their names. |
| `ImportBins.BinImports` | COFF/DLL.cpp:157-174 | Every import once, grouped by DLL, sorted by name. |
| `ImportTables.ReadBack` | COFF/DLL.cpp:137-155 | Walking the directory and each lookup table to its null entry gives every DLL with its address table and its imports in order. |
| `ImportTables.AddressTablesReadBack` | COFF/DLL.cpp:137-155 | Each DLL's address table, before it is bound, reads like its lookup table. |
| `ImportTables.ReadsSlot` | COFF/DLL.cpp:63-94 | A slot reads as the import it was made for: by ordinal with the top bit, or by hint and name. |
| `ImportTables.ReadsHintName` | COFF/DLL.cpp:42-60 | A hint-name chunk, padded to even length, reads as its hint and name. |
| `ImportTables.DirectoryFields` | COFF/DLL.cpp:97-114 | A directory entry is twenty bytes: lookup table, eight zeros, name and address table. |
| `ImportTables.SlotFields` | COFF/DLL.cpp:63-94 | A slot is eight bytes: the top bit and the ordinal, or the RVA of the hint and name. |
| `ImportTables.HintFields` | COFF/DLL.cpp:42-60 | A hint and name has even length: two bytes of hint, the name, and one or two zeros. |
| `Idata.IdataContents.Create` | COFF/DLL.cpp:176-219 | The nested loops fill the vectors with exactly the chunks of the binned imports and give every symbol its slot. |
| `Idata.ChunksWriteTables` | COFF/DLL.cpp:137-155 | Laid out one after the other, the chunks write the import tables. |
| `Idata.BuildAndRead` | COFF/DLL.cpp:127-219 | From any imports the loader finds each of them once, and the address table has one slot for every import and one for every DLL. |
| `Idata.LocationsMatch` | COFF/DLL.cpp:207-208 | Each symbol's location is the slot of its DLL's address table that the loader fills for it. |
| `Precedence.AntisymmetricExactlyWhen` | COFF/Symbols.cpp:41-150 | Comparing in the other order gives the opposite answer if and only if the pair is none of four kinds of ties. |
| `Precedence.CompareAgrees` | COFF/Symbols.cpp:41-150 | Where compare prefers one of two defined symbols of distinct files, that one comes first in one strict order. |
| `Precedence.DuplicatesExactlyWhen` | COFF/Symbols.cpp:41-150 | Two symbols are duplicates if and only if they are: regular and not both COMDAT; two of import and absolute symbols; one of these and a bitcode symbol; a regular one that is not COMDAT and a bitcode one that cannot be replaced; two such bitcode ones; or undefined with different aliases. |
| `Precedence.OutranksWins` | COFF/Symbols.cpp:83-121 | Of two definitions that are no duplicates the one that comes first in the order wins. |
| `Precedence.UndefinedWins` | COFF/Symbols.cpp:130-140 | Of two undefined symbols the one with a weak alias wins, with none the newer, with the same one that at the smaller address. |
| `Precedence.LazyWins` | COFF/Symbols.cpp:123-128 | A definition beats a lazy symbol, and the earlier archive's lazy symbol the later one's. |
| `Precedence.OutranksIsStrict` | COFF/Symbols.cpp:83-121 | That order is asymmetric and transitive. |
| `Precedence.TransitiveExactlyWhen` | COFF/Symbols.cpp:59-88 | Of three defined symbols of distinct files, each preferred to the next, the first is preferred to the third if and only if it is not a plain definition against a bitcode one that cannot be replaced. |
| `Precedence.CompareIsNotTransitive` | COFF/Symbols.cpp:59-88 | Three such symbols. |
| `Precedence.DefinedBeatsUndefined` | COFF/Symbols.cpp:50-57 | A defined symbol wins against an undefined one on either side. |
| `Resolution.DuplicateExactlyWhen` | COFF/SymbolTable.cpp:200-229 | addSymbol reports a duplicate if and only if the symbol there is not lazy and the two are of those kinds. |
| `Resolution.SymbolDecided` | COFF/SymbolTable.cpp:200-229 | Otherwise: a lazy symbol gives way or has its member read for an undefined one without alias, definitions beat undefined symbols, and of two definitions the outranking one stays. |
| `Resolution.LazyDecided` | COFF/SymbolTable.cpp:173-191 | A lazy symbol replaces only undefined symbols, and is then to be loaded, and lazy ones of no earlier archive. |
| `Resolution.StepKeepsExplained` | COFF/SymbolTable.cpp:193-230 | Each atomic step lets at most one more call take effect, at the end of a sequential order. |
| `Resolution.Linearizable` | COFF/SymbolTable.cpp:173-230 | Any interleaving of the calls on one name equals some sequential order of them, in the cell and in every result. |
| `Resolution.WinnerIsBest` | COFF/SymbolTable.cpp:193-230 | After an error-free sequential run no defined candidate outranks the winner. |
| `Resolution.Confluent` | COFF/SymbolTable.cpp:173-230 | All complete error-free interleavings that include a defined candidate end with the same body. |
| `Resolution.TracesAreBounded` | COFF/SymbolTable.cpp:200-229 | However threads are scheduled, the number of steps of their retry loops is bounded. |
| `ArchiveDriven.SymbolTable.AddFile` | COFF/SymbolTable.cpp:26-41 | A file goes to the end of its queue and its entries are accounted for. |
| `ArchiveDriven.SymbolTable.AddSymbol` | COFF/SymbolTable.cpp:193-230 | The cell, the queue, the members read and the error are those of one step of the protocol, and no promise is lost; against another body that is not lazy the call fails if and only if the two clash. |
| `ArchiveDriven.SymbolTable.FailsExactlyWhen` | COFF/SymbolTable.cpp:193-230 | It fails only for a clash or for the first request of a member of unknown type, and then changes neither cells nor queue. |
| `ArchiveDriven.SymbolTable.AddMemberFile` | COFF/SymbolTable.cpp:244-259 | A member is queued on the first request only, and an unknown type is an error then. |
| `ArchiveDriven.SymbolTable.AddLazy` | COFF/SymbolTable.cpp:173-191 | The cell and the list of names to load are those of one step of the protocol. |
| `ArchiveDriven.SymbolTable.ReadObjects` | COFF/SymbolTable.cpp:85-119 | Every queued file, also those queued meanwhile, is read without an error; afterwards every directive of every file read has had its effect. |
| `ArchiveDriven.SymbolTable.ReadArchives` | COFF/SymbolTable.cpp:60-83 | The cells are those after adding the lazy symbols of all archives in order, so that the earliest archive wins; members wanted by undefined symbols are queued. |
| `ArchiveDriven.SymbolTable.ParseDirective` | COFF/SymbolTable.cpp:113-117 | A directive has its effect, and effects of earlier ones stay. |
| `ArchiveDriven.SymbolTable.Run` | COFF/SymbolTable.cpp:43-58 | The loop ends, with both queues empty, every file read, every directive obeyed and nothing promised left over. |
| `ArchiveDriven.SymbolTable.AddUndefined` | COFF/SymbolTable.cpp:301-307 | A new body replaces an undefined one without a weak alias; any other body stays, whatever the error. |
| `ArchiveDriven.SymbolTable.ResolveAlternateName` | COFF/Driver.cpp:626-636 | An undefined symbol without a weak alias, and no other, gets its alternate name as one. |
| `ArchiveDriven.SymbolTable.Converge` | COFF/Driver.cpp:609-644 | The driver's loop ends, with every export asked for and every directive obeyed. |
| `ArchiveDriven.SymbolTable.Resolve` | COFF/Driver.cpp:512-644 | Before the report the entry, the exports and the includes were asked for; if there are only archives and the entry's member has an unknown type, there is no error and the entry stays lazy. |
| `ArchiveDriven.SymbolTable.MangleMaybe` | COFF/SymbolTable.cpp:277-299 | An unresolved symbol without alias gets an alias with its mangled prefix exactly if the table has one. |
| `ArchiveDriven.SymbolTable.MangledNames` | COFF/SymbolTable.cpp:283-287 | The prefix sought is that of the mangled names of the function with any parameters. |
| `ArchiveDriven.SymbolTable.GetWeakAlias` | COFF/Symbols.cpp:249-255 | On a chain that ends, the first defined body along it. |
| `ArchiveDriven.WeakAliasIsFirst` | COFF/Symbols.cpp:249-255 | The walk returns a definition if and only if it is found some number of aliases on, with none before it. |
| `ArchiveDriven.AliasOfDefinedName` | COFF/Symbols.cpp:249-255 | An alias by name stands for whatever defines that name by then. |
| `ArchiveDriven.EndsExactlyWhen` | COFF/Symbols.cpp:249-255 | A walk along weak aliases ends if and only if it ends within as many turns as there are aliases. |
| `ArchiveDriven.AliasesGoRound` | COFF/Driver.cpp:626-636 | A link with two undefined names that are alternate names of each other never ends its report. |
| `ArchiveDriven.SymbolTable.ReportOne` | COFF/SymbolTable.cpp:127-158 | An undefined symbol is settled by its alias, by its import target or by force, in this order, or reported. |
| `ArchiveDriven.SymbolTable.ImportTargets` | COFF/SymbolTable.cpp:139-153 | A name has an import target if and only if it is `__imp_` and a defined name. |
| `ArchiveDriven.SymbolTable.ReportRemainingUndefines` | COFF/SymbolTable.cpp:125-171 | On success a name that any file, or the driver, left undefined resolves to a definition if and only if it was not left lazy before, which takes an archive member of unknown type. |
| `ArchiveDriven.SymbolTable.Link` | COFF/Driver.cpp:512-655 | A whole link: unless it fails or a chain of aliases does not end, every wanted name is defined or its member was of unknown type, and every file was processed. |
| `ArchiveDriven.EntryIsLost` | COFF/SymbolTable.cpp:301-307 | One archive that maps the entry to a member of unknown type: no error, and no definition of the entry. |
| `AtomTable.WinnerIsStrongest` | lib/Core/SymbolTable.cpp:86-134 | Undefined atoms never win against shared ones nor these against definitions, and the tables fail only between two definitions. |
| `AtomTable.HigherRankWins` | lib/Core/SymbolTable.cpp:114-134 | Of tentative, weak, weak with its address used, and ordinary definitions the higher rank wins on either side; of equal ones the first stays, but the larger tentative one wins and two ordinary ones are an error unless duplicates are allowed. |
| `AtomTable.SizesDecide` | lib/Core/SymbolTable.cpp:114-215 | Where one definition asks for the same size, sizes must agree and the new one wins; else where one asks for the largest, the larger wins, and the new one of two equal. |
| `AtomTable.KindsDecide` | lib/Core/SymbolTable.cpp:86-265 | Who wins between atoms of different kinds, two absolute, two shared and two undefined ones. |
| `AtomTable.HolderAfter` | lib/Core/SymbolTable.cpp:136-282 | A definition that is not weak loses its name to a weak one exactly if it is merged by size and the size will do; an ordinary one keeps it against all but definitions merged by size. |
| `AtomTable.RelapseExactlyWhen` | lib/Core/SymbolTable.cpp:136-282 | After an ordinary definition was added, a weak or tentative one holds its name at some later time if and only if some addition meets a holder merged by size. |
| `AtomTable.WeakAfterStrong` | lib/Core/SymbolTable.cpp:114-134 | Three definitions of one size of which the weak one ends up with the name. |
| `AtomTable.StrongStays` | lib/Core/SymbolTable.cpp:136-282 | If no definition of the name is merged by size, the holder after the first ordinary definition is one and never changes. |
| `AtomTable.LocalsAreLeftAlone` | lib/Core/SymbolTable.cpp:39-56 | Unnamed and file-local definitions other than constants change nothing. |
| `AtomTable.OthersHaveNames` | lib/Core/SymbolTable.cpp:33-46 | Every other atom but constants and groups is filed under its name, or replaced by the holder. |
| `AtomTable.ConstantAdded` | lib/Core/SymbolTable.cpp:292-330 | A constant is kept, or replaced by a kept one with the same type, size, section and bytes. |
| `AtomTable.ConstantsDiffer` | lib/Core/SymbolTable.cpp:292-330 | After any additions the kept constants all differ. |
| `AtomTable.FirstGroupStays` | lib/Core/Resolver.cpp:138-156 | The first group of a name stands for later ones, which must have its content type unless duplicates are allowed. |
| `AtomTable.EndIsUnique` | lib/Core/SymbolTable.cpp:349-358 | A chain of replacements has at most one end. |
| `AtomTable.CollisionKeeps` | lib/Core/SymbolTable.cpp:272-280 | Replacing the loser by the winner keeps every chain ending at the table's entry for its name. |
| `AtomTable.AddAtomKeeps` | lib/Core/SymbolTable.cpp:136-282 | Adding any new atom, by name, by content or as a group, keeps the invariant. |
| `AtomTable.ChainsEndAtNames` | lib/Core/SymbolTable.cpp:344-362 | After any additions of different atoms every chain ends, and that of a named atom at the entry for its name. |
| `AtomTable.AddingAgainExactlyWhen` | lib/Core/SymbolTable.cpp:136-282 | Adding an added atom again leaves every chain ending if and only if it holds its name or loses against the holder, and, by content or as a group, is not what the table holds. |
| `AtomTable.AddingTwiceCanLoop` | lib/Core/SymbolTable.cpp:136-282 | Adding an atom a second time can make `replacement` run for ever. |
| `AtomResolver.SymbolTable.AddName` | lib/Core/SymbolTable.cpp:136-282 | The two maps change as the specification says, so by rank, size and kind. |
| `AtomResolver.SymbolTable.Add` | lib/Core/SymbolTable.cpp:33-75 | Atoms are tracked by name, by content, as groups or not at all. |
| `AtomResolver.SymbolTable.Replacement` | lib/Core/SymbolTable.cpp:349-358 | The loop ends at the end of the chain. |
| `AtomResolver.Resolver.UpdateReferences` | lib/Core/Resolver.cpp:341-361 | Every reference but the associate ones moves to the end of its target's chain, and targets that go away are exactly recorded. |
| `AtomResolver.Resolver.MarkLive` | lib/Core/Resolver.cpp:364-379 | The recursion ends, marks only what it can reach, and leaves what it marked closed. |
| `AtomResolver.Resolver.DeadStripOptimize` | lib/Core/Resolver.cpp:389-431 | What is live is the least set that holds the absolute atoms, the never-stripped, the global and the named roots and, with an atom, the targets of its references and the atoms laid out after it or in whose group it is; the list is the old one filtered by it. |
| `AtomResolver.LiveIsLeast` | lib/Core/Resolver.cpp:364-431 | What is reachable over the edges is that least set, stated on the atoms. |
| `AtomResolver.FilterInOrder` | lib/Core/Resolver.cpp:427-430 | What stays of a list stays in its order. |
| `AtomResolver.Resolver.RemoveCoalescedAwayAtoms` | lib/Core/Resolver.cpp:480-486 | The list is the old one without replaced and dead atoms, in order. |
| `AtomResolver.Resolver.Finish` | lib/Core/Resolver.cpp:488-500 | The atoms that stay are exactly those reachable and not coalesced away; with and without dead stripping every reference of a kept atom leads to a kept atom, save associate references and targets that went away with a coalesced atom, of which there are none without associate references. |
| `AtomResolver.OutputClosed` | lib/Core/Resolver.cpp:341-361 | A reference of a kept atom leads to an atom of the list that nothing replaces and, when stripping, that is live. |
| `Groups.TableResolves` | lib/Core/SymbolTable.cpp:86-104 | Adding a named atom changes whether names are resolved as the loop assumes: a resolved name stays resolved. |
| `Groups.ScanKeeps` | lib/Core/Resolver.cpp:49-78 | After a visit the archive has nothing left for any name in the list, and names were added only by loading members. |
| `Groups.ScanTakesWanted` | lib/Core/Resolver.cpp:49-95 | A visit takes members of its own archive only, each for a name that was asked for and not resolved before. |
| `Groups.HandleFileMeans` | lib/Core/Resolver.cpp:32-47 | A file adds its names, resolves those it defines, and appends those only asked for and new, once each. |
| `Groups.StepKeeps` | lib/Core/Resolver.cpp:258-275 | Every turn of the loop keeps each archive searched up to its saved position. |
| `Groups.StepDecreases` | lib/Core/Resolver.cpp:296-337 | Every turn spends a member or an object for good, or comes closer to the end. |
| `Groups.RunEnds` | lib/Core/Resolver.cpp:296-337 | The loop over the command line ends, however groups are nested. |
| `GroupFixpoint.FixpointExactlyWhen` | lib/Core/Resolver.cpp:249-275 | Whatever the files hold, the loop leaves a group with no unloaded member of its archives for a name still undefined, if and only if, for each file of the group, the first group end to notice any later file goes back behind the group's end or as far as that file. |
| `GroupFixpoint.GroupFixpoint` | lib/Core/Resolver.cpp:258-275 | The same for one archive of any command line for which that holds. |
| `GroupFixpoint.MissesWithoutReturn` | lib/Core/Resolver.cpp:258-275 | For any other shape, files with which the archive is left with an unloaded member for an undefined name. |
| `GroupFixpoint.FlatGroupsReturn` | lib/Core/Resolver.cpp:258-275 | A group into which no other group end goes back, except to its start, meets the condition. |
| `GroupFixpoint.NestedShapes` | lib/Core/Resolver.cpp:258-275 | A nested shape that does not meet it and two that do. |
| `GroupFixpoint.NestedGroupsMiss` | lib/Core/Resolver.cpp:258-275 | A nested group that ends with a name undefined that an archive of the group defines. |
| `IncrementalSearch.ScanMatches` | lib/Core/Resolver.cpp:49-78 | From matching lists, searching with and without blanking takes the same turns. |
| `IncrementalSearch.SeenPartIsSkipped` | include/lld/Core/Resolver.h:106-114 | A full search finds nothing before the saved position. |
| `IncrementalSearch.IncrementalIsFull` | lib/Core/Resolver.cpp:49-78 | After any number of turns the incremental and the full search have loaded the same members in the same order and hold the same table. |
| `GroupResolver.Resolver.HandleFile` | lib/Core/Resolver.cpp:32-47 | The loops over the atoms change the table and the list as specified, and report whether the list grew. |
| `GroupResolver.Resolver.Find` | lib/ReaderWriter/FileArchive.cpp:46-78 | A member is returned at most once, and one that fails to load counts as returned. |
| `GroupResolver.Resolver.HandleArchiveFile` | lib/Core/Resolver.cpp:80-95 | The loop with its growing list ends in the state of the scan and saves the position. |
| `GroupResolver.Resolver.UndefinesAdded` | lib/Core/Resolver.cpp:249-256 | Whether a file node of the range is flagged. |
| `GroupResolver.Resolver.GetFile` | lib/Core/Resolver.cpp:258-275 | The recursion over group ends ends, at the next file of the machine. |
| `GroupResolver.Resolver.ResolveUndefines` | lib/Core/Resolver.cpp:296-337 | The loop ends past the last node, having loaded what a full search would load. |
| `ParallelSort.StepKeeps` | include/lld/Core/Parallel.h:207-220 | Every step of any task keeps ranges disjoint, pairs outside one range in order, and the latch equal to the decrements owed. |
| `ParallelSort.SortedAtSync` | include/lld/Core/Parallel.h:247-283 | Under every schedule, when sync has returned the array is a sorted permutation of the input, for any strict weak order. |
| `ParallelSort.LatchHoldsWork` | include/lld/Core/Parallel.h:44-70 | The latch is above zero while a spawned task is unfinished or about to be pushed. |
| `ParallelSort.NoRaces` | include/lld/Core/Parallel.h:271-274 | Two tasks never swap the same position. |
| `ParallelSort.RunsAreBounded` | include/lld/Core/Parallel.h:247-275 | A schedule has a bounded number of steps besides the swaps inside tasks. |
| `SortFinishes.CanFinish` | include/lld/Core/Parallel.h:207-220 | From every state that meets the invariant some schedule makes sync return. |
| `SortFinishes.EveryScheduleCompletes` | include/lld/Core/Parallel.h:247-283 | However a schedule began it can be completed, and then the array is a sorted permutation of the input. |
| `SortFinishes.SplitSwaps` | include/lld/Core/Parallel.h:255-264 | Swaps inside a range move its median where it splits the range. |
| `SplitRange.MedianIsMiddle` | include/lld/Core/Parallel.h:236-245 | The median of three has at most one of the three below it and at most one above it. |
| `SplitRange.Partition` | include/lld/Core/Parallel.h:260-262 | Elements less than the pivot come first, by swaps inside the range. |
| `SplitRange.Divide` | include/lld/Core/Parallel.h:255-264 | Partitioning by the median leaves the range split around it, by swaps inside the range. |
| `SplitRange.SplitTask` | include/lld/Core/Parallel.h:255-270 | A task whose range is not sorted sequentially can go on, by swap steps of its own, to where it may spawn. |
| `Expressions.MissingOperandIsBuilt` | lib/ReaderWriter/LinkerScript.cpp:1182-1187 | A unary operator is never refused: it is built with a null child if and only if what follows is no operand, and parsing goes on. |
| `Expressions.Parser.ReadOperators` | lib/ReaderWriter/LinkerScript.cpp:1323-1347 | The loop reads what the grammar's continuation reads; it never returns null for want of an operator. |
| `Expressions.Parser.ReadExpression` | lib/ReaderWriter/LinkerScript.cpp:1300-1321 | The method consumes and returns what the grammar function does, which reads operators as the next rows say. |
| `ExpressionPrinting.OperatorsGroup` | lib/ReaderWriter/LinkerScript.cpp:1212-1274 | Of two operators between three operands the second takes the middle one if and only if it is strictly tighter: multiplication, addition, shifts, order, equality, and, or. |
| `ExpressionPrinting.NumbersGroup` | lib/ReaderWriter/LinkerScript.cpp:1212-1274 | The same for the five tokens of two operators between three numbers. |
| `ExpressionPrinting.ConditionalIsLoosest` | lib/ReaderWriter/LinkerScript.cpp:1300-1321 | Every operator binds tighter than a conditional, before it and inside it. |
| `ExpressionPrinting.ConditionalsGroup` | lib/ReaderWriter/LinkerScript.cpp:1349-1370 | Conditionals group from the right. |
| `ExpressionPrinting.PrefixesBindTightest` | lib/ReaderWriter/LinkerScript.cpp:1182-1190 | A minus or a tilde takes just the operand after it. |
| `ExpressionPrinting.EmptyCallTakesSign` | lib/ReaderWriter/LinkerScript.cpp:1137-1140 | A call without arguments before an operator is named after the operator. |
| `Expressions.Parser.ReadCall` | lib/ReaderWriter/LinkerScript.cpp:1127-1158 | The loop over the arguments returns and consumes what the specification says. |
| `ExpressionPrinting.Reads` | lib/ReaderWriter/LinkerScript.cpp:1212-1370 | Any text with at least the parentheses the precedence table needs is read as its tree: binary operators to the left, conditionals to the right. |
| `ExpressionPrinting.MinimalRoundTrip` | lib/ReaderWriter/LinkerScript.cpp:1212-1370 | Printing with only the needed parentheses and parsing gives the tree back. |
| `ExpressionPrinting.MinimalIsShortest` | lib/ReaderWriter/LinkerScript.cpp:1212-1274 | No text with enough parentheses for the same tree has fewer tokens. |
| `ExpressionPrinting.ReadsDump` | lib/ReaderWriter/LinkerScript.cpp:553-706 | What the parser makes of dump's text, for every tree. |
| `ExpressionPrinting.DumpRoundTrip` | lib/ReaderWriter/LinkerScript.cpp:553-706 | Parsing dump's text gives the tree back if and only if no conditional is an operand or a condition and no call is without arguments. |
| `ModuleDefReader.Lexer.Lex` | COFF/ModuleDef.cpp:61-104 | The lexer eats its buffer as specified. |
| `ModuleDefReader.Parser.Read` | COFF/ModuleDef.cpp:123-130 | The next token comes from the stack or the lexer, and the end of the file stays the end. |
| `ModuleDefReader.Parser.Unget` | COFF/ModuleDef.cpp:150 | A token put back is the next one again, and the stack is never deeper than one. |
| `ModuleDefReader.Parser.ReadExport` | COFF/ModuleDef.cpp:196-239 | One export with its attributes is appended to the configuration. |
| `ModuleDefReader.Parser.Parse` | COFF/ModuleDef.cpp:114-120 | The loop over directives ends and gives the configuration of the specification, or an error. |
| `DefRoundTrip.LexesFile` | COFF/DriverUtils.cpp:515-534 | The text written for the exports lexes into exactly the tokens meant. |
| `DefRoundTrip.SkipsComment` | COFF/ModuleDef.cpp:70-74 | A comment up to the end of its line, whatever it holds, leaves the tokens after it as they are without it. |
| `DefRoundTrip.CommentAtEnd` | COFF/ModuleDef.cpp:70-74 | A comment in the last line ends the text. |
| `DefRoundTrip.StopsAtZero` | COFF/ModuleDef.cpp:68-69 | A zero character between tokens ends the text. |
| `DefRoundTrip.RoundTrip` | COFF/DriverUtils.cpp:515-534 | Reading the written file gives the library name with `.dll` and every export, renamed or not, in order under its external name, if and only if every `NONAME` has an ordinal and no name but the first starts with `@`. |
| `DefRoundTrip.AtNameIsLost` | COFF/ModuleDef.cpp:214-227 | A second export named like an ordinal becomes the ordinal of the first. |
| `ExportOrdinals.NumberedExactlyWhen` | COFF/DriverUtils.cpp:450-458 | Every export gets an ordinal of its own if and only if the numbers above the largest given one suffice. |
| `ExportOrdinals.NumbersFollow` | COFF/DriverUtils.cpp:451-457 | While numbers suffice each export without an ordinal gets the least number above all given ones and those handed out before. |
| `ExportFixup.FirstsStay` | COFF/DriverUtils.cpp:428-443 | An export stays if and only if it is the first of its name. |
| `ExportFixup.FixupIsSound` | COFF/DriverUtils.cpp:413-460 | What is exported: the first export of each name, ordered by external name, with its own ordinal if it had one, all numbered apart if and only if the numbers suffice. |
| `ExportFixup.SameExports` | COFF/DriverUtils.cpp:413-460 | The exports are the ones given if and only if every name was given once and numbering changes nothing. |
| `ExportFixup.Configuration.FixupExports` | COFF/DriverUtils.cpp:413-460 | The loops refuse ordinals given twice and otherwise make the exports unique, sorted and numbered. |
| `ExportFixup.Configuration.CreateModuleDefinitionFile` | COFF/DriverUtils.cpp:515-534 | The loop over the exports writes the text of the specification. |
| `ExportFixup.Configuration.FinishExports` | COFF/Driver.cpp:667-675 | The file is written from the exports as given, then the exports are fixed up. |
| `ExportFixup.SaysExactlyWhen` | COFF/Driver.cpp:667-675 | Read back, the file gives what is exported, under external names, if and only if the reader can read it and fixing up changed nothing. |
| `ExportFixup.FileSaysWhatIsExported` | COFF/Driver.cpp:667-675 | It does so whatever the sort makes of equal names if and only if the file can be read, names were given once, none was still to be numbered, and external names ascend strictly; it can do so if and only if they at least do not descend. |
| `ExportFixup.AtNamesCanAgree` | COFF/DriverUtils.cpp:428-443 | A repeated name that starts with `@`, for which file and exports agree by chance. |
| `ExportFixup.FileIsWrittenTooEarly` | COFF/Driver.cpp:667-675 | A single export without an ordinal: the image numbers it 1, the file does not number it. |
| `DefDirectives.SizesAreRead` | COFF/ModuleDef.cpp:242-254 | Two sizes are read back if and only if both fit in 64 bits. |
| `DefDirectives.CommitIsKept` | COFF/ModuleDef.cpp:245-250 | One size alone leaves the commit size as it was. |
| `DefDirectives.NamesAreRead` | COFF/ModuleDef.cpp:257-277 | A name and its base are read back if and only if the base fits in 64 bits; a name alone clears the base. |
| `DefDirectives.VersionsAreRead` | COFF/ModuleDef.cpp:280-299 | A version is read back if and only if its numbers fit in 32 bits. |
| `DefDirectives.SizesText` | COFF/ModuleDef.cpp:242-254 | The text of HEAPSIZE or STACKSIZE with two sizes sets just these. |
| `DefDirectives.NameText` | COFF/ModuleDef.cpp:257-277 | The text of NAME with BASE sets the output and its base. |
| `DefDirectives.VersionText` | COFF/ModuleDef.cpp:280-299 | The text of VERSION sets both numbers. |
| `DefDirectives.OrdinalIsRead` | COFF/ModuleDef.cpp:217-218 | An ordinal is read if it fits in sixteen bits, and otherwise the old one stays. |
| `DefDirectives.RenamedIsRead` | COFF/ModuleDef.cpp:196-210 | Before the equals sign stands the external name, after it the symbol; without one both are the same. |
| `DefDirectives.NamesAreDecorated` | COFF/ModuleDef.cpp:212-213 | On 32-bit targets a name gets an underscore unless it starts with `_@?`. |
| `DefDirectives.LibraryIsRead` | COFF/ModuleDef.cpp:171-176 | The output of a library is the name if that ends in `.dll` in any case, and otherwise the name with it. |

## Left out

- File opening, memory buffers, temporary files, external programs, manifests, diagnostics and verbose output.
- Command-line drivers and option tables, apart from the convergence loop of COFF/Driver.cpp.
- Link-time optimization: a bitcode symbol is a kind of symbol in `Precedence` only, and the second report of undefined symbols it makes is not modelled.
- Decoding of object files and archives: a file is its list of symbols and an archive a truthful map from names to members.
- PE headers, data directories, the symbol and string tables.
- x86 relocation, import thunks and the 32-bit branches of import tables: the image and import models are for x64.
- The ELF linker under ELF/ and the linker-script lexer, wildcards and section ordering.
- Evaluation of linker-script expressions; a number token carries its value, so the scanning of numbers is not modelled.
- Preloading of archive members, which has no visible effect, and thread safety of the symbol map itself; concurrency is modelled for one name.
- Fallback atoms of undefined atoms in `Groups` and `AtomResolver`, and searching archives to override tentative definitions.
- Shared libraries in the loop over the command line, and members listed by section groups a second time.
- Delay-load and export tables.
- The executor's thread pool: a queued task can start at any time.
- std::sort on a range of the parallel sort, which is any sequence of swaps that leaves the range sorted; of the exports, whose equal names may end up in any order.
- Sorting the entries of `.pdata` after the sections have been written.
- The 32-bit counter of the latch, and 64-bit overflow of addresses.
- SectionWriter.OutputSection.AddChunk: keeps the addresses of a section's chunks in lists of the section instead of fields of the chunks, so it does not model chunks shared between sections.
- SectionWriter.Writer.AssignAddresses: takes sections that hold their chunks already; the blocks of `.reloc` are those of ImageWriter.AddBaserels.
- ImageWriter.WriteImage: writes chunks at their addresses in memory instead of their file offsets, and takes the fill of code sections as part of the initial buffer.
- ImportTables.ReadBack: assumes that the tables start the section, names hold no zero byte, and addresses fit in 32 bits.
- ImageWriter.WriteTo: writes at the chunk's address in memory instead of its file offset.
- GroupResolver.Resolver.HandleFile: takes defined and undefined atoms only, so it says nothing of shared-library and absolute atoms.
- GroupResolver.Resolver.ResolveUndefines: takes input files that have been parsed, and no shared libraries.
- ArchiveDriven.SymbolTable.Converge: models the names of exports as a list, leaves out the option that suppresses default libraries, and promises nothing of which names have got weak aliases, since the last round can add names it does not look at again.
- ArchiveDriven.SymbolTable.Resolve: takes the default entry point as given, and the exports and definitions of the command line as part of the first state.
- ArchiveDriven.SymbolTable.GetWeakAlias: assumes that no alias is a lazy symbol.
- AtomTable.ChainsEndAtNames: assumes that every atom is added once.
- DefRoundTrip.RoundTrip: assumes export names that are plain words and no keywords, and a library name without quotes.
- ExportFixup.SaysExactlyWhen: leaves out lists that both repeat a name and hold a later name that starts with `@`, for which the two can agree by chance (`ExportFixup.AtNamesCanAgree`).
- ExportFixup.FileSaysWhatIsExported: leaves out the same lists.
