# Verified models of gem5-pard's bundled libraries and utilities

This project models, in Dafny, the parts of gem5-pard that carry an algorithm of their own: the layout and writing
of ELF files in the bundled libelf (`elf_update`, section numbering, `elf_strptr`, archives, descriptor lifetimes and
the intrusive queues underneath), the structure-block walk of the bundled libfdt, the 80-bit floating point
conversions of fputils, the Internet checksum of dnet, the mesh and torus topologies, and two Python utilities (the
print queue of the pipeline viewer and the checkpoint aggregator). `dafny verify dfyconfig.toml` checks all of it.

Each file is one module:

| module | what it is about |
|---|---|
| `Basics`, `Alignment` | shared types; rounding up, powers of two, divisibility, table sizes |
| `ElfModel`, `ElfFormat` | sections, headers and descriptors; the tables of entry types |
| `ElfLayout`, `SectionOrder`, `ElfResync` | the extents of one section; bringing the section list into file order |
| `ElfExtended`, `ElfImage`, `ElfWrite`, `ElfUpdate`, `ElfFile` | extended numbering; building the image; `elf_update`; what a written file contains |
| `ElfReread` | a written file read again |
| `ElfSections`, `ElfStrptr` | section numbers and lookup; string offsets |
| `TailQueue`, `ElfLifetime`, `ElfArchive` | the STAILQ macros; activations and parents; archive iteration |
| `DeviceTree`, `Fdt` | walking a device tree; its bytes |
| `Fp80`, `Checksum` | x87 conversions; the Internet checksum |
| `Topology`, `PipeView`, `Checkpoint` | Mesh.py and Torus.py; o3-pipeview.py; checkpoint_aggregator.py |

How the model stands to the source:

- A C `assert` that fails, a read or write outside a buffer, and a NULL dereference are the outcome `Crash`; a return of
  an error code is `Error` (or a constructor of its own). Contracts say when each can happen.
- Loops over lists and buffers are loops here, proved against functions on sequences; descriptors with fields that the
  source updates are classes. Arithmetic with two variables is written with functions that count in steps (`Roundup`,
  `Aligned`, `Times`); `RoundupFormula`, `AlignedIsMod` and `TimesIsProduct` tie them to the C expressions.
- I/O, memory mapping, allocation failure and the byte-order translators generated from `.m4` files are parameters.

Where the code does not do what its comments or its design promise, the code is modelled as it is, and a lemma or a
contract shows the difference, with the exact condition under which the promise holds where it depends on the input:

- Passive sections (SHT_NOBITS) with a large offset make the reinsertion search stop too early, so that a successful
  layout can be out of order: `TrapFails`, `SortedIffHarmless`.
- Adjacent sections found out of order are refused although they do not overlap: `AdjacentRefused`, `ResyncSucceeds`.
- A section that is refused may already have been taken off the list, and is then lost. Where passive sections end before
  the headers do, that happens exactly if the first section that neither follows the ones before it in the list nor
  keeps clear of them ends before the end of one of them; a passive section further on can make the search fail too:
  `ResyncSucceeds`, `ResyncSections`, `InnerIsLost`. Losing a section is the only way in which `elf_update`, short of a
  failed assertion, loses the numbering of the sections: `Update`, `LayOut`.
- With ELF_F_LAYOUT overlapping data descriptors are accepted, against the comment; the comment holds exactly where the
  library does the layout: `OverlapAccepted`, `OverlapsRefusedIff`.
- Sections change their numbers in the written file unless they were in file order: `NumbersLost`,
  `NumbersKeptIffInOrder`.
- The program header table is written behind the ELF header even where the header announces it later: `WritePhdrs`.
- A descriptor that needs extended section numbering, or whose sections have not been read in, is never written. If its
  layout is accepted, its file is open, there is something to write for every part of it, and the number of sections is
  plain, it fails the final assertion: `Update`, `OnlyCountable`.
- Sections can be looked up after a write, as the comment promises, exactly if they had never been read in, and so never
  after two or more have been written: `LookUpAfterWrite`, `WrittenWasComplete`.
- A member with a long name that comes first in an archive, or second behind another name with a slash, is taken for one
  of the archive's tables and not iterated over. An archive of one table and nothing else is refused, and of one of two
  tables a header is read past the end of the file: `LongNameIsSkipped`, `SkipsTablesIff`, `Members`.
- Program header counts above 0xffff, and string table indices in the reserved range other than 0xffff, are not read back
  when the number of sections is plain: `RoundTrip`, `PhnumLost`.
- Mixed alignments, or data without a buffer, make the two branches of `elf_strptr` disagree:
  `SameBytesIffAgreeable`, `MixedAlignmentsDisagree`.
- A property of length 0xfffffff4 keeps `fdt_next_node` from ending; without one it ends from everywhere:
  `AlwaysEndsIff`, `NeverEnds`.
- `fp80_cvfd` halves subnormal numbers, and `fp80_cvtd` does not truncate correctly below the normal range:
  `FromDoubleValue`, `ToSubnormalCorrect`.
- `ip_cksum_add` reads past a buffer of fewer than two bytes: `CksumAdd`.
- The checkpoint aggregator fills with the character zero, and places memory wrongly behind a short file: `Fill`,
  `LengthIffFull`.

## Model

| member | source | states |
|---|---|---|
| `Alignment.PowersAccepted` | gem5-pard/ext/libelf/elf_update.c:154-154 | what passes for a power of two is exactly a power of two |
| `ElfLayout.OffIsNext` | gem5-pard/ext/libelf/elf_update.c:164-173 | each descriptor goes to the first aligned offset behind its predecessor |
| `ElfLayout.OffsInOrder` | gem5-pard/ext/libelf/elf_update.c:164-173 | descriptors are placed in order and without overlap |
| `ElfLayout.LayoutIsTight` | gem5-pard/ext/libelf/elf_update.c:136-200 | offsets ascend, every descriptor is on its own alignment in the file, and the size is the end of the last one |
| `ElfLayout.AcceptedAlignments` | gem5-pard/ext/libelf/elf_update.c:136-160 | a section that is accepted is aligned to the largest alignment of its descriptors, all powers of two |
| `ElfLayout.PlacedIsTight` | gem5-pard/ext/libelf/elf_update.c:136-226 | a dirty section is placed at the first aligned offset at or past rc, tight around its descriptors |
| `ElfLayout.PlacedKeeps` | gem5-pard/ext/libelf/elf_update.c:74-226 | everything but place, size, alignment and entry size is kept; a given sh_entsize too, otherwise it is the size of an entry, or 0 for bytes; the alignment is that of a descriptor or the one asked for, and a multiple of it |
| `ElfLayout.AcceptedIff` | gem5-pard/ext/libelf/elf_update.c:136-190 | exactly which dirty sections are accepted, descriptor by descriptor, with and without ELF_F_LAYOUT |
| `ElfLayout.OverlapAccepted` | gem5-pard/ext/libelf/elf_update.c:56-58 | a section with two descriptors on the same byte that is accepted with ELF_F_LAYOUT |
| `ElfLayout.InOrderIff` | gem5-pard/ext/libelf/elf_update.c:136-200 | an accepted section has its descriptors in order exactly if the library placed them or the application had them so |
| `ElfLayout.OverlapsRefusedIff` | gem5-pard/ext/libelf/elf_update.c:56-58 | overlaps are refused in all sections, as the comment promises, exactly without ELF_F_LAYOUT |
| `ElfLayout.SectionAlignment` | gem5-pard/ext/libelf/elf_update.c:140-160 | the checking loop accepts exactly descriptors of the right type, version and alignment, and finds the largest alignment |
| `ElfLayout.MeasureData` | gem5-pard/ext/libelf/elf_update.c:164-168 | with ELF_F_LAYOUT, the largest end of a descriptor |
| `ElfLayout.PlaceData` | gem5-pard/ext/libelf/elf_update.c:169-173 | the descriptors at the offsets of the layout, and their end |
| `ElfLayout.ComputeSectionExtents` | gem5-pard/ext/libelf/elf_update.c:74-226 | an error exactly for a dirty section that is not acceptable; otherwise the section at its new extent and the new end |
| `SectionOrder.SearchStops` | gem5-pard/ext/libelf/elf_update.c:243-257 | the reinsertion search stops inside the part of the list already visited |
| `SectionOrder.PutBack` | gem5-pard/ext/libelf/elf_update.c:259-263 | putting a section back keeps the visited part in order with the same end |
| `SectionOrder.ResyncSorts` | gem5-pard/ext/libelf/elf_update.c:286-313 | a successful pass yields a permutation, in order, disjoint, with the largest end, if passive sections start by one byte past the headers or nothing has to be moved |
| `SectionOrder.UnmovedIffInOrder` | gem5-pard/ext/libelf/elf_update.c:286-313 | the order of the list is left alone exactly if it is the order of the file |
| `SectionOrder.InOrderStays` | gem5-pard/ext/libelf/elf_update.c:286-313 | a list in file order is accepted as it is, wherever its passive sections are, with the largest end |
| `SectionOrder.LosesMeansFails` | gem5-pard/ext/libelf/elf_update.c:297-307 | a section is lost only from a list of two or more that is refused |
| `SectionOrder.TrapFails` | gem5-pard/ext/libelf/elf_update.c:243-257 | for every passive section two or more bytes past the headers, a list that comes out unsorted |
| `SectionOrder.SortedIffHarmless` | gem5-pard/ext/libelf/elf_update.c:243-257 | a passive section leaves all results sorted exactly if it starts no later than one byte past the headers |
| `SectionOrder.ResyncSucceeds` | gem5-pard/ext/libelf/elf_update.c:286-313 | the pass succeeds exactly if every section follows all earlier ones or keeps a byte away from each; it loses a section exactly if the first that does neither ends before the end of an earlier one |
| `SectionOrder.InnerIsLost` | gem5-pard/ext/libelf/elf_update.c:297-307 | three sections of which the last is taken off the list and not put back |
| `SectionOrder.AdjacentRefused` | gem5-pard/ext/libelf/elf_update.c:243-257 | of any two sections that touch, the front one is lost when it is found behind the other |
| `ElfResync.FirstPassAccepts` | gem5-pard/ext/libelf/elf_update.c:281-284 | the first pass succeeds exactly if all dirty sections are acceptable |
| `ElfResync.FirstPassSettles` | gem5-pard/ext/libelf/elf_update.c:281-284 | afterwards private extents agree with headers, dirty sections are tight and past the headers, clean ones unchanged |
| `ElfResync.ComputeExtents` | gem5-pard/ext/libelf/elf_update.c:281-284 | the first loop computes the first pass; when it stops, the sections before the first unacceptable one are placed and the others as they were; section numbers stay |
| `ElfResync.InsertSection` | gem5-pard/ext/libelf/elf_update.c:233-264 | finds the place of a section, or an overlap |
| `ElfResync.ResortSections` | gem5-pard/ext/libelf/elf_update.c:286-313 | terminates and computes the second pass; the list is a permutation, or has lost one section and is refused, exactly if `Loses` holds |
| `ElfResync.LosesIffInner` | gem5-pard/ext/libelf/elf_update.c:297-307 | in terms of the extents of the first pass alone, exactly when a section is lost |
| `ElfResync.NewAreKept` | gem5-pard/ext/libelf/elf_update.c:266-318 | where the library places new sections only, the second pass neither refuses nor moves any |
| `ElfResync.ResyncCorrect` | gem5-pard/ext/libelf/elf_update.c:266-318 | for a presentable list both passes agree on the end of the sections, so the assertion nrc == rc holds, and the result is settled and arranged |
| `ElfResync.ResyncSections` | gem5-pard/ext/libelf/elf_update.c:266-318 | exactly when it is an error; on a presentable list no failed assertion, and on success a sorted, disjoint permutation with the largest end; the section numbers stay, or one is lost with an error, exactly by the walk, and by the extents alone where passive sections end before the headers do |
| `ElfFormat.HeadersArePacked` | gem5-pard/ext/libelf/elf_update.c:410-438 | the rounded-up place of the program header table is the end of the ELF header, in both classes |
| `ElfFormat.SizesAreSums` | gem5-pard/ext/libelf/libelf_fsize.m4:65-120 | the size of a structure in a file is the sum of the sizes of its members |
| `ElfExtended.RoundTrip` | gem5-pard/ext/libelf/libelf_ehdr.c:186-198 | counts written with the set functions are read back exactly if `Survives` holds |
| `ElfExtended.PhnumLost` | gem5-pard/ext/libelf/libelf_ehdr.c:193-196 | 65536 program headers in a file with ten sections are read back as 65535 |
| `ElfExtended.WhereCountsGo` | gem5-pard/ext/libelf/libelf_extended.c:46-132 | large counts leave their marks in the ELF header and go to sh_size, sh_link and sh_info; all other fields are kept |
| `ElfExtended.WhereCountsComeFrom` | gem5-pard/ext/libelf/libelf_ehdr.c:40-82 | the same for reading, with the headers that are refused |
| `ElfExtended.SetShnum` | gem5-pard/ext/libelf/libelf_extended.c:46-74 | the count in the header, or zero there and the count in section 0, which is made if the list is empty; fails if the first section is not section 0 |
| `ElfExtended.SetShstrndx` | gem5-pard/ext/libelf/libelf_extended.c:76-103 | the same for the string table index and sh_link |
| `ElfExtended.SetPhnum` | gem5-pard/ext/libelf/libelf_extended.c:105-132 | the same for program headers and sh_info |
| `ElfExtended.LoadCounts` | gem5-pard/ext/libelf/libelf_ehdr.c:40-82 | exactly when the counts can be read, and then those of the decoder |
| `ElfExtended.GetEhdr` | gem5-pard/ext/libelf/libelf_ehdr.c:98-201 | a header once there is returned unchanged; otherwise one of the class of the descriptor is made, or it is read in with the counts, exactly if both can be read and are in the file |
| `ElfImage.PieceAt` | gem5-pard/ext/libelf/elf_update.c:544-596 | every piece of an ascending image is found at its place |
| `ElfImage.FillElsewhere` | gem5-pard/ext/libelf/elf_update.c:615-617 | every byte outside the pieces is the fill character |
| `ElfImage.Put` | gem5-pard/ext/libelf/elf_update.c:572-596 | filling up to a piece and writing it extends the image by that piece |
| `ElfWrite.WriteRaw` | gem5-pard/ext/libelf/elf_update.c:544-559 | an untouched section is copied from s_rawoff of the original file to its offset |
| `ElfWrite.WriteData` | gem5-pard/ext/libelf/elf_update.c:570-596 | the data descriptors of a section, translated, at their places; an error exactly if one is empty |
| `ElfWrite.WriteScn` | gem5-pard/ext/libelf/elf_update.c:501-600 | for a writable section no assertion fails, and its pieces are added to the image unless there is nothing to write |
| `ElfWrite.WritePhdrs` | gem5-pard/ext/libelf/elf_update.c:708-721 | the table at the end of the ELF header, then fill up to the place announced, then bytes that stay unwritten, exactly when that place is another one |
| `ElfWrite.WriteHeaders` | gem5-pard/ext/libelf/elf_update.c:664-722 | the ELF header and the program header table in the image, or exactly when it is an error |
| `ElfWrite.ArrangedAreReady` | gem5-pard/ext/libelf/elf_update.c:724-730 | sections arranged by the layout each start at or past what has been written before them |
| `ElfWrite.WriteSections` | gem5-pard/ext/libelf/elf_update.c:724-730 | the pieces of all sections in the image, or an error exactly if one has nothing to write |
| `ElfWrite.WriteTable` | gem5-pard/ext/libelf/elf_update.c:736-767 | one entry for each section of the list, from shoff on |
| `ElfWrite.BuildImage` | gem5-pard/ext/libelf/elf_update.c:619-772 | for a ready layout no assertion fails and the image is exactly headers, sections, table and fill; exactly when it is an error; a finished image has the size of the layout |
| `ElfWrite.HeldBytes` | gem5-pard/ext/libelf/elf_update.c:774-797 | an image that is held has every byte set, to the bytes of its rendering |
| `ElfUpdate.PlacePhdrs` | gem5-pard/ext/libelf/elf_update.c:410-438 | the first aligned place past the header, or where the application put the table, and the end of it; or exactly which offsets are refused |
| `ElfUpdate.PlaceShdrs` | gem5-pard/ext/libelf/elf_update.c:448-471 | the same for the section header table past the sections, and the size of the file |
| `ElfUpdate.BreaksIffInner` | gem5-pard/ext/libelf/elf_update.c:320-445 | a layout loses a section exactly if its headers are accepted and the first section that neither follows the earlier ones nor keeps clear of them ends before the end of one |
| `ElfUpdate.ResyncElf` | gem5-pard/ext/libelf/elf_update.c:320-495 | from the header that was there, a new one or the one in the file: exactly when it is an error; on presentable sections no failed assertion, and a complete layout; the header gets the sizes of its entries and keeps class, byte order, version and string table; section numbers stay unless `Breaks` holds |
| `ElfUpdate.NewHeaderAccepted` | gem5-pard/ext/libelf/elf_update.c:355-378 | a header made by the library passes the checks of the layout |
| `ElfUpdate.PlacedIsWritable` | gem5-pard/ext/libelf/elf_update.c:526-529 | a section that the library has placed meets the assertions of the writer |
| `ElfUpdate.LaidOutIsReady` | gem5-pard/ext/libelf/elf_update.c:61-62 | after a successful layout the descriptor is ready to be written |
| `ElfUpdate.LaidOutStaysGiven` | gem5-pard/ext/libelf/elf_update.c:531-596 | a layout neither adds contents to sections nor takes them away |
| `ElfUpdate.OnlyCountable` | gem5-pard/ext/libelf/elf_update.c:772-772 | rc == newsize only if the number of sections is that of the list and needs no extended numbering |
| `ElfUpdate.WriteElf` | gem5-pard/ext/libelf/elf_update.c:619-832 | the image of the laid-out descriptor, or exactly when it is an error, and the descriptor emptied afterwards |
| `ElfUpdate.Update` | gem5-pard/ext/libelf/elf_update.c:834-885 | after success the header has the entry sizes of its class, its own class, byte order, version and string table index, and the table offsets; section numbers stay, or one is lost with an error, exactly if `Breaks` holds; for a compliant descriptor exactly when it is an error, for a countable one no failed assertion, and a file written has every byte from headers, tables, sections or fill, and the size returned; others with sections are not written |
| `ElfFile.DescriptorInFile` | gem5-pard/ext/libelf/elf_update.c:570-596 | every data descriptor is in the file at the offset of its section plus its own |
| `ElfFile.RawSectionInFile` | gem5-pard/ext/libelf/elf_update.c:531-562 | an untouched section is in the file at its offset, with the bytes of the original from s_rawoff on |
| `ElfFile.HeadersInFile` | gem5-pard/ext/libelf/elf_update.c:664-767 | the headers are where they are announced, and table entry k is the header of section k of the list |
| `ElfFile.GapsFilled` | gem5-pard/ext/libelf/elf_update.c:615-617 | every other byte is the fill character |
| `ElfFile.NumbersKeptIffInOrder` | gem5-pard/ext/libelf/elf_update.c:752-766 | sections keep their numbers in the file exactly if they were in file order |
| `ElfFile.NumbersLost` | gem5-pard/ext/libelf/elf_update.c:752-766 | three untouched sections of which two swap numbers |
| `ElfReread.WrittenIsReadable` | gem5-pard/ext/libelf/elf_scn.c:40-70 | the headers in a written file are those of the layout, and the file passes the checks before its table is read |
| `ElfReread.RawReread` | gem5-pard/ext/libelf/elf_update.c:531-562 | where the new header says, an untouched section has the bytes that it had in the original |
| `ElfReread.DataReread` | gem5-pard/ext/libelf/elf_update.c:570-596 | where the new header says plus its offset, each data descriptor has its translated data |
| `ElfReread.UntouchedSurvives` | gem5-pard/ext/libelf/elf_scn.c:100-112 | a section read in and not modified has, in the same place, the bytes that its header in the original spoke of |
| `ElfReread.ReadAgain` | gem5-pard/ext/libelf/elf_scn.c:122-149 | section k of a file that has just been opened is entry k of its table |
| `ElfReread.WriteAndRead` | gem5-pard/ext/libelf/elf_update.c:834-885 | for a compliant descriptor with sections, after elf_update, elf_getscn on the new file finds section k of the layout under number k, for every k, and nothing else |
| `ElfSections.IndexedHolds` | gem5-pard/ext/libelf/elf_scn.c:143-145 | in an indexed list, number i is found exactly if i is below the count |
| `ElfSections.IndexedOnce` | gem5-pard/ext/libelf/elf_scn.c:143-145 | no two sections have the same number |
| `ElfSections.LoadScns` | gem5-pard/ext/libelf/elf_scn.c:40-119 | loads the sections in order, each with its header, where that says, and unmodified; the list becomes indexed; exactly when it is an error and when the assertion on section 0 fails |
| `ElfSections.GetScn` | gem5-pard/ext/libelf/elf_scn.c:122-149 | succeeds exactly for numbers below e_nscn, with the section of that number |
| `ElfSections.NewScn` | gem5-pard/ext/libelf/elf_scn.c:161-214 | appends an empty dirty section with the next number and keeps the list of a consistent descriptor indexed; if that is written only, or has its header and sections read in, no error, and the assertion fails exactly if it has a section 0 and counts none |
| `ElfSections.LayOut` | gem5-pard/ext/libelf/elf_update.c:861-865 | a consistent descriptor stays consistent; after an error, exactly if no section was lost |
| `ElfSections.WriteFile` | gem5-pard/ext/libelf/elf_update.c:861-885 | a consistent, compliant descriptor of two or more sections that is written had them read in, and is emptied |
| `ElfSections.LookUpAfterWrite` | gem5-pard/ext/libelf/elf_update.c:798-807 | after a successful write elf_getscn finds a section exactly if the list had not been read in and the number is below the count; after two or more sections it finds none |
| `ElfSections.WrittenWasComplete` | gem5-pard/ext/libelf/elf_update.c:772-772 | a consistent descriptor that is countable with two or more sections has its sections read in |
| `ElfStrptr.SeekByCount` | gem5-pard/ext/libelf/elf_strptr.c:88-129 | a pointer exactly to the byte that the running count designates, and otherwise NULL, in holes and past the data |
| `ElfStrptr.SeekByOffset` | gem5-pard/ext/libelf/elf_strptr.c:66-86 | the first descriptor whose range has the offset, or NULL |
| `ElfStrptr.Strptr` | gem5-pard/ext/libelf/elf_strptr.c:42-134 | both branches, behind the checks of type and size |
| `ElfStrptr.CountedOnce` | gem5-pard/ext/libelf/elf_strptr.c:96-128 | no offset designates two bytes |
| `ElfStrptr.CountMeans` | gem5-pard/ext/libelf/elf_strptr.c:96-128 | the count goes to the next multiple of each alignment above one and then past the bytes; empty descriptors do not count |
| `ElfStrptr.SameBytesIffAgreeable` | gem5-pard/ext/libelf/elf_strptr.c:88-129 | the running count agrees with the layout, and so with the other branch, exactly if data is present and alignments leave the same gaps |
| `ElfStrptr.SharedAlignmentAgrees` | gem5-pard/ext/libelf/elf_strptr.c:88-93 | with one alignment and no missing data they agree |
| `ElfStrptr.MixedAlignmentsDisagree` | gem5-pard/ext/libelf/elf_strptr.c:88-129 | three descriptors on which they do not |
| `TailQueue.Queue.Init` | gem5-pard/ext/libelf/elf_queue.h:249-252 | the empty sequence, with the last slot in the head |
| `TailQueue.Queue.InsertHead` | gem5-pard/ext/libelf/elf_queue.h:260-264 | the element in front |
| `TailQueue.Queue.InsertTail` | gem5-pard/ext/libelf/elf_queue.h:266-270 | the element at the end |
| `TailQueue.Queue.InsertAfter` | gem5-pard/ext/libelf/elf_queue.h:254-258 | the element behind the given one |
| `TailQueue.Queue.RemoveHead` | gem5-pard/ext/libelf/elf_queue.h:295-299 | the sequence without its first element |
| `TailQueue.Queue.Remove` | gem5-pard/ext/libelf/elf_queue.h:280-293 | the sequence without the given element; only its predecessor is written |
| `TailQueue.Queue.Concat` | gem5-pard/ext/libelf/elf_queue.h:226-232 | the two sequences in one, and the other queue empty |
| `TailQueue.Queue.Last` | gem5-pard/ext/libelf/elf_queue.h:272-276 | the last element, or NULL |
| `TailQueue.Queue.ForEach` | gem5-pard/ext/libelf/elf_queue.h:238-241 | visits the elements in order |
| `TailQueue.Queue.ReleaseAll` | gem5-pard/ext/libelf/libelf_allocate.c:185-202 | safe iteration with removal visits every element once and leaves the queue empty |
| `ElfLifetime.RemainingIsHeld` | gem5-pard/ext/libelf/elf_end.c:50-82 | releasing up the chain of parents leaves exactly what an activation or a member holds |
| `ElfLifetime.AllReleased` | gem5-pard/ext/libelf/elf_end.c:36-85 | when every activation handed out is closed, no descriptor is left |
| `ElfLifetime.Session.Allocate` | gem5-pard/ext/libelf/libelf_ar.c:311-321 | a new descriptor, counted at its parent |
| `ElfLifetime.Session.Begin` | gem5-pard/ext/libelf/elf_begin.c:82-154 | a new object, a new member, or one more activation; NULL exactly for members and archives opened for writing, another file or command, and where no object is found, as behind the last member |
| `ElfLifetime.Session.End` | gem5-pard/ext/libelf/elf_end.c:36-85 | closes one activation; a descriptor is released exactly when nothing holds it, and counters stay right |
| `ElfLifetime.Session.ReleaseFrom` | gem5-pard/ext/libelf/elf_end.c:50-82 | the loop touches live descriptors only and ends by the depth of the parent chain |
| `ElfArchive.GetNumber` | gem5-pard/ext/libelf/libelf_ar.c:76-107 | leading blanks, digits up to a blank or a digit of another base, and an error for anything else |
| `ElfArchive.NumberInverts` | gem5-pard/ext/libelf/libelf_ar.c:76-107 | a number printed with blanks around it is read back, in every base up to ten |
| `ElfArchive.NumberMeans` | gem5-pard/ext/libelf/libelf_ar.c:76-107 | any field is the value of its run of digits, and an error exactly if the run ends with neither a blank nor a digit |
| `ElfArchive.PrintedSizeRight` | gem5-pard/ext/libelf/libelf_ar.c:302-305 | a size field printed in decimal with blanks behind it is read as the size of the member |
| `ElfArchive.ConcatenationIsArchive` | gem5-pard/ext/libelf/libelf_ar.c:340-341 | the magic string and valid members one behind the other make an archive |
| `ElfArchive.ArchiveIsReadable` | gem5-pard/ext/libelf/libelf_ar.c:279-321 | in an archive of valid members every header is found where the one before it leads |
| `ElfArchive.RangeHoldsData` | gem5-pard/ext/libelf/libelf_ar.c:301-312 | the range of a member holds its contents |
| `ElfArchive.Open` | gem5-pard/ext/libelf/libelf_ar.c:323-394 | iteration starts behind the members with a slash among the first two; an archive of one table is refused |
| `ElfArchive.TableNames` | gem5-pard/ext/libelf/libelf_ar.c:374-381 | the tables are the members whose names begin with "/ " or "// " |
| `ElfArchive.SkipsTablesIff` | gem5-pard/ext/libelf/libelf_ar.c:343-390 | the members skipped are the tables, by their names "/ " and "// ", exactly if the tables are in front, at most two, and the member behind them is the third or has no slash |
| `ElfArchive.LongNameIsSkipped` | gem5-pard/ext/libelf/libelf_ar.c:362-363 | a member "/0" behind the table of long names is skipped as if it were a table |
| `ElfArchive.OpenMember` | gem5-pard/ext/libelf/libelf_ar.c:279-321 | the range of the member, and the even offset of the next one or zero |
| `ElfArchive.Iterate` | gem5-pard/ext/libelf/elf_next.c:53-56 | exactly the members from the given one on, in order, then the end; offsets are even and grow for every file |
| `ElfArchive.OrdinaryIff` | gem5-pard/ext/libelf/libelf_ar.c:343-390 | the members from the first not skipped are all the ordinary ones and no others exactly if the tables can be told apart |
| `ElfArchive.Members` | gem5-pard/ext/libelf/libelf_ar.c:279-394 | opening and iterating yields exactly the ordinary members in order exactly if the tables can be told apart; with tables only it fails |
| `DeviceTree.WalkItems` | gem5-pard/ext/libfdt/fdt.c:140-178 | the contents of a node are walked in preorder, with properties and NOPs passed over |
| `DeviceTree.WalkTree` | gem5-pard/ext/libfdt/fdt.c:140-178 | from the root with depth 0, every node in preorder with its depth, and then depth -1 |
| `DeviceTree.PreorderAscends` | gem5-pard/ext/libfdt/fdt.c:140-178 | the walk meets as many places as there are nodes, at ascending offsets |
| `DeviceTree.SerializedIsLaid` | gem5-pard/ext/libfdt/fdt.c:72-120 | the tokens of a serialized tree are those of the tree |
| `Fdt.OffsetPtrIsBounds` | gem5-pard/ext/libfdt/fdt.c:56-70 | the test with 32-bit wrap-around accepts exactly ranges inside the block |
| `Fdt.ReadTag` | gem5-pard/ext/libfdt/fdt.c:72-120 | the tag and the offset of the next one, or END and the error code |
| `Fdt.TagErrors` | gem5-pard/ext/libfdt/fdt.c:72-120 | which error is returned for which words: one past the end of the block, another for what is malformed |
| `Fdt.TagAdvances` | gem5-pard/ext/libfdt/fdt.c:72-120 | next offsets are aligned, and later than the tag except for a property of length 0xfffffff4 |
| `Fdt.LoopEnds` | gem5-pard/ext/libfdt/fdt.c:140-178 | without a property of length 0xfffffff4 at any word, the loop ends wherever it starts |
| `Fdt.WrapNeverEnds` | gem5-pard/ext/libfdt/fdt.c:98-104 | from a word that begins such a property it does not end |
| `Fdt.AlwaysEndsIff` | gem5-pard/ext/libfdt/fdt.c:140-178 | the loop ends from every word exactly if no word begins such a property |
| `Fdt.WhereItEnds` | gem5-pard/ext/libfdt/fdt.c:165-172 | at the end of the tree, and without depths at the end of the block, nothing is found; other errors are passed on |
| `Fdt.BadOffsetIff` | gem5-pard/ext/libfdt/fdt.c:122-149 | an offset is bad exactly if it is not negative and no node begins there |
| `Fdt.NextNode` | gem5-pard/ext/libfdt/fdt.c:122-178 | ends with the result and the depth of the scan, or does not end exactly if the scan does not; it ends in every block without a property that wraps |
| `Fdt.BlockUnderstood` | gem5-pard/ext/libfdt/fdt.c:72-120 | fdt_next_tag reads back every part of a serialized tree |
| `Fdt.WalkBlock` | gem5-pard/ext/libfdt/fdt.c:140-178 | on the bytes of any tree, every node once in preorder with its depth, then past the root with depth -1 |
| `Fdt.WalkBlockUncounted` | gem5-pard/ext/libfdt/fdt.c:140-178 | without depths the walk ends with -FDT_ERR_NOTFOUND |
| `Fdt.WalkFromStart` | gem5-pard/ext/libfdt/fdt.c:140-178 | from a negative offset with depth -1 the walk begins with the root, and goes on as from the root |
| `Fdt.WalkFromStartUncounted` | gem5-pard/ext/libfdt/fdt.c:140-178 | the same without depths |
| `Fdt.NeverEnds` | gem5-pard/ext/libfdt/fdt.c:98-104 | eight bytes on which fdt_next_node does not end |
| `Fp80.Cvfd` | gem5-pard/ext/fputils/fp80.c:204-237 | the normalising loop ends, and the result is the normalised number |
| `Fp80.RoundTrip` | gem5-pard/ext/fputils/fp80.c:167-237 | every double that is not a NaN survives bit by bit |
| `Fp80.NanRoundTrip` | gem5-pard/ext/fputils/fp80.c:190-201 | NaNs keep their sign and their class |
| `Fp80.NansAreCanonical` | gem5-pard/ext/fputils/fp80.c:190-201 | each class of NaNs is converted to one pattern of bits |
| `Fp80.FromDoubleClass` | gem5-pard/ext/fputils/fp80.c:150-165 | conversion up keeps the class, subnormal numbers becoming normal |
| `Fp80.FromDoubleValue` | gem5-pard/ext/fputils/fp80.c:204-237 | conversion up keeps the value exactly unless the number is subnormal, and then halves it |
| `Fp80.ToDoubleTruncates` | gem5-pard/ext/fputils/fp80.c:172-181 | in the normal range, the next double towards zero, with the same sign |
| `Fp80.ToDoubleMonotone` | gem5-pard/ext/fputils/fp80.c:172-181 | the order of signed numbers is kept across the normal range |
| `Fp80.ToDoubleSaturates` | gem5-pard/ext/fputils/fp80.c:186-189 | infinity of the same sign exactly for normalised numbers of 2^1024 and more |
| `Fp80.ToSubnormalCorrect` | gem5-pard/ext/fputils/fp80.c:182-185 | below it, exactly which numbers are truncated correctly |
| `Checksum.CksumAdd` | gem5-pard/ext/dnet/ip.h:427-476 | Duff's device adds all words and the padded odd byte; with fewer than two bytes it reads past the buffer |
| `Checksum.OddIsPadded` | gem5-pard/ext/dnet/ip.h:472-473 | an odd byte counts as if a zero byte followed it |
| `Checksum.WorkedExample` | gem5-pard/ext/dnet/ip.h:427-483 | the numerical example of section 3 of RFC 1071, in both byte orders |
| `Checksum.NoOverflow` | gem5-pard/ext/dnet/ip.h:427-476 | the accumulator stays below 2^31 for every packet |
| `Checksum.FoldUnique` | gem5-pard/ext/dnet/ip.h:478-483 | the folded sum is the one number from 1 to 65535 congruent to the sum |
| `Checksum.CarryNegates` | gem5-pard/ext/dnet/ip.h:478-483 | sum and checksum add up to a multiple of 65535 |
| `Checksum.ChecksumVerifies` | gem5-pard/ext/dnet/ip.h:427-483 | with the checksum in its field, the checksum of a packet is zero |
| `Checksum.ByteOrderIndependent` | gem5-pard/ext/dnet/ip.h:427-483 | hosts of either byte order compute the same bytes (section 2 of RFC 1071) |
| `Topology.MeshLinks` | gem5-pard/configs/topologies/Mesh.py:92-117 | the loops build the links of a mesh |
| `Topology.TorusLinks` | gem5-pard/configs/topologies/Torus.py:97-129 | the loops build the links of a torus |
| `Topology.LinksNumbered` | gem5-pard/configs/topologies/Mesh.py:59-104 | the internal links are numbered consecutively from where the counter stands |
| `Topology.RowLinkAt` | gem5-pard/configs/topologies/Mesh.py:92-104 | which link along a row has which number and which ends, in mesh and torus |
| `Topology.ColLinkAt` | gem5-pard/configs/topologies/Mesh.py:106-115 | the same along the columns |
| `Topology.LinksWeigh` | gem5-pard/configs/topologies/Torus.py:97-129 | a link weighs 1 exactly if its routers are in one row, and 2 otherwise |
| `Topology.LinkedIffAdjacent` | gem5-pard/configs/topologies/Mesh.py:92-117 | routers are linked exactly if they are neighbours |
| `Topology.PathsAreLong` | gem5-pard/configs/topologies/Torus.py:97-129 | no path is shorter than the sum of the distances along row and column |
| `Topology.RouteIsPath` | gem5-pard/configs/topologies/Torus.py:97-129 | and one path is as short, so every router reaches every other |
| `Topology.RouterIds` | gem5-pard/configs/topologies/Mesh.py:98-99 | the number of a router determines its row and column |
| `Topology.ExtLinks` | gem5-pard/configs/topologies/Mesh.py:64-88 | every controller in turn at router i mod n, the remaining ones at router 0, numbered consecutively; so many of the links lead to each router |
| `Topology.EvenlySpread` | gem5-pard/configs/topologies/Mesh.py:49-79 | whole rounds give every router the same number of controllers |
| `Topology.AllSpread` | gem5-pard/configs/topologies/Mesh.py:49-88 | of the links built, every router has the quotient, and router 0 the remainder as well |
| `Topology.NetworkNumbered` | gem5-pard/configs/topologies/Mesh.py:59-117 | the counter runs on from external to internal links, so all link numbers of a network are distinct |
| `Topology.MakeTopology` | gem5-pard/configs/topologies/Mesh.py:42-117 | a network exactly if the routers fill that many rows; its external and internal links, all with different numbers |
| `PipeView.SortInOrder` | gem5-pard/util/o3-pipeview.py:153-155 | the queue is sorted by sequence number |
| `PipeView.SortIsStable` | gem5-pard/util/o3-pipeview.py:169-169 | and stably |
| `PipeView.OutputPermutes` | gem5-pard/util/o3-pipeview.py:159-171 | every instruction leaves the queue exactly once |
| `PipeView.StepCounts` | gem5-pard/util/o3-pipeview.py:159-171 | nothing leaves the queue up to max_threshold; above it, all but min_threshold do, and the two parts are the sorted queue |
| `PipeView.SortedIffInTime` | gem5-pard/util/o3-pipeview.py:47-52 | the output is the sorted input, and is in order at all, exactly if every instruction is in time |
| `PipeView.PoppedAreSmallest` | gem5-pard/util/o3-pipeview.py:167-171 | then each flush takes exactly the globally smallest instructions |
| `PipeView.BoundedDisorderSorts` | gem5-pard/util/o3-pipeview.py:51-52 | it does if no instruction arrives more than min_threshold places after its rank |
| `PipeView.Viewer.PrintInsts` | gem5-pard/util/o3-pipeview.py:167-188 | sorts, takes instructions down to the threshold, and prints those inside the limits |
| `PipeView.ShownOfConcat` | gem5-pard/util/o3-pipeview.py:170-188 | filtering keeps the order and looks at each instruction alone |
| `PipeView.LimitsAreInclusive` | gem5-pard/util/o3-pipeview.py:176-187 | instructions at a limit are shown, those next to it are not |
| `PipeView.Viewer.QueueInst` | gem5-pard/util/o3-pipeview.py:159-164 | one more arrival, with a flush above max_threshold |
| `PipeView.Viewer.ProcessTrace` | gem5-pard/util/o3-pipeview.py:126-150 | the file gets what the limits let through of the whole output |
| `Checkpoint.LengthIffFull` | gem5-pard/util/checkpoint_aggregator.py:97-112 | the merged memory ends where its pages end exactly if no memory file is short |
| `Checkpoint.ByteRelocated` | gem5-pard/util/checkpoint_aggregator.py:72-112 | byte a of checkpoint i is at a plus its page pointer times 4096 |
| `Checkpoint.AddressesFollow` | gem5-pard/util/checkpoint_aggregator.py:72-112 | every relocated address leads to the byte that it led to in its checkpoint |
| `Checkpoint.RelocationsDisjoint` | gem5-pard/util/checkpoint_aggregator.py:72-77 | addresses of different checkpoints stay apart |
| `Checkpoint.MaxTickIsMaximum` | gem5-pard/util/checkpoint_aggregator.py:84-87 | curTick is the largest tick, or zero |
| `Checkpoint.CopyPages` | gem5-pard/util/checkpoint_aggregator.py:105-112 | copies the pages of a memory file, as far as it goes |
| `Checkpoint.Fill` | gem5-pard/util/checkpoint_aggregator.py:121-129 | whole pages of the character zero, just enough for the memory size |
| `Checkpoint.Aggregate` | gem5-pard/util/checkpoint_aggregator.py:44-139 | memory, relocated addresses, page pointer, curTick, and range_size, which is the length of the memory exactly if no file is short |

## Left out

- Aliasing of section and data descriptor handles: sections and descriptors are values in the lists of a descriptor, so a
  handle that an application keeps across calls is not modelled; `TailQueue` covers the in-place lists on their own.
- Sizes and offsets of ELF files are unbounded numbers: the truncation of sh_offset, sh_size and the like to 32 bits for
  ELFCLASS32, and wrap-around of 64-bit sums, are not modelled (the 32-bit sh_size, sh_link and sh_info of extended
  numbering are).
- ElfResync.ResyncSections: promises no order where passive sections past the headers have been passed over in moving a
  section, because there is none to promise (`TrapFails`).
- ElfUpdate.WriteElf: takes write(2), lseek(2), munmap(2) and mmap(2) to succeed.
- ElfUpdate.Update: promises a file only for compliant descriptors, whose buffers are present and whose entries have the
  same size in memory and in the file, as the writer's assertions demand, and whose SHT_NOBITS sections are out of the
  way unless nothing has to be moved.
- ElfSections.LoadScns: the translation of section headers is a parameter.
- ElfReread.WriteAndRead: the headers written are those that the translators of the generated source give back unchanged,
  which is assumed of the headers at hand.
- ElfStrptr.Strptr: takes the section and its data descriptors as given; elf_getdata's reading of data from the file is not
  modelled.
- ElfLifetime.Session.Begin: whether an object is found, and whether file and command match, are parameters; ELF_C_WRITE,
  which makes a descriptor without a file, is left out.
- ElfArchive.Iterate: yields ranges; opening each member as an ELF object, long member names and the archive symbol table
  are not modelled.
- Fdt.NextNode: returns where the source goes round for ever, with `ends` false.
- Fdt.ReadTag: version 17 and structure blocks below 2^31 bytes only; older versions have no bounds checks at all.
- Fp80.RoundTrip: shifts by 64 or more leave zero here, while C leaves them undefined; fp80_cvtd makes such a shift for zero
  and for very small numbers.
- PipeView.Viewer.ProcessTrace: the parsing of trace lines, the search for the start and the early stop at a tick or
  sequence number (whose call of print_insts lacks an argument) are not modelled.
- Topology.ExtLinks: that left-over controllers are DMA controllers is asserted by the source and not modelled.
- Checkpoint.Aggregate: the copying of other configuration sections and compression are not modelled.
- The simulator itself, the statistics and plotting scripts, and the parts of libelf and libfdt that only convert, get or
  set single fields.
