/** The tables of libelf: which entries a section type holds (libelf_data.c), the
    file alignment of an entry type (libelf_align.c) and its size in a file
    (libelf_fsize.m4 over elf_types.m4). */
module ElfFormat {
  import opened Basics
  import opened ElfModel
  import opened Alignment

  datatype ElfClass = Class32 | Class64

  const ELF_T_ADDR: ElfType := 0
  const ELF_T_BYTE: ElfType := BYTE_TYPE
  const ELF_T_CAP: ElfType := 2
  const ELF_T_DYN: ElfType := 3
  const ELF_T_EHDR: ElfType := 4
  const ELF_T_HALF: ElfType := 5
  const ELF_T_LWORD: ElfType := 6
  const ELF_T_MOVE: ElfType := 7
  const ELF_T_MOVEP: ElfType := 8
  const ELF_T_NOTE: ElfType := 9
  const ELF_T_OFF: ElfType := 10
  const ELF_T_PHDR: ElfType := 11
  const ELF_T_REL: ElfType := 12
  const ELF_T_RELA: ElfType := 13
  const ELF_T_SHDR: ElfType := 14
  const ELF_T_SWORD: ElfType := 15
  const ELF_T_SXWORD: ElfType := 16
  const ELF_T_SYMINFO: ElfType := 17
  const ELF_T_SYM: ElfType := 18
  const ELF_T_VDEF: ElfType := 19
  const ELF_T_VNEED: ElfType := 20
  const ELF_T_WORD: ElfType := 21
  const ELF_T_XWORD: ElfType := 22

  /** _libelf_xlate_shtype; `None` stands for -1. */
  function XlateShtype(sht: nat): Option<ElfType>
  {
    if sht == SHT_PROGBITS || sht == SHT_STRTAB || sht == SHT_NOBITS then Some(ELF_T_BYTE)
    else if sht == SHT_SYMTAB || sht == 11 then Some(ELF_T_SYM)
    else if sht == 14 || sht == 15 || sht == 16 then Some(ELF_T_ADDR)
    else if sht == 5 || sht == 17 || sht == 18 then Some(ELF_T_WORD)
    else if sht == 4 then Some(ELF_T_RELA)
    else if sht == 6 then Some(ELF_T_DYN)
    else if sht == 7 then Some(ELF_T_NOTE)
    else if sht == 9 then Some(ELF_T_REL)
    else if sht == 0x6ffffffa then Some(ELF_T_MOVE)
    else if sht == 0x6ffffffc then Some(ELF_T_SYMINFO)
    else if sht == 0x6ffffffd then Some(ELF_T_VDEF)
    else if sht == 0x6ffffffe then Some(ELF_T_VNEED)
    else None
  }

  /** _libelf_falign: 0 for types without an alignment. */
  function FAlign(t: ElfType, ec: ElfClass): nat
  {
    if t == ELF_T_BYTE then 1
    else if t == ELF_T_HALF || t == ELF_T_SYMINFO then 2
    else if t in {ELF_T_NOTE, ELF_T_SWORD, ELF_T_VDEF, ELF_T_VNEED, ELF_T_WORD} then 4
    else if t == ELF_T_LWORD || t == ELF_T_MOVE then 8
    else if t == ELF_T_SXWORD || t == ELF_T_XWORD then (if ec.Class32? then 0 else 8)
    else if t == ELF_T_MOVEP || t > ELF_T_XWORD then 0
    else if ec.Class32? then 4 else 8
  }

  /** _libelf_fsize of one entry: 0 for types without a file representation. */
  function FSize(t: ElfType, ec: ElfClass): nat
  {
    var c32 := ec.Class32?;
    if t == ELF_T_ADDR || t == ELF_T_OFF then (if c32 then 4 else 8)
    else if t == ELF_T_BYTE || t == ELF_T_NOTE then 1
    else if t == ELF_T_CAP || t == ELF_T_DYN || t == ELF_T_REL then (if c32 then 8 else 16)
    else if t == ELF_T_EHDR then (if c32 then 52 else 64)
    else if t == ELF_T_HALF then 2
    else if t == ELF_T_LWORD then 8
    else if t == ELF_T_MOVE then (if c32 then 20 else 28)
    else if t == ELF_T_PHDR then (if c32 then 32 else 56)
    else if t == ELF_T_RELA then (if c32 then 12 else 24)
    else if t == ELF_T_SHDR then (if c32 then 40 else 64)
    else if t == ELF_T_SWORD || t == ELF_T_SYMINFO || t == ELF_T_WORD then 4
    else if t == ELF_T_SXWORD || t == ELF_T_XWORD then (if c32 then 0 else 8)
    else if t == ELF_T_SYM then (if c32 then 16 else 24)
    else if t == ELF_T_VDEF then 20
    else if t == ELF_T_VNEED then 16
    else 0
  }

  /** How many members of each kind a structure has; addresses, offsets and extended words
      are as wide as the class. */
  datatype Parts = Parts(bytes: nat, halves: nat, words: nat, longs: nat, wide: nat)

  /** The structures of elf_types.m4; none for types that are no structures. */
  function StructOf(t: ElfType): Option<Parts>
  {
    if t == ELF_T_CAP || t == ELF_T_DYN || t == ELF_T_REL then Some(Parts(0, 0, 0, 0, 2))
    else if t == ELF_T_EHDR then Some(Parts(16, 8, 2, 0, 3))
    else if t == ELF_T_MOVE then Some(Parts(0, 2, 0, 1, 2))
    else if t == ELF_T_PHDR then Some(Parts(0, 0, 2, 0, 6))
    else if t == ELF_T_RELA then Some(Parts(0, 0, 0, 0, 3))
    else if t == ELF_T_SHDR then Some(Parts(0, 0, 4, 0, 6))
    else if t == ELF_T_SYM then Some(Parts(2, 1, 1, 0, 2))
    else if t == ELF_T_SYMINFO then Some(Parts(0, 2, 0, 0, 0))
    else if t == ELF_T_VDEF then Some(Parts(0, 4, 3, 0, 0))
    else if t == ELF_T_VNEED then Some(Parts(0, 2, 3, 0, 0))
    else None
  }

  /** Structures have no padding in a file: their sizes are those of their members. */
  lemma SizesAreSums(t: ElfType, ec: ElfClass)
    requires StructOf(t).Some?
    ensures var p := StructOf(t).value;
            FSize(t, ec) == p.bytes * FSize(ELF_T_BYTE, ec) + p.halves * FSize(ELF_T_HALF, ec)
                            + p.words * FSize(ELF_T_WORD, ec) + p.longs * FSize(ELF_T_LWORD, ec)
                            + p.wide * FSize(ELF_T_ADDR, ec)
    ensures FSize(ELF_T_OFF, ec) == FSize(ELF_T_ADDR, ec)
  {
  }

  /** Every entry that a section can hold has an alignment and a size. */
  lemma SectionEntriesHaveSizes(sht: nat, ec: ElfClass)
    requires XlateShtype(sht).Some?
    ensures FAlign(XlateShtype(sht).value, ec) > 0 && FSize(XlateShtype(sht).value, ec) > 0
  {
  }

  function EntryOf(t: ElfType, ec: ElfClass, msize: ElfType -> Pos): Entry
    requires FAlign(t, ec) > 0 && FSize(t, ec) > 0
  {
    Entry(t, FAlign(t, ec), FSize(t, ec), msize(t))
  }

  function SectionEntry(sht: nat, ec: ElfClass, msize: ElfType -> Pos): Option<Entry>
  {
    var t := XlateShtype(sht);
    if t == None then None
    else
      SectionEntriesHaveSizes(sht, ec);
      Some(EntryOf(t.value, ec, msize))
  }

  /** The format of one class of files, over the sizes in memory and the
      translators of the generated source. */
  function Tables(ec: ElfClass, msize: ElfType -> Pos, tofile: (ElfType, seq<Byte>) -> seq<Byte>,
                  ehdrBytes: Ehdr -> seq<Byte>, shdrBytes: Shdr -> seq<Byte>): Format
  {
    Format((sht: nat) => SectionEntry(sht, ec, msize),
           EntryOf(ELF_T_EHDR, ec, msize), EntryOf(ELF_T_PHDR, ec, msize), EntryOf(ELF_T_SHDR, ec, msize),
           tofile, ehdrBytes, shdrBytes)
  }

  /** A program header table placed right after the ELF header is aligned, so the
      library never leaves a gap between the two. */
  lemma HeadersArePacked(ec: ElfClass, msize: ElfType -> Pos, tofile: (ElfType, seq<Byte>) -> seq<Byte>,
                         ehdrBytes: Ehdr -> seq<Byte>, shdrBytes: Shdr -> seq<Byte>)
    ensures var f := Tables(ec, msize, tofile, ehdrBytes, shdrBytes);
            Roundup(f.ehdr.fsize, f.phdr.align) == f.ehdr.fsize
  {
    var f := Tables(ec, msize, tofile, ehdrBytes, shdrBytes);
    AlignedIsMod(f.ehdr.fsize, f.phdr.align);
    RoundupOfAligned(f.ehdr.fsize, f.phdr.align);
  }
}
