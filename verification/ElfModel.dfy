/** The data model of libelf: entry types and their file sizes and alignments,
    section headers, data descriptors, sections and the ELF descriptor itself.
    The descriptor is a class whose fields the operations update; its section list
    is a `seq` field (the TailQueue module shows that the links refine sequences). */
module ElfModel {
  import opened Basics

  /** How a call ends: a value, an error return, or a failed assertion or wild access. */
  datatype Outcome = Done(rc: nat) | Error | Crash

  /** Elf_Type: a number of the enumeration in libelf.h. */
  type ElfType = nat

  const BYTE_TYPE: ElfType := 1

  const EV_CURRENT: nat := 1

  const SHT_NULL: nat := 0
  const SHT_PROGBITS: nat := 1
  const SHT_SYMTAB: nat := 2
  const SHT_STRTAB: nat := 3
  const SHT_NOBITS: nat := 8

  const SHN_LORESERVE: nat := 0xff00
  const SHN_XINDEX: nat := 0xffff
  const PN_XNUM: nat := 0xffff

  type Pos = x: nat | x > 0 witness 1

  /** What the tables of the library say about an entry type: its number, its
      alignment and size in a file, and its size in memory. */
  datatype Entry = Entry(typ: ElfType, align: Pos, fsize: Pos, msize: Pos)

  /** The tables and translators of the library for one class of files.  ElfFormat
      gives the tables; the translators and sizes in memory are generated source. */
  datatype Format = Format(
    entry: nat -> Option<Entry>,                    // by section type
    ehdr: Entry, phdr: Entry, shdr: Entry,
    tofile: (ElfType, seq<Byte>) -> seq<Byte>,
    ehdrBytes: Ehdr -> seq<Byte>,
    shdrBytes: Shdr -> seq<Byte>)

  function Max(a: nat, b: nat): nat {
    if a < b then b else a
  }

  // ------------------------------------------------------------------ entities

  /** Elf32_Shdr and Elf64_Shdr. */
  datatype Shdr = Shdr(name: nat, typ: nat, flags: nat, addr: nat, offset: nat, size: nat,
                       link: nat, info: nat, addralign: nat, entsize: nat)

  const ZERO_SHDR := Shdr(0, SHT_NULL, 0, 0, 0, 0, 0, 0, 0, 0)

  /** Elf32_Ehdr and Elf64_Ehdr, without the members that the library only copies. */
  datatype Ehdr = Ehdr(klass: nat, data: nat, version: nat, phoff: nat, shoff: nat,
                       ehsize: nat, phentsize: nat, shentsize: nat,
                       phnum: nat, shnum: nat, shstrndx: nat)

  /** A raw descriptor: a range of the original file, relative to the section. */
  datatype RawDesc = RawDesc(off: nat, size: nat)

  /** Elf_Data: a data descriptor.  A missing buffer is `None`. */
  datatype Desc = Desc(off: nat, size: nat, align: nat, typ: ElfType, version: nat, buf: Option<seq<Byte>>)

  /** Elf_Scn: a section, with its list of descriptors. */
  datatype Scn = Scn(ndx: nat, hdr: Shdr, dirty: bool, offset: nat, rawoff: nat, size: nat,
                     raw: seq<RawDesc>, descs: seq<Desc>)

  /** How many sections of a list have the number `i`. */
  ghost function Count(ss: seq<Scn>, i: nat): nat
  {
    if ss == [] then 0
    else Count(ss[..|ss| - 1], i) + (if ss[|ss| - 1].ndx == i then 1 else 0)
  }

  /** The sections of the list are numbered from 0 to `n` - 1, each number once. */
  ghost predicate Indexed(ss: seq<Scn>, n: nat)
  {
    forall i {:trigger Count(ss, i)} :: 0 <= i ==> Count(ss, i) == if i < n then 1 else 0
  }

  ghost predicate SameNumbers(a: seq<Scn>, b: seq<Scn>)
  {
    |a| == |b| && forall i {:trigger Count(b, i)} :: 0 <= i ==> Count(a, i) == Count(b, i)
  }

  lemma {:induction false} CountOfConcat(a: seq<Scn>, b: seq<Scn>, i: nat)
    ensures Count(a + b, i) == Count(a, i) + Count(b, i)
  {
    if b == [] {
      assert a + b == a;
    } else {
      assert (a + b)[..|a + b| - 1] == a + b[..|b| - 1];
      CountOfConcat(a, b[..|b| - 1], i);
    }
  }

  lemma CountAppend(a: seq<Scn>, s: Scn, i: nat)
    ensures Count(a + [s], i) == Count(a, i) + if s.ndx == i then 1 else 0
  {
    assert (a + [s])[..|a|] == a;
  }

  lemma CountWithout(ss: seq<Scn>, k: nat, i: nat)
    requires k < |ss|
    ensures Count(ss, i) == Count(ss[..k] + ss[k + 1..], i) + if ss[k].ndx == i then 1 else 0
  {
    SplitAround(ss, k);
    CountOfConcat(ss[..k] + [ss[k]], ss[k + 1..], i);
    CountAppend(ss[..k], ss[k], i);
    CountOfConcat(ss[..k], ss[k + 1..], i);
  }

  lemma {:induction false} CountPermutes(a: seq<Scn>, b: seq<Scn>, i: nat)
    requires multiset(a) == multiset(b)
    ensures Count(a, i) == Count(b, i)
  {
    if a == [] {
      assert |b| == |multiset(b)|;
    } else {
      var k := PermutationFinds(a, b, a[|a| - 1]);
      PermutationWithout(a, b, k);
      CountPermutes(a[..|a| - 1], b[..k] + b[k + 1..], i);
      CountWithout(b, k, i);
    }
  }

  /** Numbers do not depend on the order of the list. */
  lemma NumbersPermute(a: seq<Scn>, b: seq<Scn>)
    requires multiset(a) == multiset(b)
    ensures SameNumbers(a, b)
  {
    assert |a| == |multiset(a)| == |multiset(b)| == |b|;
    forall i | 0 <= i
      ensures Count(a, i) == Count(b, i)
    {
      CountPermutes(a, b, i);
    }
  }

  /** The same numbers in the same places. */
  ghost predicate SameNdxs(a: seq<Scn>, b: seq<Scn>)
  {
    |a| == |b| && forall k :: 0 <= k < |a| ==> b[k].ndx == a[k].ndx
  }

  lemma {:induction false} CountSame(a: seq<Scn>, b: seq<Scn>, i: nat)
    requires SameNdxs(a, b)
    ensures Count(a, i) == Count(b, i)
  {
    if a != [] {
      CountSame(a[..|a| - 1], b[..|b| - 1], i);
    }
  }

  lemma NumbersOfSame(a: seq<Scn>, b: seq<Scn>)
    requires SameNdxs(a, b)
    ensures SameNumbers(a, b)
  {
    forall i | 0 <= i
      ensures Count(a, i) == Count(b, i)
    {
      CountSame(a, b, i);
    }
  }

  lemma SameNumbersTransitive(a: seq<Scn>, b: seq<Scn>, c: seq<Scn>)
    requires SameNumbers(a, b) && SameNumbers(b, c)
    ensures SameNumbers(a, c)
  {
    forall i | 0 <= i
      ensures Count(a, i) == Count(c, i)
    {
      assert Count(a, i) == Count(b, i);
    }
  }

  function Without(ss: seq<Scn>, k: nat): seq<Scn>
    requires k < |ss|
  {
    ss[..k] + ss[k + 1..]
  }

  /** The numbers of `a` are those of `b`, and one more. */
  ghost predicate OneFewer(a: seq<Scn>, b: seq<Scn>)
  {
    |b| + 1 == |a| && exists k :: 0 <= k < |a| && SameNumbers(Without(a, k), b)
  }

  /** The numbers of the sections before and after a layout, which may have lost one. */
  ghost predicate NumbersAfter(a: seq<Scn>, b: seq<Scn>, lost: bool)
  {
    if lost then OneFewer(a, b) else SameNumbers(a, b)
  }

  /** Only section 0 is there, for its counts. */
  predicate OnlyScn0(ss: seq<Scn>) {
    |ss| == 1 && ss[0].ndx == 0
  }

  /** The same where an empty list may have been given a section 0. */
  ghost predicate Renumbered(a: seq<Scn>, b: seq<Scn>, lost: bool)
  {
    if a == [] then !lost && (b == [] || OnlyScn0(b)) else NumbersAfter(a, b, lost)
  }

  lemma SameNumbersReflexive(a: seq<Scn>)
    ensures SameNumbers(a, a)
  {
  }

  lemma RenumberedTransitive(a: seq<Scn>, b: seq<Scn>, c: seq<Scn>)
    requires Renumbered(a, b, false) && Renumbered(b, c, false)
    ensures Renumbered(a, c, false)
  {
    if a != [] {
      SameNumbersTransitive(a, b, c);
    } else if b != [] {
      OnlyScn0Kept(b, c);
    }
  }

  lemma OnlyScn0Kept(a: seq<Scn>, b: seq<Scn>)
    requires SameNumbers(a, b) && OnlyScn0(a)
    ensures OnlyScn0(b)
  {
    assert a[..0] == [] && b[..0] == [];
    assert Count(a, 0) == Count(b, 0);
  }

  datatype ElfCmd = CmdNull | CmdRead | CmdRdwr | CmdWrite

  /** Elf, for a descriptor of kind ELF_K_ELF. */
  class Elf {
    const format: Format
    const klass: nat
    const version: nat
    const cmd: ElfCmd
    var attached: bool        // e_fd is an open file
    var layout: bool          // ELF_F_LAYOUT
    var shdrsLoaded: bool     // LIBELF_F_SHDRS_LOADED
    var byteorder: nat
    var rawfile: Option<seq<Byte>>
    var ehdr: Option<Ehdr>
    var phdr: Option<seq<Byte>>
    var scns: seq<Scn>        // e_scn, in the order of the list
    var nphdr: nat
    var nscn: nat
    var strndx: nat

    /** A descriptor as elf_begin hands it out: nothing has been read in yet. */
    constructor (format: Format, klass: nat, cmd: ElfCmd, byteorder: nat, rawfile: Option<seq<Byte>>)
      ensures this.format == format && this.klass == klass && this.cmd == cmd && version == EV_CURRENT
      ensures this.byteorder == byteorder && this.rawfile == rawfile
      ensures attached && !layout && !shdrsLoaded && ehdr == None && phdr == None && scns == []
      ensures nphdr == 0 && nscn == 0 && strndx == 0
    {
      this.format, this.klass, this.cmd, version := format, klass, cmd, EV_CURRENT;
      this.byteorder, this.rawfile := byteorder, rawfile;
      attached, layout, shdrsLoaded, ehdr, phdr, scns := true, false, false, None, None, [];
      nphdr, nscn, strndx := 0, 0, 0;
    }
  }
}
