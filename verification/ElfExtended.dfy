/** Extended numbering: the write side (_libelf_setshnum, _libelf_setshstrndx and
    _libelf_setphnum of libelf_extended.c) and the read side (_libelf_ehdr and
    _libelf_load_extended of libelf_ehdr.c). */
module ElfExtended {
  import opened Basics
  import opened ElfModel

  const WORD: nat := 0x1_0000_0000
  const ELFCLASS32: nat := 1

  /** The number of program headers, of sections, and the string table's index. */
  datatype Counts = Counts(phnum: nat, shnum: nat, strndx: nat)

  /** The header fields that hold them, and the section header that may. */
  datatype Fields = Fields(ehdr: Ehdr, scn0: Shdr)

  // ------------------------------------------------------------ the write side

  /** sh_size is a 32-bit field in one class and a 64-bit field in the other. */
  function ShSize(klass: nat, n: nat): nat {
    if klass == ELFCLASS32 then n % WORD else n % (WORD * WORD)
  }

  function SetShnumSpec(klass: nat, h: Fields, shnum: nat): Fields {
    if shnum >= SHN_LORESERVE
    then Fields(h.ehdr.(shnum := 0), h.scn0.(size := ShSize(klass, shnum)))
    else h.(ehdr := h.ehdr.(shnum := shnum))
  }

  function SetShstrndxSpec(h: Fields, shstrndx: nat): Fields {
    if shstrndx >= SHN_LORESERVE
    then Fields(h.ehdr.(shstrndx := SHN_XINDEX), h.scn0.(link := shstrndx % WORD))
    else h.(ehdr := h.ehdr.(shstrndx := shstrndx))
  }

  function SetPhnumSpec(h: Fields, phnum: nat): Fields {
    if phnum >= PN_XNUM
    then Fields(h.ehdr.(phnum := PN_XNUM), h.scn0.(info := phnum % WORD))
    else h.(ehdr := h.ehdr.(phnum := phnum))
  }

  function Encode(klass: nat, h: Fields, c: Counts): Fields {
    SetShstrndxSpec(SetShnumSpec(klass, SetPhnumSpec(h, c.phnum), c.shnum), c.strndx)
  }

  /** Where the counts go.  Those too large for the ELF header leave a mark there, and are
      in section 0: the number of sections in sh_size, the index of the string table in
      sh_link, the number of program headers in sh_info. */
  lemma WhereCountsGo(klass: nat, h: Fields, c: Counts)
    ensures var r := Encode(klass, h, c);
            && (c.shnum < 0xff00 ==> r.ehdr.shnum == c.shnum && r.scn0.size == h.scn0.size)
            && (0xff00 <= c.shnum < WORD ==> r.ehdr.shnum == 0 && r.scn0.size == c.shnum)
            && (klass == 1 && 0xff00 <= c.shnum ==> r.scn0.size == c.shnum % 0x1_0000_0000)
            && (klass != 1 && 0xff00 <= c.shnum < 0x1_0000_0000_0000_0000 ==> r.scn0.size == c.shnum)
            && (c.strndx < 0xff00 ==> r.ehdr.shstrndx == c.strndx && r.scn0.link == h.scn0.link)
            && (0xff00 <= c.strndx < WORD ==> r.ehdr.shstrndx == 0xffff && r.scn0.link == c.strndx)
            && (c.phnum < 0xffff ==> r.ehdr.phnum == c.phnum && r.scn0.info == h.scn0.info)
            && (0xffff <= c.phnum < WORD ==> r.ehdr.phnum == 0xffff && r.scn0.info == c.phnum)
    ensures var r := Encode(klass, h, c);
            && r.ehdr == h.ehdr.(shnum := r.ehdr.shnum, shstrndx := r.ehdr.shstrndx, phnum := r.ehdr.phnum)
            && r.scn0 == h.scn0.(size := r.scn0.size, link := r.scn0.link, info := r.scn0.info)
  {
    assert c.shnum < WORD ==> c.shnum % WORD == c.shnum;
    assert c.shnum < WORD * WORD ==> c.shnum % (WORD * WORD) == c.shnum;
    assert c.strndx < WORD ==> c.strndx % WORD == c.strndx;
    assert c.phnum < WORD ==> c.phnum % WORD == c.phnum;
  }

  // ------------------------------------------------------------- the read side

  /** What reading the headers back yields; `None` is an error. */
  function Decode(h: Fields): Option<Counts> {
    var eh, scn0 := h.ehdr, h.scn0;
    if eh.shnum >= SHN_LORESERVE then None
    else if eh.shoff == 0 && (eh.shnum != 0 || eh.phnum == PN_XNUM || eh.shstrndx == SHN_XINDEX) then None
    else if eh.shnum != 0 || eh.shoff == 0 then Some(Counts(eh.phnum, eh.shnum, eh.shstrndx))
    else if scn0.typ != SHT_NULL then None
    else Some(Counts(if eh.phnum != PN_XNUM then eh.phnum else scn0.info,
                     scn0.size,
                     if eh.shstrndx != SHN_XINDEX then eh.shstrndx else scn0.link))
  }

  /** Where the counts come from, and which headers are refused. */
  lemma WhereCountsComeFrom(h: Fields)
    ensures h.ehdr.shnum >= 0xff00 ==> Decode(h) == None
    ensures h.ehdr.shoff == 0 && (h.ehdr.shnum != 0 || h.ehdr.phnum == 0xffff || h.ehdr.shstrndx == 0xffff) ==>
              Decode(h) == None
    ensures h.ehdr.shoff == 0 && h.ehdr.shnum == 0 && h.ehdr.phnum != 0xffff && h.ehdr.shstrndx != 0xffff ==>
              Decode(h) == Some(Counts(h.ehdr.phnum, 0, h.ehdr.shstrndx))
    ensures h.ehdr.shoff != 0 && 0 < h.ehdr.shnum < 0xff00 ==>
              Decode(h) == Some(Counts(h.ehdr.phnum, h.ehdr.shnum, h.ehdr.shstrndx))
    ensures h.ehdr.shoff != 0 && h.ehdr.shnum == 0 ==>
              && (Decode(h) == None <==> h.scn0.typ != SHT_NULL)
              && (h.scn0.typ == SHT_NULL ==>
                    var c := Decode(h).value;
                    && c.shnum == h.scn0.size
                    && c.phnum == (if h.ehdr.phnum == 0xffff then h.scn0.info else h.ehdr.phnum)
                    && c.strndx == (if h.ehdr.shstrndx == 0xffff then h.scn0.link else h.ehdr.shstrndx))
  {
  }

  // ---------------------------------------------------------------- the round trip

  /** The counts that survive being written and read back. */
  predicate Survives(klass: nat, shoff: nat, c: Counts) {
    if shoff == 0 then
      c.shnum == 0 && c.phnum < PN_XNUM && c.strndx < SHN_LORESERVE
    else if 0 < c.shnum < SHN_LORESERVE then
      c.phnum <= PN_XNUM && (c.strndx < SHN_LORESERVE || c.strndx == SHN_XINDEX)
    else
      c.phnum < WORD && c.strndx < WORD && c.shnum == ShSize(klass, c.shnum)
  }

  /** Written over a zeroed section header, the counts are read back exactly when
      `Survives` says so.  Without extended section numbering the reader takes the
      plain branch, so more than PN_XNUM program headers, or a string table index in the
      reserved range other than SHN_XINDEX, are lost although section 0 holds them. */
  lemma RoundTrip(klass: nat, eh: Ehdr, c: Counts)
    ensures Decode(Encode(klass, Fields(eh, ZERO_SHDR), c)) == Some(c) <==> Survives(klass, eh.shoff, c)
  {
    var h := Encode(klass, Fields(eh, ZERO_SHDR), c);
    assert h.ehdr.shoff == eh.shoff && h.scn0.typ == SHT_NULL;
  }

  /** A file with ten sections and 65536 program headers reads back as one with 65535. */
  lemma PhnumLost(klass: nat, eh: Ehdr)
    requires eh.shoff != 0
    ensures Decode(Encode(klass, Fields(eh, ZERO_SHDR), Counts(0x10000, 10, 1))) == Some(Counts(0xffff, 10, 1))
  {
  }

  // --------------------------------------------------------------- on a descriptor

  /** A section as _libelf_allocate_scn links it in: all zero but for its index. */
  function NewScn(ndx: nat): Scn {
    Scn(ndx, ZERO_SHDR, false, 0, 0, 0, [], [])
  }

  /** The section list after _libelf_getscn0: never empty. */
  function WithScn0(ss: seq<Scn>): (r: seq<Scn>)
    ensures r != []
  {
    if ss == [] then [NewScn(0)] else ss
  }

  /** The list with a new header, marked dirty, for its first section. */
  function SetScn0(ss: seq<Scn>, hdr: Shdr): seq<Scn> {
    var r := WithScn0(ss);
    r[0 := r[0].(hdr := hdr, dirty := true)]
  }

  lemma SetScn0Keeps(ss: seq<Scn>, hdr: Shdr)
    requires WithScn0(ss)[0].ndx == 0
    ensures Renumbered(ss, SetScn0(ss, hdr), false)
    ensures var r := SetScn0(ss, hdr);
            && r[0].hdr == hdr && r[0].dirty && |r| == Max(1, |ss|) && r[1..] == WithScn0(ss)[1..]
            && (ss != [] ==> r[0] == ss[0].(hdr := hdr, dirty := true))
  {
    if ss != [] {
      NumbersOfSame(ss, SetScn0(ss, hdr));
    }
  }

  /** _libelf_setshnum.  A first section that is not section 0 fails an assertion. */
  method SetShnum(e: Elf, eh: Ehdr, shnum: nat) returns (ok: bool, eh': Ehdr)
    modifies e`scns
    ensures shnum < SHN_LORESERVE ==> ok && e.scns == old(e.scns) && eh' == eh.(shnum := shnum)
    ensures shnum >= SHN_LORESERVE ==>
              var scn0 := WithScn0(old(e.scns))[0];
              var h := SetShnumSpec(e.klass, Fields(eh, scn0.hdr), shnum);
              && (ok <==> scn0.ndx == 0)
              && (ok ==> e.scns == SetScn0(old(e.scns), h.scn0) && eh' == h.ehdr)
              && (old(e.scns) == [] ==> ok)
    ensures ok ==> Renumbered(old(e.scns), e.scns, false)
  {
    eh' := eh;
    if shnum >= SHN_LORESERVE {
      e.scns := WithScn0(e.scns);
      if e.scns[0].ndx != 0 {
        return false, eh;
      }
      var s := e.scns[0];
      SetScn0Keeps(old(e.scns), s.hdr.(size := ShSize(e.klass, shnum)));
      e.scns := e.scns[0 := s.(hdr := s.hdr.(size := ShSize(e.klass, shnum)), dirty := true)];
      eh' := eh'.(shnum := 0);
    } else {
      eh' := eh'.(shnum := shnum);
    }
    ok := true;
  }

  /** _libelf_setphnum. */
  method SetPhnum(e: Elf, eh: Ehdr, phnum: nat) returns (ok: bool, eh': Ehdr)
    modifies e`scns
    ensures phnum < PN_XNUM ==> ok && e.scns == old(e.scns) && eh' == eh.(phnum := phnum)
    ensures phnum >= PN_XNUM ==>
              var scn0 := WithScn0(old(e.scns))[0];
              var h := SetPhnumSpec(Fields(eh, scn0.hdr), phnum);
              && (ok <==> scn0.ndx == 0)
              && (ok ==> e.scns == SetScn0(old(e.scns), h.scn0) && eh' == h.ehdr)
              && (old(e.scns) == [] ==> ok)
    ensures ok ==> Renumbered(old(e.scns), e.scns, false)
  {
    eh' := eh;
    if phnum >= PN_XNUM {
      e.scns := WithScn0(e.scns);
      if e.scns[0].ndx != 0 {
        return false, eh;
      }
      var s := e.scns[0];
      SetScn0Keeps(old(e.scns), s.hdr.(info := phnum % WORD));
      e.scns := e.scns[0 := s.(hdr := s.hdr.(info := phnum % WORD), dirty := true)];
      eh' := eh'.(phnum := PN_XNUM);
    } else {
      eh' := eh'.(phnum := phnum);
    }
    ok := true;
  }

  /** _libelf_setshstrndx. */
  method SetShstrndx(e: Elf, eh: Ehdr, shstrndx: nat) returns (ok: bool, eh': Ehdr)
    modifies e`scns
    ensures shstrndx < SHN_LORESERVE ==> ok && e.scns == old(e.scns) && eh' == eh.(shstrndx := shstrndx)
    ensures shstrndx >= SHN_LORESERVE ==>
              var scn0 := WithScn0(old(e.scns))[0];
              var h := SetShstrndxSpec(Fields(eh, scn0.hdr), shstrndx);
              && (ok <==> scn0.ndx == 0)
              && (ok ==> e.scns == SetScn0(old(e.scns), h.scn0) && eh' == h.ehdr)
              && (old(e.scns) == [] ==> ok)
  {
    eh' := eh;
    if shstrndx >= SHN_LORESERVE {
      e.scns := WithScn0(e.scns);
      if e.scns[0].ndx != 0 {
        return false, eh;
      }
      var s := e.scns[0];
      e.scns := e.scns[0 := s.(hdr := s.hdr.(link := shstrndx % WORD), dirty := true)];
      eh' := eh'.(shstrndx := SHN_XINDEX);
    } else {
      eh' := eh'.(shstrndx := shstrndx);
    }
    ok := true;
  }

  /** The header leaves the counts to section 0. */
  predicate UsesScn0(eh: Ehdr) {
    eh.shnum == 0 && eh.shoff != 0
  }

  /** The header leaves nothing to a section 0 that is not there, or not a null section. */
  predicate CountsReadable(eh: Ehdr, scn0: Option<Shdr>) {
    && eh.shnum < SHN_LORESERVE
    && (eh.shoff == 0 ==> eh.shnum == 0 && eh.phnum != PN_XNUM && eh.shstrndx != SHN_XINDEX)
    && (UsesScn0(eh) ==> scn0.Some? && scn0.value.typ == SHT_NULL)
  }

  /** The end of _libelf_ehdr, on the translated header and the translated first
      section header (`None` if the file is too short for it). */
  method LoadCounts(e: Elf, eh: Ehdr, scn0: Option<Shdr>) returns (ok: bool)
    requires UsesScn0(eh) ==> e.scns == []
    modifies e`nphdr, e`nscn, e`strndx, e`scns
    ensures scn0.Some? ==>
              var c := Decode(Fields(eh, scn0.value));
              && (ok <==> c.Some?)
              && (ok ==> Counts(e.nphdr, e.nscn, e.strndx) == c.value)
    ensures ok ==> Some(Counts(e.nphdr, e.nscn, e.strndx))
                   == Decode(Fields(eh, if scn0.Some? then scn0.value else ZERO_SHDR))
    ensures ok && UsesScn0(eh) ==> scn0.Some? && e.scns == [NewScn(0).(hdr := scn0.value)]
    ensures !UsesScn0(eh) ==> e.scns == old(e.scns) && (ok ==> e.nscn == eh.shnum)
    ensures !ok ==> e.nscn == old(e.nscn)
    ensures e.scns == old(e.scns) || (UsesScn0(eh) && OnlyScn0(e.scns))
    ensures ok <==> CountsReadable(eh, scn0)
  {
    if eh.shnum >= SHN_LORESERVE ||
       (eh.shoff == 0 && (eh.shnum != 0 || eh.phnum == PN_XNUM || eh.shstrndx == SHN_XINDEX)) {
      return false;
    }
    if eh.shnum != 0 || eh.shoff == 0 {
      e.nphdr, e.nscn, e.strndx := eh.phnum, eh.shnum, eh.shstrndx;
      return true;
    }
    if scn0 == None {
      return false;
    }
    e.scns := [NewScn(0).(hdr := scn0.value)];
    if scn0.value.typ != SHT_NULL {
      return false;
    }
    e.nscn := scn0.value.size;
    e.nphdr := if eh.phnum != PN_XNUM then eh.phnum else scn0.value.info;
    e.strndx := if eh.shstrndx != SHN_XINDEX then eh.shstrndx else scn0.value.link;
    return true;
  }

  // ------------------------------------------------------------------ the ELF header

  /** What the translators read in the raw file: the ELF header, and the entries of
      the section header table. */
  datatype View = View(ehdr: Ehdr, shdr: nat -> Shdr)

  /** A new ELF header, of the class of the descriptor. */
  function NewEhdr(klass: nat): Ehdr {
    Ehdr(klass, 0, EV_CURRENT, 0, 0, 0, 0, 0, 0, 0, 0)
  }

  /** The file is long enough for a header. */
  predicate HeaderInFile(f: Format, rawfile: Option<seq<Byte>>) {
    rawfile.Some? && f.ehdr.fsize <= |rawfile.value|
  }

  /** The header counts the sections itself, and says where their headers are. */
  predicate HasTable(eh: Ehdr) {
    0 < eh.shnum < SHN_LORESERVE && eh.shoff != 0
  }

  /** The first section header, if the file goes so far. */
  function FirstShdr(f: Format, rawfile: seq<Byte>, v: View): Option<Shdr> {
    if |rawfile| < v.ehdr.shoff + f.shdr.fsize then None else Some(v.shdr(0))
  }

  /** The header is in the file, and so are its counts. */
  predicate HeaderReadable(f: Format, rawfile: Option<seq<Byte>>, v: View) {
    HeaderInFile(f, rawfile) && CountsReadable(v.ehdr, FirstShdr(f, rawfile.value, v))
  }

  /** No sections and no marks; or a plain number of sections; or a null section that the
      file has room for. */
  ghost predicate ReadableCounts(v: View, fsize: nat, length: nat)
  {
    || (v.ehdr.shoff == 0 && v.ehdr.shnum == 0 && v.ehdr.phnum != 0xffff && v.ehdr.shstrndx != 0xffff)
    || (v.ehdr.shoff != 0 && 0 < v.ehdr.shnum < 0xff00)
    || (v.ehdr.shoff != 0 && v.ehdr.shnum == 0 && v.ehdr.shoff + fsize <= length && v.shdr(0).typ == 0)
  }

  /** _libelf_ehdr: the ELF header, read in or made the first time it is asked for. */
  method GetEhdr(e: Elf, v: View) returns (out: Outcome)
    modifies e`ehdr, e`nphdr, e`nscn, e`strndx, e`scns
    ensures old(e.ehdr.Some?) ==>
              out == Done(0) && e.ehdr == old(e.ehdr) && e.scns == old(e.scns)
              && e.nscn == old(e.nscn) && e.nphdr == old(e.nphdr) && e.strndx == old(e.strndx)
    ensures out.Done? ==> e.ehdr.Some?
    ensures e.ehdr == None ==> out == Error && e.scns == old(e.scns) && e.nscn == old(e.nscn)
    ensures e.cmd == CmdWrite ==> out == Done(0) && e.scns == old(e.scns) && e.nscn == old(e.nscn)
    ensures e.cmd == CmdWrite ==> e.nphdr == old(e.nphdr) && e.strndx == old(e.strndx)
    ensures out.Crash? ==> UsesScn0(v.ehdr) && old(e.scns != []) && old(e.ehdr == None)
    ensures e.scns == old(e.scns) || (old(e.scns) == [] && UsesScn0(v.ehdr) && OnlyScn0(e.scns))
    ensures old(e.ehdr == None) && e.cmd != CmdWrite && !(UsesScn0(v.ehdr) && old(e.scns != [])) ==>
              (out.Done? <==> HeaderReadable(e.format, e.rawfile, v))
    ensures old(e.ehdr == None && e.scns == []) && e.cmd != CmdWrite && e.rawfile.Some? ==>
              && (|e.rawfile.value| < e.format.ehdr.fsize ==> out == Error)
              && (|e.rawfile.value| >= e.format.ehdr.fsize ==>
                    (out == Done(0) <==> ReadableCounts(v, e.format.shdr.fsize, |e.rawfile.value|)))
    ensures out.Done? && old(e.ehdr == None) && e.cmd != CmdWrite ==>
              && e.rawfile.Some? && e.format.ehdr.fsize <= |e.rawfile.value|
              && (v.ehdr.shnum == 0 && v.ehdr.shoff != 0 ==>
                    && v.ehdr.shoff + e.format.shdr.fsize <= |e.rawfile.value|
                    && |e.scns| == 1 && e.scns[0].hdr == v.shdr(0) && e.scns[0].ndx == 0)
    ensures out.Done? && old(e.ehdr == None) && e.cmd != CmdWrite ==>
              e.ehdr == Some(v.ehdr) && Some(Counts(e.nphdr, e.nscn, e.strndx)) == Decode(Fields(v.ehdr, v.shdr(0)))
    ensures old(e.ehdr == None) && e.cmd == CmdWrite ==>
              && e.ehdr == Some(NewEhdr(e.klass))
              && e.ehdr.value == Ehdr(e.klass, 0, EV_CURRENT, 0, 0, 0, 0, 0, 0, 0, 0)
  {
    if e.ehdr.Some? {
      return Done(0);
    }
    if e.cmd != CmdWrite && !HeaderInFile(e.format, e.rawfile) {
      return Error;
    }
    if e.cmd == CmdWrite {
      e.ehdr := Some(NewEhdr(e.klass));
      return Done(0);
    }
    e.ehdr := Some(v.ehdr);
    if UsesScn0(v.ehdr) && e.scns != [] {
      return Crash;
    }
    var ok := LoadCounts(e, v.ehdr, FirstShdr(e.format, e.rawfile.value, v));
    return if ok then Done(0) else Error;
  }
}
