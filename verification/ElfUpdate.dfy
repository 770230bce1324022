/** _libelf_resync_elf, _libelf_write_elf and elf_update of elf_update.c. */
module ElfUpdate {
  import opened Basics
  import opened ElfModel
  import opened Alignment
  import opened ElfLayout
  import opened ElfImage
  import opened ElfWrite
  import R = ElfResync
  import X = ElfExtended

  // ------------------------------------------------------------------- the layout

  /** Where the program header table goes. */
  function Phoff(f: Format, layout: bool, eh: Ehdr, phnum: nat): nat {
    if phnum == 0 then 0
    else if layout then eh.phoff
    else Roundup(f.ehdr.fsize, f.phdr.align)
  }

  /** Where the section header table goes when the sections end at `end`. */
  function Shoff(f: Format, layout: bool, eh: Ehdr, shnum: nat, end: nat): nat {
    if shnum == 0 then 0
    else if layout then eh.shoff
    else Roundup(end, f.shdr.align)
  }

  /** The end of the headers, where the sections may start. */
  function Start(f: Format, layout: bool, eh: Ehdr, phnum: nat): nat {
    HeaderEnd(f, phnum, Phoff(f, layout, eh, phnum))
  }

  /** The size of the file. */
  function FileSize(f: Format, shnum: nat, shoff: nat, end: nat): nat {
    if shnum == 0 then end else shoff + Times(shnum, f.shdr.fsize)
  }

  /** What is laid out: the format, who does the layout, and the counts. */
  datatype Job = Job(f: Format, layout: bool, version: nat, phnum: nat, shnum: nat)

  /** What the header is compared with. */
  datatype Kind = Kind(klass: nat, cmd: ElfCmd, byteorder: nat)

  /** What contents are taken from, apart from the sections. */
  datatype Sources = Sources(phdr: Option<seq<Byte>>, rawfile: Option<seq<Byte>>)

  /** The outcome of a layout: the sections as they were `placed`, the header, the
      sections once section 0 has taken any counts, and the end of the sections. */
  datatype Layout = Layout(placed: seq<Scn>, eh: Ehdr, ss: seq<Scn>, end: nat)

  ghost function JobOf(e: Elf): Job
    reads e`layout, e`nphdr, e`nscn
  {
    Job(e.format, e.layout, e.version, e.nphdr, e.nscn)
  }

  ghost function KindOf(e: Elf): Kind
    reads e`byteorder
  {
    Kind(e.klass, e.cmd, e.byteorder)
  }

  ghost function SourcesOf(e: Elf): Sources
    reads e`phdr, e`rawfile
  {
    Sources(e.phdr, e.rawfile)
  }

  /** The end of the headers of a file with header `eh`. */
  ghost function StartOf(j: Job, eh: Ehdr): nat {
    Start(j.f, j.layout, eh, j.phnum)
  }

  /** The program headers need no extended numbering, and the sections are presentable. */
  ghost predicate Plain(j: Job, eh: Ehdr, ss: seq<Scn>)
  {
    j.phnum < PN_XNUM && R.AllPresentable(j.layout, j.f, j.version, StartOf(j, eh), ss)
  }

  /** The first checks of _libelf_resync_elf. */
  predicate HeaderAccepted(eh: Ehdr, version: nat, k: Kind) {
    && (if eh.version == 0 then EV_CURRENT else eh.version) == version
    && eh.klass == k.klass
    && (k.cmd == CmdWrite || eh.data == k.byteorder)
  }

  /** What an accepted header has in common with its descriptor.  A version of zero stands
      for the current one. */
  ghost predicate HeaderMatches(j: Job, k: Kind, eh: Ehdr)
  {
    && eh.klass == k.klass
    && (eh.version == j.version || (eh.version == 0 && j.version == EV_CURRENT))
    && (eh.data == k.byteorder || k.cmd == CmdWrite)
  }

  /** A header that the library has made is accepted, and so is one without a version. */
  lemma NewHeaderAccepted(klass: nat, byteorder: nat)
    ensures HeaderAccepted(X.NewEhdr(klass), EV_CURRENT, Kind(klass, CmdWrite, byteorder))
    ensures HeaderAccepted(X.NewEhdr(klass).(version := 0), EV_CURRENT, Kind(klass, CmdWrite, byteorder))
  {
  }

  /** The application has put the program header table past the header, aligned. */
  ghost predicate PhdrsAccepted(f: Format, layout: bool, eh: Ehdr, phnum: nat)
  {
    layout && phnum > 0 ==> f.ehdr.fsize <= eh.phoff && Aligned(eh.phoff, f.phdr.align)
  }

  /** The application has put the section header table past the sections, aligned. */
  ghost predicate ShdrsAccepted(f: Format, layout: bool, eh: Ehdr, shnum: nat, end: nat)
  {
    layout && shnum > 0 ==> end <= eh.shoff && Aligned(eh.shoff, f.shdr.align)
  }

  ghost predicate ContentsRejected(j: Job, eh: Ehdr, ss: seq<Scn>, start: nat)
  {
    var p := R.FirstPass(j.layout, j.f, j.version, ss, |ss|, start);
    R.Refuses(j.layout, j.f, j.version, ss, start) || !ShdrsAccepted(j.f, j.layout, eh, j.shnum, p.value.end)
  }

  /** The layout ends in an error: the header, one of the tables or a section is refused. */
  ghost predicate Rejected(j: Job, k: Kind, eh: Ehdr, ss: seq<Scn>)
  {
    || !HeaderAccepted(eh, j.version, k)
    || !PhdrsAccepted(j.f, j.layout, eh, j.phnum)
    || ContentsRejected(j, eh, ss, StartOf(j, eh))
  }

  /** The layout loses a section: the headers are accepted, and the second pass over the
      sections ends at one that it has taken off the list. */
  ghost predicate Breaks(j: Job, k: Kind, eh: Ehdr, ss: seq<Scn>)
  {
    && HeaderAccepted(eh, j.version, k) && PhdrsAccepted(j.f, j.layout, eh, j.phnum)
    && R.LosesSection(j.layout, j.f, j.version, ss, StartOf(j, eh))
  }

  /** Where sections without contents end before the end of the headers, the extents of
      the first pass alone decide about that. */
  lemma BreaksIffInner(j: Job, k: Kind, eh: Ehdr, ss: seq<Scn>)
    requires R.AllAnchored(j.layout, StartOf(j, eh), ss) && R.AllLow(StartOf(j, eh), ss)
    ensures Breaks(j, k, eh, ss) <==>
              && HeaderAccepted(eh, j.version, k) && PhdrsAccepted(j.f, j.layout, eh, j.phnum)
              && R.HasInner(j.layout, j.f, j.version, ss, StartOf(j, eh))
  {
    R.LosesIffInner(j.layout, j.f, j.version, ss, StartOf(j, eh));
  }

  lemma BreaksFromTwo(j: Job, k: Kind, eh: Ehdr, ss: seq<Scn>)
    ensures Breaks(j, k, eh, ss) ==> 2 <= |ss|
  {
    R.LosesFromTwo(j.layout, j.f, j.version, ss, StartOf(j, eh));
  }

  /** The program header table: its place and the end of the headers. */
  method PlacePhdrs(f: Format, layout: bool, eh: Ehdr, phnum: nat) returns (ok: bool, phoff: nat, rc: nat)
    ensures ok <==> PhdrsAccepted(f, layout, eh, phnum)
    ensures ok <==> !(layout && phnum > 0) || (f.ehdr.fsize <= eh.phoff && Aligned(eh.phoff, f.phdr.align))
    ensures ok ==> phoff == Phoff(f, layout, eh, phnum) && rc == Start(f, layout, eh, phnum)
    ensures ok && phnum > 0 ==> f.ehdr.fsize <= phoff && Aligned(phoff, f.phdr.align)
    ensures ok && phnum > 0 ==> if layout then phoff == eh.phoff else phoff < f.ehdr.fsize + f.phdr.align
    ensures ok ==> rc == if phnum == 0 then f.ehdr.fsize else phoff + Times(phnum, f.phdr.fsize)
    ensures ok && phnum == 0 ==> phoff == 0
  {
    rc, phoff := f.ehdr.fsize, 0;
    if phnum > 0 {
      if layout {
        var aligned := IsMultiple(eh.phoff, f.phdr.align);
        if rc > eh.phoff || !aligned {
          return false, 0, rc;
        }
        phoff := eh.phoff;
      } else {
        RoundupBounds(rc, f.phdr.align);
        phoff := Roundup(rc, f.phdr.align);
      }
      rc := phoff + Times(phnum, f.phdr.fsize);
    }
    ok := true;
  }

  /** The section header table: its place and the end of the file. */
  method PlaceShdrs(f: Format, layout: bool, eh: Ehdr, shnum: nat, end: nat) returns (ok: bool, shoff: nat, rc: nat)
    ensures ok <==> ShdrsAccepted(f, layout, eh, shnum, end)
    ensures ok <==> !(layout && shnum > 0) || (end <= eh.shoff && Aligned(eh.shoff, f.shdr.align))
    ensures ok ==> shoff == Shoff(f, layout, eh, shnum, end) && rc == FileSize(f, shnum, shoff, end)
    ensures ok && shnum > 0 ==> end <= shoff && Aligned(shoff, f.shdr.align)
    ensures ok && shnum > 0 ==> if layout then shoff == eh.shoff else shoff < end + f.shdr.align
    ensures ok ==> rc == if shnum == 0 then end else shoff + Times(shnum, f.shdr.fsize)
    ensures ok && shnum == 0 ==> shoff == 0
  {
    shoff, rc := 0, end;
    if shnum > 0 {
      if layout {
        var aligned := IsMultiple(eh.shoff, f.shdr.align);
        if rc > eh.shoff || !aligned {
          return false, 0, rc;
        }
        shoff := eh.shoff;
      } else {
        RoundupBounds(rc, f.shdr.align);
        shoff := Roundup(rc, f.shdr.align);
      }
      rc := shoff + Times(shnum, f.shdr.fsize);
    }
    ok := true;
  }

  /** The tables are where the header says, aligned, and `rc` is the size of the file. */
  ghost predicate TablesLaidOut(j: Job, eh0: Ehdr, eh: Ehdr, end: nat, rc: nat)
  {
    && eh.phnum == j.phnum
    && (j.phnum > 0 ==> eh.phoff == Phoff(j.f, j.layout, eh0, j.phnum) && j.f.ehdr.fsize <= eh.phoff
                        && Aligned(eh.phoff, j.f.phdr.align))
    && (j.shnum > 0 ==> eh.shoff == Shoff(j.f, j.layout, eh0, j.shnum, end) && end <= eh.shoff
                        && Aligned(eh.shoff, j.f.shdr.align))
    && rc == FileSize(j.f, j.shnum, eh.shoff, end)
  }

  /** The header says how large the entries are, and who placed the tables; class, byte
      order, version and string table are those of the header it was made from. */
  ghost predicate HeaderFilled(j: Job, eh0: Ehdr, eh: Ehdr, end: nat)
  {
    && eh.ehsize == j.f.ehdr.fsize && eh.phentsize == j.f.phdr.fsize && eh.shentsize == j.f.shdr.fsize
    && eh.klass == eh0.klass && eh.data == eh0.data && eh.version == eh0.version && eh.shstrndx == eh0.shstrndx
    && (if j.layout then eh.phoff == eh0.phoff && eh.shoff == eh0.shoff
        else eh.phoff == Phoff(j.f, false, eh0, j.phnum) && eh.shoff == Shoff(j.f, false, eh0, j.shnum, end))
  }

  /** The same for a header whose sizes are there already. */
  ghost predicate SizesFilled(j: Job, eh: Ehdr)
  {
    eh.ehsize == j.f.ehdr.fsize && eh.phentsize == j.f.phdr.fsize && eh.shentsize == j.f.shdr.fsize
  }

  /** The number of sections in the header: plain, or in section 0. */
  ghost predicate Numbered(shnum: nat, placed: seq<Scn>, eh: Ehdr, ss: seq<Scn>)
  {
    if shnum < SHN_LORESERVE then eh.shnum == shnum && ss == placed
    else
      && eh.shnum == 0
      && X.WithScn0(placed)[0].ndx == 0
      && ss != [] && ss[0].hdr.typ == X.WithScn0(placed)[0].hdr.typ
      && ss == X.SetScn0(placed, ss[0].hdr)
  }

  /** A file laid out from a header and a list of sections; `rc` is its size. */
  ghost predicate LaidOut(j: Job, eh0: Ehdr, before: seq<Scn>, l: Layout, rc: nat)
  {
    && R.InPlace(j.layout, j.f, j.version, before, StartOf(j, eh0), l.placed, l.end)
    && TablesLaidOut(j, eh0, l.eh, l.end, rc)
    && Numbered(j.shnum, l.placed, l.eh, l.ss)
  }

  /** How placing the tables ends, with the sections laid out up to `l.end`. */
  ghost predicate TablesPlaced(j: Job, eh0: Ehdr, placed: seq<Scn>, out: Outcome, l: Layout)
  {
    && (j.shnum < SHN_LORESERVE && j.phnum < PN_XNUM ==> !out.Crash?)
    && (out.Error? <==> !ShdrsAccepted(j.f, j.layout, eh0, j.shnum, l.end))
    && (!out.Crash? ==> Renumbered(placed, l.ss, false))
    && (out.Done? && SizesFilled(j, eh0) ==> HeaderFilled(j, eh0, l.eh, l.end))
    && (out.Done? && j.phnum < PN_XNUM ==>
          Numbered(j.shnum, placed, l.eh, l.ss) && TablesLaidOut(j, eh0, l.eh, l.end, out.rc))
  }

  /** The last part of _libelf_resync_elf: the section header table and the counts. */
  method PlaceTables(e: Elf, eh0: Ehdr, phoff: nat, end: nat) returns (out: Outcome, eh: Ehdr)
    requires phoff == Phoff(e.format, e.layout, eh0, e.nphdr)
    requires e.nphdr > 0 ==> e.format.ehdr.fsize <= phoff && Aligned(phoff, e.format.phdr.align)
    modifies e`scns
    ensures TablesPlaced(JobOf(e), eh0, old(e.scns), out, Layout(old(e.scns), eh, e.scns, end))
  {
    eh := eh0;
    var ok, shoff, size := PlaceShdrs(e.format, e.layout, eh0, e.nscn, end);
    SameNumbersReflexive(e.scns);
    if !ok {
      return Error, eh;
    }
    ok, eh := X.SetPhnum(e, eh, e.nphdr);
    if !ok {
      return Crash, eh;
    }
    ghost var between := e.scns;
    ok, eh := X.SetShnum(e, eh, e.nscn);
    if !ok {
      return Crash, eh;
    }
    RenumberedTransitive(old(e.scns), between, e.scns);
    if !e.layout {
      eh := eh.(phoff := phoff, shoff := shoff);
    }
    return Done(size), eh;
  }

  /** How the layout of presentable sections ends, given the header. */
  ghost predicate Settled(j: Job, eh0: Ehdr, before: seq<Scn>, rejected: bool, out: Outcome, l: Layout)
  {
    && (j.shnum < SHN_LORESERVE ==> !out.Crash? && (out.Error? <==> rejected))
    && (out.Done? ==> LaidOut(j, eh0, before, l, out.rc))
  }

  /** The sections refused, or placed and then the tables. */
  lemma ContentsSettled(j: Job, eh0: Ehdr, before: seq<Scn>, start: nat, placed: seq<Scn>, first: Outcome,
                        out: Outcome, l: Layout)
    requires start == StartOf(j, eh0) && Plain(j, eh0, before)
    requires R.Resynced(j.layout, j.f, j.version, before, start, placed, first)
    requires !first.Done? ==> out == first
    requires first.Done? ==> l.placed == placed && l.end == first.rc && TablesPlaced(j, eh0, placed, out, l)
    ensures Settled(j, eh0, before, ContentsRejected(j, eh0, before, start), out, l)
  {
  }

  /** What becomes of the numbers. */
  lemma ContentsNumbered(j: Job, eh0: Ehdr, before: seq<Scn>, start: nat, placed: seq<Scn>, first: Outcome,
                         out: Outcome, l: Layout)
    requires R.Resynced(j.layout, j.f, j.version, before, start, placed, first)
    requires !first.Done? ==> out == first && l.ss == placed
    requires first.Done? ==> TablesPlaced(j, eh0, placed, out, l)
    ensures R.LosesSection(j.layout, j.f, j.version, before, start) ==> out.Error?
    ensures !out.Crash? ==> Renumbered(before, l.ss, R.LosesSection(j.layout, j.f, j.version, before, start))
  {
    R.LosesFromTwo(j.layout, j.f, j.version, before, start);
    if first.Done? && !out.Crash? {
      RenumberedTransitive(before, placed, l.ss);
    }
  }

  /** Sections and tables, with the headers in place up to `start`. */
  method ResyncContents(e: Elf, eh0: Ehdr, phoff: nat, start: nat, ghost j: Job)
    returns (out: Outcome, eh: Ehdr, ghost l: Layout)
    requires j == JobOf(e) && start == StartOf(j, eh0)
    requires phoff == Phoff(j.f, j.layout, eh0, j.phnum)
    requires j.phnum > 0 ==> j.f.ehdr.fsize <= phoff && Aligned(phoff, j.f.phdr.align)
    modifies e`scns
    ensures Plain(j, eh0, old(e.scns)) ==>
              Settled(j, eh0, old(e.scns), ContentsRejected(j, eh0, old(e.scns), start), out, l)
    ensures out.Done? ==> l.eh == eh && l.ss == e.scns
    ensures out.Done? && SizesFilled(j, eh0) ==> HeaderFilled(j, eh0, eh, l.end)
    ensures R.LosesSection(j.layout, j.f, j.version, old(e.scns), start) ==> out.Error?
    ensures !out.Crash? ==>
              Renumbered(old(e.scns), e.scns, R.LosesSection(j.layout, j.f, j.version, old(e.scns), start))
  {
    eh := eh0;
    ghost var before := e.scns;
    out := R.ResyncSections(e, start);
    ghost var placed, first := e.scns, out;
    l := Layout(placed, eh, placed, 0);
    if out.Done? {
      out, eh := PlaceTables(e, eh0, phoff, out.rc);
      l := Layout(placed, eh, e.scns, first.rc);
    }
    ContentsNumbered(j, eh0, before, start, placed, first, out, l);
    if Plain(j, eh0, before) {
      ContentsSettled(j, eh0, before, start, placed, first, out, l);
    }
  }

  /** A header with the tables in the same places makes no difference to a layout. */
  lemma SamePlaces(j: Job, a: Ehdr, b: Ehdr, before: seq<Scn>, out: Outcome, l: Layout)
    requires a.phoff == b.phoff && a.shoff == b.shoff
    requires Settled(j, a, before, ContentsRejected(j, a, before, StartOf(j, a)), out, l)
    ensures Settled(j, b, before, ContentsRejected(j, b, before, StartOf(j, b)), out, l)
  {
  }

  /** _libelf_resync_elf once it has the header. */
  method ResyncHeader(e: Elf, eh0: Ehdr, ghost j: Job, ghost k: Kind) returns (out: Outcome, ghost l: Layout)
    requires j == JobOf(e) && k == KindOf(e)
    modifies e`scns, e`ehdr, e`byteorder
    ensures old(e.ehdr.Some?) ==> e.ehdr.Some?
    ensures out.Done? ==> e.ehdr == Some(l.eh) && e.scns == l.ss && e.byteorder == eh0.data
    ensures out.Done? ==> HeaderFilled(j, eh0, l.eh, l.end) && HeaderMatches(j, k, eh0)
    ensures !HeaderAccepted(eh0, j.version, k) ==>
              out == Error && e.ehdr == old(e.ehdr) && e.byteorder == old(e.byteorder)
    ensures out.Error? && HeaderAccepted(eh0, j.version, k) ==>
              && e.ehdr == Some(eh0.(ehsize := j.f.ehdr.fsize, phentsize := j.f.phdr.fsize,
                                     shentsize := j.f.shdr.fsize))
              && e.byteorder == eh0.data
    ensures Breaks(j, k, eh0, old(e.scns)) ==> out.Error?
    ensures !out.Crash? ==> Renumbered(old(e.scns), e.scns, Breaks(j, k, eh0, old(e.scns)))
    ensures Plain(j, eh0, old(e.scns)) ==>
              Settled(j, eh0, old(e.scns), Rejected(j, k, eh0, old(e.scns)), out, l)
  {
    ghost var before := e.scns;
    l := Layout(before, eh0, before, 0);
    SameNumbersReflexive(before);
    if !HeaderAccepted(eh0, e.version, Kind(e.klass, e.cmd, e.byteorder)) {
      return Error, l;
    }
    e.byteorder := eh0.data;
    var eh := eh0.(klass := e.klass, ehsize := e.format.ehdr.fsize,
                   phentsize := e.format.phdr.fsize, shentsize := e.format.shdr.fsize);
    e.ehdr := Some(eh);
    var ok, phoff, rc := PlacePhdrs(e.format, e.layout, eh, e.nphdr);
    if !ok {
      return Error, l;
    }
    ghost var filled := eh;
    out, eh, l := ResyncContents(e, eh, phoff, rc, j);
    if Plain(j, eh0, before) {
      SamePlaces(j, filled, eh0, before, out, l);
    }
    if out.Done? {
      e.ehdr := Some(eh);
    }
  }

  /** What a layout starts from: the header and the sections, once the header has been
      read in; whether it is refused, and whether it loses a section. */
  datatype Origin = Origin(j: Job, src: Sources, eh: Ehdr, scns: seq<Scn>, rejected: bool, lost: bool)

  /** A layout is refused for want of a header, or for what there is. */
  ghost predicate Begins(k: Kind, there: bool, o: Origin)
  {
    && (o.rejected <==> !there || Rejected(o.j, k, o.eh, o.scns))
    && (o.lost <==> there && Breaks(o.j, k, o.eh, o.scns))
  }

  /** There is a header, a new one can be made, or one can be read. */
  predicate HeaderThere(had: Option<Ehdr>, cmd: ElfCmd, f: Format, rawfile: Option<seq<Byte>>, v: X.View) {
    had.Some? || cmd == CmdWrite || X.HeaderReadable(f, rawfile, v)
  }

  /** Reading the header does not meet a section where section 0 has to go. */
  predicate Safe(had: Option<Ehdr>, cmd: ElfCmd, ss: seq<Scn>, v: X.View) {
    had.Some? || cmd == CmdWrite || ss == [] || !X.UsesScn0(v.ehdr)
  }

  /** The header is the one that was there, a new one, or the one in the file. */
  ghost predicate HeaderOf(e: Elf, v: X.View, had: Option<Ehdr>, eh: Ehdr)
    reads e
  {
    if had.Some? then eh == had.value
    else if e.cmd == CmdWrite then eh == X.NewEhdr(e.klass)
    else eh == v.ehdr && Some(X.Counts(e.nphdr, e.nscn, e.strndx)) == X.Decode(X.Fields(v.ehdr, v.shdr(0)))
  }

  /** How the layout of presentable sections ends: without a failed assertion if the
      number of sections is plain, with an error exactly if it is refused, and otherwise
      with everything in its place. */
  ghost predicate Settles(safe: bool, o: Origin, out: Outcome, l: Layout)
  {
    && (safe && o.j.shnum < SHN_LORESERVE ==> !out.Crash? && (out.Error? <==> o.rejected))
    && (out.Done? ==> LaidOut(o.j, o.eh, o.scns, l, out.rc))
  }

  /** _libelf_resync_elf for a descriptor with its header. */
  method ResyncWith(e: Elf, eh0: Ehdr) returns (out: Outcome, ghost o: Origin, ghost l: Layout)
    requires e.ehdr.Some?
    modifies e`scns, e`ehdr, e`byteorder
    ensures e.ehdr.Some? && o.j == JobOf(e) && o.src == SourcesOf(e) && o.eh == eh0 && o.scns == old(e.scns)
    ensures Begins(old(KindOf(e)), true, o)
    ensures out.Done? ==> e.ehdr == Some(l.eh) && e.scns == l.ss && e.byteorder == o.eh.data
    ensures out.Done? ==> HeaderFilled(o.j, o.eh, l.eh, l.end) && HeaderMatches(o.j, old(KindOf(e)), o.eh)
    ensures !out.Crash? ==> Renumbered(old(e.scns), e.scns, o.lost)
    ensures o.lost ==> out.Error? && 2 <= |o.scns|
    ensures !HeaderAccepted(o.eh, e.version, old(KindOf(e))) ==> out == Error
    ensures Plain(o.j, o.eh, o.scns) ==> Settles(true, o, out, l)
  {
    ghost var j, k := JobOf(e), KindOf(e);
    o := Origin(j, SourcesOf(e), eh0, e.scns, Rejected(j, k, eh0, e.scns), Breaks(j, k, eh0, e.scns));
    BreaksFromTwo(j, k, eh0, e.scns);
    out, l := ResyncHeader(e, eh0, j, k);
  }

  /** _libelf_resync_elf. */
  method ResyncElf(e: Elf, v: X.View) returns (out: Outcome, ghost o: Origin, ghost l: Layout)
    modifies e`scns, e`ehdr, e`byteorder, e`nphdr, e`nscn, e`strndx
    ensures o.j == JobOf(e) && o.src == old(SourcesOf(e))
    ensures out.Done? ==> e.ehdr == Some(l.eh) && e.scns == l.ss && e.byteorder == o.eh.data
    ensures out.Done? ==> HeaderFilled(o.j, o.eh, l.eh, l.end) && HeaderMatches(o.j, old(KindOf(e)), o.eh)
    ensures old(e.ehdr.Some?) || e.cmd == CmdWrite ==>
              e.nscn == old(e.nscn) && e.nphdr == old(e.nphdr) && e.strndx == old(e.strndx) && o.scns == old(e.scns)
    ensures var there := old(HeaderThere(e.ehdr, e.cmd, e.format, e.rawfile, v));
            old(Safe(e.ehdr, e.cmd, e.scns, v)) ==>
              Begins(old(KindOf(e)), there, o) && (there ==> HeaderOf(e, v, old(e.ehdr), o.eh))
    ensures out.Done? ==> HeaderOf(e, v, old(e.ehdr), o.eh)
    ensures o.scns == old(e.scns) || (old(e.scns) == [] && OnlyScn0(o.scns) && X.UsesScn0(v.ehdr))
    ensures !out.Crash? ==> Renumbered(old(e.scns), e.scns, o.lost)
    ensures e.ehdr == None ==> old(e.ehdr) == None && e.scns == old(e.scns)
    ensures o.lost ==> out.Error?
    ensures old(Safe(e.ehdr, e.cmd, e.scns, v)) && !HeaderAccepted(o.eh, e.version, old(KindOf(e))) ==> out == Error
    ensures Plain(o.j, o.eh, o.scns) ==> Settles(old(Safe(e.ehdr, e.cmd, e.scns, v)), o, out, l)
  {
    ghost var before := e.scns;
    SameNumbersReflexive(before);
    out := X.GetEhdr(e, v);
    if out.Done? {
      out, o, l := ResyncWith(e, e.ehdr.value);
      if !out.Crash? && o.scns != before {
        RenumberedTransitive(before, o.scns, e.scns);
      }
    } else {
      o := Origin(JobOf(e), SourcesOf(e), X.NewEhdr(e.klass), before, true, false);
      l := Layout(before, o.eh, before, 0);
    }
  }

  // --------------------------------------------- what an application has to provide

  /** A descriptor with a buffer of its size, holding whole entries. */
  predicate Buffered(t: Entry, d: Desc) {
    d.buf.Some? && |d.buf.value| == d.size && Aligned(d.size, t.msize)
  }

  ghost predicate AllBuffered(t: Entry, ds: seq<Desc>)
  {
    forall k :: 0 <= k < |ds| ==> Buffered(t, ds[k])
  }

  /** A modified section whose contents can be written once it has been accepted. */
  ghost predicate Complete(f: Format, layout: bool, rawfile: Option<seq<Byte>>, v: Scn, t: Entry)
  {
    && Aligned(SectionAlign(v.hdr, t), t.align)
    && (if v.descs == [] then
          rawfile.Some? ==> v.raw == [] && v.rawoff + (if layout then v.hdr.size else 0) <= |rawfile.value|
        else
          t.fsize == t.msize && AllBuffered(t, v.descs) && (layout ==> InOrder(v.descs, v.hdr.size)))
  }

  ghost predicate Preparable(f: Format, layout: bool, version: nat, rawfile: Option<seq<Byte>>, v: Scn)
  {
    if IsDirty(v) then f.entry(v.hdr.typ).Some? ==> Complete(f, layout, rawfile, v, f.entry(v.hdr.typ).value)
    else Writable(f, version, rawfile, v)
  }

  ghost predicate AllPreparable(f: Format, layout: bool, version: nat, rawfile: Option<seq<Byte>>, ss: seq<Scn>)
  {
    forall i :: 0 <= i < |ss| ==> Preparable(f, layout, version, rawfile, ss[i])
  }

  lemma BufferedAreWritable(f: Format, t: Entry, sht: nat, version: nat, ds: seq<Desc>, a: nat)
    requires FormatValid(f) && f.entry(sht) == Some(t) && t.fsize == t.msize
    requires AllBuffered(t, ds) && AllFit(ds, t.typ, version, a)
    ensures DescsWritable(f, t, version, ds)
  {
    forall k | 0 <= k < |ds|
      ensures DescWritable(f, t, version, ds[k])
    {
      assert Buffered(t, ds[k]) && DescriptorFits(ds[k], t.typ, version, a);
      SameSize(f, t, sht, ds[k]);
    }
  }

  lemma FinalAlignFits(f: Format, version: nat, v: Scn, t: Entry)
    requires f.entry(v.hdr.typ) == Some(t) && Acceptable(false, f, version, v)
    requires Aligned(SectionAlign(v.hdr, t), t.align)
    ensures Aligned(FinalAlign(f, v), t.align)
  {
    AcceptedAlignments(f, version, v);
    if v.descs != [] {
      MaxAlignBounds(v.descs, |v.descs|);
      var i :| 0 <= i < |v.descs| && v.descs[i].align == MaxAlign(v.descs, |v.descs|);
      assert DescriptorFits(v.descs[i], t.typ, version, SectionAlign(v.hdr, t));
      AlignedTransitive(v.descs[i].align, SectionAlign(v.hdr, t), t.align);
    }
  }

  lemma RelocatedStayBuffered(ds: seq<Desc>, a: nat, t: Entry, version: nat, shAlign: nat)
    requires a > 0 && AllBuffered(t, ds) && AllFit(ds, t.typ, version, shAlign)
    ensures AllBuffered(t, Relocated(ds, a)) && AllFit(Relocated(ds, a), t.typ, version, shAlign)
  {
    var r := Relocated(ds, a);
    forall k | 0 <= k < |r|
      ensures Buffered(t, r[k]) && DescriptorFits(r[k], t.typ, version, shAlign)
    {
      assert Buffered(t, ds[k]) && DescriptorFits(ds[k], t.typ, version, shAlign);
    }
  }

  /** A section that the library has placed can be written. */
  lemma PlacedIsWritable(f: Format, version: nat, rawfile: Option<seq<Byte>>, v: Scn, rc: nat)
    requires FormatValid(f) && IsDirty(v) && Acceptable(false, f, version, v)
    requires Preparable(f, false, version, rawfile, v)
    ensures Writable(f, version, rawfile, Placed(f, v, rc))
  {
    var t := f.entry(v.hdr.typ).value;
    var w := Placed(f, v, rc);
    PlacedIsTight(f, version, v, rc);
    FinalAlignFits(f, version, v, t);
    RoundupBounds(rc, FinalAlign(f, v));
    AlignedTransitive(w.offset, FinalAlign(f, v), t.align);
    if v.descs != [] {
      RelocatedStayBuffered(v.descs, FinalAlign(f, v), t, version, SectionAlign(v.hdr, t));
      BufferedAreWritable(f, t, v.hdr.typ, version, w.descs, SectionAlign(v.hdr, t));
    }
  }

  /** So can one that the application has placed. */
  lemma LaidOutIsWritable(f: Format, version: nat, rawfile: Option<seq<Byte>>, v: Scn, rc: nat)
    requires FormatValid(f) && IsDirty(v) && Acceptable(true, f, version, v)
    requires Preparable(f, true, version, rawfile, v)
    ensures Writable(f, version, rawfile, Extent(true, f, v, rc))
  {
    var t := f.entry(v.hdr.typ).value;
    AlignedTransitive(v.hdr.offset, SectionAlign(v.hdr, t), t.align);
    if v.descs != [] {
      BufferedAreWritable(f, t, v.hdr.typ, version, v.descs, SectionAlign(v.hdr, t));
    }
  }

  lemma FirstPassWritable(layout: bool, f: Format, version: nat, rawfile: Option<seq<Byte>>, ss: seq<Scn>, start: nat)
    requires FormatValid(f) && AllPreparable(f, layout, version, rawfile, ss)
    requires R.FirstPass(layout, f, version, ss, |ss|, start).Some?
    ensures AllWritable(f, version, rawfile, R.FirstPass(layout, f, version, ss, |ss|, start).value.scns)
  {
    var p := R.FirstPass(layout, f, version, ss, |ss|, start).value;
    forall i | 0 <= i < |ss|
      ensures Writable(f, version, rawfile, p.scns[i])
    {
      R.FirstPassAt(layout, f, version, ss, |ss|, start, i);
      var rc := R.FirstPass(layout, f, version, ss, i, start).value.end;
      assert Preparable(f, layout, version, rawfile, ss[i]);
      if IsDirty(ss[i]) {
        if layout {
          LaidOutIsWritable(f, version, rawfile, ss[i], rc);
        } else {
          PlacedIsWritable(f, version, rawfile, ss[i], rc);
        }
      }
    }
  }

  lemma WritablePermutes(f: Format, version: nat, rawfile: Option<seq<Byte>>, a: seq<Scn>, b: seq<Scn>)
    requires multiset(a) == multiset(b) && AllWritable(f, version, rawfile, a)
    ensures AllWritable(f, version, rawfile, b)
  {
    forall i | 0 <= i < |b|
      ensures Writable(f, version, rawfile, b[i])
    {
      assert b[i] in multiset(a);
      var j :| 0 <= j < |a| && a[j] == b[i];
    }
  }

  /** The program header table of the application: present, of the right size, and
      directly behind the ELF header. */
  ghost predicate PhdrsComplete(f: Format, layout: bool, eh: Ehdr, phnum: nat, phdr: Option<seq<Byte>>)
  {
    phnum > 0 ==>
      && Phoff(f, layout, eh, phnum) == f.ehdr.fsize
      && (phdr.Some? ==> |phdr.value| == Times(phnum, f.phdr.msize))
  }

  /** Section 0 has no contents. */
  ghost predicate NullFirst(ss: seq<Scn>)
  {
    forall i :: 0 <= i < |ss| && ss[i].ndx == 0 ==> ss[i].hdr.typ == SHT_NULL
  }

  /** What elf_update relies on, other than the number of sections. */
  ghost predicate Complies(j: Job, src: Sources, eh: Ehdr, ss: seq<Scn>)
  {
    && FormatValid(j.f) && Plain(j, eh, ss) && NullFirst(ss)
    && PhdrsComplete(j.f, j.layout, eh, j.phnum, src.phdr)
    && AllPreparable(j.f, j.layout, j.version, src.rawfile, ss)
  }

  /** The number of sections fits the header, and is that of the list. */
  predicate Countable(nscn: nat, ss: seq<Scn>) {
    nscn == |ss| < SHN_LORESERVE
  }

  /** Placing sections keeps their number, and section 0 without contents. */
  lemma PlacedAreWritable(j: Job, rawfile: Option<seq<Byte>>, start: nat, before: seq<Scn>, placed: seq<Scn>, end: nat)
    requires FormatValid(j.f) && AllPreparable(j.f, j.layout, j.version, rawfile, before) && NullFirst(before)
    requires R.AllAnchored(j.layout, start, before)
    requires R.InPlace(j.layout, j.f, j.version, before, start, placed, end)
    ensures AllWritable(j.f, j.version, rawfile, placed) && |placed| == |before|
    ensures placed != [] && placed[0].ndx == 0 ==> IsPassive(placed[0].hdr)
  {
    var p := R.FirstPass(j.layout, j.f, j.version, before, |before|, start).value;
    FirstPassWritable(j.layout, j.f, j.version, rawfile, before, start);
    WritablePermutes(j.f, j.version, rawfile, p.scns, placed);
    assert |placed| == |multiset(placed)| == |p.scns|;
    if placed != [] && placed[0].ndx == 0 {
      assert placed[0] in multiset(p.scns);
      var i :| 0 <= i < |p.scns| && p.scns[i] == placed[0];
      assert R.Anchored(j.layout, start, before[i]);
      R.FirstPassSettles(j.layout, j.f, j.version, before, start, i);
    }
  }

  /** Numbering leaves what is ready to be written ready. */
  lemma NumberedStaysReady(f: Format, version: nat, rawfile: Option<seq<Byte>>, shnum: nat, l: Layout, start: nat)
    requires Numbered(shnum, l.placed, l.eh, l.ss) && SectionsReady(f, version, rawfile, l.placed, start, l.end)
    requires l.placed != [] && l.placed[0].ndx == 0 ==> IsPassive(l.placed[0].hdr)
    ensures SectionsReady(f, version, rawfile, l.ss, start, l.end)
  {
    if shnum >= SHN_LORESERVE {
      var placed, ss := l.placed, l.ss;
      assert IsPassive(ss[0].hdr) && |ss| == |X.WithScn0(placed)|;
      forall i | 0 <= i < |ss|
        ensures SectionReady(f, version, rawfile, ss, i, start, l.end)
      {
        if i > 0 {
          assert SectionReady(f, version, rawfile, placed, i, start, l.end);
          FrontierSkipsFirst(placed, ss, i, start);
        }
      }
    }
  }

  lemma {:induction false} FrontierSkipsFirst(a: seq<Scn>, b: seq<Scn>, k: nat, start: nat)
    requires 0 < k <= |a| == |b| && IsPassive(a[0].hdr) && IsPassive(b[0].hdr) && a[1..] == b[1..]
    ensures Frontier(a, k, start) == Frontier(b, k, start)
  {
    if k > 1 {
      FrontierSkipsFirst(a, b, k - 1, start);
      assert a[k - 1] == a[1..][k - 2] && b[k - 1] == b[1..][k - 2];
    } else {
      assert Frontier(a, 0, start) == start && Frontier(b, 0, start) == start;
    }
  }

  /** What has been laid out can be written, up to the section header table. */
  lemma LaidOutIsReady(j: Job, src: Sources, eh0: Ehdr, before: seq<Scn>, l: Layout, rc: nat)
    requires Complies(j, src, eh0, before) && LaidOut(j, eh0, before, l, rc)
    ensures FrontReady(j.f, j.version, l.eh, j.phnum, src.phdr, src.rawfile, l.ss, l.end) && l.end <= rc
    ensures Countable(j.shnum, before) ==>
              Ready(j.f, j.version, l.eh, j.phnum, src.phdr, src.rawfile, l.ss, l.end, rc)
    ensures j.shnum < SHN_LORESERVE ==> |l.ss| == |before|
    ensures StartOf(j, eh0) <= l.end
  {
    var start := StartOf(j, eh0);
    PlacedAreWritable(j, src.rawfile, start, before, l.placed, l.end);
    ArrangedAreReady(j.f, j.version, src.rawfile, l.placed, start, l.end);
    NumberedStaysReady(j.f, j.version, src.rawfile, j.shnum, l, start);
    if j.phnum > 0 && src.phdr.Some? {
      PhdrSize(j.f, j.phnum, src.phdr.value);
    }
  }

  // ------------------------------------------------------- what there is to be written

  /** There is something to write for every part of the file. */
  ghost predicate AllThere(byteorder: nat, phnum: nat, src: Sources, ss: seq<Scn>)
  {
    HeadersGiven(byteorder, phnum, src.phdr) && AllGiven(src.rawfile, ss, |ss|)
  }

  lemma StepStaysGiven(layout: bool, f: Format, version: nat, rawfile: Option<seq<Byte>>, v: Scn, rc: nat)
    requires SectionStep(layout, f, version, v, rc).Some?
    ensures Given(rawfile, SectionStep(layout, f, version, v, rc).value) <==> Given(rawfile, v)
  {
    var w := SectionStep(layout, f, version, v, rc).value;
    assert |w.descs| == |v.descs| && IsPassive(w.hdr) == IsPassive(v.hdr);
    NoneEmptySame(v.descs, w.descs, |v.descs|);
  }

  lemma FirstPassStaysGiven(layout: bool, f: Format, version: nat, rawfile: Option<seq<Byte>>, ss: seq<Scn>, start: nat)
    requires R.FirstPass(layout, f, version, ss, |ss|, start).Some?
    ensures AllGiven(rawfile, R.FirstPass(layout, f, version, ss, |ss|, start).value.scns, |ss|)
            <==> AllGiven(rawfile, ss, |ss|)
  {
    var p := R.FirstPass(layout, f, version, ss, |ss|, start).value;
    forall i | 0 <= i < |ss|
      ensures Given(rawfile, p.scns[i]) <==> Given(rawfile, ss[i])
    {
      R.FirstPassAt(layout, f, version, ss, |ss|, start, i);
      StepStaysGiven(layout, f, version, rawfile, ss[i], R.FirstPass(layout, f, version, ss, i, start).value.end);
    }
    AllGivenIff(rawfile, p.scns, |ss|);
    AllGivenIff(rawfile, ss, |ss|);
  }

  lemma GivenPermutes(rawfile: Option<seq<Byte>>, a: seq<Scn>, b: seq<Scn>)
    requires multiset(a) == multiset(b) && AllGiven(rawfile, a, |a|)
    ensures AllGiven(rawfile, b, |b|)
  {
    AllGivenIff(rawfile, a, |a|);
    AllGivenIff(rawfile, b, |b|);
    forall i | 0 <= i < |b|
      ensures Given(rawfile, b[i])
    {
      var k := PermutationFinds(b, a, b[i]);
    }
  }

  lemma NumberedStaysGiven(rawfile: Option<seq<Byte>>, shnum: nat, placed: seq<Scn>, eh: Ehdr, ss: seq<Scn>)
    requires Numbered(shnum, placed, eh, ss)
    requires placed != [] && placed[0].ndx == 0 ==> IsPassive(placed[0].hdr)
    ensures AllGiven(rawfile, ss, |ss|) <==> AllGiven(rawfile, placed, |placed|)
  {
    AllGivenIff(rawfile, ss, |ss|);
    AllGivenIff(rawfile, placed, |placed|);
    if shnum >= SHN_LORESERVE && placed != [] {
      assert forall i :: 0 < i < |ss| ==> ss[i] == placed[i];
    }
  }

  /** A layout neither adds nor takes away contents. */
  lemma LaidOutStaysGiven(j: Job, src: Sources, eh0: Ehdr, before: seq<Scn>, l: Layout, rc: nat)
    requires Complies(j, src, eh0, before) && LaidOut(j, eh0, before, l, rc)
    ensures AllGiven(src.rawfile, l.ss, |l.ss|) <==> AllGiven(src.rawfile, before, |before|)
  {
    var start := StartOf(j, eh0);
    var p := R.FirstPass(j.layout, j.f, j.version, before, |before|, start).value;
    FirstPassStaysGiven(j.layout, j.f, j.version, src.rawfile, before, start);
    if AllGiven(src.rawfile, p.scns, |p.scns|) {
      GivenPermutes(src.rawfile, p.scns, l.placed);
    }
    if AllGiven(src.rawfile, l.placed, |l.placed|) {
      GivenPermutes(src.rawfile, l.placed, p.scns);
    }
    PlacedAreWritable(j, src.rawfile, start, before, l.placed, l.end);
    NumberedStaysGiven(src.rawfile, j.shnum, l.placed, l.eh, l.ss);
  }

  // --------------------------------------------------------------------- the update

  /** _libelf_write_elf, for writes that succeed. */
  method WriteElf(e: Elf, newsize: nat, fill: Byte, ghost end: nat, ghost front: bool, ghost good: bool)
    returns (out: Outcome, image: seq<Cell>)
    requires e.ehdr.Some?
    requires front ==> FrontReady(e.format, e.version, e.ehdr.value, e.nphdr, e.phdr, e.rawfile, e.scns, end)
    requires front ==> end <= newsize
    requires good ==> front
    requires good ==> Ready(e.format, e.version, e.ehdr.value, e.nphdr, e.phdr, e.rawfile, e.scns, end, newsize)
    modifies e`scns, e`ehdr, e`phdr, e`rawfile
    ensures front ==> (out.Error? <==> !old(AllThere(e.byteorder, e.nphdr, SourcesOf(e), e.scns)))
    ensures front && out.Done? && old(e.ehdr.value.shnum) == 0 ==> newsize <= end
    ensures front && out.Done? && old(e.ehdr.value.shnum != 0 && e.ehdr.value.shoff != 0) ==>
              newsize == old(e.ehdr.value.shoff + Times(|e.scns|, e.format.shdr.fsize))
    ensures good ==> !out.Crash?
    ensures good && out.Done? ==>
              Holds(image, old(FilePieces(e.format, e.ehdr.value, e.nphdr, e.phdr, e.rawfile, e.scns)), fill, |image|)
    ensures !out.Done? ==> e.scns == old(e.scns) && e.ehdr == old(e.ehdr)
    ensures out.Done? ==>
              && out.rc == newsize == |image|
              && e.scns == [] && e.ehdr == None && e.phdr == None
              && e.rawfile == if e.cmd == CmdWrite then old(e.rawfile) else Some(BytesOf(image))
  {
    out, image := BuildImage(e.format, e.version, e.byteorder, e.ehdr.value, e.nphdr, e.phdr, e.rawfile, e.scns,
                             newsize, fill, end, front, good);
    if out.Done? {
      if e.cmd != CmdWrite {
        e.rawfile := Some(BytesOf(image));
      }
      e.scns, e.ehdr, e.phdr := [], None, None;
    }
  }

  /** A table of another number of entries has another size. */
  lemma SizesDiffer(f: Format, a: nat, b: nat)
    requires Times(a, f.shdr.fsize) == Times(b, f.shdr.fsize)
    ensures a == b
  {
    if a < b {
      TimesGrows(a, b, f.shdr.fsize);
    } else if b < a {
      TimesGrows(b, a, f.shdr.fsize);
    }
  }

  /** The bytes written agree with the size of the layout only if the number of
      sections is that of the list and needs no extended numbering. */
  lemma OnlyCountable(j: Job, src: Sources, eh0: Ehdr, before: seq<Scn>, l: Layout, rc: nat)
    requires Complies(j, src, eh0, before) && LaidOut(j, eh0, before, l, rc) && j.shnum > 0
    requires l.eh.shnum == 0 ==> rc <= l.end
    requires l.eh.shnum != 0 && l.eh.shoff != 0 ==> rc == l.eh.shoff + Times(|l.ss|, j.f.shdr.fsize)
    ensures Countable(j.shnum, before)
  {
    LaidOutIsReady(j, src, eh0, before, l, rc);
    if j.shnum < SHN_LORESERVE {
      SizesDiffer(j.f, j.shnum, |l.ss|);
    }
  }

  /** Write what ResyncElf has laid out. */
  method WriteLaidOut(e: Elf, newsize: nat, fill: Byte, ghost eh0: Ehdr, ghost before: seq<Scn>, ghost l: Layout,
                      ghost front: bool)
    returns (out: Outcome, image: seq<Cell>)
    requires e.ehdr == Some(l.eh) && e.scns == l.ss
    requires front ==> Complies(JobOf(e), SourcesOf(e), eh0, before) && LaidOut(JobOf(e), eh0, before, l, newsize)
    modifies e`scns, e`ehdr, e`phdr, e`rawfile
    ensures front ==> (out.Error? <==> !old(AllThere(e.byteorder, e.nphdr, SourcesOf(e), before)))
    ensures front && out.Done? && e.nscn > 0 ==> Countable(e.nscn, before)
    ensures front && Countable(e.nscn, before) ==> !out.Crash?
    ensures front && Countable(e.nscn, before) && out.Done? ==>
              Holds(image, FilePieces(e.format, l.eh, e.nphdr, old(e.phdr), old(e.rawfile), l.ss), fill, |image|)
    ensures !out.Done? ==> e.scns == old(e.scns) && e.ehdr == old(e.ehdr)
    ensures out.Done? ==>
              && out.rc == newsize == |image|
              && e.scns == [] && e.ehdr == None && e.phdr == None
              && e.rawfile == if e.cmd == CmdWrite then old(e.rawfile) else Some(BytesOf(image))
  {
    ghost var j, src := JobOf(e), SourcesOf(e);
    if front {
      LaidOutIsReady(j, src, eh0, before, l, newsize);
      LaidOutStaysGiven(j, src, eh0, before, l, newsize);
    }
    out, image := WriteElf(e, newsize, fill, l.end, front, front && Countable(e.nscn, before));
    if front && out.Done? && e.nscn > 0 {
      OnlyCountable(j, src, eh0, before, l, newsize);
    }
  }

  /** What elf_update does with a descriptor that complies.  It ends in an error exactly if
      the layout is refused or something to be written is missing.  A file with sections is
      written only if their number is that of the list and needs no extended numbering;
      and then no assertion fails. */
  ghost predicate Completed(write: bool, attached: bool, fill: Byte, safe: bool,
                            o: Origin, out: Outcome, image: seq<Cell>, l: Layout)
  {
    && (out.Done? && write && o.j.shnum > 0 ==> Countable(o.j.shnum, o.scns))
    && (safe && Countable(o.j.shnum, o.scns) ==> !out.Crash?)
    && (safe && o.j.shnum < SHN_LORESERVE ==>
          (out.Error? <==> o.rejected || (write && !(attached && AllThere(o.eh.data, o.j.phnum, o.src, o.scns)))))
    && (out.Done? ==> LaidOut(o.j, o.eh, o.scns, l, out.rc))
    && (Countable(o.j.shnum, o.scns) && out.Done? && write ==>
          Holds(image, FilePieces(o.j.f, l.eh, o.j.phnum, o.src.phdr, o.src.rawfile, l.ss), fill, |image|))
  }

  /** The end of elf_update: write the file, if it has been laid out and that was asked
      for. */
  method Finish(e: Elf, laid: Outcome, write: bool, fill: Byte, ghost safe: bool, ghost o: Origin, ghost l: Layout)
    returns (out: Outcome, image: seq<Cell>)
    requires o.j == JobOf(e) && o.src == SourcesOf(e)
    requires laid.Done? ==> e.ehdr == Some(l.eh) && e.scns == l.ss && e.byteorder == o.eh.data
    requires Plain(o.j, o.eh, o.scns) ==> Settles(safe, o, laid, l)
    modifies e`scns, e`ehdr, e`phdr, e`rawfile
    ensures Complies(o.j, o.src, o.eh, o.scns) ==> Completed(write, e.attached, fill, safe, o, out, image, l)
    ensures !laid.Done? || (write && !e.attached) ==> out == if laid.Done? then Error else laid
    ensures !(out.Done? && write) ==> e.scns == old(e.scns) && e.ehdr == old(e.ehdr)
    ensures out.Done? && write ==>
              && out.rc == |image| && e.scns == [] && e.ehdr == None && e.phdr == None
              && e.rawfile == if e.cmd == CmdWrite then old(e.rawfile) else Some(BytesOf(image))
  {
    out, image := laid, [];
    if laid.Done? && write {
      if e.attached {
        ghost var front := Complies(o.j, o.src, o.eh, o.scns);
        out, image := WriteLaidOut(e, laid.rc, fill, o.eh, o.scns, l, front);
      } else {
        out := Error;
      }
    }
  }

  /** elf_update past its checks.  `o` is what the layout starts from, `l` what it comes to. */
  method LayOutAndWrite(e: Elf, v: X.View, write: bool, fill: Byte)
    returns (out: Outcome, image: seq<Cell>, ghost o: Origin, ghost l: Layout)
    modifies e`scns, e`ehdr, e`phdr, e`rawfile, e`byteorder, e`nphdr, e`nscn, e`strndx
    ensures o.j == JobOf(e) && o.src == old(SourcesOf(e))
    ensures old(e.ehdr.Some?) || e.cmd == CmdWrite ==>
              e.nscn == old(e.nscn) && e.nphdr == old(e.nphdr) && e.strndx == old(e.strndx) && o.scns == old(e.scns)
    ensures var there := old(HeaderThere(e.ehdr, e.cmd, e.format, e.rawfile, v));
            old(Safe(e.ehdr, e.cmd, e.scns, v)) ==>
              Begins(old(KindOf(e)), there, o) && (there ==> HeaderOf(e, v, old(e.ehdr), o.eh))
    ensures out.Done? ==> HeaderOf(e, v, old(e.ehdr), o.eh)
    ensures out.Done? ==> HeaderFilled(o.j, o.eh, l.eh, l.end) && HeaderMatches(o.j, old(KindOf(e)), o.eh)
    ensures o.scns == old(e.scns) || (old(e.scns) == [] && OnlyScn0(o.scns) && X.UsesScn0(v.ehdr))
    ensures !out.Crash? && !(out.Done? && write) ==> Renumbered(old(e.scns), e.scns, o.lost)
    ensures !(out.Done? && write) && e.ehdr == None ==> old(e.ehdr) == None && e.scns == old(e.scns)
    ensures o.lost ==> out.Error?
    ensures Complies(o.j, o.src, o.eh, o.scns) ==>
              Completed(write, e.attached, fill, old(Safe(e.ehdr, e.cmd, e.scns, v)), o, out, image, l)
    ensures out.Done? && !write ==> e.scns == l.ss && e.ehdr == Some(l.eh)
    ensures out.Done? && write ==>
              && out.rc == |image| && e.scns == [] && e.ehdr == None && e.phdr == None
              && e.rawfile == if e.cmd == CmdWrite then old(e.rawfile) else Some(BytesOf(image))
  {
    ghost var safe := Safe(e.ehdr, e.cmd, e.scns, v);
    var laid;
    laid, o, l := ResyncElf(e, v);
    out, image := Finish(e, laid, write, fill, safe, o, l);
  }

  /** The arguments that elf_update refuses: another command, a descriptor without
      a class, or writing to a descriptor opened for reading. */
  predicate Refused(klass: nat, cmd: ElfCmd, c: ElfCmd) {
    (c != CmdNull && c != CmdWrite) || (klass != 1 && klass != 2) || (c == CmdWrite && cmd == CmdRead)
  }

  /** elf_update.  Whatever the outcome short of a failed assertion, a layout keeps the
      numbers of the sections, or it reports an error and one of them is lost. */
  method Update(e: Elf, v: X.View, c: ElfCmd, fill: Byte)
    returns (out: Outcome, image: seq<Cell>, ghost o: Origin, ghost l: Layout)
    modifies e`scns, e`ehdr, e`phdr, e`rawfile, e`byteorder, e`nphdr, e`nscn, e`strndx
    ensures o.j == JobOf(e) && o.src == old(SourcesOf(e))
    ensures Refused(e.klass, e.cmd, c) ==> out == Error && e.scns == old(e.scns) && e.ehdr == old(e.ehdr)
    ensures old(e.ehdr.Some?) || e.cmd == CmdWrite ==>
              e.nscn == old(e.nscn) && e.nphdr == old(e.nphdr) && e.strndx == old(e.strndx) && o.scns == old(e.scns)
    ensures var there := old(HeaderThere(e.ehdr, e.cmd, e.format, e.rawfile, v));
            && (c == CmdNull || (c == CmdWrite && e.cmd != CmdRead)) && (e.klass == 1 || e.klass == 2)
            && old(Safe(e.ehdr, e.cmd, e.scns, v)) ==>
              Begins(old(KindOf(e)), there, o) && (there ==> HeaderOf(e, v, old(e.ehdr), o.eh))
    ensures old(e.ehdr.Some?) || out.Done? ==> HeaderOf(e, v, old(e.ehdr), o.eh)
    ensures out.Done? ==> HeaderFilled(o.j, o.eh, l.eh, l.end) && HeaderMatches(o.j, old(KindOf(e)), o.eh)
    ensures out.Done? ==> (c == CmdNull || (c == CmdWrite && e.cmd != CmdRead)) && (e.klass == 1 || e.klass == 2)
    ensures o.scns == old(e.scns) || (old(e.scns) == [] && OnlyScn0(o.scns) && X.UsesScn0(v.ehdr))
    ensures !out.Crash? && !(out.Done? && c == CmdWrite) ==> Renumbered(old(e.scns), e.scns, o.lost)
    ensures !(out.Done? && c == CmdWrite) && e.ehdr == None ==> old(e.ehdr) == None && e.scns == old(e.scns)
    ensures o.lost ==> out.Error?
    ensures Complies(o.j, o.src, o.eh, o.scns) ==>
              Completed(c == CmdWrite, e.attached, fill, old(Safe(e.ehdr, e.cmd, e.scns, v)), o, out, image, l)
    ensures out.Done? && c == CmdNull ==> e.scns == l.ss && e.ehdr == Some(l.eh)
    ensures out.Done? && c == CmdWrite ==>
              && out.rc == |image| && e.scns == [] && e.ehdr == None && e.phdr == None
              && e.rawfile == if e.cmd == CmdWrite then old(e.rawfile) else Some(BytesOf(image))
  {
    if Refused(e.klass, e.cmd, c) {
      ghost var eh := if e.ehdr.Some? then e.ehdr.value else X.NewEhdr(e.klass);
      o := Origin(JobOf(e), SourcesOf(e), eh, e.scns, true, false);
      l := Layout(e.scns, o.eh, e.scns, 0);
      SameNumbersReflexive(e.scns);
      return Error, [], o, l;
    }
    out, image, o, l := LayOutAndWrite(e, v, c == CmdWrite, fill);
  }
}
