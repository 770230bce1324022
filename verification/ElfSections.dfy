/** elf_getscn and elf_newscn of elf_scn.c, with the loading of headers and
    sections that they share. */
module ElfSections {
  import opened Basics
  import opened ElfModel
  import opened Alignment
  import R = ElfResync
  import X = ElfExtended
  import U = ElfUpdate

  function LoadedScn(v: X.View, i: nat): Scn {
    Scn(i, v.shdr(i), false, v.shdr(i).offset, v.shdr(i).offset, v.shdr(i).size, [], [])
  }

  /** Section `k` with its header, where the header says, and nothing of it changed. */
  ghost predicate AsInFile(s: Scn, hdr: Shdr, k: nat)
  {
    && s.ndx == k && s.hdr == hdr && !s.dirty
    && s.offset == s.rawoff == hdr.offset && s.size == hdr.size
    && s.descs == [] && s.raw == [] && R.Loaded(s)
  }

  // ------------------------------------------------------------------- the numbers

  lemma {:induction false} NumberIsHeld(ss: seq<Scn>, i: nat)
    ensures Count(ss, i) > 0 <==> exists k :: 0 <= k < |ss| && ss[k].ndx == i
  {
    if ss != [] {
      var m := |ss| - 1;
      NumberIsHeld(ss[..m], i);
      if Count(ss[..m], i) > 0 {
        var k :| 0 <= k < |ss[..m]| && ss[..m][k].ndx == i;
        assert ss[k].ndx == i;
      }
    }
  }

  /** In an indexed list, a number is found exactly if it is below `n`. */
  lemma IndexedHolds(ss: seq<Scn>, n: nat, i: nat)
    requires Indexed(ss, n)
    ensures (exists k :: 0 <= k < |ss| && ss[k].ndx == i) <==> i < n
  {
    NumberIsHeld(ss, i);
  }

  /** No two sections of an indexed list have the same number. */
  lemma IndexedOnce(ss: seq<Scn>, n: nat, j: nat, k: nat)
    requires Indexed(ss, n) && j < k < |ss|
    ensures ss[j].ndx != ss[k].ndx
  {
    var rest := ss[..k] + ss[k + 1..];
    CountWithout(ss, k, ss[j].ndx);
    NumberIsHeld(rest, ss[j].ndx);
    assert rest[j] == ss[j];
    assert Count(ss, ss[j].ndx) <= 1;
  }

  /** Appending the next number keeps a list indexed. */
  lemma IndexedExtends(ss: seq<Scn>, n: nat, s: Scn)
    requires Indexed(ss, n) && s.ndx == n
    ensures Indexed(ss + [s], n + 1)
  {
    assert (ss + [s])[..|ss|] == ss;
  }

  /** An indexed list has as many sections as its count says. */
  lemma {:induction false} IndexedLength(ss: seq<Scn>, n: nat)
    requires Indexed(ss, n)
    ensures |ss| == n
    decreases n
  {
    if n == 0 {
      if ss != [] {
        NumberIsHeld(ss, ss[0].ndx);
      }
    } else {
      NumberIsHeld(ss, n - 1);
      var k :| 0 <= k < |ss| && ss[k].ndx == n - 1;
      var rest := ss[..k] + ss[k + 1..];
      forall i | 0 <= i
        ensures Count(rest, i) == if i < n - 1 then 1 else 0
      {
        CountWithout(ss, k, i);
      }
      IndexedLength(rest, n - 1);
    }
  }

  // ------------------------------------------------------------------- consistency

  /** The section list is complete: nothing is read from the file any more. */
  predicate Complete(cmd: ElfCmd, loaded: bool) {
    cmd == CmdWrite || loaded
  }

  /** A complete list is indexed by its count.  The one exception is a file whose
      section 0 holds a count of zero. */
  ghost predicate Consistent(cmd: ElfCmd, loaded: bool, ehdr: Option<Ehdr>, ss: seq<Scn>, nscn: nat)
  {
    && (ehdr == None ==> !loaded && ss == [] && (cmd == CmdWrite ==> nscn == 0))
    && (Complete(cmd, loaded) ==> Indexed(ss, nscn) || (OnlyScn0(ss) && nscn == 0))
    && (!Complete(cmd, loaded) ==> ss == [] || OnlyScn0(ss))
  }

  ghost predicate IsConsistent(e: Elf)
    reads e
  {
    Consistent(e.cmd, e.shdrsLoaded, e.ehdr, e.scns, e.nscn)
  }

  /** A descriptor is consistent when elf_begin hands it out. */
  method Begin(format: Format, klass: nat, cmd: ElfCmd, byteorder: nat, rawfile: Option<seq<Byte>>) returns (e: Elf)
    ensures fresh(e) && IsConsistent(e) && (cmd != CmdWrite ==> ToBeLoaded(e))
    ensures e.format == format && e.klass == klass && e.cmd == cmd && e.byteorder == byteorder && e.rawfile == rawfile
  {
    e := new Elf(format, klass, cmd, byteorder, rawfile);
  }

  // ------------------------------------------------------------------- the methods

  /** _libelf_load_scn. */
  method LoadScns(e: Elf, v: X.View) returns (out: Outcome)
    requires e.ehdr.Some? && !e.shdrsLoaded && e.cmd != CmdWrite
    modifies e`scns, e`shdrsLoaded
    ensures out.Done? ==> e.shdrsLoaded
    ensures !out.Done? ==> !e.shdrsLoaded && e.scns == old(e.scns)
    ensures out.Error? <==> !TableInFile(e.format, e.rawfile, e.ehdr.value, e.nscn)
    ensures out.Crash? <==> |old(e.scns)| > 1 && TableInFile(e.format, e.rawfile, e.ehdr.value, e.nscn)
    ensures old(IsConsistent(e)) ==> IsConsistent(e)
    ensures out.Done? ==> |e.scns| == Max(e.nscn, |old(e.scns)|) && IsTable(e.scns, old(e.scns), v)
    ensures out.Done? ==> AllEntriesInFile(e.format, e.rawfile, e.ehdr.value, e.nscn)
  {
    if !TableInFile(e.format, e.rawfile, e.ehdr.value, e.nscn) {
      return Error;
    }
    if |e.scns| > 1 {
      return Crash;
    }
    FirstIndexed(e.scns, IsConsistent(e));
    e.scns := LoadTable(e.scns, e.nscn, v, IsConsistent(e));
    e.shdrsLoaded := true;
    EntriesInFile(e.format, e.rawfile, e.ehdr.value, e.nscn);
    return Done(0);
  }

  lemma FirstIndexed(first: seq<Scn>, consistent: bool)
    requires consistent && first != [] ==> OnlyScn0(first)
    ensures consistent ==> Indexed(first, |first|)
  {
    if consistent && first != [] {
      assert first[..0] == [];
    }
  }

  /** The list is `first` and the sections of the table behind it. */
  ghost predicate IsTable(ss: seq<Scn>, first: seq<Scn>, v: X.View)
  {
    && first <= ss
    && forall k :: |first| <= k < |ss| ==> ss[k] == LoadedScn(v, k) && AsInFile(ss[k], v.shdr(k), k)
  }

  /** The loop over the section headers, behind a section 0 that is there already. */
  method LoadTable(first: seq<Scn>, n: nat, v: X.View, ghost consistent: bool) returns (ss: seq<Scn>)
    requires consistent ==> Indexed(first, |first|)
    ensures |ss| == Max(n, |first|) && IsTable(ss, first, v)
    ensures consistent ==> Indexed(ss, |ss|)
  {
    ss := first;
    var i := |first|;
    while i < n
      invariant |first| <= i == |ss| <= Max(n, |first|)
      invariant IsTable(ss, first, v)
      invariant consistent ==> Indexed(ss, i)
    {
      IndexedStep(ss, i, LoadedScn(v, i), consistent);
      ss := ss + [LoadedScn(v, i)];
      i := i + 1;
    }
  }

  lemma IndexedStep(ss: seq<Scn>, n: nat, s: Scn, given: bool)
    requires (given ==> Indexed(ss, n)) && s.ndx == n
    ensures given ==> Indexed(ss + [s], n + 1)
  {
    if given {
      IndexedExtends(ss, n, s);
    }
  }

  /** The check of the header before the table is read. */
  predicate TableInFile(f: Format, rawfile: Option<seq<Byte>>, eh: Ehdr, nscn: nat) {
    rawfile.Some? && eh.shentsize == f.shdr.fsize && eh.shoff + Times(nscn, f.shdr.fsize) <= |rawfile.value|
  }

  /** The table has entries of the right size, and the file all of them. */
  ghost predicate AllEntriesInFile(f: Format, rawfile: Option<seq<Byte>>, eh: Ehdr, nscn: nat)
  {
    && rawfile.Some? && eh.shentsize == f.shdr.fsize
    && forall k :: 0 <= k < nscn ==> eh.shoff + Times(k, f.shdr.fsize) + f.shdr.fsize <= |rawfile.value|
  }

  lemma EntriesInFile(f: Format, rawfile: Option<seq<Byte>>, eh: Ehdr, nscn: nat)
    requires TableInFile(f, rawfile, eh, nscn)
    ensures AllEntriesInFile(f, rawfile, eh, nscn)
  {
    forall k | 0 <= k < nscn
      ensures Times(k, f.shdr.fsize) + f.shdr.fsize <= Times(nscn, f.shdr.fsize)
    {
      TimesGrows(k, nscn, f.shdr.fsize);
    }
  }

  /** The file holds the header, and the section headers that it speaks of. */
  predicate FitsFile(f: Format, rawfile: Option<seq<Byte>>, eh: Ehdr) {
    X.HeaderInFile(f, rawfile) && X.HasTable(eh) && TableInFile(f, rawfile, eh, eh.shnum)
  }

  /** What both calls begin with. */
  method Prepare(e: Elf, v: X.View) returns (out: Outcome)
    modifies e`ehdr, e`nphdr, e`nscn, e`strndx, e`scns, e`shdrsLoaded
    ensures old(IsConsistent(e)) ==> IsConsistent(e) && !out.Crash?
    ensures out.Done? ==> e.ehdr.Some? && Complete(e.cmd, e.shdrsLoaded)
    ensures old(e.ehdr.Some? && Complete(e.cmd, e.shdrsLoaded)) ==>
              out == Done(0) && e.scns == old(e.scns) && e.nscn == old(e.nscn)
    ensures old(Written(e)) && (e.cmd == CmdWrite || !X.UsesScn0(v.ehdr)) ==> e.scns == []
    ensures e.cmd == CmdWrite ==> out == Done(0) && e.nscn == old(e.nscn)
    ensures e.nscn == 0 ==> e.scns == old(e.scns) || (old(e.ehdr == None) && X.UsesScn0(v.ehdr))
    ensures old(Written(e)) && out.Done? && e.cmd != CmdWrite && !X.UsesScn0(v.ehdr) ==> e.nscn == v.ehdr.shnum
    ensures old(ToBeLoaded(e)) && FitsFile(e.format, e.rawfile, v.ehdr) ==>
              && out.Done? && Indexed(e.scns, e.nscn) && e.nscn == v.ehdr.shnum == |e.scns|
              && forall k :: 0 <= k < e.nscn ==> e.scns[k] == LoadedScn(v, k)
  {
    out := X.GetEhdr(e, v);
    if out.Done? && e.cmd != CmdWrite && !e.shdrsLoaded {
      out := LoadScns(e, v);
    }
  }

  /** elf_getscn: the section with the number asked for. */
  method GetScn(e: Elf, v: X.View, index: nat) returns (out: Outcome, r: Option<Scn>)
    modifies e`ehdr, e`nphdr, e`nscn, e`strndx, e`scns, e`shdrsLoaded
    ensures old(IsConsistent(e)) ==> IsConsistent(e) && !out.Crash?
    ensures r.Some? ==> r.value in e.scns && r.value.ndx == index
    ensures out.Done? && Indexed(e.scns, e.nscn) ==> (r.Some? <==> index < e.nscn)
    ensures old(Written(e)) && (e.cmd == CmdWrite || !X.UsesScn0(v.ehdr)) ==> r == None
    ensures old(ToBeLoaded(e)) && FitsFile(e.format, e.rawfile, v.ehdr) ==>
              r == if index < v.ehdr.shnum then Some(LoadedScn(v, index)) else None
  {
    r := None;
    out := Prepare(e, v);
    if !out.Done? {
      return;
    }
    if Indexed(e.scns, e.nscn) {
      IndexedHolds(e.scns, e.nscn, index);
    }
    var k := 0;
    while k < |e.scns|
      invariant 0 <= k <= |e.scns|
      invariant forall j :: 0 <= j < k ==> e.scns[j].ndx != index
    {
      if e.scns[k].ndx == index {
        r := Some(e.scns[k]);
        return;
      }
      k := k + 1;
    }
  }

  /** elf_newscn: a dirty section with the next number, behind section 0. */
  method NewScn(e: Elf, v: X.View) returns (out: Outcome, ndx: nat)
    modifies e`ehdr, e`nphdr, e`nscn, e`strndx, e`scns, e`shdrsLoaded
    ensures old(IsConsistent(e)) ==>
              && IsConsistent(e)
              && (out.Crash? ==> OnlyScn0(e.scns) && e.nscn == 0)
              && (out.Done? ==> Indexed(e.scns, e.nscn) && e.nscn >= 2)
    ensures old(IsConsistent(e)) && (e.cmd == CmdWrite || old(e.ehdr.Some? && e.shdrsLoaded)) ==>
              !out.Error? && (out.Crash? <==> old(OnlyScn0(e.scns) && e.nscn == 0))
    ensures old(IsConsistent(e)) && out.Crash? ==>
              old(OnlyScn0(e.scns)) || (old(e.ehdr == None) && X.UsesScn0(v.ehdr))
    ensures out.Done? ==> ndx + 1 == e.nscn && e.scns != [] && IsNew(e.scns[|e.scns| - 1], ndx)
    ensures old(IsConsistent(e) && e.ehdr.Some? && Complete(e.cmd, e.shdrsLoaded)) && out.Done? ==>
              ndx == (if old(e.nscn) == 0 then 1 else old(e.nscn)) && old(e.scns) <= e.scns
    ensures old(Written(e) && e.nscn > 0) && e.cmd == CmdWrite ==> out.Crash?
    ensures old(Written(e)) && e.cmd != CmdWrite && v.ehdr.shnum > 0 ==> !out.Done?
  {
    ndx := 0;
    out := Prepare(e, v);
    if !out.Done? {
      return;
    }
    ghost var consistent := IsConsistent(e) && Indexed(e.scns, e.nscn);
    if consistent {
      IndexedLength(e.scns, e.nscn);
    }
    if e.scns == [] {
      if e.nscn != 0 {
        return Crash, 0;
      }
      IndexedStep([], 0, X.NewScn(0), consistent);
      assert [] + [X.NewScn(0)] == [X.NewScn(0)];
      e.scns := [X.NewScn(0)];
      e.nscn := 1;
    }
    if e.nscn == 0 {
      return Crash, 0;
    }
    ndx := e.nscn;
    var s := X.NewScn(ndx).(dirty := true);
    IndexedStep(e.scns, e.nscn, s, consistent);
    e.scns := e.scns + [s];
    e.nscn := e.nscn + 1;
  }

  /** A new section: empty, with a header of zeroes, and marked for writing. */
  ghost predicate IsNew(s: Scn, ndx: nat)
  {
    && s.ndx == ndx && s.dirty && s.hdr == ZERO_SHDR
    && s.offset == s.rawoff == s.size == 0 && s.raw == [] && s.descs == []
  }

  lemma SameNumbersConsistent(a: seq<Scn>, b: seq<Scn>, n: nat)
    requires SameNumbers(a, b)
    ensures Indexed(a, n) ==> Indexed(b, n)
    ensures OnlyScn0(a) ==> OnlyScn0(b)
  {
    if OnlyScn0(a) {
      OnlyScn0Kept(a, b);
    }
  }

  ghost predicate CompliesWith(e: Elf)
    reads e
  {
    e.ehdr.Some? && U.Complies(U.JobOf(e), U.SourcesOf(e), e.ehdr.value, e.scns)
  }

  /** The layout of elf_update loses a section of the list. */
  ghost predicate LosesOne(e: Elf)
    reads e
  {
    && !U.Refused(e.klass, e.cmd, CmdNull) && e.ehdr.Some?
    && U.Breaks(U.JobOf(e), U.KindOf(e), e.ehdr.value, e.scns)
  }

  lemma RenumberedStaysConsistent(cmd: ElfCmd, loaded: bool, had: Option<Ehdr>, before: seq<Scn>,
                                  ehdr: Option<Ehdr>, ss: seq<Scn>, nscn: nat)
    requires Consistent(cmd, loaded, had, before, nscn) && Renumbered(before, ss, false)
    requires ehdr == None ==> had == None && ss == before
    ensures Consistent(cmd, loaded, ehdr, ss, nscn)
  {
    if before != [] {
      SameNumbersConsistent(before, ss, nscn);
    } else if Complete(cmd, loaded) {
      IndexedLength(before, nscn);
    }
  }

  lemma LostIsInconsistent(cmd: ElfCmd, loaded: bool, had: Option<Ehdr>, before: seq<Scn>,
                           ehdr: Option<Ehdr>, ss: seq<Scn>, nscn: nat)
    requires Consistent(cmd, loaded, had, before, nscn) && OneFewer(before, ss) && 2 <= |before|
    ensures !Consistent(cmd, loaded, ehdr, ss, nscn)
  {
    IndexedLength(before, nscn);
    if Indexed(ss, nscn) {
      IndexedLength(ss, nscn);
    }
  }

  /** elf_update with ELF_C_NULL.  A layout may reorder the list, but a consistent
      descriptor stays consistent, except when it ends in an error and has lost a section. */
  method LayOut(e: Elf, v: X.View, fill: Byte) returns (out: Outcome)
    modifies e`scns, e`ehdr, e`phdr, e`rawfile, e`byteorder, e`nphdr, e`nscn, e`strndx
    ensures old(IsConsistent(e)) && out.Done? ==> IsConsistent(e)
    ensures old(IsConsistent(e)) && out.Error? ==> (IsConsistent(e) <==> !old(LosesOne(e)))
    ensures old(e.ehdr.Some?) || e.cmd == CmdWrite ==> e.nscn == old(e.nscn)
  {
    ghost var before, had, consistent := e.scns, e.ehdr, IsConsistent(e);
    if had.Some? {
      U.BreaksFromTwo(U.JobOf(e), U.KindOf(e), had.value, before);
    }
    var image;
    ghost var o, l;
    out, image, o, l := U.Update(e, v, CmdNull, fill);
    if consistent && !out.Crash? {
      if o.lost {
        LostIsInconsistent(e.cmd, e.shdrsLoaded, had, before, e.ehdr, e.scns, e.nscn);
      } else if had.Some? || e.cmd == CmdWrite {
        RenumberedStaysConsistent(e.cmd, e.shdrsLoaded, had, before, e.ehdr, e.scns, e.nscn);
      }
    }
  }

  // ----------------------------------------------------------- after a file is written

  /** The state in which a successful elf_update leaves a descriptor. */
  ghost predicate Written(e: Elf)
    reads e
  {
    e.ehdr == None && e.scns == [] && Complete(e.cmd, e.shdrsLoaded)
  }

  /** The same, where the sections had not been read in. */
  ghost predicate ToBeLoaded(e: Elf)
    reads e
  {
    e.ehdr == None && e.scns == [] && !Complete(e.cmd, e.shdrsLoaded)
  }

  /** A file with two or more sections is written only from a complete list. */
  lemma WrittenWasComplete(cmd: ElfCmd, loaded: bool, ehdr: Option<Ehdr>, ss: seq<Scn>, nscn: nat)
    requires Consistent(cmd, loaded, ehdr, ss, nscn) && U.Countable(nscn, ss) && 2 <= nscn
    ensures Complete(cmd, loaded)
  {
  }

  /** elf_update with ELF_C_WRITE. */
  method WriteFile(e: Elf, v: X.View, fill: Byte) returns (out: Outcome)
    modifies e`scns, e`ehdr, e`phdr, e`rawfile, e`byteorder, e`nphdr, e`nscn, e`strndx
    ensures out.Done? ==> e.ehdr == None && e.scns == []
    ensures out.Done? && old(IsConsistent(e) && CompliesWith(e) && 2 <= e.nscn) ==> Complete(e.cmd, e.shdrsLoaded)
  {
    ghost var before, had, nscn, consistent := e.scns, e.ehdr, e.nscn, IsConsistent(e);
    ghost var fit := consistent && CompliesWith(e) && 2 <= e.nscn;
    var image;
    ghost var o, l;
    out, image, o, l := U.Update(e, v, CmdWrite, fill);
    if out.Done? && fit {
      WrittenWasComplete(e.cmd, e.shdrsLoaded, had, before, nscn);
    }
  }

  /** The comment at the end of _libelf_write_elf promises that elf_getscn functions
      after the write.  It finds a section exactly if the sections had never been read
      in: otherwise the list has been emptied, but not marked as to be loaded again.  So
      none is found where a descriptor that complies has written two sections or more. */
  method LookUpAfterWrite(e: Elf, v0: X.View, fill: Byte, v: X.View, index: nat) returns (out: Outcome, r: Option<Scn>)
    modifies e
    ensures out.Done? && FitsFile(e.format, e.rawfile, v.ehdr) ==>
              (r.Some? <==> !old(Complete(e.cmd, e.shdrsLoaded)) && index < v.ehdr.shnum)
    ensures out.Done? && v.ehdr.shnum > 0 && old(Complete(e.cmd, e.shdrsLoaded)) ==> r == None
    ensures out.Done? && v.ehdr.shnum > 0 && old(IsConsistent(e) && CompliesWith(e) && 2 <= e.nscn) ==> r == None
  {
    r := None;
    out := WriteFile(e, v0, fill);
    if out.Done? {
      var found;
      found, r := GetScn(e, v, index);
    }
  }
}
