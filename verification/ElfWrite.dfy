/** _libelf_write_scn and _libelf_write_elf of elf_update.c: build the image of the
    file from a descriptor that has been laid out. */
module ElfWrite {
  import opened Basics
  import opened ElfModel
  import opened Alignment
  import opened ElfLayout
  import opened ElfImage
  import R = ElfResync
  import SO = SectionOrder

  /** The bytes in a file for `n` bytes of whole entries in memory. */
  function FileBytes(t: Entry, n: nat): nat {
    if n < t.msize then 0 else FileBytes(t, n - t.msize) + t.fsize
  }

  /** Every translator produces as many bytes as the sizes of the entries say. */
  ghost predicate FormatValid(f: Format)
  {
    && (forall sht, b {:trigger f.tofile(f.entry(sht).value.typ, b)} ::
          f.entry(sht).Some? && Aligned(|b|, f.entry(sht).value.msize) ==>
          |f.tofile(f.entry(sht).value.typ, b)| == FileBytes(f.entry(sht).value, |b|))
    && (forall b {:trigger f.tofile(f.phdr.typ, b)} ::
          Aligned(|b|, f.phdr.msize) ==> |f.tofile(f.phdr.typ, b)| == FileBytes(f.phdr, |b|))
    && (forall h :: |f.ehdrBytes(h)| == f.ehdr.fsize)
    && (forall h :: |f.shdrBytes(h)| == f.shdr.fsize)
  }

  /** _libelf_xlate to the file: an error for an unknown byte order or for no data. */
  function Xlate(f: Format, t: ElfType, b: seq<Byte>, byteorder: nat): Option<seq<Byte>> {
    if byteorder > 2 || b == [] then None else Some(f.tofile(t, b))
  }

  // ------------------------------------------------------------------ one section

  function BufOf(d: Desc): seq<Byte> {
    if d.buf.Some? then d.buf.value else []
  }

  /** The first `k` descriptors of a section, in file form at their places. */
  function DescPieces(f: Format, s: Scn, k: nat): seq<Piece>
    requires k <= |s.descs|
  {
    if k == 0 then []
    else
      DescPieces(f, s, k - 1) + [DescPiece(f, s, s.descs[k - 1])]
  }

  /** The bytes of a section that was never modified, from where it was loaded. */
  function RawBytes(rawfile: Option<seq<Byte>>, s: Scn): seq<Byte> {
    if rawfile.Some? && s.rawoff + s.size <= |rawfile.value|
    then rawfile.value[s.rawoff..s.rawoff + s.size]
    else []
  }

  /** What a section contributes to the file. */
  function ScnPieces(f: Format, rawfile: Option<seq<Byte>>, s: Scn): seq<Piece> {
    if IsPassive(s.hdr) then []
    else if s.descs == [] then [Piece(s.offset, RawBytes(rawfile, s))]
    else DescPieces(f, s, |s.descs|)
  }

  /** What the writer relies on for a descriptor: a buffer of the stated size that
      takes as many bytes in the file. */
  ghost predicate DescWritable(f: Format, t: Entry, version: nat, d: Desc)
  {
    && d.buf.Some? && |d.buf.value| == d.size
    && d.typ == t.typ && d.version == version && Aligned(d.size, t.msize)
    && |f.tofile(d.typ, d.buf.value)| == d.size
  }

  ghost predicate DescsWritable(f: Format, t: Entry, version: nat, ds: seq<Desc>)
  {
    forall k :: 0 <= k < |ds| ==> DescWritable(f, t, version, ds[k])
  }

  /** What the writer relies on for a section: a known type, its alignment, and
      either descriptors with buffers or bytes in the original file. */
  ghost predicate Writable(f: Format, version: nat, rawfile: Option<seq<Byte>>, s: Scn)
  {
    IsPassive(s.hdr) ||
    (var t := f.entry(s.hdr.typ);
     && t.Some?
     && Aligned(s.offset, t.value.align)
     && (if s.descs == [] then
           rawfile.Some? ==>
             && (s.raw == [RawDesc(0, s.size)] || (s.raw == [] && s.hdr.size == s.size))
             && s.rawoff + s.size <= |rawfile.value|
         else
           InOrder(s.descs, s.size) && DescsWritable(f, t.value, version, s.descs)))
  }

  /** There is something to write for a section: no descriptor is empty, or the original
      file is there to copy from. */
  predicate Given(rawfile: Option<seq<Byte>>, s: Scn)
  {
    IsPassive(s.hdr) || (if s.descs == [] then rawfile.Some? else NoneEmpty(s.descs, |s.descs|))
  }

  predicate NoneEmpty(ds: seq<Desc>, k: nat)
    requires k <= |ds|
  {
    k == 0 || (NoneEmpty(ds, k - 1) && ds[k - 1].size > 0)
  }

  predicate AllGiven(rawfile: Option<seq<Byte>>, ss: seq<Scn>, k: nat)
    requires k <= |ss|
  {
    k == 0 || (AllGiven(rawfile, ss, k - 1) && Given(rawfile, ss[k - 1]))
  }

  lemma {:induction false} NoneEmptyIff(ds: seq<Desc>, k: nat)
    requires k <= |ds|
    ensures NoneEmpty(ds, k) <==> forall i :: 0 <= i < k ==> ds[i].size > 0
  {
    if k > 0 {
      NoneEmptyIff(ds, k - 1);
    }
  }

  lemma {:induction false} NoneEmptyPrefix(ds: seq<Desc>, i: nat, k: nat)
    requires i <= k <= |ds| && NoneEmpty(ds, k)
    ensures NoneEmpty(ds, i)
  {
    if i < k {
      NoneEmptyPrefix(ds, i, k - 1);
    }
  }

  lemma {:induction false} AllGivenPrefix(rawfile: Option<seq<Byte>>, ss: seq<Scn>, i: nat, k: nat)
    requires i <= k <= |ss| && AllGiven(rawfile, ss, k)
    ensures AllGiven(rawfile, ss, i)
  {
    if i < k {
      AllGivenPrefix(rawfile, ss, i, k - 1);
    }
  }

  lemma {:induction false} AllGivenIff(rawfile: Option<seq<Byte>>, ss: seq<Scn>, k: nat)
    requires k <= |ss|
    ensures AllGiven(rawfile, ss, k) <==> forall i :: 0 <= i < k ==> Given(rawfile, ss[i])
  {
    if k > 0 {
      AllGivenIff(rawfile, ss, k - 1);
    }
  }

  lemma {:induction false} NoneEmptySame(a: seq<Desc>, b: seq<Desc>, k: nat)
    requires k <= |a| == |b| && forall i :: 0 <= i < k ==> a[i].size == b[i].size
    ensures NoneEmpty(a, k) <==> NoneEmpty(b, k)
  {
    if k > 0 {
      NoneEmptySame(a, b, k - 1);
    }
  }

  /** The byte order is a known one, and the program headers are there if counted. */
  predicate HeadersGiven(byteorder: nat, phnum: nat, phdr: Option<seq<Byte>>) {
    byteorder <= 2 && (phnum > 0 ==> phdr.Some?)
  }

  lemma {:induction false} SameBytes(t: Entry, n: nat)
    requires t.fsize == t.msize && Aligned(n, t.msize)
    ensures FileBytes(t, n) == n
  {
    if n > 0 {
      SameBytes(t, n - t.msize);
    }
  }

  /** Entries of equal size in memory and in a file make descriptors writable. */
  lemma SameSize(f: Format, t: Entry, sht: nat, d: Desc)
    requires FormatValid(f) && f.entry(sht) == Some(t) && t.fsize == t.msize
    requires d.buf.Some? && |d.buf.value| == d.size && d.typ == t.typ && Aligned(d.size, t.msize)
    ensures |f.tofile(d.typ, d.buf.value)| == d.size
  {
    SameBytes(t, d.size);
    assert |f.tofile(f.entry(sht).value.typ, d.buf.value)| == FileBytes(t, d.size);
  }

  /** The loop over the raw descriptors. */
  method WriteRaw(nf: array<Cell>, raw: seq<RawDesc>, file: seq<Byte>, shOff: nat, rawoff: nat, rc: nat, fill: Byte,
                  ghost size: nat, ghost ps: seq<Piece>, ghost good: bool)
    returns (out: Outcome)
    requires good ==> raw == [RawDesc(0, size)] && rawoff + size <= |file|
    requires good ==> Holds(nf[..], ps, fill, rc) && rc <= shOff && shOff + size <= nf.Length
    modifies nf
    ensures good ==> out == Done(shOff + size)
    ensures good ==> Holds(nf[..], ps + [Piece(shOff, file[rawoff..rawoff + size])], fill, shOff + size)
  {
    var end: nat, i := rc, 0;
    while i < |raw|
      invariant 0 <= i <= |raw|
      invariant good && i == 0 ==> end == rc && Holds(nf[..], ps, fill, end)
      invariant good && i == 1 ==> end == shOff + size
      invariant good && i == 1 ==> Holds(nf[..], ps + [Piece(shOff, file[rawoff..rawoff + size])], fill, end)
    {
      var d := raw[i];
      if rawoff + d.off + d.size > |file| {
        return Crash;
      }
      var ok;
      ok, end := Put(nf, end, shOff + d.off, file[rawoff + d.off..rawoff + d.off + d.size], fill, ps, good);
      if !ok {
        return Crash;
      }
      i := i + 1;
    }
    return Done(end);
  }

  function DescPiece(f: Format, s: Scn, d: Desc): Piece {
    Piece(s.offset + d.off, f.tofile(d.typ, BufOf(d)))
  }

  /** The assertions on a data descriptor, and that its buffer is there to be read. */
  method MeetsAssertions(t: Entry, version: nat, d: Desc) returns (ok: bool)
    ensures ok <==>
              && d.buf.Some? && d.size <= |d.buf.value|
              && d.typ == t.typ && d.version == version && Aligned(d.size, t.msize)
  {
    var whole := IsMultiple(d.size, t.msize);
    ok := d.buf.Some? && d.typ == t.typ && d.version == version && whole && d.size <= |d.buf.value|;
  }

  /** One data descriptor. */
  method WriteDesc(f: Format, t: Entry, version: nat, byteorder: nat, nf: array<Cell>, s: Scn, d: Desc, rc: nat,
                   fill: Byte, ghost ps: seq<Piece>, ghost good: bool)
    returns (out: Outcome)
    requires good ==> DescWritable(f, t, version, d)
    requires good ==> Holds(nf[..], ps, fill, rc) && rc <= s.offset + d.off && s.offset + d.off + d.size <= nf.Length
    modifies nf
    ensures good ==> !out.Crash? && (out.Done? <==> byteorder <= 2 && d.size > 0)
    ensures good && out.Done? ==> out.rc == s.offset + d.off + d.size
    ensures good && out.Done? ==> Holds(nf[..], ps + [DescPiece(f, s, d)], fill, out.rc)
  {
    var met := MeetsAssertions(t, version, d);
    if !met {
      return Crash;
    }
    var data := d.buf.value[..d.size];
    var bytes := Xlate(f, d.typ, data, byteorder);
    if bytes == None {
      return Error;
    }
    assert good ==> data == BufOf(d);
    var ok, end := Put(nf, rc, s.offset + d.off, bytes.value, fill, ps, good);
    return if ok then Done(end) else Crash;
  }

  /** The state of the loop over the descriptors after `i` of them. */
  ghost predicate DataTo(f: Format, byteorder: nat, cells: seq<Cell>, s: Scn, i: nat, rc: nat, fill: Byte,
                         ps: seq<Piece>, out: Outcome)
    requires i <= |s.descs|
  {
    && !out.Crash?
    && (byteorder <= 2 ==> (out.Done? <==> NoneEmpty(s.descs, i)))
    && (out.Done? ==>
          && rc <= out.rc <= s.offset + s.size
          && (i < |s.descs| ==> out.rc <= s.offset + s.descs[i].off)
          && Holds(cells, ps + DescPieces(f, s, i), fill, out.rc))
  }

  lemma DataStoppedAt(f: Format, byteorder: nat, cells: seq<Cell>, s: Scn, i: nat, rc: nat, fill: Byte,
                      ps: seq<Piece>, out: Outcome)
    requires i <= |s.descs| && !out.Done? && DataTo(f, byteorder, cells, s, i, rc, fill, ps, out)
    ensures DataTo(f, byteorder, cells, s, |s.descs|, rc, fill, ps, out)
  {
    if NoneEmpty(s.descs, |s.descs|) {
      NoneEmptyPrefix(s.descs, i, |s.descs|);
    }
  }

  /** One round of the loop over the data descriptors. */
  method WriteNextDesc(f: Format, t: Entry, version: nat, byteorder: nat, nf: array<Cell>, s: Scn, i: nat, at: nat,
                       fill: Byte, ghost rc: nat, ghost ps: seq<Piece>, ghost good: bool)
    returns (out: Outcome)
    requires i < |s.descs|
    requires good ==> InOrder(s.descs, s.size) && DescsWritable(f, t, version, s.descs)
    requires good ==> s.offset + s.size <= nf.Length
    requires good ==> DataTo(f, byteorder, nf[..], s, i, rc, fill, ps, Done(at))
    modifies nf
    ensures good ==> DataTo(f, byteorder, nf[..], s, i + 1, rc, fill, ps, out)
  {
    ghost var qs := ps + DescPieces(f, s, i);
    assert good ==> DescWritable(f, t, version, s.descs[i]);
    out := WriteDesc(f, t, version, byteorder, nf, s, s.descs[i], at, fill, qs, good);
    assert qs + [DescPiece(f, s, s.descs[i])] == ps + DescPieces(f, s, i + 1);
  }

  /** The loop over the data descriptors. */
  method WriteData(f: Format, t: Entry, version: nat, byteorder: nat, nf: array<Cell>, s: Scn, rc: nat, fill: Byte,
                   ghost ps: seq<Piece>, ghost good: bool)
    returns (out: Outcome)
    requires good ==> InOrder(s.descs, s.size) && DescsWritable(f, t, version, s.descs)
    requires good ==> Holds(nf[..], ps, fill, rc) && rc <= s.offset && s.offset + s.size <= nf.Length
    modifies nf
    ensures good ==> DataTo(f, byteorder, nf[..], s, |s.descs|, rc, fill, ps, out)
  {
    out := Done(rc);
    assert ps + [] == ps;
    var i := 0;
    while i < |s.descs| && out.Done?
      invariant 0 <= i <= |s.descs|
      invariant good ==> DataTo(f, byteorder, nf[..], s, i, rc, fill, ps, out)
    {
      out := WriteNextDesc(f, t, version, byteorder, nf, s, i, out.rc, fill, rc, ps, good);
      i := i + 1;
    }
    if good && !out.Done? {
      DataStoppedAt(f, byteorder, nf[..], s, i, rc, fill, ps, out);
    }
  }

  /** _libelf_write_scn. */
  method WriteScn(f: Format, version: nat, byteorder: nat, rawfile: Option<seq<Byte>>, nf: array<Cell>,
                  s: Scn, rc: nat, fill: Byte, ghost ps: seq<Piece>, ghost good: bool)
    returns (out: Outcome)
    requires good ==> Writable(f, version, rawfile, s) && Holds(nf[..], ps, fill, rc)
    requires good && !IsPassive(s.hdr) ==> rc <= s.offset && s.offset + s.size <= nf.Length
    modifies nf
    ensures good ==> !out.Crash?
    ensures good && byteorder <= 2 ==> (out.Done? <==> Given(rawfile, s))
    ensures good && byteorder <= 2 && s.descs == [] ==> (out.Error? <==> !IsPassive(s.hdr) && rawfile == None)
    ensures good && byteorder <= 2 && s.descs != [] ==>
              (out.Error? <==> !IsPassive(s.hdr) && exists k :: 0 <= k < |s.descs| && s.descs[k].size == 0)
    ensures good && out.Done? ==> Holds(nf[..], ps + ScnPieces(f, rawfile, s), fill, out.rc)
    ensures good && out.Done? ==> out.rc <= if IsPassive(s.hdr) then rc else s.offset + s.size
  {
    if s.hdr.typ == SHT_NOBITS || s.hdr.typ == SHT_NULL {
      assert ps + [] == ps;
      return Done(rc);
    }
    var elftype := f.entry(s.hdr.typ);
    if elftype == None {
      return Crash;
    }
    var aligned := IsMultiple(s.offset, elftype.value.align);
    if !aligned {
      return Crash;
    }
    if s.descs == [] {
      if rawfile == None {
        return Error;
      }
      var raw := if s.raw == [] then [RawDesc(0, s.hdr.size)] else s.raw;
      out := WriteRaw(nf, raw, rawfile.value, s.offset, s.rawoff, rc, fill, s.size, ps, good);
    } else {
      out := WriteData(f, elftype.value, version, byteorder, nf, s, rc, fill, ps, good);
      NoneEmptyIff(s.descs, |s.descs|);
    }
  }

  // ------------------------------------------------------------------ the headers

  /** The end of the headers in front of the sections. */
  function HeaderEnd(f: Format, phnum: nat, phoff: nat): nat {
    if phnum == 0 then f.ehdr.fsize else phoff + Times(phnum, f.phdr.fsize)
  }

  function PhdrBytes(f: Format, phdr: Option<seq<Byte>>): seq<Byte> {
    if phdr.Some? then f.tofile(f.phdr.typ, phdr.value) else []
  }

  /** The ELF header and the program header table. */
  function HeaderPieces(f: Format, eh: Ehdr, phnum: nat, phdr: Option<seq<Byte>>): seq<Piece> {
    [Piece(0, f.ehdrBytes(eh))] + (if phnum == 0 then [] else [Piece(eh.phoff, PhdrBytes(f, phdr))])
  }

  /** The program header table directly follows the ELF header, and its size is right. */
  ghost predicate HeadersReady(f: Format, eh: Ehdr, phnum: nat, phdr: Option<seq<Byte>>)
  {
    && |f.ehdrBytes(eh)| == f.ehdr.fsize
    && (phnum > 0 ==>
          && eh.phoff == f.ehdr.fsize && Aligned(eh.phoff, f.phdr.align)
          && (phdr.Some? ==>
                && |phdr.value| == Times(phnum, f.phdr.msize)
                && |PhdrBytes(f, phdr)| == Times(phnum, f.phdr.fsize)))
  }

  lemma {:induction false} TableBytes(t: Entry, n: nat)
    ensures Aligned(Times(n, t.msize), t.msize) && FileBytes(t, Times(n, t.msize)) == Times(n, t.fsize)
  {
    if n > 0 {
      TableBytes(t, n - 1);
    }
  }

  lemma PhdrSize(f: Format, phnum: nat, phdr: seq<Byte>)
    requires FormatValid(f) && |phdr| == Times(phnum, f.phdr.msize)
    ensures |f.tofile(f.phdr.typ, phdr)| == Times(phnum, f.phdr.fsize)
  {
    TableBytes(f.phdr, phnum);
  }

  /** A byte of the headers that is still as malloc returned it. */
  ghost predicate HasGap(nf: seq<Cell>, rc: nat)
  {
    exists i :: 0 <= i < rc && i < |nf| && nf[i] == Unset
  }

  /** The program header table is written at `rc`, the end of the ELF header, while
      the header announces it at `phoff`: bytes stay unwritten exactly when the two
      differ. */
  method WritePhdrs(nf: array<Cell>, rc: nat, phoff: nat, bytes: seq<Byte>, fill: Byte,
                    ghost ps: seq<Piece>, ghost good: bool)
    returns (ok: bool)
    requires Holds(nf[..], ps, fill, rc) && rc <= phoff && bytes != []
    requires good ==> rc == phoff && phoff + |bytes| <= nf.Length
    modifies nf
    ensures good ==> ok && Holds(nf[..], ps + [Piece(phoff, bytes)], fill, phoff + |bytes|)
    ensures ok && phoff + |bytes| <= nf.Length ==> (HasGap(nf[..], phoff + |bytes|) <==> phoff != rc)
    ensures ok && phoff + |bytes| <= nf.Length ==>
              forall i :: rc <= i < phoff + |bytes| ==>
                nf[i] == if i < rc + |bytes| then Set(bytes[i - rc]) else if i < phoff then Set(fill) else Unset
  {
    ok := Fill(nf, rc, phoff, fill);
    if !ok {
      return;
    }
    ok := Copy(nf, rc, bytes);
    if good {
      RenderAppend(ps, Piece(phoff, bytes), fill);
      AscendingAppend(ps, Piece(phoff, bytes));
      ghost var r := Render(ps, fill) + Padding(0, fill) + bytes;
      assert forall i :: 0 <= i < phoff + |bytes| ==> nf[i] == Set(r[i]);
    }
    if ok && phoff + |bytes| <= nf.Length && rc < phoff {
      ghost var i := Max(phoff, rc + |bytes|);
      assert nf[..][i] == Unset;
    }
  }

  /** The first part of _libelf_write_elf. */
  method WriteHeaders(f: Format, byteorder: nat, nf: array<Cell>, eh: Ehdr, phnum: nat, phdr: Option<seq<Byte>>,
                      fill: Byte, ghost good: bool)
    returns (out: Outcome)
    requires forall i :: 0 <= i < nf.Length ==> nf[i] == Unset
    requires good ==> HeadersReady(f, eh, phnum, phdr)
    requires good ==> HeaderEnd(f, phnum, eh.phoff) <= nf.Length
    modifies nf
    ensures good ==> !out.Crash? && (out.Done? <==> HeadersGiven(byteorder, phnum, phdr))
    ensures good ==> (out.Error? <==> byteorder > 2 || (phnum > 0 && phdr == None))
    ensures good && out.Done? ==> out.rc == HeaderEnd(f, phnum, eh.phoff)
    ensures good && out.Done? ==>
              out.rc == if phnum == 0 then f.ehdr.fsize else eh.phoff + Times(phnum, f.phdr.fsize)
    ensures good && out.Done? ==> Holds(nf[..], HeaderPieces(f, eh, phnum, phdr), fill, out.rc)
  {
    var ehdr := f.ehdrBytes(eh);
    if byteorder > 2 || ehdr == [] {
      return Error;
    }
    var ok, rc := Put(nf, 0, 0, ehdr, fill, [], |ehdr| <= nf.Length);
    if !ok {
      return Crash;
    }
    ghost var ps := [] + [Piece(0, ehdr)];
    if phnum == 0 || eh.phoff == 0 {
      return Done(rc);
    }
    var aligned := IsMultiple(eh.phoff, f.phdr.align);
    if rc > eh.phoff || !aligned {
      return Crash;
    }
    if phdr == None {
      return Error;
    }
    if |phdr.value| != Times(phnum, f.phdr.msize) {
      return Crash;
    }
    if good {
      TimesGrows(0, phnum, f.phdr.msize);
      TimesGrows(0, phnum, f.phdr.fsize);
    }
    var bytes := Xlate(f, f.phdr.typ, phdr.value, byteorder);
    if bytes == None || bytes.value == [] {
      return Error;
    }
    ok := WritePhdrs(nf, rc, eh.phoff, bytes.value, fill, ps, good);
    if !ok {
      return Crash;
    }
    return Done(eh.phoff + Times(phnum, f.phdr.fsize));
  }

  // --------------------------------------------------------- sections and their table

  function SectionPieces(f: Format, rawfile: Option<seq<Byte>>, ss: seq<Scn>, k: nat): seq<Piece>
    requires k <= |ss|
  {
    if k == 0 then [] else SectionPieces(f, rawfile, ss, k - 1) + ScnPieces(f, rawfile, ss[k - 1])
  }

  /** The section header table: one entry for each section, in the order of the list. */
  function TablePieces(f: Format, ss: seq<Scn>, shoff: nat, k: nat): seq<Piece>
    requires k <= |ss|
  {
    if k == 0 then []
    else TablePieces(f, ss, shoff, k - 1) + [Piece(shoff + Times(k - 1, f.shdr.fsize), f.shdrBytes(ss[k - 1].hdr))]
  }

  /** The end of the sections among the first `k`. */
  function Frontier(ss: seq<Scn>, k: nat, start: nat): nat
    requires k <= |ss|
  {
    if k == 0 then start
    else if IsPassive(ss[k - 1].hdr) then Frontier(ss, k - 1, start)
    else ss[k - 1].offset + ss[k - 1].size
  }

  /** Section `i` starts at or past the end of those before it, and ends by `end`. */
  predicate Follows(ss: seq<Scn>, i: nat, start: nat, end: nat)
    requires i < |ss|
  {
    !IsPassive(ss[i].hdr) ==> Frontier(ss, i, start) <= ss[i].offset && ss[i].offset + ss[i].size <= end
  }

  /** Sections in order start at or past the end of those before them. */
  lemma {:induction false} FrontierBelow(ss: seq<Scn>, k: nat, j: nat, start: nat, end: nat)
    requires k <= j < |ss| && R.Arranged(ss, start, end) && !IsPassive(ss[j].hdr)
    ensures Frontier(ss, k, start) <= ss[j].offset
  {
    var spans := R.Spans(ss);
    assert spans[j] == R.SpanOf(ss[j]);
    if k > 0 {
      assert spans[k - 1] == R.SpanOf(ss[k - 1]);
      if IsPassive(ss[k - 1].hdr) {
        FrontierBelow(ss, k - 1, j, start, end);
      }
    }
  }

  /** A section is in its place and can be written. */
  ghost predicate SectionReady(f: Format, version: nat, rawfile: Option<seq<Byte>>, ss: seq<Scn>, i: nat,
                               start: nat, end: nat)
    requires i < |ss|
  {
    Follows(ss, i, start, end) && Writable(f, version, rawfile, ss[i])
  }

  ghost predicate SectionsReady(f: Format, version: nat, rawfile: Option<seq<Byte>>, ss: seq<Scn>,
                                start: nat, end: nat)
  {
    && start <= end
    && forall i {:trigger SectionReady(f, version, rawfile, ss, i, start, end)} :: 0 <= i < |ss| ==>
         SectionReady(f, version, rawfile, ss, i, start, end)
  }

  ghost predicate AllWritable(f: Format, version: nat, rawfile: Option<seq<Byte>>, ss: seq<Scn>)
  {
    forall i :: 0 <= i < |ss| ==> Writable(f, version, rawfile, ss[i])
  }

  /** Sections that have been arranged are ready. */
  lemma ArrangedAreReady(f: Format, version: nat, rawfile: Option<seq<Byte>>, ss: seq<Scn>, start: nat, end: nat)
    requires AllWritable(f, version, rawfile, ss) && R.Arranged(ss, start, end)
    ensures SectionsReady(f, version, rawfile, ss, start, end)
    ensures ss == [] ==> end == start
  {
    forall i | 0 <= i < |ss|
      ensures SectionReady(f, version, rawfile, ss, i, start, end)
    {
      assert R.Spans(ss)[i] == R.SpanOf(ss[i]);
      if !IsPassive(ss[i].hdr) {
        FrontierBelow(ss, i, i, start, end);
      }
    }
    if ss == [] {
      assert R.Spans(ss) == [];
    }
  }

  lemma FrontierStep(ss: seq<Scn>, i: nat, start: nat, end: nat)
    requires i < |ss| && Follows(ss, i, start, end) && Frontier(ss, i, start) <= end
    ensures Frontier(ss, i, start) <= Frontier(ss, i + 1, start) <= end
    ensures !IsPassive(ss[i].hdr) ==> Frontier(ss, i + 1, start) == ss[i].offset + ss[i].size
  {
  }

  lemma SectionPiecesStep(f: Format, rawfile: Option<seq<Byte>>, ss: seq<Scn>, i: nat, ps: seq<Piece>)
    requires i < |ss|
    ensures ps + SectionPieces(f, rawfile, ss, i) + ScnPieces(f, rawfile, ss[i])
            == ps + SectionPieces(f, rawfile, ss, i + 1)
  {
  }

  /** The state of the loop over the sections after `i` of them. */
  ghost predicate WrittenTo(f: Format, byteorder: nat, rawfile: Option<seq<Byte>>, cells: seq<Cell>, ss: seq<Scn>,
                            i: nat, start: nat, end: nat, fill: Byte, ps: seq<Piece>, out: Outcome)
    requires i <= |ss|
  {
    && !out.Crash?
    && (byteorder <= 2 ==> (out.Done? <==> AllGiven(rawfile, ss, i)))
    && (out.Done? ==>
          && out.rc <= Frontier(ss, i, start) <= end
          && Holds(cells, ps + SectionPieces(f, rawfile, ss, i), fill, out.rc))
  }

  lemma NothingWritten(f: Format, byteorder: nat, rawfile: Option<seq<Byte>>, cells: seq<Cell>, ss: seq<Scn>,
                       start: nat, end: nat, fill: Byte, ps: seq<Piece>)
    requires start <= end && Holds(cells, ps, fill, start)
    ensures WrittenTo(f, byteorder, rawfile, cells, ss, 0, start, end, fill, ps, Done(start))
  {
    assert ps + [] == ps;
  }

  /** An error ends the loop for good. */
  lemma StoppedAt(f: Format, byteorder: nat, rawfile: Option<seq<Byte>>, cells: seq<Cell>, ss: seq<Scn>, i: nat,
                  start: nat, end: nat, fill: Byte, ps: seq<Piece>, out: Outcome)
    requires i <= |ss| && !out.Done?
    requires WrittenTo(f, byteorder, rawfile, cells, ss, i, start, end, fill, ps, out)
    ensures WrittenTo(f, byteorder, rawfile, cells, ss, |ss|, start, end, fill, ps, out)
  {
    if AllGiven(rawfile, ss, |ss|) {
      AllGivenPrefix(rawfile, ss, i, |ss|);
    }
  }

  /** One round of the loop over the sections. */
  method WriteNext(f: Format, version: nat, byteorder: nat, rawfile: Option<seq<Byte>>, nf: array<Cell>,
                   ss: seq<Scn>, i: nat, rc: nat, fill: Byte,
                   ghost start: nat, ghost end: nat, ghost ps: seq<Piece>, ghost good: bool)
    returns (out: Outcome)
    requires i < |ss|
    requires good ==> SectionsReady(f, version, rawfile, ss, start, end) && end <= nf.Length
    requires good ==> WrittenTo(f, byteorder, rawfile, nf[..], ss, i, start, end, fill, ps, Done(rc))
    modifies nf
    ensures good ==> WrittenTo(f, byteorder, rawfile, nf[..], ss, i + 1, start, end, fill, ps, out)
  {
    if good {
      assert SectionReady(f, version, rawfile, ss, i, start, end);
      FrontierStep(ss, i, start, end);
      SectionPiecesStep(f, rawfile, ss, i, ps);
    }
    ghost var qs := ps + SectionPieces(f, rawfile, ss, i);
    out := WriteScn(f, version, byteorder, rawfile, nf, ss[i], rc, fill, qs, good);
  }

  /** The loop over the sections. */
  method WriteSections(f: Format, version: nat, byteorder: nat, rawfile: Option<seq<Byte>>, nf: array<Cell>,
                       ss: seq<Scn>, rc: nat, fill: Byte,
                       ghost end: nat, ghost ps: seq<Piece>, ghost good: bool)
    returns (out: Outcome)
    requires good ==> SectionsReady(f, version, rawfile, ss, rc, end)
    requires good ==> end <= nf.Length && Holds(nf[..], ps, fill, rc)
    modifies nf
    ensures good ==> WrittenTo(f, byteorder, rawfile, nf[..], ss, |ss|, rc, end, fill, ps, out)
  {
    out := Done(rc);
    if good {
      NothingWritten(f, byteorder, rawfile, nf[..], ss, rc, end, fill, ps);
    }
    var i := 0;
    while i < |ss| && out.Done?
      invariant 0 <= i <= |ss|
      invariant good ==> WrittenTo(f, byteorder, rawfile, nf[..], ss, i, rc, end, fill, ps, out)
    {
      out := WriteNext(f, version, byteorder, rawfile, nf, ss, i, out.rc, fill, rc, end, ps, good);
      i := i + 1;
    }
    if good && !out.Done? {
      StoppedAt(f, byteorder, rawfile, nf[..], ss, i, rc, end, fill, ps, out);
    }
  }

  ghost predicate TableReady(f: Format, ss: seq<Scn>)
  {
    forall i :: 0 <= i < |ss| ==> |f.shdrBytes(ss[i].hdr)| == f.shdr.fsize
  }

  /** The loop over the section headers. */
  method WriteTable(f: Format, nf: array<Cell>, ss: seq<Scn>, rc: nat, shoff: nat, fill: Byte,
                    ghost ps: seq<Piece>, ghost good: bool)
    returns (out: Outcome)
    requires good ==> TableReady(f, ss) && Holds(nf[..], ps, fill, rc)
    requires good ==> rc <= shoff && shoff + Times(|ss|, f.shdr.fsize) <= nf.Length && ss != []
    modifies nf
    ensures !out.Error?
    ensures out.Done? && TableReady(f, ss) ==> out.rc == shoff + Times(|ss|, f.shdr.fsize)
    ensures good ==> out == Done(shoff + Times(|ss|, f.shdr.fsize))
    ensures good ==> Holds(nf[..], ps + TablePieces(f, ss, shoff, |ss|), fill, shoff + Times(|ss|, f.shdr.fsize))
  {
    if ss == [] {
      var filled := Fill(nf, rc, shoff, fill);
      return if filled then Done(shoff) else Crash;
    }
    out := Done(rc);
    ghost var qs := ps;
    var at, i := shoff, 0;
    while i < |ss| && out.Done?
      invariant 0 <= i <= |ss|
      invariant at == shoff + Times(i, f.shdr.fsize)
      invariant qs == ps + TablePieces(f, ss, shoff, i) && !out.Error?
      invariant out.Done? && TableReady(f, ss) && i > 0 ==> out.rc == at
      invariant good ==> out == Done(if i == 0 then rc else at)
      invariant good ==> Holds(nf[..], qs, fill, out.rc)
    {
      if good {
        TableFits(f, i, |ss|);
      }
      var bytes := f.shdrBytes(ss[i].hdr);
      var ok, end := Put(nf, out.rc, at, bytes, fill, qs, good);
      qs := qs + [Piece(at, bytes)];
      at := at + f.shdr.fsize;
      out := if ok then Done(end) else Crash;
      i := i + 1;
    }
  }

  lemma TableFits(f: Format, i: nat, n: nat)
    requires i < n
    ensures Times(i, f.shdr.fsize) + f.shdr.fsize <= Times(n, f.shdr.fsize)
  {
    TimesGrows(i, n, f.shdr.fsize);
  }

  // ---------------------------------------------------------------------- the file

  /** Everything that a file consists of. */
  function FilePieces(f: Format, eh: Ehdr, phnum: nat, phdr: Option<seq<Byte>>, rawfile: Option<seq<Byte>>,
                      ss: seq<Scn>): seq<Piece>
  {
    HeaderPieces(f, eh, phnum, phdr) + SectionPieces(f, rawfile, ss, |ss|) + TablePieces(f, ss, eh.shoff, |ss|)
  }

  /** Headers and sections are laid out up to `end`. */
  ghost predicate FrontReady(f: Format, version: nat, eh: Ehdr, phnum: nat, phdr: Option<seq<Byte>>,
                             rawfile: Option<seq<Byte>>, ss: seq<Scn>, end: nat)
  {
    && HeadersReady(f, eh, phnum, phdr)
    && TableReady(f, ss)
    && SectionsReady(f, version, rawfile, ss, HeaderEnd(f, phnum, eh.phoff), end)
  }

  /** A layout that _libelf_write_elf turns into a file of `newsize` bytes. */
  ghost predicate Ready(f: Format, version: nat, eh: Ehdr, phnum: nat, phdr: Option<seq<Byte>>,
                        rawfile: Option<seq<Byte>>, ss: seq<Scn>, end: nat, newsize: nat)
  {
    && FrontReady(f, version, eh, phnum, phdr, rawfile, ss, end)
    && eh.shnum == |ss|
    && (if ss == [] then newsize == HeaderEnd(f, phnum, eh.phoff) == end
        else end <= eh.shoff && Aligned(eh.shoff, f.shdr.align) && newsize == eh.shoff + Times(|ss|, f.shdr.fsize))
  }

  function BytesOf(cells: seq<Cell>): (r: seq<Byte>)
    ensures |r| == |cells|
  {
    seq(|cells|, i requires 0 <= i < |cells| => match cells[i] case Set(b) => b case Unset => 0)
  }

  lemma HeldBytes(nf: seq<Cell>, ps: seq<Piece>, fill: Byte)
    requires Holds(nf, ps, fill, |nf|)
    ensures BytesOf(nf) == Render(ps, fill)
    ensures forall i :: 0 <= i < |nf| ==> nf[i].Set?
  {
  }

  /** The headers and the sections. */
  method WriteFront(f: Format, version: nat, byteorder: nat, nf: array<Cell>, eh: Ehdr, phnum: nat,
                    phdr: Option<seq<Byte>>, rawfile: Option<seq<Byte>>, ss: seq<Scn>, fill: Byte,
                    ghost end: nat, ghost good: bool)
    returns (out: Outcome)
    requires forall i :: 0 <= i < nf.Length ==> nf[i] == Unset
    requires good ==> HeadersReady(f, eh, phnum, phdr)
    requires good ==> SectionsReady(f, version, rawfile, ss, HeaderEnd(f, phnum, eh.phoff), end) && end <= nf.Length
    modifies nf
    ensures good ==> !out.Crash?
    ensures good ==> (out.Done? <==> HeadersGiven(byteorder, phnum, phdr) && AllGiven(rawfile, ss, |ss|))
    ensures good && out.Done? ==> out.rc <= end
    ensures good && out.Done? ==>
              Holds(nf[..], HeaderPieces(f, eh, phnum, phdr) + SectionPieces(f, rawfile, ss, |ss|), fill, out.rc)
    ensures good && out.Done? && ss == [] ==> out.rc == HeaderEnd(f, phnum, eh.phoff)
  {
    out := WriteHeaders(f, byteorder, nf, eh, phnum, phdr, fill, good);
    if out.Done? {
      ghost var ps := HeaderPieces(f, eh, phnum, phdr);
      ghost var rc := out.rc;
      out := WriteSections(f, version, byteorder, rawfile, nf, ss, out.rc, fill, end, ps, good);
      if good && ss == [] {
        assert ps + SectionPieces(f, rawfile, ss, |ss|) == ps;
      }
    }
  }

  /** The building of the image in _libelf_write_elf.  The last assertion of the
      source compares the bytes written with the size of the layout: they differ
      when the section list and the header disagree about the number of sections. */
  method BuildImage(f: Format, version: nat, byteorder: nat, eh: Ehdr, phnum: nat, phdr: Option<seq<Byte>>,
                    rawfile: Option<seq<Byte>>, ss: seq<Scn>, newsize: nat, fill: Byte,
                    ghost end: nat, ghost front: bool, ghost good: bool)
    returns (out: Outcome, image: seq<Cell>)
    requires front ==> FrontReady(f, version, eh, phnum, phdr, rawfile, ss, end) && end <= newsize
    requires good ==> front && Ready(f, version, eh, phnum, phdr, rawfile, ss, end, newsize)
    ensures front && out.Done? && eh.shnum == 0 ==> newsize <= end
    ensures front && out.Done? && eh.shnum != 0 && eh.shoff != 0 ==> newsize == eh.shoff + Times(|ss|, f.shdr.fsize)
    ensures front ==> (out.Error? <==> !(HeadersGiven(byteorder, phnum, phdr) && AllGiven(rawfile, ss, |ss|)))
    ensures good ==> !out.Crash?
    ensures out.Done? ==> out.rc == newsize
    ensures good && out.Done? ==> Holds(image, FilePieces(f, eh, phnum, phdr, rawfile, ss), fill, |image|)
    ensures |image| == newsize
  {
    var nf := new Cell[newsize](_ => Unset);
    out := WriteFront(f, version, byteorder, nf, eh, phnum, phdr, rawfile, ss, fill, end, front);
    if !out.Done? {
      return out, nf[..];
    }
    ghost var qs := HeaderPieces(f, eh, phnum, phdr) + SectionPieces(f, rawfile, ss, |ss|);
    if eh.shnum != 0 && eh.shoff != 0 {
      var aligned := IsMultiple(eh.shoff, f.shdr.align);
      if out.rc > eh.shoff || !aligned {
        return Crash, nf[..];
      }
      out := WriteTable(f, nf, ss, out.rc, eh.shoff, fill, qs, good);
      if !out.Done? {
        return out, nf[..];
      }
    } else if good {
      assert ss == [];
      assert qs + TablePieces(f, ss, eh.shoff, |ss|) == qs;
    }
    if out.rc != newsize {
      return Crash, nf[..];
    }
    return out, nf[..];
  }
}
