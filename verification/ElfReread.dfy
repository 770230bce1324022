/** A file written by elf_update and read again: what elf_getscn finds in it. */
module ElfReread {
  import opened Basics
  import opened ElfModel
  import opened Alignment
  import opened ElfLayout
  import opened ElfImage
  import opened ElfWrite
  import opened ElfFile
  import R = ElfResync
  import S = ElfSections
  import U = ElfUpdate
  import X = ElfExtended

  // ------------------------------------------------------------------- reading a file

  /** The translators from the file. */
  datatype Readers = Readers(ehdr: seq<Byte> -> Ehdr, shdr: seq<Byte> -> Shdr)

  function Range(file: seq<Byte>, at: nat, n: nat): seq<Byte> {
    if at + n <= |file| then file[at..at + n] else []
  }

  /** The headers that are in a file: the ELF header at its beginning, and the table of
      section headers where that says. */
  function ViewOf(f: Format, rd: Readers, file: seq<Byte>): X.View {
    var eh := rd.ehdr(Range(file, 0, f.ehdr.fsize));
    X.View(eh, (k: nat) => rd.shdr(Range(file, eh.shoff + Times(k, f.shdr.fsize), f.shdr.fsize)))
  }

  /** The headers are not changed by being translated to the file and back. */
  ghost predicate Translatable(f: Format, rd: Readers, eh: Ehdr, ss: seq<Scn>)
  {
    rd.ehdr(f.ehdrBytes(eh)) == eh && forall k :: 0 <= k < |ss| ==> rd.shdr(f.shdrBytes(ss[k].hdr)) == ss[k].hdr
  }

  lemma FoundIsRange(image: seq<Cell>, at: nat, bytes: seq<Byte>)
    requires Found(image, at, bytes)
    ensures Range(BytesOf(image), at, |bytes|) == bytes
  {
    var r := Range(BytesOf(image), at, |bytes|);
    forall j | 0 <= j < |bytes|
      ensures r[j] == bytes[j]
    {
      assert image[at + j] == Set(bytes[j]);
    }
  }

  // ------------------------------------------------------------------- what is read

  /** A file as Update has written it, from the sections `o.scns`. */
  ghost predicate IsWritten(o: U.Origin, l: U.Layout, image: seq<Cell>, fill: Byte)
  {
    && U.Complies(o.j, o.src, o.eh, o.scns) && U.Countable(o.j.shnum, o.scns)
    && U.LaidOut(o.j, o.eh, o.scns, l, |image|) && U.HeaderFilled(o.j, o.eh, l.eh, l.end)
    && Holds(image, FilePieces(o.j.f, l.eh, o.j.phnum, o.src.phdr, o.src.rawfile, l.ss), fill, |image|)
  }

  /** The headers stand where a file of this format has them. */
  ghost predicate HeadersStand(f: Format, image: seq<Cell>, eh: Ehdr, ss: seq<Scn>)
  {
    && |f.ehdrBytes(eh)| == f.ehdr.fsize && Found(image, 0, f.ehdrBytes(eh))
    && forall k {:trigger ss[k]} :: 0 <= k < |ss| ==> EntryStands(f, image, eh.shoff, k, ss[k].hdr)
  }

  ghost predicate EntryStands(f: Format, image: seq<Cell>, shoff: nat, k: nat, hdr: Shdr)
  {
    |f.shdrBytes(hdr)| == f.shdr.fsize && Found(image, shoff + Times(k, f.shdr.fsize), f.shdrBytes(hdr))
  }

  lemma HeadersReread(f: Format, image: seq<Cell>, eh: Ehdr, ss: seq<Scn>, rd: Readers)
    requires HeadersStand(f, image, eh, ss) && Translatable(f, rd, eh, ss)
    ensures var v := ViewOf(f, rd, BytesOf(image));
            v.ehdr == eh && forall k :: 0 <= k < |ss| ==> v.shdr(k) == ss[k].hdr
  {
    FoundIsRange(image, 0, f.ehdrBytes(eh));
    var v := ViewOf(f, rd, BytesOf(image));
    forall k | 0 <= k < |ss|
      ensures v.shdr(k) == ss[k].hdr
    {
      assert EntryStands(f, image, eh.shoff, k, ss[k].hdr);
      FoundIsRange(image, eh.shoff + Times(k, f.shdr.fsize), f.shdrBytes(ss[k].hdr));
    }
  }

  lemma WrittenHeadersStand(o: U.Origin, l: U.Layout, image: seq<Cell>, fill: Byte)
    requires IsWritten(o, l, image, fill)
    ensures HeadersStand(o.j.f, image, l.eh, l.ss)
  {
    HeadersInFile(image, o.j.f, l.eh, o.j.phnum, o.src.phdr, o.src.rawfile, l.ss, fill);
  }

  /** The headers of a written file are those of the layout, and the file passes the
      checks that are made before its section headers are read. */
  lemma WrittenIsReadable(o: U.Origin, l: U.Layout, image: seq<Cell>, fill: Byte, rd: Readers)
    requires IsWritten(o, l, image, fill) && Translatable(o.j.f, rd, l.eh, l.ss) && o.j.shnum > 0
    ensures var v := ViewOf(o.j.f, rd, BytesOf(image));
            && v.ehdr == l.eh && (forall k :: 0 <= k < |l.ss| ==> v.shdr(k) == l.ss[k].hdr)
            && S.FitsFile(o.j.f, Some(BytesOf(image)), v.ehdr) && v.ehdr.shnum == |l.ss| == |o.scns|
  {
    WrittenHeadersStand(o, l, image, fill);
    HeadersReread(o.j.f, image, l.eh, l.ss, rd);
    U.LaidOutIsReady(o.j, o.src, o.eh, o.scns, l, |image|);
  }

  lemma SettledInFile(o: U.Origin, l: U.Layout, image: seq<Cell>, fill: Byte, i: nat)
    requires IsWritten(o, l, image, fill) && i < |l.ss| && !IsPassive(l.ss[i].hdr)
    ensures l.ss[i].offset == l.ss[i].hdr.offset && l.ss[i].size == l.ss[i].hdr.size
  {
    assert R.Settled(o.j.layout, U.StartOf(o.j, o.eh), l.ss[i]);
  }

  /** From where its new header says, a section that was not modified has the bytes that it
      had in the original file. */
  lemma RawReread(o: U.Origin, l: U.Layout, image: seq<Cell>, fill: Byte, i: nat)
    requires IsWritten(o, l, image, fill) && i < |l.ss| && !IsPassive(l.ss[i].hdr) && l.ss[i].descs == []
    requires o.src.rawfile.Some? && l.ss[i].rawoff + l.ss[i].size <= |o.src.rawfile.value|
    ensures var s := l.ss[i];
            Range(BytesOf(image), s.hdr.offset, s.hdr.size) == o.src.rawfile.value[s.rawoff..s.rawoff + s.hdr.size]
  {
    SettledInFile(o, l, image, fill, i);
    RawRange(image, o.j, o.src, l, fill, i);
  }

  lemma RawRange(image: seq<Cell>, j: U.Job, src: U.Sources, l: U.Layout, fill: Byte, i: nat)
    requires Holds(image, FilePieces(j.f, l.eh, j.phnum, src.phdr, src.rawfile, l.ss), fill, |image|)
    requires i < |l.ss| && !IsPassive(l.ss[i].hdr) && l.ss[i].descs == []
    requires src.rawfile.Some? && l.ss[i].rawoff + l.ss[i].size <= |src.rawfile.value|
    ensures var s := l.ss[i];
            Range(BytesOf(image), s.offset, s.size) == src.rawfile.value[s.rawoff..s.rawoff + s.size]
  {
    var s := l.ss[i];
    RawSectionInFile(image, j.f, l.eh, j.phnum, src.phdr, src.rawfile, l.ss, fill, i);
    FoundIsRange(image, s.offset, src.rawfile.value[s.rawoff..s.rawoff + s.size]);
  }

  /** And one with data descriptors has their data, translated, at their offsets. */
  lemma DataReread(o: U.Origin, l: U.Layout, image: seq<Cell>, fill: Byte, i: nat, k: nat)
    requires IsWritten(o, l, image, fill) && i < |l.ss| && !IsPassive(l.ss[i].hdr)
    requires k < |l.ss[i].descs| && l.ss[i].descs[k].buf.Some?
    ensures var s, d := l.ss[i], l.ss[i].descs[k];
            var bytes := o.j.f.tofile(d.typ, d.buf.value);
            Range(BytesOf(image), s.hdr.offset + d.off, |bytes|) == bytes
  {
    SettledInFile(o, l, image, fill, i);
    DataRange(image, o.j, o.src, l, fill, i, k);
  }

  lemma DataRange(image: seq<Cell>, j: U.Job, src: U.Sources, l: U.Layout, fill: Byte, i: nat, k: nat)
    requires Holds(image, FilePieces(j.f, l.eh, j.phnum, src.phdr, src.rawfile, l.ss), fill, |image|)
    requires i < |l.ss| && !IsPassive(l.ss[i].hdr) && k < |l.ss[i].descs| && l.ss[i].descs[k].buf.Some?
    ensures var s, d := l.ss[i], l.ss[i].descs[k];
            var bytes := j.f.tofile(d.typ, d.buf.value);
            Range(BytesOf(image), s.offset + d.off, |bytes|) == bytes
  {
    var s, d := l.ss[i], l.ss[i].descs[k];
    DescriptorInFile(image, j.f, l.eh, j.phnum, src.phdr, src.rawfile, l.ss, fill, i, k);
    FoundIsRange(image, s.offset + d.off, j.f.tofile(d.typ, d.buf.value));
  }

  // ------------------------------------------------------------- what is not modified

  /** A section that was read in and not modified is in the layout as it was. */
  lemma UntouchedStays(o: U.Origin, l: U.Layout, rc: nat, k: nat) returns (i: nat)
    requires U.LaidOut(o.j, o.eh, o.scns, l, rc) && o.j.shnum < SHN_LORESERVE
    requires R.AllAnchored(o.j.layout, U.StartOf(o.j, o.eh), o.scns)
    requires k < |o.scns| && !o.scns[k].dirty
    ensures i < |l.ss| && l.ss[i] == o.scns[k]
  {
    var j, start := o.j, U.StartOf(o.j, o.eh);
    var p := R.FirstPass(j.layout, j.f, j.version, o.scns, |o.scns|, start).value;
    assert R.Anchored(j.layout, start, o.scns[k]);
    R.FirstPassSettles(j.layout, j.f, j.version, o.scns, start, k);
    assert p.scns[k] == o.scns[k];
    i := PermutationFinds(p.scns, l.placed, p.scns[k]);
  }

  /** It has the same bytes in the same place: those that its header in the original file
      speaks of. */
  lemma UntouchedSurvives(o: U.Origin, l: U.Layout, image: seq<Cell>, fill: Byte, hdr: Shdr, k: nat)
    requires IsWritten(o, l, image, fill)
    requires k < |o.scns| && S.AsInFile(o.scns[k], hdr, k) && !IsPassive(hdr)
    requires o.src.rawfile.Some? && hdr.offset + hdr.size <= |o.src.rawfile.value|
    ensures Found(image, hdr.offset, o.src.rawfile.value[hdr.offset..hdr.offset + hdr.size])
  {
    var i := UntouchedStays(o, l, |image|, k);
    LoadedInFile(image, o.j, o.src, l, fill, hdr, k, i);
  }

  lemma LoadedInFile(image: seq<Cell>, j: U.Job, src: U.Sources, l: U.Layout, fill: Byte, hdr: Shdr, k: nat, i: nat)
    requires Holds(image, FilePieces(j.f, l.eh, j.phnum, src.phdr, src.rawfile, l.ss), fill, |image|)
    requires i < |l.ss| && S.AsInFile(l.ss[i], hdr, k) && !IsPassive(hdr)
    requires src.rawfile.Some? && hdr.offset + hdr.size <= |src.rawfile.value|
    ensures Found(image, hdr.offset, src.rawfile.value[hdr.offset..hdr.offset + hdr.size])
  {
    RawSectionInFile(image, j.f, l.eh, j.phnum, src.phdr, src.rawfile, l.ss, fill, i);
  }

  // ---------------------------------------------------------------- writing and reading

  /** elf_getscn on a file that has just been opened. */
  method ReadAgain(f: Format, klass: nat, byteorder: nat, file: seq<Byte>, rd: Readers, index: nat)
    returns (r: Option<Scn>)
    ensures var v := ViewOf(f, rd, file);
            S.FitsFile(f, Some(file), v.ehdr) ==>
              && (r.Some? <==> index < v.ehdr.shnum)
              && (r.Some? ==> S.AsInFile(r.value, v.shdr(index), index))
  {
    var e := S.Begin(f, klass, CmdRead, byteorder, Some(file));
    var found;
    found, r := S.GetScn(e, ViewOf(f, rd, file), index);
  }

  /** elf_update, and elf_getscn on the file that it has written: section `index` of the
      file is section `index` of the layout. */
  method WriteAndRead(e: Elf, v: X.View, fill: Byte, rd: Readers, index: nat)
    returns (out: Outcome, r: Option<Scn>, image: seq<Cell>, ghost o: U.Origin, ghost l: U.Layout)
    modifies e
    ensures out.Done? ==> o.src == old(U.SourcesOf(e)) && o.j.f == e.format
    ensures out.Done? && o.j.shnum > 0 && U.Complies(o.j, o.src, o.eh, o.scns) ==> IsWritten(o, l, image, fill)
    ensures out.Done? && o.j.shnum > 0 && IsWritten(o, l, image, fill) && Translatable(o.j.f, rd, l.eh, l.ss) ==>
              && |l.ss| == |o.scns| && (r.Some? <==> index < |l.ss|)
              && (r.Some? ==> S.AsInFile(r.value, l.ss[index].hdr, index))
  {
    r := None;
    out, image, o, l := U.Update(e, v, CmdWrite, fill);
    if out.Done? {
      r := ReadAgain(e.format, e.klass, e.byteorder, BytesOf(image), rd, index);
      if o.j.shnum > 0 && IsWritten(o, l, image, fill) && Translatable(o.j.f, rd, l.eh, l.ss) {
        WrittenIsReadable(o, l, image, fill, rd);
      }
    }
  }
}
