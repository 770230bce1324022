/** What a file written by elf_update contains, and under which numbers. */
module ElfFile {
  import opened Basics
  import opened ElfModel
  import opened Alignment
  import opened ElfLayout
  import opened ElfImage
  import opened ElfWrite
  import R = ElfResync
  import SO = SectionOrder

  // ----------------------------------------------------------- where everything is

  /** The image holds the bytes at the given place. */
  ghost predicate Found(image: seq<Cell>, at: nat, bytes: seq<Byte>)
  {
    at + |bytes| <= |image| && forall j :: 0 <= j < |bytes| ==> image[at + j] == Set(bytes[j])
  }

  lemma PieceFound(image: seq<Cell>, ps: seq<Piece>, fill: Byte, k: nat)
    requires Holds(image, ps, fill, |image|) && k < |ps|
    ensures Found(image, ps[k].at, ps[k].bytes)
  {
    PieceAt(ps, k, fill);
    var r, at, n := Render(ps, fill), ps[k].at, |ps[k].bytes|;
    forall j | 0 <= j < n
      ensures image[at + j] == Set(ps[k].bytes[j])
    {
      assert r[at..at + n][j] == r[at + j];
    }
  }

  /** The pieces of section `i` are among those of all sections. */
  lemma {:induction false} SectionAmongPieces(f: Format, rawfile: Option<seq<Byte>>, ss: seq<Scn>, n: nat, i: nat,
                                              p: Piece)
    requires i < n <= |ss| && p in ScnPieces(f, rawfile, ss[i])
    ensures p in SectionPieces(f, rawfile, ss, n)
  {
    if i < n - 1 {
      SectionAmongPieces(f, rawfile, ss, n - 1, i, p);
    }
  }

  lemma {:induction false} DescAmongPieces(f: Format, s: Scn, n: nat, k: nat)
    requires k < n <= |s.descs|
    ensures DescPiece(f, s, s.descs[k]) in DescPieces(f, s, n)
  {
    if k < n - 1 {
      DescAmongPieces(f, s, n - 1, k);
    }
  }

  lemma {:induction false} EntryAmongPieces(f: Format, ss: seq<Scn>, shoff: nat, n: nat, k: nat)
    requires k < n <= |ss|
    ensures Piece(shoff + Times(k, f.shdr.fsize), f.shdrBytes(ss[k].hdr)) in TablePieces(f, ss, shoff, n)
  {
    if k < n - 1 {
      EntryAmongPieces(f, ss, shoff, n - 1, k);
    }
  }

  lemma AmongPiecesFound(image: seq<Cell>, ps: seq<Piece>, fill: Byte, p: Piece)
    requires Holds(image, ps, fill, |image|) && p in ps
    ensures Found(image, p.at, p.bytes)
  {
    var k :| 0 <= k < |ps| && ps[k] == p;
    PieceFound(image, ps, fill, k);
  }

  lemma SectionPieceFound(image: seq<Cell>, f: Format, eh: Ehdr, phnum: nat, phdr: Option<seq<Byte>>,
                          rawfile: Option<seq<Byte>>, ss: seq<Scn>, fill: Byte, i: nat, p: Piece)
    requires Holds(image, FilePieces(f, eh, phnum, phdr, rawfile, ss), fill, |image|)
    requires i < |ss| && p in ScnPieces(f, rawfile, ss[i])
    ensures Found(image, p.at, p.bytes)
  {
    SectionAmongPieces(f, rawfile, ss, |ss|, i, p);
    AmongPiecesFound(image, FilePieces(f, eh, phnum, phdr, rawfile, ss), fill, p);
  }

  /** Every data descriptor of every section is in the file, translated, at the
      offset of the section plus its own. */
  lemma DescriptorInFile(image: seq<Cell>, f: Format, eh: Ehdr, phnum: nat, phdr: Option<seq<Byte>>,
                         rawfile: Option<seq<Byte>>, ss: seq<Scn>, fill: Byte, i: nat, k: nat)
    requires Holds(image, FilePieces(f, eh, phnum, phdr, rawfile, ss), fill, |image|)
    requires i < |ss| && !IsPassive(ss[i].hdr) && k < |ss[i].descs|
    ensures var d := ss[i].descs[k];
            d.buf.Some? ==> Found(image, ss[i].offset + d.off, f.tofile(d.typ, d.buf.value))
  {
    var p := DescPiece(f, ss[i], ss[i].descs[k]);
    DescAmongPieces(f, ss[i], |ss[i].descs|, k);
    SectionPieceFound(image, f, eh, phnum, phdr, rawfile, ss, fill, i, p);
  }

  /** A section that was never modified is copied from the original file, byte by byte from
      where it was loaded. */
  lemma RawSectionInFile(image: seq<Cell>, f: Format, eh: Ehdr, phnum: nat, phdr: Option<seq<Byte>>,
                         rawfile: Option<seq<Byte>>, ss: seq<Scn>, fill: Byte, i: nat)
    requires Holds(image, FilePieces(f, eh, phnum, phdr, rawfile, ss), fill, |image|)
    requires i < |ss| && !IsPassive(ss[i].hdr) && ss[i].descs == []
    requires rawfile.Some? && ss[i].rawoff + ss[i].size <= |rawfile.value|
    ensures Found(image, ss[i].offset, rawfile.value[ss[i].rawoff..ss[i].rawoff + ss[i].size])
  {
    var p := Piece(ss[i].offset, RawBytes(rawfile, ss[i]));
    SectionPieceFound(image, f, eh, phnum, phdr, rawfile, ss, fill, i, p);
  }

  /** Entry `k` of the section header table is the header of section `k` of the list;
      the ELF header comes first, and the program header table where it says. */
  lemma HeadersInFile(image: seq<Cell>, f: Format, eh: Ehdr, phnum: nat, phdr: Option<seq<Byte>>,
                      rawfile: Option<seq<Byte>>, ss: seq<Scn>, fill: Byte)
    requires Holds(image, FilePieces(f, eh, phnum, phdr, rawfile, ss), fill, |image|)
    ensures Found(image, 0, f.ehdrBytes(eh))
    ensures phnum > 0 && phdr.Some? ==> Found(image, eh.phoff, f.tofile(f.phdr.typ, phdr.value))
    ensures forall k :: 0 <= k < |ss| ==> Found(image, eh.shoff + Times(k, f.shdr.fsize), f.shdrBytes(ss[k].hdr))
  {
    var ps := FilePieces(f, eh, phnum, phdr, rawfile, ss);
    var hs := HeaderPieces(f, eh, phnum, phdr);
    assert ps[0] == hs[0];
    PieceFound(image, ps, fill, 0);
    if phnum > 0 {
      assert ps[1] == hs[1];
      PieceFound(image, ps, fill, 1);
    }
    forall k | 0 <= k < |ss|
      ensures Found(image, eh.shoff + Times(k, f.shdr.fsize), f.shdrBytes(ss[k].hdr))
    {
      EntryAmongPieces(f, ss, eh.shoff, |ss|, k);
      AmongPiecesFound(image, ps, fill, Piece(eh.shoff + Times(k, f.shdr.fsize), f.shdrBytes(ss[k].hdr)));
    }
  }

  /** Every byte that belongs to nothing is the fill character. */
  lemma GapsFilled(image: seq<Cell>, ps: seq<Piece>, fill: Byte, i: nat)
    requires Holds(image, ps, fill, |image|) && i < |image|
    requires forall k :: 0 <= k < |ps| ==> i < ps[k].at || ps[k].at + |ps[k].bytes| <= i
    ensures image[i] == Set(fill)
  {
    FillElsewhere(ps, i, fill);
  }

  // ---------------------------------------------------------------- section numbers

  /** Section `k` of the list has number `k`. */
  ghost predicate NumberedInOrder(ss: seq<Scn>)
  {
    forall k :: 0 <= k < |ss| ==> ss[k].ndx == k
  }

  lemma SpansTellLists(a: seq<Scn>, b: seq<Scn>)
    requires R.Spans(a) == R.Spans(b)
    ensures a == b
  {
    assert |a| == |R.Spans(a)| == |b|;
    forall i | 0 <= i < |a|
      ensures a[i] == b[i]
    {
      assert R.Spans(a)[i] == R.SpanOf(a[i]) && R.Spans(b)[i] == R.SpanOf(b[i]);
    }
  }

  lemma NumbersTellLists(a: seq<Scn>, b: seq<Scn>)
    requires multiset(a) == multiset(b) && NumberedInOrder(a) && NumberedInOrder(b)
    ensures a == b
  {
    assert |a| == |multiset(a)| == |multiset(b)| == |b|;
    forall i | 0 <= i < |b|
      ensures a[i] == b[i]
    {
      assert b[i] in multiset(a);
      var j :| 0 <= j < |a| && a[j] == b[i];
    }
  }

  /** The header table is written in the order of the list, and the list is brought
      into the order of the file: so sections keep their numbers in the file exactly
      when their extents were in the order of their numbers before. */
  lemma NumbersKeptIffInOrder(ss: seq<Scn>, start: nat, placed: seq<Scn>, rc: nat)
    requires NumberedInOrder(ss) && SO.Regular(R.Spans(ss), start)
    requires SO.Resort([], R.Spans(ss), start) == Some(SO.Sorted(R.Spans(placed), rc))
    requires multiset(placed) == multiset(ss)
    ensures NumberedInOrder(placed) <==> SO.InOrder(R.Spans(ss))
  {
    SO.UnmovedIffInOrder(R.Spans(ss), start);
    if NumberedInOrder(placed) {
      NumbersTellLists(ss, placed);
    }
    if SO.InOrder(R.Spans(ss)) {
      SpansTellLists(ss, placed);
    }
  }

  function PlainScn(ndx: nat, offset: nat, size: nat): Scn {
    Scn(ndx, ZERO_SHDR.(typ := SHT_PROGBITS, offset := offset, size := size), false, offset, offset, size, [], [])
  }

  /** Three sections read from a file in which section 2 lies before section 1. */
  function SwappedSections(): seq<Scn> {
    [Scn(0, ZERO_SHDR, false, 0, 0, 0, [], []), PlainScn(1, 200, 10), PlainScn(2, 100, 10)]
  }

  /** They change numbers when the file is written, although nothing was modified. */
  lemma NumbersLost(start: nat)
    requires 0 < start <= 100
    ensures NumberedInOrder(SwappedSections()) && SO.Regular(R.Spans(SwappedSections()), start)
    ensures forall s :: s in SwappedSections() ==> !s.dirty && R.Loaded(s)
    ensures var s := SwappedSections();
            SO.Resort([], R.Spans(s), start) == Some(SO.Sorted(R.Spans([s[0], s[2], s[1]]), 210))
  {
    var s := SwappedSections();
    var a, b, c := R.SpanOf(s[0]), R.SpanOf(s[1]), R.SpanOf(s[2]);
    assert R.Spans(s) == [a, b, c] && R.Spans([s[0], s[2], s[1]]) == [a, c, b];
    assert [a, b, c][1..] == [b, c] && [b, c][1..] == [c] && [c][1..] == [];
    assert [] + [a] == [a] && [a] + [b] == [a, b] && [a, b] + [] == [a, b];
    assert SO.InsertPos([a, b], c, 0) == SO.InsertPos([a, b], c, 1) == Some(1);
    assert SO.InsertAt([a, b], 1, c) == [a, c, b];
    calc {
      SO.Resort([], [a, b, c], start);
      SO.Resort([a], [b, c], start);
      SO.Resort([a, b], [c], 210);
      SO.Resort([a, c, b], [], 210);
      Some(SO.Sorted([a, c, b], 210));
    }
  }
}
