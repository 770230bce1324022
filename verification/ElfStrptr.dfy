/** elf_strptr of elf_strptr.c: from an offset in a string section to a place in
    one of its data descriptors. */
module ElfStrptr {
  import opened Basics
  import opened ElfModel
  import opened Alignment
  import opened ElfLayout

  /** Byte `pos` of descriptor `desc`, or one of the two errors. */
  datatype StrPtr = Ptr(desc: nat, pos: nat) | ArgumentError | DataError

  /** Descriptors without a buffer or without bytes are passed over. */
  predicate Skipped(d: Desc) {
    d.buf == None || d.size == 0
  }

  /** A descriptor that the running count can take. */
  predicate Sound(d: Desc) {
    d.typ == BYTE_TYPE && (d.align > 1 ==> IsPowerOfTwo(d.align))
  }

  ghost predicate SoundUpTo(ds: seq<Desc>, n: nat)
    requires n <= |ds|
  {
    forall k :: 0 <= k < n && !Skipped(ds[k]) ==> Sound(ds[k])
  }

  ghost predicate AllBytes(ds: seq<Desc>)
  {
    forall k :: 0 <= k < |ds| && !Skipped(ds[k]) ==> ds[k].typ == BYTE_TYPE
  }

  // ------------------------------------------------ what the two branches look for

  /** An alignment of zero counts as one. */
  function AlignOf(d: Desc): (a: nat)
    ensures a > 0
  {
    if d.align > 1 then d.align else 1
  }

  /** The count before descriptor `k`. */
  function CountAt(ds: seq<Desc>, k: nat): nat
    requires k <= |ds|
  {
    if k == 0 then 0
    else if Skipped(ds[k - 1]) then CountAt(ds, k - 1)
    else Roundup(CountAt(ds, k - 1), AlignOf(ds[k - 1])) + ds[k - 1].size
  }

  /** Where descriptor `k` starts by the count. */
  function StartAt(ds: seq<Desc>, k: nat): nat
    requires k < |ds|
  {
    Roundup(CountAt(ds, k), AlignOf(ds[k]))
  }

  /** By the count, the offset is byte `pos` of descriptor `k`. */
  predicate Counted(ds: seq<Desc>, k: nat, pos: nat, offset: nat) {
    k < |ds| && !Skipped(ds[k]) && pos < ds[k].size && offset == StartAt(ds, k) + pos
  }

  /** By the offsets of the descriptors, it is. */
  predicate Located(ds: seq<Desc>, k: nat, pos: nat, offset: nat) {
    k < |ds| && !Skipped(ds[k]) && pos < ds[k].size && offset == ds[k].off + pos
  }

  lemma CountStep(ds: seq<Desc>, k: nat)
    requires k < |ds|
    ensures CountAt(ds, k) <= StartAt(ds, k)
    ensures CountAt(ds, k) <= CountAt(ds, k + 1)
  {
    RoundupBounds(CountAt(ds, k), AlignOf(ds[k]));
  }

  /** The count goes to the next multiple of the alignment of a descriptor, if it has one, and
      then past its bytes; descriptors without bytes do not count. */
  lemma CountMeans(ds: seq<Desc>, k: nat)
    requires k < |ds|
    ensures CountAt(ds, 0) == 0 && CountAt(ds, k) <= StartAt(ds, k)
    ensures ds[k].align <= 1 ==> StartAt(ds, k) == CountAt(ds, k)
    ensures ds[k].align > 1 ==> Aligned(StartAt(ds, k), ds[k].align) && StartAt(ds, k) < CountAt(ds, k) + ds[k].align
    ensures CountAt(ds, k + 1)
            == if ds[k].size == 0 || ds[k].buf == None then CountAt(ds, k) else StartAt(ds, k) + ds[k].size
  {
    CountStep(ds, k);
    RoundupBounds(CountAt(ds, k), AlignOf(ds[k]));
  }

  lemma {:induction false} CountGrows(ds: seq<Desc>, i: nat, k: nat)
    requires i <= k <= |ds|
    ensures CountAt(ds, i) <= CountAt(ds, k)
  {
    if i < k {
      CountGrows(ds, i, k - 1);
      CountStep(ds, k - 1);
    }
  }

  /** No two descriptors share a byte by the count. */
  lemma CountedOnce(ds: seq<Desc>, j: nat, p: nat, k: nat, q: nat, offset: nat)
    requires Counted(ds, j, p, offset) && Counted(ds, k, q, offset)
    ensures j == k && p == q
  {
    if j < k {
      CountGrows(ds, j + 1, k);
      CountStep(ds, k);
    } else if k < j {
      CountGrows(ds, k + 1, j);
      CountStep(ds, j);
    }
  }

  // ------------------------------------------------------------------ the two loops

  /** The branch without ELF_F_LAYOUT: a pointer exactly to the byte that the count
      designates, and otherwise an error, in holes and past the data alike. */
  method SeekByCount(ds: seq<Desc>, offset: nat) returns (r: StrPtr)
    ensures r.Ptr? ==> Counted(ds, r.desc, r.pos, offset)
    ensures SoundUpTo(ds, |ds|) ==> forall k: nat, pos: nat :: Counted(ds, k, pos, offset) ==> r == Ptr(k, pos)
    ensures r.DataError? ==> !SoundUpTo(ds, |ds|)
    ensures forall k: nat, pos: nat :: Counted(ds, k, pos, offset) && SoundUpTo(ds, k + 1) ==> r == Ptr(k, pos)
  {
    var count, i := 0, 0;
    while i < |ds| && count <= offset
      invariant 0 <= i <= |ds| && count == CountAt(ds, i)
      invariant forall k: nat, pos: nat :: Counted(ds, k, pos, offset) ==> i <= k
      invariant SoundUpTo(ds, i)
    {
      var d := ds[i];
      if Skipped(d) {
        i := i + 1;
        continue;
      }
      if d.typ != BYTE_TYPE {
        return DataError;
      }
      if d.align > 1 {
        if !IsPowerOfTwo(d.align) {
          return DataError;
        }
        count := Roundup(count, d.align);
      } else {
        RoundupOfOne(count);
      }
      CountedFrom(ds, i, offset);
      if offset < count {
        return ArgumentError;
      }
      if offset < count + d.size {
        PtrIsOnly(ds, i, offset);
        return Ptr(i, offset - count);
      }
      count := count + d.size;
      i := i + 1;
    }
    if i < |ds| {
      CountedFrom(ds, i, offset);
      CountStep(ds, i);
    }
    return ArgumentError;
  }

  lemma {:induction false} RoundupOfOne(x: nat)
    ensures Roundup(x, 1) == x
  {
    if x > 1 {
      RoundupOfOne(x - 1);
    }
  }

  /** A byte counted in descriptor `i` or later is not before the start of `i`. */
  lemma CountedFrom(ds: seq<Desc>, i: nat, offset: nat)
    requires i < |ds|
    ensures forall k: nat, pos: nat :: Counted(ds, k, pos, offset) && i <= k ==> CountAt(ds, i) <= offset
    ensures !Skipped(ds[i]) ==>
              forall k: nat, pos: nat :: Counted(ds, k, pos, offset) && i <= k ==> StartAt(ds, i) <= offset
    ensures !Skipped(ds[i]) ==>
              forall k: nat, pos: nat :: Counted(ds, k, pos, offset) && i < k ==> StartAt(ds, i) + ds[i].size <= offset
  {
    forall k: nat, pos: nat | Counted(ds, k, pos, offset) && i <= k
      ensures CountAt(ds, i) <= offset
      ensures !Skipped(ds[i]) ==> StartAt(ds, i) <= offset
      ensures !Skipped(ds[i]) && i < k ==> StartAt(ds, i) + ds[i].size <= offset
    {
      CountGrows(ds, i, k);
      CountStep(ds, k);
      if i < k {
        CountGrows(ds, i + 1, k);
      }
    }
  }

  lemma PtrIsOnly(ds: seq<Desc>, i: nat, offset: nat)
    requires i < |ds| && !Skipped(ds[i]) && StartAt(ds, i) <= offset < StartAt(ds, i) + ds[i].size
    ensures forall k: nat, pos: nat :: Counted(ds, k, pos, offset) ==> k == i && pos == offset - StartAt(ds, i)
  {
    var p := offset - StartAt(ds, i);
    assert Counted(ds, i, p, offset);
    forall k: nat, pos: nat | Counted(ds, k, pos, offset)
      ensures k == i && pos == p
    {
      CountedOnce(ds, i, p, k, pos, offset);
    }
  }

  /** The branch with ELF_F_LAYOUT: the first descriptor whose range has the offset. */
  method SeekByOffset(ds: seq<Desc>, offset: nat) returns (r: StrPtr)
    ensures r.Ptr? ==> Located(ds, r.desc, r.pos, offset)
    ensures r.Ptr? ==> forall k: nat, pos: nat :: Located(ds, k, pos, offset) ==> r.desc <= k
    ensures AllBytes(ds) && !r.Ptr? ==> forall k: nat, pos: nat :: !Located(ds, k, pos, offset)
    ensures r.DataError? ==> !AllBytes(ds)
  {
    var i := 0;
    while i < |ds|
      invariant 0 <= i <= |ds|
      invariant forall k: nat, pos: nat :: Located(ds, k, pos, offset) ==> i <= k
    {
      var d := ds[i];
      if !Skipped(d) {
        if d.typ != BYTE_TYPE {
          return DataError;
        }
        if d.off <= offset < d.off + d.size {
          return Ptr(i, offset - d.off);
        }
      }
      i := i + 1;
    }
    return ArgumentError;
  }

  /** elf_strptr on a section with data descriptors. */
  method Strptr(layout: bool, s: Scn, offset: nat) returns (r: StrPtr)
    ensures s.hdr.typ != SHT_STRTAB || offset >= s.hdr.size ==> r == ArgumentError
    ensures r.Ptr? ==>
              if layout then Located(s.descs, r.desc, r.pos, offset) else Counted(s.descs, r.desc, r.pos, offset)
    ensures s.hdr.typ == SHT_STRTAB && offset < s.hdr.size && !layout && SoundUpTo(s.descs, |s.descs|) ==>
              forall k: nat, pos: nat :: Counted(s.descs, k, pos, offset) ==> r == Ptr(k, pos)
    ensures s.hdr.typ == SHT_STRTAB && offset < s.hdr.size && layout && AllBytes(s.descs) && !r.Ptr? ==>
              forall k: nat, pos: nat :: !Located(s.descs, k, pos, offset)
  {
    if s.hdr.typ != SHT_STRTAB || offset >= s.hdr.size {
      return ArgumentError;
    }
    if layout {
      r := SeekByOffset(s.descs, offset);
    } else {
      r := SeekByCount(s.descs, offset);
    }
  }

  // ------------------------------------------- agreement with the layout of sections

  /** The end, in the layout of the library, of the last descriptor with bytes
      among the first `k`. */
  function LastEnd(ds: seq<Desc>, a: nat, k: nat): nat
    requires a > 0 && k <= |ds|
  {
    if k == 0 then 0
    else if ds[k - 1].size == 0 then LastEnd(ds, a, k - 1)
    else EndAt(Sizes(ds), a, k)
  }

  lemma {:induction false} OffIsAfterLastEnd(ds: seq<Desc>, a: nat, k: nat)
    requires a > 0 && k <= |ds|
    ensures Roundup(EndAt(Sizes(ds), a, k), a) == Roundup(LastEnd(ds, a, k), a)
    ensures LastEnd(ds, a, k) <= EndAt(Sizes(ds), a, k)
  {
    if k > 0 && ds[k - 1].size == 0 {
      OffIsAfterLastEnd(ds, a, k - 1);
      RoundupBounds(EndAt(Sizes(ds), a, k - 1), a);
      RoundupOfAligned(Roundup(EndAt(Sizes(ds), a, k - 1), a), a);
    }
  }

  /** The count and the layout put descriptor `k` in the same place. */
  predicate Agrees(ds: seq<Desc>, a: nat, k: nat)
    requires a > 0 && k < |ds|
  {
    !Skipped(ds[k]) ==> StartAt(ds, k) == OffAt(Sizes(ds), a, k)
  }

  /** No descriptor with bytes among the first `k` lacks a buffer. */
  ghost predicate Backed(ds: seq<Desc>, k: nat)
    requires k <= |ds|
  {
    forall m :: 0 <= m < k && ds[m].size > 0 ==> ds[m].buf.Some?
  }

  /** In front of a descriptor that counts, all data is present, and its own alignment
      leaves the same gap as that of the section. */
  ghost predicate AgreeableAt(ds: seq<Desc>, a: nat, k: nat)
    requires a > 0 && k < |ds|
  {
    Skipped(ds[k]) ||
    (Backed(ds, k) && Roundup(LastEnd(ds, a, k), AlignOf(ds[k])) == Roundup(LastEnd(ds, a, k), a))
  }

  /** The exact condition for agreement. */
  ghost predicate Agreeable(ds: seq<Desc>, a: nat)
    requires a > 0
  {
    forall k {:trigger AgreeableAt(ds, a, k)} :: 0 <= k < |ds| ==> AgreeableAt(ds, a, k)
  }

  ghost predicate AgreesUpTo(ds: seq<Desc>, a: nat, k: nat)
    requires a > 0 && k <= |ds|
  {
    forall j {:trigger Agrees(ds, a, j)} :: 0 <= j < k ==> Agrees(ds, a, j)
  }

  /** As far as data is present and the places agree, so do the ends. */
  lemma {:induction false} CountIsEnd(ds: seq<Desc>, a: nat, k: nat)
    requires a > 0 && k <= |ds| && Backed(ds, k) && AgreesUpTo(ds, a, k)
    ensures CountAt(ds, k) == LastEnd(ds, a, k)
  {
    if k > 0 {
      CountIsEnd(ds, a, k - 1);
      assert Agrees(ds, a, k - 1);
    }
  }

  lemma NextAgrees(ds: seq<Desc>, a: nat, k: nat)
    requires a > 0 && k < |ds| && Backed(ds, k) && AgreesUpTo(ds, a, k)
    ensures Agrees(ds, a, k) <==>
              Skipped(ds[k]) || Roundup(LastEnd(ds, a, k), AlignOf(ds[k])) == Roundup(LastEnd(ds, a, k), a)
  {
    CountIsEnd(ds, a, k);
    OffIsAfterLastEnd(ds, a, k);
  }

  lemma {:induction false} AgreeableAgrees(ds: seq<Desc>, a: nat, k: nat)
    requires a > 0 && Agreeable(ds, a) && k <= |ds|
    ensures AgreesUpTo(ds, a, k)
  {
    if k > 0 {
      AgreeableAgrees(ds, a, k - 1);
      assert AgreeableAt(ds, a, k - 1);
      if !Skipped(ds[k - 1]) {
        NextAgrees(ds, a, k - 1);
      }
    }
  }

  /** The layout of one more descriptor. */
  lemma EndFollowsOff(ds: seq<Desc>, a: nat, k: nat)
    requires a > 0 && k < |ds|
    ensures LastEnd(ds, a, k) <= OffAt(Sizes(ds), a, k)
    ensures EndAt(Sizes(ds), a, k + 1) == OffAt(Sizes(ds), a, k) + ds[k].size
  {
    OffIsAfterLastEnd(ds, a, k);
    OffIsNext(Sizes(ds), a, k);
  }

  /** The count never runs ahead of the layout. */
  lemma {:induction false} CountBelow(ds: seq<Desc>, a: nat, k: nat)
    requires a > 0 && AlignsWithin(ds, a) && k <= |ds|
    ensures CountAt(ds, k) <= LastEnd(ds, a, k)
  {
    if k > 0 {
      CountBelow(ds, a, k - 1);
      StartBelow(ds, a, k - 1, k - 1);
      EndFollowsOff(ds, a, k - 1);
    }
  }

  /** From a count that is not past descriptor `m`, no start gets past it either. */
  lemma StartBelow(ds: seq<Desc>, a: nat, m: nat, j: nat)
    requires a > 0 && AlignsWithin(ds, a) && m <= j < |ds|
    requires CountAt(ds, j) <= LastEnd(ds, a, m)
    ensures StartAt(ds, j) <= OffAt(Sizes(ds), a, m)
  {
    OffIsAfterLastEnd(ds, a, m);
    OffIsNext(Sizes(ds), a, m);
    var align := ds[j].align;
    assert IsPowerOfTwo(align) && align <= a;
    PowersDivide(align, a);
    AlignedTransitive(OffAt(Sizes(ds), a, m), a, align);
    RoundupIsLeast(CountAt(ds, j), align, OffAt(Sizes(ds), a, m));
  }

  /** Data without a buffer throws the count off for the next descriptor. */
  lemma {:induction false} MissingDataDisagrees(ds: seq<Desc>, a: nat, m: nat, i: nat, k: nat)
    requires a > 0 && AlignsWithin(ds, a) && m < i <= k < |ds|
    requires ds[m].size > 0 && ds[m].buf == None && !Skipped(ds[k])
    requires CountAt(ds, i) == CountAt(ds, m)
    ensures exists j :: 0 <= j < |ds| && !Agrees(ds, a, j)
    decreases k - i
  {
    if Skipped(ds[i]) {
      MissingDataDisagrees(ds, a, m, i + 1, k);
    } else {
      CountBelow(ds, a, m);
      StartBelow(ds, a, m, i);
      OffsInOrder(Sizes(ds), a, m, i);
      assert !Agrees(ds, a, i);
    }
  }

  lemma AgreesIsAgreeable(ds: seq<Desc>, a: nat)
    requires a > 0 && AlignsWithin(ds, a)
    requires AgreesUpTo(ds, a, |ds|)
    ensures Agreeable(ds, a)
  {
    forall k | 0 <= k < |ds|
      ensures AgreeableAt(ds, a, k)
    {
      if !Skipped(ds[k]) {
        if m :| 0 <= m < k && ds[m].size > 0 && ds[m].buf == None {
          MissingDataDisagrees(ds, a, m, m + 1, k);
        }
        NextAgrees(ds, a, k);
        assert Agrees(ds, a, k);
      }
    }
  }

  /** Before and after the layout an offset designates the same byte. */
  ghost predicate SameBytes(ds: seq<Desc>, a: nat)
    requires a > 0
  {
    forall k: nat, pos: nat, offset: nat :: Counted(ds, k, pos, offset) <==> Located(Relocated(ds, a), k, pos, offset)
  }

  /** The two branches of elf_strptr designate the same bytes, one before and one
      after the library lays out the section, exactly when `Agreeable` holds. */
  lemma SameBytesIffAgreeable(ds: seq<Desc>, a: nat)
    requires a > 0 && AlignsWithin(ds, a)
    ensures SameBytes(ds, a) <==> Agreeable(ds, a)
  {
    var r := Relocated(ds, a);
    assert forall k :: 0 <= k < |ds| ==> r[k] == ds[k].(off := OffAt(Sizes(ds), a, k));
    if Agreeable(ds, a) {
      AgreeableAgrees(ds, a, |ds|);
      forall k: nat, pos: nat, offset: nat
        ensures Counted(ds, k, pos, offset) <==> Located(r, k, pos, offset)
      {
        if 0 <= k < |ds| {
          assert Agrees(ds, a, k);
        }
      }
    }
    if SameBytes(ds, a) {
      forall k | 0 <= k < |ds|
        ensures Agrees(ds, a, k)
      {
        if !Skipped(ds[k]) {
          assert Counted(ds, k, 0, StartAt(ds, k));
          assert Located(r, k, 0, StartAt(ds, k));
        }
      }
      AgreesIsAgreeable(ds, a);
    }
  }

  /** One alignment for all descriptors, and no missing data: the case that the
      comments of elf_strptr have in mind. */
  lemma SharedAlignmentAgrees(ds: seq<Desc>, a: nat)
    requires IsPowerOfTwo(a) && Backed(ds, |ds|)
    requires forall k {:trigger ds[k].align} :: 0 <= k < |ds| ==> ds[k].align == a
    ensures SameBytes(ds, a)
  {
    forall k | 0 <= k < |ds|
      ensures AgreeableAt(ds, a, k)
    {
      assert ds[k].align == a;
    }
    SameBytesIffAgreeable(ds, a);
  }

  function MixedExample(): seq<Desc> {
    [Desc(0, 5, 8, BYTE_TYPE, EV_CURRENT, Some([0, 0, 0, 0, 0])),
     Desc(0, 3, 4, BYTE_TYPE, EV_CURRENT, Some([0, 0, 0])),
     Desc(0, 2, 4, BYTE_TYPE, EV_CURRENT, Some([0, 0]))]
  }

  /** Descriptors of 5, 3 and 2 bytes with alignments 8, 4 and 4: the layout puts the
      third at offset 16, by the count it is at offset 12. */
  lemma MixedAlignmentsDisagree()
    ensures AlignsWithin(MixedExample(), 8) && Counted(MixedExample(), 2, 0, 12)
    ensures Relocated(MixedExample(), 8)[2].off == 16 && !SameBytes(MixedExample(), 8)
  {
    var ds := MixedExample();
    assert IsPowerOfTwo(4) && IsPowerOfTwo(8);
    MixedCounts();
    assert Relocated(ds, 8)[2].off == 16;
    assert Counted(ds, 2, 0, 12) && !Located(Relocated(ds, 8), 2, 0, 12);
  }

  lemma MixedCounts()
    ensures StartAt(MixedExample(), 2) == 12 && OffAt(Sizes(MixedExample()), 8, 2) == 16
  {
    var ds := MixedExample();
    assert Roundup(5, 4) == 8 && Roundup(11, 4) == 12 && Roundup(5, 8) == 8 && Roundup(11, 8) == 16;
    assert CountAt(ds, 1) == 5 && CountAt(ds, 2) == 11;
    assert EndAt(Sizes(ds), 8, 1) == 5 && EndAt(Sizes(ds), 8, 2) == 11;
  }
}
