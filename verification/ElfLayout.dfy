/** _libelf_compute_section_extents of elf_update.c: the placement of the data
    descriptors of one section, and of the section itself, in the file. */
module ElfLayout {
  import opened Basics
  import opened ElfModel
  import opened Alignment

  // ----------------------------------------------- the layout as a computation

  /** The end of the first `k` descriptors, each placed at the next multiple of `a`. */
  function EndAt(sizes: seq<nat>, a: nat, k: nat): nat
    requires a > 0 && k <= |sizes|
  {
    if k == 0 then 0 else Roundup(EndAt(sizes, a, k - 1), a) + sizes[k - 1]
  }

  /** The offset at which descriptor `k` is placed. */
  function OffAt(sizes: seq<nat>, a: nat, k: nat): nat
    requires a > 0 && k < |sizes|
  {
    Roundup(EndAt(sizes, a, k), a)
  }

  /** Each descriptor goes to the first aligned place after its predecessors. */
  lemma OffIsNext(sizes: seq<nat>, a: nat, k: nat)
    requires a > 0 && k < |sizes|
    ensures EndAt(sizes, a, k) <= OffAt(sizes, a, k) < EndAt(sizes, a, k) + a
    ensures Aligned(OffAt(sizes, a, k), a)
    ensures EndAt(sizes, a, k + 1) == OffAt(sizes, a, k) + sizes[k]
  {
    RoundupBounds(EndAt(sizes, a, k), a);
  }

  lemma {:induction false} EndGrows(sizes: seq<nat>, a: nat, i: nat, k: nat)
    requires a > 0 && i <= k <= |sizes|
    ensures EndAt(sizes, a, i) <= EndAt(sizes, a, k)
  {
    if i < k {
      EndGrows(sizes, a, i, k - 1);
      OffIsNext(sizes, a, k - 1);
    }
  }

  /** Descriptors are placed in order and without overlap. */
  lemma OffsInOrder(sizes: seq<nat>, a: nat, i: nat, k: nat)
    requires a > 0 && i < k < |sizes|
    ensures OffAt(sizes, a, i) + sizes[i] <= OffAt(sizes, a, k)
  {
    OffIsNext(sizes, a, i);
    EndGrows(sizes, a, i + 1, k);
    OffIsNext(sizes, a, k);
  }

  function Sizes(ds: seq<Desc>): (r: seq<nat>)
    ensures |r| == |ds| && forall i {:trigger r[i]} :: 0 <= i < |ds| ==> r[i] == ds[i].size
  {
    seq(|ds|, i requires 0 <= i < |ds| => ds[i].size)
  }

  /** The largest alignment among the first `k` descriptors. */
  function MaxAlign(ds: seq<Desc>, k: nat): nat
    requires k <= |ds|
  {
    if k == 0 then 0 else Max(MaxAlign(ds, k - 1), ds[k - 1].align)
  }

  lemma {:induction false} MaxAlignBounds(ds: seq<Desc>, k: nat)
    requires k <= |ds|
    ensures forall i :: 0 <= i < k ==> ds[i].align <= MaxAlign(ds, k)
    ensures k > 0 ==> exists i :: 0 <= i < k && ds[i].align == MaxAlign(ds, k)
  {
    if k > 0 {
      MaxAlignBounds(ds, k - 1);
      if k > 1 && MaxAlign(ds, k) != ds[k - 1].align {
        var i :| 0 <= i < k - 1 && ds[i].align == MaxAlign(ds, k - 1);
        assert ds[i].align == MaxAlign(ds, k);
      }
    }
  }

  /** The largest end of one of the first `k` descriptors, where they are. */
  function DataEnd(ds: seq<Desc>, k: nat): nat
    requires k <= |ds|
  {
    if k == 0 then 0 else Max(DataEnd(ds, k - 1), ds[k - 1].off + ds[k - 1].size)
  }

  /** The descriptors at the offsets that the library gives them. */
  function Relocated(ds: seq<Desc>, a: nat): (r: seq<Desc>)
    requires a > 0
    ensures |r| == |ds|
  {
    seq(|ds|, k requires 0 <= k < |ds| => ds[k].(off := OffAt(Sizes(ds), a, k)))
  }

  /** Descriptors are in order inside a section of the given size. */
  ghost predicate InOrder(ds: seq<Desc>, size: nat)
  {
    && (forall i, k :: 0 <= i < k < |ds| ==> ds[i].off + ds[i].size <= ds[k].off)
    && (forall k :: 0 <= k < |ds| ==> ds[k].off + ds[k].size <= size)
  }

  /** Each descriptor is on its own alignment when the section is at `base`. */
  ghost predicate AllAligned(ds: seq<Desc>, base: nat)
  {
    forall k :: 0 <= k < |ds| ==> Aligned(base + ds[k].off, ds[k].align)
  }

  /** Descriptors are in order, each on its own alignment in the file when the
      section is at `base`, and the section ends with the last of them. */
  ghost predicate Tight(ds: seq<Desc>, base: nat, size: nat)
  {
    && InOrder(ds, size)
    && AllAligned(ds, base)
    && size == (if ds == [] then 0 else ds[|ds| - 1].off + ds[|ds| - 1].size)
  }

  /** All alignments are powers of two that divide `a`. */
  ghost predicate AlignsWithin(ds: seq<Desc>, a: nat)
  {
    && (ds != [] ==> IsPowerOfTwo(a))
    && (forall k {:trigger ds[k].align} :: 0 <= k < |ds| ==> IsPowerOfTwo(ds[k].align) && ds[k].align <= a)
  }

  lemma RelocatedAligned(ds: seq<Desc>, a: nat, rc: nat)
    requires a > 0 && AlignsWithin(ds, a)
    ensures AllAligned(Relocated(ds, a), Roundup(rc, a))
  {
    var r := Relocated(ds, a);
    forall k | 0 <= k < |r|
      ensures Aligned(Roundup(rc, a) + r[k].off, r[k].align)
    {
      OffIsNext(Sizes(ds), a, k);
      assert r[k].align == ds[k].align;
      OnItsAlignment(rc, r[k].off, a, ds[k].align);
    }
  }

  lemma RelocatedInOrder(ds: seq<Desc>, a: nat)
    requires a > 0
    ensures InOrder(Relocated(ds, a), EndAt(Sizes(ds), a, |ds|))
  {
    var r, sizes := Relocated(ds, a), Sizes(ds);
    forall i, k | 0 <= i < k < |r|
      ensures r[i].off + r[i].size <= r[k].off
    {
      OffsInOrder(sizes, a, i, k);
    }
    forall k | 0 <= k < |r|
      ensures r[k].off + r[k].size <= EndAt(sizes, a, |ds|)
    {
      OffIsNext(sizes, a, k);
      EndGrows(sizes, a, k + 1, |ds|);
    }
  }

  /** The library's layout is tight when the section starts on the largest
      alignment of its descriptors, all of them powers of two. */
  lemma LayoutIsTight(ds: seq<Desc>, a: nat, rc: nat)
    requires a > 0 && AlignsWithin(ds, a)
    ensures Tight(Relocated(ds, a), Roundup(rc, a), EndAt(Sizes(ds), a, |ds|))
  {
    RelocatedAligned(ds, a, rc);
    RelocatedInOrder(ds, a);
    if ds != [] {
      OffIsNext(Sizes(ds), a, |ds| - 1);
    }
  }

  lemma OnItsAlignment(rc: nat, off: nat, a: nat, align: nat)
    requires IsPowerOfTwo(a) && IsPowerOfTwo(align) && align <= a && Aligned(off, a)
    ensures Aligned(Roundup(rc, a) + off, align)
  {
    RoundupBounds(rc, a);
    AlignedSum(Roundup(rc, a), off, a);
    PowersDivide(align, a);
    AlignedTransitive(Roundup(rc, a) + off, a, align);
  }

  // ----------------------------------------------------------- one section's extent

  /** A section that takes no space in the file. */
  predicate IsPassive(hdr: Shdr) {
    hdr.typ == SHT_NULL || hdr.typ == SHT_NOBITS
  }

  /** A section that has to be laid out. */
  predicate IsDirty(v: Scn) {
    v.dirty && !IsPassive(v.hdr)
  }

  /** The alignment of the section header, or the natural one where it is zero. */
  function SectionAlign(hdr: Shdr, t: Entry): (a: nat)
    ensures a > 0
  {
    if hdr.addralign == 0 then t.align else hdr.addralign
  }

  predicate DescriptorFits(d: Desc, t: ElfType, version: nat, shAlign: nat)
  {
    d.typ == t && d.version == version && Aligned(d.align, shAlign) && IsPowerOfTwo(d.align)
  }

  ghost predicate AllFit(ds: seq<Desc>, t: ElfType, version: nat, shAlign: nat)
  {
    forall k :: 0 <= k < |ds| ==> DescriptorFits(ds[k], t, version, shAlign)
  }

  /** A dirty section is accepted exactly when this holds. */
  ghost predicate Acceptable(layout: bool, f: Format, version: nat, v: Scn)
  {
    var t := f.entry(v.hdr.typ);
    && t.Some?
    && var a := SectionAlign(v.hdr, t.value);
    && AllFit(v.descs, t.value.typ, version, a)
    && (layout ==>
          && MaxAlign(v.descs, |v.descs|) <= a
          && Aligned(v.hdr.offset, a)
          && DataEnd(v.descs, |v.descs|) <= v.hdr.size)
  }

  /** sh_entsize as the library fills it in. */
  function EntSize(hdr: Shdr, t: Entry): nat {
    if hdr.entsize != 0 then hdr.entsize
    else if t.fsize == 1 then 0
    else t.fsize
  }

  /** The alignment a section ends up with. */
  function FinalAlign(f: Format, v: Scn): (a: nat)
    requires f.entry(v.hdr.typ).Some?
    ensures a > 0
  {
    Max(SectionAlign(v.hdr, f.entry(v.hdr.typ).value), MaxAlign(v.descs, |v.descs|))
  }

  /** A dirty section laid out by the library behind everything up to `rc`. */
  function Placed(f: Format, v: Scn, rc: nat): Scn
    requires f.entry(v.hdr.typ).Some?
  {
    var a := FinalAlign(f, v);
    var hdr := v.hdr.(addralign := a, entsize := EntSize(v.hdr, f.entry(v.hdr.typ).value),
                      offset := Roundup(rc, a), size := EndAt(Sizes(v.descs), a, |v.descs|));
    v.(hdr := hdr, offset := hdr.offset, size := hdr.size, descs := Relocated(v.descs, a))
  }

  /** The section after a successful call. */
  ghost function Extent(layout: bool, f: Format, v: Scn, rc: nat): Scn
    requires IsDirty(v) && !layout ==> f.entry(v.hdr.typ).Some?
  {
    if !IsDirty(v) then v
    else if layout then v.(offset := v.hdr.offset, size := v.hdr.size)
    else Placed(f, v, rc)
  }

  /** What the call does to a section, or `None` for an error. */
  ghost function SectionStep(layout: bool, f: Format, version: nat, v: Scn, rc: nat): Option<Scn>
  {
    if IsDirty(v) && !Acceptable(layout, f, version, v) then None else Some(Extent(layout, f, v, rc))
  }

  /** The end of the file after a section. */
  function EndAfter(v: Scn, rc: nat): nat {
    if IsPassive(v.hdr) then rc else Max(rc, v.hdr.offset + v.hdr.size)
  }

  /** An accepted section is aligned to the largest of its descriptors. */
  lemma AcceptedAlignments(f: Format, version: nat, v: Scn)
    requires Acceptable(false, f, version, v)
    ensures v.descs != [] ==> FinalAlign(f, v) == MaxAlign(v.descs, |v.descs|)
    ensures AlignsWithin(v.descs, FinalAlign(f, v))
  {
    var t := f.entry(v.hdr.typ).value;
    var a := SectionAlign(v.hdr, t);
    MaxAlignBounds(v.descs, |v.descs|);
    if v.descs != [] {
      var i :| 0 <= i < |v.descs| && v.descs[i].align == MaxAlign(v.descs, |v.descs|);
      assert Aligned(v.descs[i].align, a) && IsPowerOfTwo(v.descs[i].align);
    }
  }

  /** When the library lays out a section, it starts at or past `rc`, its
      descriptors follow each other without overlap, each on its own alignment
      in the file, and the section ends exactly with the last of them. */
  lemma PlacedIsTight(f: Format, version: nat, v: Scn, rc: nat)
    requires Acceptable(false, f, version, v)
    ensures var w := Placed(f, v, rc);
            && rc <= w.offset < rc + FinalAlign(f, v)
            && w.offset == w.hdr.offset && w.size == w.hdr.size
            && Tight(w.descs, w.offset, w.size)
            && Aligned(w.offset, w.hdr.addralign)
  {
    AcceptedAlignments(f, version, v);
    LayoutIsTight(v.descs, FinalAlign(f, v), rc);
    RoundupBounds(rc, FinalAlign(f, v));
  }

  /** The alignment that a section has to have: the one its header asks for, or the natural
      one of its entries. */
  ghost predicate Asked(hdr: Shdr, t: Entry, a: nat)
  {
    (hdr.addralign != 0 ==> a == hdr.addralign) && (hdr.addralign == 0 ==> a == t.align)
  }

  lemma {:induction false} DataEndWithin(ds: seq<Desc>, k: nat, n: nat)
    requires k <= |ds|
    ensures DataEnd(ds, k) <= n <==> forall i :: 0 <= i < k ==> ds[i].off + ds[i].size <= n
  {
    if k > 0 {
      DataEndWithin(ds, k - 1, n);
    }
  }

  /** A descriptor of the right type and version on a power of two that is a multiple of
      the alignment asked for. */
  ghost predicate Suits(d: Desc, t: ElfType, version: nat, a: nat)
  {
    d.typ == t && d.version == version && IsPowerOfTwo(d.align) && d.align >= a && Aligned(d.align, a)
  }

  lemma MultipleBelow(x: nat, a: nat)
    requires Aligned(x, a) && IsPowerOfTwo(x)
    ensures a <= x
  {
  }

  /** Exactly which dirty sections are accepted, descriptor by descriptor.  With
      ELF_F_LAYOUT no descriptor may be aligned to more than the section, and each has to
      end inside it. */
  lemma AcceptedIff(layout: bool, f: Format, version: nat, v: Scn, t: Entry, a: nat)
    requires f.entry(v.hdr.typ) == Some(t) && Asked(v.hdr, t, a)
    ensures Acceptable(layout, f, version, v) <==>
              && (forall k :: 0 <= k < |v.descs| ==> Suits(v.descs[k], t.typ, version, a))
              && (layout ==>
                    && Aligned(v.hdr.offset, a)
                    && forall k :: 0 <= k < |v.descs| ==>
                         v.descs[k].align <= a && v.descs[k].off + v.descs[k].size <= v.hdr.size)
  {
    DataEndWithin(v.descs, |v.descs|, v.hdr.size);
    MaxAlignBounds(v.descs, |v.descs|);
    forall k | 0 <= k < |v.descs|
      ensures Suits(v.descs[k], t.typ, version, a) <==> DescriptorFits(v.descs[k], t.typ, version, a)
    {
      if DescriptorFits(v.descs[k], t.typ, version, a) {
        MultipleBelow(v.descs[k].align, a);
      }
    }
    assert Acceptable(layout, f, version, v) ==> forall k :: 0 <= k < |v.descs| ==>
      DescriptorFits(v.descs[k], t.typ, version, a);
    if v.descs != [] {
      var i :| 0 <= i < |v.descs| && v.descs[i].align == MaxAlign(v.descs, |v.descs|);
    }
  }

  /** sh_entsize is kept if it was given; otherwise it is the size of an entry in the file,
      except that sections of single bytes have none. */
  ghost predicate EntSizeFilled(before: Shdr, t: Entry, after: Shdr)
  {
    && (before.entsize != 0 ==> after.entsize == before.entsize)
    && (before.entsize == 0 && t.fsize > 1 ==> after.entsize == t.fsize)
    && (before.entsize == 0 && t.fsize == 1 ==> after.entsize == 0)
  }

  /** A section that the library places keeps everything but its place, its size, its
      alignment and the size of its entries, and its descriptors all but their offsets. */
  lemma PlacedKeeps(f: Format, version: nat, v: Scn, rc: nat, t: Entry, a: nat)
    requires f.entry(v.hdr.typ) == Some(t) && Asked(v.hdr, t, a) && Acceptable(false, f, version, v)
    ensures var w := Placed(f, v, rc);
            && w.ndx == v.ndx && w.dirty == v.dirty && w.rawoff == v.rawoff && w.raw == v.raw
            && w.hdr.name == v.hdr.name && w.hdr.typ == v.hdr.typ && w.hdr.flags == v.hdr.flags
            && w.hdr.addr == v.hdr.addr && w.hdr.link == v.hdr.link && w.hdr.info == v.hdr.info
            && EntSizeFilled(v.hdr, t, w.hdr)
            && |w.descs| == |v.descs|
            && forall k :: 0 <= k < |v.descs| ==> w.descs[k] == v.descs[k].(off := w.descs[k].off)
    ensures var w := Placed(f, v, rc);
            && Aligned(w.hdr.addralign, a) && Aligned(w.hdr.offset, a)
            && (v.descs == [] ==> w.hdr.addralign == a)
            && (v.descs != [] ==> exists k :: 0 <= k < |v.descs| && w.hdr.addralign == v.descs[k].align)
  {
    AcceptedAlignments(f, version, v);
    MaxAlignBounds(v.descs, |v.descs|);
    RoundupBounds(rc, FinalAlign(f, v));
    if v.descs != [] {
      var i :| 0 <= i < |v.descs| && v.descs[i].align == MaxAlign(v.descs, |v.descs|);
      assert DescriptorFits(v.descs[i], t.typ, version, a);
      AlignedTransitive(Roundup(rc, FinalAlign(f, v)), FinalAlign(f, v), a);
    } else {
      assert Aligned(a - a, a);
    }
  }

  /** With ELF_F_LAYOUT the library accepts descriptors that overlap, although the
      comment above the function promises an error: two descriptors on the same byte. */
  lemma OverlapAccepted(f: Format, version: nat, t: Entry) returns (v: Scn)
    requires f.entry(SHT_PROGBITS) == Some(t)
    ensures IsDirty(v) && |v.descs| == 2 && v.descs[0] == v.descs[1] && v.descs[0].size > 0
    ensures Acceptable(true, f, version, v) && !InOrder(v.descs, v.hdr.size)
  {
    var d := Desc(0, 1, 1, t.typ, version, Some([7]));
    var ds := [d, d];
    v := Scn(1, ZERO_SHDR.(typ := SHT_PROGBITS, size := 1, addralign := 1), true, 0, 0, 0, [], ds);
    assert MaxAlign(ds, 2) == Max(MaxAlign(ds, 1), 1);
    assert DataEnd(ds, 2) == Max(DataEnd(ds, 1), 1);
    assert Aligned(1, 1);
    assert ds[0].off + ds[0].size > ds[1].off;
  }

  /** An accepted section has its descriptors in order exactly if the library has placed
      them, or the application had them in order. */
  lemma InOrderIff(layout: bool, f: Format, version: nat, v: Scn, rc: nat)
    requires IsDirty(v) && Acceptable(layout, f, version, v)
    ensures var w := Extent(layout, f, v, rc);
            InOrder(w.descs, w.hdr.size) <==> !layout || InOrder(v.descs, v.hdr.size)
  {
    if !layout {
      PlacedIsTight(f, version, v, rc);
    }
  }

  /** What the comment above the function promises: the descriptors of every section
      that is accepted are in order. */
  ghost predicate OverlapsRefused(layout: bool, f: Format, version: nat)
  {
    forall v: Scn, rc: nat :: IsDirty(v) && Acceptable(layout, f, version, v) ==>
      var w := Extent(layout, f, v, rc);
      InOrder(w.descs, w.hdr.size)
  }

  /** The promise is kept exactly where the library does the layout. */
  lemma OverlapsRefusedIff(layout: bool, f: Format, version: nat, t: Entry)
    requires f.entry(SHT_PROGBITS) == Some(t)
    ensures OverlapsRefused(layout, f, version) <==> !layout
  {
    if layout {
      var v := OverlapAccepted(f, version, t);
      InOrderIff(layout, f, version, v, 0);
    } else {
      forall v: Scn, rc: nat | IsDirty(v) && Acceptable(layout, f, version, v)
        ensures InOrder(Extent(layout, f, v, rc).descs, Extent(layout, f, v, rc).hdr.size)
      {
        InOrderIff(layout, f, version, v, rc);
      }
    }
  }

  // ------------------------------------------------------------------ the methods

  /** The first loop of the function: check every descriptor and find the
      alignment of the section. */
  method SectionAlignment(ds: seq<Desc>, t: ElfType, version: nat, shAlign: nat)
    returns (ok: bool, scnAlign: nat)
    requires shAlign > 0
    ensures ok <==> AllFit(ds, t, version, shAlign)
    ensures ok ==> scnAlign == MaxAlign(ds, |ds|)
  {
    ok, scnAlign := true, 0;
    var i := 0;
    while i < |ds|
      invariant 0 <= i <= |ds|
      invariant forall k :: 0 <= k < i ==> DescriptorFits(ds[k], t, version, shAlign)
      invariant scnAlign == MaxAlign(ds, i)
    {
      var d := ds[i];
      var divides := IsMultiple(d.align, shAlign);
      if d.typ != t || d.version != version || !divides || !IsPowerOfTwo(d.align) {
        assert !DescriptorFits(ds[i], t, version, shAlign);
        return false, 0;
      }
      if d.align > scnAlign {
        scnAlign := d.align;
      }
      i := i + 1;
    }
  }

  /** The second loop with ELF_F_LAYOUT set: nothing moves. */
  method MeasureData(ds: seq<Desc>) returns (size: nat)
    ensures size == DataEnd(ds, |ds|)
  {
    size := 0;
    var i := 0;
    while i < |ds|
      invariant 0 <= i <= |ds|
      invariant size == DataEnd(ds, i)
    {
      if ds[i].off + ds[i].size > size {
        size := ds[i].off + ds[i].size;
      }
      i := i + 1;
    }
  }

  /** The second loop when the library does the layout. */
  method PlaceData(ds: seq<Desc>, a: nat) returns (r: seq<Desc>, size: nat)
    requires ds != [] ==> a > 0
    ensures ds == [] ==> r == [] && size == 0
    ensures ds != [] ==> r == Relocated(ds, a) && size == EndAt(Sizes(ds), a, |ds|)
  {
    r, size := ds, 0;
    ghost var sizes := Sizes(ds);
    var i := 0;
    while i < |r|
      invariant 0 <= i <= |r| == |ds|
      invariant ds != [] ==> size == EndAt(sizes, a, i)
      invariant ds == [] ==> size == 0
      invariant forall k {:trigger OffAt(sizes, a, k)} :: 0 <= k < i ==>
                  r[k] == ds[k].(off := OffAt(sizes, a, k))
      invariant forall k :: i <= k < |ds| ==> r[k] == ds[k]
    {
      assert r[i] == ds[i];
      size := Roundup(size, a);
      r := r[i := r[i].(off := size)];
      size := size + r[i].size;
      i := i + 1;
    }
  }

  /** The section header as the library fills it in. */
  method PlacedHeader(hdr: Shdr, t: Entry, a: nat, rc: nat, size: nat) returns (r: Shdr)
    requires a > 0
    ensures r == hdr.(addralign := a, entsize := EntSize(hdr, t), offset := Roundup(rc, a), size := size)
  {
    var entSize := hdr.entsize;
    if entSize == 0 {
      entSize := t.fsize;
      if entSize == 1 {
        entSize := 0;
      }
    }
    r := hdr.(addralign := a, entsize := entSize, offset := Roundup(rc, a), size := size);
  }

  /** The part of the function that handles a dirty section with contents. */
  method PlaceSection(layout: bool, f: Format, version: nat, s: Scn, rc: nat) returns (r: Option<Scn>)
    requires IsDirty(s)
    ensures r == SectionStep(layout, f, version, s, rc)
  {
    var elftype := f.entry(s.hdr.typ);
    if elftype == None {
      return None;
    }
    var t := elftype.value;
    var shAlign := if s.hdr.addralign == 0 then t.align else s.hdr.addralign;
    var fits, scnAlign := SectionAlignment(s.descs, t.typ, version, shAlign);
    if !fits {
      return None;
    }
    if layout {
      var scnSize := MeasureData(s.descs);
      var aligned := IsMultiple(s.hdr.offset, shAlign);
      if scnAlign > shAlign || !aligned || s.hdr.size < scnSize {
        return None;
      }
      r := Some(s.(offset := s.hdr.offset, size := s.hdr.size));
    } else {
      AcceptedAlignments(f, version, s);
      var a := if scnAlign > shAlign then scnAlign else shAlign;
      var descs, scnSize := PlaceData(s.descs, scnAlign);
      assert descs == Relocated(s.descs, a);
      var hdr := PlacedHeader(s.hdr, t, a, rc, scnSize);
      r := Some(s.(hdr := hdr, offset := hdr.offset, size := hdr.size, descs := descs));
    }
  }

  /** _libelf_compute_section_extents: the section as it is afterwards, or an
      error, and the end of the file so far. */
  method ComputeSectionExtents(layout: bool, f: Format, version: nat, s: Scn, rc: nat)
    returns (r: Option<Scn>, nrc: nat)
    ensures r == SectionStep(layout, f, version, s, rc)
    ensures r.Some? ==> nrc == EndAfter(r.value, rc)
  {
    r, nrc := Some(s), rc;
    if s.hdr.typ == SHT_NULL || s.hdr.typ == SHT_NOBITS {
      return;
    }
    if s.dirty {
      r := PlaceSection(layout, f, version, s, rc);
    }
    if r.Some? && rc < r.value.hdr.offset + r.value.hdr.size {
      nrc := r.value.hdr.offset + r.value.hdr.size;
    }
  }
}
