/** _libelf_insert_section and _libelf_resync_sections of elf_update.c: place
    every section, then bring the section list into the order of the file. */
module ElfResync {
  import opened Basics
  import opened ElfModel
  import opened Alignment
  import opened ElfLayout
  import SO = SectionOrder

  // ------------------------------------------------------------- the first pass

  datatype Pass = Pass(scns: seq<Scn>, end: nat)

  /** The extents of the first `k` sections, each placed behind the ones before it. */
  ghost function FirstPass(layout: bool, f: Format, version: nat, ss: seq<Scn>, k: nat, start: nat)
    : (r: Option<Pass>)
    requires k <= |ss|
    ensures r.Some? ==> |r.value.scns| == k
  {
    if k == 0 then Some(Pass([], start))
    else
      var p := FirstPass(layout, f, version, ss, k - 1, start);
      if p == None then None
      else
        var w := SectionStep(layout, f, version, ss[k - 1], p.value.end);
        if w == None then None
        else Some(Pass(p.value.scns + [w.value], EndAfter(w.value, p.value.end)))
  }

  ghost predicate AllAcceptable(layout: bool, f: Format, version: nat, ss: seq<Scn>)
  {
    forall i :: 0 <= i < |ss| && IsDirty(ss[i]) ==> Acceptable(layout, f, version, ss[i])
  }

  /** The first pass accepts exactly the lists whose dirty sections are all acceptable. */
  lemma {:induction false} FirstPassAccepts(layout: bool, f: Format, version: nat, ss: seq<Scn>, k: nat, start: nat)
    requires k <= |ss|
    ensures FirstPass(layout, f, version, ss, k, start).Some? <==> AllAcceptable(layout, f, version, ss[..k])
  {
    if k > 0 {
      FirstPassAccepts(layout, f, version, ss, k - 1, start);
      assert ss[..k] == ss[..k - 1] + [ss[k - 1]];
    }
  }

  /** What the layout of a section may rely on afterwards. */
  ghost predicate Settled(layout: bool, start: nat, v: Scn)
  {
    IsPassive(v.hdr) ||
    (&& v.offset == v.hdr.offset && v.size == v.hdr.size
     && (v.dirty && !layout ==> start <= v.offset && Tight(v.descs, v.offset, v.size)))
  }

  /** The private extent of a clean section still agrees with its header. */
  ghost predicate Loaded(v: Scn)
  {
    v.dirty || IsPassive(v.hdr) || (v.offset == v.hdr.offset && v.size == v.hdr.size)
  }

  /** `end` is the largest end of a section with contents, by the headers. */
  ghost predicate IsHeaderEnd(ss: seq<Scn>, start: nat, end: nat)
  {
    && start <= end
    && (forall i :: 0 <= i < |ss| && !IsPassive(ss[i].hdr) ==> ss[i].hdr.offset + ss[i].hdr.size <= end)
    && (end == start ||
        exists i :: 0 <= i < |ss| && !IsPassive(ss[i].hdr) && ss[i].hdr.offset + ss[i].hdr.size == end)
  }

  lemma HeaderEndStep(ss: seq<Scn>, start: nat, end: nat, w: Scn)
    requires IsHeaderEnd(ss, start, end)
    ensures IsHeaderEnd(ss + [w], start, EndAfter(w, end))
  {
    var r := ss + [w];
    assert forall i :: 0 <= i < |ss| ==> r[i] == ss[i];
    assert r[|ss|] == w;
    if end != start {
      var m :| 0 <= m < |ss| && !IsPassive(ss[m].hdr) && ss[m].hdr.offset + ss[m].hdr.size == end;
      assert r[m] == ss[m];
    }
  }

  lemma {:induction false} FirstPassEnd(layout: bool, f: Format, version: nat, ss: seq<Scn>, k: nat, start: nat)
    requires k <= |ss| && FirstPass(layout, f, version, ss, k, start).Some?
    ensures var p := FirstPass(layout, f, version, ss, k, start).value;
            IsHeaderEnd(p.scns, start, p.end)
  {
    if k > 0 {
      FirstPassEnd(layout, f, version, ss, k - 1, start);
      var p := FirstPass(layout, f, version, ss, k - 1, start).value;
      HeaderEndStep(p.scns, start, p.end, SectionStep(layout, f, version, ss[k - 1], p.end).value);
    }
  }

  /** Section `i` is placed behind the sections before it in the list. */
  lemma {:induction false} FirstPassAt(layout: bool, f: Format, version: nat, ss: seq<Scn>, k: nat, start: nat, i: nat)
    requires i < k <= |ss| && FirstPass(layout, f, version, ss, k, start).Some?
    ensures FirstPass(layout, f, version, ss, i, start).Some?
    ensures SectionStep(layout, f, version, ss[i], FirstPass(layout, f, version, ss, i, start).value.end)
            == Some(FirstPass(layout, f, version, ss, k, start).value.scns[i])
  {
    if i < k - 1 {
      FirstPassAt(layout, f, version, ss, k - 1, start, i);
    }
  }

  /** A section once refused stays refused. */
  lemma {:induction false} FirstPassRefuses(layout: bool, f: Format, version: nat, ss: seq<Scn>, i: nat, k: nat,
                                            start: nat)
    requires i <= k <= |ss| && FirstPass(layout, f, version, ss, i, start) == None
    ensures FirstPass(layout, f, version, ss, k, start) == None
  {
    if i < k {
      FirstPassRefuses(layout, f, version, ss, i, k - 1, start);
    }
  }

  /** After the first pass every section is settled, and what else it says is kept. */
  lemma FirstPassSettles(layout: bool, f: Format, version: nat, ss: seq<Scn>, start: nat, i: nat)
    requires i < |ss| && FirstPass(layout, f, version, ss, |ss|, start).Some?
    requires Loaded(ss[i])
    ensures var v := FirstPass(layout, f, version, ss, |ss|, start).value.scns[i];
            && Settled(layout, start, v)
            && (IsDirty(ss[i]) ==> Acceptable(layout, f, version, ss[i]))
            && (!IsDirty(ss[i]) ==> v == ss[i])
            && IsPassive(v.hdr) == IsPassive(ss[i].hdr) && v.dirty == ss[i].dirty && v.ndx == ss[i].ndx
            && v.rawoff == ss[i].rawoff && v.raw == ss[i].raw
            && (layout ==> v.hdr == ss[i].hdr && v.descs == ss[i].descs)
  {
    FirstPassAt(layout, f, version, ss, |ss|, start, i);
    FirstPassEnd(layout, f, version, ss, i, start);
    if IsDirty(ss[i]) && !layout {
      PlacedIsTight(f, version, ss[i], FirstPass(layout, f, version, ss, i, start).value.end);
    }
  }

  /** One more section of the first pass. */
  lemma FirstPassStep(layout: bool, f: Format, version: nat, ss: seq<Scn>, i: nat, start: nat, p: Pass, w: Option<Scn>)
    returns (q: Pass)
    requires i < |ss| && FirstPass(layout, f, version, ss, i, start) == Some(p)
    requires SectionStep(layout, f, version, ss[i], p.end) == w
    ensures w == None ==> FirstPass(layout, f, version, ss, |ss|, start) == None
    ensures w.Some? ==>
              && FirstPass(layout, f, version, ss, i + 1, start) == Some(q)
              && q.scns == p.scns + [w.value] && q.end == EndAfter(w.value, p.end)
  {
    if w.Some? {
      q := Pass(p.scns + [w.value], EndAfter(w.value, p.end));
    } else {
      q := p;
      FirstPassRefuses(layout, f, version, ss, i + 1, |ss|, start);
    }
  }

  /** The state of the first loop after `i` sections. */
  ghost predicate PassedTo(layout: bool, f: Format, version: nat, before: seq<Scn>, i: nat, start: nat,
                           ss: seq<Scn>, p: Pass)
  {
    && i <= |before|
    && FirstPass(layout, f, version, before, i, start) == Some(p)
    && ss == p.scns + before[i..]
  }

  /** The first pass keeps the sections in their places, with their numbers. */
  lemma PassedKeepsNumbers(layout: bool, f: Format, version: nat, before: seq<Scn>, i: nat, start: nat,
                           ss: seq<Scn>, p: Pass)
    requires PassedTo(layout, f, version, before, i, start, ss, p)
    ensures SameNumbers(before, ss)
    ensures i == |before| ==> ss == p.scns
  {
    forall k | 0 <= k < |before|
      ensures ss[k].ndx == before[k].ndx
    {
      if k < i {
        FirstPassAt(layout, f, version, before, i, start, k);
      }
    }
    NumbersOfSame(before, ss);
  }

  /** One round of the first loop. */
  method ExtendNext(layout: bool, f: Format, version: nat, ss: seq<Scn>, i: nat, rc: nat,
                    ghost before: seq<Scn>, ghost start: nat, ghost p: Pass)
    returns (ok: bool, ss': seq<Scn>, nrc: nat, ghost q: Pass)
    requires i < |before| && PassedTo(layout, f, version, before, i, start, ss, p) && rc == p.end
    ensures ok ==> PassedTo(layout, f, version, before, i + 1, start, ss', q) && nrc == q.end
    ensures !ok ==> FirstPass(layout, f, version, before, |before|, start) == None
    ensures !ok ==> ss' == ss && q == p && IsDirty(before[i]) && !Acceptable(layout, f, version, before[i])
  {
    assert ss[i] == before[i];
    var r, end := ComputeSectionExtents(layout, f, version, ss[i], rc);
    q := FirstPassStep(layout, f, version, before, i, start, p, r);
    if r == None {
      return false, ss, rc, p;
    }
    assert ss[i := r.value] == q.scns + before[i + 1..];
    return true, ss[i := r.value], end, q;
  }

  /** The first loop has stopped at section `i`, which is not acceptable: the sections in front
      of it are placed, and the others are as they were. */
  ghost predicate StoppedAt(layout: bool, f: Format, version: nat, before: seq<Scn>, start: nat, i: nat, ss: seq<Scn>)
  {
    && i < |before| && IsDirty(before[i]) && !Acceptable(layout, f, version, before[i])
    && FirstPass(layout, f, version, before, i, start).Some?
    && ss == FirstPass(layout, f, version, before, i, start).value.scns + before[i..]
  }

  /** The first loop of _libelf_resync_sections. */
  method ComputeExtents(layout: bool, f: Format, version: nat, before: seq<Scn>, start: nat)
    returns (ok: bool, ss: seq<Scn>, nrc: nat)
    ensures var spec := FirstPass(layout, f, version, before, |before|, start);
            && (ok <==> spec.Some?)
            && (ok ==> ss == spec.value.scns && nrc == spec.value.end)
    ensures SameNumbers(before, ss)
    ensures !ok ==> exists i :: StoppedAt(layout, f, version, before, start, i, ss)
  {
    ok, ss, nrc := true, before, start;
    ghost var p, done := Pass([], start), 0;
    var i := 0;
    while i < |before| && ok
      invariant 0 <= i <= |before|
      invariant PassedTo(layout, f, version, before, done, start, ss, p)
      invariant ok ==> done == i && nrc == p.end
      invariant !ok ==> FirstPass(layout, f, version, before, |before|, start) == None
      invariant !ok ==> StoppedAt(layout, f, version, before, start, done, ss)
    {
      ok, ss, nrc, p := ExtendNext(layout, f, version, ss, i, nrc, before, start, p);
      done := if ok then done + 1 else done;
      i := i + 1;
    }
    PassedKeepsNumbers(layout, f, version, before, done, start, ss, p);
  }

  // ------------------------------------------------------------ the second pass

  function SpanOf(s: Scn): SO.Span<Scn> {
    SO.Span(s, s.offset, s.offset + s.size, IsPassive(s.hdr))
  }

  /** The section list as the second pass sees it. */
  function Spans(ss: seq<Scn>): (r: seq<SO.Span<Scn>>)
    ensures |r| == |ss| && (forall i {:trigger r[i]} :: 0 <= i < |ss| ==> r[i] == SpanOf(ss[i]))
    ensures SO.WellFormed(r)
  {
    seq(|ss|, i requires 0 <= i < |ss| => SpanOf(ss[i]))
  }

  lemma SpansAppend(a: seq<Scn>, b: seq<Scn>)
    ensures Spans(a + b) == Spans(a) + Spans(b)
  {
  }

  lemma SpansInsert(ss: seq<Scn>, p: nat, s: Scn)
    requires p <= |ss|
    ensures Spans(SO.InsertAt(ss, p, s)) == SO.InsertAt(Spans(ss), p, SpanOf(s))
  {
    SpansAppend(ss[..p], [s]);
    SpansAppend(ss[..p] + [s], ss[p..]);
  }

  /** _libelf_insert_section, on a list from which `s` has been removed. */
  method InsertSection(ss: seq<Scn>, s: Scn) returns (p: Option<nat>)
    ensures SO.InsertPos(Spans(ss), SpanOf(s), 0) == p
    ensures p.Some? ==> p.value <= |ss|
  {
    var smin := s.offset;
    var smax := smin + s.size;
    ghost var spans := Spans(ss);
    var i := 0;
    while i < |ss|
      invariant 0 <= i <= |ss|
      invariant SO.InsertPos(spans, SpanOf(s), 0) == SO.InsertPos(spans, SpanOf(s), i)
    {
      var tmin := ss[i].offset;
      var tmax := tmin + ss[i].size;
      if tmax < smin {
        i := i + 1;
      } else if smax < tmin {
        break;
      } else {
        return None;
      }
    }
    return Some(i);
  }

  lemma SplitAt(ss: seq<Scn>, k: nat)
    requires k < |ss|
    ensures Spans(ss[k..])[0] == SpanOf(ss[k]) && Spans(ss[k..])[1..] == Spans(ss[k + 1..])
    ensures Spans(ss[..k + 1]) == Spans(ss[..k]) + [SpanOf(ss[k])]
  {
    assert ss[k..] == [ss[k]] + ss[k + 1..];
    SpansAppend([ss[k]], ss[k + 1..]);
    assert ss[..k + 1] == ss[..k] + [ss[k]];
    SpansAppend(ss[..k], [ss[k]]);
  }

  /** The list with the section at `k` moved to position `p` of the others. */
  function Moved(ss: seq<Scn>, k: nat, p: nat): (r: seq<Scn>)
    requires k < |ss| && p < |ss|
    ensures |r| == |ss|
  {
    SO.InsertAt(Without(ss, k), p, ss[k])
  }

  lemma MovedPermutes(ss: seq<Scn>, k: nat, p: nat)
    requires k < |ss| && p < |ss|
    ensures multiset(Moved(ss, k, p)) == multiset(ss)
  {
    SplitBag(ss, k);
    SO.InsertAdds(Without(ss, k), p, ss[k]);
  }

  /** One step of the walk, when it moves a section. */
  lemma MovedSpans(ss: seq<Scn>, k: nat, p: nat)
    requires k < |ss| && p < |ss|
    ensures p <= k ==> Spans(Moved(ss, k, p)[..k + 1]) == SO.InsertAt(Spans(ss[..k]), p, SpanOf(ss[k]))
    ensures p <= k ==> Moved(ss, k, p)[k + 1..] == ss[k + 1..]
    ensures p > k ==> Spans(Moved(ss, k, p)[k..]) == SO.InsertAt(Spans(ss[k + 1..]), p - k, SpanOf(ss[k]))
    ensures p > k ==> Moved(ss, k, p)[..k] == ss[..k]
  {
    var r := Moved(ss, k, p);
    if p <= k {
      SpansInsert(ss[..k], p, ss[k]);
      assert r == SO.InsertAt(ss[..k], p, ss[k]) + ss[k + 1..];
      assert r[..k + 1] == SO.InsertAt(ss[..k], p, ss[k]);
      assert r[k + 1..] == ss[k + 1..];
    } else {
      SpansInsert(ss[k + 1..], p - k, ss[k]);
      assert r == ss[..k] + SO.InsertAt(ss[k + 1..], p - k, ss[k]);
      assert r[k..] == SO.InsertAt(ss[k + 1..], p - k, ss[k]);
      assert r[..k] == ss[..k];
    }
  }

  /** The state of the walk at position `k` of the list. */
  ghost function Walk(ss: seq<Scn>, k: nat, rc: nat): Option<SO.Sorted<Scn>>
    requires k <= |ss|
  {
    SO.Resort(Spans(ss[..k]), Spans(ss[k..]), rc)
  }

  ghost predicate WalkLoses(ss: seq<Scn>, k: nat, rc: nat)
    requires k <= |ss|
  {
    SO.Loses(Spans(ss[..k]), Spans(ss[k..]), rc)
  }

  ghost function Measure(ss: seq<Scn>, k: nat): nat
    requires k <= |ss|
  {
    |ss| - k + SO.Inversions(Spans(ss[k..]))
  }

  /** A section that stays where it is. */
  lemma WalkStays(ss: seq<Scn>, k: nat, rc: nat)
    requires k < |ss| && (IsPassive(ss[k].hdr) || rc <= ss[k].offset)
    ensures Walk(ss, k, rc) == Walk(ss, k + 1, if IsPassive(ss[k].hdr) then rc else ss[k].offset + ss[k].size)
    ensures WalkLoses(ss, k, rc)
            <==> WalkLoses(ss, k + 1, if IsPassive(ss[k].hdr) then rc else ss[k].offset + ss[k].size)
    ensures Measure(ss, k + 1) < Measure(ss, k)
  {
    SplitAt(ss, k);
  }

  lemma WalkStarts(ss: seq<Scn>, rc: nat)
    ensures Walk(ss, 0, rc) == SO.Resort([], Spans(ss), rc)
    ensures WalkLoses(ss, 0, rc) == SO.Loses([], Spans(ss), rc)
  {
    assert ss[0..] == ss && Spans(ss[..0]) == [];
  }

  lemma WalkEnds(ss: seq<Scn>, rc: nat)
    ensures Walk(ss, |ss|, rc) == Some(SO.Sorted(Spans(ss), rc)) && !WalkLoses(ss, |ss|, rc)
  {
    assert ss[..|ss|] == ss && Spans(ss[|ss|..]) == [];
  }

  /** A section that reaches past what is in place. */
  lemma WalkStops(ss: seq<Scn>, k: nat, rc: nat)
    requires k < |ss| && !IsPassive(ss[k].hdr) && ss[k].offset < rc <= ss[k].offset + ss[k].size
    ensures Walk(ss, k, rc) == None && !WalkLoses(ss, k, rc)
  {
    SplitAt(ss, k);
  }

  /** A section that is moved, or that cannot be. */
  lemma WalkMoves(ss: seq<Scn>, k: nat, rc: nat, p: Option<nat>)
    requires k < |ss| && !IsPassive(ss[k].hdr) && ss[k].offset < rc && ss[k].offset + ss[k].size < rc
    requires SO.InsertPos(Spans(ss[..k] + ss[k + 1..]), SpanOf(ss[k]), 0) == p
    ensures p == None ==> Walk(ss, k, rc) == None
    ensures p.Some? && p.value <= k ==> Walk(ss, k, rc) == Walk(Moved(ss, k, p.value), k + 1, rc)
    ensures p.Some? && p.value <= k ==> Measure(Moved(ss, k, p.value), k + 1) < Measure(ss, k)
    ensures p.Some? && p.value > k ==> Walk(ss, k, rc) == Walk(Moved(ss, k, p.value), k, rc)
    ensures p.Some? && p.value > k ==> Measure(Moved(ss, k, p.value), k) < Measure(ss, k)
  {
    SplitAt(ss, k);
    SpansAppend(ss[..k], ss[k + 1..]);
    if p.Some? {
      MovedSpans(ss, k, p.value);
      if p.value > k {
        SO.MovedAhead(Spans(ss[..k]), Spans(ss[k..]), p.value);
      }
    }
  }

  lemma LosesMoves(ss: seq<Scn>, k: nat, rc: nat, p: Option<nat>)
    requires k < |ss| && !IsPassive(ss[k].hdr) && ss[k].offset < rc && ss[k].offset + ss[k].size < rc
    requires SO.InsertPos(Spans(ss[..k] + ss[k + 1..]), SpanOf(ss[k]), 0) == p
    ensures p == None ==> WalkLoses(ss, k, rc)
    ensures p.Some? && p.value <= k ==> (WalkLoses(ss, k, rc) <==> WalkLoses(Moved(ss, k, p.value), k + 1, rc))
    ensures p.Some? && p.value > k ==> (WalkLoses(ss, k, rc) <==> WalkLoses(Moved(ss, k, p.value), k, rc))
  {
    SplitAt(ss, k);
    SpansAppend(ss[..k], ss[k + 1..]);
    if p.Some? {
      MovedSpans(ss, k, p.value);
      if p.value > k {
        SO.MovedAhead(Spans(ss[..k]), Spans(ss[k..]), p.value);
      }
    }
  }

  lemma TakenOff(before: seq<Scn>, ss: seq<Scn>, k: nat)
    requires k < |ss| && multiset(ss) == multiset(before)
    ensures LostOne(before, ss[..k] + ss[k + 1..])
  {
    assert ss == ss[..k] + [ss[k]] + ss[k + 1..];
    assert |ss| == |multiset(ss)| == |multiset(before)| == |before|;
    assert ss[k] in multiset(before);
    var j :| 0 <= j < |before| && before[j] == ss[k];
    assert multiset(ss[..k] + ss[k + 1..]) + multiset{before[j]} == multiset(before);
  }

  /** The list has lost one section, and nothing else. */
  ghost predicate LostOne(a: seq<Scn>, b: seq<Scn>)
  {
    |b| + 1 == |a| && exists k :: 0 <= k < |a| && multiset(b) + multiset{a[k]} == multiset(a)
  }

  /** Take a section off the list and put it back where it belongs.  The walk goes on
      with the section that followed it. */
  method MoveSection(ss: seq<Scn>, k: nat, rc: nat) returns (ok: bool, moved: seq<Scn>, next: nat)
    requires k < |ss| && !IsPassive(ss[k].hdr) && ss[k].offset < rc && ss[k].offset + ss[k].size < rc
    ensures ok ==> next <= |moved| && Walk(moved, next, rc) == Walk(ss, k, rc) && Measure(moved, next) < Measure(ss, k)
    ensures ok ==> multiset(moved) == multiset(ss) && (WalkLoses(moved, next, rc) <==> WalkLoses(ss, k, rc))
    ensures !ok ==> Walk(ss, k, rc) == None && WalkLoses(ss, k, rc) && moved == ss[..k] + ss[k + 1..]
  {
    var p := InsertSection(ss[..k] + ss[k + 1..], ss[k]);
    WalkMoves(ss, k, rc, p);
    LosesMoves(ss, k, rc, p);
    if p == None {
      return false, ss[..k] + ss[k + 1..], k;
    }
    MovedPermutes(ss, k, p.value);
    return true, Moved(ss, k, p.value), if p.value <= k then k + 1 else k;
  }

  lemma LossIsFailure(before: seq<Scn>, start: nat)
    ensures SO.Loses([], Spans(before), start) ==> SO.Resort([], Spans(before), start) == None
  {
    if SO.Loses([], Spans(before), start) {
      SO.LosesMeansFails([], Spans(before), start);
    }
  }

  /** The second loop of _libelf_resync_sections.  STAILQ_FOREACH_SAFE goes on
      with the section that followed, wherever the current one is moved to.  A
      section that overlaps another has already been taken off the list when the
      overlap is found, and is not put back. */
  method ResortSections(before: seq<Scn>, start: nat) returns (r: Option<nat>, ss: seq<Scn>)
    ensures var spec := SO.Resort([], Spans(before), start);
            && (r.Some? <==> spec.Some?)
            && (r.Some? ==> Spans(ss) == spec.value.spans && r.value == spec.value.end)
    ensures if SO.Loses([], Spans(before), start) then r == None && LostOne(before, ss)
            else multiset(ss) == multiset(before)
  {
    ss := before;
    LossIsFailure(before, start);
    var rc: nat, k := start, 0;
    ghost var spec, loses := SO.Resort([], Spans(before), start), SO.Loses([], Spans(before), start);
    WalkStarts(before, start);
    while k < |ss|
      invariant 0 <= k <= |ss|
      invariant Walk(ss, k, rc) == spec && WalkLoses(ss, k, rc) == loses
      invariant multiset(ss) == multiset(before)
      decreases Measure(ss, k)
    {
      var s := ss[k];
      if s.hdr.typ == SHT_NOBITS || s.hdr.typ == SHT_NULL {
        WalkStays(ss, k, rc);
        k := k + 1;
      } else if s.offset < rc {
        if s.offset + s.size >= rc {
          WalkStops(ss, k, rc);
          return None, ss;
        }
        var ok, moved, next := MoveSection(ss, k, rc);
        if !ok {
          TakenOff(before, ss, k);
          return None, moved;
        }
        ss, k := moved, next;
      } else {
        WalkStays(ss, k, rc);
        rc := s.offset + s.size;
        k := k + 1;
      }
    }
    WalkEnds(ss, rc);
    return Some(rc), ss;
  }

  // ------------------------------------------------------------------ both passes

  /** What the library relies on: clean sections are as they were loaded, and sections
      that are not placed by the library start past the headers. */
  ghost predicate Anchored(layout: bool, start: nat, v: Scn)
  {
    && Loaded(v)
    && (!IsPassive(v.hdr) && (layout || !v.dirty) ==> start <= v.hdr.offset)
  }

  ghost predicate AllAnchored(layout: bool, start: nat, ss: seq<Scn>)
  {
    forall i :: 0 <= i < |ss| ==> Anchored(layout, start, ss[i])
  }

  /** Sections without contents start no later than one byte past the headers. */
  ghost predicate AllHarmless(start: nat, ss: seq<Scn>)
  {
    forall i :: 0 <= i < |ss| && IsPassive(ss[i].hdr) ==> ss[i].offset <= start + 1
  }

  /** Sections without contents end before the end of the headers. */
  ghost predicate AllLow(start: nat, ss: seq<Scn>)
  {
    forall i :: 0 <= i < |ss| && IsPassive(ss[i].hdr) ==> ss[i].offset + ss[i].size < start
  }

  /** The first pass leaves the sections in the order of the list. */
  ghost predicate PlacedInOrder(layout: bool, f: Format, version: nat, start: nat, ss: seq<Scn>)
  {
    var p := FirstPass(layout, f, version, ss, |ss|, start);
    p.Some? ==> SO.InOrder(Spans(p.value.scns))
  }

  /** The lists that are laid out correctly whenever they are accepted: sections without
      contents are out of the way, or nothing has to be moved. */
  ghost predicate AllPresentable(layout: bool, f: Format, version: nat, start: nat, ss: seq<Scn>)
  {
    AllAnchored(layout, start, ss) && (AllHarmless(start, ss) || PlacedInOrder(layout, f, version, start, ss))
  }

  ghost predicate AllSettled(layout: bool, start: nat, ss: seq<Scn>)
  {
    forall i :: 0 <= i < |ss| ==> Settled(layout, start, ss[i])
  }

  /** The sections are in the order of the file, do not overlap, and end at `end`. */
  ghost predicate Arranged(ss: seq<Scn>, start: nat, end: nat)
  {
    SO.InOrder(Spans(ss)) && SO.IsEnd(Spans(ss), start, end) && SO.PastHeaders(Spans(ss), start)
  }

  lemma FirstPassRegular(layout: bool, f: Format, version: nat, ss: seq<Scn>, start: nat)
    requires AllAnchored(layout, start, ss) && FirstPass(layout, f, version, ss, |ss|, start).Some?
    ensures var p := FirstPass(layout, f, version, ss, |ss|, start).value;
            && AllSettled(layout, start, p.scns) && SO.PastHeaders(Spans(p.scns), start)
            && (AllHarmless(start, ss) ==> SO.PassivesHarmless(Spans(p.scns), start))
            && (AllLow(start, ss) ==> SO.PassivesLow(Spans(p.scns), start))
  {
    var p := FirstPass(layout, f, version, ss, |ss|, start).value;
    forall i | 0 <= i < |ss|
      ensures Settled(layout, start, p.scns[i])
      ensures !IsPassive(p.scns[i].hdr) ==> start <= p.scns[i].offset
      ensures IsPassive(p.scns[i].hdr) ==> p.scns[i] == ss[i]
    {
      assert Anchored(layout, start, ss[i]);
      FirstPassSettles(layout, f, version, ss, start, i);
    }
  }

  /** Settled sections end where their headers say. */
  lemma EndsAgree(layout: bool, start: nat, ss: seq<Scn>, nrc: nat, rc: nat)
    requires AllSettled(layout, start, ss) && IsHeaderEnd(ss, start, nrc) && SO.IsEnd(Spans(ss), start, rc)
    ensures nrc == rc
  {
    var spans := Spans(ss);
    forall i | 0 <= i < |ss|
      ensures !IsPassive(ss[i].hdr) ==> spans[i].hi == ss[i].hdr.offset + ss[i].hdr.size
    {
      assert Settled(layout, start, ss[i]);
    }
    if nrc != start {
      var m :| 0 <= m < |ss| && !IsPassive(ss[m].hdr) && ss[m].hdr.offset + ss[m].hdr.size == nrc;
      assert spans[m].hi == nrc;
    }
    if rc != start {
      var m :| 0 <= m < |spans| && !spans[m].passive && spans[m].hi == rc;
      assert ss[m].hdr.offset + ss[m].hdr.size == rc;
    }
  }

  /** Being settled does not depend on the place in the list. */
  lemma SettledPermutes(layout: bool, start: nat, a: seq<Scn>, b: seq<Scn>)
    requires multiset(a) == multiset(b) && AllSettled(layout, start, a)
    ensures AllSettled(layout, start, b)
  {
    forall i | 0 <= i < |b|
      ensures Settled(layout, start, b[i])
    {
      assert b[i] in multiset(a);
      var j :| 0 <= j < |a| && a[j] == b[i];
    }
  }

  ghost predicate AllNew(ss: seq<Scn>)
  {
    forall i :: 0 <= i < |ss| && !IsPassive(ss[i].hdr) ==> ss[i].dirty
  }

  ghost predicate ExtentsAgree(ss: seq<Scn>)
  {
    forall i :: 0 <= i < |ss| && !IsPassive(ss[i].hdr) ==>
      ss[i].offset == ss[i].hdr.offset && ss[i].size == ss[i].hdr.size
  }

  lemma OrderStep(ss: seq<Scn>, start: nat, end: nat, w: Scn)
    requires IsHeaderEnd(ss, start, end) && ExtentsAgree(ss)
    requires SO.InOrder(Spans(ss)) && SO.PastHeaders(Spans(ss), start)
    requires !IsPassive(w.hdr) ==> end <= w.offset == w.hdr.offset && w.size == w.hdr.size
    ensures SO.InOrder(Spans(ss + [w])) && ExtentsAgree(ss + [w]) && SO.PastHeaders(Spans(ss + [w]), start)
  {
    SpansAppend(ss, [w]);
    var r := Spans(ss + [w]);
    forall i, j | 0 <= i < j < |r| && !r[i].passive && !r[j].passive
      ensures r[i].hi <= r[j].lo
    {
      assert r[i] == Spans(ss)[i];
      if j < |ss| {
        assert r[j] == Spans(ss)[j];
      }
    }
  }

  /** One section that the library places behind `end`. */
  lemma NewIsBehind(f: Format, version: nat, v: Scn, end: nat)
    requires (!IsPassive(v.hdr) ==> v.dirty) && SectionStep(false, f, version, v, end).Some?
    ensures var w := SectionStep(false, f, version, v, end).value;
            !IsPassive(w.hdr) ==> end <= w.offset == w.hdr.offset && w.size == w.hdr.size
  {
    if IsDirty(v) {
      PlacedIsTight(f, version, v, end);
    }
  }

  /** Where the library does the layout and all sections are new, the first pass puts
      them in the order of the list. */
  lemma {:induction false} NewAreInOrder(f: Format, version: nat, ss: seq<Scn>, k: nat, start: nat)
    requires k <= |ss| && AllNew(ss) && FirstPass(false, f, version, ss, k, start).Some?
    ensures var p := FirstPass(false, f, version, ss, k, start).value;
            SO.InOrder(Spans(p.scns)) && ExtentsAgree(p.scns) && SO.PastHeaders(Spans(p.scns), start)
  {
    if k > 0 {
      NewAreInOrder(f, version, ss, k - 1, start);
      FirstPassEnd(false, f, version, ss, k - 1, start);
      var p := FirstPass(false, f, version, ss, k - 1, start).value;
      NewIsBehind(f, version, ss[k - 1], p.end);
      OrderStep(p.scns, start, p.end, SectionStep(false, f, version, ss[k - 1], p.end).value);
    }
  }

  /** So the second pass neither refuses nor moves any of them. */
  lemma NewAreKept(f: Format, version: nat, ss: seq<Scn>, start: nat)
    requires AllNew(ss) && FirstPass(false, f, version, ss, |ss|, start).Some?
    ensures var p := FirstPass(false, f, version, ss, |ss|, start).value;
            var r := SO.Resort([], Spans(p.scns), start);
            r.Some? && r.value.spans == Spans(p.scns)
  {
    var p := FirstPass(false, f, version, ss, |ss|, start).value;
    NewAreInOrder(f, version, ss, |ss|, start);
    assert [] + Spans(p.scns) == Spans(p.scns);
    SO.InOrderStays([], Spans(p.scns), start, start);
  }

  /** The result of both passes on a presentable list. */
  lemma ResyncCorrect(layout: bool, f: Format, version: nat, ss: seq<Scn>, start: nat, r: seq<Scn>, rc: nat)
    requires AllPresentable(layout, f, version, start, ss) && FirstPass(layout, f, version, ss, |ss|, start).Some?
    requires var p := FirstPass(layout, f, version, ss, |ss|, start).value;
             && SO.Resort([], Spans(p.scns), start) == Some(SO.Sorted(Spans(r), rc))
             && multiset(r) == multiset(p.scns)
    ensures FirstPass(layout, f, version, ss, |ss|, start).value.end == rc
    ensures Arranged(r, start, rc) && AllSettled(layout, start, r)
  {
    var p := FirstPass(layout, f, version, ss, |ss|, start).value;
    FirstPassRegular(layout, f, version, ss, start);
    SO.ResyncSorts(Spans(p.scns), start);
    SettledPermutes(layout, start, p.scns, r);
    FirstPassEnd(layout, f, version, ss, |ss|, start);
    EndPermutes(p.scns, r, start, p.end);
    EndsAgree(layout, start, r, p.end, rc);
    PastHeadersPermutes(p.scns, r, start);
  }

  lemma EndPermutes(a: seq<Scn>, b: seq<Scn>, start: nat, end: nat)
    requires multiset(a) == multiset(b) && IsHeaderEnd(a, start, end)
    ensures IsHeaderEnd(b, start, end)
  {
    forall i | 0 <= i < |b| && !IsPassive(b[i].hdr)
      ensures b[i].hdr.offset + b[i].hdr.size <= end
    {
      assert b[i] in multiset(a);
      var j :| 0 <= j < |a| && a[j] == b[i];
    }
    if end != start {
      var m :| 0 <= m < |a| && !IsPassive(a[m].hdr) && a[m].hdr.offset + a[m].hdr.size == end;
      assert a[m] in multiset(b);
      var j :| 0 <= j < |b| && b[j] == a[m];
    }
  }

  lemma PastHeadersPermutes(a: seq<Scn>, b: seq<Scn>, start: nat)
    requires multiset(a) == multiset(b) && SO.PastHeaders(Spans(a), start)
    ensures SO.PastHeaders(Spans(b), start)
  {
    forall i | 0 <= i < |b| && !IsPassive(b[i].hdr)
      ensures start <= b[i].offset
    {
      assert b[i] in multiset(a);
      var j :| 0 <= j < |a| && a[j] == b[i];
      assert Spans(a)[j] == SpanOf(b[i]);
    }
  }

  // ------------------------------------------------------------ the numbers it keeps

  /** Both passes together lose a section. */
  ghost predicate LosesSection(layout: bool, f: Format, version: nat, ss: seq<Scn>, start: nat)
  {
    var p := FirstPass(layout, f, version, ss, |ss|, start);
    p.Some? && SO.Loses([], Spans(p.value.scns), start)
  }

  /** The first section found that neither follows the sections before it in the list
      nor keeps clear of them ends before the end of one of them. */
  ghost predicate HasInner(layout: bool, f: Format, version: nat, ss: seq<Scn>, start: nat)
  {
    var p := FirstPass(layout, f, version, ss, |ss|, start);
    p.Some? && SO.LeavesOut(multiset{}, Spans(p.value.scns))
  }

  lemma LosesIffInner(layout: bool, f: Format, version: nat, ss: seq<Scn>, start: nat)
    requires AllAnchored(layout, start, ss) && AllLow(start, ss)
    ensures LosesSection(layout, f, version, ss, start) <==> HasInner(layout, f, version, ss, start)
  {
    var p := FirstPass(layout, f, version, ss, |ss|, start);
    if p.Some? {
      FirstPassRegular(layout, f, version, ss, start);
      SO.ResyncSucceeds(Spans(p.value.scns), start);
    }
  }

  lemma LosesFromTwo(layout: bool, f: Format, version: nat, ss: seq<Scn>, start: nat)
    ensures LosesSection(layout, f, version, ss, start) ==> 2 <= |ss|
  {
    if LosesSection(layout, f, version, ss, start) {
      SO.LosesMeansFails([], Spans(FirstPass(layout, f, version, ss, |ss|, start).value.scns), start);
    }
  }

  lemma FirstPassKeepsNumbers(layout: bool, f: Format, version: nat, before: seq<Scn>, start: nat)
    requires FirstPass(layout, f, version, before, |before|, start).Some?
    ensures SameNdxs(before, FirstPass(layout, f, version, before, |before|, start).value.scns)
  {
    var p := FirstPass(layout, f, version, before, |before|, start).value;
    forall k | 0 <= k < |before|
      ensures p.scns[k].ndx == before[k].ndx
    {
      FirstPassAt(layout, f, version, before, |before|, start, k);
    }
  }

  lemma LostKeepsOthers(before: seq<Scn>, placed: seq<Scn>, ss: seq<Scn>)
    requires SameNdxs(before, placed) && LostOne(placed, ss)
    ensures OneFewer(before, ss)
  {
    var k :| 0 <= k < |placed| && multiset(ss) + multiset{placed[k]} == multiset(placed);
    SplitAround(placed, k);
    assert multiset(placed) == multiset(Without(placed, k)) + multiset{placed[k]};
    BagCancels(multiset(Without(placed, k)), multiset(ss), placed[k]);
    NumbersPermute(Without(placed, k), ss);
    NumbersOfSame(Without(before, k), Without(placed, k));
    SameNumbersTransitive(Without(before, k), Without(placed, k), ss);
  }

  /** What the second pass does to the numbers. */
  lemma ResortNumbers(layout: bool, f: Format, version: nat, before: seq<Scn>, start: nat, ss: seq<Scn>)
    requires FirstPass(layout, f, version, before, |before|, start).Some?
    requires var placed := FirstPass(layout, f, version, before, |before|, start).value.scns;
             if LosesSection(layout, f, version, before, start) then LostOne(placed, ss)
             else multiset(ss) == multiset(placed)
    ensures NumbersAfter(before, ss, LosesSection(layout, f, version, before, start))
  {
    var placed := FirstPass(layout, f, version, before, |before|, start).value.scns;
    FirstPassKeepsNumbers(layout, f, version, before, start);
    if LosesSection(layout, f, version, before, start) {
      LostKeepsOthers(before, placed, ss);
    } else {
      NumbersOfSame(before, placed);
      NumbersPermute(placed, ss);
      SameNumbersTransitive(before, placed, ss);
    }
  }

  /** The outcome of both passes: an error exactly when one of them refuses a section;
      for a presentable list no failed assertion, and the sections of the first pass,
      settled and arranged; and the numbers as they were, unless a section is lost. */
  ghost predicate Resynced(layout: bool, f: Format, version: nat, before: seq<Scn>, start: nat, ss: seq<Scn>,
                           out: Outcome)
  {
    && (out.Error? <==> Refuses(layout, f, version, before, start))
    && (out.Done? ==> out.rc == FirstPass(layout, f, version, before, |before|, start).value.end)
    && (AllPresentable(layout, f, version, start, before) ==>
          !out.Crash? && (out.Done? ==> InPlace(layout, f, version, before, start, ss, out.rc)))
    && (LosesSection(layout, f, version, before, start) ==> out.Error?)
    && NumbersAfter(before, ss, LosesSection(layout, f, version, before, start))
    && (AllAnchored(layout, start, before) && AllLow(start, before) ==>
          NumbersAfter(before, ss, HasInner(layout, f, version, before, start)))
  }

  ghost predicate Refuses(layout: bool, f: Format, version: nat, ss: seq<Scn>, start: nat)
  {
    var p := FirstPass(layout, f, version, ss, |ss|, start);
    p == None || SO.Resort([], Spans(p.value.scns), start).None?
  }

  ghost predicate InPlace(layout: bool, f: Format, version: nat, before: seq<Scn>, start: nat, ss: seq<Scn>, end: nat)
  {
    var p := FirstPass(layout, f, version, before, |before|, start);
    && p.Some? && multiset(ss) == multiset(p.value.scns)
    && AllSettled(layout, start, ss) && Arranged(ss, start, end)
  }

  /** The numbers, by either condition. */
  lemma NumbersByInner(layout: bool, f: Format, version: nat, before: seq<Scn>, start: nat, ss: seq<Scn>)
    requires NumbersAfter(before, ss, LosesSection(layout, f, version, before, start))
    ensures AllAnchored(layout, start, before) && AllLow(start, before) ==>
              NumbersAfter(before, ss, HasInner(layout, f, version, before, start))
  {
    if AllAnchored(layout, start, before) && AllLow(start, before) {
      LosesIffInner(layout, f, version, before, start);
    }
  }

  lemma RefusedByFirst(layout: bool, f: Format, version: nat, before: seq<Scn>, start: nat, ss: seq<Scn>)
    requires FirstPass(layout, f, version, before, |before|, start) == None && SameNumbers(before, ss)
    ensures Resynced(layout, f, version, before, start, ss, Error)
  {
    NumbersByInner(layout, f, version, before, start, ss);
  }

  lemma RefusedBySecond(layout: bool, f: Format, version: nat, before: seq<Scn>, start: nat, ss: seq<Scn>)
    requires Refuses(layout, f, version, before, start)
    requires NumbersAfter(before, ss, LosesSection(layout, f, version, before, start))
    ensures Resynced(layout, f, version, before, start, ss, Error)
  {
    NumbersByInner(layout, f, version, before, start, ss);
  }

  lemma Accepted(layout: bool, f: Format, version: nat, before: seq<Scn>, start: nat, ss: seq<Scn>, rc: nat)
    requires FirstPass(layout, f, version, before, |before|, start).Some?
    requires var p := FirstPass(layout, f, version, before, |before|, start).value;
             && SO.Resort([], Spans(p.scns), start) == Some(SO.Sorted(Spans(ss), rc))
             && multiset(ss) == multiset(p.scns)
    requires NumbersAfter(before, ss, LosesSection(layout, f, version, before, start))
    ensures var p := FirstPass(layout, f, version, before, |before|, start).value;
            Resynced(layout, f, version, before, start, ss, if p.end == rc then Done(rc) else Crash)
  {
    NumbersByInner(layout, f, version, before, start, ss);
    LossIsFailure(FirstPass(layout, f, version, before, |before|, start).value.scns, start);
    if AllPresentable(layout, f, version, start, before) {
      ResyncCorrect(layout, f, version, before, start, ss, rc);
    }
  }

  /** _libelf_resync_sections. */
  method ResyncSections(e: Elf, start: nat) returns (out: Outcome)
    modifies e`scns
    ensures Resynced(e.layout, e.format, e.version, old(e.scns), start, e.scns, out)
    ensures FirstPass(e.layout, e.format, e.version, old(e.scns), |old(e.scns)|, start) == None ==>
              exists i :: StoppedAt(e.layout, e.format, e.version, old(e.scns), start, i, e.scns)
  {
    ghost var before := e.scns;
    var ok, ss, nrc := ComputeExtents(e.layout, e.format, e.version, e.scns, start);
    e.scns := ss;
    if !ok {
      RefusedByFirst(e.layout, e.format, e.version, before, start, ss);
      return Error;
    }
    var rc, sorted := ResortSections(ss, start);
    e.scns := sorted;
    ResortNumbers(e.layout, e.format, e.version, before, start, sorted);
    if rc == None {
      RefusedBySecond(e.layout, e.format, e.version, before, start, sorted);
      return Error;
    }
    Accepted(e.layout, e.format, e.version, before, start, sorted, rc.value);
    if nrc != rc.value {
      return Crash;
    }
    return Done(rc.value);
  }
}
