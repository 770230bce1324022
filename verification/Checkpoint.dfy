/** The merging of checkpoints in checkpoint_aggregator.py: the memory of every
    checkpoint is placed behind that of the ones before it. */
module Checkpoint {
  import opened Basics

  const PAGE: nat := 4096

  /** A checkpoint: its number of pages, its memory file, the physical addresses that its
      CPU sections record, and its tick. */
  datatype Cpt = Cpt(pages: nat, mem: seq<Byte>, paddrs: seq<nat>, tick: int)

  /** The merged checkpoint. */
  datatype Merged = Merged(mem: seq<Byte>, paddrs: seq<seq<nat>>, pagePtr: nat, nextPid: nat, rangeSize: nat,
                           curTick: int)

  // ------------------------------------------------------------------------ memory

  /** The page at which the memory of checkpoint `i` begins. */
  function Base(cpts: seq<Cpt>, i: nat): nat
    requires i <= |cpts|
  {
    if i == 0 then 0 else Base(cpts, i - 1) + cpts[i - 1].pages
  }

  function Min(a: nat, b: nat): nat {
    if a < b then a else b
  }

  /** What is read of the memory file of a checkpoint. */
  function Pages(c: Cpt): (r: seq<Byte>)
    ensures |r| == Min(PAGE * c.pages, |c.mem|)
  {
    c.mem[..Min(PAGE * c.pages, |c.mem|)]
  }

  /** The memory of the first `i` checkpoints. */
  function Memory(cpts: seq<Cpt>, i: nat): seq<Byte>
    requires i <= |cpts|
  {
    if i == 0 then [] else Memory(cpts, i - 1) + Pages(cpts[i - 1])
  }

  /** The memory file holds all the pages that the checkpoint counts. */
  predicate Full(c: Cpt) {
    PAGE * c.pages <= |c.mem|
  }

  ghost predicate AllFull(cpts: seq<Cpt>, i: nat)
    requires i <= |cpts|
  {
    forall k :: 0 <= k < i ==> Full(cpts[k])
  }

  /** The memory ends where its pages end exactly if no file is short. */
  lemma {:induction false} LengthIffFull(cpts: seq<Cpt>, i: nat)
    requires i <= |cpts|
    ensures |Memory(cpts, i)| <= PAGE * Base(cpts, i)
    ensures |Memory(cpts, i)| == PAGE * Base(cpts, i) <==> AllFull(cpts, i)
  {
    if i > 0 {
      LengthIffFull(cpts, i - 1);
    }
  }

  lemma {:induction false} MemoryExtends(cpts: seq<Cpt>, i: nat, n: nat)
    requires i <= n <= |cpts|
    ensures Memory(cpts, i) <= Memory(cpts, n)
  {
    if i < n {
      MemoryExtends(cpts, i, n - 1);
    }
  }

  /** Byte `a` of checkpoint `i` is found at its relocated address. */
  lemma ByteRelocated(cpts: seq<Cpt>, i: nat, a: nat)
    requires i < |cpts| && AllFull(cpts, i + 1) && a < PAGE * cpts[i].pages
    ensures a + PAGE * Base(cpts, i) < |Memory(cpts, |cpts|)|
    ensures Memory(cpts, |cpts|)[a + PAGE * Base(cpts, i)] == cpts[i].mem[a]
  {
    LengthIffFull(cpts, i);
    MemoryExtends(cpts, i + 1, |cpts|);
    assert Full(cpts[i]);
    assert Memory(cpts, i + 1)[a + PAGE * Base(cpts, i)] == Pages(cpts[i])[a];
  }

  lemma {:induction false} BaseGrows(cpts: seq<Cpt>, i: nat, j: nat)
    requires i < j <= |cpts|
    ensures Base(cpts, i) + cpts[i].pages <= Base(cpts, j)
  {
    if i < j - 1 {
      BaseGrows(cpts, i, j - 1);
    }
  }

  /** Addresses of different checkpoints stay apart. */
  lemma RelocationsDisjoint(cpts: seq<Cpt>, i: nat, j: nat, a: nat, b: nat)
    requires i < |cpts| && j < |cpts| && i != j && a < PAGE * cpts[i].pages && b < PAGE * cpts[j].pages
    ensures a + PAGE * Base(cpts, i) != b + PAGE * Base(cpts, j)
  {
    if i < j {
      BaseGrows(cpts, i, j);
    } else {
      BaseGrows(cpts, j, i);
    }
  }

  // ------------------------------------------------------------------ the program

  /** The largest tick, or zero. */
  function MaxTick(cpts: seq<Cpt>, i: nat): int
    requires i <= |cpts|
  {
    if i == 0 then 0
    else if cpts[i - 1].tick > MaxTick(cpts, i - 1) then cpts[i - 1].tick
    else MaxTick(cpts, i - 1)
  }

  lemma {:induction false} MaxTickIsMaximum(cpts: seq<Cpt>, i: nat)
    requires i <= |cpts|
    ensures forall k :: 0 <= k < i ==> cpts[k].tick <= MaxTick(cpts, i)
    ensures MaxTick(cpts, i) == 0 || exists k :: 0 <= k < i && cpts[k].tick == MaxTick(cpts, i)
    ensures MaxTick(cpts, i) >= 0
  {
    if i > 0 {
      MaxTickIsMaximum(cpts, i - 1);
    }
  }

  function Relocated(paddrs: seq<nat>, page: nat): (r: seq<nat>)
    ensures |r| == |paddrs| && forall k {:trigger r[k]} :: 0 <= k < |paddrs| ==> r[k] == paddrs[k] + PAGE * page
  {
    seq(|paddrs|, k requires 0 <= k < |paddrs| => paddrs[k] + PAGE * page)
  }

  /** The loop that copies the memory file page by page. */
  method CopyPages(c: Cpt) returns (out: seq<Byte>)
    ensures out == Pages(c)
  {
    out := [];
    var x, pos := 0, 0;
    while x < c.pages
      invariant 0 <= x <= c.pages && pos == Min(PAGE * x, |c.mem|) && out == c.mem[..pos]
    {
      var next := Min(pos + PAGE, |c.mem|);
      out := out + c.mem[pos..next];
      pos := next;
      x := x + 1;
    }
  }

  /** The filler: the character zero, not the byte zero. */
  const FILLER: Byte := '0' as int

  ghost predicate IsFiller(s: seq<Byte>)
  {
    forall k :: 0 <= k < |s| ==> s[k] == FILLER
  }

  /** Pages of filler up to the size of the memory. */
  method Fill(pagePtr: nat, memorySize: nat) returns (filler: seq<Byte>, pages: nat)
    ensures IsFiller(filler) && |filler| == PAGE * (pages - pagePtr) && pages >= pagePtr
    ensures PAGE * pages >= memorySize
    ensures pages == pagePtr || PAGE * (pages - 1) < memorySize
  {
    filler, pages := [], pagePtr;
    var fileSize := PAGE * pagePtr;
    while fileSize < memorySize
      invariant IsFiller(filler) && |filler| == PAGE * (pages - pagePtr) && pages >= pagePtr
      invariant fileSize == PAGE * pages
      invariant pages == pagePtr || PAGE * (pages - 1) < memorySize
    {
      filler := filler + seq(PAGE, _ => FILLER);
      fileSize := fileSize + PAGE;
      pages := pages + 1;
    }
  }

  /** The addresses of the first `i` checkpoints, each list relocated to its memory. */
  function AllRelocated(cpts: seq<Cpt>, i: nat): (r: seq<seq<nat>>)
    requires i <= |cpts|
    ensures |r| == i
  {
    if i == 0 then [] else AllRelocated(cpts, i - 1) + [Relocated(cpts[i - 1].paddrs, Base(cpts, i - 1))]
  }

  lemma {:induction false} AllRelocatedAt(cpts: seq<Cpt>, n: nat, i: nat)
    requires i < n <= |cpts|
    ensures AllRelocated(cpts, n)[i] == Relocated(cpts[i].paddrs, Base(cpts, i))
  {
    if i < n - 1 {
      AllRelocatedAt(cpts, n - 1, i);
    }
  }

  /** Every relocated address leads to the byte that it led to before. */
  lemma AddressesFollow(cpts: seq<Cpt>, i: nat, k: nat)
    requires i < |cpts| && AllFull(cpts, i + 1) && k < |cpts[i].paddrs| && cpts[i].paddrs[k] < PAGE * cpts[i].pages
    ensures var a := AllRelocated(cpts, |cpts|)[i];
            && |a| == |cpts[i].paddrs| && a[k] < |Memory(cpts, |cpts|)|
            && cpts[i].paddrs[k] < |cpts[i].mem|
            && Memory(cpts, |cpts|)[a[k]] == cpts[i].mem[cpts[i].paddrs[k]]
  {
    AllRelocatedAt(cpts, |cpts|, i);
    assert Full(cpts[i]);
    ByteRelocated(cpts, i, cpts[i].paddrs[k]);
  }

  /** The loop over the checkpoints. */
  method MergeAll(cpts: seq<Cpt>) returns (mem: seq<Byte>, paddrs: seq<seq<nat>>, pagePtr: nat, tick: int)
    ensures mem == Memory(cpts, |cpts|) && pagePtr == Base(cpts, |cpts|)
    ensures paddrs == AllRelocated(cpts, |cpts|) && tick == MaxTick(cpts, |cpts|)
  {
    mem, paddrs, pagePtr, tick := [], [], 0, 0;
    for i := 0 to |cpts|
      invariant mem == Memory(cpts, i) && pagePtr == Base(cpts, i)
      invariant paddrs == AllRelocated(cpts, i) && tick == MaxTick(cpts, i)
    {
      paddrs := paddrs + [Relocated(cpts[i].paddrs, pagePtr)];
      if cpts[i].tick > tick {
        tick := cpts[i].tick;
      }
      pagePtr := pagePtr + cpts[i].pages;
      var pages := CopyPages(cpts[i]);
      mem := mem + pages;
    }
  }

  /** aggregate. */
  method Aggregate(cpts: seq<Cpt>, memorySize: nat) returns (m: Merged)
    ensures Memory(cpts, |cpts|) <= m.mem && IsFiller(m.mem[|Memory(cpts, |cpts|)|..])
    ensures m.rangeSize >= memorySize && m.pagePtr == Base(cpts, |cpts|) && PAGE * m.pagePtr <= m.rangeSize
    ensures m.rangeSize == |m.mem| <==> AllFull(cpts, |cpts|)
    ensures m.paddrs == AllRelocated(cpts, |cpts|) && m.nextPid == |cpts|
    ensures m.curTick == MaxTick(cpts, |cpts|)
  {
    var mem, paddrs, pagePtr, tick := MergeAll(cpts);
    LengthIffFull(cpts, |cpts|);
    var filler, pages := Fill(pagePtr, memorySize);
    assert (mem + filler)[|mem|..] == filler;
    return Merged(mem + filler, paddrs, pagePtr, |cpts|, PAGE * pages, tick);
  }
}
