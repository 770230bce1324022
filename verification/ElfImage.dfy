/** The file image that _libelf_write_elf builds: a freshly allocated buffer, filled
    from left to right with pieces and, between them, with the fill character. */
module ElfImage {
  import opened Basics
  import opened ElfModel

  /** A byte of memory from malloc: without a value until it is written. */
  datatype Cell = Unset | Set(b: Byte)

  /** Some bytes and their place in the file. */
  datatype Piece = Piece(at: nat, bytes: seq<Byte>)

  // -------------------------------------------------------------- the finished image

  function End(ps: seq<Piece>): nat {
    if ps == [] then 0 else ps[|ps| - 1].at + |ps[|ps| - 1].bytes|
  }

  /** Every piece starts at or past the end of the one before it. */
  predicate Ascending(ps: seq<Piece>) {
    ps == [] || (var n := |ps| - 1; Ascending(ps[..n]) && End(ps[..n]) <= ps[n].at)
  }

  function Padding(n: nat, fill: Byte): (r: seq<Byte>)
    ensures |r| == n && forall i :: 0 <= i < n ==> r[i] == fill
  {
    seq(n, _ => fill)
  }

  /** The bytes of the file. */
  function Render(ps: seq<Piece>, fill: Byte): (r: seq<Byte>)
    requires Ascending(ps)
    ensures |r| == End(ps)
  {
    if ps == [] then []
    else
      var n := |ps| - 1;
      var before := Render(ps[..n], fill);
      before + Padding(ps[n].at - |before|, fill) + ps[n].bytes
  }

  /** A later piece leaves the bytes before it alone. */
  lemma {:induction false} RenderExtends(ps: seq<Piece>, k: nat, fill: Byte)
    requires k <= |ps| && Ascending(ps)
    ensures Ascending(ps[..k]) && End(ps[..k]) <= End(ps)
    ensures Render(ps, fill)[..End(ps[..k])] == Render(ps[..k], fill)
  {
    if k == |ps| {
      assert ps[..k] == ps;
    } else {
      var n := |ps| - 1;
      RenderExtends(ps[..n], k, fill);
      assert ps[..n][..k] == ps[..k];
      var before := Render(ps[..n], fill);
      assert Render(ps, fill)[..|before|] == before;
      assert before[..End(ps[..k])] == Render(ps, fill)[..End(ps[..k])];
    }
  }

  /** Every piece is found at its place in the file. */
  lemma PieceAt(ps: seq<Piece>, k: nat, fill: Byte)
    requires k < |ps| && Ascending(ps)
    ensures ps[k].at + |ps[k].bytes| <= |Render(ps, fill)|
    ensures Render(ps, fill)[ps[k].at..ps[k].at + |ps[k].bytes|] == ps[k].bytes
  {
    RenderExtends(ps, k + 1, fill);
    var upTo := Render(ps[..k + 1], fill);
    var before := Render(ps[..k + 1][..k], fill);
    var at, end := ps[k].at, ps[k].at + |ps[k].bytes|;
    assert upTo == before + Padding(at - |before|, fill) + ps[k].bytes;
    assert upTo[at..end] == ps[k].bytes;
    assert Render(ps, fill)[at..end] == Render(ps, fill)[..end][at..end];
  }

  /** Every byte outside the pieces is the fill character. */
  lemma {:induction false} FillElsewhere(ps: seq<Piece>, i: nat, fill: Byte)
    requires Ascending(ps) && i < End(ps)
    requires forall k :: 0 <= k < |ps| ==> i < ps[k].at || ps[k].at + |ps[k].bytes| <= i
    ensures Render(ps, fill)[i] == fill
  {
    if ps != [] {
      var n := |ps| - 1;
      if i < End(ps[..n]) {
        FillElsewhere(ps[..n], i, fill);
      }
    }
  }

  lemma AscendingAppend(ps: seq<Piece>, p: Piece)
    ensures Ascending(ps + [p]) <==> Ascending(ps) && End(ps) <= p.at
    ensures End(ps + [p]) == p.at + |p.bytes|
  {
    assert (ps + [p])[..|ps|] == ps;
  }

  // ------------------------------------------------------------------ the buffer

  /** The buffer holds the image of `ps`, and nothing behind it has been written. */
  ghost predicate Holds(nf: seq<Cell>, ps: seq<Piece>, fill: Byte, rc: nat)
  {
    && Ascending(ps) && End(ps) == rc <= |nf|
    && (forall i :: 0 <= i < rc ==> nf[i] == Set(Render(ps, fill)[i]))
    && (forall i :: rc <= i < |nf| ==> nf[i] == Unset)
  }

  /** memset on part of the buffer; outside it, a crash. */
  method Fill(nf: array<Cell>, from: nat, to: nat, fill: Byte) returns (ok: bool)
    modifies nf
    ensures ok <==> to <= nf.Length || to <= from
    ensures ok ==> forall i :: 0 <= i < nf.Length ==> nf[i] == if from <= i < to then Set(fill) else old(nf[i])
  {
    if to <= from {
      return true;
    }
    if to > nf.Length {
      return false;
    }
    for k := from to to
      invariant forall i :: 0 <= i < nf.Length ==> nf[i] == if from <= i < k then Set(fill) else old(nf[i])
    {
      nf[k] := Set(fill);
    }
    return true;
  }

  /** memcpy into the buffer; outside it, a crash. */
  method Copy(nf: array<Cell>, at: nat, bytes: seq<Byte>) returns (ok: bool)
    modifies nf
    ensures ok <==> at + |bytes| <= nf.Length
    ensures ok ==> forall i :: 0 <= i < nf.Length ==>
              nf[i] == if at <= i < at + |bytes| then Set(bytes[i - at]) else old(nf[i])
  {
    if at + |bytes| > nf.Length {
      return false;
    }
    for k := 0 to |bytes|
      invariant forall i :: 0 <= i < nf.Length ==>
                  nf[i] == if at <= i < at + k then Set(bytes[i - at]) else old(nf[i])
    {
      nf[at + k] := Set(bytes[k]);
    }
    return true;
  }

  lemma RenderAppend(ps: seq<Piece>, p: Piece, fill: Byte)
    requires Ascending(ps) && End(ps) <= p.at
    ensures Ascending(ps + [p])
    ensures Render(ps + [p], fill) == Render(ps, fill) + Padding(p.at - End(ps), fill) + p.bytes
  {
    AscendingAppend(ps, p);
    assert (ps + [p])[..|ps|] == ps;
  }

  /** Fill up to the place of a piece and write it there: the step that every part
      of the writer takes.  `good` says whether the layout is in order so far. */
  method Put(nf: array<Cell>, rc: nat, at: nat, bytes: seq<Byte>, fill: Byte,
             ghost ps: seq<Piece>, ghost good: bool)
    returns (ok: bool, rc': nat)
    requires good ==> Holds(nf[..], ps, fill, rc) && rc <= at && at + |bytes| <= nf.Length
    modifies nf
    ensures rc' == at + |bytes|
    ensures ok ==> rc' <= nf.Length
    ensures good ==> ok && Holds(nf[..], ps + [Piece(at, bytes)], fill, rc')
  {
    ok := Fill(nf, rc, at, fill);
    rc' := at + |bytes|;
    if !ok {
      return;
    }
    ok := Copy(nf, at, bytes);
    if good {
      var p := Piece(at, bytes);
      RenderAppend(ps, p, fill);
      AscendingAppend(ps, p);
      ghost var r := Render(ps, fill) + Padding(at - rc, fill) + bytes;
      assert forall i :: 0 <= i < rc' ==> nf[i] == Set(r[i]);
    }
  }
}
