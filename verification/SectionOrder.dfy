/** The second pass of _libelf_resync_sections of elf_update.c, on the extents of
    the sections: a walk over the section list that moves a section found out of
    order back to its place and reports overlaps.  ElfResync runs it on the
    section list itself. */
module SectionOrder {
  import opened Basics

  /** What the pass looks at in a section: its extent in the file and whether it
      is passed over (SHT_NULL and SHT_NOBITS).  The item is the section itself. */
  datatype Span<T> = Span(item: T, lo: nat, hi: nat, passive: bool)

  datatype Sorted<T> = Sorted(spans: seq<Span<T>>, end: nat)

  ghost predicate WellFormed<T>(ls: seq<Span<T>>)
  {
    forall i :: 0 <= i < |ls| ==> ls[i].lo <= ls[i].hi
  }

  // ------------------------------------------------------------ the computation

  /** _libelf_insert_section: the place of `s`, searched from `i`; `None` is an overlap. */
  function InsertPos<T>(ls: seq<Span<T>>, s: Span<T>, i: nat): (p: Option<nat>)
    requires i <= |ls|
    ensures p.Some? ==> i <= p.value <= |ls|
    decreases |ls| - i
  {
    if i == |ls| then Some(i)
    else if ls[i].hi < s.lo then InsertPos(ls, s, i + 1)
    else if s.hi < ls[i].lo then Some(i)
    else None
  }

  function InsertAt<T>(ls: seq<T>, p: nat, s: T): seq<T>
    requires p <= |ls|
  {
    ls[..p] + [s] + ls[p..]
  }

  /** The walk with `pre` behind the cursor and `todo` ahead of it; `rc` is the end
      of what is in place so far.  The iteration continues with the section that
      followed the current one, wherever that is moved to. */
  function Resort<T>(pre: seq<Span<T>>, todo: seq<Span<T>>, rc: nat): (r: Option<Sorted<T>>)
    requires WellFormed(todo)
    decreases |todo| + Inversions(todo)
  {
    if todo == [] then Some(Sorted(pre, rc))
    else
      var s, rest := todo[0], todo[1..];
      if s.passive then Resort(pre + [s], rest, rc)
      else if rc <= s.lo then Resort(pre + [s], rest, s.hi)
      else if rc <= s.hi then None
      else
        var p := InsertPos(pre + rest, s, 0);
        if p == None then None
        else if p.value <= |pre| then Resort(InsertAt(pre, p.value, s), rest, rc)
        else
          MovedAhead(pre, todo, p.value);
          Resort(pre, InsertAt(rest, p.value - |pre|, s), rc)
  }

  /** Whether the walk ends at a section that it has taken off the list and cannot put
      back.  The other way to fail is a section that reaches past the end `rc`. */
  predicate Loses<T>(pre: seq<Span<T>>, todo: seq<Span<T>>, rc: nat)
    requires WellFormed(todo)
    decreases |todo| + Inversions(todo)
  {
    todo != [] &&
    var s, rest := todo[0], todo[1..];
    if s.passive then Loses(pre + [s], rest, rc)
    else if rc <= s.lo then Loses(pre + [s], rest, s.hi)
    else if rc <= s.hi then false
    else
      var p := InsertPos(pre + rest, s, 0);
      if p == None then true
      else if p.value <= |pre| then Loses(InsertAt(pre, p.value, s), rest, rc)
      else
        MovedAhead(pre, todo, p.value);
        Loses(pre, InsertAt(rest, p.value - |pre|, s), rc)
  }

  /** A section is lost only from a list that the pass refuses, and never the only one. */
  lemma {:induction false} LosesMeansFails<T>(pre: seq<Span<T>>, todo: seq<Span<T>>, rc: nat)
    requires WellFormed(todo) && Loses(pre, todo, rc)
    ensures Resort(pre, todo, rc) == None && 2 <= |pre| + |todo|
    decreases |todo| + Inversions(todo)
  {
    var s, rest := todo[0], todo[1..];
    if s.passive || rc <= s.lo {
      LosesMeansFails(pre + [s], rest, if s.passive then rc else s.hi);
    } else {
      var p := InsertPos(pre + rest, s, 0);
      if p.Some? && p.value <= |pre| {
        LosesMeansFails(InsertAt(pre, p.value, s), rest, rc);
      } else if p.Some? {
        MovedAhead(pre, todo, p.value);
        LosesMeansFails(pre, InsertAt(rest, p.value - |pre|, s), rc);
      }
    }
  }

  /** A section inside another one, and in front of the last, is lost. */
  lemma InnerIsLost<T>(item: T)
    ensures var a, b, c := Span(item, 100, 110, false), Span(item, 150, 160, false), Span(item, 105, 108, false);
            Loses([], [a, b, c], 64) && Resort([], [a, b, c], 64) == None
  {
    var a, b, c := Span(item, 100, 110, false), Span(item, 150, 160, false), Span(item, 105, 108, false);
    assert [a, b, c][1..] == [b, c] && [b, c][1..] == [c] && [c][1..] == [];
    assert [] + [a] == [a] && [a] + [b] == [a, b] && [a, b] + [] == [a, b];
    assert InsertPos([a, b], c, 0) == None;
    assert Loses([a, b], [c], 160) && Resort([a, b], [c], 160) == None;
    assert Loses([a], [b, c], 110) && Resort([a], [b, c], 110) == None;
  }

  /** A section that ends where another one starts is lost when it is found behind it,
      although the two do not overlap. */
  lemma AdjacentRefused<T>(a: Span<T>, b: Span<T>, start: nat)
    requires !a.passive && !b.passive && start <= b.lo <= b.hi == a.lo < a.hi
    ensures InOrder([b, a]) && Resort([], [a, b], start) == None && Loses([], [a, b], start)
  {
    assert [a, b][1..] == [b] && [b][1..] == [] && [] + [a] == [a] && [a] + [] == [a];
    assert InsertPos([a], b, 0) == None;
    assert Resort([a], [b], a.hi) == None && Loses([a], [b], a.hi);
  }

  /** The place found has everything that lies before `s` in front of it. */
  lemma {:induction false} PlaceFound<T>(ls: seq<Span<T>>, s: Span<T>, i: nat)
    requires i <= |ls| && InsertPos(ls, s, i).Some?
    ensures var p := InsertPos(ls, s, i).value;
            && (forall j :: i <= j < p ==> ls[j].hi < s.lo)
            && (p < |ls| ==> s.hi < ls[p].lo)
    decreases |ls| - i
  {
    if i < |ls| && ls[i].hi < s.lo {
      PlaceFound(ls, s, i + 1);
    }
  }

  // ---------------------------------------------------------------- termination

  /** How many spans of `ls` lie entirely before `s`. */
  ghost function Before<T>(s: Span<T>, ls: seq<Span<T>>): nat
  {
    if ls == [] then 0 else (if ls[0].hi < s.lo then 1 else 0) + Before(s, ls[1..])
  }

  ghost function Inversions<T>(ls: seq<Span<T>>): nat
  {
    if ls == [] then 0 else Before(ls[0], ls[1..]) + Inversions(ls[1..])
  }

  lemma {:induction false} BeforeInsert<T>(t: Span<T>, s: Span<T>, r: seq<Span<T>>, q: nat)
    requires q <= |r|
    ensures Before(t, InsertAt(r, q, s)) == Before(t, r) + (if s.hi < t.lo then 1 else 0)
  {
    var ins := InsertAt(r, q, s);
    if q == 0 {
      assert ins[0] == s && ins[1..] == r;
    } else {
      assert ins[0] == r[0] && ins[1..] == InsertAt(r[1..], q - 1, s);
      BeforeInsert(t, s, r[1..], q - 1);
    }
  }

  /** Moving a span over `q` smaller ones removes `q` inversions. */
  lemma {:induction false} MoveRemovesInversions<T>(s: Span<T>, r: seq<Span<T>>, q: nat)
    requires q <= |r| && s.lo <= s.hi && WellFormed(r)
    requires forall j :: 0 <= j < q ==> r[j].hi < s.lo
    ensures Inversions(InsertAt(r, q, s)) + q == Before(s, r) + Inversions(r)
  {
    var ins := InsertAt(r, q, s);
    if q == 0 {
      assert ins[0] == s && ins[1..] == r;
    } else {
      assert ins[0] == r[0] && ins[1..] == InsertAt(r[1..], q - 1, s);
      BeforeInsert(r[0], s, r[1..], q - 1);
      MoveRemovesInversions(s, r[1..], q - 1);
    }
  }

  lemma InsertKeepsWellFormed<T>(ls: seq<Span<T>>, p: nat, s: Span<T>)
    requires p <= |ls| && WellFormed(ls) && s.lo <= s.hi
    ensures WellFormed(InsertAt(ls, p, s))
  {
  }

  /** A section moved ahead of the cursor comes up again later in the walk, but
      less of the walk is then out of order: the pass always ends. */
  lemma MovedAhead<T>(pre: seq<Span<T>>, todo: seq<Span<T>>, p: nat)
    requires todo != [] && WellFormed(todo)
    requires InsertPos(pre + todo[1..], todo[0], 0) == Some(p) && |pre| < p
    ensures var todo' := InsertAt(todo[1..], p - |pre|, todo[0]);
            WellFormed(todo') && |todo'| == |todo| && Inversions(todo') < Inversions(todo)
  {
    var s, rest := todo[0], todo[1..];
    PlaceFound(pre + rest, s, 0);
    forall j | 0 <= j < p - |pre|
      ensures rest[j].hi < s.lo
    {
      assert rest[j] == (pre + rest)[|pre| + j];
    }
    MoveRemovesInversions(s, rest, p - |pre|);
    InsertKeepsWellFormed(rest, p - |pre|, s);
  }

  // ------------------------------------------------------------- what it achieves

  /** Active spans follow each other without overlap. */
  ghost predicate InOrder<T>(ls: seq<Span<T>>)
  {
    forall i, j :: 0 <= i < j < |ls| && !ls[i].passive && !ls[j].passive ==> ls[i].hi <= ls[j].lo
  }

  /** `end` is the largest end of an active span, or `start` if none is larger. */
  ghost predicate IsEnd<T>(ls: seq<Span<T>>, start: nat, end: nat)
  {
    && start <= end
    && (forall i :: 0 <= i < |ls| && !ls[i].passive ==> ls[i].hi <= end)
    && (end == start || exists i :: 0 <= i < |ls| && !ls[i].passive && ls[i].hi == end)
  }

  ghost predicate PastHeaders<T>(ls: seq<Span<T>>, start: nat)
  {
    forall i :: 0 <= i < |ls| && !ls[i].passive ==> start <= ls[i].lo
  }

  /** A passive span that cannot hide a place behind it from the search. */
  predicate Harmless<T>(s: Span<T>, start: nat) {
    s.lo <= start + 1
  }

  ghost predicate PassivesHarmless<T>(ls: seq<Span<T>>, start: nat)
  {
    forall i :: 0 <= i < |ls| && ls[i].passive ==> Harmless(ls[i], start)
  }

  /** What is assumed of every section. */
  ghost predicate Regular<T>(ls: seq<Span<T>>, start: nat)
  {
    WellFormed(ls) && PastHeaders(ls, start) && PassivesHarmless(ls, start)
  }

  /** The state behind the cursor. */
  ghost predicate Visited<T>(pre: seq<Span<T>>, start: nat, rc: nat)
  {
    Regular(pre, start) && InOrder(pre) && IsEnd(pre, start, rc)
  }

  /** The search never goes past a span that ends at or after the start of `s`:
      a section is always put back among the ones already visited. */
  lemma {:induction false} SearchStops<T>(ls: seq<Span<T>>, s: Span<T>, i: nat, m: nat)
    requires i <= m < |ls| && s.lo <= ls[m].hi
    ensures InsertPos(ls, s, i).Some? ==> InsertPos(ls, s, i).value <= m
    decreases m - i
  {
    if ls[i].hi < s.lo {
      SearchStops(ls, s, i + 1, m);
    }
  }

  /** The search looks at visited sections only. */
  lemma {:induction false} SearchIsLocal<T>(pre: seq<Span<T>>, rest: seq<Span<T>>, s: Span<T>, i: nat, m: nat)
    requires i <= m < |pre| && s.lo <= pre[m].hi
    ensures InsertPos(pre + rest, s, i) == InsertPos(pre, s, i)
    decreases m - i
  {
    if pre[i].hi < s.lo {
      SearchIsLocal(pre, rest, s, i + 1, m);
    }
  }

  /** A span put at the place the search found keeps the order. */
  lemma InsertKeepsOrder<T>(ls: seq<Span<T>>, start: nat, s: Span<T>, p: nat)
    requires Regular(ls, start) && InOrder(ls)
    requires p < |ls| && (forall i :: 0 <= i < p ==> ls[i].hi < s.lo) && s.hi < ls[p].lo
    ensures InOrder(InsertAt(ls, p, s))
  {
    var r := InsertAt(ls, p, s);
    forall i, j | 0 <= i < j < |r| && !r[i].passive && !r[j].passive
      ensures r[i].hi <= r[j].lo
    {
      if i == p {
        assert r[j] == ls[j - 1];
      } else if j == p {
        assert r[i] == ls[i];
      } else {
        var i', j' := if i < p then i else i - 1, if j < p then j else j - 1;
        assert r[i] == ls[i'] && r[j] == ls[j'];
      }
    }
  }

  /** A span that ends early does not change the end. */
  lemma InsertKeepsEnd<T>(ls: seq<Span<T>>, start: nat, rc: nat, s: Span<T>, p: nat)
    requires p <= |ls| && IsEnd(ls, start, rc) && s.hi <= rc
    ensures IsEnd(InsertAt(ls, p, s), start, rc)
  {
    var r := InsertAt(ls, p, s);
    assert forall i :: 0 <= i < |r| ==> r[i] == if i < p then ls[i] else if i == p then s else ls[i - 1];
    if rc != start {
      var m :| 0 <= m < |ls| && !ls[m].passive && ls[m].hi == rc;
      assert r[if m < p then m else m + 1] == ls[m];
    }
  }

  lemma InsertKeepsRegular<T>(ls: seq<Span<T>>, start: nat, s: Span<T>, p: nat)
    requires p <= |ls| && Regular(ls, start) && !s.passive && start <= s.lo <= s.hi
    ensures Regular(InsertAt(ls, p, s), start)
  {
    var r := InsertAt(ls, p, s);
    assert forall i :: 0 <= i < |r| ==> r[i] == if i < p then ls[i] else if i == p then s else ls[i - 1];
  }

  lemma InsertAdds<T>(ls: seq<T>, p: nat, s: T)
    requires p <= |ls|
    ensures multiset(InsertAt(ls, p, s)) == multiset(ls) + multiset{s}
  {
    assert ls == ls[..p] + ls[p..];
  }

  /** One section put back: the visited part stays in order. */
  lemma PutBack<T>(pre: seq<Span<T>>, rest: seq<Span<T>>, start: nat, rc: nat, s: Span<T>)
    requires Visited(pre, start, rc)
    requires !s.passive && start <= s.lo <= s.hi && s.lo < rc && s.hi < rc
    requires InsertPos(pre + rest, s, 0).Some?
    ensures var p := InsertPos(pre + rest, s, 0).value;
            && p < |pre|
            && Visited(InsertAt(pre, p, s), start, rc)
            && multiset(InsertAt(pre, p, s)) == multiset(pre) + multiset{s}
  {
    var m :| 0 <= m < |pre| && !pre[m].passive && pre[m].hi == rc;
    SearchIsLocal(pre, rest, s, 0, m);
    SearchStops(pre, s, 0, m);
    PlaceFound(pre, s, 0);
    var p := InsertPos(pre, s, 0).value;
    InsertKeepsOrder(pre, start, s, p);
    InsertKeepsEnd(pre, start, rc, s, p);
    InsertKeepsRegular(pre, start, s, p);
    InsertAdds(pre, p, s);
  }

  /** One section left where it is. */
  lemma Advance<T>(pre: seq<Span<T>>, start: nat, rc: nat, s: Span<T>)
    requires Visited(pre, start, rc) && s.lo <= s.hi
    requires if s.passive then Harmless(s, start) else rc <= s.lo
    ensures Visited(pre + [s], start, if s.passive then rc else s.hi)
  {
    var r := pre + [s];
    assert forall i :: 0 <= i < |pre| ==> r[i] == pre[i];
    EndAdvances(pre, start, rc, s);
  }

  lemma RegularTail<T>(todo: seq<Span<T>>, start: nat)
    requires todo != [] && Regular(todo, start)
    ensures Regular(todo[1..], start) && todo[0].lo <= todo[0].hi
    ensures if todo[0].passive then Harmless(todo[0], start) else start <= todo[0].lo
  {
  }

  lemma ResortStays<T>(pre: seq<Span<T>>, todo: seq<Span<T>>, rc: nat)
    requires todo != [] && WellFormed(todo) && (todo[0].passive || rc <= todo[0].lo)
    ensures WellFormed(todo[1..])
    ensures Resort(pre, todo, rc) == Resort(pre + [todo[0]], todo[1..], if todo[0].passive then rc else todo[0].hi)
    ensures Loses(pre, todo, rc) == Loses(pre + [todo[0]], todo[1..], if todo[0].passive then rc else todo[0].hi)
  {
  }

  lemma ResortMoves<T>(pre: seq<Span<T>>, todo: seq<Span<T>>, rc: nat, p: nat)
    requires todo != [] && WellFormed(todo)
    requires !todo[0].passive && todo[0].lo < rc && todo[0].hi < rc
    requires p <= |pre| && InsertPos(pre + todo[1..], todo[0], 0) == Some(p)
    ensures Resort(pre, todo, rc) == Resort(InsertAt(pre, p, todo[0]), todo[1..], rc)
    ensures Loses(pre, todo, rc) == Loses(InsertAt(pre, p, todo[0]), todo[1..], rc)
  {
  }

  /** `r` is the section list in the order of the file. */
  ghost predicate IsSorted<T>(r: Sorted<T>, spans: multiset<Span<T>>, start: nat)
  {
    InOrder(r.spans) && IsEnd(r.spans, start, r.end) && multiset(r.spans) == spans
  }

  /** Whenever the pass succeeds, it has produced a permutation of the section
      list in which the sections with contents are in order and do not overlap,
      and the end it reports is the largest end of a section. */
  lemma {:induction false} ResortSorts<T>(pre: seq<Span<T>>, todo: seq<Span<T>>, start: nat, rc: nat)
    requires Visited(pre, start, rc) && Regular(todo, start)
    requires Resort(pre, todo, rc).Some?
    ensures IsSorted(Resort(pre, todo, rc).value, multiset(pre) + multiset(todo), start)
    decreases |todo|
  {
    if todo != [] {
      var s, rest := todo[0], todo[1..];
      assert todo == [s] + rest;
      RegularTail(todo, start);
      if s.passive || rc <= s.lo {
        Advance(pre, start, rc, s);
        ResortSorts(pre + [s], rest, start, if s.passive then rc else s.hi);
      } else {
        PutBack(pre, rest, start, rc, s);
        ResortSorts(InsertAt(pre, InsertPos(pre + rest, s, 0).value, s), rest, start, rc);
      }
    }
  }

  /** The whole pass, from the list as the first pass leaves it.  Passive sections may
      be anywhere if the list is in order already. */
  lemma ResyncSorts<T>(ls: seq<Span<T>>, start: nat)
    requires WellFormed(ls) && PastHeaders(ls, start) && (PassivesHarmless(ls, start) || InOrder(ls))
    requires Resort([], ls, start).Some?
    ensures IsSorted(Resort([], ls, start).value, multiset(ls), start)
  {
    if PassivesHarmless(ls, start) {
      ResortSorts([], ls, start, start);
    } else {
      assert [] + ls == ls;
      InOrderStays([], ls, start, start);
    }
  }

  // ------------------------------------------------------ exactly when nothing moves

  /** Sections already in order stay where they are, wherever the passive ones are. */
  lemma {:induction false} InOrderStays<T>(pre: seq<Span<T>>, todo: seq<Span<T>>, start: nat, rc: nat)
    requires IsEnd(pre, start, rc) && WellFormed(todo) && PastHeaders(todo, start) && InOrder(pre + todo)
    ensures var r := Resort(pre, todo, rc);
            r.Some? && r.value.spans == pre + todo && IsEnd(pre + todo, start, r.value.end)
    decreases |todo|
  {
    if todo != [] {
      var s, rest := todo[0], todo[1..];
      assert pre + todo == pre + [s] + rest;
      if !s.passive {
        EndBefore(pre, s, rest, start, rc);
      }
      EndAdvances(pre, start, rc, s);
      ResortStays(pre, todo, rc);
      InOrderStays(pre + [s], rest, start, if s.passive then rc else s.hi);
    } else {
      assert pre + todo == pre;
    }
  }

  lemma EndAdvances<T>(pre: seq<Span<T>>, start: nat, rc: nat, s: Span<T>)
    requires IsEnd(pre, start, rc) && s.lo <= s.hi && (s.passive || rc <= s.lo)
    ensures IsEnd(pre + [s], start, if s.passive then rc else s.hi)
  {
    var r := pre + [s];
    if s.passive && rc != start {
      var m :| 0 <= m < |pre| && !pre[m].passive && pre[m].hi == rc;
      assert r[m] == pre[m];
    } else if !s.passive {
      assert r[|pre|] == s;
    }
  }

  lemma EndBefore<T>(pre: seq<Span<T>>, s: Span<T>, rest: seq<Span<T>>, start: nat, rc: nat)
    requires IsEnd(pre, start, rc) && InOrder(pre + [s] + rest) && !s.passive && start <= s.lo
    ensures rc <= s.lo
  {
    if rc != start {
      var m :| 0 <= m < |pre| && !pre[m].passive && pre[m].hi == rc;
      var all := pre + [s] + rest;
      assert all[m] == pre[m] && all[|pre|] == s;
    }
  }

  /** The pass leaves the order of the list, and with it the numbers under which
      the sections are written, alone exactly when the list is in file order. */
  lemma UnmovedIffInOrder<T>(ls: seq<Span<T>>, start: nat)
    requires WellFormed(ls) && PastHeaders(ls, start) && (PassivesHarmless(ls, start) || InOrder(ls))
    requires Resort([], ls, start).Some?
    ensures Resort([], ls, start).value.spans == ls <==> InOrder(ls)
  {
    ResyncSorts(ls, start);
    if InOrder(ls) {
      assert [] + ls == ls;
      InOrderStays([], ls, start, start);
    }
  }

  // --------------------------------------- exactly which passive sections are safe

  ghost predicate MixedWith<T>(ls: seq<Span<T>>, n: Span<T>, start: nat)
  {
    && WellFormed(ls) && PastHeaders(ls, start)
    && n in ls
    && forall i :: 0 <= i < |ls| && ls[i].passive && ls[i] != n ==> Harmless(ls[i], start)
  }

  /** Every list that contains `n` besides harmless passive spans is put in order
      whenever the pass accepts it. */
  ghost predicate AlwaysSorted<T(!new)>(n: Span<T>, start: nat)
  {
    forall ls: seq<Span<T>> :: MixedWith(ls, n, start) && Resort([], ls, start).Some? ==>
      InOrder(Resort([], ls, start).value.spans)
  }

  /** Three sections that a far-away passive one makes come out of order: the
      search for the place of the last stops at the passive section, before the
      one that belongs in front of it. */
  lemma TrapFails<T>(n: Span<T>, start: nat) returns (ls: seq<Span<T>>)
    requires n.passive && n.lo <= n.hi && start + 2 <= n.lo
    ensures MixedWith(ls, n, start)
    ensures Resort([], ls, start).Some? && !InOrder(Resort([], ls, start).value.spans)
  {
    var b := Span(n.item, start, start, false);
    var c := Span(n.item, start + 5, start + 5, false);
    var s := Span(n.item, start + 1, start + 1, false);
    ls := [n, b, c, s];
    assert n in ls && WellFormed(ls);
    TrapWalk(n, b, c, s, start);
    var r := [s, n, b, c];
    assert r[0] == s && r[2] == b;
  }

  lemma TrapWalk<T>(n: Span<T>, b: Span<T>, c: Span<T>, s: Span<T>, start: nat)
    requires WellFormed([n, b, c, s]) && n.passive && !b.passive && !c.passive && !s.passive
    requires start <= b.lo && b.hi <= c.lo && s.lo <= n.hi && s.hi < n.lo && s.hi < c.hi
    ensures Resort([], [n, b, c, s], start) == Some(Sorted([s, n, b, c], c.hi))
  {
    var ls := [n, b, c, s];
    assert ls[0] == n && ls[1] == b && ls[2] == c && ls[3] == s;
    assert ls[1..] == [b, c, s] && [b, c, s][1..] == [c, s] && [c, s][1..] == [s];
    assert [] + [n] == [n] && [n] + [b] == [n, b] && [n, b] + [c] == [n, b, c] && [s] + [n, b, c] == [s, n, b, c];
    ResortStays([], ls, start);
    ResortStays([n], [b, c, s], start);
    ResortStays([n, b], [c, s], b.hi);
    LastMoves([n, b, c], s, c.hi);
  }

  /** A walk that ends with putting the last section in front of all others. */
  lemma LastMoves<T>(pre: seq<Span<T>>, s: Span<T>, rc: nat)
    requires !s.passive && s.lo <= s.hi < rc && pre != []
    requires s.lo <= pre[0].hi && s.hi < pre[0].lo
    ensures Resort(pre, [s], rc) == Some(Sorted([s] + pre, rc))
  {
    assert [s][1..] == [] && pre + [s][1..] == pre;
    assert InsertPos(pre, s, 0) == Some(0);
    assert InsertAt(pre, 0, s) == [s] + pre;
  }

  /** A section without contents leaves the order of the others alone exactly
      when it starts no later than one byte past the headers. */
  lemma SortedIffHarmless<T(!new)>(n: Span<T>, start: nat)
    requires n.passive && n.lo <= n.hi
    ensures AlwaysSorted(n, start) <==> Harmless(n, start)
  {
    if Harmless(n, start) {
      forall ls: seq<Span<T>> | MixedWith(ls, n, start) && Resort([], ls, start).Some?
        ensures InOrder(Resort([], ls, start).value.spans)
      {
        ResyncSorts(ls, start);
      }
    } else {
      var ls := TrapFails(n, start);
    }
  }

  // ------------------------------------------------- exactly when the pass succeeds

  ghost predicate Follows<T>(earlier: multiset<Span<T>>, s: Span<T>)
  {
    forall t :: t in earlier && !t.passive ==> t.hi <= s.lo
  }

  ghost predicate KeepsClear<T>(earlier: multiset<Span<T>>, s: Span<T>)
  {
    forall t :: t in earlier && !t.passive ==> t.hi < s.lo || s.hi < t.lo
  }

  /** Every section follows all of those before it in the list, or keeps at least
      one byte away from each of them. */
  ghost predicate Separable<T>(earlier: multiset<Span<T>>, todo: seq<Span<T>>)
    decreases |todo|
  {
    todo == [] ||
    var s := todo[0];
    && (s.passive || Follows(earlier, s) || KeepsClear(earlier, s))
    && Separable(earlier + multiset{s}, todo[1..])
  }

  /** The first section that neither follows all of those before it in the list nor
      keeps clear of them ends before the end of one of them. */
  ghost predicate LeavesOut<T>(earlier: multiset<Span<T>>, todo: seq<Span<T>>)
    decreases |todo|
  {
    todo != [] &&
    var s := todo[0];
    if s.passive || Follows(earlier, s) || KeepsClear(earlier, s)
    then LeavesOut(earlier + multiset{s}, todo[1..])
    else EndsBefore(earlier, s)
  }

  ghost predicate EndsBefore<T>(earlier: multiset<Span<T>>, s: Span<T>)
  {
    exists t :: t in earlier && !t.passive && s.hi < t.hi
  }

  ghost predicate PassivesLow<T>(ls: seq<Span<T>>, start: nat)
  {
    forall i :: 0 <= i < |ls| && ls[i].passive ==> ls[i].hi < start
  }

  /** If nothing up to a span behind `s` touches it, the search finds a place. */
  lemma {:induction false} ApartIsPlaced<T>(ls: seq<Span<T>>, s: Span<T>, i: nat, m: nat)
    requires i <= m < |ls| && s.lo <= s.hi < ls[m].lo <= ls[m].hi
    requires forall j :: i <= j <= m ==> ls[j].hi < s.lo || s.hi < ls[j].lo
    ensures InsertPos(ls, s, i).Some?
    decreases m - i
  {
    if ls[i].hi < s.lo {
      ApartIsPlaced(ls, s, i + 1, m);
    }
  }

  lemma ClearIsPlaced<T>(pre: seq<Span<T>>, rest: seq<Span<T>>, start: nat, rc: nat, s: Span<T>)
    requires Visited(pre, start, rc) && PassivesLow(pre, start)
    requires start <= s.lo <= s.hi && s.lo < rc
    requires KeepsClear(multiset(pre), s)
    ensures s.hi < rc && InsertPos(pre + rest, s, 0).Some?
  {
    var m :| 0 <= m < |pre| && !pre[m].passive && pre[m].hi == rc;
    forall j | 0 <= j < |pre|
      ensures pre[j].hi < s.lo || s.hi < pre[j].lo
    {
      assert pre[j] in multiset(pre);
    }
    SearchIsLocal(pre, rest, s, 0, m);
    ApartIsPlaced(pre, s, 0, m);
  }

  lemma PlaceIsClear<T>(ls: seq<Span<T>>, start: nat, s: Span<T>, p: nat, i: nat)
    requires p <= i < |ls| && WellFormed(ls) && InOrder(ls) && PassivesLow(ls, start)
    requires start <= s.lo <= s.hi < ls[p].lo && !ls[i].passive
    ensures s.hi < ls[i].lo
  {
    assert !ls[p].passive;
  }

  lemma PlacedIsClear<T>(pre: seq<Span<T>>, rest: seq<Span<T>>, start: nat, rc: nat, s: Span<T>)
    requires Visited(pre, start, rc) && PassivesLow(pre, start)
    requires start <= s.lo <= s.hi && s.lo < rc
    requires s.hi < rc && InsertPos(pre + rest, s, 0).Some?
    ensures KeepsClear(multiset(pre), s)
  {
    var m :| 0 <= m < |pre| && !pre[m].passive && pre[m].hi == rc;
    SearchIsLocal(pre, rest, s, 0, m);
    SearchStops(pre, s, 0, m);
    PlaceFound(pre, s, 0);
    var p := InsertPos(pre, s, 0).value;
    forall t | t in multiset(pre) && !t.passive
      ensures t.hi < s.lo || s.hi < t.lo
    {
      var i :| 0 <= i < |pre| && pre[i] == t;
      if p <= i {
        PlaceIsClear(pre, start, s, p, i);
      }
    }
  }

  /** A span that starts before the end of what is in place does not follow it. */
  lemma LateDoesNotFollow<T>(pre: seq<Span<T>>, start: nat, rc: nat, s: Span<T>)
    requires IsEnd(pre, start, rc) && start <= s.lo
    ensures Follows(multiset(pre), s) <==> rc <= s.lo
  {
    if s.lo < rc {
      var m :| 0 <= m < |pre| && !pre[m].passive && pre[m].hi == rc;
      assert pre[m] in multiset(pre);
    } else {
      forall t | t in multiset(pre) && !t.passive
        ensures t.hi <= s.lo
      {
        var i :| 0 <= i < |pre| && pre[i] == t;
      }
    }
  }

  /** A span that starts past the headers ends before another one exactly when it ends
      before the end of what is in place. */
  lemma EndsBeforeEnd<T>(pre: seq<Span<T>>, start: nat, rc: nat, s: Span<T>)
    requires IsEnd(pre, start, rc) && start <= s.lo <= s.hi
    ensures EndsBefore(multiset(pre), s) <==> s.hi < rc
  {
    if s.hi < rc {
      var m :| 0 <= m < |pre| && !pre[m].passive && pre[m].hi == rc;
      assert pre[m] in multiset(pre);
    }
    forall t | t in multiset(pre) && !t.passive
      ensures t.hi <= rc
    {
      var i :| 0 <= i < |pre| && pre[i] == t;
    }
  }

  lemma LowIsKept<T>(pre: seq<Span<T>>, start: nat, s: Span<T>, p: nat)
    requires PassivesLow(pre, start) && p <= |pre| && (s.passive ==> s.hi < start)
    ensures PassivesLow(InsertAt(pre, p, s), start)
  {
  }

  /** A section to be put back is accepted exactly when it keeps clear. */
  lemma AcceptedIffClear<T>(pre: seq<Span<T>>, rest: seq<Span<T>>, start: nat, rc: nat, s: Span<T>)
    requires Visited(pre, start, rc) && PassivesLow(pre, start)
    requires start <= s.lo <= s.hi && s.lo < rc
    ensures KeepsClear(multiset(pre), s) <==> s.hi < rc && InsertPos(pre + rest, s, 0).Some?
    ensures !Follows(multiset(pre), s)
  {
    LateDoesNotFollow(pre, start, rc, s);
    if KeepsClear(multiset(pre), s) {
      ClearIsPlaced(pre, rest, start, rc, s);
    }
    if s.hi < rc && InsertPos(pre + rest, s, 0).Some? {
      PlacedIsClear(pre, rest, start, rc, s);
    }
  }

  ghost predicate Agrees<T>(pre: seq<Span<T>>, todo: seq<Span<T>>, rc: nat)
    requires WellFormed(todo)
  {
    && (Resort(pre, todo, rc).Some? <==> Separable(multiset(pre), todo))
    && (Loses(pre, todo, rc) <==> LeavesOut(multiset(pre), todo))
  }

  lemma AgreesAfterStay<T>(pre: seq<Span<T>>, todo: seq<Span<T>>, rc: nat)
    requires todo != [] && WellFormed(todo)
    requires todo[0].passive || (rc <= todo[0].lo && Follows(multiset(pre), todo[0]))
    requires Agrees(pre + [todo[0]], todo[1..], if todo[0].passive then rc else todo[0].hi)
    ensures Agrees(pre, todo, rc)
  {
    ResortStays(pre, todo, rc);
    assert multiset(pre + [todo[0]]) == multiset(pre) + multiset{todo[0]};
    SeparableStep(multiset(pre), todo);
  }

  lemma AgreesAfterMove<T>(pre: seq<Span<T>>, todo: seq<Span<T>>, rc: nat, p: nat)
    requires todo != [] && WellFormed(todo)
    requires !todo[0].passive && todo[0].lo < rc && todo[0].hi < rc
    requires p <= |pre| && InsertPos(pre + todo[1..], todo[0], 0) == Some(p)
    requires KeepsClear(multiset(pre), todo[0])
    requires Agrees(InsertAt(pre, p, todo[0]), todo[1..], rc)
    ensures Agrees(pre, todo, rc)
  {
    ResortMoves(pre, todo, rc, p);
    InsertAdds(pre, p, todo[0]);
    SeparableStep(multiset(pre), todo);
  }

  lemma SeparableStep<T>(earlier: multiset<Span<T>>, todo: seq<Span<T>>)
    requires todo != [] && (todo[0].passive || Follows(earlier, todo[0]) || KeepsClear(earlier, todo[0]))
    ensures Separable(earlier, todo) == Separable(earlier + multiset{todo[0]}, todo[1..])
    ensures LeavesOut(earlier, todo) == LeavesOut(earlier + multiset{todo[0]}, todo[1..])
  {
  }

  /** The pass accepts a list exactly when every section either starts at or past
      the end of all sections before it in the list, or keeps at least one byte
      away from each of them.  Adjacent sections found out of order are refused.  At the
      first section that does neither the pass stops, and it has taken that section off
      the list exactly when the section ends before the end of an earlier one. */
  lemma {:induction false} SucceedsIffSeparable<T>(pre: seq<Span<T>>, todo: seq<Span<T>>, start: nat, rc: nat)
    requires Visited(pre, start, rc) && Regular(todo, start)
    requires PassivesLow(pre, start) && PassivesLow(todo, start)
    ensures Agrees(pre, todo, rc)
    decreases |todo|
  {
    if todo != [] {
      var s, rest := todo[0], todo[1..];
      RegularTail(todo, start);
      if s.passive || rc <= s.lo {
        Advance(pre, start, rc, s);
        LowIsKept(pre, start, s, |pre|);
        assert InsertAt(pre, |pre|, s) == pre + [s];
        SucceedsIffSeparable(pre + [s], rest, start, if s.passive then rc else s.hi);
        if !s.passive { LateDoesNotFollow(pre, start, rc, s); }
        AgreesAfterStay(pre, todo, rc);
      } else {
        AcceptedIffClear(pre, rest, start, rc, s);
        if s.hi < rc && InsertPos(pre + rest, s, 0).Some? {
          PutBack(pre, rest, start, rc, s);
          var p := InsertPos(pre + rest, s, 0).value;
          LowIsKept(pre, start, s, p);
          SucceedsIffSeparable(InsertAt(pre, p, s), rest, start, rc);
          AgreesAfterMove(pre, todo, rc, p);
        } else {
          EndsBeforeEnd(pre, start, rc, s);
        }
      }
    }
  }

  /** The same for the whole pass. */
  lemma ResyncSucceeds<T>(ls: seq<Span<T>>, start: nat)
    requires Regular(ls, start) && PassivesLow(ls, start)
    ensures Resort([], ls, start).Some? <==> Separable(multiset{}, ls)
    ensures Loses([], ls, start) <==> LeavesOut(multiset{}, ls)
  {
    SucceedsIffSeparable([], ls, start, start);
    var none: seq<Span<T>> := [];
    assert multiset(none) == multiset{};
  }
}
