/** The lifetime of ELF descriptors: elf_begin and elf_end, with archives and their
    members (elf_begin.c, elf_end.c, libelf_ar.c). */
module ElfLifetime {

  /** Elf, as far as its lifetime is concerned.  A parent is set once, when a member
      of an archive is opened. */
  class Descriptor {
    const archive: bool         // e_kind == ELF_K_AR
    const parent: Descriptor?
    var activations: nat
    var nchildren: nat
    ghost const depth: nat      // archives within archives

    constructor (archive: bool, parent: Descriptor?)
      ensures this.archive == archive && this.parent == parent
      ensures activations == 1 && nchildren == 0
      ensures depth == if parent == null then 0 else parent.depth + 1
    {
      this.archive, this.parent := archive, parent;
      activations, nchildren := 1, 0;
      depth := if parent == null then 0 else parent.depth + 1;
    }
  }

  // -------------------------------------------------- which descriptors have to live

  /** The descriptors in `live` that name `d` as their parent. */
  ghost function Children(live: set<Descriptor>, d: Descriptor): set<Descriptor>
  {
    set c | c in live && c.parent == d
  }

  /** Something keeps the descriptor: an open activation, or a live member. */
  ghost predicate Held(live: set<Descriptor>, open: map<Descriptor, nat>, d: Descriptor)
    requires d in open
  {
    open[d] > 0 || Children(live, d) != {}
  }

  /** Parents are live archives, and only archives have members. */
  ghost predicate Rooted(live: set<Descriptor>)
  {
    forall d {:trigger d.parent} :: d in live && d.parent != null ==>
      d.parent in live && d.parent.archive && d.depth == d.parent.depth + 1
  }

  /** Every live descriptor is held by something. */
  ghost predicate AllHeld(live: set<Descriptor>, open: map<Descriptor, nat>)
    requires live <= open.Keys
  {
    forall d {:trigger Held(live, open, d)} :: d in live ==> Held(live, open, d)
  }

  ghost predicate AllHeldBut(live: set<Descriptor>, open: map<Descriptor, nat>, e: Descriptor?)
    requires live <= open.Keys
  {
    forall d {:trigger Held(live, open, d)} :: d in live && d != e ==> Held(live, open, d)
  }

  /** What is left when `e` and then its parents are released as far as nothing
      holds them. */
  ghost function Remaining(live: set<Descriptor>, open: map<Descriptor, nat>, e: Descriptor?): (r: set<Descriptor>)
    requires live <= open.Keys
    ensures r <= live
    decreases |live|
  {
    if e == null || e !in live || Held(live, open, e) then live
    else Remaining(live - {e}, open, e.parent)
  }

  lemma ChildAdded(live: set<Descriptor>, d: Descriptor, x: Descriptor)
    requires d !in live
    ensures Children(live + {d}, x) == Children(live, x) + if d.parent == x then {d} else {}
    ensures |Children(live + {d}, x)| == |Children(live, x)| + if d.parent == x then 1 else 0
  {
    assert Children(live + {d}, x) == Children(live, x) + if d.parent == x then {d} else {};
    assert d !in Children(live, x);
  }

  lemma ChildRemoved(live: set<Descriptor>, d: Descriptor, x: Descriptor)
    requires d in live
    ensures Children(live - {d}, x) == Children(live, x) - if d.parent == x then {d} else {}
    ensures |Children(live - {d}, x)| == |Children(live, x)| - if d.parent == x then 1 else 0
  {
    assert live == (live - {d}) + {d};
    ChildAdded(live - {d}, d, x);
  }

  lemma RemovedStaysRooted(live: set<Descriptor>, e: Descriptor)
    requires Rooted(live) && e in live && Children(live, e) == {}
    ensures Rooted(live - {e})
  {
    forall d | d in live - {e} && d.parent != null
      ensures d.parent in live - {e} && d.parent.archive && d.depth == d.parent.depth + 1
    {
      assert d !in Children(live, e);
    }
  }

  /** Releasing keeps exactly what something holds. */
  lemma {:induction false} RemainingIsHeld(live: set<Descriptor>, open: map<Descriptor, nat>, e: Descriptor?)
    requires live <= open.Keys && Rooted(live) && AllHeldBut(live, open, e)
    ensures var r := Remaining(live, open, e);
            && Rooted(r) && AllHeld(r, open)
            && forall x :: x in live && x !in r ==> open[x] == 0 && Children(r, x) == {}
    decreases |live|
  {
    if e == null || e !in live {
    } else if Held(live, open, e) {
      assert AllHeld(live, open);
    } else {
      RemovedStaysRooted(live, e);
      forall d | d in live - {e} && d != e.parent
        ensures Held(live - {e}, open, d)
      {
        ChildRemoved(live, e, d);
        assert Held(live, open, d);
      }
      RemainingIsHeld(live - {e}, open, e.parent);
      var r := Remaining(live - {e}, open, e.parent);
      assert Children(r, e) <= Children(live, e);
    }
  }

  /** A new descriptor leaves everything held. */
  lemma AddedIsHeld(live: set<Descriptor>, open: map<Descriptor, nat>, d: Descriptor)
    requires live == open.Keys && d !in live && Rooted(live) && AllHeld(live, open)
    requires d.parent != null ==> d.parent in live && d.parent.archive && d.depth == d.parent.depth + 1
    ensures Rooted(live + {d}) && AllHeld(live + {d}, open[d := 1])
  {
    forall x | x in live + {d}
      ensures Held(live + {d}, open[d := 1], x)
    {
      if x != d {
        ChildAdded(live, d, x);
        assert Held(live, open, x);
      }
    }
  }

  // ---------------------------------------------------------------- nothing leaks

  /** Some descriptor lies deepest. */
  lemma {:induction false} Deepest(live: set<Descriptor>) returns (d: Descriptor)
    requires live != {}
    ensures d in live && forall x :: x in live ==> x.depth <= d.depth
  {
    d :| d in live;
    if live != {d} {
      assert live == (live - {d}) + {d};
      var m := Deepest(live - {d});
      d := if d.depth < m.depth then m else d;
    }
  }

  /** When every activation handed out has been closed, no descriptor is left. */
  lemma AllReleased(live: set<Descriptor>, open: map<Descriptor, nat>)
    requires live <= open.Keys && Rooted(live) && AllHeld(live, open)
    requires forall d :: d in live ==> open[d] == 0
    ensures live == {}
  {
    if live != {} {
      var d := Deepest(live);
      assert !Held(live, open, d) by {
        assert forall c :: c in live ==> c.parent != d;
      }
    }
  }

  // ------------------------------------------------------------------ the library

  /** The counters of the descriptors are right. */
  ghost predicate Counted(live: set<Descriptor>, open: map<Descriptor, nat>)
    requires live <= open.Keys
    reads live
  {
    forall d {:trigger d.activations} {:trigger d.nchildren} :: d in live ==>
      d.activations == open[d] && d.nchildren == |Children(live, d)|
  }

  /** All the descriptors of a process: those allocated and not released, and how
      many activations of each have been handed out and not yet closed. */
  class Session {
    var live: set<Descriptor>
    ghost var open: map<Descriptor, nat>

    ghost predicate Valid()
      reads this, live
    {
      live == open.Keys && Rooted(live) && AllHeld(live, open) && Counted(live, open)
    }

    constructor ()
      ensures Valid() && live == {}
    {
      live, open := {}, map[];
    }

    /** A new descriptor of the given kind, for a file or for a member of `parent`. */
    method Allocate(archive: bool, parent: Descriptor?) returns (d: Descriptor)
      requires Valid() && (parent != null ==> parent in live && parent.archive)
      modifies this, parent
      ensures Valid() && fresh(d) && live == old(live) + {d} && open == old(open)[d := 1]
      ensures d.archive == archive && d.parent == parent
    {
      d := new Descriptor(archive, parent);
      AddedCounts(live, d);
      AddedIsHeld(live, open, d);
      if parent != null {
        parent.nchildren := parent.nchildren + 1;
      }
      live := live + {d};
      open := open[d := 1];
    }

    /** elf_begin, with or without a descriptor: for a new object, for the next member
        of an archive, or for one more activation.  `fits` if file and command are those of
        the descriptor given; `found` if there is an object to be opened, which is not so
        behind the last member of an archive; `archived` is its kind.  Archives cannot be
        opened for reading and writing. */
    method Begin(a: Descriptor?, rdwr: bool, fits: bool, found: bool, archived: bool) returns (d: Descriptor?)
      requires Valid() && (a != null ==> a in live)
      modifies this, live
      ensures Valid()
      ensures d == null <==>
                || (a != null && (rdwr || !fits))
                || ((a == null || a.archive) && (!found || (rdwr && archived)))
      ensures d == null ==> live == old(live) && open == old(open)
      ensures d != null && (a == null || a.archive) ==>
                && fresh(d) && d.parent == a && d.archive == archived
                && live == old(live) + {d} && open == old(open)[d := 1]
      ensures d != null && a != null && !a.archive ==>
                d == a && live == old(live) && open == old(open)[a := old(open)[a] + 1]
    {
      if a != null && (rdwr || !fits) {
        return null;
      }
      if a != null && !a.archive {
        OneMore(live, open, a);
        a.activations := a.activations + 1;
        open := open[a := open[a] + 1];
        return a;
      }
      if !found {
        return null;
      }
      d := Allocate(archived, a);
      if rdwr && archived {
        CloseAtOnce(live, old(live), open, d);
        var n := End(d);
        return null;
      }
    }

    /** elf_end.  A descriptor is released exactly when nothing holds it any more. */
    method End(d: Descriptor?) returns (n: nat)
      requires Valid() && (d != null ==> d in live)
      modifies this, live
      ensures Valid() && live <= old(live)
      ensures d == null || old(open[d]) == 0 ==> live == old(live) && open == old(open) && n == 0
      ensures d != null && old(open[d]) > 0 ==>
                var open' := old(open)[d := old(open)[d] - 1];
                && live == Remaining(old(live), open', d) && n == open'[d]
                && open == Restrict(open', live)
                && ExactlyHeld(old(live), open', live)
    {
      if d == null || d.activations == 0 {
        return 0;
      }
      ghost var open' := open[d := open[d] - 1];
      OneLess(live, open, d);
      EndSettles(live, open', d);
      d.activations := d.activations - 1;
      if d.activations > 0 {
        open := open';
        return d.activations;
      }
      ReleaseFrom(d, open');
      open := Restrict(open', live);
      return 0;
    }

    /** The loop of elf_end, up the chain of parents. */
    method ReleaseFrom(d: Descriptor, ghost open': map<Descriptor, nat>)
      requires d in live && live <= open'.Keys && open'[d] == 0
      requires Rooted(live) && AllHeldBut(live, open', d) && Counted(live, open')
      modifies this`live, live
      ensures live == Remaining(old(live), open', d) && Counted(live, open')
    {
      var e: Descriptor? := d;
      while e != null && e.activations == 0
        invariant live <= old(live) && (e != null ==> e in live)
        invariant Rooted(live) && Counted(live, open')
        invariant Remaining(live, open', e) == Remaining(old(live), open', d)
        decreases if e == null then 0 else e.depth + 1
      {
        if e.archive && e.nchildren > 0 {
          return;
        }
        var sv := e;
        OnlyArchives(live, sv);
        RemovedCounts(live, sv);
        RemovedStaysRooted(live, sv);
        e := e.parent;
        if e != null {
          e.nchildren := e.nchildren - 1;
        }
        live := live - {sv};
      }
    }
  }

  ghost function Restrict(open: map<Descriptor, nat>, live: set<Descriptor>): map<Descriptor, nat>
    requires live <= open.Keys
  {
    map x | x in live :: open[x]
  }

  /** Only archives have members. */
  lemma OnlyArchives(live: set<Descriptor>, d: Descriptor)
    requires Rooted(live) && d in live && (d.archive ==> |Children(live, d)| == 0)
    ensures Children(live, d) == {}
  {
    if !d.archive {
      assert forall c :: c in live ==> c.parent != d;
    }
  }

  lemma OneMore(live: set<Descriptor>, open: map<Descriptor, nat>, d: Descriptor)
    requires live == open.Keys && d in live && AllHeld(live, open)
    ensures AllHeld(live, open[d := open[d] + 1])
  {
    forall x | x in live
      ensures Held(live, open[d := open[d] + 1], x)
    {
      assert Held(live, open, x);
    }
  }

  lemma OneLess(live: set<Descriptor>, open: map<Descriptor, nat>, d: Descriptor)
    requires live == open.Keys && d in live && AllHeld(live, open) && open[d] > 0
    ensures AllHeldBut(live, open[d := open[d] - 1], d)
    ensures open[d] > 1 ==> AllHeld(live, open[d := open[d] - 1]) && Remaining(live, open[d := open[d] - 1], d) == live
  {
    var open' := open[d := open[d] - 1];
    forall x | x in live && (x != d || open[d] > 1)
      ensures Held(live, open', x)
    {
      assert Held(live, open, x);
    }
  }

  /** Of the descriptors in `before`, those live are exactly those that something holds. */
  ghost predicate ExactlyHeld(before: set<Descriptor>, open: map<Descriptor, nat>, live: set<Descriptor>)
    requires before <= open.Keys
  {
    forall x {:trigger Held(live, open, x)} :: x in before ==> (x in live <==> Held(live, open, x))
  }

  lemma EndSettles(live: set<Descriptor>, open: map<Descriptor, nat>, d: Descriptor)
    requires live == open.Keys && Rooted(live) && AllHeldBut(live, open, d)
    ensures var r := Remaining(live, open, d);
            Rooted(r) && AllHeld(r, Restrict(open, r)) && ExactlyHeld(live, open, r)
    ensures Restrict(open, live) == open
  {
    RemainingIsHeld(live, open, d);
    var r := Remaining(live, open, d);
    forall x | x in r
      ensures Held(r, Restrict(open, r), x)
    {
      assert Held(r, open, x);
    }
  }

  /** Closing a new descriptor without a parent undoes opening it. */
  lemma CloseAtOnce(live: set<Descriptor>, before: set<Descriptor>, open: map<Descriptor, nat>, d: Descriptor)
    requires live == before + {d} && d !in before && live <= open.Keys && open[d] == 1 && d.parent == null
    requires forall c :: c in before ==> c.parent != d
    ensures Remaining(live, open[d := 0], d) == before
  {
    assert Children(live, d) == {};
    assert live - {d} == before;
  }

  /** Without a childless descriptor, its parent counts one child less. */
  lemma RemovedCounts(live: set<Descriptor>, d: Descriptor)
    requires d in live
    ensures forall x {:trigger Children(live - {d}, x)} :: x in live ==>
              |Children(live - {d}, x)| == |Children(live, x)| - if d.parent == x then 1 else 0
    ensures d.parent != null ==> |Children(live, d.parent)| > 0
  {
    if d.parent != null {
      assert d in Children(live, d.parent);
    }
    forall x | x in live
      ensures |Children(live - {d}, x)| == |Children(live, x)| - if d.parent == x then 1 else 0
    {
      ChildRemoved(live, d, x);
    }
  }

  lemma AddedCounts(live: set<Descriptor>, d: Descriptor)
    requires d !in live && d.parent != d && forall c :: c in live ==> c.parent != d
    ensures forall x {:trigger Children(live + {d}, x)} :: x in live ==>
              |Children(live + {d}, x)| == |Children(live, x)| + if d.parent == x then 1 else 0
    ensures Children(live + {d}, d) == {}
  {
    forall x | x in live
      ensures |Children(live + {d}, x)| == |Children(live, x)| + if d.parent == x then 1 else 0
    {
      ChildAdded(live, d, x);
    }
  }
}
