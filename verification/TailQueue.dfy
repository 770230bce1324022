/** The singly-linked tail queues of elf_queue.h (STAILQ), with which libelf keeps
    sections and data descriptors. */
module TailQueue {

  /** An element: the link that is part of every structure in a queue. */
  class Node {
    var next: Node?
    constructor ()
      ensures next == null
    {
      next := null;
    }
  }

  /** A queue head.  stqh_last is the address of a link: the one in the head, here
      null, or the one in a node, here that node. */
  class Queue {
    var first: Node?
    var last: Node?
    ghost var nodes: seq<Node>

    /** The links spell out `nodes`, and `last` designates the link that ends them. */
    ghost predicate Valid()
      reads this, nodes
    {
      && Distinct(nodes)
      && first == At(nodes, 0)
      && Linked(nodes)
      && last == if nodes == [] then null else nodes[|nodes| - 1]
    }

    /** STAILQ_INIT. */
    constructor ()
      ensures Valid() && nodes == []
    {
      first, last, nodes := null, null, [];
    }

    /** STAILQ_INIT, on a queue that exists. */
    method Init()
      modifies this
      ensures Valid() && nodes == []
    {
      first, last, nodes := null, null, [];
    }

    /** STAILQ_INSERT_HEAD. */
    method InsertHead(elm: Node)
      requires Valid() && elm !in nodes
      modifies this, elm
      ensures Valid() && nodes == [elm] + old(nodes)
    {
      elm.next := first;
      if elm.next == null {
        last := elm;
      }
      first := elm;
      DistinctInsert(nodes, 0, elm);
      assert nodes[..0] + [elm] + nodes[0..] == [elm] + nodes;
      nodes := [elm] + nodes;
    }

    /** STAILQ_INSERT_TAIL. */
    method InsertTail(elm: Node)
      requires Valid() && elm !in nodes
      modifies this, elm, nodes
      ensures Valid() && nodes == old(nodes) + [elm]
    {
      elm.next := null;
      if last == null {
        first := elm;
      } else {
        last.next := elm;
      }
      last := elm;
      DistinctInsert(nodes, |nodes|, elm);
      assert nodes[..|nodes|] + [elm] + nodes[|nodes|..] == nodes + [elm];
      nodes := nodes + [elm];
    }

    /** STAILQ_INSERT_AFTER, behind element `k`. */
    method InsertAfter(tqelm: Node, elm: Node, ghost k: nat)
      requires Valid() && elm !in nodes && k < |nodes| && nodes[k] == tqelm
      modifies this, tqelm, elm
      ensures Valid() && nodes == old(nodes)[..k + 1] + [elm] + old(nodes)[k + 1..]
    {
      elm.next := tqelm.next;
      if elm.next == null {
        last := elm;
      }
      tqelm.next := elm;
      DistinctInsert(nodes, k + 1, elm);
      ghost var s := nodes[..k + 1] + [elm] + nodes[k + 1..];
      forall i | 0 <= i < |s|
        ensures s[i].next == At(s, i + 1)
      {
        assert s[i] == if i <= k then nodes[i] else if i == k + 1 then elm else nodes[i - 1];
      }
      nodes := s;
    }

    /** STAILQ_REMOVE_HEAD. */
    method RemoveHead()
      requires Valid() && nodes != []
      modifies this
      ensures Valid() && nodes == old(nodes)[1..]
    {
      DistinctTail(nodes);
      ghost var s := nodes[1..];
      assert Linked(s) && |s| + 1 == |nodes| by {
        assert forall i :: 0 <= i < |s| ==> s[i] == nodes[i + 1];
      }
      assert s != [] ==> s[|s| - 1] == nodes[|nodes| - 1];
      first := first.next;
      if first == null {
        last := null;
      }
      nodes := s;
    }

    /** STAILQ_REMOVE of element `k`: find the element before it, and unlink. */
    method Remove(elm: Node, ghost k: nat)
      requires Valid() && k < |nodes| && nodes[k] == elm
      modifies this, (if k == 0 then {} else {nodes[k - 1]})
      ensures Valid() && nodes == old(nodes)[..k] + old(nodes)[k + 1..]
    {
      if first == elm {
        assert k == 0;
        RemoveHead();
        return;
      }
      var curelm := first;
      ghost var i := 0;
      while curelm.next != elm
        invariant 0 <= i < k && curelm == nodes[i]
        invariant Valid() && nodes == old(nodes)
        decreases k - i
      {
        curelm := curelm.next;
        i := i + 1;
      }
      assert i + 1 == k;
      curelm.next := curelm.next.next;
      if curelm.next == null {
        last := curelm;
      }
      DistinctRemove(nodes, k);
      ghost var s := nodes[..k] + nodes[k + 1..];
      forall j | 0 <= j < |s|
        ensures s[j].next == At(s, j + 1)
      {
        assert s[j] == if j < k then nodes[j] else nodes[j + 1];
      }
      nodes := s;
    }

    /** STAILQ_CONCAT. */
    method Concat(other: Queue)
      requires Valid() && other.Valid() && this != other
      requires forall n :: n in nodes ==> n !in other.nodes
      modifies this, other, nodes
      ensures Valid() && other.Valid()
      ensures nodes == old(nodes) + old(other.nodes) && other.nodes == []
    {
      if other.first == null {
        assert nodes + other.nodes == nodes;
        return;
      }
      if last == null {
        first := other.first;
      } else {
        last.next := other.first;
      }
      last := other.last;
      DistinctConcat(nodes, other.nodes);
      assert LinkedTo(nodes, At(other.nodes, 0));
      assert Linked(other.nodes) by {
        assert forall i :: 0 <= i < |other.nodes| ==> other.nodes[i] in other.nodes;
      }
      LinkedConcat(nodes, other.nodes);
      nodes := nodes + other.nodes;
      other.Init();
    }

    /** STAILQ_LAST: the node that has the link `last`. */
    method Last() returns (r: Node?)
      requires Valid()
      ensures r == if nodes == [] then null else nodes[|nodes| - 1]
    {
      return if first == null then null else last;
    }

    /** STAILQ_FOREACH. */
    method ForEach() returns (visited: seq<Node>)
      requires Valid()
      ensures visited == nodes
    {
      visited := [];
      var elm := first;
      while elm != null
        invariant |visited| <= |nodes| && visited == nodes[..|visited|]
        invariant elm == At(nodes, |visited|)
        decreases |nodes| - |visited|
      {
        visited := visited + [elm];
        elm := elm.next;
      }
    }

    /** The first element, removed as STAILQ_REMOVE does it. */
    method ReleaseFirst(elm: Node)
      requires Valid() && nodes != [] && elm == nodes[0]
      modifies this
      ensures Valid() && nodes == old(nodes)[1..] && first == old(elm.next)
    {
      Remove(elm, 0);
      assert old(nodes)[..0] + old(nodes)[1..] == old(nodes)[1..];
    }

    /** STAILQ_FOREACH_SAFE around STAILQ_REMOVE and a release, as in
        _libelf_release_scn, _libelf_write_elf and elf_end: every element is released
        once, in order, and the queue is empty afterwards. */
    method ReleaseAll() returns (released: seq<Node>)
      requires Valid()
      modifies this
      ensures Valid() && nodes == [] && first == null
      ensures released == old(nodes)
    {
      released := [];
      ghost var all := nodes;
      var elm := first;
      while elm != null
        invariant Valid()
        invariant released + nodes == all
        invariant elm == first
        decreases |nodes|
      {
        var telm := elm.next;
        Shift(released, nodes);
        ReleaseFirst(elm);
        released := released + [elm];
        elm := telm;
      }
    }
  }

  ghost predicate Linked(s: seq<Node>)
    reads s
  {
    forall i {:trigger s[i].next} :: 0 <= i < |s| ==> s[i].next == At(s, i + 1)
  }

  /** The links of `s` lead from one to the next and then to `end`. */
  ghost predicate LinkedTo(s: seq<Node>, end: Node?)
    reads s
  {
    forall i {:trigger s[i].next} :: 0 <= i < |s| ==> s[i].next == if i + 1 < |s| then s[i + 1] else end
  }

  lemma LinkedConcat(a: seq<Node>, b: seq<Node>)
    requires LinkedTo(a, At(b, 0)) && Linked(b)
    ensures Linked(a + b)
  {
    var s := a + b;
    forall i | 0 <= i < |s|
      ensures s[i].next == At(s, i + 1)
    {
      if i < |a| {
        assert s[i] == a[i] && a[i].next == if i + 1 < |a| then a[i + 1] else At(b, 0);
      } else {
        assert s[i] == b[i - |a|] && b[i - |a|].next == At(b, i - |a| + 1);
      }
    }
  }

  lemma DistinctInsert(s: seq<Node>, k: nat, elm: Node)
    requires Distinct(s) && k <= |s| && elm !in s
    ensures Distinct(s[..k] + [elm] + s[k..])
  {
  }

  lemma DistinctConcat(a: seq<Node>, b: seq<Node>)
    requires Distinct(a) && Distinct(b) && forall n :: n in a ==> n !in b
    ensures Distinct(a + b)
  {
    var r := a + b;
    forall i, j | 0 <= i < j < |r|
      ensures r[i] != r[j]
    {
      if i < |a| <= j {
        assert r[i] in a && r[j] in b;
      }
    }
  }

  lemma DistinctRemove(s: seq<Node>, k: nat)
    requires Distinct(s) && k < |s|
    ensures Distinct(s[..k] + s[k + 1..])
  {
  }

  lemma Shift(done: seq<Node>, todo: seq<Node>)
    requires todo != []
    ensures done + todo == done + [todo[0]] + todo[1..]
  {
  }

  lemma DistinctTail(s: seq<Node>)
    requires Distinct(s) && s != []
    ensures Distinct(s[1..])
  {
  }

  ghost predicate Distinct(s: seq<Node>)
  {
    forall i, j :: 0 <= i < j < |s| ==> s[i] != s[j]
  }

  ghost function At(s: seq<Node>, i: nat): Node? {
    if i < |s| then s[i] else null
  }
}
