/** The print queue of the pipeline viewer (o3-pipeview.py): instructions arrive out
    of order and are sorted within a window. */
module PipeView {
  import opened Basics

  /** What the queue looks at in an instruction; `text` stands for the rest. */
  datatype Inst = Inst(sn: int, fetch: int, retire: int, text: string)

  // -------------------------------------------------------- the stable sort of Python

  /** Put an instruction behind all those that are not above it. */
  function Insert(s: seq<Inst>, x: Inst): (r: seq<Inst>)
    ensures |r| == |s| + 1
  {
    if s == [] || s[|s| - 1].sn <= x.sn then s + [x]
    else Insert(s[..|s| - 1], x) + [s[|s| - 1]]
  }

  function StableSort(xs: seq<Inst>): (r: seq<Inst>)
    ensures |r| == |xs|
  {
    if xs == [] then [] else Insert(StableSort(xs[..|xs| - 1]), xs[|xs| - 1])
  }

  predicate InOrder(s: seq<Inst>) {
    |s| <= 1 || (s[|s| - 2].sn <= s[|s| - 1].sn && InOrder(s[..|s| - 1]))
  }

  lemma {:induction false} InOrderPairs(s: seq<Inst>, i: nat, j: nat)
    requires InOrder(s) && i <= j < |s|
    ensures s[i].sn <= s[j].sn
    decreases |s|
  {
    if i < |s| - 1 {
      InOrderPairs(s[..|s| - 1], i, if j < |s| - 1 then j else j - 1);
    }
  }

  lemma {:induction false} InOrderParts(s: seq<Inst>, k: nat)
    requires InOrder(s) && k <= |s|
    ensures InOrder(s[..k]) && InOrder(s[k..])
    decreases |s|
  {
    if k < |s| {
      var n := |s| - 1;
      InOrderParts(s[..n], k);
      assert s[..n][..k] == s[..k] && s[..n][k..] == s[k..][..n - k];
    } else {
      assert s[..k] == s;
    }
  }

  /** The instructions with a given sequence number, in order. */
  function OfNumber(s: seq<Inst>, v: int): seq<Inst> {
    if s == [] then []
    else OfNumber(s[..|s| - 1], v) + if s[|s| - 1].sn == v then [s[|s| - 1]] else []
  }

  lemma InOrderAppend(s: seq<Inst>, x: Inst)
    requires InOrder(s) && (s == [] || s[|s| - 1].sn <= x.sn)
    ensures InOrder(s + [x])
  {
    assert (s + [x])[..|s|] == s;
  }

  lemma {:induction false} InsertInOrder(s: seq<Inst>, x: Inst)
    requires InOrder(s)
    ensures InOrder(Insert(s, x))
  {
    if s == [] || s[|s| - 1].sn <= x.sn {
      InOrderAppend(s, x);
    } else {
      var n := |s| - 1;
      InsertInOrder(s[..n], x);
      InOrderAppend(Insert(s[..n], x), s[n]);
    }
  }

  lemma InsertLast(s: seq<Inst>, x: Inst)
    requires s == [] || s[|s| - 1].sn <= x.sn
    ensures Insert(s, x) == s + [x]
  {
  }

  lemma SortAppend(xs: seq<Inst>, x: Inst)
    ensures StableSort(xs + [x]) == Insert(StableSort(xs), x)
  {
    assert (xs + [x])[..|xs|] == xs;
  }

  lemma {:induction false} SortInOrder(xs: seq<Inst>)
    ensures InOrder(StableSort(xs))
  {
    if xs != [] {
      SortInOrder(xs[..|xs| - 1]);
      InsertInOrder(StableSort(xs[..|xs| - 1]), xs[|xs| - 1]);
    }
  }

  lemma OfNumberAppend(s: seq<Inst>, x: Inst, v: int)
    ensures OfNumber(s + [x], v) == OfNumber(s, v) + if x.sn == v then [x] else []
  {
    assert (s + [x])[..|s|] == s;
  }

  lemma {:induction false} InsertIsStable(s: seq<Inst>, x: Inst, v: int)
    ensures OfNumber(Insert(s, x), v) == OfNumber(s, v) + if x.sn == v then [x] else []
  {
    if s == [] || s[|s| - 1].sn <= x.sn {
      OfNumberAppend(s, x, v);
    } else {
      var t, y := s[..|s| - 1], s[|s| - 1];
      InsertIsStable(t, x, v);
      OfNumberAppend(Insert(t, x), y, v);
      if x.sn == v {
        assert OfNumber(t, v) + [x] + [] == OfNumber(t, v) + [] + [x];
      } else {
        assert OfNumber(t, v) + [] == OfNumber(t, v);
        assert OfNumber(s, v) + [] == OfNumber(s, v);
      }
    }
  }

  /** Equal sequence numbers keep their order; so nothing is lost either. */
  lemma {:induction false} SortIsStable(xs: seq<Inst>, v: int)
    ensures OfNumber(StableSort(xs), v) == OfNumber(xs, v)
  {
    if xs != [] {
      var n := |xs| - 1;
      SortIsStable(xs[..n], v);
      InsertIsStable(StableSort(xs[..n]), xs[n], v);
    }
  }

  lemma PrefixStep(s: seq<Inst>, k: nat)
    requires k < |s|
    ensures s[..k + 1] == s[..k] + [s[k]]
  {
  }

  lemma SortedStep(s: seq<Inst>, k: nat)
    requires k < |s| && StableSort(s[..k]) == s[..k] && (k > 0 ==> s[k - 1].sn <= s[k].sn)
    ensures StableSort(s[..k + 1]) == s[..k + 1]
  {
    PrefixStep(s, k);
    SortAppend(s[..k], s[k]);
    InsertLast(s[..k], s[k]);
  }

  lemma {:induction false} SortOfFirst(s: seq<Inst>, k: nat)
    requires InOrder(s) && k <= |s|
    ensures StableSort(s[..k]) == s[..k]
  {
    if k > 0 {
      SortOfFirst(s, k - 1);
      InOrderPairs(s, if k > 1 then k - 2 else k - 1, k - 1);
      SortedStep(s, k - 1);
    }
  }

  lemma SortOfSorted(s: seq<Inst>)
    requires InOrder(s)
    ensures StableSort(s) == s
  {
    SortOfFirst(s, |s|);
    assert s[..|s|] == s;
  }

  // ------------------------------------------------------------------------ counting

  /** How many instructions have a sequence number of at most `v`. */
  function CountUpTo(s: seq<Inst>, v: int): (c: nat)
    ensures c <= |s|
  {
    if s == [] then 0
    else CountUpTo(s[..|s| - 1], v) + if s[|s| - 1].sn <= v then 1 else 0
  }

  lemma {:induction false} CountOfConcat(a: seq<Inst>, b: seq<Inst>, v: int)
    ensures CountUpTo(a + b, v) == CountUpTo(a, v) + CountUpTo(b, v)
  {
    if b == [] {
      assert a + b == a;
    } else {
      assert (a + b)[..|a + b| - 1] == a + b[..|b| - 1];
      CountOfConcat(a, b[..|b| - 1], v);
    }
  }

  lemma {:induction false} CountInsert(s: seq<Inst>, x: Inst, v: int)
    ensures CountUpTo(Insert(s, x), v) == CountUpTo(s, v) + if x.sn <= v then 1 else 0
  {
    if s == [] || s[|s| - 1].sn <= x.sn {
      assert (s + [x])[..|s|] == s;
    } else {
      var n := |s| - 1;
      CountInsert(s[..n], x, v);
      assert (Insert(s[..n], x) + [s[n]])[..n + 1] == Insert(s[..n], x);
    }
  }

  lemma {:induction false} CountSort(xs: seq<Inst>, v: int)
    ensures CountUpTo(StableSort(xs), v) == CountUpTo(xs, v)
  {
    if xs != [] {
      CountSort(xs[..|xs| - 1], v);
      CountInsert(StableSort(xs[..|xs| - 1]), xs[|xs| - 1], v);
    }
  }

  lemma {:induction false} CountNone(s: seq<Inst>, v: int)
    requires InOrder(s) && (s == [] || s[0].sn > v)
    ensures CountUpTo(s, v) == 0
  {
    if s != [] {
      InOrderPairs(s, 0, |s| - 1);
      CountNone(s[..|s| - 1], v);
    }
  }

  lemma {:induction false} CountAll(s: seq<Inst>, v: int)
    requires InOrder(s) && (s == [] || s[|s| - 1].sn <= v)
    ensures CountUpTo(s, v) == |s|
  {
    if s != [] {
      CountAll(s[..|s| - 1], v);
    }
  }

  /** In a sorted sequence, the count tells where `v` lies. */
  lemma CountTellsPlace(s: seq<Inst>, k: nat, v: int)
    requires InOrder(s) && 0 < k <= |s|
    ensures s[k - 1].sn <= v <==> k <= CountUpTo(s, v)
  {
    if s[k - 1].sn <= v {
      assert s == s[..k] + s[k..];
      CountOfConcat(s[..k], s[k..], v);
      InOrderParts(s, k);
      CountAll(s[..k], v);
    } else {
      assert s == s[..k - 1] + s[k - 1..];
      CountOfConcat(s[..k - 1], s[k - 1..], v);
      InOrderParts(s, k - 1);
      CountNone(s[k - 1..], v);
    }
  }

  // ------------------------------------------------------------------------- the run

  /** What is in the queue, and what has been taken from it so far. */
  datatype State = State(queue: seq<Inst>, popped: seq<Inst>)

  /** print_insts: sort the queue, and take from it until `lower` are left. */
  function Flush(st: State, lower: nat): State {
    var s := StableSort(st.queue);
    var k := if |s| > lower then |s| - lower else 0;
    State(s[k..], st.popped + s[..k])
  }

  /** queue_inst. */
  function Step(min: nat, max: nat, st: State, x: Inst): State {
    var st' := State(st.queue + [x], st.popped);
    if |st'.queue| > max then Flush(st', min) else st'
  }

  function Run(min: nat, max: nat, xs: seq<Inst>): State {
    if xs == [] then State([], []) else Step(min, max, Run(min, max, xs[..|xs| - 1]), xs[|xs| - 1])
  }

  /** The number of instructions taken from the queue after `n` arrivals. */
  function PoppedBy(min: nat, max: nat, n: nat): (p: nat)
    ensures p <= n
  {
    if n == 0 then 0
    else
      var p := PoppedBy(min, max, n - 1);
      if n - p > max && n - p > min then n - min else p
  }

  /** Everything taken from the queue, with the drain at the end of the trace. */
  function Output(min: nat, max: nat, xs: seq<Inst>): seq<Inst> {
    Flush(Run(min, max, xs), 0).popped
  }

  /** An arrival is queued, and nothing else happens while no more than `max` are waiting;
      otherwise the smallest are taken until `min` are left. */
  lemma StepCounts(min: nat, max: nat, st: State, x: Inst)
    ensures |st.queue| + 1 <= max ==> Step(min, max, st, x) == State(st.queue + [x], st.popped)
    ensures |st.queue| + 1 > max && |st.queue| + 1 >= min ==>
              var r := Step(min, max, st, x);
              && |r.queue| == min && |r.popped| == |st.popped| + |st.queue| + 1 - min && st.popped <= r.popped
              && r.popped[|st.popped|..] + r.queue == StableSort(st.queue + [x])
  {
    var s := StableSort(st.queue + [x]);
    if |st.queue| + 1 > max && |st.queue| + 1 >= min {
      var k := |s| - min;
      assert (st.popped + s[..k])[|st.popped|..] == s[..k];
      assert s[..k] + s[k..] == s;
    }
  }

  lemma {:induction false} RunCounts(min: nat, max: nat, xs: seq<Inst>)
    ensures |Run(min, max, xs).popped| == PoppedBy(min, max, |xs|)
    ensures |Run(min, max, xs).queue| == |xs| - PoppedBy(min, max, |xs|)
  {
    if xs != [] {
      RunCounts(min, max, xs[..|xs| - 1]);
    }
  }

  /** Of every sequence number, as many instructions are in the queue or taken as
      have arrived. */
  lemma {:induction false} RunConserves(min: nat, max: nat, xs: seq<Inst>, v: int)
    ensures var st := Run(min, max, xs);
            CountUpTo(st.popped, v) + CountUpTo(st.queue, v) == CountUpTo(xs, v)
  {
    if xs != [] {
      var n := |xs| - 1;
      RunConserves(min, max, xs[..n], v);
      var st := Run(min, max, xs[..n]);
      var q := st.queue + [xs[n]];
      CountOfConcat(st.queue, [xs[n]], v);
      assert [xs[n]][..0] == [];
      FlushConserves(State(q, st.popped), min, v);
    }
  }

  lemma FlushConserves(st: State, lower: nat, v: int)
    ensures var r := Flush(st, lower);
            CountUpTo(r.popped, v) + CountUpTo(r.queue, v) == CountUpTo(st.popped, v) + CountUpTo(st.queue, v)
  {
    var s := StableSort(st.queue);
    var k := if |s| > lower then |s| - lower else 0;
    CountSort(st.queue, v);
    assert s == s[..k] + s[k..];
    CountOfConcat(s[..k], s[k..], v);
    CountOfConcat(st.popped, s[..k], v);
  }

  lemma {:induction false} InsertPermutes(s: seq<Inst>, x: Inst)
    ensures multiset(Insert(s, x)) == multiset(s) + multiset{x}
  {
    if s != [] && s[|s| - 1].sn > x.sn {
      InsertPermutes(s[..|s| - 1], x);
      SplitLast(s);
    }
  }

  lemma {:induction false} SortPermutes(xs: seq<Inst>)
    ensures multiset(StableSort(xs)) == multiset(xs)
  {
    if xs != [] {
      SortPermutes(xs[..|xs| - 1]);
      InsertPermutes(StableSort(xs[..|xs| - 1]), xs[|xs| - 1]);
      SplitLast(xs);
    }
  }

  lemma FlushPermutes(st: State, lower: nat)
    ensures var r := Flush(st, lower);
            multiset(r.popped) + multiset(r.queue) == multiset(st.popped) + multiset(st.queue)
  {
    var s := StableSort(st.queue);
    var k := if |s| > lower then |s| - lower else 0;
    SortPermutes(st.queue);
    assert s == s[..k] + s[k..];
  }

  lemma StepPermutes(min: nat, max: nat, st: State, x: Inst)
    ensures var r := Step(min, max, st, x);
            multiset(r.popped) + multiset(r.queue) == multiset(st.popped) + multiset(st.queue) + multiset{x}
  {
    FlushPermutes(State(st.queue + [x], st.popped), min);
  }

  lemma {:induction false} RunPermutes(min: nat, max: nat, xs: seq<Inst>)
    ensures var st := Run(min, max, xs);
            multiset(st.popped) + multiset(st.queue) == multiset(xs)
  {
    if xs != [] {
      var before, x := xs[..|xs| - 1], xs[|xs| - 1];
      RunPermutes(min, max, before);
      StepPermutes(min, max, Run(min, max, before), x);
      SplitLast(xs);
    }
  }

  /** Every instruction leaves the queue exactly once. */
  lemma OutputPermutes(min: nat, max: nat, xs: seq<Inst>)
    ensures multiset(Output(min, max, xs)) == multiset(xs)
  {
    RunPermutes(min, max, xs);
    FlushPermutes(Run(min, max, xs), 0);
    assert Flush(Run(min, max, xs), 0).queue == [];
  }

  /** What has been taken from the queue stays at the front of the output. */
  lemma {:induction false} PoppedFirst(min: nat, max: nat, xs: seq<Inst>, j: nat)
    requires j <= |xs|
    ensures Run(min, max, xs[..j]).popped <= Run(min, max, xs).popped
  {
    if j == |xs| {
      assert xs[..j] == xs;
    } else {
      PoppedFirst(min, max, xs[..|xs| - 1], j);
      assert xs[..|xs| - 1][..j] == xs[..j];
    }
  }

  // --------------------------------------------------------- when the output is sorted

  /** When instruction `j` arrives, as many of those before it are not above it as
      have been taken from the queue by then. */
  predicate InTime(min: nat, max: nat, xs: seq<Inst>, j: nat)
    requires j < |xs|
  {
    PoppedBy(min, max, j) <= CountUpTo(xs[..j], xs[j].sn)
  }

  /** An instruction not below what is in front goes into the part behind it. */
  lemma {:induction false} InsertBehind(front: seq<Inst>, s: seq<Inst>, x: Inst)
    requires front == [] || front[|front| - 1].sn <= x.sn
    ensures Insert(front + s, x) == front + Insert(s, x)
  {
    if s == [] {
      assert front + s == front;
    } else if s[|s| - 1].sn <= x.sn {
      assert front + s + [x] == front + (s + [x]);
    } else {
      var n := |s| - 1;
      assert (front + s)[..|front + s| - 1] == front + s[..n];
      InsertBehind(front, s[..n], x);
      assert front + (Insert(s[..n], x) + [s[n]]) == front + Insert(s[..n], x) + [s[n]];
    }
  }

  lemma FlushParts(st: State, lower: nat)
    ensures var r := Flush(st, lower);
            r.popped + r.queue == st.popped + StableSort(st.queue)
  {
    var s := StableSort(st.queue);
    var k := if |s| > lower then |s| - lower else 0;
    assert s == s[..k] + s[k..];
    assert st.popped + s[..k] + s[k..] == st.popped + (s[..k] + s[k..]);
  }

  lemma FlushLeavesSorted(st: State, lower: nat)
    ensures StableSort(Flush(st, lower).queue) == Flush(st, lower).queue
  {
    var s := StableSort(st.queue);
    SortInOrder(st.queue);
    InOrderParts(s, if |s| > lower then |s| - lower else 0);
    SortOfSorted(Flush(st, lower).queue);
  }

  lemma FlushKeepsOrder(st: State, lower: nat)
    ensures var r := Flush(st, lower);
            r.popped + StableSort(r.queue) == st.popped + StableSort(st.queue)
  {
    FlushParts(st, lower);
    FlushLeavesSorted(st, lower);
  }

  lemma RunAppend(min: nat, max: nat, xs: seq<Inst>, x: Inst)
    ensures Run(min, max, xs + [x]) == Step(min, max, Run(min, max, xs), x)
  {
    assert (xs + [x])[..|xs|] == xs;
  }

  /** As long as instructions are in time, the queue and what was taken from it are
      together the sorted input. */
  lemma {:induction false} InTimeIsSorted(min: nat, max: nat, xs: seq<Inst>)
    requires forall j :: 0 <= j < |xs| ==> InTime(min, max, xs, j)
    ensures Run(min, max, xs).popped + StableSort(Run(min, max, xs).queue) == StableSort(xs)
  {
    if xs != [] {
      var n := |xs| - 1;
      var before, x := xs[..n], xs[n];
      forall j | 0 <= j < n
        ensures InTime(min, max, before, j)
      {
        assert InTime(min, max, xs, j) && before[..j] == xs[..j];
      }
      InTimeIsSorted(min, max, before);
      assert before + [x] == xs;
      assert InTime(min, max, xs, n);
      NextIsSorted(min, max, before, x);
    }
  }

  lemma NextIsSorted(min: nat, max: nat, xs: seq<Inst>, x: Inst)
    requires Run(min, max, xs).popped + StableSort(Run(min, max, xs).queue) == StableSort(xs)
    requires InTime(min, max, xs + [x], |xs|)
    ensures var st := Run(min, max, xs + [x]);
            st.popped + StableSort(st.queue) == StableSort(xs + [x])
  {
    var st := Run(min, max, xs);
    RunAppend(min, max, xs, x);
    SortAppend(xs, x);
    SortAppend(st.queue, x);
    ArrivesBehind(min, max, xs, x);
    InsertBehind(st.popped, StableSort(st.queue), x);
    FlushKeepsOrder(State(st.queue + [x], st.popped), min);
  }

  lemma ArrivesBehind(min: nat, max: nat, xs: seq<Inst>, x: Inst)
    requires Run(min, max, xs).popped + StableSort(Run(min, max, xs).queue) == StableSort(xs)
    requires InTime(min, max, xs + [x], |xs|)
    ensures var p := Run(min, max, xs).popped;
            p == [] || p[|p| - 1].sn <= x.sn
  {
    var p := Run(min, max, xs).popped;
    assert (xs + [x])[..|xs|] == xs;
    RunCounts(min, max, xs);
    if p != [] {
      SortInOrder(xs);
      CountSort(xs, x.sn);
      CountTellsPlace(StableSort(xs), |p|, x.sn);
    }
  }

  lemma OutputParts(min: nat, max: nat, xs: seq<Inst>)
    ensures Output(min, max, xs) == Run(min, max, xs).popped + StableSort(Run(min, max, xs).queue)
  {
    var s := StableSort(Run(min, max, xs).queue);
    assert s[..|s|] == s;
  }

  /** With a larger instruction already taken, a late one is found too far back. */
  lemma LateIsMissed(min: nat, max: nat, xs: seq<Inst>, j: nat)
    requires j < |xs| && InOrder(Output(min, max, xs))
    ensures var p := Run(min, max, xs[..j]).popped;
            p == [] || p[|p| - 1].sn <= xs[j].sn
  {
    var v := xs[j].sn;
    var p := Run(min, max, xs[..j]).popped;
    if p != [] && p[|p| - 1].sn > v {
      OutputBegins(min, max, xs, j);
      TooFew(Output(min, max, xs), p, v);
      OutputCounts(min, max, xs, v);
      RunConserves(min, max, xs[..j], v);
      CountOfPrefix(xs, j, v);
    }
  }

  lemma OutputBegins(min: nat, max: nat, xs: seq<Inst>, j: nat)
    requires j <= |xs|
    ensures Run(min, max, xs[..j]).popped <= Output(min, max, xs)
  {
    OutputParts(min, max, xs);
    PoppedFirst(min, max, xs, j);
  }

  lemma TooFew(out: seq<Inst>, p: seq<Inst>, v: int)
    requires InOrder(out) && p <= out && p != [] && p[|p| - 1].sn > v
    ensures CountUpTo(out, v) == CountUpTo(p, v)
  {
    assert out == p + out[|p|..];
    CountOfConcat(p, out[|p|..], v);
    InOrderParts(out, |p|);
    if out[|p|..] != [] {
      InOrderPairs(out, |p| - 1, |p|);
    }
    CountNone(out[|p|..], v);
  }

  lemma OutputCounts(min: nat, max: nat, xs: seq<Inst>, v: int)
    ensures CountUpTo(Output(min, max, xs), v) == CountUpTo(xs, v)
  {
    FlushConserves(Run(min, max, xs), 0, v);
    RunConserves(min, max, xs, v);
  }

  lemma CountOfPrefix(xs: seq<Inst>, j: nat, v: int)
    requires j < |xs|
    ensures CountUpTo(xs, v) >= CountUpTo(xs[..j], v) + if xs[j].sn <= v then 1 else 0
  {
    assert xs == xs[..j + 1] + xs[j + 1..] && xs[..j + 1][..j] == xs[..j];
    CountOfConcat(xs[..j + 1], xs[j + 1..], v);
  }

  /** An instruction that is late leaves the output out of order. */
  lemma LateIsUnsorted(min: nat, max: nat, xs: seq<Inst>, j: nat)
    requires j < |xs| && InOrder(Output(min, max, xs))
    ensures InTime(min, max, xs, j)
  {
    var p := Run(min, max, xs[..j]).popped;
    LateIsMissed(min, max, xs, j);
    OutputBegins(min, max, xs, j);
    PrefixCounts(Output(min, max, xs), p, xs[j].sn);
    RunCounts(min, max, xs[..j]);
    RunConserves(min, max, xs[..j], xs[j].sn);
  }

  lemma PrefixCounts(out: seq<Inst>, p: seq<Inst>, v: int)
    requires InOrder(out) && p <= out && (p == [] || p[|p| - 1].sn <= v)
    ensures CountUpTo(p, v) == |p|
  {
    InOrderParts(out, |p|);
    assert out[..|p|] == p;
    CountAll(p, v);
  }

  /** The comment in the program says that output is in order if instructions are not
      out of order for more than the lower threshold.  It is the sorted input, and is
      in order at all, exactly if every instruction is in time. */
  lemma SortedIffInTime(min: nat, max: nat, xs: seq<Inst>)
    ensures Output(min, max, xs) == StableSort(xs) <==> forall j :: 0 <= j < |xs| ==> InTime(min, max, xs, j)
    ensures InOrder(Output(min, max, xs)) <==> Output(min, max, xs) == StableSort(xs)
  {
    SortInOrder(xs);
    OutputParts(min, max, xs);
    if InOrder(Output(min, max, xs)) {
      forall j | 0 <= j < |xs|
        ensures InTime(min, max, xs, j)
      {
        LateIsUnsorted(min, max, xs, j);
      }
      InTimeIsSorted(min, max, xs);
    }
    if forall j :: 0 <= j < |xs| ==> InTime(min, max, xs, j) {
      InTimeIsSorted(min, max, xs);
    }
  }

  /** Then each time the queue is flushed, what has been taken from it is the front of
      the sorted input: the globally smallest instructions. */
  lemma PoppedAreSmallest(min: nat, max: nat, xs: seq<Inst>, j: nat)
    requires j <= |xs| && Output(min, max, xs) == StableSort(xs)
    ensures Run(min, max, xs[..j]).popped == StableSort(xs)[..PoppedBy(min, max, j)]
  {
    PoppedFirst(min, max, xs, j);
    RunCounts(min, max, xs[..j]);
    OutputParts(min, max, xs);
  }

  // --------------------------------------------------------------- bounded disorder

  /** The place of instruction `j` in the sorted input. */
  function Rank(xs: seq<Inst>, j: nat): int
    requires j < |xs|
  {
    var v := xs[j].sn;
    CountUpTo(xs, v - 1) + CountUpTo(xs[..j], v) - CountUpTo(xs[..j], v - 1)
  }

  lemma {:induction false} FirstSmallest(xs: seq<Inst>, lo: nat, hi: nat) returns (m: nat)
    requires lo < hi <= |xs|
    ensures lo <= m < hi
    ensures forall i :: lo <= i < hi ==> xs[m].sn <= xs[i].sn
    ensures forall i :: lo <= i < m ==> xs[m].sn < xs[i].sn
    decreases hi
  {
    if lo + 1 == hi {
      m := lo;
    } else {
      m := FirstSmallest(xs, lo, hi - 1);
      if xs[hi - 1].sn < xs[m].sn {
        m := hi - 1;
      }
    }
  }

  lemma {:induction false} CountZero(xs: seq<Inst>, lo: nat, hi: nat, v: int)
    requires lo <= hi <= |xs| && forall i :: lo <= i < hi ==> xs[i].sn > v
    ensures CountUpTo(xs[..hi], v) == CountUpTo(xs[..lo], v)
  {
    if lo < hi {
      CountZero(xs, lo, hi - 1, v);
      assert xs[..hi][..hi - 1] == xs[..hi - 1];
    }
  }

  lemma {:induction false} CountGrows(xs: seq<Inst>, lo: nat, hi: nat, v: int, w: int)
    requires lo <= hi <= |xs| && v <= w
    ensures CountUpTo(xs[..lo], v) <= CountUpTo(xs[..hi], w)
    decreases hi
  {
    if lo < hi {
      CountGrows(xs, lo, hi - 1, v, w);
      assert xs[..hi][..hi - 1] == xs[..hi - 1];
    } else if lo > 0 {
      CountGrows(xs, lo - 1, lo - 1, v, w);
      assert xs[..lo][..lo - 1] == xs[..lo - 1];
    }
  }

  lemma {:induction false} PoppedLeavesQueue(min: nat, max: nat, n: nat)
    ensures PoppedBy(min, max, n) == 0 || PoppedBy(min, max, n) + min <= n
  {
    if n > 0 {
      PoppedLeavesQueue(min, max, n - 1);
    }
  }

  /** The smallest of the instructions from `from` on has only earlier ones before it. */
  lemma SmallestHasRank(xs: seq<Inst>, from: nat, m: nat)
    requires from <= m < |xs|
    requires forall i :: from <= i < |xs| ==> xs[m].sn <= xs[i].sn
    requires forall i :: from <= i < m ==> xs[m].sn < xs[i].sn
    ensures Rank(xs, m) == CountUpTo(xs[..from], xs[m].sn)
  {
    var v := xs[m].sn;
    assert xs[..|xs|] == xs;
    CountZero(xs, from, |xs|, v - 1);
    CountZero(xs, from, m, v - 1);
    CountZero(xs, from, m, v);
  }

  /** The assumption that the program states: no instruction arrives more than `min`
      places after its rank.  Then every instruction is in time. */
  lemma BoundedDisorderInTime(min: nat, max: nat, xs: seq<Inst>, j: nat)
    requires j < |xs| && forall i :: 0 <= i < |xs| ==> i - min <= Rank(xs, i)
    ensures InTime(min, max, xs, j)
  {
    var p := PoppedBy(min, max, j);
    PoppedLeavesQueue(min, max, j);
    if p > 0 {
      var m := FirstSmallest(xs, p + min, |xs|);
      SmallestHasRank(xs, p + min, m);
      CountGrows(xs, p + min, j, xs[m].sn, xs[j].sn);
    }
  }

  /** So the output is the sorted input, whatever the thresholds. */
  lemma BoundedDisorderSorts(min: nat, max: nat, xs: seq<Inst>)
    requires forall i :: 0 <= i < |xs| ==> i - min <= Rank(xs, i)
    ensures Output(min, max, xs) == StableSort(xs)
  {
    forall j | 0 <= j < |xs|
      ensures InTime(min, max, xs, j)
    {
      BoundedDisorderInTime(min, max, xs, j);
    }
    SortedIffInTime(min, max, xs);
  }

  // ---------------------------------------------------------------------- the program

  /** The limits given on the command line; zero means no limit. */
  datatype Limits = Limits(snStart: int, snStop: int, tickStart: int, tickStop: int, onlyCommitted: bool)

  predicate Shown(l: Limits, x: Inst) {
    && (l.snStart > 0 ==> x.sn >= l.snStart)
    && (l.snStop > 0 ==> x.sn <= l.snStop)
    && (l.tickStart > 0 ==> x.fetch >= l.tickStart)
    && (l.tickStop > 0 ==> x.fetch <= l.tickStop)
    && (l.onlyCommitted ==> x.retire != 0)
  }

  function ShownOf(l: Limits, s: seq<Inst>): seq<Inst> {
    if s == [] then []
    else ShownOf(l, s[..|s| - 1]) + if Shown(l, s[|s| - 1]) then [s[|s| - 1]] else []
  }

  lemma ShownAppend(l: Limits, s: seq<Inst>, x: Inst)
    ensures ShownOf(l, s + [x]) == ShownOf(l, s) + if Shown(l, x) then [x] else []
  {
    assert (s + [x])[..|s|] == s;
  }

  /** What is shown of two parts is what is shown of each, in order. */
  lemma {:induction false} ShownOfConcat(l: Limits, a: seq<Inst>, b: seq<Inst>)
    ensures ShownOf(l, a + b) == ShownOf(l, a) + ShownOf(l, b)
    ensures |b| == 1 ==> ShownOf(l, b) == if Shown(l, b[0]) then b else []
  {
    if b == [] {
      assert a + b == a;
    } else {
      var n := |b| - 1;
      ShownOfConcat(l, a, b[..n]);
      assert (a + b)[..|a + b| - 1] == a + b[..n];
    }
  }

  /** Instructions at a limit are shown, those next to it are not; without limits all
      are. */
  lemma LimitsAreInclusive(x: Inst)
    requires x.sn > 1 && x.fetch > 1 && x.retire != 0
    ensures Shown(Limits(x.sn, x.sn, x.fetch, x.fetch, true), x)
    ensures !Shown(Limits(x.sn + 1, 0, 0, 0, false), x) && !Shown(Limits(0, x.sn - 1, 0, 0, false), x)
    ensures !Shown(Limits(0, 0, x.fetch + 1, 0, false), x) && !Shown(Limits(0, 0, 0, x.fetch - 1, false), x)
    ensures !Shown(Limits(0, 0, 0, 0, true), x.(retire := 0)) && Shown(Limits(0, 0, 0, 0, false), x.(retire := 0))
  {
  }

  lemma MoveFirst(a: seq<Inst>, b: seq<Inst>)
    requires b != []
    ensures a + b == a + [b[0]] + b[1..]
  {
  }

  lemma SplitConcat(a: seq<Inst>, b: seq<Inst>, c: seq<Inst>, d: seq<Inst>)
    requires a + b == c + d && |b| <= |d|
    ensures b == d[|d| - |b|..] && a == c + d[..|d| - |b|]
  {
    assert (a + b)[..|a|] == a && (a + b)[|a|..] == b;
    assert (c + d)[|a|..] == d[|d| - |b|..];
  }

  /** The queue and the output file. */
  class Viewer {
    const min: nat
    const max: nat
    const limits: Limits
    var queue: seq<Inst>
    var outfile: seq<Inst>
    ghost var popped: seq<Inst>

    constructor (min: nat, max: nat, limits: Limits)
      ensures this.min == min && this.max == max && this.limits == limits
      ensures queue == [] && outfile == [] && popped == []
    {
      this.min, this.max, this.limits := min, max, limits;
      queue, outfile, popped := [], [], [];
    }

    /** Every instruction taken from the queue is either printed or filtered out, once. */
    ghost predicate Valid()
      reads this
    {
      outfile == ShownOf(limits, popped)
    }

    ghost function Contents(): State
      reads this
    {
      State(queue, popped)
    }

    /** Take an instruction from the queue, and print it unless it is filtered out. */
    method TakeFirst()
      requires Valid() && queue != []
      modifies this
      ensures Valid() && queue == old(queue)[1..] && popped == old(popped) + [old(queue)[0]]
    {
      var item := queue[0];
      ShownAppend(limits, popped, item);
      queue, popped := queue[1..], popped + [item];
      if Shown(limits, item) {
        outfile := outfile + [item];
      }
    }

    /** The loop of print_insts. */
    method TakeDownTo(lower: nat)
      requires Valid()
      modifies this
      ensures Valid()
      ensures var k := if old(|queue|) > lower then old(|queue|) - lower else 0;
              queue == old(queue)[k..] && popped == old(popped) + old(queue)[..k]
    {
      ghost var s, before := queue, popped;
      while |queue| > lower
        invariant |queue| <= |s| && (queue == s || |queue| >= lower)
        invariant popped + queue == before + s
        invariant Valid()
      {
        MoveFirst(popped, queue);
        TakeFirst();
      }
      SplitConcat(popped, queue, before, s);
    }

    /** print_insts. */
    method PrintInsts(lower: nat)
      requires Valid()
      modifies this
      ensures Valid() && Contents() == Flush(old(Contents()), lower)
    {
      queue := StableSort(queue);
      TakeDownTo(lower);
    }

    /** queue_inst. */
    method QueueInst(x: Inst)
      requires Valid()
      modifies this
      ensures Valid() && Contents() == Step(min, max, old(Contents()), x)
    {
      queue := queue + [x];
      if |queue| > max {
        PrintInsts(min);
      }
    }

    /** The main loop, over the instructions that retire, up to the end of the trace. */
    method ProcessTrace(xs: seq<Inst>)
      requires Valid() && queue == [] && popped == []
      modifies this
      ensures Valid() && queue == [] && popped == Output(min, max, xs)
      ensures outfile == ShownOf(limits, Output(min, max, xs))
    {
      var i := 0;
      while i < |xs|
        invariant 0 <= i <= |xs| && Valid() && Contents() == Run(min, max, xs[..i])
      {
        RunAppend(min, max, xs[..i], xs[i]);
        PrefixStep(xs, i);
        QueueInst(xs[i]);
        i := i + 1;
      }
      assert xs[..|xs|] == xs;
      PrintInsts(0);
    }
  }
}
