/** fdt_next_node of fdt.c on a stream of tokens: the walk over the nodes of a
    device tree.  Fdt supplies the tokens from the bytes of a structure block. */
module DeviceTree {
  import opened Basics
  import opened Alignment

  const BEGIN_NODE := 1
  const END_NODE := 2
  const PROP := 3
  const NOP := 4
  const END := 9
  const ERR_NOTFOUND := 1
  const ERR_BADOFFSET := 4
  const ERR_TRUNCATED := 8

  /** A tag and the offset of the next one, or END and an error code. */
  datatype Token = Token(tag: nat, next: int)

  /** The token at each offset, and a bound on the offsets of tokens. */
  datatype Stream = Stream(at: int -> Token, bound: nat)

  /** Where fdt_next_node ends up: at a node, past the end of the outermost node, at
      an error, or never. */
  datatype Visit = At(offset: int, depth: int) | Out(offset: int, depth: int) | Fail(code: int, depth: int) | Never

  /** The depth inside a node, if depths are counted. */
  function Deeper(counted: bool, depth: int): int {
    if counted then depth + 1 else depth
  }

  function Shallower(counted: bool, depth: int): int {
    if counted then depth - 1 else depth
  }

  /** The loop of fdt_next_node from `offset`; `counted` if the caller wants depths. */
  function Scan(s: Stream, offset: nat, counted: bool, depth: int): Visit
    decreases s.bound - offset
  {
    var t := s.at(offset);
    if t.tag == BEGIN_NODE then At(offset, Deeper(counted, depth))
    else if t.tag == END then Fail(EndCode(t.next, counted), depth)
    else if t.tag == END_NODE && counted && depth - 1 < 0 then Out(t.next, depth - 1)
    else if t.next <= offset || t.next > s.bound then Never
    else Scan(s, t.next, counted, if t.tag == END_NODE then Shallower(counted, depth) else depth)
  }

  /** The result at the end of the tree, or at an error. */
  function EndCode(next: int, counted: bool): int {
    if next >= 0 || (next == -ERR_TRUNCATED && !counted) then -ERR_NOTFOUND else next
  }

  // ----------------------------------------------------------------------- trees

  /** The contents of a node: properties, padding words and nodes in any order. */
  datatype Items = Nil | Cons(head: Item, tail: Items)
  datatype Item = Prop(nameoff: nat, data: seq<Byte>) | Nop | Node(name: seq<Byte>, body: Items)

  /** The sizes of properties and of the beginnings of nodes. */
  datatype Sizes = Sizes(prop: (nat, seq<Byte>) -> nat, begin: seq<Byte> -> nat)

  function SizeOf(z: Sizes, x: Item): nat {
    match x
    case Nop => 4
    case Prop(nameoff, data) => z.prop(nameoff, data)
    case Node(name, body) => z.begin(name) + TotalSize(z, body) + 4
  }

  function TotalSize(z: Sizes, xs: Items): nat {
    match xs
    case Nil => 0
    case Cons(x, rest) => SizeOf(z, x) + TotalSize(z, rest)
  }

  /** The token at `offset` has the given tag and size. */
  predicate Reads(s: Stream, offset: nat, tag: nat, size: nat) {
    0 < size && offset + size <= s.bound && s.at(offset) == Token(tag, offset + size)
  }

  /** The tokens from `base` on are those of the tree. */
  ghost predicate Laid(s: Stream, z: Sizes, xs: Items, base: nat)
    decreases xs
  {
    match xs
    case Nil => true
    case Cons(x, rest) => LaidItem(s, z, x, base) && Laid(s, z, rest, base + SizeOf(z, x))
  }

  ghost predicate LaidItem(s: Stream, z: Sizes, x: Item, base: nat)
    decreases x
  {
    match x
    case Nop => Reads(s, base, NOP, 4)
    case Prop(nameoff, data) => Reads(s, base, PROP, z.prop(nameoff, data))
    case Node(name, body) =>
      && Reads(s, base, BEGIN_NODE, z.begin(name))
      && Laid(s, z, body, base + z.begin(name))
      && Reads(s, base + z.begin(name) + TotalSize(z, body), END_NODE, 4)
  }

  /** A node to be visited. */
  datatype Place = Place(offset: nat, depth: int)

  /** The nodes among `xs` and below, in preorder; `xs` lies at `base` in a node of the
      given depth. */
  function Preorder(z: Sizes, xs: Items, base: nat, counted: bool, depth: int): seq<Place> {
    match xs
    case Nil => []
    case Cons(x, rest) =>
      PreorderItem(z, x, base, counted, depth) + Preorder(z, rest, base + SizeOf(z, x), counted, depth)
  }

  function PreorderItem(z: Sizes, x: Item, base: nat, counted: bool, depth: int): seq<Place> {
    if x.Node?
    then [Place(base, Deeper(counted, depth))]
         + Preorder(z, x.body, base + z.begin(x.name), counted, Deeper(counted, depth))
    else []
  }

  // -------------------------------------------------------------------- the walk

  /** fdt_next_node after the node at `offset`; anything else there is a bad offset. */
  function After(s: Stream, offset: nat, counted: bool, depth: int): Visit {
    var t := s.at(offset);
    if t.tag != BEGIN_NODE then Fail(-ERR_BADOFFSET, depth)
    else if t.next < 0 then Never
    else Scan(s, t.next, counted, depth)
  }

  /** Repeated calls of fdt_next_node: from what one call yields, the nodes of `ps` in
      order, and then `to`. */
  ghost predicate Walks(s: Stream, counted: bool, from: Visit, ps: seq<Place>, to: Visit)
    decreases |ps|
  {
    if ps == [] then from == to
    else
      && from == At(ps[0].offset, ps[0].depth)
      && Walks(s, counted, After(s, ps[0].offset, counted, ps[0].depth), ps[1..], to)
  }

  lemma {:induction false} WalksOn(s: Stream, counted: bool, a: Visit, ps: seq<Place>, b: Visit, qs: seq<Place>,
                                   c: Visit)
    requires Walks(s, counted, a, ps, b) && Walks(s, counted, b, qs, c)
    ensures Walks(s, counted, a, ps + qs, c)
    decreases |ps|
  {
    if ps == [] {
      assert ps + qs == qs;
    } else {
      WalksOn(s, counted, After(s, ps[0].offset, counted, ps[0].depth), ps[1..], b, qs, c);
      assert (ps + qs)[1..] == ps[1..] + qs;
    }
  }

  lemma WalksFirst(s: Stream, counted: bool, p: Place, ps: seq<Place>, to: Visit)
    requires Walks(s, counted, After(s, p.offset, counted, p.depth), ps, to)
    ensures Walks(s, counted, At(p.offset, p.depth), [p] + ps, to)
  {
    assert ([p] + ps)[1..] == ps;
  }

  /** The contents of a node at depth `depth` are walked in preorder. */
  lemma {:induction false} WalkItems(s: Stream, z: Sizes, xs: Items, base: nat, counted: bool, depth: int)
    requires Laid(s, z, xs, base) && (counted ==> depth >= 0)
    ensures Walks(s, counted, Scan(s, base, counted, depth), Preorder(z, xs, base, counted, depth),
                  Scan(s, base + TotalSize(z, xs), counted, depth))
    decreases xs
  {
    match xs
    case Nil =>
    case Cons(x, rest) =>
      var after := base + SizeOf(z, x);
      WalkItem(s, z, x, base, counted, depth);
      WalkItems(s, z, rest, after, counted, depth);
      WalksOn(s, counted, Scan(s, base, counted, depth), PreorderItem(z, x, base, counted, depth),
              Scan(s, after, counted, depth), Preorder(z, rest, after, counted, depth),
              Scan(s, after + TotalSize(z, rest), counted, depth));
  }

  /** Properties and padding are passed over.  A node comes first itself, then its
      contents, and then what follows it. */
  lemma {:induction false} WalkItem(s: Stream, z: Sizes, x: Item, base: nat, counted: bool, depth: int)
    requires LaidItem(s, z, x, base) && (counted ==> depth >= 0)
    ensures Walks(s, counted, Scan(s, base, counted, depth), PreorderItem(z, x, base, counted, depth),
                  Scan(s, base + SizeOf(z, x), counted, depth))
    decreases x
  {
    if x.Node? {
      var inside := base + z.begin(x.name);
      var end := inside + TotalSize(z, x.body);
      WalkItems(s, z, x.body, inside, counted, Deeper(counted, depth));
      assert Scan(s, end, counted, Deeper(counted, depth)) == Scan(s, end + 4, counted, depth);
      WalksFirst(s, counted, Place(base, Deeper(counted, depth)),
                 Preorder(z, x.body, inside, counted, Deeper(counted, depth)), Scan(s, end + 4, counted, depth));
    }
  }

  /** Starting at the root with depth 0, fdt_next_node returns every other node once, in
      preorder, with its depth, and then the offset past the root with depth -1. */
  lemma WalkTree(s: Stream, z: Sizes, root: Item, base: nat)
    requires root.Node? && LaidItem(s, z, root, base)
    ensures Walks(s, true, After(s, base, true, 0), Preorder(z, root.body, base + z.begin(root.name), true, 0),
                  Out(base + SizeOf(z, root), -1))
  {
    WalkItems(s, z, root.body, base + z.begin(root.name), true, 0);
  }

  /** Without depths, the walk goes on to the end of the tree and finds nothing more. */
  lemma WalkTreeUncounted(s: Stream, z: Sizes, root: Item, base: nat, depth: int)
    requires root.Node? && LaidItem(s, z, root, base) && Reads(s, base + SizeOf(z, root), END, 4)
    ensures Walks(s, false, After(s, base, false, depth),
                  Preorder(z, root.body, base + z.begin(root.name), false, depth),
                  Fail(-ERR_NOTFOUND, depth))
  {
    WalkItems(s, z, root.body, base + z.begin(root.name), false, depth);
    var end := base + z.begin(root.name) + TotalSize(z, root.body);
    assert Scan(s, end, false, depth) == Scan(s, end + 4, false, depth) == Fail(-ERR_NOTFOUND, depth);
  }

  // ------------------------------------------------------------ each node just once

  /** Offsets in [lo, hi), ascending. */
  ghost predicate Ascends(ps: seq<Place>, lo: nat, hi: nat)
  {
    && (forall i :: 0 <= i < |ps| ==> lo <= ps[i].offset < hi)
    && (forall i, j :: 0 <= i < j < |ps| ==> ps[i].offset < ps[j].offset)
  }

  lemma AscendsOn(ps: seq<Place>, qs: seq<Place>, lo: nat, mid: nat, hi: nat)
    requires Ascends(ps, lo, mid) && Ascends(qs, mid, hi) && lo <= mid <= hi
    ensures Ascends(ps + qs, lo, hi)
  {
  }

  function Nodes(xs: Items): nat {
    match xs
    case Nil => 0
    case Cons(x, rest) => (if x.Node? then 1 + Nodes(x.body) else 0) + Nodes(rest)
  }

  /** The walk meets as many places as there are nodes, each at its own offset. */
  lemma {:induction false} PreorderAscends(s: Stream, z: Sizes, xs: Items, base: nat, counted: bool, depth: int)
    requires Laid(s, z, xs, base)
    ensures |Preorder(z, xs, base, counted, depth)| == Nodes(xs)
    ensures Ascends(Preorder(z, xs, base, counted, depth), base, base + TotalSize(z, xs))
    decreases xs
  {
    match xs
    case Nil =>
    case Cons(x, rest) =>
      var mid := base + SizeOf(z, x);
      PreorderItemAscends(s, z, x, base, counted, depth);
      PreorderAscends(s, z, rest, mid, counted, depth);
      AscendsOn(PreorderItem(z, x, base, counted, depth), Preorder(z, rest, mid, counted, depth),
                base, mid, base + TotalSize(z, xs));
  }

  lemma {:induction false} PreorderItemAscends(s: Stream, z: Sizes, x: Item, base: nat, counted: bool, depth: int)
    requires LaidItem(s, z, x, base)
    ensures |PreorderItem(z, x, base, counted, depth)| == if x.Node? then 1 + Nodes(x.body) else 0
    ensures Ascends(PreorderItem(z, x, base, counted, depth), base, base + SizeOf(z, x))
    decreases x
  {
    if x.Node? {
      var inside := base + z.begin(x.name);
      PreorderAscends(s, z, x.body, inside, counted, Deeper(counted, depth));
      AscendsOn([Place(base, Deeper(counted, depth))],
                Preorder(z, x.body, inside, counted, Deeper(counted, depth)), base, inside, base + SizeOf(z, x));
    }
  }

  // ------------------------------------------------------------------ serialization

  /** The bytes of the parts of a tree. */
  datatype Encoding = Encoding(nop: seq<Byte>, endNode: seq<Byte>, end: seq<Byte>,
                               prop: (nat, seq<Byte>) -> seq<Byte>, begin: seq<Byte> -> seq<Byte>)

  function SerializeItem(c: Encoding, x: Item): seq<Byte> {
    match x
    case Nop => c.nop
    case Prop(nameoff, data) => c.prop(nameoff, data)
    case Node(name, body) => c.begin(name) + Serialize(c, body) + c.endNode
  }

  function Serialize(c: Encoding, xs: Items): seq<Byte> {
    match xs
    case Nil => []
    case Cons(x, rest) => SerializeItem(c, x) + Serialize(c, rest)
  }

  function SizesIn(c: Encoding): Sizes {
    Sizes((nameoff, data) => |c.prop(nameoff, data)|, name => |c.begin(name)|)
  }

  /** Names have no zero bytes. */
  predicate NamesValid(xs: Items) {
    match xs
    case Nil => true
    case Cons(x, rest) => NameValid(x) && NamesValid(rest)
  }

  predicate NameValid(x: Item) {
    x.Node? ==> 0 !in x.name && NamesValid(x.body)
  }

  /** All parts are whole words. */
  ghost predicate InWords(c: Encoding)
  {
    && |c.nop| == 4 && |c.endNode| == 4 && |c.end| == 4
    && (forall nameoff, data :: Aligned(|c.prop(nameoff, data)|, 4))
    && (forall name :: Aligned(|c.begin(name)|, 4))
  }

  /** Wherever a part of a tree stands in the block, the stream has its token. */
  ghost predicate Understood(blk: seq<Byte>, s: Stream, c: Encoding)
  {
    && (forall o: nat {:trigger HasAt(blk, o, c.nop)} ::
          Aligned(o, 4) && HasAt(blk, o, c.nop) ==> Reads(s, o, NOP, 4))
    && (forall o: nat {:trigger HasAt(blk, o, c.endNode)} ::
          Aligned(o, 4) && HasAt(blk, o, c.endNode) ==> Reads(s, o, END_NODE, 4))
    && (forall o: nat {:trigger HasAt(blk, o, c.end)} ::
          Aligned(o, 4) && HasAt(blk, o, c.end) ==> Reads(s, o, END, 4))
    && (forall o: nat, n, d {:trigger HasAt(blk, o, c.prop(n, d))} ::
          Aligned(o, 4) && HasAt(blk, o, c.prop(n, d)) ==> Reads(s, o, PROP, |c.prop(n, d)|))
    && (forall o: nat, name {:trigger HasAt(blk, o, c.begin(name))} ::
          Aligned(o, 4) && HasAt(blk, o, c.begin(name)) && 0 !in name ==>
          Reads(s, o, BEGIN_NODE, |c.begin(name)|))
  }

  lemma {:induction false} SerializedSize(c: Encoding, xs: Items)
    requires InWords(c)
    ensures |Serialize(c, xs)| == TotalSize(SizesIn(c), xs) && Aligned(|Serialize(c, xs)|, 4)
    decreases xs
  {
    match xs
    case Nil =>
    case Cons(x, rest) =>
      SerializedItemSize(c, x);
      SerializedSize(c, rest);
      AlignedSum(|SerializeItem(c, x)|, |Serialize(c, rest)|, 4);
  }

  lemma {:induction false} SerializedItemSize(c: Encoding, x: Item)
    requires InWords(c)
    ensures |SerializeItem(c, x)| == SizeOf(SizesIn(c), x) && Aligned(|SerializeItem(c, x)|, 4)
    decreases x
  {
    assert Aligned(4, 4);
    if x.Node? {
      SerializedSize(c, x.body);
      AlignedSum(|c.begin(x.name)|, |Serialize(c, x.body)|, 4);
      AlignedSum(|c.begin(x.name)| + |Serialize(c, x.body)|, 4, 4);
    }
  }

  /** The tokens of a serialized tree are those of the tree. */
  lemma {:induction false} SerializedIsLaid(blk: seq<Byte>, s: Stream, c: Encoding, xs: Items, base: nat)
    requires InWords(c) && Understood(blk, s, c)
    requires HasAt(blk, base, Serialize(c, xs)) && Aligned(base, 4) && NamesValid(xs)
    ensures Laid(s, SizesIn(c), xs, base)
    decreases xs
  {
    match xs
    case Nil =>
    case Cons(x, rest) =>
      HasParts(blk, base, SerializeItem(c, x), Serialize(c, rest));
      SerializedItemSize(c, x);
      SerializedItemIsLaid(blk, s, c, x, base);
      AlignedSum(base, |SerializeItem(c, x)|, 4);
      SerializedIsLaid(blk, s, c, rest, base + |SerializeItem(c, x)|);
  }

  lemma NodeParts(blk: seq<Byte>, c: Encoding, x: Item, base: nat)
    requires InWords(c) && x.Node? && HasAt(blk, base, SerializeItem(c, x)) && Aligned(base, 4)
    ensures HasAt(blk, base, c.begin(x.name))
    ensures var inside := base + |c.begin(x.name)|;
            && HasAt(blk, inside, Serialize(c, x.body)) && Aligned(inside, 4)
            && HasAt(blk, inside + |Serialize(c, x.body)|, c.endNode) && Aligned(inside + |Serialize(c, x.body)|, 4)
  {
    HasThreeParts(blk, base, c.begin(x.name), Serialize(c, x.body), c.endNode);
    SerializedSize(c, x.body);
    AlignedSums(base, |c.begin(x.name)|, |Serialize(c, x.body)|);
  }

  lemma AlignedSums(base: nat, m: nat, n: nat)
    requires Aligned(base, 4) && Aligned(m, 4) && Aligned(n, 4)
    ensures Aligned(base + m, 4) && Aligned(base + m + n, 4)
  {
    AlignedSum(base, m, 4);
    AlignedSum(base + m, n, 4);
  }

  lemma NodeReads(blk: seq<Byte>, s: Stream, c: Encoding, x: Item, base: nat)
    requires InWords(c) && Understood(blk, s, c) && x.Node? && 0 !in x.name
    requires HasAt(blk, base, SerializeItem(c, x)) && Aligned(base, 4)
    ensures var z := SizesIn(c);
            && Reads(s, base, BEGIN_NODE, z.begin(x.name))
            && Reads(s, base + z.begin(x.name) + TotalSize(z, x.body), END_NODE, 4)
  {
    NodeParts(blk, c, x, base);
    SerializedSize(c, x.body);
    assert Reads(s, base, BEGIN_NODE, |c.begin(x.name)|);
    assert Reads(s, base + |c.begin(x.name)| + |Serialize(c, x.body)|, END_NODE, 4);
  }

  lemma {:induction false} SerializedItemIsLaid(blk: seq<Byte>, s: Stream, c: Encoding, x: Item, base: nat)
    requires InWords(c) && Understood(blk, s, c)
    requires HasAt(blk, base, SerializeItem(c, x)) && Aligned(base, 4) && NameValid(x)
    ensures LaidItem(s, SizesIn(c), x, base)
    decreases x
  {
    match x
    case Nop =>
      assert HasAt(blk, base, c.nop);
    case Prop(nameoff, data) =>
      assert HasAt(blk, base, c.prop(nameoff, data));
    case Node(name, body) =>
      NodeParts(blk, c, x, base);
      NodeReads(blk, s, c, x, base);
      SerializedIsLaid(blk, s, c, body, base + |c.begin(name)|);
  }

  /** The nodes of a serialized tree below its root. */
  function Below(c: Encoding, root: Item, counted: bool, depth: int): seq<Place>
    requires root.Node?
  {
    Preorder(SizesIn(c), root.body, |c.begin(root.name)|, counted, depth)
  }

  /** A serialized tree as a block of its own. */
  lemma RootIsLaid(blk: seq<Byte>, s: Stream, c: Encoding, root: Item)
    requires InWords(c) && Understood(blk, s, c) && NameValid(root) && blk == SerializeItem(c, root) + c.end
    ensures LaidItem(s, SizesIn(c), root, 0)
    ensures |SerializeItem(c, root)| == SizeOf(SizesIn(c), root)
    ensures Reads(s, SizeOf(SizesIn(c), root), END, 4)
  {
    assert blk[0..|blk|] == blk;
    HasParts(blk, 0, SerializeItem(c, root), c.end);
    SerializedItemIsLaid(blk, s, c, root, 0);
    SerializedItemSize(c, root);
  }

  /** On the serialized form of any tree, the walk from the root with depth 0 meets every
      other node once, in preorder and with its depth, and then leaves the root. */
  lemma WalkSerialized(blk: seq<Byte>, s: Stream, c: Encoding, root: Item)
    requires InWords(c) && Understood(blk, s, c) && root.Node? && NameValid(root)
    requires blk == SerializeItem(c, root) + c.end
    ensures Walks(s, true, After(s, 0, true, 0), Below(c, root, true, 0), Out(|SerializeItem(c, root)|, -1))
  {
    RootIsLaid(blk, s, c, root);
    WalkTree(s, SizesIn(c), root, 0);
  }

  lemma BelowAscends(blk: seq<Byte>, s: Stream, c: Encoding, root: Item)
    requires InWords(c) && Understood(blk, s, c) && root.Node? && NameValid(root)
    requires blk == SerializeItem(c, root) + c.end
    ensures |Below(c, root, true, 0)| == Nodes(root.body)
    ensures Ascends(Below(c, root, true, 0), |c.begin(root.name)|, |SerializeItem(c, root)|)
  {
    RootIsLaid(blk, s, c, root);
    PreorderAscends(s, SizesIn(c), root.body, |c.begin(root.name)|, true, 0);
  }

  /** Without depths it ends with "not found". */
  lemma WalkSerializedUncounted(blk: seq<Byte>, s: Stream, c: Encoding, root: Item, depth: int)
    requires InWords(c) && Understood(blk, s, c) && root.Node? && NameValid(root)
    requires blk == SerializeItem(c, root) + c.end
    ensures Walks(s, false, After(s, 0, false, depth), Below(c, root, false, depth), Fail(-ERR_NOTFOUND, depth))
  {
    RootIsLaid(blk, s, c, root);
    WalkTreeUncounted(s, SizesIn(c), root, 0, depth);
  }
}
