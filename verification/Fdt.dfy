/** The tokens of the structure block of a flattened device tree: fdt_offset_ptr,
    fdt_next_tag and fdt_next_node of fdt.c, for version 17 and a structure block
    of fewer than 2^31 bytes. */
module Fdt {
  import opened Basics
  import opened Alignment
  import opened DeviceTree

  type Block = b: seq<Byte> | |b| <= 0x7FFF_FFFC

  const ERR_BADSTRUCTURE := 11
  const WORD := 0x1_0000_0000

  // ---------------------------------------------------------------- the tokens

  /** fdt_offset_ptr, with the wrap-around of 32-bit sums. */
  predicate OffsetPtr(blk: Block, offset: int, len: nat) {
    var u := offset % WORD;
    var end := (u + len) % WORD;
    end >= u && end <= |blk|
  }

  predicate Within(blk: Block, offset: int, len: nat) {
    0 <= offset && offset + len <= |blk|
  }

  /** It accepts exactly the ranges that lie in the block. */
  lemma OffsetPtrIsBounds(blk: Block, offset: int, len: nat)
    requires -0x8000_0000 <= offset < 0x8000_0000 && len < WORD
    ensures OffsetPtr(blk, offset, len) <==> Within(blk, offset, len)
  {
    var u := offset % WORD;
    assert u == if offset < 0 then offset + WORD else offset;
    assert (u + len) % WORD == if u + len < WORD then u + len else u + len - WORD;
  }

  /** A big-endian 32-bit number. */
  function U32(blk: Block, offset: int): nat
    requires Within(blk, offset, 4)
  {
    FromBytes(blk[offset], blk[offset + 1], blk[offset + 2], blk[offset + 3])
  }

  function FromBytes(a: int, b: int, c: int, d: int): int {
    ((a * 256 + b) * 256 + c) * 256 + d
  }

  /** FDT_TAGALIGN. */
  function Align(x: nat): nat {
    (x + 3) / 4 * 4
  }

  /** Just past the first zero byte from `offset` on, or past the end. */
  function NameEnd(blk: Block, offset: nat): (r: nat)
    ensures offset < |blk| ==> offset < r <= |blk| + 1
    decreases |blk| - offset
  {
    if offset >= |blk| then |blk| + 1
    else if blk[offset] == 0 then offset + 1
    else NameEnd(blk, offset + 1)
  }

  /** How far the token at `start` reaches, or -1 if that cannot be told. */
  function Advance(blk: Block, start: nat): (r: int)
    requires Within(blk, start, 4)
    ensures -1 <= r < WORD
  {
    var tag := U32(blk, start);
    if tag == BEGIN_NODE then
      if NameEnd(blk, start + 4) > |blk| then -1 else NameEnd(blk, start + 4) - start
    else if tag == PROP then
      if !Within(blk, start + 4, 4) then -1 else (12 + U32(blk, start + 4)) % WORD
    else if tag == END || tag == END_NODE || tag == NOP then 4
    else -1
  }

  function NextTag(blk: Block, start: int): Token {
    if !Within(blk, start, 4) then Token(END, -ERR_TRUNCATED)
    else
      var n := Advance(blk, start);
      if n < 0 || start + n > |blk| then Token(END, -ERR_BADSTRUCTURE)
      else Token(U32(blk, start), Align(start + n))
  }

  /** fdt_next_tag. */
  method ReadTag(blk: Block, start: int) returns (tag: nat, next: int)
    requires -0x8000_0000 <= start < 0x8000_0000
    ensures Token(tag, next) == NextTag(blk, start)
  {
    OffsetPtrIsBounds(blk, start, 4);
    if !OffsetPtr(blk, start, 4) {
      return END, -ERR_TRUNCATED;
    }
    tag := U32(blk, start);
    var offset := start + 4;
    if tag == BEGIN_NODE {
      var more := true;
      while more
        invariant start + 4 <= offset <= |blk| + 1
        invariant more ==> offset <= |blk| && NameEnd(blk, start + 4) == NameEnd(blk, offset)
        invariant !more ==> offset == NameEnd(blk, start + 4)
        decreases |blk| + 1 - offset
      {
        OffsetPtrIsBounds(blk, offset, 1);
        var p := OffsetPtr(blk, offset, 1);
        offset := offset + 1;
        more := p && blk[offset - 1] != 0;
      }
      if offset > |blk| {
        return END, -ERR_BADSTRUCTURE;
      }
    } else if tag == PROP {
      OffsetPtrIsBounds(blk, offset, 4);
      if !OffsetPtr(blk, offset, 4) {
        return END, -ERR_BADSTRUCTURE;
      }
      offset := start + (offset - start + 8 + U32(blk, offset)) % WORD;
    } else if tag != END && tag != END_NODE && tag != NOP {
      return END, -ERR_BADSTRUCTURE;
    }
    OffsetPtrIsBounds(blk, start, offset - start);
    if !OffsetPtr(blk, start, offset - start) {
      return END, -ERR_BADSTRUCTURE;
    }
    next := Align(offset);
  }

  /** A property whose length makes the sum of its parts wrap around to zero. */
  predicate Wraps(blk: Block, start: int) {
    && Within(blk, start, 8)
    && U32(blk, start) == PROP
    && U32(blk, start + 4) == 0xFFFF_FFF4
  }

  /** Every token leads on to a later, aligned offset, with that one exception. */
  lemma TagAdvances(blk: Block, start: int)
    requires NextTag(blk, start).next >= 0
    ensures NextTag(blk, start).next % 4 == 0 && 0 <= start
    ensures NextTag(blk, start).next <= Align(|blk|)
    ensures start % 4 == 0 ==> (NextTag(blk, start).next > start <==> !Wraps(blk, start))
    ensures start % 4 == 0 && Wraps(blk, start) ==> NextTag(blk, start).next == start
  {
    var n := Advance(blk, start);
    AlignBounds(start + n, |blk|);
  }

  /** The name that starts at `at` has its zero byte in the block. */
  ghost predicate Terminated(blk: Block, at: nat)
  {
    exists i :: at <= i < |blk| && blk[i] == 0
  }

  lemma {:induction false} NameEndIff(blk: Block, at: nat)
    ensures NameEnd(blk, at) <= |blk| <==> Terminated(blk, at)
    decreases |blk| - at
  {
    if at < |blk| && blk[at] != 0 {
      NameEndIff(blk, at + 1);
    }
  }

  /** A word that is no tag, a name without an end, or a property that the block does not
      hold. */
  ghost predicate Malformed(blk: Block, start: nat)
    requires Within(blk, start, 4)
  {
    var tag := U32(blk, start);
    if tag == BEGIN_NODE then !Terminated(blk, start + 4)
    else if tag == PROP then
      !Within(blk, start + 4, 4) || start + (12 + U32(blk, start + 4)) % WORD > |blk|
    else tag != END && tag != END_NODE && tag != NOP
  }

  /** Which error is found where: one for words that are not in the block, another for
      those that are and do not begin anything. */
  lemma TagErrors(blk: Block, start: int)
    ensures NextTag(blk, start) == Token(END, -ERR_TRUNCATED) <==> start < 0 || |blk| < start + 4
    ensures NextTag(blk, start) == Token(END, -ERR_BADSTRUCTURE) <==> Within(blk, start, 4) && Malformed(blk, start)
    ensures Within(blk, start, 4) && !Malformed(blk, start) ==> NextTag(blk, start).tag == U32(blk, start)
  {
    if Within(blk, start, 4) {
      NameEndIff(blk, start + 4);
    }
  }

  lemma AlignBounds(x: nat, y: nat)
    ensures Align(x) % 4 == 0 && x <= Align(x) < x + 4
    ensures x <= y ==> Align(x) <= Align(y)
  {
    assert 4 * ((x + 3) / 4) <= x + 3 < 4 * ((x + 3) / 4) + 4;
    assert 4 * ((y + 3) / 4) <= y + 3 < 4 * ((y + 3) / 4) + 4;
  }

  lemma NegativeIsEnd(blk: Block, start: int)
    requires NextTag(blk, start).tag != END
    ensures NextTag(blk, start).next >= 0
  {
  }

  // --------------------------------------------------------------- the next node

  /** The tokens of a block. */
  function Tokens(blk: Block): Stream {
    Stream(o => NextTag(blk, o), Align(|blk|))
  }

  /** fdt_next_node, given the offset of a node, or a negative offset to begin with. */
  function FromNode(blk: Block, start: int, counted: bool, depth: int): Visit {
    if start < 0 then Scan(Tokens(blk), 0, counted, depth)
    else if start % 4 != 0 then Fail(-ERR_BADOFFSET, depth)
    else After(Tokens(blk), start, counted, depth)
  }

  /** How a walk ends that meets no further node: at the end of the tree nothing is found,
      and without depths also at the end of the block; any other error is passed on. */
  lemma WhereItEnds(blk: Block, offset: nat, counted: bool, depth: int)
    ensures |blk| < offset + 4 ==>
              Scan(Tokens(blk), offset, counted, depth)
              == Fail(if counted then -ERR_TRUNCATED else -ERR_NOTFOUND, depth)
    ensures Within(blk, offset, 4) && Malformed(blk, offset) ==>
              Scan(Tokens(blk), offset, counted, depth) == Fail(-ERR_BADSTRUCTURE, depth)
    ensures Within(blk, offset, 4) && U32(blk, offset) == END ==>
              Scan(Tokens(blk), offset, counted, depth) == Fail(-ERR_NOTFOUND, depth)
  {
    TagErrors(blk, offset);
  }

  lemma {:induction false} ScanCodes(blk: Block, offset: nat, counted: bool, depth: int)
    ensures var r := Scan(Tokens(blk), offset, counted, depth);
            r.Fail? ==> r.code in {-ERR_NOTFOUND, -ERR_TRUNCATED, -ERR_BADSTRUCTURE}
    decreases Tokens(blk).bound - offset
  {
    var t := NextTag(blk, offset);
    if t.tag != BEGIN_NODE && t.tag != END && offset < t.next <= Tokens(blk).bound {
      ScanCodes(blk, t.next, counted, if t.tag == END_NODE then Shallower(counted, depth) else depth);
    }
  }

  /** An offset is called bad exactly if it is not negative and no node begins there. */
  lemma BadOffsetIff(blk: Block, start: int, counted: bool, depth: int)
    ensures FromNode(blk, start, counted, depth) == Fail(-ERR_BADOFFSET, depth) <==>
              start >= 0 && !(start % 4 == 0 && Within(blk, start, 4) && U32(blk, start) == BEGIN_NODE
                              && Terminated(blk, start + 4))
  {
    TagErrors(blk, start);
    if start < 0 {
      ScanCodes(blk, 0, counted, depth);
    } else if start % 4 == 0 && NextTag(blk, start).tag == BEGIN_NODE {
      NegativeIsEnd(blk, start);
      ScanCodes(blk, NextTag(blk, start).next, counted, depth);
    }
  }

  /** No word of the block begins a property whose length wraps around. */
  ghost predicate NoneWraps(blk: Block)
  {
    forall o: nat :: o % 4 == 0 ==> !Wraps(blk, o)
  }

  /** In a block without such a property the loop ends, wherever it starts. */
  lemma {:induction false} LoopEnds(blk: Block, offset: nat, counted: bool, depth: int)
    requires NoneWraps(blk) && offset % 4 == 0
    ensures Scan(Tokens(blk), offset, counted, depth) != Never
    decreases Tokens(blk).bound - offset
  {
    var t := NextTag(blk, offset);
    if t.tag != BEGIN_NODE && t.tag != END && !(t.tag == END_NODE && counted && depth - 1 < 0) {
      NegativeIsEnd(blk, offset);
      TagAdvances(blk, offset);
      LoopEnds(blk, t.next, counted, if t.tag == END_NODE then Shallower(counted, depth) else depth);
    }
  }

  /** From such a property on it does not end. */
  lemma WrapNeverEnds(blk: Block, offset: nat, counted: bool, depth: int)
    requires Wraps(blk, offset) && offset % 4 == 0
    ensures Scan(Tokens(blk), offset, counted, depth) == Never
  {
    TagAdvances(blk, offset);
  }

  /** The loop of fdt_next_node ends from every word of a block. */
  ghost predicate AlwaysEnds(blk: Block)
  {
    forall offset: nat, counted: bool, depth: int :: offset % 4 == 0 ==>
      Scan(Tokens(blk), offset, counted, depth) != Never
  }

  /** It does so exactly if no word begins a property whose length wraps around. */
  lemma AlwaysEndsIff(blk: Block)
    ensures AlwaysEnds(blk) <==> NoneWraps(blk)
  {
    if NoneWraps(blk) {
      forall offset: nat, counted: bool, depth: int | offset % 4 == 0
        ensures Scan(Tokens(blk), offset, counted, depth) != Never
      {
        LoopEnds(blk, offset, counted, depth);
      }
    } else {
      var o: nat :| o % 4 == 0 && Wraps(blk, o);
      WrapNeverEnds(blk, o, false, 0);
    }
  }

  lemma FromNodeEnds(blk: Block, start: int, counted: bool, depth: int)
    requires NoneWraps(blk)
    ensures FromNode(blk, start, counted, depth) != Never
  {
    if start < 0 {
      LoopEnds(blk, 0, counted, depth);
    } else if start % 4 == 0 && NextTag(blk, start).tag == BEGIN_NODE {
      NegativeIsEnd(blk, start);
      TagAdvances(blk, start);
      LoopEnds(blk, NextTag(blk, start).next, counted, depth);
    }
  }

  /** fdt_next_node.  A token that leads back to itself keeps the loop of the source
      busy for ever: `ends` is false then, and the other results say nothing. */
  method NextNode(blk: Block, start: int, counted: bool, depth: int) returns (ends: bool, r: int, depth': int)
    requires -0x8000_0000 <= start < 0x8000_0000
    ensures match FromNode(blk, start, counted, depth)
            case At(o, d) => ends && r == o && depth' == d
            case Out(o, d) => ends && r == o && depth' == d
            case Fail(c, d) => ends && r == c && depth' == d
            case Never => !ends
    ensures NoneWraps(blk) ==> ends
  {
    if NoneWraps(blk) {
      FromNodeEnds(blk, start, counted, depth);
    }
    var next: int := 0;
    ends, depth' := true, depth;
    if start >= 0 {
      var tag;
      if start % 4 != 0 {
        return true, -ERR_BADOFFSET, depth;
      }
      tag, next := ReadTag(blk, start);
      if tag != BEGIN_NODE {
        return true, -ERR_BADOFFSET, depth;
      }
      NegativeIsEnd(blk, start);
      TagAdvances(blk, start);
    }
    ghost var s := Tokens(blk);
    while true
      invariant 0 <= next <= s.bound && next % 4 == 0
      invariant Scan(s, next, counted, depth') == FromNode(blk, start, counted, depth)
      decreases s.bound - next
    {
      var offset := next;
      var tag;
      tag, next := ReadTag(blk, offset);
      assert s.at(offset) == Token(tag, next);
      if tag == BEGIN_NODE {
        return true, offset, Deeper(counted, depth');
      }
      if tag == END {
        return true, EndCode(next, counted), depth';
      }
      NegativeIsEnd(blk, offset);
      TagAdvances(blk, offset);
      if tag == END_NODE && counted {
        depth' := depth' - 1;
        if depth' < 0 {
          return true, next, depth';
        }
      }
      if next == offset {
        return false, 0, depth';
      }
    }
  }

  // ------------------------------------------------------------- serialized trees

  function Be32(v: nat): (r: seq<Byte>)
    ensures |r| == 4
  {
    [v / 0x1000000 % 256, v / 0x10000 % 256, v / 0x100 % 256, v % 256]
  }

  /** Pad to a whole number of words. */
  function Padded(b: seq<Byte>): (r: seq<Byte>)
    ensures |r| == Align(|b|) && b <= r
  {
    b + seq(Align(|b|) - |b|, _ => 0)
  }

  function PropBytes(nameoff: nat, data: seq<Byte>): seq<Byte> {
    Padded(Be32(PROP) + Be32(|data|) + Be32(nameoff) + data)
  }

  function BeginBytes(name: seq<Byte>): seq<Byte> {
    Padded(Be32(BEGIN_NODE) + name + [0])
  }

  /** The format of a structure block. */
  function Words(): Encoding {
    Encoding(Be32(NOP), Be32(END_NODE), Be32(END), (n, d) => PropBytes(n, d), name => BeginBytes(name))
  }

  // ------------------------------------------------------------- reading them back

  /** Four bytes make up the word they were taken from. */
  lemma BytesOfWord(v: nat)
    requires v < WORD
    ensures FromBytes(v / 0x1000000 % 256, v / 0x10000 % 256, v / 0x100 % 256, v % 256) == v
  {
    var a, b, c := v / 0x100, v / 0x10000, v / 0x1000000;
    assert b == a / 256 && c == b / 256;
    assert v == a * 256 + v % 256 && a == b * 256 + a % 256 && b == c * 256 + b % 256 && c % 256 == c;
  }

  lemma ReadBe32(blk: Block, base: nat, v: nat)
    requires HasAt(blk, base, Be32(v)) && v < WORD
    ensures Within(blk, base, 4) && U32(blk, base) == v
  {
    var r := blk[base..base + 4];
    BytesOfWord(v);
    assert r[0] == blk[base] && r[1] == blk[base + 1] && r[2] == blk[base + 2] && r[3] == blk[base + 3];
  }

  lemma AlignFrom(base: nat, n: nat)
    requires base % 4 == 0
    ensures Align(base + n) == base + Align(n)
  {
  }

  lemma TokenAt(blk: Block, base: nat, n: nat)
    requires Within(blk, base, 4) && base % 4 == 0 && Advance(blk, base) == n && base + n <= |blk|
    ensures NextTag(blk, base) == Token(U32(blk, base), base + Align(n)) && base + Align(n) <= Align(|blk|)
  {
    AlignFrom(base, n);
    AlignBounds(base + n, |blk|);
  }

  /** The tags that are words of their own. */
  lemma PlainToken(blk: Block, base: nat, tag: nat)
    requires Within(blk, base, 4) && U32(blk, base) == tag && base % 4 == 0
    requires tag == NOP || tag == END_NODE || tag == END
    ensures NextTag(blk, base) == Token(tag, base + 4) && base + 4 <= Align(|blk|)
  {
    TokenAt(blk, base, 4);
  }

  lemma PropToken(blk: Block, base: nat, len: nat)
    requires Within(blk, base, 12 + len) && U32(blk, base) == PROP && U32(blk, base + 4) == len && base % 4 == 0
    ensures NextTag(blk, base) == Token(PROP, base + Align(12 + len)) && base + Align(12 + len) <= Align(|blk|)
  {
    TokenAt(blk, base, 12 + len);
  }

  lemma BeginToken(blk: Block, base: nat, n: nat)
    requires Within(blk, base, 4) && U32(blk, base) == BEGIN_NODE && base % 4 == 0
    requires NameEnd(blk, base + 4) == base + n <= |blk|
    ensures NextTag(blk, base) == Token(BEGIN_NODE, base + Align(n)) && base + Align(n) <= Align(|blk|)
  {
    TokenAt(blk, base, n);
  }

  lemma PlainReads(blk: Block, base: nat, tag: nat)
    requires HasAt(blk, base, Be32(tag)) && base % 4 == 0 && (tag == NOP || tag == END_NODE || tag == END)
    ensures Reads(Tokens(blk), base, tag, 4)
  {
    ReadBe32(blk, base, tag);
    PlainToken(blk, base, tag);
  }

  lemma PropReads(blk: Block, base: nat, nameoff: nat, data: seq<Byte>)
    requires HasAt(blk, base, PropBytes(nameoff, data)) && base % 4 == 0
    ensures Reads(Tokens(blk), base, PROP, |PropBytes(nameoff, data)|)
  {
    var head := Be32(PROP) + Be32(|data|) + Be32(nameoff) + data;
    HasPrefix(blk, base, head, PropBytes(nameoff, data));
    HasPrefix(blk, base, Be32(PROP) + Be32(|data|), head);
    HasParts(blk, base, Be32(PROP), Be32(|data|));
    ReadBe32(blk, base, PROP);
    ReadBe32(blk, base + 4, |data|);
    PropToken(blk, base, |data|);
  }

  lemma {:induction false} FindName(blk: Block, base: nat, name: seq<Byte>)
    requires HasAt(blk, base, name + [0]) && 0 !in name
    ensures NameEnd(blk, base) == base + |name| + 1
    decreases |name|
  {
    var all := blk[base..base + |name| + 1];
    assert all == name + [0];
    assert blk[base] == all[0];
    if name != [] {
      assert name + [0] == name[..1] + (name[1..] + [0]);
      HasParts(blk, base, name[..1], name[1..] + [0]);
      FindName(blk, base + 1, name[1..]);
    }
  }

  lemma BeginReads(blk: Block, base: nat, name: seq<Byte>)
    requires HasAt(blk, base, BeginBytes(name)) && base % 4 == 0 && 0 !in name
    ensures Reads(Tokens(blk), base, BEGIN_NODE, |BeginBytes(name)|)
  {
    var head := Be32(BEGIN_NODE) + name + [0];
    HasPrefix(blk, base, head, BeginBytes(name));
    assert head == Be32(BEGIN_NODE) + (name + [0]);
    HasParts(blk, base, Be32(BEGIN_NODE), name + [0]);
    ReadBe32(blk, base, BEGIN_NODE);
    FindName(blk, base + 4, name);
    BeginToken(blk, base, |head|);
  }

  lemma PaddedIsAligned(b: seq<Byte>)
    ensures Aligned(|Padded(b)|, 4)
  {
    AlignedIsMod(|Padded(b)|, 4);
    AlignBounds(|b|, |b|);
  }

  lemma WordsAreWhole()
    ensures InWords(Words())
  {
    var c := Words();
    forall n, d
      ensures Aligned(|c.prop(n, d)|, 4)
    {
      PaddedIsAligned(Be32(PROP) + Be32(|d|) + Be32(n) + d);
    }
    forall name
      ensures Aligned(|c.begin(name)|, 4)
    {
      PaddedIsAligned(Be32(BEGIN_NODE) + name + [0]);
    }
  }

  /** fdt_next_tag reads back every part of a tree. */
  lemma BlockUnderstood(blk: Block)
    ensures Understood(blk, Tokens(blk), Words())
  {
    var c, s := Words(), Tokens(blk);
    forall o: nat, tag | Aligned(o, 4) && HasAt(blk, o, Be32(tag)) && (tag == NOP || tag == END_NODE || tag == END)
      ensures Reads(s, o, tag, 4)
    {
      AlignedIsMod(o, 4);
      PlainReads(blk, o, tag);
    }
    forall o: nat, n, d | Aligned(o, 4) && HasAt(blk, o, c.prop(n, d))
      ensures Reads(s, o, PROP, |c.prop(n, d)|)
    {
      AlignedIsMod(o, 4);
      PropReads(blk, o, n, d);
    }
    forall o: nat, name | Aligned(o, 4) && HasAt(blk, o, c.begin(name)) && 0 !in name
      ensures Reads(s, o, BEGIN_NODE, |c.begin(name)|)
    {
      AlignedIsMod(o, 4);
      BeginReads(blk, o, name);
    }
  }

  /** On the structure block of any tree, fdt_next_node from the root with depth 0 returns
      every other node once, in preorder and with its depth, and then the offset past
      the root with depth -1. */
  lemma WalkBlock(blk: Block, root: Item)
    requires root.Node? && NameValid(root) && blk == SerializeItem(Words(), root) + Words().end
    ensures Walks(Tokens(blk), true, FromNode(blk, 0, true, 0), Below(Words(), root, true, 0),
                  Out(|SerializeItem(Words(), root)|, -1))
    ensures |Below(Words(), root, true, 0)| == Nodes(root.body)
    ensures Ascends(Below(Words(), root, true, 0), |BeginBytes(root.name)|, |SerializeItem(Words(), root)|)
  {
    WordsAreWhole();
    BlockUnderstood(blk);
    WalkSerialized(blk, Tokens(blk), Words(), root);
    BelowAscends(blk, Tokens(blk), Words(), root);
  }

  /** Without a depth, the same nodes, and then "not found". */
  lemma WalkBlockUncounted(blk: Block, root: Item, depth: int)
    requires root.Node? && NameValid(root) && blk == SerializeItem(Words(), root) + Words().end
    ensures Walks(Tokens(blk), false, FromNode(blk, 0, false, depth), Below(Words(), root, false, depth),
                  Fail(-ERR_NOTFOUND, depth))
  {
    WordsAreWhole();
    BlockUnderstood(blk);
    WalkSerializedUncounted(blk, Tokens(blk), Words(), root, depth);
  }

  /** From a negative offset and depth -1 the walk begins with the root itself. */
  lemma WalkFromStart(blk: Block, root: Item, start: int)
    requires root.Node? && NameValid(root) && blk == SerializeItem(Words(), root) + Words().end && start < 0
    ensures Walks(Tokens(blk), true, FromNode(blk, start, true, -1), [Place(0, 0)] + Below(Words(), root, true, 0),
                  Out(|SerializeItem(Words(), root)|, -1))
  {
    WordsAreWhole();
    BlockUnderstood(blk);
    RootIsLaid(blk, Tokens(blk), Words(), root);
    WalkBlock(blk, root);
    WalksFirst(Tokens(blk), true, Place(0, 0), Below(Words(), root, true, 0), Out(|SerializeItem(Words(), root)|, -1));
  }

  lemma WalkFromStartUncounted(blk: Block, root: Item, start: int, depth: int)
    requires root.Node? && NameValid(root) && blk == SerializeItem(Words(), root) + Words().end && start < 0
    ensures Walks(Tokens(blk), false, FromNode(blk, start, false, depth),
                  [Place(0, depth)] + Below(Words(), root, false, depth), Fail(-ERR_NOTFOUND, depth))
  {
    WordsAreWhole();
    BlockUnderstood(blk);
    RootIsLaid(blk, Tokens(blk), Words(), root);
    WalkBlockUncounted(blk, root, depth);
    WalksFirst(Tokens(blk), false, Place(0, depth), Below(Words(), root, false, depth), Fail(-ERR_NOTFOUND, depth));
  }

  /** A malformed property on which fdt_next_node never ends. */
  lemma NeverEnds(counted: bool, depth: int)
    ensures Scan(Tokens([0, 0, 0, 3, 0xFF, 0xFF, 0xFF, 0xF4]), 0, counted, depth) == Never
  {
    var blk: Block := [0, 0, 0, 3, 0xFF, 0xFF, 0xFF, 0xF4];
    assert Be32(PROP) == [0, 0, 0, 3] && Be32(0xFFFF_FFF4) == [0xFF, 0xFF, 0xFF, 0xF4];
    assert blk == Be32(PROP) + Be32(0xFFFF_FFF4);
    assert blk[0..8] == blk;
    HasParts(blk, 0, Be32(PROP), Be32(0xFFFF_FFF4));
    ReadBe32(blk, 0, PROP);
    ReadBe32(blk, 4, 0xFFFF_FFF4);
    assert Wraps(blk, 0);
    TagAdvances(blk, 0);
  }
}
