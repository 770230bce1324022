/** The Internet checksum of ip.h: ip_cksum_add and ip_cksum_carry. */
module Checksum {
  import opened Basics

  const LIMIT: nat := 0x8000_0000   // what an int can hold

  // ---------------------------------------------------------------------- the sum

  /** A 16-bit word in the order of the host. */
  function Word(big: bool, a: Byte, b: Byte): nat {
    if big then 256 * (a as int) + b else a + 256 * (b as int)
  }

  function WordAt(big: bool, buf: seq<Byte>, i: nat): nat
    requires 2 * i + 1 < |buf|
  {
    Word(big, buf[2 * i], buf[2 * i + 1])
  }

  /** The sum of the first `k` words. */
  function SumWords(big: bool, buf: seq<Byte>, k: nat): nat
    requires 2 * k <= |buf|
  {
    if k == 0 then 0 else SumWords(big, buf, k - 1) + WordAt(big, buf, k - 1)
  }

  /** The sum of all words, with a zero byte behind the last one if it is alone. */
  function Total(big: bool, buf: seq<Byte>): nat {
    SumWords(big, buf, |buf| / 2) + if |buf| % 2 == 1 then Word(big, buf[|buf| - 1], 0) else 0
  }

  lemma {:induction false} SumOfLonger(big: bool, buf: seq<Byte>, more: seq<Byte>, k: nat)
    requires 2 * k <= |buf|
    ensures SumWords(big, buf + more, k) == SumWords(big, buf, k)
  {
    if k > 0 {
      SumOfLonger(big, buf, more, k - 1);
    }
  }

  /** An odd number of bytes is summed up like the same bytes with a zero behind them
      (section 1 of RFC 1071). */
  lemma OddIsPadded(big: bool, buf: seq<Byte>)
    requires |buf| % 2 == 1
    ensures Total(big, buf) == Total(big, buf + [0])
  {
    SumOfLonger(big, buf, [0], |buf| / 2);
  }

  /** ip_cksum_add.  Duff's device enters the unrolled loop in the middle, with `left`
      additions to go in the first round and 16 in each round after that; without a
      single word, it still makes one full round and reads past the buffer. */
  method CksumAdd(big: bool, buf: seq<Byte>, cksum: int) returns (r: Option<int>)
    ensures |buf| >= 2 ==> r == Some(cksum + Total(big, buf))
    ensures |buf| < 2 ==> r == None
  {
    var sum, sp := cksum, 0;
    var sn := |buf| / 2;
    var n := (sn + 15) / 16;
    var left := if sn % 16 == 0 then 16 else sn % 16;
    var more := true;
    while more
      invariant 0 <= sp <= sn
      invariant sum == cksum + SumWords(big, buf, sp)
      invariant more && sn > 0 ==> n >= 1 && 1 <= left <= 16 && sn - sp == left + 16 * (n - 1)
      invariant more && sn == 0 ==> n == 0 && left == 16
      invariant !more ==> sp == sn && sn > 0
      decreases more, n
    {
      while left > 0
        invariant 0 <= left <= 16 && 0 <= sp <= sn
        invariant sum == cksum + SumWords(big, buf, sp)
        invariant sn > 0 ==> n >= 1 && sn - sp == left + 16 * (n - 1)
        invariant sn == 0 ==> n == 0 && left == 16
      {
        if 2 * sp + 1 >= |buf| {
          return None;
        }
        sum := sum + WordAt(big, buf, sp);
        sp := sp + 1;
        left := left - 1;
      }
      n := n - 1;
      more := n > 0;
      left := 16;
    }
    if |buf| % 2 == 1 {
      sum := sum + Word(big, buf[2 * sp], 0);
    }
    return Some(sum);
  }

  lemma {:induction false} SumBound(big: bool, buf: seq<Byte>, k: nat)
    requires 2 * k <= |buf|
    ensures SumWords(big, buf, k) <= 65535 * k
  {
    if k > 0 {
      SumBound(big, buf, k - 1);
    }
  }

  /** No packet makes the accumulator overflow, in any prefix of the sum. */
  lemma NoOverflow(big: bool, buf: seq<Byte>, k: nat)
    requires |buf| <= 65535 && 2 * k <= |buf|
    ensures SumWords(big, buf, k) < LIMIT && Total(big, buf) < LIMIT
  {
    SumBound(big, buf, k);
    SumBound(big, buf, |buf| / 2);
  }

  // -------------------------------------------------------------------- the carry

  /** The sum with its carries added back in. */
  function Fold(x: nat): (z: nat)
    requires x < LIMIT
    ensures z <= 65535
  {
    var y := x / 65536 + x % 65536;
    (y + y / 65536) % 65536
  }

  /** ip_cksum_carry. */
  function Carry(x: nat): (c: nat)
    requires x < LIMIT
    ensures c <= 65535
  {
    65535 - Fold(x)
  }

  /** Folding keeps the sum modulo 65535, and yields zero for nothing else than zero. */
  lemma FoldWitness(x: nat) returns (k: nat)
    requires x < LIMIT
    ensures x == Fold(x) + 65535 * k
    ensures Fold(x) == 0 <==> x == 0
  {
    var q, r := x / 65536, x % 65536;
    var y := q + r;
    if y < 65536 {
      assert y / 65536 == 0 && y % 65536 == y;
      k := q;
    } else {
      assert y / 65536 == 1 && (y + 1) % 65536 == y + 1 - 65536;
      k := q + 1;
    }
  }

  /** Those two facts determine the result. */
  lemma FoldUnique(x: nat, z: nat, k: nat)
    requires x < LIMIT && 1 <= z <= 65535 && x == z + 65535 * k
    ensures Fold(x) == z
  {
    var j := FoldWitness(x);
    OneResidue(z, k, Fold(x), j);
  }

  lemma OneResidue(z: nat, k: nat, w: nat, j: nat)
    requires 1 <= z <= 65535 && 1 <= w <= 65535 && z + 65535 * k == w + 65535 * j
    ensures z == w
  {
  }

  /** The checksum is the negative of the sum modulo 65535. */
  lemma CarryNegates(x: nat) returns (k: nat)
    requires x < LIMIT
    ensures x + Carry(x) == 65535 * k && k > 0
  {
    var j := FoldWitness(x);
    k := j + 1;
  }

  /** A receiver who adds the checksum to the sum computes zero. */
  lemma ReceiverComputesZero(x: nat)
    requires x < LIMIT && x + Carry(x) < LIMIT
    ensures Carry(x + Carry(x)) == 0
  {
    var k := CarryNegates(x);
    FoldUnique(x + Carry(x), 65535, k - 1);
  }

  // ------------------------------------------------------------------ in a packet

  /** The bytes of a word in the order of the host. */
  function FirstByte(big: bool, w: nat): Byte
    requires w <= 65535
  {
    if big then w / 256 else w % 256
  }

  function SecondByte(big: bool, w: nat): Byte
    requires w <= 65535
  {
    if big then w % 256 else w / 256
  }

  /** The buffer with word `p` replaced. */
  function WithWord(big: bool, buf: seq<Byte>, p: nat, w: nat): (r: seq<Byte>)
    requires 2 * p + 1 < |buf| && w <= 65535
    ensures |r| == |buf|
  {
    buf[2 * p := FirstByte(big, w)][2 * p + 1 := SecondByte(big, w)]
  }

  lemma {:induction false} SumWithWord(big: bool, buf: seq<Byte>, p: nat, w: nat, k: nat)
    requires 2 * p + 1 < |buf| && w <= 65535 && 2 * k <= |buf|
    ensures SumWords(big, WithWord(big, buf, p, w), k)
            == SumWords(big, buf, k) + if p < k then w - WordAt(big, buf, p) else 0
  {
    if k > 0 {
      SumWithWord(big, buf, p, w, k - 1);
    }
  }

  /** Put the checksum of a packet into its checksum field, which was zero when it was
      computed: the checksum of the packet is then zero. */
  lemma ChecksumVerifies(big: bool, buf: seq<Byte>, p: nat)
    requires |buf| <= 65535 && 2 * p + 1 < |buf| && WordAt(big, buf, p) == 0
    ensures Total(big, buf) < LIMIT
    ensures var sent := WithWord(big, buf, p, Carry(Total(big, buf)));
            Total(big, sent) < LIMIT && Carry(Total(big, sent)) == 0
  {
    NoOverflow(big, buf, 0);
    var c := Carry(Total(big, buf));
    var sent := WithWord(big, buf, p, c);
    SumWithWord(big, buf, p, c, |buf| / 2);
    NoOverflow(big, sent, 0);
    assert Total(big, sent) == Total(big, buf) + c;
    ReceiverComputesZero(Total(big, buf));
  }

  /** The numerical example of section 3 of RFC 1071, in both byte orders. */
  lemma WorkedExample()
    ensures var buf := [0x00, 0x01, 0xf2, 0x03, 0xf4, 0xf5, 0xf6, 0xf7];
            && Total(true, buf) == 0x2_ddf0 && Fold(0x2_ddf0) == 0xddf2
            && Total(false, buf) == 0x1_f2dc && Fold(0x1_f2dc) == 0xf2dd
  {
    var buf := [0x00, 0x01, 0xf2, 0x03, 0xf4, 0xf5, 0xf6, 0xf7];
    assert SumWords(true, buf, 2) == 0xf204 && SumWords(true, buf, 4) == 0x2_ddf0;
    assert SumWords(false, buf, 2) == 0x04f2 && SumWords(false, buf, 4) == 0x1_f2dc;
  }

  // -------------------------------------------------------------------- byte order

  function Swap(w: nat): (r: nat)
    requires w <= 65535
    ensures r <= 65535
  {
    w % 256 * 256 + w / 256
  }

  /** Swapping the bytes of a word multiplies it by 256, modulo 65535. */
  lemma SwapMultiplies(w: nat)
    requires w <= 65535
    ensures 256 * w == Swap(w) + 65535 * (w / 256)
    ensures Swap(65535 - w) == 65535 - Swap(w)
    ensures Swap(w) == 0 <==> w == 0
  {
    assert (65535 - w) / 256 == 255 - w / 256 && (65535 - w) % 256 == 255 - w % 256;
  }

  lemma {:induction false} SumSwapped(buf: seq<Byte>, k: nat) returns (j: nat)
    requires 2 * k <= |buf|
    ensures 256 * SumWords(true, buf, k) == SumWords(false, buf, k) + 65535 * j
    ensures SumWords(true, buf, k) == 0 <==> SumWords(false, buf, k) == 0
  {
    j := 0;
    if k > 0 {
      j := SumSwapped(buf, k - 1);
      j := j + buf[2 * k - 2];
    }
  }

  lemma TotalSwapped(buf: seq<Byte>) returns (j: nat)
    ensures 256 * Total(true, buf) == Total(false, buf) + 65535 * j
    ensures Total(true, buf) == 0 <==> Total(false, buf) == 0
  {
    j := SumSwapped(buf, |buf| / 2);
    if |buf| % 2 == 1 {
      j := j + buf[|buf| - 1];
    }
  }

  /** Hosts of either byte order compute the same bytes for a checksum. */
  lemma ByteOrderIndependent(buf: seq<Byte>)
    requires |buf| <= 65535
    ensures Total(true, buf) < LIMIT && Total(false, buf) < LIMIT
    ensures Carry(Total(false, buf)) == Swap(Carry(Total(true, buf)))
  {
    NoOverflow(true, buf, 0);
    NoOverflow(false, buf, 0);
    var x, y := Total(true, buf), Total(false, buf);
    var j := TotalSwapped(buf);
    var k := FoldWitness(x);
    var z := Fold(x);
    SwapMultiplies(z);
    SwapMultiplies(65535 - z);
    if x == 0 {
      var i := FoldWitness(y);
    } else {
      var m := z / 256 + 256 * k - j;
      assert y == Swap(z) + 65535 * m;
      assert m >= 0;
      FoldUnique(y, Swap(z), m);
    }
  }
}
