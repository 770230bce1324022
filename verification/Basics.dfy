/** Types that the other modules share. */
module Basics {

  datatype Option<+T> = None | Some(value: T)

  type Byte = x: int | 0 <= x < 256

  /** The bytes `b` stand at `at`. */
  ghost predicate HasAt<T>(s: seq<T>, at: nat, b: seq<T>)
  {
    at + |b| <= |s| && s[at..at + |b|] == b
  }

  lemma HasParts<T>(s: seq<T>, at: nat, a: seq<T>, b: seq<T>)
    requires HasAt(s, at, a + b)
    ensures HasAt(s, at, a) && HasAt(s, at + |a|, b)
  {
    var all := s[at..at + |a + b|];
    assert all[..|a|] == a && all[|a|..] == b;
    assert s[at..at + |a|] == all[..|a|];
    assert s[at + |a|..at + |a| + |b|] == all[|a|..];
  }

  lemma HasThreeParts<T>(s: seq<T>, at: nat, a: seq<T>, b: seq<T>, c: seq<T>)
    requires HasAt(s, at, a + b + c)
    ensures HasAt(s, at, a) && HasAt(s, at + |a|, b) && HasAt(s, at + |a| + |b|, c)
  {
    HasParts(s, at, a + b, c);
    HasParts(s, at, a, b);
  }

  lemma HasPrefix<T>(s: seq<T>, at: nat, a: seq<T>, b: seq<T>)
    requires HasAt(s, at, b) && a <= b
    ensures HasAt(s, at, a)
  {
    assert b == a + b[|a|..];
    HasParts(s, at, a, b[|a|..]);
  }

  /** What stands in a sequence stands there when more is added behind it. */
  lemma HasInLonger<T>(s: seq<T>, at: nat, b: seq<T>, more: seq<T>)
    requires HasAt(s, at, b)
    ensures HasAt(s + more, at, b)
  {
    assert (s + more)[at..at + |b|] == s[at..at + |b|];
  }

  lemma HasLast<T>(s: seq<T>, b: seq<T>)
    ensures HasAt(s + b, |s|, b)
  {
  }

  /** A sequence around one of its elements. */
  lemma SplitAround<T>(s: seq<T>, k: nat)
    requires k < |s|
    ensures s == s[..k] + [s[k]] + s[k + 1..]
  {
  }

  lemma SplitBag<T>(s: seq<T>, k: nat)
    requires k < |s|
    ensures multiset(s) == multiset(s[..k] + s[k + 1..]) + multiset{s[k]}
  {
    SplitAround(s, k);
  }

  lemma SplitLast<T>(s: seq<T>)
    requires s != []
    ensures s == s[..|s| - 1] + [s[|s| - 1]]
    ensures multiset(s) == multiset(s[..|s| - 1]) + multiset{s[|s| - 1]}
  {
    assert s == s[..|s| - 1] + [s[|s| - 1]];
  }

  lemma BagCancels<T>(a: multiset<T>, b: multiset<T>, x: T)
    requires a + multiset{x} == b + multiset{x}
    ensures a == b
  {
    assert a == a + multiset{x} - multiset{x};
    assert b == b + multiset{x} - multiset{x};
  }

  /** Without the same element, permutations of each other still are. */
  lemma PermutationWithout<T>(a: seq<T>, b: seq<T>, k: nat)
    requires a != [] && k < |b| && b[k] == a[|a| - 1] && multiset(a) == multiset(b)
    ensures multiset(a[..|a| - 1]) == multiset(b[..k] + b[k + 1..])
  {
    SplitLast(a);
    SplitAround(b, k);
    var rest := multiset(b[..k] + b[k + 1..]);
    assert multiset(b) == rest + multiset{b[k]};
    BagCancels(multiset(a[..|a| - 1]), rest, b[k]);
  }

  lemma PermutationFinds<T>(a: seq<T>, b: seq<T>, x: T) returns (k: nat)
    requires multiset(a) == multiset(b) && x in a
    ensures k < |b| && b[k] == x
  {
    assert x in multiset(b);
    k :| 0 <= k < |b| && b[k] == x;
  }
}
