/** Facts about sequences, stated for any element type.

    They are proved once here, where the elements are opaque, and used on
    sequences of nodes and groups, where proving them again would drag in
    everything known about those elements.
 */
module Seqs {

  /** The elements of a sequence (what `new Set(array)` holds). */
  function Elements<T>(s: seq<T>): set<T> {
    set x | x in s
  }

  lemma ElementsConcat<T>(a: seq<T>, b: seq<T>)
    ensures Elements(a + b) == Elements(a) + Elements(b)
  {
  }

  lemma ElementsOne<T>(x: T)
    ensures Elements([x]) == {x}
  {
  }

  lemma ElementsNone<T>()
    ensures Elements<T>([]) == {}
  {
  }

  /** Growing a prefix by one element adds that element. */
  lemma ElementsSnoc<T>(s: seq<T>, j: nat)
    requires j < |s|
    ensures Elements(s[..j + 1]) == Elements(s[..j]) + {s[j]}
  {
    assert s[..j + 1] == s[..j] + [s[j]];
  }

  lemma SeqAssoc3<T>(a: seq<T>, b: seq<T>, c: seq<T>)
    ensures a + b + c == a + (b + c)
  {
  }

  lemma AppendNil<T>(s: seq<T>)
    ensures s + [] == s && [] + s == s
  {
  }

  lemma UnionSub<T>(a: set<T>, b: set<T>)
    requires b <= a
    ensures a + b == a
  {
  }

  /** What follows a prefix. */
  lemma Suffix<T>(a: seq<T>, b: seq<T>)
    ensures (a + b)[|a|..] == b && a <= a + b
  {
  }

  lemma PrefixSplit<T>(a: seq<T>, b: seq<T>)
    requires a <= b
    ensures b == a + b[|a|..]
  {
  }

  /** The whole sequence as a prefix and as a suffix. */
  lemma Whole<T>(s: seq<T>)
    ensures s[..|s|] == s && s[0..] == s && s[|s|..] == []
  {
  }

  /** A prefix one longer. */
  lemma TakeSnoc<T>(s: seq<T>, j: nat)
    requires j < |s|
    ensures s[..j + 1] == s[..j] + [s[j]]
  {
  }

  /** A suffix one shorter. */
  lemma DropCons<T>(s: seq<T>, i: nat)
    requires i < |s|
    ensures s[i..] == [s[i]] + s[i + 1..] && s[i..][0] == s[i] && s[i..][1..] == s[i + 1..]
  {
  }

  /** Splicing out the element at `i` keeps what is before it and moves what
      is after it one place down. */
  lemma SpliceParts<T>(s: seq<T>, i: nat)
    requires i < |s|
    ensures var t := s[..i] + s[i + 1..]; t[..i] == s[..i] && t[i..] == s[i + 1..]
  {
  }

  lemma MultisetCons<T>(s: seq<T>)
    requires s != []
    ensures multiset(s) == multiset{s[0]} + multiset(s[1..])
  {
    assert s == [s[0]] + s[1..];
  }

  lemma MultisetSubSub<T>(a: multiset<T>, b: multiset<T>, c: multiset<T>)
    ensures a - b - c == a - (b + c)
  {
  }

  /** The position of the first `x` in `s` (`|s|` when there is none). */
  ghost function Position<T>(s: seq<T>, x: T): nat {
    if s == [] || s[0] == x then 0 else 1 + Position(s[1..], x)
  }

  /** In a list of distinct elements each element is first found at its own
      position, so two positions of the list hold the same element only when
      they are one. */
  lemma {:induction false} DistinctPositions<T>(s: seq<T>)
    requires forall i, j | 0 <= i < j < |s| :: s[i] != s[j]
    ensures forall i | 0 <= i < |s| :: Position(s, s[i]) == i
  {
    if s != [] {
      DistinctPositions(s[1..]);
      forall i | 0 < i < |s| ensures Position(s, s[i]) == i {
        assert s[i] == s[1..][i - 1];
      }
    }
  }
}
