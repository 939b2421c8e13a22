/**
 * The vector algorithms the engine uses, stated over sequences: std::find_if with an
 * equality predicate, the released prefix of a node or edge list, element-wise
 * conversion, and the "entries past a sequence id" filter that an order update needs.
 */
module Seqs {
  import opened Messages

  /** a is what is left of b after erasing some prefix of b. */
  ghost predicate IsSuffix<T>(a: seq<T>, b: seq<T>) {
    |a| <= |b| && a == b[|b| - |a|..]
  }

  /** Sequence ids strictly increase along s. */
  ghost predicate Increasing<T>(s: seq<T>, sequenceId: T -> uint32) {
    forall i, j :: 0 <= i < j < |s| ==> sequenceId(s[i]) < sequenceId(s[j])
  }

  /** What is left after erasing a prefix of a list in increasing order is in increasing order. */
  lemma IncreasingSuffix<T>(a: seq<T>, b: seq<T>, sequenceId: T -> uint32)
    requires IsSuffix(a, b) && Increasing(b, sequenceId)
    ensures Increasing(a, sequenceId)
  {
    var d := |b| - |a|;
    forall i, j | 0 <= i < j < |a| ensures sequenceId(a[i]) < sequenceId(a[j]) {
      assert a[i] == b[d + i] && a[j] == b[d + j];
    }
  }

  /** Position of the first element whose key is x, if any: what find_if returns. */
  function FirstIndex<T, K(==)>(s: seq<T>, key: T -> K, x: K): (r: Option<nat>)
    ensures r.Some? ==> r.value < |s| && key(s[r.value]) == x
    ensures r.Some? ==> forall j :: 0 <= j < r.value ==> key(s[j]) != x
    ensures r.None? ==> forall j :: 0 <= j < |s| ==> key(s[j]) != x
  {
    if s == [] then None
    else if key(s[0]) == x then Some(0)
    else match FirstIndex(s[1..], key, x)
      case Some(i) => Some(i + 1)
      case None => None
  }

  /**
   * The linear scan behind find_if: the returned index is |s| (end()) when no element
   * has key x, and otherwise the first element that has it.
   */
  method FindFirst<T, K(==)>(s: seq<T>, key: T -> K, x: K) returns (i: nat)
    ensures i <= |s|
    ensures i < |s| ==> key(s[i]) == x
    ensures forall j :: 0 <= j < i ==> key(s[j]) != x
    ensures FirstIndex(s, key, x) == if i < |s| then Some(i) else None
  {
    i := 0;
    while i < |s| && key(s[i]) != x
      invariant i <= |s|
      invariant forall j :: 0 <= j < i ==> key(s[j]) != x
    {
      i := i + 1;
    }
  }

  /** Length of the longest prefix of s whose elements all have flag set. */
  function PrefixLength<T>(s: seq<T>, flag: T -> bool): (k: nat)
    ensures k <= |s|
    ensures forall j :: 0 <= j < k ==> flag(s[j])
    ensures k < |s| ==> !flag(s[k])
  {
    if s == [] || !flag(s[0]) then 0 else 1 + PrefixLength(s[1..], flag)
  }

  /**
   * Length of the longest prefix of s whose elements are all released and lie at or below
   * cut: the entries of the base that stay in front when an update appends entries above cut.
   */
  function BaseLength<T>(s: seq<T>, released: T -> bool, sequenceId: T -> uint32, cut: int): (k: nat)
    ensures k <= PrefixLength(s, released)
    ensures forall j :: 0 <= j < k ==> released(s[j]) && sequenceId(s[j]) as int <= cut
    ensures k < |s| ==> !released(s[k]) || sequenceId(s[k]) as int > cut
  {
    if s == [] || !released(s[0]) || sequenceId(s[0]) as int > cut then 0
    else 1 + BaseLength(s[1..], released, sequenceId, cut)
  }

  /** When the whole released prefix lies at or below cut, the base is that whole prefix. */
  lemma {:induction false} BaseLengthWhole<T>(s: seq<T>, released: T -> bool, sequenceId: T -> uint32, cut: int)
    requires forall j :: 0 <= j < PrefixLength(s, released) ==> sequenceId(s[j]) as int <= cut
    ensures BaseLength(s, released, sequenceId, cut) == PrefixLength(s, released)
  {
    if s != [] && released(s[0]) {
      assert forall j :: 0 <= j < PrefixLength(s[1..], released) ==> s[1..][j] == s[j + 1];
      BaseLengthWhole(s[1..], released, sequenceId, cut);
    }
  }

  /**
   * On a list whose sequence ids increase, cutting at the id of an entry at or past the
   * end of the released prefix keeps that whole prefix.
   */
  lemma BaseLengthSorted<T>(s: seq<T>, released: T -> bool, sequenceId: T -> uint32, i: nat)
    requires Increasing(s, sequenceId) && i < |s| && PrefixLength(s, released) <= i + 1
    ensures BaseLength(s, released, sequenceId, sequenceId(s[i]) as int) == PrefixLength(s, released)
  {
    BaseLengthWhole(s, released, sequenceId, sequenceId(s[i]) as int);
  }

  /** Position of the last element of s that has flag set, if any. */
  function LastIndex<T>(s: seq<T>, flag: T -> bool): (r: Option<nat>)
    ensures r.Some? ==> r.value < |s| && flag(s[r.value])
    ensures r.Some? ==> forall j :: r.value < j < |s| ==> !flag(s[j])
    ensures r.None? ==> forall j :: 0 <= j < |s| ==> !flag(s[j])
  {
    if s == [] then None
    else if flag(s[|s| - 1]) then Some(|s| - 1)
    else LastIndex(s[..|s| - 1], flag)
  }

  /** f applied to every element of s, in order. */
  function Map<A, B>(s: seq<A>, f: A -> B): (r: seq<B>)
    ensures |r| == |s|
    ensures forall j :: 0 <= j < |s| ==> r[j] == f(s[j])
  {
    if s == [] then [] else Map(s[..|s| - 1], f) + [f(s[|s| - 1])]
  }

  /** The elements of s whose sequence id is strictly greater than cut, in their order in s. */
  function Above<T>(s: seq<T>, sequenceId: T -> uint32, cut: int): (r: seq<T>)
    ensures |r| <= |s|
    ensures forall j :: 0 <= j < |r| ==> sequenceId(r[j]) > cut
  {
    if s == [] then []
    else
      var last := s[|s| - 1];
      Above(s[..|s| - 1], sequenceId, cut) + (if sequenceId(last) > cut then [last] else [])
  }

  /** When no entry is above cut, nothing is kept. */
  lemma {:induction false} AboveNone<T>(s: seq<T>, sequenceId: T -> uint32, cut: int)
    requires forall j :: 0 <= j < |s| ==> sequenceId(s[j]) <= cut
    ensures Above(s, sequenceId, cut) == []
  {
    if s != [] {
      AboveNone(s[..|s| - 1], sequenceId, cut);
    }
  }

  /**
   * On a list whose sequence ids increase, the entries above the id of the k-th entry
   * are exactly the entries after position k.
   */
  lemma {:induction false} AboveIncreasing<T>(s: seq<T>, sequenceId: T -> uint32, k: nat)
    requires Increasing(s, sequenceId) && k < |s|
    ensures Above(s, sequenceId, sequenceId(s[k]) as int) == s[k + 1..]
  {
    var cut := sequenceId(s[k]) as int;
    var init := s[..|s| - 1];
    var last := s[|s| - 1];
    assert Above(s, sequenceId, cut)
        == Above(init, sequenceId, cut) + (if sequenceId(last) > cut then [last] else []);
    if k == |s| - 1 {
      forall j | 0 <= j < |init| ensures sequenceId(init[j]) <= cut {
        assert init[j] == s[j];
      }
      AboveNone(init, sequenceId, cut);
    } else {
      assert Increasing(init, sequenceId) by {
        forall i, j | 0 <= i < j < |init| ensures sequenceId(init[i]) < sequenceId(init[j]) {
          assert init[i] == s[i] && init[j] == s[j];
        }
      }
      AboveIncreasing(init, sequenceId, k);
      assert sequenceId(s[k]) < sequenceId(last);
      assert init[k + 1..] + [last] == s[k + 1..];
    }
  }

  /** When the entries up to position m are at or below cut and the rest above it, the rest is kept. */
  lemma {:induction false} AboveSplit<T>(s: seq<T>, sequenceId: T -> uint32, cut: int, m: nat)
    requires m <= |s|
    requires forall j :: 0 <= j < m ==> sequenceId(s[j]) <= cut
    requires forall j :: m <= j < |s| ==> sequenceId(s[j]) > cut
    ensures Above(s, sequenceId, cut) == s[m..]
  {
    if |s| == m {
      AboveNone(s, sequenceId, cut);
    } else {
      var init, last := s[..|s| - 1], s[|s| - 1];
      assert s == init + [last];
      AboveSplit(init, sequenceId, cut, m);
      assert s[m..] == init[m..] + [last];
    }
  }
}
