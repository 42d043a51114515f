/**
 * Ordering by an integer key, ascending or descending, with no secondary key:
 * `ORDER BY time`, `ORDER BY -time` and `ORDER BY count DESC` leave the order of
 * equal keys to the store. Sort is one admissible outcome; SortedSameKeys shows
 * every admissible outcome has the same key sequence.
 */
module Sorting {

  datatype Direction = Ascending | Descending

  predicate InOrder(d: Direction, x: int, y: int) {
    match d
    case Ascending => x <= y
    case Descending => x >= y
  }

  predicate SortedBy<T>(s: seq<T>, key: T -> int, d: Direction) {
    forall i, j :: 0 <= i < j < |s| ==> InOrder(d, key(s[i]), key(s[j]))
  }

  /** Inserts x into a sorted sequence, before the first element it may precede. */
  function Insert<T>(x: T, s: seq<T>, key: T -> int, d: Direction): (r: seq<T>)
    requires SortedBy(s, key, d)
    ensures SortedBy(r, key, d)
    ensures multiset(r) == multiset(s) + multiset{x}
  {
    if s == [] || InOrder(d, key(x), key(s[0])) then
      [x] + s
    else
      var rest := Insert(x, s[1..], key, d);
      assert s == [s[0]] + s[1..];
      HeadPrecedesRest(x, s, rest, key, d);
      PrependSorted(s[0], rest, key, d);
      [s[0]] + rest
  }

  /** The head of a sorted s may precede x when x may not precede it, so it precedes all of rest. */
  lemma HeadPrecedesRest<T>(x: T, s: seq<T>, rest: seq<T>, key: T -> int, d: Direction)
    requires SortedBy(s, key, d) && s != [] && !InOrder(d, key(x), key(s[0]))
    requires multiset(rest) == multiset(s[1..]) + multiset{x}
    ensures forall k :: 0 <= k < |rest| ==> InOrder(d, key(s[0]), key(rest[k]))
  {
    forall k | 0 <= k < |rest|
      ensures InOrder(d, key(s[0]), key(rest[k]))
    {
      assert rest[k] in multiset(rest);
      if rest[k] != x {
        assert rest[k] in s[1..];
        var j :| 0 <= j < |s[1..]| && s[1..][j] == rest[k];
        assert s[j + 1] == rest[k];
      }
    }
  }

  lemma PrependSorted<T>(h: T, rest: seq<T>, key: T -> int, d: Direction)
    requires SortedBy(rest, key, d)
    requires forall k :: 0 <= k < |rest| ==> InOrder(d, key(h), key(rest[k]))
    ensures SortedBy([h] + rest, key, d)
  {
    var r := [h] + rest;
    forall i, j | 0 <= i < j < |r|
      ensures InOrder(d, key(r[i]), key(r[j]))
    {
      assert r[j] == rest[j - 1];
      if i > 0 {
        assert r[i] == rest[i - 1];
      }
    }
  }

  /** A permutation of s that is sorted by key in direction d. */
  function Sort<T>(s: seq<T>, key: T -> int, d: Direction): (r: seq<T>)
    ensures SortedBy(r, key, d)
    ensures multiset(r) == multiset(s)
  {
    if s == [] then []
    else
      assert s == [s[0]] + s[1..];
      Insert(s[0], Sort(s[1..], key, d), key, d)
  }

  /** Removing one element keeps a sequence sorted. */
  lemma RemoveAtSorted<T>(t: seq<T>, k: int, key: T -> int, d: Direction)
    requires SortedBy(t, key, d)
    requires 0 <= k < |t|
    ensures SortedBy(t[..k] + t[k+1..], key, d)
  {
    var t' := t[..k] + t[k+1..];
    forall i, j | 0 <= i < j < |t'|
      ensures InOrder(d, key(t'[i]), key(t'[j]))
    {
      var i' := if i < k then i else i + 1;
      var j' := if j < k then j else j + 1;
      assert t'[i] == t[i'];
      assert t'[j] == t[j'];
    }
  }

  /** Removing the element at k removes one copy of it from the multiset. */
  lemma RemoveAtMultiset<T>(t: seq<T>, k: int)
    requires 0 <= k < |t|
    ensures multiset(t[..k] + t[k+1..]) == multiset(t) - multiset{t[k]}
  {
    assert t == t[..k] + [t[k]] + t[k+1..];
  }

  /** The first elements of two sorted permutations of one multiset have equal keys. */
  lemma FirstKeysAgree<T>(s: seq<T>, t: seq<T>, key: T -> int, d: Direction)
    requires SortedBy(s, key, d) && SortedBy(t, key, d)
    requires multiset(s) == multiset(t)
    requires s != []
    ensures t != [] && key(s[0]) == key(t[0])
  {
    assert s[0] in multiset(t);
    var k :| 0 <= k < |t| && t[k] == s[0];
    assert t[0] in multiset(s);
    var m :| 0 <= m < |s| && s[m] == t[0];
    assert m == 0 || InOrder(d, key(s[0]), key(s[m]));
    assert k == 0 || InOrder(d, key(t[0]), key(t[k]));
  }

  /**
   * Sorting by a key determines the key sequence: two sorted permutations of the
   * same multiset differ at most in the order of elements with equal keys.
   */
  lemma {:induction false} SortedSameKeys<T>(s: seq<T>, t: seq<T>, key: T -> int, d: Direction)
    requires SortedBy(s, key, d) && SortedBy(t, key, d)
    requires multiset(s) == multiset(t)
    ensures |s| == |t|
    ensures forall i :: 0 <= i < |s| ==> key(s[i]) == key(t[i])
    decreases |s|
  {
    assert |s| == |multiset(s)| == |multiset(t)| == |t|;
    if s != [] {
      FirstKeysAgree(s, t, key, d);
      assert s[0] in multiset(t);
      var k :| 0 <= k < |t| && t[k] == s[0];
      RemoveAtSorted(t, k, key, d);
      RemoveAtMultiset(t, k);
      var t' := t[..k] + t[k+1..];
      assert s == [s[0]] + s[1..];
      assert multiset(t') == multiset(s[1..]);
      SortedSameKeys(s[1..], t', key, d);
      RemovedKeysAgree(s, t, k, key, d);
    }
  }

  /**
   * If s minus its head and t minus t[k] agree on keys, and t[k] is s's head
   * with t[0]'s key, then s and t agree on keys.
   */
  lemma RemovedKeysAgree<T>(s: seq<T>, t: seq<T>, k: int, key: T -> int, d: Direction)
    requires SortedBy(t, key, d)
    requires s != [] && 0 <= k < |t| == |s| && t[k] == s[0] && key(t[0]) == key(s[0])
    requires forall i :: 0 <= i < |s| - 1 ==> key(s[1..][i]) == key((t[..k] + t[k+1..])[i])
    ensures forall i :: 0 <= i < |s| ==> key(s[i]) == key(t[i])
  {
    var t' := t[..k] + t[k+1..];
    forall i | 0 <= i < |s|
      ensures key(s[i]) == key(t[i])
    {
      if 0 < i <= k {
        assert s[i] == s[1..][i-1];
        assert key(s[1..][i-1]) == key(t'[i-1]);
        assert t'[i-1] == t[i-1];
        assert i - 1 == 0 || InOrder(d, key(t[0]), key(t[i-1]));
        assert i == k || InOrder(d, key(t[i]), key(t[k]));
        assert InOrder(d, key(t[0]), key(t[i]));
        assert i - 1 == k || InOrder(d, key(t[i-1]), key(t[k]));
      } else if i > k {
        assert s[i] == s[1..][i-1];
        assert key(s[1..][i-1]) == key(t'[i-1]);
        assert t'[i-1] == t[i];
      }
    }
  }
}
