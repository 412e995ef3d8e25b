/** Orderings and the working copy shared by the sorting generators. */
module Sorting {

  /** The private copy a generator works on; the caller's array is only read. */
  method Copy(input: array<int>) returns (arr: array<int>)
    ensures fresh(arr) && arr[..] == input[..]
  {
    arr := new int[input.Length](k requires 0 <= k < input.Length reads input => input[k]);
  }

  /** Non-decreasing order. */
  predicate Ascending(s: seq<int>) {
    forall i, j :: 0 <= i < j < |s| ==> s[i] <= s[j]
  }

  /** `s[lo..hi)` is non-decreasing. */
  predicate AscendingBetween(s: seq<int>, lo: int, hi: int) {
    forall i, j :: 0 <= lo <= i < j < hi <= |s| ==> s[i] <= s[j]
  }

  /** Every element before `k` is at most every element from `k` on. */
  predicate Split(s: seq<int>, k: int) {
    forall i, j :: 0 <= i < k <= j < |s| ==> s[i] <= s[j]
  }

  /** The pair of `a` at i and j exchanged. */
  function Swapped(a: seq<int>, i: int, j: int): (r: seq<int>)
    requires 0 <= i < |a| && 0 <= j < |a|
    ensures |r| == |a| && r[i] == a[j] && r[j] == a[i]
    ensures forall k :: 0 <= k < |a| && k != i && k != j ==> r[k] == a[k]
  {
    a[i := a[j]][j := a[i]]
  }

  /** Exchanging two positions below `size` permutes the prefix and keeps
      the rest. */
  lemma SwappedPrefix(a: seq<int>, i: int, j: int, size: int)
    requires 0 <= i < size && 0 <= j < size && size <= |a|
    ensures multiset(Swapped(a, i, j)[..size]) == multiset(a[..size])
    ensures Swapped(a, i, j)[size..] == a[size..]
  {
    var b := Swapped(a, i, j);
    assert b[..size] == a[..size][i := a[j]][j := a[i]];
    var p := a[..size];
    var p1 := p[i := p[j]];
    assert multiset(p1) == multiset(p) - multiset{p[i]} + multiset{p[j]};
    assert multiset(p1[j := p[i]]) == multiset(p1) - multiset{p1[j]} + multiset{p[i]};
  }

  /** Two ascending arrangements of the same elements are the same sequence. */
  lemma {:induction false} AscendingUnique(a: seq<int>, b: seq<int>)
    requires Ascending(a) && Ascending(b) && multiset(a) == multiset(b)
    ensures a == b
    decreases |a|
  {
    assert |a| == |multiset(a)| == |multiset(b)| == |b|;
    if a != [] {
      SameHead(a, b);
      Tail(a);
      Tail(b);
      AscendingUnique(a[1..], b[1..]);
      assert a == [a[0]] + a[1..] && b == [b[0]] + b[1..];
    }
  }

  /** Ascending arrangements of the same elements start with the same least one. */
  lemma SameHead(a: seq<int>, b: seq<int>)
    requires Ascending(a) && Ascending(b) && multiset(a) == multiset(b) && a != [] && b != []
    ensures a[0] == b[0]
  {
    assert a[0] in multiset(b) && b[0] in multiset(a);
    var i :| 0 <= i < |b| && b[i] == a[0];
    var j :| 0 <= j < |a| && a[j] == b[0];
    assert b[0] <= b[i] && a[0] <= a[j];
  }

  lemma Tail(a: seq<int>)
    requires a != []
    ensures multiset(a[1..]) == multiset(a) - multiset{a[0]}
    ensures Ascending(a) ==> Ascending(a[1..])
  {
    assert a == [a[0]] + a[1..];
  }
}
