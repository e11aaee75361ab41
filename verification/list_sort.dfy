/** The recursive merge sort of src/list.c:22-70 (`__ina_split`,
    `__ina_merge`, `__ina_mergesort`), on the sequence of nodes the `next`
    chain visits. Each node is an `Entry`: its address and its data pointer.
    The comparator is the caller's `int (*)(const void *, const void *)`.
 */
module ListSort {

  /** A node in the chain being sorted. */
  datatype Entry = Entry(node: nat, data: nat)

  type Compare = (nat, nat) -> int

  /** `compare_fn(a->data, b->data) < 0`. */
  predicate Less(cmp: Compare, a: Entry, b: Entry) {
    cmp(a.data, b.data) < 0
  }

  /** What sorting needs of the comparator: no datum is below itself, and
      both "below" and "not below" are transitive. */
  ghost predicate StrictWeak(cmp: Compare) {
    (forall a: nat :: cmp(a, a) >= 0)
    && (forall a: nat, b: nat, c: nat :: cmp(a, b) < 0 && cmp(b, c) < 0 ==> cmp(a, c) < 0)
    && (forall a: nat, b: nat, c: nat :: cmp(a, b) >= 0 && cmp(b, c) >= 0 ==> cmp(a, c) >= 0)
  }

  /** No entry is below an earlier one. */
  predicate Sorted(cmp: Compare, s: seq<Entry>) {
    forall i, j | 0 <= i < j < |s| :: !Less(cmp, s[j], s[i])
  }

  /** No entry of `s` is below `x`. */
  predicate Above(cmp: Compare, x: Entry, s: seq<Entry>) {
    forall i | 0 <= i < |s| :: !Less(cmp, s[i], x)
  }

  /** `__ina_split`: the fast pointer moves two nodes for each node the slow
      one moves, and the chain is cut after the slow node. Started at the
      head of an `n`-node chain, with `fast` and `slow` counting moves, this
      yields the length of the first half. */
  function SplitAt(n: nat, fast: nat, slow: nat): (m: nat)
    requires 0 < n && fast == 2 * slow && fast < n
    ensures m == (n + 1) / 2
    decreases n - fast
  {
    if fast + 1 < n && fast + 2 < n then SplitAt(n, fast + 2, slow + 1)
    else slow + 1
  }

  /** `__ina_merge`: the first list's head is taken only when it compares
      strictly below the second's, so on ties the second list goes first. */
  function Merge(cmp: Compare, a: seq<Entry>, b: seq<Entry>): (r: seq<Entry>)
    ensures multiset(r) == multiset(a) + multiset(b)
    ensures |r| == |a| + |b|
    decreases |a| + |b|
  {
    if |a| == 0 then b
    else if |b| == 0 then a
    else if Less(cmp, a[0], b[0]) then
      assert a == [a[0]] + a[1..];
      [a[0]] + Merge(cmp, a[1..], b)
    else
      assert b == [b[0]] + b[1..];
      [b[0]] + Merge(cmp, a, b[1..])
  }

  /** `__ina_mergesort`: chains of fewer than two nodes come back as they
      are; longer ones are split, both halves sorted and merged. */
  function MergeSort(cmp: Compare, s: seq<Entry>): (r: seq<Entry>)
    ensures multiset(r) == multiset(s)
    ensures |r| == |s|
    decreases |s|
  {
    if |s| <= 1 then s
    else
      var m := SplitAt(|s|, 0, 0);
      assert s == s[..m] + s[m..];
      Merge(cmp, MergeSort(cmp, s[..m]), MergeSort(cmp, s[m..]))
  }

  /** A lower bound of both inputs bounds the merge. */
  lemma {:induction false} MergeAbove(cmp: Compare, x: Entry, a: seq<Entry>, b: seq<Entry>)
    requires Above(cmp, x, a) && Above(cmp, x, b)
    ensures Above(cmp, x, Merge(cmp, a, b))
    decreases |a| + |b|
  {
    if |a| > 0 && |b| > 0 {
      if Less(cmp, a[0], b[0]) {
        MergeAbove(cmp, x, a[1..], b);
      } else {
        MergeAbove(cmp, x, a, b[1..]);
      }
    }
  }

  /** A bound below a sorted list may be put in front of it. */
  lemma ConsSorted(cmp: Compare, x: Entry, r: seq<Entry>)
    requires Above(cmp, x, r) && Sorted(cmp, r)
    ensures Sorted(cmp, [x] + r)
  {
    var q := [x] + r;
    forall i, j | 0 <= i < j < |q|
      ensures !Less(cmp, q[j], q[i])
    {
      if i == 0 {
        assert q[j] == r[j - 1];
      } else {
        assert q[i] == r[i - 1] && q[j] == r[j - 1];
      }
    }
  }

  lemma LessTrans(cmp: Compare, x: nat, y: nat, z: nat)
    requires StrictWeak(cmp)
    ensures cmp(x, y) < 0 && cmp(y, z) < 0 ==> cmp(x, z) < 0
    ensures cmp(x, x) >= 0
  {
  }

  lemma NotLessTrans(cmp: Compare, x: nat, y: nat, z: nat)
    requires StrictWeak(cmp)
    ensures cmp(x, y) >= 0 && cmp(y, z) >= 0 ==> cmp(x, z) >= 0
    ensures cmp(x, x) >= 0
  {
  }

  /** When the first list's head is taken, it bounds the second list. */
  lemma TakenFirst(cmp: Compare, a: seq<Entry>, b: seq<Entry>)
    requires StrictWeak(cmp) && Sorted(cmp, b)
    requires |a| > 0 && |b| > 0 && Less(cmp, a[0], b[0])
    ensures Above(cmp, a[0], b)
  {
    forall i | 0 <= i < |b|
      ensures !Less(cmp, b[i], a[0])
    {
      if i > 0 {
        assert !Less(cmp, b[i], b[0]);
      }
      LessTrans(cmp, b[i].data, a[0].data, b[0].data);
    }
  }

  /** When the second list's head is taken, it bounds the first list. */
  lemma TakenSecond(cmp: Compare, a: seq<Entry>, b: seq<Entry>)
    requires StrictWeak(cmp) && Sorted(cmp, a)
    requires |a| > 0 && |b| > 0 && !Less(cmp, a[0], b[0])
    ensures Above(cmp, b[0], a)
  {
    forall i | 0 <= i < |a|
      ensures !Less(cmp, a[i], b[0])
    {
      if i > 0 {
        assert !Less(cmp, a[i], a[0]);
      }
      NotLessTrans(cmp, a[i].data, a[0].data, b[0].data);
    }
  }

  /** Merging two sorted lists gives a sorted list. */
  lemma {:induction false} MergeSorted(cmp: Compare, a: seq<Entry>, b: seq<Entry>)
    requires StrictWeak(cmp)
    requires Sorted(cmp, a) && Sorted(cmp, b)
    ensures Sorted(cmp, Merge(cmp, a, b))
    decreases |a| + |b|
  {
    if |a| > 0 && |b| > 0 {
      if Less(cmp, a[0], b[0]) {
        MergeSorted(cmp, a[1..], b);
        TakenFirst(cmp, a, b);
        assert Above(cmp, a[0], a[1..]);
        MergeAbove(cmp, a[0], a[1..], b);
        ConsSorted(cmp, a[0], Merge(cmp, a[1..], b));
      } else {
        MergeSorted(cmp, a, b[1..]);
        TakenSecond(cmp, a, b);
        assert Above(cmp, b[0], b[1..]);
        MergeAbove(cmp, b[0], a, b[1..]);
        ConsSorted(cmp, b[0], Merge(cmp, a, b[1..]));
      }
    }
  }

  /** With a strict weak order the merge sort sorts. */
  lemma {:induction false} MergeSortSorts(cmp: Compare, s: seq<Entry>)
    requires StrictWeak(cmp)
    ensures Sorted(cmp, MergeSort(cmp, s))
    decreases |s|
  {
    if |s| > 1 {
      var m := SplitAt(|s|, 0, 0);
      MergeSortSorts(cmp, s[..m]);
      MergeSortSorts(cmp, s[m..]);
      MergeSorted(cmp, MergeSort(cmp, s[..m]), MergeSort(cmp, s[m..]));
    }
  }

  /** A comparator that finds all data equal. */
  function AllEqual(a: nat, b: nat): int {
    0
  }

  lemma AllEqualIsStrictWeak()
    ensures StrictWeak(AllEqual)
  {
  }

  /** The sort is not stable: when the comparator finds all data equal, two
      nodes come out in the reverse of their order. */
  lemma TiesReverse(x: Entry, y: Entry)
    ensures MergeSort(AllEqual, [x, y]) == [y, x]
  {
    var s := [x, y];
    assert SplitAt(2, 0, 0) == 1;
    assert s[..1] == [x] && s[1..] == [y];
    assert !Less(AllEqual, x, y);
    assert Merge(AllEqual, [x], [y]) == [y] + Merge(AllEqual, [x], []);
  }
}
